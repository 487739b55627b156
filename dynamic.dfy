/** The .dynamic section builder (DynamicSectionContent) and its rows
    (DynamicDataPair). Rows are (tag, value) pairs kept in the order they
    were added; a value is either a constant or comes from a generator that
    is only asked for it when the section is serialised. On disk each row is
    one fixed-width record of two 64-bit words, tag then value. */
module Dynamic {
  import opened Deferred

  /** DynamicDataPair: a mutable (key, value) pair; value defaults to 0. */
  class DynamicDataPair {
    var key: Word
    var value: Word

    constructor (key: Word, value: Word := 0)
      ensures this.key == key && this.value == value
    {
      this.key := key;
      this.value := value;
    }

    /** setKey: changes the key only. */
    method SetKey(key: Word)
      modifies this`key
      ensures this.key == key
    {
      this.key := key;
    }

    /** setValue: changes the value only. */
    method SetValue(value: Word)
      modifies this`value
      ensures this.value == value
    {
      this.value := value;
    }
  }

  /** One row of the list: the pair itself, which the caller may still
      change through the reference addPair returns, and the handle of the
      generator that supplies the value at serialise time, if any. */
  datatype DynamicRow = DynamicRow(pair: DynamicDataPair, generator: Option<nat>)

  /** A serialised (tag, value) record. */
  datatype DynamicRecord = DynamicRecord(key: Word, value: Word)

  /** The pairs a list of rows refers to. */
  function Pairs(rows: seq<DynamicRow>): set<DynamicDataPair> {
    set r | r in rows :: r.pair
  }

  /** The records the rows become at serialise time: each pair's current key,
      and its current value or, for a generated row, the generator's value. */
  function Evaluate(rows: seq<DynamicRow>, resolve: nat -> Word): (r: seq<DynamicRecord>)
    reads Pairs(rows)
    ensures |r| == |rows|
    ensures forall i :: 0 <= i < |rows| ==> r[i].key == rows[i].pair.key
    ensures forall i :: 0 <= i < |rows| && rows[i].generator.None? ==> r[i].value == rows[i].pair.value
    ensures forall i :: 0 <= i < |rows| && rows[i].generator.Some? ==> r[i].value == resolve(rows[i].generator.value)
  {
    if rows == [] then []
    else
      var row := rows[0];
      var v := match row.generator
        case None => row.pair.value
        case Some(g) => resolve(g);
      [DynamicRecord(row.pair.key, v)] + Evaluate(rows[1..], resolve)
  }

  lemma {:induction false} EvaluateAppend(rows: seq<DynamicRow>, row: DynamicRow, resolve: nat -> Word)
    ensures Evaluate(rows + [row], resolve) == Evaluate(rows, resolve) + Evaluate([row], resolve)
  {
    if rows != [] {
      assert (rows + [row])[1..] == rows[1..] + [row];
      EvaluateAppend(rows[1..], row, resolve);
    }
  }

  /** Records as consecutive fixed-width words: tag, value, tag, value, ... */
  function Encode(records: seq<DynamicRecord>): (w: seq<Word>)
    ensures |w| == 2 * |records|
  {
    if records == [] then []
    else [records[0].key, records[0].value] + Encode(records[1..])
  }

  lemma {:induction false} EncodeAppend(a: seq<DynamicRecord>, b: seq<DynamicRecord>)
    ensures Encode(a + b) == Encode(a) + Encode(b)
  {
    if a == [] {
      assert a + b == b;
    } else {
      assert (a + b)[1..] == a[1..] + b;
      EncodeAppend(a[1..], b);
    }
  }

  /** Record i occupies words 2i (tag) and 2i + 1 (value). */
  lemma {:induction false} EncodeIndex(records: seq<DynamicRecord>, i: nat)
    requires i < |records|
    ensures Encode(records)[2 * i] == records[i].key && Encode(records)[2 * i + 1] == records[i].value
  {
    if i > 0 {
      EncodeIndex(records[1..], i - 1);
    }
  }

  /** Reads words back as records; an odd word count is malformed. */
  function Decode(words: seq<Word>): (r: Result<seq<DynamicRecord>>)
    ensures r.Err? ==> r.error == Malformed
  {
    if words == [] then Ok([])
    else if |words| == 1 then Err(Malformed)
    else
      match Decode(words[2..])
      case Ok(rest) => Ok([DynamicRecord(words[0], words[1])] + rest)
      case Err(e) => Err(e)
  }

  /** Re-reading serialised records gives back the same records in order. */
  lemma {:induction false} DecodeEncode(records: seq<DynamicRecord>)
    ensures Decode(Encode(records)) == Ok(records)
  {
    if records != [] {
      DecodeEncode(records[1..]);
      assert Encode(records)[2..] == Encode(records[1..]);
      assert records == [records[0]] + records[1..];
    }
  }

  /** Words that read back as records are exactly those records' encoding,
      and reading fails exactly when the word count is odd. */
  lemma {:induction false} EncodeDecode(words: seq<Word>)
    ensures Decode(words).Ok? <==> |words| % 2 == 0
    ensures Decode(words).Ok? ==> Encode(Decode(words).value) == words
  {
    if |words| >= 2 {
      EncodeDecode(words[2..]);
      if Decode(words[2..]).Ok? {
        var rest := Decode(words[2..]).value;
        var recs := [DynamicRecord(words[0], words[1])] + rest;
        assert recs[1..] == rest;
        assert words == [words[0], words[1]] + words[2..];
      }
    }
  }

  /** DynamicSectionContent: the .dynamic rows in the order they were added.
      Each row is a DynamicDataPair of its own, handed back to the caller. */
  class DynamicSectionContent {
    var rows: seq<DynamicRow>

    constructor ()
      ensures rows == []
    {
      rows := [];
    }

    /** addPair(key, value): appends one row with a constant value and
        returns its pair, through which the row can still be changed. */
    method AddPair(key: Word, value: Word) returns (pair: DynamicDataPair)
      modifies this
      ensures fresh(pair) && pair.key == key && pair.value == value
      ensures rows == old(rows) + [DynamicRow(pair, None)]
    {
      pair := new DynamicDataPair(key, value);
      rows := rows + [DynamicRow(pair, None)];
    }

    /** addPair(key, generator): appends one row whose value the generator
        supplies at serialise time, and returns its pair. */
    method AddGeneratedPair(key: Word, generator: nat) returns (pair: DynamicDataPair)
      modifies this
      ensures fresh(pair) && pair.key == key && pair.value == 0
      ensures rows == old(rows) + [DynamicRow(pair, Some(generator))]
    {
      pair := new DynamicDataPair(key);
      rows := rows + [DynamicRow(pair, Some(generator))];
    }

    /** writeTo: one record per row, in insertion order, reading each pair as
        it is now and asking each generator for its value; the words read
        back as those records. */
    method WriteTo(resolve: nat -> Word) returns (words: seq<Word>)
      ensures |words| == 2 * |rows|
      ensures words == Encode(Evaluate(rows, resolve))
      ensures Decode(words) == Ok(Evaluate(rows, resolve))
    {
      words := [];
      var i := 0;
      while i < |rows|
        invariant 0 <= i <= |rows|
        invariant words == Encode(Evaluate(rows[..i], resolve))
      {
        var row := rows[i];
        var v := match row.generator
          case None => row.pair.value
          case Some(g) => resolve(g);
        var rec := DynamicRecord(row.pair.key, v);
        assert rows[..i + 1] == rows[..i] + [row];
        EvaluateAppend(rows[..i], row, resolve);
        assert Evaluate([row], resolve) == [rec];
        EncodeAppend(Evaluate(rows[..i], resolve), [rec]);
        assert Encode([rec]) == [row.pair.key, v];
        words := words + [row.pair.key, v];
        i := i + 1;
      }
      assert rows[..i] == rows;
      DecodeEncode(Evaluate(rows, resolve));
    }
  }
}
