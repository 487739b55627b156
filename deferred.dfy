/** Primitives shared by the deferred ELF content builders: addresses and
    machine words, the error kinds the builders report, rounding to an
    alignment, and the keyed, append-only row list (a DeferredMap) that every
    table builder fills during the declare phase. */
module Deferred {

  /** address_t: a virtual address or file offset (width not modelled). */
  type Address = nat

  /** An unsigned 64-bit machine word (unsigned long, address_t on disk). */
  type Word = x: int | 0 <= x < 0x1_0000_0000_0000_0000

  /** An ElfXX_Word: an unsigned 32-bit header field. */
  type Word32 = x: int | 0 <= x < 0x1_0000_0000

  /** sizeof(address_t) on the 64-bit targets the generator writes. */
  const POINTER_WIDTH: nat := 8

  /** The failures a builder reports instead of producing content. */
  datatype Error =
    | DuplicateKey      // a second row registered under an existing key
    | UnsupportedLink   // no relocation case for this source or Link kind
    | Misaligned        // a section needs more alignment than its segment
    | NegativeSize      // padding would have to end before it starts
    | NotFound          // no row for the requested key or section
    | Malformed         // serialised records cannot be read back

  datatype Option<T> = None | Some(value: T)

  datatype Result<T> = Ok(value: T) | Err(error: Error)

  /** One row of a DeferredMap: its key and the (deferred) row content. */
  datatype Entry<K, V> = Entry(key: K, value: V)

  predicate HasKey<K(==), V>(rows: seq<Entry<K, V>>, k: K) {
    exists i :: 0 <= i < |rows| && rows[i].key == k
  }

  /** The DeferredMap invariant: no two rows share a key. */
  predicate UniqueKeys<K(==), V>(rows: seq<Entry<K, V>>) {
    forall i, j :: 0 <= i < j < |rows| ==> rows[i].key != rows[j].key
  }

  /** Registers row `v` under key `k` at the end of `rows`. A key that is
      already present is rejected: the existing row is never overwritten. */
  function Add<K(==), V>(rows: seq<Entry<K, V>>, k: K, v: V): (r: Result<seq<Entry<K, V>>>)
    ensures r.Err? <==> HasKey(rows, k)
    ensures r.Err? ==> r.error == DuplicateKey
    ensures r.Ok? ==> |r.value| == |rows| + 1 && r.value[..|rows|] == rows
    ensures r.Ok? ==> r.value[|rows|] == Entry(k, v)
    ensures r.Ok? && UniqueKeys(rows) ==> UniqueKeys(r.value)
  {
    if HasKey(rows, k) then Err(DuplicateKey) else Ok(rows + [Entry(k, v)])
  }

  /** A run of registrations in order, stopping at the first failure (a
      failed registration aborts the build). */
  function AddAll<K(==), V>(rows: seq<Entry<K, V>>, adds: seq<Entry<K, V>>): (r: Result<seq<Entry<K, V>>>)
    decreases |adds|
  {
    if adds == [] then Ok(rows)
    else
      match Add(rows, adds[0].key, adds[0].value)
      case Ok(next) => AddAll(next, adds[1..])
      case Err(e) => Err(e)
  }

  /** A run of registrations succeeds exactly when no key repeats, and then
      the table lists every row in registration order; otherwise it stops
      with DuplicateKey, never overwriting a row. */
  lemma {:induction false} AddAllSucceedsIffDistinct<K, V>(rows: seq<Entry<K, V>>, adds: seq<Entry<K, V>>)
    requires UniqueKeys(rows)
    ensures AddAll(rows, adds).Ok? <==> UniqueKeys(rows + adds)
    ensures AddAll(rows, adds).Ok? ==> AddAll(rows, adds).value == rows + adds
    ensures AddAll(rows, adds).Err? ==> AddAll(rows, adds).error == DuplicateKey
    decreases |adds|
  {
    if adds == [] {
      assert rows + adds == rows;
    } else {
      var e := adds[0];
      if HasKey(rows, e.key) {
        var i :| 0 <= i < |rows| && rows[i].key == e.key;
        assert (rows + adds)[i].key == (rows + adds)[|rows|].key;
      } else {
        var next := rows + [e];
        AddAllSucceedsIffDistinct(next, adds[1..]);
        assert next + adds[1..] == rows + adds;
      }
    }
  }

  /** Alignment as ELF reads it: 0 and 1 both mean "no constraint". */
  function EffectiveAlign(a: nat): (r: nat)
    ensures r >= 1
    ensures a >= 1 ==> r == a
  {
    if a == 0 then 1 else a
  }

  /** The least multiple of `a` that is at least `x`. */
  function RoundUp(x: nat, a: nat): (r: nat)
    requires a > 0
    ensures r % a == 0 && x <= r < x + a
  {
    if x % a == 0 then x
    else
      assert x == (x / a) * a + x % a;
      DivisionUnique(x + (a - x % a), a, x / a + 1, 0);
      x + (a - x % a)
  }

  /** RoundUp picks the least multiple: any multiple of `a` at or above `x`
      is at or above RoundUp(x, a). */
  lemma RoundUpIsLeast(x: nat, a: nat, m: nat)
    requires a > 0 && m % a == 0 && x <= m
    ensures RoundUp(x, a) <= m
  {
    if x % a != 0 {
      assert x == (x / a) * a + x % a;
      assert m == (m / a) * a;
      if m / a <= x / a {
        MulMonotone(m / a, x / a, a);
        assert false;
      }
      MulMonotone(x / a + 1, m / a, a);
    }
  }

  lemma MulAtLeast(k: int, a: nat)
    requires k >= 1
    ensures k * a >= a
  {}

  lemma MulMonotone(k1: int, k2: int, a: nat)
    requires k1 <= k2
    ensures k1 * a <= k2 * a
  {
    if k1 < k2 {
      MulAtLeast(k2 - k1, a);
      assert (k2 - k1) * a == k2 * a - k1 * a;
    }
  }

  /** Euclidean division is unique: q and r are x's quotient and remainder. */
  lemma DivisionUnique(x: nat, a: nat, q: nat, r: nat)
    requires a > 0 && r < a && x == q * a + r
    ensures x % a == r && x / a == q
  {
    var q', r' := x / a, x % a;
    assert x == q' * a + r';
    if q' > q {
      assert (q' - q) * a == q' * a - q * a;
      MulAtLeast(q' - q, a);
    } else if q' < q {
      assert (q - q') * a == q * a - q' * a;
      MulAtLeast(q - q', a);
    }
  }
}
