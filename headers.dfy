/** Section and program header tables (ShdrTableContent, PhdrTableContent),
    the segment description they are built from (SegmentInfo), and the layout
    rule that places a segment's sections one after another
    (assignAddressesToSections; System V ABI, chapter 5, "Program Header":
    each section sits at an address that is a multiple of its alignment, and
    a segment's p_align bounds the alignment of what it holds). */
module Headers {
  import opened Deferred

  /** An external Section as layout sees it: its name, its size in bytes and
      its required alignment (sh_addralign, where 0 and 1 mean none). */
  datatype Section = Section(name: string, size: nat, alignment: nat)

  /** ShdrTableContent: one header row per section, in the order the
      sections were added; the row contents are computed at serialise time. */
  class ShdrTableContent {
    var rows: seq<Entry<Section, ()>>

    ghost predicate Valid()
      reads this
    {
      UniqueKeys(rows)
    }

    constructor ()
      ensures Valid() && rows == []
    {
      rows := [];
    }

    /** add: appends the header row for `section`; a section that already
        has a row is rejected. On success returns the new row's index. */
    method Add(section: Section) returns (r: Result<nat>)
      requires Valid()
      modifies this
      ensures Valid()
      ensures r.Err? <==> HasKey(old(rows), section)
      ensures r.Err? ==> r.error == DuplicateKey && rows == old(rows)
      ensures r.Ok? ==> r.value == |old(rows)| && rows == old(rows) + [Entry(section, ())]
    {
      var added := Deferred.Add(rows, section, ());
      if added.Err? {
        return Err(added.error);
      }
      r := Ok(|rows|);
      rows := added.value;
    }
  }

  /** SegmentInfo: a segment's type, flags and alignment, fixed when it is
      created, plus an extra memory-only size and the sections it holds. */
  class SegmentInfo {
    const segmentType: Word32
    const flags: Word32
    const alignment: Address
    var additionalMemSize: nat
    var containsList: seq<Section>

    constructor (segmentType: Word32, flags: Word32, alignment: Address)
      ensures this.segmentType == segmentType && this.flags == flags && this.alignment == alignment
      ensures additionalMemSize == 0 && containsList == []
    {
      this.segmentType := segmentType;
      this.flags := flags;
      this.alignment := alignment;
      additionalMemSize := 0;
      containsList := [];
    }

    /** setAdditionalMemSize: changes that one field only. */
    method SetAdditionalMemSize(a: nat)
      modifies this`additionalMemSize
      ensures additionalMemSize == a
    {
      additionalMemSize := a;
    }

    /** addContains: appends a section at the end of the list, nothing else. */
    method AddContains(section: Section)
      modifies this`containsList
      ensures containsList == old(containsList) + [section]
    {
      containsList := containsList + [section];
    }
  }

  /** Where each of `sections` is placed when the first may start at `addr`
      inside a segment aligned to `segAlign`: each section goes at its own
      alignment boundary at or after the previous section's end. Misaligned
      when some section needs more alignment than the segment gives. */
  function Placement(sections: seq<Section>, segAlign: nat, addr: Address): (r: Result<seq<Address>>)
    ensures r.Ok? ==> |r.value| == |sections|
    ensures r.Err? ==> r.error == Misaligned
    decreases |sections|
  {
    if sections == [] then Ok([])
    else
      var s := sections[0];
      if EffectiveAlign(s.alignment) > EffectiveAlign(segAlign) then Err(Misaligned)
      else
        var here := RoundUp(addr, EffectiveAlign(s.alignment));
        match Placement(sections[1..], segAlign, here + s.size)
        case Ok(rest) => Ok([here] + rest)
        case Err(e) => Err(e)
  }

  /** One step of Placement, as the placement loop takes it: if the whole
      list's placement is `placed` followed by the placement of `sections`
      from `addr`, then it is `placed`, then the first section's address,
      then the placement of the rest from that section's end. */
  lemma PlacementStep(sections: seq<Section>, segAlign: nat, addr: Address,
                      placed: seq<Address>, whole: Result<seq<Address>>)
    requires sections != []
    requires EffectiveAlign(sections[0].alignment) <= EffectiveAlign(segAlign)
    requires Placement(sections, segAlign, addr).Ok? ==> whole == Ok(placed + Placement(sections, segAlign, addr).value)
    requires Placement(sections, segAlign, addr).Err? ==> whole.Err?
    ensures var here := RoundUp(addr, EffectiveAlign(sections[0].alignment));
      var rest := Placement(sections[1..], segAlign, here + sections[0].size);
      && (rest.Ok? ==> whole == Ok((placed + [here]) + rest.value))
      && (rest.Err? ==> whole.Err?)
  {
    var here := RoundUp(addr, EffectiveAlign(sections[0].alignment));
    var rest := Placement(sections[1..], segAlign, here + sections[0].size);
    if rest.Ok? {
      assert placed + ([here] + rest.value) == (placed + [here]) + rest.value;
    }
  }

  /** Placement fails exactly when some section's alignment exceeds the
      segment's. */
  lemma {:induction false} PlacementFailsIffOveraligned(sections: seq<Section>, segAlign: nat, addr: Address)
    ensures Placement(sections, segAlign, addr).Err?
        <==> exists i :: 0 <= i < |sections| && EffectiveAlign(sections[i].alignment) > EffectiveAlign(segAlign)
  {
    if sections != [] {
      var s := sections[0];
      var here := RoundUp(addr, EffectiveAlign(s.alignment));
      PlacementFailsIffOveraligned(sections[1..], segAlign, here + s.size);
      if EffectiveAlign(s.alignment) <= EffectiveAlign(segAlign) {
        if exists i :: 0 <= i < |sections| && EffectiveAlign(sections[i].alignment) > EffectiveAlign(segAlign) {
          var i :| 0 <= i < |sections| && EffectiveAlign(sections[i].alignment) > EffectiveAlign(segAlign);
          assert sections[1..][i - 1] == sections[i];
        }
      }
    }
  }

  /** A successful placement of a non-empty list is the first section's
      aligned address followed by a successful placement of the rest from
      that section's end. */
  lemma PlacementCons(sections: seq<Section>, segAlign: nat, addr: Address)
    requires sections != [] && Placement(sections, segAlign, addr).Ok?
    ensures var here := RoundUp(addr, EffectiveAlign(sections[0].alignment));
      var rest := Placement(sections[1..], segAlign, here + sections[0].size);
      rest.Ok? && Placement(sections, segAlign, addr).value == [here] + rest.value
  {
  }

  /** Every section of a successful placement sits at a multiple of its
      own alignment. */
  lemma {:induction false} PlacementAligned(sections: seq<Section>, segAlign: nat, addr: Address, i: nat)
    requires Placement(sections, segAlign, addr).Ok? && i < |sections|
    ensures Placement(sections, segAlign, addr).value[i] % EffectiveAlign(sections[i].alignment) == 0
  {
    var here := RoundUp(addr, EffectiveAlign(sections[0].alignment));
    PlacementCons(sections, segAlign, addr);
    if i > 0 {
      PlacementAligned(sections[1..], segAlign, here + sections[0].size, i - 1);
    }
  }

  /** Each later section of a successful placement takes the first address
      aligned for it at or after its predecessor's end. */
  lemma {:induction false} PlacementChain(sections: seq<Section>, segAlign: nat, addr: Address, i: nat, j: nat)
    requires Placement(sections, segAlign, addr).Ok? && j == i + 1 && j < |sections|
    ensures var a := Placement(sections, segAlign, addr).value;
      && a[j] == RoundUp(a[i] + sections[i].size, EffectiveAlign(sections[j].alignment))
      && a[j] >= a[i] + sections[i].size
  {
    var here := RoundUp(addr, EffectiveAlign(sections[0].alignment));
    var tail := sections[1..];
    var next := here + sections[0].size;
    PlacementCons(sections, segAlign, addr);
    var a := Placement(sections, segAlign, addr).value;
    var rest := Placement(tail, segAlign, next).value;
    assert a == [here] + rest;
    if i > 0 {
      PlacementChain(tail, segAlign, next, i - 1, i);
      assert a[i] == rest[i - 1] && a[j] == rest[i];
      assert sections[i] == tail[i - 1] && sections[j] == tail[i];
    } else {
      PlacementCons(tail, segAlign, next);
      assert a[0] == here && a[1] == rest[0] && sections[1] == tail[0];
    }
  }

  /** All sections of a successful placement are aligned (PlacementAligned
      for every index). */
  lemma {:induction false} PlacementAlignedAll(sections: seq<Section>, segAlign: nat, addr: Address)
    requires Placement(sections, segAlign, addr).Ok?
    ensures var a := Placement(sections, segAlign, addr).value;
      forall i :: 0 <= i < |sections| ==> a[i] % EffectiveAlign(sections[i].alignment) == 0
  {
    var a := Placement(sections, segAlign, addr).value;
    forall i | 0 <= i < |sections|
      ensures a[i] % EffectiveAlign(sections[i].alignment) == 0
    {
      PlacementAligned(sections, segAlign, addr, i);
    }
  }

  /** PlacementChain for every pair of neighbours. */
  lemma {:induction false} PlacementChainAll(sections: seq<Section>, segAlign: nat, addr: Address)
    requires Placement(sections, segAlign, addr).Ok?
    ensures var a := Placement(sections, segAlign, addr).value;
      forall i, j :: 0 <= i < j < |sections| && j == i + 1 ==>
        && a[j] == RoundUp(a[i] + sections[i].size, EffectiveAlign(sections[j].alignment))
        && a[j] >= a[i] + sections[i].size
  {
    var a := Placement(sections, segAlign, addr).value;
    forall i, j | 0 <= i < j < |sections| && j == i + 1
      ensures && a[j] == RoundUp(a[i] + sections[i].size, EffectiveAlign(sections[j].alignment))
              && a[j] >= a[i] + sections[i].size
    {
      PlacementChain(sections, segAlign, addr, i, j);
    }
  }

  /** A successful placement starts no earlier than `addr`, aligns every
      section, and never lets a section overlap its predecessor; each section
      takes the first suitably aligned address after its predecessor's end. */
  lemma {:induction false} PlacementSound(sections: seq<Section>, segAlign: nat, addr: Address)
    requires Placement(sections, segAlign, addr).Ok?
    ensures |sections| > 0 ==>
      Placement(sections, segAlign, addr).value[0] == RoundUp(addr, EffectiveAlign(sections[0].alignment))
    ensures var a := Placement(sections, segAlign, addr).value;
      forall i :: 0 <= i < |sections| ==> a[i] % EffectiveAlign(sections[i].alignment) == 0
    ensures var a := Placement(sections, segAlign, addr).value;
      forall i, j :: 0 <= i < j < |sections| && j == i + 1 ==>
        && a[j] == RoundUp(a[i] + sections[i].size, EffectiveAlign(sections[j].alignment))
        && a[j] >= a[i] + sections[i].size
  {
    if sections != [] {
      PlacementCons(sections, segAlign, addr);
    }
    PlacementAlignedAll(sections, segAlign, addr);
    PlacementChainAll(sections, segAlign, addr);
  }

  /** Sections placed in one segment never overlap: every section lies
      wholly after every earlier one. */
  lemma {:induction false} PlacementDisjoint(sections: seq<Section>, segAlign: nat, addr: Address, i: nat, j: nat)
    requires Placement(sections, segAlign, addr).Ok?
    requires i < j < |sections|
    ensures var a := Placement(sections, segAlign, addr).value;
      a[i] + sections[i].size <= a[j]
    decreases j - i
  {
    PlacementSound(sections, segAlign, addr);
    var a := Placement(sections, segAlign, addr).value;
    if i + 1 < j {
      PlacementDisjoint(sections, segAlign, addr, i + 1, j);
    }
  }

  /** A segment aligned to 0x1000 holding sections of 0x10 and 0x20 bytes,
      placed from 0x400000, puts the second at 0x400010, ending at 0x400030. */
  lemma PlacementExample()
    ensures var secs := [Section(".a", 0x10, 0x10), Section(".b", 0x20, 0x10)];
      var r := Placement(secs, 0x1000, 0x400000);
      r == Ok([0x400000, 0x400010]) && r.value[1] + secs[1].size == 0x400030
  {
    var secs := [Section(".a", 0x10, 0x10), Section(".b", 0x20, 0x10)];
    assert RoundUp(0x400000, 0x10) == 0x400000;
    assert RoundUp(0x400010, 0x10) == 0x400010;
    var tail := [Section(".b", 0x20, 0x10)];
    assert secs[1..] == tail && tail[1..] == [];
    assert EffectiveAlign(0x10) == 0x10 && EffectiveAlign(0x1000) == 0x1000;
    assert Placement(tail[1..], 0x1000, 0x400030) == Ok([]);
    assert [0x400010] + [] == [0x400010];
    assert Placement(tail, 0x1000, 0x400010) == Ok([0x400010]);
    assert [0x400000] + [0x400010] == [0x400000, 0x400010];
  }

  /** PhdrTableContent: one program header row per segment, in the order the
      segments were added, each optionally pinned to a starting address. */
  class PhdrTableContent {
    var rows: seq<Entry<SegmentInfo, Option<Address>>>

    ghost predicate Valid()
      reads this
    {
      UniqueKeys(rows)
    }

    constructor ()
      ensures Valid() && rows == []
    {
      rows := [];
    }

    /** add(segment[, address]): registers a segment, pinned to `address`
        when one is given; a segment already registered is rejected. */
    method Add(segment: SegmentInfo, address: Option<Address>) returns (r: Result<nat>)
      requires Valid()
      modifies this
      ensures Valid()
      ensures r.Err? <==> HasKey(old(rows), segment)
      ensures r.Err? ==> r.error == DuplicateKey && rows == old(rows)
      ensures r.Ok? ==> r.value == |old(rows)| && rows == old(rows) + [Entry(segment, address)]
    {
      var added := Deferred.Add(rows, segment, address);
      if added.Err? {
        return Err(added.error);
      }
      r := Ok(|rows|);
      rows := added.value;
    }

    /** assignAddressesToSections: walks the segment's sections in order from
        `addr`, giving each the next address aligned for it; fails when a
        section's alignment exceeds the segment's. */
    method AssignAddressesToSections(segment: SegmentInfo, addr: Address) returns (r: Result<seq<Address>>)
      ensures r == Placement(segment.containsList, segment.alignment, addr)
    {
      var segAlign := segment.alignment;
      ghost var whole := Placement(segment.containsList, segAlign, addr);
      var remaining := segment.containsList;
      var placed: seq<Address> := [];
      var next: Address := addr;
      assert whole.Ok? ==> placed + whole.value == whole.value;
      while remaining != []
        invariant Placement(remaining, segAlign, next).Ok? ==>
                    whole == Ok(placed + Placement(remaining, segAlign, next).value)
        invariant Placement(remaining, segAlign, next).Err? ==> whole.Err?
        decreases |remaining|
      {
        var s := remaining[0];
        var align := EffectiveAlign(s.alignment);
        if align > EffectiveAlign(segAlign) {
          return Err(Misaligned);
        }
        PlacementStep(remaining, segAlign, next, placed, whole);
        var here := RoundUp(next, align);
        placed := placed + [here];
        next := here + s.size;
        remaining := remaining[1..];
      }
      assert placed + [] == placed;
      r := Ok(placed);
    }
  }
}
