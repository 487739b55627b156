/** PagePaddingContent: zero filler that carries the file from the end of
    the previous section up to a page boundary, so that the next segment
    can start on its own page. */
module Padding {
  import opened Deferred

  /** The page granularity: 2 MiB. */
  const PAGE_SIZE: nat := 0x200000

  /** The previous section's place in the file, known once layout is done. */
  datatype SectionPlacement = SectionPlacement(offset: Address, size: nat)

  function EndOf(s: SectionPlacement): Address {
    s.offset + s.size
  }

  datatype PagePaddingContent = PagePaddingContent(previousSection: SectionPlacement, desiredOffset: Address)

  /** getSize: the distance from the previous section's end to the page
      boundary at or after the desired offset. A desired offset before the
      previous section's end is an error, even where that page boundary
      still lies past the end and the distance would not be negative. */
  function GetSize(p: PagePaddingContent): (r: Result<nat>)
    ensures r.Err? <==> p.desiredOffset < EndOf(p.previousSection)
    ensures r.Err? ==> r.error == NegativeSize
    ensures r.Ok? ==> var target := EndOf(p.previousSection) + r.value;
      && target % PAGE_SIZE == 0
      && p.desiredOffset <= target < p.desiredOffset + PAGE_SIZE
  {
    var end := EndOf(p.previousSection);
    if p.desiredOffset < end then Err(NegativeSize)
    else Ok(RoundUp(p.desiredOffset, PAGE_SIZE) - end)
  }

  /** The padding is the least that works: no shorter filler ends on a page
      boundary at or after the desired offset. */
  lemma GetSizeIsLeast(p: PagePaddingContent, n: nat)
    requires GetSize(p).Ok?
    requires (EndOf(p.previousSection) + n) % PAGE_SIZE == 0
    requires EndOf(p.previousSection) + n >= p.desiredOffset
    ensures GetSize(p).value <= n
  {
    RoundUpIsLeast(p.desiredOffset, PAGE_SIZE, EndOf(p.previousSection) + n);
  }

  /** writeTo: exactly getSize() zero bytes. */
  function Serialize(p: PagePaddingContent): (r: Result<seq<bv8>>)
    ensures r.Ok? <==> GetSize(p).Ok?
    ensures r.Ok? ==> |r.value| == GetSize(p).value && forall i :: 0 <= i < |r.value| ==> r.value[i] == 0
  {
    match GetSize(p)
    case Ok(n) => Ok(seq(n, _ => 0))
    case Err(e) => Err(e)
  }

  /** A previous section ending at 0x1050 padded to 0x200000 needs 0x1FEFB0
      bytes. */
  lemma PaddingExample()
    ensures GetSize(PagePaddingContent(SectionPlacement(0x1000, 0x50), 0x200000)) == Ok(0x1FEFB0)
  {
    assert RoundUp(0x200000, PAGE_SIZE) == 0x200000;
  }
}
