/** The page layer: `Container` of Xkein.Memory/Memory.cs. A container is
    one fixed-size page that carves blocks out of its own region, placing
    each request first-fit in the free gaps between live blocks. */
module Containers {
  import opened Options
  import opened Blocks
  import opened Search

  /** A page: its own region (the `Memory` base part of the source class)
      and `_used`, the live blocks in insertion order. */
  datatype Container = Container(region: Memory, used: seq<Memory>) {

    function Begin(): int { region.Begin() }

    function End(): int { region.End() }
  }

  /** A freshly constructed page of `size` bytes at `address`, with no
      live blocks. */
  function NewContainer(address: int, size: int): Container {
    Container(Memory(address, size), [])
  }

  /** What `TryAlloc` hands back: its boolean result, the page after the
      call, and the `out` block (`None` where the source stores null). */
  datatype Placement = Placement(ok: bool, page: Container, memory: Option<Memory>)

  /** What `Free` does: either the page without the removed block, or the
      `InvalidOperationException` it throws for an address it does not
      recognise. */
  datatype FreeResult = Freed(page: Container, block: Memory) | InvalidOperation(address: int)

  /** The live blocks' ranges ordered by start address (`usedRanges`). */
  function UsedRanges(c: Container): (r: seq<Range>)
    ensures Sorted(r)
    ensures multiset(r) == multiset(RangesOf(c.used))
    ensures |r| == |c.used|
  {
    var s := RangesOf(c.used);
    var r := SortByStart(s);
    assert |r| == |multiset(r)| == |multiset(s)| == |s|;
    r
  }

  /** The gap before the lowest block, present only when the page starts
      strictly before it. */
  function Leading(begin: int, r: seq<Range>): (g: seq<Range>)
    requires |r| > 0
  {
    if begin < r[0].start then [Range(begin, r[0].start)] else []
  }

  /** One gap between every two blocks that are neighbours in address
      order, whether or not it is empty. */
  function Between(r: seq<Range>): (g: seq<Range>)
    requires |r| > 0
    ensures |g| == |r| - 1
    ensures forall i :: 0 <= i < |g| ==> g[i] == Range(r[i].end, r[i + 1].start)
  {
    if |r| == 1 then [] else [Range(r[0].end, r[1].start)] + Between(r[1..])
  }

  /** The gap after the highest-ordered block, present only when that
      block ends strictly before the page does. */
  function Trailing(end: int, r: seq<Range>): (g: seq<Range>)
    requires |r| > 0
  {
    if r[|r| - 1].end < end then [Range(r[|r| - 1].end, end)] else []
  }

  /** The gap list of a page `[begin, end)` whose sorted block ranges are `r`. */
  function GapsOf(begin: int, end: int, r: seq<Range>): (g: seq<Range>)
    requires |r| > 0
  {
    Leading(begin, r) + Between(r) + Trailing(end, r)
  }

  /** `unusedRanges` of a page that has at least one live block. */
  function FreeGaps(c: Container): (g: seq<Range>)
    requires |c.used| > 0
  {
    GapsOf(c.Begin(), c.End(), UsedRanges(c))
  }

  /** The test `TryAlloc` passes to `Find`: the gap is at least `length`
      long. */
  function Fits(length: int): Range -> bool {
    (g: Range) => g.Length() >= length
  }

  /** Position `i` holds the first gap, in list order, long enough for
      `length`. */
  predicate IsFirstFit(gaps: seq<Range>, length: int, i: int) {
    IsFirst(gaps, Fits(length), i)
  }

  /** Lines 85-90 of `TryAlloc`: the start of the first gap long enough for
      `length`, or `None` when there is none or when that gap equals the
      `default(Range)` sentinel. */
  function PlaceInGaps(gaps: seq<Range>, length: int): (r: Option<int>)
    ensures r.Some? ==>
              exists i :: && IsFirstFit(gaps, length, i)
                          && gaps[i] != NoFit
                          && r.value == gaps[i].start
    ensures r.None? ==>
              || (forall j :: 0 <= j < |gaps| ==> gaps[j].Length() < length)
              || (exists i :: IsFirstFit(gaps, length, i) && gaps[i] == NoFit)
  {
    // `Find` yields `default(Range)` when nothing fits, so both a miss and
    // a fitting gap equal to the sentinel end in failure.
    match FindFirst(gaps, Fits(length))
    case None => None
    case Some(i) => if gaps[i] == NoFit then None else Some(gaps[i].start)
  }

  /** The search of `TryAlloc` stops at the first fitting gap. */
  lemma FindsFirstFit(gaps: seq<Range>, length: int, i: int)
    requires IsFirstFit(gaps, length, i)
    ensures FindFirst(gaps, Fits(length)) == Some(i)
  {
    var k := FindFirst(gaps, Fits(length));
    FirstIsUnique(gaps, Fits(length), i, k.value);
  }

  /** A first fitting gap other than `default(Range)` is where the block
      goes. */
  lemma FirstFitPlaces(gaps: seq<Range>, length: int, i: int)
    requires IsFirstFit(gaps, length, i)
    requires gaps[i] != NoFit
    ensures PlaceInGaps(gaps, length) == Some(gaps[i].start)
  {
    FindsFirstFit(gaps, length, i);
  }

  /** A first fitting gap equal to `default(Range)` makes placement fail,
      even when a later gap would fit. */
  lemma SentinelFitFails(gaps: seq<Range>, length: int, i: int)
    requires IsFirstFit(gaps, length, i)
    requires gaps[i] == NoFit
    ensures PlaceInGaps(gaps, length).None?
  {
    FindsFirstFit(gaps, length, i);
  }

  /** `Container.TryAlloc`. An empty page places the block at its own
      address whatever the length; otherwise the block goes to the start
      of the first gap that is long enough (see `PlaceInGaps`). A new
      block is appended to `_used`; on failure nothing changes. */
  function TryAlloc(c: Container, length: int): (r: Placement)
    ensures r.ok <==> r.memory.Some?
    ensures !r.ok ==> r.page == c
    ensures r.ok ==> r.memory.value.size == length && r.page == c.(used := c.used + [r.memory.value])
    ensures |c.used| == 0 ==> r.ok && r.memory.value.address == c.region.address
    ensures |c.used| > 0 && r.ok ==>
              exists i :: && IsFirstFit(FreeGaps(c), length, i)
                          && FreeGaps(c)[i] != NoFit
                          && r.memory.value.address == FreeGaps(c)[i].start
    ensures |c.used| > 0 && !r.ok ==>
              || (forall j :: 0 <= j < |FreeGaps(c)| ==> FreeGaps(c)[j].Length() < length)
              || (exists i :: IsFirstFit(FreeGaps(c), length, i) && FreeGaps(c)[i] == NoFit)
  {
    if |c.used| == 0 then
      var m := Memory(c.region.address, length);
      Placement(true, c.(used := c.used + [m]), Some(m))
    else
      match PlaceInGaps(FreeGaps(c), length)
      case None => Placement(false, c, None)
      case Some(start) =>
        var m := Memory(start, length);
        Placement(true, c.(used := c.used + [m]), Some(m))
  }

  /** The test `Free` passes to `Find`: the closed interval
      `[Begin, End]` of the block contains `a`. */
  function CoversAddress(a: int): Memory -> bool {
    (m: Memory) => m.Covers(a)
  }

  /** Position `i` holds the first block, in insertion order, whose closed
      interval contains `a`. */
  predicate IsFirstCovering(used: seq<Memory>, a: int, i: int) {
    IsFirst(used, CoversAddress(a), i)
  }

  /** `Container.Free`: removes the first block in insertion order whose
      closed interval holds `a`, or reports the address it could not free. */
  function Free(c: Container, a: int): (r: FreeResult)
    ensures r.Freed? <==> exists m | m in c.used :: m.Covers(a)
    ensures r.Freed? ==>
              exists i :: && IsFirstCovering(c.used, a, i)
                          && r.block == c.used[i]
                          && r.page == c.(used := c.used[..i] + c.used[i + 1..])
    ensures r.Freed? ==> multiset(r.page.used) + multiset{r.block} == multiset(c.used)
    ensures r.InvalidOperation? ==> r.address == a
  {
    match FindFirst(c.used, CoversAddress(a))
    case None => InvalidOperation(a)
    case Some(i) =>
      assert c.used == c.used[..i] + [c.used[i]] + c.used[i + 1..];
      Freed(c.(used := c.used[..i] + c.used[i + 1..]), c.used[i])
  }

  /** A healthy page: every live block is non-empty, lies inside the page,
      and no two live blocks overlap. */
  predicate Valid(c: Container) {
    WellFormed(RangesOf(c.used), c.Begin(), c.End())
  }

  /** Address `a` belongs to the page and to none of its live blocks. */
  predicate IsFree(c: Container, a: int) {
    c.Begin() <= a < c.End() && forall m | m in c.used :: !m.Holds(a)
  }
}
