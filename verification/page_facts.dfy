/** Properties of the page layer: the gap list is exactly the free space
    of a healthy page and is in ascending address order, placement is
    first-fit by address, and both page operations keep a page healthy.
    Also the quirks of Xkein.Memory/Memory.cs, shown on concrete pages. */
module PageFacts {
  import opened Blocks
  import opened Containers

  /** Every gap built from a sorted, well-formed block list lies inside the
      page, has no negative length and overlaps no block. */
  lemma GapsOfAreFree(lo: int, hi: int, r: seq<Range>)
    requires |r| > 0
    requires Sorted(r)
    requires WellFormed(r, lo, hi)
    ensures forall g | g in GapsOf(lo, hi, r) ::
              && lo <= g.start <= g.end <= hi
              && forall x | x in r :: Disjoint(g, x)
  {
    SortedDisjointIsOrdered(r, lo, hi);
    forall g | g in GapsOf(lo, hi, r)
      ensures lo <= g.start <= g.end <= hi
      ensures forall x | x in r :: Disjoint(g, x)
    {
      if g in Leading(lo, r) {
        LeadingIsFree(lo, hi, r);
      } else if g in Between(r) {
        BetweenIsFree(lo, hi, r, g);
      } else {
        assert g in Trailing(hi, r);
        TrailingIsFree(lo, hi, r);
      }
    }
  }

  lemma LeadingIsFree(lo: int, hi: int, r: seq<Range>)
    requires |r| > 0
    requires Sorted(r)
    requires WellFormed(r, lo, hi)
    ensures forall g | g in Leading(lo, r) ::
              && lo <= g.start <= g.end <= hi
              && forall x | x in r :: Disjoint(g, x)
  {
    assert r[0] in r;
    forall g, x | g in Leading(lo, r) && x in r ensures Disjoint(g, x) {
      var k :| 0 <= k < |r| && r[k] == x;
      assert k == 0 || r[0].start <= r[k].start;
    }
  }

  lemma BetweenIsFree(lo: int, hi: int, r: seq<Range>, g: Range)
    requires |r| > 0
    requires WellFormed(r, lo, hi)
    requires forall i, j :: 0 <= i < j < |r| ==> r[i].end <= r[j].start
    requires g in Between(r)
    ensures lo <= g.start <= g.end <= hi
    ensures forall x | x in r :: Disjoint(g, x)
  {
    var between := Between(r);
    var i :| 0 <= i < |between| && between[i] == g;
    assert r[i] in r && r[i + 1] in r;
    forall x | x in r ensures Disjoint(g, x) {
      var k :| 0 <= k < |r| && r[k] == x;
      if k < i {
        assert r[k].end <= r[i].start;
      } else if i + 1 < k {
        assert r[i + 1].start <= r[k].start;
      }
    }
  }

  lemma TrailingIsFree(lo: int, hi: int, r: seq<Range>)
    requires |r| > 0
    requires WellFormed(r, lo, hi)
    requires forall i, j :: 0 <= i < j < |r| ==> r[i].end <= r[j].start
    ensures forall g | g in Trailing(hi, r) ::
              && lo <= g.start <= g.end <= hi
              && forall x | x in r :: Disjoint(g, x)
  {
    var n := |r|;
    assert r[n - 1] in r;
    forall g, x | g in Trailing(hi, r) && x in r ensures Disjoint(g, x) {
      var k :| 0 <= k < n && r[k] == x;
      assert k == n - 1 || r[k].end <= r[n - 1].start;
    }
  }

  /** Finds the two neighbouring blocks whose starts enclose `a`. */
  lemma FindSlot(r: seq<Range>, a: int) returns (i: nat)
    requires |r| >= 2
    requires r[0].start <= a < r[|r| - 1].start
    ensures i < |r| - 1 && r[i].start <= a < r[i + 1].start
  {
    i := 0;
    while r[i + 1].start <= a
      invariant i < |r| - 1 && r[i].start <= a
      decreases |r| - i
    {
      i := i + 1;
    }
  }

  /** Every page address that no block holds lies in some gap. */
  lemma {:induction false} GapsOfCover(lo: int, hi: int, r: seq<Range>, a: int)
    requires |r| > 0
    requires Sorted(r)
    requires WellFormed(r, lo, hi)
    requires lo <= a < hi
    requires forall x | x in r :: !x.Holds(a)
    ensures exists g | g in GapsOf(lo, hi, r) :: g.Holds(a)
  {
    var n := |r|;
    var gaps := GapsOf(lo, hi, r);
    assert r[0] in r && r[n - 1] in r;
    if a < r[0].start {
      var g := Range(lo, r[0].start);
      assert g in gaps && g.Holds(a);
    } else if r[n - 1].end <= a {
      var g := Range(r[n - 1].end, hi);
      assert g in gaps && g.Holds(a);
    } else {
      assert a < r[n - 1].start;
      var i := FindSlot(r, a);
      assert r[i] in r;
      var g := Between(r)[i];
      assert g in gaps;
      assert g.Holds(a);
    }
  }

  /** Each gap but the last ends where some block starts, and the next
      gap begins where that block ends. */
  lemma GapsOfAdjacent(lo: int, hi: int, r: seq<Range>, p: int)
    requires |r| > 0
    requires WellFormed(r, lo, hi)
    requires 0 <= p < |GapsOf(lo, hi, r)| - 1
    ensures GapsOf(lo, hi, r)[p].end < GapsOf(lo, hi, r)[p + 1].start
  {
    var g := GapsOf(lo, hi, r);
    var n := |r|;
    var lead := Leading(lo, r);
    var between := Between(r);
    var k := p - |lead|;
    if p < |lead| {
      assert r[0] in r;
      assert g[p].end == r[0].start;
      assert g[p + 1].start == r[0].end;
    } else {
      assert 0 <= k < |between|;
      assert r[k + 1] in r;
      assert g[p] == between[k];
      if k + 1 < |between| {
        assert g[p + 1] == between[k + 1];
        assert between[k + 1] == Range(r[k + 1].end, r[k + 2].start);
      } else {
        assert k + 1 == n - 1;
        var trailing := Trailing(hi, r);
        assert |trailing| > 0;
        assert g[p + 1] == trailing[0];
        assert g[p + 1].start == r[n - 1].end;
      }
    }
  }

  /** Consecutive gaps are separated by a non-empty block, so the gap list
      is strictly ascending. */
  lemma GapsOfAscending(lo: int, hi: int, r: seq<Range>)
    requires |r| > 0
    requires Sorted(r)
    requires WellFormed(r, lo, hi)
    ensures forall p :: 0 <= p < |GapsOf(lo, hi, r)| ==> GapsOf(lo, hi, r)[p].start <= GapsOf(lo, hi, r)[p].end
    ensures forall p, q :: 0 <= p < q < |GapsOf(lo, hi, r)| ==> GapsOf(lo, hi, r)[p].end < GapsOf(lo, hi, r)[q].start
  {
    var g := GapsOf(lo, hi, r);
    GapsOfAreFree(lo, hi, r);
    forall p | 0 <= p < |g| ensures g[p].start <= g[p].end {
      assert g[p] in g;
    }
    forall p | 0 <= p < |g| - 1 ensures g[p].end < g[p + 1].start {
      GapsOfAdjacent(lo, hi, r, p);
    }
    ChainAscending(g);
  }

  /** Ranges that each start no later than they end, with every range
      ending before the next one starts, are ascending throughout. */
  lemma ChainAscending(g: seq<Range>)
    requires forall p :: 0 <= p < |g| ==> g[p].start <= g[p].end
    requires forall p :: 0 <= p < |g| - 1 ==> g[p].end < g[p + 1].start
    ensures forall p, q :: 0 <= p < q < |g| ==> g[p].end < g[q].start
  {
    forall p, q | 0 <= p < q < |g| ensures g[p].end < g[q].start {
      var k := p + 1;
      while k < q
        invariant p < k <= q
        invariant g[p].end < g[k].start
      {
        k := k + 1;
      }
    }
  }

  /** The sorted ranges of a healthy page hold the same ranges as its
      blocks, and are well formed. */
  lemma UsedRangesWellFormed(c: Container)
    requires Valid(c)
    ensures Sorted(UsedRanges(c))
    ensures WellFormed(UsedRanges(c), c.Begin(), c.End())
    ensures forall m | m in c.used :: m.AsRange() in UsedRanges(c)
    ensures forall x | x in UsedRanges(c) :: exists m | m in c.used :: x == m.AsRange()
  {
    var s := RangesOf(c.used);
    SortKeepsWellFormed(s, c.Begin(), c.End());
    forall m | m in c.used ensures m.AsRange() in UsedRanges(c) {
      var i :| 0 <= i < |c.used| && c.used[i] == m;
      assert s[i] in s;
    }
    forall x | x in UsedRanges(c) ensures exists m | m in c.used :: x == m.AsRange() {
      var i :| 0 <= i < |s| && s[i] == x;
      assert c.used[i] in c.used;
    }
  }

  /** On a healthy page every gap lies inside the page and overlaps no
      live block (Memory.cs builds them from the sorted blocks). */
  lemma GapsAreFree(c: Container)
    requires Valid(c)
    requires |c.used| > 0
    ensures forall g | g in FreeGaps(c) ::
              && c.Begin() <= g.start <= g.end <= c.End()
              && forall m | m in c.used :: Disjoint(g, m.AsRange())
  {
    UsedRangesWellFormed(c);
    GapsOfAreFree(c.Begin(), c.End(), UsedRanges(c));
  }

  /** On a healthy page an address inside a gap is free. */
  lemma GapAddressIsFree(c: Container, g: Range, a: int)
    requires Valid(c)
    requires |c.used| > 0
    requires g in FreeGaps(c) && g.Holds(a)
    ensures IsFree(c, a)
  {
    GapsAreFree(c);
    forall m | m in c.used ensures !m.Holds(a) {
      assert Disjoint(g, m.AsRange());
    }
  }

  /** On a healthy page a free address lies inside some gap. */
  lemma FreeAddressInGap(c: Container, a: int)
    requires Valid(c)
    requires |c.used| > 0
    requires IsFree(c, a)
    ensures exists g | g in FreeGaps(c) :: g.Holds(a)
  {
    var r := UsedRanges(c);
    UsedRangesWellFormed(c);
    forall x | x in r ensures !x.Holds(a) {
      var m :| m in c.used && x == m.AsRange();
    }
    GapsOfCover(c.Begin(), c.End(), r, a);
  }

  /** On a healthy page the gaps are exactly its free space: an address
      lies in some gap if and only if it lies in the page and in no live
      block. */
  lemma GapsAreFreeSpace(c: Container, a: int)
    requires Valid(c)
    requires |c.used| > 0
    ensures (exists g | g in FreeGaps(c) :: g.Holds(a)) <==> IsFree(c, a)
  {
    if g :| g in FreeGaps(c) && g.Holds(a) {
      GapAddressIsFree(c, g, a);
    }
    if IsFree(c, a) {
      FreeAddressInGap(c, a);
    }
  }

  /** On a healthy page the gap list is in strictly ascending address
      order, and no gap has a negative length. */
  lemma GapsAscending(c: Container)
    requires Valid(c)
    requires |c.used| > 0
    ensures forall p :: 0 <= p < |FreeGaps(c)| ==> FreeGaps(c)[p].Length() >= 0
    ensures forall p, q :: 0 <= p < q < |FreeGaps(c)| ==> FreeGaps(c)[p].end < FreeGaps(c)[q].start
  {
    UsedRangesWellFormed(c);
    GapsOfAscending(c.Begin(), c.End(), UsedRanges(c));
  }

  /** A non-empty page places a request where `PlaceInGaps` says. */
  lemma TryAllocUsesGaps(c: Container, length: int)
    requires |c.used| > 0
    ensures TryAlloc(c, length).ok <==> PlaceInGaps(FreeGaps(c), length).Some?
    ensures TryAlloc(c, length).ok ==>
              TryAlloc(c, length).memory.value.address == PlaceInGaps(FreeGaps(c), length).value
  {
  }

  /** A non-empty page accepts a request exactly when the first gap long
      enough for it exists and is not `default(Range)`, and then places
      the block at that gap's start. */
  lemma TryAllocFirstFit(c: Container, length: int)
    requires |c.used| > 0
    ensures TryAlloc(c, length).ok <==>
              exists i :: IsFirstFit(FreeGaps(c), length, i) && FreeGaps(c)[i] != NoFit
    ensures TryAlloc(c, length).ok ==>
              exists i :: && IsFirstFit(FreeGaps(c), length, i)
                          && TryAlloc(c, length).memory.value.address == FreeGaps(c)[i].start
  {
    var gaps := FreeGaps(c);
    if exists i :: IsFirstFit(gaps, length, i) && gaps[i] != NoFit {
      var i :| IsFirstFit(gaps, length, i) && gaps[i] != NoFit;
      FirstFitPlaces(gaps, length, i);
      TryAllocUsesGaps(c, length);
    }
  }

  /** In a gap list in ascending address order, a placement is at the
      start of a fitting gap and at the lowest start among fitting gaps. */
  lemma PlacementIsLowestFit(gaps: seq<Range>, length: int)
    requires forall p, q :: 0 <= p < q < |gaps| ==> gaps[p].end < gaps[q].start
    requires forall p :: 0 <= p < |gaps| ==> gaps[p].start <= gaps[p].end
    ensures PlaceInGaps(gaps, length).Some? ==>
              && (exists g | g in gaps :: g.Length() >= length && g.start == PlaceInGaps(gaps, length).value)
              && forall g | g in gaps && g.Length() >= length :: PlaceInGaps(gaps, length).value <= g.start
  {
    var place := PlaceInGaps(gaps, length);
    if place.Some? {
      var i :| IsFirstFit(gaps, length, i) && gaps[i] != NoFit && place.value == gaps[i].start;
      assert gaps[i] in gaps;
      forall g | g in gaps && g.Length() >= length ensures place.value <= g.start {
        var j :| 0 <= j < |gaps| && gaps[j] == g;
        assert Fits(length)(gaps[j]);
        assert i <= j;
        if i < j {
          assert gaps[i].start <= gaps[i].end < gaps[j].start;
        }
      }
    }
  }

  /** On a healthy page that already holds blocks, a successful `TryAlloc`
      places the block at the start of a gap long enough for it, and at
      the lowest address among all such gaps. */
  lemma TryAllocPicksLowestFit(c: Container, length: int)
    requires Valid(c)
    requires |c.used| > 0
    ensures TryAlloc(c, length).ok ==>
              && (exists g | g in FreeGaps(c) :: g.Length() >= length && g.start == TryAlloc(c, length).memory.value.address)
              && forall g | g in FreeGaps(c) && g.Length() >= length :: TryAlloc(c, length).memory.value.address <= g.start
  {
    TryAllocUsesGaps(c, length);
    GapsAscending(c);
    PlacementIsLowestFit(FreeGaps(c), length);
  }

  /** Appending a range disjoint from every entry keeps a list pairwise
      disjoint. */
  lemma SnocDisjoint(s: seq<Range>, x: Range)
    requires PairwiseDisjoint(s)
    requires forall y | y in s :: Disjoint(y, x)
    ensures PairwiseDisjoint(s + [x])
  {
    var t := s + [x];
    forall i, j | 0 <= i < j < |t| ensures Disjoint(t[i], t[j]) {
      assert t[i] == s[i];
      if j < |s| {
        assert t[j] == s[j];
      } else {
        assert s[i] in s;
      }
    }
  }

  /** Adding a non-empty block inside the page that overlaps no live block
      keeps a page healthy. */
  lemma AppendKeepsValid(c: Container, m: Memory)
    requires Valid(c)
    requires m.size > 0
    requires c.Begin() <= m.Begin() && m.End() <= c.End()
    requires forall b | b in c.used :: Disjoint(b.AsRange(), m.AsRange())
    ensures Valid(c.(used := c.used + [m]))
  {
    var s := RangesOf(c.used);
    var x := m.AsRange();
    assert RangesOf(c.used + [m]) == s + [x];
    forall y | y in s ensures Disjoint(y, x) {
      var k :| 0 <= k < |s| && s[k] == y;
      assert c.used[k] in c.used;
    }
    SnocDisjoint(s, x);
  }

  /** A block that fits in a gap of a healthy page lies in the page's free
      space and overlaps no live block. */
  lemma BlockInGapIsFree(c: Container, g: Range, m: Memory)
    requires Valid(c)
    requires |c.used| > 0
    requires g in FreeGaps(c)
    requires m.Begin() == g.start && 0 < m.size <= g.Length()
    ensures c.Begin() <= m.Begin() && m.End() <= c.End()
    ensures forall b | b in c.used :: Disjoint(b.AsRange(), m.AsRange())
    ensures forall a :: m.Holds(a) ==> IsFree(c, a)
  {
    GapsAreFree(c);
    forall a | m.Holds(a) ensures IsFree(c, a) {
      GapsAreFreeSpace(c, a);
      assert g.Holds(a);
    }
  }

  /** With a positive length, `TryAlloc` keeps a healthy page healthy and
      the new block lies in the page's free space, provided the page either
      already holds blocks or is at least `length` long (an empty page
      accepts any length). */
  lemma TryAllocPreservesValid(c: Container, length: int)
    requires Valid(c)
    requires length > 0
    requires |c.used| > 0 || length <= c.region.size
    ensures Valid(TryAlloc(c, length).page)
    ensures TryAlloc(c, length).ok ==>
              && c.Begin() <= TryAlloc(c, length).memory.value.Begin()
              && TryAlloc(c, length).memory.value.End() <= c.End()
              && forall a :: TryAlloc(c, length).memory.value.Holds(a) ==> IsFree(c, a)
  {
    var p := TryAlloc(c, length);
    if p.ok {
      var m := p.memory.value;
      if |c.used| == 0 {
        AppendKeepsValid(c, m);
      } else {
        TryAllocUsesGaps(c, length);
        var gaps := FreeGaps(c);
        var i :| IsFirstFit(gaps, length, i) && gaps[i] != NoFit && m.address == gaps[i].start;
        assert gaps[i] in gaps;
        BlockInGapIsFree(c, gaps[i], m);
        AppendKeepsValid(c, m);
      }
    }
  }

  /** Removing one entry keeps a list pairwise disjoint. */
  lemma RemoveKeepsDisjoint(s: seq<Range>, i: int)
    requires 0 <= i < |s|
    requires PairwiseDisjoint(s)
    ensures PairwiseDisjoint(s[..i] + s[i + 1..])
  {
    var t := s[..i] + s[i + 1..];
    forall p, q | 0 <= p < q < |t| ensures Disjoint(t[p], t[q]) {
      var p' := if p < i then p else p + 1;
      var q' := if q < i then q else q + 1;
      assert t[p] == s[p'] && t[q] == s[q'];
    }
  }

  /** Removing one entry keeps a list well formed. */
  lemma RemoveKeepsWellFormed(s: seq<Range>, i: int, lo: int, hi: int)
    requires 0 <= i < |s|
    requires WellFormed(s, lo, hi)
    ensures WellFormed(s[..i] + s[i + 1..], lo, hi)
  {
    var t := s[..i] + s[i + 1..];
    RemoveKeepsDisjoint(s, i);
    forall x | x in t ensures x in s {
      var k :| 0 <= k < |t| && t[k] == x;
      if k < i { assert s[k] == x; } else { assert s[k + 1] == x; }
    }
  }

  /** The ranges of a block list with one block removed. */
  lemma RangesOfRemove(used: seq<Memory>, i: int)
    requires 0 <= i < |used|
    ensures RangesOf(used[..i] + used[i + 1..]) == RangesOf(used)[..i] + RangesOf(used)[i + 1..]
  {
    var s := RangesOf(used);
    var t := s[..i] + s[i + 1..];
    var rest := used[..i] + used[i + 1..];
    var u := RangesOf(rest);
    assert |u| == |rest| == |t|;
    forall k | 0 <= k < |t| ensures u[k] == t[k] {
      assert u[k] == rest[k].AsRange();
      if k < i {
        assert rest[k] == used[k] && t[k] == s[k];
      } else {
        assert rest[k] == used[k + 1] && t[k] == s[k + 1];
      }
    }
    assert u == t;
  }

  /** Dropping one live block keeps a page healthy. */
  lemma RemoveKeepsValid(c: Container, i: int)
    requires Valid(c)
    requires 0 <= i < |c.used|
    ensures Valid(c.(used := c.used[..i] + c.used[i + 1..]))
  {
    RangesOfRemove(c.used, i);
    RemoveKeepsWellFormed(RangesOf(c.used), i, c.Begin(), c.End());
  }

  /** `Free` keeps a healthy page healthy and removes exactly one block. */
  lemma FreePreservesValid(c: Container, a: int)
    requires Valid(c)
    ensures Free(c, a).Freed? ==> Valid(Free(c, a).page) && |Free(c, a).page.used| == |c.used| - 1
  {
    var r := Free(c, a);
    if r.Freed? {
      var i :| IsFirstCovering(c.used, a, i) && r.block == c.used[i]
               && r.page == c.(used := c.used[..i] + c.used[i + 1..]);
      RemoveKeepsValid(c, i);
    }
  }

  /** Because `Free` matches on the closed interval `[Begin, End]`, the
      address one past a block also frees that block: when no earlier block
      in insertion order covers it, freeing `End` removes that block. */
  lemma FreeMatchesBlockEnd(c: Container, i: int)
    requires 0 <= i < |c.used|
    requires c.used[i].size >= 0
    requires forall j :: 0 <= j < i ==> !c.used[j].Covers(c.used[i].End())
    ensures Free(c, c.used[i].End()).Freed?
    ensures Free(c, c.used[i].End()).block == c.used[i]
  {
    assert c.used[i] in c.used;
    var r := Free(c, c.used[i].End());
    var k :| IsFirstCovering(c.used, c.used[i].End(), k) && r.block == c.used[k];
    assert !(k < i) && !(i < k);
  }

  /** The gap list of a page with two blocks, spelled out. */
  lemma GapsOfTwo(lo: int, hi: int, s: seq<Range>)
    requires |s| == 2
    ensures GapsOf(lo, hi, s) == Leading(lo, s) + [Range(s[0].end, s[1].start)] + Trailing(hi, s)
  {
  }

  /** The gap list of a page with three blocks, spelled out. */
  lemma GapsOfThree(lo: int, hi: int, s: seq<Range>)
    requires |s| == 3
    ensures GapsOf(lo, hi, s) ==
              Leading(lo, s) + [Range(s[0].end, s[1].start), Range(s[1].end, s[2].start)] + Trailing(hi, s)
  {
  }

  /** The `default(Range)` sentinel: a page at -16 with blocks `[-16, 0)`
      and `[0, 4)` has the empty gap `[0, 0)` between them, which is the
      first gap long enough for a zero-length request; because it equals
      `Range(0, 0)` the request fails although the gap `[4, 16)` would
      fit. */
  lemma SentinelRejectsFittingGap(c: Container)
    requires c == Container(Memory(-16, 32), [Memory(-16, 16), Memory(0, 4)])
    ensures Range(4, 16) in FreeGaps(c)
    ensures !TryAlloc(c, 0).ok
  {
    var r := [Range(-16, 0), Range(0, 4)];
    assert c.used[1..] == [Memory(0, 4)];
    assert RangesOf(c.used) == r;
    SortOfSorted(r);
    assert UsedRanges(c) == r;
    GapsOfTwo(-16, 16, r);
    var gaps := FreeGaps(c);
    assert gaps == [Range(0, 0), Range(4, 16)];
    assert IsFirstFit(gaps, 0, 0) && gaps[0] == NoFit;
    SentinelFitFails(gaps, 0, 0);
    TryAllocUsesGaps(c, 0);
  }

  /** A zero-length request breaks the disjointness invariant: on a full
      page `[b, b + 100)` it lands in the empty gap at `b + 50`; the
      zero-size block then sorts after the block `[b + 50, b + 100)`, the
      page reports a trailing gap `[b + 50, b + 100)`, and the next request
      overlaps a live block. */
  lemma ZeroLengthBreaksDisjointness(b: int, c: Container)
    requires b > 0
    requires c == Container(Memory(b, 100), [Memory(b, 50), Memory(b + 50, 50)])
    ensures Valid(c)
    ensures TryAlloc(c, 0).ok && TryAlloc(c, 0).memory.value == Memory(b + 50, 0)
    ensures TryAlloc(TryAlloc(c, 0).page, 10).ok
    ensures TryAlloc(TryAlloc(c, 0).page, 10).memory.value == Memory(b + 50, 10)
    ensures !Valid(TryAlloc(TryAlloc(c, 0).page, 10).page)
  {
    ZeroLengthFirstStep(b, c);
    ZeroLengthSecondStep(b, TryAlloc(c, 0).page);
  }

  /** The first step: the zero-length request lands in the empty gap
      at `b + 50` between the two blocks. */
  lemma ZeroLengthFirstStep(b: int, c: Container)
    requires b > 0
    requires c == Container(Memory(b, 100), [Memory(b, 50), Memory(b + 50, 50)])
    ensures Valid(c)
    ensures TryAlloc(c, 0).ok && TryAlloc(c, 0).memory.value == Memory(b + 50, 0)
  {
    var r := [Range(b, b + 50), Range(b + 50, b + 100)];
    assert c.used[1..] == [Memory(b + 50, 50)];
    assert RangesOf(c.used) == r;
    SortOfSorted(r);
    assert UsedRanges(c) == r;
    GapsOfTwo(b, b + 100, r);
    var gaps := FreeGaps(c);
    assert gaps == [Range(b + 50, b + 50)];
    assert IsFirstFit(gaps, 0, 0);
    FirstFitPlaces(gaps, 0, 0);
    TryAllocUsesGaps(c, 0);
  }

  /** The second step: 10 bytes land at `b + 50`, over the block
      `[b + 50, b + 100)`. */
  lemma ZeroLengthSecondStep(b: int, c: Container)
    requires b > 0
    requires c == Container(Memory(b, 100), [Memory(b, 50), Memory(b + 50, 50), Memory(b + 50, 0)])
    ensures TryAlloc(c, 10).ok && TryAlloc(c, 10).memory.value == Memory(b + 50, 10)
    ensures !Valid(TryAlloc(c, 10).page)
  {
    ZeroLengthSecondPlacement(b, c);
    var p := TryAlloc(c, 10);
    assert p.page.used == c.used + [Memory(b + 50, 10)];
    var t := RangesOf(p.page.used);
    assert t[1] == Range(b + 50, b + 100) && t[3] == Range(b + 50, b + 60);
    assert !Disjoint(t[1], t[3]);
  }

  /** The page holding the zero-size block places 10 bytes in its
      trailing gap `[b + 50, b + 100)`. */
  lemma ZeroLengthSecondPlacement(b: int, c: Container)
    requires b > 0
    requires c == Container(Memory(b, 100), [Memory(b, 50), Memory(b + 50, 50), Memory(b + 50, 0)])
    ensures TryAlloc(c, 10).ok && TryAlloc(c, 10).memory.value == Memory(b + 50, 10)
  {
    var s := [Range(b, b + 50), Range(b + 50, b + 100), Range(b + 50, b + 50)];
    ZeroLengthSecondRanges(b, c, s);
    ZeroLengthSecondGapList(b, s);
    var gaps := FreeGaps(c);
    assert gaps == GapsOf(b, b + 100, s);
    assert IsFirstFit(gaps, 10, 2);
    FirstFitPlaces(gaps, 10, 2);
    TryAllocUsesGaps(c, 10);
  }

  /** The gaps built from those sorted ranges: an empty gap, a gap of
      negative length, and the trailing gap over a live block. */
  lemma ZeroLengthSecondGapList(b: int, s: seq<Range>)
    requires s == [Range(b, b + 50), Range(b + 50, b + 100), Range(b + 50, b + 50)]
    ensures GapsOf(b, b + 100, s) == [Range(b + 50, b + 50), Range(b + 100, b + 50), Range(b + 50, b + 100)]
  {
    GapsOfThree(b, b + 100, s);
    assert Leading(b, s) == [];
    assert Trailing(b + 100, s) == [Range(b + 50, b + 100)];
  }

  /** The stable sort keeps the zero-size block after the block that
      starts at the same address. */
  lemma ZeroLengthSecondRanges(b: int, c: Container, s: seq<Range>)
    requires c == Container(Memory(b, 100), [Memory(b, 50), Memory(b + 50, 50), Memory(b + 50, 0)])
    requires s == [Range(b, b + 50), Range(b + 50, b + 100), Range(b + 50, b + 50)]
    ensures UsedRanges(c) == s
  {
    var r := RangesOf(c.used);
    assert r[0] == s[0] && r[1] == s[1] && r[2] == s[2];
    assert r == s;
    SortOfSorted(s);
  }
}
