/** What the allocator layer keeps and what it demonstrably does: every
    page stays a healthy 1024-byte page, `Alloc` adds exactly one block
    and never reports failure, `Free` removes at most one block, and the
    trace of the memory test program. */
module AllocatorFacts {
  import opened Options
  import opened Blocks
  import opened Search
  import opened Containers
  import opened PageFacts
  import opened Allocation

  /** Every page is a `PageSize` page whose blocks are non-empty, inside
      it, and pairwise disjoint. */
  predicate AllocatorValid(al: Allocator) {
    forall k :: 0 <= k < |al.containers| ==>
      al.containers[k].region.size == PageSize && Valid(al.containers[k])
  }

  /** The number of live blocks over all pages. */
  function TotalBlocks(cs: seq<Containers.Container>): (n: nat) {
    if |cs| == 0 then 0 else TotalBlocks(cs[..|cs| - 1]) + |cs[|cs| - 1].used|
  }

  /** Replacing one page changes the total by that page's difference. */
  lemma {:induction false} TotalBlocksUpdate(cs: seq<Containers.Container>, i: int, c: Containers.Container)
    requires 0 <= i < |cs|
    ensures TotalBlocks(cs[i := c]) == TotalBlocks(cs) - |cs[i].used| + |c.used|
  {
    var n := |cs| - 1;
    if i == n {
      assert cs[i := c][..n] == cs[..n];
    } else {
      assert cs[i := c][..n] == cs[..n][i := c];
      TotalBlocksUpdate(cs[..n], i, c);
    }
  }

  /** A page `Free` recognises is exactly a page owning the address. */
  lemma RecognisesIffOwns(c: Containers.Container, a: int)
    ensures Recognises(a)(c) <==> Owns(c, a)
  {
  }

  /** `Alloc` never takes the `IntPtr.Zero` exit: whatever the state and
      the length, the returned address starts a block of that length that
      was appended to one of the pages. */
  lemma AllocAlwaysPlaces(al: Allocator, length: int, pageBase: int)
    ensures var r := Alloc(al, length, pageBase);
            exists k :: && 0 <= k < |r.allocator.containers|
                        && |r.allocator.containers[k].used| > 0
                        && r.allocator.containers[k].used[|r.allocator.containers[k].used| - 1] == Memory(r.address, length)
  {
    var r := Alloc(al, length, pageBase);
    match FindFirst(al.containers, Takes(length))
    case Some(i) =>
      assert IsFirstTaker(al.containers, length, i);
      var u := r.allocator.containers[i].used;
      assert u == al.containers[i].used + [Memory(r.address, length)];
      assert u[|u| - 1] == Memory(r.address, length);
    case None =>
      var n := |al.containers|;
      assert r.allocator.containers[n].used == [Memory(pageBase, length)];
  }

  /** On a fresh allocator the first request of any length, even one
      larger than a page, is served from the start of a newly requested
      page. */
  lemma AllocOnFreshAllocator(length: int, pageBase: int)
    ensures Alloc(Allocator([]), length, pageBase) ==
              AllocResult(Allocator([Containers.Container(Memory(pageBase, PageSize), [Memory(pageBase, length)])]), pageBase, [PageSize])
  {
    var r := Alloc(Allocator([]), length, pageBase);
    assert r.pageRequests == [PageSize];
    assert [] + [Containers.Container(Memory(pageBase, PageSize), [Memory(pageBase, length)])] ==
           [Containers.Container(Memory(pageBase, PageSize), [Memory(pageBase, length)])];
  }

  /** The returned block of length `length` lies inside page `k`. */
  predicate PlacedIn(cs: seq<Containers.Container>, k: int, address: int, length: int) {
    && 0 <= k < |cs|
    && Memory(address, length) in cs[k].used
    && cs[k].Begin() <= address
    && address + length <= cs[k].End()
  }

  /** `Alloc` served by an existing page keeps every page healthy. */
  lemma AllocInPagePreservesValid(al: Allocator, length: int, i: int)
    requires AllocatorValid(al)
    requires 0 < length <= PageSize
    requires IsFirstTaker(al.containers, length, i)
    ensures AllocatorValid(AllocInPage(al, length, i).allocator)
    ensures PlacedIn(AllocInPage(al, length, i).allocator.containers, i, AllocInPage(al, length, i).address, length)
  {
    var r := AllocInPage(al, length, i);
    var cs := al.containers;
    assert Takes(length)(cs[i]);
    TryAllocPreservesValid(cs[i], length);
    assert r.allocator.containers == cs[i := TryAlloc(cs[i], length).page];
    assert Memory(r.address, length) in r.allocator.containers[i].used;
  }

  /** `Alloc` served by a new page keeps every page healthy when the
      request fits in a page. */
  lemma AllocNewPagePreservesValid(al: Allocator, length: int, pageBase: int)
    requires AllocatorValid(al)
    requires 0 < length <= PageSize
    ensures AllocatorValid(AllocNewPage(al, length, pageBase).allocator)
    ensures PlacedIn(AllocNewPage(al, length, pageBase).allocator.containers, |al.containers|, pageBase, length)
  {
    var page0 := NewContainer(pageBase, PageSize);
    TryAllocPreservesValid(page0, length);
    assert TryAlloc(page0, length).page == Containers.Container(Memory(pageBase, PageSize), [Memory(pageBase, length)]);
  }

  /** With positive requests no larger than a page, `Alloc` keeps every
      page healthy and the returned block lies inside the page that holds
      it. */
  lemma AllocPreservesValid(al: Allocator, length: int, pageBase: int)
    requires AllocatorValid(al)
    requires 0 < length <= PageSize
    ensures AllocatorValid(Alloc(al, length, pageBase).allocator)
    ensures var r := Alloc(al, length, pageBase);
            exists k :: PlacedIn(r.allocator.containers, k, r.address, length)
  {
    match FindFirst(al.containers, Takes(length))
    case Some(i) =>
      AllocInPagePreservesValid(al, length, i);
    case None =>
      AllocNewPagePreservesValid(al, length, pageBase);
  }

  /** `Alloc` adds exactly one block over all pages. */
  lemma AllocAddsOneBlock(al: Allocator, length: int, pageBase: int)
    ensures TotalBlocks(Alloc(al, length, pageBase).allocator.containers) == TotalBlocks(al.containers) + 1
  {
    var r := Alloc(al, length, pageBase);
    var cs := al.containers;
    match FindFirst(cs, Takes(length))
    case Some(i) =>
      assert IsFirstTaker(cs, length, i);
      var p := Containers.TryAlloc(cs[i], length);
      assert p.ok by { assert Takes(length)(cs[i]); }
      assert r.allocator.containers == cs[i := p.page];
      assert |p.page.used| == |cs[i].used| + 1;
      TotalBlocksUpdate(cs, i, p.page);
    case None =>
      var rs := r.allocator.containers;
      assert rs[..|rs| - 1] == cs;
  }

  /** `Free` keeps every page healthy. */
  lemma FreePreservesAllocatorValid(al: Allocator, address: int)
    requires AllocatorValid(al)
    ensures AllocatorValid(Allocation.Free(al, address))
  {
    match FindFirst(al.containers, Recognises(address))
    case None =>
    case Some(i) =>
      assert IsFirstOwner(al.containers, address, i);
      FreePreservesValid(al.containers[i], address);
  }

  /** `Free` removes exactly one block over all pages when some page owns
      the address, and none otherwise. */
  lemma FreeRemovesAtMostOne(al: Allocator, address: int)
    ensures var owned := exists k :: 0 <= k < |al.containers| && Owns(al.containers[k], address);
            TotalBlocks(Allocation.Free(al, address).containers) == TotalBlocks(al.containers) - (if owned then 1 else 0)
  {
    var cs := al.containers;
    match FindFirst(cs, Recognises(address))
    case None =>
      forall k | 0 <= k < |cs| ensures !Owns(cs[k], address) {
        assert !Recognises(address)(cs[k]);
      }
    case Some(i) =>
      assert IsFirstOwner(cs, address, i);
      var f := Containers.Free(cs[i], address);
      assert f.Freed?;
      var j :| IsFirstCovering(cs[i].used, address, j) && f.page == cs[i].(used := cs[i].used[..j] + cs[i].used[j + 1..]);
      assert |f.page.used| == |cs[i].used| - 1;
      TotalBlocksUpdate(cs, i, f.page);
  }

  /** A one-page allocator whose page takes the request serves it there. */
  lemma AllocOnOnlyPage(c: Containers.Container, length: int, pageBase: int)
    requires TryAlloc(c, length).ok
    ensures Alloc(Allocator([c]), length, pageBase) ==
              AllocResult(Allocator([TryAlloc(c, length).page]), TryAlloc(c, length).memory.value.address, [])
  {
    assert IsFirstTaker([c], length, 0);
  }

  /** A one-page allocator whose page recognises the address frees it
      there. */
  lemma FreeOnOnlyPage(c: Containers.Container, a: int)
    requires Containers.Free(c, a).Freed?
    ensures Allocation.Free(Allocator([c]), a) == Allocator([Containers.Free(c, a).page])
  {
    assert IsFirstOwner([c], a, 0);
  }

  /** `Free` on a page removes the first block, in insertion order, that
      holds the address. */
  lemma FreeFirstBlock(c: Containers.Container, a: int)
    requires |c.used| > 0
    requires c.used[0].Begin() <= a <= c.used[0].End()
    ensures Containers.Free(c, a) == Freed(c.(used := c.used[1..]), c.used[0])
  {
    var f := Containers.Free(c, a);
    assert c.used[0] in c.used;
    var j :| IsFirstCovering(c.used, a, j) && f.block == c.used[j] && f.page == c.(used := c.used[..j] + c.used[j + 1..]);
    assert IsFirstCovering(c.used, a, 0);
    FirstIsUnique(c.used, CoversAddress(a), 0, j);
    assert c.used[..0] + c.used[1..] == c.used[1..];
  }

  /** Step 2 of the trace: page `[p, p + 1024)` holding `[p, p + 16)`
      places 32 bytes right after it. */
  lemma TraceSecondAlloc(p: int, c: Containers.Container)
    requires c == Containers.Container(Memory(p, PageSize), [Memory(p, 16)])
    ensures TryAlloc(c, 32).ok && TryAlloc(c, 32).memory.value == Memory(p + 16, 32)
  {
    var r := [Range(p, p + 16)];
    assert RangesOf(c.used) == r;
    SortOfSorted(r);
    var gaps := FreeGaps(c);
    assert gaps == [Range(p + 16, p + PageSize)];
    assert IsFirstFit(gaps, 32, 0);
    FirstFitPlaces(gaps, 32, 0);
    TryAllocUsesGaps(c, 32);
  }

  /** Step 4 of the trace: with only `[p + 16, p + 48)` live, 8 bytes go
      to the leading gap at `p`. */
  lemma TraceThirdAlloc(p: int, c: Containers.Container)
    requires c == Containers.Container(Memory(p, PageSize), [Memory(p + 16, 32)])
    ensures TryAlloc(c, 8).ok && TryAlloc(c, 8).memory.value == Memory(p, 8)
  {
    var r := [Range(p + 16, p + 48)];
    assert RangesOf(c.used) == r;
    SortOfSorted(r);
    var gaps := FreeGaps(c);
    assert gaps == [Range(p, p + 16), Range(p + 48, p + PageSize)];
    assert IsFirstFit(gaps, 8, 0);
    FirstFitPlaces(gaps, 8, 0);
    TryAllocUsesGaps(c, 8);
  }

  /** Step 5 of the trace: with `[p + 16, p + 48)` and `[p, p + 8)` live,
      8 bytes go to the gap between them at `p + 8`. */
  lemma TraceFourthAlloc(p: int, c: Containers.Container)
    requires c == Containers.Container(Memory(p, PageSize), [Memory(p + 16, 32), Memory(p, 8)])
    ensures TryAlloc(c, 8).ok && TryAlloc(c, 8).memory.value == Memory(p + 8, 8)
  {
    var x := Range(p + 16, p + 48);
    var y := Range(p, p + 8);
    assert c.used[1..] == [Memory(p, 8)];
    assert RangesOf(c.used) == [x, y];
    SortSwapsPair(x, y);
    var r := [y, x];
    assert UsedRanges(c) == r;
    GapsOfTwo(p, p + PageSize, r);
    var gaps := FreeGaps(c);
    assert gaps == [Range(p + 8, p + 16), Range(p + 48, p + PageSize)];
    assert IsFirstFit(gaps, 8, 0);
    FirstFitPlaces(gaps, 8, 0);
    TryAllocUsesGaps(c, 8);
  }

  /** Trace step 2 on the allocator: the one page holding `[p, p + 16)`
      serves 32 bytes at `p + 16`. */
  lemma TraceStepTwo(p: int, b2: int, al: Allocator)
    requires al == Allocator([Containers.Container(Memory(p, PageSize), [Memory(p, 16)])])
    ensures Alloc(al, 32, b2) ==
              AllocResult(Allocator([Containers.Container(Memory(p, PageSize), [Memory(p, 16), Memory(p + 16, 32)])]), p + 16, [])
  {
    var c := al.containers[0];
    TraceSecondAlloc(p, c);
    AllocOnOnlyPage(c, 32, b2);
    var q := TryAlloc(c, 32);
    assert q.page.used == [Memory(p, 16)] + [Memory(p + 16, 32)];
    assert q.page == Containers.Container(Memory(p, PageSize), [Memory(p, 16), Memory(p + 16, 32)]);
    assert al == Allocator([c]);
  }

  /** Freeing an address in the closed interval of the first block of a
      one-page allocator removes that block. */
  lemma FreeFirstOfOnlyPage(al: Allocator, c: Containers.Container, a: int)
    requires al == Allocator([c])
    requires |c.used| > 0
    requires c.used[0].Begin() <= a <= c.used[0].End()
    ensures Allocation.Free(al, a) == Allocator([c.(used := c.used[1..])])
  {
    FreeFirstBlock(c, a);
    FreeOnOnlyPage(c, a);
  }

  /** Trace step 3 on the allocator: with `[p, p + 16)` and
      `[p + 16, p + 48)` live, freeing `a` anywhere in `[p, p + 16]`
      removes the first block. */
  lemma TraceStepThree(p: int, a: int, al: Allocator)
    requires al == Allocator([Containers.Container(Memory(p, PageSize), [Memory(p, 16), Memory(p + 16, 32)])])
    requires p <= a <= p + 16
    ensures Allocation.Free(al, a) == Allocator([Containers.Container(Memory(p, PageSize), [Memory(p + 16, 32)])])
  {
    var c := al.containers[0];
    assert al == Allocator([c]);
    FreeFirstOfOnlyPage(al, c, a);
    assert c.used[1..] == [Memory(p + 16, 32)];
  }

  /** Trace step 4 on the allocator: the page holding only
      `[p + 16, p + 48)` serves 8 bytes at `p`. */
  lemma TraceStepFour(p: int, b3: int, al: Allocator)
    requires al == Allocator([Containers.Container(Memory(p, PageSize), [Memory(p + 16, 32)])])
    ensures Alloc(al, 8, b3) ==
              AllocResult(Allocator([Containers.Container(Memory(p, PageSize), [Memory(p + 16, 32), Memory(p, 8)])]), p, [])
  {
    var c := al.containers[0];
    TraceThirdAlloc(p, c);
    AllocOnOnlyPage(c, 8, b3);
    var q := TryAlloc(c, 8);
    assert q.page.used == [Memory(p + 16, 32)] + [Memory(p, 8)];
    assert q.page == Containers.Container(Memory(p, PageSize), [Memory(p + 16, 32), Memory(p, 8)]);
    assert al == Allocator([c]);
  }

  /** Trace step 5 on the allocator: the page holding `[p + 16, p + 48)`
      and `[p, p + 8)` serves 8 bytes at `p + 8`. */
  lemma TraceStepFive(p: int, b4: int, al: Allocator)
    requires al == Allocator([Containers.Container(Memory(p, PageSize), [Memory(p + 16, 32), Memory(p, 8)])])
    ensures Alloc(al, 8, b4) ==
              AllocResult(Allocator([Containers.Container(Memory(p, PageSize), [Memory(p + 16, 32), Memory(p, 8), Memory(p + 8, 8)])]), p + 8, [])
  {
    var c := al.containers[0];
    TraceFourthAlloc(p, c);
    AllocOnOnlyPage(c, 8, b4);
    var q := TryAlloc(c, 8);
    assert q.page.used == [Memory(p + 16, 32), Memory(p, 8)] + [Memory(p + 8, 8)];
    assert q.page == Containers.Container(Memory(p, PageSize), [Memory(p + 16, 32), Memory(p, 8), Memory(p + 8, 8)]);
    assert al == Allocator([c]);
  }

  /** The memory test program: on a fresh allocator whose backend hands
      out page `p`, `Alloc(16) = p`, `Alloc(32) = p + 16`, `Free(p)`,
      `Alloc(8) = p`, `Alloc(8) = p + 8`, with one page requested in all.
      The later `pageBase` arguments are never used. */
  lemma DemoTrace(p: int, b2: int, b3: int, b4: int)
    ensures var s1 := Alloc(Allocator([]), 16, p);
            var s2 := Alloc(s1.allocator, 32, b2);
            var s3 := Allocation.Free(s2.allocator, p);
            var s4 := Alloc(s3, 8, b3);
            var s5 := Alloc(s4.allocator, 8, b4);
            && s1.address == p && s1.pageRequests == [PageSize]
            && s2.address == p + 16 && s2.pageRequests == []
            && s4.address == p && s4.pageRequests == []
            && s5.address == p + 8 && s5.pageRequests == []
            && s5.allocator.containers ==
                 [Containers.Container(Memory(p, PageSize), [Memory(p + 16, 32), Memory(p, 8), Memory(p + 8, 8)])]
  {
    var s1 := Alloc(Allocator([]), 16, p);
    AllocOnFreshAllocator(16, p);
    var s2 := Alloc(s1.allocator, 32, b2);
    TraceStepTwo(p, b2, s1.allocator);
    var s3 := Allocation.Free(s2.allocator, p);
    TraceStepThree(p, p, s2.allocator);
    var s4 := Alloc(s3, 8, b3);
    TraceStepFour(p, b3, s3);
    TraceStepFive(p, b4, s4.allocator);
  }

  /** The closed interval of `Free` hits the wrong block: after
      `Alloc(16) = p` and `Alloc(32) = p + 16`, freeing the second block's
      address `p + 16` removes the first block, whose end it is. */
  lemma FreeHitsNeighbour(p: int, b2: int)
    ensures var s2 := Alloc(Alloc(Allocator([]), 16, p).allocator, 32, b2);
            && s2.address == p + 16
            && Allocation.Free(s2.allocator, p + 16).containers ==
                 [Containers.Container(Memory(p, PageSize), [Memory(p + 16, 32)])]
  {
    var s1 := Alloc(Allocator([]), 16, p);
    AllocOnFreshAllocator(16, p);
    TraceStepTwo(p, b2, s1.allocator);
    TraceStepThree(p, p + 16, Alloc(s1.allocator, 32, b2).allocator);
  }
}
