/** The allocator layer: `Allocator` of XkeinTools.Memory/Allocator.cs. It
    keeps an append-only list of pages, serves each request from the first
    page that can take it, and asks the backend for exactly one new page
    when none can. */
module Allocation {
  import opened Options
  import opened Blocks
  import opened Search
  import Containers

  type Container = Containers.Container

  /** `PAGE_SIZE`: the size of every page requested from the backend. */
  const PageSize: int := 1024

  /** The `ArgumentNullException` the constructor throws, naming the
      parameter that was null. */
  datatype ArgumentNull = ArgumentNull(paramName: string)

  /** The allocator's state: `containers`, in creation order. The injected
      callbacks are not kept: the one value the allocator ever obtains from
      `_allocate` is passed to `Alloc` as `pageBase`, and `_deallocate` is
      never called. */
  datatype Allocator = Allocator(containers: seq<Container>)

  /** What `Alloc` yields: the allocator afterwards, the returned address,
      and the sizes requested from `_allocate` during the call, in order. */
  datatype AllocResult = AllocResult(allocator: Allocator, address: int, pageRequests: seq<int>)

  /** The constructor: both callbacks are mandatory, `allocate` is checked
      first, and a new allocator owns no page. Only whether a callback is
      null matters here, so its type is left open. */
  function New<F, G>(allocate: Option<F>, deallocate: Option<G>): (r: Result<Allocator, ArgumentNull>)
    ensures r.Success? <==> allocate.Some? && deallocate.Some?
    ensures r.Success? ==> r.value.containers == []
    ensures allocate.None? ==> r.error == ArgumentNull("allocate")
    ensures allocate.Some? && deallocate.None? ==> r.error == ArgumentNull("deallocate")
  {
    if allocate.None? then Failure(ArgumentNull("allocate"))
    else if deallocate.None? then Failure(ArgumentNull("deallocate"))
    else Success(Allocator([]))
  }

  /** The test of the `foreach` in `Alloc`: the page's `TryAlloc`
      succeeds. */
  function Takes(length: int): Container -> bool {
    (c: Container) => Containers.TryAlloc(c, length).ok
  }

  /** Page `i` is the first, in creation order, whose `TryAlloc` succeeds. */
  predicate IsFirstTaker(cs: seq<Container>, length: int, i: int) {
    IsFirst(cs, Takes(length), i)
  }

  /** `Alloc` when page `i` is the first to take the request: that page
      alone changes, and no page is requested. */
  function AllocInPage(al: Allocator, length: int, i: int): (r: AllocResult)
    requires IsFirstTaker(al.containers, length, i)
    ensures r.pageRequests == []
    ensures |r.allocator.containers| == |al.containers|
    ensures forall k :: 0 <= k < |al.containers| ==> r.allocator.containers[k].region == al.containers[k].region
    ensures r.allocator.containers[i].used == al.containers[i].used + [Memory(r.address, length)]
    ensures forall k :: 0 <= k < |al.containers| && k != i ==> r.allocator.containers[k] == al.containers[k]
  {
    var p := Containers.TryAlloc(al.containers[i], length);
    assert Takes(length)(al.containers[i]);
    assert p.ok && p.memory.Some?;
    assert p.page.region == al.containers[i].region;
    AllocResult(Allocator(al.containers[i := p.page]), p.memory.value.address, [])
  }

  /** `Alloc` when no page takes the request: one page of `PageSize`
      bytes at `pageBase` is requested and appended, and the request is
      served from its start whatever its length. */
  function AllocNewPage(al: Allocator, length: int, pageBase: int): (r: AllocResult)
    ensures r.pageRequests == [PageSize]
    ensures r.allocator.containers == al.containers + [Containers.Container(Memory(pageBase, PageSize), [Memory(pageBase, length)])]
    ensures r.address == pageBase
  {
    var p := Containers.TryAlloc(Containers.NewContainer(pageBase, PageSize), length);
    assert p.ok && p.memory.value.address == pageBase;
    assert p.page.used == [] + [Memory(pageBase, length)];
    assert p.page == Containers.Container(Memory(pageBase, PageSize), [Memory(pageBase, length)]);
    // IntPtr.Zero when the retry fails.
    var address := if p.ok then p.memory.value.address else 0;
    AllocResult(Allocator(al.containers + [p.page]), address, [PageSize])
  }

  /** `Allocator.Alloc`. `pageBase` is what `_allocate(PAGE_SIZE)` returns
      should the call need a new page. Existing pages are tried in creation
      order; when all refuse, exactly one page of `PageSize` bytes is
      requested, appended, and tried once. Since that page is empty the
      retry always succeeds, so `IntPtr.Zero` is never returned. */
  function Alloc(al: Allocator, length: int, pageBase: int): (r: AllocResult)
    ensures r.pageRequests == [] || r.pageRequests == [PageSize]
    ensures r.pageRequests == [PageSize] <==>
              forall j :: 0 <= j < |al.containers| ==> !Takes(length)(al.containers[j])
    ensures |r.allocator.containers| == |al.containers| + |r.pageRequests|
    ensures forall k :: 0 <= k < |al.containers| ==> r.allocator.containers[k].region == al.containers[k].region
    ensures forall i :: IsFirstTaker(al.containers, length, i) ==>
              && r.pageRequests == []
              && r.allocator.containers == al.containers[i := Containers.TryAlloc(al.containers[i], length).page]
              && r.address == Containers.TryAlloc(al.containers[i], length).memory.value.address
    ensures r.pageRequests == [PageSize] ==>
              && r.allocator.containers == al.containers + [Containers.Container(Memory(pageBase, PageSize), [Memory(pageBase, length)])]
              && r.address == pageBase
  {
    match FindFirst(al.containers, Takes(length))
    case Some(i) =>
      assert forall k :: IsFirstTaker(al.containers, length, k) ==> k == i by {
        forall k | IsFirstTaker(al.containers, length, k) {
          FirstIsUnique(al.containers, Takes(length), i, k);
        }
      }
      AllocInPage(al, length, i)
    case None =>
      AllocNewPage(al, length, pageBase)
  }

  /** Some live block of page `c` matches `a` under `Free`'s closed-interval
      test. */
  predicate Owns(c: Container, a: int) {
    exists m | m in c.used :: m.Covers(a)
  }

  /** The test of the `foreach` in `Free`: the page's `Free` does not
      throw. */
  function Recognises(a: int): Container -> bool {
    (c: Container) => Containers.Free(c, a).Freed?
  }

  /** Page `i` is the first, in creation order, whose `Free` does not
      throw. */
  predicate IsFirstOwner(cs: seq<Container>, a: int, i: int) {
    IsFirst(cs, Recognises(a), i)
  }

  /** `Allocator.Free`: the first page that recognises the address frees
      it; an address no page recognises is ignored without any error. */
  function Free(al: Allocator, address: int): (r: Allocator)
    ensures |r.containers| == |al.containers|
    ensures forall k :: 0 <= k < |al.containers| ==> r.containers[k].region == al.containers[k].region
    ensures (forall j :: 0 <= j < |al.containers| ==> !Owns(al.containers[j], address)) ==> r == al
    ensures forall i :: IsFirstOwner(al.containers, address, i) ==>
              && Owns(al.containers[i], address)
              && (forall j :: 0 <= j < i ==> !Owns(al.containers[j], address))
              && r.containers == al.containers[i := Containers.Free(al.containers[i], address).page]
  {
    match FindFirst(al.containers, Recognises(address))
    case None => al
    case Some(i) =>
      var freed := Containers.Free(al.containers[i], address);
      Allocator(al.containers[i := freed.page])
  }
}
