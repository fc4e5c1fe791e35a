# Page sub-allocator — a Dafny model

This project models the memory sub-allocator of the Xkein tools, and proves
properties of the model. The allocator carves fixed 1024-byte pages, obtained
from an injected backend, into variable-length blocks. It has two layers.

- **Page layer** (`Container` in `Xkein.Memory/Memory.cs`). A page holds an
  insertion-ordered list of live blocks, each an address and a size.
  - `TryAlloc` sorts the blocks by start address and builds the free gaps:
    - a leading gap;
    - one gap between each pair of neighbouring blocks;
    - a trailing gap.

    It places the request at the start of the first gap that is long enough
    (first fit). An empty page takes any request at its own address.
  - `Free` removes the first block, in insertion order, whose *closed*
    interval `[Begin, End]` contains the address. When no block matches it
    throws `InvalidOperationException`.
- **Allocator layer** (`Allocator` in `XkeinTools.Memory/Allocator.cs`). The
  allocator keeps an append-only list of pages.
  - `Alloc` tries the pages in creation order. When all of them refuse, it
    requests one page of `PAGE_SIZE` = 1024 bytes, appends it and retries once.
  - `Free` asks the pages in order and swallows each page's "not mine"
    exception.

The project also models `CollectionHelpers.RemoveAll`, an in-place filter over
a linked list (`Xkein.Helpers/CollectionHelpers.cs`).

Modules, leaves first:

| file | module | contents |
|---|---|---|
| `options.dfy` | `Options` | `Option` and `Result` |
| `search.dfy` | `Search` | `FindFirst`, the model of `List.Find` (first match in list order) |
| `blocks.dfy` | `Blocks` | `Memory` and `Range`; disjointness; the stable sort of `orderby m.Begin` |
| `containers.dfy` | `Containers` | the page: gaps, first fit, `TryAlloc`, `Free`, the page invariant `Valid` |
| `page_facts.dfy` | `PageFacts` | gap, first-fit and invariant lemmas, plus the page-level quirks on concrete pages |
| `allocation.dfy` | `Allocation` | the allocator: `New`, `Alloc`, `Free` |
| `allocator_facts.dfy` | `AllocatorFacts` | allocator invariants, block counts, the memory test program's trace, the wrong-block quirk |
| `collection_helpers.dfy` | `CollectionHelpers` | `RemoveAll`, against the reference filter `Without` |

State is immutable, and every operation is a pure transition.
- `TryAlloc` returns a `Placement`: the success flag, the page afterwards, and the `out` block (`None` for null).
- `Container.Free` returns either `Freed(page, block)` or `InvalidOperation(address)` for the exception.
- `Alloc` takes `pageBase`, which is what `_allocate(1024)` would return if it were called. It returns the new allocator, the address, and the list of page sizes requested from the backend during the call: `[]` or `[1024]`.

The block and range members follow `Memory.cs` directly: `Blocks.Memory.Begin` and `End` are `Begin` and `End` of `Memory` (lines 18-19). `Blocks.Range.Length` is `Range.Length` (line 39). `Blocks.NoFit` is the `default(Range)` that `TryAlloc` compares against (line 86), so it is `Range(0, 0)`.

Two behaviours of the code are worth stating outright:
- **Freeing an unknown address.** `Allocator.Free` ignores an address no page
  owns, because `Allocator.cs:46-58` swallows every `InvalidOperationException`
  and returns normally. `Allocation.Free` leaves the allocator unchanged in that
  case, and no error is reported.
- **Requests longer than a page.** An `Alloc` longer than a page still succeeds
  on the fresh page, because an empty page accepts any length
  (`Memory.cs:60-65`). So the `return IntPtr.Zero` exit at `Allocator.cs:38` is
  unreachable (`AllocatorFacts.AllocOnFreshAllocator`,
  `AllocatorFacts.AllocAlwaysPlaces`).

Quirks of the code that are modelled as written:
- the closed-interval match of `Free` (`PageFacts.FreeMatchesBlockEnd`,
  `AllocatorFacts.FreeHitsNeighbour`);
- the `default(Range)` "no fit" sentinel, which also rejects a real empty gap
  `[0, 0)` (`PageFacts.SentinelRejectsFittingGap`);
- zero-length requests breaking disjointness
  (`PageFacts.ZeroLengthBreaksDisjointness`).

## Model

| member | source | states |
|---|---|---|
| Search.FindFirst | Xkein.Memory/Memory.cs:85 | `List.Find`: the result, if any, is the first position whose element matches; `None` means no element matches |
| Blocks.RangesOf | Xkein.Memory/Memory.cs:67 | each block becomes the range `[Begin, Begin + Size)` at the same position |
| Blocks.Insert | Xkein.Memory/Memory.cs:67 | inserting into a sorted list keeps it sorted, adds exactly the new range (multiset), and introduces no other range |
| Blocks.SortByStart | Xkein.Memory/Memory.cs:67 | `orderby m.Begin` yields a permutation of the ranges sorted by start |
| Blocks.SortOfSorted | Xkein.Memory/Memory.cs:67 | a list already in start order comes back unchanged |
| Blocks.InsertWithStart | Xkein.Memory/Memory.cs:67 | insertion puts the new range ahead of every entry with its start and keeps the order of those entries |
| Blocks.SortStableAt | Xkein.Memory/Memory.cs:67 | for each start address, the ranges with that start leave the sort in the order they entered it |
| Blocks.SortIsStable | Xkein.Memory/Memory.cs:67 | `orderby` is stable: on any input, ranges with equal starts keep their input order |
| Blocks.SortSwapsPair | Xkein.Memory/Memory.cs:67 | two ranges given in descending start order come back swapped |
| Blocks.DisjointIffNoSharedAddress | Xkein.Memory/Memory.cs:18-19 | two non-empty half-open ranges are disjoint exactly when no address lies in both |
| Blocks.InsertKeepsDisjoint | Xkein.Memory/Memory.cs:67 | inserting a range disjoint from all entries keeps a sorted list pairwise disjoint |
| Blocks.SortKeepsDisjoint | Xkein.Memory/Memory.cs:67 | sorting keeps the block ranges pairwise disjoint |
| Blocks.SortKeepsWellFormed | Xkein.Memory/Memory.cs:67 | sorting keeps well-formed block ranges well formed and keeps the same members |
| Blocks.SortedDisjointIsOrdered | Xkein.Memory/Memory.cs:67 | in sorted, disjoint, non-empty ranges every range ends before any later one starts |
| Containers.NewContainer | Xkein.Memory/Memory.cs:52-54 | the `Container` constructor: a page of `size` bytes at `address` with no live blocks |
| Containers.UsedRanges | Xkein.Memory/Memory.cs:67 | `usedRanges` is sorted by start and holds exactly the live blocks' ranges (as a multiset), one entry per block |
| Containers.Leading | Xkein.Memory/Memory.cs:70-73 | the gap `[Begin, first start)` is listed only when the page begins strictly before the lowest block |
| Containers.Between | Xkein.Memory/Memory.cs:75-78 | one gap `[r[i].End, r[i+1].Start)` per consecutive pair of sorted blocks, in order |
| Containers.Trailing | Xkein.Memory/Memory.cs:80-83 | the gap `[last end, End)` is listed only when the last sorted block ends strictly before the page does |
| Containers.GapsOf | Xkein.Memory/Memory.cs:68-83 | `unusedRanges`: the leading gap, then the in-between gaps, then the trailing gap, in that order |
| Containers.FreeGaps | Xkein.Memory/Memory.cs:67-83 | the gap list of a page that holds blocks, built from its sorted block ranges |
| Containers.Fits | Xkein.Memory/Memory.cs:85 | the `Find` test of `TryAlloc`: a gap fits when its `Length` is at least the request |
| Containers.PlaceInGaps | Xkein.Memory/Memory.cs:85-90 | a placement is the start of the first gap with `Length >= length` that is not `Range(0,0)`; no placement means no gap fits or the first fit is `Range(0,0)` |
| Containers.FindsFirstFit | Xkein.Memory/Memory.cs:85 | `Find` returns exactly the first fitting gap |
| Containers.FirstFitPlaces | Xkein.Memory/Memory.cs:85-92 | a first fit other than the sentinel is where the block goes |
| Containers.SentinelFitFails | Xkein.Memory/Memory.cs:86-90 | a first fit equal to `Range(0,0)` makes the placement fail |
| Containers.TryAlloc | Xkein.Memory/Memory.cs:56-95 | success iff a block is returned; on failure the page is unchanged; on success the block has the requested length and is appended to `_used` with nothing else changed; an empty page always succeeds at its own address, whatever the length; on a page with blocks, success places the block at the start of the first gap with `Length >= length`, which is not `Range(0,0)`, and failure means no gap is long enough or that first fitting gap is `Range(0,0)` |
| Containers.CoversAddress | Xkein.Memory/Memory.cs:102 | the `Find` test of `Free`: `Begin <= address <= End`, both ends included |
| Containers.Free | Xkein.Memory/Memory.cs:98-111 | frees iff some block's closed interval `[Begin, End]` holds the address; removes exactly the first such block in insertion order and keeps the others in order (multiset); otherwise reports the address |
| PageFacts.GapsOfAreFree | Xkein.Memory/Memory.cs:67-83 | every gap built from sorted, well-formed blocks lies in the page, has no negative length and overlaps no block |
| PageFacts.LeadingIsFree | Xkein.Memory/Memory.cs:70-73 | the leading gap lies in the page and overlaps no block |
| PageFacts.BetweenIsFree | Xkein.Memory/Memory.cs:75-78 | each in-between gap lies in the page and overlaps no block |
| PageFacts.TrailingIsFree | Xkein.Memory/Memory.cs:80-83 | the trailing gap lies in the page and overlaps no block |
| PageFacts.GapsOfCover | Xkein.Memory/Memory.cs:67-83 | every page address outside all blocks lies in some gap |
| PageFacts.GapsOfAdjacent | Xkein.Memory/Memory.cs:75-83 | each gap ends strictly before the next gap starts |
| PageFacts.GapsOfAscending | Xkein.Memory/Memory.cs:67-83 | the gap list is in strictly ascending address order, with no negative length |
| PageFacts.UsedRangesWellFormed | Xkein.Memory/Memory.cs:67 | on a healthy page `usedRanges` is sorted, well formed and holds exactly the blocks' ranges |
| PageFacts.GapsAreFree | Xkein.Memory/Memory.cs:67-83 | on a healthy page every gap lies in the page and overlaps no live block |
| PageFacts.GapsAreFreeSpace | Xkein.Memory/Memory.cs:67-83 | on a healthy page an address is in some gap iff it is in the page and in no live block |
| PageFacts.GapAddressIsFree | Xkein.Memory/Memory.cs:67-83 | on a healthy page an address inside a gap is in the page and in no live block |
| PageFacts.FreeAddressInGap | Xkein.Memory/Memory.cs:67-83 | on a healthy page an address in the page and in no live block lies inside some gap |
| PageFacts.GapsAscending | Xkein.Memory/Memory.cs:67-83 | on a healthy page the gaps are in strictly ascending address order |
| PageFacts.TryAllocUsesGaps | Xkein.Memory/Memory.cs:85-94 | on a page with blocks, `TryAlloc` succeeds exactly when `Find` over the gaps yields a placement, and the block starts at that placement |
| PageFacts.TryAllocFirstFit | Xkein.Memory/Memory.cs:85-94 | a page with blocks accepts a request exactly when the first gap with `Length >= length` exists and is not `Range(0,0)`; the block then starts at the first fitting gap |
| PageFacts.PlacementIsLowestFit | Xkein.Memory/Memory.cs:85-92 | in an ascending gap list a placement is the start of a fitting gap and no fitting gap starts lower |
| PageFacts.TryAllocPicksLowestFit | Xkein.Memory/Memory.cs:85-94 | a successful `TryAlloc` on a healthy non-empty page places the block at the start of a gap long enough for it, and at the lowest such start |
| PageFacts.SnocDisjoint | Xkein.Memory/Memory.cs:93 | appending a range disjoint from all entries keeps the list pairwise disjoint |
| PageFacts.AppendKeepsValid | Xkein.Memory/Memory.cs:93 | appending a non-empty block that lies in the page and overlaps no block keeps the page healthy |
| PageFacts.BlockInGapIsFree | Xkein.Memory/Memory.cs:92 | a non-empty block at a gap's start, no longer than the gap, lies in the page and overlaps no live block |
| PageFacts.TryAllocPreservesValid | Xkein.Memory/Memory.cs:56-95 | for positive lengths (and lengths within the page on an empty page) `TryAlloc` keeps the page healthy, and the new block lies in the page's free space |
| PageFacts.RemoveKeepsDisjoint | Xkein.Memory/Memory.cs:109 | removing one entry keeps a list pairwise disjoint |
| PageFacts.RemoveKeepsWellFormed | Xkein.Memory/Memory.cs:109 | removing one entry keeps a list well formed |
| PageFacts.RangesOfRemove | Xkein.Memory/Memory.cs:109 | removing a block removes its range at the same position |
| PageFacts.RemoveKeepsValid | Xkein.Memory/Memory.cs:109 | removing a block keeps a page healthy |
| PageFacts.FreePreservesValid | Xkein.Memory/Memory.cs:98-111 | a successful `Free` keeps the page healthy and removes exactly one block |
| PageFacts.FreeMatchesBlockEnd | Xkein.Memory/Memory.cs:102 | the address `End` of a block matches that block when no earlier block matches it (closed interval) |
| PageFacts.GapsOfTwo | Xkein.Memory/Memory.cs:70-83 | the gap list of two sorted blocks: leading gap, the gap between them, trailing gap |
| PageFacts.GapsOfThree | Xkein.Memory/Memory.cs:70-83 | the gap list of three sorted blocks, spelled out |
| PageFacts.SentinelRejectsFittingGap | Xkein.Memory/Memory.cs:85-90 | a page whose first fitting gap is `[0, 0)` refuses a zero-length request even though the gap `[4, 16)` would fit |
| PageFacts.ZeroLengthBreaksDisjointness | Xkein.Memory/Memory.cs:56-95 | on a full healthy page a zero-length request succeeds, and the next 10-byte request overlaps a live block, so the page is no longer healthy |
| PageFacts.ZeroLengthFirstStep | Xkein.Memory/Memory.cs:85-94 | the zero-length request lands in the empty gap between the two blocks |
| PageFacts.ZeroLengthSecondPlacement | Xkein.Memory/Memory.cs:80-94 | on the page holding the zero-size block, 10 bytes are placed in the trailing gap at `b+50` |
| PageFacts.ZeroLengthSecondRanges | Xkein.Memory/Memory.cs:67 | the stable sort keeps the zero-size block at `b+50` after the block `[b+50, b+100)` |
| PageFacts.ZeroLengthSecondGapList | Xkein.Memory/Memory.cs:70-83 | those sorted blocks yield an empty gap, a negative-length gap and the trailing gap `[b+50, b+100)` |
| PageFacts.ZeroLengthSecondStep | Xkein.Memory/Memory.cs:80-94 | the trailing gap reported after the zero-size block overlaps a live block, and the next block is placed there |
| Allocation.New | XkeinTools.Memory/Allocator.cs:11-15 | construction succeeds iff both callbacks are non-null; `allocate` is checked first; a new allocator has no pages |
| Allocation.Takes | XkeinTools.Memory/Allocator.cs:23 | the `foreach` test of `Alloc`: a page takes a request when its `TryAlloc` succeeds |
| Allocation.AllocInPage | XkeinTools.Memory/Allocator.cs:21-27 | served by an existing page: only that page changes, by one appended block of the requested length; no page is requested |
| Allocation.AllocNewPage | XkeinTools.Memory/Allocator.cs:29-35 | one 1024-byte page at the backend's address is appended, holding the block at its start; the address is returned |
| Allocation.Alloc | XkeinTools.Memory/Allocator.cs:17-40 | a page is requested (exactly one, of 1024 bytes) iff no existing page takes the request; otherwise the first taker in creation order serves it and nothing is appended; pages are only appended and keep their regions |
| Allocation.Recognises | XkeinTools.Memory/Allocator.cs:48-56 | the try/catch of `Free`: a page recognises an address when its `Free` does not throw `InvalidOperationException` |
| Allocation.Free | XkeinTools.Memory/Allocator.cs:42-59 | the first page, in creation order, owning the address frees it and no earlier page owns it; if no page owns it the allocator is unchanged and no error results; the page list and regions are unchanged |
| AllocatorFacts.TotalBlocksUpdate | XkeinTools.Memory/Allocator.cs:63 | replacing one page changes the total block count by that page's difference |
| AllocatorFacts.RecognisesIffOwns | XkeinTools.Memory/Allocator.cs:48-56 | a page's `Free` does not throw exactly when one of its blocks covers the address |
| AllocatorFacts.AllocAlwaysPlaces | XkeinTools.Memory/Allocator.cs:17-40 | for any state and length the returned address starts a block of that length, just appended to some page, so the `IntPtr.Zero` exit is unreachable |
| AllocatorFacts.AllocOnFreshAllocator | XkeinTools.Memory/Allocator.cs:29-35 | on a fresh allocator any request, even over 1024 bytes, is served at the start of one newly requested page |
| AllocatorFacts.AllocInPagePreservesValid | XkeinTools.Memory/Allocator.cs:21-27 | for `0 < length <= 1024`, serving from an existing page keeps all pages healthy and the block inside that page |
| AllocatorFacts.AllocNewPagePreservesValid | XkeinTools.Memory/Allocator.cs:29-35 | for `0 < length <= 1024`, serving from a new page keeps all pages healthy and the block inside the new page |
| AllocatorFacts.AllocPreservesValid | XkeinTools.Memory/Allocator.cs:17-40 | for `0 < length <= 1024` every page stays a healthy 1024-byte page and the returned block lies inside a page |
| AllocatorFacts.AllocAddsOneBlock | XkeinTools.Memory/Allocator.cs:17-40 | every `Alloc` adds exactly one live block over all pages |
| AllocatorFacts.FreePreservesAllocatorValid | XkeinTools.Memory/Allocator.cs:42-59 | `Free` keeps every page healthy |
| AllocatorFacts.FreeRemovesAtMostOne | XkeinTools.Memory/Allocator.cs:46-52 | `Free` removes exactly one block over all pages when some page owns the address, and none otherwise |
| AllocatorFacts.AllocOnOnlyPage | XkeinTools.Memory/Allocator.cs:21-27 | with one page that takes the request, the request is served there without a page request |
| AllocatorFacts.FreeOnOnlyPage | XkeinTools.Memory/Allocator.cs:46-52 | with one page recognising the address, that page frees it |
| AllocatorFacts.FreeFirstBlock | Xkein.Memory/Memory.cs:102-109 | an address within the first block's closed interval frees the first block |
| AllocatorFacts.TraceSecondAlloc | Test/MemoryTest/Program.cs:19 | a page holding `[p, p+16)` places 32 bytes at `p+16` |
| AllocatorFacts.TraceThirdAlloc | Test/MemoryTest/Program.cs:23 | a page holding only `[p+16, p+48)` places 8 bytes at `p` |
| AllocatorFacts.TraceFourthAlloc | Test/MemoryTest/Program.cs:24 | a page holding `[p+16, p+48)` and `[p, p+8)` places 8 bytes at `p+8` |
| AllocatorFacts.TraceStepTwo | Test/MemoryTest/Program.cs:19 | the allocator serves `Alloc(32)` at `p+16` on its one page |
| AllocatorFacts.FreeFirstOfOnlyPage | XkeinTools.Memory/Allocator.cs:46-52 | on a one-page allocator an address in the first block's closed interval frees that block |
| AllocatorFacts.TraceStepThree | Test/MemoryTest/Program.cs:21 | `Free(p)` removes the 16-byte block |
| AllocatorFacts.TraceStepFour | Test/MemoryTest/Program.cs:23 | the allocator serves `Alloc(8)` at `p` |
| AllocatorFacts.TraceStepFive | Test/MemoryTest/Program.cs:24 | the allocator serves `Alloc(8)` at `p+8` |
| AllocatorFacts.DemoTrace | Test/MemoryTest/Program.cs:14-25 | on a fresh allocator with page base `p`: `Alloc(16)=p`, `Alloc(32)=p+16`, `Free(p)`, `Alloc(8)=p`, `Alloc(8)=p+8`, with exactly one page requested |
| AllocatorFacts.FreeHitsNeighbour | Xkein.Memory/Memory.cs:102 | after `Alloc(16)=p` and `Alloc(32)=p+16`, `Free(p+16)` removes the 16-byte block, not the 32-byte block at that address |
| CollectionHelpers.WithoutSnoc | Xkein.Helpers/CollectionHelpers.cs:13-25 | filtering a list extended by one element extends the filtered list by that element unless it matches |
| CollectionHelpers.WithoutMembers | Xkein.Helpers/CollectionHelpers.cs:15-19 | an element survives iff it was in the list and does not match, so no survivor matches |
| CollectionHelpers.WithoutLength | Xkein.Helpers/CollectionHelpers.cs:15-24 | the new length is the old length minus the number of matching elements |
| CollectionHelpers.WithoutNoMatch | Xkein.Helpers/CollectionHelpers.cs:15-24 | if nothing matches the list is unchanged |
| CollectionHelpers.WithoutIdempotent | Xkein.Helpers/CollectionHelpers.cs:12-25 | a second filter removes nothing |
| CollectionHelpers.ShiftPicks | Xkein.Helpers/CollectionHelpers.cs:17-23 | positions in the tail of a list are positions in the list, all past the first |
| CollectionHelpers.ConsPicks | Xkein.Helpers/CollectionHelpers.cs:17-23 | keeping the first element extends an order-preserving selection |
| CollectionHelpers.WithoutKeepsOrder | Xkein.Helpers/CollectionHelpers.cs:17-23 | the kept elements keep their original relative order (a subsequence) |
| CollectionHelpers.RemoveAll | Xkein.Helpers/CollectionHelpers.cs:10-26 | the list afterwards is the original filtered to the elements for which the predicate is false; every original node is tested exactly once, first to last; no survivor matches; order is kept; the length drops by the number of matches; nothing matching means no change |

## Left out

- Concurrency. The `lock (this)` in `Memory.cs` and `Allocator.cs` is not modelled: each operation is one sequential state transition.
- Backend memory. `_allocate` becomes the `pageBase` parameter of `Allocation.Alloc`, which is the address the backend would return. The calls it would receive are reported in `pageRequests`.
- Backend failure. A throwing `_allocate` (for example an `OutOfMemoryException` from `Marshal.AllocHGlobal`) propagates out of `Alloc` before `containers.Add`, leaving the allocator unchanged. The `pageBase` parameter assumes the backend always returns.
- `_deallocate` is stored but never called by the code, so it is not modelled beyond the null check in `Allocation.New`. No page is ever returned to the backend.
- Page overlap. Whether two backend pages overlap is up to the backend, so no cross-page disjointness is stated.
- Machine integers. Addresses and sizes are mathematical integers. Not modelled:
  - the `IntPtr` to `int` conversion in `Begin` (`Memory.cs:18`) and of the freed address in `Container.Free` (`Memory.cs:102`). Depending on the runtime, that explicit cast may throw `OverflowException` instead of truncating. `Allocator.Free` catches only `InvalidOperationException`, so such an exception would escape;
  - `int` overflow in `Begin + Size` and in `Range.Length`.
- Zero and negative lengths. The invariant lemmas require `length > 0`, because a zero-size block breaks disjointness. `PageFacts.ZeroLengthBreaksDisjointness` shows this on a concrete page.
- PageFacts.TryAllocPreservesValid: requires `length > 0`. On an empty page it also requires `length <= size`, because an empty page accepts any length and the block can then extend past the page.
- AllocatorFacts.AllocInPagePreservesValid: requires `0 < length <= 1024`, because a zero-size block breaks disjointness and a longer block served by an empty page extends past its end.
- AllocatorFacts.AllocNewPagePreservesValid: requires `0 < length <= 1024`, because a longer block on the fresh page extends past its end and a non-positive one is not a healthy block.
- AllocatorFacts.AllocPreservesValid: requires `0 < length <= 1024` for the same reasons. A longer request leaves a page whose block extends past its end.
- PageFacts.FreeMatchesBlockEnd: requires the block's size to be non-negative, because a block of negative size does not cover its own `End`.
- Object identity.
  - `_used.Remove(memory)` removes the object `Find` returned. The model removes the block at the position `Find` chose, which is the same block.
  - `LinkedList` nodes are modelled by their values, in order.
- Linked-list representation. `RemoveAll` works on the sequence of node values, and the predicate is a pure total function. A predicate with side effects or one that throws is not modelled.
- Output. The memory test program's console output is not modelled; only its allocator calls are.
- Out of scope, since none of them is part of the allocator:
  - `Xkein.Downloader/Downloader.cs` and `Xkein.Downloader/DownloadTask.cs`: HTTP, streams, tasks and floating-point progress.
  - `Xkein.Logger/Logger.cs`: console and file output.
  - `XkeinTools.CLR/CLR.cpp`: CLR hosting through foreign calls.
  - `Xkein.Helpers/FileSystemHelpers.cs`: a thin wrapper over the file system.
