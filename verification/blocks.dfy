/** Address ranges: the `Memory` block of Xkein.Memory/Memory.cs, the
    `Container.Range` helper struct, and the ordering and disjointness
    facts the page layer relies on. Addresses are mathematical integers. */
module Blocks {

  /** One block of address space, `Memory(address, size)` in the source.
      `Begin` is the address read as an integer and `End` its exclusive
      bound. */
  datatype Memory = Memory(address: int, size: int) {

    function Begin(): int { address }

    function End(): int { Begin() + size }

    /** The half-open range `[Begin, End)` the block occupies. */
    function AsRange(): Range { Range(Begin(), End()) }

    /** True when `a` lies inside the half-open range of the block. */
    predicate Holds(a: int) { Begin() <= a < End() }

    /** The test `Container.Free` uses to recognise a block: both ends of
        `[Begin, End]` are included. */
    predicate Covers(a: int) { Begin() <= a <= End() }
  }

  /** `Container.Range`: a half-open interval `[start, end)`. Datatype
      equality compares both fields, as the source's `==` operator does. */
  datatype Range = Range(start: int, end: int) {

    function Length(): int { end - start }

    predicate Holds(a: int) { start <= a < end }
  }

  /** `default(Range)`, which the page layer uses as its "no fit" value. */
  const NoFit: Range := Range(0, 0)

  /** Two ranges share no address when one ends before the other starts. */
  predicate Disjoint(x: Range, y: Range) {
    x.end <= y.start || y.end <= x.start
  }

  /** No two entries of `s` at different positions overlap. */
  predicate PairwiseDisjoint(s: seq<Range>) {
    forall i, j :: 0 <= i < j < |s| ==> Disjoint(s[i], s[j])
  }

  /** Starts are in ascending (not necessarily strict) order. */
  predicate Sorted(s: seq<Range>) {
    forall i, j :: 0 <= i < j < |s| ==> s[i].start <= s[j].start
  }

  /** Every range is non-empty and lies inside `[lo, hi)`, and no two
      overlap: the shape of the live blocks of a healthy page. */
  predicate WellFormed(s: seq<Range>, lo: int, hi: int) {
    && (forall x | x in s :: x.start < x.end && lo <= x.start && x.end <= hi)
    && PairwiseDisjoint(s)
  }

  /** The ranges of a list of blocks, position by position. */
  function RangesOf(used: seq<Memory>): (r: seq<Range>)
    ensures |r| == |used|
    ensures forall i :: 0 <= i < |used| ==> r[i] == used[i].AsRange()
  {
    if |used| == 0 then [] else [used[0].AsRange()] + RangesOf(used[1..])
  }

  /** Inserts `x` into a sorted list in front of the first range whose
      start is not smaller, so that earlier insertions keep precedence
      among equal starts. */
  function Insert(x: Range, t: seq<Range>): (r: seq<Range>)
    requires Sorted(t)
    ensures Sorted(r)
    ensures multiset(r) == multiset{x} + multiset(t)
    ensures forall y | y in r :: y == x || y in t
  {
    if |t| == 0 then [x]
    else if x.start <= t[0].start then [x] + t
    else
      SortedTail(t);
      var rest := Insert(x, t[1..]);
      HeadBeforeTail(t);
      SortedCons(t[0], rest);
      assert t == [t[0]] + t[1..];
      assert multiset([t[0]] + rest) == multiset{t[0]} + multiset(rest);
      [t[0]] + rest
  }

  /** Prepending a range no later than every entry keeps a list sorted. */
  lemma SortedCons(x: Range, t: seq<Range>)
    requires Sorted(t)
    requires forall y | y in t :: x.start <= y.start
    ensures Sorted([x] + t)
  {
    var s := [x] + t;
    forall i, j | 0 <= i < j < |s| ensures s[i].start <= s[j].start {
      assert s[j] == t[j - 1];
      if i > 0 {
        assert s[i] == t[i - 1];
      }
    }
  }

  /** A stable sort by start address: the `orderby m.Begin` of
      `Container.TryAlloc`. */
  function SortByStart(s: seq<Range>): (r: seq<Range>)
    ensures Sorted(r)
    ensures multiset(r) == multiset(s)
  {
    if |s| == 0 then [] else
      var rest := SortByStart(s[1..]);
      assert s == [s[0]] + s[1..];
      Insert(s[0], rest)
  }

  /** Two ranges given out of order come back swapped. */
  lemma SortSwapsPair(x: Range, y: Range)
    requires y.start < x.start
    ensures SortByStart([x, y]) == [y, x]
  {
    assert [x, y][1..] == [y];
    assert [y][1..] == [];
  }

  /** A list already in start order comes back unchanged. */
  lemma {:induction false} SortOfSorted(s: seq<Range>)
    requires Sorted(s)
    ensures SortByStart(s) == s
  {
    if |s| > 0 {
      SortedTail(s);
      SortOfSorted(s[1..]);
      assert SortByStart(s) == Insert(s[0], s[1..]);
      assert |s| > 1 ==> s[0].start <= s[1].start;
      assert s == [s[0]] + s[1..];
    }
  }

  /** The entries of `s` that start at `k`, in their order in `s`. */
  function WithStart(s: seq<Range>, k: int): (w: seq<Range>) {
    if |s| == 0 then []
    else (if s[0].start == k then [s[0]] else []) + WithStart(s[1..], k)
  }

  /** Filtering a list with a first entry filters that entry, then the
      rest. */
  lemma WithStartCons(y: Range, t: seq<Range>, k: int)
    ensures WithStart([y] + t, k) == (if y.start == k then [y] else []) + WithStart(t, k)
  {
    assert ([y] + t)[1..] == t;
  }

  /** Inserting `x` puts it ahead of every entry with its start and
      leaves the order of the other entries with that start alone. */
  lemma {:induction false} InsertWithStart(x: Range, t: seq<Range>, k: int)
    requires Sorted(t)
    ensures WithStart(Insert(x, t), k) == (if x.start == k then [x] else []) + WithStart(t, k)
  {
    if |t| == 0 || x.start <= t[0].start {
      assert Insert(x, t) == [x] + t;
      WithStartCons(x, t, k);
    } else {
      SortedTail(t);
      InsertWithStart(x, t[1..], k);
      var rest := Insert(x, t[1..]);
      assert Insert(x, t) == [t[0]] + rest;
      WithStartCons(t[0], rest, k);
      WithStartCons(t[0], t[1..], k);
      assert t == [t[0]] + t[1..];
    }
  }

  /** The head of a sorted list starts no later than any entry of its
      tail. */
  lemma HeadBeforeTail(t: seq<Range>)
    requires |t| > 0 && Sorted(t)
    ensures forall y | y in t[1..] :: t[0].start <= y.start
  {
    forall y | y in t[1..] ensures t[0].start <= y.start {
      var k :| 0 <= k < |t| - 1 && t[1..][k] == y;
      assert t[k + 1] == y;
    }
  }

  /** The tail of a sorted list is sorted. */
  lemma SortedTail(t: seq<Range>)
    requires |t| > 0 && Sorted(t)
    ensures Sorted(t[1..])
  {
    forall i, j | 0 <= i < j < |t| - 1 ensures t[1..][i].start <= t[1..][j].start {
      assert t[1..][i] == t[i + 1] && t[1..][j] == t[j + 1];
    }
  }

  /** The sort is stable at start `k`: the entries starting at `k` come
      out in the order they went in. */
  lemma {:induction false} SortStableAt(s: seq<Range>, k: int)
    ensures WithStart(SortByStart(s), k) == WithStart(s, k)
  {
    if |s| > 0 {
      SortStableAt(s[1..], k);
      InsertWithStart(s[0], SortByStart(s[1..]), k);
    }
  }

  /** `orderby` is a stable sort: ranges with equal starts keep their
      input order, so blocks with equal starts keep insertion order. */
  lemma SortIsStable(s: seq<Range>)
    ensures forall k :: WithStart(SortByStart(s), k) == WithStart(s, k)
  {
    forall k ensures WithStart(SortByStart(s), k) == WithStart(s, k) {
      SortStableAt(s, k);
    }
  }

  /** Two non-empty ranges are disjoint exactly when no address lies in
      both. */
  lemma DisjointIffNoSharedAddress(x: Range, y: Range)
    requires x.Length() > 0 && y.Length() > 0
    ensures Disjoint(x, y) <==> forall a :: !(x.Holds(a) && y.Holds(a))
  {
    if !Disjoint(x, y) {
      var a := if x.start <= y.start then y.start else x.start;
      assert x.Holds(a) && y.Holds(a);
    }
  }

  /** Prepending a range disjoint from every entry keeps a list pairwise
      disjoint. */
  lemma ConsDisjoint(x: Range, t: seq<Range>)
    requires PairwiseDisjoint(t)
    requires forall y | y in t :: Disjoint(x, y)
    ensures PairwiseDisjoint([x] + t)
  {
    var s := [x] + t;
    forall i, j | 0 <= i < j < |s| ensures Disjoint(s[i], s[j]) {
      if i == 0 {
        assert s[j] == t[j - 1];
        assert s[j] in t;
      } else {
        assert s[i] == t[i - 1] && s[j] == t[j - 1];
      }
    }
  }

  lemma {:induction false} InsertKeepsDisjoint(x: Range, t: seq<Range>)
    requires Sorted(t)
    requires PairwiseDisjoint(t)
    requires forall y | y in t :: Disjoint(x, y)
    ensures PairwiseDisjoint(Insert(x, t))
  {
    if |t| == 0 {
    } else if x.start <= t[0].start {
      ConsDisjoint(x, t);
    } else {
      var tail := t[1..];
      assert PairwiseDisjoint(tail) by {
        forall i, j | 0 <= i < j < |tail| ensures Disjoint(tail[i], tail[j]) {
          assert tail[i] == t[i + 1] && tail[j] == t[j + 1];
        }
      }
      forall y | y in tail ensures Disjoint(x, y) {
        assert y in t;
      }
      InsertKeepsDisjoint(x, tail);
      var rest := Insert(x, tail);
      forall y | y in rest ensures Disjoint(t[0], y) {
        assert y in multiset(rest);
        if y == x {
          assert t[0] in t;
        } else {
          assert y in tail;
          var k :| 0 <= k < |tail| && tail[k] == y;
          assert t[k + 1] == y;
        }
      }
      ConsDisjoint(t[0], rest);
    }
  }

  /** Sorting keeps a pairwise disjoint list pairwise disjoint. */
  lemma {:induction false} SortKeepsDisjoint(s: seq<Range>)
    requires PairwiseDisjoint(s)
    ensures PairwiseDisjoint(SortByStart(s))
  {
    if |s| > 0 {
      var tail := s[1..];
      assert PairwiseDisjoint(tail) by {
        forall i, j | 0 <= i < j < |tail| ensures Disjoint(tail[i], tail[j]) {
          assert tail[i] == s[i + 1] && tail[j] == s[j + 1];
        }
      }
      SortKeepsDisjoint(tail);
      var sorted := SortByStart(tail);
      forall y | y in sorted ensures Disjoint(s[0], y) {
        assert y in multiset(sorted);
        assert y in tail;
        var k :| 0 <= k < |tail| && tail[k] == y;
        assert s[k + 1] == y;
      }
      InsertKeepsDisjoint(s[0], sorted);
    }
  }

  /** Sorting a well-formed list of block ranges keeps it well formed:
      same entries, still non-empty, inside the page and disjoint. */
  lemma SortKeepsWellFormed(s: seq<Range>, lo: int, hi: int)
    requires WellFormed(s, lo, hi)
    ensures WellFormed(SortByStart(s), lo, hi)
    ensures forall x :: x in SortByStart(s) <==> x in s
  {
    var r := SortByStart(s);
    forall x ensures x in r <==> x in s {
      assert x in r <==> x in multiset(r);
    }
    SortKeepsDisjoint(s);
  }

  /** In a sorted, pairwise disjoint list of non-empty ranges every range
      ends before any later one starts. */
  lemma SortedDisjointIsOrdered(r: seq<Range>, lo: int, hi: int)
    requires Sorted(r)
    requires WellFormed(r, lo, hi)
    ensures forall i, j :: 0 <= i < j < |r| ==> r[i].end <= r[j].start
  {
    forall i, j | 0 <= i < j < |r| ensures r[i].end <= r[j].start {
      assert Disjoint(r[i], r[j]);
      assert r[j] in r;
    }
  }
}
