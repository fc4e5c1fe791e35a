/** `CollectionHelpers.RemoveAll` of Xkein.Helpers/CollectionHelpers.cs:
    an in-place filter over a linked list. The list is a sequence of its
    node values, first to last, and the predicate is a pure function. */
module CollectionHelpers {

  /** The reference filter: the elements of `s` for which `p` is false,
      in their original order. */
  function Without<T>(s: seq<T>, p: T -> bool): (w: seq<T>) {
    if |s| == 0 then []
    else if p(s[0]) then Without(s[1..], p)
    else [s[0]] + Without(s[1..], p)
  }

  /** How many elements of `s` satisfy `p`. */
  function Count<T>(s: seq<T>, p: T -> bool): (n: nat) {
    if |s| == 0 then 0 else (if p(s[0]) then 1 else 0) + Count(s[1..], p)
  }

  /** `r` lists elements of `s` at strictly increasing positions. */
  ghost predicate IsSubsequence<T>(r: seq<T>, s: seq<T>) {
    exists idx: seq<int> :: Picks(idx, r, s)
  }

  /** `idx` names, for each element of `r`, its position in `s`, and the
      positions increase. */
  ghost predicate Picks<T>(idx: seq<int>, r: seq<T>, s: seq<T>) {
    && |idx| == |r|
    && (forall k :: 0 <= k < |idx| ==> 0 <= idx[k] < |s| && r[k] == s[idx[k]])
    && (forall k, l :: 0 <= k < l < |idx| ==> idx[k] < idx[l])
  }

  /** Filtering a list extended by one element filters the list and then
      keeps the element unless it matches. */
  lemma {:induction false} WithoutSnoc<T>(s: seq<T>, x: T, p: T -> bool)
    ensures Without(s + [x], p) == Without(s, p) + (if p(x) then [] else [x])
  {
    if |s| == 0 {
      assert s + [x] == [x];
      assert [x][1..] == [];
    } else {
      assert (s + [x])[1..] == s[1..] + [x];
      WithoutSnoc(s[1..], x, p);
    }
  }

  /** An element survives the filter exactly when it is in the list and
      does not match. */
  lemma {:induction false} WithoutMembers<T>(s: seq<T>, p: T -> bool, x: T)
    ensures x in Without(s, p) <==> x in s && !p(x)
  {
    if |s| > 0 {
      WithoutMembers(s[1..], p, x);
      assert s == [s[0]] + s[1..];
    }
  }

  /** The filter drops exactly the matching elements. */
  lemma {:induction false} WithoutLength<T>(s: seq<T>, p: T -> bool)
    ensures |Without(s, p)| == |s| - Count(s, p)
  {
    if |s| > 0 {
      WithoutLength(s[1..], p);
    }
  }

  /** A list with no matching element passes the filter unchanged. */
  lemma {:induction false} WithoutNoMatch<T>(s: seq<T>, p: T -> bool)
    requires forall i :: 0 <= i < |s| ==> !p(s[i])
    ensures Without(s, p) == s
  {
    if |s| > 0 {
      assert forall i :: 0 <= i < |s[1..]| ==> !p(s[1..][i]) by {
        forall i | 0 <= i < |s[1..]| ensures !p(s[1..][i]) {
          assert s[1..][i] == s[i + 1];
        }
      }
      WithoutNoMatch(s[1..], p);
      assert s == [s[0]] + s[1..];
    }
  }

  /** Filtering twice removes nothing the first pass left. */
  lemma WithoutIdempotent<T>(s: seq<T>, p: T -> bool)
    ensures Without(Without(s, p), p) == Without(s, p)
  {
    var r := Without(s, p);
    forall i | 0 <= i < |r| ensures !p(r[i]) {
      WithoutMembers(s, p, r[i]);
    }
    WithoutNoMatch(r, p);
  }

  /** Positions in `s[1..]` are positions in `s` one further on. */
  lemma ShiftPicks<T>(idx: seq<int>, r: seq<T>, s: seq<T>) returns (shifted: seq<int>)
    requires |s| > 0
    requires Picks(idx, r, s[1..])
    ensures Picks(shifted, r, s)
    ensures forall k :: 0 <= k < |shifted| ==> shifted[k] > 0
  {
    shifted := seq(|idx|, k requires 0 <= k < |idx| => idx[k] + 1);
    forall k | 0 <= k < |shifted| ensures r[k] == s[shifted[k]] {
      assert s[1..][idx[k]] == s[idx[k] + 1];
    }
  }

  /** The first element of `s`, taken at position 0, extends a pick that
      avoids position 0. */
  lemma ConsPicks<T>(idx: seq<int>, r: seq<T>, s: seq<T>)
    requires |s| > 0
    requires Picks(idx, r, s)
    requires forall k :: 0 <= k < |idx| ==> idx[k] > 0
    ensures Picks([0] + idx, [s[0]] + r, s)
  {
    var full := [0] + idx;
    var r' := [s[0]] + r;
    forall k | 0 <= k < |full| ensures 0 <= full[k] < |s| && r'[k] == s[full[k]] {
      if k > 0 {
        assert full[k] == idx[k - 1] && r'[k] == r[k - 1];
      }
    }
    forall k, l | 0 <= k < l < |full| ensures full[k] < full[l] {
      assert full[l] == idx[l - 1];
      if k > 0 {
        assert full[k] == idx[k - 1];
      }
    }
  }

  /** The kept elements appear in their original relative order. */
  lemma {:induction false} WithoutKeepsOrder<T>(s: seq<T>, p: T -> bool)
    ensures IsSubsequence(Without(s, p), s)
  {
    if |s| == 0 {
      assert Picks([], Without(s, p), s);
    } else {
      WithoutKeepsOrder(s[1..], p);
      var rest := Without(s[1..], p);
      var idx :| Picks(idx, rest, s[1..]);
      var shifted := ShiftPicks(idx, rest, s);
      if !p(s[0]) {
        ConsPicks(shifted, rest, s);
        assert Picks([0] + shifted, Without(s, p), s);
      }
    }
  }

  /** `RemoveAll`: walks the list from its first node; the cursor moves to
      the next node before a matching node is unlinked, so every original
      node is tested exactly once, first to last. `probed` lists the
      values the predicate was called with, in call order. */
  method RemoveAll<T>(list: seq<T>, pred: T -> bool) returns (result: seq<T>, probed: seq<T>)
    ensures result == Without(list, pred)
    ensures probed == list
    ensures forall x | x in result :: !pred(x)
    ensures IsSubsequence(result, list)
    ensures |result| == |list| - Count(list, pred)
    ensures (forall i :: 0 <= i < |list| ==> !pred(list[i])) ==> result == list
  {
    result := list;
    probed := [];
    var cursor := 0;
    while cursor < |result|
      invariant 0 <= cursor <= |result|
      invariant |probed| <= |list|
      invariant probed == list[..|probed|]
      invariant result[..cursor] == Without(probed, pred)
      invariant result[cursor..] == list[|probed|..]
      decreases |result| - cursor
    {
      var value := result[cursor];
      assert value == list[|probed|] by {
        assert result[cursor..][0] == list[|probed|..][0];
      }
      assert list[..|probed| + 1] == probed + [value];
      WithoutSnoc(probed, value, pred);
      probed := probed + [value];
      if pred(value) {
        ghost var before := result;
        result := result[..cursor] + result[cursor + 1..];
        assert result[..cursor] == before[..cursor];
        assert result[cursor..] == before[cursor..][1..];
      } else {
        assert result[..cursor + 1] == result[..cursor] + [value];
        assert result[cursor + 1..] == result[cursor..][1..];
        cursor := cursor + 1;
      }
    }
    assert probed == list;
    forall x | x in result ensures !pred(x) {
      WithoutMembers(list, pred, x);
    }
    WithoutLength(list, pred);
    WithoutKeepsOrder(list, pred);
    if forall i :: 0 <= i < |list| ==> !pred(list[i]) {
      WithoutNoMatch(list, pred);
    }
  }
}
