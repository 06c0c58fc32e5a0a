/** Order-preserving selection from a sequence: the `Array.prototype.filter`
    used by the upload component, and the positions of the kept elements. */
module Seqs {

  /** The elements of `s` satisfying `p`, in their original order. */
  function Filter<T>(s: seq<T>, p: T -> bool): (r: seq<T>)
    ensures |r| <= |s|
    ensures forall k :: 0 <= k < |r| ==> p(r[k])
    ensures forall k :: 0 <= k < |r| ==> r[k] in s
    decreases |s|
  {
    if |s| == 0 then []
    else Filter(s[..|s| - 1], p) + (if p(s[|s| - 1]) then [s[|s| - 1]] else [])
  }

  /** `r` lists, ascending, exactly the indices of `s` whose element satisfies `p`. */
  predicate ExactPositions<T>(s: seq<T>, p: T -> bool, r: seq<nat>) {
    && (forall k :: 0 <= k < |r| ==> r[k] < |s| && p(s[r[k]]))
    && (forall a, b :: 0 <= a < b < |r| ==> r[a] < r[b])
    && (forall j :: 0 <= j < |s| && p(s[j]) ==> j in r)
  }

  /** The indices of `s` whose element satisfies `p`, ascending. */
  function Positions<T>(s: seq<T>, p: T -> bool): (r: seq<nat>)
    ensures |r| <= |s|
    ensures ExactPositions(s, p, r)
    decreases |s|
  {
    if |s| == 0 then []
    else Positions(s[..|s| - 1], p) + (if p(s[|s| - 1]) then [|s| - 1] else [])
  }

  /** Only one sequence lists the satisfying indices ascending: the one `Positions` computes. */
  lemma {:induction false} PositionsUnique<T>(s: seq<T>, p: T -> bool, r: seq<nat>)
    requires ExactPositions(s, p, r)
    ensures r == Positions(s, p)
    decreases |s|
  {
    if |s| == 0 {
      if |r| > 0 {
        FirstPositionInRange(s, p, r);
        assert false;
      }
    } else if p(s[|s| - 1]) {
      ExactPositionsDropKept(s, p, r);
      PositionsUnique(s[..|s| - 1], p, r[..|r| - 1]);
    } else {
      ExactPositionsDropUnkept(s, p, r);
      PositionsUnique(s[..|s| - 1], p, r);
    }
  }

  /** The first listed position is an index of the sequence. */
  lemma FirstPositionInRange<T>(s: seq<T>, p: T -> bool, r: seq<nat>)
    requires ExactPositions(s, p, r) && |r| > 0
    ensures r[0] < |s|
  {
  }

  /** When the last element satisfies `p`, its index ends the list, and the rest of the
      list is the exact position list of the shorter sequence. */
  lemma ExactPositionsDropKept<T>(s: seq<T>, p: T -> bool, r: seq<nat>)
    requires |s| > 0 && p(s[|s| - 1])
    requires ExactPositions(s, p, r)
    ensures |r| > 0 && r == r[..|r| - 1] + [|s| - 1]
    ensures ExactPositions(s[..|s| - 1], p, r[..|r| - 1])
  {
    var last := |s| - 1;
    var m := |r| - 1;
    assert last in r;
    var q :| 0 <= q < |r| && r[q] == last;
    assert forall k :: 0 <= k < m ==> r[k] < r[m];
    assert q == m;
    var rinit := r[..m];
    assert r == rinit + [last];
    forall j | 0 <= j < last && p(s[..last][j])
      ensures j in rinit
    {
      assert s[j] == s[..last][j];
      assert j in r;
      var t :| 0 <= t < |r| && r[t] == j;
      assert rinit[t] == j;
    }
  }

  /** When the last element does not satisfy `p`, the same list is the exact position
      list of the shorter sequence. */
  lemma ExactPositionsDropUnkept<T>(s: seq<T>, p: T -> bool, r: seq<nat>)
    requires |s| > 0 && !p(s[|s| - 1])
    requires ExactPositions(s, p, r)
    ensures ExactPositions(s[..|s| - 1], p, r)
  {
    var last := |s| - 1;
    forall k | 0 <= k < |r|
      ensures r[k] < last
    {
      assert r[k] != last;
    }
    forall j | 0 <= j < last && p(s[..last][j])
      ensures j in r
    {
      assert s[j] == s[..last][j];
    }
  }

  /** The filter is exactly the selection of the positions that satisfy `p`:
      it keeps every satisfying element, drops every other one, and never reorders. */
  lemma {:induction false} FilterIsPositionSelection<T>(s: seq<T>, p: T -> bool)
    ensures |Filter(s, p)| == |Positions(s, p)|
    ensures forall k :: 0 <= k < |Filter(s, p)| ==> Filter(s, p)[k] == s[Positions(s, p)[k]]
    decreases |s|
  {
    if |s| > 0 {
      var init := s[..|s| - 1];
      FilterIsPositionSelection(init, p);
      var f, ps := Filter(init, p), Positions(init, p);
      var tail: seq<T> := if p(s[|s| - 1]) then [s[|s| - 1]] else [];
      var tailPos: seq<nat> := if p(s[|s| - 1]) then [|s| - 1] else [];
      assert Filter(s, p) == f + tail;
      assert Positions(s, p) == ps + tailPos;
      forall k | 0 <= k < |Filter(s, p)|
        ensures Filter(s, p)[k] == s[Positions(s, p)[k]]
      {
        if k < |f| {
          assert Filter(s, p)[k] == f[k] == init[ps[k]];
          assert Positions(s, p)[k] == ps[k];
        }
      }
    }
  }

  /** Every satisfying element occurs in the filtered sequence as often as in the input;
      no other element occurs in it at all. */
  lemma {:induction false} FilterCounts<T>(s: seq<T>, p: T -> bool, x: T)
    ensures multiset(Filter(s, p))[x] == if p(x) then multiset(s)[x] else 0
    decreases |s|
  {
    if |s| > 0 {
      var init := s[..|s| - 1];
      FilterCounts(init, p, x);
      assert s == init + [s[|s| - 1]];
    }
  }

  /** Filtering distributes over concatenation. */
  lemma {:induction false} FilterAppend<T>(a: seq<T>, b: seq<T>, p: T -> bool)
    ensures Filter(a + b, p) == Filter(a, p) + Filter(b, p)
    decreases |b|
  {
    if |b| > 0 {
      var binit := b[..|b| - 1];
      assert (a + b)[..|a + b| - 1] == a + binit;
      FilterAppend(a, binit, p);
    } else {
      assert a + b == a;
    }
  }

  /** A sequence whose every element satisfies `p` passes through the filter unchanged. */
  lemma {:induction false} FilterKeepsAllSatisfying<T>(s: seq<T>, p: T -> bool)
    requires forall k :: 0 <= k < |s| ==> p(s[k])
    ensures Filter(s, p) == s
    decreases |s|
  {
    if |s| > 0 {
      FilterKeepsAllSatisfying(s[..|s| - 1], p);
    }
  }

  /** A sequence with no satisfying element filters to the empty sequence. */
  lemma {:induction false} FilterDropsAllUnsatisfying<T>(s: seq<T>, p: T -> bool)
    requires forall k :: 0 <= k < |s| ==> !p(s[k])
    ensures Filter(s, p) == []
    decreases |s|
  {
    if |s| > 0 {
      FilterDropsAllUnsatisfying(s[..|s| - 1], p);
    }
  }

  /** Filtering twice with the same predicate is filtering once. */
  lemma FilterIdempotent<T>(s: seq<T>, p: T -> bool)
    ensures Filter(Filter(s, p), p) == Filter(s, p)
  {
    FilterKeepsAllSatisfying(Filter(s, p), p);
  }
}
