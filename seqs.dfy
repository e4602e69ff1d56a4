/** Searches over sequences used by every handler of the bookstore: the first
    element satisfying a predicate (what `Array.prototype.find` gives back) and
    the ordered sub-sequence of the elements satisfying it (`Array.prototype.filter`). */
module Seqs {

  datatype Option<T> = None | Some(value: T)

  /** The index of the first element of `s` that satisfies `p`, or None when no element does. */
  function Find<T>(s: seq<T>, p: T -> bool): (r: Option<nat>)
    ensures r.Some? ==> r.value < |s| && p(s[r.value]) && forall j :: 0 <= j < r.value ==> !p(s[j])
    ensures r.None? <==> forall j :: 0 <= j < |s| ==> !p(s[j])
  {
    if |s| == 0 then None
    else if p(s[0]) then Some(0)
    else
      match Find(s[1..], p)
      case None =>
        assert forall j :: 1 <= j < |s| ==> s[j] == s[1..][j - 1];
        None
      case Some(k) =>
        assert forall j :: 1 <= j < k + 1 ==> s[j] == s[1..][j - 1];
        Some(k + 1)
  }

  /** The elements of `s` that satisfy `p`, in the order in which they occur in `s`. */
  function Filter<T>(s: seq<T>, p: T -> bool): (r: seq<T>)
    ensures |r| <= |s|
    ensures forall i :: 0 <= i < |r| ==> r[i] in s && p(r[i])
    ensures forall i :: 0 <= i < |s| && p(s[i]) ==> s[i] in r
  {
    if |s| == 0 then []
    else
      assert s == [s[0]] + s[1..];
      (if p(s[0]) then [s[0]] else []) + Filter(s[1..], p)
  }

  /** `idx` lists, in strictly increasing order, exactly the positions of `s`
      whose element satisfies `p`. */
  ghost predicate Positions<T>(s: seq<T>, p: T -> bool, idx: seq<nat>)
  {
    AllMatch(s, p, idx) && Increasing(idx) && CoversMatches(s, p, idx)
  }

  ghost predicate AllMatch<T>(s: seq<T>, p: T -> bool, idx: seq<nat>)
  {
    forall k :: 0 <= k < |idx| ==> idx[k] < |s| && p(s[idx[k]])
  }

  ghost predicate Increasing(idx: seq<nat>)
  {
    forall k, l :: 0 <= k < l < |idx| ==> idx[k] < idx[l]
  }

  ghost predicate CoversMatches<T>(s: seq<T>, p: T -> bool, idx: seq<nat>)
  {
    forall i :: 0 <= i < |s| && p(s[i]) ==> i in idx
  }

  /** `r` is the sequence of the elements of `s` found at the positions `idx`. */
  ghost predicate PicksAt<T>(s: seq<T>, idx: seq<nat>, r: seq<T>)
  {
    |r| == |idx| && forall k :: 0 <= k < |idx| ==> idx[k] < |s| && r[k] == s[idx[k]]
  }

  /** `r` holds exactly the elements of `s` that satisfy `p`, in their order in `s`. */
  ghost predicate OrderedMatches<T>(s: seq<T>, p: T -> bool, r: seq<T>)
  {
    exists idx :: Positions(s, p, idx) && PicksAt(s, idx, r)
  }

  /** The positions of `s` given those `tail` of `s[1..]`: each moved one place
      right, after position 0 when `s[0]` is a match. */
  function ConsPositions<T>(s: seq<T>, p: T -> bool, tail: seq<nat>): seq<nat>
    requires |s| > 0
  {
    (if p(s[0]) then [0] else []) + seq(|tail|, k requires 0 <= k < |tail| => tail[k] + 1)
  }

  lemma PositionsCons<T>(s: seq<T>, p: T -> bool, tail: seq<nat>)
    requires |s| > 0 && Positions(s[1..], p, tail)
    ensures Positions(s, p, ConsPositions(s, p, tail))
  {
    AllMatchCons(s, p, tail);
    IncreasingCons(s, p, tail);
    CoversMatchesCons(s, p, tail);
  }

  lemma AllMatchCons<T>(s: seq<T>, p: T -> bool, tail: seq<nat>)
    requires |s| > 0 && AllMatch(s[1..], p, tail)
    ensures AllMatch(s, p, ConsPositions(s, p, tail))
  {
  }

  lemma IncreasingCons<T>(s: seq<T>, p: T -> bool, tail: seq<nat>)
    requires |s| > 0 && Increasing(tail)
    ensures Increasing(ConsPositions(s, p, tail))
  {
  }

  lemma CoversMatchesCons<T>(s: seq<T>, p: T -> bool, tail: seq<nat>)
    requires |s| > 0 && CoversMatches(s[1..], p, tail)
    ensures CoversMatches(s, p, ConsPositions(s, p, tail))
  {
    var idx := ConsPositions(s, p, tail);
    var h := if p(s[0]) then 1 else 0;
    forall i | 0 <= i < |s| && p(s[i])
      ensures i in idx
    {
      if i > 0 {
        assert s[1..][i - 1] == s[i];
        var k :| 0 <= k < |tail| && tail[k] == i - 1;
        assert idx[h + k] == i;
      }
    }
  }

  lemma PicksCons<T>(s: seq<T>, p: T -> bool, tail: seq<nat>, r: seq<T>)
    requires |s| > 0 && PicksAt(s[1..], tail, r)
    ensures PicksAt(s, ConsPositions(s, p, tail), (if p(s[0]) then [s[0]] else []) + r)
  {
  }

  /** Filtering keeps every match, drops every non-match and preserves order. */
  lemma {:induction false} FilterOrdered<T>(s: seq<T>, p: T -> bool)
    ensures OrderedMatches(s, p, Filter(s, p))
  {
    if |s| == 0 {
      assert Positions(s, p, []) && PicksAt(s, [], []);
    } else {
      FilterOrdered(s[1..], p);
      var tail :| Positions(s[1..], p, tail) && PicksAt(s[1..], tail, Filter(s[1..], p));
      PositionsCons(s, p, tail);
      PicksCons(s, p, tail, Filter(s[1..], p));
      assert Positions(s, p, ConsPositions(s, p, tail)) && PicksAt(s, ConsPositions(s, p, tail), Filter(s, p));
    }
  }

  /** Filtering a second time with the same predicate changes nothing. */
  lemma {:induction false} FilterIdempotent<T>(s: seq<T>, p: T -> bool)
    ensures Filter(Filter(s, p), p) == Filter(s, p)
  {
    if |s| > 0 {
      FilterIdempotent(s[1..], p);
      var rest := Filter(s[1..], p);
      if p(s[0]) {
        var once := [s[0]] + rest;
        assert Filter(s, p) == once;
        assert once[0] == s[0] && once[1..] == rest;
        assert Filter(once, p) == [s[0]] + Filter(rest, p);
      } else {
        assert Filter(s, p) == rest;
      }
    }
  }

  /** Two predicates that agree on every element of `s` select the same elements. */
  lemma {:induction false} FilterCongruent<T>(s: seq<T>, p: T -> bool, q: T -> bool)
    requires forall x :: x in s ==> p(x) == q(x)
    ensures Filter(s, p) == Filter(s, q)
  {
    if |s| > 0 {
      assert forall x :: x in s[1..] ==> x in s;
      FilterCongruent(s[1..], p, q);
    }
  }
}
