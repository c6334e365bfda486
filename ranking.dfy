/** Top-N selection over one row of scores: an ascending argsort, the Python slice that keeps
    its last `top_n + 1` positions, reversal, and exclusion of the queried index. */
module Ranking {
  import opened Ids

  /** The contract of numpy's `argsort`: a permutation of the indices of `scores`, in ascending
      score order. Equal scores may come in any order. */
  predicate IsArgsort(order: seq<nat>, scores: seq<real>)
  {
    && |order| == |scores|
    && (forall p :: 0 <= p < |order| ==> order[p] < |scores|)
    && (forall i: nat :: i < |scores| ==> i in order)
    && Distinct(order)
    && (forall p, q :: 0 <= p < q < |order| ==> scores[order[p]] <= scores[order[q]])
  }

  /** Where the slice `a[-(topN + 1):]` of an `n`-element array starts, under Python's rules for
      negative and out-of-range slice bounds. */
  function SliceStart(n: nat, topN: int): (start: nat)
    ensures start <= n
    ensures topN >= 0 ==> n - start == if topN + 1 < n then topN + 1 else n
    ensures topN == -1 ==> start == 0
    ensures topN < -1 ==> start == if -(topN + 1) < n then -(topN + 1) else n
  {
    var bound := -(topN + 1);
    if bound < 0 then (if n + bound < 0 then 0 else n + bound)
    else (if bound > n then n else bound)
  }

  /** `s[::-1]`. */
  function Reverse<T>(s: seq<T>): (r: seq<T>)
    ensures |r| == |s|
    ensures forall i :: 0 <= i < |s| ==> r[i] == s[|s| - 1 - i]
  {
    if s == [] then [] else Reverse(s[1..]) + [s[0]]
  }

  /** `argsort()[-(top_n+1):][::-1]`: the selected indices, highest score first. */
  function TopIndices(order: seq<nat>, topN: int): (top: seq<nat>)
    ensures |top| == |order| - SliceStart(|order|, topN)
  {
    Reverse(order[SliceStart(|order|, topN)..])
  }

  /** The elements of `s` other than `self`, in their order. */
  function ExcludeSelf(s: seq<nat>, self: nat): seq<nat>
  {
    if s == [] then []
    else
      var last := s[|s| - 1];
      ExcludeSelf(s[..|s| - 1], self) + (if last != self then [last] else [])
  }

  /** `s` lists its indices from the highest score to the lowest. */
  predicate NonIncreasing(s: seq<nat>, scores: seq<real>)
    requires forall p :: 0 <= p < |s| ==> s[p] < |scores|
  {
    forall p, q :: 0 <= p < q < |s| ==> scores[s[p]] >= scores[s[q]]
  }

  /** Exclusion removes exactly `self`: membership is that of `s` less `self`. */
  lemma {:induction false} ExcludeSelfMembers(s: seq<nat>, self: nat)
    ensures forall x :: x in ExcludeSelf(s, self) <==> x in s && x != self
  {
    if s != [] {
      ExcludeSelfMembers(s[..|s| - 1], self);
      assert s == s[..|s| - 1] + [s[|s| - 1]];
    }
  }

  /** Exclusion of a prefix is a prefix of the exclusion. */
  lemma {:induction false} ExcludeSelfPrefix(s: seq<nat>, i: nat, self: nat)
    requires i <= |s|
    ensures ExcludeSelf(s[..i], self) <= ExcludeSelf(s, self)
    decreases |s|
  {
    if i < |s| {
      ExcludeSelfPrefix(s[..|s| - 1], i, self);
      assert s[..|s| - 1][..i] == s[..i];
    } else {
      assert s[..i] == s;
    }
  }

  /** Exclusion keeps distinct elements distinct and drops exactly one element when `self` occurs. */
  lemma {:induction false} ExcludeSelfDistinct(s: seq<nat>, self: nat)
    requires Distinct(s)
    ensures Distinct(ExcludeSelf(s, self))
    ensures |ExcludeSelf(s, self)| == if self in s then |s| - 1 else |s|
  {
    if s != [] {
      var init := s[..|s| - 1];
      var last := s[|s| - 1];
      assert s == init + [last];
      ExcludeSelfDistinct(init, self);
      ExcludeSelfMembers(init, self);
      assert last !in init;
    }
  }

  /** Exclusion keeps the order of what remains, so a ranking stays a ranking. */
  lemma {:induction false} ExcludeSelfNonIncreasing(s: seq<nat>, self: nat, scores: seq<real>)
    requires forall p :: 0 <= p < |s| ==> s[p] < |scores|
    requires NonIncreasing(s, scores)
    ensures forall p :: 0 <= p < |ExcludeSelf(s, self)| ==> ExcludeSelf(s, self)[p] < |scores|
    ensures NonIncreasing(ExcludeSelf(s, self), scores)
  {
    ExcludeSelfMembers(s, self);
    if s != [] {
      var init := s[..|s| - 1];
      var last := s[|s| - 1];
      ExcludeSelfNonIncreasing(init, self, scores);
      ExcludeSelfMembers(init, self);
      var e := ExcludeSelf(init, self);
      forall p | 0 <= p < |e|
        ensures scores[e[p]] >= scores[last]
      {
        assert e[p] in init;
        var q :| 0 <= q < |init| && init[q] == e[p];
      }
    }
  }

  /** The selected indices, before exclusion: in range, distinct, highest score first, and
      scoring at least as high as every index left out. */
  lemma TopIndicesRanked(order: seq<nat>, scores: seq<real>, topN: int)
    requires IsArgsort(order, scores)
    ensures var top := TopIndices(order, topN);
      && |top| == |order| - SliceStart(|order|, topN)
      && (forall p :: 0 <= p < |top| ==> top[p] < |scores|)
      && Distinct(top)
      && NonIncreasing(top, scores)
      && (forall x, y :: x in top && 0 <= y < |scores| && y !in top ==> scores[x] >= scores[y])
  {
    var start := SliceStart(|order|, topN);
    var top := TopIndices(order, topN);
    assert forall p :: 0 <= p < |top| ==> top[p] == order[|order| - 1 - p];
    forall b | start <= b < |order|
      ensures order[b] in top
    {
      assert top[|order| - 1 - b] == order[b];
    }
    forall x, y | x in top && 0 <= y < |scores| && y !in top
      ensures scores[x] >= scores[y]
    {
      var a :| 0 <= a < |top| && top[a] == x;
      assert y as nat in order;
      var b :| 0 <= b < |order| && order[b] == y;
      assert b < start;
    }
  }

  /** What the selection keeps, for a row sorted by argsort: in range, distinct, highest first,
      never `self`, and no index outside the selection (other than `self`) scores higher than
      one inside it. */
  lemma TopIndicesSelection(order: seq<nat>, scores: seq<real>, topN: int, self: nat)
    requires IsArgsort(order, scores)
    ensures var sel := ExcludeSelf(TopIndices(order, topN), self);
      && (forall p :: 0 <= p < |sel| ==> sel[p] < |scores| && sel[p] != self)
      && Distinct(sel)
      && NonIncreasing(sel, scores)
      && (forall x, y :: x in sel && 0 <= y < |scores| && y != self && y !in sel ==> scores[x] >= scores[y])
      && |sel| == |order| - SliceStart(|order|, topN) - (if self in TopIndices(order, topN) then 1 else 0)
  {
    var top := TopIndices(order, topN);
    TopIndicesRanked(order, scores, topN);
    ExcludeSelfDistinct(top, self);
    ExcludeSelfNonIncreasing(top, self, scores);
    ExcludeSelfMembers(top, self);
  }

  /** With a single index there is nothing to recommend: excluding it leaves the selection empty. */
  lemma SoleIndexExcluded(order: seq<nat>, scores: seq<real>, topN: int)
    requires IsArgsort(order, scores) && |scores| == 1
    ensures ExcludeSelf(TopIndices(order, topN), 0) == []
  {
    TopIndicesSelection(order, scores, topN, 0);
  }
}
