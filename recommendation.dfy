/**
 Top-K recommendation for one user: score every item by the dot product of
 the user's factor with the item's factor column, optionally push the items
 the user has already rated to the bottom with the score -1, rank the items
 by score and return the K best as (1-based id, title) pairs.

 The ranking is an argsort of the scores read backwards. np.argsort's default
 sort is not stable, so the order among equal scores is not fixed: the
 ranking properties are proved for every order that `IsArgSort` accepts.
 */
module Recommendation {
  import opened Wrappers
  import opened Matrices

  /** The score that marks an already rated item when seen items are excluded. */
  const Sentinel: real := -1.0

  /** One recommendation: the item's 1-based id and its title. */
  datatype Recommended = Recommended(id: int, title: string)

  /** Asking for more items than there are: the result loop indexes past the ranked ids. */
  datatype RecommendError = IndexOutOfRange

  /** Σ_{g<f} u[g]·V[g][i]: entry i of the 1 x n product u·V, over the first f features. */
  function ColumnDot(u: seq<real>, V: Matrix, n: nat, i: nat, f: nat): real
    requires IsMatrix(V, |u|, n) && i < n && f <= |u|
    decreases f
  {
    if f == 0 then 0.0 else ColumnDot(u, V, n, i, f - 1) + u[f - 1] * V[f - 1][i]
  }

  /** The predicted preference of every item: the product of the 1 x F user
      factor with the F x n item factor matrix. */
  function Predict(u: seq<real>, V: Matrix, n: nat): (p: seq<real>)
    requires IsMatrix(V, |u|, n)
    ensures |p| == n
    ensures forall i :: 0 <= i < n ==> p[i] == ColumnDot(u, V, n, i, |u|)
  {
    seq(n, i requires 0 <= i < n => ColumnDot(u, V, n, i, |u|))
  }

  /** Non-negative factors give non-negative scores, which then lie strictly
      above the sentinel. */
  lemma {:induction false} ColumnDotNonNegative(u: seq<real>, V: Matrix, n: nat, i: nat, f: nat)
    requires IsMatrix(V, |u|, n) && i < n && f <= |u|
    requires forall g :: 0 <= g < |u| ==> u[g] >= 0.0
    requires forall g, j :: 0 <= g < |u| && 0 <= j < n ==> V[g][j] >= 0.0
    ensures ColumnDot(u, V, n, i, f) >= 0.0 > Sentinel
    decreases f
  {
    if f > 0 {
      ColumnDotNonNegative(u, V, n, i, f - 1);
      var a, b := u[f - 1], V[f - 1][i];
      assert a >= 0.0 && b >= 0.0;
      assert a * b >= 0.0;
    }
  }

  /** The scores after the masking step. */
  function Masked(p: seq<real>, ratings: seq<real>, includeSeen: bool): (m: seq<real>)
    requires |ratings| == |p|
    ensures |m| == |p|
    ensures includeSeen ==> m == p
    ensures !includeSeen ==> forall i :: 0 <= i < |p| ==>
      (ratings[i] != 0.0 ==> m[i] == Sentinel) && (ratings[i] == 0.0 ==> m[i] == p[i])
  {
    if includeSeen then p
    else seq(|p|, i requires 0 <= i < |p| => if ratings[i] != 0.0 then Sentinel else p[i])
  }

  /** Overwrite, in place, the score of every rated item with the sentinel. */
  method MaskSeen(preference: array<real>, ratings: seq<real>)
    requires preference.Length == |ratings|
    modifies preference
    ensures preference[..] == Masked(old(preference[..]), ratings, false)
  {
    forall i | 0 <= i < preference.Length && ratings[i] != 0.0 {
      preference[i] := Sentinel;
    }
  }

  /** Every entry of t lies in [0, n). */
  predicate InRange(t: seq<int>, n: nat)
  {
    forall k :: 0 <= k < |t| ==> 0 <= t[k] < n
  }

  /** No index occurs twice. */
  predicate Distinct(t: seq<int>)
  {
    forall a, b :: 0 <= a < b < |t| ==> t[a] != t[b]
  }

  /** The indices of t are in non-decreasing order of score. */
  predicate SortedByScore(s: seq<real>, t: seq<int>)
    requires InRange(t, |s|)
  {
    forall a, b :: 0 <= a < b < |t| ==> s[t[a]] <= s[t[b]]
  }

  /** What np.argsort promises: a permutation of the indices of s that lists
      them by non-decreasing score; the order among equal scores is free. */
  predicate IsArgSort(s: seq<real>, order: seq<int>)
  {
    && |order| == |s|
    && InRange(order, |s|)
    && Distinct(order)
    && (forall i :: 0 <= i < |s| ==> i in order)
    && SortedByScore(s, order)
  }

  /** Insert index x into t before the first index whose score is not below x's. */
  function InsertByScore(s: seq<real>, x: int, t: seq<int>): (r: seq<int>)
    requires 0 <= x < |s| && InRange(t, |s|)
    ensures |r| == |t| + 1
    ensures InRange(r, |s|)
    decreases |t|
  {
    if t == [] then [x]
    else if s[x] <= s[t[0]] then [x] + t
    else
      assert t == [t[0]] + t[1..];
      [t[0]] + InsertByScore(s, x, t[1..])
  }

  /** The indices of an insertion are those of t and x. */
  lemma {:induction false} InsertMembers(s: seq<real>, x: int, t: seq<int>)
    requires 0 <= x < |s| && InRange(t, |s|)
    ensures forall y :: y in InsertByScore(s, x, t) <==> y == x || y in t
    decreases |t|
  {
    if t != [] && s[x] > s[t[0]] {
      var tail := t[1..];
      InsertMembers(s, x, tail);
      assert t == [t[0]] + tail;
      assert InsertByScore(s, x, t) == [t[0]] + InsertByScore(s, x, tail);
    }
  }

  /** Inserting into a list sorted by score keeps it sorted. */
  lemma {:induction false} InsertSorted(s: seq<real>, x: int, t: seq<int>)
    requires 0 <= x < |s| && InRange(t, |s|)
    requires SortedByScore(s, t)
    ensures SortedByScore(s, InsertByScore(s, x, t))
    decreases |t|
  {
    if t != [] && s[x] > s[t[0]] {
      var tail := t[1..];
      var rest := InsertByScore(s, x, tail);
      InsertSorted(s, x, tail);
      InsertMembers(s, x, tail);
      forall b | 0 <= b < |rest| ensures s[t[0]] <= s[rest[b]] {
        assert rest[b] in rest;
        if rest[b] != x {
          var m :| 0 <= m < |tail| && tail[m] == rest[b];
          assert t[m + 1] == rest[b];
        }
      }
      assert InsertByScore(s, x, t) == [t[0]] + rest;
    }
  }

  /** Inserting a new index into a list without repeats gives a list without repeats. */
  lemma {:induction false} InsertDistinct(s: seq<real>, x: int, t: seq<int>)
    requires 0 <= x < |s| && InRange(t, |s|)
    requires Distinct(t) && x !in t
    ensures Distinct(InsertByScore(s, x, t))
    decreases |t|
  {
    if t != [] && s[x] > s[t[0]] {
      var tail := t[1..];
      var rest := InsertByScore(s, x, tail);
      InsertDistinct(s, x, tail);
      InsertMembers(s, x, tail);
      assert t[0] !in tail;
      assert t[0] !in rest;
      assert InsertByScore(s, x, t) == [t[0]] + rest;
    }
  }

  /** Sort the indices 0..n-1 by score. */
  function ArgSortPrefix(s: seq<real>, n: nat): (order: seq<int>)
    requires n <= |s|
    ensures |order| == n && InRange(order, |s|)
    decreases n
  {
    if n == 0 then [] else InsertByScore(s, n - 1, ArgSortPrefix(s, n - 1))
  }

  /** The sorted prefix holds exactly the indices below n. */
  lemma {:induction false} ArgSortPrefixMembers(s: seq<real>, n: nat)
    requires n <= |s|
    ensures forall y :: y in ArgSortPrefix(s, n) <==> 0 <= y < n
    decreases n
  {
    if n > 0 {
      ArgSortPrefixMembers(s, n - 1);
      InsertMembers(s, n - 1, ArgSortPrefix(s, n - 1));
    }
  }

  /** The sorted prefix holds only indices below n. */
  lemma {:induction false} ArgSortPrefixBelow(s: seq<real>, n: nat)
    requires n <= |s|
    ensures InRange(ArgSortPrefix(s, n), n)
    decreases n
  {
    if n > 0 {
      var prev := ArgSortPrefix(s, n - 1);
      ArgSortPrefixBelow(s, n - 1);
      InsertMembers(s, n - 1, prev);
      var r := ArgSortPrefix(s, n);
      forall k | 0 <= k < |r| ensures 0 <= r[k] < n {
        assert r[k] in r;
      }
    }
  }

  /** The sorted prefix holds each index once. */
  lemma {:induction false} ArgSortPrefixDistinct(s: seq<real>, n: nat)
    requires n <= |s|
    ensures Distinct(ArgSortPrefix(s, n))
    decreases n
  {
    if n > 0 {
      var prev := ArgSortPrefix(s, n - 1);
      ArgSortPrefixDistinct(s, n - 1);
      ArgSortPrefixBelow(s, n - 1);
      assert n - 1 !in prev;
      InsertDistinct(s, n - 1, prev);
    }
  }

  /** The sorted prefix lists its indices by non-decreasing score. */
  lemma {:induction false} ArgSortPrefixSorted(s: seq<real>, n: nat)
    requires n <= |s|
    ensures SortedByScore(s, ArgSortPrefix(s, n))
    decreases n
  {
    if n > 0 {
      ArgSortPrefixSorted(s, n - 1);
      InsertSorted(s, n - 1, ArgSortPrefix(s, n - 1));
    }
  }

  /** An argsort of the scores. */
  function ArgSort(s: seq<real>): (order: seq<int>)
    ensures IsArgSort(s, order)
  {
    ArgSortPrefixMembers(s, |s|);
    ArgSortPrefixDistinct(s, |s|);
    ArgSortPrefixSorted(s, |s|);
    ArgSortPrefix(s, |s|)
  }

  /** The reversed slice [-1:-k-1:-1] of an ascending order: its last k entries, last first. */
  function TopIds(order: seq<int>, k: nat): (ids: seq<int>)
    ensures |ids| == (if k <= |order| then k else |order|)
    ensures forall j :: 0 <= j < |ids| ==> ids[j] == order[|order| - 1 - j]
  {
    var m := if k <= |order| then k else |order|;
    seq(m, j requires 0 <= j < m => order[|order| - 1 - j])
  }

  /** ids are a top-|ids| selection for the scores s: valid, distinct item
      indices, in non-increasing score order, each scoring at least as high as
      every item left out. */
  predicate IsTopK(s: seq<real>, ids: seq<int>)
  {
    && InRange(ids, |s|)
    && Distinct(ids)
    && (forall a, b :: 0 <= a < b < |ids| ==> s[ids[a]] >= s[ids[b]])
    && (forall j, i :: 0 <= j < |ids| && 0 <= i < |s| && i !in ids ==> s[ids[j]] >= s[i])
  }

  /** An item that the first k entries of the reversed order leave out
      scores no higher than any of them. */
  lemma TopIdsDominate(s: seq<real>, order: seq<int>, k: nat)
    requires IsArgSort(s, order) && k <= |s|
    ensures var ids := TopIds(order, k);
      forall j, i :: 0 <= j < |ids| && 0 <= i < |s| && i !in ids ==> s[ids[j]] >= s[i]
  {
    var ids := TopIds(order, k);
    var n := |s|;
    forall q | n - k <= q < n ensures order[q] in ids {
      assert ids[n - 1 - q] == order[q];
    }
    forall j, i | 0 <= j < k && 0 <= i < n && i !in ids
      ensures s[ids[j]] >= s[i]
    {
      assert i in order;
      var p :| 0 <= p < n && order[p] == i;
      assert p < n - k;
      assert p < n - 1 - j;
    }
  }

  /** Reading any argsort backwards and keeping k entries selects the k best items. */
  lemma TopIdsAreTopK(s: seq<real>, order: seq<int>, k: nat)
    requires IsArgSort(s, order) && k <= |s|
    ensures |TopIds(order, k)| == k
    ensures IsTopK(s, TopIds(order, k))
  {
    var ids := TopIds(order, k);
    var n := |s|;
    assert forall j :: 0 <= j < k ==> ids[j] == order[n - 1 - j];
    assert InRange(ids, n);
    forall a, b | 0 <= a < b < k
      ensures ids[a] != ids[b] && s[ids[a]] >= s[ids[b]]
    {
      assert n - 1 - b < n - 1 - a;
    }
    TopIdsDominate(s, order, k);
  }

  /** The masked scores the ranking works on. */
  function RankedScores(u: seq<real>, V: Matrix, ratings: seq<real>, includeSeen: bool): (s: seq<real>)
    requires IsMatrix(V, |u|, |ratings|)
    ensures |s| == |ratings|
  {
    Masked(Predict(u, V, |ratings|), ratings, includeSeen)
  }

  /** The 0-based item indices of a recommendation list. */
  function Ids(recs: seq<Recommended>): seq<int>
  {
    seq(|recs|, j requires 0 <= j < |recs| => recs[j].id - 1)
  }

  /** The scoring and masking steps: a fresh buffer of predicted scores in
      which, unless seen items are included, every rated item scores the sentinel. */
  method MaskedPreference(uFactor: seq<real>, iFactors: Matrix, inputRatings: seq<real>, includeSeen: bool)
    returns (preference: array<real>)
    requires IsMatrix(iFactors, |uFactor|, |inputRatings|)
    ensures preference[..] == RankedScores(uFactor, iFactors, inputRatings, includeSeen)
  {
    var n := |inputRatings|;
    var predicted := Predict(uFactor, iFactors, n);
    preference := new real[n](i => if 0 <= i < n then predicted[i] else 0.0);
    assert preference[..] == predicted;
    if !includeSeen {
      MaskSeen(preference, inputRatings);
    }
  }

  /** The result list read back as item indices is the reversed argsort slice. */
  lemma IdsOfTop(recs: seq<Recommended>, recIds: seq<int>, titles: seq<string>)
    requires |recs| == |recIds|
    requires forall j :: 0 <= j < |recs| ==> 0 <= recIds[j] < |titles|
    requires forall j :: 0 <= j < |recs| ==> recs[j] == Recommended(recIds[j] + 1, titles[recIds[j]])
    ensures Ids(recs) == recIds
  {
  }


  /** The result loop: pair each of the first K ranked indices, plus one,
      with its title; running past the ranked indices is an IndexError. */
  method BuildList(k: int, recIds: seq<int>, titles: seq<string>)
    returns (res: Result<seq<Recommended>, RecommendError>)
    requires InRange(recIds, |titles|)
    ensures res.Failure? <==> k > |recIds|
    ensures res.Success? ==> |res.value| == (if k < 0 then 0 else k)
    ensures res.Success? ==> forall j :: 0 <= j < |res.value| ==>
      res.value[j] == Recommended(recIds[j] + 1, titles[recIds[j]])
  {
    var recommendations: seq<Recommended> := [];
    var i := 0;
    while i < k
      invariant 0 <= i && (i <= k || i == 0) && i <= |recIds|
      invariant |recommendations| == i
      invariant forall j :: 0 <= j < i ==> recommendations[j] == Recommended(recIds[j] + 1, titles[recIds[j]])
    {
      if i >= |recIds| {
        return Failure(IndexOutOfRange);
      }
      recommendations := recommendations + [Recommended(recIds[i] + 1, titles[recIds[i]])];
      i := i + 1;
    }
    return Success(recommendations);
  }

  /** recommend(K, u_factor, i_factors, input_ratings, include_seen), with the
      item titles passed in. */
  method Recommend(k: int, uFactor: seq<real>, iFactors: Matrix, inputRatings: seq<real>,
                   includeSeen: bool, titles: seq<string>)
    returns (res: Result<seq<Recommended>, RecommendError>)
    requires IsMatrix(iFactors, |uFactor|, |inputRatings|)
    requires |titles| == |inputRatings|
    ensures res.Failure? <==> k > |inputRatings|
    ensures res.Success? ==> |res.value| == (if k < 0 then 0 else k)
    ensures res.Success? ==> IsTopK(RankedScores(uFactor, iFactors, inputRatings, includeSeen), Ids(res.value))
    ensures res.Success? ==> forall j :: 0 <= j < |res.value| ==>
      1 <= res.value[j].id <= |inputRatings| && res.value[j].title == titles[res.value[j].id - 1]
  {
    var preference := MaskedPreference(uFactor, iFactors, inputRatings, includeSeen);
    ghost var scores := preference[..];
    var order := ArgSort(preference[..]);
    var count := if k < 0 then 0 else k;
    var recIds := TopIds(order, count);
    res := BuildList(k, recIds, titles);
    if res.Success? {
      TopIdsAreTopK(scores, order, count);
      IdsOfTop(res.value, recIds, titles);
    }
  }

  /** The unseen items: every item the user has not rated. */
  function UnseenItems(ratings: seq<real>): set<int>
  {
    set i | 0 <= i < |ratings| && ratings[i] == 0.0
  }

  /** With seen items masked and every predicted score above the sentinel, a
      seen item is returned only once every unseen item has been returned. */
  lemma SeenOnlyAfterAllUnseen(p: seq<real>, ratings: seq<real>, ids: seq<int>)
    requires |ratings| == |p|
    requires forall i :: 0 <= i < |p| ==> p[i] > Sentinel
    requires IsTopK(Masked(p, ratings, false), ids)
    ensures forall j, i :: 0 <= j < |ids| && ratings[ids[j]] != 0.0 && 0 <= i < |p| && ratings[i] == 0.0 ==> i in ids
  {
  }

  /** A subset is no larger than its superset. */
  lemma SubsetNoLarger(a: set<int>, b: set<int>)
    requires a <= b
    ensures |a| <= |b|
  {
    assert b == a + (b - a);
    assert a * (b - a) == {};
  }

  /** A sequence has at most as many distinct elements as entries. */
  lemma {:induction false} ElementsBound(t: seq<int>)
    ensures |set x | x in t| <= |t|
  {
    if t != [] {
      ElementsBound(t[1..]);
      assert (set x | x in t) == (set x | x in t[1..]) + {t[0]};
    }
  }

  /** When at least as many items are unseen as are asked for, every returned
      item is unseen: the sentinel only back-fills a shortage of unseen items. */
  lemma UnseenFillFirst(p: seq<real>, ratings: seq<real>, ids: seq<int>)
    requires |ratings| == |p|
    requires forall i :: 0 <= i < |p| ==> p[i] > Sentinel
    requires IsTopK(Masked(p, ratings, false), ids)
    requires |UnseenItems(ratings)| >= |ids|
    ensures forall j :: 0 <= j < |ids| ==> ratings[ids[j]] == 0.0
  {
    forall j | 0 <= j < |ids|
      ensures ratings[ids[j]] == 0.0
    {
      if ratings[ids[j]] != 0.0 {
        SeenOnlyAfterAllUnseen(p, ratings, ids);
        var elems := set x | x in ids;
        var unseen := UnseenItems(ratings);
        assert unseen + {ids[j]} <= elems;
        assert ids[j] !in unseen;
        assert |unseen + {ids[j]}| == |unseen| + 1;
        ElementsBound(ids);
        SubsetNoLarger(unseen + {ids[j]}, elems);
        assert false;
      }
    }
  }

  /** With fewer unseen items than asked for, the masked scores force a seen
      item into the result: one item, rated, and K = 1. */
  lemma SeenItemFillsShortage(ids: seq<int>)
    requires |ids| == 1 && IsTopK(Masked([0.5], [1.0], false), ids)
    ensures ids == [0] && [1.0][ids[0]] != 0.0
  {
  }

  /** A predicted score at or below the sentinel lets a seen item outrank an
      unseen one: item 0 is unseen with score −2, item 1 is seen, and the
      only top-1 selection is the seen item. */
  lemma SeenItemOutranksLowScore(ids: seq<int>)
    requires |ids| == 1 && IsTopK(Masked([-2.0, 0.5], [0.0, 1.0], false), ids)
    ensures ids == [1] && [0.0, 1.0][ids[0]] != 0.0
  {
    var s := Masked([-2.0, 0.5], [0.0, 1.0], false);
    assert s == [-2.0, Sentinel];
    assert s[ids[0]] >= s[1] || 1 in ids;
  }
}
