/**
  The ranking and filtering half of `get_recommendations`: order the restaurants by
  descending predicted score, keep the first `top_n`, drop the ones the user already
  likes (rating at least 4), and pick up to 3 liked restaurants as context.
  Restaurants are their column indices in the rating matrix.
 */
module Ranking {

  /** A rating at or above this marks a restaurant as already liked. */
  const LikedThreshold := 4
  /** How many liked restaurants are shown as context. */
  const ContextSize := 3

  /** What the recommender reports. */
  datatype Outcome =
    | Untrained
    | InvalidUser(userId: int)
    | NoNewRestaurant
    | Recommended(liked: seq<nat>, ranked: seq<nat>)

  ghost predicate Distinct(s: seq<nat>) {
    forall i, j :: 0 <= i < j < |s| ==> s[i] != s[j]
  }

  ghost predicate InRange(s: seq<nat>, n: nat) {
    forall i :: 0 <= i < |s| ==> s[i] < n
  }

  /** The indices in `s` have non-increasing scores. */
  ghost predicate ByScore(scores: seq<int>, s: seq<nat>)
    requires InRange(s, |scores|)
  {
    forall i, j :: 0 <= i < j < |s| ==> scores[s[i]] >= scores[s[j]]
  }

  /**
    `order` is what `(-scores).argsort()` may return: every index of `scores` exactly
    once, by non-increasing score, equal scores in any order.
   */
  ghost predicate IsDescendingArgsort(scores: seq<int>, order: seq<nat>) {
    && |order| == |scores|
    && InRange(order, |scores|)
    && Distinct(order)
    && (forall r :: 0 <= r < |scores| ==> r in order)
    && ByScore(scores, order)
  }

  /** Inserts index `x` into `s`, after every index scoring at least as much. */
  function InsertByScore(scores: seq<int>, x: nat, s: seq<nat>): (t: seq<nat>)
    requires x < |scores| && InRange(s, |scores|)
    ensures |t| == |s| + 1
    ensures forall y :: y in t <==> y == x || y in s
    ensures InRange(t, |scores|)
  {
    if s == [] then [x]
    else if scores[x] > scores[s[0]] then [x] + s
    else [s[0]] + InsertByScore(scores, x, s[1..])
  }

  lemma {:induction false} InsertKeepsOrder(scores: seq<int>, x: nat, s: seq<nat>)
    requires x < |scores| && InRange(s, |scores|) && ByScore(scores, s)
    ensures ByScore(scores, InsertByScore(scores, x, s))
  {
    if s != [] && scores[x] <= scores[s[0]] {
      var tail := InsertByScore(scores, x, s[1..]);
      InsertKeepsOrder(scores, x, s[1..]);
      forall k | 0 <= k < |tail| ensures scores[s[0]] >= scores[tail[k]] {
        assert tail[k] in tail;
        if tail[k] != x {
          var q :| 0 <= q < |s[1..]| && s[1..][q] == tail[k];
          assert s[q + 1] == tail[k];
        }
      }
      var t := [s[0]] + tail;
      forall i, j | 0 <= i < j < |t| ensures scores[t[i]] >= scores[t[j]] {
        if i > 0 { assert t[i] == tail[i - 1] && t[j] == tail[j - 1]; }
        else { assert t[j] == tail[j - 1]; }
      }
    }
  }

  lemma {:induction false} InsertKeepsDistinct(scores: seq<int>, x: nat, s: seq<nat>)
    requires x < |scores| && InRange(s, |scores|) && Distinct(s) && x !in s
    ensures Distinct(InsertByScore(scores, x, s))
  {
    if s != [] && scores[x] <= scores[s[0]] {
      var tail := InsertByScore(scores, x, s[1..]);
      InsertKeepsDistinct(scores, x, s[1..]);
      assert s[0] !in tail by {
        assert s[0] != x;
        assert s[0] !in s[1..];
      }
      var t := [s[0]] + tail;
      forall i, j | 0 <= i < j < |t| ensures t[i] != t[j] {
        if i > 0 { assert t[i] == tail[i - 1] && t[j] == tail[j - 1]; }
        else { assert t[j] == tail[j - 1] && t[j] in tail; }
      }
    } else if s != [] {
      assert x !in s;
    }
  }

  /** The indices 0..n-1 ordered by non-increasing score. */
  function SortPrefix(scores: seq<int>, n: nat): (order: seq<nat>)
    requires n <= |scores|
    ensures |order| == n
    ensures forall y :: y in order <==> 0 <= y < n
    ensures InRange(order, |scores|) && Distinct(order) && ByScore(scores, order)
  {
    if n == 0 then []
    else
      var init := SortPrefix(scores, n - 1);
      InsertKeepsOrder(scores, n - 1, init);
      InsertKeepsDistinct(scores, n - 1, init);
      InsertByScore(scores, n - 1, init)
  }

  /** `(-scores).argsort()`; this one breaks ties by ascending index. */
  function ArgsortDesc(scores: seq<int>): (order: seq<nat>)
    ensures IsDescendingArgsort(scores, order)
  {
    SortPrefix(scores, |scores|)
  }

  /**
    Python's `s[:k]`: a prefix of `s`, of length min(k, |s|) for a non-negative `k`;
    a negative `k` drops the last `-k` elements.
   */
  function Take<T>(s: seq<T>, k: int): (t: seq<T>)
    ensures |t| <= |s| && t == s[..|t|]
    ensures k >= 0 ==> |t| == if k < |s| then k else |s|
    ensures k < 0 ==> |t| == if |s| + k > 0 then |s| + k else 0
  {
    if k >= |s| then s
    else if k >= 0 then s[..k]
    else if |s| + k > 0 then s[..|s| + k]
    else []
  }

  /** `np.where(row >= 4)[0]`: the indices of the liked restaurants, ascending. */
  function Liked(row: seq<int>): (liked: seq<nat>)
    ensures forall r :: r in liked <==> 0 <= r < |row| && row[r] >= LikedThreshold
    ensures forall i, j :: 0 <= i < j < |liked| ==> liked[i] < liked[j]
    ensures InRange(liked, |row|)
  {
    if row == [] then []
    else
      var init := Liked(row[..|row| - 1]);
      if row[|row| - 1] >= LikedThreshold then init + [|row| - 1] else init
  }

  /** `[r for r in candidates if r not in liked]`. */
  function DropLiked(candidates: seq<nat>, liked: seq<nat>): (kept: seq<nat>)
    ensures forall r :: r in kept <==> r in candidates && r !in liked
    ensures |kept| <= |candidates|
    ensures Subsequence(kept, candidates)
  {
    if candidates == [] then []
    else
      var rest := DropLiked(candidates[1..], liked);
      if candidates[0] in liked then rest else [candidates[0]] + rest
  }

  /** `s` is `t` with some elements deleted. */
  ghost predicate Subsequence(s: seq<nat>, t: seq<nat>)
    decreases |t|
  {
    s == [] ||
    (t != [] && ((s[0] == t[0] && Subsequence(s[1..], t[1..])) || Subsequence(s, t[1..])))
  }

  lemma {:induction false} SubsequenceElements(s: seq<nat>, t: seq<nat>)
    requires Subsequence(s, t)
    ensures forall x :: x in s ==> x in t
    decreases |t|
  {
    if s != [] {
      if s[0] == t[0] && Subsequence(s[1..], t[1..]) {
        SubsequenceElements(s[1..], t[1..]);
        assert forall x :: x in s ==> x == s[0] || x in s[1..];
      } else {
        SubsequenceElements(s, t[1..]);
      }
    }
  }

  /** Deleting elements keeps the order of what is left. */
  lemma {:induction false} SubsequenceByScore(scores: seq<int>, s: seq<nat>, t: seq<nat>)
    requires Subsequence(s, t) && InRange(t, |scores|) && ByScore(scores, t)
    ensures InRange(s, |scores|) && ByScore(scores, s)
    decreases |t|
  {
    SubsequenceElements(s, t);
    if s != [] {
      if s[0] == t[0] && Subsequence(s[1..], t[1..]) {
        SubsequenceByScore(scores, s[1..], t[1..]);
        SubsequenceElements(s[1..], t[1..]);
        forall j | 0 < j < |s| ensures scores[s[0]] >= scores[s[j]] {
          assert s[j] in s[1..];
          var q :| 0 <= q < |t[1..]| && t[1..][q] == s[j];
          assert t[q + 1] == s[j];
        }
      } else {
        SubsequenceByScore(scores, s, t[1..]);
      }
    }
  }

  lemma {:induction false} SubsequenceDistinct(s: seq<nat>, t: seq<nat>)
    requires Subsequence(s, t) && Distinct(t)
    ensures Distinct(s)
    decreases |t|
  {
    if s != [] {
      if s[0] == t[0] && Subsequence(s[1..], t[1..]) {
        SubsequenceDistinct(s[1..], t[1..]);
        SubsequenceElements(s[1..], t[1..]);
        assert t[0] !in t[1..];
        forall j | 0 < j < |s| ensures s[0] != s[j] {
          assert s[j] in s[1..];
        }
      } else {
        SubsequenceDistinct(s, t[1..]);
      }
    }
  }

  /**
    The top-N candidates of any descending argsort: `min(top_n, n)` distinct indices
    of 0..n-1 by non-increasing score, and no index left out scores more than any
    candidate.
   */
  lemma TopCandidates(scores: seq<int>, order: seq<nat>, topN: int)
    requires IsDescendingArgsort(scores, order)
    ensures var c := Take(order, topN);
      && (topN >= 0 ==> |c| == if topN < |scores| then topN else |scores|)
      && InRange(c, |scores|) && Distinct(c) && ByScore(scores, c)
      && forall r, i :: 0 <= r < |scores| && r !in c && 0 <= i < |c| ==> scores[r] <= scores[c[i]]
  {
    var c := Take(order, topN);
    forall r, i | 0 <= r < |scores| && r !in c && 0 <= i < |c|
      ensures scores[r] <= scores[c[i]]
    {
      assert r in order;
      var p :| 0 <= p < |order| && order[p] == r;
      assert forall q :: 0 <= q < |c| ==> order[q] in c;
      assert p >= |c|;
      assert c[i] == order[i];
    }
  }

  /**
    Everything after the two guards: rank, cut to `top_n`, drop the liked
    restaurants, and pick the liked context.
   */
  function Recommend(row: seq<int>, predicted: seq<int>, topN: int): (o: Outcome)
    ensures o.NoNewRestaurant? || o.Recommended?
    ensures o.Recommended? ==> o.ranked != [] && |o.liked| <= ContextSize
  {
    var candidates := Take(ArgsortDesc(predicted), topN);
    var liked := Liked(row);
    var ranked := DropLiked(candidates, liked);
    if ranked == [] then NoNewRestaurant
    else Recommended(Take(liked, ContextSize), ranked)
  }

  ghost predicate IsLiked(row: seq<int>, r: nat) {
    r < |row| && row[r] >= LikedThreshold
  }

  /**
    The recommendations never contain a liked restaurant, keep every non-liked
    candidate in rank order, number at most `top_n`, and no restaurant that is neither
    liked nor recommended scores more than a recommended one. The outcome is
    "no new restaurant" exactly when every candidate is liked.
   */
  lemma RecommendRanked(row: seq<int>, predicted: seq<int>, topN: int)
    ensures var candidates := Take(ArgsortDesc(predicted), topN);
      var o := Recommend(row, predicted, topN);
      && (o.NoNewRestaurant? || o.Recommended?)
      && (o.NoNewRestaurant? <==> forall i :: 0 <= i < |candidates| ==> IsLiked(row, candidates[i]))
      && (o.Recommended? ==>
          && Subsequence(o.ranked, candidates)
          && (forall r :: r in o.ranked <==> r in candidates && !IsLiked(row, r))
          && (topN >= 0 ==> |o.ranked| <= topN)
          && InRange(o.ranked, |predicted|) && Distinct(o.ranked) && ByScore(predicted, o.ranked)
          && (forall r, i :: 0 <= r < |predicted| && r !in o.ranked && !IsLiked(row, r) && 0 <= i < |o.ranked|
                ==> predicted[r] <= predicted[o.ranked[i]])
          && (|predicted| == |row| ==> forall i :: 0 <= i < |o.ranked| ==> row[o.ranked[i]] < LikedThreshold))
  {
    var order := ArgsortDesc(predicted);
    TopCandidates(predicted, order, topN);
    DropLikedRanked(row, predicted, Take(order, topN));
  }

  /** The like-filter applied to a ranked candidate list, as `RecommendRanked` states it. */
  lemma DropLikedRanked(row: seq<int>, scores: seq<int>, candidates: seq<nat>)
    requires InRange(candidates, |scores|) && Distinct(candidates) && ByScore(scores, candidates)
    requires forall r, i :: 0 <= r < |scores| && r !in candidates && 0 <= i < |candidates| ==>
               scores[r] <= scores[candidates[i]]
    ensures var ranked := DropLiked(candidates, Liked(row));
      && (ranked == [] <==> forall i :: 0 <= i < |candidates| ==> IsLiked(row, candidates[i]))
      && Subsequence(ranked, candidates)
      && (forall r :: r in ranked <==> r in candidates && !IsLiked(row, r))
      && |ranked| <= |candidates|
      && InRange(ranked, |scores|) && Distinct(ranked) && ByScore(scores, ranked)
      && (forall r, i :: 0 <= r < |scores| && r !in ranked && !IsLiked(row, r) && 0 <= i < |ranked|
            ==> scores[r] <= scores[ranked[i]])
      && (|scores| == |row| ==> forall i :: 0 <= i < |ranked| ==> row[ranked[i]] < LikedThreshold)
  {
    var ranked := DropLiked(candidates, Liked(row));
    SubsequenceByScore(scores, ranked, candidates);
    SubsequenceDistinct(ranked, candidates);
    SubsequenceElements(ranked, candidates);
    if ranked == [] {
      forall i | 0 <= i < |candidates| ensures IsLiked(row, candidates[i]) {
        assert candidates[i] in candidates;
      }
    } else {
      assert ranked[0] in candidates && !IsLiked(row, ranked[0]);
    }
    forall i | 0 <= i < |ranked| ensures !IsLiked(row, ranked[i]) {
      assert ranked[i] in ranked;
    }
  }

  /**
    The liked context is the first up to 3 liked restaurants in ascending index order:
    min(3, number liked) of them, each liked, and every other liked one comes after them.
   */
  lemma RecommendContext(row: seq<int>, predicted: seq<int>, topN: int)
    requires Recommend(row, predicted, topN).Recommended?
    ensures var ctx := Recommend(row, predicted, topN).liked;
      && |ctx| == (if |Liked(row)| < ContextSize then |Liked(row)| else ContextSize)
      && (forall i :: 0 <= i < |ctx| ==> IsLiked(row, ctx[i]))
      && (forall i, j :: 0 <= i < j < |ctx| ==> ctx[i] < ctx[j])
      && (forall r, i :: IsLiked(row, r) && r !in ctx && 0 <= i < |ctx| ==> ctx[i] < r)
  {
    LikedContext(row);
  }

  lemma LikedContext(row: seq<int>)
    ensures var liked := Liked(row);
      var ctx := Take(liked, ContextSize);
      && |ctx| == (if |liked| < ContextSize then |liked| else ContextSize)
      && (forall i :: 0 <= i < |ctx| ==> IsLiked(row, ctx[i]))
      && (forall i, j :: 0 <= i < j < |ctx| ==> ctx[i] < ctx[j])
      && (forall r, i :: IsLiked(row, r) && r !in ctx && 0 <= i < |ctx| ==> ctx[i] < r)
  {
    var liked := Liked(row);
    var ctx := Take(liked, ContextSize);
    forall i | 0 <= i < |ctx| ensures IsLiked(row, ctx[i]) {
      assert ctx[i] == liked[i];
      assert liked[i] in liked;
    }
    PrefixComesFirst(liked, ctx);
  }

  /** In an ascending list, every element left out of a prefix is above each element of it. */
  lemma PrefixComesFirst(s: seq<nat>, p: seq<nat>)
    requires |p| <= |s| && p == s[..|p|]
    requires forall i, j :: 0 <= i < j < |s| ==> s[i] < s[j]
    ensures forall r, i :: r in s && r !in p && 0 <= i < |p| ==> p[i] < r
  {
    forall r, i | r in s && r !in p && 0 <= i < |p| ensures p[i] < r {
      var k :| 0 <= k < |s| && s[k] == r;
      assert forall q :: 0 <= q < |p| ==> s[q] in p;
      assert k >= |p|;
      assert p[i] == s[i];
    }
  }

  lemma ExampleArgsort(scores: seq<int>)
    requires scores == [9, 8, 1]
    ensures ArgsortDesc(scores) == [0, 1, 2]
  {
    assert [0][1..] == [] && [0, 1][1..] == [1] && [1][1..] == [];
    assert SortPrefix(scores, 1) == [0];
    assert InsertByScore(scores, 1, [0]) == [0, 1];
    assert SortPrefix(scores, 2) == [0, 1];
    assert InsertByScore(scores, 2, [1]) == [1, 2];
    assert InsertByScore(scores, 2, [0, 1]) == [0, 1, 2];
  }

  lemma ExampleLiked(row: seq<int>)
    requires row == [5, 4, 0]
    ensures Liked(row) == [0, 1]
  {
    assert [5][..0] == [];
    assert Liked([5]) == [0];
    assert [5, 4][..1] == [5];
    assert Liked([5, 4]) == [0, 1];
    assert row[..2] == [5, 4];
  }

  lemma ExampleDrop(c: seq<nat>, liked: seq<nat>)
    requires c == [0, 1] && liked == [0, 1]
    ensures DropLiked(c, liked) == []
  {
    assert c[1..] == [1] && c[1..][1..] == [];
  }

  lemma ExampleAllLiked(row: seq<int>, predicted: seq<int>)
    requires row == [5, 4, 0] && predicted == [9, 8, 1]
    ensures Recommend(row, predicted, 2) == NoNewRestaurant
  {
    ExampleArgsort(predicted);
    ExampleLiked(row);
    assert Take([0, 1, 2], 2) == [0, 1];
    ExampleDrop(Take(ArgsortDesc(predicted), 2), Liked(row));
  }
}
