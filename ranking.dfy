/** The result selection of `DocumentRetriever.retrieve` in
    `src/retrieval.py`: the similarity vector and its `np.argsort` are given,
    the indices are taken in reverse order, cut to `top_k`, and the
    documents with a positive score are returned with their score. */
module Ranking {
  import opened Prelude

  /** `order` is an `np.argsort` of `scores`: a permutation of the indices
      that lists them by non-decreasing score. Ties may come in any order. */
  predicate IsArgsort(scores: seq<real>, order: seq<nat>)
  {
    && |order| == |scores|
    && (forall k :: 0 <= k < |order| ==> order[k] < |scores|)
    && Distinct(order)
    && (forall a, b :: 0 <= a < b < |order| ==> scores[order[a]] <= scores[order[b]])
  }

  /** A list of indices ranked by non-increasing score, without repeats. */
  predicate IsRanking(scores: seq<real>, ranked: seq<nat>)
  {
    && (forall k :: 0 <= k < |ranked| ==> ranked[k] < |scores|)
    && Distinct(ranked)
    && (forall a, b :: 0 <= a < b < |ranked| ==> scores[ranked[a]] >= scores[ranked[b]])
  }

  /** `s[::-1]`. */
  function Reverse<T>(s: seq<T>): (r: seq<T>)
    ensures |r| == |s|
    ensures forall k :: 0 <= k < |s| ==> r[k] == s[|s| - 1 - k]
  {
    seq(|s|, k requires 0 <= k < |s| => s[|s| - 1 - k])
  }

  /** The entries of `idx`, in order, whose score is positive. */
  function Positive(scores: seq<real>, idx: seq<nat>): (r: seq<nat>)
    requires forall k :: 0 <= k < |idx| ==> idx[k] < |scores|
    ensures |r| <= |idx|
    ensures forall k :: 0 <= k < |r| ==> r[k] < |scores| && scores[r[k]] > 0.0
  {
    if idx == [] then []
    else
      var n := |idx| - 1;
      Positive(scores, idx[..n]) + if scores[idx[n]] > 0.0 then [idx[n]] else []
  }

  /** An index is kept exactly when it is listed and its score is positive. */
  lemma {:induction false} PositiveMembers(scores: seq<real>, idx: seq<nat>, x: nat)
    requires forall k :: 0 <= k < |idx| ==> idx[k] < |scores|
    ensures x in Positive(scores, idx) <==> x in idx && x < |scores| && scores[x] > 0.0
  {
    if idx != [] {
      var n := |idx| - 1;
      PositiveMembers(scores, idx[..n], x);
      assert idx == idx[..n] + [idx[n]];
    }
  }

  /** Looking at one more index appends it when its score is positive. */
  lemma PositiveStep(scores: seq<real>, idx: seq<nat>, j: nat)
    requires forall k :: 0 <= k < |idx| ==> idx[k] < |scores|
    requires j < |idx|
    ensures Positive(scores, idx[..j + 1])
      == Positive(scores, idx[..j]) + if scores[idx[j]] > 0.0 then [idx[j]] else []
  {
    assert idx[..j + 1][..j] == idx[..j];
  }

  /** The `(document, score)` pair of each index. */
  function Pairs(documents: seq<string>, scores: seq<real>, idx: seq<nat>): (r: seq<(string, real)>)
    requires |documents| == |scores|
    requires forall k :: 0 <= k < |idx| ==> idx[k] < |scores|
    ensures |r| == |idx|
    ensures forall k :: 0 <= k < |idx| ==> r[k] == (documents[idx[k]], scores[idx[k]])
  {
    seq(|idx|, k requires 0 <= k < |idx| => (documents[idx[k]], scores[idx[k]]))
  }

  /** `np.argsort(similarities)[::-1][:top_k]`: the first `top_k` entries
      (in the sense of Python's slice) of the argsort read backwards. */
  function TopIndices(order: seq<nat>, topK: int): (r: seq<nat>)
    ensures |r| == SliceEnd(|order|, topK)
    ensures forall k :: 0 <= k < |r| ==> r[k] == order[|order| - 1 - k]
  {
    Take(Reverse(order), topK)
  }

  /** The indices `retrieve` returns. */
  function SelectedIndices(scores: seq<real>, order: seq<nat>, topK: int): seq<nat>
    requires IsArgsort(scores, order)
  {
    Positive(scores, TopIndices(order, topK))
  }

  /** The loop of `retrieve` over the top indices: at most `top_k` pairs,
      each with a positive score, by non-increasing score. */
  method SelectTopK(documents: seq<string>, scores: seq<real>, order: seq<nat>, topK: int)
    returns (results: seq<(string, real)>)
    requires |documents| == |scores|
    requires IsArgsort(scores, order)
    ensures results == Pairs(documents, scores, SelectedIndices(scores, order, topK))
    ensures topK >= 0 ==> |results| <= topK
    ensures forall k :: 0 <= k < |results| ==> results[k].1 > 0.0
    ensures forall a, b :: 0 <= a < b < |results| ==> results[a].1 >= results[b].1
  {
    var top := TopIndices(order, topK);
    assert forall k :: 0 <= k < |top| ==> top[k] < |scores|;
    results := [];
    for j := 0 to |top|
      invariant results == Pairs(documents, scores, Positive(scores, top[..j]))
    {
      var idx := top[j];
      SelectStep(documents, scores, top, j);
      if scores[idx] > 0.0 {
        results := results + [(documents[idx], scores[idx])];
      }
    }
    assert top[..|top|] == top;
    SelectedPairs(documents, scores, order, topK);
  }

  /** The pairs of the selected indices: at most `top_k`, each with a
      positive score, by non-increasing score. */
  lemma SelectedPairs(documents: seq<string>, scores: seq<real>, order: seq<nat>, topK: int)
    requires |documents| == |scores|
    requires IsArgsort(scores, order)
    ensures var sel := SelectedIndices(scores, order, topK);
      topK >= 0 ==> |Pairs(documents, scores, sel)| <= topK
    ensures var sel := SelectedIndices(scores, order, topK);
      forall k :: 0 <= k < |sel| ==> Pairs(documents, scores, sel)[k].1 > 0.0
    ensures var sel := SelectedIndices(scores, order, topK);
      forall a, b :: 0 <= a < b < |sel| ==> Pairs(documents, scores, sel)[a].1 >= Pairs(documents, scores, sel)[b].1
  {
    SelectedRanked(scores, order, topK);
  }

  /** One turn of the selection loop: the next index adds its pair when its
      score is positive, and nothing otherwise. */
  lemma SelectStep(documents: seq<string>, scores: seq<real>, top: seq<nat>, j: nat)
    requires |documents| == |scores|
    requires forall k :: 0 <= k < |top| ==> top[k] < |scores|
    requires j < |top|
    ensures Pairs(documents, scores, Positive(scores, top[..j + 1]))
      == Pairs(documents, scores, Positive(scores, top[..j]))
         + if scores[top[j]] > 0.0 then [(documents[top[j]], scores[top[j]])] else []
  {
    PositiveStep(scores, top, j);
    if scores[top[j]] > 0.0 {
      PairsSnoc(documents, scores, Positive(scores, top[..j]), top[j]);
    } else {
      assert Positive(scores, top[..j]) + [] == Positive(scores, top[..j]);
    }
  }

  /** Proof helper: `Pairs` unfolded at the last index. */
  lemma PairsSnoc(documents: seq<string>, scores: seq<real>, idx: seq<nat>, x: nat)
    requires |documents| == |scores| && x < |scores|
    requires forall k :: 0 <= k < |idx| ==> idx[k] < |scores|
    ensures Pairs(documents, scores, idx + [x]) == Pairs(documents, scores, idx) + [(documents[x], scores[x])]
  {
  }

  /** Reversing an argsort ranks the indices by non-increasing score. */
  lemma ReverseArgsort(scores: seq<real>, order: seq<nat>)
    requires IsArgsort(scores, order)
    ensures IsRanking(scores, Reverse(order))
  {
    var r := Reverse(order);
    var n := |order|;
    forall a, b | 0 <= a < b < n ensures r[a] != r[b] && scores[r[a]] >= scores[r[b]] {
      assert r[a] == order[n - 1 - a] && r[b] == order[n - 1 - b];
    }
  }

  /** A prefix of a ranking is a ranking. */
  lemma RankingPrefix(scores: seq<real>, ranked: seq<nat>, t: nat)
    requires IsRanking(scores, ranked) && t <= |ranked|
    ensures IsRanking(scores, ranked[..t])
  {
  }

  /** Keeping the positive entries of a ranking leaves a ranking. */
  lemma {:induction false} PositiveRanking(scores: seq<real>, ranked: seq<nat>)
    requires IsRanking(scores, ranked)
    ensures IsRanking(scores, Positive(scores, ranked))
  {
    if ranked != [] {
      var n := |ranked| - 1;
      var init := ranked[..n];
      var last := ranked[n];
      RankingPrefix(scores, ranked, n);
      PositiveRanking(scores, init);
      var p := Positive(scores, init);
      if scores[last] > 0.0 {
        forall a | 0 <= a < |p| ensures p[a] != last && scores[p[a]] >= scores[last] {
          assert p[a] in p;
          PositiveMembers(scores, init, p[a]);
          var i :| 0 <= i < n && init[i] == p[a];
          assert ranked[i] == p[a];
        }
        RankingSnoc(scores, p, last);
      } else {
        assert Positive(scores, ranked) == p + [];
      }
    }
  }

  /** A ranking stays one when an index scoring no higher than every listed
      one, and not listed, is appended. */
  lemma RankingSnoc(scores: seq<real>, p: seq<nat>, last: nat)
    requires IsRanking(scores, p) && last < |scores|
    requires forall a :: 0 <= a < |p| ==> p[a] != last && scores[p[a]] >= scores[last]
    ensures IsRanking(scores, p + [last])
  {
    var r := p + [last];
    forall a, b | 0 <= a < b < |r| ensures r[a] != r[b] && scores[r[a]] >= scores[r[b]] {
      if b < |p| {
        assert r[a] == p[a] && r[b] == p[b];
      } else {
        assert r[a] == p[a] && r[b] == last;
      }
    }
  }

  /** The selected indices are distinct, have positive scores and come by
      non-increasing score, and at most `top_k` of them are selected. */
  lemma SelectedRanked(scores: seq<real>, order: seq<nat>, topK: int)
    requires IsArgsort(scores, order)
    ensures IsRanking(scores, SelectedIndices(scores, order, topK))
    ensures topK >= 0 ==> |SelectedIndices(scores, order, topK)| <= topK
  {
    var ranked := Reverse(order);
    ReverseArgsort(scores, order);
    RankingPrefix(scores, ranked, SliceEnd(|ranked|, topK));
    assert TopIndices(order, topK) == ranked[..SliceEnd(|ranked|, topK)];
    PositiveRanking(scores, TopIndices(order, topK));
  }

  /** The indices `0, 1, ..., n - 1` in order. */
  function Iota(n: nat): (r: seq<nat>)
    ensures |r| == n
    ensures forall k :: 0 <= k < n ==> r[k] == k
  {
    seq(n, k requires 0 <= k < n => k)
  }

  /** An argsort lists every index. */
  lemma ArgsortCovers(scores: seq<real>, order: seq<nat>, i: nat)
    requires IsArgsort(scores, order)
    requires i < |scores|
    ensures i in order
  {
    var all := Iota(|scores|);
    assert SetOf(order) <= SetOf(all) by {
      forall x | x in SetOf(order) ensures x in SetOf(all) {
        var k :| 0 <= k < |order| && order[k] == x;
        assert all[x] == x;
      }
    }
    DistinctCard(order);
    DistinctCard(all);
    SubsetCardEq(SetOf(order), SetOf(all));
    assert all[i] == i;
    assert i in SetOf(all);
  }

  /** Nothing left out scores above the lowest score returned: an index that
      is not selected either lies beyond the cut, after every selected index
      in the ranking, or has a score that is not positive. */
  lemma SelectedAreBest(scores: seq<real>, order: seq<nat>, topK: int, i: nat, k: nat)
    requires IsArgsort(scores, order)
    requires i < |scores| && i !in SelectedIndices(scores, order, topK)
    requires k < |SelectedIndices(scores, order, topK)|
    ensures scores[i] <= scores[SelectedIndices(scores, order, topK)[k]]
  {
    var n := |order|;
    var ranked := Reverse(order);
    var t := SliceEnd(n, topK);
    ReverseArgsort(scores, order);
    assert TopIndices(order, topK) == ranked[..t];
    ArgsortCovers(scores, order, i);
    var q :| 0 <= q < n && order[q] == i;
    assert ranked[n - 1 - q] == i;
    var sel := SelectedIndices(scores, order, topK);
    assert sel[k] in sel;
    NotSelectedBelow(scores, ranked, t, i, sel[k]);
  }

  /** In a ranking cut to `t` entries, an index the positive filter did not
      keep scores no higher than one it kept. */
  lemma NotSelectedBelow(scores: seq<real>, ranked: seq<nat>, t: nat, i: nat, x: nat)
    requires IsRanking(scores, ranked) && t <= |ranked|
    requires i in ranked && i !in Positive(scores, ranked[..t])
    requires x in Positive(scores, ranked[..t])
    ensures scores[i] <= scores[x]
  {
    var top := ranked[..t];
    PositiveMembers(scores, top, x);
    PositiveMembers(scores, top, i);
    if scores[i] > 0.0 {
      var p :| 0 <= p < t && top[p] == x;
      var q :| 0 <= q < |ranked| && ranked[q] == i;
      assert ranked[p] == x;
    }
  }

  /** The indices with a positive score. */
  function PositiveSet(scores: seq<real>): set<nat>
  {
    set i: nat | i < |scores| && scores[i] > 0.0
  }

  /** In a ranking the positive scores come first: of the first `t`
      entries, the `m` kept ones are the first `m`, and the entry after them
      (if within the cut) is not positive. */
  lemma {:induction false} PositivePrefix(scores: seq<real>, ranked: seq<nat>, t: nat)
    requires IsRanking(scores, ranked) && t <= |ranked|
    ensures |Positive(scores, ranked[..t])| <= t
    ensures forall k :: 0 <= k < |Positive(scores, ranked[..t])| ==> scores[ranked[k]] > 0.0
    ensures |Positive(scores, ranked[..t])| < t ==> scores[ranked[|Positive(scores, ranked[..t])|]] <= 0.0
  {
    if t > 0 {
      PositivePrefix(scores, ranked, t - 1);
      PositiveStep(scores, ranked, t - 1);
      var m := |Positive(scores, ranked[..t - 1])|;
      assert m < t - 1 ==> scores[ranked[m]] >= scores[ranked[t - 1]];
    }
  }

  /** Cutting a ranking to `t` entries keeps `min(t, c)` positive entries,
      where `c` is the number of positive entries in the whole ranking. */
  lemma PositiveCut(scores: seq<real>, ranked: seq<nat>, t: nat)
    requires IsRanking(scores, ranked) && t <= |ranked|
    ensures |Positive(scores, ranked[..t])| == Min(t, |Positive(scores, ranked)|)
  {
    var n := |ranked|;
    PositivePrefix(scores, ranked, t);
    PositivePrefix(scores, ranked, n);
    assert ranked[..n] == ranked;
  }

  /** The positive entries of a ranking that lists every index are the
      positive indices, each once. */
  lemma PositiveOfAll(scores: seq<real>, order: seq<nat>)
    requires IsArgsort(scores, order)
    ensures |Positive(scores, Reverse(order))| == |PositiveSet(scores)|
  {
    var ranked := Reverse(order);
    var p := Positive(scores, ranked);
    ReverseArgsort(scores, order);
    PositiveRanking(scores, ranked);
    forall x | x in PositiveSet(scores) ensures x in SetOf(p) {
      ArgsortCovers(scores, order, x);
      var q :| 0 <= q < |order| && order[q] == x;
      assert ranked[|order| - 1 - q] == x;
      PositiveMembers(scores, ranked, x);
    }
    forall x | x in SetOf(p) ensures x in PositiveSet(scores) {
      var k :| 0 <= k < |p| && p[k] == x;
    }
    assert SetOf(p) == PositiveSet(scores);
    DistinctCard(p);
  }

  /** `retrieve` returns `min(top_k, number of positive scores)` documents,
      with `top_k` read as Python's slice bound. */
  lemma SelectedCount(scores: seq<real>, order: seq<nat>, topK: int)
    requires IsArgsort(scores, order)
    ensures |SelectedIndices(scores, order, topK)| == Min(SliceEnd(|scores|, topK), |PositiveSet(scores)|)
  {
    var ranked := Reverse(order);
    var t := SliceEnd(|ranked|, topK);
    ReverseArgsort(scores, order);
    assert TopIndices(order, topK) == ranked[..t];
    PositiveCut(scores, ranked, t);
    PositiveOfAll(scores, order);
  }
}
