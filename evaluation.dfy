/** The retrieval metrics of `RetrievalEvaluator` in `src/evaluation.py`:
    Precision@K, Recall@K, F1@K, Mean Reciprocal Rank, the metrics of one
    query and their average over a batch. Python floats are reals here. */
module Evaluation {
  import opened Prelude

  /** How many entries of `xs` are in `s`, counting repeated entries each
      time. */
  function CountIn(xs: seq<string>, s: set<string>): (c: nat)
    ensures c <= |xs|
  {
    if xs == [] then 0 else (if xs[0] in s then 1 else 0) + CountIn(xs[1..], s)
  }

  /** Every entry is counted exactly when every entry is in the set. */
  lemma {:induction false} CountInAll(xs: seq<string>, s: set<string>)
    ensures CountIn(xs, s) == |xs| <==> forall i :: 0 <= i < |xs| ==> xs[i] in s
  {
    if xs != [] {
      CountInAll(xs[1..], s);
      assert forall i :: 1 <= i < |xs| ==> xs[i] == xs[1..][i - 1];
    }
  }

  /** Counting against a larger set never counts fewer entries. */
  lemma {:induction false} CountInMonotone(xs: seq<string>, s: set<string>, t: set<string>)
    requires s <= t
    ensures CountIn(xs, s) <= CountIn(xs, t)
  {
    if xs != [] {
      CountInMonotone(xs[1..], s, t);
    }
  }

  /** `a / b <= c / b` for `0 <= a <= c` and a positive `b`. */
  lemma RatioBounds(a: int, c: int, b: int)
    requires 0 <= a <= c && 0 < b
    ensures 0.0 <= (a as real) / (b as real) <= (c as real) / (b as real)
  {
    var x := (a as real) / (b as real);
    var y := (c as real) / (b as real);
    assert x * (b as real) == a as real;
    assert y * (b as real) == c as real;
    assert (y - x) * (b as real) == (c - a) as real;
  }

  /** A non-negative count over a negative `k` is not positive. */
  lemma RatioNegative(a: int, b: int)
    requires 0 <= a && b < 0
    ensures (a as real) / (b as real) <= 0.0
  {
    var x := (a as real) / (b as real);
    assert x * (b as real) == a as real;
  }

  /** `precision_at_k`: the relevant entries among `retrieved_docs[:k]`,
      counted with repetition, over `k` (not over the number retrieved). It
      is 0 when `k` is 0 or nothing was retrieved, lies in [0, 1] and is at
      most `len(retrieved_docs) / k` for positive `k`, and is not positive
      for negative `k`. */
  function PrecisionAtK(retrieved: seq<string>, relevant: seq<string>, k: int): (p: real)
    ensures k == 0 || retrieved == [] ==> p == 0.0
    ensures k > 0 ==> 0.0 <= p <= 1.0
    ensures k > 0 ==> p <= (|retrieved| as real) / (k as real)
    ensures k < 0 ==> p <= 0.0
  {
    if k == 0 || |retrieved| == 0 then 0.0
    else
      var hits := CountIn(Take(retrieved, k), SetOf(relevant));
      if k > 0 then
        RatioBounds(hits, k, k);
        RatioBounds(hits, |retrieved|, k);
        (hits as real) / (k as real)
      else
        RatioNegative(hits, k);
        (hits as real) / (k as real)
  }

  /** Precision@K is 1 exactly when at least `k` documents were retrieved
      and the first `k` are all relevant. */
  lemma PrecisionIsOne(retrieved: seq<string>, relevant: seq<string>, k: int)
    requires k > 0
    ensures PrecisionAtK(retrieved, relevant, k) == 1.0
      <==> |retrieved| >= k && forall i :: 0 <= i < k ==> retrieved[i] in relevant
  {
    var top := Take(retrieved, k);
    CountInAll(top, SetOf(relevant));
    if retrieved != [] {
      RatioIsOne(CountIn(top, SetOf(relevant)), k);
    }
    PrefixAllIn(retrieved, relevant, k);
  }

  /** A count over a positive `k` is 1 exactly when it is `k`. */
  lemma RatioIsOne(h: int, k: int)
    requires k > 0
    ensures (h as real) / (k as real) == 1.0 <==> h == k
  {
    var x := (h as real) / (k as real);
    assert x * (k as real) == h as real;
  }

  /** The first `k` entries are all relevant exactly when the prefix is
      `k` long and every one of its entries is relevant. */
  lemma PrefixAllIn(retrieved: seq<string>, relevant: seq<string>, k: int)
    requires k > 0
    ensures (|Take(retrieved, k)| == k && forall i :: 0 <= i < |Take(retrieved, k)| ==> Take(retrieved, k)[i] in SetOf(relevant))
      <==> |retrieved| >= k && forall i :: 0 <= i < k ==> retrieved[i] in relevant
  {
    var top := Take(retrieved, k);
    assert forall i :: 0 <= i < |top| ==> top[i] == retrieved[i];
  }

  /** Adding relevant documents never lowers Precision@K for positive `k`. */
  lemma PrecisionMonotoneInRelevant(retrieved: seq<string>, relevant: seq<string>, more: seq<string>, k: int)
    requires k > 0
    ensures PrecisionAtK(retrieved, relevant, k) <= PrecisionAtK(retrieved, relevant + more, k)
  {
    if retrieved != [] {
      var top := Take(retrieved, k);
      assert SetOf(relevant) <= SetOf(relevant + more) by {
        forall x | x in relevant ensures x in relevant + more {
          var i :| 0 <= i < |relevant| && relevant[i] == x;
          assert (relevant + more)[i] == x;
        }
      }
      CountInMonotone(top, SetOf(relevant), SetOf(relevant + more));
      RatioBounds(CountIn(top, SetOf(relevant)), CountIn(top, SetOf(relevant + more)), k);
    }
  }

  /** `recall_at_k`: how many distinct relevant documents appear among
      `retrieved_docs[:k]`, over the number of distinct relevant documents.
      It is 0 when there is no relevant document and lies in [0, 1]. */
  function RecallAtK(retrieved: seq<string>, relevant: seq<string>, k: int): (r: real)
    ensures relevant == [] ==> r == 0.0
    ensures 0.0 <= r <= 1.0
  {
    if |relevant| == 0 then 0.0
    else
      var relevantSet := SetOf(relevant);
      var found := relevantSet * SetOf(Take(retrieved, k));
      assert relevant[0] in relevantSet;
      SubsetCard(found, relevantSet);
      RatioBounds(|found|, |relevantSet|, |relevantSet|);
      (|found| as real) / (|relevantSet| as real)
  }

  /** Recall@K is 1 exactly when every relevant document is among the first
      `k` retrieved (and there is one). */
  lemma RecallIsOne(retrieved: seq<string>, relevant: seq<string>, k: int)
    ensures RecallAtK(retrieved, relevant, k) == 1.0
      <==> relevant != [] && SetOf(relevant) <= SetOf(Take(retrieved, k))
  {
    if relevant != [] {
      var relevantSet := SetOf(relevant);
      var found := relevantSet * SetOf(Take(retrieved, k));
      assert relevant[0] in relevantSet;
      var q := RecallAtK(retrieved, relevant, k);
      assert q == (|found| as real) / (|relevantSet| as real);
      assert q * (|relevantSet| as real) == |found| as real;
      assert q == 1.0 <==> |found| == |relevantSet|;
      if |found| == |relevantSet| {
        SubsetCardEq(found, relevantSet);
      }
      assert relevantSet <= SetOf(Take(retrieved, k)) ==> found == relevantSet;
    }
  }

  /** Recall@K never decreases as `k` grows: a longer prefix only adds
      retrieved documents. */
  lemma RecallMonotone(retrieved: seq<string>, relevant: seq<string>, k1: int, k2: int)
    requires 0 <= k1 <= k2
    ensures RecallAtK(retrieved, relevant, k1) <= RecallAtK(retrieved, relevant, k2)
  {
    if relevant != [] {
      var relevantSet := SetOf(relevant);
      var a := Take(retrieved, k1);
      var b := Take(retrieved, k2);
      assert forall i :: 0 <= i < |a| ==> a[i] == b[i];
      assert SetOf(a) <= SetOf(b);
      SubsetCard(relevantSet * SetOf(a), relevantSet * SetOf(b));
      assert relevant[0] in relevantSet;
      RatioBounds(|relevantSet * SetOf(a)|, |relevantSet * SetOf(b)|, |relevantSet|);
    }
  }

  /** `2 * p * r / (p + r)`, or 0 when `p + r` is 0. For non-negative
      arguments it lies between them and is 0 exactly when one of them is. */
  function HarmonicMean(p: real, r: real): (f: real)
    ensures p + r == 0.0 ==> f == 0.0
    ensures 0.0 <= p && 0.0 <= r ==> Min2(p, r) <= f <= Max2(p, r)
    ensures 0.0 <= p && 0.0 <= r ==> (f == 0.0 <==> p == 0.0 || r == 0.0)
  {
    if p + r == 0.0 then 0.0
    else
      HarmonicBetween(p, r);
      2.0 * (p * r) / (p + r)
  }

  function Min2(a: real, b: real): real
  {
    if a <= b then a else b
  }

  function Max2(a: real, b: real): real
  {
    if a <= b then b else a
  }

  /** The harmonic mean of two non-negative numbers lies between them, and
      is 0 exactly when one of them is. */
  lemma HarmonicBetween(p: real, r: real)
    requires p + r != 0.0
    ensures 0.0 <= p && 0.0 <= r ==> Min2(p, r) <= 2.0 * (p * r) / (p + r) <= Max2(p, r)
    ensures 0.0 <= p && 0.0 <= r ==> (2.0 * (p * r) / (p + r) == 0.0 <==> p == 0.0 || r == 0.0)
  {
    if 0.0 <= p && 0.0 <= r {
      var s := p + r;
      var f := 2.0 * (p * r) / s;
      assert f * s == 2.0 * (p * r);
      assert f == 0.0 <==> p * r == 0.0;
      if p <= r {
        assert p * s <= 2.0 * (p * r) by {
          assert p * s == p * p + p * r;
          assert p * p <= p * r;
        }
        assert 2.0 * (p * r) <= r * s by {
          assert r * s == r * p + r * r;
          assert p * r <= r * r;
        }
      } else {
        assert r * s <= 2.0 * (p * r) by {
          assert r * s == r * p + r * r;
          assert r * r <= p * r;
        }
        assert 2.0 * (p * r) <= p * s by {
          assert p * s == p * p + p * r;
          assert p * r <= p * p;
        }
      }
    }
  }

  /** `f1_score_at_k`: the harmonic mean of Precision@K and Recall@K. For
      positive `k` it lies in [0, 1] and is 0 exactly when the precision or
      the recall is. */
  function F1AtK(retrieved: seq<string>, relevant: seq<string>, k: int): (f: real)
    ensures k > 0 ==> 0.0 <= f <= 1.0
    ensures k > 0 ==> (f == 0.0 <==> PrecisionAtK(retrieved, relevant, k) == 0.0 || RecallAtK(retrieved, relevant, k) == 0.0)
  {
    HarmonicMean(PrecisionAtK(retrieved, relevant, k), RecallAtK(retrieved, relevant, k))
  }

  /** The 0-based position of the first retrieved document that is
      relevant, if any. */
  function FirstRelevant(retrieved: seq<string>, relevant: set<string>): (i: Option<nat>)
    ensures i.Some? ==> i.value < |retrieved| && retrieved[i.value] in relevant
    ensures i.Some? ==> forall j :: 0 <= j < i.value ==> retrieved[j] !in relevant
    ensures i.None? <==> forall j :: 0 <= j < |retrieved| ==> retrieved[j] !in relevant
  {
    if retrieved == [] then None
    else if retrieved[0] in relevant then Some(0)
    else
      match FirstRelevant(retrieved[1..], relevant)
      case None => None
      case Some(j) => Some(j + 1)
  }

  /** One query's contribution to MRR: `1 / rank` of the first relevant
      document, with ranks counted from 1, or 0 if none is relevant. */
  function ReciprocalRank(retrieved: seq<string>, relevant: seq<string>): (rr: real)
    ensures 0.0 <= rr <= 1.0
    ensures rr == 0.0 <==> forall j :: 0 <= j < |retrieved| ==> retrieved[j] !in relevant
  {
    match FirstRelevant(retrieved, SetOf(relevant))
    case None => 0.0
    case Some(i) => 1.0 / ((i + 1) as real)
  }

  function Sum(xs: seq<real>): real
  {
    if xs == [] then 0.0 else xs[0] + Sum(xs[1..])
  }

  /** `np.mean`. */
  function Mean(xs: seq<real>): real
    requires xs != []
  {
    Sum(xs) / (|xs| as real)
  }

  /** A sum of numbers in [0, 1] lies between 0 and their count. */
  lemma {:induction false} SumBounds(xs: seq<real>)
    requires forall i :: 0 <= i < |xs| ==> 0.0 <= xs[i] <= 1.0
    ensures 0.0 <= Sum(xs) <= |xs| as real
  {
    if xs != [] {
      SumBounds(xs[1..]);
    }
  }

  /** The mean of numbers in [0, 1] lies in [0, 1]. */
  lemma MeanBounds(xs: seq<real>)
    requires xs != []
    requires forall i :: 0 <= i < |xs| ==> 0.0 <= xs[i] <= 1.0
    ensures 0.0 <= Mean(xs) <= 1.0
  {
    SumBounds(xs);
  }

  /** Appending a value adds it to the sum. */
  lemma {:induction false} SumSnoc(xs: seq<real>, x: real)
    ensures Sum(xs + [x]) == Sum(xs) + x
  {
    if xs == [] {
      assert xs + [x] == [x];
    } else {
      assert (xs + [x])[1..] == xs[1..] + [x];
      SumSnoc(xs[1..], x);
    }
  }

  /** The reciprocal rank of each `(query, retrieved, relevant)` triple. */
  function ReciprocalRanks(queryResults: seq<(string, seq<string>, seq<string>)>): (rrs: seq<real>)
    ensures |rrs| == |queryResults|
    ensures forall i :: 0 <= i < |rrs| ==> rrs[i] == ReciprocalRank(queryResults[i].1, queryResults[i].2)
  {
    seq(|queryResults|, i requires 0 <= i < |queryResults| => ReciprocalRank(queryResults[i].1, queryResults[i].2))
  }

  /** `mean_reciprocal_rank`. */
  method MeanReciprocalRank(queryResults: seq<(string, seq<string>, seq<string>)>) returns (mrr: real)
    ensures queryResults == [] ==> mrr == 0.0
    ensures queryResults != [] ==> mrr == Mean(ReciprocalRanks(queryResults))
    ensures 0.0 <= mrr <= 1.0
  {
    var reciprocalRanks: seq<real> := [];
    for q := 0 to |queryResults|
      invariant reciprocalRanks == ReciprocalRanks(queryResults[..q])
    {
      var (_, retrievedDocs, relevantDocs) := queryResults[q];
      var relevantSet := SetOf(relevantDocs);
      var rr := 0.0;
      for rank := 0 to |retrievedDocs|
        invariant rr == 0.0
        invariant forall j :: 0 <= j < rank ==> retrievedDocs[j] !in relevantSet
      {
        if retrievedDocs[rank] in relevantSet {
          rr := 1.0 / ((rank + 1) as real);
          assert FirstRelevant(retrievedDocs, relevantSet) == Some(rank);
          break;
        }
      }
      assert queryResults[..q + 1] == queryResults[..q] + [queryResults[q]];
      reciprocalRanks := reciprocalRanks + [rr];
    }
    assert queryResults[..|queryResults|] == queryResults;
    if reciprocalRanks == [] {
      mrr := 0.0;
    } else {
      mrr := Mean(reciprocalRanks);
      MeanBounds(reciprocalRanks);
    }
  }

  /** `[documents[i] for i in relevant_doc_indices if 0 <= i < len(documents)]`:
      indices outside the corpus are dropped without an error. */
  function RelevantDocs(documents: seq<string>, indices: seq<int>): (r: seq<string>)
    ensures |r| <= |indices|
    ensures forall k :: 0 <= k < |r| ==> r[k] in documents
  {
    if indices == [] then []
    else
      var i := indices[0];
      (if 0 <= i < |documents| then [documents[i]] else []) + RelevantDocs(documents, indices[1..])
  }

  /** With every index inside the corpus, each one picks its document. */
  lemma {:induction false} RelevantDocsInRange(documents: seq<string>, indices: seq<int>)
    requires forall k :: 0 <= k < |indices| ==> 0 <= indices[k] < |documents|
    ensures |RelevantDocs(documents, indices)| == |indices|
    ensures forall k :: 0 <= k < |indices| ==> RelevantDocs(documents, indices)[k] == documents[indices[k]]
  {
    if indices != [] {
      RelevantDocsInRange(documents, indices[1..]);
      var rest := RelevantDocs(documents, indices[1..]);
      assert forall k :: 1 <= k < |indices| ==> indices[k] == indices[1..][k - 1];
    }
  }

  /** An index outside the corpus contributes nothing. */
  lemma RelevantDocsSkips(documents: seq<string>, i: int, indices: seq<int>)
    requires !(0 <= i < |documents|)
    ensures RelevantDocs(documents, [i] + indices) == RelevantDocs(documents, indices)
  {
    assert ([i] + indices)[1..] == indices;
  }

  /** The filter works index by index: filtering a concatenation filters
      each part, so the picked documents keep the order of their indices. */
  lemma {:induction false} RelevantDocsAppend(documents: seq<string>, a: seq<int>, b: seq<int>)
    ensures RelevantDocs(documents, a + b) == RelevantDocs(documents, a) + RelevantDocs(documents, b)
    decreases |a|
  {
    if a == [] {
      assert a + b == b;
    } else {
      RelevantDocsAppend(documents, a[1..], b);
      assert (a + b)[1..] == a[1..] + b;
    }
  }

  /** An index outside the corpus contributes nothing, wherever it stands
      in the list. */
  lemma RelevantDocsDrop(documents: seq<string>, a: seq<int>, i: int, b: seq<int>)
    requires !(0 <= i < |documents|)
    ensures RelevantDocs(documents, a + [i] + b) == RelevantDocs(documents, a + b)
  {
    var ra := RelevantDocs(documents, a);
    RelevantDocsOne(documents, i);
    RelevantDocsAppend(documents, a, [i]);
    assert RelevantDocs(documents, a + [i]) == ra;
    RelevantDocsAppend(documents, a + [i], b);
    RelevantDocsAppend(documents, a, b);
  }

  /** An index inside the corpus picks its document at its place in the
      list. */
  lemma RelevantDocsPick(documents: seq<string>, a: seq<int>, i: int, b: seq<int>)
    requires 0 <= i < |documents|
    ensures RelevantDocs(documents, a + [i] + b)
         == RelevantDocs(documents, a) + [documents[i]] + RelevantDocs(documents, b)
  {
    RelevantDocsOne(documents, i);
    RelevantDocsAppend(documents, a, [i]);
    RelevantDocsAppend(documents, a + [i], b);
  }

  /** Proof helper: the filter on a single index. */
  lemma RelevantDocsOne(documents: seq<string>, i: int)
    ensures RelevantDocs(documents, [i]) == if 0 <= i < |documents| then [documents[i]] else []
  {
    assert [i][1..] == [];
  }

  /** The keys `evaluate_query` reports, in insertion order. */
  const MetricKeys: seq<string> := [
    "precision@1", "precision@3", "precision@5",
    "recall@1", "recall@3", "recall@5",
    "f1@1", "f1@3", "f1@5"]

  /** The metrics of one query: each key of `MetricKeys` with its metric,
      every value in [0, 1]. */
  function QueryMetrics(retrieved: seq<string>, relevant: seq<string>): (m: map<string, real>)
    ensures m.Keys == SetOf(MetricKeys)
    ensures forall key :: key in m ==> 0.0 <= m[key] <= 1.0
  {
    map[
      "precision@1" := PrecisionAtK(retrieved, relevant, 1),
      "precision@3" := PrecisionAtK(retrieved, relevant, 3),
      "precision@5" := PrecisionAtK(retrieved, relevant, 5),
      "recall@1" := RecallAtK(retrieved, relevant, 1),
      "recall@3" := RecallAtK(retrieved, relevant, 3),
      "recall@5" := RecallAtK(retrieved, relevant, 5),
      "f1@1" := F1AtK(retrieved, relevant, 1),
      "f1@3" := F1AtK(retrieved, relevant, 3),
      "f1@5" := F1AtK(retrieved, relevant, 5)]
  }

  /** The documents of `retrieve`'s `(document, score)` pairs. */
  function DocsOf(results: seq<(string, real)>): (docs: seq<string>)
    ensures |docs| == |results|
    ensures forall k :: 0 <= k < |docs| ==> docs[k] == results[k].0
  {
    seq(|results|, k requires 0 <= k < |results| => results[k].0)
  }

  /** `evaluate_query`, given what `retrieve` returned for the query. */
  function EvaluateQuery(documents: seq<string>, results: seq<(string, real)>, relevantIndices: seq<int>): (m: map<string, real>)
    ensures m.Keys == SetOf(MetricKeys)
    ensures forall key :: key in m ==> 0.0 <= m[key] <= 1.0
  {
    QueryMetrics(DocsOf(results), RelevantDocs(documents, relevantIndices))
  }

  /** The values one key takes across the per-query metrics. */
  function Column(metrics: seq<map<string, real>>, key: string): (c: seq<real>)
    requires forall i :: 0 <= i < |metrics| ==> key in metrics[i]
    ensures |c| == |metrics|
    ensures forall i :: 0 <= i < |c| ==> c[i] == metrics[i][key]
  {
    seq(|metrics|, i requires 0 <= i < |metrics| => metrics[i][key])
  }

  /** `all_metrics`: the metrics of each query of the batch. */
  function BatchMetrics(documents: seq<string>, batch: seq<(seq<(string, real)>, seq<int>)>): (all: seq<map<string, real>>)
    ensures |all| == |batch|
    ensures forall i :: 0 <= i < |all| ==> all[i] == EvaluateQuery(documents, batch[i].0, batch[i].1)
  {
    seq(|batch|, i requires 0 <= i < |batch| => EvaluateQuery(documents, batch[i].0, batch[i].1))
  }

  /** The keys `evaluate_batch` reports: `avg_` before each metric key. */
  function AverageKeys(keys: seq<string>): set<string>
  {
    set key | key in keys :: "avg_" + key
  }

  /** Every per-query map holds every key. */
  predicate HasKeys(all: seq<map<string, real>>, keys: seq<string>)
  {
    forall i, j :: 0 <= i < |all| && 0 <= j < |keys| ==> keys[j] in all[i]
  }

  /** `avg_metrics` once the loop over `keys` is done: `avg_<key>` maps to
      the mean of `key`, later keys written last. */
  function Averages(all: seq<map<string, real>>, keys: seq<string>): (avg: map<string, real>)
    requires all != [] && HasKeys(all, keys)
    ensures avg.Keys == AverageKeys(keys)
  {
    if keys == [] then map[]
    else
      var key := keys[|keys| - 1];
      var init := keys[..|keys| - 1];
      assert HasKeys(all, init);
      assert AverageKeys(keys) == AverageKeys(init) + {"avg_" + key} by {
        assert keys == init + [key];
      }
      Averages(all, init)["avg_" + key := Mean(Column(all, key))]
  }

  /** `"avg_" + key` determines `key`. */
  lemma AverageKeyInjective(k1: string, k2: string)
    requires "avg_" + k1 == "avg_" + k2
    ensures k1 == k2
  {
    assert k1 == ("avg_" + k1)[4..];
    assert k2 == ("avg_" + k2)[4..];
  }

  /** Each `avg_<key>` holds the mean of `key` over the queries. */
  lemma {:induction false} AveragesValue(all: seq<map<string, real>>, keys: seq<string>, j: nat)
    requires all != [] && HasKeys(all, keys)
    requires j < |keys|
    ensures "avg_" + keys[j] in Averages(all, keys)
    ensures Averages(all, keys)["avg_" + keys[j]] == Mean(Column(all, keys[j]))
  {
    var key := keys[|keys| - 1];
    var init := keys[..|keys| - 1];
    assert HasKeys(all, init);
    if j < |keys| - 1 && "avg_" + keys[j] != "avg_" + key {
      AveragesValue(all, init, j);
    } else if j < |keys| - 1 {
      AverageKeyInjective(keys[j], key);
    }
  }

  /** With every per-query value in [0, 1], so is every average. */
  lemma {:induction false} AveragesInUnit(all: seq<map<string, real>>, keys: seq<string>)
    requires all != [] && HasKeys(all, keys)
    requires forall i, key :: 0 <= i < |all| && key in all[i] ==> 0.0 <= all[i][key] <= 1.0
    ensures forall key :: key in Averages(all, keys) ==> 0.0 <= Averages(all, keys)[key] <= 1.0
  {
    if keys != [] {
      var init := keys[..|keys| - 1];
      assert HasKeys(all, init);
      AveragesInUnit(all, init);
      MeanBounds(Column(all, keys[|keys| - 1]));
    }
  }

  /** Every query of a batch reports every metric key. */
  lemma BatchHasKeys(documents: seq<string>, batch: seq<(seq<(string, real)>, seq<int>)>)
    ensures HasKeys(BatchMetrics(documents, batch), MetricKeys)
  {
    var all := BatchMetrics(documents, batch);
    forall i, j | 0 <= i < |all| && 0 <= j < |MetricKeys| ensures MetricKeys[j] in all[i] {
      assert MetricKeys[j] in SetOf(MetricKeys);
    }
  }

  /** `evaluate_batch`, given what `retrieve` returned for each query.
      Reading `all_metrics[0]` fails on an empty batch (`None`); otherwise
      `avg_<key>` is the mean of `key` over the queries, in [0, 1]. */
  method EvaluateBatch(documents: seq<string>, batch: seq<(seq<(string, real)>, seq<int>)>)
    returns (averages: Option<map<string, real>>)
    ensures batch == [] <==> averages.None?
    ensures batch != [] ==> HasKeys(BatchMetrics(documents, batch), MetricKeys)
    ensures batch != [] ==> averages == Some(Averages(BatchMetrics(documents, batch), MetricKeys))
    ensures averages.Some? ==> averages.value.Keys == AverageKeys(MetricKeys)
    ensures averages.Some? ==> forall key :: key in averages.value ==> 0.0 <= averages.value[key] <= 1.0
  {
    var allMetrics: seq<map<string, real>> := [];
    for q := 0 to |batch|
      invariant |allMetrics| == q
      invariant forall i :: 0 <= i < q ==> allMetrics[i] == EvaluateQuery(documents, batch[i].0, batch[i].1)
    {
      allMetrics := allMetrics + [EvaluateQuery(documents, batch[q].0, batch[q].1)];
    }
    if allMetrics == [] {
      return None;
    }
    assert allMetrics == BatchMetrics(documents, batch);
    BatchHasKeys(documents, batch);
    var avg := AverageColumns(allMetrics, MetricKeys);
    AveragesInUnit(allMetrics, MetricKeys);
    averages := Some(avg);
  }

  /** The averaging loop of `evaluate_batch`: for each key in turn,
      `avg_<key>` is set to the mean of that key over the queries. */
  method AverageColumns(all: seq<map<string, real>>, keys: seq<string>) returns (avg: map<string, real>)
    requires all != [] && HasKeys(all, keys)
    ensures avg == Averages(all, keys)
    ensures avg.Keys == AverageKeys(keys)
    ensures forall j :: 0 <= j < |keys| ==> avg["avg_" + keys[j]] == Mean(Column(all, keys[j]))
  {
    avg := map[];
    for j := 0 to |keys|
      invariant HasKeys(all, keys[..j])
      invariant avg == Averages(all, keys[..j])
    {
      var key := keys[j];
      assert keys[..j + 1][..j] == keys[..j];
      assert HasKeys(all, keys[..j + 1]);
      avg := avg["avg_" + key := Mean(Column(all, key))];
    }
    assert keys[..|keys|] == keys;
    forall j | 0 <= j < |keys| ensures avg["avg_" + keys[j]] == Mean(Column(all, keys[j])) {
      AveragesValue(all, keys, j);
    }
  }
}
