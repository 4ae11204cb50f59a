/**
 The result-building part of a search: the requested count is clamped to
 the corpus size, that many documents with the highest scores are chosen in
 non-increasing score order, and each chosen index is mapped back to its
 document. Scores are one per document, in document order; how they are
 computed (embedding and cosine similarity) is not part of this module.
 */
module Ranker {
  import opened Corpus

  /** A similarity score, abstracted to an exact, totally ordered number. */
  type Score = real

  /** `min(top_k, len(docs))`: the number of results a search returns. */
  function EffectiveK(topK: nat, n: nat): (k: nat)
    ensures k <= topK && k <= n
    ensures k == topK || k == n
  {
    if topK < n then topK else n
  }

  predicate Distinct<T(==)>(xs: seq<T>) {
    forall p, q :: 0 <= p < q < |xs| ==> xs[p] != xs[q]
  }

  /**
   `picked` is a valid outcome of selecting the `k` largest of `scores`:
   `k` distinct positions, in non-increasing score order, and no position
   left out scores higher than one that was chosen. Equal scores may come
   in any order.
   */
  predicate IsTopK(scores: seq<Score>, k: nat, picked: seq<nat>) {
    && |picked| == k
    && (forall p :: 0 <= p < k ==> picked[p] < |scores|)
    && Distinct(picked)
    && (forall p, q :: 0 <= p < q < k ==> scores[picked[p]] >= scores[picked[q]])
    && (forall j, p :: 0 <= j < |scores| && j !in picked && 0 <= p < k ==> scores[j] <= scores[picked[p]])
  }

  /** A seq of distinct values that all occur in `ys` is no longer than `ys`. */
  lemma {:induction false} Pigeonhole<T>(xs: seq<T>, ys: seq<T>)
    requires Distinct(xs)
    requires forall p :: 0 <= p < |xs| ==> xs[p] in ys
    ensures |xs| <= |ys|
  {
    if xs != [] {
      var x := xs[0];
      var q :| 0 <= q < |ys| && ys[q] == x;
      var ys' := ys[..q] + ys[q + 1..];
      forall p | 0 <= p < |xs[1..]| ensures xs[1..][p] in ys' {
        var y := xs[1..][p];
        assert y == xs[p + 1] && y != x;
        var r :| 0 <= r < |ys| && ys[r] == y;
        if r < q {
          assert ys'[r] == y;
        } else {
          assert ys'[r - 1] == y;
        }
      }
      Pigeonhole(xs[1..], ys');
    }
  }

  /** While fewer than `n` positions are chosen, some position below `n` is still free. */
  lemma UnpickedExists(picked: seq<nat>, n: nat) returns (j: nat)
    requires |picked| < n
    ensures j < n && j !in picked
  {
    if forall i :: 0 <= i < n ==> i in picked {
      var all := seq(n, i => i);
      Pigeonhole(all, picked);
    }
    j :| j < n && j !in picked;
  }

  /**
   `torch.topk(scores, k)`: the `k` largest scores and their positions.
   This implementation takes, `k` times, the highest score not yet chosen.
   */
  method TopK(scores: seq<Score>, k: nat) returns (values: seq<Score>, indices: seq<nat>)
    requires k <= |scores|
    ensures IsTopK(scores, k, indices)
    ensures |values| == k && forall p :: 0 <= p < k ==> values[p] == scores[indices[p]]
  {
    values, indices := [], [];
    while |indices| < k
      invariant |values| == |indices| <= k
      invariant forall p :: 0 <= p < |indices| ==> indices[p] < |scores| && values[p] == scores[indices[p]]
      invariant Distinct(indices)
      invariant forall p, q :: 0 <= p < q < |indices| ==> scores[indices[p]] >= scores[indices[q]]
      invariant forall j, p :: 0 <= j < |scores| && j !in indices && 0 <= p < |indices| ==> scores[j] <= scores[indices[p]]
      decreases k - |indices|
    {
      ghost var free := UnpickedExists(indices, |scores|);
      var best := 0;
      while best in indices
        invariant best <= free
        decreases free - best
      {
        best := best + 1;
      }
      for j := 0 to |scores|
        invariant best < |scores| && best !in indices
        invariant forall m :: 0 <= m < j && m !in indices ==> scores[m] <= scores[best]
      {
        if j !in indices && scores[j] > scores[best] {
          best := j;
        }
      }
      values, indices := values + [scores[best]], indices + [best];
    }
  }

  /**
   The result list of a search: `min(top_k, len(docs))` pairs of a score and
   its document, highest scores first. `picked` names the chosen positions.
   */
  method Search(scores: seq<Score>, docs: seq<Doc>, topK: nat) returns (results: seq<(Score, Doc)>, ghost picked: seq<nat>)
    requires |scores| == |docs|
    ensures |results| == EffectiveK(topK, |docs|)
    ensures IsTopK(scores, |results|, picked)
    ensures forall p, q :: 0 <= p < q < |results| ==> results[p].0 >= results[q].0
    ensures forall p :: 0 <= p < |results| ==> results[p] == (scores[picked[p]], docs[picked[p]])
  {
    var k := EffectiveK(topK, |docs|);
    var values, indices := TopK(scores, k);
    results := [];
    for p := 0 to k
      invariant |results| == p
      invariant forall q :: 0 <= q < p ==> results[q] == (values[q], docs[indices[q]])
    {
      results := results + [(values[p], docs[indices[p]])];
    }
    picked := indices;
  }

  /**
   At every rank, one valid selection's score is at most another's: `a`'s
   first p + 1 positions would otherwise all outrank `b[p]` and so all sit
   among `b`'s first p positions.
   */
  lemma Dominates(scores: seq<Score>, k: nat, a: seq<nat>, b: seq<nat>, p: nat)
    requires IsTopK(scores, k, a) && IsTopK(scores, k, b) && p < k
    ensures scores[a[p]] <= scores[b[p]]
  {
    if scores[a[p]] > scores[b[p]] {
      forall q | 0 <= q <= p ensures a[q] in b[..p] {
        var j := a[q];
        assert scores[j] > scores[b[p]];
        assert j in b;
        var r :| 0 <= r < k && b[r] == j;
        assert r < p;
        assert b[..p][r] == j;
      }
      Pigeonhole(a[..p + 1], b[..p]);
    }
  }

  /**
   The scores of a top-k answer do not depend on how ties were broken: any two
   valid selections list the same scores in the same order.
   */
  lemma TopKScoresUnique(scores: seq<Score>, k: nat, a: seq<nat>, b: seq<nat>)
    requires IsTopK(scores, k, a) && IsTopK(scores, k, b)
    ensures forall p :: 0 <= p < k ==> scores[a[p]] == scores[b[p]]
  {
    forall p | 0 <= p < k ensures scores[a[p]] == scores[b[p]] {
      Dominates(scores, k, a, b, p);
      Dominates(scores, k, b, a, p);
    }
  }

  /**
   Two documents with the same top score: a top-1 answer may name either of
   them, but never the lower-scored one.
   */
  lemma TieExample(picked: seq<nat>)
    requires IsTopK([0.9, 0.5, 0.9], 1, picked)
    ensures picked[0] == 0 || picked[0] == 2
  {
    var scores: seq<Score> := [0.9, 0.5, 0.9];
    if 0 in picked {
      assert picked[0] == 0;
    } else {
      assert scores[0] <= scores[picked[0]];
    }
  }
}
