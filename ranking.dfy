/**
 * Ranking chunks by a given score vector, as `numpy.argsort` followed by the slicing the two
 * retrievers do.  Scores are given, one per chunk; how they are computed is not modelled.
 * `numpy.argsort` does not promise an order among equal scores, so every selection here takes
 * any `asc` that IsArgsort accepts, and nothing below depends on how ties were ordered.
 */
module Ranking {
  import opened Text

  /** The score of every chunk for a query, in chunk order; `similarity` stands for the embedding model. */
  function Similarities(similarity: (string, string) -> real, query: string, chunks: seq<string>): (scores: seq<real>)
    ensures |scores| == |chunks|
  {
    seq(|chunks|, i requires 0 <= i < |chunks| => similarity(query, chunks[i]))
  }

  /**
   * What the scoring step raises when there is nothing to score: the embeddings of an empty
   * chunk list form an empty one-axis array, which both `np.dot` with the query embedding and
   * sklearn's `cosine_similarity` reject with a ValueError.
   */
  datatype EmbeddingError = NoChunkEmbeddings

  predicate InRange(idx: seq<nat>, n: nat) {
    forall k :: 0 <= k < |idx| ==> idx[k] < n
  }

  predicate Distinct(idx: seq<nat>) {
    forall a, b :: 0 <= a < b < |idx| ==> idx[a] != idx[b]
  }

  /** Scores never decrease along `idx`. */
  predicate AscendingBy(idx: seq<nat>, scores: seq<real>) {
    InRange(idx, |scores|) && forall a, b :: 0 <= a < b < |idx| ==> scores[idx[a]] <= scores[idx[b]]
  }

  /** Scores never increase along `idx`. */
  predicate DescendingBy(idx: seq<nat>, scores: seq<real>) {
    InRange(idx, |scores|) && forall a, b :: 0 <= a < b < |idx| ==> scores[idx[a]] >= scores[idx[b]]
  }

  /** What `numpy.argsort(scores)` returns: every index exactly once, by ascending score, ties in any order. */
  predicate IsArgsort(asc: seq<nat>, scores: seq<real>) {
    && |asc| == |scores|
    && Distinct(asc)
    && AscendingBy(asc, scores)
    && forall j :: 0 <= j < |scores| ==> j in asc
  }

  /* ---------- one argsort: insertion of the indices by score ---------- */

  function InsertAscending(i: nat, sorted: seq<nat>, scores: seq<real>): (r: seq<nat>)
    requires i < |scores| && InRange(sorted, |scores|)
    ensures |r| == |sorted| + 1 && InRange(r, |scores|)
    ensures forall x :: x in r <==> x == i || x in sorted
  {
    if sorted == [] then [i]
    else if scores[i] <= scores[sorted[0]] then [i] + sorted
    else [sorted[0]] + InsertAscending(i, sorted[1..], scores)
  }

  /** Inserting an index into a list sorted by score keeps it sorted. */
  lemma {:induction false} InsertAscendingSorted(i: nat, sorted: seq<nat>, scores: seq<real>)
    requires i < |scores| && AscendingBy(sorted, scores)
    ensures AscendingBy(InsertAscending(i, sorted, scores), scores)
  {
    if sorted != [] && scores[i] > scores[sorted[0]] {
      var tail := sorted[1..];
      InsertAscendingSorted(i, tail, scores);
      var rest := InsertAscending(i, tail, scores);
      assert InsertAscending(i, sorted, scores) == [sorted[0]] + rest;
      forall k | 0 <= k < |rest|
        ensures scores[sorted[0]] <= scores[rest[k]]
      {
        assert rest[k] in rest;
        if rest[k] != i {
          var p :| 0 <= p < |tail| && tail[p] == rest[k];
          assert tail[p] == sorted[p + 1];
        }
      }
    }
  }

  /** Inserting an index not yet present into a list free of repeats keeps it free of repeats. */
  lemma {:induction false} InsertAscendingDistinct(i: nat, sorted: seq<nat>, scores: seq<real>)
    requires i < |scores| && InRange(sorted, |scores|) && Distinct(sorted) && i !in sorted
    ensures Distinct(InsertAscending(i, sorted, scores))
  {
    if sorted == [] {
      assert Distinct([i]);
    } else if scores[i] <= scores[sorted[0]] {
      DistinctCons(i, sorted);
    } else {
      var tail := sorted[1..];
      DistinctTail(sorted);
      assert i !in tail;
      InsertAscendingDistinct(i, tail, scores);
      var rest := InsertAscending(i, tail, scores);
      assert sorted[0] != i;
      DistinctCons(sorted[0], rest);
    }
  }

  lemma DistinctCons(x: nat, xs: seq<nat>)
    requires Distinct(xs) && x !in xs
    ensures Distinct([x] + xs)
  {
    var all := [x] + xs;
    forall a, b | 0 <= a < b < |all|
      ensures all[a] != all[b]
    {
      assert all[b] == xs[b - 1];
      assert a > 0 ==> all[a] == xs[a - 1];
    }
  }

  lemma DistinctTail(xs: seq<nat>)
    requires Distinct(xs) && xs != []
    ensures Distinct(xs[1..]) && xs[0] !in xs[1..]
  {
    var tail := xs[1..];
    forall p | 0 <= p < |tail|
      ensures tail[p] == xs[p + 1] && tail[p] != xs[0]
    {
    }
  }

  function ArgsortUpTo(scores: seq<real>, n: nat): (r: seq<nat>)
    requires n <= |scores|
    ensures |r| == n && Distinct(r) && AscendingBy(r, scores)
    ensures forall x: nat :: x in r <==> x < n
  {
    if n == 0 then []
    else
      var prev := ArgsortUpTo(scores, n - 1);
      assert n - 1 !in prev;
      InsertAscendingSorted(n - 1, prev, scores);
      InsertAscendingDistinct(n - 1, prev, scores);
      InsertAscending(n - 1, prev, scores)
  }

  /** One valid result of `numpy.argsort(scores)`; used where a pipeline needs a concrete order. */
  function Argsort(scores: seq<real>): (asc: seq<nat>)
    ensures IsArgsort(asc, scores)
  {
    ArgsortUpTo(scores, |scores|)
  }

  /* ---------- slicing ---------- */

  /** `s[::-1]`. */
  function Reverse(s: seq<nat>): (r: seq<nat>)
    ensures |r| == |s| && forall k :: 0 <= k < |s| ==> r[k] == s[|s| - 1 - k]
  {
    seq(|s|, k requires 0 <= k < |s| => s[|s| - 1 - k])
  }

  /** Where a Python slice bound `i` (negative counts from the end) falls in a sequence of length `n`. */
  function SliceBound(n: nat, i: int): (b: nat)
    ensures b <= n
    ensures 0 <= i ==> b == Min(i, n)
    ensures i < 0 ==> b == (if n + i < 0 then 0 else n + i)
  {
    if i < 0 then (if n + i < 0 then 0 else n + i) else if i > n then n else i
  }

  lemma ReverseOfSuffix(asc: seq<nat>, start: nat)
    requires start <= |asc|
    ensures Reverse(asc[start..]) == Reverse(asc)[..|asc| - start]
  {
  }

  /**
   * Any prefix of the descending ranking: distinct in-range indices with non-increasing scores,
   * and no index left out of it scores higher than one inside it.
   */
  lemma RankingPrefix(asc: seq<nat>, scores: seq<real>, c: nat)
    requires IsArgsort(asc, scores) && c <= |asc|
    ensures var top := Reverse(asc)[..c];
      && |top| == c && Distinct(top) && DescendingBy(top, scores)
      && (forall j, t :: 0 <= j < |scores| && j !in top && 0 <= t < c ==> scores[j] <= scores[top[t]])
      && (c == |scores| ==> forall j :: 0 <= j < |scores| ==> j in top)
  {
    var top := Reverse(asc)[..c];
    assert forall t :: 0 <= t < c ==> top[t] == asc[|asc| - 1 - t];
    PrefixOrdered(asc, scores, top);
    PrefixDominates(asc, scores, top);
    if c == |asc| {
      PrefixCovers(asc, scores, top);
    }
  }

  /* The three parts of RankingPrefix, for `top` the first `|top|` indices of `asc` read backwards. */

  lemma PrefixOrdered(asc: seq<nat>, scores: seq<real>, top: seq<nat>)
    requires IsArgsort(asc, scores) && |top| <= |asc|
    requires forall t :: 0 <= t < |top| ==> top[t] == asc[|asc| - 1 - t]
    ensures Distinct(top) && DescendingBy(top, scores)
  {
    var n := |asc|;
    forall a, b | 0 <= a < b < |top|
      ensures top[a] != top[b] && scores[top[a]] >= scores[top[b]]
    {
      assert top[a] == asc[n - 1 - a] && top[b] == asc[n - 1 - b];
    }
  }

  lemma PrefixDominates(asc: seq<nat>, scores: seq<real>, top: seq<nat>)
    requires IsArgsort(asc, scores) && |top| <= |asc|
    requires forall t :: 0 <= t < |top| ==> top[t] == asc[|asc| - 1 - t]
    ensures forall j, t :: 0 <= j < |scores| && j !in top && 0 <= t < |top| ==> scores[j] <= scores[top[t]]
  {
    var n := |asc|;
    forall q | 0 <= q < n && n - 1 - q < |top|
      ensures asc[q] in top
    {
      assert top[n - 1 - q] == asc[q];
    }
    forall j, t | 0 <= j < |scores| && j !in top && 0 <= t < |top|
      ensures scores[j] <= scores[top[t]]
    {
      assert j in asc;
      var p :| 0 <= p < n && asc[p] == j;
      assert p < n - 1 - t;
    }
  }

  lemma PrefixCovers(asc: seq<nat>, scores: seq<real>, top: seq<nat>)
    requires IsArgsort(asc, scores) && |top| == |asc|
    requires forall t :: 0 <= t < |top| ==> top[t] == asc[|asc| - 1 - t]
    ensures forall j :: 0 <= j < |scores| ==> j in top
  {
    var n := |asc|;
    forall j | 0 <= j < |scores|
      ensures j in top
    {
      assert j in asc;
      var p :| 0 <= p < n && asc[p] == j;
      assert top[n - 1 - p] == j;
    }
  }

  /* ---------- threshold filter ---------- */

  /** `[i for i in idx if scores[i] > threshold]`. */
  function Above(idx: seq<nat>, scores: seq<real>, threshold: real): (r: seq<nat>)
    requires InRange(idx, |scores|)
    ensures InRange(r, |scores|) && |r| <= |idx|
    ensures forall k :: 0 <= k < |r| ==> scores[r[k]] > threshold
  {
    if idx == [] then []
    else (if scores[idx[0]] > threshold then [idx[0]] else []) + Above(idx[1..], scores, threshold)
  }

  lemma {:induction false} AboveOfLowScores(idx: seq<nat>, scores: seq<real>, threshold: real)
    requires InRange(idx, |scores|)
    requires forall k :: 0 <= k < |idx| ==> scores[idx[k]] <= threshold
    ensures Above(idx, scores, threshold) == []
  {
    if idx != [] {
      AboveOfLowScores(idx[1..], scores, threshold);
    }
  }

  /** On a ranking with non-increasing scores the filter keeps a prefix, and drops exactly the rest. */
  lemma {:induction false} AboveOfDescendingIsPrefix(idx: seq<nat>, scores: seq<real>, threshold: real)
    requires DescendingBy(idx, scores)
    ensures var r := Above(idx, scores, threshold);
      && r == idx[..|r|]
      && forall t :: |r| <= t < |idx| ==> scores[idx[t]] <= threshold
  {
    if idx != [] {
      var rest := idx[1..];
      assert DescendingBy(rest, scores);
      if scores[idx[0]] > threshold {
        AboveOfDescendingIsPrefix(rest, scores, threshold);
      } else {
        AboveOfLowScores(rest, scores, threshold);
      }
    }
  }

  /* ---------- the two retrievers' selections ---------- */

  /**
   * `np.argsort(similarities)[-top_k:][::-1]` (text_processor).  For 1 <= top_k it keeps
   * min(top_k, n) indices; as written, top_k == 0 keeps all of them (`a[-0:]` is `a[0:]`).
   */
  function TopIndices(asc: seq<nat>, scores: seq<real>, topK: int): (top: seq<nat>)
    requires IsArgsort(asc, scores)
    ensures |top| <= |scores| && top == Reverse(asc)[..|top|]
    ensures 1 <= topK ==> |top| == Min(topK, |scores|)
    ensures topK == 0 ==> |top| == |scores|
    ensures topK < 0 ==> |top| == |scores| - Min(-topK, |scores|)
    ensures Distinct(top) && DescendingBy(top, scores)
    ensures forall j, t :: 0 <= j < |scores| && j !in top && 0 <= t < |top| ==> scores[j] <= scores[top[t]]
    ensures |scores| <= topK ==> forall j :: 0 <= j < |scores| ==> j in top
  {
    var start := SliceBound(|asc|, -topK);
    ReverseOfSuffix(asc, start);
    RankingPrefix(asc, scores, |asc| - start);
    Reverse(asc[start..])
  }

  /**
   * `similarities.argsort()[::-1][:top_k]` followed by `if similarities[i] > similarity_threshold`
   * (summary): at most top_k indices, all above the threshold, non-increasing, a prefix of the
   * descending ranking, and every index of the top k that is left out is at or below the threshold.
   */
  function RetrievedIndices(asc: seq<nat>, scores: seq<real>, topK: int, threshold: real): (r: seq<nat>)
    requires IsArgsort(asc, scores)
    ensures 0 <= topK ==> |r| <= topK
    ensures InRange(r, |scores|) && |r| <= |scores|
    ensures forall k :: 0 <= k < |r| ==> scores[r[k]] > threshold
    ensures Distinct(r) && DescendingBy(r, scores)
    ensures r == Reverse(asc)[..|r|]
    ensures |r| <= SliceBound(|scores|, topK)
    ensures forall t :: |r| <= t < SliceBound(|scores|, topK) ==> scores[Reverse(asc)[t]] <= threshold
  {
    RetrievedFacts(asc, scores, topK, threshold);
    Above(Reverse(asc)[..SliceBound(|asc|, topK)], scores, threshold)
  }

  /** The filter over the first top_k of the descending ranking keeps a prefix of it above the threshold. */
  lemma RetrievedFacts(asc: seq<nat>, scores: seq<real>, topK: int, threshold: real)
    requires IsArgsort(asc, scores)
    ensures var c := SliceBound(|asc|, topK);
      var r := Above(Reverse(asc)[..c], scores, threshold);
      && |r| <= c && InRange(r, |scores|)
      && Distinct(r) && DescendingBy(r, scores)
      && r == Reverse(asc)[..|r|]
      && forall t :: |r| <= t < c ==> scores[Reverse(asc)[t]] <= threshold
  {
    var c := SliceBound(|asc|, topK);
    var top := Reverse(asc)[..c];
    RankingPrefix(asc, scores, c);
    AboveOfDescendingIsPrefix(top, scores, threshold);
    var r := Above(top, scores, threshold);
    PrefixKeepsOrder(top, scores, |r|);
    assert Reverse(asc)[..c][..|r|] == Reverse(asc)[..|r|];
    assert forall t :: |r| <= t < c ==> top[t] == Reverse(asc)[t];
  }

  /** A prefix of a ranking is a ranking. */
  lemma PrefixKeepsOrder(idx: seq<nat>, scores: seq<real>, n: nat)
    requires n <= |idx| && Distinct(idx) && DescendingBy(idx, scores)
    ensures Distinct(idx[..n]) && DescendingBy(idx[..n], scores)
  {
    assert forall a :: 0 <= a < n ==> idx[..n][a] == idx[a];
  }
}
