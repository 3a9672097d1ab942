/**
 * The comparison tool's text processor: overlapping word chunks of a policy, and the chunks
 * nearest to a query.  The sentence embedding and its dot product are one parameter,
 * `similarity(query, chunk)`, the score `np.dot(embeddings, query_embedding)` gives a chunk.
 */
module TextProcessor {
  import opened Wrappers
  import opened Text
  import opened Ranking
  import opened Chunking

  const ChunkSize: nat := 200
  const Overlap: nat := 50
  const DefaultTopK: nat := 3

  /**
   * `create_chunks`: a window of `ChunkSize` words at every `ChunkSize - Overlap` words, so
   * consecutive chunks share `Overlap` words (fewer at the end of the text).
   */
  method CreateChunks(text: string) returns (chunks: seq<string>)
    ensures chunks == WindowChunks(Words(text), ChunkSize, ChunkSize - Overlap)
    ensures IsWindowChunking(chunks, Words(text), ChunkSize, ChunkSize - Overlap)
  {
    chunks := Windows(Words(text), ChunkSize, ChunkSize - Overlap);
    WindowChunksShape(Words(text), ChunkSize, ChunkSize - Overlap);
  }

  /** One entry of `find_relevant_chunks`'s result. */
  datatype RelevantChunk = RelevantChunk(chunk: string, similarity: real, index: nat)

  function IndicesOf(results: seq<RelevantChunk>): (idx: seq<nat>)
    ensures |idx| == |results| && forall k :: 0 <= k < |results| ==> idx[k] == results[k].index
  {
    seq(|results|, k requires 0 <= k < |results| => results[k].index)
  }

  /**
   * What `find_relevant_chunks` promises about its result, whatever order `numpy.argsort` gives
   * equal scores: `top_k` entries (all of them when `top_k` is 0, as `a[-0:]` is the whole
   * array), each a chunk with its own score and position, no position twice, scores never
   * increasing, and no chunk left out scoring above one kept.
   */
  predicate IsTopRanking(results: seq<RelevantChunk>, chunks: seq<string>, scores: seq<real>, topK: int)
    requires |scores| == |chunks|
  {
    && (1 <= topK ==> |results| == Min(topK, |chunks|))
    && (topK == 0 ==> |results| == |chunks|)
    && (forall k :: 0 <= k < |results| ==>
         && results[k].index < |chunks|
         && results[k].chunk == chunks[results[k].index]
         && results[k].similarity == scores[results[k].index])
    && Distinct(IndicesOf(results))
    && (forall a, b :: 0 <= a < b < |results| ==> results[a].similarity >= results[b].similarity)
    && (forall j, k :: 0 <= j < |chunks| && j !in IndicesOf(results) && 0 <= k < |results| ==>
         scores[j] <= results[k].similarity)
    && (|chunks| <= topK ==> forall j :: 0 <= j < |chunks| ==> j in IndicesOf(results))
  }

  /** The entries for the selected positions, in order. */
  function Selected(chunks: seq<string>, scores: seq<real>, top: seq<nat>): (results: seq<RelevantChunk>)
    requires |scores| == |chunks| && InRange(top, |chunks|)
    ensures |results| == |top| && IndicesOf(results) == top
  {
    var results := seq(|top|, k requires 0 <= k < |top| => RelevantChunk(chunks[top[k]], scores[top[k]], top[k]));
    assert IndicesOf(results) == top;
    results
  }

  /** Selecting by any argsort of the scores gives a top ranking. */
  lemma SelectedIsTopRanking(chunks: seq<string>, scores: seq<real>, asc: seq<nat>, topK: int)
    requires |scores| == |chunks| && IsArgsort(asc, scores)
    ensures IsTopRanking(Selected(chunks, scores, TopIndices(asc, scores, topK)), chunks, scores, topK)
  {
    var top := TopIndices(asc, scores, topK);
    SelectedInOrder(chunks, scores, top);
    SelectedOutranksRest(chunks, scores, top);
  }

  /** Entries taken along a ranking with non-increasing scores have non-increasing similarities. */
  lemma SelectedInOrder(chunks: seq<string>, scores: seq<real>, top: seq<nat>)
    requires |scores| == |chunks| && DescendingBy(top, scores)
    ensures var results := Selected(chunks, scores, top);
      forall a, b :: 0 <= a < b < |results| ==> results[a].similarity >= results[b].similarity
  {
  }

  /** Every chunk left out scores no higher than any entry, when that holds of the positions. */
  lemma SelectedOutranksRest(chunks: seq<string>, scores: seq<real>, top: seq<nat>)
    requires |scores| == |chunks| && InRange(top, |chunks|)
    requires forall j, t :: 0 <= j < |scores| && j !in top && 0 <= t < |top| ==> scores[j] <= scores[top[t]]
    ensures var results := Selected(chunks, scores, top);
      forall j, k :: 0 <= j < |chunks| && j !in IndicesOf(results) && 0 <= k < |results| ==>
        scores[j] <= results[k].similarity
  {
  }

  lemma SelectedByEntries(chunks: seq<string>, scores: seq<real>, top: seq<nat>, results: seq<RelevantChunk>)
    requires |scores| == |chunks| && InRange(top, |chunks|) && |results| == |top|
    requires forall k :: 0 <= k < |top| ==> results[k] == RelevantChunk(chunks[top[k]], scores[top[k]], top[k])
    ensures results == Selected(chunks, scores, top)
  {
  }

  /** The append loop of `find_relevant_chunks`: one entry per index of `top`, in order. */
  method CollectEntries(chunks: seq<string>, scores: seq<real>, top: seq<nat>) returns (found: seq<RelevantChunk>)
    requires |scores| == |chunks| && InRange(top, |chunks|)
    ensures found == Selected(chunks, scores, top)
  {
    found := [];
    for t := 0 to |top|
      invariant |found| == t
      invariant forall k :: 0 <= k < t ==> found[k] == RelevantChunk(chunks[top[k]], scores[top[k]], top[k])
    {
      found := found + [RelevantChunk(chunks[top[t]], scores[top[t]], top[t])];
    }
    SelectedByEntries(chunks, scores, top, found);
  }

  /**
   * `find_relevant_chunks`, with the scores of `Similarities`.  With no chunk there is no
   * embedding to take the dot product with, and the call raises.
   */
  method FindRelevantChunks(query: string, chunks: seq<string>, similarity: (string, string) -> real, topK: int)
    returns (results: Result<seq<RelevantChunk>, EmbeddingError>)
    ensures results.Failure? <==> chunks == []
    ensures results.Success? ==> var scores := Similarities(similarity, query, chunks);
      && results.value == Selected(chunks, scores, TopIndices(Argsort(scores), scores, topK))
      && IsTopRanking(results.value, chunks, scores, topK)
  {
    if chunks == [] {
      return Failure(NoChunkEmbeddings);
    }
    var scores := Similarities(similarity, query, chunks);
    var top := TopIndices(Argsort(scores), scores, topK);
    var found := CollectEntries(chunks, scores, top);
    SelectedIsTopRanking(chunks, scores, Argsort(scores), topK);
    results := Success(found);
  }
}
