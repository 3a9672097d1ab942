/**
 * Word-window chunking, the loop both chunkers are built on: split a text into words and,
 * for every start 0, step, 2 * step, ... below the word count, emit the next `size` words
 * joined by single spaces.  The question-answering pipeline uses size = step = 500; the policy
 * comparison uses size 200 and step 150, so that consecutive chunks share 50 words.
 */
module Chunking {
  import opened Text

  /** Reference definition: the first window, then the windows of the words from `step` on. */
  function WindowChunks(words: seq<string>, size: nat, step: nat): (chunks: seq<string>)
    requires 0 < step
    ensures |chunks| <= |words|
    ensures chunks == [] <==> words == []
    decreases |words|
  {
    if words == [] then []
    else [Join(" ", words[..Min(size, |words|)])] + WindowChunks(words[Min(step, |words|)..], size, step)
  }

  /**
   * The loop itself: `for i in range(0, len(words), step)` appending the words `i` to
   * `i + size` joined by single spaces.
   */
  method Windows(words: seq<string>, size: nat, step: nat) returns (chunks: seq<string>)
    requires 0 < step
    ensures chunks == WindowChunks(words, size, step)
  {
    chunks := [];
    var i: nat := 0;
    WindowChunksStart(words, size, step);
    while i < |words|
      invariant Progress(words, chunks, size, step, i)
    {
      var chunk := Join(" ", words[i..Min(i + size, |words|)]);
      WindowChunksStep(words, chunks, chunk, size, step, i);
      chunks := chunks + [chunk];
      i := i + step;
    }
    WindowChunksDone(words, chunks, size, step, i);
  }

  /** Before the first turn no chunk is made and every chunk is still to come. */
  lemma WindowChunksStart(words: seq<string>, size: nat, step: nat)
    requires 0 < step
    ensures Progress(words, [], size, step, 0)
  {
    assert words[0..] == words;
  }

  /** The words each chunk splits back into. */
  function WordsOfEach(chunks: seq<string>): (r: seq<seq<string>>)
    ensures |r| == |chunks| && forall k :: 0 <= k < |chunks| ==> r[k] == Words(chunks[k])
  {
    seq(|chunks|, k requires 0 <= k < |chunks| => Words(chunks[k]))
  }

  /** Chunk k starts at word k * step and splits back into exactly the `size` words from there (fewer at the end). */
  predicate HoldsWindow(chunks: seq<string>, words: seq<string>, size: nat, step: nat, k: nat)
    requires k < |chunks|
  {
    k * step < |words| && Words(chunks[k]) == Window(words, k * step, size)
  }

  /**
   * What the loop produces: one chunk per start below the word count, so the fewest chunks
   * whose starts, `step` apart, leave no word unstarted, and each chunk holding its window.
   */
  predicate IsWindowChunking(chunks: seq<string>, words: seq<string>, size: nat, step: nat) {
    && |words| <= |chunks| * step && (|chunks| == 0 || (|chunks| - 1) * step < |words|)
    && forall k :: 0 <= k < |chunks| ==> HoldsWindow(chunks, words, size, step, k)
  }

  lemma MulSucc(l: nat, m: nat)
    ensures (l + 1) * m == l * m + m
  {
  }

  lemma MulLe(a: nat, b: nat, m: nat)
    requires a <= b
    ensures a * m <= b * m
  {
  }

  /** Chunk k - 1 of the words from `step` on is chunk k of all the words. */
  lemma LaterChunk(words: seq<string>, size: nat, step: nat, tail: seq<string>, k: nat)
    requires 0 < step < |words| && 1 <= k <= |tail|
    requires HoldsWindow(tail, words[step..], size, step, k - 1)
    ensures k * step < |words| && Words(tail[k - 1]) == Window(words, k * step, size)
  {
    var start := (k - 1) * step;
    assert start + step == k * step;
    assert Window(words[step..], start, size) == Window(words, start + step, size);
  }

  /** Counting: one more chunk in front starts `step` words earlier. */
  lemma CountStep(n: nat, step: nat, tailCount: nat, restCount: nat)
    requires 0 < step && 0 < n && restCount == n - Min(step, n)
    requires restCount <= tailCount * step && (tailCount == 0 || (tailCount - 1) * step < restCount)
    requires restCount == 0 ==> tailCount == 0
    ensures n <= (tailCount + 1) * step && tailCount * step < n
  {
    MulSucc(tailCount, step);
    if tailCount > 0 {
      MulSucc(tailCount - 1, step);
    }
  }

  /** The chunks after the first keep their windows, shifted by `step`. */
  lemma WindowsStep(words: seq<string>, size: nat, step: nat, c: string, tail: seq<string>)
    requires 0 < step && words != [] && Words(c) == words[..Min(size, |words|)]
    requires forall k :: 0 <= k < |tail| ==> HoldsWindow(tail, words[Min(step, |words|)..], size, step, k)
    requires tail != [] ==> step < |words|
    ensures forall k :: 0 <= k < |tail| + 1 ==> HoldsWindow([c] + tail, words, size, step, k)
  {
    var cs := [c] + tail;
    assert HoldsWindow(cs, words, size, step, 0);
    forall k | 1 <= k < |cs|
      ensures HoldsWindow(cs, words, size, step, k)
    {
      assert Min(step, |words|) == step;
      assert HoldsWindow(tail, words[step..], size, step, k - 1);
      assert cs[k] == tail[k - 1];
      LaterChunk(words, size, step, tail, k);
    }
  }

  /** The reference chunking is a window chunking of its words. */
  lemma {:induction false} WindowChunksShape(words: seq<string>, size: nat, step: nat)
    requires 0 < step && AllWords(words)
    ensures IsWindowChunking(WindowChunks(words, size, step), words, size, step)
    decreases |words|
  {
    if words != [] {
      var n := |words|;
      var head, rest := words[..Min(size, n)], words[Min(step, n)..];
      var c := Join(" ", head);
      assert AllWords(head) && AllWords(rest);
      WordsOfJoin(head);
      WindowChunksShape(rest, size, step);
      var tail := WindowChunks(rest, size, step);
      assert WindowChunks(words, size, step) == [c] + tail;
      assert rest == [] ==> tail == [];
      CountStep(n, step, |tail|, |rest|);
      WindowsStep(words, size, step, c, tail);
    }
  }

  /** One turn of the loop: the chunk at start `i`, then the chunks from `i + step` on. */
  lemma WindowChunksFrom(words: seq<string>, size: nat, step: nat, i: nat)
    requires 0 < step && i < |words|
    ensures WindowChunks(words[i..], size, step)
         == [Join(" ", words[i..Min(i + size, |words|)])] + WindowChunks(words[Min(i + step, |words|)..], size, step)
  {
    var n := |words|;
    assert words[i..][..Min(size, n - i)] == words[i..Min(i + size, n)];
    assert words[i..][Min(step, n - i)..] == words[Min(i + step, n)..];
  }

  /** The loop's invariant: the chunks so far, then those from word `i` on, are all of them. */
  predicate Progress(words: seq<string>, chunks: seq<string>, size: nat, step: nat, i: nat)
    requires 0 < step
  {
    chunks + WindowChunks(words[Min(i, |words|)..], size, step) == WindowChunks(words, size, step)
  }

  /** One turn of the loop keeps the chunks so far and the chunks still to come together. */
  lemma WindowChunksStep(words: seq<string>, chunks: seq<string>, chunk: string, size: nat, step: nat, i: nat)
    requires 0 < step && i < |words| && Progress(words, chunks, size, step, i)
    requires chunk == Join(" ", words[i..Min(i + size, |words|)])
    ensures Progress(words, chunks + [chunk], size, step, i + step)
  {
    var n := |words|;
    WindowChunksFrom(words, size, step, i);
    AppendAssoc(chunks, [Join(" ", words[i..Min(i + size, n)])], WindowChunks(words[Min(i + step, n)..], size, step));
  }

  /** Once the window has passed the last word, the chunks so far are all of them. */
  lemma WindowChunksDone(words: seq<string>, chunks: seq<string>, size: nat, step: nat, i: nat)
    requires 0 < step && |words| <= i && Progress(words, chunks, size, step, i)
    ensures chunks == WindowChunks(words, size, step)
  {
    assert words[Min(i, |words|)..] == [];
    assert chunks + [] == chunks;
  }

  lemma WordsOfEachCons(c: string, tail: seq<string>)
    ensures WordsOfEach([c] + tail) == [Words(c)] + WordsOfEach(tail)
  {
  }

  /** The words of the chunks: those of the first chunk, then those of the chunks of the rest. */
  lemma RoundTripUnfold(words: seq<string>, m: nat)
    requires 0 < m && words != []
    ensures var k := Min(m, |words|);
      Concat(WordsOfEach(WindowChunks(words, m, m)))
        == Words(Join(" ", words[..k])) + Concat(WordsOfEach(WindowChunks(words[k..], m, m)))
  {
    var k := Min(m, |words|);
    var c := Join(" ", words[..k]);
    var tail := WindowChunks(words[k..], m, m);
    WordsOfEachCons(c, tail);
    ConcatPrepend(Words(c), WordsOfEach(tail));
  }

  /** Without overlap (size == step) the chunks hold every word exactly once, in order. */
  lemma {:induction false} WindowChunksRoundTrip(words: seq<string>, m: nat)
    requires 0 < m && AllWords(words)
    ensures Concat(WordsOfEach(WindowChunks(words, m, m))) == words
    decreases |words|
  {
    if words != [] {
      var k := Min(m, |words|);
      var head, rest := words[..k], words[k..];
      RoundTripUnfold(words, m);
      assert Words(Join(" ", head)) == head by {
        assert AllWords(head);
        WordsOfJoin(head);
      }
      assert Concat(WordsOfEach(WindowChunks(rest, m, m))) == rest by {
        assert AllWords(rest);
        WindowChunksRoundTrip(rest, m);
      }
      TakeDrop(words, k);
    }
  }

  lemma MulLtCancel(a: nat, b: nat, m: nat)
    requires a * m < b * m
    ensures a < b
  {
  }

  /**
   * Every chunk holds between one and `size` words, and every chunk but the last at least
   * `step` of them (so exactly `size` when there is no overlap).
   */
  lemma ChunkSizes(chunks: seq<string>, words: seq<string>, size: nat, step: nat, k: nat)
    requires 0 < step <= size && IsWindowChunking(chunks, words, size, step) && k < |chunks|
    ensures 1 <= |Words(chunks[k])| <= size
    ensures k < |chunks| - 1 ==> step <= |Words(chunks[k])|
  {
    assert HoldsWindow(chunks, words, size, step, k);
    if k < |chunks| - 1 {
      MulLe(k + 1, |chunks| - 1, step);
      MulSucc(k, step);
    }
  }

  /**
   * Consecutive chunks overlap by `size - step` words: what chunk k holds after its first `step`
   * words is exactly how chunk k + 1 begins.
   */
  lemma ConsecutiveChunksOverlap(chunks: seq<string>, words: seq<string>, size: nat, step: nat, k: nat)
    requires 0 < step <= size && IsWindowChunking(chunks, words, size, step) && k + 1 < |chunks|
    ensures var a, b := Words(chunks[k]), Words(chunks[k + 1]);
      && step <= |a| && |a| - step == Min(size - step, |b|)
      && a[step..] == b[..|a| - step]
  {
    assert HoldsWindow(chunks, words, size, step, k);
    assert HoldsWindow(chunks, words, size, step, k + 1);
    MulSucc(k, step);
    WindowsOverlap(words, k * step, size, step);
  }

  lemma WindowsOverlap(words: seq<string>, s: nat, size: nat, step: nat)
    requires step <= size && s + step < |words|
    ensures var a, b := Window(words, s, size), Window(words, s + step, size);
      && step <= |a| && |a| - step == Min(size - step, |b|)
      && a[step..] == b[..|a| - step]
  {
    var n := |words|;
    var a, b := Window(words, s, size), Window(words, s + step, size);
    assert |a| == Min(size, n - s) && |b| == Min(size, n - s - step);
    assert a == words[s..Min(s + size, n)];
    assert a[step..] == words[s + step..Min(s + size, n)];
    assert step <= |a|;
    assert |a| - step == Min(size - step, |b|);
    assert b == words[s + step..Min(s + step + size, n)];
    assert b[..|a| - step] == words[s + step..Min(s + size, n)];
  }

  /**
   * The number of chunks is the word count divided by `step`, rounded up; in particular a text
   * with no words (empty or all whitespace) gives no chunks, and any word gives at least one.
   */
  lemma ChunkCount(chunks: seq<string>, words: seq<string>, size: nat, step: nat)
    requires 0 < step && IsWindowChunking(chunks, words, size, step)
    ensures |chunks| == (|words| + step - 1) / step
    ensures |chunks| == 0 <==> |words| == 0
  {
    var n, c := |words|, |chunks|;
    if c == 0 {
      assert n == 0;
    } else {
      MulSucc(c - 1, step);
      assert (c - 1) * step + 1 <= n <= c * step;
      assert (c - 1) * step <= n + step - 1 - step < c * step;
      DivBetween(n + step - 1, step, c);
    }
  }

  lemma DivBetween(x: nat, m: nat, q: nat)
    requires 0 < m && q * m <= x < (q + 1) * m
    ensures x / m == q
  {
    var d, r := x / m, x % m;
    assert x == d * m + r && 0 <= r < m;
    if d < q {
      MulLe(d + 1, q, m);
      MulSucc(d, m);
    } else if d > q {
      MulLe(q + 1, d, m);
      MulSucc(q, m);
    }
  }

  /** Every word position lies in the chunk its start falls in: word j is word j % step of chunk j / step. */
  lemma EveryWordCovered(chunks: seq<string>, words: seq<string>, size: nat, step: nat, j: nat)
    requires 0 < step <= size && IsWindowChunking(chunks, words, size, step) && j < |words|
    ensures j / step < |chunks|
    ensures var w := Words(chunks[j / step]); j % step < |w| && w[j % step] == words[j]
  {
    var q, r := j / step, j % step;
    assert j == q * step + r;
    MulLtCancel(q, |chunks|, step);
    assert HoldsWindow(chunks, words, size, step, q);
  }
}
