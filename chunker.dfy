/**
 * The word chunker of the indexing script: `chunk_text(text, chunk_size, overlap)`
 * cuts the whitespace-separated words of a text into windows of up to `chunk_size`
 * words, starting every `chunk_size - overlap` words, and joins each window with
 * single spaces.
 */
module Chunker {
  import opened Words
  import opened Seqs

  const DefaultChunkSize: int := 500
  const DefaultOverlap: int := 50

  function Min(a: int, b: int): int {
    if a <= b then a else b
  }

  /** Python's slice of `s` from a non-negative `lo` to `hi`; see `SliceIsRun`. */
  function Slice<T>(s: seq<T>, lo: nat, hi: int): seq<T> {
    var end := if hi < 0 then hi + |s| else Min(hi, |s|);
    if lo < end then s[lo..end] else []
  }

  /**
   * The slice is the run of elements from `lo` up to `hi`, where a negative `hi`
   * counts from the end and a `hi` past the end stops at the end; it is empty
   * when that end is not after `lo`.
   */
  lemma SliceIsRun<T>(s: seq<T>, lo: nat, hi: int)
    ensures var r := Slice(s, lo, hi);
            (r == [] || lo + |r| <= |s|)
            && (forall k :: 0 <= k < |r| ==> lo + k < |s| && r[k] == s[lo + k])
            && (hi >= 0 ==> |r| == if lo < Min(hi, |s|) then Min(hi, |s|) - lo else 0)
            && (hi < 0 ==> |r| == if lo < |s| + hi then |s| + hi - lo else 0)
  {
  }

  /** The words of the window that starts at word `start` and holds at most `size` words. */
  function Window(words: seq<string>, start: int, size: int): seq<string>
    requires 0 <= start <= |words| && size >= 0
  {
    words[start..Min(start + size, |words|)]
  }

  /**
   * The chunks `chunk_text` returns once its loop index has reached `i` with `acc`
   * collected so far: for each `i, i + step, ...` below the word count, the joined
   * slice `words[i:i + chunkSize]` is appended when it is not the empty string.
   */
  function ChunkLoop(words: seq<string>, chunkSize: int, overlap: int, i: nat, acc: seq<string>): seq<string>
    requires chunkSize - overlap > 0
    decreases |words| - i
  {
    if i >= |words| then acc
    else
      var chunk := Join(Slice(words, i, i + chunkSize));
      ChunkLoop(words, chunkSize, overlap, i + (chunkSize - overlap), if chunk != "" then acc + [chunk] else acc)
  }

  /** The chunks `chunk_text` makes of a word list when the stride is positive. */
  function Chunks(words: seq<string>, chunkSize: int, overlap: int): seq<string>
    requires chunkSize - overlap > 0
  {
    ChunkLoop(words, chunkSize, overlap, 0, [])
  }

  /**
   * `chunk_text`: split the text into words, then walk the word indices with
   * stride `chunkSize - overlap`, appending each non-empty joined window.
   * A stride of zero makes Python's `range` raise, hence the precondition; a
   * negative stride makes it empty.
   */
  method ChunkText(text: string, chunkSize: int, overlap: int) returns (chunks: seq<string>)
    requires chunkSize != overlap
    ensures chunkSize > overlap ==> chunks == Chunks(Split(text), chunkSize, overlap)
    ensures chunkSize < overlap ==> chunks == []
  {
    var words := Split(text);
    var step := chunkSize - overlap;
    chunks := [];
    if step < 0 {
      return;
    }
    var i: nat := 0;
    while i < |words|
      invariant ChunkLoop(words, chunkSize, overlap, i, chunks) == Chunks(words, chunkSize, overlap)
      decreases |words| - i
    {
      var chunk := Join(Slice(words, i, i + chunkSize));
      ghost var next := if chunk != "" then chunks + [chunk] else chunks;
      assert ChunkLoop(words, chunkSize, overlap, i, chunks) == ChunkLoop(words, chunkSize, overlap, i + step, next);
      if chunk != "" {
        chunks := chunks + [chunk];
      }
      i := i + step;
    }
  }

  /**
   * Reference definition: the windows starting at `i, i + step, ...` below the word count,
   * each joined by single spaces, with no filtering.
   */
  function WindowChunks(words: seq<string>, size: nat, step: nat, i: nat): seq<string>
    requires step > 0
    decreases |words| - i
  {
    if i >= |words| then [] else [Join(Window(words, i, size))] + WindowChunks(words, size, step, i + step)
  }

  /** From a start below the word count the slice is a non-empty window, so the `if chunk` guard keeps it. */
  lemma StartKeepsChunk(words: seq<string>, chunkSize: int, i: nat)
    requires AllWords(words) && chunkSize >= 1
    requires i < |words|
    ensures Slice(words, i, i + chunkSize) == Window(words, i, chunkSize)
    ensures Join(Window(words, i, chunkSize)) != ""
  {
    var w := Window(words, i, chunkSize);
    assert AllWords(w) by {
      assert forall k :: 0 <= k < |w| ==> w[k] == words[i + k];
    }
    JoinEmpty(w);
  }

  /**
   * For a text of words and a positive chunk size, the guard never drops a window:
   * the loop appends exactly the joined windows.
   */
  lemma {:induction false} ChunkLoopKeepsEveryWindow(words: seq<string>, chunkSize: int, overlap: int, i: nat, acc: seq<string>)
    requires AllWords(words) && chunkSize >= 1 && chunkSize - overlap > 0
    ensures ChunkLoop(words, chunkSize, overlap, i, acc) == acc + WindowChunks(words, chunkSize, chunkSize - overlap, i)
    decreases |words| - i
  {
    if i < |words| {
      var step := chunkSize - overlap;
      var chunk := Join(Window(words, i, chunkSize));
      var rest := WindowChunks(words, chunkSize, step, i + step);
      StartKeepsChunk(words, chunkSize, i);
      calc {
        ChunkLoop(words, chunkSize, overlap, i, acc);
        ChunkLoop(words, chunkSize, overlap, i + step, acc + [chunk]);
        { ChunkLoopKeepsEveryWindow(words, chunkSize, overlap, i + step, acc + [chunk]); }
        acc + [chunk] + rest;
        { AppendAssociates(acc, [chunk], rest); }
        acc + ([chunk] + rest);
        acc + WindowChunks(words, chunkSize, step, i);
      }
    } else {
      AppendEmpty(acc);
    }
  }

  /** Start of the `k`-th window: never negative, one stride after the `(k - 1)`-th. */
  lemma StrideStart(k: nat, step: int)
    requires step > 0
    ensures k * step >= 0
    ensures k > 0 ==> k * step == step + (k - 1) * step
  {
  }

  /** `k` strides of length `step`, added up one at a time (equal to `k * step`, see `OffsetIsProduct`). */
  function Offset(k: nat, step: nat): nat {
    if k == 0 then 0 else step + Offset(k - 1, step)
  }

  lemma {:induction false} OffsetIsProduct(k: nat, step: nat)
    ensures Offset(k, step) == k * step
  {
    if k > 0 {
      OffsetIsProduct(k - 1, step);
      assert k * step == (k - 1) * step + step;
    }
  }

  /** Window chunk `k` counted from `i` starts at `i + Offset(k, step)`, and exists exactly when that start is below the word count. */
  lemma {:induction false} WindowChunkAt(words: seq<string>, size: nat, step: nat, i: nat, k: nat)
    requires step > 0
    ensures k < |WindowChunks(words, size, step, i)| <==> i + Offset(k, step) < |words|
    ensures k < |WindowChunks(words, size, step, i)| ==>
              WindowChunks(words, size, step, i)[k] == Join(Window(words, i + Offset(k, step), size))
    decreases k
  {
    if i < |words| && k > 0 {
      WindowChunkAt(words, size, step, i + step, k - 1);
    }
  }

  /** Chunk `k` of the whole list is the window at `k * step`, present exactly when that start is below the word count. */
  lemma ChunkAt(words: seq<string>, chunkSize: int, overlap: int, k: nat)
    requires AllWords(words) && chunkSize >= 1 && chunkSize - overlap > 0
    ensures 0 <= k * (chunkSize - overlap)
    ensures k < |Chunks(words, chunkSize, overlap)| <==> k * (chunkSize - overlap) < |words|
    ensures k < |Chunks(words, chunkSize, overlap)| ==>
              Chunks(words, chunkSize, overlap)[k] == Join(Window(words, k * (chunkSize - overlap), chunkSize))
  {
    var step := chunkSize - overlap;
    ChunkLoopKeepsEveryWindow(words, chunkSize, overlap, 0, []);
    assert Chunks(words, chunkSize, overlap) == WindowChunks(words, chunkSize, step, 0);
    WindowChunkAt(words, chunkSize, step, 0, k);
    OffsetIsProduct(k, step);
  }

  /**
   * Number of chunks: with `n` chunks and stride `step`, `(n - 1) * step < L <= n * step`
   * for `L` words, so `n` is `ceil(L / step)`; no words means no chunks.
   */
  lemma ChunkCount(words: seq<string>, chunkSize: int, overlap: int)
    requires AllWords(words) && chunkSize >= 1 && chunkSize - overlap > 0
    ensures var n, step := |Chunks(words, chunkSize, overlap)|, chunkSize - overlap;
            n * step >= |words| && (n == 0 || (n - 1) * step < |words|)
    ensures |Chunks(words, chunkSize, overlap)| == 0 <==> |words| == 0
  {
    var n := |Chunks(words, chunkSize, overlap)|;
    ChunkAt(words, chunkSize, overlap, n);
    if n > 0 {
      ChunkAt(words, chunkSize, overlap, n - 1);
    }
    ChunkAt(words, chunkSize, overlap, 0);
  }

  /**
   * Chunk `k` is the window of at most `chunkSize` words starting at word `k * step`,
   * joined by single spaces; it holds at least one word, and splitting it gives the window back.
   */
  lemma ChunkIsWindow(words: seq<string>, chunkSize: int, overlap: int, k: nat)
    requires AllWords(words) && chunkSize >= 1 && chunkSize - overlap > 0
    requires k < |Chunks(words, chunkSize, overlap)|
    ensures k * (chunkSize - overlap) < |words|
    ensures var w := Window(words, k * (chunkSize - overlap), chunkSize);
            Chunks(words, chunkSize, overlap)[k] == Join(w)
            && Split(Chunks(words, chunkSize, overlap)[k]) == w
            && 1 <= |w| <= chunkSize
  {
    ChunkAt(words, chunkSize, overlap, k);
    var w := Window(words, k * (chunkSize - overlap), chunkSize);
    assert AllWords(w) by {
      assert forall j :: 0 <= j < |w| ==> w[j] == words[k * (chunkSize - overlap) + j];
    }
    SplitJoin(w);
  }

  /** Coverage: with a non-negative overlap, word `j` lies inside chunk `j / step`. */
  lemma Coverage(words: seq<string>, chunkSize: int, overlap: int, j: nat)
    requires AllWords(words) && chunkSize - overlap > 0 && overlap >= 0
    requires j < |words|
    ensures var k, step := j / (chunkSize - overlap), chunkSize - overlap;
            k < |Chunks(words, chunkSize, overlap)|
            && k * step <= j < Min(k * step + chunkSize, |words|)
            && Split(Chunks(words, chunkSize, overlap)[k]) == Window(words, k * step, chunkSize)
  {
    var step := chunkSize - overlap;
    var k := j / step;
    assert j == k * step + j % step;
    assert k * step <= j < k * step + step;
    ChunkAt(words, chunkSize, overlap, k);
    ChunkIsWindow(words, chunkSize, overlap, k);
  }

  /** A window whose start plus `size` reaches the word count runs to the last word. */
  lemma WindowToEnd(words: seq<string>, start: int, size: int)
    requires 0 <= start <= |words| && size >= 0 && start + size >= |words|
    ensures Window(words, start, size) == words[start..]
  {
  }

  /** Two windows one stride apart, the first full: the first's last `overlap` words open the second. */
  lemma WindowsOverlap(words: seq<string>, chunkSize: int, overlap: int, start: int, next: int)
    requires overlap >= 0 && chunkSize - overlap > 0
    requires 0 <= start && next == start + (chunkSize - overlap) && start + chunkSize <= |words|
    ensures var a, b := Window(words, start, chunkSize), Window(words, next, chunkSize);
            |a| == chunkSize && overlap <= |b| && a[chunkSize - overlap..] == b[..overlap]
  {
    var a, b := Window(words, start, chunkSize), Window(words, next, chunkSize);
    assert a == words[start..start + chunkSize];
    assert next + overlap <= Min(next + chunkSize, |words|);
    assert a[chunkSize - overlap..] == words[next..next + overlap];
    assert b[..overlap] == words[next..next + overlap];
  }

  /** The last chunk runs to the final word when the overlap is not negative. */
  lemma LastChunkReachesEnd(words: seq<string>, chunkSize: int, overlap: int)
    requires AllWords(words) && chunkSize - overlap > 0 && overlap >= 0
    requires |words| >= 1
    ensures var n, step := |Chunks(words, chunkSize, overlap)|, chunkSize - overlap;
            n >= 1 && 0 <= (n - 1) * step < |words|
            && Split(Chunks(words, chunkSize, overlap)[n - 1]) == words[(n - 1) * step..]
  {
    var step := chunkSize - overlap;
    ChunkCount(words, chunkSize, overlap);
    var n := |Chunks(words, chunkSize, overlap)|;
    ChunkIsWindow(words, chunkSize, overlap, n - 1);
    StrideStart(n, step);
    StrideStart(n - 1, step);
    WindowToEnd(words, (n - 1) * step, chunkSize);
  }

  /**
   * Overlap: when chunk `k` is full (`chunkSize` words) and chunk `k + 1` exists, the
   * last `overlap` words of chunk `k` are the first `overlap` words of chunk `k + 1`.
   */
  lemma OverlapShared(words: seq<string>, chunkSize: int, overlap: int, k: nat)
    requires AllWords(words) && chunkSize - overlap > 0 && overlap >= 0
    requires k + 1 < |Chunks(words, chunkSize, overlap)|
    requires k * (chunkSize - overlap) + chunkSize <= |words|
    ensures var a, b := Split(Chunks(words, chunkSize, overlap)[k]), Split(Chunks(words, chunkSize, overlap)[k + 1]);
            |a| == chunkSize && overlap <= |b| && a[chunkSize - overlap..] == b[..overlap]
  {
    var step := chunkSize - overlap;
    ChunkIsWindow(words, chunkSize, overlap, k);
    ChunkIsWindow(words, chunkSize, overlap, k + 1);
    StrideStart(k + 1, step);
    StrideStart(k, step);
    WindowsOverlap(words, chunkSize, overlap, k * step, (k + 1) * step);
  }

  /**
   * A trailing chunk can repeat words already chunked: when chunk `k - 1` already reaches
   * the last word (`k * step + overlap >= L`), chunk `k` is a suffix of chunk `k - 1`.
   */
  lemma TrailingChunkInsidePrevious(words: seq<string>, chunkSize: int, overlap: int, k: nat)
    requires AllWords(words) && chunkSize - overlap > 0 && overlap >= 0
    requires 1 <= k < |Chunks(words, chunkSize, overlap)|
    requires k * (chunkSize - overlap) + overlap >= |words|
    ensures var a, b := Split(Chunks(words, chunkSize, overlap)[k - 1]), Split(Chunks(words, chunkSize, overlap)[k]);
            |a| > chunkSize - overlap && b == a[chunkSize - overlap..]
  {
    var step := chunkSize - overlap;
    ChunkIsWindow(words, chunkSize, overlap, k);
    ChunkIsWindow(words, chunkSize, overlap, k - 1);
    StrideStart(k, step);
    StrideStart(k - 1, step);
    SuffixWindow(words, chunkSize, overlap, (k - 1) * step, k * step);
  }

  /** When a window reaches the last word, the window one stride later is its tail. */
  lemma SuffixWindow(words: seq<string>, chunkSize: int, overlap: int, prev: int, start: int)
    requires overlap >= 0 && chunkSize - overlap > 0
    requires 0 <= prev && start == prev + (chunkSize - overlap) < |words| && start + overlap >= |words|
    ensures var a, b := Window(words, prev, chunkSize), Window(words, start, chunkSize);
            |a| > chunkSize - overlap && b == a[chunkSize - overlap..]
  {
    WindowToEnd(words, prev, chunkSize);
    WindowToEnd(words, start, chunkSize);
  }

  /**
   * With the defaults (500 words, overlap 50) a 460-word text gives two chunks,
   * and the second (words 450 to 459) lies inside the first.
   */
  lemma DefaultsOn460Words(words: seq<string>)
    requires AllWords(words) && |words| == 460
    ensures |Chunks(words, DefaultChunkSize, DefaultOverlap)| == 2
    ensures var a, b := Split(Chunks(words, DefaultChunkSize, DefaultOverlap)[0]), Split(Chunks(words, DefaultChunkSize, DefaultOverlap)[1]);
            a == words && b == words[450..] == a[450..]
  {
    ChunkCount(words, DefaultChunkSize, DefaultOverlap);
    var n := |Chunks(words, DefaultChunkSize, DefaultOverlap)|;
    assert n == 2;
    ChunkIsWindow(words, DefaultChunkSize, DefaultOverlap, 0);
    ChunkIsWindow(words, DefaultChunkSize, DefaultOverlap, 1);
  }
}
