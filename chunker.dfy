/** `chunk_text` (main.py:42-52): split a text into overlapping windows of
    words. */
module Chunker {
  import opened Wrappers
  import opened Strings
  import opened Numbers

  /** The defaults of `chunk_text`, which both upload handlers use. */
  const DefaultChunkSize: int := 500
  const DefaultOverlap: int := 50

  /** `range(0, n, 0)` raises `ValueError`: the only way `chunk_text` fails. */
  datatype ChunkError = ZeroStep

  /** Python's normalisation of a slice's end bound `j` for a list of
      length `n`: a bound inside the list is kept, a negative bound counts
      from the end, and the result is clamped to `0..n`. */
  function SliceEnd(j: int, n: nat): (e: nat)
    ensures e <= n
    ensures 0 <= j <= n ==> e == j
    ensures j > n ==> e == n
    ensures j < 0 && 0 <= n + j ==> e == n + j
    ensures n + j < 0 ==> e == 0
  {
    if j < 0 then (if j + n < 0 then 0 else j + n)
    else if j > n then n
    else j
  }

  /** `words[start:start + size]`, for a start inside the list. */
  function WindowWords(words: seq<string>, start: nat, size: int): (r: seq<string>)
    requires start <= |words|
    ensures |r| <= |words| - start
    ensures 0 <= size ==> r == words[start..Min(start + size, |words|)]
  {
    var e := SliceEnd(start + size, |words|);
    if e <= start then [] else words[start..e]
  }

  /** `" ".join(words[start:start + size])`: the chunk that starts at word
      `start`; for a non-negative size, the space-join of the (at most)
      `size` words from `start` on. */
  function Window(words: seq<string>, start: nat, size: int): (r: string)
    requires start <= |words|
    ensures 0 <= size ==> r == JoinWith(" ", words[start..Min(start + size, |words|)])
  {
    JoinWith(" ", WindowWords(words, start, size))
  }

  /** The chunks that `for i in range(from, len(words), step)` appends:
      none once `from` is past the last word, otherwise at least one and
      no more than the words left. */
  function Windows(words: seq<string>, size: int, step: nat, from: nat): (r: seq<string>)
    requires step > 0
    ensures from >= |words| ==> r == []
    ensures from < |words| ==> 1 <= |r| <= |words| - from
    decreases |words| - from
  {
    if from >= |words| then []
    else [Window(words, from, size)] + Windows(words, size, step, from + step)
  }

  /** What `chunk_text(text, chunk_size, overlap)` returns, or the
      `ValueError` it raises. A negative step makes the range empty. */
  function Chunks(text: string, size: int, overlap: int): (r: Result<seq<string>, ChunkError>)
    ensures r.Failure? <==> size == overlap
    ensures size < overlap ==> r == Success([])
  {
    var words := Split(text);
    var step := size - overlap;
    if step == 0 then Failure(ZeroStep)
    else if step < 0 then Success([])
    else Success(Windows(words, size, step, 0))
  }

  /** `chunk_text` as the source runs it: split, then the loop of
      `AppendChunks` over the stepped range, which `range` refuses when the
      step is zero and skips when it is negative. */
  method ChunkText(text: string, chunkSize: int, overlap: int)
    returns (r: Result<seq<string>, ChunkError>)
    ensures r == Chunks(text, chunkSize, overlap)
  {
    var words := Split(text);
    var step := chunkSize - overlap;
    if step == 0 {
      return Failure(ZeroStep);
    }
    if step < 0 {
      return Success([]);
    }
    var chunks := AppendChunks(words, chunkSize, step);
    return Success(chunks);
  }

  /** The loop of `chunk_text`: one chunk appended per start position
      `0, step, 2*step, ...` below the word count. */
  method AppendChunks(words: seq<string>, chunkSize: int, step: nat) returns (chunks: seq<string>)
    requires step > 0
    ensures chunks == Windows(words, chunkSize, step, 0)
  {
    chunks := [];
    var i: nat := 0;
    while i < |words|
      invariant chunks + Windows(words, chunkSize, step, i) == Windows(words, chunkSize, step, 0)
      decreases |words| - i
    {
      var chunk := Window(words, i, chunkSize);
      AppendWindow(chunks, words, chunkSize, step, i);
      chunks := chunks + [chunk];
      i := i + step;
    }
    assert chunks + [] == chunks;
  }

  /** One turn of the loop in `AppendChunks`: appending the window at `i`
      moves it from the windows still to come to the chunks made. */
  lemma AppendWindow(chunks: seq<string>, words: seq<string>, size: int, step: nat, i: nat)
    requires step > 0 && i < |words|
    ensures chunks + Windows(words, size, step, i)
      == (chunks + [Window(words, i, size)]) + Windows(words, size, step, i + step)
  {
    var rest := Windows(words, size, step, i + step);
    assert Windows(words, size, step, i) == [Window(words, i, size)] + rest;
  }

  // ---------------------------------------------------------------------
  // The layout of the chunks, for a configuration 0 <= overlap < chunk_size.

  /** First word position of chunk `j`: `j` steps from the start. */
  function ChunkStart(step: nat, j: nat): nat {
    if j == 0 then 0 else ChunkStart(step, j - 1) + step
  }

  lemma {:induction false} ChunkStartIsProduct(step: nat, j: nat)
    ensures ChunkStart(step, j) == j * step
  {
    if j > 0 {
      ChunkStartIsProduct(step, j - 1);
      assert j * step == (j - 1) * step + step;
    }
  }

  /** One past the last word position of chunk `j`, for `n` words. */
  function ChunkEnd(n: nat, size: nat, step: nat, j: nat): nat {
    Min(ChunkStart(step, j) + size, n)
  }

  lemma StartStep(step: nat, j: nat)
    ensures ChunkStart(step, j + 1) == ChunkStart(step, j) + step
  {
  }

  /** Later chunks start at least one step further on. */
  lemma {:induction false} StartBelow(step: nat, a: nat, b: nat)
    requires a < b
    ensures ChunkStart(step, a) + step <= ChunkStart(step, b)
    decreases b - a
  {
    StartStep(step, a);
    if a + 1 < b {
      StartBelow(step, a + 1, b);
    }
  }

  /** With a positive step, start offsets are strictly increasing. */
  lemma StartOrder(step: nat, a: nat, b: nat)
    requires step > 0
    ensures a < b <==> ChunkStart(step, a) < ChunkStart(step, b)
  {
    if a < b {
      StartBelow(step, a, b);
    } else if b < a {
      StartBelow(step, b, a);
    }
  }

  /** How many windows there are from `from` on: the least `c` whose `c`
      steps reach past the last word. */
  lemma {:induction false} WindowsCount(words: seq<string>, size: int, step: nat, from: nat)
    requires step > 0 && from < |words|
    ensures var c := |Windows(words, size, step, from)|;
      c >= 1 && from + ChunkStart(step, c - 1) < |words| <= from + ChunkStart(step, c)
    decreases |words| - from
  {
    var rest := Windows(words, size, step, from + step);
    assert |Windows(words, size, step, from)| == 1 + |rest|;
    if from + step < |words| {
      WindowsCount(words, size, step, from + step);
      StartStep(step, |rest| - 1);
      StartStep(step, |rest|);
    } else {
      assert rest == [];
      StartStep(step, 0);
    }
  }

  /** Window `j` from `from` on starts `j` steps after `from`. */
  lemma {:induction false} WindowAt(words: seq<string>, size: int, step: nat, from: nat, j: nat)
    requires step > 0
    requires j < |Windows(words, size, step, from)|
    ensures from + ChunkStart(step, j) < |words|
    ensures Windows(words, size, step, from)[j] == Window(words, from + ChunkStart(step, j), size)
    decreases j
  {
    if j > 0 {
      var rest := Windows(words, size, step, from + step);
      assert Windows(words, size, step, from)[j] == rest[j - 1];
      WindowAt(words, size, step, from + step, j - 1);
    }
  }

  /** A multiple `p` of the step is the start of chunk `p / step`. */
  lemma MultipleIsStart(step: nat, p: nat)
    requires step > 0 && p % step == 0
    ensures ChunkStart(step, p / step) == p
  {
    ChunkStartIsProduct(step, p / step);
    assert p == (p / step) * step + p % step;
  }

  /** Position `p` lies in the step that starts chunk `p / step`. */
  lemma StartOfQuotient(step: nat, p: nat)
    requires step > 0
    ensures ChunkStart(step, p / step) <= p < ChunkStart(step, p / step) + step
  {
    ChunkStartIsProduct(step, p / step);
    assert p == (p / step) * step + p % step;
  }

  /** The count `c` characterised by `WindowsCount` is `ceil(n / step)`. */
  lemma CeilingCount(n: nat, step: nat, c: nat)
    requires step > 0 && c >= 1
    requires ChunkStart(step, c - 1) < n <= ChunkStart(step, c)
    ensures c == (n + step - 1) / step
  {
    var q := (n + step - 1) / step;
    StartOfQuotient(step, n + step - 1);
    assert q >= 1;
    StartStep(step, q - 1);
    StartOrder(step, c - 1, q);
    StartOrder(step, q - 1, c);
  }

  /** A non-empty word list gives `ceil(n / step)` windows. */
  lemma WindowCountIsCeiling(words: seq<string>, size: int, step: nat)
    requires step > 0 && |words| >= 1
    ensures |Windows(words, size, step, 0)| == (|words| + step - 1) / step
  {
    WindowsCount(words, size, step, 0);
    CeilingCount(|words|, step, |Windows(words, size, step, 0)|);
  }

  /** Window `j` of a token list holds exactly the words from its start to
      its end: joining them and splitting again gives them back. */
  lemma WindowContents(words: seq<string>, size: int, step: nat, j: nat)
    requires IsTokenList(words)
    requires 0 < step <= size
    requires j < |Windows(words, size, step, 0)|
    ensures ChunkStart(step, j) < ChunkEnd(|words|, size, step, j)
    ensures ChunkEnd(|words|, size, step, j) - ChunkStart(step, j) <= size
    ensures Split(Windows(words, size, step, 0)[j])
      == words[ChunkStart(step, j)..ChunkEnd(|words|, size, step, j)]
  {
    WindowAt(words, size, step, 0, j);
    var lo, hi := ChunkStart(step, j), ChunkEnd(|words|, size, step, j);
    var part := words[lo..hi];
    assert WindowWords(words, lo, size) == part;
    assert Windows(words, size, step, 0)[j] == JoinWith(" ", part);
    SliceIsTokenList(words, lo, hi);
    SplitJoin(part);
  }

  /** The windows of a token list: `ceil(n / step)` of them, at least one,
      and window `j` holds exactly the words from its start to its end, at
      least one and at most `size` of them. */
  lemma WindowsLayout(words: seq<string>, size: int, step: nat)
    requires IsTokenList(words)
    requires 0 < step <= size
    ensures |Windows(words, size, step, 0)| == (|words| + step - 1) / step
    ensures |Windows(words, size, step, 0)| >= 1
    ensures forall j {:trigger Windows(words, size, step, 0)[j]} ::
      0 <= j < |Windows(words, size, step, 0)| ==>
        && ChunkStart(step, j) < ChunkEnd(|words|, size, step, j)
        && ChunkEnd(|words|, size, step, j) - ChunkStart(step, j) <= size
        && Split(Windows(words, size, step, 0)[j])
          == words[ChunkStart(step, j)..ChunkEnd(|words|, size, step, j)]
  {
    WindowsCount(words, size, step, 0);
    WindowCountIsCeiling(words, size, step);
    forall j | 0 <= j < |Windows(words, size, step, 0)|
      ensures ChunkStart(step, j) < ChunkEnd(|words|, size, step, j)
      ensures ChunkEnd(|words|, size, step, j) - ChunkStart(step, j) <= size
      ensures Split(Windows(words, size, step, 0)[j])
        == words[ChunkStart(step, j)..ChunkEnd(|words|, size, step, j)]
    {
      WindowContents(words, size, step, j);
    }
  }

  /** With `0 <= overlap < chunk_size`, `chunk_text` succeeds and returns
      the windows of the token list `Split` gives. */
  lemma ChunksAreWindows(text: string, size: int, overlap: int)
    requires 0 <= overlap < size
    ensures IsTokenList(Split(text))
    ensures Chunks(text, size, overlap) == Success(Windows(Split(text), size, size - overlap, 0))
  {
    SplitTokens(text);
  }

  /** Chunk `j` holds exactly the words `words[j*step : j*step + chunk_size]`
      (its text splits back into them), at least one and at most
      `chunk_size` of them; the chunk count is `ceil(n / step)`, and the
      text always gives at least one chunk, even when it is empty. */
  lemma ChunkContents(text: string, size: int, overlap: int)
    requires 0 <= overlap < size
    ensures Chunks(text, size, overlap).Success?
    ensures var chunks := Chunks(text, size, overlap).value;
      var words := Split(text);
      var step := size - overlap;
      && |chunks| == (|words| + step - 1) / step
      && |chunks| >= 1
      && forall j {:trigger chunks[j]} :: 0 <= j < |chunks| ==>
        && ChunkStart(step, j) < ChunkEnd(|words|, size, step, j)
        && ChunkEnd(|words|, size, step, j) - ChunkStart(step, j) <= size
        && Split(chunks[j]) == words[ChunkStart(step, j)..ChunkEnd(|words|, size, step, j)]
  {
    var words, step := Split(text), size - overlap;
    ChunksAreWindows(text, size, overlap);
    WindowsLayout(words, size, step);
    var chunks := Windows(words, size, step, 0);
    forall j | 0 <= j < |chunks|
      ensures Split(chunks[j]) == words[ChunkStart(step, j)..ChunkEnd(|words|, size, step, j)]
    {
    }
  }

  /** The count `c` of start offsets below `n`: every offset `j < c` lies
      below `n`, and every multiple of the step below `n` is one of them. */
  lemma StartsAreMultiples(n: nat, step: nat, count: nat)
    requires step > 0 && count >= 1
    requires ChunkStart(step, count - 1) < n <= ChunkStart(step, count)
    ensures forall j :: 0 <= j < count ==> ChunkStart(step, j) < n
    ensures forall p :: 0 <= p < n && p % step == 0 ==>
      p / step < count && ChunkStart(step, p / step) == p
  {
    forall j | 0 <= j < count ensures ChunkStart(step, j) < n {
      StartOrder(step, j, count - 1);
    }
    forall p | 0 <= p < n && p % step == 0
      ensures p / step < count && ChunkStart(step, p / step) == p
    {
      MultipleIsStart(step, p);
      StartOrder(step, p / step, count);
    }
  }

  /** The chunk start offsets are exactly the multiples of the step below
      the word count: `range(0, len(words), step)`. */
  lemma ChunkStartsAreMultiples(words: seq<string>, size: int, step: nat)
    requires 0 < step && |words| >= 1
    ensures var n, count := |words|, |Windows(words, size, step, 0)|;
      && (forall j :: 0 <= j < count ==> ChunkStart(step, j) < n)
      && (forall p :: 0 <= p < n && p % step == 0 ==>
            p / step < count && ChunkStart(step, p / step) == p)
  {
    WindowsCount(words, size, step, 0);
    StartsAreMultiples(|words|, step, |Windows(words, size, step, 0)|);
  }

  /** Every word lies in some chunk: word `p` falls in the word range of
      chunk `p / step` (whose words `ChunkContents` gives). */
  lemma ChunksCoverEveryWord(words: seq<string>, size: int, step: nat, p: nat)
    requires 0 < step <= size
    requires p < |words|
    ensures var j := p / step;
      && j < |Windows(words, size, step, 0)|
      && ChunkStart(step, j) <= p < ChunkEnd(|words|, size, step, j)
  {
    var j := p / step;
    var count := |Windows(words, size, step, 0)|;
    WindowsCount(words, size, step, 0);
    StartOfQuotient(step, p);
    StartOrder(step, j, count);
  }

  /** A chunk's word range is shorter than `chunk_size` exactly when it
      runs into the end of the words, and once one chunk is short every
      later chunk is too. More than one trailing chunk can be short when the
      overlap is positive (see `ExampleTwoShortChunks`). */
  lemma ShortChunksAreASuffix(n: nat, size: nat, step: nat, j: nat, k: nat)
    requires 0 < step <= size
    requires j <= k && ChunkStart(step, k) < n
    ensures ChunkEnd(n, size, step, j) - ChunkStart(step, j) < size <==> ChunkStart(step, j) + size > n
    ensures ChunkStart(step, j) + size > n ==> ChunkEnd(n, size, step, k) - ChunkStart(step, k) < size
  {
    StartOrder(step, j, k);
  }

  /** Two consecutive full-length chunks share exactly `overlap` words: the
      last `overlap` words of the first are the first `overlap` words of the
      second. */
  lemma ConsecutiveChunksOverlap(words: seq<string>, size: nat, overlap: nat, j: nat)
    requires overlap < size
    requires ChunkStart(size - overlap, j + 1) + size <= |words|
    ensures var step := size - overlap;
      var first := words[ChunkStart(step, j)..ChunkEnd(|words|, size, step, j)];
      var second := words[ChunkStart(step, j + 1)..ChunkEnd(|words|, size, step, j + 1)];
      && |first| == size && |second| == size
      && ChunkEnd(|words|, size, step, j) - ChunkStart(step, j + 1) == overlap
      && first[size - overlap..] == second[..overlap]
  {
    var step := size - overlap;
    StartStep(step, j);
    OverlappingSlices(words, ChunkStart(step, j), step, size);
  }

  /** Two slices of length `size` that start `step` apart share their last
      and first `size - step` elements. */
  lemma OverlappingSlices(words: seq<string>, lo: nat, step: nat, size: nat)
    requires step <= size && lo + step + size <= |words|
    ensures words[lo..lo + size][step..] == words[lo + step..lo + step + size][..size - step]
  {
    var first := words[lo..lo + size][step..];
    var second := words[lo + step..lo + step + size][..size - step];
    forall i | 0 <= i < size - step ensures first[i] == second[i] {
      assert first[i] == words[lo + step + i];
    }
  }

  /** A text that is one whitespace-free word is one chunk under the
      defaults the upload handlers use. */
  lemma OneWordOneChunk(w: string)
    requires NoSpace(w)
    ensures Chunks(w, DefaultChunkSize, DefaultOverlap) == Success([w])
  {
    SplitJoin([w]);
    assert Split(w) == [w];
    assert Window([w], 0, DefaultChunkSize) == w by {
      assert [w][0..1] == [w];
    }
    assert Windows([w], DefaultChunkSize, DefaultChunkSize - DefaultOverlap, 0) == [w];
  }

  /** The windows of `["a", "b", "c", "d", "e"]` with size 3 and step 2. */
  lemma ExampleWindows()
    ensures Windows(["a", "b", "c", "d", "e"], 3, 2, 0) == ["a b c", "c d e", "e"]
  {
    var words: seq<string> := ["a", "b", "c", "d", "e"];
    assert Window(words, 0, 3) == "a b c" by {
      assert words[0..3] == ["a", "b", "c"];
    }
    assert Window(words, 2, 3) == "c d e" by {
      assert words[2..5] == ["c", "d", "e"];
    }
    assert Window(words, 4, 3) == "e" by {
      assert words[4..5] == ["e"];
    }
    assert Windows(words, 3, 2, 4) == ["e"];
    assert Windows(words, 3, 2, 2) == ["c d e", "e"];
  }

  /** `chunk_text("a b c d e", 3, 1)` gives `["a b c", "c d e", "e"]`. */
  lemma ExampleChunks()
    ensures Chunks("a b c d e", 3, 1) == Success(["a b c", "c d e", "e"])
  {
    var words: seq<string> := ["a", "b", "c", "d", "e"];
    assert JoinWith(" ", words) == "a b c d e";
    SplitJoin(words);
    ExampleWindows();
  }

  /** The windows of `["a", "b", "c", "d"]` with size 3 and step 1. */
  lemma ExampleShortWindows()
    ensures Windows(["a", "b", "c", "d"], 3, 1, 0) == ["a b c", "b c d", "c d", "d"]
  {
    var words: seq<string> := ["a", "b", "c", "d"];
    assert Window(words, 0, 3) == "a b c" by {
      assert words[0..3] == ["a", "b", "c"];
    }
    assert Window(words, 1, 3) == "b c d" by {
      assert words[1..4] == ["b", "c", "d"];
    }
    assert Window(words, 2, 3) == "c d" by {
      assert words[2..4] == ["c", "d"];
    }
    assert Window(words, 3, 3) == "d" by {
      assert words[3..4] == ["d"];
    }
    assert Windows(words, 3, 1, 3) == ["d"];
    assert Windows(words, 3, 1, 2) == ["c d", "d"];
    assert Windows(words, 3, 1, 1) == ["b c d", "c d", "d"];
  }

  /** With `chunk_size = 3, overlap = 2` on four words, the last two chunks
      are both shorter than `chunk_size`. */
  lemma ExampleTwoShortChunks()
    ensures Chunks("a b c d", 3, 2) == Success(["a b c", "b c d", "c d", "d"])
  {
    var words: seq<string> := ["a", "b", "c", "d"];
    assert JoinWith(" ", words) == "a b c d";
    SplitJoin(words);
    ExampleShortWindows();
  }

  /** `chunk_text("")` gives one empty chunk: `re.split` returns `[""]`. */
  lemma ExampleEmptyText()
    ensures Chunks("", DefaultChunkSize, DefaultOverlap) == Success([""])
  {
    var words: seq<string> := [""];
    assert Split("") == words by {
      assert Word("") == "";
    }
    assert Window(words, 0, DefaultChunkSize) == "" by {
      assert words[0..Min(DefaultChunkSize, 1)] == words;
    }
    assert Windows(words, DefaultChunkSize, DefaultChunkSize - DefaultOverlap, 0) == [""];
  }
}
