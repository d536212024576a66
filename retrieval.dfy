/** `retrieve_top_k` (main.py:93-99): search the index for the query vector
    and map each label it returns back to the chunk text at that position. */
module Retrieval {
  import opened Wrappers
  import opened VectorIndex
  import opened Numbers

  /** The element Python's `xs[i]` reads in a list of length `n`: a negative
      index counts from the end, and anything outside `-n .. n-1` raises
      `IndexError`. */
  function PyIndex(n: nat, i: int): (r: Option<nat>)
    ensures r.Some? <==> -(n as int) <= i < n
    ensures r.Some? ==> r.value == i % n
  {
    if 0 <= i < n then Some(i)
    else if 0 <= n + i && i < 0 then Some(n + i)
    else None
  }

  /** `[chunks[i] for i in labels]` exactly as Python evaluates it, `None`
      standing for the `IndexError` it raises. */
  function GatherAsWritten(chunks: seq<string>, labels: seq<int>): (r: Option<seq<string>>)
    ensures r.Some? ==> |r.value| == |labels|
  {
    if labels == [] then Some([])
    else
      match PyIndex(|chunks|, labels[0])
      case None => None
      case Some(p) =>
        match GatherAsWritten(chunks, labels[1..])
        case None => None
        case Some(rest) => Some([chunks[p]] + rest)
  }

  /** The comprehension raises exactly when some label is outside
      `-n .. n-1`; otherwise element `a` of its result is the chunk Python's
      indexing reads for label `a`. */
  lemma {:induction false} GatherAsWrittenReads(chunks: seq<string>, labels: seq<int>)
    ensures GatherAsWritten(chunks, labels).None?
      <==> exists a :: 0 <= a < |labels| && PyIndex(|chunks|, labels[a]).None?
    ensures GatherAsWritten(chunks, labels).Some? ==>
      forall a :: 0 <= a < |labels| ==>
        GatherAsWritten(chunks, labels).value[a] == chunks[PyIndex(|chunks|, labels[a]).value]
  {
    if labels != [] {
      GatherAsWrittenReads(chunks, labels[1..]);
      var tail := labels[1..];
      if PyIndex(|chunks|, labels[0]).Some? {
        forall a | 1 <= a < |labels| ensures labels[a] == tail[a - 1] { }
      }
    }
  }

  /** The chunks at the given positions, in the order given. */
  function Gather(chunks: seq<string>, positions: seq<int>): (r: seq<string>)
    requires forall a :: 0 <= a < |positions| ==> 0 <= positions[a] < |chunks|
  {
    seq(|positions|, a requires 0 <= a < |positions| => chunks[positions[a]])
  }

  /** `n` copies of `x`. */
  function Repeat(x: string, n: nat): (r: seq<string>)
    ensures |r| == n
  {
    if n == 0 then [] else [x] + Repeat(x, n - 1)
  }

  /** On labels that are all valid positions the comprehension reads the
      chunk at each label, in order, and raises nothing. */
  lemma {:induction false} GatherAsWrittenOnPositions(chunks: seq<string>, labels: seq<int>)
    requires forall a :: 0 <= a < |labels| ==> 0 <= labels[a] < |chunks|
    ensures GatherAsWritten(chunks, labels) == Some(Gather(chunks, labels))
  {
    if labels != [] {
      GatherAsWrittenOnPositions(chunks, labels[1..]);
      assert Gather(chunks, labels) == [chunks[labels[0]]] + Gather(chunks, labels[1..]);
    }
  }

  /** The comprehension over a concatenation of labels is the
      concatenation of the comprehensions, when neither raises. */
  lemma {:induction false} GatherAsWrittenAppend(chunks: seq<string>, l1: seq<int>, l2: seq<int>)
    requires GatherAsWritten(chunks, l1).Some? && GatherAsWritten(chunks, l2).Some?
    ensures GatherAsWritten(chunks, l1 + l2)
      == Some(GatherAsWritten(chunks, l1).value + GatherAsWritten(chunks, l2).value)
  {
    if l1 == [] {
      assert l1 + l2 == l2;
      assert GatherAsWritten(chunks, l1).value == [];
      assert [] + GatherAsWritten(chunks, l2).value == GatherAsWritten(chunks, l2).value;
    } else {
      assert (l1 + l2)[1..] == l1[1..] + l2;
      GatherAsWrittenAppend(chunks, l1[1..], l2);
      var p := PyIndex(|chunks|, l1[0]).value;
      var tail1 := GatherAsWritten(chunks, l1[1..]).value;
      assert GatherAsWritten(chunks, l1).value == [chunks[p]] + tail1;
      assert GatherAsWritten(chunks, l1 + l2).value
        == [chunks[p]] + (tail1 + GatherAsWritten(chunks, l2).value);
      assert [chunks[p]] + (tail1 + GatherAsWritten(chunks, l2).value)
        == ([chunks[p]] + tail1) + GatherAsWritten(chunks, l2).value;
    }
  }

  /** Labels that are all `-1` read the last chunk every time. */
  lemma {:induction false} MinusOneReadsLastChunk(chunks: seq<string>, labels: seq<int>)
    requires |chunks| >= 1
    requires forall a :: 0 <= a < |labels| ==> labels[a] == -1
    ensures GatherAsWritten(chunks, labels) == Some(Repeat(chunks[|chunks| - 1], |labels|))
  {
    if labels != [] {
      MinusOneReadsLastChunk(chunks, labels[1..]);
    }
  }

  /** The `-1` labels faiss pads with when `k` exceeds the number of stored
      vectors are read by Python as "the last chunk": each padding label
      repeats `chunks[-1]` in the result instead of raising. */
  lemma PaddingRepeatsLastChunk(chunks: seq<string>, labels: seq<int>, m: nat)
    requires |chunks| >= 1 && m <= |labels|
    requires forall a :: 0 <= a < m ==> 0 <= labels[a] < |chunks|
    requires forall a :: m <= a < |labels| ==> labels[a] == -1
    ensures GatherAsWritten(chunks, labels)
      == Some(Gather(chunks, labels[..m]) + Repeat(chunks[|chunks| - 1], |labels| - m))
  {
    GatherAsWrittenOnPositions(chunks, labels[..m]);
    MinusOneReadsLastChunk(chunks, labels[m..]);
    GatherAsWrittenAppend(chunks, labels[..m], labels[m..]);
    assert labels[..m] + labels[m..] == labels;
  }

  /** `retrieve_top_k(index, q, chunks, k)` as written: the labels
      `index.search` returns (the `indices` row the source unpacks),
      padding included, and the comprehension's result over them. */
  method RetrieveTopKAsWritten(index: FlatL2Index, q: Vector, chunks: seq<string>, k: nat)
    returns (labels: seq<int>, r: Option<seq<string>>)
    requires index.Valid() && |q| == index.dim
    ensures Fits(index.vectors, q)
    ensures |labels| == k
    ensures Ranked(index.vectors, q, labels[..Min(k, |index.vectors|)])
    ensures forall a :: Min(k, |index.vectors|) <= a < k ==> labels[a] == -1
    ensures r == GatherAsWritten(chunks, labels)
  {
    labels := index.Search(q, k);
    r := GatherAsWritten(chunks, labels);
  }

  /** One stored chunk searched with the source's `k = 3`: the single chunk
      comes back three times. */
  method DuplicateChunkExample() returns (r: Option<seq<string>>)
    ensures r == Some(["only", "only", "only"])
  {
    var index := CreateIndex(Matrix(1, [[0]]));
    var labels;
    labels, r := RetrieveTopKAsWritten(index, [7], ["only"], 3);
    assert labels[..1] == [labels[0]];
    PaddingRepeatsLastChunk(["only"], labels, 1);
    assert Gather(["only"], labels[..1]) == ["only"];
    assert Repeat("only", 2) == ["only", "only"];
    assert |labels| - 1 == 2;
    assert r == Some(["only"] + ["only", "only"]);
    assert ["only"] + ["only", "only"] == ["only", "only", "only"];
  }

  /** `retrieve_top_k` with `k` clamped to the number of stored chunks: the
      `min(k, n)` nearest positions, nearest first, and the chunk at each,
      in that order. */
  method RetrieveTopK(index: FlatL2Index, q: Vector, chunks: seq<string>, k: nat)
    returns (positions: seq<int>, top: seq<string>)
    requires index.Valid() && |q| == index.dim
    requires |chunks| == |index.vectors|
    ensures Fits(index.vectors, q)
    ensures |positions| == Min(k, |chunks|) && Ranked(index.vectors, q, positions)
    ensures |top| == |positions|
    ensures forall a :: 0 <= a < |top| ==> top[a] == chunks[positions[a]]
  {
    var labels := index.Search(q, k);
    positions := labels[..Min(k, |chunks|)];
    top := Gather(chunks, positions);
  }

  /** Where the index holds at least `k` vectors, the source's retrieval
      and the clamped one read the same chunks: the search pads nothing,
      so every label is a valid position and no `chunks[-1]` occurs. */
  lemma ClampedAgreesWhenFull(vs: seq<Vector>, q: Vector, chunks: seq<string>, labels: seq<int>, k: nat)
    requires Fits(vs, q) && |chunks| == |vs| && k <= |vs|
    requires |labels| == k && Ranked(vs, q, labels[..Min(k, |vs|)])
    ensures GatherAsWritten(chunks, labels) == Some(Gather(chunks, labels[..Min(k, |chunks|)]))
  {
    assert labels[..Min(k, |vs|)] == labels;
    GatherAsWrittenOnPositions(chunks, labels);
  }
}
