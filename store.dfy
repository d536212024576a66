/** The `INDEX` and `CHUNKS` globals (main.py:37-38): replaced by the two
    upload handlers (main.py:105-110, 116-121) and read by `ask_question`
    up to the assembly of the context (main.py:129-139). The embedding
    service is a parameter: a function from texts to a matrix, or `None`
    where the call raises. */
module Store {
  import opened Wrappers
  import opened Strings
  import opened Chunker
  import opened VectorIndex
  import opened Retrieval
  import opened Numbers

  type Embedder = seq<string> -> Option<Matrix>

  /** The `k` that `ask_question` passes to `retrieve_top_k`. */
  const TopK: nat := 3

  /** The separator `ask_question` joins the retrieved chunks with. */
  const ContextSeparator: string := "\n\n"

  /** The error reply of `/ask` before any upload. */
  const NoDocumentMessage: string := "No document uploaded. Upload a .txt file first."

  /** What the source relies on from `create_embeddings`: when it returns,
      it returns one row per text, all of one width. */
  ghost predicate EmbedderContract(embed: Embedder) {
    forall texts :: embed(texts).Some? ==>
      WellShaped(embed(texts).value) && |embed(texts).value.rows| == |texts|
  }

  /** Why `/ask` or an upload gives no result. Only `NoDocument` is a reply
      of the source (main.py:131-132); the others are exceptions it lets
      propagate. */
  datatype StoreError =
    | NoDocument(message: string)   // the `{"error": ...}` reply
    | EmbeddingFailed               // `create_embeddings` raised
    | DimensionMismatch             // faiss refuses a query of another width
    | LabelOutOfRange               // `chunks[i]` raised `IndexError`

  /** What `/ask` has computed once the context is assembled: the positions
      retrieved, the chunks at them and their `"\n\n"`-join. */
  datatype Answer = Answer(positions: seq<int>, used: seq<string>, context: string)

  class RetrievalStore {
    /** `CHUNKS`. */
    var chunks: seq<string>
    /** `INDEX`; `null` is Python's `None`. */
    var index: FlatL2Index?
    /** The chunk texts the rows of `index` were embedded from. */
    ghost var embeddedFrom: seq<string>

    /** What every state the handlers reach keeps, a torn one included:
        the index, once there is one, holds vectors of its own dimension. */
    ghost predicate Sound()
      reads this, index
    {
      index != null ==> index.Valid()
    }

    /** Once there is an index, it holds one row per current chunk, and the
        ghost `embeddedFrom`, which records the texts the index was built
        from, is exactly the current chunks. That the rows are the
        embeddings of those texts is stated by the upload methods. */
    ghost predicate Valid()
      reads this, index
    {
      index != null ==>
        && index.Valid()
        && |index.vectors| == |chunks|
        && embeddedFrom == chunks
    }

    /** The module-level start: `INDEX = None`, `CHUNKS = []`. */
    constructor ()
      ensures Valid() && Sound()
      ensures chunks == [] && index == null
    {
      chunks := [];
      index := null;
      embeddedFrom := [];
    }

    /** `upload_file` / `upload_text` with the assignments in the order the
        source makes them: `CHUNKS` is replaced before the texts are
        embedded, so an embedding failure leaves the new chunks beside the
        old index. */
    method UploadAsWritten(text: string, embed: Embedder) returns (r: Result<nat, StoreError>)
      requires Sound() && EmbedderContract(embed)
      modifies this
      ensures Sound()
      ensures chunks == Chunks(text, DefaultChunkSize, DefaultOverlap).value
      ensures embed(chunks).None? ==>
        r == Failure(EmbeddingFailed) && index == old(index) && embeddedFrom == old(embeddedFrom)
      ensures embed(chunks).Some? ==>
        && r == Success(|chunks|) && Valid()
        && index != null && fresh(index)
        && index.dim == embed(chunks).value.dim && index.vectors == embed(chunks).value.rows
    {
      var c := ChunkText(text, DefaultChunkSize, DefaultOverlap);
      chunks := c.value;
      var e := embed(chunks);
      if e.None? {
        return Failure(EmbeddingFailed);
      }
      index := CreateIndex(e.value);
      embeddedFrom := chunks;
      return Success(|chunks|);
    }

    /** An upload that replaces `CHUNKS` and `INDEX` together: when the
        texts cannot be embedded nothing changes, and otherwise both are
        replaced (not extended) by the new text's chunks and their
        embeddings. */
    method Upload(text: string, embed: Embedder) returns (r: Result<nat, StoreError>)
      requires Valid() && EmbedderContract(embed)
      modifies this
      ensures Valid()
      ensures var cs := Chunks(text, DefaultChunkSize, DefaultOverlap).value;
        embed(cs).None? ==>
          r == Failure(EmbeddingFailed) && chunks == old(chunks) && index == old(index)
      ensures var cs := Chunks(text, DefaultChunkSize, DefaultOverlap).value;
        embed(cs).Some? ==>
          && r == Success(|cs|) && chunks == cs
          && index != null && fresh(index)
          && index.dim == embed(cs).value.dim && index.vectors == embed(cs).value.rows
    {
      var c := ChunkText(text, DefaultChunkSize, DefaultOverlap);
      var e := embed(c.value);
      if e.None? {
        return Failure(EmbeddingFailed);
      }
      var idx := CreateIndex(e.value);
      chunks, index := c.value, idx;
      embeddedFrom := chunks;
      return Success(|chunks|);
    }

    /** `ask_question` up to the context: with no index the "No document
        uploaded" reply and nothing else read; otherwise the question is
        embedded, the `min(3, n)` nearest chunks are retrieved nearest first
        and joined with `"\n\n"`. */
    method Ask(question: string, embed: Embedder) returns (r: Result<Answer, StoreError>)
      requires Valid() && EmbedderContract(embed)
      ensures index == null ==> r == Failure(NoDocument(NoDocumentMessage))
      ensures index != null && embed([question]).None? ==> r == Failure(EmbeddingFailed)
      ensures index != null && embed([question]).Some? && embed([question]).value.dim != index.dim ==>
        r == Failure(DimensionMismatch)
      ensures index != null && embed([question]).Some? && embed([question]).value.dim == index.dim ==>
        var q := embed([question]).value.rows[0];
        && r.Success?
        && Fits(index.vectors, q)
        && Ranked(index.vectors, q, r.value.positions)
        && |r.value.positions| == Min(TopK, |chunks|)
        && |r.value.used| == |r.value.positions|
        && (forall a :: 0 <= a < |r.value.used| ==> r.value.used[a] == chunks[r.value.positions[a]])
        && r.value.context == JoinWith(ContextSeparator, r.value.used)
    {
      if index == null {
        return Failure(NoDocument(NoDocumentMessage));
      }
      var e := embed([question]);
      if e.None? {
        return Failure(EmbeddingFailed);
      }
      if e.value.dim != index.dim {
        return Failure(DimensionMismatch);
      }
      var q := e.value.rows[0];
      var positions, top := RetrieveTopK(index, q, chunks, TopK);
      return Success(Answer(positions, top, JoinWith(ContextSeparator, top)));
    }

    /** `ask_question` up to the context, as written: on any store the
        handlers can reach, a torn one included. The search asks for
        `k = 3` labels whatever the index holds, and `CHUNKS` is indexed
        with each label as Python does, so a padding `-1` reads the last
        chunk and a label past the end of `CHUNKS` raises. */
    method AskAsWritten(question: string, embed: Embedder)
      returns (labels: seq<int>, r: Result<Answer, StoreError>)
      requires Sound() && EmbedderContract(embed)
      ensures index == null ==> r == Failure(NoDocument(NoDocumentMessage))
      ensures index != null && embed([question]).None? ==> r == Failure(EmbeddingFailed)
      ensures index != null && embed([question]).Some? && embed([question]).value.dim != index.dim ==>
        r == Failure(DimensionMismatch)
      ensures index != null && embed([question]).Some? && embed([question]).value.dim == index.dim ==>
        var q := embed([question]).value.rows[0];
        var n := |index.vectors|;
        && Fits(index.vectors, q)
        && |labels| == TopK
        && Ranked(index.vectors, q, labels[..Min(TopK, n)])
        && (forall a :: Min(TopK, n) <= a < TopK ==> labels[a] == -1)
        && (GatherAsWritten(chunks, labels).None? ==> r == Failure(LabelOutOfRange))
        && (GatherAsWritten(chunks, labels).Some? ==>
              var used := GatherAsWritten(chunks, labels).value;
              r == Success(Answer(labels, used, JoinWith(ContextSeparator, used))))
    {
      labels := [];
      if index == null {
        return labels, Failure(NoDocument(NoDocumentMessage));
      }
      var e := embed([question]);
      if e.None? {
        return labels, Failure(EmbeddingFailed);
      }
      if e.value.dim != index.dim {
        return labels, Failure(DimensionMismatch);
      }
      var q := e.value.rows[0];
      var top;
      labels, top := RetrieveTopKAsWritten(index, q, chunks, TopK);
      if top.None? {
        return labels, Failure(LabelOutOfRange);
      }
      return labels, Success(Answer(labels, top.value, JoinWith(ContextSeparator, top.value)));
    }
  }

  /** An embedder for the examples: each text becomes the one-component
      vector of its length, and the call fails on `["b"]` as a network
      error would. */
  function ExampleEmbedder(texts: seq<string>): (m: Option<Matrix>)
    ensures m.None? <==> texts == ["b"]
  {
    if texts == ["b"] then None
    else Some(Matrix(1, seq(|texts|, i requires 0 <= i < |texts| => [|texts[i]|])))
  }

  lemma ExampleEmbedderKeepsContract()
    ensures EmbedderContract(ExampleEmbedder)
  {
  }

  /** A failed upload after a successful one, in the source's order:
      `CHUNKS` holds the new text while `INDEX` still holds the vectors of
      the old one, so the store no longer pairs each chunk with its own
      embedding. */
  method TornUploadExample() returns (store: RetrievalStore)
    ensures store.chunks == ["b"] && store.embeddedFrom == ["a"]
    ensures store.index != null && !store.Valid()
  {
    ExampleEmbedderKeepsContract();
    OneWordOneChunk("a");
    OneWordOneChunk("b");
    store := new RetrievalStore();
    var r1 := store.UploadAsWritten("a", ExampleEmbedder);
    var r2 := store.UploadAsWritten("b", ExampleEmbedder);
  }

  /** The same two uploads through `Upload`: the failed one leaves the
      store as the first upload made it. */
  method AllOrNothingExample() returns (store: RetrievalStore)
    ensures store.chunks == ["a"] && store.Valid()
  {
    ExampleEmbedderKeepsContract();
    OneWordOneChunk("a");
    OneWordOneChunk("b");
    store := new RetrievalStore();
    var r1 := store.Upload("a", ExampleEmbedder);
    var r2 := store.Upload("b", ExampleEmbedder);
  }

  /** Uploading "a" and then "c": queries see only the chunks of "c", and
      the index holds their one vector, not the two of both uploads. */
  method UploadReplacesExample() returns (store: RetrievalStore)
    ensures store.chunks == ["c"] && store.index != null && |store.index.vectors| == 1
  {
    ExampleEmbedderKeepsContract();
    OneWordOneChunk("a");
    OneWordOneChunk("c");
    store := new RetrievalStore();
    var r1 := store.Upload("a", ExampleEmbedder);
    var r2 := store.Upload("c", ExampleEmbedder);
  }

  /** Upload "a", a failed upload of "b", then "c": the third upload
      repairs the torn store, which again pairs each chunk with its own
      embedding. */
  method TornThenRepairedExample() returns (store: RetrievalStore)
    ensures store.chunks == ["c"] && store.Valid()
  {
    ExampleEmbedderKeepsContract();
    OneWordOneChunk("a");
    OneWordOneChunk("b");
    OneWordOneChunk("c");
    store := new RetrievalStore();
    var r1 := store.UploadAsWritten("a", ExampleEmbedder);
    var r2 := store.UploadAsWritten("b", ExampleEmbedder);
    var r3 := store.UploadAsWritten("c", ExampleEmbedder);
  }

  /** A question before any upload gets the "No document uploaded" reply. */
  method AskBeforeUploadExample() returns (reply: string)
    ensures reply == NoDocumentMessage
  {
    ExampleEmbedderKeepsContract();
    var store := new RetrievalStore();
    var labels, r := store.AskAsWritten("what?", ExampleEmbedder);
    reply := r.error.message;
  }

  /** After uploading the one-word text "a", `/ask` as written retrieves
      its single chunk three times and builds the context from the three
      copies. */
  method AskRepeatsChunkExample() returns (context: string)
    ensures context == "a\n\na\n\na"
  {
    ExampleEmbedderKeepsContract();
    OneWordOneChunk("a");
    var store := new RetrievalStore();
    var r1 := store.UploadAsWritten("a", ExampleEmbedder);
    assert ExampleEmbedder(["q"]).Some? by {
      assert ["q"][0] != ["b"][0];
    }
    var labels, r := store.AskAsWritten("q", ExampleEmbedder);
    assert labels[..1] == [labels[0]];
    PaddingRepeatsLastChunk(["a"], labels, 1);
    assert Gather(["a"], labels[..1]) == ["a"];
    assert Repeat("a", 2) == ["a", "a"];
    assert ["a"] + ["a", "a"] == ["a", "a", "a"];
    assert r.value.used == ["a", "a", "a"];
    ThreeCopiesJoined();
    context := r.value.context;
  }

  lemma ThreeCopiesJoined()
    ensures JoinWith(ContextSeparator, ["a", "a", "a"]) == "a\n\na\n\na"
  {
    var three: seq<string> := ["a", "a", "a"];
    assert three[1..] == ["a", "a"];
    assert three[1..][1..] == ["a"];
  }
}
