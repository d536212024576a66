# Retrieval core of the Gemini RAG workshop backend

This project models the retrieval pipeline of `main.py` in Dafny and proves
properties of it:

- `chunk_text` splits an uploaded text on runs of whitespace and cuts the
  words into overlapping windows (`Chunker`, on top of `Strings`).
- `create_faiss_index` builds a `faiss.IndexFlatL2` from the chunk
  embeddings (`VectorIndex`).
- `retrieve_top_k` searches that index and maps the labels back to chunk
  texts (`Retrieval`).
- The two module-level globals `INDEX` and `CHUNKS` are replaced by the
  upload handlers and read by `/ask` up to the assembly of the
  `"\n\n"`-joined context (`Store`).

The embedding service is a parameter of the model: a function from a list
of texts to a matrix, or to nothing where the call raises.

Edge cases of the code that the model keeps:

- An empty text gives one empty chunk: `re.split` returns `[""]` for it
  (main.py:46), and `range(0, 1, step)` makes one chunk of it.
- Several trailing chunks can be shorter than `chunk_size` when the
  overlap is positive (main.py:49-50; `Chunker.ExampleTwoShortChunks`).
- `chunk_size == overlap` raises, because `range` refuses a zero step, and
  `overlap > chunk_size` gives no chunks at all (main.py:49). Neither
  parameter is validated.
- Neither upload handler checks the number of chunks or of embeddings
  (main.py:108-110, 119-121). A failed upload can leave the store
  half-replaced (see Findings).

## Model

| member | source | states |
|---|---|---|
| Strings.Split | main.py:46 | `re.split(r"\s+", text)` returns at least one token, so even the empty text has one. |
| Strings.SplitTokens | main.py:46 | No token holds whitespace, and only the first or last token may be empty. The first token is empty exactly when the text is empty or starts with whitespace, and likewise for the last token at the end. |
| Strings.SplitRebuildsText | main.py:46 | The text is its tokens with non-empty all-whitespace gaps between them: `re.split` cuts at whitespace runs and nowhere else, and drops nothing else. |
| Strings.SplitWeave | main.py:46 | Conversely, any token list joined with non-empty whitespace gaps splits back into exactly that list. With `SplitRebuildsText`, this fixes the tokens of every text. |
| Strings.JoinWithEnds | main.py:50 | `sep.join(parts)` starts with the first part and ends with the last. |
| Strings.SplitJoin | main.py:46-50 | Splitting the space-join of any token list gives that list back: a chunk's text splits into exactly the words it was made from. |
| Chunker.Window | main.py:50 | For a non-negative `chunk_size`, chunk `i` is the space-join of the at most `chunk_size` words from position `i`. |
| Chunker.Windows | main.py:49-51 | The loop appends no chunk once its start is past the last word. Otherwise it appends at least one chunk and no more than the words left. |
| Chunker.Chunks | main.py:42-52 | `chunk_text` fails exactly when `chunk_size == overlap` (zero range step). With a negative step it returns no chunks. |
| Chunker.ChunkText | main.py:42-52 | Splitting the text and then running the loop over `range(0, len(words), step)` returns exactly the chunk list `Chunks` defines, or the zero-step failure. |
| Chunker.AppendChunks | main.py:48-51 | The loop appends one chunk per start `0, step, 2*step, ...` below the word count, and its result is exactly that window sequence. |
| Chunker.WindowsLayout | main.py:49-51 | The number of windows is `ceil(n / step)` and at least one. Window `j` splits back into `words[j*step : j*step + chunk_size]` (clamped to `n`), which holds between 1 and `chunk_size` words. |
| Chunker.ChunkContents | main.py:46-51 | The same layout stated on the chunks of a text. The count is `ceil(len(words) / step)` and at least one. Chunk `j` holds exactly the words from `j*step` to `min(j*step + chunk_size, n)`, and at least one of them. |
| Chunker.ChunkStartsAreMultiples | main.py:49 | The start offsets of the chunks are exactly the multiples of `chunk_size - overlap` below the word count. |
| Chunker.ChunksCoverEveryWord | main.py:49-50 | Every word position `p` lies inside the word range of chunk `p / step`. |
| Chunker.ShortChunksAreASuffix | main.py:50 | A chunk is shorter than `chunk_size` exactly when its window runs past the last word. Every chunk after a short one is short too. |
| Chunker.ConsecutiveChunksOverlap | main.py:49-50 | Two consecutive full chunks share exactly `overlap` words: the last `overlap` of the first are the first `overlap` of the second. |
| Chunker.OneWordOneChunk | main.py:42-52 | A whitespace-free text is one chunk, itself, under the defaults 500/50. |
| Chunker.ExampleChunks | main.py:42-52 | `chunk_text("a b c d e", 3, 1) == ["a b c", "c d e", "e"]`. |
| Chunker.ExampleTwoShortChunks | main.py:42-52 | `chunk_text("a b c d", 3, 2) == ["a b c", "b c d", "c d", "d"]`: the last two chunks are both short. |
| Chunker.ExampleEmptyText | main.py:46-51 | `chunk_text("") == [""]`. |
| VectorIndex.SqDist | main.py:88 | The `IndexFlatL2` metric, the squared Euclidean distance, is never negative. |
| VectorIndex.SqDistZero | main.py:88 | The L2 distance of two vectors is zero exactly when they are equal. |
| VectorIndex.FlatL2Index.constructor | main.py:88 | `IndexFlatL2(dim)` is empty and has that dimension. |
| VectorIndex.FlatL2Index.Add | main.py:89 | `index.add` appends the matrix rows after the stored vectors when the widths agree. Otherwise it refuses the matrix and changes nothing. |
| VectorIndex.FlatL2Index.Search | main.py:98 | `index.search(q, k)` returns `k` labels. The first `min(k, n)` are the nearest positions, nearest first, with ties to the lower position. Every omitted position is no nearer. The remaining `k - n` labels are `-1`. |
| VectorIndex.RankedByDistance | main.py:98 | Along a search result, the distance to the query never decreases. |
| VectorIndex.RankingUnique | main.py:98 | Two rankings of the same length are equal, so the search has exactly one correct answer. |
| VectorIndex.ExactMatchComesFirst | main.py:98 | When a stored vector equals the query, the first label is an exact match at the earliest such position. |
| VectorIndex.FullRankingCoversAll | main.py:98 | A ranking as long as the index lists every stored position. |
| VectorIndex.CreateIndex | main.py:83-90 | `create_faiss_index` returns a fresh index whose dimension is the matrix width. It holds one vector per row, in order. |
| Retrieval.PyIndex | main.py:99 | Python's `chunks[i]` raises `IndexError` exactly when `i` lies outside `-n .. n-1`. Otherwise it reads position `i mod n`, Python's `i % n` for a list of length `n`. |
| Retrieval.GatherAsWritten | main.py:99 | `[chunks[i] for i in labels]`: when it does not raise, it has one element per label. |
| Retrieval.GatherAsWrittenReads | main.py:99 | The comprehension raises exactly when some label is outside `-n .. n-1`. Otherwise element `a` is the chunk Python's indexing reads for label `a`. |
| Retrieval.GatherAsWrittenOnPositions | main.py:99 | On labels that are all valid positions, the comprehension reads the chunk at each label in order and raises nothing. |
| Retrieval.PaddingRepeatsLastChunk | main.py:98-99 | The `-1` padding labels are read as `chunks[-1]`. The result is the ranked chunks followed by `k - n` copies of the last chunk. |
| Retrieval.RetrieveTopKAsWritten | main.py:93-99 | `retrieve_top_k` as written returns the comprehension over all `k` labels, padding included. |
| Retrieval.DuplicateChunkExample | main.py:93-99 | With one stored chunk and `k = 3`, `retrieve_top_k` returns that chunk three times. |
| Retrieval.RetrieveTopK | main.py:93-99 | The corrected retrieval returns the `min(k, n)` nearest positions, ranked, and the chunk at each position in that order. |
| Retrieval.ClampedAgreesWhenFull | main.py:98-99 | When there are as many chunks as vectors and at least `k` of them, every label the search returns is a valid position. The as-written comprehension then raises nothing and returns the corrected retrieval's chunks. |
| Store.RetrievalStore.constructor | main.py:37-38 | The process starts with `INDEX = None` and `CHUNKS = []`. |
| Store.RetrievalStore.UploadAsWritten | main.py:105-121 | Either upload handler, as written, on any reachable store, a torn one included. `CHUNKS` is replaced first. If embedding fails, `INDEX` keeps the old vectors. Otherwise `INDEX` is a fresh index of the new embeddings, one per chunk. |
| Store.RetrievalStore.Upload | main.py:105-121 | The corrected upload is all-or-nothing. A failure leaves `CHUNKS` and `INDEX` as they were. A success replaces both (it does not extend them), with one vector per chunk. The store invariant is kept. |
| Store.RetrievalStore.AskAsWritten | main.py:129-139 | `/ask` as written, on any reachable store, a torn one included. With no index it gives the "No document uploaded" reply. Otherwise the search asks for 3 labels. The comprehension raises `IndexError` exactly when a label is out of range, and otherwise the context is the `"\n\n"`-join of the chunks it read, padding copies included. |
| Store.RetrievalStore.Ask | main.py:129-139 | The corrected `/ask` on a consistent store. With no index it gives the "No document uploaded" reply. Otherwise the context joins, with `"\n\n"`, the `min(3, n)` nearest chunks to the embedded question, nearest first. |
| Store.TornUploadExample | main.py:108-121 | Upload "a", then an upload of "b" whose embedding fails: `CHUNKS == ["b"]` while `INDEX` still holds the vectors of "a". |
| Store.TornThenRepairedExample | main.py:108-121 | A third, successful upload of "c" after the torn one leaves `CHUNKS == ["c"]` and a consistent store. |
| Store.AllOrNothingExample | main.py:108-121 | The same two uploads through `Upload` leave `CHUNKS == ["a"]`, and the store stays consistent. |
| Store.UploadReplacesExample | main.py:108-121 | Uploading "a" and then "c" leaves only the chunk of "c", and the index holds exactly one vector. |
| Store.AskBeforeUploadExample | main.py:131-132 | A question before any upload gets the exact reply `"No document uploaded. Upload a .txt file first."`. |
| Store.AskRepeatsChunkExample | main.py:135-139 | After uploading the one-word text "a", `/ask` as written builds the context `"a\n\na\n\na"` from three copies of the one chunk. |

## Left out

- HTTP routing, CORS, the request file read and its UTF-8 decoding (main.py:103-107), and the response dictionaries (main.py:112, 123). An upload returns its chunk count instead.
- `create_embeddings` and the Gemini client (main.py:21-25, 56-79) are not part of this model. The embedding service is an `Embedder` parameter. `EmbedderContract` states what the source relies on from it: one row per text, all of one width.
- The prompt, the generation call and the answer (main.py:140 onward).
- float32 arithmetic. Vectors have exact integer components, so distances carry no rounding.
- The order faiss gives to equal distances is not specified. The model puts the lower position first.
- The `distances` array of `index.search` is not returned, since the source discards it.
- Non-ASCII whitespace. Python's `\s` on `str` also matches Unicode spaces such as U+00A0; the model recognises only ASCII whitespace.
- Concurrency between the asynchronous handlers. Each handler runs as one atomic step.
- The two handlers `upload_file` (main.py:104-112) and the second `upload_file` (main.py:115-123) run the same three statements once they have their text. Each of `UploadAsWritten` and `Upload` stands for both.
- Store.RetrievalStore.Ask: builds the context with the corrected `Retrieval.RetrieveTopK`, and is stated only on a consistent store. The as-written `/ask`, on a torn store too, is `Store.RetrievalStore.AskAsWritten`.
- Store.RetrievalStore.UploadAsWritten: an exception from the embedding call, which propagates in Python, is modelled as the `EmbeddingFailed` result. Likewise, in `AskAsWritten`, the `IndexError` becomes `LabelOutOfRange` and the faiss dimension assertion becomes `DimensionMismatch`.
- Strings.JoinWith carries no contract of its own. Its properties are stated by `JoinWithEnds` and by its inverse, `SplitJoin`.

## Findings

| source | as written | input that shows it | evidently intended | confidence | as-written member | corrected member |
|---|---|---|---|---|---|---|
| main.py:98-99 | faiss fills the labels it cannot fill with `-1`, and `chunks[-1]` reads the last chunk | one uploaded chunk, any question, `k = 3` | the `min(k, n)` nearest distinct chunks | not executed | Retrieval.DuplicateChunkExample | Retrieval.RetrieveTopK |
| main.py:108-121 | `CHUNKS` is assigned before the texts are embedded, in both upload handlers (main.py:108-110 and 119-121) | upload "a", then upload "b" with an embedding call that raises | a failed upload leaves the previous chunks and index in place | not executed | Store.TornUploadExample | Store.RetrievalStore.Upload |
