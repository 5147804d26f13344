# Knowledge-base chunking, indexing and chat handler — a Dafny model

This project models two parts of a small retrieval-augmented chat system.

* **The offline indexer** (`scripts/build_vectors.py`). `chunk_text` splits a
  document into whitespace-separated words. It takes windows of up to
  `chunk_size` words, each starting `chunk_size - overlap` words after the last,
  and joins each window with single spaces. `build` keeps the `.txt` entries of
  the knowledge-base listing and chunks each file with the defaults (500 words,
  overlap 50). It inserts one `(source, chunk_text, embedding)` row per chunk, and
  publishes the table only when at least one `.txt` file was found.
* **The `/chat` route** (`bedrock-chat-app/app.py`). It validates the request
  body and sends the message to knowledge-base retrieval. From the results it
  builds a context of numbered snippets, `"\n[i] text"` numbered from 1. It sends
  either the bare message or a `"User question: …"` prompt to the model, then
  extracts the first text block of the answer, falling back to
  `'No response generated'`. Any exception of either remote call becomes a
  `BadRequestError("Error: …")`. The `/` route returns `{'hello': 'world'}`.

Modules:

* `Words` (`words.dfy`): Python's `str.split()` and `" ".join`.
* `Chunker` (`chunker.dfy`): `chunk_text` as a method with a loop. It is proved
  against the recursive `Chunks`, and the properties of chunks are proved about
  that function.
* `Indexer` (`indexer.dfy`): the filter and the row plan of `build`, as a method
  with nested loops. It is proved against `Rows`.
* `Numerals` (`numerals.dfy`): `str(i)` for the context tags.
* `ChatApp` (`chat.dfy`): the handler, the context builder, the prompt, reply
  extraction and error mapping.
* `Wrappers` (`wrappers.dfy`): `Option` and `Result`.
* `Seqs` (`seqs.dfy`): two facts about sequence concatenation that the proofs share.

The retrieval call and the `converse` call are inputs of the model. Each is a
function from its request to either a response or the text of the exception it
raises. The embedding call of the indexer is an input as well, a total function
from a chunk's text to its vector.

Behaviour of the code worth noting:

* **Chunk count.** The chunk loop walks `range(0, L, step)`, so `L` words give
  `ceil(L / step)` chunks (`ChunkCount`). With the defaults, a text of 451 to 500
  words gives two chunks, not one, and the second lies entirely inside the first
  (`DefaultsOn460Words`, `TrailingChunkInsidePrevious`).
* **Body check.** `not request.json_body` rejects every falsy body with "Request
  body is required", not only an absent one: `{}`, `[]`, `0`, `false`, `""`.
* **Non-object body.** A truthy body that is not an object (a list, a string, a
  number, `true`) makes `.get` raise outside the `try`. The route then fails
  with a server error rather than a client error (`InternalError` in `Chat`).
* **Non-string message.** A truthy message that is not a string fails the
  client's parameter validation inside the `try`. No request is sent, and the
  route answers `"Error: …"` with that exception's text.

## Model

| member | source | states |
|---|---|---|
| `Words.Split` | scripts/build_vectors.py:22 | every word `split()` produces is non-empty and contains no whitespace |
| `Words.SplitKeepsVisible` | scripts/build_vectors.py:22 | splitting loses exactly the whitespace: the words glued back together are the text's non-whitespace characters, in order |
| `Words.SplitAtSpace` | scripts/build_vectors.py:22 | every whitespace character (space, tab, newline and the others `str.isspace()` accepts) separates words: the words of `a + [c] + b` are those of `a` followed by those of `b` |
| `Words.SplitWord` | scripts/build_vectors.py:22 | a single word with no whitespace around it splits into itself; with `SplitAtSpace` this fixes the split of every text |
| `Words.SplitBlank` | scripts/build_vectors.py:22 | a text has no words exactly when it is empty or all whitespace |
| `Words.JoinKeepsVisible` | scripts/build_vectors.py:25 | joining with single spaces adds only whitespace: the joined text's non-whitespace characters are those of the words, in order |
| `Words.JoinEmpty` | scripts/build_vectors.py:25-26 | a space-joined list of words is the empty string exactly when the list is empty, so `if chunk` only drops empty windows |
| `Words.SplitJoin` | scripts/build_vectors.py:22-25 | round trip: splitting the space-joined words gives back the same words |
| `Chunker.SliceIsRun` | scripts/build_vectors.py:25 | `words[i:i + chunk_size]` is the run of elements from `i`, ending at `i + chunk_size` clamped to the length, or counted from the end when negative; empty when that end is not after `i` |
| `Chunker.ChunkText` | scripts/build_vectors.py:21-28 | for a positive stride the loop returns exactly `Chunks` of the split text; for a negative stride it returns no chunks; a zero stride is refused, as `range` raises |
| `Chunker.StartKeepsChunk` | scripts/build_vectors.py:25-26 | from a start below the word count the slice `words[i:i+chunk_size]` is a window of at least one word, and its join is kept by the guard |
| `Chunker.ChunkLoopKeepsEveryWindow` | scripts/build_vectors.py:24-27 | the guarded loop appends every window from its current start on, so its result is what was collected plus all the remaining joined windows |
| `Chunker.ChunkAt` | scripts/build_vectors.py:24-25 | chunk `k` exists iff `k * step` is below the word count, and then it is the join of the window starting at `k * step` |
| `Chunker.ChunkCount` | scripts/build_vectors.py:24 | with `n` chunks, `(n - 1) * step < L <= n * step`, i.e. `n = ceil(L / step)`; no words means no chunks and a non-empty text gives at least one |
| `Chunker.ChunkIsWindow` | scripts/build_vectors.py:25-27 | chunk `k` is the join of the window at `k * step`; splitting it gives that window back; it holds between 1 and `chunk_size` words |
| `Chunker.Coverage` | scripts/build_vectors.py:24-25 | with a non-negative overlap, every word `j` lies inside chunk `j / step` |
| `Chunker.LastChunkReachesEnd` | scripts/build_vectors.py:24-25 | with a non-negative overlap, the last chunk runs to the final word of the text |
| `Chunker.OverlapShared` | scripts/build_vectors.py:24-25 | when chunk `k` is full and chunk `k + 1` exists, the last `overlap` words of chunk `k` are the first `overlap` words of chunk `k + 1` |
| `Chunker.TrailingChunkInsidePrevious` | scripts/build_vectors.py:24-27 | when the previous chunk already reaches the last word, chunk `k` is a tail of chunk `k - 1` and adds no new word |
| `Chunker.DefaultsOn460Words` | scripts/build_vectors.py:21-28 | with the defaults, 460 words give two chunks: the first holds all the words, the second holds words 450 to 459 |
| `Indexer.TextFiles` | scripts/build_vectors.py:45 | the kept entries are exactly the listing's entries whose name ends in `.txt`; a one-entry listing is kept iff its name ends in `.txt` |
| `Indexer.TextFilesAppend` | scripts/build_vectors.py:45 | filtering keeps order and multiplicity: the filter of two consecutive runs is the filter of the first followed by that of the second |
| `Indexer.FileRows` | scripts/build_vectors.py:61-66 | one row per chunk, in chunk order, each holding the file name, the chunk and the chunk's embedding |
| `Indexer.Build` | scripts/build_vectors.py:45-76 | the rows inserted are those of `Rows` for the `.txt` files in listing order; the table is published iff there is at least one `.txt` file |
| `Indexer.RowsAppend` | scripts/build_vectors.py:51-66 | the rows of two consecutive runs of files are the rows of the first run followed by those of the second |
| `Indexer.RowCount` | scripts/build_vectors.py:58-66 | the number of rows is the sum of the files' chunk counts |
| `Indexer.RowAt` | scripts/build_vectors.py:51-66 | chunk `k` of file `j` is the row at position (chunks of files before `j`) + `k`, and it holds the file's name, that chunk and its embedding |
| `Indexer.RowOrigin` | scripts/build_vectors.py:51-66 | every row comes from some chunk of some file, with that file's name, and its embedding is that chunk's |
| `Indexer.RowsOnlyFromTextFiles` | scripts/build_vectors.py:45-66 | every row's source name ends in `.txt` |
| `Numerals.Decimal` | bedrock-chat-app/app.py:76 | `str(i)` is a non-empty string of decimal digits with no leading zero (except `"0"`) |
| `Numerals.DecimalRoundTrip` | bedrock-chat-app/app.py:76 | parsing the rendered number gives the number back |
| `Numerals.DecimalInjective` | bedrock-chat-app/app.py:76 | two numbers are rendered alike iff they are equal |
| `ChatApp.FalsyValues` | bedrock-chat-app/app.py:38-43 | `not x` holds exactly for null, `false`, zero, `""`, `[]` and `{}` |
| `ChatApp.MessageOf` | bedrock-chat-app/app.py:41 | `.get('message')` gives the field's value, or null (which is falsy) when the field is missing |
| `ChatApp.ResultText` | bedrock-chat-app/app.py:75 | a result's snippet is its content's text, and `""` when the content or its text is missing |
| `ChatApp.Tag` | bedrock-chat-app/app.py:76 | the label of entry `i` is a newline and `[`, then `str(i)`, then `] `, and the digits between the brackets read back as `i` |
| `ChatApp.TagsDistinct` | bedrock-chat-app/app.py:74-76 | two entries carry the same label iff they have the same number |
| `ChatApp.Entry` | bedrock-chat-app/app.py:76 | an entry is the label of its number followed by exactly the snippet |
| `ChatApp.Context` | bedrock-chat-app/app.py:72-76 | the context is empty iff there are no results |
| `ChatApp.BuildContext` | bedrock-chat-app/app.py:72-76 | the loop builds exactly the context of the response's results, and the empty string when the key is missing |
| `ChatApp.ContextLists` | bedrock-chat-app/app.py:74-76 | the first `k` entries are followed by the entry numbered `k + 1`, holding result `k`'s text: every result is listed, in order, numbered from 1 |
| `ChatApp.Prompt` | bedrock-chat-app/app.py:79 | the prompt is the bare message iff the context is empty; otherwise it is the "User question / Relevant context" text ending with the context |
| `ChatApp.PromptBareIffNothingRetrieved` | bedrock-chat-app/app.py:72-79 | the bare message is sent iff retrieval returned no results or no `retrievalResults` key |
| `ChatApp.ExtractReply` | bedrock-chat-app/app.py:104-108 | the reply is the text of the first content block when output, message, a non-empty content list and that text all exist; otherwise `'No response generated'` |
| `ChatApp.ReplyOfAnswer` | bedrock-chat-app/app.py:104-108 | for an answer whose first block has text `t`, the extracted text is `t`, whatever blocks follow |
| `ChatApp.ReplyOnlyFromAnswer` | bedrock-chat-app/app.py:105-108 | text is extracted iff the response has the shape of such an answer |
| `ChatApp.ErrorResponse` | bedrock-chat-app/app.py:114-119 | an exception becomes a 400 whose message is `"Error: "` followed by the exception's text |
| `ChatApp.Chat` | bedrock-chat-app/app.py:35-119 | falsy body, non-object body, falsy message and non-string message are each answered as the code does, without any remote call; a valid message is retrieved first, then the prompt built from the retrieved context is sent; an error of either call gives `"Error: " + text` and stops; success is `{'response': reply}` after exactly two calls |
| `ChatApp.Index` | bedrock-chat-app/app.py:122-124 | the `/` route returns the object `{'hello': 'world'}` |

## Left out

- Configuration values (`config.py`: region, knowledge-base id, model id, temperature, latency, result count) are not part of this model. They only parameterise the remote calls, which are inputs here.
- Client construction (`boto3.client`, app.py lines 46-55) is assumed to succeed. A failure there would escape the `try`.
- Chalice's JSON decoding is not modelled: the handler receives an already decoded body, or `JNull` for none. A body that is not valid JSON is rejected by the framework.
- Logging (`app.log.error`) and every `print` of the indexer are left out as output only.
- File system and database effects are abstracted to their result: the table is a sequence of rows, and `uploaded` says whether the upload call is made. These include removing the old database, creating the table, reading files as UTF-8, `json.dumps` of vectors, the per-file `commit` and the S3 upload.
- Indexer.Build: the embedding call is a total function. An embedding or read failure aborts the script after earlier files were committed; that partial table is not modelled.
- Embedding vectors are an opaque type parameter: floating point is not modelled.
- `os.listdir` order is taken as given: the listing is an input sequence.
- Response shapes use `Option` for absent keys. A key present with a JSON `null` value or a value of the wrong type (e.g. a null `text`, which would put `None` into the context or return `{"response": null}`) is not represented.
- `JNumber` holds a mathematical real, so the truthiness of a NaN body value is not modelled.
- The retriever's own cosine similarity and top-K selection are not part of this model. The chat handler uses the managed retrieval call, which is an input.
- `chunk_text` with non-integer sizes is not modelled. `ChunkText` covers every integer pair with a non-zero stride, but the chunk lemmas assume a positive stride.
- Chunker.StartKeepsChunk, ChunkLoopKeepsEveryWindow, ChunkAt, ChunkCount and ChunkIsWindow also assume `chunk_size >= 1`. A non-positive chunk size with a negative overlap (e.g. `chunk_text(t, -1, -5)`, whose first chunk is `words[0:-1]`) still has a positive stride, and `ChunkText` follows it through Python's negative slice end, but no lemma describes its chunks.
- Chunker.Coverage, LastChunkReachesEnd, OverlapShared and TrailingChunkInsidePrevious also assume a non-negative overlap, because a stride longer than the window leaves gaps.
