# A verified model of the note store of `brain/storage.py`

`brain/storage.py` keeps free-text notes in an SQLite table `notes` with
columns id, parent_id, body, ts and emb. An FTS5 table `notes_fts` indexes the
bodies, and three triggers keep it in step with the table. An in-memory hnswlib
index holds the embeddings. The core is:
- `_normalize`, which lower-cases text and strips punctuation.
- `_chunk`, which splits a body into groups of at most 100 words.
- `add`, which stores the chunks of a body as linked rows and indexes their vectors.
- `_ensure_index`, which creates the vector index on first use and bulk-loads it from the rows already stored.
- `topk`, a hybrid lexical/vector lookup.
- `all_notes`, which lists the rows newest first.
- `delete`, which tombstones the vector and deletes the row.

The model has these modules:

- `Text`: `_normalize` and `_chunk` as functions on strings, with `str.split()` and `" ".join` written out.
- `Blob`: the float32-to-bytes encoding of the `emb` column, as `tobytes()` writes it and `np.frombuffer` reads it.
- `Ids`: the ascending-rowid order in which SQLite returns rows here. It provides the sorted sequence of a set of ids and `LIMIT`/slicing.
- `Hnsw`: the vector index as a value.
  - Its parts are the dimension, the vector of every label ever added, and the tombstone set.
  - It models `add_items`, `mark_deleted` and `knn_query`, with the `RuntimeError`s hnswlib raises.
  - The capacity is `max_elements=100_000`.
- `Lexical`: the FTS5 index as a map from rowid to indexed text, and the three triggers.
  - `MATCH ... LIMIT k` is modelled over an abstract match predicate.
  - It also holds the repair run at import time.
- `Storage`: the module's state (tables, FTS index, AUTOINCREMENT counter, `_DIM`, `_index`) as a datatype.
  - `_ensure_index`, `add` and `delete` are functions on that state.
  - Lemmas state what they do to it.
- `Retrieval`: `topk` and `all_notes` as functions of the state.
- `Store`: the class `NoteStore`, whose fields are that state.
  - Its constructor and methods do the work step by step, with loops for the bulk load and for the chunks of `add`.
  - Each one is proved to end in the state, and with the error, that the `Storage` function gives. Every lemma about the functions therefore holds of the object.

Three things from outside the file are parameters:
- the embedding backend (`embed`), applied to a normalised chunk;
- FTS5's `MATCH`, a predicate on (query, indexed text);
- hnswlib's graph walk (`search`), the order in which a query meets labels.

The timestamp `time.time()` is an argument of `add`. An exception is modelled as an error value returned with the state reached when it was raised:
- a row inserted before a failing `add_items` stays stored;
- `_DIM` set before a failing bulk load stays set.

What `topk` does not do:
- It does not fuse or rank scores. It takes the union of the two id sets, fetches those rows with `WHERE id IN (...)`, and keeps the first `k`. The model returns them in ascending id order.
- Its `lru_cache` is never cleared, not by `add` and not by `delete`.
- It never falls back to the timestamp-ordered listing.

## Model

| member | source | states |
|---|---|---|
| Text.Normalize | brain/storage.py:87-90 | the result is no longer than the input and contains only lower-case word characters and whitespace |
| Text.NormalizeFixesExactlyNormal | brain/storage.py:87-90 | normalising leaves a text unchanged if and only if it contains only lower-case word characters and whitespace |
| Text.NormalizeIdempotent | brain/storage.py:87-90 | normalising twice gives the same text as normalising once |
| Text.Chunk | brain/storage.py:93-99 | `_chunk`. Its shape is stated by Text.ChunkShape: the text whole when it has at most m words, otherwise ceil(n/m) space-joined groups of 1..m words that hold the text's words in order |
| Text.Join | brain/storage.py:99 | `" ".join`. Text.WordsOfJoin states that splitting the joined text gives back exactly the words joined |
| Text.Words | brain/storage.py:94 | `split()` yields non-empty words without whitespace. Text.WordsKeepText and Text.WordsCountRuns state that they hold exactly the text's non-whitespace characters, one word per maximal run |
| Text.WordsKeepText | brain/storage.py:94 | the words of `split()`, written one after the other, are the text's non-whitespace characters in order |
| Text.WordsCountRuns | brain/storage.py:94 | `split()` yields one word per maximal run of non-whitespace characters |
| Text.WordsOfJoin | brain/storage.py:99 | splitting the space-joined words of a chunk gives back exactly those words |
| Text.ChunksKeepText | brain/storage.py:93-99 | the words of all chunks, written one after the other, are the text's non-whitespace characters in order |
| Text.ChunkShape | brain/storage.py:93-99 | a text of at most m words is one chunk equal to the text. A longer text becomes ceil(n/m) chunks of 1..m words each, and the chunks' word lists concatenated are the text's words in order |
| Blob.Encode | brain/storage.py:112 | the blob of a vector has four bytes per element |
| Blob.DecodeEncode | brain/storage.py:82 | reading a blob written by `tobytes()` gives back the vector |
| Blob.EncodeDecode | brain/storage.py:82 | every blob of a length divisible by four is the encoding of the vector read from it |
| Hnsw.Empty | brain/storage.py:76-77 | a new index has the given dimension and no elements |
| Hnsw.Count | brain/storage.py:153 | `get_current_count()` counts every label ever added. Hnsw.MarkDeleted states that a tombstone keeps the count, and Hnsw.AddItem that only a new label raises it |
| Hnsw.Live | brain/storage.py:154 | the labels a query can return: those added and not tombstoned. Hnsw.AddItem adds the label to them and Hnsw.MarkDeleted removes it |
| Hnsw.TakeLive | brain/storage.py:154 | the labels `knn_query` keeps from the graph walk are live and at most k |
| Hnsw.AddItem | brain/storage.py:120 | succeeds if and only if the vector has the index's dimension and the label is present or a slot is free. Otherwise it raises the dimension or capacity error. On success the label maps to the vector, its tombstone is cleared, and it becomes live |
| Hnsw.MarkDeleted | brain/storage.py:181 | succeeds if and only if the label is live. Otherwise it raises "already deleted" for a tombstoned label and "not found" for an unknown one. On success only the tombstone set changes, and the count keeps the tombstoned element |
| Hnsw.Knn | brain/storage.py:154 | a query vector of the wrong dimension raises. A successful query returns exactly k live labels, and any other failure is "too few results" |
| Hnsw.KnnNeedsLiveLabels | brain/storage.py:153-154 | asking for more labels than are live always raises |
| Lexical.AfterInsert | brain/storage.py:36-42 | the insert trigger adds the new rowid with its body and keeps every other entry |
| Lexical.AfterDelete | brain/storage.py:44-52 | the delete trigger removes exactly the deleted rowid and keeps every other entry |
| Lexical.AfterUpdate | brain/storage.py:54-63 | the update trigger leaves the id indexed with the new body and keeps every other entry |
| Lexical.UpdateTriggerKeepsSync | brain/storage.py:54-63 | the update trigger keeps the index equal to the body column |
| Lexical.Search | brain/storage.py:162-164 | MATCH ... LIMIT k returns at most k ascending ids whose text matches. A matching id is missing only when k smaller matching ids were returned |
| Lexical.RepairAsWrittenIsNoOp | brain/storage.py:65-66 | the repair as written never changes the full-text index |
| Lexical.RepairAsWrittenMissesEmptyIndex | brain/storage.py:65-66 | one stored note with an empty full-text index stays out of sync after the repair as written |
| Lexical.Repair | brain/storage.py:65-66 | the corrected repair refills an empty index so that it equals the body column, and leaves a non-empty one alone |
| Storage.Opened | brain/storage.py:65-69 | the state after import with the corrected repair: the rows and counter as stored, no index, `_DIM` 0. An empty full-text index comes out equal to the body column, and a non-empty one is kept |
| Storage.OpenedState | brain/storage.py:65-69 | the state after import with the corrected repair is well formed, and an empty full-text index agrees with the table |
| Storage.InsertNote | brain/storage.py:113-116 | an insert takes the next AUTOINCREMENT id, adds exactly that row, and the trigger indexes its body |
| Storage.RemoveNote | brain/storage.py:182 | `DELETE ... WHERE id=?` removes exactly that row, when it exists, and the delete trigger drops its text. Every other row, the counter and the vector index are unchanged |
| Storage.RowVector | brain/storage.py:81-82 | a blob of `_DIM * 4` bytes decodes to a vector of `_DIM` elements |
| Storage.BulkLoad | brain/storage.py:79-83 | the loaded index holds exactly the rows whose blob is `dim * 4` bytes long, under their ids, with their decoded vectors and no tombstones. Its only possible error is the capacity error |
| Storage.BulkLoadFits | brain/storage.py:79-83 | the bulk load succeeds if and only if the loadable rows fit in 100 000 slots |
| Storage.EnsureIndex | brain/storage.py:72-84 | rows, FTS index and counter are untouched and the state invariant is kept. Success always leaves an index in place |
| Storage.EnsureIndexBindsOnce | brain/storage.py:72-84 | with an index present nothing changes. Without one, `_DIM` becomes the given dimension, and it succeeds if and only if the loadable rows fit. The new index holds exactly the stored rows with a `dim * 4`-byte blob, with their decoded vectors. After a failed load the index stays None |
| Storage.Embedding | brain/storage.py:107-108 | the vector of a chunk is the backend's output on its normalised text. Storage.EmbeddingOfNormalized states that it depends only on that normal form |
| Storage.EmbeddingOfNormalized | brain/storage.py:106-108 | a chunk and its normalisation get the same vector |
| Storage.Stored | brain/storage.py:106-110 | the chunks that get stored are those whose embedding is non-empty, each as many times as it occurs among the chunks, and no others |
| Storage.AddChunk | brain/storage.py:106-120 | one iteration of the loop. Storage.AddChunksNothingStored states that a chunk with an empty embedding changes nothing, and Storage.AddWritesLinkedRows and Storage.AddIndexesStoredChunks state what a stored one adds |
| Storage.StoreChunk | brain/storage.py:112-120 | the insert, the `parent` update and `add_items` for one chunk. Storage.AddWritesLinkedRows states the linked rows, and Storage.StoredRowsReadBack that each new row's vector is the one its blob decodes to |
| Storage.AddChunks | brain/storage.py:104-120 | the loop over the chunks, ending at the first error. Store.AddChunksStops states that later chunks are not looked at, and Store.AddChunksKeepWf that every state it reaches keeps the invariant |
| Storage.Add | brain/storage.py:102-120 | `add(body)`. Storage.AddWritesLinkedRows, Storage.AddKeepsIndex, Storage.AddKeepsSync, Storage.AddIndexesStoredChunks and Storage.AddChunksErrors state the rows, index, full-text index and errors it leaves |
| Storage.AddWritesLinkedRows | brain/storage.py:102-119 | `add` keeps the invariant and adds only rows with fresh ids, changing no old row. The first new row has no parent and every later one has the first row's id as parent. All share the call's timestamp and have a non-empty embedding stored as its `4 * size`-byte encoding |
| Storage.AddKeepsIndex | brain/storage.py:102-120 | with an index in place, `add` keeps its dimension, its tombstones and every vector it held |
| Storage.AddKeepsSync | brain/storage.py:36-42 | the insert trigger keeps the full-text index equal to the body column across `add` |
| Storage.AddIndexesStoredChunks | brain/storage.py:102-120 | when `add` returns normally, the new rows hold the stored chunks in order, one row per chunk. Each row is live in the index under its id with its chunk's embedding, and its blob reads back as that vector |
| Storage.StoredRowsReadBack | brain/storage.py:112-120 | the vector a new row has in the index is the one its blob decodes to |
| Storage.AddShortBody | brain/storage.py:93-120 | a body of at most 100 words becomes one row equal to the body with no parent, or no row at all when its embedding is empty |
| Storage.AddChunksNothingStored | brain/storage.py:106-110 | when every chunk's embedding is empty, `add` changes nothing: no row, no index, no `_DIM` |
| Storage.AddChunksErrors | brain/storage.py:111-120 | `add` raises only the dimension error or the capacity error |
| Storage.AddBindsDimension | brain/storage.py:111 | without an index, the first stored chunk fixes `_DIM` at its embedding's size. The new index then holds exactly the old rows whose blob has that size |
| Storage.Delete | brain/storage.py:179-183 | `delete` keeps the state invariant |
| Storage.DeleteOutcome | brain/storage.py:179-183 | `delete` fails if and only if an index exists and does not hold the id live. Then nothing changes and the error is "already deleted" or "not found". Otherwise exactly that row is gone, the counter is kept, and the label is tombstoned but keeps its slot |
| Storage.DeleteKeepsSync | brain/storage.py:44-52 | the delete trigger keeps the full-text index equal to the body column |
| Storage.DeleteRefusesUnindexedRow | brain/storage.py:180-181 | with an index present, a stored row without a label cannot be deleted: the call raises "not found" and the row stays |
| Retrieval.LexicalIds | brain/storage.py:159-164 | the lexical candidates are at most k ids whose indexed text matches the normalised query, and there are none when the query normalises to "". An indexed id whose text matches is missing only when k smaller ids came back |
| Retrieval.VectorIds | brain/storage.py:149-157 | the vector candidates are live labels. There are none when the query embedding does not have `_DIM` elements; otherwise there are none or exactly min(k, count) |
| Retrieval.Candidates | brain/storage.py:132-166 | the ids `topk` looks up hold every lexical candidate. Any other id is a live label of an existing index |
| Retrieval.Fetch | brain/storage.py:170-172 | at most k rows, in ascending id order, each a stored candidate with its own body |
| Retrieval.TopK | brain/storage.py:130-172 | at most k hits, ascending by id, each a stored row with its body whose id came from the vector or the lexical search |
| Retrieval.FetchComplete | brain/storage.py:170-172 | a stored candidate is left out only when k rows with smaller ids were returned |
| Retrieval.TopKComplete | brain/storage.py:166-172 | a stored candidate missing from the result means k hits with smaller ids came back. With k > 0 the result is non-empty whenever some candidate is stored |
| Retrieval.TopKFindsMatches | brain/storage.py:130-172 | with the full-text index in sync, a stored note whose body matches the non-empty normalised query is returned unless k hits with smaller ids came back |
| Retrieval.TopKEmptyWithoutCandidates | brain/storage.py:166-168 | with no stored candidate the result is empty |
| Retrieval.LexicalFallback | brain/storage.py:132-145 | without an index, or with an empty one, every hit's body matches the normalised query, and a query that normalises to "" returns nothing |
| Retrieval.HybridHits | brain/storage.py:147-172 | in the hybrid branch every hit matches lexically, or is live in the index and the query embedding has `_DIM` elements |
| Retrieval.TombstonesSilenceVectorSearch | brain/storage.py:150-157 | with fewer live labels than min(k, count), the vector search raises, the error is swallowed, and only lexical candidates remain |
| Retrieval.DeleteHidesFromTopK | brain/storage.py:179-183 | after a successful `delete(nid)`, a `topk` computed on the new state does not return nid |
| Retrieval.CandidatesAsWritten | brain/storage.py:155-171 | as written, only lexical ids reach the rows, and in the hybrid branch none of them is a label the vector search returned |
| Retrieval.TopKAsWritten | brain/storage.py:130-172 | as written, every hit is a stored row among the lexical candidates |
| Retrieval.TopKAsWrittenDropsVectorHits | brain/storage.py:155-171 | a label the vector search returns is a stored note that `TopK` returns unless k smaller hits came back, but `topk` as written never returns it |
| Retrieval.TopKAsWrittenMissesSharedHit | brain/storage.py:155-171 | with note 5 "fox" live in the index, the query "fox", k = 4 and a vector search that meets label 5, `topk` as written returns no row, where `TopK` returns note 5 |
| Retrieval.InsertRow | brain/storage.py:176 | inserting a row into a list sorted by timestamp, newest first, keeps it sorted and adds exactly that row |
| Retrieval.SortRows | brain/storage.py:176 | the rows for the given ids, sorted newest first, one per id |
| Retrieval.AllNotes | brain/storage.py:175-176 | the listing is sorted by timestamp, newest first |
| Retrieval.AllNotesListsEveryRow | brain/storage.py:175-176 | every stored row appears exactly once with its own columns, in non-increasing timestamp order |
| Store.NoteStore.Open | brain/storage.py:65-69 | the object starts in the state of the corrected import (`Storage.Opened`), well formed, with an empty full-text index refilled from the rows |
| Store.NoteStore.EnsureIndex | brain/storage.py:72-84 | the method keeps the invariant and ends in the state `_ensure_index` specifies, with its error |
| Store.LoadRows | brain/storage.py:79-83 | the bulk-load loop computes exactly the bulk-load result |
| Store.NoteStore.Add | brain/storage.py:102-120 | the method ends in the state and with the error `add` specifies, and keeps the invariant |
| Store.NoteStore.AddOneChunk | brain/storage.py:106-120 | one iteration of the loop does what one step of `add` specifies |
| Store.NoteStore.StoreOneChunk | brain/storage.py:112-120 | storing a chunk inserts the row, links it and indexes its vector as specified |
| Store.NoteStore.Delete | brain/storage.py:179-183 | the method keeps the invariant and ends in the state and with the error `delete` specifies |
| Store.BulkLoadStaysFailed | brain/storage.py:80-83 | once `add_items` raises in the bulk load, later rows do not matter |
| Store.AddChunksKeepWf | brain/storage.py:104-120 | every state the loop of `add` reaches keeps the invariant |
| Store.AddChunksStops | brain/storage.py:120 | an exception ends `add`: later chunks are not looked at |

## Left out

- SQL text, connections (`get_conn`), `commit` and transactions. The tables are maps, and each statement and its trigger take effect together.
- AUTOINCREMENT is modelled as a counter that only grows. The ids of rows deleted before import are not modelled beyond the counter given to the constructor.
- The `lru_cache` on `_embed` and on `topk`: `TopK` is a function of the current state. The cache can return a stale result after `add` or `delete`, and the model does not show this.
- Floating-point values: a vector element is its 32-bit pattern. Similarity, the graph and `ef`/`M` are hidden in the `search` parameter, and `knn_query`'s scores are dropped because `topk` ignores them.
- FTS5 tokenising, query syntax and ranking are the `matches` parameter. A `MATCH` query that is a syntax error (an `sqlite3.OperationalError`) is not modelled.
- The order of the rows of `WHERE id IN (...)` and of `MATCH ... LIMIT` is taken to be ascending rowid. The order of rows with equal `ts` in `all_notes` is taken to be ascending id.
- `_normalize` uses ASCII case mapping. A word character is an ASCII letter, digit or `_`, or any non-ASCII character that is not whitespace. Unicode's own categories and case mappings are not modelled.
- `_chunk`'s `max_words` is fixed at 100, which is all `add` uses. A zero `max_words` (Python's `range` raises) is out of scope because `Chunk` requires `m > 0`.
- Negative `k` is not modelled (`k` is a `nat`). Python's slicing with a negative bound has no counterpart.
- Failures of the embedding backend (`embed` raising) and exceptions other than hnswlib's `RuntimeError`s are not modelled.
- Retrieval.TopK, Retrieval.TopKComplete, Retrieval.TopKFindsMatches, Retrieval.HybridHits: describe `topk` with the labels of `knn_query` bound as integer ids, the evidently intended behaviour. As written, the labels are NumPy integers that `sqlite3` binds as BLOBs, so vector hits never reach the rows; Retrieval.TopKAsWritten models that (see Findings).
- Store.NoteStore.Open, Storage.Opened: model the import with the corrected repair `Lexical.Repair`. As written, lines 65-66 leave an empty full-text index empty (see Findings), so on such a database `MATCH` finds nothing where the model's index holds every body.
- Thread safety of the shared `_index`, and the per-thread connections.
- Lexical.AfterDelete: drops the rowid's entry whatever body the trigger passes. FTS5's `'delete'` command with a body that differs from the indexed one does not cleanly remove the entry. That happens only when an imported, non-empty index disagrees with `notes`, and the model does not show what FTS5 then holds.
- The UPDATE trigger is modelled by `Lexical.AfterUpdate` and its sync lemma, but no operation of the core issues an UPDATE.
- `brain/llm.py`, the Flask front end, the GUI and the CLI are not part of this model.

## Findings

| source | as written | input that shows it | evidently intended | confidence | as-written member | corrected member |
|---|---|---|---|---|---|---|
| brain/storage.py:65-66 | `COUNT(*)` on the external-content FTS5 table scans the content table, so it counts the rows of `notes`, not the index's entries. The refill therefore runs only when `notes` is empty, and then inserts nothing | a database holding one note whose `notes_fts` index is empty, e.g. written before the triggers existed | refill the full-text index from `notes` whenever the index is empty | medium, not executed | Lexical.RepairAsWrittenMissesEmptyIndex | Lexical.Repair |
| brain/storage.py:155-171 | `knn_query` returns NumPy `uint64` labels, and `emb_ids.union(fts_ids)` keeps the NumPy element for an id both searches found. `sqlite3` binds such an object as an 8-byte BLOB, which equals no integer id, so `WHERE id IN (...)` matches only lexical ids the vector search did not return | note 5 "fox" live in the index, the query "fox", `k` = 4, and a vector search that returns label 5: the code finds no row | bind the labels as integers, so every candidate id that is a stored row can be returned | medium, not executed | Retrieval.TopKAsWrittenMissesSharedHit | Retrieval.TopK |
