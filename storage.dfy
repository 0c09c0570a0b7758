/**
 * The write side of `brain/storage.py` as functions of the module's state: the
 * `notes` table (a map from id to row), the FTS5 index kept by the triggers,
 * SQLite's AUTOINCREMENT counter, and the two globals `_DIM` and `_index`.
 * The class `Store.NoteStore` runs these steps in place; the lemmas here state
 * what they promise.
 */
module Storage {
  import opened Wrappers
  import opened Blob
  import opened Text
  import Hnsw
  import Lexical
  import Ids

  /**
   * The `emb` column: NULL, a BLOB, or some other SQLite value (SQLite does not
   * hold a column to its declared type).
   */
  datatype EmbCell = NoEmbedding | Bytes(bytes: seq<Byte>) | OtherValue

  /** A row of `notes`; its id is its key in the table. `ts` is `time.time()` at insertion. */
  datatype Note = Note(parentId: Option<nat>, body: string, ts: real, emb: EmbCell)

  /**
   * The whole state: the `notes` table, the FTS5 index, the largest id handed
   * out so far (AUTOINCREMENT's `sqlite_sequence` entry), `_DIM`, and `_index`
   * (None until the first embedding is seen).
   */
  datatype State = State(
    notes: map<nat, Note>,
    fts: Lexical.FtsIndex,
    lastId: nat,
    dim: nat,
    index: Option<Hnsw.Index>)

  /** A state after a call that may raise: what was done up to the error, and the error. */
  datatype Step = Step(st: State, err: Option<Hnsw.IndexError>)

  /**
   * What holds of every state the module reaches: no id above the counter
   * (ids are never reused), an index whose dimension is `_DIM`, and only live
   * notes among the index's live labels.
   */
  ghost predicate Wf(s: State)
  {
    && (forall id :: id in s.notes ==> id <= s.lastId)
    && (forall id :: id in s.fts ==> id <= s.lastId)
    && (s.index.Some? ==>
          && Hnsw.Wf(s.index.value)
          && s.index.value.dim == s.dim
          && (forall id :: id in s.index.value.labels ==> id <= s.lastId)
          && Hnsw.Live(s.index.value) <= s.notes.Keys)
  }

  /** The `body` column. */
  function Bodies(notes: map<nat, Note>): map<nat, string>
  {
    map id | id in notes :: notes[id].body
  }

  /** The FTS5 index matches the `body` column. */
  ghost predicate InSync(s: State)
  {
    Lexical.InSync(Bodies(s.notes), s.fts)
  }

  /**
   * The state right after the module is imported on an existing database file,
   * with the corrected repair of an empty full-text index (`Lexical.Repair`).
   */
  function Opened(rows: map<nat, Note>, ftsIndex: Lexical.FtsIndex, lastId: nat): (r: State)
    ensures r.notes == rows && r.lastId == lastId && r.dim == 0 && r.index.None?
    ensures |ftsIndex| == 0 ==> InSync(r)
    ensures |ftsIndex| != 0 ==> r.fts == ftsIndex
  {
    State(rows, Lexical.Repair(Bodies(rows), ftsIndex), lastId, 0, None)
  }

  /** Opening repairs an empty full-text index and starts with no vector index and `_DIM` 0. */
  lemma OpenedState(rows: map<nat, Note>, ftsIndex: Lexical.FtsIndex, lastId: nat)
    requires forall id :: id in rows ==> id <= lastId
    requires forall id :: id in ftsIndex ==> id <= lastId
    ensures Wf(Opened(rows, ftsIndex, lastId))
    ensures |ftsIndex| == 0 ==> InSync(Opened(rows, ftsIndex, lastId))
  {
  }

  // ---------------------------------------------------------------------------
  // Rows

  /**
   * `INSERT INTO notes(parent_id, body, ts, emb)`: AUTOINCREMENT hands out the
   * next id, and trigger `notes_ai` indexes the body.
   */
  function InsertNote(s: State, parent: Option<nat>, body: string, ts: real, emb: EmbCell): (r: State)
    ensures r.lastId == s.lastId + 1
    ensures r.notes == s.notes[r.lastId := Note(parent, body, ts, emb)]
    ensures r.fts == Lexical.AfterInsert(s.fts, r.lastId, body)
    ensures r.dim == s.dim && r.index == s.index
  {
    var nid := s.lastId + 1;
    s.(notes := s.notes[nid := Note(parent, body, ts, emb)],
       fts := Lexical.AfterInsert(s.fts, nid, body),
       lastId := nid)
  }

  /** `DELETE FROM notes WHERE id=?`, with trigger `notes_ad` when a row was deleted. */
  function RemoveNote(s: State, nid: nat): (r: State)
    ensures r.notes.Keys == s.notes.Keys - {nid}
    ensures forall id :: id in r.notes ==> r.notes[id] == s.notes[id]
    ensures nid in s.notes ==> r.fts == Lexical.AfterDelete(s.fts, nid, s.notes[nid].body)
    ensures nid !in s.notes ==> r.fts == s.fts
    ensures r.lastId == s.lastId && r.dim == s.dim && r.index == s.index
  {
    if nid in s.notes then
      s.(notes := s.notes - {nid}, fts := Lexical.AfterDelete(s.fts, nid, s.notes[nid].body))
    else s
  }

  // ---------------------------------------------------------------------------
  // _ensure_index

  /** A row the bulk load takes: a BLOB of exactly `dim * 4` bytes. */
  predicate Loadable(notes: map<nat, Note>, id: nat, dim: nat)
  {
    id in notes && notes[id].emb.Bytes? && |notes[id].emb.bytes| == dim * 4
  }

  /** `np.frombuffer(blob, dtype="float32")` for a loadable row. */
  function RowVector(notes: map<nat, Note>, id: nat, dim: nat): (v: seq<F32>)
    requires Loadable(notes, id, dim)
    ensures |v| == dim
  {
    var b := notes[id].emb.bytes;
    assert |b| % 4 == 0 by { assert |b| == 4 * dim; }
    Decode(b)
  }

  function LoadableIds(notes: map<nat, Note>, dim: nat, n: nat): set<nat>
  {
    set id | id in notes.Keys && id < n && Loadable(notes, id, dim)
  }

  /**
   * The bulk-load loop of `_ensure_index` over the rows with id below `n`, in id
   * order: each loadable row's blob is decoded and added under its id. It fails
   * exactly when there are more loadable rows than the index has room for.
   */
  function BulkLoad(notes: map<nat, Note>, dim: nat, n: nat): (r: Result<Hnsw.Index, Hnsw.IndexError>)
    ensures r.Err? ==> r.error == Hnsw.IndexFull
    ensures r.Ok? ==> LoadedFrom(r.value, notes, dim, n)
    decreases n
  {
    if n == 0 then
      assert LoadableIds(notes, dim, 0) == {};
      Ok(Hnsw.Empty(dim))
    else
      var id := n - 1;
      match BulkLoad(notes, dim, id)
      case Err(e) => Err(e)
      case Ok(ix) =>
        LoadStep(notes, dim, id, ix);
        if Loadable(notes, id, dim) then Hnsw.AddItem(ix, RowVector(notes, id, dim), id)
        else Ok(ix)
  }

  /** `ix` holds exactly the loadable rows below `n`, under their ids, with no tombstone. */
  ghost predicate LoadedFrom(ix: Hnsw.Index, notes: map<nat, Note>, dim: nat, n: nat)
  {
    && Hnsw.Wf(ix) && ix.dim == dim && ix.deleted == {}
    && (forall id: nat :: id in ix.labels <==> id < n && Loadable(notes, id, dim))
    && (forall id :: id in ix.labels ==> Loadable(notes, id, dim) && ix.labels[id] == RowVector(notes, id, dim))
  }

  /** One row of the bulk load. */
  lemma LoadStep(notes: map<nat, Note>, dim: nat, id: nat, ix: Hnsw.Index)
    requires LoadedFrom(ix, notes, dim, id)
    ensures var r := if Loadable(notes, id, dim) then Hnsw.AddItem(ix, RowVector(notes, id, dim), id) else Ok(ix);
            && (r.Err? ==> r.error == Hnsw.IndexFull)
            && (r.Ok? ==> LoadedFrom(r.value, notes, dim, id + 1))
  {
    if Loadable(notes, id, dim) {
      var v := RowVector(notes, id, dim);
      var r := Hnsw.AddItem(ix, v, id);
      assert id !in ix.labels;
      if r.Ok? {
        var ix' := r.value;
        assert ix'.labels == ix.labels[id := v] && ix'.deleted == {};
        forall j | j in ix'.labels ensures Loadable(notes, j, dim) && ix'.labels[j] == RowVector(notes, j, dim) {
          if j != id {
            assert j in ix.labels;
          }
        }
      }
    }
  }

  lemma LoadableIdsStep(notes: map<nat, Note>, dim: nat, id: nat)
    ensures LoadableIds(notes, dim, id + 1) ==
            LoadableIds(notes, dim, id) + (if Loadable(notes, id, dim) then {id} else {})
    ensures id !in LoadableIds(notes, dim, id)
  {
  }

  /** The bulk load fails exactly when there are more loadable rows than the index has room for. */
  lemma {:induction false} BulkLoadFits(notes: map<nat, Note>, dim: nat, n: nat)
    ensures BulkLoad(notes, dim, n).Ok? <==> |LoadableIds(notes, dim, n)| <= Hnsw.MaxElements
    decreases n
  {
    if n == 0 {
      assert LoadableIds(notes, dim, 0) == {};
    } else {
      var id := n - 1;
      LoadableIdsStep(notes, dim, id);
      BulkLoadFits(notes, dim, id);
      var prev := BulkLoad(notes, dim, id);
      if prev.Ok? {
        LoadedCount(prev.value, notes, dim, id);
      } else {
        assert |LoadableIds(notes, dim, id)| > Hnsw.MaxElements;
        Ids.SubsetCard(LoadableIds(notes, dim, id), LoadableIds(notes, dim, n));
      }
    }
  }

  lemma LoadedCount(ix: Hnsw.Index, notes: map<nat, Note>, dim: nat, n: nat)
    requires LoadedFrom(ix, notes, dim, n)
    ensures Hnsw.Count(ix) == |LoadableIds(notes, dim, n)|
  {
    assert ix.labels.Keys == LoadableIds(notes, dim, n);
  }

  /**
   * `_ensure_index(dim)`: when there is no index yet, set `_DIM`, create the
   * index and bulk-load the stored rows; otherwise do nothing. If the bulk load
   * raises, `_DIM` is already set and `_index` stays None.
   */
  function EnsureIndex(s: State, dim: nat): (r: Step)
    ensures r.err.None? ==> r.st.index.Some?
    ensures r.st.notes == s.notes && r.st.fts == s.fts && r.st.lastId == s.lastId
    ensures Wf(s) ==> Wf(r.st)
  {
    if s.index.Some? then Step(s, None)
    else
      var s1 := s.(dim := dim);
      match BulkLoad(s.notes, dim, s.lastId + 1)
      case Err(e) => Step(s1, Some(e))
      case Ok(ix) => Step(s1.(index := Some(ix)), None)
  }

  /**
   * The dimension is bound once: with an index in place nothing changes; without
   * one, `_DIM` becomes `dim` and the new index holds exactly the stored rows
   * whose blob is `dim * 4` bytes long, with the vectors decoded from them,
   * unless those rows do not fit.
   */
  lemma EnsureIndexBindsOnce(s: State, dim: nat)
    requires Wf(s)
    ensures s.index.Some? ==> EnsureIndex(s, dim) == Step(s, None)
    ensures s.index.None? ==> EnsureIndex(s, dim).st.dim == dim
    ensures s.index.None? ==>
              (EnsureIndex(s, dim).err.None? <==> |LoadableIds(s.notes, dim, s.lastId + 1)| <= Hnsw.MaxElements)
    ensures s.index.None? && EnsureIndex(s, dim).err.None? ==>
              var ix := EnsureIndex(s, dim).st.index.value;
              && ix.dim == dim && ix.deleted == {}
              && (forall id :: id in s.notes ==> (id in ix.labels <==> Loadable(s.notes, id, dim)))
              && (forall id :: id in ix.labels ==> ix.labels[id] == RowVector(s.notes, id, dim))
    ensures s.index.None? && EnsureIndex(s, dim).err.Some? ==> EnsureIndex(s, dim).st.index.None?
  {
    BulkLoadFits(s.notes, dim, s.lastId + 1);
  }

  // ---------------------------------------------------------------------------
  // add

  /** The state of the loop in `add`: the state so far, `parent`, and the error that ended the loop, if any. */
  datatype AddRun = AddRun(st: State, parent: Option<nat>, err: Option<Hnsw.IndexError>)

  /** The vector `add` computes for a chunk: the embedding of its normalised text. */
  function Embedding(embed: string -> seq<F32>, chunk: string): seq<F32>
  {
    embed(Normalize(chunk))
  }

  /**
   * The embedding depends only on the normalised text: a chunk and its
   * normalisation get the same vector.
   */
  lemma EmbeddingOfNormalized(embed: string -> seq<F32>, chunk: string)
    ensures Embedding(embed, Normalize(chunk)) == Embedding(embed, chunk)
  {
    NormalizeIdempotent(chunk);
  }

  /** One iteration of the loop in `add`, for one chunk. */
  function AddChunk(run: AddRun, chunk: string, ts: real, embed: string -> seq<F32>): AddRun
  {
    var vec := Embedding(embed, chunk);
    if |vec| == 0 then run
    else
      var e := EnsureIndex(run.st, |vec|);
      if e.err.Some? then AddRun(e.st, run.parent, e.err)
      else StoreChunk(AddRun(e.st, run.parent, None), chunk, ts, vec)
  }

  /**
   * The rest of the iteration once the index exists: insert the row (the trigger
   * indexes its text), remember the first id as `parent`, then add the vector
   * under the new id. If `add_items` raises, the row is already stored.
   */
  function StoreChunk(run: AddRun, chunk: string, ts: real, vec: seq<F32>): AddRun
    requires run.st.index.Some?
  {
    var s1 := InsertNote(run.st, run.parent, chunk, ts, Bytes(Encode(vec)));
    var parent := if run.parent.None? then Some(s1.lastId) else run.parent;
    match Hnsw.AddItem(run.st.index.value, vec, s1.lastId)
    case Err(x) => AddRun(s1, parent, Some(x))
    case Ok(ix) => AddRun(s1.(index := Some(ix)), parent, None)
  }

  /** The loop of `add` over `chunks`, stopping at the first error. */
  function AddChunks(s: State, chunks: seq<string>, ts: real, embed: string -> seq<F32>): AddRun
    decreases |chunks|
  {
    if chunks == [] then AddRun(s, None, None)
    else
      var run := AddChunks(s, chunks[..|chunks| - 1], ts, embed);
      if run.err.Some? then run else AddChunk(run, chunks[|chunks| - 1], ts, embed)
  }

  /** `add(body)` at time `ts`, with `embed` the embedding backend. */
  function Add(s: State, body: string, ts: real, embed: string -> seq<F32>): AddRun
  {
    AddChunks(s, Chunk(body, MaxWords), ts, embed)
  }

  /** The chunks `add` stores: those whose embedding is not empty, in order. */
  function Stored(chunks: seq<string>, embed: string -> seq<F32>): (r: seq<string>)
    ensures |r| <= |chunks|
    ensures forall c :: c in r ==> c in chunks && |Embedding(embed, c)| > 0
    ensures forall c :: c in chunks && |Embedding(embed, c)| > 0 ==> c in r
    ensures forall c :: multiset(r)[c] == if |Embedding(embed, c)| > 0 then multiset(chunks)[c] else 0
    decreases |chunks|
  {
    if chunks == [] then []
    else
      var init := chunks[..|chunks| - 1];
      var last := chunks[|chunks| - 1];
      assert chunks == init + [last];
      var kept := if |Embedding(embed, last)| > 0 then [last] else [];
      assert multiset(chunks) == multiset(init) + multiset([last]);
      assert multiset(Stored(init, embed) + kept) == multiset(Stored(init, embed)) + multiset(kept);
      Stored(init, embed) + kept
  }

  /** A row written by one `add` call whose first row got id `first`. */
  ghost predicate AddedRow(n: Note, first: nat, id: nat, ts: real, embed: string -> seq<F32>)
  {
    && n.parentId == (if id == first then None else Some(first))
    && n.ts == ts
    && |Embedding(embed, n.body)| > 0
    && n.emb == Bytes(Encode(Embedding(embed, n.body)))
  }

  /** `notes` is `before` plus rows `lo + 1 .. hi`, written by one `add` call. */
  ghost predicate RowsAdded(before: map<nat, Note>, notes: map<nat, Note>, lo: nat, hi: nat, ts: real, embed: string -> seq<F32>)
  {
    && (forall id :: id in notes <==> id in before || lo < id <= hi)
    && (forall id :: id in before ==> notes[id] == before[id])
    && (forall id :: lo < id <= hi ==> AddedRow(notes[id], lo + 1, id, ts, embed))
  }

  /** `fts` is `before` plus the bodies of rows `lo + 1 .. hi`. */
  ghost predicate FtsAdded(before: Lexical.FtsIndex, fts: Lexical.FtsIndex, notes: map<nat, Note>, lo: nat, hi: nat)
  {
    && (forall id :: id in fts <==> id in before || lo < id <= hi)
    && (forall id :: id in before ==> fts[id] == before[id])
    && (forall id :: lo < id <= hi && id in notes ==> fts[id] == notes[id].body)
  }

  /** `st` is `s0` with the rows of one `add` call added, and no other row or index entry changed. */
  ghost predicate Extends(s0: State, st: State, ts: real, embed: string -> seq<F32>)
  {
    && s0.lastId <= st.lastId
    && RowsAdded(s0.notes, st.notes, s0.lastId, st.lastId, ts, embed)
    && FtsAdded(s0.fts, st.fts, st.notes, s0.lastId, st.lastId)
  }

  /** An existing index keeps its dimension, its tombstones and every element it held. */
  ghost predicate IndexKept(s0: State, st: State)
  {
    s0.index.Some? ==>
      && st.index.Some? && st.dim == s0.dim && st.index.value.dim == s0.index.value.dim
      && st.index.value.deleted == s0.index.value.deleted
      && forall id :: id in s0.index.value.labels ==>
           id in st.index.value.labels && st.index.value.labels[id] == s0.index.value.labels[id]
  }

  ghost predicate RunShape(s0: State, run: AddRun, ts: real, embed: string -> seq<F32>)
  {
    && Wf(run.st)
    && Extends(s0, run.st, ts, embed)
    && IndexKept(s0, run.st)
    && run.parent == (if run.st.lastId == s0.lastId then None else Some(s0.lastId + 1))
  }

  /** Rows `base`, `base + 1`, ... hold the bodies `stored`, in order. */
  ghost predicate BodiesFrom(notes: map<nat, Note>, base: nat, stored: seq<string>)
  {
    forall j :: 0 <= j < |stored| ==> base + j in notes && notes[base + j].body == stored[j]
  }

  /** Rows `lo + 1 .. hi` are live in the index under their id, with the embedding of their body. */
  ghost predicate LiveFrom(notes: map<nat, Note>, ix: Hnsw.Index, lo: nat, hi: nat, embed: string -> seq<F32>)
  {
    forall id :: lo < id <= hi ==>
      id in notes && id in Hnsw.Live(ix) && ix.labels[id] == Embedding(embed, notes[id].body)
  }

  /** After a run without error: the stored chunks, in id order, each in the index under its id. */
  ghost predicate StoredPart(s0: State, st: State, stored: seq<string>, embed: string -> seq<F32>)
  {
    && st.lastId - s0.lastId == |stored|
    && BodiesFrom(st.notes, s0.lastId + 1, stored)
    && (st.lastId > s0.lastId ==> st.index.Some? && LiveFrom(st.notes, st.index.value, s0.lastId, st.lastId, embed))
  }

  /** The index an `add` call had to create: dimension of the first stored chunk, bulk-loaded from the rows already stored. */
  ghost predicate DimBound(s0: State, st: State, stored: seq<string>, embed: string -> seq<F32>)
  {
    s0.index.None? && stored != [] ==>
      && st.index.Some?
      && st.dim == |Embedding(embed, stored[0])|
      && forall id :: id in s0.notes ==> (id in st.index.value.labels <==> Loadable(s0.notes, id, st.dim))
  }

  ghost predicate StoredOk(s0: State, st: State, stored: seq<string>, embed: string -> seq<F32>)
  {
    && StoredPart(s0, st, stored, embed)
    && (stored == [] ==> st == s0)
    && DimBound(s0, st, stored, embed)
  }

  // Map-level steps of the proofs below.

  lemma RowsAddedInsert(before: map<nat, Note>, notes: map<nat, Note>, lo: nat, hi: nat, ts: real,
                        embed: string -> seq<F32>, n: Note)
    requires RowsAdded(before, notes, lo, hi, ts, embed) && lo <= hi && hi + 1 !in before
    requires AddedRow(n, lo + 1, hi + 1, ts, embed)
    ensures RowsAdded(before, notes[hi + 1 := n], lo, hi + 1, ts, embed)
  {
  }

  lemma FtsAddedInsert(before: Lexical.FtsIndex, fts: Lexical.FtsIndex, notes: map<nat, Note>, lo: nat, hi: nat, n: Note)
    requires FtsAdded(before, fts, notes, lo, hi) && lo <= hi && hi + 1 !in before
    ensures FtsAdded(before, fts[hi + 1 := n.body], notes[hi + 1 := n], lo, hi + 1)
  {
  }

  lemma BodiesFromInsert(notes: map<nat, Note>, base: nat, stored: seq<string>, n: Note)
    requires BodiesFrom(notes, base, stored)
    ensures BodiesFrom(notes[base + |stored| := n], base, stored + [n.body])
  {
    forall j | 0 <= j < |stored + [n.body]|
      ensures base + j in notes[base + |stored| := n]
      ensures notes[base + |stored| := n][base + j].body == (stored + [n.body])[j]
    {
      if j < |stored| {
        BodiesFromAt(notes, base, stored, j);
        assert (stored + [n.body])[j] == stored[j];
      }
    }
  }

  lemma BodiesFromAt(notes: map<nat, Note>, base: nat, stored: seq<string>, j: nat)
    requires BodiesFrom(notes, base, stored) && j < |stored|
    ensures base + j in notes && notes[base + j].body == stored[j]
  {
  }

  lemma LiveFromAdd(notes: map<nat, Note>, ix: Hnsw.Index, lo: nat, hi: nat, embed: string -> seq<F32>,
                    n: Note, v: seq<F32>)
    requires LiveFrom(notes, ix, lo, hi, embed) && Hnsw.Wf(ix) && lo <= hi
    requires v == Embedding(embed, n.body) && Hnsw.AddItem(ix, v, hi + 1).Ok?
    ensures LiveFrom(notes[hi + 1 := n], Hnsw.AddItem(ix, v, hi + 1).value, lo, hi + 1, embed)
  {
    var ix2 := Hnsw.AddItem(ix, v, hi + 1).value;
    assert Hnsw.Live(ix2) == Hnsw.Live(ix) + {hi + 1};
  }

  /** The row and index entry one stored chunk adds, in a context small enough to unfold `StoreChunk` cheaply. */
  lemma StoreChunkResult(run: AddRun, c: string, ts: real, vec: seq<F32>)
    requires run.st.index.Some?
    ensures var st := run.st;
            var nid := st.lastId + 1;
            var notes := st.notes[nid := Note(run.parent, c, ts, Bytes(Encode(vec)))];
            var parent := if run.parent.None? then Some(nid) else run.parent;
            var add := Hnsw.AddItem(st.index.value, vec, nid);
            StoreChunk(run, c, ts, vec) ==
              if add.Ok? then AddRun(State(notes, st.fts[nid := c], nid, st.dim, Some(add.value)), parent, None)
              else AddRun(State(notes, st.fts[nid := c], nid, st.dim, st.index), parent, Some(add.error))
  {
  }

  // Every run of the loop keeps the shape of an `add` call.

  lemma AddChunkShape(s0: State, run: AddRun, chunk: string, ts: real, embed: string -> seq<F32>)
    requires Wf(s0) && RunShape(s0, run, ts, embed) && run.err.None?
    ensures RunShape(s0, AddChunk(run, chunk, ts, embed), ts, embed)
  {
    var vec := Embedding(embed, chunk);
    if |vec| > 0 {
      var e := EnsureIndex(run.st, |vec|);
      EnsureIndexKeepsShape(s0, run, |vec|, ts, embed);
      if e.err.None? {
        StoreChunkShape(s0, AddRun(e.st, run.parent, None), chunk, ts, embed);
      }
    }
  }

  lemma EnsureIndexKeepsShape(s0: State, run: AddRun, dim: nat, ts: real, embed: string -> seq<F32>)
    requires Wf(s0) && RunShape(s0, run, ts, embed)
    ensures var e := EnsureIndex(run.st, dim);
            RunShape(s0, AddRun(e.st, run.parent, e.err), ts, embed)
  {
    var e := EnsureIndex(run.st, dim);
    assert e.st.notes == run.st.notes && e.st.fts == run.st.fts && e.st.lastId == run.st.lastId;
    if s0.index.Some? {
      assert e.st == run.st;
    }
  }

  lemma StoreChunkShape(s0: State, run: AddRun, chunk: string, ts: real, embed: string -> seq<F32>)
    requires Wf(s0) && RunShape(s0, run, ts, embed) && run.st.index.Some?
    requires |Embedding(embed, chunk)| > 0
    ensures RunShape(s0, StoreChunk(run, chunk, ts, Embedding(embed, chunk)), ts, embed)
  {
    StoreChunkResult(run, chunk, ts, Embedding(embed, chunk));
    ShapeStep(s0, run, chunk, ts, embed);
  }

  lemma ShapeStep(s0: State, run: AddRun, chunk: string, ts: real, embed: string -> seq<F32>)
    requires Wf(s0) && RunShape(s0, run, ts, embed) && run.st.index.Some?
    requires |Embedding(embed, chunk)| > 0
    ensures var vec := Embedding(embed, chunk);
            var st := run.st;
            var nid := st.lastId + 1;
            var notes := st.notes[nid := Note(run.parent, chunk, ts, Bytes(Encode(vec)))];
            var parent := if run.parent.None? then Some(nid) else run.parent;
            var add := Hnsw.AddItem(st.index.value, vec, nid);
            RunShape(s0, if add.Ok? then AddRun(State(notes, st.fts[nid := chunk], nid, st.dim, Some(add.value)), parent, None)
                         else AddRun(State(notes, st.fts[nid := chunk], nid, st.dim, st.index), parent, Some(add.error)), ts, embed)
  {
    var vec := Embedding(embed, chunk);
    var st := run.st;
    var nid := st.lastId + 1;
    var s1 := State(st.notes[nid := Note(run.parent, chunk, ts, Bytes(Encode(vec)))], st.fts[nid := chunk], nid, st.dim, st.index);
    InsertStep(s0, st, run.parent, chunk, ts, embed);
    var add := Hnsw.AddItem(st.index.value, vec, nid);
    if add.Ok? {
      IndexStep(s0, s1, add.value, vec, ts, embed);
      assert s1.(index := Some(add.value)) == State(s1.notes, s1.fts, nid, st.dim, Some(add.value));
    }
  }

  lemma InsertStep(s0: State, st: State, parent: Option<nat>, chunk: string, ts: real, embed: string -> seq<F32>)
    requires Wf(s0) && Wf(st) && Extends(s0, st, ts, embed) && IndexKept(s0, st)
    requires parent == (if st.lastId == s0.lastId then None else Some(s0.lastId + 1))
    requires |Embedding(embed, chunk)| > 0
    ensures var nid := st.lastId + 1;
            var notes := st.notes[nid := Note(parent, chunk, ts, Bytes(Encode(Embedding(embed, chunk))))];
            var s1 := State(notes, st.fts[nid := chunk], nid, st.dim, st.index);
            && Wf(s1) && Extends(s0, s1, ts, embed) && IndexKept(s0, s1)
            && nid in s1.notes && (st.index.Some? ==> nid !in st.index.value.labels)
  {
    var nid := st.lastId + 1;
    var n := Note(parent, chunk, ts, Bytes(Encode(Embedding(embed, chunk))));
    InsertKeepsWf(st, n);
    InsertExtends(s0, st, n, ts, embed);
  }

  lemma InsertKeepsWf(st: State, n: Note)
    requires Wf(st)
    ensures var nid := st.lastId + 1;
            Wf(State(st.notes[nid := n], st.fts[nid := n.body], nid, st.dim, st.index))
  {
  }

  lemma InsertExtends(s0: State, st: State, n: Note, ts: real, embed: string -> seq<F32>)
    requires Wf(s0) && Extends(s0, st, ts, embed)
    requires n.parentId == (if st.lastId == s0.lastId then None else Some(s0.lastId + 1))
    requires n.ts == ts && |Embedding(embed, n.body)| > 0 && n.emb == Bytes(Encode(Embedding(embed, n.body)))
    requires forall id :: id in st.notes ==> id <= st.lastId
    ensures var nid := st.lastId + 1;
            Extends(s0, State(st.notes[nid := n], st.fts[nid := n.body], nid, st.dim, st.index), ts, embed)
  {
    var nid := st.lastId + 1;
    assert nid !in s0.notes && nid !in s0.fts && nid !in st.notes;
    assert AddedRow(n, s0.lastId + 1, nid, ts, embed);
    RowsAddedInsert(s0.notes, st.notes, s0.lastId, st.lastId, ts, embed, n);
    FtsAddedInsert(s0.fts, st.fts, st.notes, s0.lastId, st.lastId, n);
  }

  lemma IndexStep(s0: State, s1: State, ix: Hnsw.Index, v: seq<F32>, ts: real, embed: string -> seq<F32>)
    requires Wf(s1) && Extends(s0, s1, ts, embed) && IndexKept(s0, s1) && s1.index.Some?
    requires s1.lastId in s1.notes && s1.lastId !in s1.index.value.labels
    requires Hnsw.AddItem(s1.index.value, v, s1.lastId) == Ok(ix)
    ensures var s2 := s1.(index := Some(ix));
            Wf(s2) && Extends(s0, s2, ts, embed) && IndexKept(s0, s2)
  {
    assert Hnsw.Live(ix) == Hnsw.Live(s1.index.value) + {s1.lastId};
  }

  lemma {:induction false} AddChunksShape(s0: State, chunks: seq<string>, ts: real, embed: string -> seq<F32>)
    requires Wf(s0)
    ensures RunShape(s0, AddChunks(s0, chunks, ts, embed), ts, embed)
    decreases |chunks|
  {
    if chunks != [] {
      var init := chunks[..|chunks| - 1];
      AddChunksShape(s0, init, ts, embed);
      var run := AddChunks(s0, init, ts, embed);
      if run.err.None? {
        AddChunkShape(s0, run, chunks[|chunks| - 1], ts, embed);
      }
    }
  }

  // A run without error stores each kept chunk and indexes it.

  lemma {:induction false} AddChunksStored(s0: State, chunks: seq<string>, ts: real, embed: string -> seq<F32>)
    requires Wf(s0)
    ensures var run := AddChunks(s0, chunks, ts, embed);
            run.err.None? ==> StoredOk(s0, run.st, Stored(chunks, embed), embed)
    decreases |chunks|
  {
    if chunks != [] {
      var init := chunks[..|chunks| - 1];
      var c := chunks[|chunks| - 1];
      AddChunksStored(s0, init, ts, embed);
      AddChunksShape(s0, init, ts, embed);
      var run := AddChunks(s0, init, ts, embed);
      assert AddChunks(s0, chunks, ts, embed) == if run.err.Some? then run else AddChunk(run, c, ts, embed);
      assert Stored(chunks, embed) == Stored(init, embed) + (if |Embedding(embed, c)| > 0 then [c] else []);
      if run.err.None? {
        if |Embedding(embed, c)| > 0 {
          AddChunkStored(s0, run, Stored(init, embed), c, ts, embed);
        } else {
          assert AddChunk(run, c, ts, embed) == run;
          assert Stored(chunks, embed) == Stored(init, embed);
        }
      }
    }
  }

  lemma AddChunkStored(s0: State, run: AddRun, prev: seq<string>, c: string, ts: real, embed: string -> seq<F32>)
    requires Wf(s0) && RunShape(s0, run, ts, embed) && run.err.None?
    requires StoredOk(s0, run.st, prev, embed)
    requires |Embedding(embed, c)| > 0
    ensures var r := AddChunk(run, c, ts, embed);
            r.err.None? ==> StoredOk(s0, r.st, prev + [c], embed)
  {
    var vec := Embedding(embed, c);
    var e := EnsureIndex(run.st, |vec|);
    var r := AddChunk(run, c, ts, embed);
    if r.err.None? {
      assert e.err.None?;
      EnsureIndexKeepsShape(s0, run, |vec|, ts, embed);
      var erun := AddRun(e.st, run.parent, None);
      assert StoredPart(s0, e.st, prev, embed) by {
        if prev != [] {
          assert e.st == run.st;
        }
      }
      assert r == StoreChunk(erun, c, ts, vec);
      StoreChunkStored(s0, erun, prev, c, ts, embed);
      StoreChunkResult(erun, c, ts, vec);
      assert DimBound(s0, r.st, prev + [c], embed) by {
        if s0.index.None? {
          assert r.st.lastId !in s0.notes;
          if prev == [] {
            assert run.st == s0;
            EnsureIndexBindsOnce(s0, |vec|);
          } else {
            assert e.st == run.st;
            assert (prev + [c])[0] == prev[0];
          }
        }
      }
    }
  }

  lemma StoreChunkStored(s0: State, run: AddRun, prev: seq<string>, c: string, ts: real, embed: string -> seq<F32>)
    requires run.st.index.Some? && Hnsw.Wf(run.st.index.value)
    requires StoredPart(s0, run.st, prev, embed)
    ensures var r := StoreChunk(run, c, ts, Embedding(embed, c));
            r.err.None? ==> StoredPart(s0, r.st, prev + [c], embed)
  {
    var vec := Embedding(embed, c);
    StoreChunkResult(run, c, ts, vec);
    var n := Note(run.parent, c, ts, Bytes(Encode(vec)));
    StoredStep(s0, run.st, prev, n, run.st.fts[run.st.lastId + 1 := c], embed);
  }

  lemma StoredStep(s0: State, st: State, prev: seq<string>, n: Note, fts: Lexical.FtsIndex, embed: string -> seq<F32>)
    requires st.index.Some? && Hnsw.Wf(st.index.value)
    requires StoredPart(s0, st, prev, embed)
    ensures var nid := st.lastId + 1;
            var add := Hnsw.AddItem(st.index.value, Embedding(embed, n.body), nid);
            add.Ok? ==>
              StoredPart(s0, State(st.notes[nid := n], fts, nid, st.dim, Some(add.value)), prev + [n.body], embed)
  {
    var nid := st.lastId + 1;
    var vec := Embedding(embed, n.body);
    var add := Hnsw.AddItem(st.index.value, vec, nid);
    if add.Ok? {
      assert s0.lastId + 1 + |prev| == nid;
      BodiesFromInsert(st.notes, s0.lastId + 1, prev, n);
      assert LiveFrom(st.notes, st.index.value, s0.lastId, st.lastId, embed);
      LiveFromAdd(st.notes, st.index.value, s0.lastId, st.lastId, embed, n, vec);
    }
  }

  // ---------------------------------------------------------------------------
  // What `add` promises

  /**
   * Every row `add` writes gets an id above the counter; the first chunk's row is
   * the parent of all the others, all share one timestamp, and each holds the
   * embedding of its normalised text as a blob. Existing rows and the
   * well-formedness of the state are kept, even when `add` raises part-way.
   */
  lemma AddWritesLinkedRows(s: State, body: string, ts: real, embed: string -> seq<F32>)
    requires Wf(s)
    ensures var st := Add(s, body, ts, embed).st;
            && Wf(st)
            && s.lastId <= st.lastId
            && (forall id :: id in st.notes <==> id in s.notes || s.lastId < id <= st.lastId)
            && (forall id :: id in s.notes ==> st.notes[id] == s.notes[id])
            && (forall id :: s.lastId < id <= st.lastId ==>
                  && st.notes[id].parentId == (if id == s.lastId + 1 then None else Some(s.lastId + 1))
                  && st.notes[id].ts == ts
                  && |Embedding(embed, st.notes[id].body)| > 0
                  && st.notes[id].emb == Bytes(Encode(Embedding(embed, st.notes[id].body))))
  {
    AddChunksShape(s, Chunk(body, MaxWords), ts, embed);
  }

  /** An index that existed keeps its dimension, its tombstones and every vector it held. */
  lemma AddKeepsIndex(s: State, body: string, ts: real, embed: string -> seq<F32>)
    requires Wf(s) && s.index.Some?
    ensures var st := Add(s, body, ts, embed).st;
            && st.index.Some? && st.dim == s.dim && st.index.value.dim == s.index.value.dim
            && st.index.value.deleted == s.index.value.deleted
            && forall id :: id in s.index.value.labels ==>
                 id in st.index.value.labels && st.index.value.labels[id] == s.index.value.labels[id]
  {
    AddChunksShape(s, Chunk(body, MaxWords), ts, embed);
  }

  /** The insert trigger keeps the full-text index equal to the body column. */
  lemma AddKeepsSync(s: State, body: string, ts: real, embed: string -> seq<F32>)
    requires Wf(s) && InSync(s)
    ensures InSync(Add(s, body, ts, embed).st)
  {
    AddChunksShape(s, Chunk(body, MaxWords), ts, embed);
    ExtendsKeepsSync(s, Add(s, body, ts, embed).st, ts, embed);
  }

  lemma ExtendsKeepsSync(s0: State, st: State, ts: real, embed: string -> seq<F32>)
    requires Wf(s0) && InSync(s0) && Extends(s0, st, ts, embed)
    ensures InSync(st)
  {
    assert Bodies(st.notes).Keys == st.fts.Keys;
  }

  /** Rows `lo + 1 ..` of `st` are ones `_ensure_index` would load back with the vector the index holds for them. */
  ghost predicate ReadsBack(st: State, lo: nat)
  {
    st.index.Some? ==>
      forall id :: lo < id <= st.lastId && id in st.index.value.labels ==>
        Loadable(st.notes, id, st.index.value.dim) && RowVector(st.notes, id, st.index.value.dim) == st.index.value.labels[id]
  }

  /**
   * When `add` returns normally, the rows it wrote hold, in id order, the chunks
   * of `body` whose embedding is not empty (`StoredPart`); each is live in the
   * vector index under its id, with its embedding, and its blob reads back as
   * that vector.
   */
  lemma AddIndexesStoredChunks(s: State, body: string, ts: real, embed: string -> seq<F32>)
    requires Wf(s)
    ensures var r := Add(s, body, ts, embed);
            r.err.None? ==> StoredPart(s, r.st, Stored(Chunk(body, MaxWords), embed), embed) && ReadsBack(r.st, s.lastId)
  {
    var chunks := Chunk(body, MaxWords);
    AddChunksShape(s, chunks, ts, embed);
    AddChunksStored(s, chunks, ts, embed);
    var r := Add(s, body, ts, embed);
    if r.err.None? && r.st.lastId > s.lastId {
      StoredRowsReadBack(s, r.st, ts, embed);
    }
  }

  lemma StoredRowsReadBack(s0: State, st: State, ts: real, embed: string -> seq<F32>)
    requires Wf(st) && Extends(s0, st, ts, embed) && st.index.Some?
    requires LiveFrom(st.notes, st.index.value, s0.lastId, st.lastId, embed)
    ensures ReadsBack(st, s0.lastId)
  {
    if st.index.Some? {
      forall id | s0.lastId < id <= st.lastId && id in st.index.value.labels
        ensures Loadable(st.notes, id, st.index.value.dim) && RowVector(st.notes, id, st.index.value.dim) == st.index.value.labels[id]
      {
        ReadBackOne(s0, st, id, ts, embed);
      }
    }
  }

  lemma ReadBackOne(s0: State, st: State, id: nat, ts: real, embed: string -> seq<F32>)
    requires Wf(st) && Extends(s0, st, ts, embed) && st.index.Some?
    requires LiveFrom(st.notes, st.index.value, s0.lastId, st.lastId, embed)
    requires s0.lastId < id <= st.lastId && id in st.index.value.labels
    ensures Loadable(st.notes, id, st.index.value.dim)
    ensures RowVector(st.notes, id, st.index.value.dim) == st.index.value.labels[id]
  {
    var n := st.notes[id];
    var v := Embedding(embed, n.body);
    assert AddedRow(n, s0.lastId + 1, id, ts, embed);
    assert n.emb == Bytes(Encode(v));
    assert st.index.value.labels[id] == v;
    DecodeEncode(v);
    assert |st.index.value.labels[id]| == st.index.value.dim;
  }

  /**
   * A body of at most `MaxWords` words is a single chunk: `add` stores it
   * unchanged as one row without parent, or nothing when its embedding is empty.
   */
  lemma AddShortBody(s: State, body: string, ts: real, embed: string -> seq<F32>)
    requires Wf(s) && |Words(body)| <= MaxWords
    ensures var r := Add(s, body, ts, embed);
            && (|Embedding(embed, body)| == 0 ==> r == AddRun(s, None, None))
            && (r.err.None? && |Embedding(embed, body)| > 0 ==>
                  && r.st.lastId == s.lastId + 1 && s.lastId + 1 in r.st.notes
                  && r.st.notes[s.lastId + 1].body == body && r.st.notes[s.lastId + 1].parentId == None)
  {
    OneChunk(body);
    assert [body][..0] == [];
    if |Embedding(embed, body)| == 0 {
      assert Stored([body], embed) == [];
      AddChunksNothingStored(s, [body], ts, embed);
    } else {
      OneStoredChunk(s, body, ts, embed);
    }
  }

  lemma OneStoredChunk(s: State, body: string, ts: real, embed: string -> seq<F32>)
    requires |Embedding(embed, body)| > 0
    ensures var r := AddChunks(s, [body], ts, embed);
            r.err.None? ==>
              && r.st.lastId == s.lastId + 1 && s.lastId + 1 in r.st.notes
              && r.st.notes[s.lastId + 1].body == body && r.st.notes[s.lastId + 1].parentId == None
  {
    assert [body][..|[body]| - 1] == [];
    assert AddChunks(s, [], ts, embed) == AddRun(s, None, None);
    var vec := Embedding(embed, body);
    var e := EnsureIndex(s, |vec|);
    var run := AddChunks(s, [body], ts, embed);
    assert run == AddChunk(AddRun(s, None, None), body, ts, embed);
    if run.err.None? {
      assert e.err.None? && run == StoreChunk(AddRun(e.st, None, None), body, ts, vec);
      var s1 := InsertNote(e.st, None, body, ts, Bytes(Encode(vec)));
      assert run.st.notes == s1.notes && run.st.lastId == s1.lastId;
    }
  }

  lemma OneChunk(body: string)
    requires |Words(body)| <= MaxWords
    ensures Chunk(body, MaxWords) == [body]
  {
    ChunkShape(body, MaxWords);
  }

  /** When no chunk has a non-empty embedding, `add` changes nothing: no row, no index, no `_DIM`. */
  lemma {:induction false} AddChunksNothingStored(s: State, chunks: seq<string>, ts: real, embed: string -> seq<F32>)
    requires Stored(chunks, embed) == []
    ensures AddChunks(s, chunks, ts, embed) == AddRun(s, None, None)
    decreases |chunks|
  {
    if chunks != [] {
      var init := chunks[..|chunks| - 1];
      var c := chunks[|chunks| - 1];
      assert Stored(chunks, embed) == Stored(init, embed) + (if |Embedding(embed, c)| > 0 then [c] else []);
      AddChunksNothingStored(s, init, ts, embed);
    }
  }

  /** `add` raises only hnswlib's dimension and capacity errors, never a `mark_deleted` or query error. */
  lemma {:induction false} AddChunksErrors(s: State, chunks: seq<string>, ts: real, embed: string -> seq<F32>)
    ensures var r := AddChunks(s, chunks, ts, embed);
            r.err.Some? ==> r.err.value == Hnsw.WrongDimension || r.err.value == Hnsw.IndexFull
    decreases |chunks|
  {
    if chunks != [] {
      var init := chunks[..|chunks| - 1];
      AddChunksErrors(s, init, ts, embed);
      var run := AddChunks(s, init, ts, embed);
      if run.err.None? {
        var c := chunks[|chunks| - 1];
        var vec := Embedding(embed, c);
        if |vec| > 0 && EnsureIndex(run.st, |vec|).err.None? {
          StoreChunkResult(AddRun(EnsureIndex(run.st, |vec|).st, run.parent, None), c, ts, vec);
        }
      }
    }
  }

  /**
   * Without an index, the first chunk `add` stores fixes `_DIM`, and the new
   * index is bulk-loaded with exactly the existing rows whose blob has that size.
   */
  lemma AddBindsDimension(s: State, body: string, ts: real, embed: string -> seq<F32>)
    requires Wf(s) && s.index.None?
    ensures var r := Add(s, body, ts, embed);
            var stored := Stored(Chunk(body, MaxWords), embed);
            r.err.None? && stored != [] ==>
              && r.st.index.Some?
              && r.st.dim == |Embedding(embed, stored[0])|
              && forall id :: id in s.notes ==> (id in r.st.index.value.labels <==> Loadable(s.notes, id, r.st.dim))
  {
    AddChunksStored(s, Chunk(body, MaxWords), ts, embed);
  }

  // ---------------------------------------------------------------------------
  // delete

  /**
   * `delete(nid)`. `if _index:` holds whenever an index exists, so then
   * `mark_deleted` runs first and raises, before the row is touched, for an id
   * the index does not hold live. The row is deleted (and its text by trigger
   * `notes_ad`) only after that.
   */
  function Delete(s: State, nid: nat): (r: Step)
    ensures Wf(s) ==> Wf(r.st)
  {
    if s.index.Some? then
      match Hnsw.MarkDeleted(s.index.value, nid)
      case Err(e) => Step(s, Some(e))
      case Ok(ix) => Step(RemoveNote(s.(index := Some(ix)), nid), None)
    else Step(RemoveNote(s, nid), None)
  }

  /**
   * `delete` fails exactly when an index exists that does not hold `nid` live,
   * and then changes nothing. Otherwise the row is gone, the label is
   * tombstoned but keeps its slot, and nothing else changes.
   */
  lemma DeleteOutcome(s: State, nid: nat)
    requires Wf(s)
    ensures var r := Delete(s, nid);
            && (r.err.None? <==> s.index.None? || nid in Hnsw.Live(s.index.value))
            && (r.err.Some? ==> && r.st == s && s.index.Some?
                                && r.err.value == (if nid in s.index.value.labels then Hnsw.AlreadyDeleted else Hnsw.LabelNotFound))
            && (r.err.None? ==>
                  && r.st.notes == s.notes - {nid} && r.st.lastId == s.lastId && r.st.dim == s.dim
                  && (s.index.None? ==> r.st.index.None?)
                  && (s.index.Some? ==>
                        && r.st.index.Some? && r.st.index.value.labels == s.index.value.labels
                        && r.st.index.value.deleted == s.index.value.deleted + {nid}
                        && Hnsw.Live(r.st.index.value) == Hnsw.Live(s.index.value) - {nid}))
  {
  }

  /** The delete trigger keeps the full-text index equal to the body column. */
  lemma DeleteKeepsSync(s: State, nid: nat)
    requires InSync(s)
    ensures InSync(Delete(s, nid).st)
  {
    var st := Delete(s, nid).st;
    if nid in s.notes && st != s {
      assert Bodies(st.notes) == Bodies(s.notes) - {nid};
    }
  }

  /**
   * With an index, a row that never reached it (its `add_items` raised, or its
   * blob had another size when the index was loaded) cannot be deleted: the
   * call raises and the row stays.
   */
  lemma DeleteRefusesUnindexedRow(s: State, nid: nat)
    requires s.index.Some? && nid in s.notes && nid !in s.index.value.labels
    ensures Delete(s, nid) == Step(s, Some(Hnsw.LabelNotFound))
    ensures nid in Delete(s, nid).st.notes
  {
  }
}
