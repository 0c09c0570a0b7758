/**
 * The module state of `brain/storage.py` as an object: the `notes` table, the
 * FTS5 index, the AUTOINCREMENT counter, `_DIM` and `_index`, with the
 * operations that change them written as the step-by-step code they are. Each
 * method leaves the object in the state the matching function of `Storage`
 * computes, so every lemma proved there holds of the object.
 */
module Store {
  import opened Wrappers
  import opened Blob
  import opened Text
  import Hnsw
  import Lexical
  import opened Storage

  class NoteStore {
    var notes: map<nat, Note>
    var fts: Lexical.FtsIndex
    var lastId: nat
    var dim: nat
    var index: Option<Hnsw.Index>

    function Snapshot(): State
      reads this
    {
      State(notes, fts, lastId, dim, index)
    }

    ghost predicate Valid()
      reads this
    {
      Wf(Snapshot())
    }

    /**
     * Importing the module on a database holding `rows`, an FTS5 index
     * `ftsIndex` and the counter `lastId0`, with the corrected repair
     * (`Lexical.Repair`): an empty full-text index is refilled from the `body`
     * column; `_index` starts as None and `_DIM` as 0.
     */
    constructor Open(rows: map<nat, Note>, ftsIndex: Lexical.FtsIndex, lastId0: nat)
      requires forall id :: id in rows ==> id <= lastId0
      requires forall id :: id in ftsIndex ==> id <= lastId0
      ensures Valid() && Snapshot() == Opened(rows, ftsIndex, lastId0)
      ensures |ftsIndex| == 0 ==> InSync(Snapshot())
    {
      notes := rows;
      fts := ftsIndex;
      if |ftsIndex| == 0 {
        fts := ftsIndex + Bodies(rows);
      }
      lastId := lastId0;
      dim := 0;
      index := None;
      OpenedState(rows, ftsIndex, lastId0);
    }

    /** `_ensure_index(d)`. */
    method EnsureIndex(d: nat) returns (err: Option<Hnsw.IndexError>)
      requires Valid()
      modifies this
      ensures Valid()
      ensures Step(Snapshot(), err) == Storage.EnsureIndex(old(Snapshot()), d)
    {
      if index.Some? {
        return None;
      }
      ghost var s1 := Snapshot().(dim := d);
      dim := d;
      var loaded := LoadRows(notes, d, lastId + 1);
      assert Storage.EnsureIndex(old(Snapshot()), d) ==
             if loaded.Err? then Step(s1, Some(loaded.error)) else Step(s1.(index := Some(loaded.value)), None);
      if loaded.Err? {
        return Some(loaded.error);
      }
      index := Some(loaded.value);
      return None;
    }

    /**
     * `add(body)` at time `ts`: the loop over the chunks. The first error ends
     * the call.
     */
    method Add(body: string, ts: real, embed: string -> seq<F32>) returns (err: Option<Hnsw.IndexError>)
      requires Valid()
      modifies this
      ensures Valid()
      ensures Snapshot() == Storage.Add(old(Snapshot()), body, ts, embed).st
      ensures err == Storage.Add(old(Snapshot()), body, ts, embed).err
    {
      ghost var s0 := Snapshot();
      var chunks := Chunk(body, MaxWords);
      var parent: Option<nat> := None;
      var i := 0;
      while i < |chunks|
        invariant i <= |chunks|
        invariant Valid()
        invariant AddChunks(s0, chunks[..i], ts, embed) == AddRun(Snapshot(), parent, None)
      {
        AddChunksNext(s0, chunks, i, ts, embed);
        parent, err := AddOneChunk(chunks[i], ts, embed, parent);
        assert AddChunks(s0, chunks[..i + 1], ts, embed) == AddRun(Snapshot(), parent, err);
        AddChunksKeepWf(s0, chunks[..i + 1], ts, embed);
        if err.Some? {
          AddChunksStops(s0, chunks, i + 1, ts, embed);
          return;
        }
        i := i + 1;
      }
      assert chunks[..i] == chunks;
      return None;
    }

    /**
     * One iteration of the loop in `add`: embed the normalised chunk, skip it
     * when the embedding is empty, otherwise make sure the index exists and store
     * the chunk.
     */
    method AddOneChunk(chunk: string, ts: real, embed: string -> seq<F32>, parent: Option<nat>)
      returns (parent': Option<nat>, err: Option<Hnsw.IndexError>)
      requires Valid()
      modifies this
      ensures AddRun(Snapshot(), parent', err) == AddChunk(AddRun(old(Snapshot()), parent, None), chunk, ts, embed)
    {
      var vec := Embedding(embed, chunk);
      if |vec| == 0 {
        return parent, None;
      }
      err := EnsureIndex(|vec|);
      if err.Some? {
        return parent, err;
      }
      parent', err := StoreOneChunk(chunk, ts, vec, parent);
    }

    /**
     * The insert into `notes` (the trigger indexes the text), the update of
     * `parent`, and `add_items` under the new id.
     */
    method StoreOneChunk(chunk: string, ts: real, vec: seq<F32>, parent: Option<nat>)
      returns (parent': Option<nat>, err: Option<Hnsw.IndexError>)
      requires index.Some?
      modifies this
      ensures AddRun(Snapshot(), parent', err) == StoreChunk(AddRun(old(Snapshot()), parent, None), chunk, ts, vec)
    {
      var nid := lastId + 1;
      notes := notes[nid := Note(parent, chunk, ts, Bytes(Encode(vec)))];
      fts := Lexical.AfterInsert(fts, nid, chunk);
      lastId := nid;
      parent' := if parent.None? then Some(nid) else parent;
      var added := Hnsw.AddItem(index.value, vec, nid);
      if added.Err? {
        return parent', Some(added.error);
      }
      index := Some(added.value);
      return parent', None;
    }

    /**
     * `delete(nid)`: `mark_deleted` first when an index exists (an exception
     * there leaves everything as it was), then the row and, by trigger, its
     * text.
     */
    method Delete(nid: nat) returns (err: Option<Hnsw.IndexError>)
      requires Valid()
      modifies this
      ensures Valid()
      ensures Step(Snapshot(), err) == Storage.Delete(old(Snapshot()), nid)
    {
      if index.Some? {
        var marked := Hnsw.MarkDeleted(index.value, nid);
        if marked.Err? {
          return Some(marked.error);
        }
        index := Some(marked.value);
      }
      if nid in notes {
        fts := Lexical.AfterDelete(fts, nid, notes[nid].body);
        notes := notes - {nid};
      }
      return None;
    }
  }

  /**
   * The bulk-load loop of `_ensure_index` over the rows with id below `n`, in id
   * order: a row whose blob is `d * 4` bytes long is decoded and added under its
   * id; the first `add_items` error ends the loop.
   */
  method LoadRows(notes: map<nat, Note>, d: nat, n: nat) returns (r: Result<Hnsw.Index, Hnsw.IndexError>)
    ensures r == BulkLoad(notes, d, n)
  {
    var ix := Hnsw.Empty(d);
    var id := 0;
    while id < n
      invariant id <= n
      invariant BulkLoad(notes, d, id) == Ok(ix)
    {
      if Loadable(notes, id, d) {
        var added := Hnsw.AddItem(ix, RowVector(notes, id, d), id);
        if added.Err? {
          BulkLoadStaysFailed(notes, d, id + 1, n);
          return added;
        }
        ix := added.value;
      }
      id := id + 1;
    }
    return Ok(ix);
  }

  /** Every state the loop of `add` reaches keeps the invariant. */
  lemma AddChunksKeepWf(s: State, chunks: seq<string>, ts: real, embed: string -> seq<F32>)
    requires Wf(s)
    ensures Wf(AddChunks(s, chunks, ts, embed).st)
  {
    AddChunksShape(s, chunks, ts, embed);
  }

  /** The loop invariant of `add` carried over one more chunk. */
  lemma AddChunksNext(s: State, chunks: seq<string>, i: nat, ts: real, embed: string -> seq<F32>)
    requires i < |chunks| && AddChunks(s, chunks[..i], ts, embed).err.None?
    ensures AddChunks(s, chunks[..i + 1], ts, embed) == AddChunk(AddChunks(s, chunks[..i], ts, embed), chunks[i], ts, embed)
  {
    assert chunks[..i + 1][..i] == chunks[..i];
  }

  /** Once the bulk load has raised, loading further rows does not bring it back. */
  lemma {:induction false} BulkLoadStaysFailed(notes: map<nat, Note>, d: nat, n: nat, m: nat)
    requires n <= m && BulkLoad(notes, d, n).Err?
    ensures BulkLoad(notes, d, m) == BulkLoad(notes, d, n)
    decreases m - n
  {
    if n < m {
      BulkLoadStaysFailed(notes, d, n, m - 1);
    }
  }

  /** The loop of `add` ends at the first error: later chunks are not looked at. */
  lemma {:induction false} AddChunksStops(s: State, chunks: seq<string>, i: nat, ts: real, embed: string -> seq<F32>)
    requires i <= |chunks| && AddChunks(s, chunks[..i], ts, embed).err.Some?
    ensures AddChunks(s, chunks, ts, embed) == AddChunks(s, chunks[..i], ts, embed)
    decreases |chunks| - i
  {
    if i < |chunks| {
      assert chunks[..i + 1][..i] == chunks[..i];
      AddChunksStops(s, chunks, i + 1, ts, embed);
    } else {
      assert chunks[..i] == chunks;
    }
  }
}
