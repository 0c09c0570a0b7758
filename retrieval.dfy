/**
 * The read side of `brain/storage.py`: `topk` and `all_notes` as functions of
 * the store's state. The embedding backend, FTS5's `MATCH` and hnswlib's graph
 * walk are parameters; the order in which SQLite hands back the rows of
 * `WHERE id IN (...)` is fixed as ascending id.
 */
module Retrieval {
  import opened Wrappers
  import opened Blob
  import opened Text
  import opened Ids
  import Hnsw
  import Lexical
  import opened Storage

  /** A row `(id, body)` as `topk` returns it. */
  datatype Hit = Hit(id: nat, body: string)

  function HitIds(r: seq<Hit>): (ids: seq<nat>)
    ensures |ids| == |r| && forall i :: 0 <= i < |r| ==> ids[i] == r[i].id
  {
    seq(|r|, i requires 0 <= i < |r| => r[i].id)
  }

  // ---------------------------------------------------------------------------
  // topk

  /**
   * `fts_ids`: the ids the FTS5 query `MATCH normalized LIMIT k` returns, or none
   * when the query normalises to the empty string.
   */
  function LexicalIds(s: State, query: string, k: nat, matches: (string, string) -> bool): (r: set<nat>)
    ensures Normalize(query) == [] ==> r == {}
    ensures |r| <= k
    ensures forall id :: id in r ==> id in s.fts && matches(Normalize(query), s.fts[id])
    ensures Wf(s) && Normalize(query) != [] ==>
              forall x :: x in s.fts && matches(Normalize(query), s.fts[x]) && x !in r ==>
                |r| == k && forall y :: y in r ==> y < x
  {
    var q := Normalize(query);
    if q == [] then {}
    else
      var found := Lexical.Search(s.fts, q, k, matches, s.lastId + 1);
      ElementsCard(found);
      Elements(found)
  }

  /**
   * `emb_ids`: the labels `knn_query` returns for the query's embedding, asked
   * for `min(k, get_current_count())` of them, and only when the embedding has
   * `_DIM` elements. A `RuntimeError` from the query leaves the set empty.
   */
  function VectorIds(s: State, query: string, k: nat, embed: string -> seq<F32>,
                     search: (seq<F32>, nat) -> seq<nat>): (r: set<nat>)
    requires s.index.Some?
    ensures r <= Hnsw.Live(s.index.value)
    ensures |Embedding(embed, query)| != s.dim ==> r == {}
    ensures r != {} ==> |r| == Min(k, Hnsw.Count(s.index.value))
  {
    var vec := Embedding(embed, query);
    if |vec| != s.dim then {}
    else
      match Hnsw.Knn(s.index.value, vec, Min(k, Hnsw.Count(s.index.value)), search)
      case Ok(ids) => ids
      case Err(_) => {}
  }

  /**
   * The ids `topk` looks up: only the lexical ones without an index or with an
   * index that holds no element, otherwise the union of both searches.
   */
  function Candidates(s: State, query: string, k: nat, embed: string -> seq<F32>,
                      matches: (string, string) -> bool, search: (seq<F32>, nat) -> seq<nat>): (r: set<nat>)
    ensures LexicalIds(s, query, k, matches) <= r
    ensures forall id :: id in r && id !in LexicalIds(s, query, k, matches) ==>
              s.index.Some? && id in Hnsw.Live(s.index.value)
  {
    if s.index.None? || Hnsw.Count(s.index.value) == 0 then LexicalIds(s, query, k, matches)
    else VectorIds(s, query, k, embed, search) + LexicalIds(s, query, k, matches)
  }

  /**
   * `SELECT id, body FROM notes WHERE id IN (ids)` followed by `rows[:k]`: the
   * stored rows among `ids`, in ascending id order, cut to `k`. An empty `ids`
   * gives `[]`, as the early returns do.
   */
  function Fetch(s: State, ids: set<nat>, k: nat): (r: seq<Hit>)
    requires Wf(s)
    ensures |r| <= k
    ensures forall i :: 0 <= i < |r| ==> r[i].id in ids && r[i].id in s.notes && r[i].body == s.notes[r[i].id].body
    ensures forall i, j :: 0 <= i < j < |r| ==> r[i].id < r[j].id
  {
    var all := Below(ids * s.notes.Keys, s.lastId + 1);
    var chosen := Prefix(all, k);
    assert forall i :: 0 <= i < |chosen| ==> chosen[i] == all[i] && all[i] in ids * s.notes.Keys;
    seq(|chosen|, i requires 0 <= i < |chosen| => Hit(chosen[i], s.notes[chosen[i]].body))
  }

  /** Fetching no ids gives no rows, as the early `return []` does. */
  lemma FetchNothing(s: State, k: nat)
    requires Wf(s)
    ensures Fetch(s, {}, k) == []
  {
    assert {} * s.notes.Keys == {};
    BelowNothing(s.lastId + 1);
  }

  /** A stored row among `ids` is left out only when `k` rows with smaller ids fill the result. */
  lemma FetchComplete(s: State, ids: set<nat>, k: nat, x: nat)
    requires Wf(s) && x in ids && x in s.notes
    ensures var r := Fetch(s, ids, k);
            x !in HitIds(r) ==> |r| == k && forall i :: 0 <= i < |r| ==> r[i].id < x
  {
    var all := Below(ids * s.notes.Keys, s.lastId + 1);
    var r := Fetch(s, ids, k);
    assert HitIds(r) == Prefix(all, k);
    if x !in HitIds(r) {
      PrefixOfIncreasing(all, k, x);
    }
  }

  /** `topk(query, k)`. */
  function TopK(s: State, query: string, k: nat, embed: string -> seq<F32>,
                matches: (string, string) -> bool, search: (seq<F32>, nat) -> seq<nat>): (r: seq<Hit>)
    requires Wf(s)
    ensures |r| <= k
    ensures forall i :: 0 <= i < |r| ==>
              && r[i].id in Candidates(s, query, k, embed, matches, search)
              && r[i].id in s.notes && r[i].body == s.notes[r[i].id].body
    ensures forall i, j :: 0 <= i < j < |r| ==> r[i].id < r[j].id
  {
    Fetch(s, Candidates(s, query, k, embed, matches, search), k)
  }

  /**
   * Nothing is lost but by the cut: a stored candidate missing from the result
   * means `k` rows came back, all with smaller ids; so with `k > 0` the result
   * is empty exactly when no candidate is a stored row.
   */
  lemma TopKComplete(s: State, query: string, k: nat, embed: string -> seq<F32>,
                     matches: (string, string) -> bool, search: (seq<F32>, nat) -> seq<nat>, x: nat)
    requires Wf(s)
    requires x in Candidates(s, query, k, embed, matches, search) && x in s.notes
    ensures var r := TopK(s, query, k, embed, matches, search);
            x !in HitIds(r) ==> |r| == k && forall i :: 0 <= i < |r| ==> r[i].id < x
    ensures k > 0 ==> TopK(s, query, k, embed, matches, search) != []
  {
    FetchComplete(s, Candidates(s, query, k, embed, matches, search), k, x);
  }

  /**
   * A stored note whose body matches the normalised query is returned, unless
   * `k` hits with smaller ids fill the result.
   */
  lemma TopKFindsMatches(s: State, query: string, k: nat, embed: string -> seq<F32>,
                         matches: (string, string) -> bool, search: (seq<F32>, nat) -> seq<nat>, x: nat)
    requires Wf(s) && InSync(s)
    requires x in s.notes && Normalize(query) != [] && matches(Normalize(query), s.notes[x].body)
    ensures var r := TopK(s, query, k, embed, matches, search);
            x !in HitIds(r) ==> |r| == k && forall i :: 0 <= i < |r| ==> r[i].id < x
  {
    var lex := LexicalIds(s, query, k, matches);
    var cands := Candidates(s, query, k, embed, matches, search);
    assert s.fts[x] == Bodies(s.notes)[x];
    if x in lex {
      TopKComplete(s, query, k, embed, matches, search, x);
    } else {
      var all := Below(cands * s.notes.Keys, s.lastId + 1);
      forall y | y in lex ensures y in all && y < x {
        assert y in Bodies(s.notes);
      }
      PrefixBelow(all, lex, k, x);
      var r := TopK(s, query, k, embed, matches, search);
      assert HitIds(r) == Prefix(all, k);
      forall i | 0 <= i < |r| ensures r[i].id < x {
        assert HitIds(r)[i] in Prefix(all, k);
      }
    }
  }

  /** With no candidate id that is a stored row, `topk` returns `[]`. */
  lemma TopKEmptyWithoutCandidates(s: State, query: string, k: nat, embed: string -> seq<F32>,
                                   matches: (string, string) -> bool, search: (seq<F32>, nat) -> seq<nat>)
    requires Wf(s)
    ensures Candidates(s, query, k, embed, matches, search) * s.notes.Keys == {} ==>
              TopK(s, query, k, embed, matches, search) == []
  {
    var r := TopK(s, query, k, embed, matches, search);
    if r != [] {
      assert r[0].id in Candidates(s, query, k, embed, matches, search) * s.notes.Keys;
    }
  }

  /**
   * Without an index, or with one that holds no element, `topk` returns only
   * rows whose text matches the normalised query, and nothing for a query
   * that normalises to the empty string.
   */
  lemma LexicalFallback(s: State, query: string, k: nat, embed: string -> seq<F32>,
                        matches: (string, string) -> bool, search: (seq<F32>, nat) -> seq<nat>)
    requires Wf(s) && InSync(s)
    requires s.index.None? || Hnsw.Count(s.index.value) == 0
    ensures var r := TopK(s, query, k, embed, matches, search);
            && (forall i :: 0 <= i < |r| ==> matches(Normalize(query), r[i].body))
            && (Normalize(query) == [] ==> r == [])
  {
    var r := TopK(s, query, k, embed, matches, search);
    forall i | 0 <= i < |r| ensures matches(Normalize(query), r[i].body) {
      assert r[i].id in LexicalIds(s, query, k, matches);
      assert s.fts[r[i].id] == Bodies(s.notes)[r[i].id];
    }
    if r != [] {
      assert r[0].id in LexicalIds(s, query, k, matches);
    }
  }

  /**
   * In the hybrid branch every hit matches the normalised query lexically or
   * is live in the index; a query whose embedding does not have `_DIM`
   * elements gets lexical hits only.
   */
  lemma HybridHits(s: State, query: string, k: nat, embed: string -> seq<F32>,
                   matches: (string, string) -> bool, search: (seq<F32>, nat) -> seq<nat>)
    requires Wf(s) && InSync(s)
    requires s.index.Some? && Hnsw.Count(s.index.value) > 0
    ensures var r := TopK(s, query, k, embed, matches, search);
            forall i :: 0 <= i < |r| ==>
              || matches(Normalize(query), r[i].body)
              || (|Embedding(embed, query)| == s.dim && r[i].id in Hnsw.Live(s.index.value))
  {
    var r := TopK(s, query, k, embed, matches, search);
    forall i | 0 <= i < |r|
      ensures || matches(Normalize(query), r[i].body)
              || (|Embedding(embed, query)| == s.dim && r[i].id in Hnsw.Live(s.index.value))
    {
      if r[i].id in LexicalIds(s, query, k, matches) {
        assert s.fts[r[i].id] == Bodies(s.notes)[r[i].id];
      }
    }
  }

  /**
   * The vector query asks for `min(k, count)` labels, and the count includes
   * tombstones: once fewer labels are live than that, `knn_query` raises, the
   * error is swallowed, and `topk` falls back to lexical hits alone.
   */
  lemma TombstonesSilenceVectorSearch(s: State, query: string, k: nat, embed: string -> seq<F32>,
                                      matches: (string, string) -> bool, search: (seq<F32>, nat) -> seq<nat>)
    requires s.index.Some? && |Hnsw.Live(s.index.value)| < Min(k, Hnsw.Count(s.index.value))
    ensures Candidates(s, query, k, embed, matches, search) == LexicalIds(s, query, k, matches)
  {
    var vec := Embedding(embed, query);
    Hnsw.KnnNeedsLiveLabels(s.index.value, vec, Min(k, Hnsw.Count(s.index.value)), search);
  }

  /** After a successful `delete(nid)`, a `topk` computed on the new state does not return `nid`. */
  lemma DeleteHidesFromTopK(s: State, nid: nat, query: string, k: nat, embed: string -> seq<F32>,
                            matches: (string, string) -> bool, search: (seq<F32>, nat) -> seq<nat>)
    requires Wf(s) && Delete(s, nid).err.None?
    ensures var r := TopK(Delete(s, nid).st, query, k, embed, matches, search);
            nid !in HitIds(r)
  {
    DeleteOutcome(s, nid);
  }

  // ---------------------------------------------------------------------------
  // The vector labels as `topk` is written (lines 155 and 166-171)

  /**
   * As written: `knn_query` returns its labels as a NumPy `uint64` array, so
   * `emb_ids` holds NumPy integers, and `emb_ids.union(fts_ids)` keeps that
   * element for an id both searches found. `sqlite3` binds an object that is not
   * an `int` but exposes a buffer as an 8-byte BLOB, which equals no integer id.
   * So `WHERE id IN (...)` can only match the lexical ids the vector search did
   * not also return.
   */
  function CandidatesAsWritten(s: State, query: string, k: nat, embed: string -> seq<F32>,
                               matches: (string, string) -> bool, search: (seq<F32>, nat) -> seq<nat>): (r: set<nat>)
    ensures r <= LexicalIds(s, query, k, matches)
    ensures s.index.Some? && Hnsw.Count(s.index.value) > 0 ==> r * VectorIds(s, query, k, embed, search) == {}
  {
    if s.index.None? || Hnsw.Count(s.index.value) == 0 then LexicalIds(s, query, k, matches)
    else LexicalIds(s, query, k, matches) - VectorIds(s, query, k, embed, search)
  }

  /** `topk(query, k)` as written: only lexical ids reach the rows. */
  function TopKAsWritten(s: State, query: string, k: nat, embed: string -> seq<F32>,
                         matches: (string, string) -> bool, search: (seq<F32>, nat) -> seq<nat>): (r: seq<Hit>)
    requires Wf(s)
    ensures forall i :: 0 <= i < |r| ==>
              r[i].id in LexicalIds(s, query, k, matches) && r[i].id in s.notes
  {
    Fetch(s, CandidatesAsWritten(s, query, k, embed, matches, search), k)
  }

  /**
   * In the hybrid branch a label the vector search returns is a stored note that
   * `TopK` returns unless `k` smaller hits fill the result, but `topk` as written
   * never returns it.
   */
  lemma TopKAsWrittenDropsVectorHits(s: State, query: string, k: nat, embed: string -> seq<F32>,
                                     matches: (string, string) -> bool, search: (seq<F32>, nat) -> seq<nat>, x: nat)
    requires Wf(s) && s.index.Some? && Hnsw.Count(s.index.value) > 0
    requires x in VectorIds(s, query, k, embed, search)
    ensures x in s.notes
    ensures x !in HitIds(TopKAsWritten(s, query, k, embed, matches, search))
    ensures var r := TopK(s, query, k, embed, matches, search);
            x !in HitIds(r) ==> |r| == k && forall i :: 0 <= i < |r| ==> r[i].id < x
  {
    TopKComplete(s, query, k, embed, matches, search, x);
  }

  /** Note 5 "fox", live under label 5 in a one-dimensional index. */
  function FoxStore(): State
  {
    State(map[5 := Note(None, "fox", 0.0, NoEmbedding)], map[5 := "fox"], 5, 1,
          Some(Hnsw.Index(1, map[5 := [0]], {})))
  }

  /** An embedding backend that maps every text to the one-element vector `[0]`. */
  function ZeroEmbedding(t: string): seq<F32>
  {
    [0]
  }

  /** A graph walk that meets label 5 first. */
  function MeetsFive(q: seq<F32>, n: nat): seq<nat>
  {
    [5]
  }

  /** A `MATCH` that accepts exactly the indexed text equal to the query. */
  function SameText(q: string, t: string): bool
  {
    q == t
  }

  /** In the example store the vector search finds exactly note 5. */
  lemma FoxVectorHit()
    ensures Wf(FoxStore())
    ensures VectorIds(FoxStore(), "fox", 4, ZeroEmbedding, MeetsFive) == {5}
  {
    var ix := FoxStore().index.value;
    assert Hnsw.Count(ix) == 1;
    assert Hnsw.Live(ix) == {5};
    assert Hnsw.TakeLive([5], {5}, 1) == {5};
  }

  /**
   * With note 5 "fox" live in the index, the query "fox", `k` = 4 and a vector
   * search that returns label 5, `topk` as written returns no row, where `TopK`
   * returns note 5.
   */
  lemma TopKAsWrittenMissesSharedHit()
    ensures TopKAsWritten(FoxStore(), "fox", 4, ZeroEmbedding, SameText, MeetsFive) == []
    ensures TopK(FoxStore(), "fox", 4, ZeroEmbedding, SameText, MeetsFive) == [Hit(5, "fox")]
  {
    FoxVectorHit();
    FoxAsWrittenEmpty();
    FoxTopK();
  }

  lemma FoxAsWrittenEmpty()
    requires Wf(FoxStore()) && VectorIds(FoxStore(), "fox", 4, ZeroEmbedding, MeetsFive) == {5}
    ensures TopKAsWritten(FoxStore(), "fox", 4, ZeroEmbedding, SameText, MeetsFive) == []
  {
    var s := FoxStore();
    assert CandidatesAsWritten(s, "fox", 4, ZeroEmbedding, SameText, MeetsFive) == {};
    FetchNothing(s, 4);
  }

  lemma FoxTopK()
    requires Wf(FoxStore()) && VectorIds(FoxStore(), "fox", 4, ZeroEmbedding, MeetsFive) == {5}
    ensures TopK(FoxStore(), "fox", 4, ZeroEmbedding, SameText, MeetsFive) == [Hit(5, "fox")]
  {
    var s := FoxStore();
    var r := TopK(s, "fox", 4, ZeroEmbedding, SameText, MeetsFive);
    TopKComplete(s, "fox", 4, ZeroEmbedding, SameText, MeetsFive, 5);
    assert r != [] && r[0].id == 5;
  }

  // ---------------------------------------------------------------------------
  // all_notes

  /** A row `(id, parent_id, ts, body)` as `all_notes` returns it. */
  datatype NoteRow = NoteRow(id: nat, parentId: Option<nat>, ts: real, body: string)

  /**
   * `ORDER BY ts DESC`. SQLite leaves the order of equal timestamps open; the
   * model puts the smaller id first.
   */
  predicate Before(a: NoteRow, b: NoteRow)
  {
    a.ts > b.ts || (a.ts == b.ts && a.id < b.id)
  }

  predicate SortedRows(rows: seq<NoteRow>)
  {
    forall i, j :: 0 <= i < j < |rows| ==> Before(rows[i], rows[j])
  }

  function RowIds(rows: seq<NoteRow>): set<nat>
  {
    set row | row in rows :: row.id
  }

  function RowOf(notes: map<nat, Note>, id: nat): NoteRow
    requires id in notes
  {
    NoteRow(id, notes[id].parentId, notes[id].ts, notes[id].body)
  }

  /** Place `x` in a sorted list of rows. */
  function InsertRow(rows: seq<NoteRow>, x: NoteRow): (r: seq<NoteRow>)
    requires SortedRows(rows) && forall y :: y in rows ==> y.id != x.id
    ensures SortedRows(r) && |r| == |rows| + 1
    ensures forall y :: y in r <==> y == x || y in rows
  {
    if rows == [] then [x]
    else if Before(x, rows[0]) then [x] + rows
    else
      var tail := InsertRow(rows[1..], x);
      assert forall m :: 1 <= m < |rows| ==> Before(rows[0], rows[m]);
      assert forall y :: y in rows[1..] ==> y in rows && Before(rows[0], y);
      assert Before(rows[0], x);
      [rows[0]] + tail
  }

  /** The rows for the ascending ids `ids`, sorted. */
  function SortRows(notes: map<nat, Note>, ids: seq<nat>): (r: seq<NoteRow>)
    requires Increasing(ids) && forall i :: 0 <= i < |ids| ==> ids[i] in notes
    ensures SortedRows(r) && |r| == |ids|
    ensures forall y :: y in r <==> y.id in notes && y.id in ids && y == RowOf(notes, y.id)
    decreases |ids|
  {
    if ids == [] then []
    else
      var init := ids[..|ids| - 1];
      var last := ids[|ids| - 1];
      assert ids == init + [last];
      assert forall j :: 0 <= j < |init| ==> init[j] < last;
      var sorted := SortRows(notes, init);
      InsertRow(sorted, RowOf(notes, last))
  }

  /** `all_notes()`: every stored row, newest first. */
  function AllNotes(s: State): (r: seq<NoteRow>)
    requires Wf(s)
    ensures SortedRows(r)
  {
    var ids := Below(s.notes.Keys, s.lastId + 1);
    SortRows(s.notes, ids)
  }

  /**
   * `all_notes` lists every stored row exactly once, with its own columns,
   * in descending timestamp order.
   */
  lemma AllNotesListsEveryRow(s: State)
    requires Wf(s)
    ensures var r := AllNotes(s);
            && |r| == |s.notes|
            && (forall i, j :: 0 <= i < j < |r| ==> r[i].ts >= r[j].ts && r[i].id != r[j].id)
            && (forall i :: 0 <= i < |r| ==> r[i].id in s.notes && r[i] == RowOf(s.notes, r[i].id))
            && (forall id :: id in s.notes ==> id in RowIds(r))
  {
    var ids := Below(s.notes.Keys, s.lastId + 1);
    SortedRowsOf(s.notes, ids);
    KeysCount(s.notes.Keys, s.lastId + 1);
  }

  /** Sorted rows built from distinct ids of `notes`: newest first, no id twice, every id present. */
  lemma SortedRowsOf(notes: map<nat, Note>, ids: seq<nat>)
    requires Increasing(ids) && forall i :: 0 <= i < |ids| ==> ids[i] in notes
    ensures var r := SortRows(notes, ids);
            && (forall i, j :: 0 <= i < j < |r| ==> r[i].ts >= r[j].ts && r[i].id != r[j].id)
            && (forall i :: 0 <= i < |r| ==> r[i].id in notes && r[i] == RowOf(notes, r[i].id))
            && (forall id :: id in ids ==> id in RowIds(r))
  {
    var r := SortRows(notes, ids);
    assert forall i :: 0 <= i < |r| ==> r[i] in r;
    forall id | id in ids ensures id in RowIds(r) {
      assert RowOf(notes, id) in r;
    }
  }

  /** Every member of a set of ids below `n` appears once in `Below`. */
  lemma {:induction false} KeysCount(keys: set<nat>, n: nat)
    requires forall id :: id in keys ==> id < n
    ensures |Below(keys, n)| == |keys|
  {
    var b := Below(keys, n);
    ElementsCard(b);
    assert Elements(b) == keys;
  }
}
