/**
 * The full-text table `notes_fts`, an FTS5 table over the `body` column with
 * `notes` as its external content table. Its index is modelled as the map from
 * rowid to the body text that was indexed under it; the three triggers are the
 * functions that change that map, and FTS5's `MATCH` is the predicate `matches`
 * (query, indexed text), whose tokenizer and ranking are not modelled.
 */
module Lexical {
  import opened Ids

  type FtsIndex = map<nat, string>

  /** The index reflects the content column exactly. */
  predicate InSync(content: map<nat, string>, fts: FtsIndex)
  {
    fts == content
  }

  /** Trigger `notes_ai`: index the new row's body. */
  function AfterInsert(fts: FtsIndex, id: nat, body: string): (r: FtsIndex)
    ensures r.Keys == fts.Keys + {id} && r[id] == body
    ensures forall j :: j in fts && j != id ==> r[j] == fts[j]
  {
    fts[id := body]
  }

  /**
   * Trigger `notes_ad`: the FTS5 'delete' command with the old body. The model
   * drops the entry; what FTS5 does when the body given differs from the one
   * indexed is not modelled.
   */
  function AfterDelete(fts: FtsIndex, id: nat, body: string): (r: FtsIndex)
    ensures r.Keys == fts.Keys - {id}
    ensures forall j :: j in r ==> r[j] == fts[j]
  {
    fts - {id}
  }

  /** Trigger `notes_au`: delete the old entry, then index the new body. */
  function AfterUpdate(fts: FtsIndex, id: nat, oldBody: string, newBody: string): (r: FtsIndex)
    ensures r.Keys == fts.Keys + {id} && r[id] == newBody
    ensures forall j :: j in fts && j != id ==> r[j] == fts[j]
  {
    AfterInsert(AfterDelete(fts, id, oldBody), id, newBody)
  }

  /** An UPDATE of a row's body keeps the index equal to the content column. */
  lemma UpdateTriggerKeepsSync(content: map<nat, string>, fts: FtsIndex, id: nat, newBody: string)
    requires InSync(content, fts) && id in content
    ensures InSync(content[id := newBody], AfterUpdate(fts, id, content[id], newBody))
  {
    var r := AfterUpdate(fts, id, content[id], newBody);
    assert r.Keys == content.Keys;
  }

  /** The ids whose indexed text matches the query. */
  function Matching(fts: FtsIndex, query: string, matches: (string, string) -> bool): set<nat>
  {
    set id | id in fts.Keys && matches(query, fts[id])
  }

  /**
   * `SELECT rowid FROM notes_fts WHERE notes_fts MATCH query LIMIT k`: without
   * ORDER BY, FTS5 returns matches in ascending rowid order, so these are the `k`
   * smallest matching ids (ids at and above `bound` are not considered).
   */
  function Search(fts: FtsIndex, query: string, k: nat, matches: (string, string) -> bool, bound: nat): (r: seq<nat>)
    ensures Increasing(r) && |r| <= k
    ensures forall x :: x in r ==> x in fts && matches(query, fts[x])
    ensures forall x :: x in fts && matches(query, fts[x]) && x < bound && x !in r ==>
              |r| == k && forall y :: y in r ==> y < x
  {
    var all := Below(Matching(fts, query, matches), bound);
    var r := Prefix(all, k);
    forall x | x in r ensures x in Matching(fts, query, matches) {
      var i :| 0 <= i < |r| && r[i] == x;
      assert all[i] == x;
    }
    forall x | x in fts && matches(query, fts[x]) && x < bound && x !in r
      ensures |r| == k && forall y :: y in r ==> y < x
    {
      PrefixOfIncreasing(all, k, x);
    }
    r
  }

  // ---------------------------------------------------------------------------
  // The repair run when the module is imported (storage.py lines 65-66)

  /**
   * As written: `SELECT COUNT(*) FROM notes_fts` on an external-content table is
   * a full scan, which FTS5 answers from the content table, so it counts the rows
   * of `notes`, not the entries of the index. The
   * `INSERT ... SELECT id, body FROM notes` therefore runs only when `notes` is
   * empty, and then inserts nothing.
   */
  function RepairAsWritten(content: map<nat, string>, fts: FtsIndex): FtsIndex
  {
    if |content| == 0 then fts + content else fts
  }

  /** The repair as written never changes the index. */
  lemma RepairAsWrittenIsNoOp(content: map<nat, string>, fts: FtsIndex)
    ensures RepairAsWritten(content, fts) == fts
  {
    if |content| == 0 {
      assert content == map[];
      assert fts + content == fts;
    }
  }

  /** A store whose index lost its entries (one note, empty index) stays out of sync. */
  lemma RepairAsWrittenMissesEmptyIndex()
    ensures !InSync(map[1 := "quick brown fox"], RepairAsWritten(map[1 := "quick brown fox"], map[]))
  {
    RepairAsWrittenIsNoOp(map[1 := "quick brown fox"], map[]);
  }

  /** As intended: repopulate the index from the content table when the index is empty. */
  function Repair(content: map<nat, string>, fts: FtsIndex): (r: FtsIndex)
    ensures |fts| == 0 ==> InSync(content, r)
    ensures |fts| != 0 ==> r == fts
  {
    if |fts| == 0 then fts + content else fts
  }
}
