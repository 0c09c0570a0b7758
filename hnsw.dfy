/**
 * The vector index the store keeps in `_index`: an hnswlib index in
 * inner-product space. The graph and the similarity arithmetic are abstracted
 * away; what remains is the index's observable state (its dimension, the vector
 * stored under each label and the set of labels marked deleted) and the
 * library's error conditions.
 */
module Hnsw {
  import opened Wrappers
  import opened Blob
  import Ids

  /** `init_index(max_elements=100_000, ...)`. */
  const MaxElements: nat := 100_000

  /** The RuntimeErrors hnswlib raises. */
  datatype IndexError =
    | WrongDimension   // a vector whose length is not the index's dimension
    | IndexFull        // a new label once MaxElements elements exist
    | LabelNotFound    // mark_deleted of a label never added
    | AlreadyDeleted   // mark_deleted of a label already marked
    | TooFewResults    // knn_query cannot return k live elements

  /**
   * `labels` maps each label ever added to its vector; a tombstoned label stays
   * there (hnswlib never compacts) and is also in `deleted`.
   */
  datatype Index = Index(dim: nat, labels: map<nat, seq<F32>>, deleted: set<nat>)

  /** Tombstones are on labels the index holds, and every vector has the index's dimension. */
  ghost predicate Wf(ix: Index)
  {
    && ix.deleted <= ix.labels.Keys
    && forall id :: id in ix.labels ==> |ix.labels[id]| == ix.dim
  }

  /** `hnswlib.Index(space="ip", dim=dim)` after `init_index`: no elements yet. */
  function Empty(dim: nat): (ix: Index)
    ensures Wf(ix) && ix.dim == dim && Count(ix) == 0
  {
    Index(dim, map[], {})
  }

  /** `get_current_count()`: every element added, tombstoned ones included. */
  function Count(ix: Index): nat
  {
    |ix.labels|
  }

  /** The labels a query can return. */
  function Live(ix: Index): set<nat>
  {
    ix.labels.Keys - ix.deleted
  }

  /**
   * `add_items(vec, [label])`. A label already present has its vector replaced
   * and its tombstone cleared; a new label needs a free slot.
   */
  function AddItem(ix: Index, v: seq<F32>, id: nat): (r: Result<Index, IndexError>)
    ensures r.Ok? <==> |v| == ix.dim && (id in ix.labels || Count(ix) < MaxElements)
    ensures r.Err? ==> r.error == (if |v| != ix.dim then WrongDimension else IndexFull)
    ensures r.Ok? ==> && r.value.dim == ix.dim
                      && r.value.labels == ix.labels[id := v]
                      && r.value.deleted == (if id in ix.labels then ix.deleted - {id} else ix.deleted)
    ensures r.Ok? && Wf(ix) ==> Wf(r.value) && Live(r.value) == Live(ix) + {id}
  {
    if |v| != ix.dim then Err(WrongDimension)
    else if id in ix.labels then Ok(ix.(labels := ix.labels[id := v], deleted := ix.deleted - {id}))
    else if Count(ix) >= MaxElements then Err(IndexFull)
    else Ok(ix.(labels := ix.labels[id := v]))
  }

  /** `mark_deleted(label)`: a tombstone; the element keeps its slot. */
  function MarkDeleted(ix: Index, id: nat): (r: Result<Index, IndexError>)
    ensures r.Ok? <==> id in Live(ix)
    ensures r.Err? ==> r.error == (if id in ix.labels then AlreadyDeleted else LabelNotFound)
    ensures r.Ok? ==> && r.value.dim == ix.dim
                      && r.value.labels == ix.labels
                      && r.value.deleted == ix.deleted + {id}
                      && Live(r.value) == Live(ix) - {id}
                      && Count(r.value) == Count(ix)
    ensures r.Ok? && Wf(ix) ==> Wf(r.value)
  {
    if id !in ix.labels then Err(LabelNotFound)
    else if id in ix.deleted then Err(AlreadyDeleted)
    else Ok(ix.(deleted := ix.deleted + {id}))
  }

  /**
   * The first `k` distinct live labels of `hits`, the order in which the graph
   * search meets candidates.
   */
  function TakeLive(hits: seq<nat>, live: set<nat>, k: nat): (r: set<nat>)
    ensures r <= live
    ensures |r| <= k
    decreases |hits|
  {
    if k == 0 || hits == [] then {}
    else if hits[0] in live then {hits[0]} + TakeLive(hits[1..], live - {hits[0]}, k - 1)
    else TakeLive(hits[1..], live, k)
  }

  /**
   * `knn_query(q, k)`. `search(q, k)` stands for the labels the graph walk visits,
   * best first; tombstoned labels are skipped, and fewer than `k` live results is
   * an error.
   */
  function Knn(ix: Index, q: seq<F32>, k: nat, search: (seq<F32>, nat) -> seq<nat>): (r: Result<set<nat>, IndexError>)
    ensures |q| != ix.dim ==> r == Err(WrongDimension)
    ensures r.Ok? ==> r.value <= Live(ix) && |r.value| == k
    ensures r.Err? && |q| == ix.dim ==> r.error == TooFewResults
  {
    if |q| != ix.dim then Err(WrongDimension)
    else
      var found := TakeLive(search(q, k), Live(ix), k);
      if |found| < k then Err(TooFewResults) else Ok(found)
  }

  /** No query can return more live labels than the index holds. */
  lemma KnnNeedsLiveLabels(ix: Index, q: seq<F32>, k: nat, search: (seq<F32>, nat) -> seq<nat>)
    requires |Live(ix)| < k
    ensures Knn(ix, q, k, search).Err?
  {
    if Knn(ix, q, k, search).Ok? {
      var r := Knn(ix, q, k, search).value;
      Ids.SubsetCard(r, Live(ix));
    }
  }
}
