/**
 * Row ids in ascending order. SQLite hands rows back in rowid order when a
 * query scans a table or an FTS5 index without ORDER BY; the model fixes that
 * order wherever the store returns ids.
 */
module Ids {

  predicate Increasing(r: seq<nat>)
  {
    forall i, j :: 0 <= i < j < |r| ==> r[i] < r[j]
  }

  /** The members of `s` below `n`, in ascending order. */
  function Below(s: set<nat>, n: nat): (r: seq<nat>)
    ensures Increasing(r)
    ensures forall i :: 0 <= i < |r| ==> r[i] < n
    ensures forall x :: x in r <==> x in s && x < n
  {
    if n == 0 then []
    else Below(s, n - 1) + (if n - 1 in s then [n - 1] else [])
  }

  /** No member, no ids. */
  lemma {:induction false} BelowNothing(n: nat)
    ensures Below({}, n) == []
  {
    if n > 0 {
      BelowNothing(n - 1);
    }
  }

  /** `rows[:k]` (LIMIT k, or slicing the fetched rows). */
  function Prefix<T>(r: seq<T>, k: nat): (p: seq<T>)
    ensures |p| == if |r| <= k then |r| else k
    ensures p == r[..|p|]
  {
    if |r| <= k then r else r[..k]
  }

  function Elements(r: seq<nat>): set<nat>
  {
    set x | x in r
  }

  /** A prefix of an ascending list holds every smaller member of the list it was cut from. */
  lemma PrefixOfIncreasing(r: seq<nat>, k: nat, x: nat)
    requires Increasing(r)
    requires x in r && x !in Prefix(r, k)
    ensures |Prefix(r, k)| == k
    ensures forall y :: y in Prefix(r, k) ==> y < x
  {
    var p := Prefix(r, k);
    var j :| 0 <= j < |r| && r[j] == x;
    assert j >= |p|;
    forall y | y in p ensures y < x {
      var i :| 0 <= i < |p| && p[i] == y;
      assert r[i] == y;
    }
  }

  /** An ascending list has as many distinct members as elements. */
  lemma {:induction false} ElementsCard(r: seq<nat>)
    requires Increasing(r)
    ensures |Elements(r)| == |r|
  {
    if r != [] {
      var init := r[..|r| - 1];
      var last := r[|r| - 1];
      assert Increasing(init);
      ElementsCard(init);
      assert Elements(r) == Elements(init) + {last};
      assert last !in Elements(init);
    }
  }

  /** A subset has no more elements than its superset. */
  lemma {:induction false} SubsetCard(a: set<nat>, b: set<nat>)
    requires a <= b
    ensures |a| <= |b|
    decreases |b|
  {
    if b != {} {
      var x :| x in b;
      SubsetCard(a - {x}, b - {x});
    }
  }

  /**
   * A prefix of an ascending list cut at `k` holds only ids below `x` when `k`
   * members of the list are below `x`.
   */
  lemma PrefixBelow(r: seq<nat>, s: set<nat>, k: nat, x: nat)
    requires Increasing(r)
    requires |s| >= k && forall y :: y in s ==> y in r && y < x
    ensures |Prefix(r, k)| == k
    ensures forall y :: y in Prefix(r, k) ==> y < x
  {
    ElementsCard(r);
    SubsetCard(s, Elements(r));
    var p := Prefix(r, k);
    forall y | y in p ensures y < x {
      var i :| 0 <= i < |p| && p[i] == y;
      if y >= x {
        var q := r[..i];
        forall z | z in s ensures z in Elements(q) {
          var j :| 0 <= j < |r| && r[j] == z;
          assert j < i;
          assert q[j] == z;
        }
        ElementsCard(q);
        SubsetCard(s, Elements(q));
        assert false;
      }
    }
  }
}
