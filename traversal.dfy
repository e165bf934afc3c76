/**
 * What `inOrderTraversal` (avl.c) emits: every node's record exactly once,
 * left subtree first, in strictly ascending id order on a search tree, and a
 * sequence that the per-id view of the tree determines completely.
 */
module Traversal {
  import opened Avl

  /** The per-id view of a sequence of records: a later record for an id replaces an earlier one. */
  ghost function ToMap(xs: seq<Station>): map<int, Station>
  {
    if xs == [] then map[] else ToMap(xs[..|xs| - 1])[xs[|xs| - 1].id := xs[|xs| - 1]]
  }

  /** The view of a concatenation: the right part's records win. */
  lemma {:induction false} ToMapAppend(a: seq<Station>, b: seq<Station>)
    ensures ToMap(a + b) == ToMap(a) + ToMap(b)
    decreases |b|
  {
    if b == [] {
      assert a + b == a;
    } else {
      var b0 := b[..|b| - 1];
      assert (a + b)[..|a + b| - 1] == a + b0;
      ToMapAppend(a, b0);
    }
  }

  /** Every key of the view is the id of some record of the sequence. */
  lemma {:induction false} ToMapKeys(xs: seq<Station>, k: int)
    requires k in ToMap(xs)
    ensures exists i :: 0 <= i < |xs| && xs[i].id == k
    decreases |xs|
  {
    var x := xs[|xs| - 1];
    if k != x.id {
      ToMapKeys(xs[..|xs| - 1], k);
      var i :| 0 <= i < |xs| - 1 && xs[..|xs| - 1][i].id == k;
      assert xs[i].id == k;
    }
  }

  /** On an ascending sequence every record is the one the view keeps for its id. */
  lemma {:induction false} ToMapAscending(xs: seq<Station>)
    requires Ascending(xs)
    ensures forall i :: 0 <= i < |xs| ==> xs[i].id in ToMap(xs) && ToMap(xs)[xs[i].id] == xs[i]
    decreases |xs|
  {
    if xs != [] {
      var init := xs[..|xs| - 1];
      ToMapAscending(init);
      forall i | 0 <= i < |xs|
        ensures xs[i].id in ToMap(xs) && ToMap(xs)[xs[i].id] == xs[i]
      {
        if i < |xs| - 1 {
          assert init[i] == xs[i];
          assert xs[i].id < xs[|xs| - 1].id;
        }
      }
    }
  }

  /** `inOrderTraversal` holds the same per-id view as the tree. */
  lemma {:induction false} TraversalContent(t: Tree)
    ensures ToMap(InOrderTraversal(t)) == Content(t)
  {
    match t
    case Nil =>
    case Node(st, l, r, _) =>
      TraversalContent(l);
      TraversalContent(r);
      var L, R := InOrderTraversal(l), InOrderTraversal(r);
      ToMapAppend(L + [st], R);
      ToMapAppend(L, [st]);
      assert [st][..0] == [];
  }

  /** `inOrderTraversal` visits every node exactly once. */
  lemma {:induction false} TraversalStations(t: Tree)
    ensures multiset(InOrderTraversal(t)) == Stations(t)
  {
    match t
    case Nil =>
    case Node(st, l, r, _) =>
      TraversalStations(l);
      TraversalStations(r);
      var L, R := InOrderTraversal(l), InOrderTraversal(r);
      assert multiset(L + [st] + R) == multiset(L) + multiset{st} + multiset(R);
  }

  /** Every record the traversal emits has an id of the tree. */
  lemma {:induction false} TraversalIds(t: Tree)
    ensures forall x :: x in InOrderTraversal(t) ==> x.id in Keys(t)
  {
    match t
    case Nil =>
    case Node(st, l, r, _) =>
      TraversalIds(l);
      TraversalIds(r);
  }

  /** Gluing two ascending sequences around a record whose id separates them. */
  lemma AscendingJoin(a: seq<Station>, s: Station, b: seq<Station>)
    requires Ascending(a) && Ascending(b)
    requires forall x :: x in a ==> x.id < s.id
    requires forall x :: x in b ==> s.id < x.id
    ensures Ascending(a + [s] + b)
  {
    var c := a + [s] + b;
    forall i, j | 0 <= i < j < |c|
      ensures c[i].id < c[j].id
    {
      if j < |a| {
      } else if i < |a| {
        assert c[i] in a;
        if j > |a| { assert c[j] in b; }
      } else if i == |a| {
        assert c[j] in b;
      } else {
        assert c[i] == b[i - |a| - 1] && c[j] == b[j - |a| - 1];
      }
    }
  }

  /** On a search tree the traversal's ids are strictly ascending. */
  lemma {:induction false} TraversalAscending(t: Tree)
    requires IsBST(t)
    ensures Ascending(InOrderTraversal(t))
  {
    match t
    case Nil =>
    case Node(st, l, r, _) =>
      TraversalAscending(l);
      TraversalAscending(r);
      TraversalIds(l);
      TraversalIds(r);
      AscendingJoin(InOrderTraversal(l), st, InOrderTraversal(r));
  }

  /** Two ascending sequences with the same per-id view are the same sequence. */
  lemma {:induction false} AscendingSameMap(xs: seq<Station>, ys: seq<Station>)
    requires Ascending(xs) && Ascending(ys) && ToMap(xs) == ToMap(ys)
    ensures xs == ys
    decreases |xs|
  {
    if xs == [] || ys == [] {
      ToMapEmpty(xs);
      ToMapEmpty(ys);
    } else {
      var x, y := xs[|xs| - 1], ys[|ys| - 1];
      SameLast(xs, ys);
      SameLast(ys, xs);
      assert x == ToMap(xs)[x.id] == ToMap(ys)[y.id] == y;
      var xs0, ys0 := xs[..|xs| - 1], ys[..|ys| - 1];
      DropLast(xs);
      DropLast(ys);
      assert Ascending(xs0) && Ascending(ys0);
      AscendingSameMap(xs0, ys0);
      assert xs == xs0 + [x] && ys == ys0 + [y];
    }
  }

  /** The last id of an ascending sequence is at least every key of its view. */
  lemma SameLast(xs: seq<Station>, ys: seq<Station>)
    requires Ascending(ys) && xs != [] && ys != [] && ToMap(xs) == ToMap(ys)
    ensures xs[|xs| - 1].id <= ys[|ys| - 1].id
  {
    var x := xs[|xs| - 1];
    assert x.id in ToMap(xs);
    ToMapKeys(ys, x.id);
  }

  /** The view of an ascending sequence without its last record. */
  lemma DropLast(xs: seq<Station>)
    requires Ascending(xs) && xs != []
    ensures ToMap(xs[..|xs| - 1]) == ToMap(xs) - {xs[|xs| - 1].id}
  {
    var init, x := xs[..|xs| - 1], xs[|xs| - 1];
    forall i | 0 <= i < |init|
      ensures init[i].id < x.id
    {
      assert init[i] == xs[i];
    }
    IdsBelow(init, x.id);
    var m := ToMap(init);
    assert ToMap(xs) == m[x.id := x];
    assert m[x.id := x] - {x.id} == m;
  }

  /** An id above every record's id is not a key of the view. */
  lemma {:induction false} IdsBelow(xs: seq<Station>, bound: int)
    requires forall i :: 0 <= i < |xs| ==> xs[i].id < bound
    ensures bound !in ToMap(xs)
    decreases |xs|
  {
    if xs != [] {
      var init := xs[..|xs| - 1];
      assert forall i :: 0 <= i < |init| ==> init[i] == xs[i];
      IdsBelow(init, bound);
    }
  }

  /** Only the empty sequence has an empty view. */
  lemma ToMapEmpty(xs: seq<Station>)
    ensures ToMap(xs) == map[] <==> xs == []
  {
    if xs != [] {
      assert xs[|xs| - 1].id in ToMap(xs);
    }
  }

  /**
   * Two search trees with the same per-id view emit the same sequence, whatever
   * their shapes.
   */
  lemma SameContentSameTraversal(t1: Tree, t2: Tree)
    requires IsBST(t1) && IsBST(t2) && Content(t1) == Content(t2)
    ensures InOrderTraversal(t1) == InOrderTraversal(t2)
  {
    TraversalContent(t1);
    TraversalContent(t2);
    TraversalAscending(t1);
    TraversalAscending(t2);
    AscendingSameMap(InOrderTraversal(t1), InOrderTraversal(t2));
  }
}
