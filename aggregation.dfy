/**
 * What a whole run of `insertAVL` calls builds: one record per distinct id
 * whose capacity and consumption are the sums of every contribution for that
 * id, so that neither the tree's view nor its traversal depends on the order
 * in which the contributions arrived.
 */
module Aggregation {
  import opened Avl
  import opened Traversal

  /** The ids the contributions mention. */
  ghost function Ids(ss: seq<Station>): set<int>
  {
    set i | 0 <= i < |ss| :: ss[i].id
  }

  /** The tree after feeding the contributions, in order, to `insertAVL` from the empty tree. */
  ghost function Build(ss: seq<Station>): (t: Tree)
    ensures Valid(t) && Keys(t) == Ids(ss)
  {
    if ss == [] then Nil
    else
      var t0 := Build(ss[..|ss| - 1]);
      IdsSnoc(ss);
      InsertAVL(t0, ss[|ss| - 1])
  }

  /** One more contribution is one more `insertAVL` call. */
  lemma BuildSnoc(ss: seq<Station>, s: Station)
    ensures Build(ss + [s]) == InsertAVL(Build(ss), s)
  {
    assert (ss + [s])[..|ss|] == ss;
  }

  /**
   * The reference total for one id: the id with the sum of the capacities and
   * the sum of the consumptions of the contributions carrying it.
   */
  ghost function Total(ss: seq<Station>, id: int): (r: Station)
    ensures r.id == id
  {
    if ss == [] then Station(id, 0, 0)
    else
      var x := ss[|ss| - 1];
      var s0 := Total(ss[..|ss| - 1], id);
      if x.id == id then Station(id, s0.capacity + x.capacity, s0.consumption + x.consumption) else s0
  }

  /** The reference per-id view: a total for each id mentioned, and nothing else. */
  ghost function Totals(ss: seq<Station>): map<int, Station>
  {
    map id | id in Ids(ss) :: Total(ss, id)
  }

  lemma IdsSnoc(ss: seq<Station>)
    requires ss != []
    ensures Ids(ss) == Ids(ss[..|ss| - 1]) + {ss[|ss| - 1].id}
  {
    var init := ss[..|ss| - 1];
    forall k | k in Ids(ss) ensures k in Ids(init) + {ss[|ss| - 1].id} {
      var i :| 0 <= i < |ss| && ss[i].id == k;
      if i < |ss| - 1 { assert init[i] == ss[i]; }
    }
    forall k | k in Ids(init) ensures k in Ids(ss) {
      var i :| 0 <= i < |init| && init[i].id == k;
      assert ss[i] == init[i];
    }
  }

  /** No contribution for `id`, nothing summed. */
  lemma {:induction false} TotalAbsent(ss: seq<Station>, id: int)
    requires id !in Ids(ss)
    ensures Total(ss, id) == Station(id, 0, 0)
    decreases |ss|
  {
    if ss != [] {
      IdsSnoc(ss);
      TotalAbsent(ss[..|ss| - 1], id);
    }
  }

  /**
   * The tree `insertAVL` builds holds exactly the reference totals: one record
   * per id mentioned, carrying the sums of that id's contributions.
   */
  lemma {:induction false} BuildTotals(ss: seq<Station>)
    ensures Content(Build(ss)) == Totals(ss)
    decreases |ss|
  {
    if ss != [] {
      var init, x := ss[..|ss| - 1], ss[|ss| - 1];
      BuildTotals(init);
      InsertAVLContent(Build(init), x);
      ContributeTotals(ss);
    }
  }

  /** One more contribution turns the reference view before it into the one after it. */
  lemma ContributeTotals(ss: seq<Station>)
    requires ss != []
    ensures Contribute(Totals(ss[..|ss| - 1]), ss[|ss| - 1]) == Totals(ss)
  {
    var init, x := ss[..|ss| - 1], ss[|ss| - 1];
    IdsSnoc(ss);
    if x.id !in Ids(init) {
      TotalAbsent(init, x.id);
    }
    var m := Contribute(Totals(init), x);
    assert m.Keys == Ids(ss);
    forall k | k in Ids(ss) ensures m[k] == Total(ss, k) {
    }
  }

  /** The total of a concatenation adds the totals of its parts. */
  lemma {:induction false} TotalAppend(a: seq<Station>, b: seq<Station>, id: int)
    ensures Total(a + b, id) == Merge(Total(a, id), Total(b, id))
    decreases |b|
  {
    if b == [] {
      assert a + b == a;
    } else {
      assert (a + b)[..|a + b| - 1] == a + b[..|b| - 1];
      assert (a + b)[|a + b| - 1] == b[|b| - 1];
      TotalAppend(a, b[..|b| - 1], id);
    }
  }

  /** Reordering the contributions changes no total. */
  lemma {:induction false} TotalPermutation(ss: seq<Station>, tt: seq<Station>, id: int)
    requires multiset(ss) == multiset(tt)
    ensures Total(ss, id) == Total(tt, id)
    decreases |ss|
  {
    if ss == [] {
      assert |tt| == |multiset(tt)| == 0;
    } else {
      var init, x := ss[..|ss| - 1], ss[|ss| - 1];
      assert x in multiset(tt);
      var i :| 0 <= i < |tt| && tt[i] == x;
      var before, after := tt[..i], tt[i + 1..];
      PermutationTail(ss, tt, i);
      TotalPermutation(init, before + after, id);
      assert ss == init + [x];
      TotalAppend(init, [x], id);
      TotalAppend(before, after, id);
      TotalAppend(before + [x], after, id);
      TotalAppend(before, [x], id);
      MergeSwap(Total(before, id), Total(after, id), Total([x], id));
    }
  }

  /** Adding two contributions into a record in either order gives the same record. */
  lemma MergeSwap(a: Station, b: Station, c: Station)
    ensures Merge(Merge(a, b), c) == Merge(Merge(a, c), b)
  {
  }

  /** Matching the last element of one permutation in the other leaves permutations behind. */
  lemma PermutationTail(ss: seq<Station>, tt: seq<Station>, i: int)
    requires multiset(ss) == multiset(tt) && ss != []
    requires 0 <= i < |tt| && tt[i] == ss[|ss| - 1]
    ensures tt == tt[..i] + [tt[i]] + tt[i + 1..]
    ensures multiset(ss[..|ss| - 1]) == multiset(tt[..i] + tt[i + 1..])
  {
    var init, x := ss[..|ss| - 1], ss[|ss| - 1];
    assert ss == init + [x];
    RemoveAt(tt, i);
    assert multiset(init) == multiset(ss) - multiset{x};
  }

  /** Taking one element out of a sequence takes it out of its multiset. */
  lemma RemoveAt(tt: seq<Station>, i: int)
    requires 0 <= i < |tt|
    ensures tt == tt[..i] + [tt[i]] + tt[i + 1..]
    ensures multiset(tt[..i] + tt[i + 1..]) == multiset(tt) - multiset{tt[i]}
  {
    var before, after := tt[..i], tt[i + 1..];
    assert tt == before + [tt[i]] + after;
    assert multiset(tt) == multiset(before) + multiset{tt[i]} + multiset(after);
    assert multiset(before + after) == multiset(before) + multiset(after);
  }

  /** Contributions that are a permutation of each other mention the same ids. */
  lemma IdsPermutation(ss: seq<Station>, tt: seq<Station>)
    requires multiset(ss) == multiset(tt)
    ensures Ids(ss) == Ids(tt)
  {
    forall k | k in Ids(ss) ensures k in Ids(tt) {
      var i :| 0 <= i < |ss| && ss[i].id == k;
      assert ss[i] in multiset(tt);
      var j :| 0 <= j < |tt| && tt[j] == ss[i];
    }
    forall k | k in Ids(tt) ensures k in Ids(ss) {
      var j :| 0 <= j < |tt| && tt[j].id == k;
      assert tt[j] in multiset(ss);
      var i :| 0 <= i < |ss| && ss[i] == tt[j];
    }
  }

  /**
   * Feeding the same contributions in any order emits the same records in the
   * same order, although the trees built may differ in shape.
   */
  lemma OrderIndependent(ss: seq<Station>, tt: seq<Station>)
    requires multiset(ss) == multiset(tt)
    ensures InOrderTraversal(Build(ss)) == InOrderTraversal(Build(tt))
  {
    BuildTotals(ss);
    BuildTotals(tt);
    IdsPermutation(ss, tt);
    forall k | k in Ids(ss) ensures Total(ss, k) == Total(tt, k) {
      TotalPermutation(ss, tt, k);
    }
    assert Totals(ss) == Totals(tt);
    SameContentSameTraversal(Build(ss), Build(tt));
  }

  /**
   * What the traversal of the built tree emits: one record per id mentioned, in
   * strictly ascending id order, each carrying that id's totals.
   */
  lemma BuildTraversal(ss: seq<Station>)
    ensures var xs := InOrderTraversal(Build(ss));
      Ascending(xs) &&
      (forall i :: 0 <= i < |xs| ==> xs[i].id in Ids(ss) && xs[i] == Total(ss, xs[i].id)) &&
      (forall k :: k in Ids(ss) ==> exists i :: 0 <= i < |xs| && xs[i].id == k)
  {
    var xs := InOrderTraversal(Build(ss));
    BuildTotals(ss);
    TraversalContent(Build(ss));
    TraversalAscending(Build(ss));
    ToMapAscending(xs);
    forall k | k in Ids(ss) ensures exists i :: 0 <= i < |xs| && xs[i].id == k {
      ToMapKeys(xs, k);
    }
  }

  /**
   * A contribution for a new id adds a node holding it as given, and the
   * traversal stays strictly ascending.
   */
  lemma InsertNewKey(t: Tree, s: Station)
    requires Valid(t) && s.id !in Keys(t)
    ensures var r := InsertAVL(t, s);
      Keys(r) == Keys(t) + {s.id} && Content(r) == Content(t)[s.id := s] &&
      Ascending(InOrderTraversal(r))
  {
    InsertAVLContent(t, s);
    TraversalAscending(InsertAVL(t, s));
  }

  /**
   * A contribution for an id already present adds its capacity and consumption
   * into that id's record and leaves every other record as it was.
   */
  lemma InsertExistingKey(t: Tree, s: Station)
    requires Valid(t) && s.id in Keys(t)
    ensures var r := InsertAVL(t, s);
      Keys(r) == Keys(t) && Content(r)[s.id].id == s.id &&
      Content(r)[s.id].capacity == Content(t)[s.id].capacity + s.capacity &&
      Content(r)[s.id].consumption == Content(t)[s.id].consumption + s.consumption &&
      (forall k :: k in Keys(t) && k != s.id ==> Content(r)[k] == Content(t)[k])
  {
    InsertAVLContent(t, s);
    ContentIds(t, s.id);
    MergedView(Content(t), Content(InsertAVL(t, s)), s);
  }

  /** The per-id view after merging into the record already kept for `s.id`. */
  lemma MergedView(m: map<int, Station>, m': map<int, Station>, s: Station)
    requires s.id in m && m[s.id].id == s.id && m' == Contribute(m, s)
    ensures m'.Keys == m.Keys
    ensures m'[s.id].id == s.id
    ensures m'[s.id].capacity == m[s.id].capacity + s.capacity
    ensures m'[s.id].consumption == m[s.id].consumption + s.consumption
    ensures forall k :: k in m && k != s.id ==> m'[k] == m[k]
  {
  }
}
