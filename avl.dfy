/**
 * The station tree of the aggregation engine: an AVL tree keyed by station id
 * whose insertion merges a duplicate key into the existing record instead of
 * adding a node.
 *
 * Nodes are immutable values here. The C code rewires the child pointers and
 * the cached heights of nodes that nobody else points to, so building new
 * values gives the same tree.
 */
module Avl {

  /** One station's accumulated record (`Station` in avl.h). */
  datatype Station = Station(id: int, capacity: int, consumption: int)

  /** `AVLNode*`: `Nil` is the NULL pointer; `height` is the cached field. */
  datatype Tree = Nil | Node(station: Station, left: Tree, right: Tree, height: int)

  // ---------------------------------------------------------------------------
  // Specification functions
  // ---------------------------------------------------------------------------

  /** The real height of a tree (number of nodes on its longest path). */
  ghost function Height(t: Tree): nat
  {
    match t
    case Nil => 0
    case Node(_, l, r, _) => if Height(l) < Height(r) then 1 + Height(r) else 1 + Height(l)
  }

  ghost function Keys(t: Tree): set<int>
  {
    match t
    case Nil => {}
    case Node(st, l, r, _) => Keys(l) + {st.id} + Keys(r)
  }

  /** Every station stored in the tree, counted once per node. */
  ghost function Stations(t: Tree): multiset<Station>
  {
    match t
    case Nil => multiset{}
    case Node(st, l, r, _) => Stations(l) + multiset{st} + Stations(r)
  }

  /**
   * The record kept for each id. Where a malformed tree holds an id twice the
   * node met later in left-node-right order wins, so that the view depends on
   * the in-order sequence only.
   */
  ghost function Content(t: Tree): (m: map<int, Station>)
    ensures m.Keys == Keys(t)
  {
    match t
    case Nil => map[]
    case Node(st, l, r, _) => Content(l) + map[st.id := st] + Content(r)
  }

  /** Keys strictly increase from left to right. */
  ghost predicate IsBST(t: Tree)
  {
    match t
    case Nil => true
    case Node(st, l, r, _) =>
      IsBST(l) && IsBST(r) &&
      (forall k :: k in Keys(l) ==> k < st.id) &&
      (forall k :: k in Keys(r) ==> st.id < k)
  }

  /** Every cached height is right and every balance factor is -1, 0 or 1. */
  ghost predicate IsAVL(t: Tree)
  {
    match t
    case Nil => true
    case Node(_, l, r, h) =>
      IsAVL(l) && IsAVL(r) && h == Height(t) && -1 <= Height(l) - Height(r) <= 1
  }

  /** The invariant every tree built by `InsertAVL` from `Nil` keeps. */
  ghost predicate Valid(t: Tree)
  {
    IsBST(t) && IsAVL(t)
  }

  ghost predicate Ascending(xs: seq<Station>)
  {
    forall i, j :: 0 <= i < j < |xs| ==> xs[i].id < xs[j].id
  }

  /** Same ids at the same places and the same cached heights: records aside, one tree. */
  ghost predicate SameShape(a: Tree, b: Tree)
  {
    match a
    case Nil => b.Nil?
    case Node(sa, la, ra, ha) =>
      b.Node? && sa.id == b.station.id && ha == b.height && SameShape(la, b.left) && SameShape(ra, b.right)
  }

  /** What one contribution does to the per-id view: merge or add. */
  ghost function Contribute(m: map<int, Station>, s: Station): map<int, Station>
  {
    m[s.id := if s.id in m then Merge(m[s.id], s) else s]
  }

  // ---------------------------------------------------------------------------
  // Operations of avl.c
  // ---------------------------------------------------------------------------

  /** `getHeight`: the cached height, 0 for an empty subtree. */
  function GetHeight(t: Tree): (h: int)
    ensures t.Nil? ==> h == 0
    ensures IsAVL(t) ==> h == Height(t)
  {
    if t.Nil? then 0 else t.height
  }

  function Max(a: int, b: int): (m: int)
    ensures a <= m && b <= m
    ensures m == a || m == b
  {
    if a > b then a else b
  }

  /** `getBalance`: left height minus right height, 0 for an empty subtree. */
  function GetBalance(t: Tree): (b: int)
    ensures t.Nil? ==> b == 0
    ensures t.Node? && IsAVL(t.left) && IsAVL(t.right) ==> b == Height(t.left) - Height(t.right)
  {
    if t.Nil? then 0 else GetHeight(t.left) - GetHeight(t.right)
  }

  /** `createNode`: a leaf of height 1 holding the station. */
  function CreateNode(s: Station): (r: Tree)
    ensures Valid(r) && Height(r) == 1
    ensures r.Node? && r.station == s && r.left == Nil && r.right == Nil
    ensures InOrderTraversal(r) == [s] && Content(r) == map[s.id := s]
  {
    Node(s, Nil, Nil, 1)
  }

  /** `rightRotate`: the left child becomes the root. */
  function RightRotate(y: Tree): (r: Tree)
    requires y.Node? && y.left.Node?
    ensures r.Node? && r.right.Node?
    ensures r.station == y.left.station && r.left == y.left.left
    ensures r.right.station == y.station && r.right.left == y.left.right && r.right.right == y.right
    ensures r.right.height == 1 + Max(GetHeight(r.right.left), GetHeight(r.right.right))
    ensures r.height == 1 + Max(GetHeight(r.left), GetHeight(r.right))
  {
    var x := y.left;
    var t2 := x.right;
    var y' := Node(y.station, t2, y.right, Max(GetHeight(t2), GetHeight(y.right)) + 1);
    var x' := Node(x.station, x.left, y', Max(GetHeight(x.left), GetHeight(y')) + 1);
    x'
  }

  /** `leftRotate`: the right child becomes the root. */
  function LeftRotate(x: Tree): (r: Tree)
    requires x.Node? && x.right.Node?
    ensures r.Node? && r.left.Node?
    ensures r.station == x.right.station && r.right == x.right.right
    ensures r.left.station == x.station && r.left.left == x.left && r.left.right == x.right.left
    ensures r.left.height == 1 + Max(GetHeight(r.left.left), GetHeight(r.left.right))
    ensures r.height == 1 + Max(GetHeight(r.left), GetHeight(r.right))
  {
    var y := x.right;
    var t2 := y.left;
    var x' := Node(x.station, x.left, t2, Max(GetHeight(x.left), GetHeight(t2)) + 1);
    var y' := Node(y.station, x', y.right, Max(GetHeight(x'), GetHeight(y.right)) + 1);
    y'
  }

  /**
   * The merge applied to an existing record on a duplicate key: each field of
   * the incoming station is added when it is non-zero. Adding a zero field
   * would change nothing either, so the result is the plain sum.
   */
  function Merge(existing: Station, incoming: Station): (r: Station)
    ensures r.id == existing.id
    ensures r.capacity == existing.capacity + incoming.capacity
    ensures r.consumption == existing.consumption + incoming.consumption
  {
    var withCapacity :=
      if incoming.capacity != 0 then existing.(capacity := existing.capacity + incoming.capacity)
      else existing;
    if incoming.consumption != 0 then withCapacity.(consumption := withCapacity.consumption + incoming.consumption)
    else withCapacity
  }

  /**
   * A subtree into which `id` was just inserted and whose height grew: `id`
   * is below its root, and the side that received it is the taller one.
   */
  ghost predicate GrewToward(t: Tree, id: int)
  {
    t.Node? && id != t.station.id &&
    (id < t.station.id ==> Height(t.left) == Height(t.right) + 1) &&
    (id > t.station.id ==> Height(t.right) == Height(t.left) + 1)
  }

  /**
   * What rebalancing a node after an insertion below it may rely on: valid
   * subtrees on the right sides of the node's key whose heights differ by at
   * most 2, and by 2 only where inserting `id` has just made a subtree grow.
   */
  ghost predicate Rebalanceable(node: Tree, id: int)
  {
    node.Node? && Valid(node.left) && Valid(node.right) &&
    (forall k :: k in Keys(node.left) ==> k < node.station.id) &&
    (forall k :: k in Keys(node.right) ==> node.station.id < k) &&
    -2 <= Height(node.left) - Height(node.right) <= 2 &&
    (Height(node.left) - Height(node.right) == 2 ==> GrewToward(node.left, id)) &&
    (Height(node.right) - Height(node.left) == 2 ==> GrewToward(node.right, id))
  }

  /**
   * Lines 89-117 of `insertAVL`, run on a node one of whose subtrees has just
   * received `id`: refresh the cached height, then apply whichever of the four
   * rotations the balance factor and `id` select, or none.
   */
  function Rebalance(node: Tree, id: int): (r: Tree)
    requires Rebalanceable(node, id)
    ensures Valid(r) && Keys(r) == Keys(node)
    ensures -1 <= Height(node.left) - Height(node.right) <= 1 ==>
              r.Node? && r.station == node.station && r.left == node.left && r.right == node.right
    ensures Height(r) == if -1 <= Height(node.left) - Height(node.right) <= 1
                         then 1 + Max(Height(node.left), Height(node.right))
                         else Max(Height(node.left), Height(node.right))
  {
    var n := node.(height := 1 + Max(GetHeight(node.left), GetHeight(node.right)));
    var balance := GetBalance(n);
    if balance > 1 && id < n.left.station.id then
      RightRotateKeepsBST(n);
      RightRotateBalances(n);
      RightRotate(n)
    else if balance < -1 && id > n.right.station.id then
      LeftRotateKeepsBST(n);
      LeftRotateBalances(n);
      LeftRotate(n)
    else if balance > 1 && id > n.left.station.id then
      var n' := n.(left := LeftRotate(n.left));
      LeftRotateKeepsBST(n.left);
      RightRotateKeepsBST(n');
      LeftRightBalances(n);
      RightRotate(n')
    else if balance < -1 && id < n.right.station.id then
      var n' := n.(right := RightRotate(n.right));
      RightRotateKeepsBST(n.right);
      LeftRotateKeepsBST(n');
      RightLeftBalances(n);
      LeftRotate(n')
    else
      n
  }

  /**
   * `insertAVL`: a new id gets a new leaf and the tree is rebalanced on the way
   * back up; an id already present has the incoming capacity and consumption
   * merged into its record.
   */
  function InsertAVL(t: Tree, s: Station): (r: Tree)
    requires Valid(t)
    ensures Valid(r) && Keys(r) == Keys(t) + {s.id}
    ensures Height(r) == Height(t) || Height(r) == Height(t) + 1
    ensures s.id in Keys(t) ==> Height(r) == Height(t)
    ensures Height(r) == Height(t) + 1 && Height(r) >= 2 ==> GrewToward(r, s.id)
    decreases t
  {
    match t
    case Nil => CreateNode(s)
    case Node(st, l, rt, h) =>
      if s.id < st.id then
        var l' := InsertAVL(l, s);
        InsertedLeft(t, s, l');
        InsertedLeftKeys(t, s, l');
        InsertedLeftHeights(t, s, l');
        Rebalance(Node(st, l', rt, h), s.id)
      else if s.id > st.id then
        var r' := InsertAVL(rt, s);
        InsertedRight(t, s, r');
        InsertedRightKeys(t, s, r');
        InsertedRightHeights(t, s, r');
        Rebalance(Node(st, l, r', h), s.id)
      else
        MergedHere(t, s);
        Node(Merge(st, s), l, rt, h)
  }

  /** Merging into the node that already holds `s.id` changes no key and no height. */
  lemma MergedHere(t: Tree, s: Station)
    requires Valid(t) && t.Node? && s.id == t.station.id
    ensures var r := Node(Merge(t.station, s), t.left, t.right, t.height);
      Valid(r) && Keys(r) == Keys(t) + {s.id} && Height(r) == Height(t)
  {
  }

  /** `inOrderTraversal`: the records left subtree first, then the node, then the right subtree. */
  function InOrderTraversal(t: Tree): seq<Station>
  {
    match t
    case Nil => []
    case Node(st, l, rt, _) => InOrderTraversal(l) + [st] + InOrderTraversal(rt)
  }

  // ---------------------------------------------------------------------------
  // Helper lemmas for the operations above
  // ---------------------------------------------------------------------------

  /** `rightRotate` keeps the in-order sequence. */
  lemma RightRotateKeepsInOrder(y: Tree)
    requires y.Node? && y.left.Node?
    ensures InOrderTraversal(RightRotate(y)) == InOrderTraversal(y)
  {
    var Node(ys, Node(xs, a, b, _), c, _) := y;
  }

  /** `rightRotate` keeps the per-id view. */
  lemma RightRotateKeepsContent(y: Tree)
    requires y.Node? && y.left.Node?
    ensures Content(RightRotate(y)) == Content(y)
  {
    var Node(ys, Node(xs, a, b, _), c, _) := y;
    MapUnionAssoc(Content(a) + map[xs.id := xs], Content(b) + map[ys.id := ys], Content(c));
    MapUnionAssoc(Content(a) + map[xs.id := xs], Content(b), map[ys.id := ys]);
  }

  /** `leftRotate` keeps the in-order sequence. */
  lemma LeftRotateKeepsInOrder(x: Tree)
    requires x.Node? && x.right.Node?
    ensures InOrderTraversal(LeftRotate(x)) == InOrderTraversal(x)
  {
    var Node(xs, a, Node(ys, b, c, _), _) := x;
  }

  /** `leftRotate` keeps the per-id view. */
  lemma LeftRotateKeepsContent(x: Tree)
    requires x.Node? && x.right.Node?
    ensures Content(LeftRotate(x)) == Content(x)
  {
    var Node(xs, a, Node(ys, b, c, _), _) := x;
    MapUnionAssoc(Content(a) + map[xs.id := xs], Content(b) + map[ys.id := ys], Content(c));
    MapUnionAssoc(Content(a) + map[xs.id := xs], Content(b), map[ys.id := ys]);
  }

  lemma MapUnionAssoc(a: map<int, Station>, b: map<int, Station>, c: map<int, Station>)
    ensures a + (b + c) == (a + b) + c
  {
  }

  lemma RightRotateKeepsBST(y: Tree)
    requires y.Node? && y.left.Node? && IsBST(y)
    ensures IsBST(RightRotate(y)) && Keys(RightRotate(y)) == Keys(y)
  {
    var Node(ys, Node(xs, a, b, _), c, _) := y;
    assert Keys(y.left) == Keys(a) + {xs.id} + Keys(b);
  }

  lemma LeftRotateKeepsBST(x: Tree)
    requires x.Node? && x.right.Node? && IsBST(x)
    ensures IsBST(LeftRotate(x)) && Keys(LeftRotate(x)) == Keys(x)
  {
    var Node(xs, a, Node(ys, b, c, _), _) := x;
    assert Keys(x.right) == Keys(b) + {ys.id} + Keys(c);
  }

  /** Left-left case: a single right rotation restores the balance. */
  lemma RightRotateBalances(y: Tree)
    requires y.Node? && y.left.Node? && IsAVL(y.left) && IsAVL(y.right)
    requires Height(y.left) == Height(y.right) + 2
    requires Height(y.left.left) == Height(y.left.right) + 1
    ensures IsAVL(RightRotate(y)) && Height(RightRotate(y)) == Height(y.left)
  {
  }

  /** Right-right case: a single left rotation restores the balance. */
  lemma LeftRotateBalances(x: Tree)
    requires x.Node? && x.right.Node? && IsAVL(x.left) && IsAVL(x.right)
    requires Height(x.right) == Height(x.left) + 2
    requires Height(x.right.right) == Height(x.right.left) + 1
    ensures IsAVL(LeftRotate(x)) && Height(LeftRotate(x)) == Height(x.right)
  {
  }

  /** Left-right case: rotating the left child left, then the node right, restores the balance. */
  lemma LeftRightBalances(n: Tree)
    requires n.Node? && n.left.Node? && n.left.right.Node? && IsAVL(n.left) && IsAVL(n.right)
    requires Height(n.left) == Height(n.right) + 2
    requires Height(n.left.right) == Height(n.left.left) + 1
    ensures IsAVL(RightRotate(n.(left := LeftRotate(n.left))))
    ensures Height(RightRotate(n.(left := LeftRotate(n.left)))) == Height(n.left)
  {
    var Node(xs, a, z, _) := n.left;
    var Node(zs, b1, b2, _) := z;
    assert IsAVL(z) && IsAVL(b1) && IsAVL(b2);
    var lr := LeftRotate(n.left);
    assert lr.left == Node(xs, a, b1, 1 + Max(Height(a), Height(b1)));
    var rr := RightRotate(n.(left := lr));
    assert rr.right == Node(n.station, b2, n.right, 1 + Max(Height(b2), Height(n.right)));
  }

  /** Right-left case: rotating the right child right, then the node left, restores the balance. */
  lemma RightLeftBalances(n: Tree)
    requires n.Node? && n.right.Node? && n.right.left.Node? && IsAVL(n.left) && IsAVL(n.right)
    requires Height(n.right) == Height(n.left) + 2
    requires Height(n.right.left) == Height(n.right.right) + 1
    ensures IsAVL(LeftRotate(n.(right := RightRotate(n.right))))
    ensures Height(LeftRotate(n.(right := RightRotate(n.right)))) == Height(n.right)
  {
    var Node(ys, z, c, _) := n.right;
    var Node(zs, b1, b2, _) := z;
    assert IsAVL(z) && IsAVL(b1) && IsAVL(b2);
    var rr := RightRotate(n.right);
    assert rr.right == Node(ys, b2, c, 1 + Max(Height(b2), Height(c)));
    var lr := LeftRotate(n.(right := rr));
    assert lr.left == Node(n.station, n.left, b1, 1 + Max(Height(n.left), Height(b1)));
  }

  /** After `s` went into the left subtree, the node may be rebalanced. */
  lemma InsertedLeft(t: Tree, s: Station, l': Tree)
    requires Valid(t) && t.Node? && s.id < t.station.id
    requires Valid(l') && Keys(l') == Keys(t.left) + {s.id}
    requires Height(l') == Height(t.left) || Height(l') == Height(t.left) + 1
    requires Height(l') == Height(t.left) + 1 && Height(l') >= 2 ==> GrewToward(l', s.id)
    ensures Rebalanceable(Node(t.station, l', t.right, t.height), s.id)
  {
  }

  /** After `s` went into the right subtree, the node may be rebalanced. */
  lemma InsertedRight(t: Tree, s: Station, r': Tree)
    requires Valid(t) && t.Node? && s.id > t.station.id
    requires Valid(r') && Keys(r') == Keys(t.right) + {s.id}
    requires Height(r') == Height(t.right) || Height(r') == Height(t.right) + 1
    requires Height(r') == Height(t.right) + 1 && Height(r') >= 2 ==> GrewToward(r', s.id)
    ensures Rebalanceable(Node(t.station, t.left, r', t.height), s.id)
  {
  }

  /** Rebalancing after `s` went into the left subtree leaves a valid tree holding one more id. */
  lemma InsertedLeftKeys(t: Tree, s: Station, l': Tree)
    requires t.Node? && Keys(l') == Keys(t.left) + {s.id}
    requires Rebalanceable(Node(t.station, l', t.right, t.height), s.id)
    ensures var r := Rebalance(Node(t.station, l', t.right, t.height), s.id);
      Valid(r) && Keys(r) == Keys(t) + {s.id}
  {
  }

  /** Rebalancing after `s` went into the right subtree leaves a valid tree holding one more id. */
  lemma InsertedRightKeys(t: Tree, s: Station, r': Tree)
    requires t.Node? && Keys(r') == Keys(t.right) + {s.id}
    requires Rebalanceable(Node(t.station, t.left, r', t.height), s.id)
    ensures var r := Rebalance(Node(t.station, t.left, r', t.height), s.id);
      Valid(r) && Keys(r) == Keys(t) + {s.id}
  {
  }

  /** The heights `InsertAVL` promises, when `s` went into the left subtree. */
  lemma InsertedLeftHeights(t: Tree, s: Station, l': Tree)
    requires Valid(t) && t.Node? && s.id < t.station.id
    requires Rebalanceable(Node(t.station, l', t.right, t.height), s.id)
    requires Height(l') == Height(t.left) || Height(l') == Height(t.left) + 1
    requires s.id in Keys(t.left) ==> Height(l') == Height(t.left)
    ensures var r := Rebalance(Node(t.station, l', t.right, t.height), s.id);
      (Height(r) == Height(t) || Height(r) == Height(t) + 1) &&
      (s.id in Keys(t) ==> Height(r) == Height(t)) &&
      (Height(r) == Height(t) + 1 && Height(r) >= 2 ==> GrewToward(r, s.id))
  {
    var r := Rebalance(Node(t.station, l', t.right, t.height), s.id);
    assert IsBST(t) && s.id !in Keys(t.right);
    if Height(l') - Height(t.right) == 2 {
      assert Height(r) == Height(l') == Height(t);
    } else if Height(l') == Height(t.left) {
      assert Height(r) == Height(t);
    } else {
      assert Height(r) == 1 + Height(l');
    }
  }

  /** The heights `InsertAVL` promises, when `s` went into the right subtree. */
  lemma InsertedRightHeights(t: Tree, s: Station, r': Tree)
    requires Valid(t) && t.Node? && s.id > t.station.id
    requires Rebalanceable(Node(t.station, t.left, r', t.height), s.id)
    requires Height(r') == Height(t.right) || Height(r') == Height(t.right) + 1
    requires s.id in Keys(t.right) ==> Height(r') == Height(t.right)
    ensures var r := Rebalance(Node(t.station, t.left, r', t.height), s.id);
      (Height(r) == Height(t) || Height(r) == Height(t) + 1) &&
      (s.id in Keys(t) ==> Height(r) == Height(t)) &&
      (Height(r) == Height(t) + 1 && Height(r) >= 2 ==> GrewToward(r, s.id))
  {
    var r := Rebalance(Node(t.station, t.left, r', t.height), s.id);
    assert IsBST(t) && s.id !in Keys(t.left);
    if Height(r') - Height(t.left) == 2 {
      assert Height(r) == Height(r') == Height(t);
    } else if Height(r') == Height(t.right) {
      assert Height(r) == Height(t);
    } else {
      assert Height(r) == 1 + Height(r');
    }
  }

  /** Rebalancing only rearranges the nodes: the in-order sequence and the per-id view stay. */
  lemma RebalanceKeepsOrder(node: Tree, id: int)
    requires Rebalanceable(node, id)
    ensures InOrderTraversal(Rebalance(node, id)) == InOrderTraversal(node)
    ensures Content(Rebalance(node, id)) == Content(node)
  {
    var n := node.(height := 1 + Max(GetHeight(node.left), GetHeight(node.right)));
    var balance := GetBalance(n);
    if balance > 1 && id < n.left.station.id {
      RightRotateKeepsInOrder(n);
      RightRotateKeepsContent(n);
    } else if balance < -1 && id > n.right.station.id {
      LeftRotateKeepsInOrder(n);
      LeftRotateKeepsContent(n);
    } else if balance > 1 && id > n.left.station.id {
      var n' := n.(left := LeftRotate(n.left));
      LeftRotateKeepsInOrder(n.left);
      LeftRotateKeepsContent(n.left);
      RightRotateKeepsInOrder(n');
      RightRotateKeepsContent(n');
    } else if balance < -1 && id < n.right.station.id {
      var n' := n.(right := RightRotate(n.right));
      RightRotateKeepsInOrder(n.right);
      RightRotateKeepsContent(n.right);
      LeftRotateKeepsInOrder(n');
      LeftRotateKeepsContent(n');
    }
  }

  /**
   * The per-id view after `insertAVL`: a new id maps to the incoming station,
   * an existing id to its record merged with the incoming one, and every other
   * id to its unchanged record.
   */
  lemma {:induction false} InsertAVLContent(t: Tree, s: Station)
    requires Valid(t)
    ensures Content(InsertAVL(t, s)) == Contribute(Content(t), s)
  {
    match t
    case Nil =>
    case Node(st, l, rt, h) =>
      if s.id < st.id {
        var l' := InsertAVL(l, s);
        InsertAVLContent(l, s);
        ContributeLeft(t, l', s);
        InsertedLeft(t, s, l');
        RebalanceKeepsOrder(Node(st, l', rt, h), s.id);
        assert InsertAVL(t, s) == Rebalance(Node(st, l', rt, h), s.id);
      } else if s.id > st.id {
        var r' := InsertAVL(rt, s);
        InsertAVLContent(rt, s);
        ContributeRight(t, r', s);
        InsertedRight(t, s, r');
        RebalanceKeepsOrder(Node(st, l, r', h), s.id);
        assert InsertAVL(t, s) == Rebalance(Node(st, l, r', h), s.id);
      } else {
        ContributeHere(t, s);
      }
  }

  /** The per-id view after a contribution merged into the root's record. */
  lemma ContributeHere(t: Tree, s: Station)
    requires t.Node? && IsBST(t) && s.id == t.station.id
    ensures Content(Node(Merge(t.station, s), t.left, t.right, t.height)) == Contribute(Content(t), s)
  {
  }

  /** The per-id view after a contribution went into the left subtree. */
  lemma ContributeLeft(t: Tree, l': Tree, s: Station)
    requires t.Node? && IsBST(t) && s.id < t.station.id
    requires Content(l') == Contribute(Content(t.left), s)
    ensures Content(Node(t.station, l', t.right, t.height)) == Contribute(Content(t), s)
  {
    var Node(st, l, rt, _) := t;
    assert s.id !in Content(rt);
    UpdateBelowUnion(Content(l) + map[st.id := st], Content(rt), s);
    UpdateBelowUnion(Content(l), map[st.id := st], s);
  }

  /** The per-id view after a contribution went into the right subtree. */
  lemma ContributeRight(t: Tree, r': Tree, s: Station)
    requires t.Node? && IsBST(t) && s.id > t.station.id
    requires Content(r') == Contribute(Content(t.right), s)
    ensures Content(Node(t.station, t.left, r', t.height)) == Contribute(Content(t), s)
  {
    var Node(st, l, rt, _) := t;
    assert s.id !in Content(l) + map[st.id := st];
    UpdateAboveUnion(Content(l) + map[st.id := st], Content(rt), s);
  }

  /** A contribution whose id only the left operand of a map union holds goes into that operand. */
  lemma UpdateBelowUnion(a: map<int, Station>, b: map<int, Station>, s: Station)
    requires s.id !in b
    ensures Contribute(a + b, s) == Contribute(a, s) + b
  {
  }

  /** A contribution whose id the left operand of a map union lacks goes into the right operand. */
  lemma UpdateAboveUnion(a: map<int, Station>, b: map<int, Station>, s: Station)
    requires s.id !in a
    ensures Contribute(a + b, s) == a + Contribute(b, s)
  {
  }

  /**
   * A contribution for an id already present goes into that node's record:
   * no node is added, no height changes and no rotation happens.
   */
  lemma {:induction false} InsertExistingKeepsShape(t: Tree, s: Station)
    requires Valid(t) && s.id in Keys(t)
    ensures SameShape(InsertAVL(t, s), t)
  {
    match t
    case Node(st, l, rt, h) =>
      if s.id < st.id {
        assert s.id in Keys(l);
        var l' := InsertAVL(l, s);
        InsertExistingKeepsShape(l, s);
        SameShapeHeight(l', l);
        SameShapeRefl(rt);
        assert InsertAVL(t, s) == Rebalance(Node(st, l', rt, h), s.id);
      } else if s.id > st.id {
        assert s.id in Keys(rt);
        var r' := InsertAVL(rt, s);
        InsertExistingKeepsShape(rt, s);
        SameShapeHeight(r', rt);
        SameShapeRefl(l);
        assert InsertAVL(t, s) == Rebalance(Node(st, l, r', h), s.id);
      } else {
        SameShapeRefl(l);
        SameShapeRefl(rt);
      }
  }

  lemma {:induction false} SameShapeHeight(a: Tree, b: Tree)
    requires SameShape(a, b)
    ensures Height(a) == Height(b)
  {
    match a
    case Nil =>
    case Node(_, la, ra, _) =>
      SameShapeHeight(la, b.left);
      SameShapeHeight(ra, b.right);
  }

  lemma {:induction false} SameShapeRefl(t: Tree)
    ensures SameShape(t, t)
  {
    match t
    case Nil =>
    case Node(_, l, r, _) =>
      SameShapeRefl(l);
      SameShapeRefl(r);
  }

  /** The view files every record under its own id. */
  lemma {:induction false} ContentIds(t: Tree, k: int)
    requires k in Content(t)
    ensures Content(t)[k].id == k
  {
    match t
    case Node(st, l, r, _) =>
      if k in Content(r) {
        ContentIds(r, k);
      } else if k != st.id {
        ContentIds(l, k);
      }
  }
}
