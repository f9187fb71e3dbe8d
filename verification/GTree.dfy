// The tree of gtree.c with its nodes in memory.  Every method that rewrites nodes is proved
// to make of the tree what the function of AvlTree by the same name makes of it; AvlRuns
// says what that is.  The list of spare nodes is not part of this model.
module GTree {
  import opened Collections
  import opened AvlTree
  import AvlRuns

  class GTreeNode<K, V> {
    var balance: int
    var left: GTreeNode?<K, V>
    var right: GTreeNode?<K, V>
    var key: K
    var value: V

    // g_tree_node_new
    constructor (key: K, value: V)
      ensures balance == 0 && left == null && right == null && this.key == key && this.value == value
    {
      this.balance, this.left, this.right := 0, null, null;
      this.key, this.value := key, value;
    }
  }

  // which node is where
  datatype Shape<!K, !V> = Nil | At(node: GTreeNode<K, V>, left: Shape<K, V>, right: Shape<K, V>)

  ghost function Top<K, V>(s: Shape<K, V>): GTreeNode?<K, V> {
    if s.Nil? then null else s.node
  }

  ghost function Nodes<K, V>(s: Shape<K, V>): set<GTreeNode<K, V>> {
    if s.Nil? then {} else {s.node} + Nodes(s.left) + Nodes(s.right)
  }

  // no node is in two places
  ghost predicate Distinct<K, V>(s: Shape<K, V>) {
    s.At? ==>
      && s.node !in Nodes(s.left) && s.node !in Nodes(s.right) && Nodes(s.left) !! Nodes(s.right)
      && Distinct(s.left) && Distinct(s.right)
  }

  // The nodes of s are linked as s says and hold the tree t.
  ghost predicate Holds<K, V>(s: Shape<K, V>, t: Tree<K, V>)
    reads Nodes(s)
  {
    if s.Nil? then t.Leaf?
    else
      && t.Node? && s.node.left == Top(s.left) && s.node.right == Top(s.right)
      && s.node.balance == t.balance && s.node.key == t.key && s.node.value == t.value
      && Holds(s.left, t.left) && Holds(s.right, t.right)
  }

  ghost predicate Is<K, V>(s: Shape<K, V>, t: Tree<K, V>)
    reads Nodes(s)
  {
    Distinct(s) && Holds(s, t)
  }

  // What lies below a node, and that a node with its fields set makes a tree of two others.
  lemma Opened<K, V>(s: Shape<K, V>, t: Tree<K, V>)
    requires Is(s, t)
    ensures s.Nil? <==> t.Leaf?
    ensures s.Nil? ==> Nodes(s) == {}
    ensures s.At? ==>
      && Is(s.left, t.left) && Is(s.right, t.right)
      && s.node.left == Top(s.left) && s.node.right == Top(s.right)
      && s.node.balance == t.balance && s.node.key == t.key && s.node.value == t.value
      && Nodes(s) == {s.node} + Nodes(s.left) + Nodes(s.right)
      && s.node !in Nodes(s.left) && s.node !in Nodes(s.right) && Nodes(s.left) !! Nodes(s.right)
  {
  }

  lemma Joined<K, V>(node: GTreeNode<K, V>, l: Shape<K, V>, r: Shape<K, V>, tl: Tree<K, V>, tr: Tree<K, V>)
    requires Is(l, tl) && Is(r, tr) && node.left == Top(l) && node.right == Top(r)
    requires node !in Nodes(l) && node !in Nodes(r) && Nodes(l) !! Nodes(r)
    ensures Is(At(node, l, r), Node(node.balance, tl, node.key, node.value, tr))
    ensures Nodes(At(node, l, r)) == {node} + Nodes(l) + Nodes(r)
  {
  }

  // ----- rotations -----

  ghost function LeftTurned<K, V>(s: Shape<K, V>): Shape<K, V>
    requires s.At? && s.right.At?
  {
    At(s.right.node, At(s.node, s.left, s.right.left), s.right.right)
  }

  ghost function RightTurned<K, V>(s: Shape<K, V>): Shape<K, V>
    requires s.At? && s.left.At?
  {
    At(s.left.node, s.left.left, At(s.node, s.left.right, s.right))
  }

  method NodeRotateLeft<K, V>(node: GTreeNode<K, V>, ghost s: Shape<K, V>, ghost t: Tree<K, V>)
    returns (right: GTreeNode<K, V>)
    requires Is(s, t) && s.At? && s.node == node && s.right.At? && t.Node? && t.right.Node?
    modifies Nodes(s)
    ensures right == Top(LeftTurned(s)) && Nodes(LeftTurned(s)) == Nodes(s)
    ensures Is(LeftTurned(s), RotateLeft(t)) && RotateLeft(t).Node?
  {
    hide Is, Nodes;
    Opened(s, t);
    Opened(s.right, t.right);
    ghost var a, b, c, ta, tb, tc := s.left, s.right.left, s.right.right, t.left, t.right.left, t.right.right;
    right := node.right;
    node.right := right.left;
    right.left := node;
    var aBal, bBal := node.balance, right.balance;
    if bBal <= 0 {
      right.balance := if aBal >= 1 then bBal - 1 else aBal + bBal - 2;
      node.balance := aBal - 1;
    } else {
      right.balance := if aBal <= bBal then aBal - 2 else bBal - 1;
      node.balance := aBal - bBal - 1;
    }
    Joined(node, a, b, ta, tb);
    Joined(right, At(node, a, b), c, Node(node.balance, ta, node.key, node.value, tb), tc);
  }

  method NodeRotateRight<K, V>(node: GTreeNode<K, V>, ghost s: Shape<K, V>, ghost t: Tree<K, V>)
    returns (left: GTreeNode<K, V>)
    requires Is(s, t) && s.At? && s.node == node && s.left.At? && t.Node? && t.left.Node?
    modifies Nodes(s)
    ensures left == Top(RightTurned(s)) && Nodes(RightTurned(s)) == Nodes(s)
    ensures Is(RightTurned(s), RotateRight(t)) && RotateRight(t).Node?
  {
    hide Is, Nodes;
    Opened(s, t);
    Opened(s.left, t.left);
    ghost var a, b, c, ta, tb, tc := s.left.left, s.left.right, s.right, t.left.left, t.left.right, t.right;
    left := node.left;
    node.left := left.right;
    left.right := node;
    var aBal, bBal := node.balance, left.balance;
    if bBal <= 0 {
      left.balance := if bBal > aBal then bBal + 1 else aBal + 2;
      node.balance := aBal - bBal + 1;
    } else {
      left.balance := if aBal <= -1 then bBal + 1 else aBal + bBal + 2;
      node.balance := aBal + 1;
    }
    Joined(node, b, c, tb, tc);
    Joined(left, a, At(node, b, c), ta, Node(node.balance, tb, node.key, node.value, tc));
  }

  method NodeBalance<K, V>(node: GTreeNode<K, V>, ghost s: Shape<K, V>, ghost t: Tree<K, V>)
    returns (top: GTreeNode<K, V>, ghost s2: Shape<K, V>)
    requires Is(s, t) && s.At? && s.node == node && Rotatable(t)
    modifies Nodes(s)
    ensures top == Top(s2) && Nodes(s2) == Nodes(s)
    ensures Is(s2, Rebalance(t))
  {
    hide Is, Nodes, RotateLeft, RotateRight;
    Opened(s, t);
    top, s2 := node, s;
    ghost var l, r, tl, tr, b := s.left, s.right, t.left, t.right, t.balance;
    if node.balance < -1 {
      Opened(l, tl);
      if node.left.balance > 0 {
        Opened(l.right, tl.right);
        assert allocated(Nodes(r));
        var turned := NodeRotateLeft(node.left, l, tl);
        l, tl := LeftTurned(l), RotateLeft(tl);
        node.left := turned;
        assert Is(r, tr);
        assert Is(l, tl);
      }
      Joined(node, l, r, tl, tr);
      top := NodeRotateRight(node, At(node, l, r), Node(b, tl, t.key, t.value, tr));
      s2 := RightTurned(At(node, l, r));
    } else if node.balance > 1 {
      Opened(r, tr);
      if node.right.balance < 0 {
        Opened(r.left, tr.left);
        assert allocated(Nodes(l));
        var turned := NodeRotateRight(node.right, r, tr);
        r, tr := RightTurned(r), RotateRight(tr);
        node.right := turned;
        assert Is(l, tl);
        assert Is(r, tr);
      }
      Joined(node, l, r, tl, tr);
      top := NodeRotateLeft(node, At(node, l, r), Node(b, tl, t.key, t.value, tr));
      s2 := LeftTurned(At(node, l, r));
    }
  }

  // ----- insertion -----

  lemma LoneIs<K, V>(node: GTreeNode<K, V>)
    requires node.left == null && node.right == null && node.balance == 0
    ensures Is(At(node, Nil, Nil), Node(0, Leaf, node.key, node.value, Leaf))
    ensures Grows(Leaf, Node(0, Leaf, node.key, node.value, Leaf), true)
    ensures Nodes(At(node, Nil, Nil)) == {node}
  {
  }

  lemma AvlBelow<K, V>(t: Tree<K, V>)
    requires t.Node? && Avl(t)
    ensures Avl(t.left) && Avl(t.right)
  {
  }

  // the node whose left, or right, subtree an insertion has replaced, before rebalancing
  ghost function AfterLeft<K, V>(t: Tree<K, V>, l: Tree<K, V>): (u: Tree<K, V>)
    requires t.Node? && l.Node?
    ensures u.Node? && u.left == l
  {
    t.(left := l, balance := if t.left.Leaf? || (t.left.balance != l.balance && l.balance != 0) then t.balance - 1 else t.balance)
  }

  ghost function AfterRight<K, V>(t: Tree<K, V>, r: Tree<K, V>): (u: Tree<K, V>)
    requires t.Node? && r.Node?
    ensures u.Node? && u.right == r
  {
    t.(right := r, balance := if t.right.Leaf? || (t.right.balance != r.balance && r.balance != 0) then t.balance + 1 else t.balance)
  }

  lemma InsertedLeftIs<K, V>(t: Tree<K, V>, l: Tree<K, V>, inserted: bool)
    requires t.Node? && Avl(t) && Grows(t.left, l, inserted)
    ensures var u := AfterLeft(t, l);
            Rotatable(u) && InsertedLeft(t, l, inserted) == if inserted && !(-1 <= u.balance <= 1) then Rebalance(u) else u
  {
    RebalanceAvl(AfterLeft(t, l));
  }

  lemma InsertedRightIs<K, V>(t: Tree<K, V>, r: Tree<K, V>, inserted: bool)
    requires t.Node? && Avl(t) && Grows(t.right, r, inserted)
    ensures var u := AfterRight(t, r);
            Rotatable(u) && InsertedRight(t, r, inserted) == if inserted && !(-1 <= u.balance <= 1) then Rebalance(u) else u
  {
    RebalanceAvl(AfterRight(t, r));
  }

  // In the C code inserted is an out-parameter that an earlier call may have set; here it is
  // a result.
  method NodeInsert<K, V>(node: GTreeNode?<K, V>, ghost s: Shape<K, V>, ghost t: Tree<K, V>,
                          cmp: (K, K) -> int, key: K, value: V)
    returns (top: GTreeNode<K, V>, inserted: bool, ghost s2: Shape<K, V>)
    requires Is(s, t) && node == Top(s) && Avl(t)
    modifies Nodes(s)
    ensures inserted == Insert(cmp, t, key, value).1
    ensures s2.At? && top == s2.node && Is(s2, Insert(cmp, t, key, value).0)
    ensures Nodes(s) <= Nodes(s2) && fresh(Nodes(s2) - Nodes(s))
    decreases t, 1
  {
    hide Is, Nodes, InsertedLeft, InsertedRight, Height, Avl, Grows, Rotatable, Rebalance, AfterLeft, AfterRight;
    Opened(s, t);
    if node == null {
      top := new GTreeNode(key, value);
      inserted, s2 := true, At(top, Nil, Nil);
      LoneIs(top);
      return;
    }
    AvlBelow(t);
    var c := cmp(key, node.key);
    if c == 0 {
      node.value := value;
      top, inserted, s2 := node, false, s;
      Joined(node, s.left, s.right, t.left, t.right);
      return;
    }
    top := node;
    ghost var u;
    if c < 0 {
      inserted, s2 := NodeInsertLeft(node, s, t, cmp, key, value);
      u := AfterLeft(t, Insert(cmp, t.left, key, value).0);
      InsertedLeftIs(t, u.left, inserted);
    } else {
      inserted, s2 := NodeInsertRight(node, s, t, cmp, key, value);
      u := AfterRight(t, Insert(cmp, t.right, key, value).0);
      InsertedRightIs(t, u.right, inserted);
    }
    Opened(s2, u);
    if inserted && (node.balance < -1 || node.balance > 1) {
      top, s2 := NodeBalance(node, s2, u);
    }
  }

  // the two branches of g_tree_node_insert that go below the node
  method NodeInsertLeft<K, V>(node: GTreeNode<K, V>, ghost s: Shape<K, V>, ghost t: Tree<K, V>,
                              cmp: (K, K) -> int, key: K, value: V)
    returns (inserted: bool, ghost s2: Shape<K, V>)
    requires Is(s, t) && node == Top(s) && t.Node? && Avl(t.left)
    modifies Nodes(s)
    ensures var (l, i) := Insert(cmp, t.left, key, value);
            inserted == i && l.Node? && s2.At? && s2.node == node && Is(s2, AfterLeft(t, l))
    ensures Nodes(s) <= Nodes(s2) && fresh(Nodes(s2) - Nodes(s))
    decreases t, 0
  {
    hide Is, Nodes, Avl, Grows, InsertedLeft, InsertedRight;
    Opened(s, t);
    Opened(s.left, t.left);
    ghost var l, tl := s.left, Insert(cmp, t.left, key, value).0;
    assert allocated(Nodes(s.right));
    if node.left != null {
      var oldBalance, sub := node.left.balance, node.left;
      sub, inserted, l := NodeInsert(node.left, s.left, t.left, cmp, key, value);
      Opened(l, tl);
      node.left := sub;
      if oldBalance != node.left.balance && node.left.balance != 0 {
        node.balance := node.balance - 1;
      }
    } else {
      inserted := true;
      node.left := new GTreeNode(key, value);
      node.balance := node.balance - 1;
      l := At(node.left, Nil, Nil);
      LoneIs(node.left);
    }
    Joined(node, l, s.right, tl, t.right);
    s2 := At(node, l, s.right);
  }

  method NodeInsertRight<K, V>(node: GTreeNode<K, V>, ghost s: Shape<K, V>, ghost t: Tree<K, V>,
                               cmp: (K, K) -> int, key: K, value: V)
    returns (inserted: bool, ghost s2: Shape<K, V>)
    requires Is(s, t) && node == Top(s) && t.Node? && Avl(t.right)
    modifies Nodes(s)
    ensures var (r, i) := Insert(cmp, t.right, key, value);
            inserted == i && r.Node? && s2.At? && s2.node == node && Is(s2, AfterRight(t, r))
    ensures Nodes(s) <= Nodes(s2) && fresh(Nodes(s2) - Nodes(s))
    decreases t, 0
  {
    hide Is, Nodes, Avl, Grows, InsertedLeft, InsertedRight;
    Opened(s, t);
    Opened(s.right, t.right);
    ghost var r, tr := s.right, Insert(cmp, t.right, key, value).0;
    assert allocated(Nodes(s.left));
    if node.right != null {
      var oldBalance, sub := node.right.balance, node.right;
      sub, inserted, r := NodeInsert(node.right, s.right, t.right, cmp, key, value);
      Opened(r, tr);
      node.right := sub;
      if oldBalance != node.right.balance && node.right.balance != 0 {
        node.balance := node.balance + 1;
      }
    } else {
      inserted := true;
      node.right := new GTreeNode(key, value);
      node.balance := node.balance + 1;
      r := At(node.right, Nil, Nil);
      LoneIs(node.right);
    }
    Joined(node, s.left, r, t.left, tr);
    s2 := At(node, s.left, r);
  }

  // ----- removal -----

  method NodeRestoreLeftBalance<K, V>(node: GTreeNode<K, V>, ghost s: Shape<K, V>, ghost t: Tree<K, V>, oldBalance: int)
    returns (top: GTreeNode<K, V>, ghost s2: Shape<K, V>)
    requires Is(s, t) && t.Node? && Top(s) == node && Rotatable(LeftRestored(t, oldBalance))
    modifies Nodes(s)
    ensures top == Top(s2) && Nodes(s2) == Nodes(s) && Is(s2, RestoreLeft(t, oldBalance))
  {
    hide Is, Nodes, Rebalance, Rotatable;
    Opened(s, t);
    Opened(s.left, t.left);
    if node.left == null {
      node.balance := node.balance + 1;
    } else if node.left.balance != oldBalance && node.left.balance == 0 {
      node.balance := node.balance + 1;
    }
    Joined(node, s.left, s.right, t.left, t.right);
    top, s2 := node, s;
    if node.balance > 1 {
      top, s2 := NodeBalance(node, s, LeftRestored(t, oldBalance));
    }
  }

  method NodeRestoreRightBalance<K, V>(node: GTreeNode<K, V>, ghost s: Shape<K, V>, ghost t: Tree<K, V>, oldBalance: int)
    returns (top: GTreeNode<K, V>, ghost s2: Shape<K, V>)
    requires Is(s, t) && t.Node? && Top(s) == node && Rotatable(RightRestored(t, oldBalance))
    modifies Nodes(s)
    ensures top == Top(s2) && Nodes(s2) == Nodes(s) && Is(s2, RestoreRight(t, oldBalance))
  {
    hide Is, Nodes, Rebalance, Rotatable;
    Opened(s, t);
    Opened(s.right, t.right);
    if node.right == null {
      node.balance := node.balance - 1;
    } else if node.right.balance != oldBalance && node.right.balance == 0 {
      node.balance := node.balance - 1;
    }
    Joined(node, s.left, s.right, t.left, t.right);
    top, s2 := node, s;
    if node.balance < -1 {
      top, s2 := NodeBalance(node, s, RightRestored(t, oldBalance));
    }
  }

  method NodeRemoveLeftmost<K, V>(node: GTreeNode<K, V>, ghost s: Shape<K, V>, ghost t: Tree<K, V>)
    returns (top: GTreeNode?<K, V>, leftmost: GTreeNode<K, V>, ghost s2: Shape<K, V>)
    requires Is(s, t) && Top(s) == node && t.Node? && Avl(t)
    modifies Nodes(s)
    ensures top == Top(s2) && Is(s2, RemoveLeftmost(t).0)
    ensures leftmost in Nodes(s) && Nodes(s2) == Nodes(s) - {leftmost}
    ensures (leftmost.key, leftmost.value) == RemoveLeftmost(t).1
    decreases t
  {
    hide Is, Nodes, Avl, RestoreLeft, Rotatable, Shrinks, LeftRestored;
    Opened(s, t);
    Opened(s.left, t.left);
    if node.left == null {
      top, leftmost, s2 := node.right, node, s.right;
      return;
    }
    AvlBelow(t);
    assert allocated(Nodes(s.right));
    var oldBalance := node.left.balance;
    ghost var l, tl := s.left, RemoveLeftmost(t.left).0;
    var sub;
    sub, leftmost, l := NodeRemoveLeftmost(node.left, s.left, t.left);
    node.left := sub;
    Joined(node, l, s.right, tl, t.right);
    RestoreLeftShrinks(t, tl);
    top, s2 := NodeRestoreLeftBalance(node, At(node, l, s.right), t.(left := tl), oldBalance);
  }

  // The node removed is left to the caller's spare nodes, which s2 no longer holds.
  method NodeRemove<K, V>(node: GTreeNode?<K, V>, ghost s: Shape<K, V>, ghost t: Tree<K, V>, cmp: (K, K) -> int, key: K)
    returns (top: GTreeNode?<K, V>, ghost s2: Shape<K, V>)
    requires Is(s, t) && node == Top(s) && Avl(t)
    modifies Nodes(s)
    ensures top == Top(s2) && Is(s2, Remove(cmp, t, key)) && Nodes(s2) <= Nodes(s)
    decreases t
  {
    hide Is, Nodes, Avl, RestoreLeft, RestoreRight, Rotatable, Shrinks, LeftRestored, RightRestored;
    Opened(s, t);
    if node == null {
      top, s2 := null, Nil;
      return;
    }
    AvlBelow(t);
    Opened(s.left, t.left);
    Opened(s.right, t.right);
    top, s2 := node, s;
    var c := cmp(key, node.key);
    if c == 0 {
      if node.right == null {
        top, s2 := node.left, s.left;
      } else {
        top, s2 := NodeRemoveRoot(node, s, t, cmp, key);
      }
    } else if c < 0 {
      if node.left != null {
        assert allocated(Nodes(s.right));
        var oldBalance := node.left.balance;
        ghost var l, tl := s.left, Remove(cmp, t.left, key);
        var sub;
        sub, l := NodeRemove(node.left, s.left, t.left, cmp, key);
        node.left := sub;
        Joined(node, l, s.right, tl, t.right);
        RestoreLeftShrinks(t, tl);
        top, s2 := NodeRestoreLeftBalance(node, At(node, l, s.right), t.(left := tl), oldBalance);
      }
    } else {
      if node.right != null {
        assert allocated(Nodes(s.left));
        var oldBalance := node.right.balance;
        ghost var r, tr := s.right, Remove(cmp, t.right, key);
        var sub;
        sub, r := NodeRemove(node.right, s.right, t.right, cmp, key);
        node.right := sub;
        Joined(node, s.left, r, t.left, tr);
        RestoreRightShrinks(t, tr);
        top, s2 := NodeRestoreRightBalance(node, At(node, s.left, r), t.(right := tr), oldBalance);
      }
    }
  }

  // the branch of g_tree_node_remove that puts the next node in the place of the removed one
  method NodeRemoveRoot<K, V>(node: GTreeNode<K, V>, ghost s: Shape<K, V>, ghost t: Tree<K, V>, cmp: (K, K) -> int, key: K)
    returns (top: GTreeNode?<K, V>, ghost s2: Shape<K, V>)
    requires Is(s, t) && node == Top(s) && t.Node? && t.right.Node? && Avl(t) && cmp(key, t.key) == 0
    modifies Nodes(s)
    ensures top == Top(s2) && Is(s2, Remove(cmp, t, key)) && Nodes(s2) <= Nodes(s)
  {
    hide Is, Nodes, Avl, Remove, RestoreRight, Rotatable, Shrinks, RightRestored;
    Opened(s, t);
    Opened(s.right, t.right);
    AvlBelow(t);
    assert allocated(Nodes(s.left));
    var oldBalance := node.right.balance;
    var (tr, first) := RemoveLeftmost(t.right);
    ghost var r;
    var sub, newRoot;
    sub, newRoot, r := NodeRemoveLeftmost(node.right, s.right, t.right);
    node.right := sub;
    newRoot.left := node.left;
    newRoot.right := node.right;
    newRoot.balance := node.balance;
    Joined(newRoot, s.left, r, t.left, tr);
    ghost var u := t.(key := newRoot.key, value := newRoot.value);
    RootRemoved(cmp, t, key);
    top, s2 := NodeRestoreRightBalance(newRoot, At(newRoot, s.left, r), u.(right := tr), oldBalance);
  }

  lemma RootRemoved<K, V>(cmp: (K, K) -> int, t: Tree<K, V>, key: K)
    requires t.Node? && t.right.Node? && Avl(t) && cmp(key, t.key) == 0
    ensures var (tr, first) := RemoveLeftmost(t.right);
            var u := t.(key := first.0, value := first.1);
            && Rotatable(RightRestored(u.(right := tr), t.right.balance))
            && Remove(cmp, t, key) == RestoreRight(u.(right := tr), t.right.balance)
  {
    hide Avl, Shrinks, Rotatable, RestoreRight;
    AvlBelow(t);
    var (tr, first) := RemoveLeftmost(t.right);
    SameHeights(t, first.0, first.1);
    RestoreRightShrinks(t.(key := first.0, value := first.1), tr);
  }

  lemma SameHeights<K, V>(t: Tree<K, V>, key: K, value: V)
    requires t.Node? && Avl(t)
    ensures Avl(t.(key := key, value := value))
  {
  }

  // ----- look-up -----

  method NodeLookup<K, V>(node: GTreeNode?<K, V>, ghost s: Shape<K, V>, ghost t: Tree<K, V>, cmp: (K, K) -> int, key: K)
    returns (r: Option<V>)
    requires Is(s, t) && node == Top(s)
    ensures r == Lookup(cmp, t, key)
    decreases t
  {
    hide Is;
    Opened(s, t);
    if node == null { return None; }
    Opened(s.left, t.left);
    Opened(s.right, t.right);
    var c := cmp(key, node.key);
    if c == 0 { return Some(node.value); }
    if c < 0 {
      if node.left != null {
        r := NodeLookup(node.left, s.left, t.left, cmp, key);
        return;
      }
    } else {
      if node.right != null {
        r := NodeLookup(node.right, s.right, t.right, cmp, key);
        return;
      }
    }
    r := None;
  }

  method NodeSearch<K, V>(start: GTreeNode<K, V>, ghost s: Shape<K, V>, ghost t: Tree<K, V>, dir: K -> int)
    returns (r: Option<V>)
    requires Is(s, t) && start == Top(s)
    ensures r == Search(dir, t)
  {
    hide Is;
    var node: GTreeNode?<K, V> := start;
    ghost var s1, t1 := s, t;
    Opened(s, t);
    while node != null
      invariant Is(s1, t1) && node == Top(s1) && Search(dir, t1) == Search(dir, t)
      decreases t1
    {
      Opened(s1, t1);
      var d := dir(node.key);
      if d == 0 { return Some(node.value); }
      if d < 0 {
        node, s1, t1 := node.left, s1.left, t1.left;
      } else {
        node, s1, t1 := node.right, s1.right, t1.right;
      }
    }
    Opened(s1, t1);
    r := None;
  }

  method NodeHeight<K, V>(node: GTreeNode<K, V>, ghost s: Shape<K, V>, ghost t: Tree<K, V>) returns (h: nat)
    requires Is(s, t) && node == Top(s)
    ensures h == Height(t)
    decreases t
  {
    hide Is;
    Opened(s, t);
    Opened(s.left, t.left);
    Opened(s.right, t.right);
    assert allocated(Nodes(s.right));
    var leftHeight, rightHeight := 0, 0;
    if node.left != null {
      leftHeight := NodeHeight(node.left, s.left, t.left);
    }
    if node.right != null {
      rightHeight := NodeHeight(node.right, s.right, t.right);
    }
    h := Max(leftHeight, rightHeight) + 1;
  }

  method NodeCount<K, V>(node: GTreeNode<K, V>, ghost s: Shape<K, V>, ghost t: Tree<K, V>) returns (count: nat)
    requires Is(s, t) && node == Top(s)
    ensures count == AvlRuns.Count(t)
    decreases t
  {
    hide Is;
    Opened(s, t);
    Opened(s.left, t.left);
    Opened(s.right, t.right);
    assert allocated(Nodes(s.right));
    count := 1;
    if node.left != null {
      var n := NodeCount(node.left, s.left, t.left);
      count := count + n;
    }
    if node.right != null {
      var n := NodeCount(node.right, s.right, t.right);
      count := count + n;
    }
  }

  // ----- the tree -----

  class GTree<K(!new), V> {
    var root: GTreeNode?<K, V>
    const keyCompare: (K, K) -> int
    ghost var shape: Shape<K, V>
    ghost var tree: Tree<K, V>

    // the tree's entries are in key order and its balances are right
    ghost predicate Valid()
      reads this, Nodes(shape)
    {
      Ordering(keyCompare) && Is(shape, tree) && root == Top(shape) && Avl(tree) && Sorted(keyCompare, Entries(tree))
    }

    // g_tree_new
    constructor (keyCompare: (K, K) -> int)
      requires Ordering(keyCompare)
      ensures Valid() && this.keyCompare == keyCompare && Entries(tree) == [] && Nodes(shape) == {}
    {
      this.root, this.keyCompare, this.shape, this.tree := null, keyCompare, Nil, Leaf;
    }

    method Insert(key: K, value: V)
      requires Valid()
      modifies this, Nodes(shape)
      ensures Valid() && fresh(Nodes(shape) - old(Nodes(shape)))
      ensures Entries(tree) == ListInsert(keyCompare, old(Entries(tree)), key, value)
    {
      var top, inserted, s2 := NodeInsert(root, shape, tree, keyCompare, key, value);
      AvlRuns.InsertEntries(keyCompare, tree, key, value);
      AvlRuns.ListInsertSorted(keyCompare, Entries(tree), key, value);
      root, shape, tree := top, s2, AvlTree.Insert(keyCompare, tree, key, value).0;
    }

    method Remove(key: K)
      requires Valid()
      modifies this, Nodes(shape)
      ensures Valid() && Nodes(shape) <= old(Nodes(shape))
      ensures Entries(tree) == ListRemove(keyCompare, old(Entries(tree)), key)
    {
      var top, s2 := NodeRemove(root, shape, tree, keyCompare, key);
      AvlRuns.RemoveEntries(keyCompare, tree, key);
      AvlRuns.ListRemoveSorted(keyCompare, Entries(tree), key);
      root, shape, tree := top, s2, AvlTree.Remove(keyCompare, tree, key);
    }

    method Lookup(key: K) returns (r: Option<V>)
      requires Valid()
      ensures r == ListLookup(keyCompare, Entries(tree), key)
    {
      r := NodeLookup(root, shape, tree, keyCompare, key);
      AvlRuns.LookupIsList(keyCompare, tree, key);
    }

    // the caller's function need not be the comparison the tree is sorted by
    method Search(dir: K -> int) returns (r: Option<V>)
      requires Valid()
      ensures r == AvlTree.Search(dir, tree)
    {
      if root == null { return None; }
      r := NodeSearch(root, shape, tree, dir);
    }

    method Height() returns (h: nat)
      requires Valid()
      ensures h == AvlTree.Height(tree) && |Entries(tree)| >= AvlRuns.Fib(h + 2) - 1
    {
      AvlRuns.HeightBound(tree);
      AvlRuns.CountEntries(tree);
      if root == null { return 0; }
      h := NodeHeight(root, shape, tree);
    }

    method NNodes() returns (n: nat)
      requires Valid()
      ensures n == |Entries(tree)|
    {
      AvlRuns.CountEntries(tree);
      if root == null { return 0; }
      n := NodeCount(root, shape, tree);
    }
  }
}
