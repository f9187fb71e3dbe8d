// The balanced tree of gtree.c as a value: what insertion, removal and the rotations make
// of a tree that stores a balance in each node.  GTree has the nodes in memory that the C
// code rewrites in place.
//
// The balance of a node is the height of its right subtree minus that of its left (the
// comment at gtree.c:45 says the opposite, but every use of the field agrees with this).
module AvlTree {
  import opened Collections

  datatype Tree<K, V> =
    | Leaf
    | Node(balance: int, left: Tree<K, V>, key: K, value: V, right: Tree<K, V>)

  function Max(a: int, b: int): int { if a < b then b else a }

  // g_tree_node_height
  function Height<K, V>(t: Tree<K, V>): nat {
    if t.Leaf? then 0 else Max(Height(t.left), Height(t.right)) + 1
  }

  // Every node's stored balance is the difference of the heights.
  predicate Recorded<K, V>(t: Tree<K, V>) {
    t.Node? ==> t.balance == Height(t.right) - Height(t.left) && Recorded(t.left) && Recorded(t.right)
  }

  // Moreover no two sibling subtrees differ by more than one in height.
  predicate Avl<K, V>(t: Tree<K, V>) {
    t.Node? ==> t.balance == Height(t.right) - Height(t.left) && -1 <= t.balance <= 1 && Avl(t.left) && Avl(t.right)
  }

  lemma AvlRecorded<K, V>(t: Tree<K, V>)
    requires Avl(t)
    ensures Recorded(t)
  {
  }

  // the entries in key order
  function Entries<K, V>(t: Tree<K, V>): seq<(K, V)> {
    if t.Leaf? then [] else Entries(t.left) + [(t.key, t.value)] + Entries(t.right)
  }

  // ----- rotations -----

  // g_tree_node_rotate_left and g_tree_node_rotate_right compute the new balances from the
  // old ones alone.  a is the balance of the node that goes down, b that of the one that
  // comes up.
  function LeftBelow(a: int, b: int): int { if b <= 0 then a - 1 else a - b - 1 }
  function LeftAbove(a: int, b: int): int {
    if b <= 0 then (if a >= 1 then b - 1 else a + b - 2) else (if a <= b then a - 2 else b - 1)
  }

  function RotateLeft<K, V>(t: Tree<K, V>): (r: Tree<K, V>)
    requires t.Node? && t.right.Node?
  {
    var x := t.right;
    Node(LeftAbove(t.balance, x.balance),
         Node(LeftBelow(t.balance, x.balance), t.left, t.key, t.value, x.left),
         x.key, x.value, x.right)
  }

  function RightBelow(a: int, b: int): int { if b <= 0 then a - b + 1 else a + 1 }
  function RightAbove(a: int, b: int): int {
    if b <= 0 then (if b > a then b + 1 else a + 2) else (if a <= -1 then b + 1 else a + b + 2)
  }

  function RotateRight<K, V>(t: Tree<K, V>): (r: Tree<K, V>)
    requires t.Node? && t.left.Node?
  {
    var x := t.left;
    Node(RightAbove(t.balance, x.balance),
         x.left, x.key, x.value,
         Node(RightBelow(t.balance, x.balance), x.right, t.key, t.value, t.right))
  }

  // The new balances are right for any difference of heights, which they have to be: the
  // first half of a double rotation can leave a node two out of balance.
  lemma RotationsRecord<K, V>(t: Tree<K, V>)
    requires Recorded(t) && t.Node?
    ensures t.right.Node? ==> Recorded(RotateLeft(t))
    ensures t.left.Node? ==> Recorded(RotateRight(t))
  {
    if t.right.Node? {
      var r, x := RotateLeft(t), t.right;
      assert r.left.balance == Height(x.left) - Height(t.left);
      assert r.balance == Height(x.right) - Height(r.left);
    }
    if t.left.Node? {
      var r, x := RotateRight(t), t.left;
      assert r.right.balance == Height(t.right) - Height(x.right);
      assert r.balance == Height(r.right) - Height(x.left);
    }
  }

  lemma Regroup<T>(a: seq<T>, b: seq<T>, c: seq<T>, d: seq<T>, e: seq<T>)
    ensures (a + b + c) + d + e == a + b + (c + d + e)
  {
  }

  lemma RotationsKeepEntries<K, V>(t: Tree<K, V>)
    requires t.Node?
    ensures t.right.Node? ==> Entries(RotateLeft(t)) == Entries(t)
    ensures t.left.Node? ==> Entries(RotateRight(t)) == Entries(t)
  {
    if t.right.Node? {
      var x := t.right;
      Regroup(Entries(t.left), [(t.key, t.value)], Entries(x.left), [(x.key, x.value)], Entries(x.right));
    }
    if t.left.Node? {
      var x := t.left;
      Regroup(Entries(x.left), [(x.key, x.value)], Entries(x.right), [(t.key, t.value)], Entries(t.right));
    }
  }

  // g_tree_node_balance can be called: the higher child is there
  predicate Rotatable<K, V>(t: Tree<K, V>) {
    && t.Node?
    && (t.balance < -1 ==> t.left.Node? && (t.left.balance > 0 ==> t.left.right.Node?))
    && (t.balance > 1 ==> t.right.Node? && (t.right.balance < 0 ==> t.right.left.Node?))
  }

  // g_tree_node_balance
  function Rebalance<K, V>(t: Tree<K, V>): (r: Tree<K, V>)
    requires Rotatable(t)
    ensures r.Node?
  {
    if t.balance < -1 then
      RotateRight(if t.left.balance > 0 then t.(left := RotateLeft(t.left)) else t)
    else if t.balance > 1 then
      RotateLeft(if t.right.balance < 0 then t.(right := RotateRight(t.right)) else t)
    else t
  }

  lemma RebalanceKeepsEntries<K, V>(t: Tree<K, V>)
    requires Rotatable(t)
    ensures Entries(Rebalance(t)) == Entries(t)
  {
    RotationsKeepEntries(t);
    if t.balance < -1 && t.left.balance > 0 {
      RotationsKeepEntries(t.left);
      RotationsKeepEntries(t.(left := RotateLeft(t.left)));
    } else if t.balance > 1 && t.right.balance < 0 {
      RotationsKeepEntries(t.right);
      RotationsKeepEntries(t.(right := RotateRight(t.right)));
    }
  }

  // A node whose subtrees are AVL and at most two apart: the one case the callers meet.
  predicate OneOff<K, V>(t: Tree<K, V>) {
    && t.Node? && Avl(t.left) && Avl(t.right)
    && t.balance == Height(t.right) - Height(t.left) && -2 <= t.balance <= 2
  }

  // Rebalancing makes an AVL tree of it.  The height falls by one, and the new root is in
  // balance, unless the higher child was in balance itself.
  lemma RebalanceAvl<K, V>(t: Tree<K, V>)
    requires OneOff(t)
    ensures Rotatable(t) && Avl(Rebalance(t))
    ensures var r, high := Rebalance(t), if t.balance < 0 then t.left else t.right;
            if -1 <= t.balance <= 1 then r == t
            else if high.balance == 0 then Height(r) == Height(t) && r.balance != 0
            else Height(r) == Height(t) - 1 && r.balance == 0
  {
    AvlRecorded(t.left);
    AvlRecorded(t.right);
    if t.balance == -2 {
      RebalanceLeftHeavy(t);
    } else if t.balance == 2 {
      RebalanceRightHeavy(t);
    }
  }

  lemma RebalanceLeftHeavy<K, V>(t: Tree<K, V>)
    requires OneOff(t) && t.balance == -2
    ensures Rotatable(t) && Avl(Rebalance(t))
    ensures var r := Rebalance(t);
            if t.left.balance == 0 then Height(r) == Height(t) && r.balance != 0
            else Height(r) == Height(t) - 1 && r.balance == 0
  {
    if t.left.balance > 0 {
      DoubleRight(t);
    } else {
      SingleRight(t);
    }
  }

  lemma SingleRight<K, V>(t: Tree<K, V>)
    requires OneOff(t) && t.balance == -2 && t.left.balance <= 0
    ensures t.left.Node? && Avl(RotateRight(t))
    ensures var r := RotateRight(t);
            if t.left.balance == 0 then Height(r) == Height(t) && r.balance != 0
            else Height(r) == Height(t) - 1 && r.balance == 0
  {
    var x := t.left;
    assert Height(x.left) >= Height(x.right) && Height(x) == Height(x.left) + 1;
    assert Height(t) == Height(x) + 1;
  }

  lemma DoubleRight<K, V>(t: Tree<K, V>)
    requires OneOff(t) && t.balance == -2 && t.left.balance > 0
    ensures t.left.right.Node? && Avl(RotateRight(t.(left := RotateLeft(t.left))))
    ensures var r := RotateRight(t.(left := RotateLeft(t.left))); Height(r) == Height(t) - 1 && r.balance == 0
  {
    var x := t.left;
    var y := x.right;
    assert Height(y) == Height(x.left) + 1 && Height(t.right) == Height(x.left) && Height(t) == Height(x.left) + 3;
    assert Avl(y) && -1 <= y.balance <= 1 && x.balance == 1 && Avl(y.left) && Avl(y.right);
    var below := if y.balance > 0 then -1 else 0;
    var beside := if y.balance < 0 then 1 else 0;
    assert RotateLeft(x) == Node(if y.balance < 0 then -2 else -1, Node(below, x.left, x.key, x.value, y.left), y.key, y.value, y.right);
    MiddleUp(Node(below, x.left, x.key, x.value, y.left), y.key, y.value, Node(beside, y.right, t.key, t.value, t.right), Height(x.left));
  }

  // two subtrees of one height below a new root
  lemma MiddleUp<K, V>(l: Tree<K, V>, key: K, value: V, r: Tree<K, V>, h: nat)
    requires Avl(l) && Avl(r) && Height(l) == h + 1 && Height(r) == h + 1
    ensures Avl(Node(0, l, key, value, r)) && Height(Node(0, l, key, value, r)) == h + 2
  {
  }

  lemma RebalanceRightHeavy<K, V>(t: Tree<K, V>)
    requires OneOff(t) && t.balance == 2
    ensures Rotatable(t) && Avl(Rebalance(t))
    ensures var r := Rebalance(t);
            if t.right.balance == 0 then Height(r) == Height(t) && r.balance != 0
            else Height(r) == Height(t) - 1 && r.balance == 0
  {
    if t.right.balance < 0 {
      DoubleLeft(t);
    } else {
      SingleLeft(t);
    }
  }

  lemma SingleLeft<K, V>(t: Tree<K, V>)
    requires OneOff(t) && t.balance == 2 && t.right.balance >= 0
    ensures t.right.Node? && Avl(RotateLeft(t))
    ensures var r := RotateLeft(t);
            if t.right.balance == 0 then Height(r) == Height(t) && r.balance != 0
            else Height(r) == Height(t) - 1 && r.balance == 0
  {
    var x := t.right;
    assert Height(x.right) >= Height(x.left) && Height(x) == Height(x.right) + 1;
    assert Height(t) == Height(x) + 1;
  }

  lemma DoubleLeft<K, V>(t: Tree<K, V>)
    requires OneOff(t) && t.balance == 2 && t.right.balance < 0
    ensures t.right.left.Node? && Avl(RotateLeft(t.(right := RotateRight(t.right))))
    ensures var r := RotateLeft(t.(right := RotateRight(t.right))); Height(r) == Height(t) - 1 && r.balance == 0
  {
    var x := t.right;
    var y := x.left;
    assert Height(y) == Height(x.right) + 1 && Height(t.left) == Height(x.right) && Height(t) == Height(x.right) + 3;
    assert Avl(y) && -1 <= y.balance <= 1 && x.balance == -1 && Avl(y.left) && Avl(y.right);
    var below := if y.balance < 0 then 1 else 0;
    var beside := if y.balance > 0 then -1 else 0;
    assert RotateRight(x) == Node(if y.balance > 0 then 2 else 1, y.left, y.key, y.value, Node(below, y.right, x.key, x.value, x.right));
    MiddleUp(Node(beside, t.left, t.key, t.value, y.left), y.key, y.value, Node(below, y.right, x.key, x.value, x.right), Height(x.right));
  }

  // ----- insertion -----

  // r is what insertion may make of t, and inserted its flag: the height has grown exactly
  // if the root's balance has changed to something other than 0.
  predicate Grows<K, V>(t: Tree<K, V>, r: Tree<K, V>, inserted: bool) {
    && Avl(r) && r.Node?
    && (Height(r) == Height(t) || (inserted && Height(r) == Height(t) + 1))
    && (if t.Leaf? then inserted
        else (Height(r) == Height(t) + 1 <==> r.balance != t.balance && r.balance != 0))
  }

  // g_tree_node_insert, once the insertion below has left l or r there
  function InsertedLeft<K, V>(t: Tree<K, V>, l: Tree<K, V>, inserted: bool): (r: Tree<K, V>)
    requires t.Node? && Avl(t) && Grows(t.left, l, inserted)
    ensures Grows(t, r, inserted)
  {
    var grown := t.left.Leaf? || (t.left.balance != l.balance && l.balance != 0);
    var node := t.(left := l, balance := if grown then t.balance - 1 else t.balance);
    RebalanceAvl(node);
    if inserted then Rebalance(node) else node
  }

  function InsertedRight<K, V>(t: Tree<K, V>, x: Tree<K, V>, inserted: bool): (r: Tree<K, V>)
    requires t.Node? && Avl(t) && Grows(t.right, x, inserted)
    ensures Grows(t, r, inserted)
  {
    var grown := t.right.Leaf? || (t.right.balance != x.balance && x.balance != 0);
    var node := t.(right := x, balance := if grown then t.balance + 1 else t.balance);
    RebalanceAvl(node);
    if inserted then Rebalance(node) else node
  }

  // g_tree_node_insert: the tree, and whether a node has been added.  A key that compares
  // equal to the new one stays.
  function Insert<K, V>(cmp: (K, K) -> int, t: Tree<K, V>, key: K, value: V): (r: (Tree<K, V>, bool))
    requires Avl(t)
    ensures Grows(t, r.0, r.1)
    decreases t
  {
    if t.Leaf? then (Node(0, Leaf, key, value, Leaf), true)
    else if cmp(key, t.key) == 0 then (t.(value := value), false)
    else if cmp(key, t.key) < 0 then
      var (l, inserted) := Insert(cmp, t.left, key, value);
      (InsertedLeft(t, l, inserted), inserted)
    else
      var (x, inserted) := Insert(cmp, t.right, key, value);
      (InsertedRight(t, x, inserted), inserted)
  }

  // ----- removal -----

  // r is what removal may make of t: the height has fallen exactly if the root is gone or
  // its balance has changed to 0.
  predicate Shrinks<K, V>(t: Tree<K, V>, r: Tree<K, V>)
    requires t.Node?
  {
    && Avl(r)
    && (Height(r) == Height(t) || Height(r) == Height(t) - 1)
    && (Height(r) == Height(t) - 1 <==> r.Leaf? || (r.balance != t.balance && r.balance == 0))
  }

  // What the restore functions make of the balance of a node whose subtree may have shrunk:
  // they look at the subtree's root only, before (oldBalance) and after.
  function LeftRestored<K, V>(t: Tree<K, V>, oldBalance: int): Tree<K, V>
    requires t.Node?
  {
    if t.left.Leaf? || (t.left.balance != oldBalance && t.left.balance == 0) then t.(balance := t.balance + 1) else t
  }

  function RightRestored<K, V>(t: Tree<K, V>, oldBalance: int): Tree<K, V>
    requires t.Node?
  {
    if t.right.Leaf? || (t.right.balance != oldBalance && t.right.balance == 0) then t.(balance := t.balance - 1) else t
  }

  // g_tree_node_restore_left_balance and g_tree_node_restore_right_balance
  function RestoreLeft<K, V>(t: Tree<K, V>, oldBalance: int): Tree<K, V>
    requires t.Node? && Rotatable(LeftRestored(t, oldBalance))
  {
    var node := LeftRestored(t, oldBalance);
    if node.balance > 1 then Rebalance(node) else node
  }

  function RestoreRight<K, V>(t: Tree<K, V>, oldBalance: int): Tree<K, V>
    requires t.Node? && Rotatable(RightRestored(t, oldBalance))
  {
    var node := RightRestored(t, oldBalance);
    if node.balance < -1 then Rebalance(node) else node
  }

  lemma RestoreLeftShrinks<K, V>(t: Tree<K, V>, l: Tree<K, V>)
    requires t.Node? && Avl(t) && t.left.Node? && Shrinks(t.left, l)
    ensures Rotatable(LeftRestored(t.(left := l), t.left.balance))
    ensures Shrinks(t, RestoreLeft(t.(left := l), t.left.balance))
  {
    RebalanceAvl(LeftRestored(t.(left := l), t.left.balance));
  }

  lemma RestoreRightShrinks<K, V>(t: Tree<K, V>, x: Tree<K, V>)
    requires t.Node? && Avl(t) && t.right.Node? && Shrinks(t.right, x)
    ensures Rotatable(RightRestored(t.(right := x), t.right.balance))
    ensures Shrinks(t, RestoreRight(t.(right := x), t.right.balance))
  {
    RebalanceAvl(RightRestored(t.(right := x), t.right.balance));
  }

  // g_tree_node_remove_leftmost: the tree without its first entry, and that entry
  function RemoveLeftmost<K, V>(t: Tree<K, V>): (r: (Tree<K, V>, (K, V)))
    requires t.Node? && Avl(t)
    ensures Shrinks(t, r.0)
    decreases t
  {
    if t.left.Leaf? then (t.right, (t.key, t.value))
    else
      var (l, first) := RemoveLeftmost(t.left);
      RestoreLeftShrinks(t, l);
      (RestoreLeft(t.(left := l), t.left.balance), first)
  }

  // g_tree_node_remove
  function Remove<K, V>(cmp: (K, K) -> int, t: Tree<K, V>, key: K): (r: Tree<K, V>)
    requires Avl(t)
    ensures if t.Leaf? then r.Leaf? else Shrinks(t, r)
    decreases t
  {
    if t.Leaf? then Leaf
    else if cmp(key, t.key) == 0 then
      if t.right.Leaf? then t.left
      else
        var (x, first) := RemoveLeftmost(t.right);
        var top := t.(key := first.0, value := first.1);
        RestoreRightShrinks(top, x);
        RestoreRight(top.(right := x), t.right.balance)
    else if cmp(key, t.key) < 0 then
      if t.left.Leaf? then t
      else
        var l := Remove(cmp, t.left, key);
        RestoreLeftShrinks(t, l);
        RestoreLeft(t.(left := l), t.left.balance)
    else
      if t.right.Leaf? then t
      else
        var x := Remove(cmp, t.right, key);
        RestoreRightShrinks(t, x);
        RestoreRight(t.(right := x), t.right.balance)
  }

  // ----- look-up -----

  // g_tree_node_lookup
  function Lookup<K, V>(cmp: (K, K) -> int, t: Tree<K, V>, key: K): Option<V>
    decreases t
  {
    if t.Leaf? then None
    else if cmp(key, t.key) == 0 then Some(t.value)
    else Lookup(cmp, if cmp(key, t.key) < 0 then t.left else t.right, key)
  }

  // g_tree_node_search: the caller's function says where to look; 0 is found
  function Search<K, V>(dir: K -> int, t: Tree<K, V>): Option<V>
    decreases t
  {
    if t.Leaf? then None
    else if dir(t.key) == 0 then Some(t.value)
    else Search(dir, if dir(t.key) < 0 then t.left else t.right)
  }

  // ----- the tree as a sorted list -----

  // what g_tree_new requires of its comparison function
  ghost predicate Ordering<K(!new)>(cmp: (K, K) -> int) {
    && (forall a, b :: cmp(a, b) < 0 <==> cmp(b, a) > 0)
    && (forall a, b, c :: cmp(a, b) <= 0 && cmp(b, c) <= 0 ==> cmp(a, c) <= 0)
  }

  // Comparing with equal keys gives the same answer.
  lemma OrderingStep<K(!new)>(cmp: (K, K) -> int, a: K, b: K, c: K)
    requires Ordering(cmp)
    ensures cmp(a, b) < 0 && cmp(b, c) <= 0 ==> cmp(a, c) < 0
    ensures cmp(a, b) <= 0 && cmp(b, c) < 0 ==> cmp(a, c) < 0
    ensures cmp(a, b) == 0 <==> cmp(b, a) == 0
    ensures cmp(a, a) == 0
  {
    assert cmp(c, a) <= 0 || cmp(a, c) < 0;
  }

  predicate Sorted<K, V>(cmp: (K, K) -> int, es: seq<(K, V)>) {
    forall i, j :: 0 <= i < j < |es| ==> cmp(es[i].0, es[j].0) < 0
  }

  // insertion into, removal from, and look-up in a sorted list
  function ListInsert<K, V>(cmp: (K, K) -> int, es: seq<(K, V)>, key: K, value: V): seq<(K, V)> {
    if es == [] then [(key, value)]
    else if cmp(key, es[0].0) == 0 then [(es[0].0, value)] + es[1..]
    else if cmp(key, es[0].0) < 0 then [(key, value)] + es
    else [es[0]] + ListInsert(cmp, es[1..], key, value)
  }

  function ListRemove<K, V>(cmp: (K, K) -> int, es: seq<(K, V)>, key: K): seq<(K, V)> {
    if es == [] then []
    else if cmp(key, es[0].0) == 0 then es[1..]
    else [es[0]] + ListRemove(cmp, es[1..], key)
  }

  function ListLookup<K, V>(cmp: (K, K) -> int, es: seq<(K, V)>, key: K): Option<V> {
    if es == [] then None
    else if cmp(key, es[0].0) == 0 then Some(es[0].1)
    else ListLookup(cmp, es[1..], key)
  }
}
