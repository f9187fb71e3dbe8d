// What insertions and removals do to the contents of a balanced tree, and what every run
// of them keeps.
module AvlRuns {
  import opened Collections
  import opened AvlTree

  // ----- a sorted list, split at one of its entries -----

  lemma SplitSorted<K(!new), V>(cmp: (K, K) -> int, a: seq<(K, V)>, x: (K, V), b: seq<(K, V)>)
    requires Sorted(cmp, a + [x] + b)
    ensures Sorted(cmp, a) && Sorted(cmp, b)
    ensures forall i :: 0 <= i < |a| ==> cmp(a[i].0, x.0) < 0
    ensures forall i :: 0 <= i < |b| ==> cmp(x.0, b[i].0) < 0
  {
    var es := a + [x] + b;
    assert forall i :: 0 <= i < |a| ==> es[i] == a[i];
    assert es[|a|] == x;
    assert forall i :: 0 <= i < |b| ==> es[|a| + 1 + i] == b[i];
  }

  lemma TailSorted<K(!new), V>(cmp: (K, K) -> int, es: seq<(K, V)>)
    requires Sorted(cmp, es) && es != []
    ensures Sorted(cmp, es[1..])
    ensures forall i :: 0 <= i < |es| - 1 ==> cmp(es[0].0, es[1..][i].0) < 0
  {
  }

  // all entries of a come before key
  predicate Before<K, V>(cmp: (K, K) -> int, a: seq<(K, V)>, key: K) {
    forall i :: 0 <= i < |a| ==> cmp(key, a[i].0) > 0
  }

  lemma BeforeKey<K(!new), V>(cmp: (K, K) -> int, a: seq<(K, V)>, x: (K, V), b: seq<(K, V)>, key: K)
    requires Ordering(cmp) && Sorted(cmp, a + [x] + b) && cmp(key, x.0) >= 0
    ensures Before(cmp, a, key)
  {
    SplitSorted(cmp, a, x, b);
    forall i | 0 <= i < |a| ensures cmp(key, a[i].0) > 0 {
      OrderingStep(cmp, a[i].0, x.0, key);
      OrderingStep(cmp, key, x.0, key);
    }
  }

  // Insertion, removal and look-up act on the part of the list where the key belongs.
  lemma {:induction false} ActsBehind<K, V>(cmp: (K, K) -> int, a: seq<(K, V)>, c: seq<(K, V)>, key: K, value: V)
    requires Before(cmp, a, key)
    ensures ListInsert(cmp, a + c, key, value) == a + ListInsert(cmp, c, key, value)
    ensures ListRemove(cmp, a + c, key) == a + ListRemove(cmp, c, key)
    ensures ListLookup(cmp, a + c, key) == ListLookup(cmp, c, key)
    decreases |a|
  {
    if a == [] {
      assert a + c == c;
      assert a + ListInsert(cmp, c, key, value) == ListInsert(cmp, c, key, value);
      assert a + ListRemove(cmp, c, key) == ListRemove(cmp, c, key);
    } else {
      assert (a + c)[1..] == a[1..] + c && (a + c)[0] == a[0];
      ActsBehind(cmp, a[1..], c, key, value);
      assert [a[0]] + (a[1..] + ListInsert(cmp, c, key, value)) == a + ListInsert(cmp, c, key, value);
      assert [a[0]] + (a[1..] + ListRemove(cmp, c, key)) == a + ListRemove(cmp, c, key);
    }
  }

  // nothing from x on compares equal to key
  lemma {:induction false} ActsBefore<K(!new), V>(cmp: (K, K) -> int, a: seq<(K, V)>, x: (K, V), b: seq<(K, V)>, key: K, value: V)
    requires Ordering(cmp) && Sorted(cmp, a + [x] + b) && cmp(key, x.0) < 0
    ensures ListInsert(cmp, a + [x] + b, key, value) == ListInsert(cmp, a, key, value) + [x] + b
    ensures ListRemove(cmp, a + [x] + b, key) == ListRemove(cmp, a, key) + [x] + b
    ensures ListLookup(cmp, a + [x] + b, key) == ListLookup(cmp, a, key)
  {
    hide Ordering, Sorted, ListInsert, ListRemove, ListLookup;
    var c := [x] + b;
    assert a + [x] + b == a + c;
    SplitSorted(cmp, a, x, b);
    AboveSorted(cmp, a, c);
    NothingAt(cmp, c, key);
    InsertsBefore(cmp, a, c, key, value);
    RemovesBefore(cmp, a, c, key);
    assert ListInsert(cmp, a, key, value) + c == ListInsert(cmp, a, key, value) + [x] + b;
    assert ListRemove(cmp, a, key) + c == ListRemove(cmp, a, key) + [x] + b;
  }

  lemma AboveSorted<K(!new), V>(cmp: (K, K) -> int, a: seq<(K, V)>, c: seq<(K, V)>)
    requires Sorted(cmp, a + c)
    ensures Sorted(cmp, c)
  {
    assert forall i :: 0 <= i < |c| ==> (a + c)[|a| + i] == c[i];
  }

  lemma {:induction false} InsertsBefore<K, V>(cmp: (K, K) -> int, a: seq<(K, V)>, c: seq<(K, V)>, key: K, value: V)
    requires c != [] && cmp(key, c[0].0) < 0
    ensures ListInsert(cmp, a + c, key, value) == ListInsert(cmp, a, key, value) + c
    decreases |a|
  {
    if a == [] {
      assert a + c == c;
    } else {
      assert (a + c)[1..] == a[1..] + c && (a + c)[0] == a[0];
      InsertsBefore(cmp, a[1..], c, key, value);
    }
  }

  lemma {:induction false} RemovesBefore<K, V>(cmp: (K, K) -> int, a: seq<(K, V)>, c: seq<(K, V)>, key: K)
    requires ListRemove(cmp, c, key) == c && ListLookup(cmp, c, key) == None
    ensures ListRemove(cmp, a + c, key) == ListRemove(cmp, a, key) + c
    ensures ListLookup(cmp, a + c, key) == ListLookup(cmp, a, key)
    decreases |a|
  {
    if a == [] {
      assert a + c == c;
    } else {
      assert (a + c)[1..] == a[1..] + c && (a + c)[0] == a[0];
      RemovesBefore(cmp, a[1..], c, key);
    }
  }

  // a key below the first entry is not in the list
  lemma {:induction false} NothingAt<K(!new), V>(cmp: (K, K) -> int, es: seq<(K, V)>, key: K)
    requires Ordering(cmp) && Sorted(cmp, es) && (es != [] ==> cmp(key, es[0].0) < 0)
    ensures ListRemove(cmp, es, key) == es && ListLookup(cmp, es, key) == None
    decreases |es|
  {
    hide Ordering;
    if es != [] {
      TailSorted(cmp, es);
      if |es| > 1 { OrderingStep(cmp, key, es[0].0, es[1].0); }
      NothingAt(cmp, es[1..], key);
      assert [es[0]] + es[1..] == es;
    }
  }

  lemma ActsAt<K(!new), V>(cmp: (K, K) -> int, a: seq<(K, V)>, x: (K, V), b: seq<(K, V)>, key: K, value: V)
    requires Ordering(cmp) && Sorted(cmp, a + [x] + b) && cmp(key, x.0) >= 0
    ensures ListInsert(cmp, a + [x] + b, key, value)
            == if cmp(key, x.0) == 0 then a + [(x.0, value)] + b else a + [x] + ListInsert(cmp, b, key, value)
    ensures ListRemove(cmp, a + [x] + b, key)
            == if cmp(key, x.0) == 0 then a + b else a + [x] + ListRemove(cmp, b, key)
    ensures ListLookup(cmp, a + [x] + b, key)
            == if cmp(key, x.0) == 0 then Some(x.1) else ListLookup(cmp, b, key)
  {
    hide Ordering, Sorted, Before;
    BeforeKey(cmp, a, x, b, key);
    var c := [x] + b;
    assert a + [x] + b == a + c && c[1..] == b;
    ActsBehind(cmp, a, c, key, value);
  }

  // ----- the tree operations on the list of entries -----

  lemma {:induction false} LookupEntries<K(!new), V>(cmp: (K, K) -> int, t: Tree<K, V>, key: K, any: V)
    requires Ordering(cmp) && Sorted(cmp, Entries(t))
    ensures Lookup(cmp, t, key) == ListLookup(cmp, Entries(t), key)
    decreases t
  {
    hide Ordering;
    if t.Node? {
      var a, x, b := Entries(t.left), (t.key, t.value), Entries(t.right);
      SplitSorted(cmp, a, x, b);
      if cmp(key, t.key) < 0 {
        ActsBefore(cmp, a, x, b, key, any);
        LookupEntries(cmp, t.left, key, any);
      } else {
        ActsAt(cmp, a, x, b, key, any);
        if cmp(key, t.key) > 0 { LookupEntries(cmp, t.right, key, any); }
      }
    }
  }

  // Insertion into the tree is insertion into the list; the flag says whether it is new.
  lemma {:induction false} InsertEntries<K(!new), V>(cmp: (K, K) -> int, t: Tree<K, V>, key: K, value: V)
    requires Ordering(cmp) && Avl(t) && Sorted(cmp, Entries(t))
    ensures Entries(Insert(cmp, t, key, value).0) == ListInsert(cmp, Entries(t), key, value)
    ensures Insert(cmp, t, key, value).1 <==> ListLookup(cmp, Entries(t), key) == None
    decreases t
  {
    hide Ordering, Sorted;
    if t.Node? {
      var a, x, b := Entries(t.left), (t.key, t.value), Entries(t.right);
      SplitSorted(cmp, a, x, b);
      if cmp(key, t.key) < 0 {
        ActsBefore(cmp, a, x, b, key, value);
        InsertEntries(cmp, t.left, key, value);
        var (l, inserted) := Insert(cmp, t.left, key, value);
        InsertedLeftEntries(t, l, inserted);
      } else {
        ActsAt(cmp, a, x, b, key, value);
        if cmp(key, t.key) > 0 {
          InsertEntries(cmp, t.right, key, value);
          var (r, inserted) := Insert(cmp, t.right, key, value);
          InsertedRightEntries(t, r, inserted);
        }
      }
    }
  }

  lemma InsertedLeftEntries<K, V>(t: Tree<K, V>, l: Tree<K, V>, inserted: bool)
    requires t.Node? && Avl(t) && Grows(t.left, l, inserted)
    ensures Entries(InsertedLeft(t, l, inserted)) == Entries(l) + [(t.key, t.value)] + Entries(t.right)
  {
    var grown := t.left.Leaf? || (t.left.balance != l.balance && l.balance != 0);
    var node := t.(left := l, balance := if grown then t.balance - 1 else t.balance);
    RebalanceAvl(node);
    RebalanceKeepsEntries(node);
  }

  lemma InsertedRightEntries<K, V>(t: Tree<K, V>, r: Tree<K, V>, inserted: bool)
    requires t.Node? && Avl(t) && Grows(t.right, r, inserted)
    ensures Entries(InsertedRight(t, r, inserted)) == Entries(t.left) + [(t.key, t.value)] + Entries(r)
  {
    var grown := t.right.Leaf? || (t.right.balance != r.balance && r.balance != 0);
    var node := t.(right := r, balance := if grown then t.balance + 1 else t.balance);
    RebalanceAvl(node);
    RebalanceKeepsEntries(node);
  }

  lemma RestoreKeepsEntries<K, V>(t: Tree<K, V>, oldBalance: int)
    requires t.Node?
    ensures Rotatable(LeftRestored(t, oldBalance)) ==> Entries(RestoreLeft(t, oldBalance)) == Entries(t)
    ensures Rotatable(RightRestored(t, oldBalance)) ==> Entries(RestoreRight(t, oldBalance)) == Entries(t)
  {
    if Rotatable(LeftRestored(t, oldBalance)) { RebalanceKeepsEntries(LeftRestored(t, oldBalance)); }
    if Rotatable(RightRestored(t, oldBalance)) { RebalanceKeepsEntries(RightRestored(t, oldBalance)); }
  }

  lemma {:induction false} RemoveLeftmostEntries<K, V>(t: Tree<K, V>)
    requires t.Node? && Avl(t)
    ensures Entries(t) == [RemoveLeftmost(t).1] + Entries(RemoveLeftmost(t).0)
    decreases t
  {
    if t.left.Leaf? {
      assert [] + [(t.key, t.value)] + Entries(t.right) == [(t.key, t.value)] + Entries(t.right);
    } else {
      var (l, first) := RemoveLeftmost(t.left);
      RemoveLeftmostEntries(t.left);
      RestoreLeftShrinks(t, l);
      RestoreKeepsEntries(t.(left := l), t.left.balance);
      assert [first] + Entries(l) + [(t.key, t.value)] + Entries(t.right)
          == [first] + (Entries(l) + [(t.key, t.value)] + Entries(t.right));
    }
  }

  // Removal from the tree is removal from the list.
  lemma {:induction false} RemoveEntries<K(!new), V>(cmp: (K, K) -> int, t: Tree<K, V>, key: K)
    requires Ordering(cmp) && Avl(t) && Sorted(cmp, Entries(t))
    ensures Entries(Remove(cmp, t, key)) == ListRemove(cmp, Entries(t), key)
    decreases t
  {
    hide Ordering, Sorted;
    if t.Node? {
      var a, x, b := Entries(t.left), (t.key, t.value), Entries(t.right);
      SplitSorted(cmp, a, x, b);
      if cmp(key, t.key) < 0 {
        ActsBefore(cmp, a, x, b, key, t.value);
        RemoveEntries(cmp, t.left, key);
        if t.left.Node? {
          var l := Remove(cmp, t.left, key);
          RestoreLeftShrinks(t, l);
          RestoreKeepsEntries(t.(left := l), t.left.balance);
        }
      } else if cmp(key, t.key) == 0 {
        ActsAt(cmp, a, x, b, key, t.value);
        RemoveRootEntries(cmp, t, key);
      } else {
        ActsAt(cmp, a, x, b, key, t.value);
        RemoveEntries(cmp, t.right, key);
        if t.right.Node? {
          var r := Remove(cmp, t.right, key);
          RestoreRightShrinks(t, r);
          RestoreKeepsEntries(t.(right := r), t.right.balance);
        }
      }
    }
  }

  lemma RemoveRootEntries<K, V>(cmp: (K, K) -> int, t: Tree<K, V>, key: K)
    requires t.Node? && Avl(t) && cmp(key, t.key) == 0
    ensures Entries(Remove(cmp, t, key)) == Entries(t.left) + Entries(t.right)
  {
    if t.right.Leaf? {
      assert Entries(t.left) + [] == Entries(t.left);
    } else {
      var (r, first) := RemoveLeftmost(t.right);
      RemoveLeftmostEntries(t.right);
      NewRootEntries(t.(key := first.0, value := first.1), r);
    }
  }

  // the leftmost entry of the right subtree has taken the root's place
  lemma NewRootEntries<K, V>(top: Tree<K, V>, r: Tree<K, V>)
    requires top.Node? && Avl(top) && top.right.Node? && Shrinks(top.right, r)
    requires Entries(top.right) == [(top.key, top.value)] + Entries(r)
    ensures Rotatable(RightRestored(top.(right := r), top.right.balance))
    ensures Entries(RestoreRight(top.(right := r), top.right.balance)) == Entries(top.left) + Entries(top.right)
  {
    hide Rotatable, RestoreRight, RightRestored, Shrinks, Height, Avl, Entries;
    RestoreRightShrinks(top, r);
    RestoreKeepsEntries(top.(right := r), top.right.balance);
    EntriesOf(top.(right := r));
    assert Entries(top.left) + [(top.key, top.value)] + Entries(r) == Entries(top.left) + ([(top.key, top.value)] + Entries(r));
  }

  lemma EntriesOf<K, V>(t: Tree<K, V>)
    requires t.Node?
    ensures Entries(t) == Entries(t.left) + [(t.key, t.value)] + Entries(t.right)
  {
  }

  // ----- the list as a finite map -----

  lemma {:induction false} ListInsertIs<K(!new), V>(cmp: (K, K) -> int, es: seq<(K, V)>, key: K, value: V, other: K)
    requires Ordering(cmp) && Sorted(cmp, es)
    ensures ListLookup(cmp, ListInsert(cmp, es, key, value), other)
            == if cmp(other, key) == 0 then Some(value) else ListLookup(cmp, es, other)
    decreases |es|
  {
    hide Ordering;
    if es == [] {
    } else {
      TailSorted(cmp, es);
      Equals(cmp, other, key, es[0].0);
      if cmp(key, es[0].0) > 0 {
        ListInsertIs(cmp, es[1..], key, value, other);
        assert ([es[0]] + ListInsert(cmp, es[1..], key, value))[1..] == ListInsert(cmp, es[1..], key, value);
      } else if cmp(key, es[0].0) < 0 {
        assert ([(key, value)] + es)[1..] == es;
      } else {
        assert ([(es[0].0, value)] + es[1..])[1..] == es[1..];
      }
    }
  }

  // keys that compare equal can stand for each other
  lemma Equals<K(!new)>(cmp: (K, K) -> int, a: K, b: K, c: K)
    requires Ordering(cmp)
    ensures cmp(a, b) == 0 ==> (cmp(a, c) == 0 <==> cmp(b, c) == 0) && (cmp(a, c) < 0 <==> cmp(b, c) < 0)
    ensures cmp(b, c) == 0 ==> (cmp(a, b) == 0 <==> cmp(a, c) == 0)
  {
    OrderingStep(cmp, a, b, c);
    OrderingStep(cmp, b, a, c);
    OrderingStep(cmp, a, c, b);
    OrderingStep(cmp, b, c, a);
    OrderingStep(cmp, c, b, a);
    OrderingStep(cmp, c, a, b);
  }

  // every key of the list compares equal to key or stands in es
  ghost predicate KeysFrom<K, V>(cmp: (K, K) -> int, r: seq<(K, V)>, es: seq<(K, V)>, key: K) {
    forall j :: 0 <= j < |r| ==> cmp(r[j].0, key) == 0 || exists i :: 0 <= i < |es| && es[i].0 == r[j].0
  }

  lemma ConsSorted<K(!new), V>(cmp: (K, K) -> int, e: (K, V), r: seq<(K, V)>)
    requires Sorted(cmp, r) && forall j :: 0 <= j < |r| ==> cmp(e.0, r[j].0) < 0
    ensures Sorted(cmp, [e] + r)
  {
  }

  lemma {:induction false} ListInsertSorted<K(!new), V>(cmp: (K, K) -> int, es: seq<(K, V)>, key: K, value: V)
    requires Ordering(cmp) && Sorted(cmp, es)
    ensures Sorted(cmp, ListInsert(cmp, es, key, value))
    ensures KeysFrom(cmp, ListInsert(cmp, es, key, value), es, key)
    decreases |es|
  {
    hide Ordering, Sorted;
    OrderingStep(cmp, key, key, key);
    if es == [] {
      OneSorted(cmp, (key, value));
    } else {
      TailSorted(cmp, es);
      if cmp(key, es[0].0) > 0 {
        var r := ListInsert(cmp, es[1..], key, value);
        ListInsertSorted(cmp, es[1..], key, value);
        forall j | 0 <= j < |r| ensures cmp(es[0].0, r[j].0) < 0 {
          OrderingStep(cmp, r[j].0, key, es[0].0);
          OrderingStep(cmp, es[0].0, key, r[j].0);
          OppositeSigns(cmp, key, es[0].0);
          if cmp(r[j].0, key) != 0 {
            var i :| 0 <= i < |es[1..]| && es[1..][i].0 == r[j].0;
          }
        }
        ConsSorted(cmp, es[0], r);
        ConsKeys(cmp, es, r, key);
      } else if cmp(key, es[0].0) < 0 {
        forall i | 0 <= i < |es| ensures cmp(key, es[i].0) < 0 {
          if i > 0 {
            assert es[1..][i - 1] == es[i];
            OrderingStep(cmp, key, es[0].0, es[i].0);
          }
        }
        ConsSorted(cmp, (key, value), es);
      } else {
        ConsSorted(cmp, (es[0].0, value), es[1..]);
        OrderingStep(cmp, key, es[0].0, key);
        assert forall j :: 0 < j < |es| ==> ([(es[0].0, value)] + es[1..])[j] == es[j];
      }
    }
  }

  lemma OneSorted<K(!new), V>(cmp: (K, K) -> int, e: (K, V))
    ensures Sorted(cmp, [e])
  {
  }

  lemma OppositeSigns<K(!new)>(cmp: (K, K) -> int, a: K, b: K)
    requires Ordering(cmp)
    ensures cmp(a, b) > 0 <==> cmp(b, a) < 0
  {
  }

  lemma ConsKeys<K, V>(cmp: (K, K) -> int, es: seq<(K, V)>, r: seq<(K, V)>, key: K)
    requires es != [] && KeysFrom(cmp, r, es[1..], key)
    ensures KeysFrom(cmp, [es[0]] + r, es, key)
  {
    var q := [es[0]] + r;
    forall j | 0 <= j < |q| ensures cmp(q[j].0, key) == 0 || exists i :: 0 <= i < |es| && es[i].0 == q[j].0 {
      if j > 0 && cmp(q[j].0, key) != 0 {
        assert q[j] == r[j - 1];
        var i :| 0 <= i < |es[1..]| && es[1..][i].0 == r[j - 1].0;
        assert es[i + 1].0 == q[j].0;
      }
    }
  }

  lemma {:induction false} ListRemoveIs<K(!new), V>(cmp: (K, K) -> int, es: seq<(K, V)>, key: K, other: K)
    requires Ordering(cmp) && Sorted(cmp, es)
    ensures ListLookup(cmp, ListRemove(cmp, es, key), other)
            == if cmp(other, key) == 0 then None else ListLookup(cmp, es, other)
    decreases |es|
  {
    hide Ordering, Sorted;
    if es != [] {
      TailSorted(cmp, es);
      Equals(cmp, other, key, es[0].0);
      if cmp(key, es[0].0) == 0 {
        if cmp(other, key) == 0 {
          if |es| > 1 {
            assert es[1..][0] == es[1];
            OrderingStep(cmp, other, es[0].0, es[1].0);
          }
          NothingAt(cmp, es[1..], other);
        }
      } else {
        ListRemoveIs(cmp, es[1..], key, other);
        var r := ListRemove(cmp, es[1..], key);
        assert ([es[0]] + r)[1..] == r;
      }
    }
  }

  lemma {:induction false} ListRemoveSorted<K(!new), V>(cmp: (K, K) -> int, es: seq<(K, V)>, key: K)
    requires Sorted(cmp, es)
    ensures Sorted(cmp, ListRemove(cmp, es, key))
    ensures forall e <- ListRemove(cmp, es, key) :: e in es
    decreases |es|
  {
    hide Sorted;
    if es != [] {
      TailSorted(cmp, es);
      if cmp(key, es[0].0) != 0 {
        var r := ListRemove(cmp, es[1..], key);
        ListRemoveSorted(cmp, es[1..], key);
        forall j | 0 <= j < |r| ensures cmp(es[0].0, r[j].0) < 0 {
          assert r[j] in r && r[j] in es[1..];
        }
        ConsSorted(cmp, es[0], r);
      }
    }
  }

  // ----- whole runs -----

  datatype Operation<K, V> = InsertOp(key: K, value: V) | RemoveOp(key: K)

  function Apply<K, V>(cmp: (K, K) -> int, t: Tree<K, V>, op: Operation<K, V>): Tree<K, V>
    requires Avl(t)
    ensures Avl(Apply(cmp, t, op))
  {
    if op.InsertOp? then Insert(cmp, t, op.key, op.value).0 else Remove(cmp, t, op.key)
  }

  // the tree that g_tree_new, and then the operations in their order, leave
  function Run<K, V>(cmp: (K, K) -> int, ops: seq<Operation<K, V>>): (t: Tree<K, V>)
    ensures Avl(t)
    decreases |ops|
  {
    if ops == [] then Leaf else Apply(cmp, Run(cmp, ops[..|ops| - 1]), ops[|ops| - 1])
  }

  // What the operations have made of a key: the last that named an equal key counts.
  function Latest<K, V>(cmp: (K, K) -> int, ops: seq<Operation<K, V>>, key: K): Option<V>
    decreases |ops|
  {
    if ops == [] then None
    else
      var op := ops[|ops| - 1];
      if cmp(key, op.key) != 0 then Latest(cmp, ops[..|ops| - 1], key)
      else if op.InsertOp? then Some(op.value)
      else None
  }

  lemma ApplyKeepsOrder<K(!new), V>(cmp: (K, K) -> int, t: Tree<K, V>, op: Operation<K, V>, key: K)
    requires Ordering(cmp) && Avl(t) && Sorted(cmp, Entries(t))
    ensures Sorted(cmp, Entries(Apply(cmp, t, op)))
    ensures Lookup(cmp, Apply(cmp, t, op), key)
            == if cmp(key, op.key) != 0 then Lookup(cmp, t, key)
               else if op.InsertOp? then Some(op.value) else None
  {
    hide Ordering, Sorted, Insert, Remove, Lookup, Entries, Avl;
    if op.InsertOp? {
      InsertEntries(cmp, t, op.key, op.value);
      ListInsertSorted(cmp, Entries(t), op.key, op.value);
      ListInsertIs(cmp, Entries(t), op.key, op.value, key);
      LookupEntries(cmp, t, key, op.value);
      LookupEntries(cmp, Apply(cmp, t, op), key, op.value);
    } else {
      RemoveEntries(cmp, t, op.key);
      ListRemoveSorted(cmp, Entries(t), op.key);
      ListRemoveIs(cmp, Entries(t), op.key, key);
      LookupIsList(cmp, t, key);
      LookupIsList(cmp, Apply(cmp, t, op), key);
    }
  }

  lemma LookupIsList<K(!new), V>(cmp: (K, K) -> int, t: Tree<K, V>, key: K)
    requires Ordering(cmp) && Sorted(cmp, Entries(t))
    ensures Lookup(cmp, t, key) == ListLookup(cmp, Entries(t), key)
  {
    if t.Node? { LookupEntries(cmp, t, key, t.value); }
  }

  // Every run of insertions and removals leaves a tree in key order that is balanced, that
  // records its balances rightly, and that holds exactly what a finite map would hold.
  lemma {:induction false} RunRefinesMap<K(!new), V>(cmp: (K, K) -> int, ops: seq<Operation<K, V>>, key: K)
    requires Ordering(cmp)
    ensures Avl(Run(cmp, ops)) && Sorted(cmp, Entries(Run(cmp, ops)))
    ensures Lookup(cmp, Run(cmp, ops), key) == Latest(cmp, ops, key)
    decreases |ops|
  {
    hide Ordering, Apply;
    if ops != [] {
      RunRefinesMap(cmp, ops[..|ops| - 1], key);
      ApplyKeepsOrder(cmp, Run(cmp, ops[..|ops| - 1]), ops[|ops| - 1], key);
    }
  }

  // ----- searching by a caller's function -----

  // The function points from every entry towards the wanted ones.
  ghost predicate Points<K, V>(dir: K -> int, es: seq<(K, V)>) {
    forall i, j :: 0 <= i < j < |es| ==>
      (dir(es[i].0) < 0 ==> dir(es[j].0) < 0) && (dir(es[j].0) > 0 ==> dir(es[i].0) > 0)
  }

  // Then g_tree_search finds a wanted entry whenever there is one.
  lemma {:induction false} SearchFinds<K, V>(dir: K -> int, t: Tree<K, V>)
    requires Points(dir, Entries(t))
    ensures match Search(dir, t)
            case None => forall e <- Entries(t) :: dir(e.0) != 0
            case Some(v) => exists e <- Entries(t) :: dir(e.0) == 0 && e.1 == v
  {
    if t.Node? {
      var a, x, b := Entries(t.left), (t.key, t.value), Entries(t.right);
      var es := Entries(t);
      assert es == a + [x] + b && es[|a|] == x;
      if dir(x.0) == 0 {
        assert x in es;
      } else {
        var below := if dir(x.0) < 0 then t.left else t.right;
        PointsWithin(dir, a, x, b);
        SearchFinds(dir, below);
      }
    }
  }

  lemma PointsWithin<K, V>(dir: K -> int, a: seq<(K, V)>, x: (K, V), b: seq<(K, V)>)
    requires Points(dir, a + [x] + b)
    ensures Points(dir, a) && Points(dir, b)
    ensures dir(x.0) < 0 ==> forall e <- b :: dir(e.0) != 0
    ensures dir(x.0) > 0 ==> forall e <- a :: dir(e.0) != 0
  {
    var es := a + [x] + b;
    assert forall i :: 0 <= i < |a| ==> es[i] == a[i];
    assert forall i :: 0 <= i < |b| ==> es[|a| + 1 + i] == b[i];
    assert es[|a|] == x;
  }

  function Fib(n: nat): nat { if n < 2 then n else Fib(n - 1) + Fib(n - 2) }

  // g_tree_node_count
  function Count<K, V>(t: Tree<K, V>): nat { if t.Leaf? then 0 else 1 + Count(t.left) + Count(t.right) }

  lemma {:induction false} FibGrows(m: nat, n: nat)
    requires m <= n
    ensures Fib(m) <= Fib(n) || (m == 0 && n == 0)
    decreases n
  {
    if m < n {
      FibGrows(m, n - 1);
      assert n < 2 || Fib(n) == Fib(n - 1) + Fib(n - 2);
    }
  }

  lemma CountEntries<K, V>(t: Tree<K, V>)
    ensures Count(t) == |Entries(t)|
  {
  }

  // A balanced tree of height h has at least Fib(h + 2) - 1 nodes.
  lemma {:induction false} HeightBound<K, V>(t: Tree<K, V>)
    requires Avl(t)
    ensures Count(t) >= Fib(Height(t) + 2) - 1
    decreases t
  {
    if t.Node? {
      hide Fib;
      HeightBound(t.left);
      HeightBound(t.right);
      FibStep(Height(t.left), Height(t.right), Height(t));
    }
  }

  lemma FibStep(l: nat, r: nat, h: nat)
    requires h == Max(l, r) + 1 && -1 <= l - r <= 1
    ensures Fib(h + 2) <= Fib(l + 2) + Fib(r + 2)
  {
    var low := if l < r then l else r;
    assert Fib(h + 2) == Fib(h + 1) + Fib(h);
    FibGrows(h, low + 2);
  }

  // So the height after any run is logarithmic in the number of keys held.
  lemma RunHeight<K(!new), V>(cmp: (K, K) -> int, ops: seq<Operation<K, V>>)
    requires Ordering(cmp)
    ensures |Entries(Run(cmp, ops))| >= Fib(Height(Run(cmp, ops)) + 2) - 1
  {
    HeightBound(Run(cmp, ops));
    CountEntries(Run(cmp, ops));
  }
}
