// The chunk allocator of gmem.c for a chunk of type G_ALLOC_AND_FREE.  Atoms of one size are
// carved out of areas; freed atoms go on a list.  An area whose atoms have all been freed is
// marked, and is released or used anew only after its atoms have been drained off the list.
//
// An address is a number and an area is known by the address of its first atom, so the links
// between areas and the ones written into freed atoms are sequences here.  The tree of areas
// is the value that GTree proves the tree of gtree.c to hold.
module MemChunk {
  import opened Collections
  import opened AvlTree
  import AvlRuns

  datatype Area = Area(index: nat, free: nat, allocations: nat, mark: bool)

  // ----- what holds between calls -----

  function Within(atoms: set<int>, a: int, areaSize: nat): set<int> {
    set x | x in atoms && a <= x < a + areaSize
  }

  function Listed(freeAtoms: seq<int>): set<int> { set x | x in freeAtoms }

  predicate Multiple(n: int, d: nat)
    requires 0 < d
    decreases n
  {
    n == 0 || (n >= d && Multiple(n - d, d))
  }

  // an atom carved out of the area at a
  ghost predicate Placed(areas: map<int, Area>, atomSize: nat, x: int, a: int)
    requires atomSize > 0
  {
    a in areas && a <= x && x + atomSize <= a + areas[a].index && Multiple(x - a, atomSize)
  }

  // The numbers kept in an area: what is neither live nor listed is free, either because it
  // has not been carved yet or because it has been drained.
  ghost predicate Counted(area: Area, atomSize: nat, areaSize: nat, live: nat, listed: nat)
    requires atomSize > 0
  {
    && area.index <= areaSize && Multiple(area.index, atomSize)
    && area.free + atomSize * (live + listed) == areaSize && area.allocations == live
    && (if area.mark then live == 0 else live > 0 && area.index + area.free == areaSize)
  }

  ghost predicate Separate(areas: map<int, Area>, areaSize: nat) {
    forall a, b :: a in areas && b in areas && a < b ==> a + areaSize <= b
  }

  ghost predicate Sound(atomSize: nat, areaSize: nat, areas: map<int, Area>, freeAtoms: seq<int>, live: set<int>) {
    && 0 < atomSize <= areaSize && Separate(areas, areaSize)
    && Distinct(freeAtoms) && Listed(freeAtoms) !! live
    && (forall x :: x in live || x in freeAtoms ==> exists a :: Placed(areas, atomSize, x, a))
    && (forall a :: a in areas ==>
          Counted(areas[a], atomSize, areaSize, |Within(live, a, areaSize)|, |Within(Listed(freeAtoms), a, areaSize)|))
  }

  // The only area that is entirely free is the spare one.
  ghost predicate Roles(areaSize: nat, areas: map<int, Area>, memArea: Option<int>, freeMemArea: Option<int>) {
    && (memArea.Some? ==> memArea.value in areas)
    && (freeMemArea.Some? ==> freeMemArea.value in areas && areas[freeMemArea.value].mark && memArea != freeMemArea)
    && (forall a :: a in areas ==> (areas[a].free == areaSize <==> freeMemArea == Some(a)))
  }

  // ----- what that means -----

  // No two atoms overlap, live or listed, and each lies inside one area.
  lemma AtomsApart(atomSize: nat, areaSize: nat, areas: map<int, Area>, freeAtoms: seq<int>, live: set<int>, x: int, y: int)
    requires Sound(atomSize, areaSize, areas, freeAtoms, live)
    requires (x in live || x in freeAtoms) && (y in live || y in freeAtoms) && x < y
    ensures x + atomSize <= y
    ensures exists a :: a in areas && a <= x && x + atomSize <= a + areaSize
  {
    hide Placed, Separate, Distinct, Within;
    var a :| Placed(areas, atomSize, x, a);
    var b :| Placed(areas, atomSize, y, b);
    PlacedIn(areas, atomSize, x, a);
    PlacedIn(areas, atomSize, y, b);
    PlacedApart(areas, atomSize, areaSize, x, a, y, b);
  }

  lemma PlacedIn(areas: map<int, Area>, atomSize: nat, x: int, a: int)
    requires 0 < atomSize && Placed(areas, atomSize, x, a)
    ensures a in areas && a <= x && x + atomSize <= a + areas[a].index
  {
  }

  lemma PlacedApart(areas: map<int, Area>, atomSize: nat, areaSize: nat, x: int, a: int, y: int, b: int)
    requires 0 < atomSize && Separate(areas, areaSize) && Placed(areas, atomSize, x, a) && Placed(areas, atomSize, y, b)
    requires areas[a].index <= areaSize && areas[b].index <= areaSize && x < y
    ensures x + atomSize <= y
  {
    if a == b { Multiples(x - a, y - a, atomSize); }
  }

  lemma {:induction false} Multiples(m: nat, n: nat, d: nat)
    requires 0 < d && Multiple(m, d) && Multiple(n, d) && m < n
    ensures m + d <= n
    decreases m
  {
    if m > 0 { Multiples(m - d, n - d, d); }
  }

  // An area holds live and listed atoms until it is entirely free.
  lemma FreeIsEmpty(atomSize: nat, areaSize: nat, areas: map<int, Area>, freeAtoms: seq<int>, live: set<int>, a: int)
    requires Sound(atomSize, areaSize, areas, freeAtoms, live) && a in areas
    ensures areas[a].free == areaSize <==> (forall x :: x in live || x in freeAtoms ==> !(a <= x < a + areaSize))
  {
    hide Placed, Separate, Distinct, Within;
    var l, f := Within(live, a, areaSize), Within(Listed(freeAtoms), a, areaSize);
    CountedFree(areas[a], atomSize, areaSize, |l|, |f|);
    NoneWithin(live, a, areaSize);
    NoneWithin(Listed(freeAtoms), a, areaSize);
    assert forall x :: x in freeAtoms <==> x in Listed(freeAtoms);
  }

  lemma CountedFree(area: Area, atomSize: nat, areaSize: nat, live: nat, listed: nat)
    requires 0 < atomSize && Counted(area, atomSize, areaSize, live, listed)
    ensures area.free == areaSize <==> live == 0 && listed == 0
  {
    if live + listed > 0 { assert atomSize * (live + listed) >= atomSize; }
  }

  lemma NoneWithin(atoms: set<int>, a: int, areaSize: nat)
    ensures |Within(atoms, a, areaSize)| == 0 <==> forall x :: x in atoms ==> !(a <= x < a + areaSize)
  {
    if |Within(atoms, a, areaSize)| == 0 {
      forall x | x in atoms ensures !(a <= x < a + areaSize) {
        assert x !in Within(atoms, a, areaSize);
      }
    } else {
      var x :| x in Within(atoms, a, areaSize);
    }
  }

  // ----- the search for an atom's area -----

  function CompareAreas(a: int, b: int): int { if a > b then 1 else if a < b then -1 else 0 }

  // g_mem_chunk_area_search
  function AreaSearch(areas: map<int, Area>, a: int, addr: int): int {
    if a <= addr then
      if a in areas && addr < a + areas[a].index then 0 else 1
    else -1
  }

  lemma CompareOrders()
    ensures Ordering(CompareAreas)
  {
  }

  // The tree has an entry for each area, and no others.
  ghost predicate TreeOf(tree: Tree<int, int>, areas: map<int, Area>) {
    && Avl(tree) && Sorted(CompareAreas, Entries(tree))
    && forall a :: ListLookup(CompareAreas, Entries(tree), a) == if a in areas then Some(a) else None
  }

  lemma {:induction false} LookupEntry(es: seq<(int, int)>, e: (int, int))
    requires Sorted(CompareAreas, es) && e in es
    ensures ListLookup(CompareAreas, es, e.0) == Some(e.1)
  {
    if es[0] != e {
      var i :| 0 <= i < |es| && es[i] == e;
      assert CompareAreas(es[0].0, es[i].0) < 0;
      AvlRuns.TailSorted(CompareAreas, es);
      assert es[1..][i - 1] == e;
      LookupEntry(es[1..], e);
    }
  }

  lemma {:induction false} LookupFound(es: seq<(int, int)>, a: int)
    requires ListLookup(CompareAreas, es, a).Some?
    ensures exists e <- es :: e.0 == a
  {
    if es[0].0 == a {
      assert es[0] in es;
    } else {
      LookupFound(es[1..], a);
      var e :| e in es[1..] && e.0 == a;
      assert e in es;
    }
  }

  lemma EntriesAre(tree: Tree<int, int>, areas: map<int, Area>)
    requires TreeOf(tree, areas)
    ensures forall i :: 0 <= i < |Entries(tree)| ==> Entries(tree)[i].0 in areas && Entries(tree)[i].1 == Entries(tree)[i].0
    ensures forall i, j :: 0 <= i < j < |Entries(tree)| ==> Entries(tree)[i].0 < Entries(tree)[j].0
  {
    var es := Entries(tree);
    forall i | 0 <= i < |es| ensures es[i].0 in areas && es[i].1 == es[i].0 {
      LookupEntry(es, es[i]);
    }
    forall i, j | 0 <= i < j < |es| ensures es[i].0 < es[j].0 {
      assert CompareAreas(es[i].0, es[j].0) < 0;
    }
  }

  // Only the atom's own area answers 0, and every other points towards it.
  lemma AreasPoint(areas: map<int, Area>, areaSize: nat, x: int, a: int, b: int, c: int)
    requires Separate(areas, areaSize) && a in areas && b in areas && c in areas && b < c
    requires areas[a].index <= areaSize && areas[b].index <= areaSize && areas[c].index <= areaSize
    requires a <= x < a + areas[a].index
    ensures AreaSearch(areas, b, x) == 0 ==> b == a
    ensures AreaSearch(areas, c, x) == 0 ==> c == a
    ensures AreaSearch(areas, b, x) < 0 ==> AreaSearch(areas, c, x) < 0
    ensures AreaSearch(areas, c, x) > 0 ==> AreaSearch(areas, b, x) > 0
  {
  }

  // g_tree_search finds the area an atom was carved out of.
  lemma SearchFindsOwner(areaSize: nat, atomSize: nat, areas: map<int, Area>, tree: Tree<int, int>, x: int, a: int)
    requires TreeOf(tree, areas) && Separate(areas, areaSize) && 0 < atomSize && Placed(areas, atomSize, x, a)
    requires forall b :: b in areas ==> areas[b].index <= areaSize
    ensures Search(k => AreaSearch(areas, k, x), tree) == Some(a)
  {
    hide TreeOf, Search, Separate, AreaSearch;
    var dir := k => AreaSearch(areas, k, x);
    var es := Entries(tree);
    EntriesAre(tree, areas);
    forall i, j | 0 <= i < j < |es|
      ensures (dir(es[i].0) < 0 ==> dir(es[j].0) < 0) && (dir(es[j].0) > 0 ==> dir(es[i].0) > 0)
    {
      AreasPoint(areas, areaSize, x, a, es[i].0, es[j].0);
    }
    assert AvlRuns.Points(dir, es);
    AvlRuns.SearchFinds(dir, tree);
    OwnEntry(areaSize, areas, tree, x, a);
  }

  lemma OwnEntry(areaSize: nat, areas: map<int, Area>, tree: Tree<int, int>, x: int, a: int)
    requires TreeOf(tree, areas) && Separate(areas, areaSize) && a in areas && a <= x < a + areas[a].index
    requires forall b :: b in areas ==> areas[b].index <= areaSize
    ensures exists e <- Entries(tree) :: AreaSearch(areas, e.0, x) == 0
    ensures forall e <- Entries(tree) :: AreaSearch(areas, e.0, x) == 0 ==> e.1 == a
  {
    EntriesAre(tree, areas);
    LookupFound(Entries(tree), a);
    forall e | e in Entries(tree) && AreaSearch(areas, e.0, x) == 0 ensures e.1 == a {
      if e.0 < a { AreasPoint(areas, areaSize, x, a, e.0, a); } else if a < e.0 { AreasPoint(areas, areaSize, x, a, a, e.0); }
    }
  }

  lemma TreeInserted(tree: Tree<int, int>, areas: map<int, Area>, a: int, area: Area)
    requires TreeOf(tree, areas)
    ensures TreeOf(Insert(CompareAreas, tree, a, a).0, areas[a := area])
  {
    hide Insert, ListInsert;
    CompareOrders();
    AvlRuns.InsertEntries(CompareAreas, tree, a, a);
    AvlRuns.ListInsertSorted(CompareAreas, Entries(tree), a, a);
    forall b ensures ListLookup(CompareAreas, ListInsert(CompareAreas, Entries(tree), a, a), b)
                     == if b in areas[a := area] then Some(b) else None
    {
      AvlRuns.ListInsertIs(CompareAreas, Entries(tree), a, a, b);
    }
  }

  lemma TreeRemoved(tree: Tree<int, int>, areas: map<int, Area>, a: int)
    requires TreeOf(tree, areas)
    ensures TreeOf(Remove(CompareAreas, tree, a), areas - {a})
  {
    hide Remove, ListRemove;
    CompareOrders();
    AvlRuns.RemoveEntries(CompareAreas, tree, a);
    AvlRuns.ListRemoveSorted(CompareAreas, Entries(tree), a);
    forall b ensures ListLookup(CompareAreas, ListRemove(CompareAreas, Entries(tree), a), b)
                     == if b in areas - {a} then Some(b) else None
    {
      AvlRuns.ListRemoveIs(CompareAreas, Entries(tree), a, b);
    }
  }

  // ----- one step of an operation -----

  lemma WithinMore(atoms: set<int>, x: int, a: int, areaSize: nat)
    requires x !in atoms
    ensures |Within(atoms + {x}, a, areaSize)| == |Within(atoms, a, areaSize)| + if a <= x < a + areaSize then 1 else 0
  {
    if a <= x < a + areaSize {
      assert Within(atoms + {x}, a, areaSize) == Within(atoms, a, areaSize) + {x};
    } else {
      assert Within(atoms + {x}, a, areaSize) == Within(atoms, a, areaSize);
    }
  }

  lemma FirstListed(x: int, rest: seq<int>)
    requires Distinct([x] + rest)
    ensures Distinct(rest) && x !in rest && Listed([x] + rest) == Listed(rest) + {x} && x !in Listed(rest)
    ensures forall y :: y in [x] + rest <==> y == x || y in rest
  {
    var s := [x] + rest;
    assert forall i :: 0 <= i < |rest| ==> s[i + 1] == rest[i];
    assert s[0] == x;
  }

  lemma OneArea(areas: map<int, Area>, areaSize: nat, atomSize: nat, x: int, a: int, b: int)
    requires 0 < atomSize && Separate(areas, areaSize) && Placed(areas, atomSize, x, a) && areas[a].index <= areaSize
    requires b in areas
    ensures b <= x < b + areaSize <==> b == a
  {
  }

  // the listed atom x of an unmarked area goes live
  lemma GoesLive(atomSize: nat, areaSize: nat, areas: map<int, Area>, x: int, rest: seq<int>, live: set<int>, a: int)
    requires Sound(atomSize, areaSize, areas, [x] + rest, live) && Placed(areas, atomSize, x, a) && !areas[a].mark
    ensures x !in live
    ensures Sound(atomSize, areaSize, areas[a := areas[a].(allocations := areas[a].allocations + 1)], rest, live + {x})
  {
    hide Within, Placed, Separate, Distinct;
    PlacedIn(areas, atomSize, x, a);
    FirstListed(x, rest);
    assert x in Listed([x] + rest);
    var areas' := areas[a := areas[a].(allocations := areas[a].allocations + 1)];
    SameSpans(areas, areas', areaSize, atomSize);
    forall b | b in areas'
      ensures Counted(areas'[b], atomSize, areaSize, |Within(live + {x}, b, areaSize)|, |Within(Listed(rest), b, areaSize)|)
    {
      OneArea(areas, areaSize, atomSize, x, a, b);
      WithinMore(live, x, b, areaSize);
      WithinMore(Listed(rest), x, b, areaSize);
    }
  }

  // Areas that start and reach where they did hold the same atoms.
  lemma SameSpans(areas: map<int, Area>, areas': map<int, Area>, areaSize: nat, atomSize: nat)
    requires 0 < atomSize && areas'.Keys == areas.Keys
    requires forall a :: a in areas ==> areas[a].index <= areas'[a].index
    ensures Separate(areas, areaSize) ==> Separate(areas', areaSize)
    ensures forall x, a :: Placed(areas, atomSize, x, a) ==> Placed(areas', atomSize, x, a)
  {
  }

  // the listed atom x of a marked area is drained
  lemma Drained(atomSize: nat, areaSize: nat, areas: map<int, Area>, x: int, rest: seq<int>, live: set<int>, a: int)
    requires Sound(atomSize, areaSize, areas, [x] + rest, live) && Placed(areas, atomSize, x, a) && areas[a].mark
    ensures Sound(atomSize, areaSize, areas[a := areas[a].(free := areas[a].free + atomSize)], rest, live)
  {
    hide Within, Placed, Separate, Distinct;
    PlacedIn(areas, atomSize, x, a);
    FirstListed(x, rest);
    assert x in Listed([x] + rest);
    var areas' := areas[a := areas[a].(free := areas[a].free + atomSize)];
    SameSpans(areas, areas', areaSize, atomSize);
    forall b | b in areas'
      ensures Counted(areas'[b], atomSize, areaSize, |Within(live, b, areaSize)|, |Within(Listed(rest), b, areaSize)|)
    {
      OneArea(areas, areaSize, atomSize, x, a, b);
      WithinMore(Listed(rest), x, b, areaSize);
    }
  }

  // an area that is entirely free is released
  lemma Released(atomSize: nat, areaSize: nat, areas: map<int, Area>, freeAtoms: seq<int>, live: set<int>, a: int)
    requires Sound(atomSize, areaSize, areas, freeAtoms, live) && a in areas && areas[a].free == areaSize
    ensures Sound(atomSize, areaSize, areas - {a}, freeAtoms, live)
  {
    hide Within, Separate, Distinct;
    FreeIsEmpty(atomSize, areaSize, areas, freeAtoms, live, a);
    forall x | x in live || x in freeAtoms
      ensures exists b :: Placed(areas - {a}, atomSize, x, b)
    {
      var b :| Placed(areas, atomSize, x, b);
      assert Placed(areas - {a}, atomSize, x, b);
    }
    FewerAreas(areas, areaSize, a);
  }

  lemma FewerAreas(areas: map<int, Area>, areaSize: nat, a: int)
    requires Separate(areas, areaSize)
    ensures Separate(areas - {a}, areaSize)
  {
  }

  // the next atom of an unmarked area is carved out
  lemma Carved(atomSize: nat, areaSize: nat, areas: map<int, Area>, freeAtoms: seq<int>, live: set<int>, a: int)
    requires Sound(atomSize, areaSize, areas, freeAtoms, live) && a in areas && !areas[a].mark
    requires areas[a].index + atomSize <= areaSize
    ensures var x := a + areas[a].index;
            && x !in live && x !in freeAtoms && atomSize <= areas[a].free <= areaSize
            && Sound(atomSize, areaSize, areas[a := TakenFrom(areas[a], atomSize)], freeAtoms, live + {x})
  {
    hide Within, Separate, Distinct;
    var x := a + areas[a].index;
    var areas' := areas[a := TakenFrom(areas[a], atomSize)];
    SameSpans(areas, areas', areaSize, atomSize);
    NotCarved(atomSize, areaSize, areas, a, x);
    assert Multiple(areas'[a].index, atomSize);
    assert Placed(areas', atomSize, x, a);
    forall b | b in areas'
      ensures Counted(areas'[b], atomSize, areaSize, |Within(live + {x}, b, areaSize)|, |Within(Listed(freeAtoms), b, areaSize)|)
    {
      OneArea(areas', areaSize, atomSize, x, a, b);
      WithinMore(live, x, b, areaSize);
    }
  }

  // what carving one atom does to an area
  function TakenFrom(area: Area, atomSize: nat): Area {
    Area(area.index + atomSize, if area.free < atomSize then 0 else area.free - atomSize, area.allocations + 1, area.mark)
  }

  lemma NotCarved(atomSize: nat, areaSize: nat, areas: map<int, Area>, a: int, x: int)
    requires 0 < atomSize && Separate(areas, areaSize) && a in areas && x == a + areas[a].index && x < a + areaSize
    requires forall b :: b in areas ==> areas[b].index <= areaSize
    ensures forall b :: !Placed(areas, atomSize, x, b)
  {
  }

  // The first atom of an area that is not in use, or new: what holds the area's numbers is
  // set anew.
  lemma CarvedAnew(atomSize: nat, areaSize: nat, areas: map<int, Area>, freeAtoms: seq<int>, live: set<int>, a: int)
    requires Sound(atomSize, areaSize, areas, freeAtoms, live)
    requires if a in areas then areas[a].free == areaSize else forall b :: b in areas ==> a + areaSize <= b || b + areaSize <= a
    ensures a !in live && a !in freeAtoms
    ensures Sound(atomSize, areaSize, areas[a := TakenFrom(Area(0, areaSize, 0, false), atomSize)], freeAtoms, live + {a})
  {
    hide Within, Separate, Distinct;
    var areas' := areas[a := TakenFrom(Area(0, areaSize, 0, false), atomSize)];
    NothingAt(atomSize, areaSize, areas, freeAtoms, live, a);
    NewSpan(areas, areas', areaSize, a);
    forall x | x in live || x in freeAtoms
      ensures exists b :: Placed(areas', atomSize, x, b)
    {
      var b :| Placed(areas, atomSize, x, b);
      assert Placed(areas', atomSize, x, b);
    }
    assert Placed(areas', atomSize, a, a);
    NoneWithin(live, a, areaSize);
    NoneWithin(Listed(freeAtoms), a, areaSize);
    forall b | b in areas'
      ensures Counted(areas'[b], atomSize, areaSize, |Within(live + {a}, b, areaSize)|, |Within(Listed(freeAtoms), b, areaSize)|)
    {
      OneArea(areas', areaSize, atomSize, a, a, b);
      WithinMore(live, a, b, areaSize);
    }
  }

  lemma NewSpan(areas: map<int, Area>, areas': map<int, Area>, areaSize: nat, a: int)
    requires Separate(areas, areaSize) && areas'.Keys == areas.Keys + {a}
    requires a in areas || forall b :: b in areas ==> a + areaSize <= b || b + areaSize <= a
    ensures Separate(areas', areaSize)
  {
  }

  lemma NothingAt(atomSize: nat, areaSize: nat, areas: map<int, Area>, freeAtoms: seq<int>, live: set<int>, a: int)
    requires Sound(atomSize, areaSize, areas, freeAtoms, live)
    requires if a in areas then areas[a].free == areaSize else forall b :: b in areas ==> a + areaSize <= b || b + areaSize <= a
    ensures forall x :: x in live || x in freeAtoms ==> !(a <= x < a + areaSize)
    ensures forall x :: x in Listed(freeAtoms) ==> !(a <= x < a + areaSize)
  {
    hide Within, Separate, Distinct;
    if a in areas {
      FreeIsEmpty(atomSize, areaSize, areas, freeAtoms, live, a);
    } else {
      forall x | x in live || x in freeAtoms ensures !(a <= x < a + areaSize) {
        var b :| Placed(areas, atomSize, x, b);
      }
    }
  }

  // a live atom is freed; the area is marked when it was the last
  lemma Freed(atomSize: nat, areaSize: nat, areas: map<int, Area>, freeAtoms: seq<int>, live: set<int>, x: int, a: int)
    requires Sound(atomSize, areaSize, areas, freeAtoms, live) && x in live && Placed(areas, atomSize, x, a)
    ensures 0 < areas[a].allocations && !areas[a].mark
    ensures Sound(atomSize, areaSize, areas[a := GivenBack(areas[a])], [x] + freeAtoms, live - {x})
  {
    hide Within, Placed, Separate;
    PlacedIn(areas, atomSize, x, a);
    var areas' := areas[a := GivenBack(areas[a])];
    SameSpans(areas, areas', areaSize, atomSize);
    assert x !in Listed(freeAtoms);
    FirstListed(x, freeAtoms);
    assert live - {x} + {x} == live;
    OneArea(areas, areaSize, atomSize, x, a, a);
    WithinMore(live - {x}, x, a, areaSize);
    forall b | b in areas'
      ensures Counted(areas'[b], atomSize, areaSize, |Within(live - {x}, b, areaSize)|, |Within(Listed([x] + freeAtoms), b, areaSize)|)
    {
      OneArea(areas, areaSize, atomSize, x, a, b);
      WithinMore(live - {x}, x, b, areaSize);
      WithinMore(Listed(freeAtoms), x, b, areaSize);
    }
  }

  function GivenBack(area: Area): Area {
    var n := if area.allocations == 0 then 0 else area.allocations - 1;
    area.(allocations := n, mark := area.mark || n == 0)
  }

  // ----- the list of freed atoms -----

  ghost predicate InMarked(areas: map<int, Area>, atomSize: nat, x: int)
    requires atomSize > 0
  {
    exists a :: Placed(areas, atomSize, x, a) && areas[a].mark
  }

  // the list without the atoms of marked areas
  ghost function Unmarked(areas: map<int, Area>, atomSize: nat, atoms: seq<int>): seq<int>
    requires atomSize > 0
  {
    if atoms == [] then []
    else if InMarked(areas, atomSize, atoms[0]) then Unmarked(areas, atomSize, atoms[1..])
    else [atoms[0]] + Unmarked(areas, atomSize, atoms[1..])
  }

  // The areas left are some of those there were, draining apart.
  ghost predicate Remain(areas: map<int, Area>, was: map<int, Area>) {
    forall a :: a in areas ==> a in was && areas[a].mark == was[a].mark && areas[a].index == was[a].index
  }

  lemma MarkedWas(areas: map<int, Area>, was: map<int, Area>, areaSize: nat, atomSize: nat, x: int, a: int)
    requires Remain(areas, was) && 0 < atomSize && Placed(areas, atomSize, x, a)
    requires Separate(was, areaSize) && forall b :: b in was ==> was[b].index <= areaSize
    ensures InMarked(was, atomSize, x) <==> areas[a].mark
  {
    assert Placed(was, atomSize, x, a);
  }

  class Chunk {
    const atomSize: nat
    const areaSize: nat
    var areas: map<int, Area>
    var memAreas: seq<int>         // the list of areas
    var numMemAreas: nat
    var memArea: Option<int>       // the area being carved
    var freeMemArea: Option<int>   // a spare area
    var freeAtoms: seq<int>
    var memTree: Tree<int, int>
    ghost var live: set<int>       // the atoms that have been handed out

    ghost predicate Valid()
      reads this
    {
      && Sound(atomSize, areaSize, areas, freeAtoms, live)
      && Roles(areaSize, areas, memArea, freeMemArea)
      && Known()
    }

    // the list and the tree of areas
    ghost predicate Known()
      reads this
    {
      && TreeOf(memTree, areas)
      && Distinct(memAreas) && (forall a :: a in memAreas <==> a in areas) && numMemAreas == |areas|
    }

    // g_mem_chunk_new, which rounds the sizes up; the area has to have room for an atom
    constructor (atomSize: nat, areaSize: nat)
      requires 0 < atomSize <= areaSize
      ensures Valid() && live == {} && areas == map[]
      ensures this.atomSize == atomSize && this.areaSize == areaSize
    {
      this.atomSize, this.areaSize := atomSize, areaSize;
      areas, memAreas, numMemAreas, memArea, freeMemArea := map[], [], 0, None, None;
      freeAtoms, memTree, live := [], Leaf, {};
    }

    // g_mem_chunk_free
    method Free(mem: int)
      requires Valid() && mem in live
      modifies this`areas, this`freeAtoms, this`live
      ensures Valid()
      ensures live == old(live) - {mem} && freeAtoms == [mem] + old(freeAtoms)
    {
      hide Within, Separate, TreeOf, Distinct;
      ghost var a :| Placed(areas, atomSize, mem, a);
      SearchFindsOwner(areaSize, atomSize, areas, memTree, mem, a);
      Freed(atomSize, areaSize, areas, freeAtoms, live, mem, a);
      freeAtoms := [mem] + freeAtoms;
      var now := areas;
      var found := Search(k => AreaSearch(now, k, mem), memTree);
      var area := areas[found.value];
      area := area.(allocations := area.allocations - 1);
      if area.allocations == 0 { area := area.(mark := true); }
      SameTree(memTree, areas, areas[found.value := area]);
      areas := areas[found.value := area];
      live := live - {mem};
    }

    // the area leaves the list and the tree, and its memory goes back
    method Release(a: int)
      requires Known() && a in areas && 0 < numMemAreas
      modifies this`areas, this`memAreas, this`numMemAreas, this`memTree
      ensures Known() && areas == old(areas) - {a}
    {
      hide Distinct, TreeOf;
      numMemAreas := numMemAreas - 1;
      WithoutIs(memAreas, a);
      memAreas := Without(memAreas, a);
      TreeRemoved(memTree, areas, a);
      assert Avl(memTree) by { TreeIsAvl(memTree, areas); }
      memTree := Remove(CompareAreas, memTree, a);
      areas := areas - {a};
      assert areas.Keys == old(areas).Keys - {a};
    }

    // The atom mem of a marked area has been taken off the list: it is drained, and the area
    // released or kept as the spare one if it was the last.
    method Drain(mem: int, owner: int)
      requires Sound(atomSize, areaSize, areas, [mem] + freeAtoms, live) && Roles(areaSize, areas, memArea, freeMemArea) && Known()
      requires Placed(areas, atomSize, mem, owner) && areas[owner].mark
      modifies this`areas, this`memAreas, this`numMemAreas, this`memTree, this`memArea, this`freeMemArea
      ensures Valid() && Remain(areas, old(areas))
    {
      hide Within, Separate, TreeOf, Distinct, Placed;
      PlacedIn(areas, atomSize, mem, owner);
      Drained(atomSize, areaSize, areas, mem, freeAtoms, live, owner);
      NotSpare(atomSize, areaSize, areas, mem, freeAtoms, live, owner);
      var area := areas[owner].(free := areas[owner].free + atomSize);
      SameTree(memTree, areas, areas[owner := area]);
      areas := areas[owner := area];
      if area.free == areaSize {
        if memArea == Some(owner) { memArea := None; }
        if freeMemArea.Some? {
          Released(atomSize, areaSize, areas, freeAtoms, live, owner);
          Release(owner);
        } else {
          freeMemArea := Some(owner);
        }
      }
    }

    // One round of the loop of g_mem_chunk_alloc: the first freed atom is taken, or drained
    // if its area is marked.
    method TakeFreed() returns (mem: int, taken: bool)
      requires Valid() && freeAtoms != []
      modifies this`areas, this`memAreas, this`numMemAreas, this`memTree, this`memArea, this`freeMemArea, this`freeAtoms, this`live
      ensures Valid() && mem == old(freeAtoms[0]) && freeAtoms == old(freeAtoms[1..])
      ensures taken <==> !InMarked(old(areas), atomSize, mem)
      ensures if taken then mem !in old(live) && live == old(live) + {mem} else live == old(live)
      ensures Remain(areas, old(areas))
    {
      hide Within, Separate, TreeOf, Distinct, Placed, InMarked;
      mem := freeAtoms[0];
      ghost var rest := freeAtoms[1..];
      assert freeAtoms == [mem] + rest && mem in freeAtoms;
      ghost var a :| Placed(areas, atomSize, mem, a);
      PlacedIn(areas, atomSize, mem, a);
      SearchFindsOwner(areaSize, atomSize, areas, memTree, mem, a);
      MarkedWas(areas, areas, areaSize, atomSize, mem, a);
      freeAtoms := freeAtoms[1..];
      var now := areas;
      var owner := Search(k => AreaSearch(now, k, mem), memTree).value;
      if areas[owner].mark {
        Drain(mem, owner);
        taken := false;
      } else {
        GoesLive(atomSize, areaSize, areas, mem, rest, live, a);
        var area := areas[owner].(allocations := areas[owner].allocations + 1);
        SameTree(memTree, areas, areas[owner := area]);
        areas := areas[owner := area];
        live := live + {mem};
        taken := true;
      }
    }

    // The area at a is the current one, and its next atom can be carved out.
    ghost predicate Ready(a: int)
      reads this
    {
      && memArea == Some(a) && a in areas && Known() && 0 < atomSize <= areas[a].free
      && a + areas[a].index !in live
      && var areas' := areas[a := TakenFrom(areas[a], atomSize)];
         Sound(atomSize, areaSize, areas', freeAtoms, live + {a + areas[a].index}) && Roles(areaSize, areas', memArea, freeMemArea)
    }

    // The area at a is to be the current one; it is on the list and in the tree, and no atom
    // in it is in use.
    ghost predicate Chosen(a: int)
      reads this
    {
      && memArea == Some(a) && freeMemArea != Some(a)
      && Sound(atomSize, areaSize, areas, freeAtoms, live) && Roles(areaSize, areas - {a}, None, freeMemArea)
      && (if a in areas then areas[a].free == areaSize else forall b :: b in areas ==> a + areaSize <= b || b + areaSize <= a)
      && TreeOf(memTree, areas[a := Area(0, areaSize, 0, false)])
      && Distinct(memAreas) && (forall b :: b in memAreas <==> b in areas || b == a) && numMemAreas == |areas.Keys + {a}|
    }

    method NewArea(address: int)
      requires Sound(atomSize, areaSize, areas, freeAtoms, live) && Known() && freeMemArea == None
      requires Roles(areaSize, areas, memArea, None)
      requires forall b :: b in areas ==> address + areaSize <= b || b + areaSize <= address
      modifies this`memAreas, this`numMemAreas, this`memTree, this`memArea
      ensures Chosen(address)
    {
      hide Within, Separate, TreeOf, Distinct, Placed, Sound, Roles;
      SoundSizes(atomSize, areaSize, areas, freeAtoms, live);
      assert address !in areas;
      RolesBeside(areaSize, areas, memArea, address);
      memArea := Some(address);
      numMemAreas := numMemAreas + 1;
      MoreAreas(memAreas, areas, address);
      memAreas := [address] + memAreas;
      TreeInserted(memTree, areas, address, Area(0, areaSize, 0, false));
      assert Avl(memTree) by { TreeIsAvl(memTree, areas); }
      memTree := Insert(CompareAreas, memTree, address, address).0;
    }

    method SpareArea(a: int)
      requires Sound(atomSize, areaSize, areas, freeAtoms, live) && Known() && freeMemArea == Some(a)
      requires Roles(areaSize, areas, memArea, freeMemArea)
      modifies this`memArea, this`freeMemArea
      ensures Chosen(a)
    {
      hide Within, Separate, TreeOf, Distinct, Placed, Sound;
      memArea, freeMemArea := freeMemArea, None;
      SameTree(memTree, areas, areas[a := Area(0, areaSize, 0, false)]);
      assert areas.Keys + {a} == areas.Keys;
    }

    // the numbers of the chosen area are set
    method SetUp(a: int)
      requires Chosen(a)
      modifies this`areas
      ensures Ready(a)
    {
      hide Within, Separate, TreeOf, Distinct, Placed, Sound, Roles;
      SoundSizes(atomSize, areaSize, areas, freeAtoms, live);
      RolesSet(areaSize, areas, a, TakenFrom(Area(0, areaSize, 0, false), atomSize), freeMemArea);
      CarvedAnew(atomSize, areaSize, areas, freeAtoms, live, a);
      assert areas[a := Area(0, areaSize, 0, false)][a := TakenFrom(Area(0, areaSize, 0, false), atomSize)]
             == areas[a := TakenFrom(Area(0, areaSize, 0, false), atomSize)];
      areas := areas[a := Area(0, areaSize, 0, false)];
      assert areas.Keys == old(areas).Keys + {a};
    }

    // The area the next atom comes from, when none is on the list: the current one, the spare
    // one or a new one at the address g_malloc gives.
    method NextArea(address: int) returns (a: int)
      requires Valid() && freeAtoms == []
      requires forall b :: b in areas ==> address + areaSize <= b || b + areaSize <= address
      modifies this`areas, this`memAreas, this`numMemAreas, this`memTree, this`memArea, this`freeMemArea
      ensures Ready(a)
    {
      hide Within, Separate, TreeOf, Distinct, Placed, Sound, Counted, Chosen;
      SoundSizes(atomSize, areaSize, areas, freeAtoms, live);
      if memArea.Some? && areas[memArea.value].index + atomSize <= areaSize {
        a := memArea.value;
        InUse(atomSize, areaSize, areas, live, memArea, freeMemArea);
        Carved(atomSize, areaSize, areas, freeAtoms, live, a);
        return;
      }
      if freeMemArea.Some? {
        a := freeMemArea.value;
        SpareArea(a);
      } else {
        a := address;
        NewArea(a);
      }
      SetUp(a);
    }

    // g_mem_chunk_alloc
    method Alloc(address: int) returns (mem: int, ghost drained: nat)
      requires Valid()
      requires forall b :: b in areas ==> address + areaSize <= b || b + areaSize <= address
      modifies this`areas, this`memAreas, this`numMemAreas, this`memTree, this`memArea, this`freeMemArea, this`freeAtoms, this`live
      ensures Valid()
      ensures mem !in old(live) && live == old(live) + {mem}
      // the first freed atom of an area that is not marked, if there is one
      ensures drained <= |old(freeAtoms)| && 0 < atomSize
      ensures forall i :: 0 <= i < drained ==> InMarked(old(areas), atomSize, old(freeAtoms)[i])
      ensures if drained < |old(freeAtoms)| then
                mem == old(freeAtoms)[drained] && !InMarked(old(areas), atomSize, mem) && freeAtoms == old(freeAtoms)[drained + 1..]
              else freeAtoms == []
    {
      hide Sound, Roles, TreeOf, InMarked, Placed;
      SoundSizes(atomSize, areaSize, areas, freeAtoms, live);
      drained := 0;
      ghost var was, list := areas, freeAtoms;
      while freeAtoms != []
        invariant Valid() && live == old(live) && Remain(areas, was)
        invariant drained <= |list| && freeAtoms == list[drained..]
        invariant forall i :: 0 <= i < drained ==> InMarked(was, atomSize, list[i])
        decreases |freeAtoms|
      {
        InMarkedRemain(atomSize, areaSize, areas, was, freeAtoms, live);
        assert list[drained..][1..] == list[drained + 1..];
        var taken;
        mem, taken := TakeFreed();
        if taken { return; }
        drained := drained + 1;
      }
      var a := NextArea(address);
      mem := a + areas[a].index;
      var area := areas[a].(index := areas[a].index + atomSize, free := areas[a].free - atomSize, allocations := areas[a].allocations + 1);
      SameTree(memTree, areas, areas[a := area]);
      areas := areas[a := area];
      live := live + {mem};
    }

    // The atom mem of a marked area has been taken off the list by g_mem_chunk_clean, which
    // keeps no spare area.
    method CleanAtom(mem: int, owner: int)
      requires Sound(atomSize, areaSize, areas, [mem] + freeAtoms, live) && Roles(areaSize, areas, memArea, freeMemArea) && Known()
      requires Placed(areas, atomSize, mem, owner) && areas[owner].mark
      modifies this`areas, this`memAreas, this`numMemAreas, this`memTree, this`memArea
      ensures Valid() && Remain(areas, old(areas))
    {
      hide Within, Separate, TreeOf, Distinct, Placed;
      PlacedIn(areas, atomSize, mem, owner);
      Drained(atomSize, areaSize, areas, mem, freeAtoms, live, owner);
      NotSpare(atomSize, areaSize, areas, mem, freeAtoms, live, owner);
      var area := areas[owner].(free := areas[owner].free + atomSize);
      SameTree(memTree, areas, areas[owner := area]);
      areas := areas[owner := area];
      if area.free == areaSize {
        if memArea == Some(owner) { memArea := None; }
        Released(atomSize, areaSize, areas, freeAtoms, live, owner);
        Release(owner);
      }
    }

    // g_mem_chunk_clean.  The areas left are in use, but for the spare one.
    method Clean()
      requires Valid()
      modifies this`areas, this`memAreas, this`numMemAreas, this`memTree, this`memArea, this`freeAtoms
      ensures Valid() && Remain(areas, old(areas)) && freeMemArea == old(freeMemArea)
      ensures freeAtoms == Unmarked(old(areas), atomSize, old(freeAtoms))
      ensures forall a :: a in areas && areas[a].mark ==> freeMemArea == Some(a)
    {
      hide Sound, Roles, TreeOf, InMarked, Placed, Unmarked;
      SoundSizes(atomSize, areaSize, areas, freeAtoms, live);
      ghost var was, list := areas, freeAtoms;
      var i := 0;
      assert freeAtoms[0..] == freeAtoms && [] + Unmarked(was, atomSize, freeAtoms) == Unmarked(was, atomSize, freeAtoms);
      while i < |freeAtoms|
        invariant i <= |freeAtoms| && Valid() && Remain(areas, was)
        invariant Unmarked(was, atomSize, list) == freeAtoms[..i] + Unmarked(was, atomSize, freeAtoms[i..])
        invariant forall k :: 0 <= k < i ==> !InMarked(was, atomSize, freeAtoms[k])
        decreases |freeAtoms| - i
      {
        var mem := freeAtoms[i];
        ghost var before, after := freeAtoms[..i], freeAtoms[i + 1..];
        assert freeAtoms == before + [mem] + after && freeAtoms[i..] == [mem] + after;
        ghost var a := OwnerOf(atomSize, areaSize, areas, was, memTree, freeAtoms, live, i);
        UnmarkedStep(was, atomSize, mem, after);
        var now := areas;
        var owner := Search(k => AreaSearch(now, k, mem), memTree).value;
        if areas[owner].mark {
          Reordered(atomSize, areaSize, areas, before, mem, after, live);
          freeAtoms := freeAtoms[..i] + freeAtoms[i + 1..];
          CleanAtom(mem, owner);
          assert freeAtoms[..i] == before && freeAtoms[i..] == after;
        } else {
          i := i + 1;
          assert freeAtoms[..i] == before + [mem] && freeAtoms[i..] == after;
          assert before + [mem] + Unmarked(was, atomSize, after) == before + ([mem] + Unmarked(was, atomSize, after));
        }
      }
      assert freeAtoms[i..] == [] && freeAtoms[..i] == freeAtoms;
      assert Unmarked(was, atomSize, []) == [] by { UnmarkedNothing(was, atomSize); }
      OnlySpare(atomSize, areaSize, areas, was, freeAtoms, live, memArea, freeMemArea);
    }
  }

  lemma MoreAreas(list: seq<int>, areas: map<int, Area>, a: int)
    requires Distinct(list) && (forall b :: b in list <==> b in areas) && a !in areas
    ensures Distinct([a] + list) && (forall b :: b in [a] + list <==> b in areas || b == a)
    ensures |areas.Keys + {a}| == |areas| + 1
  {
    hide Distinct;
    assert a !in list;
    ConsDistinct(a, list);
    assert |areas.Keys| == |areas|;
  }

  lemma RolesBeside(areaSize: nat, areas: map<int, Area>, memArea: Option<int>, a: int)
    requires Roles(areaSize, areas, memArea, None) && a !in areas
    ensures Roles(areaSize, areas - {a}, None, None)
  {
  }

  lemma RolesSet(areaSize: nat, areas: map<int, Area>, a: int, area: Area, freeMemArea: Option<int>)
    requires Roles(areaSize, areas - {a}, None, freeMemArea) && freeMemArea != Some(a) && area.free != areaSize
    ensures Roles(areaSize, areas[a := area], Some(a), freeMemArea)
  {
  }

  lemma OwnerOf(atomSize: nat, areaSize: nat, areas: map<int, Area>, was: map<int, Area>, tree: Tree<int, int>, freeAtoms: seq<int>,
                live: set<int>, i: nat)
    returns (a: int)
    requires Sound(atomSize, areaSize, areas, freeAtoms, live) && Remain(areas, was) && i < |freeAtoms| && TreeOf(tree, areas)
    requires Separate(was, areaSize) && forall b :: b in was ==> was[b].index <= areaSize
    ensures Placed(areas, atomSize, freeAtoms[i], a) && a in areas
    ensures Search(k => AreaSearch(areas, k, freeAtoms[i]), tree) == Some(a)
    ensures InMarked(was, atomSize, freeAtoms[i]) <==> areas[a].mark
  {
    hide Within, Separate, Distinct, Placed, TreeOf;
    var x := freeAtoms[i];
    assert x in freeAtoms;
    a :| Placed(areas, atomSize, x, a);
    PlacedIn(areas, atomSize, x, a);
    MarkedWas(areas, was, areaSize, atomSize, x, a);
    SearchFindsOwner(areaSize, atomSize, areas, tree, x, a);
  }

  lemma UnmarkedStep(areas: map<int, Area>, atomSize: nat, x: int, rest: seq<int>)
    requires atomSize > 0
    ensures Unmarked(areas, atomSize, [x] + rest)
            == (if InMarked(areas, atomSize, x) then [] else [x]) + Unmarked(areas, atomSize, rest)
  {
    hide InMarked;
    assert ([x] + rest)[1..] == rest;
    assert [] + Unmarked(areas, atomSize, rest) == Unmarked(areas, atomSize, rest);
  }

  lemma UnmarkedNothing(areas: map<int, Area>, atomSize: nat)
    requires atomSize > 0
    ensures Unmarked(areas, atomSize, []) == []
  {
  }

  // the order of the list does not matter
  lemma Reordered(atomSize: nat, areaSize: nat, areas: map<int, Area>, before: seq<int>, x: int, after: seq<int>, live: set<int>)
    requires Sound(atomSize, areaSize, areas, before + [x] + after, live)
    ensures Sound(atomSize, areaSize, areas, [x] + (before + after), live)
  {
    hide Within, Separate, Placed, Distinct;
    var s, s' := before + [x] + after, [x] + (before + after);
    assert forall y :: y in s <==> y in s';
    assert Listed(s) == Listed(s');
    DistinctMoved(before, x, after);
  }

  lemma DistinctMoved(before: seq<int>, x: int, after: seq<int>)
    requires Distinct(before + [x] + after)
    ensures Distinct([x] + (before + after))
  {
    var s, s' := before + [x] + after, [x] + (before + after);
    forall i, j | 0 <= i < j < |s'| ensures s'[i] != s'[j] {
      var p := if i == 0 then |before| else if i <= |before| then i - 1 else i;
      var q := if j <= |before| then j - 1 else j;
      assert s'[i] == s[p] && s'[j] == s[q];
    }
  }

  // When no listed atom is left in a marked area, only the spare area is marked.
  lemma OnlySpare(atomSize: nat, areaSize: nat, areas: map<int, Area>, was: map<int, Area>, freeAtoms: seq<int>, live: set<int>,
                  memArea: Option<int>, freeMemArea: Option<int>)
    requires Sound(atomSize, areaSize, areas, freeAtoms, live) && Roles(areaSize, areas, memArea, freeMemArea) && Remain(areas, was)
    requires forall k :: 0 <= k < |freeAtoms| ==> !InMarked(was, atomSize, freeAtoms[k])
    requires Separate(was, areaSize) && forall b :: b in was ==> was[b].index <= areaSize
    ensures forall a :: a in areas && areas[a].mark ==> freeMemArea == Some(a)
  {
    hide Within, Separate, Placed, Distinct;
    forall a | a in areas && areas[a].mark ensures freeMemArea == Some(a) {
      forall x | x in Listed(freeAtoms) ensures !(a <= x < a + areaSize) {
        var k :| 0 <= k < |freeAtoms| && freeAtoms[k] == x;
        var b :| Placed(areas, atomSize, x, b);
        PlacedIn(areas, atomSize, x, b);
        MarkedWas(areas, was, areaSize, atomSize, x, b);
        OneArea(areas, areaSize, atomSize, x, b, a);
      }
      NoneWithin(Listed(freeAtoms), a, areaSize);
      CountedFree(areas[a], atomSize, areaSize, 0, 0);
    }
  }

  lemma SoundSizes(atomSize: nat, areaSize: nat, areas: map<int, Area>, freeAtoms: seq<int>, live: set<int>)
    requires Sound(atomSize, areaSize, areas, freeAtoms, live)
    ensures 0 < atomSize <= areaSize && Separate(areas, areaSize)
    ensures forall a :: a in areas ==> areas[a].index <= areaSize
  {
  }

  // Draining other areas does not change whether an atom's area is marked.
  lemma InMarkedRemain(atomSize: nat, areaSize: nat, areas: map<int, Area>, was: map<int, Area>, freeAtoms: seq<int>, live: set<int>)
    requires Sound(atomSize, areaSize, areas, freeAtoms, live) && Remain(areas, was) && freeAtoms != []
    requires Separate(was, areaSize) && forall b :: b in was ==> was[b].index <= areaSize
    ensures InMarked(was, atomSize, freeAtoms[0]) <==> InMarked(areas, atomSize, freeAtoms[0])
  {
    hide Within, Separate, Distinct, Placed;
    var x := freeAtoms[0];
    assert x in freeAtoms;
    var a :| Placed(areas, atomSize, x, a);
    PlacedIn(areas, atomSize, x, a);
    MarkedWas(areas, was, areaSize, atomSize, x, a);
    MarkedWas(areas, areas, areaSize, atomSize, x, a);
  }

  // With no atoms on the list, only the spare area is marked.
  lemma InUse(atomSize: nat, areaSize: nat, areas: map<int, Area>, live: set<int>, memArea: Option<int>, freeMemArea: Option<int>)
    requires Sound(atomSize, areaSize, areas, [], live) && Roles(areaSize, areas, memArea, freeMemArea)
    ensures forall a :: a in areas && areas[a].mark ==> freeMemArea == Some(a)
  {
    hide Separate, Placed;
    forall a | a in areas && areas[a].mark ensures freeMemArea == Some(a) {
      assert Within(Listed([]), a, areaSize) == {};
      CountedFree(areas[a], atomSize, areaSize, 0, 0);
    }
  }

  // an area with a listed atom is not the spare one
  lemma NotSpare(atomSize: nat, areaSize: nat, areas: map<int, Area>, x: int, rest: seq<int>, live: set<int>, a: int)
    requires Sound(atomSize, areaSize, areas, [x] + rest, live) && Placed(areas, atomSize, x, a)
    ensures areas[a].free != areaSize
  {
    hide Within, Separate, Distinct, Placed;
    PlacedIn(areas, atomSize, x, a);
    FreeIsEmpty(atomSize, areaSize, areas, [x] + rest, live, a);
    assert x in [x] + rest;
  }

  lemma TreeIsAvl(tree: Tree<int, int>, areas: map<int, Area>)
    requires TreeOf(tree, areas)
    ensures Avl(tree)
  {
  }

  lemma SameTree(tree: Tree<int, int>, areas: map<int, Area>, areas': map<int, Area>)
    requires TreeOf(tree, areas) && areas'.Keys == areas.Keys
    ensures TreeOf(tree, areas')
  {
  }
}
