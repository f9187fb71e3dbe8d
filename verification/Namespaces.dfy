// The namespace bindings of xmlparse.c: the records that addBinding makes for the
// declarations of a tag, chained to the element that declares them, to what their prefix was
// bound to before, and, when the element has ended, to the records that can be used again.
//
// A start element handler is taken to be set; without one no declarations are seen.  The
// records are known by numbers, so the three chains are sequences.
module Namespaces {
  import opened Collections

  type Name = seq<char>

  // the default namespace's prefix is the empty name
  const DEFAULT: Name := []

  // BINDING: what a record says while its element is open
  datatype Binding = Binding(prefix: Name, uri: Name, previous: Option<nat>)

  datatype Declaration = Declaration(prefix: Name, uri: Name)

  datatype Element = Element(declarations: seq<Declaration>, children: seq<Element>)

  // the binding of each prefix that has one
  type Bound = map<Name, nat>

  function Restore(bound: Bound, b: Binding): Bound {
    if b.previous.Some? then bound[b.prefix := b.previous.value] else bound - {b.prefix}
  }

  // The records of one element are undone, latest first.
  function Undone(bound: Bound, records: map<nat, Binding>, list: seq<nat>): Bound
    requires forall b <- list :: b in records
    decreases |list|
  {
    if list == [] then bound else Undone(Restore(bound, records[list[0]]), records, list[1..])
  }

  // the map from prefixes to names that a document sees
  function Visible(bound: Bound, records: map<nat, Binding>): map<Name, Name>
    requires forall p <- bound :: bound[p] in records
  {
    map p | p in bound :: records[bound[p]].uri
  }

  // what one declaration makes of it: an empty default takes the default away
  function Declared(seen: map<Name, Name>, d: Declaration): map<Name, Name> {
    if d.uri == [] && d.prefix == DEFAULT then seen - {d.prefix} else seen[d.prefix := d.uri]
  }

  function AllDeclared(seen: map<Name, Name>, ds: seq<Declaration>): map<Name, Name>
    decreases |ds|
  {
    if ds == [] then seen else AllDeclared(Declared(seen, ds[0]), ds[1..])
  }

  // the maps inside an element and inside all the elements in it, in the order of start tags
  function Maps(seen: map<Name, Name>, e: Element): seq<map<Name, Name>>
    decreases e, |e.children| + 1
  {
    var inside := AllDeclared(seen, e.declarations);
    [inside] + MapsUpTo(inside, e, |e.children|)
  }

  function MapsUpTo(inside: map<Name, Name>, e: Element, n: nat): seq<map<Name, Name>>
    requires n <= |e.children|
    decreases e, n
  {
    if n == 0 then [] else MapsUpTo(inside, e, n - 1) + Maps(inside, e.children[n - 1])
  }

  // all the records of the elements that are open, innermost first
  function Flat(lists: seq<seq<nat>>): seq<nat> {
    if lists == [] then [] else lists[0] + Flat(lists[1..])
  }

  // what is bound, and what the records in use go back to, is in use
  ghost predicate InUse(bound: Bound, records: map<nat, Binding>, used: seq<nat>) {
    && (forall p <- bound :: bound[p] in used)
    && (forall b <- used :: b in records && (records[b].previous.Some? ==> records[b].previous.value in used))
  }

  // What the end of each open element goes back to: the bindings there were, and the map they
  // stood for.
  ghost predicate Scoped(bound: Bound, records: map<nat, Binding>, lists: seq<seq<nat>>, inherited: seq<nat>,
                         outer: seq<Bound>, seen: seq<map<Name, Name>>)
    decreases |lists|
  {
    && |lists| == |outer| == |seen|
    && InUse(bound, records, Flat(lists) + inherited)
    && (lists != [] ==>
          && (forall b <- lists[0] :: b in records)
          && Undone(bound, records, lists[0]) == outer[0]
          && (forall p <- outer[0] :: outer[0][p] in records)
          && Visible(outer[0], records) == seen[0]
          && Scoped(outer[0], records, lists[1..], inherited, outer[1..], seen[1..]))
  }

  // ----- one declaration -----

  function Bind(bound: Bound, d: Declaration, b: nat): Bound {
    if d.uri == [] && d.prefix == DEFAULT then bound - {d.prefix} else bound[d.prefix := b]
  }

  function Record(bound: Bound, d: Declaration): Binding {
    Binding(d.prefix, d.uri, if d.prefix in bound then Some(bound[d.prefix]) else None)
  }

  // Undoing the record of a declaration gives back what was bound before it.
  lemma UndoOne(bound: Bound, d: Declaration, b: nat)
    ensures Restore(Bind(bound, d, b), Record(bound, d)) == bound
  {
  }

  lemma SeenBind(bound: Bound, records: map<nat, Binding>, d: Declaration, b: nat)
    requires (forall p <- bound :: bound[p] in records && bound[p] != b)
    ensures var records' := records[b := Record(bound, d)];
            && (forall p <- Bind(bound, d, b) :: Bind(bound, d, b)[p] in records')
            && Visible(Bind(bound, d, b), records') == Declared(Visible(bound, records), d)
  {
  }

  // Setting a record that is not in a list changes nothing for the list.
  lemma {:induction false} UndoneElsewhere(bound: Bound, records: map<nat, Binding>, list: seq<nat>, b: nat, r: Binding)
    requires b !in list && forall c <- list :: c in records
    ensures Undone(bound, records[b := r], list) == Undone(bound, records, list)
    decreases |list|
  {
    if list != [] { UndoneElsewhere(Restore(bound, records[list[0]]), records, list[1..], b, r); }
  }

  lemma InUseElsewhere(bound: Bound, records: map<nat, Binding>, used: seq<nat>, b: nat, r: Binding)
    requires InUse(bound, records, used) && b !in used
    ensures InUse(bound, records[b := r], used)
    ensures forall p <- bound :: bound[p] in records && bound[p] != b
    ensures Visible(bound, records[b := r]) == Visible(bound, records)
  {
  }

  lemma ScopedIsInUse(bound: Bound, records: map<nat, Binding>, lists: seq<seq<nat>>, inherited: seq<nat>,
                      outer: seq<Bound>, seen: seq<map<Name, Name>>)
    requires Scoped(bound, records, lists, inherited, outer, seen)
    ensures InUse(bound, records, Flat(lists) + inherited)
  {
  }

  lemma {:induction false} ScopedElsewhere(bound: Bound, records: map<nat, Binding>, lists: seq<seq<nat>>, inherited: seq<nat>,
                                           outer: seq<Bound>, seen: seq<map<Name, Name>>, b: nat, r: Binding)
    requires Scoped(bound, records, lists, inherited, outer, seen) && b !in Flat(lists) + inherited
    ensures Scoped(bound, records[b := r], lists, inherited, outer, seen)
    decreases |lists|
  {
    hide Undone, InUse, Visible;
    InUseElsewhere(bound, records, Flat(lists) + inherited, b, r);
    if lists != [] {
      var rest := Flat(lists[1..]) + inherited;
      assert Flat(lists) + inherited == lists[0] + rest;
      UndoneElsewhere(bound, records, lists[0], b, r);
      ScopedIsInUse(outer[0], records, lists[1..], inherited, outer[1..], seen[1..]);
      InUseElsewhere(outer[0], records, rest, b, r);
      ScopedElsewhere(outer[0], records, lists[1..], inherited, outer[1..], seen[1..], b, r);
    }
  }

  // every record is in one of three places, once
  ghost predicate InPlace(free: seq<nat>, used: seq<nat>, inherited: seq<nat>, keys: set<nat>) {
    multiset(free) + multiset(used) + multiset(inherited) == multiset(keys)
  }

  // the record b has been taken, to be put in one
  ghost predicate Taken(free: seq<nat>, used: seq<nat>, inherited: seq<nat>, keys: set<nat>, b: nat) {
    multiset(free) + multiset{b} + multiset(used) + multiset(inherited) == multiset(keys + {b})
  }

  lemma PushInPlace(free: seq<nat>, used: seq<nat>, inherited: seq<nat>, keys: set<nat>, b: nat)
    requires Taken(free, used, inherited, keys, b)
    ensures InPlace(free, [b] + used, inherited, keys + {b})
    ensures InPlace(free, used, [b] + inherited, keys + {b})
  {
  }

  lemma TakeFree(free: seq<nat>, used: seq<nat>, inherited: seq<nat>, keys: set<nat>)
    requires InPlace(free, used, inherited, keys) && free != []
    ensures free[0] in keys && free[0] !in used + inherited
    ensures Taken(free[1..], used, inherited, keys, free[0])
  {
    OnlyThere(free, used, inherited, keys, free[0]);
    assert free == [free[0]] + free[1..];
    assert keys + {free[0]} == keys;
  }

  lemma TakeNew(free: seq<nat>, used: seq<nat>, inherited: seq<nat>, keys: set<nat>, b: nat)
    requires InPlace(free, used, inherited, keys) && b !in keys
    ensures b !in used + inherited
    ensures Taken(free, used, inherited, keys, b)
  {
    OnlyThere(free, used, inherited, keys, b);
    OneMore(keys, b);
  }

  // A record that is free is nowhere else.
  lemma OnlyThere(free: seq<nat>, used: seq<nat>, inherited: seq<nat>, keys: set<nat>, b: nat)
    requires InPlace(free, used, inherited, keys)
    ensures b in free || b !in keys ==> b !in used + inherited
    ensures b in free ==> b in keys
  {
    var all := multiset(free) + multiset(used) + multiset(inherited);
    assert all[b] <= 1;
    if b in used { assert multiset(used)[b] > 0; }
    if b in inherited { assert multiset(inherited)[b] > 0; }
    if b in free { assert multiset(free)[b] > 0; }
  }

  class Scopes {
    var records: map<nat, Binding>
    var nextRecord: nat             // the number of the next record to be allocated
    var bound: Bound
    var freeBindingList: seq<nat>
    var inheritedBindings: seq<nat>
    var tags: seq<seq<nat>>         // the bindings of each open element, innermost first
    ghost var outer: seq<Bound>
    ghost var seen: seq<map<Name, Name>>

    // Each record is in exactly one of the free list, the inherited list and one open
    // element's list; and every open element can be undone.
    ghost predicate Valid()
      reads this
    {
      && InPlace(freeBindingList, Flat(tags), inheritedBindings, records.Keys)
      && (forall b <- records :: b < nextRecord)
      && Scoped(bound, records, tags, inheritedBindings, outer, seen)
    }

    // the map from prefixes to names at this point of the document
    ghost function Seen(): map<Name, Name>
      requires Valid()
      reads this
    {
      Visible(bound, records)
    }

    constructor ()
      ensures Valid() && Seen() == map[] && tags == [] && inheritedBindings == []
    {
      records, nextRecord, bound, freeBindingList, inheritedBindings, tags := map[], 0, map[], [], [], [];
      outer, seen := [], [];
    }

    // a record for addBinding: one that is free, or a new one
    method TakeRecord() returns (b: nat)
      requires Valid()
      modifies this`freeBindingList, this`nextRecord
      ensures b !in Flat(tags) + inheritedBindings && b < nextRecord && nextRecord >= old(nextRecord)
      ensures Taken(freeBindingList, Flat(tags), inheritedBindings, records.Keys, b)
    {
      hide Scoped, Flat, InPlace;
      ghost var used := Flat(tags);
      if freeBindingList != [] {
        b := freeBindingList[0];
        TakeFree(freeBindingList, used, inheritedBindings, records.Keys);
        freeBindingList := freeBindingList[1..];
      } else {
        b := nextRecord;
        TakeNew(freeBindingList, used, inheritedBindings, records.Keys, b);
        nextRecord := nextRecord + 1;
      }
    }

    // addBinding, for a declaration of the innermost element
    method AddBinding(d: Declaration)
      requires Valid() && tags != []
      modifies this`records, this`nextRecord, this`bound, this`freeBindingList, this`tags
      ensures Valid() && |tags| == |old(tags)| && Seen() == Declared(old(Seen()), d)
    {
      hide Scoped, Undone, InUse, Flat, Visible, Declared, Bind, Record, InPlace;
      var b := TakeRecord();
      PushInPlace(freeBindingList, Flat(tags), inheritedBindings, records.Keys, b);
      ScopedBind(bound, records, tags, inheritedBindings, outer, seen, d, b);
      SeenIn(bound, records, tags, inheritedBindings, outer, seen, b);
      SeenBind(bound, records, d, b);
      FlatPush(tags, b);
      assert records[b := Record(bound, d)].Keys == records.Keys + {b};
      records := records[b := Record(bound, d)];
      bound := Bind(bound, d, b);
      tags := [[b] + tags[0]] + tags[1..];
    }

    // addBinding, for a declaration in a context; no element is open yet
    method Inherit(d: Declaration)
      requires Valid() && tags == []
      modifies this`records, this`nextRecord, this`bound, this`freeBindingList, this`inheritedBindings
      ensures Valid() && Seen() == Declared(old(Seen()), d)
    {
      hide Undone, InUse, Visible, Declared, Bind, Record, InPlace;
      assert Flat(tags) == [];
      var b := TakeRecord();
      PushInPlace(freeBindingList, [], inheritedBindings, records.Keys, b);
      SeenIn(bound, records, tags, inheritedBindings, outer, seen, b);
      SeenBind(bound, records, d, b);
      assert [] + inheritedBindings == inheritedBindings && [] + ([b] + inheritedBindings) == [b] + inheritedBindings;
      InUseBind(bound, records, inheritedBindings, d, b);
      assert records[b := Record(bound, d)].Keys == records.Keys + {b};
      records := records[b := Record(bound, d)];
      bound := Bind(bound, d, b);
      inheritedBindings := [b] + inheritedBindings;
    }

    // a start tag: an element without bindings so far
    method BeginElement()
      requires Valid()
      modifies this`tags, this`outer, this`seen
      ensures Valid() && |tags| == |old(tags)| + 1 && Seen() == old(Seen())
      ensures tags[1..] == old(tags) && outer == [bound] + old(outer) && seen == [old(Seen())] + old(seen)
    {
      hide InUse, Visible;
      ScopedIsInUse(bound, records, tags, inheritedBindings, outer, seen);
      BoundIn(bound, records, Flat(tags) + inheritedBindings);
      seen := [Visible(bound, records)] + seen;
      outer := [bound] + outer;
      tags := [[]] + tags;
      assert tags[1..] == old(tags) && outer[1..] == old(outer) && seen[1..] == old(seen);
      assert Flat(tags) == Flat(old(tags));
    }

    // the declarations of a start tag, in order
    method StartElement(ds: seq<Declaration>)
      requires Valid()
      modifies this`records, this`nextRecord, this`bound, this`freeBindingList, this`tags, this`outer, this`seen
      ensures Valid() && |tags| == |old(tags)| + 1
      ensures Seen() == AllDeclared(old(Seen()), ds)
      ensures outer == [old(bound)] + old(outer) && seen == [old(Seen())] + old(seen)
    {
      hide InPlace, Scoped, Visible;
      BeginElement();
      var i := 0;
      assert ds[0..] == ds;
      while i < |ds|
        invariant i <= |ds| && Valid() && |tags| == |old(tags)| + 1
        invariant outer == [old(bound)] + old(outer) && seen == [old(Seen())] + old(seen)
        invariant AllDeclared(old(Seen()), ds) == AllDeclared(Seen(), ds[i..])
      {
        assert ds[i..][1..] == ds[i + 1..];
        AddBinding(ds[i]);
        i := i + 1;
      }
    }

    // an end tag: the element's records go to the free list, and each prefix back to what it
    // was bound to
    method EndElement()
      requires Valid() && tags != []
      modifies this`bound, this`freeBindingList, this`tags, this`outer, this`seen
      ensures Valid() && tags == old(tags)[1..] && Seen() == old(seen[0])
      ensures seen == old(seen)[1..] && outer == old(outer)[1..]
    {
      hide InUse, Visible;
      hide InPlace;
      ghost var rest := Flat(tags[1..]);
      assert Flat(tags) == tags[0] + rest;
      var list := tags[0];
      while list != []
        invariant tags == old(tags) && outer == old(outer) && seen == old(seen)
        invariant forall b <- list :: b in records
        invariant Undone(bound, records, list) == outer[0]
        invariant InPlace(freeBindingList, list + rest, inheritedBindings, records.Keys)
        decreases |list|
      {
        var b := list[0];
        assert list + rest == [b] + list[1..] + rest;
        MoveInPlace(freeBindingList, [b], list[1..], rest, inheritedBindings, records.Keys);
        list := list[1..];
        freeBindingList := [b] + freeBindingList;
        bound := Restore(bound, records[b]);
      }
      assert [] + rest == rest;
      tags, outer, seen := tags[1..], outer[1..], seen[1..];
    }

    // Whatever an element holds, the map is the same after it as before it.  In it, each start
    // tag sees its parent's map overridden by its own declarations; maps are those maps.
    method WholeElement(e: Element) returns (ghost maps: seq<map<Name, Name>>)
      requires Valid()
      modifies this`records, this`nextRecord, this`bound, this`freeBindingList, this`tags, this`outer, this`seen
      ensures Valid() && |tags| == |old(tags)| && Seen() == old(Seen()) && seen == old(seen) && outer == old(outer)
      ensures maps == Maps(old(Seen()), e)
      decreases e
    {
      hide InPlace, Scoped, Visible;
      StartElement(e.declarations);
      ghost var inside := AllDeclared(old(Seen()), e.declarations);
      maps := [Seen()];
      for i := 0 to |e.children|
        invariant Valid() && |tags| == |old(tags)| + 1 && Seen() == inside
        invariant seen == [old(Seen())] + old(seen) && outer == [old(bound)] + old(outer)
        invariant maps == [inside] + MapsUpTo(inside, e, i)
      {
        ghost var more := WholeElement(e.children[i]);
        maps := maps + more;
      }
      EndElement();
    }

    // an empty-element tag, whose bindings end with it
    method EmptyElement(ds: seq<Declaration>) returns (ghost inside: map<Name, Name>)
      requires Valid()
      modifies this`records, this`nextRecord, this`bound, this`freeBindingList, this`tags, this`outer, this`seen
      ensures Valid() && |tags| == |old(tags)| && Seen() == old(Seen()) && seen == old(seen)
      ensures inside == AllDeclared(old(Seen()), ds)
    {
      StartElement(ds);
      inside := Seen();
      EndElement();
    }
  }

  lemma MoveInPlace(free: seq<nat>, moved: seq<nat>, list: seq<nat>, rest: seq<nat>, inherited: seq<nat>, keys: set<nat>)
    requires InPlace(free, moved + list + rest, inherited, keys)
    ensures InPlace(moved + free, list + rest, inherited, keys)
  {
    assert multiset(moved + list + rest) == multiset(moved) + multiset(list + rest);
  }

  lemma BoundIn(bound: Bound, records: map<nat, Binding>, used: seq<nat>)
    requires InUse(bound, records, used)
    ensures forall p <- bound :: bound[p] in records
  {
  }

  lemma FlatCons(list: seq<nat>, lists: seq<seq<nat>>)
    ensures Flat([list] + lists) == list + Flat(lists)
  {
    assert ([list] + lists)[1..] == lists;
  }

  lemma FlatPush(lists: seq<seq<nat>>, b: nat)
    requires lists != []
    ensures Flat([[b] + lists[0]] + lists[1..]) == [b] + Flat(lists)
  {
    hide Flat;
    FlatCons([b] + lists[0], lists[1..]);
    FlatCons(lists[0], lists[1..]);
    assert [lists[0]] + lists[1..] == lists;
    assert ([b] + lists[0]) + Flat(lists[1..]) == [b] + (lists[0] + Flat(lists[1..]));
  }

  // what is bound is in use
  lemma SeenIn(bound: Bound, records: map<nat, Binding>, lists: seq<seq<nat>>, inherited: seq<nat>,
               outer: seq<Bound>, seen: seq<map<Name, Name>>, b: nat)
    requires Scoped(bound, records, lists, inherited, outer, seen) && b !in Flat(lists) + inherited
    ensures forall p <- bound :: bound[p] in records && bound[p] != b
  {
  }

  lemma OneMore(keys: set<nat>, b: nat)
    requires b !in keys
    ensures multiset(keys + {b}) == multiset(keys) + multiset{b}
  {
  }

  lemma InUseBind(bound: Bound, records: map<nat, Binding>, used: seq<nat>, d: Declaration, b: nat)
    requires InUse(bound, records, used) && b !in used
    ensures InUse(Bind(bound, d, b), records[b := Record(bound, d)], [b] + used)
  {
  }

  lemma ScopedBind(bound: Bound, records: map<nat, Binding>, lists: seq<seq<nat>>, inherited: seq<nat>,
                   outer: seq<Bound>, seen: seq<map<Name, Name>>, d: Declaration, b: nat)
    requires Scoped(bound, records, lists, inherited, outer, seen) && lists != [] && b !in Flat(lists) + inherited
    ensures Scoped(Bind(bound, d, b), records[b := Record(bound, d)], [[b] + lists[0]] + lists[1..], inherited, outer, seen)
  {
    hide InUse, Record, Bind, Restore, Flat, Visible;
    var r := Record(bound, d);
    ScopedElsewhere(bound, records, lists, inherited, outer, seen, b, r);
    UndoOne(bound, d, b);
    FlatPush(lists, b);
    var lists' := [[b] + lists[0]] + lists[1..];
    assert lists'[1..] == lists[1..] && ([b] + lists[0])[1..] == lists[0];
    InUseBind(bound, records, Flat(lists) + inherited, d, b);
    assert [b] + Flat(lists) + inherited == [b] + (Flat(lists) + inherited);
  }
}
