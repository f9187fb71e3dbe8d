// getContext and setContext (xmlparse.c): the bindings and the open entities of a parser,
// written as a string for the parser of an external entity, and read back.
//
// The table of prefixes is given in the order its iterator goes through it, and so is that of
// the entities.
module Context {
  import opened Collections
  import opened Namespaces

  const SEP: char := '\U{000C}'  // CONTEXT_SEP
  const EQUALS: char := '='

  // What a context says: a binding for a prefix (the default namespace's is empty), or that an
  // entity is open.
  datatype Item = Bound(prefix: Name, uri: Name) | Open(entity: Name)

  function Render(item: Item): Name {
    if item.Bound? then item.prefix + [EQUALS] + item.uri else item.entity
  }

  // ----- writing -----

  // The string so far, with the items separated.
  function Written(items: seq<Item>): Name {
    if items == [] then []
    else if |items| == 1 then Render(items[0])
    else Written(items[..|items| - 1]) + [SEP] + Render(items[|items| - 1])
  }

  // the items of a parser, in the order they are written
  function Items(defaultUri: Option<Name>, prefixes: seq<(Name, Option<Name>)>, entities: seq<(Name, bool)>): seq<Item> {
    (if defaultUri.Some? then [Bound([], defaultUri.value)] else []) + Bindings(prefixes) + Opened(entities)
  }

  function Bindings(prefixes: seq<(Name, Option<Name>)>): seq<Item> {
    if prefixes == [] then []
    else Bindings(prefixes[..|prefixes| - 1])
         + if prefixes[|prefixes| - 1].1.Some? then [Bound(prefixes[|prefixes| - 1].0, prefixes[|prefixes| - 1].1.value)] else []
  }

  function Opened(entities: seq<(Name, bool)>): seq<Item> {
    if entities == [] then []
    else Opened(entities[..|entities| - 1])
         + if entities[|entities| - 1].1 then [Open(entities[|entities| - 1].0)] else []
  }

  // getContext
  method GetContext(defaultUri: Option<Name>, prefixes: seq<(Name, Option<Name>)>, entities: seq<(Name, bool)>) returns (context: Name)
    ensures context == Written(Items(defaultUri, prefixes, entities))
  {
    hide Written, Bindings, Opened;
    var needSep := false;
    ghost var first: seq<Item> := if defaultUri.Some? then [Bound([], defaultUri.value)] else [];
    WrittenNothing();
    context := [];
    if defaultUri.Some? {
      context := [EQUALS] + defaultUri.value;
      needSep := true;
      WrittenOne(Bound([], defaultUri.value));
    }
    context, needSep := WriteBindings(context, needSep, prefixes, first);
    context := WriteOpen(context, needSep, entities, first + Bindings(prefixes));
  }

  method WriteBindings(written: Name, sep: bool, prefixes: seq<(Name, Option<Name>)>, ghost items: seq<Item>)
    returns (context: Name, needSep: bool)
    requires written == Written(items) && sep == (items != [])
    ensures context == Written(items + Bindings(prefixes)) && needSep == (items + Bindings(prefixes) != [])
  {
    hide Written;
    WrittenNothing();
    context, needSep := written, sep;
    assert items + Bindings(prefixes[..0]) == items;
    for i := 0 to |prefixes|
      invariant context == Written(items + Bindings(prefixes[..i])) && needSep == (items + Bindings(prefixes[..i]) != [])
    {
      assert prefixes[..i + 1][..i] == prefixes[..i];
      ghost var done := items + Bindings(prefixes[..i]);
      if prefixes[i].1.Some? {
        var (name, uri) := (prefixes[i].0, prefixes[i].1.value);
        WrittenMore(done, Bound(name, uri));
        if needSep { context := context + [SEP]; }
        context := context + (name + [EQUALS] + uri);
        needSep := true;
        assert items + Bindings(prefixes[..i + 1]) == done + [Bound(name, uri)];
      } else {
        assert items + Bindings(prefixes[..i + 1]) == done;
      }
    }
    assert prefixes[..|prefixes|] == prefixes;
  }

  method WriteOpen(written: Name, sep: bool, entities: seq<(Name, bool)>, ghost items: seq<Item>) returns (context: Name)
    requires written == Written(items) && sep == (items != [])
    ensures context == Written(items + Opened(entities))
  {
    hide Written;
    WrittenNothing();
    context := written;
    var needSep := sep;
    assert items + Opened(entities[..0]) == items;
    for i := 0 to |entities|
      invariant context == Written(items + Opened(entities[..i])) && needSep == (items + Opened(entities[..i]) != [])
    {
      assert entities[..i + 1][..i] == entities[..i];
      ghost var done := items + Opened(entities[..i]);
      if entities[i].1 {
        WrittenMore(done, Open(entities[i].0));
        if needSep { context := context + [SEP]; }
        context := context + entities[i].0;
        needSep := true;
        assert items + Opened(entities[..i + 1]) == done + [Open(entities[i].0)];
      } else {
        assert items + Opened(entities[..i + 1]) == done;
      }
    }
    assert entities[..|entities|] == entities;
  }

  lemma WrittenMore(items: seq<Item>, item: Item)
    ensures Written(items + [item]) == (if items == [] then [] else Written(items) + [SEP]) + Render(item)
  {
    hide Render;
    assert (items + [item])[..|items|] == items;
  }

  // ----- reading -----

  // setContext from a position where an item starts: start is context, s is s and name the
  // string in progress.  It gives the items in the order they are put into effect.
  function Read(c: Name, start: nat, s: nat, name: Name): seq<Item>
    requires start <= s <= |c|
    decreases |c| - start, |c| - s
  {
    if start == |c| then []
    else if s == |c| then [Open(name)]
    else if c[s] == SEP then [Open(name)] + Read(c, s + 1, s + 1, [])
    else if c[s] == EQUALS then
      var e := UriEnd(c, s + 1);
      [Bound(name, c[s + 1..e])] + if e == |c| then [] else Read(c, e + 1, e + 1, [])
    else Read(c, start, s + 1, name + [c[s]])
  }

  // the end of the name that a prefix is bound to
  function UriEnd(c: Name, i: nat): (e: nat)
    requires i <= |c|
    ensures i <= e <= |c|
    ensures SEP !in c[i..e]
    ensures e < |c| ==> c[e] == SEP
    decreases |c| - i
  {
    if i == |c| || c[i] == SEP then i
    else
      var e := UriEnd(c, i + 1);
      assert c[i..e] == [c[i]] + c[i + 1..e];
      e
  }

  // What getContext writes can be read: names hold no form feed and no "=", entities have
  // names, and the names that prefixes are bound to hold no form feed.
  predicate Plain(item: Item) {
    match item
    case Bound(prefix, uri) => '\U{000C}' !in prefix && '=' !in prefix && '\U{000C}' !in uri
    case Open(entity) => entity != [] && '\U{000C}' !in entity && '=' !in entity
  }

  // The reader goes through a name,
  lemma {:induction false} ReadName(c: Name, start: nat, s: nat, name: Name, rest: Name)
    requires start <= s && s + |rest| <= |c| && c[s..s + |rest|] == rest && SEP !in rest && EQUALS !in rest
    requires start < s + |rest|
    ensures Read(c, start, s, name) == Read(c, start, s + |rest|, name + rest)
    decreases |rest|
  {
    if rest == [] {
      assert name + rest == name;
    } else {
      assert c[s] == rest[0];
      assert c[s + 1..s + |rest|] == rest[1..];
      assert name + rest == (name + [rest[0]]) + rest[1..];
      ReadName(c, start, s + 1, name + [rest[0]], rest[1..]);
    }
  }

  // and then through the item to its end.
  lemma {:induction false} UriEndIs(c: Name, i: nat, uri: Name)
    requires i + |uri| <= |c| && c[i..i + |uri|] == uri && SEP !in uri
    requires i + |uri| == |c| || c[i + |uri|] == SEP
    ensures UriEnd(c, i) == i + |uri|
    decreases |uri|
  {
    if uri != [] {
      assert c[i] == uri[0] && c[i + 1..i + |uri|] == uri[1..];
      UriEndIs(c, i + 1, uri[1..]);
    }
  }

  lemma ReadEnd(c: Name, start: nat, s: nat, name: Name)
    requires start <= s <= |c| && start < |c| && (s < |c| ==> c[s] == SEP)
    ensures Read(c, start, s, name) == [Open(name)] + if s == |c| then [] else Read(c, s + 1, s + 1, [])
  {
    hide UriEnd;
  }

  lemma ReadEquals(c: Name, start: nat, s: nat, name: Name)
    requires start <= s < |c| && c[s] == EQUALS
    ensures var e := UriEnd(c, s + 1);
            Read(c, start, s, name) == [Bound(name, c[s + 1..e])] + if e == |c| then [] else Read(c, e + 1, e + 1, [])
  {
    hide UriEnd;
  }

  lemma ReadOpen(c: Name, start: nat, entity: Name)
    requires Plain(Open(entity)) && start + |entity| <= |c| && c[start..start + |entity|] == entity
    requires start + |entity| == |c| || c[start + |entity|] == SEP
    ensures var next := start + |entity|;
            Read(c, start, start, []) == [Open(entity)] + if next == |c| then [] else Read(c, next + 1, next + 1, [])
  {
    hide Read;
    ReadName(c, start, start, [], entity);
    assert [] + entity == entity;
    ReadEnd(c, start, start + |entity|, entity);
  }

  lemma ReadBound(c: Name, start: nat, prefix: Name, uri: Name, next: nat)
    requires Plain(Bound(prefix, uri)) && next == start + |prefix| + 1 + |uri| <= |c|
    requires c[start..next] == prefix + [EQUALS] + uri && (next == |c| || c[next] == SEP)
    ensures Read(c, start, start, []) == [Bound(prefix, uri)] + if next == |c| then [] else Read(c, next + 1, next + 1, [])
  {
    hide Read, UriEnd;
    var s, r := start + |prefix|, c[start..next];
    assert r[..|prefix|] == prefix && r[|prefix|] == EQUALS && r[|prefix| + 1..] == uri;
    assert c[start..s] == prefix && c[s] == EQUALS && c[s + 1..next] == uri;
    if prefix != [] { ReadName(c, start, start, [], prefix); }
    assert [] + prefix == prefix;
    UriEndIs(c, s + 1, uri);
    ReadEquals(c, start, s, prefix);
  }

  lemma ReadItem(c: Name, start: nat, item: Item, next: nat)
    requires Plain(item) && next == start + |Render(item)| <= |c| && c[start..next] == Render(item)
    requires next == |c| || c[next] == SEP
    ensures Read(c, start, start, []) == [item] + if next == |c| then [] else Read(c, next + 1, next + 1, [])
  {
    hide Read, Plain;
    if item.Open? { ReadOpen(c, start, item.entity); } else { ReadBound(c, start, item.prefix, item.uri, next); }
  }

  // What has been written is read back, item by item.
  lemma {:induction false} ReadWritten(before: Name, after: seq<Item>)
    requires after != [] && forall item <- after :: Plain(item)
    ensures Read(before + Written(after), |before|, |before|, []) == after
    decreases |after|
  {
    hide Read, Render, Plain, Written;
    var c, first := before + Written(after), after[0];
    var next := |before| + |Render(first)|;
    if |after| == 1 {
      WrittenOne(first);
      assert after == [first];
      assert c[|before|..next] == Render(first);
      ReadItem(c, |before|, first, next);
    } else {
      WrittenFirst(after);
      var rest := after[1..];
      var begun := before + Render(first) + [SEP];
      assert c == begun + Written(rest);
      assert c[|before|..next] == Render(first) && c[next] == SEP;
      ReadItem(c, |before|, first, next);
      ReadWritten(begun, rest);
      assert next < |c| && next + 1 == |begun|;
      assert after == [first] + rest;
    }
  }

  lemma WrittenOne(item: Item)
    ensures Written([item]) == Render(item)
  {
  }

  lemma {:induction false} WrittenFirst(items: seq<Item>)
    requires 2 <= |items|
    ensures Written(items) == Render(items[0]) + [SEP] + Written(items[1..])
    decreases |items|
  {
    hide Render;
    var last, less := items[|items| - 1], items[..|items| - 1];
    assert items == less + [last];
    WrittenMore(less, last);
    if |items| == 2 {
      assert items[1..] == [last] && less == [items[0]];
    } else {
      WrittenFirst(less);
      assert items[1..] == less[1..] + [last];
      WrittenMore(less[1..], last);
      assert Render(items[0]) + [SEP] + Written(less[1..]) + [SEP] + Render(last)
             == Render(items[0]) + [SEP] + (Written(less[1..]) + [SEP] + Render(last));
    }
  }

  // ----- what reading puts into effect -----

  function Declarations(items: seq<Item>): seq<Declaration> {
    if items == [] then []
    else Declarations(items[..|items| - 1])
         + if items[|items| - 1].Bound? then [Declaration(items[|items| - 1].prefix, items[|items| - 1].uri)] else []
  }

  // the entities that are marked open, among those the parser knows
  function OpenEntities(items: seq<Item>, known: set<Name>): set<Name> {
    set i | 0 <= i < |items| && items[i].Open? && items[i].entity in known :: items[i].entity
  }

  // setContext, on a parser that knows these entities; the bindings are inherited ones
  method SetContext(c: Name, scopes: Scopes, known: set<Name>) returns (open: set<Name>)
    requires scopes.Valid() && scopes.tags == []
    modifies scopes
    ensures scopes.Valid()
    ensures scopes.Seen() == AllDeclared(old(scopes.Seen()), Declarations(Read(c, 0, 0, [])))
    ensures open == OpenEntities(Read(c, 0, 0, []), known)
  {
    hide Scopes.Valid, Read, UriEnd, OpenEntities, Declarations, AllDeclared;
    open := {};
    var context, s, name := 0, 0, [];
    ghost var all, done := Read(c, 0, 0, []), [];
    NothingDone(known, old(scopes.Seen()));
    while context != |c|
      invariant context <= s <= |c| && scopes.Valid() && scopes.tags == []
      invariant all == done + Read(c, context, s, name)
      invariant scopes.Seen() == AllDeclared(old(scopes.Seen()), Declarations(done)) && open == OpenEntities(done, known)
      decreases |c| - context, |c| - s
    {
      ghost var rest := Read(c, context, s, name);
      if s == |c| || c[s] == SEP {
        ReadEnd(c, context, s, name);
        OneOpen(done, name, known);
        done := done + [Open(name)];
        if name in known { open := open + {name}; }
        if s != |c| { s := s + 1; }
        context, name := s, [];
        ReadNothing(c);
      } else if c[s] == EQUALS {
        ReadEquals(c, context, s, name);
        context := FindEnd(c, s + 1);
        OneBound(old(scopes.Seen()), done, name, c[s + 1..context], known);
        scopes.Inherit(Declaration(name, c[s + 1..context]));
        done := done + [Bound(name, c[s + 1..context])];
        if context != |c| { context := context + 1; }
        s, name := context, [];
        ReadNothing(c);
      } else {
        ReadChar(c, context, s, name);
        name := name + [c[s]];
        s := s + 1;
      }
    }
    ReadOver(c, s, name);
    assert all == done;
  }

  method FindEnd(c: Name, from: nat) returns (e: nat)
    requires from <= |c|
    ensures e == UriEnd(c, from)
  {
    e := from;
    while e != |c| && c[e] != SEP
      invariant from <= e <= |c| && UriEnd(c, from) == UriEnd(c, e)
    {
      e := e + 1;
    }
  }

  lemma ReadNothing(c: Name)
    ensures Read(c, |c|, |c|, []) == []
  {
  }

  lemma ReadOver(c: Name, s: nat, name: Name)
    requires s == |c|
    ensures Read(c, |c|, s, name) == []
  {
  }

  lemma ReadChar(c: Name, start: nat, s: nat, name: Name)
    requires start <= s < |c| && c[s] != SEP && c[s] != EQUALS
    ensures Read(c, start, s, name) == Read(c, start, s + 1, name + [c[s]])
  {
    hide UriEnd;
  }

  lemma NothingDone(known: set<Name>, seen: map<Name, Name>)
    ensures AllDeclared(seen, Declarations([])) == seen && OpenEntities([], known) == {}
  {
  }

  lemma OneOpen(items: seq<Item>, name: Name, known: set<Name>)
    ensures Declarations(items + [Open(name)]) == Declarations(items)
    ensures OpenEntities(items + [Open(name)], known) == OpenEntities(items, known) + if name in known then {name} else {}
  {
    var more := items + [Open(name)];
    assert more[..|items|] == items && Declarations(items) + [] == Declarations(items);
    forall e | e in OpenEntities(items, known) ensures e in OpenEntities(more, known) {
      var i :| 0 <= i < |items| && items[i].Open? && items[i].entity == e;
      assert more[i] == items[i];
    }
    if name in known { assert more[|items|] == Open(name); }
  }

  lemma OneBound(seen: map<Name, Name>, items: seq<Item>, prefix: Name, uri: Name, known: set<Name>)
    ensures AllDeclared(seen, Declarations(items + [Bound(prefix, uri)]))
            == Declared(AllDeclared(seen, Declarations(items)), Declaration(prefix, uri))
    ensures OpenEntities(items + [Bound(prefix, uri)], known) == OpenEntities(items, known)
  {
    var more := items + [Bound(prefix, uri)];
    assert more[..|items|] == items;
    DeclaredLast(seen, Declarations(items), Declaration(prefix, uri));
    forall e | e in OpenEntities(items, known) ensures e in OpenEntities(more, known) {
      var i :| 0 <= i < |items| && items[i].Open? && items[i].entity == e;
      assert more[i] == items[i];
    }
  }

  lemma {:induction false} DeclaredLast(seen: map<Name, Name>, ds: seq<Declaration>, d: Declaration)
    ensures AllDeclared(seen, ds + [d]) == Declared(AllDeclared(seen, ds), d)
    decreases |ds|
  {
    if ds == [] {
      assert [d][1..] == [] && [] + [d] == [d];
    } else {
      assert (ds + [d])[1..] == ds[1..] + [d];
      DeclaredLast(Declared(seen, ds[0]), ds[1..], d);
    }
  }

  // ----- the round trip -----

  // what the table of prefixes stands for
  function Table(prefixes: seq<(Name, Option<Name>)>): map<Name, Name> {
    if prefixes == [] then map[]
    else
      var (name, uri) := prefixes[|prefixes| - 1];
      var less := Table(prefixes[..|prefixes| - 1]);
      if uri.Some? then less[name := uri.value] else less
  }

  lemma {:induction false} BindingsDeclare(seen: map<Name, Name>, first: seq<Item>, prefixes: seq<(Name, Option<Name>)>, known: set<Name>)
    requires forall p <- prefixes :: p.0 != []
    ensures AllDeclared(seen, Declarations(first + Bindings(prefixes))) == AllDeclared(seen, Declarations(first)) + Table(prefixes)
    ensures OpenEntities(first + Bindings(prefixes), known) == OpenEntities(first, known)
    decreases |prefixes|
  {
    hide AllDeclared, Declarations, OpenEntities;
    if prefixes == [] {
      assert first + [] == first;
    } else {
      var less, last := prefixes[..|prefixes| - 1], prefixes[|prefixes| - 1];
      assert last in prefixes && forall p <- less :: p in prefixes;
      BindingsDeclare(seen, first, less, known);
      if last.1.Some? {
        OneBound(seen, first + Bindings(less), last.0, last.1.value, known);
        assert first + Bindings(less) + [Bound(last.0, last.1.value)] == first + Bindings(prefixes);
      } else {
        assert first + Bindings(less) == first + Bindings(prefixes);
      }
    }
  }

  lemma {:induction false} OpenedOpens(seen: map<Name, Name>, first: seq<Item>, entities: seq<(Name, bool)>, known: set<Name>)
    requires forall e <- entities :: e.0 in known
    ensures AllDeclared(seen, Declarations(first + Opened(entities))) == AllDeclared(seen, Declarations(first))
    ensures OpenEntities(first + Opened(entities), known) == OpenEntities(first, known) + Flagged(entities)
    decreases |entities|
  {
    hide AllDeclared, Declarations, OpenEntities;
    if entities == [] {
      assert first + [] == first;
    } else {
      var less, last := entities[..|entities| - 1], entities[|entities| - 1];
      assert last in entities && forall e <- less :: e in entities;
      OpenedOpens(seen, first, less, known);
      if last.1 {
        OneOpen(first + Opened(less), last.0, known);
        assert first + Opened(less) + [Open(last.0)] == first + Opened(entities);
      } else {
        assert first + Opened(less) == first + Opened(entities);
      }
    }
  }

  // the entities that are open
  function Flagged(entities: seq<(Name, bool)>): set<Name> {
    if entities == [] then {}
    else Flagged(entities[..|entities| - 1]) + if entities[|entities| - 1].1 then {entities[|entities| - 1].0} else {}
  }

  // A fresh parser that knows the same entities, given the string, has the same map from
  // prefixes to names, the same default namespace and the same open entities.
  lemma ContextRestored(defaultUri: Option<Name>, prefixes: seq<(Name, Option<Name>)>, entities: seq<(Name, bool)>, known: set<Name>)
    requires forall item <- Items(defaultUri, prefixes, entities) :: Plain(item)
    requires (forall p <- prefixes :: p.0 != DEFAULT) && (forall e <- entities :: e.0 in known)
    requires defaultUri.Some? ==> defaultUri.value != []
    ensures var items := Read(Written(Items(defaultUri, prefixes, entities)), 0, 0, []);
            && AllDeclared(map[], Declarations(items)) == (if defaultUri.Some? then map[DEFAULT := defaultUri.value] else map[]) + Table(prefixes)
            && OpenEntities(items, known) == Flagged(entities)
  {
    hide AllDeclared, Declarations, OpenEntities, Read, Written, Plain;
    var items := Items(defaultUri, prefixes, entities);
    var first := if defaultUri.Some? then [Bound([], defaultUri.value)] else [];
    NothingDone(known, map[]);
    if defaultUri.Some? {
      OneBound(map[], [], [], defaultUri.value, known);
      assert [] + [Bound([], defaultUri.value)] == first;
    }
    BindingsDeclare(map[], first, prefixes, known);
    OpenedOpens(map[], first + Bindings(prefixes), entities, known);
    if items == [] {
      assert Written(items) == [] by { WrittenNothing(); }
      ReadNothing([]);
    } else {
      ReadWritten([], items);
      assert [] + Written(items) == Written(items);
    }
  }

  // The parser of an external entity gets the string that its parent writes: it sees the same
  // prefixes, and has the same entities open.
  method Child(parent: Scopes, defaultUri: Option<Name>, prefixes: seq<(Name, Option<Name>)>, entities: seq<(Name, bool)>,
               known: set<Name>) returns (child: Scopes, open: set<Name>)
    requires parent.Valid()
    requires parent.Seen() == (if defaultUri.Some? then map[DEFAULT := defaultUri.value] else map[]) + Table(prefixes)
    requires forall item <- Items(defaultUri, prefixes, entities) :: Plain(item)
    requires (forall p <- prefixes :: p.0 != DEFAULT) && (forall e <- entities :: e.0 in known)
    requires defaultUri.Some? ==> defaultUri.value != []
    ensures fresh(child) && child.Valid() && child.Seen() == parent.Seen() && open == Flagged(entities)
  {
    hide Scopes.Valid, Items, Plain, Read, Written, Table, Declarations, AllDeclared, OpenEntities, Flagged;
    var context := GetContext(defaultUri, prefixes, entities);
    child := new Scopes();
    open := SetContext(context, child, known);
    ContextRestored(defaultUri, prefixes, entities, known);
  }

  lemma WrittenNothing()
    ensures Written([]) == []
  {
  }
}
