// The hooks of ghook.c, linked to each other in memory.  Each method is proved to change the
// list as the function of HookRuns by the same name does; HookRuns says what follows.
module GHook {
  import opened Collections
  import opened HookRuns

  class Hook {
    const name: nat  // its address
    var next: Hook?
    var prev: Hook?
    var refCount: nat
    var hookId: nat
    var active: bool
    var inCall: bool

    // g_hook_alloc
    constructor (name: nat)
      ensures this.name == name && next == null && prev == null
      ensures Description() == Info(0, true, false, 0)
    {
      this.name := name;
      next, prev, refCount, hookId, active, inCall := null, null, 0, 0, true, false;
    }

    function Description(): Info
      reads this
    {
      Info(hookId, active, inCall, refCount)
    }
  }

  ghost predicate Links(order: seq<Hook>, first: Hook?)
    reads order
  {
    && (if order == [] then first == null
        else first == order[0] && order[0].prev == null && order[|order| - 1].next == null)
    && forall i, j :: 0 <= i < j < |order| && j == i + 1 ==> order[i].next == order[j] && order[j].prev == order[i]
  }

  ghost predicate Names(order: seq<Hook>, names: seq<nat>) {
    |names| == |order| && forall i :: 0 <= i < |order| ==> names[i] == order[i].name
  }

  ghost predicate Describes(order: seq<Hook>, info: map<nat, Info>)
    reads order
  {
    forall h <- order :: h.name in info && info[h.name] == h.Description()
  }

  class HookList {
    var hooks: Hook?
    var seqId: nat
    ghost var order: seq<Hook>
    ghost var s: State<nat>

    ghost predicate Valid()
      reads this, order
    {
      && Links(order, hooks) && Names(order, s.order) && Describes(order, s.info)
      && s.seqId == seqId && Linked(s)
    }

    // g_hook_list_init
    constructor ()
      ensures Valid() && s == State([], map[], 1, [])
    {
      hooks, seqId, order, s := null, 1, [], State([], map[], 1, []);
    }

    // g_hook_ref
    method Ref(hook: Hook)
      requires Valid() && hook in order && hook.refCount > 0
      modifies this`s, hook`refCount
      ensures Valid() && s == HookRuns.Ref(old(s), hook.name) && hook.refCount == old(hook.refCount) + 1
    {
      hide Linked, Names;
      Alone(order, s, hook);
      ghost var t := HookRuns.Ref(s, hook.name);
      SameLinks(s, hook.name, t.info[hook.name]);
      hook.refCount := hook.refCount + 1;
      OneChanged(order, s.info, hook);
      s := t;
    }

    // g_hook_insert_before, where there is a sibling
    method LinkBefore(sibling: Hook, hook: Hook)
      requires Links(order, hooks) && Distinct(order) && hook !in order && hook.next == null && hook.prev == null
      requires sibling in order
      modifies this`hooks, hook`next, hook`prev, order
      ensures Links(Spliced(order, sibling, hook), hooks)
      ensures forall h <- order :: h.Description() == old(h.Description())
    {
      ghost var p := Place(order, sibling);
      assert 0 < p ==> order[p - 1].next == order[p] && order[p].prev == order[p - 1];
      if sibling.prev != null {
        hook.prev := sibling.prev;
        hook.prev.next := hook;
        hook.next := sibling;
        sibling.prev := hook;
      } else {
        hooks := hook;
        hook.next := sibling;
        sibling.prev := hook;
      }
      SplicedLinks(order, p, hook, hooks);
    }

    // and where there is none
    method LinkLast(hook: Hook)
      requires Links(order, hooks) && Distinct(order) && hook !in order && hook.next == null && hook.prev == null
      modifies this`hooks, hook`next, hook`prev, order
      ensures Links(Spliced(order, null, hook), hooks)
      ensures forall h <- order :: h.Description() == old(h.Description())
    {
      if hooks != null {
        var last := hooks;
        ghost var i := 0;
        while last.next != null
          invariant i < |order| && last == order[i] && (i + 1 < |order| ==> last.next == order[i + 1])
          decreases |order| - i
        {
          last, i := last.next, i + 1;
        }
        hook.prev := last;
        last.next := hook;
      } else {
        hooks := hook;
      }
      SplicedLinks(order, |order|, hook, hooks);
    }

    // g_hook_insert_before
    method InsertBefore(sibling: Hook?, hook: Hook)
      requires Valid() && hook !in order && hook.name !in s.info && hook.name !in s.freed
      requires sibling != null ==> sibling in order
      requires hook.next == null && hook.prev == null && hook.hookId == 0 && hook.refCount == 0 && hook.active && !hook.inCall
      modifies this, order, hook
      ensures Valid()
      ensures s == Insert(old(s), if sibling == null then None else Some(sibling.name), hook.name)
      ensures order == Spliced(old(order), sibling, hook)
    {
      hide Linked, Names, Spliced;
      ghost var t := Insert(s, if sibling == null then None else Some(sibling.name), hook.name);
      DistinctHooks(order, s);
      InsertKeepsLinked(s, if sibling == null then None else Some(sibling.name), hook.name);
      SplicedNames(order, s, sibling, hook);
      hook.hookId := seqId;
      seqId := seqId + 1;
      hook.refCount := 1;
      if sibling != null { LinkBefore(sibling, hook); } else { LinkLast(hook); }
      OneMore(order, s.info, sibling, hook);
      order := Spliced(order, sibling, hook);
      s := t;
    }

    // the links of g_hook_unref, when the hook is taken out
    method Unlink(hook: Hook)
      requires Links(order, hooks) && Distinct(order) && hook in order
      modifies this`hooks, order
      ensures Links(Removed(order, hook), hooks) && hook.next == null && hook.prev == null
      ensures forall h <- order :: h.Description() == old(h.Description())
    {
      ghost var p := Place(order, hook);
      assert 0 < p ==> order[p - 1].next == order[p] && order[p].prev == order[p - 1];
      assert p + 1 < |order| ==> order[p].next == order[p + 1] && order[p + 1].prev == order[p];
      if hook.prev != null {
        hook.prev.next := hook.next;
      } else {
        hooks := hook.next;
      }
      if hook.next != null {
        hook.next.prev := hook.prev;
        hook.next := null;
      }
      hook.prev := null;
      RemovedLinks(order, p, hooks);
    }

    // g_hook_unref; the checks leave a hook linked that is not destroyed or is in a call
    method Unref(hook: Hook) returns (ghost unlinked: bool)
      requires Valid() && hook in order && hook.refCount > 0
      modifies this, order
      ensures Valid() && s == HookRuns.Unref(old(s), hook.name)
      ensures unlinked <==> hook !in order
      ensures order == if unlinked then Removed(old(order), hook) else old(order)
    {
      hide Linked, Names, Removed;
      Alone(order, s, hook);
      DistinctHooks(order, s);
      ghost var t := HookRuns.Unref(s, hook.name);
      RemovedMembers(order, hook);
      unlinked := false;
      hook.refCount := hook.refCount - 1;
      if hook.refCount == 0 && hook.hookId == 0 && !hook.inCall {
        UnlinkKeeps(s, hook.name);
        RemovedNames(order, s, hook);
        Unlink(hook);
        OneLess(order, s.info, hook);
        order := Removed(order, hook);
        unlinked := true;
      } else {
        SameLinks(s, hook.name, t.info[hook.name]);
        OneChanged(order, s.info, hook);
      }
      s := t;
    }

    // g_hook_destroy_link; the destroy notification is not part of this model
    method DestroyLink(hook: Hook)
      requires Valid() && hook in order && hook.refCount > 0
      modifies this, order
      ensures Valid() && s == Destroy(old(s), hook.name)
      ensures order == if hook in order then old(order) else Removed(old(order), hook)
    {
      hide Linked, Names, Removed, HookRuns.Unref;
      Alone(order, s, hook);
      if hook.hookId != 0 {
        ghost var t := s.(info := s.info[hook.name := s.info[hook.name].(id := 0, active := false)]);
        SameLinks(s, hook.name, t.info[hook.name]);
        hook.hookId := 0;
        hook.active := false;
        OneChanged(order, s.info, hook);
        s := t;
        ghost var unlinked := Unref(hook);
      }
    }

    // G_HOOK_IS_VALID, and not in a call unless that is allowed
    predicate CanBeCalled(hook: Hook, mayBeInCall: bool)
      reads hook
    {
      hook.hookId != 0 && hook.active && (mayBeInCall || !hook.inCall)
    }

    // the loop of g_hook_next_valid
    method FindNext(hook: Hook, mayBeInCall: bool) returns (next: Hook?)
      requires Valid() && hook in order
      ensures next != null ==> next in order
      ensures First(s, HookRuns.After(s.order, hook.name), mayBeInCall) == if next == null then None else Some(next.name)
    {
      hide Linked, Names, First, HookRuns.After;
      ghost var p := Place(order, hook);
      ghost var i := p + 1;
      AfterAt(order, s, p);
      ghost var found := First(s, HookRuns.After(s.order, hook.name), mayBeInCall);
      assert i < |order| ==> order[p].next == order[i];
      next := hook.next;
      while next != null
        invariant p < i <= |order| && next == (if i < |order| then order[i] else null)
        invariant found == First(s, s.order[i..], mayBeInCall)
        decreases |order| - i
      {
        FirstStep(s, i, mayBeInCall);
        NameAt(order, s, i);
        assert next in order;
        if CanBeCalled(next, mayBeInCall) { return; }
        assert i + 1 < |order| ==> order[i].next == order[i + 1];
        next := next.next;
        i := i + 1;
      }
      assert s.order[i..] == [];
      NoFirst(s, mayBeInCall);
    }

    // g_hook_next_valid
    method NextValid(hook: Hook, mayBeInCall: bool) returns (next: Hook?)
      requires Valid() && hook in order && forall h <- order :: h.refCount > 0
      modifies this, order
      ensures Valid() && (next != null ==> next in order)
      ensures hook.name in old(s).info && old(s).info[hook.name].refs > 0
      ensures Next(old(s), hook.name, mayBeInCall) == (s, if next == null then None else Some(next.name))
    {
      hide Linked, Links, Names, Describes, HookRuns.Unref, HookRuns.Ref, First, HookRuns.After, Removed;
      InTable(order, s, hook);
      next := FindNext(hook, mayBeInCall);
      if next != null {
        assert next != hook by { NotItself(order, s, hook, next, mayBeInCall); }
        Ref(next);
        DistinctHooks(order, s);
        RemovedMembers(order, hook);
      }
      ghost var unlinked := Unref(hook);
    }

    // g_hook_first_valid
    method FirstValidHook(mayBeInCall: bool) returns (hook: Hook?)
      requires Valid() && forall h <- order :: h.refCount > 0
      modifies this, order
      ensures Valid() && (hook != null ==> hook in order)
      ensures Linked(old(s))
      ensures FirstValid(old(s), mayBeInCall) == (s, if hook == null then None else Some(hook.name))
    {
      hide Linked, Names, Next, HookRuns.Ref;
      hook := hooks;
      if hook != null {
        NameAt(order, s, 0);
        NamesLength(order, s);
        Ref(hook);
        if !CanBeCalled(hook, mayBeInCall) {
          hook := NextValid(hook, mayBeInCall);
        }
      } else {
        NamesLength(order, s);
      }
    }

    // The loop of g_hook_insert_sorted.  Its references to the siblings it compares with come
    // and go.
    method FindSorted(hook: Hook, compare: (nat, nat) -> int) returns (sibling: Hook?)
      requires Valid()
      ensures sibling != null ==> sibling in order
      ensures SortedSibling(s, s.order, hook.name, compare) == if sibling == null then None else Some(sibling.name)
    {
      hide Linked, Names, SortedSibling;
      NamesLength(order, s);
      sibling := hooks;
      ghost var i := 0;
      ghost var found := SortedSibling(s, s.order, hook.name, compare);
      assert s.order[0..] == s.order;
      while sibling != null
        invariant 0 <= i <= |order| && sibling == (if i < |order| then order[i] else null)
        invariant found == SortedSibling(s, s.order[i..], hook.name, compare)
        decreases |order| - i
      {
        SiblingStep(s, i, hook.name, compare);
        NameAt(order, s, i);
        assert sibling in order;
        if sibling.hookId != 0 && compare(hook.name, sibling.name) <= 0 { return; }
        assert i + 1 < |order| ==> order[i].next == order[i + 1];
        sibling := sibling.next;
        i := i + 1;
      }
      assert s.order[i..] == [];
      NoSibling(s, hook.name, compare);
    }

    // g_hook_insert_sorted
    method InsertSorted(hook: Hook, compare: (nat, nat) -> int)
      requires Valid() && hook !in order && hook.name !in s.info && hook.name !in s.freed
      requires hook.next == null && hook.prev == null && hook.hookId == 0 && hook.refCount == 0 && hook.active && !hook.inCall
      modifies this, order, hook
      ensures Valid()
      ensures s == Insert(old(s), SortedSibling(old(s), old(s).order, hook.name, compare), hook.name)
    {
      var sibling := FindSorted(hook, compare);
      InsertBefore(sibling, hook);
    }
  }

  lemma NamesLength(order: seq<Hook>, s: State<nat>)
    requires Names(order, s.order)
    ensures |s.order| == |order|
  {
  }

  lemma NoSibling(s: State<nat>, k: nat, compare: (nat, nat) -> int)
    ensures SortedSibling(s, [], k, compare) == None
  {
  }

  lemma SiblingStep(s: State<nat>, i: nat, k: nat, compare: (nat, nat) -> int)
    requires i < |s.order|
    ensures SortedSibling(s, s.order[i..], k, compare)
            == if s.order[i] in s.info && s.info[s.order[i]].id != 0 && compare(k, s.order[i]) <= 0 then Some(s.order[i])
               else SortedSibling(s, s.order[i + 1..], k, compare)
  {
    assert s.order[i..][1..] == s.order[i + 1..];
  }

  lemma InTable(order: seq<Hook>, s: State<nat>, hook: Hook)
    requires Describes(order, s.info) && hook in order
    ensures hook.name in s.info && s.info[hook.name].refs == hook.refCount
  {
  }

  // the hook found is a later one
  lemma NotItself(order: seq<Hook>, s: State<nat>, hook: Hook, next: Hook, mayBeInCall: bool)
    requires Linked(s) && First(s, HookRuns.After(s.order, hook.name), mayBeInCall) == Some(next.name)
    ensures next != hook
  {
    AfterDistinct(s.order, hook.name);
  }

  lemma NoFirst(s: State<nat>, mayBeInCall: bool)
    ensures First(s, [], mayBeInCall) == None
  {
  }

  lemma FirstStep(s: State<nat>, i: nat, mayBeInCall: bool)
    requires i < |s.order|
    ensures First(s, s.order[i..], mayBeInCall)
            == if Eligible(s, s.order[i], mayBeInCall) then Some(s.order[i]) else First(s, s.order[i + 1..], mayBeInCall)
  {
    assert s.order[i..][1..] == s.order[i + 1..];
  }

  lemma NameAt(order: seq<Hook>, s: State<nat>, i: nat)
    requires Names(order, s.order) && i < |order|
    ensures s.order[i] == order[i].name
  {
  }

  lemma AfterAt(order: seq<Hook>, s: State<nat>, p: nat)
    requires Names(order, s.order) && Linked(s) && p < |order|
    ensures |s.order| == |order| && HookRuns.After(s.order, order[p].name) == s.order[p + 1..]
  {
    AfterIndex(s.order, p);
  }

  lemma {:induction false} AfterIndex(names: seq<nat>, p: nat)
    requires Distinct(names) && p < |names|
    ensures HookRuns.After(names, names[p]) == names[p + 1..]
    decreases |names|
  {
    RestDistinct(names);
    if p > 0 {
      assert names[p] == names[1..][p - 1] && names[p] != names[0];
      AfterIndex(names[1..], p - 1);
      assert names[1..][p..] == names[p + 1..];
    }
  }

  ghost function Removed(order: seq<Hook>, hook: Hook): seq<Hook>
    requires hook in order
  {
    order[..Place(order, hook)] + order[Place(order, hook) + 1..]
  }

  lemma RemovedLinks(order: seq<Hook>, p: nat, first: Hook?)
    requires p < |order|
    requires forall i, j :: 0 <= i < j < |order| && j == i + 1 && i != p && j != p ==> order[i].next == order[j] && order[j].prev == order[i]
    requires if p > 0 then first == order[0] && order[0].prev == null else first == (if |order| > 1 then order[1] else null)
    requires p + 1 < |order| ==> order[p + 1].prev == (if p > 0 then order[p - 1] else null) && order[|order| - 1].next == null
    requires p > 0 ==> order[p - 1].next == if p + 1 < |order| then order[p + 1] else null
    ensures Links(order[..p] + order[p + 1..], first)
  {
    var o := order[..p] + order[p + 1..];
    forall i, j | 0 <= i < j < |o| && j == i + 1
      ensures o[i].next == o[j] && o[j].prev == o[i]
    {
      if j < p {
        assert order[i].next == order[j];
      } else if i >= p {
        assert order[i + 1].next == order[j + 1];
      }
    }
  }

  lemma RemovedMembers(order: seq<Hook>, hook: Hook)
    requires Distinct(order) && hook in order
    ensures forall h :: h in Removed(order, hook) <==> h in order && h != hook
  {
    var p := Place(order, hook);
    assert order == order[..p] + [hook] + order[p + 1..];
  }

  lemma OneLess(order: seq<Hook>, info: map<nat, Info>, hook: Hook)
    requires Distinct(order) && hook in order
    requires forall h <- order :: h.name in info && (h == hook || (h.name != hook.name && info[h.name] == h.Description()))
    ensures Describes(Removed(order, hook), info - {hook.name})
  {
    RemovedMembers(order, hook);
  }

  lemma {:induction false} WithoutAt(names: seq<nat>, p: nat)
    requires Distinct(names) && p < |names|
    ensures Without(names, names[p]) == names[..p] + names[p + 1..]
    decreases |names|
  {
    var rest := names[1..];
    RestDistinct(names);
    if p > 0 {
      assert names[p] == rest[p - 1] && names[p] != names[0];
      WithoutAt(rest, p - 1);
      assert [names[0]] + (rest[..p - 1] + rest[p..]) == names[..p] + names[p + 1..];
    }
  }

  lemma RemovedNames(order: seq<Hook>, s: State<nat>, hook: Hook)
    requires Names(order, s.order) && Linked(s) && hook in order
    ensures Names(Removed(order, hook), Without(s.order, hook.name))
  {
    WithoutAt(s.order, Place(order, hook));
  }

  // The list with a hook spliced in is linked, if the hook and its neighbours are.
  lemma SplicedLinks(order: seq<Hook>, p: nat, hook: Hook, first: Hook?)
    requires p <= |order|
    requires forall i, j :: 0 <= i < j < |order| && j == i + 1 && j != p ==> order[i].next == order[j] && order[j].prev == order[i]
    requires if p == 0 then first == hook && hook.prev == null
             else order[p - 1].next == hook && hook.prev == order[p - 1] && first == order[0] && order[0].prev == null
    requires if p == |order| then hook.next == null
             else hook.next == order[p] && order[p].prev == hook && order[|order| - 1].next == null
    ensures Links(order[..p] + [hook] + order[p..], first)
  {
    var o := order[..p] + [hook] + order[p..];
    forall i, j | 0 <= i < j < |o| && j == i + 1
      ensures o[i].next == o[j] && o[j].prev == o[i]
    {
      if j < p {
        assert order[i].next == order[j];
      } else if i > p {
        assert order[i - 1].next == order[j - 1];
      }
    }
  }

  // The table describes the hooks when what it says of one is brought up to date,
  lemma OneChanged(order: seq<Hook>, info: map<nat, Info>, hook: Hook)
    requires forall h <- order :: h.name in info && (h == hook || (h.name != hook.name && info[h.name] == h.Description()))
    ensures Describes(order, info[hook.name := hook.Description()])
  {
  }

  // and when another is put in.
  lemma OneMore(order: seq<Hook>, info: map<nat, Info>, sibling: Hook?, hook: Hook)
    requires Describes(order, info) && hook.name !in info && (sibling != null ==> sibling in order)
    ensures Describes(Spliced(order, sibling, hook), info[hook.name := hook.Description()])
  {
    SplicedMembers(order, sibling, hook);
  }

  // the position of the sibling, or the end
  ghost function Place(order: seq<Hook>, sibling: Hook?): (p: nat)
    requires sibling != null ==> sibling in order
    ensures p <= |order| && (if sibling == null then p == |order| else p < |order| && order[p] == sibling)
  {
    if sibling == null then |order| else if order[0] == sibling then 0 else 1 + Place(order[1..], sibling)
  }

  ghost function Spliced(order: seq<Hook>, sibling: Hook?, hook: Hook): seq<Hook>
    requires sibling != null ==> sibling in order
  {
    order[..Place(order, sibling)] + [hook] + order[Place(order, sibling)..]
  }

  lemma {:induction false} InsertedAt(names: seq<nat>, p: nat, k: nat)
    requires Distinct(names) && p <= |names|
    ensures InsertedBefore(names, if p < |names| then Some(names[p]) else None, k) == names[..p] + [k] + names[p..]
    decreases |names|
  {
    if names != [] {
      var rest := names[1..];
      RestDistinct(names);
      if p == 0 {
        assert names[..0] + [k] + names[0..] == [k] + names;
      } else {
        if p < |names| { assert names[p] == rest[p - 1] && names[p] != names[0]; }
        InsertedAt(rest, p - 1, k);
        assert [names[0]] + (rest[..p - 1] + [k] + rest[p - 1..]) == names[..p] + [k] + names[p..];
      }
    }
  }

  lemma SplicedNames(order: seq<Hook>, s: State<nat>, sibling: Hook?, hook: Hook)
    requires Names(order, s.order) && Linked(s) && (sibling != null ==> sibling in order)
    ensures Names(Spliced(order, sibling, hook), Insert(s, if sibling == null then None else Some(sibling.name), hook.name).order)
  {
    InsertedAt(s.order, Place(order, sibling), hook.name);
  }

  lemma SplicedMembers(order: seq<Hook>, sibling: Hook?, hook: Hook)
    requires sibling != null ==> sibling in order
    ensures forall h :: h in Spliced(order, sibling, hook) <==> h in order || h == hook
  {
    var p := Place(order, sibling);
    assert order == order[..p] + order[p..];
  }

  lemma DistinctHooks(order: seq<Hook>, s: State<nat>)
    requires Names(order, s.order) && Linked(s)
    ensures Distinct(order)
  {
    forall i, j | 0 <= i < j < |order| ensures order[i] != order[j] {
      assert s.order[i] != s.order[j];
    }
  }

  // A name belongs to one hook.
  lemma Alone(order: seq<Hook>, s: State<nat>, hook: Hook)
    requires Names(order, s.order) && Linked(s) && hook in order
    ensures hook.name in s.info
    ensures forall h :: h in order && h.name == hook.name ==> h == hook
  {
    var p :| 0 <= p < |order| && order[p] == hook;
    forall h | h in order && h.name == hook.name ensures h == hook {
      var q :| 0 <= q < |order| && order[q] == h;
      assert s.order[p] == s.order[q];
    }
    assert s.order[p] in s.order;
  }
}
