// The hook list of ghook.c as a value: a list of hooks with reference counts, traversed while
// the callbacks it makes insert hooks, destroy them and traverse the list themselves.  GHook
// has the linked hooks that the C code rewrites in place.
module HookRuns {
  import opened Collections

  // A hook that has been destroyed has the id 0.
  datatype Info = Info(id: nat, active: bool, inCall: bool, refs: nat)
  {
    // G_HOOK_IS_VALID
    predicate Valid() { id != 0 && active }
  }

  // the linked hooks in order, what is in them, and the hooks that have been freed
  datatype State<K> = State(order: seq<K>, info: map<K, Info>, seqId: nat, freed: seq<K>)

  // ----- the operations -----

  // before the sibling, or at the end
  function InsertedBefore<K(==, !new)>(order: seq<K>, sibling: Option<K>, k: K): seq<K> {
    if order == [] then [k]
    else if sibling == Some(order[0]) then [k] + order
    else [order[0]] + InsertedBefore(order[1..], sibling, k)
  }

  // g_hook_insert_before
  function Insert<K(==, !new)>(s: State<K>, sibling: Option<K>, k: K): State<K> {
    State(InsertedBefore(s.order, sibling, k), s.info[k := Info(s.seqId, true, false, 1)], s.seqId + 1, s.freed)
  }

  // g_hook_ref
  function Ref<K(==, !new)>(s: State<K>, k: K): State<K>
    requires k in s.info
  {
    s.(info := s.info[k := s.info[k].(refs := s.info[k].refs + 1)])
  }

  // g_hook_unref.  With the last reference the hook is unlinked and freed; but one that has not
  // been destroyed, or is in a call, stays linked without any.
  function Unref<K(==, !new)>(s: State<K>, k: K): State<K>
    requires k in s.info && s.info[k].refs > 0
  {
    var i := s.info[k];
    if i.refs > 1 || i.id != 0 || i.inCall then s.(info := s.info[k := i.(refs := i.refs - 1)])
    else State(Without(s.order, k), s.info - {k}, s.seqId, s.freed + [k])
  }

  // g_hook_destroy_link
  function Destroy<K(==, !new)>(s: State<K>, k: K): State<K>
    requires k in s.info && s.info[k].refs > 0
  {
    if s.info[k].id == 0 then s
    else Unref(s.(info := s.info[k := s.info[k].(id := 0, active := false)]), k)
  }

  function SetInCall<K(==, !new)>(s: State<K>, k: K, inCall: bool): State<K>
    requires k in s.info
  {
    s.(info := s.info[k := s.info[k].(inCall := inCall)])
  }

  // ----- what holds between operations -----

  // What some callers have: references to hooks, and calls, which are the hooks whose flag they
  // have set and will clear.
  datatype Env<K> = Env(refs: multiset<K>, calls: set<K>)

  function Both<K>(a: Env<K>, b: Env<K>): Env<K> { Env(a.refs + b.refs, a.calls + b.calls) }

  // A hook is linked while it has references: its own until it is destroyed, and those of its
  // holders.  Every hook that has been inserted is linked or freed, and freed once.  A hook is
  // in a call while one of its holders calls it.
  ghost predicate Counted<K(!new)>(s: State<K>, all: Env<K>) {
    Linked(s) && Referred(s, all.refs) && Identified(s) && Flagged(s, all.calls) && Holds(all)
  }

  ghost predicate Linked<K(!new)>(s: State<K>) {
    && Distinct(s.order) && (forall k <- s.order :: k in s.info) && (forall k <- s.info :: k in s.order)
    && Distinct(s.freed) && (forall k <- s.freed :: k !in s.info)
  }

  ghost predicate Referred<K(!new)>(s: State<K>, holders: multiset<K>) {
    && (forall k <- s.info :: s.info[k].refs > 0 && s.info[k].refs == (if s.info[k].id != 0 then 1 else 0) + holders[k])
    && (forall k <- holders :: k in s.info)
  }

  ghost predicate Identified<K(!new)>(s: State<K>) {
    && s.seqId > 0
    && (forall k <- s.info :: s.info[k].id < s.seqId)
    && (forall k <- s.info, l <- s.info :: s.info[k].id == s.info[l].id != 0 ==> k == l)
  }

  ghost predicate Flagged<K(!new)>(s: State<K>, calls: set<K>) {
    forall k <- s.info :: s.info[k].inCall <==> k in calls
  }

  // Who calls a hook holds it.
  ghost predicate Holds<K(!new)>(e: Env<K>) { forall k <- e.calls :: k in e.refs }

  // The same with a traversal or dispatch told apart (mine) from everybody else: nobody clears
  // a flag that another has set, or lets go of the reference for another's call.
  ghost predicate Shared<K(!new)>(s: State<K>, env: Env<K>, mine: Env<K>) {
    Counted(s, Both(env, mine)) && Holds(env) && Holds(mine) && env.calls !! mine.calls
  }

  lemma {:induction false} InsertedIs<K(!new)>(order: seq<K>, sibling: Option<K>, k: K)
    requires Distinct(order) && k !in order
    ensures Distinct(InsertedBefore(order, sibling, k))
    ensures forall l :: l in InsertedBefore(order, sibling, k) <==> l in order || l == k
  {
    if order != [] {
      var x, rest := order[0], order[1..];
      assert order == [x] + rest;
      RestDistinct(order);
      InsertedIs(rest, sibling, k);
      if sibling == Some(x) { ConsDistinct(k, order); } else { ConsDistinct(x, InsertedBefore(rest, sibling, k)); }
    }
  }

  lemma InsertKeepsLinked<K(!new)>(s: State<K>, sibling: Option<K>, k: K)
    requires Linked(s) && k !in s.info && k !in s.freed
    ensures Linked(Insert(s, sibling, k))
  {
    hide Distinct, InsertedBefore;
    InsertedIs(s.order, sibling, k);
    var t := Insert(s, sibling, k);
    forall l <- t.info ensures l in t.order { assert l in s.info || l == k; }
    forall l <- t.order ensures l in t.info { assert l in s.order || l == k; }
  }

  lemma InsertCounts<K(!new)>(s: State<K>, all: Env<K>, sibling: Option<K>, k: K)
    requires Counted(s, all) && k !in s.info && k !in s.freed
    ensures Counted(Insert(s, sibling, k), all)
  {
    hide Linked, InsertedBefore;
    InsertKeepsLinked(s, sibling, k);
    assert k !in all.refs && all.refs[k] == 0 && k !in all.calls;
  }

  lemma RefCounts<K(!new)>(s: State<K>, all: Env<K>, k: K)
    requires Counted(s, all) && k in s.info
    ensures Counted(Ref(s, k), all.(refs := all.refs + multiset{k}))
  {
    hide Linked, Identified;
    SameLinks(s, k, s.info[k].(refs := s.info[k].refs + 1));
  }

  // Taking a hook out of the list.
  lemma UnlinkKeeps<K(!new)>(s: State<K>, k: K)
    requires Linked(s) && k in s.info
    ensures Linked(State(Without(s.order, k), s.info - {k}, s.seqId, s.freed + [k]))
    ensures Identified(s) ==> Identified(State(Without(s.order, k), s.info - {k}, s.seqId, s.freed + [k]))
  {
    hide Distinct, Without;
    WithoutIs(s.order, k);
    SnocDistinct(s.freed, k);
    var t := State(Without(s.order, k), s.info - {k}, s.seqId, s.freed + [k]);
    forall l <- t.info ensures l in t.order { assert l in s.info; }
    forall l <- t.order ensures l in t.info { assert l in s.order; }
    forall l <- t.freed ensures l !in t.info { assert l in s.freed || l == k; }
  }

  // The holder's reference goes, and the hook with it if it was the last and the hook has
  // been destroyed.  The last reference is never that of a hook that is not destroyed, nor of
  // one in a call: the checks of g_hook_unref never find one.
  lemma UnrefCounts<K(!new)>(s: State<K>, all: Env<K>, k: K)
    requires Counted(s, all) && k in all.refs && (k in all.calls ==> all.refs[k] > 1)
    ensures k in s.info && s.info[k].refs > 0
    ensures s.info[k].refs == 1 ==> s.info[k].id == 0 && !s.info[k].inCall
    ensures Counted(Unref(s, k), all.(refs := all.refs - multiset{k}))
    ensures k in Unref(s, k).info <==> s.info[k].id != 0 || all.refs[k] > 1
    ensures k in Unref(s, k).freed <==> k !in Unref(s, k).info
  {
    hide Linked, Identified;
    if s.info[k].refs == 1 {
      UnlinkKeeps(s, k);
      UnlinkedOut(s, k);
    } else {
      SameLinks(s, k, s.info[k].(refs := s.info[k].refs - 1));
    }
  }

  lemma UnlinkedOut<K(!new)>(s: State<K>, k: K)
    requires Linked(s)
    ensures k in s.info ==> k !in s.freed
  {
  }

  lemma SameLinks<K(!new)>(s: State<K>, k: K, i: Info)
    requires Linked(s) && k in s.info && (i.id == 0 || i.id == s.info[k].id)
    ensures Linked(s.(info := s.info[k := i])) && k !in s.freed
    ensures Identified(s) ==> Identified(s.(info := s.info[k := i]))
  {
    hide Distinct;
  }

  lemma DestroyCounts<K(!new)>(s: State<K>, all: Env<K>, k: K)
    requires Counted(s, all) && k in s.info
    ensures s.info[k].refs > 0 && Counted(Destroy(s, k), all)
    ensures k in Destroy(s, k).info <==> all.refs[k] > 0
    ensures k in Destroy(s, k).info ==> Destroy(s, k).info[k].id == 0
  {
    PositiveRefs(s, all, k);
    hide Counted, Unref;
    if s.info[k].id != 0 {
      var t := s.(info := s.info[k := s.info[k].(id := 0, active := false)]);
      var more := all.(refs := all.refs + multiset{k});
      MarkCounts(s, all, k);
      assert all.refs + multiset{k} - multiset{k} == all.refs;
      UnrefCounts(t, more, k);
    }
  }

  lemma PositiveRefs<K(!new)>(s: State<K>, all: Env<K>, k: K)
    requires Counted(s, all) && k in s.info
    ensures s.info[k].refs > 0 && (s.info[k].id == 0 ==> all.refs[k] > 0)
  {
  }

  // Marking a hook as destroyed leaves its own reference to who does it.
  lemma MarkCounts<K(!new)>(s: State<K>, all: Env<K>, k: K)
    requires Counted(s, all) && k in s.info && s.info[k].id != 0
    ensures s.info[k].refs > 0
    ensures Counted(s.(info := s.info[k := s.info[k].(id := 0, active := false)]), all.(refs := all.refs + multiset{k}))
  {
    hide Linked, Identified;
    SameLinks(s, k, s.info[k].(id := 0, active := false));
  }

  lemma FlagCounts<K(!new)>(s: State<K>, all: Env<K>, k: K, inCall: bool)
    requires Counted(s, all) && k in s.info && k in all.refs
    ensures Counted(SetInCall(s, k, inCall), all.(calls := if inCall then all.calls + {k} else all.calls - {k}))
  {
    hide Linked, Identified;
    SameLinks(s, k, s.info[k].(inCall := inCall));
  }

  // ----- what callbacks do -----

  datatype Op<K> =
    | InsertOp(sibling: Option<K>, k: K)
    | DestroyOp(k: K)
    | RefOp(k: K)
    | UnrefOp(k: K)
    | FlagOp(k: K, inCall: bool)

  // What a callback can do, with the references and calls in env: it gives back only references
  // it has taken, and that of a hook it calls only after the call; it calls only hooks that it
  // holds; and it ends only calls it has begun.  A call of a hook that is in a call leaves the
  // flag to who has set it.
  ghost predicate Allowed<K(!new)>(s: State<K>, env: Env<K>, op: Op<K>) {
    match op
    case InsertOp(sibling, k) => k !in s.info && k !in s.freed && (sibling.Some? ==> sibling.value in s.info)
    case DestroyOp(k) => k in s.info && s.info[k].refs > 0
    case RefOp(k) => k in s.info
    case UnrefOp(k) => k in env.refs && (k in env.calls ==> env.refs[k] > 1) && k in s.info && s.info[k].refs > 0
    case FlagOp(k, inCall) => k in s.info && if inCall then k in env.refs && !s.info[k].inCall else k in env.calls
  }

  ghost function Do<K(!new)>(s: State<K>, env: Env<K>, op: Op<K>): (State<K>, Env<K>) {
    if !Allowed(s, env, op) then (s, env) else
    match op
    case InsertOp(sibling, k) => (Insert(s, sibling, k), env)
    case DestroyOp(k) => (Destroy(s, k), env)
    case RefOp(k) => (Ref(s, k), env.(refs := env.refs + multiset{k}))
    case UnrefOp(k) => (Unref(s, k), env.(refs := env.refs - multiset{k}))
    case FlagOp(k, inCall) => (SetInCall(s, k, inCall), env.(calls := if inCall then env.calls + {k} else env.calls - {k}))
  }

  ghost function DoAll<K(!new)>(s: State<K>, env: Env<K>, ops: seq<Op<K>>): (State<K>, Env<K>)
    decreases |ops|
  {
    if ops == [] then (s, env) else
    var (t, env') := Do(s, env, ops[0]);
    DoAll(t, env', ops[1..])
  }

  lemma DoCounts<K(!new)>(s: State<K>, env: Env<K>, mine: Env<K>, op: Op<K>)
    requires Shared(s, env, mine)
    ensures var (t, env') := Do(s, env, op); Shared(t, env', mine)
    ensures forall k :: k in s.freed ==> k in Do(s, env, op).0.freed
    ensures forall k :: k in s.info ==> k in Do(s, env, op).0.info || k in Do(s, env, op).0.freed
  {
    hide Linked, Referred, Identified, Insert, Destroy, Ref, Unref, SetInCall;
    var all := Both(env, mine);
    if Allowed(s, env, op) {
      match op
      case InsertOp(sibling, k) =>
        InsertCounts(s, all, sibling, k);
        InsertMoves(s, sibling, k);
      case DestroyOp(k) =>
        DestroyCounts(s, all, k);
        DestroyMoves(s, k);
      case RefOp(k) =>
        RefCounts(s, all, k);
        assert env.refs + multiset{k} + mine.refs == all.refs + multiset{k};
        FlagMoves(s, k);
      case UnrefOp(k) =>
        UnrefCounts(s, all, k);
        assert env.refs - multiset{k} + mine.refs == all.refs - multiset{k};
        UnrefMoves(s, k);
      case FlagOp(k, inCall) =>
        FlagShared(s, env, mine, k, inCall);
        FlagMoves(s, k);
    }
  }

  lemma FlagShared<K(!new)>(s: State<K>, env: Env<K>, mine: Env<K>, k: K, inCall: bool)
    requires Shared(s, env, mine) && k in s.info && k in env.refs
    requires if inCall then !s.info[k].inCall else k in env.calls
    ensures Shared(SetInCall(s, k, inCall), env.(calls := if inCall then env.calls + {k} else env.calls - {k}), mine)
  {
    hide Linked, Referred, Identified, SetInCall;
    var all := Both(env, mine);
    FlagCounts(s, all, k, inCall);
    assert (if inCall then env.calls + {k} else env.calls - {k}) + mine.calls
           == if inCall then all.calls + {k} else all.calls - {k};
  }

  // the hooks that are linked, and those freed, after an operation
  lemma InsertMoves<K(!new)>(s: State<K>, sibling: Option<K>, k: K)
    ensures Insert(s, sibling, k).freed == s.freed && Insert(s, sibling, k).info.Keys == s.info.Keys + {k}
  {
  }

  lemma UnrefMoves<K(!new)>(s: State<K>, k: K)
    requires k in s.info && s.info[k].refs > 0
    ensures var t := Unref(s, k);
            || (t.freed == s.freed && t.order == s.order && t.info.Keys == s.info.Keys)
            || (t.freed == s.freed + [k] && t.order == Without(s.order, k) && t.info.Keys == s.info.Keys - {k})
  {
  }

  lemma DestroyMoves<K(!new)>(s: State<K>, k: K)
    requires k in s.info && s.info[k].refs > 0
    ensures var t := Destroy(s, k);
            || (t.freed == s.freed && t.order == s.order && t.info.Keys == s.info.Keys)
            || (t.freed == s.freed + [k] && t.order == Without(s.order, k) && t.info.Keys == s.info.Keys - {k})
  {
  }

  lemma FlagMoves<K(!new)>(s: State<K>, k: K)
    requires k in s.info
    ensures Ref(s, k).freed == s.freed && Ref(s, k).order == s.order && Ref(s, k).info.Keys == s.info.Keys
    ensures forall b :: SetInCall(s, k, b).freed == s.freed && SetInCall(s, k, b).order == s.order
                        && SetInCall(s, k, b).info.Keys == s.info.Keys
  {
  }

  // Over every sequence of operations by everybody else the counts stay right, what is freed is
  // not freed again, and no hook is unlinked that somebody holds or calls.
  lemma {:induction false} DoAllCounts<K(!new)>(s: State<K>, env: Env<K>, mine: Env<K>, ops: seq<Op<K>>)
    requires Shared(s, env, mine)
    ensures var (t, env') := DoAll(s, env, ops); Shared(t, env', mine)
    ensures forall k :: k in s.freed ==> k in DoAll(s, env, ops).0.freed
    ensures forall k <- mine.refs :: k in DoAll(s, env, ops).0.info
    decreases |ops|
  {
    hide Shared, Do;
    if ops != [] {
      var (t, env') := Do(s, env, ops[0]);
      DoCounts(s, env, mine, ops[0]);
      DoAllCounts(t, env', mine, ops[1..]);
    } else {
      MineLinked(s, env, mine);
    }
  }

  lemma MineLinked<K(!new)>(s: State<K>, env: Env<K>, mine: Env<K>)
    requires Shared(s, env, mine)
    ensures forall k <- mine.refs :: k in s.info
  {
  }

  // ----- order -----

  // the hooks behind k
  function After<K(==)>(order: seq<K>, k: K): seq<K> {
    if order == [] then [] else if order[0] == k then order[1..] else After(order[1..], k)
  }

  lemma {:induction false} InsertKeepsOrder<K(!new)>(order: seq<K>, sibling: Option<K>, k: K, a: K, b: K)
    requires a in order && a != k && b != k
    ensures b in After(InsertedBefore(order, sibling, k), a) <==> b in After(order, a)
  {
    var x, rest := order[0], order[1..];
    assert order == [x] + rest;
    var r := InsertedBefore(order, sibling, k);
    if sibling == Some(x) {
      assert r[1..] == order;
    } else {
      assert r[1..] == InsertedBefore(rest, sibling, k);
      if x == a { InsertedMembers(rest, sibling, k); } else { InsertKeepsOrder(rest, sibling, k, a, b); }
    }
  }

  // A hook that is inserted is directly in front of its sibling, or last.
  lemma {:induction false} InsertedInFront<K(!new)>(order: seq<K>, sibling: Option<K>, k: K)
    requires k !in order && (sibling.Some? ==> sibling.value in order)
    ensures After(InsertedBefore(order, sibling, k), k)
            == if sibling.Some? then [sibling.value] + After(order, sibling.value) else []
  {
    if order != [] {
      var x, rest := order[0], order[1..];
      assert order == [x] + rest;
      var r := InsertedBefore(order, sibling, k);
      if sibling == Some(x) {
        assert r[1..] == order;
      } else {
        assert r[1..] == InsertedBefore(rest, sibling, k);
        InsertedInFront(rest, sibling, k);
      }
    }
  }

  lemma {:induction false} InsertedMembers<K(!new)>(order: seq<K>, sibling: Option<K>, k: K)
    ensures forall l :: l in InsertedBefore(order, sibling, k) <==> l in order || l == k
  {
    if order != [] {
      assert order == [order[0]] + order[1..];
      InsertedMembers(order[1..], sibling, k);
    }
  }

  lemma {:induction false} RemoveKeepsOrder<K(!new)>(order: seq<K>, k: K, a: K, b: K)
    requires Distinct(order) && a != k && b != k
    ensures b in After(Without(order, k), a) <==> b in After(order, a)
  {
    if order != [] {
      var x, rest := order[0], order[1..];
      RestDistinct(order);
      WithoutIs(rest, k);
      if x != k {
        assert Without(order, k)[1..] == Without(rest, k);
        if x != a { RemoveKeepsOrder(rest, k, a, b); }
      }
    }
  }

  // No operation changes the order of two hooks that stay.
  lemma DoKeepsOrder<K(!new)>(s: State<K>, env: Env<K>, op: Op<K>, a: K, b: K)
    requires Linked(s) && a in s.info && b in s.info
    requires a in Do(s, env, op).0.info && b in Do(s, env, op).0.info
    ensures b in After(Do(s, env, op).0.order, a) <==> b in After(s.order, a)
  {
    hide After, Without, Distinct;
    if Allowed(s, env, op) {
      match op
      case InsertOp(sibling, k) =>
        assert a in s.order;
        InsertKeepsOrder(s.order, sibling, k, a, b);
      case DestroyOp(k) =>
        DestroyMoves(s, k);
        if a != k && b != k { RemoveKeepsOrder(s.order, k, a, b); }
      case RefOp(k) =>
      case UnrefOp(k) =>
        UnrefMoves(s, k);
        if a != k && b != k { RemoveKeepsOrder(s.order, k, a, b); }
      case FlagOp(k, inCall) =>
    }
  }

  lemma {:induction false} DoAllKeepsOrder<K(!new)>(s: State<K>, env: Env<K>, mine: Env<K>, ops: seq<Op<K>>, a: K, b: K)
    requires Shared(s, env, mine) && a in s.info && b in s.info
    requires a in DoAll(s, env, ops).0.info && b in DoAll(s, env, ops).0.info
    ensures b in After(DoAll(s, env, ops).0.order, a) <==> b in After(s.order, a)
    decreases |ops|
  {
    hide After, Do, Linked, Referred, Identified;
    if ops != [] {
      var (t, env') := Do(s, env, ops[0]);
      DoCounts(s, env, mine, ops[0]);
      DoAllCounts(t, env', mine, ops[1..]);
      FreedNotLinked(DoAll(s, env, ops).0);
      DoKeepsOrder(s, env, ops[0], a, b);
      DoAllKeepsOrder(t, env', mine, ops[1..], a, b);
    }
  }

  lemma FreedNotLinked<K(!new)>(s: State<K>)
    requires Linked(s)
    ensures forall k :: k in s.freed ==> k !in s.info
  {
  }

  // ----- traversal -----

  predicate Eligible<K(==, !new)>(s: State<K>, k: K, mayBeInCall: bool) {
    k in s.info && s.info[k].Valid() && (mayBeInCall || !s.info[k].inCall)
  }

  function First<K(==, !new)>(s: State<K>, ks: seq<K>, mayBeInCall: bool): (r: Option<K>)
    ensures r.Some? ==> r.value in ks && Eligible(s, r.value, mayBeInCall)
  {
    if ks == [] then None
    else if Eligible(s, ks[0], mayBeInCall) then Some(ks[0])
    else First(s, ks[1..], mayBeInCall)
  }

  // g_hook_next_valid
  function Next<K(==, !new)>(s: State<K>, k: K, mayBeInCall: bool): (State<K>, Option<K>)
    requires k in s.info && s.info[k].refs > 0
  {
    var next := First(s, After(s.order, k), mayBeInCall);
    (Unref(if next.Some? then Ref(s, next.value) else s, k), next)
  }

  // A traversal is at a hook that it holds a reference to; env is what others have.
  datatype Visit<K> = Visit(s: State<K>, env: Env<K>, at: Option<K>)

  function One<K(!new)>(k: K): Env<K> { Env(multiset{k}, {}) }

  function Holding<K(!new)>(at: Option<K>): Env<K> {
    if at.Some? then One(at.value) else Env(multiset{}, {})
  }

  ghost predicate Going<K(!new)>(v: Visit<K>) { Shared(v.s, v.env, Holding(v.at)) }

  // Others call a hook only with a reference of their own.
  lemma OthersHold<K(!new)>(s: State<K>, env: Env<K>, k: K)
    requires Shared(s, env, One(k))
    ensures var all := Both(env, One(k)); k in all.refs && (k in all.calls ==> all.refs[k] > 1) && all.refs - multiset{k} == env.refs
  {
  }

  lemma NextCounts<K(!new)>(s: State<K>, env: Env<K>, k: K, mayBeInCall: bool)
    requires Shared(s, env, One(k))
    ensures k in s.info && s.info[k].refs > 0
    ensures var (t, next) := Next(s, k, mayBeInCall); Shared(t, env, Holding(next))
  {
    hide Linked, Referred, Identified, Flagged, First, After, Ref, Unref;
    var all := Both(env, One(k));
    OthersHold(s, env, k);
    UnrefCounts(s, all, k);
    assert Both(env, Env(multiset{}, {})) == Env(all.refs - multiset{k}, all.calls);
    var next := First(s, After(s.order, k), mayBeInCall);
    if next.Some? {
      var n := next.value;
      RefCounts(s, all, n);
      var more := all.(refs := all.refs + multiset{n});
      UnrefCounts(Ref(s, n), more, k);
      assert Both(env, One(n)) == Env(more.refs - multiset{k}, all.calls);
    }
  }

  // g_hook_first_valid
  function FirstValid<K(==, !new)>(s: State<K>, mayBeInCall: bool): (State<K>, Option<K>)
    requires Linked(s)
  {
    if s.order == [] then (s, None) else
    var k := s.order[0];
    assert k in s.order;
    if Eligible(s, k, mayBeInCall) then (Ref(s, k), Some(k)) else Next(Ref(s, k), k, mayBeInCall)
  }

  ghost function Start<K(!new)>(s: State<K>, env: Env<K>, mayBeInCall: bool): (v: Visit<K>)
    requires Counted(s, env)
    ensures Going(v)
  {
    assert env == Both(env, Env(multiset{}, {}));
    var (t, at) := FirstValid(s, mayBeInCall);
    assert s.order != [] ==> s.order[0] in s.order;
    if s.order == [] then Visit(t, env, at) else
    var k := s.order[0];
    RefCounts(s, env, k);
    assert Both(env, One(k)) == env.(refs := env.refs + multiset{k});
    NextCounts(Ref(s, k), env, k, mayBeInCall);
    Visit(t, env, at)
  }

  // What a hook's function does, and what it answers: the check variants of the traversal
  // destroy a hook that answers false.
  datatype Callback<K> = Callback(ops: seq<Op<K>>, keep: bool)

  // The flag is set, and cleared again by who has set it: with the flag the call is in mine.
  function Calling<K(!new)>(s: State<K>, k: K, mine: Env<K>): Env<K>
    requires k in s.info
  {
    if s.info[k].inCall then mine else mine.(calls := mine.calls + {k})
  }

  lemma BeginShared<K(!new)>(s: State<K>, env: Env<K>, mine: Env<K>, k: K)
    requires Shared(s, env, mine) && mine.calls == {} && k in mine.refs
    ensures k in s.info && s.info[k].refs > 0 && Shared(SetInCall(s, k, true), env, Calling(s, k, mine))
  {
    hide Linked, Referred, Identified, SetInCall;
    var all := Both(env, mine);
    HeldLinked(s, all, k);
    FlagCounts(s, all, k, true);
    assert Both(env, Calling(s, k, mine)) == all.(calls := all.calls + {k});
  }

  lemma EndShared<K(!new)>(s: State<K>, env: Env<K>, mine: Env<K>, k: K, wasInCall: bool)
    requires Shared(s, env, if wasInCall then mine else mine.(calls := mine.calls + {k})) && mine.calls == {} && k in mine.refs
    ensures k in s.info && s.info[k].refs > 0 && Shared(if wasInCall then s else SetInCall(s, k, false), env, mine)
  {
    hide Linked, Referred, Identified, SetInCall;
    var all := Both(env, mine.(calls := {k}));
    HeldLinked(s, all, k);
    if !wasInCall {
      FlagCounts(s, all, k, false);
      assert all.calls - {k} == env.calls;
      assert Both(env, mine) == all.(calls := all.calls - {k});
    }
  }

  lemma DestroyShared<K(!new)>(s: State<K>, env: Env<K>, mine: Env<K>, k: K)
    requires Shared(s, env, mine) && k in mine.refs
    ensures k in s.info && s.info[k].refs > 0 && Shared(Destroy(s, k), env, mine)
  {
    hide Linked, Referred, Identified, Flagged, Destroy;
    HeldLinked(s, Both(env, mine), k);
    DestroyCounts(s, Both(env, mine), k);
  }

  // the call of one hook
  ghost function Called<K(!new)>(v: Visit<K>, cb: Callback<K>): (r: (State<K>, Env<K>))
    requires Going(v) && v.at.Some?
    ensures Shared(r.0, r.1, One(v.at.value))
  {
    var k := v.at.value;
    BeginShared(v.s, v.env, One(k), k);
    var s := SetInCall(v.s, k, true);
    DoAllCounts(s, v.env, Calling(v.s, k, One(k)), cb.ops);
    var (t, env) := DoAll(s, v.env, cb.ops);
    EndShared(t, env, One(k), k, v.s.info[k].inCall);
    var u := if v.s.info[k].inCall then t else SetInCall(t, k, false);
    DestroyShared(u, env, One(k), k);
    (if cb.keep then u else Destroy(u, k), env)
  }

  lemma HeldLinked<K(!new)>(s: State<K>, all: Env<K>, k: K)
    requires Linked(s) && Referred(s, all.refs) && k in all.refs
    ensures k in s.info && s.info[k].refs > 0
  {
  }

  // one round of g_hook_list_invoke and its relatives
  ghost function CallOne<K(!new)>(v: Visit<K>, mayBeInCall: bool, cb: Callback<K>): (r: Visit<K>)
    requires Going(v) && v.at.Some?
    ensures Going(r)
  {
    var (t, env) := Called(v, cb);
    NextCounts(t, env, v.at.value, mayBeInCall);
    var (u, next) := Next(t, v.at.value, mayBeInCall);
    Visit(u, env, next)
  }

  // The hooks called while there are callbacks, and where the traversal is then; it is over
  // when it is at no hook.
  ghost function Run<K(!new)>(v: Visit<K>, mayBeInCall: bool, cbs: seq<Callback<K>>): (r: (seq<K>, Visit<K>))
    requires Going(v)
    ensures Going(r.1)
    decreases |cbs|
  {
    if cbs == [] || v.at.None? then ([], v) else
    var (called, w) := Run(CallOne(v, mayBeInCall, cbs[0]), mayBeInCall, cbs[1..]);
    ([v.at.value] + called, w)
  }

  // The hook can be called whenever the traversal looks for the next one.
  ghost predicate Stays<K(!new)>(v: Visit<K>, mayBeInCall: bool, cbs: seq<Callback<K>>, h: K)
    requires Going(v)
    decreases |cbs|
  {
    cbs == [] || v.at.None? ||
    (Eligible(Called(v, cbs[0]).0, h, mayBeInCall) && Stays(CallOne(v, mayBeInCall, cbs[0]), mayBeInCall, cbs[1..], h))
  }

  // ----- every hook that stays is called once, in order -----

  // whether the traversal is at h or will still come to it
  ghost predicate Ahead<K(!new)>(v: Visit<K>, h: K) {
    v.at.Some? && (h == v.at.value || h in After(v.s.order, v.at.value))
  }

  lemma {:induction false} FirstPasses<K(!new)>(s: State<K>, ks: seq<K>, mayBeInCall: bool, h: K)
    requires Distinct(ks) && Eligible(s, h, mayBeInCall)
    ensures var r := First(s, ks, mayBeInCall);
            h in ks <==> r.Some? && (h == r.value || h in After(ks, r.value))
  {
    if ks != [] {
      RestDistinct(ks);
      assert ks == [ks[0]] + ks[1..];
      if !Eligible(s, ks[0], mayBeInCall) { FirstPasses(s, ks[1..], mayBeInCall, h); }
    }
  }

  lemma {:induction false} AfterAfter<K(!new)>(order: seq<K>, k: K, n: K)
    requires Distinct(order) && n in After(order, k)
    ensures After(After(order, k), n) == After(order, n) && Distinct(After(order, k)) && n != k
  {
    if order != [] {
      RestDistinct(order);
      assert order == [order[0]] + order[1..];
      if order[0] != k {
        AfterMembers(order[1..], k);
        AfterAfter(order[1..], k, n);
      }
    }
  }

  lemma {:induction false} AfterMembers<K(!new)>(order: seq<K>, k: K)
    ensures forall l :: l in After(order, k) ==> l in order
  {
    if order != [] {
      assert order == [order[0]] + order[1..];
      AfterMembers(order[1..], k);
    }
  }

  lemma {:induction false} AfterDistinct<K(!new)>(order: seq<K>, k: K)
    requires Distinct(order)
    ensures Distinct(After(order, k)) && k !in After(order, k)
  {
    if order != [] {
      RestDistinct(order);
      if order[0] != k { AfterDistinct(order[1..], k); }
    }
  }

  // Looking for the next hook passes over no hook that can be called.
  lemma NextPasses<K(!new)>(s: State<K>, env: Env<K>, k: K, mayBeInCall: bool, h: K)
    requires Shared(s, env, One(k)) && k in s.info && s.info[k].refs > 0 && Eligible(s, h, mayBeInCall)
    ensures var (t, next) := Next(s, k, mayBeInCall); h in After(s.order, k) <==> Ahead(Visit(t, env, next), h)
  {
    hide Referred, Identified, Ref, Unref, Distinct;
    AfterDistinct(s.order, k);
    FirstPasses(s, After(s.order, k), mayBeInCall, h);
    var next := First(s, After(s.order, k), mayBeInCall);
    if next.Some? {
      var n := next.value;
      AfterAfter(s.order, k, n);
      NextKeepsOrder(s, k, n, h);
    }
  }

  lemma NextKeepsOrder<K(!new)>(s: State<K>, k: K, n: K, h: K)
    requires Linked(s) && k in s.info && s.info[k].refs > 0 && n in s.info && n != k && n in After(s.order, k)
    ensures h in After(Unref(Ref(s, n), k).order, n) <==> h in After(s.order, n)
  {
    hide After, Without, Distinct;
    FlagMoves(s, n);
    UnrefMoves(Ref(s, n), k);
    if h != k {
      RemoveKeepsOrder(s.order, k, n, h);
    } else {
      NotBehind(s.order, k, n);
      WithoutIs(s.order, k);
      AfterMembers(Without(s.order, k), n);
    }
  }

  lemma {:induction false} NotBehind<K(!new)>(order: seq<K>, k: K, n: K)
    requires Distinct(order) && n in After(order, k)
    ensures k !in After(order, n)
  {
    RestDistinct(order);
    assert order == [order[0]] + order[1..];
    if order[0] == k {
      AfterMembers(order[1..], n);
      AfterMembers(order, n);
    } else {
      AfterMembers(order[1..], k);
      NotBehind(order[1..], k, n);
    }
  }

  function Occurs<K(==)>(ks: seq<K>, h: K): nat {
    if ks == [] then 0 else (if ks[0] == h then 1 else 0) + Occurs(ks[1..], h)
  }

  ghost function Left<K(!new)>(v: Visit<K>, h: K): nat { if Ahead(v, h) then 1 else 0 }

  // A call does not change the order of two hooks that stay, nor does looking for the next.
  lemma CalledKeepsOrder<K(!new)>(v: Visit<K>, cb: Callback<K>, a: K, b: K)
    requires Going(v) && v.at.Some? && a in v.s.info && b in v.s.info
    requires a in Called(v, cb).0.info && b in Called(v, cb).0.info
    ensures b in After(Called(v, cb).0.order, a) <==> b in After(v.s.order, a)
  {
    hide Shared, DoAll, After, Distinct, Destroy, SetInCall;
    var k := v.at.value;
    BeginShared(v.s, v.env, One(k), k);
    FlagMoves(v.s, k);
    var s1, mine := SetInCall(v.s, k, true), Calling(v.s, k, One(k));
    DoAllCounts(s1, v.env, mine, cb.ops);
    var (t, env) := DoAll(s1, v.env, cb.ops);
    EndShared(t, env, One(k), k, v.s.info[k].inCall);
    FlagMoves(t, k);
    var u := if v.s.info[k].inCall then t else SetInCall(t, k, false);
    DestroyShared(u, env, One(k), k);
    DestroyMoves(u, k);
    OwnLinked(Called(v, cb).0, env, k);
    OwnLinked(u, env, k);
    assert u.order == t.order && Called(v, cb).0.order == t.order by { WithoutIs(u.order, k); }
    DoAllKeepsOrder(s1, v.env, mine, cb.ops, a, b);
  }

  // a traversal's hook is linked
  lemma OwnLinked<K(!new)>(s: State<K>, env: Env<K>, k: K)
    requires Shared(s, env, One(k))
    ensures k in s.info && s.info[k].refs > 0 && Distinct(s.order) && Linked(s)
  {
    hide Identified, Flagged, Distinct;
    HeldLinked(s, Both(env, One(k)), k);
  }

  lemma NextKeepsOthers<K(!new)>(s: State<K>, env: Env<K>, k: K, mayBeInCall: bool, a: K, b: K)
    requires Shared(s, env, One(k)) && k in s.info && s.info[k].refs > 0 && a in s.info && b in s.info && a != k && b != k
    ensures b in After(Next(s, k, mayBeInCall).0.order, a) <==> b in After(s.order, a)
  {
    hide First, After, Without, Distinct, Referred, Identified;
    var next := First(s, After(s.order, k), mayBeInCall);
    if next.Some? { FlagMoves(s, next.value); }
    UnrefMoves(if next.Some? then Ref(s, next.value) else s, k);
    RemoveKeepsOrder(s.order, k, a, b);
  }

  lemma StepLeaves<K(!new)>(v: Visit<K>, mayBeInCall: bool, cb: Callback<K>, h: K)
    requires Going(v) && v.at.Some? && h in v.s.info && Eligible(Called(v, cb).0, h, mayBeInCall)
    ensures Left(v, h) == (if v.at.value == h then 1 else 0) + Left(CallOne(v, mayBeInCall, cb), h)
    ensures h in CallOne(v, mayBeInCall, cb).s.info
  {
    hide Counted, After, Called, Next;
    var k := v.at.value;
    var (t, env) := Called(v, cb);
    OwnLinked(v.s, v.env, k);
    OwnLinked(t, env, k);
    CalledKeepsOrder(v, cb, k, h);
    NextPasses(t, env, k, mayBeInCall, h);
    assert k !in After(v.s.order, k) by { AfterDistinct(v.s.order, k); }
    NextKeeps(t, env, k, mayBeInCall, h);
  }

  // a hook that has not been destroyed stays linked
  lemma NextKeeps<K(!new)>(s: State<K>, env: Env<K>, k: K, mayBeInCall: bool, h: K)
    requires Shared(s, env, One(k)) && k in s.info && s.info[k].refs > 0 && Eligible(s, h, mayBeInCall)
    ensures h in Next(s, k, mayBeInCall).0.info
  {
    hide First, After, Linked, Identified;
    OthersHold(s, env, k);
  }

  // Every hook that stays is called as often as the traversal passes it: once, and never if it
  // was behind it from the start.
  lemma {:induction false} CalledWhenPassed<K(!new)>(v: Visit<K>, mayBeInCall: bool, cbs: seq<Callback<K>>, h: K)
    requires Going(v) && h in v.s.info && Stays(v, mayBeInCall, cbs, h)
    ensures var (called, w) := Run(v, mayBeInCall, cbs); Occurs(called, h) + Left(w, h) == Left(v, h)
    decreases |cbs|
  {
    hide Going, Ahead, Eligible, CallOne, Called;
    if cbs != [] && v.at.Some? {
      var w := CallOne(v, mayBeInCall, cbs[0]);
      StepLeaves(v, mayBeInCall, cbs[0], h);
      CalledWhenPassed(w, mayBeInCall, cbs[1..], h);
      var called := Run(w, mayBeInCall, cbs[1..]).0;
      assert ([v.at.value] + called)[1..] == called;
    }
  }

  // g_hook_list_invoke calls every hook that stays exactly once, whatever the callbacks do to
  // the others.
  lemma InvokeCallsOnce<K(!new)>(s: State<K>, env: Env<K>, mayBeInCall: bool, cbs: seq<Callback<K>>, h: K)
    requires Counted(s, env) && Eligible(s, h, mayBeInCall)
    requires Stays(Start(s, env, mayBeInCall), mayBeInCall, cbs, h)
    requires Run(Start(s, env, mayBeInCall), mayBeInCall, cbs).1.at.None?
    ensures Occurs(Run(Start(s, env, mayBeInCall), mayBeInCall, cbs).0, h) == 1
  {
    hide Stays, Run, Going, Start;
    StartAhead(s, env, mayBeInCall, h);
    CalledWhenPassed(Start(s, env, mayBeInCall), mayBeInCall, cbs, h);
  }

  lemma StartAhead<K(!new)>(s: State<K>, env: Env<K>, mayBeInCall: bool, h: K)
    requires Counted(s, env) && Eligible(s, h, mayBeInCall)
    ensures Left(Start(s, env, mayBeInCall), h) == 1 && h in Start(s, env, mayBeInCall).s.info
  {
    hide Referred, Identified, Next, After, Distinct, Ref;
    assert h in s.order;
    var k := s.order[0];
    assert s.order == [k] + s.order[1..];
    assert k in s.order;
    RefCounts(s, env, k);
    assert Both(env, One(k)) == env.(refs := env.refs + multiset{k});
    RefEligible(s, k, h, mayBeInCall);
    FlagMoves(s, k);
    AfterHead(s.order);
    if !Eligible(s, k, mayBeInCall) {
      NextPasses(Ref(s, k), env, k, mayBeInCall, h);
      NextKeeps(Ref(s, k), env, k, mayBeInCall, h);
    }
  }

  lemma AfterHead<K(!new)>(order: seq<K>)
    requires order != []
    ensures After(order, order[0]) == order[1..]
  {
  }

  lemma RefEligible<K(!new)>(s: State<K>, k: K, h: K, mayBeInCall: bool)
    requires k in s.info
    ensures Eligible(Ref(s, k), h, mayBeInCall) == Eligible(s, h, mayBeInCall) && Ref(s, k).info[k].refs > 0
  {
  }

  // h is not called before the first call of g.
  predicate NotBefore<K(==)>(called: seq<K>, g: K, h: K) {
    called == [] || called[0] == g || (called[0] != h && NotBefore(called[1..], g, h))
  }

  // Hooks that stay are called in the order of the list.
  lemma {:induction false} CalledInOrder<K(!new)>(v: Visit<K>, mayBeInCall: bool, cbs: seq<Callback<K>>, g: K, h: K)
    requires Going(v) && g in v.s.info && h in v.s.info && h in After(v.s.order, g) && Ahead(v, g)
    requires Stays(v, mayBeInCall, cbs, g) && Stays(v, mayBeInCall, cbs, h)
    ensures NotBefore(Run(v, mayBeInCall, cbs).0, g, h)
    decreases |cbs|
  {
    hide Counted, After, Called, Next, Eligible;
    if cbs != [] && v.at.Some? && v.at.value != g {
      var k := v.at.value;
      OwnLinked(v.s, v.env, k);
      assert k != h by { if k == h { NotBehind(v.s.order, g, h); } }
      var (t, env) := Called(v, cbs[0]);
      StaysEligible(v, mayBeInCall, cbs, g);
      StaysEligible(v, mayBeInCall, cbs, h);
      StepLeaves(v, mayBeInCall, cbs[0], g);
      StepLeaves(v, mayBeInCall, cbs[0], h);
      OwnLinked(t, env, k);
      CalledKeepsOrder(v, cbs[0], g, h);
      NextKeepsOthers(t, env, k, mayBeInCall, g, h);
      var w := CallOne(v, mayBeInCall, cbs[0]);
      CalledInOrder(w, mayBeInCall, cbs[1..], g, h);
      assert ([k] + Run(w, mayBeInCall, cbs[1..]).0)[1..] == Run(w, mayBeInCall, cbs[1..]).0;
    }
  }

  lemma StaysEligible<K(!new)>(v: Visit<K>, mayBeInCall: bool, cbs: seq<Callback<K>>, h: K)
    requires Going(v) && Stays(v, mayBeInCall, cbs, h) && cbs != [] && v.at.Some?
    ensures Eligible(Called(v, cbs[0]).0, h, mayBeInCall) && h in Called(v, cbs[0]).0.info
    ensures Stays(CallOne(v, mayBeInCall, cbs[0]), mayBeInCall, cbs[1..], h)
  {
  }

  // ----- who is destroyed -----

  // A hook that has been destroyed stays destroyed.
  ghost predicate Destroyed<K(!new)>(s: State<K>, k: K) { if k in s.info then s.info[k].id == 0 else k in s.freed }

  lemma DoKeepsDestroyed<K(!new)>(s: State<K>, env: Env<K>, op: Op<K>, k: K)
    requires Destroyed(s, k)
    ensures Destroyed(Do(s, env, op).0, k)
  {
    hide InsertedBefore, Without;
  }

  lemma {:induction false} DoAllKeepsDestroyed<K(!new)>(s: State<K>, env: Env<K>, ops: seq<Op<K>>, k: K)
    requires Destroyed(s, k)
    ensures Destroyed(DoAll(s, env, ops).0, k)
    decreases |ops|
  {
    hide Do, Destroyed;
    if ops != [] {
      DoKeepsDestroyed(s, env, ops[0], k);
      DoAllKeepsDestroyed(Do(s, env, ops[0]).0, Do(s, env, ops[0]).1, ops[1..], k);
    }
  }

  lemma StepsKeepDestroyed<K(!new)>(s: State<K>, l: K, k: K)
    requires Destroyed(s, k) && l in s.info && s.info[l].refs > 0
    ensures Destroyed(Unref(s, l), k) && Destroyed(Destroy(s, l), k)
    ensures forall b :: Destroyed(SetInCall(s, l, b), k)
  {
    hide Without;
  }

  // the hooks that some operations destroy
  function DestroyedIn<K(==, !new)>(ops: seq<Op<K>>): set<K> { set op | op in ops && op.DestroyOp? :: op.k }

  // Of these hooks, as they were, the ones in gone have been destroyed and the others are what
  // they were.
  ghost predicate Tells<K(!new)>(s: State<K>, gone: set<K>, known: map<K, Info>) {
    forall k <- known :: if k in gone then Destroyed(s, k) else Stands(s, k, known[k])
  }

  ghost predicate Stands<K(!new)>(s: State<K>, k: K, was: Info) {
    k in s.info && s.info[k].Valid() && s.info[k].id == was.id
  }

  // An operation destroys the hook it is meant to destroy, and no other.
  lemma DoTells<K(!new)>(s: State<K>, env: Env<K>, mine: Env<K>, op: Op<K>, gone: set<K>, k: K, was: Info)
    requires Shared(s, env, mine) && (if k in gone then Destroyed(s, k) else Stands(s, k, was))
    ensures var t := Do(s, env, op).0;
            if k in gone + DestroyedIn([op]) then Destroyed(t, k) else Stands(t, k, was)
  {
    hide Linked, Referred, Identified, Flagged, Without, InsertedBefore;
    assert k in DestroyedIn([op]) <==> op == DestroyOp(k) by { assert op in [op]; }
    if k in gone {
      DoKeepsDestroyed(s, env, op, k);
    } else {
      PositiveRefs(s, Both(env, mine), k);
      if op == DestroyOp(k) {
        DestroyCounts(s, Both(env, mine), k);
      } else if op.UnrefOp? && op.k == k && Allowed(s, env, op) {
        UnrefCounts(s, Both(env, mine), k);
      }
    }
  }

  lemma {:induction false} DoAllTells<K(!new)>(s: State<K>, env: Env<K>, mine: Env<K>, ops: seq<Op<K>>, gone: set<K>, known: map<K, Info>)
    requires Shared(s, env, mine) && Tells(s, gone, known)
    ensures Tells(DoAll(s, env, ops).0, gone + DestroyedIn(ops), known)
    decreases |ops|
  {
    hide Shared, Do, Destroyed, Stands;
    if ops != [] {
      var (t, env') := Do(s, env, ops[0]);
      DoCounts(s, env, mine, ops[0]);
      var now := gone + DestroyedIn([ops[0]]);
      forall k <- known ensures if k in now then Destroyed(t, k) else Stands(t, k, known[k]) {
        DoTells(s, env, mine, ops[0], gone, k, known[k]);
      }
      DoAllTells(t, env', mine, ops[1..], now, known);
      DestroyedInRest(ops);
      assert gone + DestroyedIn(ops) == now + DestroyedIn(ops[1..]);
    } else {
      assert gone + DestroyedIn<K>([]) == gone;
    }
  }

  lemma DestroyedInRest<K(!new)>(ops: seq<Op<K>>)
    requires ops != []
    ensures DestroyedIn(ops) == DestroyedIn([ops[0]]) + DestroyedIn(ops[1..])
  {
    assert ops == [ops[0]] + ops[1..];
  }

  // Setting and clearing flags, and giving back a reference, destroys nothing; destroying does.
  lemma StepsTell<K(!new)>(s: State<K>, all: Env<K>, l: K, gone: set<K>, known: map<K, Info>)
    requires Counted(s, all) && l in s.info && Tells(s, gone, known)
    ensures s.info[l].refs > 0
    ensures forall b :: Tells(SetInCall(s, l, b), gone, known)
    ensures Tells(Destroy(s, l), gone + {l}, known)
    ensures l in all.refs && (l in all.calls ==> all.refs[l] > 1) ==> Tells(Unref(s, l), gone, known)
  {
    hide Linked, Referred, Identified, Flagged, Without;
    PositiveRefs(s, all, l);
    StepsKeep(s, all, l);
  }

  lemma StepsKeep<K(!new)>(s: State<K>, all: Env<K>, l: K)
    requires Counted(s, all) && l in s.info
    ensures s.info[l].refs > 0
    ensures forall k :: Destroyed(s, k) ==> Destroyed(Destroy(s, l), k) && Destroyed(Unref(s, l), k) && forall b :: Destroyed(SetInCall(s, l, b), k)
    ensures Destroyed(Destroy(s, l), l)
    ensures s.info[l].id != 0 && l in all.refs && (l in all.calls ==> all.refs[l] > 1) ==> l in Unref(s, l).info && Unref(s, l).info[l].id == s.info[l].id && Unref(s, l).info[l].active == s.info[l].active
  {
    hide Linked, Identified, Flagged, Without;
    PositiveRefs(s, all, l);
    DestroyCounts(s, all, l);
    if l in all.refs && (l in all.calls ==> all.refs[l] > 1) { UnrefCounts(s, all, l); }
    forall k | Destroyed(s, k)
      ensures Destroyed(Destroy(s, l), k) && Destroyed(Unref(s, l), k) && forall b :: Destroyed(SetInCall(s, l, b), k)
    {
      StepsKeepDestroyed(s, l, k);
    }
  }

  // A call destroys what its function destroys, and the hook called if that answers so: what
  // it answers true stays.
  lemma CalledTells<K(!new)>(v: Visit<K>, cb: Callback<K>, gone: set<K>, known: map<K, Info>)
    requires Going(v) && v.at.Some? && Tells(v.s, gone, known)
    ensures Tells(Called(v, cb).0, gone + DestroyedIn(cb.ops) + (if cb.keep then {} else {v.at.value}), known)
  {
    hide Linked, Referred, Identified, Flagged, Tells, DoAll, Destroy, SetInCall;
    var k := v.at.value;
    OwnLinked(v.s, v.env, k);
    StepsTell(v.s, Both(v.env, One(k)), k, gone, known);
    BeginShared(v.s, v.env, One(k), k);
    var s, mine := SetInCall(v.s, k, true), Calling(v.s, k, One(k));
    DoAllCounts(s, v.env, mine, cb.ops);
    DoAllTells(s, v.env, mine, cb.ops, gone, known);
    var (t, env) := DoAll(s, v.env, cb.ops);
    var now := gone + DestroyedIn(cb.ops);
    EndShared(t, env, One(k), k, v.s.info[k].inCall);
    StepsTell(t, Both(env, mine), k, now, known);
    var u := if v.s.info[k].inCall then t else SetInCall(t, k, false);
    DestroyShared(u, env, One(k), k);
    StepsTell(u, Both(env, One(k)), k, now, known);
    assert now + {} == now;
  }

  lemma NextTells<K(!new)>(s: State<K>, env: Env<K>, k: K, mayBeInCall: bool, gone: set<K>, known: map<K, Info>)
    requires Shared(s, env, One(k)) && k in s.info && s.info[k].refs > 0 && Tells(s, gone, known)
    ensures Tells(Next(s, k, mayBeInCall).0, gone, known)
  {
    hide Linked, Referred, Identified, Flagged, Tells, First, After, Ref, Unref;
    var all := Both(env, One(k));
    OthersHold(s, env, k);
    StepsTell(s, all, k, gone, known);
    var next := First(s, After(s.order, k), mayBeInCall);
    if next.Some? {
      RefCounts(s, all, next.value);
      RefTells(s, next.value, gone, known);
      FlagMoves(s, next.value);
      StepsTell(Ref(s, next.value), all.(refs := all.refs + multiset{next.value}), k, gone, known);
    }
  }

  lemma RefTells<K(!new)>(s: State<K>, n: K, gone: set<K>, known: map<K, Info>)
    requires n in s.info && Tells(s, gone, known)
    ensures Tells(Ref(s, n), gone, known)
  {
  }

  // the hooks that a traversal destroys: those that the functions called destroy, and those
  // whose function answers false
  function GoneInRun<K(==, !new)>(called: seq<K>, cbs: seq<Callback<K>>): set<K>
    requires |called| <= |cbs|
    decreases |called|
  {
    if called == [] then {}
    else DestroyedIn(cbs[0].ops) + (if cbs[0].keep then {} else {called[0]}) + GoneInRun(called[1..], cbs[1..])
  }

  // After a traversal exactly those have been destroyed; every other hook is what it was.
  lemma {:induction false} RunTells<K(!new)>(v: Visit<K>, mayBeInCall: bool, cbs: seq<Callback<K>>, gone: set<K>, known: map<K, Info>)
    requires Going(v) && Tells(v.s, gone, known)
    ensures var (called, w) := Run(v, mayBeInCall, cbs);
            |called| <= |cbs| && Tells(w.s, gone + GoneInRun(called, cbs), known)
    decreases |cbs|
  {
    hide Shared, Tells, Called, Next, DestroyedIn;
    if cbs != [] && v.at.Some? {
      var k := v.at.value;
      var (t, env) := Called(v, cbs[0]);
      var now := gone + DestroyedIn(cbs[0].ops) + (if cbs[0].keep then {} else {k});
      CalledTells(v, cbs[0], gone, known);
      OwnLinked(t, env, k);
      NextTells(t, env, k, mayBeInCall, now, known);
      var w := CallOne(v, mayBeInCall, cbs[0]);
      RunTells(w, mayBeInCall, cbs[1..], now, known);
      var rest := Run(w, mayBeInCall, cbs[1..]).0;
      assert ([k] + rest)[1..] == rest;
      assert gone + GoneInRun([k] + rest, cbs) == now + GoneInRun(rest, cbs[1..]);
    } else {
      assert gone + GoneInRun([], cbs) == gone;
    }
  }

  // Only hooks that can be called are: not one that has been destroyed, nor, unless that is
  // asked for, one that is in a call.
  lemma {:induction false} OnlyEligibleCalled<K(!new)>(v: Visit<K>, mayBeInCall: bool, cbs: seq<Callback<K>>, i: nat)
    requires Going(v) && (v.at.Some? ==> Eligible(v.s, v.at.value, mayBeInCall))
    requires i < |Run(v, mayBeInCall, cbs).0|
    ensures i < |cbs|
    ensures var w := Run(v, mayBeInCall, cbs[..i]).1;
            w.at == Some(Run(v, mayBeInCall, cbs).0[i]) && Eligible(w.s, w.at.value, mayBeInCall)
    decreases |cbs|
  {
    hide Shared, Called, Next, Eligible;
    assert cbs != [] && v.at.Some?;
    if i > 0 {
      var w := CallOne(v, mayBeInCall, cbs[0]);
      var (t, env) := Called(v, cbs[0]);
      OwnLinked(t, env, v.at.value);
      NextEligible(t, env, v.at.value, mayBeInCall);
      OnlyEligibleCalled(w, mayBeInCall, cbs[1..], i - 1);
      assert cbs[..i][1..] == cbs[1..][..i - 1] && cbs[..i][0] == cbs[0];
    }
  }

  // The first one it comes to can be called.
  lemma StartEligible<K(!new)>(s: State<K>, env: Env<K>, mayBeInCall: bool)
    requires Counted(s, env)
    ensures var v := Start(s, env, mayBeInCall); v.at.Some? ==> Eligible(v.s, v.at.value, mayBeInCall)
  {
    hide Referred, Identified, Flagged, Distinct, Next, Ref;
    if s.order != [] {
      var k := s.order[0];
      assert k in s.order;
      RefCounts(s, env, k);
      assert Both(env, One(k)) == env.(refs := env.refs + multiset{k});
      RefEligible(s, k, k, mayBeInCall);
      FlagMoves(s, k);
      NextEligible(Ref(s, k), env, k, mayBeInCall);
    }
  }

  lemma NextEligible<K(!new)>(s: State<K>, env: Env<K>, k: K, mayBeInCall: bool)
    requires Shared(s, env, One(k)) && k in s.info && s.info[k].refs > 0
    ensures var (t, next) := Next(s, k, mayBeInCall); next.Some? ==> Eligible(t, next.value, mayBeInCall)
  {
    hide Linked, Referred, Identified, Flagged, After;
    AfterDistinct(s.order, k) by { OwnLinked(s, env, k); }
  }

  // ----- sorted insertion -----

  // the hook that g_hook_insert_sorted puts k in front of: the first one not destroyed that
  // does not come before it
  function SortedSibling<K(==, !new)>(s: State<K>, ks: seq<K>, k: K, compare: (K, K) -> int): (r: Option<K>)
    ensures r.Some? ==> r.value in ks && r.value in s.info && s.info[r.value].id != 0 && compare(k, r.value) <= 0
  {
    if ks == [] then None
    else if ks[0] in s.info && s.info[ks[0]].id != 0 && compare(k, ks[0]) <= 0 then Some(ks[0])
    else SortedSibling(s, ks[1..], k, compare)
  }

  predicate Live<K(==, !new)>(s: State<K>, k: K) { k in s.info && s.info[k].id != 0 }

  // k has priority over l, or the same and is older
  predicate Precedes<K(==, !new)>(s: State<K>, k: K, l: K, priority: K -> int)
    requires k in s.info && l in s.info
  {
    priority(k) < priority(l) || (priority(k) == priority(l) && s.info[k].id < s.info[l].id)
  }

  // the hooks that have not been destroyed are in this order
  ghost predicate Sorted<K(!new)>(s: State<K>, ks: seq<K>, priority: K -> int) {
    forall i, j :: 0 <= i < j < |ks| && Live(s, ks[i]) && Live(s, ks[j]) ==> Precedes(s, ks[i], ks[j], priority)
  }

  lemma SortedCons<K(!new)>(s: State<K>, x: K, ks: seq<K>, priority: K -> int)
    requires Sorted(s, ks, priority)
    requires Live(s, x) ==> forall y <- ks :: Live(s, y) ==> Precedes(s, x, y, priority)
    ensures Sorted(s, [x] + ks, priority)
  {
    var r := [x] + ks;
    forall i, j | 0 <= i < j < |r| && Live(s, r[i]) && Live(s, r[j]) ensures Precedes(s, r[i], r[j], priority) {
      assert r[j] == ks[j - 1] && r[j] in ks;
      if i > 0 { assert r[i] == ks[i - 1]; }
    }
  }

  lemma SortedRest<K(!new)>(s: State<K>, ks: seq<K>, priority: K -> int)
    requires Sorted(s, ks, priority) && ks != []
    ensures Sorted(s, ks[1..], priority)
    ensures Live(s, ks[0]) ==> forall y <- ks[1..] :: Live(s, y) ==> Precedes(s, ks[0], y, priority)
  {
    var rest := ks[1..];
    forall y | y in rest && Live(s, ks[0]) && Live(s, y) ensures Precedes(s, ks[0], y, priority) {
      var j :| 0 <= j < |rest| && rest[j] == y;
      assert ks[j + 1] == y;
    }
    assert forall i :: 0 <= i < |rest| ==> rest[i] == ks[i + 1];
  }

  // g_source_compare answers -1 or 1.  Inserting with it keeps the sources sorted, whatever
  // destroyed sources are still linked between them.
  lemma InsertKeepsSorted<K(!new)>(s: State<K>, all: Env<K>, priority: K -> int, k: K, compare: (K, K) -> int)
    requires Counted(s, all) && k !in s.info && k !in s.freed && Sorted(s, s.order, priority)
    requires forall a, b :: compare(a, b) == if priority(a) < priority(b) then -1 else 1
    ensures var t := Insert(s, SortedSibling(s, s.order, k, compare), k); Sorted(t, t.order, priority)
  {
    hide Sorted, InsertedBefore, Distinct, SortedSibling;
    NewSorted(s, s.order, priority, k);
    var t := Insert(s, SortedSibling(s, s.order, k, compare), k);
    SameSorted(Insert(s, None, k), t, s.order, priority);
    SortedInserted(s, t, s.order, priority, k, compare);
  }

  lemma SameSorted<K(!new)>(s: State<K>, t: State<K>, ks: seq<K>, priority: K -> int)
    requires s.info == t.info && Sorted(s, ks, priority)
    ensures Sorted(t, ks, priority)
  {
    forall i, j | 0 <= i < j < |ks| && Live(t, ks[i]) && Live(t, ks[j]) ensures Precedes(t, ks[i], ks[j], priority) {
      assert Live(s, ks[i]) && Live(s, ks[j]);
    }
  }

  lemma NewSorted<K(!new)>(s: State<K>, ks: seq<K>, priority: K -> int, k: K)
    requires k !in s.info && Sorted(s, ks, priority) && k !in ks
    ensures Sorted(Insert(s, None, k), ks, priority)
  {
    var t := Insert(s, None, k);
    forall i, j | 0 <= i < j < |ks| && Live(t, ks[i]) && Live(t, ks[j]) ensures Precedes(t, ks[i], ks[j], priority) {
      assert Live(s, ks[i]) && Live(s, ks[j]);
    }
  }

  lemma {:induction false} SortedInserted<K(!new)>(s: State<K>, t: State<K>, ks: seq<K>, priority: K -> int, k: K, compare: (K, K) -> int)
    requires forall a, b :: compare(a, b) == if priority(a) < priority(b) then -1 else 1
    requires t.info == s.info[k := Info(s.seqId, true, false, 1)] && s.seqId > 0
    requires Distinct(ks) && k !in ks && Sorted(t, ks, priority) && forall l <- ks :: l in s.info && s.info[l].id < s.seqId
    ensures Sorted(t, InsertedBefore(ks, SortedSibling(s, ks, k, compare), k), priority)
  {
    hide Sorted, Precedes;
    if ks == [] {
      SortedCons(t, k, [], priority) by { assert Sorted<K>(t, [], priority) by { NoneSorted(t, priority); } }
      assert [k] + [] == [k];
    } else {
      var x, rest := ks[0], ks[1..];
      assert ks == [x] + rest;
      RestDistinct(ks);
      SortedRest(t, ks, priority);
      var sibling := SortedSibling(s, ks, k, compare);
      if sibling == Some(x) {
        forall y | y in ks && Live(t, y) ensures Precedes(t, k, y, priority) {
          BehindSibling(s, t, x, y, k, priority);
        }
        SortedCons(t, k, ks, priority);
      } else {
        SortedInserted(s, t, rest, priority, k, compare);
        InsertedMembers(rest, sibling, k);
        if Live(t, x) { FrontStays(s, t, x, k, priority); }
        SortedCons(t, x, InsertedBefore(rest, sibling, k), priority);
      }
    }
  }

  lemma NoneSorted<K(!new)>(s: State<K>, priority: K -> int)
    ensures Sorted(s, [], priority)
  {
  }

  lemma BehindSibling<K(!new)>(s: State<K>, t: State<K>, x: K, y: K, k: K, priority: K -> int)
    requires k in t.info && x in t.info && y in t.info && priority(k) < priority(x)
    requires y == x || Precedes(t, x, y, priority)
    ensures Precedes(t, k, y, priority)
  {
  }

  lemma FrontStays<K(!new)>(s: State<K>, t: State<K>, x: K, k: K, priority: K -> int)
    requires t.info == s.info[k := Info(s.seqId, true, false, 1)] && x in s.info && x != k && s.info[x].id < s.seqId
    requires priority(x) <= priority(k)
    ensures Precedes(t, x, k, priority)
  {
  }

  // No other operation takes a source out of order.
  lemma OthersKeepSorted<K(!new)>(s: State<K>, env: Env<K>, op: Op<K>, priority: K -> int)
    requires Linked(s) && Sorted(s, s.order, priority) && !op.InsertOp?
    ensures Sorted(Do(s, env, op).0, Do(s, env, op).0.order, priority)
  {
    hide Distinct, Sorted, Without;
    var t := Do(s, env, op).0;
    if Allowed(s, env, op) {
      if op.DestroyOp? {
        DestroyMoves(s, op.k);
      } else if op.UnrefOp? {
        UnrefMoves(s, op.k);
      } else {
        FlagMoves(s, op.k);
      }
      FewerLive(s, t, s.order, priority);
      SortedWithout(t, s.order, op.k, priority);
    }
  }

  lemma FewerLive<K(!new)>(s: State<K>, t: State<K>, ks: seq<K>, priority: K -> int)
    requires Sorted(s, ks, priority)
    requires forall k :: Live(t, k) ==> k in s.info && s.info[k].id == t.info[k].id
    ensures Sorted(t, ks, priority)
  {
    forall i, j | 0 <= i < j < |ks| && Live(t, ks[i]) && Live(t, ks[j]) ensures Precedes(t, ks[i], ks[j], priority) {
      assert Live(s, ks[i]) && Live(s, ks[j]);
    }
  }

  lemma {:induction false} SortedWithout<K(!new)>(s: State<K>, ks: seq<K>, k: K, priority: K -> int)
    requires Sorted(s, ks, priority)
    ensures Sorted(s, Without(ks, k), priority)
  {
    hide Sorted, Precedes;
    if ks != [] {
      SortedRest(s, ks, priority);
      if ks[0] != k {
        SortedWithout(s, ks[1..], k, priority);
        WithoutWithin(ks[1..], k);
        SortedCons(s, ks[0], Without(ks[1..], k), priority);
      }
    }
  }

  lemma {:induction false} WithoutWithin<K(!new)>(ks: seq<K>, k: K)
    ensures forall l :: l in Without(ks, k) ==> l in ks
  {
    if ks != [] {
      assert ks == [ks[0]] + ks[1..];
      WithoutWithin(ks[1..], k);
    }
  }
}
