// The scheduling of gmain.c: which sources one iteration of the main loop (g_main_iterate)
// queues, and what dispatching the queue (g_main_dispatch) does to the list of sources, which
// is a hook list.
//
// Preparing and checking a source is taken to leave the list alone, and their answers are
// part of the source.  The wait for file descriptors and the clock are not part of this model.
module MainLoop {
  import opened Collections
  import opened HookRuns

  // a valid source of the list
  datatype Source = Source(priority: int, ready: bool, inCall: bool, canRecurse: bool, prepares: bool, checks: bool)
  {
    predicate Eligible() { !inCall || canRecurse }

    // flagged as ready, or about to be
    predicate WillBeReady() { Eligible() && (ready || prepares || checks) }
  }

  // the order g_source_add keeps (HookRuns.InsertKeepsSorted)
  predicate ByPriority(sources: seq<Source>) {
    forall i, j :: 0 <= i < j < |sources| ==> sources[i].priority <= sources[j].priority
  }

  // the sources of one priority that will be ready, in order
  function ReadyAt(sources: seq<Source>, priority: int, n: nat): seq<nat>
    requires n <= |sources|
  {
    if n == 0 then []
    else ReadyAt(sources, priority, n - 1)
         + if sources[n - 1].WillBeReady() && sources[n - 1].priority == priority then [n - 1] else []
  }

  // the most urgent priority of a source that will be ready
  ghost predicate MostUrgent(sources: seq<Source>, priority: int) {
    && (exists i :: 0 <= i < |sources| && sources[i].WillBeReady() && sources[i].priority == priority)
    && (forall i :: 0 <= i < |sources| && sources[i].WillBeReady() ==> priority <= sources[i].priority)
  }

  // The loop that prepares the sources: those that are prepared and answer true are flagged.
  // It stops behind the priority of the first that is ready.
  method Prepare(sources: seq<Source>, dispatch: bool) returns (flagged: seq<Source>, pending: bool)
    requires ByPriority(sources)
    ensures |flagged| == |sources| && forall i :: 0 <= i < |sources| ==> Kept(sources[i], flagged[i], false)
    ensures pending ==> !dispatch && exists i :: 0 <= i < |sources| && sources[i].WillBeReady()
    ensures !pending ==> Prepared(sources, flagged)
    ensures !pending && !dispatch ==> forall i :: 0 <= i < |sources| ==> !(sources[i].Eligible() && (sources[i].ready || sources[i].prepares))
  {
    flagged := sources;
    pending := false;
    var nReady, currentPriority, i := 0, 0, 0;
    ghost var first := 0;
    while i < |sources|
      invariant 0 <= i <= |sources| && |flagged| == |sources|
      invariant forall k :: 0 <= k < i ==> flagged[k] == sources[k].(ready := sources[k].ready || (sources[k].Eligible() && sources[k].prepares))
      invariant forall k :: i <= k < |sources| ==> flagged[k] == sources[k]
      invariant nReady > 0 ==> first < i && flagged[first].Eligible() && flagged[first].ready && flagged[first].priority == currentPriority
      invariant nReady == 0 ==> forall k :: 0 <= k < i ==> !(flagged[k].Eligible() && flagged[k].ready)
      invariant nReady > 0 ==> dispatch
    {
      var source := flagged[i];
      if nReady > 0 && source.priority > currentPriority { break; }
      if source.inCall && !source.canRecurse {
        i := i + 1;
        continue;
      }
      if !source.ready && source.prepares {
        source := source.(ready := true);
        flagged := flagged[i := source];
      }
      if source.ready {
        if !dispatch { return flagged, true; }
        nReady := nReady + 1;
        currentPriority := source.priority;
        first := i;
      }
      i := i + 1;
    }
  }

  // What an iteration leaves of a source: one that is queued is not flagged any more; another
  // keeps its flag, or has got it because it is ready; nothing else changes.
  predicate Kept(source: Source, after: Source, queued: bool) {
    && after == source.(ready := after.ready)
    && (if queued then !after.ready
        else (source.ready ==> after.ready) && (after.ready ==> source.ready || source.WillBeReady()))
  }

  // What preparing leaves: a source that was not prepared is behind a ready one.
  ghost predicate Prepared(sources: seq<Source>, flagged: seq<Source>) {
    && |flagged| == |sources|
    && forall i :: 0 <= i < |sources| ==>
         || flagged[i] == sources[i].(ready := sources[i].ready || (sources[i].Eligible() && sources[i].prepares))
         || (flagged[i] == sources[i] && exists k :: 0 <= k < i && flagged[k].Eligible() && flagged[k].ready && flagged[k].priority < sources[i].priority)
  }

  // The sources that the loop comes to have been prepared.
  lemma PreparedHere(sources: seq<Source>, flagged: seq<Source>, i: nat, priority: int)
    requires ByPriority(sources) && Prepared(sources, flagged) && i < |sources|
    requires sources[i].priority <= priority
    requires forall k :: 0 <= k < i && sources[k].WillBeReady() ==> priority <= sources[k].priority
    ensures flagged[i] == sources[i].(ready := sources[i].ready || (sources[i].Eligible() && sources[i].prepares))
  {
    if exists k :: 0 <= k < i && flagged[k].Eligible() && flagged[k].ready && flagged[k].priority < sources[i].priority {
      var k :| 0 <= k < i && flagged[k].Eligible() && flagged[k].ready && flagged[k].priority < sources[i].priority;
      FlaggedIs(sources, flagged, k);
    }
  }

  lemma FlaggedIs(sources: seq<Source>, flagged: seq<Source>, k: nat)
    requires Prepared(sources, flagged) && k < |sources|
    ensures flagged[k].WillBeReady() == sources[k].WillBeReady() && flagged[k].priority == sources[k].priority
  {
  }

  lemma {:induction false} NoneReady(sources: seq<Source>, priority: int, m: nat, n: nat)
    requires m <= n <= |sources|
    requires forall k :: m <= k < n ==> !(sources[k].WillBeReady() && sources[k].priority == priority)
    ensures ReadyAt(sources, priority, n) == ReadyAt(sources, priority, m)
    decreases n
  {
    if m < n { NoneReady(sources, priority, m, n - 1); }
  }

  // the queue when the loop has come to source n
  ghost predicate Queued(sources: seq<Source>, queue: seq<nat>, priority: int, n: nat)
    requires n <= |sources|
  {
    if queue == [] then forall k :: 0 <= k < n ==> !sources[k].WillBeReady()
    else
      && queue == ReadyAt(sources, priority, n) && MostUrgent(sources, priority)
      && exists k :: 0 <= k < n && sources[k].priority == priority
  }

  lemma QueuedNext(sources: seq<Source>, queue: seq<nat>, priority: int, n: nat)
    requires ByPriority(sources) && n < |sources| && Queued(sources, queue, priority, n)
    requires queue != [] ==> sources[n].priority <= priority
    ensures !sources[n].WillBeReady() ==> Queued(sources, queue, priority, n + 1)
    ensures sources[n].WillBeReady() ==> Queued(sources, queue + [n], sources[n].priority, n + 1)
    ensures forall k :: 0 <= k < n && sources[k].WillBeReady() ==> sources[n].priority <= sources[k].priority
  {
    if sources[n].WillBeReady() && queue == [] {
      NoneReady(sources, sources[n].priority, 0, n);
    }
  }

  lemma QueuedAll(sources: seq<Source>, queue: seq<nat>, priority: int, n: nat)
    requires ByPriority(sources) && n < |sources| && Queued(sources, queue, priority, n)
    requires queue != [] && sources[n].priority > priority
    ensures Queued(sources, queue, priority, |sources|)
  {
    NoneReady(sources, priority, n, |sources|);
  }

  // The loop that checks them and queues those that are ready, up to the end of the most
  // urgent priority.
  method Check(sources: seq<Source>, flagged: seq<Source>, dispatch: bool) returns (after: seq<Source>, queue: seq<nat>, pending: bool)
    requires ByPriority(sources) && Prepared(sources, flagged)
    ensures |after| == |sources| && forall i :: 0 <= i < |sources| ==> Kept(sources[i], after[i], i in queue)
    ensures pending ==> !dispatch && exists i :: 0 <= i < |sources| && sources[i].WillBeReady()
    ensures pending ==> queue == []
    ensures !pending ==> exists p :: Queued(sources, queue, p, |sources|)
    ensures !pending && !dispatch ==> queue == []
    ensures forall i <- queue :: i < |sources| && !after[i].ready
  {
    hide Queued, Prepared, ByPriority;
    after, queue, pending := flagged, [], false;
    var currentPriority, i := 0, 0;
    assert Queued(sources, queue, currentPriority, 0) by { NothingQueued(sources, currentPriority); }
    SameLength(sources, flagged);
    while i < |sources|
      invariant 0 <= i <= |sources| && |after| == |sources|
      invariant forall k :: i <= k < |sources| ==> after[k] == flagged[k]
      invariant Queued(sources, queue, currentPriority, i)
      invariant queue != [] ==> dispatch
      invariant forall k <- queue :: k < i && !after[k].ready
      invariant forall k :: 0 <= k < |sources| ==> Kept(sources[k], after[k], k in queue)
    {
      var source := after[i];
      FlaggedIs(sources, flagged, i);
      if |queue| > 0 && source.priority > currentPriority {
        QueuedAll(sources, queue, currentPriority, i);
        return;
      }
      QueuedNext(sources, queue, currentPriority, i);
      PreparedHere(sources, flagged, i, source.priority);
      if source.inCall && !source.canRecurse {
        i := i + 1;
        continue;
      }
      if !source.ready && source.checks {
        source := source.(ready := true);
      }
      if source.ready {
        if !dispatch { return after, queue, true; }
        source := source.(ready := false);
        queue := queue + [i];
        currentPriority := source.priority;
      }
      after := after[i := source];
      i := i + 1;
    }
  }

  lemma NothingQueued(sources: seq<Source>, priority: int)
    ensures Queued(sources, [], priority, 0)
  {
  }

  lemma SameLength(sources: seq<Source>, flagged: seq<Source>)
    requires Prepared(sources, flagged)
    ensures |flagged| == |sources| && forall i :: 0 <= i < |sources| ==> Kept(sources[i], flagged[i], false)
  {
  }

  // g_main_iterate, when nothing is queued.  It dispatches, in order, exactly the sources of
  // the most urgent priority among those that are ready; asked whether anything is pending
  // (dispatch false) it answers whether any source is ready.
  method Iterate(sources: seq<Source>, dispatch: bool) returns (after: seq<Source>, queue: seq<nat>, result: bool)
    requires ByPriority(sources)
    ensures |after| == |sources| && forall i :: 0 <= i < |sources| ==> Kept(sources[i], after[i], i in queue)
    ensures !dispatch ==> queue == [] && (result <==> exists i :: 0 <= i < |sources| && sources[i].WillBeReady())
    ensures dispatch ==> (result <==> queue != [])
    ensures dispatch && queue == [] ==> forall i :: 0 <= i < |sources| ==> !sources[i].WillBeReady()
    ensures dispatch && queue != [] ==> exists p :: MostUrgent(sources, p) && queue == ReadyAt(sources, p, |sources|)
    ensures forall i <- queue :: i < |sources| && !after[i].ready
  {
    var flagged, pending := Prepare(sources, dispatch);
    if pending { return flagged, [], true; }
    after, queue, pending := Check(sources, flagged, dispatch);
    if pending { return after, [], true; }
    result := queue != [];
  }

  // ----- dispatching -----

  // the references that the queue holds
  function Queue<K(!new)>(queue: seq<K>): Env<K> { Env(multiset(queue), {}) }

  // A source's dispatch function: what it does to the sources, and whether it wants to stay.
  // It does not run the main loop itself.
  ghost function Dispatch<K(!new)>(s: State<K>, env: Env<K>, queue: seq<K>, calls: seq<Callback<K>>)
    : (r: (seq<K>, State<K>, Env<K>))
    requires Shared(s, env, Queue(queue))
    ensures Counted(r.1, r.2)
    decreases |queue|
  {
    if queue == [] then
      assert Both(env, Queue(queue)) == env;
      ([], s, env)
    else
      var k, rest := queue[0], queue[1..];
      QueueLinked(s, env, queue);
      if s.info[k].Valid() then
        var call := if calls == [] then Callback([], true) else calls[0];
        var (t, env') := DispatchOne(s, env, queue, call);
        var (dispatched, u, env'') := Dispatch(t, env', rest, if calls == [] then [] else calls[1..]);
        ([k] + dispatched, u, env'')
      else
        DropOne(s, env, queue);
        Dispatch(Unref(s, k), env, rest, calls)
  }

  lemma QueueLinked<K(!new)>(s: State<K>, env: Env<K>, queue: seq<K>)
    requires Shared(s, env, Queue(queue)) && queue != []
    ensures queue[0] in queue && queue[0] in s.info && s.info[queue[0]].refs > 0
  {
    hide Identified, Flagged, Distinct;
    HeldLinked(s, Both(env, Queue(queue)), queue[0]);
  }

  lemma Split<K(!new)>(queue: seq<K>)
    requires queue != []
    ensures multiset(queue) == multiset(queue[1..]) + multiset{queue[0]}
  {
    assert queue == [queue[0]] + queue[1..];
  }

  // the queue's reference to its first source goes
  lemma DropOne<K(!new)>(s: State<K>, env: Env<K>, queue: seq<K>)
    requires queue != [] && Shared(s, env, Queue(queue))
    ensures queue[0] in s.info && s.info[queue[0]].refs > 0
    ensures Shared(Unref(s, queue[0]), env, Queue(queue[1..]))
  {
    hide Linked, Referred, Identified, Flagged, Unref;
    var k, rest := queue[0], queue[1..];
    var all := Both(env, Queue(queue));
    Split(queue);
    UnrefCounts(s, all, k);
    assert Both(env, Queue(rest)) == all.(refs := all.refs - multiset{k});
  }

  // one round of g_main_dispatch
  ghost function DispatchOne<K(!new)>(s: State<K>, env: Env<K>, queue: seq<K>, call: Callback<K>): (r: (State<K>, Env<K>))
    requires queue != [] && Shared(s, env, Queue(queue)) && queue[0] in s.info && s.info[queue[0]].Valid()
    ensures Shared(r.0, r.1, Queue(queue[1..]))
  {
    var k, mine := queue[0], Queue(queue);
    BeginShared(s, env, mine, k);
    DoAllCounts(SetInCall(s, k, true), env, Calling(s, k, mine), call.ops);
    var (t, env') := DoAll(SetInCall(s, k, true), env, call.ops);
    EndShared(t, env', mine, k, s.info[k].inCall);
    var u := if s.info[k].inCall then t else SetInCall(t, k, false);
    DestroyShared(u, env', mine, k);
    var v := if !call.keep && u.info[k].Valid() then Destroy(u, k) else u;
    DropOne(v, env', queue);
    (Unref(v, k), env')
  }

  // so it is destroyed after a round if it is after the call
  lemma RoundKeepsDestroyed<K(!new)>(s: State<K>, env: Env<K>, queue: seq<K>, call: Callback<K>, k: K)
    requires queue != [] && Shared(s, env, Queue(queue)) && queue[0] in s.info && s.info[queue[0]].Valid()
    requires Destroyed(DoAll(SetInCall(s, queue[0], true), env, call.ops).0, k)
    ensures Destroyed(DispatchOne(s, env, queue, call).0, k)
  {
    hide Shared, Destroyed, DoAll, Destroy, Unref, SetInCall;
    var l, mine := queue[0], Queue(queue);
    BeginShared(s, env, mine, l);
    var s1 := SetInCall(s, l, true);
    DoAllCounts(s1, env, Calling(s, l, mine), call.ops);
    var (t, env') := DoAll(s1, env, call.ops);
    EndShared(t, env', mine, l, s.info[l].inCall);
    StepsKeepDestroyed(t, l, k);
    var u := if s.info[l].inCall then t else SetInCall(t, l, false);
    DestroyShared(u, env', mine, l);
    StepsKeepDestroyed(u, l, k);
    var v := if !call.keep && u.info[l].Valid() then Destroy(u, l) else u;
    DropOne(v, env', queue);
    StepsKeepDestroyed(v, l, k);
  }

  lemma OneKeepsDestroyed<K(!new)>(s: State<K>, env: Env<K>, queue: seq<K>, call: Callback<K>, k: K)
    requires queue != [] && Shared(s, env, Queue(queue)) && queue[0] in s.info && s.info[queue[0]].Valid()
    requires Destroyed(s, k)
    ensures Destroyed(DispatchOne(s, env, queue, call).0, k)
  {
    hide Shared, Destroyed, DoAll, SetInCall, DispatchOne;
    QueueLinked(s, env, queue);
    StepsKeepDestroyed(s, queue[0], k);
    DoAllKeepsDestroyed(SetInCall(s, queue[0], true), env, call.ops, k);
    RoundKeepsDestroyed(s, env, queue, call, k);
  }

  // A queued source that has been destroyed is not dispatched any more,
  lemma {:induction false} DestroyedNotDispatched<K(!new)>(s: State<K>, env: Env<K>, queue: seq<K>, calls: seq<Callback<K>>, k: K)
    requires Shared(s, env, Queue(queue)) && Destroyed(s, k)
    ensures k !in Dispatch(s, env, queue, calls).0 && Destroyed(Dispatch(s, env, queue, calls).1, k)
    decreases |queue|
  {
    hide Shared, DispatchOne, Unref;
    if queue != [] {
      var l, rest := queue[0], queue[1..];
      QueueLinked(s, env, queue);
      if s.info[l].Valid() {
        var call := if calls == [] then Callback([], true) else calls[0];
        OneKeepsDestroyed(s, env, queue, call, k);
        var (t, env') := DispatchOne(s, env, queue, call);
        DestroyedNotDispatched(t, env', rest, if calls == [] then [] else calls[1..], k);
      } else {
        DropOne(s, env, queue);
        StepsKeepDestroyed(s, l, k);
        DestroyedNotDispatched(Unref(s, l), env, rest, calls, k);
      }
    }
  }

  // and is freed, once, as soon as nobody holds it.
  lemma DestroyedIsFreed<K(!new)>(s: State<K>, env: Env<K>, queue: seq<K>, calls: seq<Callback<K>>, k: K)
    requires Shared(s, env, Queue(queue)) && Destroyed(s, k)
    ensures var (_, t, env') := Dispatch(s, env, queue, calls);
            && (k in t.freed <==> env'.refs[k] == 0)
            && (k in t.freed ==> multiset(t.freed)[k] == 1)
  {
    hide Dispatch;
    DestroyedNotDispatched(s, env, queue, calls, k);
    var (_, t, env') := Dispatch(s, env, queue, calls);
    if k in t.freed { OnceIn(t.freed, k); }
    if k in env'.refs { assert k in t.info; }
  }

  // ----- what a dispatch does -----

  // The sources dispatched: the queue, in order, without those that have been destroyed before
  // their turn, by another source's function or for what their own answered.
  function Turns<K(==, !new)>(queue: seq<K>, calls: seq<Callback<K>>, gone: set<K>): seq<K>
    decreases |queue|
  {
    if queue == [] then []
    else if queue[0] in gone then Turns(queue[1..], calls, gone)
    else [queue[0]] + Turns(queue[1..], Later(calls), GoneBy(queue[0], FirstCall(calls), gone))
  }

  // those that have been destroyed in the end
  function GoneAfter<K(==, !new)>(queue: seq<K>, calls: seq<Callback<K>>, gone: set<K>): set<K>
    decreases |queue|
  {
    if queue == [] then gone
    else if queue[0] in gone then GoneAfter(queue[1..], calls, gone)
    else GoneAfter(queue[1..], Later(calls), GoneBy(queue[0], FirstCall(calls), gone))
  }

  function GoneBy<K(==, !new)>(k: K, call: Callback<K>, gone: set<K>): set<K> {
    gone + DestroyedIn(call.ops) + if call.keep then {} else {k}
  }

  function FirstCall<K>(calls: seq<Callback<K>>): Callback<K> { if calls == [] then Callback([], true) else calls[0] }

  function Later<K>(calls: seq<Callback<K>>): seq<Callback<K>> { if calls == [] then [] else calls[1..] }

  // One round: a source whose function answers true is kept, and one whose function answers
  // false is destroyed.
  lemma RoundTells<K(!new)>(s: State<K>, env: Env<K>, queue: seq<K>, call: Callback<K>, gone: set<K>, known: map<K, Info>)
    requires queue != [] && Shared(s, env, Queue(queue)) && queue[0] in s.info && s.info[queue[0]].Valid()
    requires Tells(s, gone, known)
    ensures Tells(DispatchOne(s, env, queue, call).0, GoneBy(queue[0], call, gone), known)
  {
    hide Linked, Referred, Identified, Flagged, Tells, DoAll, Destroy, Unref, SetInCall;
    var k, mine := queue[0], Queue(queue);
    StepsTell(s, Both(env, mine), k, gone, known);
    BeginShared(s, env, mine, k);
    var s1 := SetInCall(s, k, true);
    DoAllCounts(s1, env, Calling(s, k, mine), call.ops);
    DoAllTells(s1, env, Calling(s, k, mine), call.ops, gone, known);
    var (t, env') := DoAll(s1, env, call.ops);
    var now := gone + DestroyedIn(call.ops);
    EndShared(t, env', mine, k, s.info[k].inCall);
    StepsTell(t, Both(env', Calling(s, k, mine)), k, now, known);
    var u := if s.info[k].inCall then t else SetInCall(t, k, false);
    DestroyShared(u, env', mine, k);
    StepsTell(u, Both(env', mine), k, now, known);
    var v := if !call.keep && u.info[k].Valid() then Destroy(u, k) else u;
    if !call.keep && !u.info[k].Valid() { GoneAlready(u, k, now, known); }
    assert now + {} == now;
    QueueLinked(v, env', queue);
    StepsTell(v, Both(env', mine), k, GoneBy(k, call, gone), known);
  }

  // what is linked and not valid has been destroyed
  lemma GoneAlready<K(!new)>(s: State<K>, k: K, gone: set<K>, known: map<K, Info>)
    requires Tells(s, gone, known) && k in s.info && !s.info[k].Valid()
    ensures Tells(s, gone + {k}, known)
  {
  }

  // A whole dispatch, of sources that are among those known.
  lemma {:induction false} DispatchTells<K(!new)>(s: State<K>, env: Env<K>, queue: seq<K>, calls: seq<Callback<K>>,
                                                  gone: set<K>, known: map<K, Info>)
    requires Shared(s, env, Queue(queue)) && Tells(s, gone, known) && forall k <- queue :: k in known
    ensures var (dispatched, t, _) := Dispatch(s, env, queue, calls);
            dispatched == Turns(queue, calls, gone) && Tells(t, GoneAfter(queue, calls, gone), known)
    decreases |queue|
  {
    hide Shared, Tells, DispatchOne, Unref, GoneBy;
    if queue != [] {
      var k, rest := queue[0], queue[1..];
      assert queue == [k] + rest;
      QueueLinked(s, env, queue);
      ValidTells(s, k, gone, known);
      if s.info[k].Valid() {
        var call := FirstCall(calls);
        RoundTells(s, env, queue, call, gone, known);
        var (t, env') := DispatchOne(s, env, queue, call);
        DispatchTells(t, env', rest, Later(calls), GoneBy(k, call, gone), known);
      } else {
        DropTells(s, env, queue, gone, known);
        DropOne(s, env, queue);
        DispatchTells(Unref(s, k), env, rest, calls, gone, known);
      }
    }
  }

  lemma ValidTells<K(!new)>(s: State<K>, k: K, gone: set<K>, known: map<K, Info>)
    requires Tells(s, gone, known) && k in s.info && k in known
    ensures s.info[k].Valid() <==> k !in gone
  {
  }

  lemma DropTells<K(!new)>(s: State<K>, env: Env<K>, queue: seq<K>, gone: set<K>, known: map<K, Info>)
    requires queue != [] && Shared(s, env, Queue(queue)) && Tells(s, gone, known)
    ensures queue[0] in s.info && s.info[queue[0]].refs > 0 && Tells(Unref(s, queue[0]), gone, known)
  {
    hide Linked, Referred, Identified, Flagged, Tells, Unref;
    QueueLinked(s, env, queue);
    StepsTell(s, Both(env, Queue(queue)), queue[0], gone, known);
  }

  // Queued sources that are all valid: those are dispatched, in order, that have not been
  // destroyed before their turn; a source, queued or not, that no function destroys and whose
  // own, if it is dispatched, answers true, is then valid and has its id; and every other one
  // has been destroyed.
  lemma DispatchGoes<K(!new)>(s: State<K>, env: Env<K>, queue: seq<K>, calls: seq<Callback<K>>)
    requires Shared(s, env, Queue(queue)) && forall k <- queue :: k in s.info && s.info[k].Valid()
    ensures var (dispatched, t, env') := Dispatch(s, env, queue, calls);
            && dispatched == Turns(queue, calls, {})
            && (forall k :: k in s.info && s.info[k].Valid() ==>
                  if k in GoneAfter(queue, calls, {}) then Destroyed(t, k)
                  else k in t.info && t.info[k].Valid() && t.info[k].id == s.info[k].id)
            && (forall k :: k in t.info ==> (t.info[k].inCall <==> k in env'.calls))
  {
    hide Dispatch, Turns, GoneAfter, Linked, Referred, Identified;
    var known := map k | k in s.info && s.info[k].Valid() :: s.info[k];
    DispatchTells(s, env, queue, calls, {}, known);
    var t := Dispatch(s, env, queue, calls).1;
    forall k | k in s.info && s.info[k].Valid()
      ensures if k in GoneAfter(queue, calls, {}) then Destroyed(t, k)
              else k in t.info && t.info[k].Valid() && t.info[k].id == s.info[k].id
    {
      assert k in known;
    }
  }

  // ----- destroyed by another source -----

  // What is held stays linked, so that a callback that destroys it does.
  lemma {:induction false} OpsDestroy<K(!new)>(s: State<K>, env: Env<K>, mine: Env<K>, ops: seq<Op<K>>, k: K)
    requires Shared(s, env, mine) && k in mine.refs && DestroyOp(k) in ops
    ensures Destroyed(DoAll(s, env, ops).0, k)
    decreases |ops|
  {
    hide Shared, Destroyed, Do, Linked, Referred, Identified, Flagged;
    var (t, env') := Do(s, env, ops[0]);
    if ops[0] == DestroyOp(k) {
      NowDestroyed(s, env, mine, k);
      DoAllKeepsDestroyed(t, env', ops[1..], k);
    } else {
      DoCounts(s, env, mine, ops[0]);
      OpsDestroy(t, env', mine, ops[1..], k);
    }
  }

  lemma NowDestroyed<K(!new)>(s: State<K>, env: Env<K>, mine: Env<K>, k: K)
    requires Shared(s, env, mine) && k in mine.refs
    ensures Destroyed(Do(s, env, DestroyOp(k)).0, k)
  {
    hide Linked, Referred, Identified, Flagged, Destroy;
    DestroyShared(s, env, mine, k);
    DestroyCounts(s, Both(env, mine), k);
  }

  lemma {:induction false} OnlyQueued<K(!new)>(s: State<K>, env: Env<K>, queue: seq<K>, calls: seq<Callback<K>>)
    requires Shared(s, env, Queue(queue))
    ensures forall k <- Dispatch(s, env, queue, calls).0 :: k in queue
    decreases |queue|
  {
    hide Shared, DispatchOne, Unref;
    if queue != [] {
      var l, rest := queue[0], queue[1..];
      assert queue == [l] + rest;
      QueueLinked(s, env, queue);
      if s.info[l].Valid() {
        var call := if calls == [] then Callback([], true) else calls[0];
        var (t, env') := DispatchOne(s, env, queue, call);
        OnlyQueued(t, env', rest, if calls == [] then [] else calls[1..]);
      } else {
        DropOne(s, env, queue);
        OnlyQueued(Unref(s, l), env, rest, calls);
      }
    }
  }

  // A source that is destroyed in the call of one that is dispatched before its turn is not
  // dispatched any more.
  lemma {:induction false} DestroyedBeforeTurn<K(!new)>(s: State<K>, env: Env<K>, queue: seq<K>, calls: seq<Callback<K>>, j: nat, k: K)
    requires Shared(s, env, Queue(queue)) && j < |Dispatch(s, env, queue, calls).0| && j < |calls| && DestroyOp(k) in calls[j].ops
    ensures k !in Dispatch(s, env, queue, calls).0[j + 1..]
    decreases |queue|
  {
    hide Shared, DispatchOne, Unref, Destroyed;
    var l, rest := queue[0], queue[1..];
    QueueLinked(s, env, queue);
    if s.info[l].Valid() {
      var (t, env') := DispatchOne(s, env, queue, calls[0]);
      var later := Dispatch(t, env', rest, calls[1..]).0;
      assert Dispatch(s, env, queue, calls).0 == [l] + later;
      if j > 0 {
        DestroyedBeforeTurn(t, env', rest, calls[1..], j - 1, k);
        assert ([l] + later)[j + 1..] == later[j..];
      } else {
        if k in rest {
          RoundDestroys(s, env, queue, calls[0], k);
          DestroyedNotDispatched(t, env', rest, calls[1..], k);
        } else {
          OnlyQueued(t, env', rest, calls[1..]);
        }
        assert ([l] + later)[1..] == later;
      }
    } else {
      DropOne(s, env, queue);
      DestroyedBeforeTurn(Unref(s, l), env, rest, calls, j, k);
    }
  }

  lemma RoundDestroys<K(!new)>(s: State<K>, env: Env<K>, queue: seq<K>, call: Callback<K>, k: K)
    requires queue != [] && Shared(s, env, Queue(queue)) && queue[0] in s.info && s.info[queue[0]].Valid()
    requires k in queue && DestroyOp(k) in call.ops
    ensures Destroyed(DispatchOne(s, env, queue, call).0, k)
  {
    hide Shared, Destroyed, DoAll, SetInCall, DispatchOne;
    var mine := Queue(queue);
    BeginShared(s, env, mine, queue[0]);
    OpsDestroy(SetInCall(s, queue[0], true), env, Calling(s, queue[0], mine), call.ops, k);
    RoundKeepsDestroyed(s, env, queue, call, k);
  }

  lemma {:induction false} OnceIn<K(!new)>(ks: seq<K>, k: K)
    requires Distinct(ks) && k in ks
    ensures multiset(ks)[k] == 1
  {
    RestDistinct(ks);
    assert ks == [ks[0]] + ks[1..];
    if ks[0] != k { OnceIn(ks[1..], k); } else { assert k !in multiset(ks[1..]); }
  }
}
