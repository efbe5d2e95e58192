/**
 Any number of installers against one server, their calls interleaved in any order, with outsiders that
 may send any request in between.
 */
module InstallProtocol {
  import opened CrdGuarantees
  import opened CrdProcess
  import opened CrdStore

  datatype System = System(store: Store, pcs: seq<Pc>)

  datatype Event =
    | Installer(i: nat, gap: nat, delivery: Delivery)
    | Outsider(request: Request)

  predicate WellFormed(list: seq<Crd>, sys: System) {
    forall i | 0 <= i < |sys.pcs| :: InRange(list, sys.pcs[i])
  }

  /** The event is a call of an installer that is still running. */
  predicate Calls(sys: System, event: Event) {
    event.Installer? && event.i < |sys.pcs| && Running(sys.pcs[event.i])
  }

  function Step(list: seq<Crd>, sys: System, event: Event): (next: System)
    requires WellFormed(list, sys)
    ensures WellFormed(list, next) && |next.pcs| == |sys.pcs|
  {
    if Calls(sys, event) then
      var (store, pc) := Act(list, sys.store, sys.pcs[event.i], Turn([], event.gap, event.delivery));
      System(store, sys.pcs[event.i := pc])
    else if event.Outsider? then sys.(store := Serve(sys.store, event.request).store)
    else sys
  }

  function Run(list: seq<Crd>, sys: System, events: seq<Event>): (end: System)
    requires WellFormed(list, sys)
    ensures WellFormed(list, end) && |end.pcs| == |sys.pcs|
  {
    if events == [] then sys
    else Step(list, Run(list, sys, events[..|events| - 1]), events[|events| - 1])
  }

  predicate AllStopped(sys: System) {
    forall i | 0 <= i < |sys.pcs| :: !Running(sys.pcs[i])
  }

  ghost predicate Distinct(list: seq<Crd>) {
    forall j, k | 0 <= j < k < |list| :: list[j].name != list[k].name
  }

  // ---------- Somebody always gets through ----------

  /** Some installer has put CRD `k` in place and gone on. */
  ghost predicate Passed(list: seq<Crd>, sys: System, k: nat)
    requires WellFormed(list, sys)
  {
    exists i | 0 <= i < |sys.pcs| :: Installed(list, sys.pcs[i]) > k
  }

  /** Some installer was stopped by a lost call. */
  ghost predicate LostSomeone(sys: System) {
    exists i | 0 <= i < |sys.pcs| :: sys.pcs[i].Stopped? && sys.pcs[i].error.Other?
  }

  ghost predicate Overtaken(list: seq<Crd>, sys: System, k: nat)
    requires WellFormed(list, sys)
  {
    Passed(list, sys, k) || LostSomeone(sys)
  }

  /** What each installer may rely on: unless calls were lost, whoever fails was overtaken by one who succeeded. */
  ghost predicate Knows(list: seq<Crd>, sys: System, pc: Pc)
    requires WellFormed(list, sys) && InRange(list, pc)
  {
    match pc
    case Stopped(k, _) => Overtaken(list, sys, k)
    case AtGet(k) => list[k].name in sys.store.objects
    case AtUpdate(k, version) =>
      && list[k].name in sys.store.objects
      && (sys.store.objects[list[k].name].version == version || Overtaken(list, sys, k))
    case _ => true
  }

  ghost predicate InPlace(store: Store, crd: Crd) {
    crd.name in store.objects && store.objects[crd.name].spec == crd.spec
  }

  ghost predicate Invariant(list: seq<Crd>, sys: System) {
    && WellFormed(list, sys)
    && (forall i | 0 <= i < |sys.pcs| :: Knows(list, sys, sys.pcs[i]))
    && (forall k | 0 <= k < |list| && Passed(list, sys, k) :: InPlace(sys.store, list[k]))
  }

  /** Outsiders may read anything and write whatever is not a CRD of the list. */
  predicate Harmless(list: seq<Crd>, event: Event) {
    event.Outsider? ==> event.request.Get? || Target(event.request) !in Names(list)
  }

  lemma OvertakenStays(list: seq<Crd>, sys: System, event: Event, k: nat)
    requires WellFormed(list, sys) && Overtaken(list, sys, k)
    ensures Overtaken(list, Step(list, sys, event), k)
  {
    var next := Step(list, sys, event);
    if Passed(list, sys, k) {
      var i :| 0 <= i < |sys.pcs| && Installed(list, sys.pcs[i]) > k;
      assert Installed(list, next.pcs[i]) >= Installed(list, sys.pcs[i]);
    } else {
      var i :| 0 <= i < |sys.pcs| && sys.pcs[i].Stopped? && sys.pcs[i].error.Other?;
      assert next.pcs[i] == sys.pcs[i];
    }
  }

  /** A call leaves the store alone, or puts the caller's CRD in place and moves the caller on or is lost. */
  lemma CallEffect(list: seq<Crd>, sys: System, event: Event)
    requires WellFormed(list, sys) && Calls(sys, event)
    ensures var next, pc := Step(list, sys, event), sys.pcs[event.i];
            var put := Put(sys.store, list[pc.k], event.gap);
            && (next.store == sys.store || (next.store == put && Overtaken(list, next, pc.k)))
            && (Installed(list, next.pcs[event.i]) == pc.k
                || (Installed(list, next.pcs[event.i]) == pc.k + 1 && next.store == put))
  {
    var next, pc := Step(list, sys, event), sys.pcs[event.i];
    assert Replay(sys.store, []) == sys.store;
    if event.delivery.Lost? {
      assert next.pcs[event.i].error.Other?;
      assert LostSomeone(next);
    } else if next.store != sys.store {
      assert Installed(list, next.pcs[event.i]) > pc.k;
      assert Passed(list, next, pc.k);
    }
  }

  lemma PassedAreInPlace(list: seq<Crd>, sys: System, event: Event, k: nat)
    requires Distinct(list) && Invariant(list, sys) && Calls(sys, event)
    requires k < |list| && Passed(list, Step(list, sys, event), k)
    ensures InPlace(Step(list, sys, event).store, list[k])
  {
    var next := Step(list, sys, event);
    CallEffect(list, sys, event);
    var i :| 0 <= i < |next.pcs| && Installed(list, next.pcs[i]) > k;
    if i == event.i && !Passed(list, sys, k) {
      assert k == sys.pcs[i].k;
    } else {
      assert Installed(list, sys.pcs[i]) > k || Passed(list, sys, k);
    }
  }

  lemma KnowledgeStays(list: seq<Crd>, sys: System, event: Event, i: nat)
    requires Distinct(list) && Invariant(list, sys) && Calls(sys, event) && i < |sys.pcs|
    ensures Knows(list, Step(list, sys, event), Step(list, sys, event).pcs[i])
  {
    var next := Step(list, sys, event);
    var pc := next.pcs[i];
    CallEffect(list, sys, event);
    assert Knows(list, sys, sys.pcs[i]) && Knows(list, sys, sys.pcs[event.i]);
    if !pc.Completed? && Overtaken(list, sys, pc.k) {
      OvertakenStays(list, sys, event, pc.k);
    }
    if pc.Stopped? && pc.error.Other? {
      assert LostSomeone(next);
    }
  }

  lemma InvariantStep(list: seq<Crd>, sys: System, event: Event)
    requires Distinct(list) && Invariant(list, sys) && Harmless(list, event)
    ensures Invariant(list, Step(list, sys, event))
  {
    var next := Step(list, sys, event);
    if Calls(sys, event) {
      forall k | 0 <= k < |list| && Passed(list, next, k) {
        PassedAreInPlace(list, sys, event, k);
      }
      forall i | 0 <= i < |next.pcs| {
        KnowledgeStays(list, sys, event, i);
      }
    } else if event.Outsider? {
      OutsiderEffect(list, sys, event);
      forall i | 0 <= i < |next.pcs|
        ensures Knows(list, next, next.pcs[i])
      {
        assert Knows(list, sys, sys.pcs[i]);
      }
    }
  }

  lemma OutsiderEffect(list: seq<Crd>, sys: System, event: Event)
    requires WellFormed(list, sys) && event.Outsider? && Harmless(list, event)
    ensures var next := Step(list, sys, event);
            && next.pcs == sys.pcs
            && (forall crd <- list ::
                  && (crd.name in next.store.objects <==> crd.name in sys.store.objects)
                  && (crd.name in sys.store.objects ==>
                        next.store.objects[crd.name] == sys.store.objects[crd.name]))
  {
    forall crd <- list
      ensures crd.name in Names(list)
    {
      var k :| 0 <= k < |list| && list[k] == crd;
      assert Names(list)[k] == crd.name;
    }
  }

  lemma {:induction false} InvariantRun(list: seq<Crd>, sys: System, events: seq<Event>)
    requires Distinct(list) && Invariant(list, sys)
    requires forall event <- events :: Harmless(list, event)
    ensures Invariant(list, Run(list, sys, events))
  {
    if events != [] {
      InvariantRun(list, sys, events[..|events| - 1]);
      InvariantStep(list, Run(list, sys, events[..|events| - 1]), events[|events| - 1]);
    }
  }

  lemma {:induction false} SomebodyReaches(list: seq<Crd>, sys: System, k: nat)
    requires Invariant(list, sys) && AllStopped(sys) && sys.pcs != [] && k <= |list|
    ensures LostSomeone(sys) || exists i | 0 <= i < |sys.pcs| :: Installed(list, sys.pcs[i]) >= k
  {
    if k == 0 {
      assert Installed(list, sys.pcs[0]) >= 0;
    } else {
      SomebodyReaches(list, sys, k - 1);
      if !LostSomeone(sys) {
        var i :| 0 <= i < |sys.pcs| && Installed(list, sys.pcs[i]) >= k - 1;
        assert Knows(list, sys, sys.pcs[i]);
      }
    }
  }

  /** If every call of an installer is answered, nobody is stopped by a lost call. */
  lemma {:induction false} AnsweredLoseNobody(list: seq<Crd>, sys: System, events: seq<Event>)
    requires WellFormed(list, sys) && !LostSomeone(sys)
    requires forall event <- events :: event.Installer? ==> event.delivery.Answered?
    ensures !LostSomeone(Run(list, sys, events))
  {
    if events != [] {
      var front, event := events[..|events| - 1], events[|events| - 1];
      AnsweredLoseNobody(list, sys, front);
      var before := Run(list, sys, front);
      if Calls(before, event) {
        var pc := Step(list, before, event).pcs[event.i];
        assert event in events;
        assert !(pc.Stopped? && pc.error.Other?);
      }
    }
  }

  function Fresh(list: seq<Crd>, store: Store, n: nat): (sys: System)
    ensures WellFormed(list, sys)
  {
    System(store, seq(n, _ => Begin(list, 0)))
  }

  /**
   Any number of installers, any interleaving, any initial store, outsiders that leave the listed CRDs alone:
   when all installers have stopped, one of them has completed and every CRD is in place, or one of them was
   stopped by a lost call. If no call was lost, one has completed.
   */
  lemma SomeInstallerCompletes(list: seq<Crd>, store: Store, n: nat, events: seq<Event>)
    requires Distinct(list) && n > 0
    requires forall event <- events :: Harmless(list, event)
    requires AllStopped(Run(list, Fresh(list, store, n), events))
    ensures var end := Run(list, Fresh(list, store, n), events);
            && (Completed in end.pcs || LostSomeone(end))
            && (Completed in end.pcs ==> forall crd <- list :: InPlace(end.store, crd))
            && ((forall event <- events :: event.Installer? ==> event.delivery.Answered?) ==> Completed in end.pcs)
  {
    var start := Fresh(list, store, n);
    var end := Run(list, start, events);
    assert Invariant(list, start);
    InvariantRun(list, start, events);
    SomebodyReaches(list, end, |list|);
    if !LostSomeone(end) {
      var i :| 0 <= i < |end.pcs| && Installed(list, end.pcs[i]) >= |list|;
      assert end.pcs[i] == Completed;
    }
    if Completed in end.pcs {
      CompletedMeansInPlace(list, end);
    }
    if forall event <- events :: event.Installer? ==> event.delivery.Answered? {
      AnsweredLoseNobody(list, start, events);
    }
  }

  lemma CompletedMeansInPlace(list: seq<Crd>, sys: System)
    requires Invariant(list, sys) && Completed in sys.pcs
    ensures forall crd <- list :: InPlace(sys.store, crd)
  {
    var i :| 0 <= i < |sys.pcs| && sys.pcs[i] == Completed;
    forall k | 0 <= k < |list|
      ensures InPlace(sys.store, list[k])
    {
      assert Installed(list, sys.pcs[i]) > k;
      assert Passed(list, sys, k);
    }
  }

  /** The same for the two CRDs the command embeds. */
  lemma EmbeddedInstallCompletes(obSpec: string, obcSpec: string, store: Store, n: nat, events: seq<Event>)
    requires n > 0
    requires forall event <- events :: event.Installer? && event.delivery.Answered?
    requires AllStopped(Run(Embedded(obSpec, obcSpec), Fresh(Embedded(obSpec, obcSpec), store, n), events))
    ensures var list := Embedded(obSpec, obcSpec);
            var end := Run(list, Fresh(list, store, n), events);
            && Completed in end.pcs
            && InPlace(end.store, Crd("objectbuckets.objectbucket.io", obSpec))
            && InPlace(end.store, Crd("objectbucketclaims.objectbucket.io", obcSpec))
  {
    var list := Embedded(obSpec, obcSpec);
    assert OB_CRD_NAME[12] != OBC_CRD_NAME[12];
    SomeInstallerCompletes(list, store, n, events);
    assert list[0] in list && list[1] in list;
  }

  /** Installers write the CRDs of the list and no other object. */
  lemma {:induction false} OthersKept(list: seq<Crd>, sys: System, events: seq<Event>)
    requires WellFormed(list, sys)
    requires forall event <- events :: event.Installer?
    ensures var end := Run(list, sys, events).store.objects;
            forall name | name !in Names(list) ::
              && (name in end <==> name in sys.store.objects)
              && (name in end ==> end[name] == sys.store.objects[name])
  {
    if events != [] {
      var front, event := events[..|events| - 1], events[|events| - 1];
      OthersKept(list, sys, front);
      var before := Run(list, sys, front);
      if Calls(before, event) {
        assert Names(list)[before.pcs[event.i].k] == list[before.pcs[event.i].k].name;
      }
    }
  }

  /**
   Why nobody may delete: with one delete between a Create and a Get, the only installer fails. For every run
   `SomebodyCompletesExactly` says who completes.
   */
  lemma ADeleteCanStopEveryone(crd: Crd, entry: Entry)
    ensures var store := Store(map[crd.name := entry], entry.version);
            var events := [Installer(0, 0, Answered), Outsider(Delete(crd.name)), Installer(0, 0, Answered)];
            var end := Run([crd], Fresh([crd], store, 1), events);
            && AllStopped(end) && end.pcs == [Stopped(0, NotFound)] && crd.name !in end.store.objects
  {
    var start := Fresh([crd], Store(map[crd.name := entry], entry.version), 1);
    var e1, e2 := Installer(0, 0, Answered), Outsider(Delete(crd.name));
    assert [e1, e2, e1][..2] == [e1, e2] && [e1, e2][..1] == [e1] && [e1][..0] == [];
    assert Run([crd], start, []) == start;
    assert Run([crd], start, [e1]) == Step([crd], start, e1);
    assert Run([crd], start, [e1, e2]) == Step([crd], Run([crd], start, [e1]), e2);
  }

  // ---------- Every run ends ----------

  function TotalWork(list: seq<Crd>, pcs: seq<Pc>): nat
    requires forall i | 0 <= i < |pcs| :: InRange(list, pcs[i])
  {
    if pcs == [] then 0 else Work(list, pcs[0]) + TotalWork(list, pcs[1..])
  }

  lemma {:induction false} TotalWorkUpdate(list: seq<Crd>, pcs: seq<Pc>, i: nat, pc: Pc)
    requires forall j | 0 <= j < |pcs| :: InRange(list, pcs[j])
    requires i < |pcs| && InRange(list, pc)
    ensures TotalWork(list, pcs[i := pc]) == TotalWork(list, pcs) - Work(list, pcs[i]) + Work(list, pc)
  {
    if i == 0 {
      assert pcs[i := pc][1..] == pcs[1..];
    } else {
      assert pcs[i := pc][1..] == pcs[1..][i - 1 := pc];
      TotalWorkUpdate(list, pcs[1..], i - 1, pc);
    }
  }

  /** How many events of the run are calls of an installer that is running at that moment. */
  function CallsMade(list: seq<Crd>, sys: System, events: seq<Event>): nat
    requires WellFormed(list, sys)
  {
    if events == [] then 0
    else
      var front := events[..|events| - 1];
      CallsMade(list, sys, front) + if Calls(Run(list, sys, front), events[|events| - 1]) then 1 else 0
  }

  lemma CallUsesWork(list: seq<Crd>, sys: System, event: Event)
    requires WellFormed(list, sys) && Calls(sys, event)
    ensures TotalWork(list, Step(list, sys, event).pcs) < TotalWork(list, sys.pcs)
  {
    var pc := Step(list, sys, event).pcs[event.i];
    assert Step(list, sys, event).pcs == sys.pcs[event.i := pc];
    TotalWorkUpdate(list, sys.pcs, event.i, pc);
  }

  lemma {:induction false} CallsUseUpWork(list: seq<Crd>, sys: System, events: seq<Event>)
    requires WellFormed(list, sys)
    ensures CallsMade(list, sys, events) + TotalWork(list, Run(list, sys, events).pcs) <= TotalWork(list, sys.pcs)
  {
    if events != [] {
      var front, event := events[..|events| - 1], events[|events| - 1];
      var before := Run(list, sys, front);
      CallsUseUpWork(list, sys, front);
      if Calls(before, event) {
        CallUsesWork(list, before, event);
      } else {
        assert Step(list, before, event).pcs == before.pcs;
      }
    }
  }

  /** Each installer makes at most three calls for each CRD. */
  lemma {:induction false} FreshWork(list: seq<Crd>, store: Store, n: nat)
    ensures TotalWork(list, Fresh(list, store, n).pcs) == 3 * |list| * n
  {
    if n > 0 {
      FreshWork(list, store, n - 1);
      assert Fresh(list, store, n).pcs[1..] == Fresh(list, store, n - 1).pcs;
    }
  }

  /**
   Whatever outsiders do in between, a run has no more calls than there was work at its start, and one with
   that many has stopped everybody.
   */
  lemma RunsAreBounded(list: seq<Crd>, sys: System, events: seq<Event>)
    requires WellFormed(list, sys)
    ensures CallsMade(list, sys, events) <= TotalWork(list, sys.pcs)
    ensures CallsMade(list, sys, events) == TotalWork(list, sys.pcs) ==> AllStopped(Run(list, sys, events))
  {
    CallsUseUpWork(list, sys, events);
    NoWorkMeansStopped(list, Run(list, sys, events).pcs);
  }

  lemma {:induction false} NoWorkMeansStopped(list: seq<Crd>, pcs: seq<Pc>)
    requires forall i | 0 <= i < |pcs| :: InRange(list, pcs[i])
    ensures TotalWork(list, pcs) == 0 ==> forall i | 0 <= i < |pcs| :: !Running(pcs[i])
  {
    if pcs != [] {
      NoWorkMeansStopped(list, pcs[1..]);
    }
  }

  // ---------- One installer's view of an interleaving ----------

  /** One installer's turns so far, the store after its last call, and what others sent since. */
  datatype Seen = Seen(turns: seq<Turn>, store: Store, pending: seq<Request>)

  /** The requests the event brings to the server; a lost call may not have arrived. */
  function Served(list: seq<Crd>, sys: System, event: Event): seq<Request>
    requires WellFormed(list, sys)
  {
    if event.Outsider? then [event.request]
    else if Calls(sys, event) && (event.delivery.Lost? ==> event.delivery.landed)
    then [Ask(list, sys.pcs[event.i], event.gap)]
    else []
  }

  function SeenBy(list: seq<Crd>, sys: System, events: seq<Event>, i: nat): Seen
    requires WellFormed(list, sys)
  {
    if events == [] then Seen([], sys.store, [])
    else
      var front, event := events[..|events| - 1], events[|events| - 1];
      var seen, before := SeenBy(list, sys, front, i), Run(list, sys, front);
      if Calls(before, event) && event.i == i
      then Seen(seen.turns + [Turn(seen.pending, event.gap, event.delivery)], Step(list, before, event).store, [])
      else seen.(pending := seen.pending + Served(list, before, event))
  }

  /** The store the installer left, with what others sent since, is the store of the whole system. */
  ghost predicate Sees(list: seq<Crd>, start: System, end: System, seen: Seen, i: nat, more: seq<Turn>)
    requires WellFormed(list, start) && WellFormed(list, end) && i < |start.pcs| == |end.pcs|
  {
    && Replay(seen.store, seen.pending) == end.store
    && Solo(list, start.store, start.pcs[i], seen.turns + more) == Solo(list, seen.store, end.pcs[i], more)
  }

  lemma OwnCall(list: seq<Crd>, start: System, before: System, seen: Seen, event: Event, more: seq<Turn>)
    requires WellFormed(list, start) && WellFormed(list, before) && |start.pcs| == |before.pcs|
    requires Calls(before, event)
    requires Sees(list, start, before, seen, event.i, [Turn(seen.pending, event.gap, event.delivery)] + more)
    ensures var next, turn := Step(list, before, event), Turn(seen.pending, event.gap, event.delivery);
            Sees(list, start, next, Seen(seen.turns + [turn], next.store, []), event.i, more)
  {
    var turn := Turn(seen.pending, event.gap, event.delivery);
    assert seen.turns + ([turn] + more) == (seen.turns + [turn]) + more;
    assert Replay(before.store, []) == before.store;
    assert First([turn] + more) == turn && Rest([turn] + more) == more;
  }

  lemma OtherEvent(list: seq<Crd>, before: System, store: Store, pending: seq<Request>, event: Event)
    requires WellFormed(list, before) && Replay(store, pending) == before.store
    ensures Replay(store, pending + Served(list, before, event)) == Step(list, before, event).store
  {
    var served := Served(list, before, event);
    if served == [] {
      assert pending + served == pending;
    } else {
      ReplaySnoc(store, pending, served[0]);
    }
  }

  /**
   Every interleaving, seen by one installer, is a run of the sequential code: replaying its turns takes the
   code to the same position and the same store, with the same continuations.
   */
  lemma {:induction false} InterleavingIsSolo(list: seq<Crd>, sys: System, events: seq<Event>, i: nat, more: seq<Turn>)
    requires WellFormed(list, sys) && i < |sys.pcs|
    ensures Sees(list, sys, Run(list, sys, events), SeenBy(list, sys, events, i), i, more)
  {
    if events == [] {
      assert [] + more == more;
    } else {
      var front, event := events[..|events| - 1], events[|events| - 1];
      var seen, before := SeenBy(list, sys, front, i), Run(list, sys, front);
      if Calls(before, event) && event.i == i {
        InterleavingIsSolo(list, sys, front, i, [Turn(seen.pending, event.gap, event.delivery)] + more);
        OwnCall(list, sys, before, seen, event, more);
      } else {
        InterleavingIsSolo(list, sys, front, i, more);
        OtherEvent(list, before, seen.store, seen.pending, event);
      }
    }
  }

  lemma {:induction false} NoOwnCalls(list: seq<Crd>, sys: System, events: seq<Event>, i: nat)
    requires WellFormed(list, sys) && i < |sys.pcs|
    requires forall event <- events :: event.Installer? ==> event.i != i
    ensures Run(list, sys, events).pcs[i] == sys.pcs[i]
    ensures SeenBy(list, sys, events, i).turns == [] && SeenBy(list, sys, events, i).store == sys.store
  {
    if events != [] {
      NoOwnCalls(list, sys, events[..|events| - 1], i);
    }
  }

  /**
   An installer has just read its CRD; then other installers and outsiders make any number of requests. Its
   update succeeds exactly when none of those requests wrote the CRD, and otherwise changes nothing.
   */
  lemma UpdateAmongOthers(list: seq<Crd>, sys: System, between: seq<Event>, i: nat, gap: nat)
    requires WellFormed(list, sys) && WellVersioned(sys.store) && i < |sys.pcs| && sys.pcs[i].AtUpdate?
    requires var name := list[sys.pcs[i].k].name;
             name in sys.store.objects && sys.store.objects[name].version == sys.pcs[i].version
    requires forall event <- between :: event.Installer? ==> event.i != i
    ensures var k, before := sys.pcs[i].k, Run(list, sys, between);
            var after := Step(list, before, Installer(i, gap, Answered));
            if AnyWrites(sys.store, SeenBy(list, sys, between, i).pending, list[k].name)
            then after.pcs[i].Stopped? && after.store == before.store
            else after.pcs[i] == Begin(list, k + 1) && after.store == Put(before.store, list[k], gap)
  {
    var pending := SeenBy(list, sys, between, i).pending;
    NoOwnCalls(list, sys, between, i);
    InterleavingIsSolo(list, sys, between, i, []);
    VersionTellsWrites(sys.store, pending, list[sys.pcs[i].k].name);
    assert Replay(Run(list, sys, between).store, []) == Run(list, sys, between).store;
  }

  /** No run brings a version back. */
  lemma {:induction false} RunKeepsVersions(list: seq<Crd>, sys: System, events: seq<Event>)
    requires WellFormed(list, sys) && WellVersioned(sys.store)
    ensures WellVersioned(Run(list, sys, events).store) && sys.store.clock <= Run(list, sys, events).store.clock
  {
    if events != [] {
      var front, event := events[..|events| - 1], events[|events| - 1];
      var before := Run(list, sys, front);
      RunKeepsVersions(list, sys, front);
      if Calls(before, event) {
        CallKeepsVersions(list, before.store, before.pcs[event.i], Turn([], event.gap, event.delivery));
      }
    }
  }

  lemma {:induction false} RunAppend(list: seq<Crd>, sys: System, events: seq<Event>, more: seq<Event>)
    requires WellFormed(list, sys)
    ensures Run(list, sys, events + more) == Run(list, Run(list, sys, events), more)
  {
    if more == [] {
      assert events + more == events;
    } else {
      var front := more[..|more| - 1];
      assert (events + more)[..|events + more| - 1] == events + front;
      RunAppend(list, sys, events, front);
    }
  }

  /**
   The same as one run from the start. After any events an installer is about to read its CRD; it reads it,
   others make any number of requests, and it updates. It fails if the CRD is not there to be read or a request
   in between wrote it, and then changes nothing; otherwise it replaces the CRD and goes on.
   */
  lemma ReadAndUpdateAmongOthers(list: seq<Crd>, store: Store, n: nat, before: seq<Event>, between: seq<Event>,
                                 i: nat, gap: nat)
    requires WellVersioned(store) && i < n && Run(list, Fresh(list, store, n), before).pcs[i].AtGet?
    requires forall event <- between :: event.Installer? ==> event.i != i
    ensures var start, get, update := Fresh(list, store, n), Installer(i, 0, Answered), Installer(i, gap, Answered);
            var atGet := Run(list, start, before);
            var read := Run(list, start, before + [get]);
            var atUpdate := Run(list, start, before + [get] + between);
            var end := Run(list, start, before + [get] + between + [update]);
            var k := atGet.pcs[i].k;
            if list[k].name !in atGet.store.objects
            then end.pcs[i] == Stopped(k, NotFound) && end.store == atUpdate.store
            else if AnyWrites(atGet.store, SeenBy(list, read, between, i).pending, list[k].name)
            then end.pcs[i].Stopped? && end.store == atUpdate.store
            else end.pcs[i] == Begin(list, k + 1) && end.store == Put(atUpdate.store, list[k], gap)
  {
    var start, get, update := Fresh(list, store, n), Installer(i, 0, Answered), Installer(i, gap, Answered);
    var atGet := Run(list, start, before);
    var read := Run(list, start, before + [get]);
    RunKeepsVersions(list, start, before);
    assert (before + [get])[..|before|] == before;
    assert Replay(atGet.store, []) == atGet.store;
    assert read == Step(list, atGet, get) && read.store == atGet.store;
    RunAppend(list, start, before + [get], between);
    var all := before + [get] + between + [update];
    assert all[..|all| - 1] == before + [get] + between;
    NoOwnCalls(list, read, between, i);
    if read.pcs[i].AtUpdate? {
      UpdateAmongOthers(list, read, between, i, gap);
    }
  }

  // ---------- Exactly when somebody completes ----------

  /**
   Any interleaving, deletes included: an installer that has come to its end has completed exactly when each
   of its CRDs went through, as its own turns tell; so somebody completes exactly when that holds for someone.
   */
  lemma SomebodyCompletesExactly(list: seq<Crd>, store: Store, n: nat, events: seq<Event>)
    requires WellVersioned(store) && AllStopped(Run(list, Fresh(list, store, n), events))
    ensures var start := Fresh(list, store, n);
            var end := Run(list, start, events);
            && (forall i | 0 <= i < n ::
                  end.pcs[i].Completed? <==> Installs(list, 0, store, SeenBy(list, start, events, i).turns))
            && (Completed in end.pcs <==>
                exists i | 0 <= i < n :: Installs(list, 0, store, SeenBy(list, start, events, i).turns))
  {
    var start := Fresh(list, store, n);
    var end := Run(list, start, events);
    forall i | 0 <= i < n
      ensures end.pcs[i].Completed? <==> Installs(list, 0, store, SeenBy(list, start, events, i).turns)
    {
      var seen := SeenBy(list, start, events, i);
      InterleavingIsSolo(list, start, events, i, []);
      assert seen.turns + [] == seen.turns;
      InstallSucceedsExactly(list, 0, store, seen.turns);
    }
    if Completed in end.pcs {
      var i :| 0 <= i < |end.pcs| && end.pcs[i] == Completed;
      assert end.pcs[i].Completed?;
    }
  }
}
