/** What one installer guarantees, whatever others do and whichever of its calls fail. */
module CrdGuarantees {
  import opened Outcomes
  import opened CrdStore
  import opened CrdProcess

  // ---------- Among other writers ----------

  /**
   Two consecutive calls of one installer, Get and Update of the same CRD. The update goes through
   exactly when nobody wrote the CRD in between; otherwise it fails and leaves the store as others left it.
   */
  lemma NoSilentOverwrite(list: seq<Crd>, k: nat, store: Store, atGet: Turn, atUpdate: Turn)
    requires WellVersioned(store) && k < |list|
    requires Act(list, store, AtGet(k), atGet).1.AtUpdate?
    ensures var (read, pc) := Act(list, store, AtGet(k), atGet);
            var (end, pc') := Act(list, read, pc, atUpdate);
            var seen := Replay(read, atUpdate.others);
            var written := AnyWrites(read, atUpdate.others, list[k].name);
            && (written ==> pc'.Stopped? && pc'.k == k && end == seen)
            && (!written && atUpdate.delivery.Answered? ==>
                  && pc' == Begin(list, k + 1)
                  && end.clock > seen.clock
                  && end.objects == seen.objects[list[k].name := Entry(list[k].spec, end.clock)])
  {
    ReplayKeepsVersions(store, atGet.others);
    var (read, pc) := Act(list, store, AtGet(k), atGet);
    VersionTellsWrites(read, atUpdate.others, list[k].name);
  }

  /** When applying a CRD reports success, the store held exactly its spec right after the last call. */
  lemma SuccessMeansApplied(crd: Crd, store: Store, turns: seq<Turn>)
    requires Solo([crd], store, AtCreate(0), turns).pc.Completed?
    ensures var end := Solo([crd], store, AtCreate(0), turns).store;
            crd.name in end.objects && end.objects[crd.name] == Entry(crd.spec, end.clock)
  {
    SuccessMeansAppliedFrom(crd, store, AtCreate(0), turns);
  }

  lemma {:induction false} SuccessMeansAppliedFrom(crd: Crd, store: Store, pc: Pc, turns: seq<Turn>)
    requires Running(pc) && pc.k == 0
    requires Solo([crd], store, pc, turns).pc.Completed?
    ensures var end := Solo([crd], store, pc, turns).store;
            crd.name in end.objects && end.objects[crd.name] == Entry(crd.spec, end.clock)
    decreases Work([crd], pc)
  {
    var (store', pc') := Act([crd], store, pc, First(turns));
    if Running(pc') {
      SuccessMeansAppliedFrom(crd, store', pc', Rest(turns));
    }
  }

  /** An installer's call changes nothing but the CRD it is working on. */
  lemma CallTouchesOnlyItsCrd(list: seq<Crd>, store: Store, pc: Pc, turn: Turn, name: string)
    requires Running(pc) && InRange(list, pc) && name != list[pc.k].name
    ensures var before, after := Replay(store, turn.others).objects, Act(list, store, pc, turn).0.objects;
            (name in before <==> name in after) && (name in before ==> after[name] == before[name])
  {
    var ask := Ask(list, pc, turn.gap);
    assert Target(ask) == list[pc.k].name;
  }

  /** A lost call stops the installer with the reason, and the server may have done its part or not. */
  lemma LostCallMayLand(list: seq<Crd>, store: Store, pc: Pc, turn: Turn)
    requires Running(pc) && InRange(list, pc) && turn.delivery.Lost?
    ensures var before := Replay(store, turn.others);
            var ask := match pc
                       case AtCreate(k) => Create(list[k], turn.gap)
                       case AtGet(k) => Get(list[k].name)
                       case AtUpdate(k, version) => Update(list[k], version, turn.gap);
            var end := if turn.delivery.landed then Serve(before, ask).store else before;
            Act(list, store, pc, turn) == (end, Stopped(pc.k, Other(turn.delivery.reason)))
  {
  }

  /** No call of an installer brings a version back, whatever others send around it. */
  lemma CallKeepsVersions(list: seq<Crd>, store: Store, pc: Pc, turn: Turn)
    requires Running(pc) && InRange(list, pc) && WellVersioned(store)
    ensures WellVersioned(Act(list, store, pc, turn).0) && store.clock <= Act(list, store, pc, turn).0.clock
  {
    ReplayKeepsVersions(store, turn.others);
  }

  // ---------- Exactly when installing succeeds ----------

  /**
   What one CRD needs to go through, told from the turns of its calls alone. If it is absent at the Create,
   the Create must be answered. If it is there, all three calls must be answered, nobody may have deleted it
   by the time of the Get, and nobody may write or delete it between the Get and the Update.
   */
  predicate Applies(crd: Crd, store: Store, turns: seq<Turn>) {
    var create, get, update := First(turns), First(Rest(turns)), First(Rest(Rest(turns)));
    var atCreate := Replay(store, create.others);
    var atGet := Replay(atCreate, get.others);
    && create.delivery.Answered?
    && (crd.name in atCreate.objects ==>
          && get.delivery.Answered? && crd.name in atGet.objects
          && update.delivery.Answered? && !AnyWrites(atGet, update.others, crd.name))
  }

  /** The store that such an application leaves, and the turns it does not use. */
  function Applied(crd: Crd, store: Store, turns: seq<Turn>): (Store, seq<Turn>) {
    var create, get, update := First(turns), First(Rest(turns)), First(Rest(Rest(turns)));
    var atCreate := Replay(store, create.others);
    var atUpdate := Replay(Replay(atCreate, get.others), update.others);
    if crd.name !in atCreate.objects then (Put(atCreate, crd, create.gap), Rest(turns))
    else (Put(atUpdate, crd, update.gap), Rest(Rest(Rest(turns))))
  }

  /**
   The outcome of applying, whatever others do and whichever calls are lost. A lost call stops it with its own
   reason. Otherwise an absent CRD is created; one that is deleted before the Get is not found; one that is written
   or deleted before the Update is in conflict or not found; and any other is replaced.
   */
  lemma ApplySucceedsExactly(crd: Crd, store: Store, turns: seq<Turn>)
    requires WellVersioned(store)
    ensures var v := Solo([crd], store, AtCreate(0), turns);
            var create, get, update := First(turns), First(Rest(turns)), First(Rest(Rest(turns)));
            var atCreate := Replay(store, create.others);
            var atGet := Replay(atCreate, get.others);
            var atUpdate := Replay(atGet, update.others);
            v.pc == if create.delivery.Lost? then Stopped(0, Other(create.delivery.reason))
                    else if crd.name !in atCreate.objects then Completed
                    else if get.delivery.Lost? then Stopped(0, Other(get.delivery.reason))
                    else if crd.name !in atGet.objects then Stopped(0, NotFound)
                    else if update.delivery.Lost? then Stopped(0, Other(update.delivery.reason))
                    else if !AnyWrites(atGet, update.others, crd.name) then Completed
                    else if crd.name in atUpdate.objects then Stopped(0, Conflict)
                    else Stopped(0, NotFound)
    ensures var v := Solo([crd], store, AtCreate(0), turns);
            && (v.pc.Completed? <==> Applies(crd, store, turns))
            && (v.pc.Completed? ==> (v.store, v.turns) == Applied(crd, store, turns))
  {
    var create, get, update := First(turns), First(Rest(turns)), First(Rest(Rest(turns)));
    var atCreate := Replay(store, create.others);
    var atGet := Replay(atCreate, get.others);
    ReplayKeepsVersions(store, create.others);
    ReplayKeepsVersions(atCreate, get.others);
    var v := Solo([crd], store, AtCreate(0), turns);
    var (created, pc) := Act([crd], store, AtCreate(0), create);
    assert v == Solo([crd], created, pc, Rest(turns));
    if pc.AtGet? {
      var (read, pc') := Act([crd], atCreate, pc, get);
      assert v == Solo([crd], read, pc', Rest(Rest(turns)));
      if pc'.AtUpdate? {
        var (updated, pc'') := Act([crd], atGet, pc', update);
        assert v == Solo([crd], updated, pc'', Rest(Rest(Rest(turns))));
        VersionTellsWrites(atGet, update.others, crd.name);
      }
    }
  }

  /** The CRDs from `k` on go through one after the other. */
  predicate Installs(list: seq<Crd>, k: nat, store: Store, turns: seq<Turn>)
    requires k <= |list|
    decreases |list| - k
  {
    k < |list| ==>
      && Applies(list[k], store, turns)
      && var (store', turns') := Applied(list[k], store, turns);
         Installs(list, k + 1, store', turns')
  }

  /** Installing goes on with the next CRD when one went through, and otherwise stops with its error. */
  lemma InstallGoesOn(list: seq<Crd>, k: nat, store: Store, turns: seq<Turn>)
    requires k < |list|
    ensures var one := Solo([list[k]], store, AtCreate(0), turns);
            Solo(list, store, AtCreate(k), turns) ==
              if one.pc.Stopped? then View(one.store, Stopped(k, one.pc.error), one.turns)
              else if k + 1 == |list| then View(one.store, Completed, one.turns)
              else Solo(list, one.store, AtCreate(k + 1), one.turns)
  {
    var one := Solo([list[k]], store, AtCreate(0), turns);
    SoloByCrd(list, k, AtCreate(k), store, turns);
    assert k + 1 == |list| ==> Solo(list, one.store, Completed, one.turns) == View(one.store, Completed, one.turns);
  }

  /** Installing from CRD `k` on succeeds exactly when each of them goes through in turn. */
  lemma {:induction false} InstallSucceedsExactly(list: seq<Crd>, k: nat, store: Store, turns: seq<Turn>)
    requires k <= |list| && WellVersioned(store)
    ensures Solo(list, store, Begin(list, k), turns).pc.Completed? <==> Installs(list, k, store, turns)
    decreases |list| - k
  {
    if k < |list| {
      var one := Solo([list[k]], store, AtCreate(0), turns);
      SoloByCrd(list, k, AtCreate(k), store, turns);
      ApplySucceedsExactly(list[k], store, turns);
      SoloKeepsVersions([list[k]], store, AtCreate(0), turns);
      InstallSucceedsExactly(list, k + 1, one.store, one.turns);
    }
  }

  lemma {:induction false} SoloKeepsVersions(list: seq<Crd>, store: Store, pc: Pc, turns: seq<Turn>)
    requires InRange(list, pc) && WellVersioned(store)
    ensures WellVersioned(Solo(list, store, pc, turns).store)
    decreases Work(list, pc)
  {
    if Running(pc) {
      var (store', pc') := Act(list, store, pc, First(turns));
      CallKeepsVersions(list, store, pc, First(turns));
      SoloKeepsVersions(list, store', pc', Rest(turns));
    }
  }

  // ---------- With nobody else writing ----------

  function Contents(store: Store): map<string, string> {
    map name | name in store.objects :: store.objects[name].spec
  }

  /** `contents` with the CRDs of `list` written over it. */
  function Overlay(contents: map<string, string>, list: seq<Crd>): map<string, string> {
    if list == [] then contents
    else
      var last := list[|list| - 1];
      Overlay(contents, list[..|list| - 1])[last.name := last.spec]
  }

  predicate Undisturbed(turns: seq<Turn>) {
    forall turn <- turns :: turn.others == []
  }

  predicate FaultFree(turns: seq<Turn>) {
    forall turn <- turns :: turn.delivery.Answered?
  }

  /**
   Nobody else writes, but calls may be lost. A completed install has put every CRD in place. One that
   stopped at CRD `k` was stopped by a lost call, with the CRDs before `k` in place and CRD `k` itself
   either untouched or already written. Without lost calls it completes.
   */
  lemma UndisturbedInstall(list: seq<Crd>, store: Store, turns: seq<Turn>)
    requires Undisturbed(turns)
    ensures var v := Solo(list, store, Begin(list, 0), turns);
            && (v.pc.Completed? ==> Contents(v.store) == Overlay(Contents(store), list))
            && (v.pc.Stopped? ==> v.pc.error.Other? && OneOf(list, Contents(store), v.store, v.pc.k))
            && (FaultFree(turns) ==> v.pc.Completed?)
    ensures Undisturbed(Solo(list, store, Begin(list, 0), turns).turns)
    ensures FaultFree(turns) ==> FaultFree(Solo(list, store, Begin(list, 0), turns).turns)
  {
    UndisturbedFrom(list, Contents(store), store, Begin(list, 0), turns);
  }

  /** What an undisturbed installer knows about the store at each of its positions. */
  ghost predicate Expects(list: seq<Crd>, contents: map<string, string>, store: Store, pc: Pc)
    requires InRange(list, pc)
  {
    match pc
    case Completed => Contents(store) == Overlay(contents, list)
    case Stopped(k, error) => error.Other? && OneOf(list, contents, store, k)
    case AtCreate(k) => Contents(store) == Overlay(contents, list[..k])
    case AtGet(k) => Contents(store) == Overlay(contents, list[..k]) && list[k].name in store.objects
    case AtUpdate(k, version) =>
      && Contents(store) == Overlay(contents, list[..k])
      && list[k].name in store.objects && store.objects[list[k].name].version == version
  }

  /** The CRDs before `k` are in place; CRD `k` is in place or not written. */
  ghost predicate OneOf(list: seq<Crd>, contents: map<string, string>, store: Store, k: nat)
    requires k < |list|
  {
    || Contents(store) == Overlay(contents, list[..k])
    || Contents(store) == Overlay(contents, list[..k + 1])
  }

  lemma PutOverlays(list: seq<Crd>, contents: map<string, string>, store: Store, k: nat, gap: nat)
    requires k < |list| && Contents(store) == Overlay(contents, list[..k])
    ensures Contents(Put(store, list[k], gap)) == Overlay(contents, list[..k + 1])
  {
    assert list[..k + 1][..k] == list[..k];
    assert Contents(Put(store, list[k], gap)) == Contents(store)[list[k].name := list[k].spec];
  }

  lemma UndisturbedStep(list: seq<Crd>, contents: map<string, string>, store: Store, pc: Pc, turn: Turn)
    requires Running(pc) && InRange(list, pc) && Expects(list, contents, store, pc) && turn.others == []
    ensures var (store', pc') := Act(list, store, pc, turn);
            Expects(list, contents, store', pc') && (turn.delivery.Answered? ==> !pc'.Stopped?)
  {
    assert Replay(store, turn.others) == store;
    var k := pc.k;
    var put := Put(store, list[k], turn.gap);
    assert Contents(put) == Overlay(contents, list[..k + 1]) by {
      PutOverlays(list, contents, store, k, turn.gap);
    }
    assert k + 1 == |list| ==> list[..k + 1] == list;
    assert Expects(list, contents, put, Begin(list, k + 1));
  }

  lemma {:induction false} UndisturbedFrom(list: seq<Crd>, contents: map<string, string>, store: Store, pc: Pc,
                                           turns: seq<Turn>)
    requires InRange(list, pc) && Undisturbed(turns) && Expects(list, contents, store, pc)
    ensures var v := Solo(list, store, pc, turns);
            && Expects(list, contents, v.store, v.pc)
            && Undisturbed(v.turns)
            && (FaultFree(turns) ==> FaultFree(v.turns) && (!pc.Stopped? ==> v.pc.Completed?))
    decreases Work(list, pc)
  {
    if Running(pc) {
      var (store', pc') := Act(list, store, pc, First(turns));
      UndisturbedStep(list, contents, store, pc, First(turns));
      UndisturbedFrom(list, contents, store', pc', Rest(turns));
    }
  }

  lemma {:induction false} OverlayAt(contents: map<string, string>, list: seq<Crd>)
    ensures Overlay(contents, list).Keys == contents.Keys + (set name <- Names(list))
    ensures forall name | name in contents && name !in Names(list) :: Overlay(contents, list)[name] == contents[name]
  {
    if list != [] {
      var front := list[..|list| - 1];
      OverlayAt(contents, front);
      assert Names(list) == Names(front) + [list[|list| - 1].name];
    }
  }

  lemma {:induction false} OverlayForgets(a: map<string, string>, b: map<string, string>, list: seq<Crd>)
    ensures forall name <- Names(list) ::
              && name in Overlay(a, list) && name in Overlay(b, list)
              && Overlay(a, list)[name] == Overlay(b, list)[name]
  {
    if list != [] {
      var front := list[..|list| - 1];
      OverlayForgets(a, b, front);
      assert Names(list) == Names(front) + [list[|list| - 1].name];
    }
  }

  /** Installing again changes no spec: only versions move. */
  lemma InstallIsIdempotent(list: seq<Crd>, store: Store, turns: seq<Turn>)
    requires Undisturbed(turns) && FaultFree(turns)
    ensures var once := Solo(list, store, Begin(list, 0), turns);
            var twice := Solo(list, once.store, Begin(list, 0), once.turns);
            && once.pc.Completed? && twice.pc.Completed?
            && Contents(twice.store) == Contents(once.store)
  {
    var once := Solo(list, store, Begin(list, 0), turns);
    UndisturbedInstall(list, store, turns);
    UndisturbedInstall(list, once.store, once.turns);
    OverlayAt(Contents(store), list);
    OverlayAt(Contents(once.store), list);
    OverlayForgets(Contents(store), Contents(once.store), list);
  }

  /** The names a list of CRDs writes. */
  function Targets(list: seq<Crd>): set<string> {
    set name <- Names(list)
  }

  /** The objects of a store without the named ones. */
  function Without(store: Store, names: seq<string>): map<string, Entry> {
    store.objects - (set name <- names)
  }

  /**
   Nobody else writes, but calls may be lost. Whichever of the names exist, deletion goes through them in
   order: it removes them all and nothing else, or was stopped by a lost call, with the names before `k` gone
   and name `k` itself gone or not. Without lost calls it succeeds.
   */
  lemma {:induction false} UndisturbedRemoval(names: seq<string>, store: Store, turns: seq<Turn>) returns (k: nat)
    requires Undisturbed(turns)
    ensures k <= |names|
    ensures var r := Removal(names, store, turns);
            && (r.failure == None ==> r.store.objects == Without(store, names))
            && (r.failure != None ==>
                  && r.failure.value.Other? && k < |names|
                  && r.store.objects in {Without(store, names[..k]), Without(store, names[..k + 1])})
            && (FaultFree(turns) ==> r.failure == None)
  {
    k := 0;
    if names != [] {
      var answer := Exchange(store, Delete(names[0]), First(turns));
      assert Without(store, names[..0]) == store.objects;
      assert (set name <- names[..1]) == {names[0]};
      if !answer.reply.Refused? || answer.reply.error == NotFound {
        assert answer.store.objects == Without(store, names[..1]);
        var m := UndisturbedRemoval(names[1..], answer.store, Rest(turns));
        WithoutTwice(store, answer.store, names, |names|);
        if m < |names| - 1 {
          WithoutTwice(store, answer.store, names, m + 1);
          WithoutTwice(store, answer.store, names, m + 2);
        }
        k := m + 1;
      }
    }
  }

  /**
   Removal fails exactly when a delete is lost, with the reason of the first lost one: a name that is not there
   stops nothing.
   */
  lemma {:induction false} RemovalFailsExactly(names: seq<string>, store: Store, turns: seq<Turn>, k: nat)
    requires k <= |names| && forall i | 0 <= i < k && i < |turns| :: turns[i].delivery.Answered?
    ensures var failure := Removal(names, store, turns).failure;
            && (k < |names| && k < |turns| && turns[k].delivery.Lost? ==>
                  failure == Some(Other(turns[k].delivery.reason)))
            && (k == |names| || |turns| <= k ==> failure == None)
  {
    if names != [] {
      var answer := Exchange(store, Delete(names[0]), First(turns));
      if k > 0 {
        assert forall i | 0 <= i < k - 1 && i < |Rest(turns)| :: Rest(turns)[i] == turns[i + 1];
        RemovalFailsExactly(names[1..], answer.store, Rest(turns), k - 1);
      } else if turns == [] {
        RemovalFailsExactly(names[1..], answer.store, Rest(turns), 0);
      }
    }
  }

  /** One delete: others first, then the name is gone, whether it was there or not; a lost one may not have arrived. */
  lemma RemovalDeletes(names: seq<string>, store: Store, turns: seq<Turn>)
    requires names != []
    ensures var turn := First(turns);
            var before := Replay(store, turn.others);
            var after := Store(before.objects - {names[0]}, before.clock);
            Removal(names, store, turns) ==
              match turn.delivery
              case Answered => Removal(names[1..], after, Rest(turns))
              case Lost(reason, landed) => Removed(if landed then after else before, Rest(turns), Some(Other(reason)))
  {
    var before := Replay(store, First(turns).others);
    assert names[0] !in before.objects ==> before.objects - {names[0]} == before.objects;
  }

  lemma WithoutTwice(store: Store, store': Store, names: seq<string>, n: nat)
    requires 0 < n <= |names| && store'.objects == Without(store, names[..1])
    ensures Without(store', names[1..][..n - 1]) == Without(store, names[..n])
    ensures n == |names| ==> Without(store', names[1..]) == Without(store, names)
  {
    assert names[..n] == [names[0]] + names[1..][..n - 1];
    assert names[1..][..|names| - 1] == names[1..] && names[..|names|] == names;
  }

  /** An undisturbed installer leaves every object it does not install as it was, version included. */
  lemma {:induction false} UndisturbedKeepsOthers(list: seq<Crd>, store: Store, pc: Pc, turns: seq<Turn>)
    requires InRange(list, pc) && Undisturbed(turns)
    ensures Solo(list, store, pc, turns).store.objects - Targets(list) == store.objects - Targets(list)
    decreases Work(list, pc)
  {
    if Running(pc) {
      var turn := First(turns);
      var (store', pc') := Act(list, store, pc, turn);
      assert Replay(store, turn.others) == store;
      forall name | name !in Targets(list)
        ensures name in store.objects <==> name in store'.objects
        ensures name in store.objects ==> store'.objects[name] == store.objects[name]
      {
        assert Names(list)[pc.k] == list[pc.k].name;
        CallTouchesOnlyItsCrd(list, store, pc, turn, name);
      }
      assert store'.objects - Targets(list) == store.objects - Targets(list);
      UndisturbedKeepsOthers(list, store', pc', Rest(turns));
    }
  }

  /** Uninstall after install: both CRDs are gone and every other object is the same, version included. */
  lemma UninstallUndoesInstall(obSpec: string, obcSpec: string, store: Store, turns: seq<Turn>)
    requires Undisturbed(turns) && FaultFree(turns)
    ensures var ob, obc := "objectbuckets.objectbucket.io", "objectbucketclaims.objectbucket.io";
            Embedded(obSpec, obcSpec) == [Crd(ob, obSpec), Crd(obc, obcSpec)] && UNINSTALL_NAMES == [ob, obc]
    ensures var installed := Solo(Embedded(obSpec, obcSpec), store, AtCreate(0), turns);
            var removed := Removal(UNINSTALL_NAMES, installed.store, installed.turns);
            && installed.pc.Completed? && removed.failure == None
            && removed.store.objects == store.objects - (set name <- UNINSTALL_NAMES)
  {
    var list := Embedded(obSpec, obcSpec);
    var installed := Solo(list, store, AtCreate(0), turns);
    UndisturbedInstall(list, store, turns);
    UndisturbedKeepsOthers(list, store, AtCreate(0), turns);
    var k := UndisturbedRemoval(UNINSTALL_NAMES, installed.store, installed.turns);
    assert Names(list) == UNINSTALL_NAMES;
  }
}
