/**
 The CRD commands in the source's own sequential form, over a server object seen by one client. They are
 proved to be the process of `CrdProcess`, and to succeed and fail exactly when `CrdGuarantees` says.
 */
module CrdInstall {
  import opened Outcomes
  import opened CrdGuarantees
  import opened CrdProcess
  import opened CrdStore

  class CustomResourceDefinition {
    const name: string
    const spec: string
    var resourceVersion: Option<nat>

    constructor (crd: Crd)
      ensures Value() == crd && resourceVersion == None
    {
      name, spec, resourceVersion := crd.name, crd.spec, None;
    }

    function Value(): Crd {
      Crd(name, spec)
    }
  }

  /** The server through one client's eyes; `turns` is what will happen around its next requests. */
  class ApiServer {
    var store: Store
    var turns: seq<Turn>

    constructor (store: Store, turns: seq<Turn>)
      ensures this.store == store && this.turns == turns
    {
      this.store, this.turns := store, turns;
    }

    method Call(request: Request) returns (reply: Reply)
      modifies this
      ensures Answer(store, reply) == Exchange(old(store), request, First(old(turns)))
      ensures turns == Rest(old(turns))
    {
      var answer := Exchange(store, request, First(turns));
      store, turns, reply := answer.store, Rest(turns), answer.reply;
    }

    method CreateCRD(crd: CustomResourceDefinition) returns (reply: Reply)
      modifies this
      ensures Answer(store, reply)
           == Exchange(old(store), Create(crd.Value(), First(old(turns)).gap), First(old(turns)))
      ensures turns == Rest(old(turns))
    {
      reply := Call(Create(crd.Value(), First(turns).gap));
    }

    method GetCRD(name: string) returns (reply: Reply)
      modifies this
      ensures Answer(store, reply) == Exchange(old(store), Get(name), First(old(turns)))
      ensures turns == Rest(old(turns))
    {
      reply := Call(Get(name));
    }

    /** An update that carries no version is refused: CRDs do not allow an unconditional update. */
    method UpdateCRD(crd: CustomResourceDefinition) returns (reply: Reply)
      modifies this
      ensures crd.resourceVersion.Some? ==>
                var turn, version := First(old(turns)), crd.resourceVersion.value;
                Answer(store, reply) == Exchange(old(store), Update(crd.Value(), version, turn.gap), turn)
      ensures crd.resourceVersion.None? ==> store == old(store) && reply.Refused?
      ensures turns == Rest(old(turns))
    {
      match crd.resourceVersion
      case Some(version) => reply := Call(Update(crd.Value(), version, First(turns).gap));
      case None => turns, reply := Rest(turns), Refused(Other("metadata.resourceVersion must be specified"));
    }

    method DeleteCRD(name: string) returns (reply: Reply)
      modifies this
      ensures Answer(store, reply) == Exchange(old(store), Delete(name), First(old(turns)))
      ensures turns == Rest(old(turns))
    {
      reply := Call(Delete(name));
    }
  }

  /** The error that applying ends with, if any. Every store that requests make from an empty one is well versioned. */
  lemma ApplyError(crd: Crd, store: Store, turns: seq<Turn>) returns (err: Option<ApiError>)
    ensures var v := Solo([crd], store, AtCreate(0), turns);
            (err == None <==> v.pc.Completed?) && (err.Some? ==> v.pc == Stopped(0, err.value))
    ensures WellVersioned(store) ==>
              var create, get, update := First(turns), First(Rest(turns)), First(Rest(Rest(turns)));
              var atCreate := Replay(store, create.others);
              var atGet := Replay(atCreate, get.others);
              err == if create.delivery.Lost? then Some(Other(create.delivery.reason))
                     else if crd.name !in atCreate.objects then None
                     else if get.delivery.Lost? then Some(Other(get.delivery.reason))
                     else if crd.name !in atGet.objects then Some(NotFound)
                     else if update.delivery.Lost? then Some(Other(update.delivery.reason))
                     else if !AnyWrites(atGet, update.others, crd.name) then None
                     else if crd.name in Replay(atGet, update.others).objects then Some(Conflict)
                     else Some(NotFound)
    ensures WellVersioned(store) ==> (err == None <==> Applies(crd, store, turns))
  {
    var v := Solo([crd], store, AtCreate(0), turns);
    err := if v.pc.Stopped? then Some(v.pc.error) else None;
    if WellVersioned(store) {
      ApplySucceedsExactly(crd, store, turns);
    }
  }

  method ApplyCRD(server: ApiServer, crd: CustomResourceDefinition) returns (err: Option<ApiError>)
    modifies server, crd`resourceVersion
    ensures var v := Solo([crd.Value()], old(server.store), AtCreate(0), old(server.turns));
            && server.store == v.store && server.turns == v.turns
            && (err == None <==> v.pc.Completed?) && (err.Some? ==> v.pc == Stopped(0, err.value))
    ensures WellVersioned(old(server.store)) ==>
              var turns := old(server.turns);
              var create, get, update := First(turns), First(Rest(turns)), First(Rest(Rest(turns)));
              var atCreate := Replay(old(server.store), create.others);
              var atGet := Replay(atCreate, get.others);
              err == if create.delivery.Lost? then Some(Other(create.delivery.reason))
                     else if crd.name !in atCreate.objects then None
                     else if get.delivery.Lost? then Some(Other(get.delivery.reason))
                     else if crd.name !in atGet.objects then Some(NotFound)
                     else if update.delivery.Lost? then Some(Other(update.delivery.reason))
                     else if !AnyWrites(atGet, update.others, crd.name) then None
                     else if crd.name in Replay(atGet, update.others).objects then Some(Conflict)
                     else Some(NotFound)
    ensures WellVersioned(old(server.store)) ==>
              (err == None <==> Applies(crd.Value(), old(server.store), old(server.turns)))
  {
    ghost var expected := ApplyError(crd.Value(), server.store, server.turns);
    ghost var list := [crd.Value()];
    ghost var start := Solo(list, server.store, AtCreate(0), server.turns);
    var reply := server.CreateCRD(crd);
    ghost var pc := Advance(list, AtCreate(0), reply);
    assert start == Solo(list, server.store, pc, server.turns);
    if !reply.Refused? {
      return None;
    }
    if reply.error != AlreadyExists {
      return Some(reply.error);
    }
    reply := server.GetCRD(crd.name);
    pc := Advance(list, AtGet(0), reply);
    assert start == Solo(list, server.store, pc, server.turns);
    if reply.Refused? {
      return Some(reply.error);
    }
    crd.resourceVersion := Some(reply.version);
    reply := server.UpdateCRD(crd);
    pc := Advance(list, pc, reply);
    assert start == Solo(list, server.store, pc, server.turns);
    return if reply.Refused? then Some(reply.error) else None;
  }

  lemma Succeeds(list: seq<Crd>, store: Store, turns: seq<Turn>) returns (succeeds: bool)
    ensures succeeds <==> Solo(list, store, Begin(list, 0), turns).pc.Completed?
    ensures WellVersioned(store) ==> (succeeds <==> Installs(list, 0, store, turns))
  {
    succeeds := Solo(list, store, Begin(list, 0), turns).pc.Completed?;
    if WellVersioned(store) {
      InstallSucceedsExactly(list, 0, store, turns);
    }
  }

  method InstallCRDs(server: ApiServer, list: seq<Crd>)
    returns (installed: seq<string>, failure: Option<ApiError>)
    modifies server
    ensures var v := Solo(list, old(server.store), Begin(list, 0), old(server.turns));
            && server.store == v.store && server.turns == v.turns
            && (failure == None <==> v.pc.Completed?)
            && (failure.Some? ==> v.pc == Stopped(|installed|, failure.value))
    ensures failure == None ==> |installed| == |list|
    ensures |installed| <= |list| && forall i | 0 <= i < |installed| :: installed[i] == list[i].name
    ensures WellVersioned(old(server.store)) ==>
              (failure == None <==> Installs(list, 0, old(server.store), old(server.turns)))
  {
    ghost var succeeds := Succeeds(list, server.store, server.turns);
    installed, failure := [], None;
    ghost var goal := Solo(list, server.store, Begin(list, 0), server.turns);
    for k := 0 to |list|
      invariant goal == Solo(list, server.store, Begin(list, k), server.turns)
      invariant |installed| == k && failure == None
      invariant forall i | 0 <= i < k :: installed[i] == list[i].name
    {
      var crd := new CustomResourceDefinition(list[k]);
      InstallGoesOn(list, k, server.store, server.turns);
      var err := ApplyCRD(server, crd);
      if err.Some? {
        failure := err;
        return;
      }
      installed := installed + [crd.name];
    }
  }

  method UninstallCRDs(server: ApiServer, names: seq<string>) returns (failure: Option<ApiError>)
    modifies server
    ensures var r := Removal(names, old(server.store), old(server.turns));
            server.store == r.store && server.turns == r.turns && failure == r.failure
  {
    ghost var goal := Removal(names, server.store, server.turns);
    for i := 0 to |names|
      invariant goal == Removal(names[i..], server.store, server.turns)
    {
      assert names[i..][1..] == names[i + 1..];
      var reply := server.DeleteCRD(names[i]);
      if reply.Refused? {
        if reply.error == NotFound {
          continue;
        }
        return Some(reply.error);
      }
    }
    return None;
  }
}
