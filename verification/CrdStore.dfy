/**
 The API server as the CRD commands see it: named objects, each with a spec and a resource version.
 One request is one atomic step. A request that writes an object gives it a version newer than every
 version handed out before; `gap` says how much newer, because other resources share the counter.
 */
module CrdStore {
  datatype Crd = Crd(name: string, spec: string)

  datatype Entry = Entry(spec: string, version: nat)

  /** `clock` is the newest version handed out so far. */
  datatype Store = Store(objects: map<string, Entry>, clock: nat)

  datatype ApiError = AlreadyExists | NotFound | Conflict | Other(reason: string)

  datatype Request =
    | Create(crd: Crd, gap: nat)
    | Get(name: string)
    | Update(crd: Crd, version: nat, gap: nat)
    | Delete(name: string)

  datatype Reply = Done | Got(version: nat) | Refused(error: ApiError)

  datatype Answer = Answer(store: Store, reply: Reply)

  ghost predicate WellVersioned(store: Store) {
    forall name <- store.objects :: store.objects[name].version <= store.clock
  }

  function Put(store: Store, crd: Crd, gap: nat): Store {
    var version := store.clock + 1 + gap;
    Store(store.objects[crd.name := Entry(crd.spec, version)], version)
  }

  function Target(request: Request): string {
    match request
    case Create(crd, _) => crd.name
    case Get(name) => name
    case Update(crd, _, _) => crd.name
    case Delete(name) => name
  }

  function Serve(store: Store, request: Request): Answer {
    match request
    case Create(crd, gap) =>
      if crd.name in store.objects then Answer(store, Refused(AlreadyExists))
      else Answer(Put(store, crd, gap), Done)
    case Get(name) =>
      if name in store.objects then Answer(store, Got(store.objects[name].version))
      else Answer(store, Refused(NotFound))
    case Update(crd, version, gap) =>
      if crd.name !in store.objects then Answer(store, Refused(NotFound))
      else if store.objects[crd.name].version != version then Answer(store, Refused(Conflict))
      else Answer(Put(store, crd, gap), Done)
    case Delete(name) =>
      if name !in store.objects then Answer(store, Refused(NotFound))
      else Answer(Store(store.objects - {name}, store.clock), Done)
  }

  /** What is assumed of the server: when it refuses, and what an accepted request changes. */
  lemma ServeExactly(store: Store, crd: Crd, version: nat, gap: nat)
    ensures var there, written := crd.name in store.objects, Entry(crd.spec, store.clock + 1 + gap);
            var put := Store(store.objects[crd.name := written], store.clock + 1 + gap);
            && Serve(store, Create(crd, gap)) == (if there then Answer(store, Refused(AlreadyExists))
                                                  else Answer(put, Done))
            && Serve(store, Get(crd.name)) == (if there then Answer(store, Got(store.objects[crd.name].version))
                                               else Answer(store, Refused(NotFound)))
            && Serve(store, Update(crd, version, gap)) ==
                 (if !there then Answer(store, Refused(NotFound))
                  else if version == store.objects[crd.name].version then Answer(put, Done)
                  else Answer(store, Refused(Conflict)))
            && Serve(store, Delete(crd.name)) ==
                 (if there then Answer(Store(store.objects - {crd.name}, store.clock), Done)
                  else Answer(store, Refused(NotFound)))
  {
  }

  /** The store after `requests` were served in order. */
  function Replay(store: Store, requests: seq<Request>): Store {
    if requests == [] then store
    else Serve(Replay(store, requests[..|requests| - 1]), requests[|requests| - 1]).store
  }

  /** The request is a write of `name` that the server accepts. */
  predicate Writes(store: Store, request: Request, name: string) {
    Target(request) == name && Serve(store, request).reply.Done?
  }

  /** Some request of the sequence is an accepted write of `name`. */
  predicate AnyWrites(store: Store, requests: seq<Request>, name: string) {
    requests != [] &&
    var front := requests[..|requests| - 1];
    AnyWrites(store, front, name) || Writes(Replay(store, front), requests[|requests| - 1], name)
  }

  lemma ReplaySnoc(store: Store, requests: seq<Request>, request: Request)
    ensures Replay(store, requests + [request]) == Serve(Replay(store, requests), request).store
  {
    assert (requests + [request])[..|requests|] == requests;
  }

  /** Versions stay below the clock and the clock never runs back, whatever is asked. */
  lemma {:induction false} ReplayKeepsVersions(store: Store, requests: seq<Request>)
    requires WellVersioned(store)
    ensures WellVersioned(Replay(store, requests))
    ensures store.clock <= Replay(store, requests).clock
  {
    if requests != [] {
      ReplayKeepsVersions(store, requests[..|requests| - 1]);
    }
  }

  /**
   Optimistic locking: an object still carries the version it had exactly when nobody wrote it since,
   deleting and creating it again included; and then it is the same object.
   */
  lemma {:induction false} VersionTellsWrites(store: Store, requests: seq<Request>, name: string)
    requires WellVersioned(store) && name in store.objects
    ensures var after := Replay(store, requests).objects;
            && (AnyWrites(store, requests, name) <==>
                !(name in after && after[name].version == store.objects[name].version))
            && (!AnyWrites(store, requests, name) ==> name in after && after[name] == store.objects[name])
  {
    if requests != [] {
      var front := requests[..|requests| - 1];
      VersionTellsWrites(store, front, name);
      ReplayKeepsVersions(store, front);
      if AnyWrites(store, requests, name) {
        StaleStaysStale(store, requests, name);
      }
    }
  }

  /** Once written, an object is gone or newer than everything the store had handed out before. */
  lemma {:induction false} StaleStaysStale(store: Store, requests: seq<Request>, name: string)
    requires WellVersioned(store) && AnyWrites(store, requests, name)
    ensures var after := Replay(store, requests).objects;
            name in after ==> after[name].version > store.clock
  {
    var front := requests[..|requests| - 1];
    ReplayKeepsVersions(store, front);
    if AnyWrites(store, front, name) {
      StaleStaysStale(store, front, name);
    }
  }
}
