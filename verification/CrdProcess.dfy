/**
 The CRD installer as a process: create each CRD or, when it exists, read its version and update it.

 `Act` and `Solo` make one request at a time while everybody else may write between the requests and any
 request may fail.
 */
module CrdProcess {
  import opened Outcomes
  import opened CrdStore

  /** Where one installer stands; `k` counts the CRDs it has installed. */
  datatype Pc =
    | AtCreate(k: nat)
    | AtGet(k: nat)
    | AtUpdate(k: nat, version: nat)
    | Stopped(k: nat, error: ApiError)
    | Completed

  /** A reply that arrives, or a failed call of which the server may have done its part or not. */
  datatype Delivery = Answered | Lost(reason: string, landed: bool)

  /** What happens around one request: what others do just before it, and how it is delivered. */
  datatype Turn = Turn(others: seq<Request>, gap: nat, delivery: Delivery)

  const QUIET := Turn([], 0, Answered)

  /** The process after a run, with the turns that were not used. */
  datatype View = View(store: Store, pc: Pc, turns: seq<Turn>)

  predicate Running(pc: Pc) {
    pc.AtCreate? || pc.AtGet? || pc.AtUpdate?
  }

  predicate InRange(list: seq<Crd>, pc: Pc) {
    !pc.Completed? ==> pc.k < |list|
  }

  function Begin(list: seq<Crd>, k: nat): Pc {
    if k < |list| then AtCreate(k) else Completed
  }

  function Ask(list: seq<Crd>, pc: Pc, gap: nat): Request
    requires Running(pc) && InRange(list, pc)
  {
    match pc
    case AtCreate(k) => Create(list[k], gap)
    case AtGet(k) => Get(list[k].name)
    case AtUpdate(k, version) => Update(list[k], version, gap)
  }

  function Advance(list: seq<Crd>, pc: Pc, reply: Reply): Pc
    requires Running(pc) && InRange(list, pc)
  {
    match (pc, reply)
    case (AtCreate(k), Refused(AlreadyExists)) => AtGet(k)
    case (AtGet(k), Got(version)) => AtUpdate(k, version)
    case (_, Refused(error)) => Stopped(pc.k, error)
    case (_, _) => Begin(list, pc.k + 1)
  }

  /** One request of one client: others first, then the request, then the delivery of its reply. */
  function Exchange(store: Store, request: Request, turn: Turn): Answer {
    var before := Replay(store, turn.others);
    var answer := Serve(before, request);
    match turn.delivery
    case Answered => answer
    case Lost(reason, landed) =>
      Answer(if landed then answer.store else before, Refused(Other(reason)))
  }

  function Act(list: seq<Crd>, store: Store, pc: Pc, turn: Turn): (r: (Store, Pc))
    requires Running(pc) && InRange(list, pc)
    ensures InRange(list, r.1)
  {
    var answer := Exchange(store, Ask(list, pc, turn.gap), turn);
    (answer.store, Advance(list, pc, answer.reply))
  }

  /** An upper bound on the requests still to be made. */
  function Work(list: seq<Crd>, pc: Pc): nat
    requires InRange(list, pc)
  {
    match pc
    case AtCreate(k) => 3 * (|list| - k)
    case AtGet(k) => 3 * (|list| - k) - 1
    case AtUpdate(k, _) => 3 * (|list| - k) - 2
    case _ => 0
  }

  function First(turns: seq<Turn>): Turn {
    if turns == [] then QUIET else turns[0]
  }

  function Rest(turns: seq<Turn>): seq<Turn> {
    if turns == [] then [] else turns[1..]
  }

  /** The process run until it stops; once the turns are used up nobody else acts. */
  function Solo(list: seq<Crd>, store: Store, pc: Pc, turns: seq<Turn>): (v: View)
    requires InRange(list, pc)
    ensures InRange(list, v.pc) && !Running(v.pc)
    decreases Work(list, pc)
  {
    if !Running(pc) then View(store, pc, turns)
    else
      var (store', pc') := Act(list, store, pc, First(turns));
      Solo(list, store', pc', Rest(turns))
  }

  /** Names of the CRDs, in order. */
  function Names(list: seq<Crd>): (names: seq<string>)
    ensures |names| == |list|
    ensures forall i | 0 <= i < |list| :: names[i] == list[i].name
  {
    seq(|list|, i requires 0 <= i < |list| => list[i].name)
  }

  /** How many CRDs the process has installed. */
  function Installed(list: seq<Crd>, pc: Pc): (n: nat)
    requires InRange(list, pc)
    ensures n <= |list|
  {
    if pc.Completed? then |list| else pc.k
  }

  /** A position within CRD `k`, seen as a position in the list that holds only that CRD. */
  function Alone(pc: Pc): Pc {
    match pc
    case AtCreate(_) => AtCreate(0)
    case AtGet(_) => AtGet(0)
    case AtUpdate(_, version) => AtUpdate(0, version)
    case Stopped(_, error) => Stopped(0, error)
    case Completed => Completed
  }

  /** Installing a list is applying its CRDs one after the other until one fails. */
  lemma {:induction false} SoloByCrd(list: seq<Crd>, k: nat, pc: Pc, store: Store, turns: seq<Turn>)
    requires k < |list| && Running(pc) && pc.k == k
    ensures var one := Solo([list[k]], store, Alone(pc), turns);
            Solo(list, store, pc, turns) ==
              if one.pc.Completed? then Solo(list, one.store, Begin(list, k + 1), one.turns)
              else View(one.store, Stopped(k, one.pc.error), one.turns)
    decreases Work(list, pc)
  {
    var (store', pc') := Act(list, store, pc, First(turns));
    assert Act([list[k]], store, Alone(pc), First(turns))
        == (store', if Running(pc') && pc'.k == k then Alone(pc') else if pc'.Stopped? then Alone(pc') else Completed);
    if Running(pc') && pc'.k == k {
      SoloByCrd(list, k, pc', store', Rest(turns));
    }
  }

  // ---------- Removal ----------

  datatype Removed = Removed(store: Store, turns: seq<Turn>, failure: Option<ApiError>)

  /** Deletion of `names` in order; a name that is not there is passed over, any other error stops it. */
  function Removal(names: seq<string>, store: Store, turns: seq<Turn>): Removed {
    if names == [] then Removed(store, turns, None)
    else
      var answer := Exchange(store, Delete(names[0]), First(turns));
      if answer.reply.Refused? && answer.reply.error != NotFound
      then Removed(answer.store, Rest(turns), Some(answer.reply.error))
      else Removal(names[1..], answer.store, Rest(turns))
  }

  // ---------- The embedded CRDs ----------

  const OB_CRD_NAME := "objectbuckets.objectbucket.io"
  const OBC_CRD_NAME := "objectbucketclaims.objectbucket.io"

  /** The two embedded CRDs in installation order; their specs come from the embedded files. */
  function Embedded(obSpec: string, obcSpec: string): seq<Crd> {
    [Crd(OB_CRD_NAME, obSpec), Crd(OBC_CRD_NAME, obcSpec)]
  }

  const UNINSTALL_NAMES := [OB_CRD_NAME, OBC_CRD_NAME]
}
