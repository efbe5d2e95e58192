/**
 The benchmark workflow as one client of the cluster and the file system: hand over the ConfigMap, apply the
 DaemonSet, wait for the pods, save their logs, delete the DaemonSet.
 */
module BenchmarkRun {
  import opened Lists
  import opened Outcomes
  import opened PodListings
  import opened Text

  /** One thing the workflow attempts; polls and pods are numbered in order. */
  datatype Action =
    | StartCreate | StartApply | WaitCreate | WaitApply
    | ApplyDaemonSet
    | Poll(n: nat)
    | ListPods
    | MakeDirectory
    | FetchLog(i: nat)
    | WriteLog(i: nat)
    | DeleteDaemonSet

  /** `Panicked(i)`: line `i` of the pod listing has no slash, and indexing its parts fails. */
  datatype Outcome = Finished | Failed(error: string) | Panicked(i: nat)

  datatype LogOutcome = Saved | FetchFailed | WriteFailed

  function LogPath(name: string): string {
    "benchmark-logs/" + name + ".log"
  }

  const HANDOVER := [StartCreate, StartApply, WaitCreate, WaitApply, ApplyDaemonSet]

  /** The first `n` polls. */
  function Polls(n: nat): (polls: seq<Action>)
    ensures |polls| == n && forall i | 0 <= i < n :: polls[i] == Poll(i)
  {
    if n == 0 then [] else Polls(n - 1) + [Poll(n - 1)]
  }

  /** Everything to attempt before the first log, when `last` is the last poll. */
  function Setup(last: nat): seq<Action> {
    HANDOVER + Polls(last + 1) + [ListPods, MakeDirectory]
  }

  class Cluster {
    const fails: Action -> Option<string>
    const listing: nat -> string  // what poll n prints
    const podNames: string        // what listing the pod names prints
    const log: nat -> string      // the log of the pod on line i
    const leftover: nat -> Option<string>  // what a failed write of that log leaves in the file, if it touched it
    var trace: seq<Action>
    var files: map<string, string>
    var report: seq<LogOutcome>

    constructor (fails: Action -> Option<string>, listing: nat -> string, podNames: string, log: nat -> string,
                 leftover: nat -> Option<string>)
      ensures trace == [] && files == map[] && report == []
      ensures this.fails == fails && this.listing == listing && this.podNames == podNames && this.log == log
      ensures this.leftover == leftover
    {
      this.fails, this.listing, this.podNames, this.log, this.leftover := fails, listing, podNames, log, leftover;
      trace, files, report := [], map[], [];
    }

    predicate Settles(n: nat) {
      fails(Poll(n)).Some? || Complete(listing(n))
    }

    ghost predicate FirstSettled(n: nat) {
      Settles(n) && forall m | 0 <= m < n :: !Settles(m)
    }

    function LogOf(i: nat): LogOutcome {
      if fails(FetchLog(i)).Some? then FetchFailed
      else if fails(WriteLog(i)).Some? then WriteFailed
      else Saved
    }

    /** One outcome for each of the first `n` pods, settled by its own fetch and write alone. */
    function Report(n: nat): (outcomes: seq<LogOutcome>)
      ensures |outcomes| == n && forall i | 0 <= i < n :: outcomes[i] == LogOf(i)
    {
      if n == 0 then [] else Report(n - 1) + [LogOf(n - 1)]
    }

    /** The attempts for one pod. */
    function PodActions(i: nat): seq<Action> {
      if LogOf(i).FetchFailed? then [FetchLog(i)] else [FetchLog(i), WriteLog(i)]
    }

    /** The attempts for the first `n` pods. */
    function LogActions(n: nat): seq<Action> {
      if n == 0 then [] else LogActions(n - 1) + PodActions(n - 1)
    }

    /** What the attempts for one pod put into its file: nothing, the log, or what a failed write left there. */
    function Left(i: nat): Option<string> {
      match LogOf(i)
      case Saved => Some(log(i))
      case FetchFailed => None
      case WriteFailed => leftover(i)
    }

    /** `before` with what the attempts for the pods put into their files. */
    ghost function FilesAfter(before: map<string, string>, pods: seq<string>): map<string, string>
      requires AllNamed(pods)
    {
      if pods == [] then before
      else
        var i := |pods| - 1;
        var front := FilesAfter(before, pods[..i]);
        match Left(i)
        case Some(text) => front[LogPath(PodName(pods[i])) := text]
        case None => front
    }

    /** Up to now the plan was attempted in order; nothing failed, or only the last attempt did, with `err`. */
    ghost predicate Follows(plan: seq<Action>, err: Option<string>)
      reads this`trace
    {
      && trace <= plan
      && (err.None? ==> forall action <- trace :: fails(action) == None)
      && (err.Some? ==> trace != [] && fails(trace[|trace| - 1]) == err
                        && forall action <- trace[..|trace| - 1] :: fails(action) == None)
    }

    /** What a run leaves behind that polled up to `last`, or would have. */
    ghost predicate Ran(last: nat, outcome: Outcome, before: map<string, string>)
      reads this
    {
      if outcome.Failed? then Follows(Setup(last), Some(outcome.error)) && report == [] && files == before
      else
        var pods := Lines(podNames);
        var n := if outcome.Panicked? then outcome.i else |pods|;
        && (forall action <- Setup(last) :: fails(action) == None)
        && n <= |pods| && AllNamed(pods[..n]) && (outcome.Panicked? ==> n < |pods| && !HasName(pods[n]))
        && trace == Setup(last) + LogActions(n) + (if outcome.Finished? then [DeleteDaemonSet] else [])
        && report == Report(n)
        && files == FilesAfter(before, pods[..n])
    }

    method Attempt(action: Action) returns (err: Option<string>)
      modifies this`trace
      ensures trace == old(trace) + [action] && err == fails(action)
    {
      trace := trace + [action];
      err := fails(action);
    }
  }

  /** One attempt of a plan that went well so far. */
  method Follow(cluster: Cluster, ghost plan: seq<Action>, action: Action) returns (err: Option<string>)
    requires cluster.Follows(plan, None) && cluster.trace + [action] <= plan
    modifies cluster`trace
    ensures cluster.trace == old(cluster.trace) + [action] && err == cluster.fails(action)
    ensures cluster.Follows(plan, err)
  {
    err := cluster.Attempt(action);
    assert cluster.trace[..|cluster.trace| - 1] == old(cluster.trace);
  }

  /** Poll until a snapshot settles; `err` is the failure of that poll, if it failed. */
  method WaitForPods(cluster: Cluster) returns (last: nat, err: Option<string>)
    requires exists n: nat :: cluster.Settles(n)
    requires cluster.Follows(HANDOVER, None) && cluster.trace == HANDOVER
    modifies cluster`trace
    ensures cluster.FirstSettled(last)
    ensures cluster.trace == HANDOVER + Polls(last + 1) && cluster.Follows(Setup(last), err)
  {
    ghost var bound: nat :| cluster.Settles(bound);
    last := 0;
    while true
      invariant cluster.trace == HANDOVER + Polls(last)
      invariant forall action <- cluster.trace :: cluster.fails(action) == None
      invariant forall m | 0 <= m < last :: !cluster.Settles(m)
      invariant last <= bound
      decreases bound - last
    {
      err := Follow(cluster, HANDOVER + Polls(last + 1), Poll(last));
      assert cluster.trace == HANDOVER + Polls(last + 1);
      if err.Some? {
        return;
      }
      var complete := AllPodsDone(cluster.listing(last));
      if complete {
        return;
      }
      last := last + 1;
    }
  }

  /**
   Fetch and write one log; a failure of either is reported and goes no further. A write empties the file
   before it fills it, so one that fails may have changed the file.
   */
  method CollectLog(cluster: Cluster, i: nat, name: string)
    modifies cluster`trace, cluster`files, cluster`report
    ensures cluster.trace == old(cluster.trace) + cluster.PodActions(i)
    ensures cluster.report == old(cluster.report) + [cluster.LogOf(i)]
    ensures cluster.files == match cluster.Left(i)
                             case Some(text) => old(cluster.files)[LogPath(name) := text]
                             case None => old(cluster.files)
  {
    var fetched := cluster.Attempt(FetchLog(i));
    if fetched.Some? {
      cluster.report := cluster.report + [FetchFailed];
      return;
    }
    var written := cluster.Attempt(WriteLog(i));
    if written.Some? {
      if cluster.leftover(i).Some? {
        cluster.files := cluster.files[LogPath(name) := cluster.leftover(i).value];
      }
      cluster.report := cluster.report + [WriteFailed];
      return;
    }
    cluster.files := cluster.files[LogPath(name) := cluster.log(i)];
    cluster.report := cluster.report + [Saved];
  }

  /** Save the logs, whatever fails; stops early only at a line without a slash. */
  method CollectLogs(cluster: Cluster, pods: seq<string>) returns (reached: nat)
    modifies cluster`trace, cluster`files, cluster`report
    ensures reached <= |pods| && AllNamed(pods[..reached])
    ensures reached < |pods| ==> !HasName(pods[reached])
    ensures cluster.trace == old(cluster.trace) + cluster.LogActions(reached)
    ensures cluster.report == old(cluster.report) + cluster.Report(reached)
    ensures cluster.files == cluster.FilesAfter(old(cluster.files), pods[..reached])
  {
    reached := 0;
    while reached < |pods|
      invariant reached <= |pods| && AllNamed(pods[..reached])
      invariant cluster.trace == old(cluster.trace) + cluster.LogActions(reached)
      invariant cluster.report == old(cluster.report) + cluster.Report(reached)
      invariant cluster.files == cluster.FilesAfter(old(cluster.files), pods[..reached])
    {
      var i := reached;
      var parts := Split(pods[i], '/');
      SplitHasMore(pods[i], '/');
      if |parts| < 2 {
        return;
      }
      assert pods[..i + 1][..i] == pods[..i] && pods[..i + 1][i] == pods[i];
      assert cluster.LogActions(i + 1) == cluster.LogActions(i) + cluster.PodActions(i);
      assert cluster.Report(i + 1) == cluster.Report(i) + [cluster.LogOf(i)];
      CollectLog(cluster, i, parts[1]);
      reached := i + 1;
    }
  }

  /** Pipe the ConfigMap from one `oc` to the other, then apply the DaemonSet. */
  method HandOver(cluster: Cluster) returns (err: Option<string>)
    requires cluster.trace == []
    modifies cluster`trace
    ensures cluster.Follows(HANDOVER, err)
    ensures err.None? ==> cluster.trace == HANDOVER
  {
    err := Follow(cluster, HANDOVER, StartCreate);
    if err.Some? {
      return;
    }
    err := Follow(cluster, HANDOVER, StartApply);
    if err.Some? {
      return;
    }
    err := Follow(cluster, HANDOVER, WaitCreate);
    if err.Some? {
      return;
    }
    err := Follow(cluster, HANDOVER, WaitApply);
    if err.Some? {
      return;
    }
    err := Follow(cluster, HANDOVER, ApplyDaemonSet);
  }

  /** Everything up to the directory for the logs. */
  method Prepare(cluster: Cluster) returns (err: Option<string>, ghost last: nat)
    requires cluster.trace == []
    requires exists n: nat :: cluster.Settles(n)
    modifies cluster`trace
    ensures cluster.FirstSettled(last) && cluster.Follows(Setup(last), err)
    ensures err.None? ==> cluster.trace == Setup(last)
  {
    FirstSettledExists(cluster);
    last :| cluster.FirstSettled(last);
    err := HandOver(cluster);
    if err.Some? {
      return;
    }
    ghost var polled;
    polled, err := WaitForPods(cluster);
    assert polled == last;
    if err.Some? {
      return;
    }
    err := Follow(cluster, Setup(last), ListPods);
    if err.Some? {
      return;
    }
    err := Follow(cluster, Setup(last), MakeDirectory);
  }

  /** The workflow from a fresh start. It ends only if some poll settles. */
  method RunBenchmarkWorkflow(cluster: Cluster) returns (outcome: Outcome)
    requires cluster.trace == [] && cluster.report == []
    requires exists n: nat :: cluster.Settles(n)
    modifies cluster
    ensures exists last: nat :: cluster.FirstSettled(last) && cluster.Ran(last, outcome, old(cluster.files))
  {
    var err;
    ghost var last;
    err, last := Prepare(cluster);
    if err.Some? {
      outcome := Failed(err.value);
    } else {
      var pods := Lines(cluster.podNames);
      var reached := CollectLogs(cluster, pods);
      if reached < |pods| {
        outcome := Panicked(reached);
      } else {
        err := cluster.Attempt(DeleteDaemonSet);
        outcome := Finished;
      }
    }
    assert cluster.Ran(last, outcome, old(cluster.files));
  }

  lemma FirstSettledExists(cluster: Cluster)
    requires exists n: nat :: cluster.Settles(n)
    ensures exists n: nat :: cluster.FirstSettled(n)
  {
    var n: nat :| cluster.Settles(n);
    FirstSettledBefore(cluster, n);
  }

  lemma {:induction false} FirstSettledBefore(cluster: Cluster, n: nat)
    requires cluster.Settles(n)
    ensures exists m: nat :: cluster.FirstSettled(m)
  {
    if m: nat :| m < n && cluster.Settles(m) {
      FirstSettledBefore(cluster, m);
    } else {
      assert cluster.FirstSettled(n);
    }
  }

  // ---------- What every run means ----------

  /** Polling stops at the first snapshot that fails or whose lines of three fields all show a finished pod. */
  lemma PollingStopsAt(cluster: Cluster, n: nat, m: nat)
    requires cluster.FirstSettled(n) && m <= n
    ensures m == n <==>
              cluster.fails(Poll(m)).Some? || forall line <- Split(cluster.listing(m), '\n') ::
                var fields := Fields(line);
                |fields| >= 3 ==> fields[2] == "Completed" || fields[2] == "Succeeded"
  {
    assert cluster.Settles(m) <==> m == n;
    CompleteExactly(cluster.listing(m));
  }

  /**
   Every run follows one plan: hand over, apply the DaemonSet, poll, list the pods, make the directory. A failed run
   stops right after the first attempt that fails, with its error, and saves nothing.
   */
  lemma RunsFollowThePlan(cluster: Cluster, last: nat, outcome: Outcome, before: map<string, string>)
    requires cluster.Ran(last, outcome, before)
    ensures var trace := cluster.trace;
            && (forall j | 0 <= j < |trace| && j < last + 8 ::
                  trace[j] == if j == 0 then StartCreate else if j == 1 then StartApply
                              else if j == 2 then WaitCreate else if j == 3 then WaitApply
                              else if j == 4 then ApplyDaemonSet else if j < last + 6 then Poll(j - 5)
                              else if j == last + 6 then ListPods else MakeDirectory)
            && (forall j | 0 <= j < |trace| - 1 && j < last + 8 :: cluster.fails(trace[j]).None?)
    ensures outcome.Failed? ==>
              && 0 < |cluster.trace| <= last + 8
              && cluster.fails(cluster.trace[|cluster.trace| - 1]) == Some(outcome.error)
              && cluster.report == [] && cluster.files == before
    ensures !outcome.Failed? ==>
              |cluster.trace| >= last + 8 && cluster.fails(cluster.trace[last + 7]).None?
  {
    var trace, plan := cluster.trace, Setup(last);
    assert |plan| == last + 8;
    if outcome.Failed? {
      forall j | 0 <= j < |trace| - 1
        ensures cluster.fails(trace[j]).None?
      {
        assert trace[..|trace| - 1][j] == trace[j];
      }
    } else {
      assert forall j | 0 <= j < last + 8 :: trace[j] == plan[j] && plan[j] in plan;
    }
  }

  /** Fetches and writes below `n`, each write right after the fetch of the same pod, pods in order. */
  predicate InOrder(actions: seq<Action>, n: nat) {
    && (forall j | 0 <= j < |actions| :: (actions[j].FetchLog? || actions[j].WriteLog?) && actions[j].i < n)
    && (forall j | 0 <= j < |actions| && actions[j].WriteLog? :: j > 0 && actions[j - 1] == FetchLog(actions[j].i))
    && (forall j, k | 0 <= j < k < |actions| && actions[j].FetchLog? && actions[k].FetchLog? ::
          actions[j].i < actions[k].i)
  }

  lemma FetchInOrder(front: seq<Action>, k: nat)
    requires InOrder(front, k)
    ensures InOrder(front + [FetchLog(k)], k + 1)
  {
    var actions := front + [FetchLog(k)];
    assert forall j | 0 <= j < |front| :: actions[j] == front[j];
  }

  lemma WriteInOrder(front: seq<Action>, k: nat)
    requires InOrder(front + [FetchLog(k)], k + 1)
    ensures InOrder(front + [FetchLog(k), WriteLog(k)], k + 1)
  {
    var before, actions := front + [FetchLog(k)], front + [FetchLog(k), WriteLog(k)];
    assert forall j | 0 <= j < |before| :: actions[j] == before[j];
  }

  lemma {:induction false} LogActionsInOrder(cluster: Cluster, n: nat)
    ensures InOrder(cluster.LogActions(n), n)
  {
    if n > 0 {
      var k: nat := n - 1;
      var front := cluster.LogActions(k);
      LogActionsInOrder(cluster, k);
      FetchInOrder(front, k);
      WriteInOrder(front, k);
    }
  }

  /** After the setup come log attempts only, in that order, and the deletion at most at the end. */
  lemma LogsInOrder(cluster: Cluster, last: nat, outcome: Outcome, before: map<string, string>)
    requires cluster.Ran(last, outcome, before) && !outcome.Failed?
    ensures var trace := cluster.trace;
            && (forall j | last + 8 <= j < |trace| ::
                  trace[j].FetchLog? || trace[j].WriteLog? || (trace[j].DeleteDaemonSet? && j == |trace| - 1))
            && (forall j | last + 8 <= j < |trace| && trace[j].WriteLog? :: trace[j - 1] == FetchLog(trace[j].i))
            && (forall j, k | last + 8 <= j < k < |trace| && trace[j].FetchLog? && trace[k].FetchLog? ::
                  trace[j].i < trace[k].i)
  {
    var n := if outcome.Panicked? then outcome.i else |Lines(cluster.podNames)|;
    LogActionsInOrder(cluster, n);
    AfterSetup(Setup(last), cluster.LogActions(n), n, if outcome.Finished? then [DeleteDaemonSet] else []);
  }

  lemma AfterSetup(setup: seq<Action>, logs: seq<Action>, n: nat, end: seq<Action>)
    requires InOrder(logs, n) && end in {[], [DeleteDaemonSet]}
    ensures var trace := setup + logs + end;
            && (forall j | |setup| <= j < |trace| ::
                  trace[j].FetchLog? || trace[j].WriteLog? || (trace[j].DeleteDaemonSet? && j == |trace| - 1))
            && (forall j | |setup| <= j < |trace| && trace[j].WriteLog? ::
                  j > 0 && trace[j - 1] == FetchLog(trace[j].i))
            && (forall j, k | |setup| <= j < k < |trace| && trace[j].FetchLog? && trace[k].FetchLog? ::
                  trace[j].i < trace[k].i)
  {
    var trace := setup + logs + end;
    assert forall j | |setup| <= j < |setup| + |logs| :: trace[j] == logs[j - |setup|];
    forall j | |setup| <= j < |trace| && trace[j].WriteLog?
      ensures j > 0 && trace[j - 1] == FetchLog(trace[j].i)
    {
      assert logs[j - |setup| - 1] == trace[j - 1];
    }
  }

  /** How often an attempt is to occur among the log attempts for the first `n` pods. */
  function Expected(cluster: Cluster, n: nat, action: Action): nat {
    match action
    case FetchLog(i) => if i < n then 1 else 0
    case WriteLog(i) => if i < n && !cluster.LogOf(i).FetchFailed? then 1 else 0
    case _ => 0
  }

  lemma {:induction false} LogActionCounts(cluster: Cluster, n: nat, action: Action)
    ensures Count(action, cluster.LogActions(n)) == Expected(cluster, n, action)
  {
    if n > 0 {
      var k: nat := n - 1;
      var front, pod := cluster.LogActions(k), cluster.PodActions(k);
      assert Count(action, front + pod) == Count(action, front) + Count(action, pod) by {
        CountConcat(action, front, pod);
      }
      assert Count(action, front) == Expected(cluster, k, action) by {
        LogActionCounts(cluster, k, action);
      }
      PodActionCounts(cluster, k, action);
    }
  }

  lemma PodActionCounts(cluster: Cluster, i: nat, action: Action)
    ensures Expected(cluster, i, action) + Count(action, cluster.PodActions(i)) == Expected(cluster, i + 1, action)
  {
    var fetch, write := FetchLog(i), WriteLog(i);
    assert Count(action, [fetch]) == (if action == fetch then 1 else 0) by { CountOne(action, fetch); }
    assert Count(action, [write]) == (if action == write then 1 else 0) by { CountOne(action, write); }
    assert Count(action, [fetch, write]) == Count(action, [fetch]) + Count(action, [write]) by {
      CountConcat(action, [fetch], [write]);
      assert [fetch] + [write] == [fetch, write];
    }
  }

  /** How often an attempt occurs in a run that got as far as `n` logs and perhaps the deletion. */
  lemma TraceCounts(cluster: Cluster, last: nat, n: nat, action: Action)
    requires action.FetchLog? || action.WriteLog? || action.DeleteDaemonSet?
    ensures Count(action, Setup(last) + cluster.LogActions(n)) == Expected(cluster, n, action)
    ensures Count(action, Setup(last) + cluster.LogActions(n) + [DeleteDaemonSet]) ==
              Expected(cluster, n, action) + if action.DeleteDaemonSet? then 1 else 0
  {
    assert action !in Setup(last);
    CountIsZero(action, Setup(last));
    LogActionCounts(cluster, n, action);
    CountConcat(action, Setup(last), cluster.LogActions(n));
    CountConcat(action, Setup(last) + cluster.LogActions(n), [DeleteDaemonSet]);
    CountOne(action, DeleteDaemonSet);
  }

  lemma RunCounts(cluster: Cluster, last: nat, outcome: Outcome, before: map<string, string>, n: nat, action: Action)
    requires cluster.Ran(last, outcome, before) && !outcome.Failed?
    requires n == if outcome.Panicked? then outcome.i else |Lines(cluster.podNames)|
    requires action.FetchLog? || action.WriteLog? || action.DeleteDaemonSet?
    ensures Count(action, cluster.trace)
         == Expected(cluster, n, action) + if outcome.Finished? && action.DeleteDaemonSet? then 1 else 0
  {
    TraceCounts(cluster, last, n, action);
    if outcome.Panicked? {
      assert cluster.trace == Setup(last) + cluster.LogActions(n);
    }
  }

  /**
   A run that gets as far as the logs fetched the log of every pod before the line it panics at exactly once, whatever
   failed for other pods, tried to write exactly those it fetched, and reported what became of each. A finished run
   attempted the deletion exactly once, after everything else.
   */
  lemma FinishedRunHandlesEveryPod(cluster: Cluster, last: nat, outcome: Outcome, before: map<string, string>, i: nat)
    requires cluster.Ran(last, outcome, before) && !outcome.Failed?
    ensures var trace, report, fails := cluster.trace, cluster.report, cluster.fails;
            var n := if outcome.Panicked? then outcome.i else |Lines(cluster.podNames)|;
            && Count(FetchLog(i), trace) == (if i < n then 1 else 0)
            && Count(WriteLog(i), trace) == (if i < n && fails(FetchLog(i)).None? then 1 else 0)
            && |report| == n
            && (i < n ==> report[i] == if fails(FetchLog(i)).Some? then FetchFailed
                                       else if fails(WriteLog(i)).Some? then WriteFailed else Saved)
    ensures outcome.Finished? ==>
              Count(DeleteDaemonSet, cluster.trace) == 1 && cluster.trace[|cluster.trace| - 1] == DeleteDaemonSet
  {
    var n := if outcome.Panicked? then outcome.i else |Lines(cluster.podNames)|;
    assert Count(FetchLog(i), cluster.trace) == (if i < n then 1 else 0) by {
      RunCounts(cluster, last, outcome, before, n, FetchLog(i));
    }
    assert Count(WriteLog(i), cluster.trace) == (if i < n && cluster.fails(FetchLog(i)).None? then 1 else 0) by {
      RunCounts(cluster, last, outcome, before, n, WriteLog(i));
    }
    assert outcome.Finished? ==> Count(DeleteDaemonSet, cluster.trace) == 1 by {
      RunCounts(cluster, last, outcome, before, n, DeleteDaemonSet);
    }
  }

  /**
   A run that gets as far as the logs panics exactly when a listed line has no slash, at the first such line, and
   never deletes then.
   */
  lemma PanicsOnLineWithoutSlash(cluster: Cluster, last: nat, outcome: Outcome, before: map<string, string>)
    requires cluster.Ran(last, outcome, before) && !outcome.Failed?
    ensures outcome.Panicked? <==> exists line <- Lines(cluster.podNames) :: '/' !in line
    ensures outcome.Panicked? ==>
              var lines := Lines(cluster.podNames);
              && outcome.i < |lines| && '/' !in lines[outcome.i]
              && (forall j | 0 <= j < outcome.i :: '/' in lines[j])
              && Count(DeleteDaemonSet, cluster.trace) == 0
  {
    var pods := Lines(cluster.podNames);
    if outcome.Panicked? {
      assert pods[outcome.i] in pods && '/' !in pods[outcome.i];
      assert forall j | 0 <= j < outcome.i :: '/' in pods[j] by {
        assert forall j | 0 <= j < outcome.i :: pods[..outcome.i][j] == pods[j] && pods[j] in pods[..outcome.i];
      }
      assert cluster.trace == Setup(last) + cluster.LogActions(outcome.i);
      TraceCounts(cluster, last, outcome.i, DeleteDaemonSet);
    } else {
      assert pods[..|pods|] == pods && AllNamed(pods);
    }
  }

  /**
   On a printed name listing, with or without a final line break and with any white space around it, a run that gets
   as far as the logs finishes, and its pods are exactly the listed ones in order.
   */
  lemma ListedPodsAreHandled(cluster: Cluster, last: nat, outcome: Outcome, before: map<string, string>,
                             gap: string, kinds: seq<string>, names: seq<string>, lines: seq<string>, tail: string)
    requires cluster.Ran(last, outcome, before) && !outcome.Failed?
    requires (forall c <- gap :: IsSpace(c)) && (forall c <- tail :: IsSpace(c))
    requires lines != [] && |kinds| == |names| == |lines|
    requires forall i | 0 <= i < |lines| :: lines[i] == kinds[i] + "/" + names[i]
    requires forall i | 0 <= i < |lines| :: forall c <- kinds[i] + names[i] :: !IsSpace(c) && c != '/'
    requires cluster.podNames == gap + Join(lines, '\n') + tail
    ensures outcome.Finished? && |cluster.report| == |lines|
    ensures forall i | 0 <= i < |lines| ::
              && Count(FetchLog(i), cluster.trace) == 1
              && Lines(cluster.podNames)[i] == lines[i] && PodName(lines[i]) == names[i]
  {
    PodsOfListing(gap, kinds, names, lines, tail);
    PanicsOnLineWithoutSlash(cluster, last, outcome, before);
    forall i | 0 <= i < |lines|
      ensures Count(FetchLog(i), cluster.trace) == 1
    {
      FinishedRunHandlesEveryPod(cluster, last, outcome, before, i);
    }
  }

  /** Only finished runs attempt the deletion: one that fails or panics after applying the DaemonSet leaves it. */
  lemma OnlyFinishedRunsDelete(cluster: Cluster, last: nat, outcome: Outcome, before: map<string, string>)
    requires cluster.Ran(last, outcome, before)
    ensures DeleteDaemonSet in cluster.trace <==> outcome.Finished?
  {
    if outcome.Failed? {
      assert DeleteDaemonSet !in Setup(last);
    } else {
      var n := if outcome.Panicked? then outcome.i else |Lines(cluster.podNames)|;
      TraceCounts(cluster, last, n, DeleteDaemonSet);
      CountIsZero(DeleteDaemonSet, Setup(last) + cluster.LogActions(n));
      assert Setup(last) + cluster.LogActions(n) + [] == Setup(last) + cluster.LogActions(n);
    }
  }

  lemma LogPathsDiffer(name: string, name': string)
    requires name != name'
    ensures LogPath(name) != LogPath(name')
  {
    assert name == LogPath(name)[15..|LogPath(name)| - 4];
    assert name' == LogPath(name')[15..|LogPath(name')| - 4];
  }

  /** The path is the file of a pod whose log was saved, or whose failed write changed the file. */
  ghost predicate Touched(cluster: Cluster, pods: seq<string>, path: string)
    requires AllNamed(pods)
  {
    exists i | 0 <= i < |pods| :: cluster.Left(i).Some? && path == LogPath(PodName(pods[i]))
  }

  lemma {:induction false} UntouchedFilesKept(cluster: Cluster, before: map<string, string>, pods: seq<string>,
                                              path: string)
    requires AllNamed(pods) && !Touched(cluster, pods, path)
    ensures var files := cluster.FilesAfter(before, pods);
            (path in files <==> path in before) && (path in before ==> files[path] == before[path])
  {
    if pods != [] {
      var n := |pods| - 1;
      assert forall i | 0 <= i < n :: pods[..n][i] == pods[i];
      UntouchedFilesKept(cluster, before, pods[..n], path);
    }
  }

  lemma {:induction false} LastWriteStays(cluster: Cluster, before: map<string, string>, pods: seq<string>, i: nat)
    requires AllNamed(pods) && i < |pods| && cluster.Left(i).Some?
    requires forall j | i < j < |pods| && cluster.Left(j).Some? :: PodName(pods[j]) != PodName(pods[i])
    ensures var files, path := cluster.FilesAfter(before, pods), LogPath(PodName(pods[i]));
            path in files && files[path] == cluster.Left(i).value
  {
    var n := |pods| - 1;
    if i < n {
      LastWriteStays(cluster, before, pods[..n], i);
      if cluster.Left(n).Some? {
        LogPathsDiffer(PodName(pods[i]), PodName(pods[n]));
      }
    }
  }

  lemma FileOfLine(cluster: Cluster, before: map<string, string>, pods: seq<string>, i: nat)
    requires AllNamed(pods) && i < |pods| && cluster.fails(FetchLog(i)).None?
    requires cluster.fails(WriteLog(i)).None? || cluster.leftover(i).Some?
    requires forall j | i < j < |pods| && cluster.Left(j).Some? :: PodName(pods[j]) != PodName(pods[i])
    ensures var files, path := cluster.FilesAfter(before, pods), "benchmark-logs/" + PodName(pods[i]) + ".log";
            && path in files
            && files[path] == if cluster.fails(WriteLog(i)).None? then cluster.log(i) else cluster.leftover(i).value
  {
    LastWriteStays(cluster, before, pods, i);
  }

  /**
   The files a run leaves, when it gets as far as the logs: the file of a pod holds its log, or what the failed write
   left in it, unless a later line of the same name wrote it again; and every file that nobody wrote is as before.
   */
  lemma SavedLogsKept(cluster: Cluster, last: nat, outcome: Outcome, before: map<string, string>, i: nat)
    requires cluster.Ran(last, outcome, before) && !outcome.Failed?
    requires i < |cluster.report| && cluster.fails(FetchLog(i)).None?
    requires cluster.fails(WriteLog(i)).None? || cluster.leftover(i).Some?
    requires AllNamed(Lines(cluster.podNames)[..|cluster.report|])
    requires forall j | i < j < |cluster.report| && cluster.fails(FetchLog(j)).None?
                        && (cluster.fails(WriteLog(j)).None? || cluster.leftover(j).Some?) ::
               PodName(Lines(cluster.podNames)[j]) != PodName(Lines(cluster.podNames)[i])
    ensures var path := "benchmark-logs/" + PodName(Lines(cluster.podNames)[i]) + ".log";
            && path in cluster.files
            && cluster.files[path] ==
                 if cluster.fails(WriteLog(i)).None? then cluster.log(i) else cluster.leftover(i).value
  {
    FileOfLine(cluster, before, Lines(cluster.podNames)[..|cluster.report|], i);
  }

  lemma OtherFilesKept(cluster: Cluster, last: nat, outcome: Outcome, before: map<string, string>, path: string)
    requires cluster.Ran(last, outcome, before) && !outcome.Failed?
    requires AllNamed(Lines(cluster.podNames)[..|cluster.report|])
    requires forall i | 0 <= i < |cluster.report| && cluster.fails(FetchLog(i)).None?
                        && (cluster.fails(WriteLog(i)).None? || cluster.leftover(i).Some?) ::
               path != "benchmark-logs/" + PodName(Lines(cluster.podNames)[i]) + ".log"
    ensures (path in cluster.files <==> path in before) && (path in before ==> cluster.files[path] == before[path])
  {
    var pods := Lines(cluster.podNames)[..|cluster.report|];
    assert !Touched(cluster, pods, path);
    UntouchedFilesKept(cluster, before, pods, path);
  }
}
