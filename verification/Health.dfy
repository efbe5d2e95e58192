/** The NooBaa health check: the phase of the resource and the state of its core pods. */
module Health {
  import opened Decimal
  import opened Durations
  import opened Lists
  import opened Outcomes

  datatype Severity = OK | Warning | Critical

  /** `Error` is reported only when the phase cannot be read; it is never compared with the others. */
  datatype Status = Level(severity: Severity) | Error

  datatype Container = Container(name: string, waiting: Option<string>)

  datatype Pod = Pod(name: string, phase: string, node: string, containers: seq<Container>)

  /**
   The first NooBaa resource: none, one whose phase is not readable, or its phase and age. The source also
   reports none when listing the resources failed.
   */
  datatype Resource = NotFound | Unreadable(error: string) | Found(phase: string, elapsed: int64)

  datatype CheckItem = CheckItem(name: string, status: string, node: string)

  datatype CheckResult =
    | NoResult
    | CheckResult(status: Status, message: string, details: seq<string>, items: seq<CheckItem>)

  const SLOW_PHASES := {"Creating", "Connecting", "Configuring", "Verifying"}

  function Rank(s: Severity): nat {
    match s
    case OK => 0
    case Warning => 1
    case Critical => 2
  }

  function Worse(a: Severity, b: Severity): Severity {
    if Rank(a) > Rank(b) then a else b
  }

  function PhaseSeverity(phase: string, elapsed: int64): Severity {
    if phase == "Rejected" then Critical
    else if phase in SLOW_PHASES && elapsed >= 5 * MINUTE then Warning
    else OK
  }

  function PhaseLine(phase: string, elapsed: int64): string {
    if phase == "Rejected" then "[ERR] Phase: Rejected"
    else if phase in SLOW_PHASES then
      (if elapsed >= 5 * MINUTE then "[WARN] Phase: " else "[INFO] Phase: ")
      + phase + " (for " + FormatDuration(elapsed) + ")"
    else "[INFO] Phase: " + phase
  }

  predicate Crashing(container: Container) {
    container.waiting == Some("CrashLoopBackOff")
  }

  predicate CrashLooping(pod: Pod) {
    exists container <- pod.containers :: Crashing(container)
  }

  function PodSeverity(pod: Pod): Severity {
    if CrashLooping(pod) || pod.phase == "Pending" then Critical else OK
  }

  /** The name of the first crashing container. */
  function FirstCrashing(containers: seq<Container>): string {
    if containers == [] then ""
    else if Crashing(containers[0]) then containers[0].name
    else FirstCrashing(containers[1..])
  }

  function PodLine(pod: Pod): string {
    if CrashLooping(pod) then
      "[ERR] Core pod " + pod.name + ": container " + FirstCrashing(pod.containers) + " in CrashLoopBackOff"
    else if pod.phase == "Pending" then "[WARN] Core pod " + pod.name + " is Pending"
    else "[INFO] Core pod " + pod.name + " is " + pod.phase
  }

  function PodItem(pod: Pod): CheckItem {
    CheckItem(pod.name, pod.phase, pod.node)
  }

  /** The severity after the pods were considered one by one. */
  function Overall(start: Severity, pods: seq<Pod>): Severity {
    if pods == [] then start
    else Worse(Overall(start, pods[..|pods| - 1]), PodSeverity(pods[|pods| - 1]))
  }

  method IsContainerCrashLooping(pod: Pod) returns (name: string, crashing: bool)
    ensures crashing <==> exists container <- pod.containers :: container.waiting == Some("CrashLoopBackOff")
    ensures name == FirstCrashing(pod.containers)
  {
    for i := 0 to |pod.containers|
      invariant forall container <- pod.containers[..i] :: !Crashing(container)
      invariant FirstCrashing(pod.containers) == FirstCrashing(pod.containers[i..])
    {
      var container := pod.containers[i];
      assert container in pod.containers && pod.containers[i..][1..] == pod.containers[i + 1..];
      if container.waiting.Some? && container.waiting.value == "CrashLoopBackOff" {
        return container.name, true;
      }
    }
    assert pod.containers[..|pod.containers|] == pod.containers;
    return "", false;
  }

  method Check(resource: Resource, listed: Result<seq<Pod>, string>) returns (result: CheckResult)
    ensures resource.NotFound? <==> result == NoResult
    ensures resource.Unreadable? ==>
              result == CheckResult(Error, "Failed to get NooBaa status: " + resource.error, [], [])
    ensures resource.Found? ==>
              var phase, elapsed := resource.phase, resource.elapsed;
              var start, line := PhaseSeverity(phase, elapsed), PhaseLine(phase, elapsed);
              && result.message == "NooBaa phase: " + phase
              && (listed.Err? ==>
                    && result.status == Level(if phase == "Rejected" then Critical else Warning)
                    && result.items == []
                    && result.details == [line, "[WARN] Failed to list NooBaa core pods: " + listed.error])
              && (listed == Ok([]) ==>
                    && result.status == Level(if phase == "Rejected" then Critical else Warning)
                    && result.items == []
                    && result.details == [line, "[WARN] No NooBaa core pods found"])
              && (listed.Ok? && listed.value != [] ==>
                    && result.status == Level(Overall(start, listed.value))
                    && result.details == [line] + Map(PodLine, listed.value)
                    && |result.items| == |listed.value|
                    && forall i | 0 <= i < |listed.value| ::
                         var pod := listed.value[i];
                         result.items[i] == CheckItem(pod.name, pod.phase, pod.node))
  {
    if resource.NotFound? {
      return NoResult;
    }
    if resource.Unreadable? {
      return CheckResult(Error, "Failed to get NooBaa status: " + resource.error, [], []);
    }
    var phase, elapsed := resource.phase, resource.elapsed;
    var status, details, items := OK, [], [];
    if phase == "Ready" {
      details := details + ["[INFO] Phase: Ready"];
      assert "[INFO] Phase: " + phase == "[INFO] Phase: Ready";
    } else if phase == "Creating" || phase == "Connecting" || phase == "Configuring" || phase == "Verifying" {
      if elapsed >= 5 * MINUTE {
        status := Warning;
        details := details + ["[WARN] Phase: " + phase + " (for " + FormatDuration(elapsed) + ")"];
      } else {
        details := details + ["[INFO] Phase: " + phase + " (for " + FormatDuration(elapsed) + ")"];
      }
    } else if phase == "Rejected" {
      status := Critical;
      details := details + ["[ERR] Phase: Rejected"];
    } else {
      details := details + ["[INFO] Phase: " + phase];
    }
    assert status == PhaseSeverity(phase, elapsed) && details == [PhaseLine(phase, elapsed)];
    var message := "NooBaa phase: " + phase;
    if listed.Err? {
      details := details + ["[WARN] Failed to list NooBaa core pods: " + listed.error];
      return CheckResult(Level(Worse(status, Warning)), message, details, []);
    }
    var pods := listed.value;
    if pods == [] {
      details := details + ["[WARN] No NooBaa core pods found"];
      return CheckResult(Level(Worse(status, Warning)), message, details, []);
    }
    status, details, items := CheckPods(status, details, pods);
    return CheckResult(Level(status), message, details, items);
  }

  /** The pod's line, and the status with the pod taken into account. */
  method CheckPod(before: Severity, pod: Pod) returns (status: Severity, line: string)
    ensures status == Worse(before, PodSeverity(pod)) && line == PodLine(pod)
  {
    status := before;
    var containerName, crashing := IsContainerCrashLooping(pod);
    if crashing {
      line := "[ERR] Core pod " + pod.name + ": container " + containerName + " in CrashLoopBackOff";
      status := Worse(status, Critical);
    } else if pod.phase == "Pending" {
      line := "[WARN] Core pod " + pod.name + " is Pending";
      status := Worse(status, Critical);
    } else {
      line := "[INFO] Core pod " + pod.name + " is " + pod.phase;
    }
  }

  method CheckPods(start: Severity, before: seq<string>, pods: seq<Pod>)
    returns (status: Severity, details: seq<string>, items: seq<CheckItem>)
    ensures status == Overall(start, pods)
    ensures details == before + Map(PodLine, pods)
    ensures items == Map(PodItem, pods)
  {
    status, details, items := start, before, [];
    for i := 0 to |pods|
      invariant status == Overall(start, pods[..i])
      invariant details == before + Map(PodLine, pods[..i])
      invariant items == Map(PodItem, pods[..i])
    {
      var pod := pods[i];
      assert pods[..i + 1][..i] == pods[..i];
      items := items + [CheckItem(pod.name, pod.phase, pod.node)];
      var line;
      status, line := CheckPod(status, pod);
      details := details + [line];
    }
    assert pods[..|pods|] == pods;
  }

  // ---------- What the status means ----------

  /** The status is the maximum of the phase's and all pods': at least each of them and equal to one. */
  lemma {:induction false} OverallIsMaximum(start: Severity, pods: seq<Pod>)
    ensures var worst := Overall(start, pods);
            && Rank(start) <= Rank(worst)
            && (forall pod <- pods :: Rank(PodSeverity(pod)) <= Rank(worst))
            && (worst == start || exists pod <- pods :: worst == PodSeverity(pod))
  {
    if pods != [] {
      var front, last := pods[..|pods| - 1], pods[|pods| - 1];
      OverallIsMaximum(start, front);
      assert pods == front + [last];
    }
  }

  /** Two lists with the same pods, whatever their order and repetitions, give the same status. */
  lemma OverallIgnoresOrder(start: Severity, pods: seq<Pod>, pods': seq<Pod>)
    requires forall pod :: pod in pods <==> pod in pods'
    ensures Overall(start, pods) == Overall(start, pods')
  {
    OverallIsMaximum(start, pods);
    OverallIsMaximum(start, pods');
  }

  /** A pod more, anywhere in the list, never improves the status. */
  lemma OverallNeverFalls(start: Severity, pods: seq<Pod>, more: seq<Pod>)
    requires forall pod <- pods :: pod in more
    ensures Rank(Overall(start, pods)) <= Rank(Overall(start, more))
  {
    OverallIsMaximum(start, pods);
    OverallIsMaximum(start, more);
  }

  /** The check is critical exactly for a rejected phase, a crash-looping pod or a pending one. */
  lemma CriticalExactly(phase: string, elapsed: int64, pods: seq<Pod>)
    ensures Overall(PhaseSeverity(phase, elapsed), pods) == Critical <==>
              || phase == "Rejected"
              || (exists pod <- pods :: pod.phase == "Pending")
              || (exists pod <- pods, container <- pod.containers :: container.waiting == Some("CrashLoopBackOff"))
  {
    OverallIsMaximum(PhaseSeverity(phase, elapsed), pods);
    if pod, container :| pod in pods && container in pod.containers && container.waiting == Some("CrashLoopBackOff") {
      assert Crashing(container) && CrashLooping(pod) && PodSeverity(pod) == Critical;
    }
  }

  /** And a warning exactly when it is not critical and one of four phases has lasted for five minutes or more. */
  lemma WarningExactly(phase: string, elapsed: int64, pods: seq<Pod>)
    ensures var status := Overall(PhaseSeverity(phase, elapsed), pods);
            status == Warning <==>
              && status != Critical
              && phase in {"Creating", "Connecting", "Configuring", "Verifying"}
              && elapsed >= 300_000_000_000
  {
    OverallIsMaximum(PhaseSeverity(phase, elapsed), pods);
  }

  /** The line for the phase; it is a warning in exactly the cases that make the status one. */
  lemma PhaseLineExactly(phase: string, elapsed: int64)
    ensures var slow := phase in {"Creating", "Connecting", "Configuring", "Verifying"};
            PhaseLine(phase, elapsed) ==
              if phase == "Rejected" then "[ERR] Phase: Rejected"
              else if slow && elapsed >= 300_000_000_000
              then "[WARN] Phase: " + phase + " (for " + FormatDuration(elapsed) + ")"
              else if slow then "[INFO] Phase: " + phase + " (for " + FormatDuration(elapsed) + ")"
              else "[INFO] Phase: " + phase
    ensures "[WARN]" <= PhaseLine(phase, elapsed) <==>
              phase in {"Creating", "Connecting", "Configuring", "Verifying"} && elapsed >= 300_000_000_000
  {
    var line := PhaseLine(phase, elapsed);
    assert "[WARN]" <= line ==> line[1] == "[WARN]"[1];
  }

  lemma {:induction false} FirstCrashingIsFirst(containers: seq<Container>, k: nat)
    requires k < |containers| && containers[k].waiting == Some("CrashLoopBackOff")
    requires forall j | 0 <= j < k :: containers[j].waiting != Some("CrashLoopBackOff")
    ensures FirstCrashing(containers) == containers[k].name
  {
    if k > 0 {
      FirstCrashingIsFirst(containers[1..], k - 1);
    }
  }

  /** The line for a pod: crash looping comes before pending, and the first crashing container is named. */
  lemma PodLineExactly(pod: Pod)
    ensures forall k | 0 <= k < |pod.containers| ::
              && pod.containers[k].waiting == Some("CrashLoopBackOff")
              && (forall j | 0 <= j < k :: pod.containers[j].waiting != Some("CrashLoopBackOff"))
              ==> PodLine(pod) == "[ERR] Core pod " + pod.name + ": container " + pod.containers[k].name
                                  + " in CrashLoopBackOff"
    ensures (forall container <- pod.containers :: container.waiting != Some("CrashLoopBackOff")) ==>
              PodLine(pod) == if pod.phase == "Pending" then "[WARN] Core pod " + pod.name + " is Pending"
                              else "[INFO] Core pod " + pod.name + " is " + pod.phase
  {
    forall k | 0 <= k < |pod.containers| && pod.containers[k].waiting == Some("CrashLoopBackOff")
               && forall j | 0 <= j < k :: pod.containers[j].waiting != Some("CrashLoopBackOff")
      ensures CrashLooping(pod) && FirstCrashing(pod.containers) == pod.containers[k].name
    {
      assert Crashing(pod.containers[k]) && pod.containers[k] in pod.containers;
      FirstCrashingIsFirst(pod.containers, k);
    }
  }

  /** Every warning line about a phase shows at least five minutes. */
  lemma PhaseWarningShowsFiveMinutes(phase: string, elapsed: int64)
    requires "[WARN]" <= PhaseLine(phase, elapsed)
    ensures PhaseLine(phase, elapsed) == "[WARN] Phase: " + phase + " (for " + FormatDuration(elapsed) + ")"
    ensures ReadDuration(FormatDuration(elapsed)).Some? && ReadDuration(FormatDuration(elapsed)).value >= 300
    ensures Minutes(elapsed) >= 5
  {
    PhaseLineExactly(phase, elapsed);
    FiveMinutesShow(elapsed);
  }
}
