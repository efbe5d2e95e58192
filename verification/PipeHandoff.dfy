/**
 `oc create ... | oc apply -f -` as the benchmark runs it: two child processes, the two goroutines that
 os/exec starts to copy their output and input, the synchronous io.Pipe between the goroutines, and the
 main goroutine with its fixed order of Start, Wait and Close. Both children start and exit successfully
 and `apply` reads its input to the end.
 */
module PipeHandoff {
  type byte = bv8

  datatype Main = StartCreate | StartApply | WaitCreate | CloseWriter | WaitApply | CloseReader | Finished

  /** A copying goroutine: waiting for input, holding bytes still to be passed on, or at the end. */
  datatype Copier = Idle | Holding(bytes: seq<byte>) | Ended

  datatype State = State(
    main: Main,
    unwritten: seq<byte>,   // create has still to write these
    createExited: bool,
    createOut: seq<byte>,   // kernel pipe: create to the first goroutine
    outCopier: Copier,
    writerClosed: bool,
    inCopier: Copier,
    applyIn: seq<byte>,     // kernel pipe: second goroutine to apply
    applyRead: seq<byte>,
    applySawEof: bool,
    applyExited: bool)

  datatype Event =
    | MainStep
    | CreateWrites(n: nat)
    | CreateExits
    | OutCopierReads(n: nat)
    | OutCopierEnds
    | Handover(n: nat)
    | InCopierWrites(n: nat)
    | InCopierEnds
    | ApplyReads(n: nat)
    | ApplySeesEof
    | ApplyExits

  /** Capacities of a kernel pipe and of a goroutine's copy buffer. */
  datatype Sizes = Sizes(pipe: nat, buffer: nat)

  ghost predicate Usable(sizes: Sizes) {
    sizes.pipe > 0 && sizes.buffer > 0
  }

  function Initial(output: seq<byte>): State {
    State(StartCreate, output, false, [], Idle, false, Idle, [], [], false, false)
  }

  function Held(copier: Copier): seq<byte> {
    if copier.Holding? then copier.bytes else []
  }

  function Hold(bytes: seq<byte>): Copier {
    if bytes == [] then Idle else Holding(bytes)
  }

  predicate CreateRuns(s: State) {
    !s.main.StartCreate?
  }

  predicate ApplyRuns(s: State) {
    !s.main.StartCreate? && !s.main.StartApply?
  }

  /** When an event can happen. `Wait` returns once the child has exited and its goroutine has ended. */
  predicate Enabled(sizes: Sizes, s: State, event: Event) {
    match event
    case MainStep =>
      && !s.main.Finished?
      && (s.main.WaitCreate? ==> s.createExited && s.outCopier.Ended?)
      && (s.main.WaitApply? ==> s.applyExited && s.inCopier.Ended?)
    case CreateWrites(n) =>
      CreateRuns(s) && 0 < n <= |s.unwritten| && |s.createOut| + n <= sizes.pipe
    case CreateExits =>
      CreateRuns(s) && !s.createExited && s.unwritten == []
    case OutCopierReads(n) =>
      CreateRuns(s) && s.outCopier.Idle? && 0 < n <= |s.createOut| && n <= sizes.buffer
    case OutCopierEnds =>
      CreateRuns(s) && s.outCopier.Idle? && s.createOut == [] && s.createExited
    case Handover(n) =>
      && ApplyRuns(s) && s.outCopier.Holding? && s.inCopier.Idle? && !s.writerClosed
      && 0 < n <= |s.outCopier.bytes| && n <= sizes.buffer
    case InCopierWrites(n) =>
      ApplyRuns(s) && s.inCopier.Holding? && 0 < n <= |s.inCopier.bytes| && |s.applyIn| + n <= sizes.pipe
    case InCopierEnds =>
      ApplyRuns(s) && s.inCopier.Idle? && s.writerClosed
    case ApplyReads(n) =>
      ApplyRuns(s) && !s.applySawEof && 0 < n <= |s.applyIn|
    case ApplySeesEof =>
      ApplyRuns(s) && !s.applySawEof && s.applyIn == [] && s.inCopier.Ended?
    case ApplyExits =>
      ApplyRuns(s) && s.applySawEof && !s.applyExited
  }

  function NextMain(main: Main): Main {
    match main
    case StartCreate => StartApply
    case StartApply => WaitCreate
    case WaitCreate => CloseWriter
    case CloseWriter => WaitApply
    case WaitApply => CloseReader
    case _ => Finished
  }

  function Step(sizes: Sizes, s: State, event: Event): State
    requires Enabled(sizes, s, event)
  {
    match event
    case MainStep =>
      s.(main := NextMain(s.main), writerClosed := s.writerClosed || s.main.CloseWriter?)
    case CreateWrites(n) =>
      s.(unwritten := s.unwritten[n..], createOut := s.createOut + s.unwritten[..n])
    case CreateExits => s.(createExited := true)
    case OutCopierReads(n) =>
      s.(createOut := s.createOut[n..], outCopier := Holding(s.createOut[..n]))
    case OutCopierEnds => s.(outCopier := Ended)
    case Handover(n) =>
      s.(outCopier := Hold(s.outCopier.bytes[n..]), inCopier := Holding(s.outCopier.bytes[..n]))
    case InCopierWrites(n) =>
      s.(inCopier := Hold(s.inCopier.bytes[n..]), applyIn := s.applyIn + s.inCopier.bytes[..n])
    case InCopierEnds => s.(inCopier := Ended)
    case ApplyReads(n) =>
      s.(applyIn := s.applyIn[n..], applyRead := s.applyRead + s.applyIn[..n])
    case ApplySeesEof => s.(applySawEof := true)
    case ApplyExits => s.(applyExited := true)
  }

  /** Consecutive states of a run from the start with `output` to be piped. */
  ghost predicate IsRun(sizes: Sizes, output: seq<byte>, states: seq<State>, events: seq<Event>) {
    && |states| == |events| + 1
    && states[0] == Initial(output)
    && (forall m | 0 <= m < |events| ::
          Enabled(sizes, states[m], events[m]) && states[m + 1] == Step(sizes, states[m], events[m]))
  }

  function Rank(main: Main): nat {
    match main
    case StartCreate => 6
    case StartApply => 5
    case WaitCreate => 4
    case CloseWriter => 3
    case WaitApply => 2
    case CloseReader => 1
    case Finished => 0
  }

  /** The main goroutine does these things in this order, and waits only for what it should. */
  lemma MainFollowsProgram(sizes: Sizes, s: State, event: Event)
    requires Enabled(sizes, s, event)
    ensures var program := [StartCreate, StartApply, WaitCreate, CloseWriter, WaitApply, CloseReader, Finished];
            var next := Step(sizes, s, event);
            if event == MainStep
            then exists j | 0 <= j < 6 :: s.main == program[j] && next.main == program[j + 1]
            else next.main == s.main
    ensures event == MainStep && s.main == WaitCreate ==> s.createExited && s.outCopier == Ended
    ensures event == MainStep && s.main == WaitApply ==> s.applyExited && s.inCopier == Ended
    ensures Step(sizes, s, event).writerClosed <==> s.writerClosed || (event == MainStep && s.main == CloseWriter)
  {
    if event == MainStep {
      var program := [StartCreate, StartApply, WaitCreate, CloseWriter, WaitApply, CloseReader, Finished];
      var j := 6 - Rank(s.main);
      assert s.main == program[j] && Step(sizes, s, event).main == program[j + 1];
    }
  }

  // ---------- What every state keeps ----------

  /** The bytes on their way from create to apply, the furthest first. */
  function InFlight(s: State): seq<byte> {
    s.applyIn + (Held(s.inCopier) + (Held(s.outCopier) + (s.createOut + s.unwritten)))
  }

  /** Each end is reached only after everything before it, and the buffers hold no more than they can. */
  ghost predicate Ordered(sizes: Sizes, s: State) {
    && (s.outCopier.Holding? ==> s.outCopier.bytes != [])
    && (s.inCopier.Holding? ==> s.inCopier.bytes != [])
    && |s.createOut| <= sizes.pipe && |s.applyIn| <= sizes.pipe
    && (s.createExited ==> CreateRuns(s) && s.unwritten == [])
    && (s.outCopier.Ended? ==> s.createExited && s.createOut == [])
    && (Rank(s.main) <= 3 ==> s.createExited && s.outCopier.Ended?)
    && (s.writerClosed <==> Rank(s.main) <= 2)
    && (s.inCopier.Ended? ==> s.writerClosed)
    && (s.applySawEof ==> s.inCopier.Ended? && s.applyIn == [])
    && (s.applyExited ==> s.applySawEof)
    && (Rank(s.main) <= 1 ==> s.applyExited && s.inCopier.Ended?)
  }

  ghost predicate Invariant(sizes: Sizes, output: seq<byte>, s: State) {
    s.applyRead + InFlight(s) == output && Ordered(sizes, s)
  }

  lemma MoveForward(a: seq<byte>, b: seq<byte>, tail: seq<byte>, n: nat)
    requires n <= |b|
    ensures (a + b[..n]) + (b[n..] + tail) == a + (b + tail)
    ensures (a + b[..n]) + b[n..] == a + b
    ensures b[..n] + (b[n..] + tail) == [] + (b + tail)
  {
    assert b == b[..n] + b[n..];
  }

  /** Nothing is lost, duplicated or reordered between the two states. */
  ghost predicate Conserves(s: State, next: State) {
    next.applyRead + InFlight(next) == s.applyRead + InFlight(s)
  }

  lemma CreateConserves(s: State, n: nat)
    requires n <= |s.unwritten|
    ensures Conserves(s, s.(unwritten := s.unwritten[n..], createOut := s.createOut + s.unwritten[..n]))
  {
    MoveForward(s.createOut, s.unwritten, [], n);
  }

  lemma OutCopierConserves(s: State, n: nat)
    requires n <= |s.createOut| && s.outCopier.Idle?
    ensures Conserves(s, s.(createOut := s.createOut[n..], outCopier := Holding(s.createOut[..n])))
  {
    MoveForward([], s.createOut, s.unwritten, n);
  }

  lemma HandoverConserves(s: State, n: nat)
    requires s.outCopier.Holding? && s.inCopier.Idle? && n <= |s.outCopier.bytes|
    ensures Conserves(s, s.(outCopier := Hold(s.outCopier.bytes[n..]), inCopier := Holding(s.outCopier.bytes[..n])))
  {
    MoveForward([], s.outCopier.bytes, s.createOut + s.unwritten, n);
  }

  lemma InCopierConserves(s: State, n: nat)
    requires s.inCopier.Holding? && n <= |s.inCopier.bytes|
    ensures Conserves(s, s.(inCopier := Hold(s.inCopier.bytes[n..]), applyIn := s.applyIn + s.inCopier.bytes[..n]))
  {
    MoveForward(s.applyIn, s.inCopier.bytes, Held(s.outCopier) + (s.createOut + s.unwritten), n);
  }

  lemma ApplyConserves(s: State, n: nat)
    requires n <= |s.applyIn|
    ensures Conserves(s, s.(applyIn := s.applyIn[n..], applyRead := s.applyRead + s.applyIn[..n]))
  {
    MoveForward(s.applyRead, s.applyIn, Held(s.inCopier) + (Held(s.outCopier) + (s.createOut + s.unwritten)), n);
  }

  lemma BytesConserved(sizes: Sizes, s: State, event: Event)
    requires Enabled(sizes, s, event)
    ensures Conserves(s, Step(sizes, s, event))
  {
    match event
    case CreateWrites(n) => CreateConserves(s, n);
    case OutCopierReads(n) => OutCopierConserves(s, n);
    case Handover(n) => HandoverConserves(s, n);
    case InCopierWrites(n) => InCopierConserves(s, n);
    case ApplyReads(n) => ApplyConserves(s, n);
    case _ =>
  }

  lemma StaysOrdered(sizes: Sizes, s: State, event: Event)
    requires Ordered(sizes, s) && Enabled(sizes, s, event)
    ensures Ordered(sizes, Step(sizes, s, event))
  {
    if event == MainStep {
      assert Rank(Step(sizes, s, event).main) == Rank(s.main) - 1;
    }
  }

  lemma InvariantStep(sizes: Sizes, output: seq<byte>, s: State, event: Event)
    requires Invariant(sizes, output, s) && Enabled(sizes, s, event)
    ensures Invariant(sizes, output, Step(sizes, s, event))
  {
    BytesConserved(sizes, s, event);
    StaysOrdered(sizes, s, event);
  }

  lemma {:induction false} InvariantRun(sizes: Sizes, output: seq<byte>, states: seq<State>, events: seq<Event>)
    requires IsRun(sizes, output, states, events)
    ensures Invariant(sizes, output, states[|events|])
  {
    if events == [] {
      assert InFlight(states[0]) == output;
    } else {
      var m := |events| - 1;
      InvariantRun(sizes, output, states[..m + 1], events[..m]);
      InvariantStep(sizes, output, states[m], events[m]);
    }
  }

  /** In every reachable state apply has read a prefix of the output, and all of it once it sees the end. */
  lemma AppliedIsPrefix(sizes: Sizes, output: seq<byte>, states: seq<State>, events: seq<Event>)
    requires IsRun(sizes, output, states, events)
    ensures var s := states[|events|];
            s.applyRead <= output && (s.applySawEof || s.main.Finished? ==> s.applyRead == output)
  {
    InvariantRun(sizes, output, states, events);
  }

  /** No reachable state is stuck: until main has finished, something can happen. */
  lemma NeverStuck(sizes: Sizes, output: seq<byte>, states: seq<State>, events: seq<Event>)
    requires Usable(sizes) && IsRun(sizes, output, states, events)
    requires !states[|events|].main.Finished?
    ensures exists event :: Enabled(sizes, states[|events|], event)
  {
    InvariantRun(sizes, output, states, events);
    SomethingHappens(sizes, output, states[|events|]);
  }

  lemma SomethingHappens(sizes: Sizes, output: seq<byte>, s: State)
    requires Usable(sizes) && Invariant(sizes, output, s) && !s.main.Finished?
    ensures exists event :: Enabled(sizes, s, event)
  {
    var event :=
      if Enabled(sizes, s, MainStep) then MainStep
      else if s.applyIn != [] then ApplyReads(1)
      else if s.inCopier.Holding? then InCopierWrites(1)
      else if s.outCopier.Holding? then Handover(1)
      else if s.createOut != [] then OutCopierReads(1)
      else if s.unwritten != [] then CreateWrites(1)
      else if !s.createExited then CreateExits
      else if !s.outCopier.Ended? then OutCopierEnds
      else if !s.inCopier.Ended? then InCopierEnds
      else if !s.applySawEof then ApplySeesEof
      else ApplyExits;
    assert Enabled(sizes, s, event);
  }

  // ---------- Every run ends ----------

  /** Moves left for the bytes in flight: each byte moves five times. */
  function ByteMoves(s: State): nat {
    5 * |s.unwritten| + 4 * |s.createOut| + 3 * |Held(s.outCopier)| + 2 * |Held(s.inCopier)| + |s.applyIn|
  }

  /** Ends, exits and steps of main still to come. */
  function ControlMoves(s: State): nat {
    Rank(s.main)
    + (if s.createExited then 0 else 1) + (if s.outCopier.Ended? then 0 else 1)
    + (if s.inCopier.Ended? then 0 else 1) + (if s.applySawEof then 0 else 1) + (if s.applyExited then 0 else 1)
  }

  /** The event passes bytes on. */
  predicate MovesBytes(event: Event) {
    event.CreateWrites? || event.OutCopierReads? || event.Handover? || event.InCopierWrites? || event.ApplyReads?
  }

  lemma BytesMove(sizes: Sizes, s: State, event: Event)
    requires Enabled(sizes, s, event) && MovesBytes(event)
    ensures ByteMoves(Step(sizes, s, event)) < ByteMoves(s)
    ensures ControlMoves(Step(sizes, s, event)) == ControlMoves(s)
  {
    var next := Step(sizes, s, event);
    match event
    case CreateWrites(n) => assert ByteMoves(next) == ByteMoves(s) - n;
    case OutCopierReads(n) => assert ByteMoves(next) == ByteMoves(s) - n;
    case Handover(n) => assert ByteMoves(next) == ByteMoves(s) - n;
    case InCopierWrites(n) => assert ByteMoves(next) == ByteMoves(s) - n;
    case ApplyReads(n) => assert ByteMoves(next) == ByteMoves(s) - n;
  }

  lemma ControlSettles(sizes: Sizes, s: State, event: Event)
    requires Enabled(sizes, s, event) && !MovesBytes(event)
    ensures ByteMoves(Step(sizes, s, event)) == ByteMoves(s)
    ensures ControlMoves(Step(sizes, s, event)) == ControlMoves(s) - 1
  {
    var next := Step(sizes, s, event);
    match event
    case MainStep => assert Rank(next.main) == Rank(s.main) - 1;
    case CreateExits => assert next.createExited && !s.createExited;
    case OutCopierEnds => assert next.outCopier.Ended? && !s.outCopier.Ended?;
    case InCopierEnds => assert next.inCopier.Ended? && !s.inCopier.Ended?;
    case ApplySeesEof => assert next.applySawEof && !s.applySawEof;
    case ApplyExits => assert next.applyExited && !s.applyExited;
  }

  /** Every event moves bytes forward, or moves none and settles one control step for good. */
  lemma EveryEventProgresses(sizes: Sizes, s: State, event: Event)
    requires Enabled(sizes, s, event)
    ensures var next := Step(sizes, s, event);
            || (ByteMoves(next) < ByteMoves(s) && ControlMoves(next) == ControlMoves(s))
            || (ByteMoves(next) == ByteMoves(s) && ControlMoves(next) == ControlMoves(s) - 1)
  {
    if MovesBytes(event) {
      BytesMove(sizes, s, event);
    } else {
      ControlSettles(sizes, s, event);
    }
  }

  lemma {:induction false} RunsAreBounded(sizes: Sizes, output: seq<byte>, states: seq<State>, events: seq<Event>)
    requires IsRun(sizes, output, states, events)
    ensures |events| + ByteMoves(states[|events|]) + ControlMoves(states[|events|]) <= 5 * |output| + 11
  {
    if events != [] {
      var m := |events| - 1;
      RunsAreBounded(sizes, output, states[..m + 1], events[..m]);
      EveryEventProgresses(sizes, states[m], events[m]);
    }
  }

  /** A run that cannot go on has finished, and apply has read exactly what create wrote. */
  lemma MaximalRunsDeliver(sizes: Sizes, output: seq<byte>, states: seq<State>, events: seq<Event>)
    requires Usable(sizes) && IsRun(sizes, output, states, events)
    ensures |events| <= 5 * |output| + 11
    ensures (forall event :: !Enabled(sizes, states[|events|], event)) ==>
              states[|events|].main.Finished? && states[|events|].applyRead == output
  {
    RunsAreBounded(sizes, output, states, events);
    InvariantRun(sizes, output, states, events);
    if !states[|events|].main.Finished? {
      NeverStuck(sizes, output, states, events);
    }
  }
}
