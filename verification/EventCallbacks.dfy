/** The C interface: event callbacks, the exit hook and `stop`, which run on different threads. */
module EventCallbacks {
  import opened Wrappers
  import opened Reconnect
  import opened MobileSession

  datatype Code = RECONNECTING | RECONNECTED | ENDED | RECONFIGURE {
    predicate Final() {
      ENDED? || RECONFIGURE?
    }
  }

  function EventCode(event: SessionEvent): Code {
    if event.Reconnecting? then RECONNECTING else RECONNECTED
  }

  /** The code the exit hook reports. */
  function ExitCode(result: ConnectResult): Code {
    if result == Err(ServerConfigChanged) then RECONFIGURE else ENDED
  }

  /** The numbers the C interface promises. */
  function Number(code: Code): int {
    match code
    case RECONNECTING => 1
    case RECONNECTED => 2
    case ENDED => 3
    case RECONFIGURE => 4
  }

  /** A loss or failed dial is 1, a new session 2; an end is 4 exactly when the server's configuration changed,
      and 3 otherwise, cleanly or not. */
  lemma CodesExactly(event: SessionEvent, result: ConnectResult)
    ensures Number(EventCode(event)) == match event { case Reconnecting(_) => 1 case Reconnected => 2 }
    ensures Number(ExitCode(result)) == if result == Err(ServerConfigChanged) then 4 else 3
    ensures EventCode(event).Final() == false && ExitCode(result).Final()
  {
  }

  /** Every callback a run asks for, in order. */
  function Calls(events: seq<SessionEvent>, outcome: LoopOutcome): seq<Code> {
    seq(|events|, i requires 0 <= i < |events| => EventCode(events[i]))
    + if outcome.Ended? then [ExitCode(outcome.result)] else []
  }

  // ---- The lock protocol -----------------------------------------------------------------------------

  datatype Holder = Task | Stopper

  /** Where the spawned task stands: between callbacks, holding the lock before it has read the flag,
      inside the caller's callback, over, or aborted. */
  datatype TaskPc = Looping | Checking | Calling | Done | Aborted

  /** Where `stop` stands: not called or waiting for the lock, holding it, past it, returned. */
  datatype StopPc = NotCalled | Locked | Silenced | Returned

  datatype LockState = LockState(lock: Option<Holder>, stopped: bool, task: TaskPc, stop: StopPc, next: nat, delivered: seq<Code>)

  datatype Step = Acquire | Check | Return | Finish | StopAcquire | StopSet | StopReturn | Abort

  const Initial := LockState(None, false, Looping, NotCalled, 0, [])

  predicate Enabled(calls: seq<Code>, s: LockState, step: Step) {
    match step
    case Acquire => s.task == Looping && s.next < |calls| && s.lock == None
    case Check => s.task == Checking && s.next < |calls|
    case Return => s.task == Calling
    case Finish => s.task == Looping && s.next >= |calls|
    case StopAcquire => s.stop == NotCalled && s.lock == None
    case StopSet => s.stop == Locked
    case StopReturn => s.stop == Silenced
    case Abort => s.task == Looping && (s.stop == Silenced || s.stop == Returned)
  }

  function Apply(calls: seq<Code>, s: LockState, step: Step): LockState
    requires Enabled(calls, s, step)
  {
    match step
    case Acquire => s.(lock := Some(Task), task := Checking)
    case Check =>
      if s.stopped then s.(lock := None, task := Looping, next := s.next + 1)
      else s.(task := Calling, delivered := s.delivered + [calls[s.next]])
    case Return => s.(lock := None, task := Looping, next := s.next + 1)
    case Finish => s.(task := Done)
    case StopAcquire => s.(lock := Some(Stopper), stop := Locked)
    case StopSet => s.(lock := None, stopped := true, stop := Silenced)
    case StopReturn => s.(stop := Returned)
    case Abort => s.(task := Aborted)
  }

  /** An interleaving, as the states it passes through. */
  ghost predicate Execution(calls: seq<Code>, run: seq<LockState>) {
    && |run| > 0 && run[0] == Initial
    && forall i :: 0 < i < |run| ==> Moves(calls, run[i - 1], run[i])
  }

  ghost predicate Moves(calls: seq<Code>, s: LockState, t: LockState) {
    exists step :: Enabled(calls, s, step) && Apply(calls, s, step) == t
  }

  ghost predicate Invariant(calls: seq<Code>, s: LockState) {
    && (s.lock == Some(Task) <==> s.task == Checking || s.task == Calling)
    && (s.lock == Some(Stopper) <==> s.stop == Locked)
    && (s.stopped <==> s.stop == Silenced || s.stop == Returned)
    && (s.task == Checking || s.task == Calling ==> s.next < |calls|)
    && (s.task == Done ==> s.next == |calls|)
    && s.next <= |calls|
    && (s.task == Aborted ==> s.stopped)
    && (s.stopped ==> s.task != Calling && |s.delivered| <= s.next && s.delivered <= calls)
    && (!s.stopped ==> s.delivered == calls[..if s.task == Calling then s.next + 1 else s.next])
  }

  lemma StepKeeps(calls: seq<Code>, s: LockState, step: Step)
    requires Invariant(calls, s) && Enabled(calls, s, step)
    ensures Invariant(calls, Apply(calls, s, step))
    ensures s.stopped ==> Apply(calls, s, step).stopped && Apply(calls, s, step).delivered == s.delivered
    ensures s.delivered <= Apply(calls, s, step).delivered
  {
  }

  lemma {:induction false} AlwaysInvariant(calls: seq<Code>, run: seq<LockState>, i: nat)
    requires Execution(calls, run) && i < |run|
    ensures Invariant(calls, run[i])
  {
    hide Enabled, Apply;
    if i > 0 {
      AlwaysInvariant(calls, run, i - 1);
      assert Moves(calls, run[i - 1], run[i]);
      var step :| Enabled(calls, run[i - 1], step) && Apply(calls, run[i - 1], step) == run[i];
      StepKeeps(calls, run[i - 1], step);
    }
  }

  /** Callbacks are delivered in order without a gap; all of them unless `stop` came first. */
  lemma DeliveredInOrder(calls: seq<Code>, run: seq<LockState>, i: nat)
    requires Execution(calls, run) && i < |run|
    ensures run[i].delivered <= calls
    ensures run[i].task == Done && !run[i].stopped ==> run[i].delivered == calls
    ensures run[i].task == Calling ==> run[i].stop == NotCalled && run[i].lock == Some(Task)
    ensures run[i].stop == Silenced || run[i].stop == Returned ==> run[i].stopped && run[i].task != Calling
  {
    AlwaysInvariant(calls, run, i);
  }

  /** Once `stop` has set the flag, in every interleaving, no callback is in progress or ever begins. */
  lemma {:induction false} SilentAfterStop(calls: seq<Code>, run: seq<LockState>, i: nat, j: nat)
    requires Execution(calls, run) && i <= j < |run| && run[i].stopped
    ensures run[j].stopped && run[j].task != Calling && run[j].delivered == run[i].delivered
    decreases j - i
  {
    hide Enabled, Apply;
    AlwaysInvariant(calls, run, j);
    if i < j {
      SilentAfterStop(calls, run, i, j - 1);
      AlwaysInvariant(calls, run, j - 1);
      assert Moves(calls, run[j - 1], run[j]);
      var step :| Enabled(calls, run[j - 1], step) && Apply(calls, run[j - 1], step) == run[j];
      StepKeeps(calls, run[j - 1], step);
    }
  }

  // ---- Progress ----------------------------------------------------------------------------------------

  function StopRank(stop: StopPc): nat {
    match stop
    case NotCalled => 3
    case Locked => 2
    case Silenced => 1
    case Returned => 0
  }

  /** Steps left, at most. */
  function Rank(calls: seq<Code>, s: LockState): int {
    3 * (|calls| - s.next) + StopRank(s.stop)
    + match s.task { case Looping => 1 case Checking => 0 case Calling => -1 case Done => 0 case Aborted => 0 }
  }

  lemma StepDescends(calls: seq<Code>, s: LockState, step: Step)
    requires Invariant(calls, s) && Enabled(calls, s, step)
    ensures 0 <= Rank(calls, Apply(calls, s, step)) < Rank(calls, s)
  {
  }

  /** No deadlock: an interleaving that cannot go on has a returned `stop` and a task that is over. */
  lemma StuckMeansStopped(calls: seq<Code>, s: LockState)
    requires Invariant(calls, s) && forall step :: !Enabled(calls, s, step)
    ensures s.stop == Returned && (s.task == Done || s.task == Aborted)
  {
    assert !Enabled(calls, s, Acquire) && !Enabled(calls, s, Check) && !Enabled(calls, s, Return);
    assert !Enabled(calls, s, Finish) && !Enabled(calls, s, StopAcquire) && !Enabled(calls, s, StopSet);
    assert !Enabled(calls, s, StopReturn);
    match s.lock {
      case None =>
      case Some(Task) =>
      case Some(Stopper) =>
    }
  }

  /** Every interleaving of finitely many callbacks ends: no step can be repeated for ever. */
  lemma {:induction false} ExecutionsEnd(calls: seq<Code>, run: seq<LockState>, i: nat)
    requires Execution(calls, run) && i < |run|
    ensures 0 <= Rank(calls, run[i]) <= 3 * |calls| + 4 - i
  {
    hide Enabled, Apply;
    AlwaysInvariant(calls, run, i);
    if i > 0 {
      ExecutionsEnd(calls, run, i - 1);
      AlwaysInvariant(calls, run, i - 1);
      assert Moves(calls, run[i - 1], run[i]);
      var step :| Enabled(calls, run[i - 1], step) && Apply(calls, run[i - 1], step) == run[i];
      StepDescends(calls, run[i - 1], step);
    }
  }

  // ---- What the caller sees ------------------------------------------------------------------------------

  /** A word of (RECONNECTING+ RECONNECTED)* RECONNECTING*, then at most one final code. */
  ghost predicate WellReported(codes: seq<Code>) {
    && (forall i :: 0 <= i < |codes| && codes[i].Final() ==> i == |codes| - 1)
    && forall i :: 0 <= i < |codes| && codes[i] == RECONNECTED ==> i > 0 && codes[i - 1] == RECONNECTING
  }

  lemma CallsWellReported(events: seq<SessionEvent>, outcome: LoopOutcome)
    requires Alternates(events)
    ensures WellReported(Calls(events, outcome))
  {
    var calls := Calls(events, outcome);
    forall i | 0 <= i < |events|
      ensures calls[i] == EventCode(events[i])
    {
    }
  }

  /**
   For every run of a session and every interleaving of its callbacks with `stop`, the callbacks seen are
   well formed; a final code is the run's own exit code and nothing follows it.
   */
  lemma CallerSeesWellReported(first: Link, trace: seq<Action>, outcome: LoopOutcome, run: seq<LockState>, i: nat)
    requires Follows(first, trace) && Execution(Calls(Events(trace), outcome), run) && i < |run|
    ensures WellReported(run[i].delivered)
    ensures forall k :: 0 <= k < |run[i].delivered| && run[i].delivered[k].Final() ==>
              k == |Events(trace)| && outcome.Ended? && run[i].delivered[k] == ExitCode(outcome.result)
  {
    hide After, Events, Execution;
    var events := Events(trace);
    var calls := Calls(events, outcome);
    EventsTell(first, trace);
    CallsWellReported(events, outcome);
    DeliveredInOrder(calls, run, i);
    forall k | 0 <= k < |events|
      ensures !calls[k].Final()
    {
    }
  }

  // ---- Starting a run --------------------------------------------------------------------------------------

  datatype RunError = NoPendingSession | DupFailed

  class EzvpnHandle {
    var session: Option<Link>
    var task: Option<Link>

    constructor (link: Link)
      ensures session == Some(link) && task == None
    {
      session := Some(link);
      task := None;
    }

    /** Starts the one run of the pending session; a failed `dup` leaves it pending. */
    method Run(dup: bool) returns (r: Result<(), RunError>)
      modifies this
      ensures old(session).None? ==> r == Err(NoPendingSession) && session == None && task == old(task)
      ensures old(session).Some? && !dup ==> r == Err(DupFailed) && session == old(session) && task == old(task)
      ensures old(session).Some? && dup ==> r == Ok(()) && session == None && task == old(session)
    {
      var taken := session;
      session := None;
      if taken.None? {
        return Err(NoPendingSession);
      }
      if !dup {
        session := taken;
        return Err(DupFailed);
      }
      task := taken;
      return Ok(());
    }
  }
}
