/** The mobile session: one tunnel descriptor, driven by one server session after another. */
module MobileSession {
  import opened Wrappers
  import opened Cidr
  import opened Reconnect
  import opened Handshake

  /** The interface settings applied to the tunnel descriptor. A netmask is kept as its prefix length;
      the MTU is a constant. */
  datatype NetworkConfig = NetworkConfig(
    assignedIp: Option<IpAddr>, netmask: Option<nat>, gateway: Option<IpAddr>,
    assignedIp6: Option<IpAddr>, prefixLen6: Option<nat>, gateway6: Option<IpAddr>,
    excludedRoutes: seq<IpNet>, excludedRoutes6: seq<IpNet>)

  function PrefixLen(net: Option<RawNet>): Option<nat> {
    match net
    case Some(n) => Some(n.prefixLen)
    case None => None
  }

  /** One connected, handshaked server session. */
  datatype Link = Link(connection: nat, info: Params, excludedRoutes: seq<IpNet>, excludedRoutes6: seq<IpNet>) {
    function Config(): NetworkConfig {
      NetworkConfig(info.assignedIp, PrefixLen(info.network), info.serverIp,
                    info.assignedIp6, PrefixLen(info.network6), info.serverIp6, excludedRoutes, excludedRoutes6)
    }
  }

  /** Two sessions have the same settings exactly when address, netmask length, gateway and excluded routes of both
      families agree. */
  lemma SameConfigExactly(a: Link, b: Link)
    ensures a.Config() == b.Config() <==>
            && a.info.assignedIp == b.info.assignedIp && a.info.serverIp == b.info.serverIp
            && a.info.assignedIp6 == b.info.assignedIp6 && a.info.serverIp6 == b.info.serverIp6
            && a.info.network.Some? == b.info.network.Some? && a.info.network6.Some? == b.info.network6.Some?
            && (a.info.network.Some? && b.info.network.Some? ==> a.info.network.value.prefixLen == b.info.network.value.prefixLen)
            && (a.info.network6.Some? && b.info.network6.Some? ==> a.info.network6.value.prefixLen == b.info.network6.value.prefixLen)
            && a.excludedRoutes == b.excludedRoutes && a.excludedRoutes6 == b.excludedRoutes6
  {
  }

  datatype SessionEvent = Reconnecting(reason: VpnError) | Reconnected

  // ---- The protocol ------------------------------------------------------------------------------

  /** What the session does, in order, with the answers it gets from outside. */
  datatype Action =
    | Drove(link: Link, result: Result<(), VpnError>)
    | Attempted(jitter: nat, delay: nat, made: Result<Link, VpnError>)
    | Notified(event: SessionEvent)
    | Closed(link: Link)

  datatype Phase =
    | Ready
    | Driven(result: Result<(), VpnError>)
    | Lost(failures: nat)
    | Tried(failures: nat, made: Result<Link, VpnError>)
    | Released
    | Wrong

  /** Where the protocol stands, and the session that serves the descriptor. */
  datatype State = State(phase: Phase, link: Link)

  function Next(applied: NetworkConfig, s: State, action: Action): State {
    match (s.phase, action)
    case (Ready, Drove(link, result)) =>
      if link == s.link then s.(phase := Driven(result)) else s.(phase := Wrong)
    case (Driven(Err(e)), Notified(Reconnecting(reason))) =>
      if reason == e && e.IsRecoverable() then s.(phase := Lost(0)) else s.(phase := Wrong)
    case (Lost(n), Attempted(jitter, delay, made)) =>
      if delay == Backoff(Counted(n + 1), jitter) then s.(phase := Tried(n + 1, made)) else s.(phase := Wrong)
    case (Tried(n, Err(e)), Notified(Reconnecting(reason))) =>
      if reason == e && e.IsRecoverable() then s.(phase := Lost(n)) else s.(phase := Wrong)
    case (Tried(_, Ok(link)), Notified(Reconnected)) =>
      if link.Config() == applied then State(Ready, link) else s.(phase := Wrong)
    case (Tried(_, Ok(link)), Closed(closed)) =>
      if link == closed && link.Config() != applied then s.(phase := Released) else s.(phase := Wrong)
    case (_, _) => s.(phase := Wrong)
  }

  function After(first: Link, trace: seq<Action>): State {
    if trace == [] then State(Ready, first)
    else Next(first.Config(), After(first, trace[..|trace| - 1]), trace[|trace| - 1])
  }

  /** The run followed the protocol. */
  predicate Follows(first: Link, trace: seq<Action>) {
    After(first, trace).phase != Wrong
  }

  /** The results of the sessions driven so far. */
  function Drives(trace: seq<Action>): seq<Result<(), VpnError>> {
    if trace == [] then []
    else
      var last := trace[|trace| - 1];
      Drives(trace[..|trace| - 1]) + if last.Drove? then [last.result] else []
  }

  datatype Attempt = Attempt(jitter: nat, made: Result<Link, VpnError>)

  /** The dials made so far. */
  function Dials(trace: seq<Action>): seq<Attempt> {
    if trace == [] then []
    else
      var last := trace[|trace| - 1];
      Dials(trace[..|trace| - 1]) + if last.Attempted? then [Attempt(last.jitter, last.made)] else []
  }

  /** The events reported so far. */
  function Events(trace: seq<Action>): seq<SessionEvent> {
    if trace == [] then []
    else
      var last := trace[|trace| - 1];
      Events(trace[..|trace| - 1]) + if last.Notified? then [last.event] else []
  }

  lemma NothingYet(first: Link)
    ensures After(first, []) == State(Ready, first) && Drives([]) == [] && Dials([]) == []
  {
  }

  lemma Snoc(first: Link, trace: seq<Action>, action: Action)
    ensures After(first, trace + [action]) == Next(first.Config(), After(first, trace), action)
    ensures Drives(trace + [action]) == Drives(trace) + if action.Drove? then [action.result] else []
    ensures Dials(trace + [action]) == Dials(trace) + if action.Attempted? then [Attempt(action.jitter, action.made)] else []
    ensures Events(trace + [action]) == Events(trace) + if action.Notified? then [action.event] else []
  {
    assert (trace + [action])[..|trace|] == trace;
  }

  /** How the run may end where the protocol stands; `wrap` is the answer to wrapping the descriptor. */
  ghost predicate EndsWith(phase: Phase, notifies: bool, wrap: ConnectResult, r: ConnectResult) {
    match phase
    case Ready => wrap.Err? && r == wrap
    case Driven(result) => r == result && (result.Ok? || !notifies || !result.error.IsRecoverable())
    case Tried(_, made) => made.Err? && !made.error.IsRecoverable() && r == Err(made.error)
    case Released => r == Err(ServerConfigChanged)
    case _ => false
  }

  /** Wrapping the descriptor, then driving a session over it until it ends. */
  datatype Drive = Drive(wrap: ConnectResult, result: ConnectResult)

  /** The trace took its answers from outside, in order. */
  ghost predicate Answered(trace: seq<Action>, drives: seq<Drive>, attempts: seq<Attempt>) {
    && Dials(trace) <= attempts
    && |Drives(trace)| <= |drives|
    && forall i :: 0 <= i < |Drives(trace)| ==> drives[i].wrap.Ok? && Drives(trace)[i] == drives[i].result
  }

  // ---- What every run keeps --------------------------------------------------------------------------

  lemma {:induction false} PrefixFollows(first: Link, trace: seq<Action>, n: nat)
    requires n <= |trace| && Follows(first, trace)
    ensures Follows(first, trace[..n])
    decreases |trace| - n
  {
    if n < |trace| {
      PrefixFollows(first, trace, n + 1);
      assert trace[..n + 1][..n] == trace[..n];
    } else {
      assert trace[..n] == trace;
    }
  }

  lemma {:induction false} ServingMatches(first: Link, trace: seq<Action>)
    ensures After(first, trace).link.Config() == first.Config()
  {
    hide Backoff, Link.Config;
    if trace != [] {
      ServingMatches(first, trace[..|trace| - 1]);
    }
  }

  lemma AtIndex(first: Link, trace: seq<Action>, i: nat)
    requires i < |trace| && Follows(first, trace)
    ensures Follows(first, trace[..i])
    ensures After(first, trace[..i + 1]) == Next(first.Config(), After(first, trace[..i]), trace[i])
    ensures Follows(first, trace[..i + 1])
  {
    PrefixFollows(first, trace, i);
    PrefixFollows(first, trace, i + 1);
    assert trace[..i + 1] == trace[..i] + [trace[i]];
    Snoc(first, trace[..i], trace[i]);
  }

  /** Every session ever driven over the descriptor has exactly the settings applied to it. */
  lemma DrivenSessionsMatch(first: Link, trace: seq<Action>, i: nat)
    requires i < |trace| && Follows(first, trace) && trace[i].Drove?
    ensures trace[i].link.Config() == first.Config()
  {
    hide Backoff, Link.Config, After;
    AtIndex(first, trace, i);
    ServingMatches(first, trace[..i]);
  }

  /** A session with other settings is closed, never announced and never driven, and ends the run. */
  lemma ChangedSessionIsReleased(first: Link, trace: seq<Action>, i: nat)
    requires i < |trace| && Follows(first, trace) && trace[i].Attempted? && trace[i].made.Ok?
    requires trace[i].made.value.Config() != first.Config()
    ensures |trace| <= i + 2
    ensures |trace| == i + 2 ==> trace[i + 1] == Closed(trace[i].made.value)
  {
    hide Backoff, Link.Config, After;
    AtIndex(first, trace, i);
    if |trace| > i + 1 {
      AtIndex(first, trace, i + 1);
      if |trace| > i + 2 {
        AtIndex(first, trace, i + 2);
      }
    }
  }

  /** Only a lost connection, the network or signalling is ever retried, and each is reported as what it was. */
  lemma OnlyRecoverableIsRetried(first: Link, trace: seq<Action>, i: nat)
    requires i < |trace| && Follows(first, trace) && trace[i].Notified? && trace[i].event.Reconnecting?
    ensures trace[i].event.reason in {ConnectionLost, Network, Signaling}
    ensures i > 0 && (trace[i - 1].Drove? || trace[i - 1].Attempted?)
    ensures trace[i - 1].Drove? ==> trace[i - 1].result == Err(trace[i].event.reason)
    ensures trace[i - 1].Attempted? ==> trace[i - 1].made == Err(trace[i].event.reason)
  {
    hide Backoff, Link.Config, After;
    AtIndex(first, trace, i);
    if i > 0 {
      AtIndex(first, trace, i - 1);
    } else {
      assert trace[..0] == [];
      NothingYet(first);
    }
    RecoverableExactly(trace[i].event.reason);
  }

  /** Losses reported since the last session came up. */
  function Reported(events: seq<SessionEvent>): nat {
    if events == [] || events[|events| - 1].Reconnected? then 0 else 1 + Reported(events[..|events| - 1])
  }

  function Reconnections(events: seq<SessionEvent>): nat {
    if events == [] then 0
    else Reconnections(events[..|events| - 1]) + if events[|events| - 1].Reconnected? then 1 else 0
  }

  /** Every `Reconnected` answers a `Reconnecting`. */
  ghost predicate Alternates(events: seq<SessionEvent>) {
    forall i :: 0 <= i < |events| && events[i].Reconnected? ==> i > 0 && events[i - 1].Reconnecting?
  }

  /** What the events say about where the protocol stands. */
  ghost predicate Tells(phase: Phase, events: seq<SessionEvent>, drives: nat) {
    && Alternates(events)
    && (match phase
        case Ready => Reported(events) == 0 && drives == Reconnections(events)
        case Driven(_) => Reported(events) == 0 && drives == Reconnections(events) + 1
        case Lost(n) => Reported(events) == n + 1 && drives == Reconnections(events) + 1
        case Tried(n, _) => Reported(events) == n >= 1 && drives == Reconnections(events) + 1
        case Released => Reported(events) >= 1 && drives == Reconnections(events) + 1
        case Wrong => true)
  }

  lemma ReportedSnoc(events: seq<SessionEvent>, event: SessionEvent)
    ensures Reported(events + [event]) == if event.Reconnected? then 0 else 1 + Reported(events)
    ensures Reconnections(events + [event]) == Reconnections(events) + if event.Reconnected? then 1 else 0
    ensures Alternates(events) && (event.Reconnected? ==> Reported(events) >= 1) ==> Alternates(events + [event])
  {
    assert (events + [event])[..|events|] == events;
  }

  lemma TellsStep(applied: NetworkConfig, s: State, action: Action, events: seq<SessionEvent>, drives: nat)
    requires Tells(s.phase, events, drives) && Next(applied, s, action).phase != Wrong
    ensures Tells(Next(applied, s, action).phase, events + if action.Notified? then [action.event] else [],
                  drives + if action.Drove? then 1 else 0)
  {
    hide Backoff, Link.Config, Reported, Reconnections, Alternates;
    if action.Notified? {
      ReportedSnoc(events, action.event);
    } else {
      assert events + [] == events;
    }
  }

  /**
   Over every run the reported events form a word of (Reconnecting+ Reconnected)* Reconnecting*, and they
   tell exactly how many sessions have been driven and how many dials of the current outage have failed.
   */
  lemma {:induction false} EventsTell(first: Link, trace: seq<Action>)
    requires Follows(first, trace)
    ensures Tells(After(first, trace).phase, Events(trace), |Drives(trace)|)
  {
    hide Backoff, Link.Config, Next, Tells;
    if trace == [] {
      NothingTold();
    } else {
      var n := |trace| - 1;
      AtIndex(first, trace, n);
      assert trace[..n + 1] == trace == trace[..n] + [trace[n]];
      EventsTell(first, trace[..n]);
      Snoc(first, trace[..n], trace[n]);
      TellsStep(first.Config(), After(first, trace[..n]), trace[n], Events(trace[..n]), |Drives(trace[..n])|);
    }
  }

  lemma NothingTold()
    ensures Tells(Ready, [], 0)
  {
  }

  /** So each dial waits the backoff of the losses reported since the last session came up. */
  lemma DialsWaitAsReported(first: Link, trace: seq<Action>, i: nat)
    requires i < |trace| && Follows(first, trace) && trace[i].Attempted?
    ensures trace[i].delay == Backoff(Counted(Reported(Events(trace[..i]))), trace[i].jitter)
    ensures Reported(Events(trace[..i])) >= 1
  {
    hide Backoff, Link.Config, After, Reported, Events;
    AtIndex(first, trace, i);
    EventsTell(first, trace[..i]);
  }

  class MobileSession {
    const first: Link
    var trace: seq<Action>
    /** The connection shown to path snapshots. */
    var current: nat

    ghost predicate Valid()
      reads this
    {
      Follows(first, trace) && current == After(first, trace).link.connection
    }

    ghost function Phase(): Phase
      reads this
    {
      After(first, trace).phase
    }

    constructor (link: Link)
      ensures first == link && trace == [] && Valid()
    {
      first := link;
      trace := [];
      current := link.connection;
    }

    method Do(action: Action)
      modifies this`trace
      ensures trace == old(trace) + [action]
      ensures After(first, trace) == Next(first.Config(), After(first, old(trace)), action)
      ensures Drives(trace) == Drives(old(trace)) + if action.Drove? then [action.result] else []
      ensures Dials(trace) == Dials(old(trace)) + if action.Attempted? then [Attempt(action.jitter, action.made)] else []
    {
      Snoc(first, trace, action);
      trace := trace + [action];
    }

    /** The inner loop: waits and dials until a session is made or an error is final; `None` while the
        answers have run out first. */
    method Reestablish(attempts: seq<Attempt>) returns (made: Option<Result<Link, VpnError>>)
      requires Valid() && Phase() == Lost(0) && Dials(trace) <= attempts
      modifies this`trace
      ensures Valid() && old(trace) <= trace && Dials(trace) <= attempts && Drives(trace) == old(Drives(trace))
      ensures made.None? ==> Phase().Lost? && Dials(trace) == attempts
      ensures made.Some? ==> Phase().Tried? && Phase().made == made.value
      ensures made.Some? && made.value.Err? ==> !made.value.error.IsRecoverable()
    {
      hide Backoff, After, Drives, Dials, Link.Config;
      var used := |Dials(trace)|;
      var failures := 0;
      ghost var n := 0;
      while used < |attempts|
        invariant Valid() && old(trace) <= trace && Drives(trace) == old(Drives(trace))
        invariant used <= |attempts| && Dials(trace) == attempts[..used]
        invariant failures == Counted(n) && Phase() == Lost(n)
        decreases |attempts| - used
      {
        failures := if failures == U32_MAX then U32_MAX else failures + 1;
        n := n + 1;
        var attempt := attempts[used];
        used := used + 1;
        Do(Attempted(attempt.jitter, Backoff(failures, attempt.jitter), attempt.made));
        if attempt.made.Ok? || !attempt.made.error.IsRecoverable() {
          return Some(attempt.made);
        }
        Do(Notified(Reconnecting(attempt.made.error)));
      }
      made := None;
    }

    /**
     Drives the tunnel over one descriptor. `drives` and `attempts` are the answers from outside; the
     run is still going when they are used up.
     */
    method Run(notifies: bool, drives: seq<Drive>, attempts: seq<Attempt>) returns (outcome: LoopOutcome)
      requires Valid() && trace == []
      modifies this
      ensures Valid() && Answered(trace, drives, attempts)
      ensures outcome.StillRunning? ==> (Phase() == Ready && |Drives(trace)| == |drives|) || (Phase().Lost? && Dials(trace) == attempts)
      ensures outcome.Ended? ==>
                EndsWith(Phase(), notifies, if Phase().Ready? && |Drives(trace)| < |drives| then drives[|Drives(trace)|].wrap else Ok(()), outcome.result)
      ensures outcome.Ended? && notifies && (Phase().Driven? || Phase().Tried?) ==>
                outcome.result.Ok? || outcome.result.error !in {ConnectionLost, Network, Signaling}
    {
      hide Backoff, After, Drives, Dials, Link.Config;
      NothingYet(first);
      var session := first;
      var k := 0;
      while k < |drives|
        invariant Valid() && k <= |drives| && |Drives(trace)| == k
        invariant After(first, trace) == State(Ready, session)
        invariant Answered(trace, drives, attempts)
      {
        if drives[k].wrap.Err? {
          return Ended(drives[k].wrap);
        }
        var result := drives[k].result;
        k := k + 1;
        Do(Drove(session, result));
        if result.Ok? || !notifies || !result.error.IsRecoverable() {
          return Ended(result);
        }
        Do(Notified(Reconnecting(result.error)));
        var tried := Reestablish(attempts);
        if tried.None? {
          return StillRunning;
        }
        if tried.value.Err? {
          return Ended(Err(tried.value.error));
        }
        var made := tried.value.value;
        if made.Config() != first.Config() {
          Do(Closed(made));
          return Ended(Err(ServerConfigChanged));
        }
        session := made;
        current := made.connection;
        Do(Notified(Reconnected));
      }
      outcome := StillRunning;
    }
  }
}
