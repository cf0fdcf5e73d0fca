/** The reconnect loop: which failures are retried, when it gives up, and how long it waits. */
module Reconnect {
  import opened Wrappers
  import opened Cidr

  datatype VpnError =
    | TunDevice | Network | Config | Signaling | AuthenticationFailed | IpAssignment | ConnectionLost
    | MaxReconnectAttemptsExceeded(max: nat) | ServerConfigChanged | RouteOverlapsLocalNetwork
  {
    predicate IsRecoverable() {
      ConnectionLost? || Network? || Signaling?
    }
  }

  /** A lost connection, the network and signalling are worth another try; nothing else is. */
  lemma RecoverableExactly(e: VpnError)
    ensures e in {ConnectionLost, Network, Signaling} <==> e.IsRecoverable()
    ensures e.IsRecoverable() ==> e !in {TunDevice, Config, AuthenticationFailed, IpAssignment, ServerConfigChanged, RouteOverlapsLocalNetwork}
  {
  }

  const U32_MAX: nat := 0xFFFF_FFFF
  const U64_MAX: nat := 0xFFFF_FFFF_FFFF_FFFF

  // ---- Backoff ---------------------------------------------------------------------------------

  const BACKOFF_BASE_MS: nat := 1000
  const BACKOFF_MAX_MS: nat := 60_000

  /** `2_u64.saturating_pow(exp)`. */
  function SaturatingPow2(exp: nat): nat {
    if exp >= 64 then U64_MAX else Pow2(exp)
  }

  function SaturatingMul(a: nat, b: nat): nat {
    if a * b > U64_MAX then U64_MAX else a * b
  }

  function SaturatingAdd(a: nat, b: nat): nat {
    if a + b > U64_MAX then U64_MAX else a + b
  }

  function SaturatingSub(a: nat, b: nat): nat {
    if a < b then 0 else a - b
  }

  /** Delay in milliseconds before retry number `attempt`, given the random jitter. */
  function Backoff(attempt: nat, jitter: nat): nat {
    var multiplier := SaturatingPow2(SaturatingSub(attempt, 1));
    var base := SaturatingMul(BACKOFF_BASE_MS, multiplier);
    var total := SaturatingAdd(base, jitter);
    if total < BACKOFF_MAX_MS then total else BACKOFF_MAX_MS
  }

  lemma {:induction false} PowMonotone(a: nat, b: nat)
    requires a <= b
    ensures Pow2(a) <= Pow2(b)
    decreases b - a
  {
    if a < b {
      PowMonotone(a + 1, b);
    }
  }

  /** The schedule in closed form: doubling seconds plus jitter, then the cap from the seventh retry on. */
  lemma BackoffSchedule(attempt: nat, jitter: nat)
    requires jitter < 500
    ensures attempt >= 7 ==> Backoff(attempt, jitter) == 60_000
    ensures 1 <= attempt <= 6 ==> Backoff(attempt, jitter) == 1000 * Pow2(attempt - 1) + jitter < 60_000
    ensures attempt == 0 ==> Backoff(attempt, jitter) == 1000 + jitter
  {
    assert Pow2(5) == 32 && Pow2(6) == 64;
    if attempt >= 7 {
      PowMonotone(6, attempt - 1);
      assert SaturatingPow2(attempt - 1) >= 64;
    } else if attempt >= 1 {
      PowMonotone(attempt - 1, 5);
    }
  }

  /** Within an outage later retries never wait less, whatever the jitter, and wait strictly longer until
      the delay has reached its constant 60 seconds. */
  lemma BackoffGrows(a: nat, b: nat, ja: nat, jb: nat)
    requires 1 <= a < b && ja < 500 && jb < 500
    ensures Backoff(a, ja) < Backoff(b, jb) || Backoff(a, ja) == Backoff(b, jb) == 60_000
    ensures Backoff(a, ja) == 60_000 <==> a >= 7
  {
    BackoffSchedule(a, ja);
    BackoffSchedule(b, jb);
    if b <= 6 {
      PowMonotone(a, b - 1);
      assert Pow2(a) == 2 * Pow2(a - 1) && Pow2(a - 1) >= 1;
    }
  }

  // ---- The loop --------------------------------------------------------------------------------

  type ConnectResult = Result<(), VpnError>

  predicate Retried(r: ConnectResult) {
    r.Err? && r.error.IsRecoverable()
  }

  /** Failures of the outage that the `i`-th connection attempt belongs to, itself included. A lost
      connection had been up, so it opens a new outage. */
  function OutageFailures(results: seq<ConnectResult>, i: nat): (n: nat)
    requires i < |results|
    ensures n >= 1
  {
    if i == 0 || results[i] == Err(ConnectionLost) then 1 else 1 + OutageFailures(results, i - 1)
  }

  /** The `u32` counter saturates. */
  function Counted(n: nat): nat {
    if n > U32_MAX then U32_MAX else n
  }

  predicate CapExceeded(results: seq<ConnectResult>, cap: Option<nat>, i: nat)
    requires i < |results|
  {
    cap.Some? && Retried(results[i]) && Counted(OutageFailures(results, i)) > cap.value
  }

  predicate EndsAt(results: seq<ConnectResult>, cap: Option<nat>, i: nat)
    requires i < |results|
  {
    !Retried(results[i]) || CapExceeded(results, cap, i)
  }

  /** How the loop ended, if the given results made it end. */
  datatype LoopOutcome = StillRunning | Ended(result: ConnectResult)

  /** None of the first `n` results ended the loop. */
  ghost predicate RunsThrough(results: seq<ConnectResult>, cap: Option<nat>, n: nat)
    requires n <= |results|
  {
    forall k :: 0 <= k < n ==> !EndsAt(results, cap, k)
  }

  /** The waits after the first results: each backed off by the length of its own outage. */
  ghost predicate BackedOff(results: seq<ConnectResult>, jitters: seq<nat>, delays: seq<nat>)
    requires |delays| <= |results| == |jitters|
  {
    forall i :: 0 <= i < |delays| ==> delays[i] == Backoff(Counted(OutageFailures(results, i)), jitters[i])
  }

  lemma FailuresStep(results: seq<ConnectResult>, i: nat)
    requires i < |results| && Retried(results[i])
    ensures var before := if i == 0 || results[i].error.ConnectionLost? then 0 else Counted(OutageFailures(results, i - 1));
            Counted(OutageFailures(results, i)) == if before == U32_MAX then U32_MAX else before + 1
  {
  }

  lemma NothingBackedOff(results: seq<ConnectResult>, jitters: seq<nat>)
    requires |results| == |jitters|
    ensures BackedOff(results, jitters, [])
  {
  }

  lemma BackedOffSnoc(results: seq<ConnectResult>, jitters: seq<nat>, delays: seq<nat>, delay: nat)
    requires |delays| < |results| == |jitters| && BackedOff(results, jitters, delays)
    requires delay == Backoff(Counted(OutageFailures(results, |delays|)), jitters[|delays|])
    ensures BackedOff(results, jitters, delays + [delay])
  {
    hide Backoff, OutageFailures, Counted;
  }

  /** Runs the loop over the results `connect` gives in turn; `jitters` are the random draws. */
  method RunWithReconnect(results: seq<ConnectResult>, cap: Option<nat>, jitters: seq<nat>)
    returns (outcome: LoopOutcome, used: nat, delays: seq<nat>)
    requires |jitters| == |results|
    ensures |delays| <= used <= |results| && RunsThrough(results, cap, |delays|) && BackedOff(results, jitters, delays)
    ensures outcome.StillRunning? ==> |delays| == used == |results|
    ensures outcome.Ended? ==>
              && used == |delays| + 1 && EndsAt(results, cap, used - 1)
              && outcome.result == if CapExceeded(results, cap, used - 1) then Err(MaxReconnectAttemptsExceeded(cap.value))
                                   else results[used - 1]
  {
    hide Backoff, BackedOff, OutageFailures, Counted;
    var failures := 0;
    delays := [];
    used := 0;
    NothingBackedOff(results, jitters);
    while used < |results|
      invariant used <= |results| && |delays| == used
      invariant failures == if used == 0 then 0 else Counted(OutageFailures(results, used - 1))
      invariant RunsThrough(results, cap, used)
      invariant BackedOff(results, jitters, delays)
    {
      var r := results[used];
      used := used + 1;
      if r.Ok? || !r.error.IsRecoverable() {
        return Ended(r), used, delays;
      }
      if r.error.ConnectionLost? {
        failures := 0;
      }
      failures := if failures == U32_MAX then U32_MAX else failures + 1;
      FailuresStep(results, used - 1);
      if cap.Some? && failures > cap.value {
        return Ended(Err(MaxReconnectAttemptsExceeded(cap.value))), used, delays;
      }
      var delay := Backoff(failures, jitters[used - 1]);
      BackedOffSnoc(results, jitters, delays, delay);
      delays := delays + [delay];
    }
    outcome := StillRunning;
  }

  lemma {:induction false} OutageBounded(results: seq<ConnectResult>, cap: nat, i: nat)
    requires i < |results| && 1 <= cap < U32_MAX && RunsThrough(results, Some(cap), i + 1)
    ensures OutageFailures(results, i) <= cap
  {
    assert !EndsAt(results, Some(cap), i);
  }

  /**
   For any cap below `u32::MAX` the loop gives up exactly on failure cap + 1 of one outage: never on a
   lost connection, never before, and never later.
   */
  lemma GivesUpExactly(results: seq<ConnectResult>, cap: nat, i: nat)
    requires i < |results| && 1 <= cap < U32_MAX && RunsThrough(results, Some(cap), i) && Retried(results[i])
    ensures CapExceeded(results, Some(cap), i) <==> OutageFailures(results, i) == cap + 1
    ensures CapExceeded(results, Some(cap), i) ==> results[i] != Err(ConnectionLost)
  {
    if i > 0 {
      OutageBounded(results, cap, i - 1);
    }
  }

  /** With a cap of `u32::MAX`, or none, the loop never gives up: the saturated counter cannot exceed it. */
  lemma NeverGivesUp(results: seq<ConnectResult>, cap: Option<nat>, i: nat)
    requires i < |results| && (cap.None? || cap.value >= U32_MAX)
    ensures !CapExceeded(results, cap, i)
  {
  }

  /** Two attempts of one outage: every attempt between them was part of it too. */
  ghost predicate SameOutage(results: seq<ConnectResult>, a: nat, b: nat) {
    a <= b < |results| && forall k :: a < k <= b ==> results[k] != Err(ConnectionLost)
  }

  lemma {:induction false} OutageCounts(results: seq<ConnectResult>, a: nat, b: nat)
    requires SameOutage(results, a, b)
    ensures OutageFailures(results, b) == OutageFailures(results, a) + (b - a)
    decreases b - a
  {
    if a < b {
      OutageCounts(results, a, b - 1);
    }
  }

  /** The delays of one outage strictly increase, whatever the jitter, until they are constant at the cap;
      a lost connection starts over at one second. */
  lemma OutageDelaysGrow(results: seq<ConnectResult>, a: nat, b: nat, ja: nat, jb: nat)
    requires SameOutage(results, a, b) && a < b && ja < 500 && jb < 500
    ensures var da, db := Backoff(Counted(OutageFailures(results, a)), ja), Backoff(Counted(OutageFailures(results, b)), jb);
            da < db || da == db == 60_000
    ensures results[a] == Err(ConnectionLost) ==> Backoff(Counted(OutageFailures(results, a)), ja) == 1000 + ja
  {
    hide Backoff;
    OutageCounts(results, a, b);
    var na, nb := OutageFailures(results, a), OutageFailures(results, b);
    BackoffSchedule(Counted(na), ja);
    BackoffSchedule(Counted(nb), jb);
    assert Pow2(0) == 1;
    if Counted(na) < Counted(nb) {
      BackoffGrows(Counted(na), Counted(nb), ja, jb);
    }
  }
}
