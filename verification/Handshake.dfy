/** The handshake response and the network parameters a client holds on to across reconnects. */
module Handshake {
  import opened Wrappers
  import opened Cidr
  import opened Reconnect

  /** What the server assigns: for each family an address, its network and the gateway. */
  datatype Params = Params(
    assignedIp: Option<IpAddr>, network: Option<RawNet>, serverIp: Option<IpAddr>,
    assignedIp6: Option<IpAddr>, network6: Option<RawNet>, serverIp6: Option<IpAddr>)
  {
    predicate NonIpFieldsEq(other: Params) {
      network == other.network && serverIp == other.serverIp && network6 == other.network6 && serverIp6 == other.serverIp6
    }

    /** Each family is assigned as a whole or not at all, and one of them is. */
    predicate Whole() {
      && assignedIp.Some? == network.Some? == serverIp.Some?
      && assignedIp6.Some? == network6.Some? == serverIp6.Some?
      && (assignedIp.Some? || assignedIp6.Some?)
    }

    predicate SameFamilies(other: Params) {
      assignedIp.Some? == other.assignedIp.Some? && assignedIp6.Some? == other.assignedIp6.Some?
    }
  }

  datatype Response = Response(accepted: bool, params: Params)

  /** The three fields of one family, all present or all absent. */
  function FamilyTrio(ip: Option<IpAddr>, net: Option<RawNet>, gateway: Option<IpAddr>): Result<(), VpnError> {
    match (ip, net, gateway)
    case (Some(_), Some(_), Some(_)) => Ok(())
    case (None, None, None) => Ok(())
    case (_, _, _) => Err(Signaling)
  }

  /** Checks a decoded response and extracts the network parameters. */
  function ParseResponse(response: Response): Result<Params, VpnError> {
    if !response.accepted then Err(AuthenticationFailed)
    else
      var p := response.params;
      var v4 := FamilyTrio(p.assignedIp, p.network, p.serverIp);
      if v4.Err? then Err(v4.error)
      else
        var v6 := FamilyTrio(p.assignedIp6, p.network6, p.serverIp6);
        if v6.Err? then Err(v6.error)
        else if p.assignedIp.None? && p.assignedIp6.None? then Err(Signaling)
        else Ok(p)
  }

  /** A response is taken exactly when it is accepted and whole, and then unchanged; a refusal is final
      while a malformed response is retried. */
  lemma ParsesExactly(response: Response)
    ensures ParseResponse(response).Ok? <==> response.accepted && response.params.Whole()
    ensures ParseResponse(response).Ok? ==> ParseResponse(response).value == response.params
    ensures ParseResponse(response).Err? ==> ParseResponse(response).error == if response.accepted then Signaling else AuthenticationFailed
  {
  }

  // ---- Consistency over a client's life ----------------------------------------------------------

  predicate Consistent(baseline: Option<Params>, params: Params) {
    baseline.None? || baseline.value.NonIpFieldsEq(params)
  }

  /** The networks and the gateways of both families are the same; the assigned addresses need not be. */
  predicate SameNetworks(a: Params, b: Params) {
    a.network == b.network && a.serverIp == b.serverIp && a.network6 == b.network6 && a.serverIp6 == b.serverIp6
  }

  class EstablishedParams {
    var baseline: Option<Params>

    constructor ()
      ensures baseline == None
    {
      baseline := None;
    }

    /** Records the first parameters and compares later ones with those recorded. */
    method CheckParamsAgainst(params: Params) returns (r: Result<(), VpnError>)
      modifies this
      ensures old(baseline).None? || SameNetworks(old(baseline).value, params) ==> r == Ok(()) && baseline == Some(params)
      ensures old(baseline).Some? && !SameNetworks(old(baseline).value, params) ==>
                r == Err(ServerConfigChanged) && baseline == old(baseline)
    {
      if baseline.None? {
        baseline := Some(params);
        return Ok(());
      }
      var prev := baseline.value;
      if prev == params {
        return Ok(());
      }
      if prev.NonIpFieldsEq(params) {
        baseline := Some(params);
        return Ok(());
      }
      return Err(ServerConfigChanged);
    }

    /** One connection attempt up to the point where the tunnel is built. */
    method TryConnect(response: Response) returns (r: Result<Params, VpnError>)
      modifies this
      ensures var parsed := ParseResponse(response);
              if parsed.Err? then
                r == parsed && baseline == old(baseline)
              else if old(baseline).None? || SameNetworks(old(baseline).value, parsed.value) then
                r == parsed && baseline == Some(parsed.value)
              else
                r == Err(ServerConfigChanged) && baseline == old(baseline)
    {
      r := ParseResponse(response);
      if r.Ok? {
        var checked := CheckParamsAgainst(r.value);
        if checked.Err? {
          r := Err(checked.error);
        }
      }
    }

    /** The attempts of one run, in order; it stops at the first error that is not recoverable. */
    method Attempts(responses: seq<Response>) returns (used: seq<Option<Params>>)
      requires baseline == None
      modifies this
      ensures |used| <= |responses| && baseline == BaselineAfter(responses, |used|)
      ensures forall i :: 0 <= i < |used| ==> used[i] == SessionAt(responses, i)
      ensures forall i :: 0 <= i < |used| ==> !Fatal(responses, i)
      ensures |used| < |responses| ==> Fatal(responses, |used|)
    {
      hide ParseResponse;
      used := [];
      for i := 0 to |responses|
        invariant |used| == i && baseline == BaselineAfter(responses, i)
        invariant forall k :: 0 <= k < i ==> used[k] == SessionAt(responses, k) && !Fatal(responses, k)
      {
        ParsesExactly(responses[i]);
        var r := TryConnect(responses[i]);
        if r.Err? && !r.error.IsRecoverable() {
          return;
        }
        used := used + [if r.Ok? then Some(r.value) else None];
      }
    }
  }

  /** The recorded parameters after the first `n` attempts. */
  ghost function BaselineAfter(responses: seq<Response>, n: nat): Option<Params>
    requires n <= |responses|
    decreases n, 0
  {
    if n == 0 then None
    else if SessionAt(responses, n - 1).Some? then SessionAt(responses, n - 1)
    else BaselineAfter(responses, n - 1)
  }

  /** The parameters the `i`-th attempt builds a tunnel for, if it gets that far. */
  ghost function SessionAt(responses: seq<Response>, i: nat): Option<Params>
    requires i < |responses|
    decreases i, 1
  {
    var parsed := ParseResponse(responses[i]);
    if parsed.Ok? && Consistent(BaselineAfter(responses, i), parsed.value) then Some(parsed.value) else None
  }

  /** The attempt ends the client: the server refused, or its configuration changed. */
  ghost predicate Fatal(responses: seq<Response>, i: nat)
    requires i < |responses|
  {
    !responses[i].accepted || (responses[i].params.Whole() && SessionAt(responses, i).None?)
  }

  lemma {:induction false} BaselineAgrees(responses: seq<Response>, i: nat, n: nat)
    requires i < n <= |responses| && SessionAt(responses, i).Some?
    ensures BaselineAfter(responses, n).Some?
    ensures SameNetworks(BaselineAfter(responses, n).value, SessionAt(responses, i).value)
  {
    if i < n - 1 {
      BaselineAgrees(responses, i, n - 1);
    }
  }

  /**
   Over every run, an accepted and whole response becomes a session exactly when its networks and
   gateways are those of any earlier session of the run; otherwise the client quits. So sessions of one
   run never differ in anything but the assigned addresses, and no family comes or goes.
   */
  lemma SessionsShareConfig(responses: seq<Response>, i: nat, j: nat)
    requires i < j < |responses| && SessionAt(responses, i).Some?
    requires responses[j].accepted && responses[j].params.Whole()
    ensures SessionAt(responses, j).Some? <==> SameNetworks(responses[i].params, responses[j].params)
    ensures SessionAt(responses, j).None? ==> Fatal(responses, j)
    ensures SessionAt(responses, j).Some? ==> responses[i].params.SameFamilies(responses[j].params)
  {
    BaselineAgrees(responses, i, j);
    ParsesExactly(responses[i]);
    ParsesExactly(responses[j]);
  }

  /** A change of an assigned address alone, of either family, is always adopted and becomes the
      parameters the next attempt is compared with. */
  lemma ReassignedAddressIsAdopted(responses: seq<Response>, i: nat, ip: Option<IpAddr>, ip6: Option<IpAddr>)
    requires i + 1 < |responses| && SessionAt(responses, i).Some?
    requires responses[i + 1] == Response(true, responses[i].params.(assignedIp := ip, assignedIp6 := ip6))
    requires ip.Some? == responses[i].params.assignedIp.Some? && ip6.Some? == responses[i].params.assignedIp6.Some?
    ensures SessionAt(responses, i + 1) == Some(responses[i + 1].params) == BaselineAfter(responses, i + 2)
  {
    ParsesExactly(responses[i]);
    ParsesExactly(responses[i + 1]);
    SessionsShareConfig(responses, i, i + 1);
  }
}
