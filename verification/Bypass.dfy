/** Keeping the transport's own addresses off the tunnel. */
module Bypass {
  import opened Wrappers
  import opened Cidr
  import opened Ledger
  import opened Routes

  /** RFC 1918 and link-local IPv4; unique-local (fc00::/7) and link-local (fe80::/10) IPv6. */
  predicate PrivateScope(ip: IpAddr) {
    match ip.family
    case V4 =>
      || ip.bits / Pow2(24) == 10
      || ip.bits / Pow2(20) == 0xAC1
      || ip.bits / Pow2(16) == 0xC0A8
      || ip.bits / Pow2(16) == 0xA9FE
    case V6 =>
      || ip.bits / Pow2(121) == 0x7E
      || ip.bits / Pow2(118) == 0x3FA
  }

  function Prefix(family: Family, bits: nat, prefixLen: nat): IpNet
    requires bits < Pow2(family.Width()) && prefixLen <= family.Width()
  {
    Net(Addr(family, bits), prefixLen)
  }

  /** The private scopes as networks: 10.0.0.0/8, 172.16.0.0/12, 192.168.0.0/16, 169.254.0.0/16; fc00::/7, fe80::/10. */
  lemma PrivateScopeExactly(ip: IpAddr)
    ensures Pow2(32) == 0x1_0000_0000 && Pow2(128) == Pow2(120) * 256
    ensures 0xFC00 * Pow2(112) < Pow2(128) && 0xFE80 * Pow2(112) < Pow2(128)
    ensures PrivateScope(ip) <==>
            || Prefix(V4, 0x0A00_0000, 8).Contains(ip) || Prefix(V4, 0xAC10_0000, 12).Contains(ip)
            || Prefix(V4, 0xC0A8_0000, 16).Contains(ip) || Prefix(V4, 0xA9FE_0000, 16).Contains(ip)
            || Prefix(V6, 0xFC00 * Pow2(112), 7).Contains(ip) || Prefix(V6, 0xFE80 * Pow2(112), 10).Contains(ip)
  {
    PowersOfTwo();
    hide Pow2;
    ContainsByBlock(Prefix(V4, 0x0A00_0000, 8), ip);
    ContainsByBlock(Prefix(V4, 0xAC10_0000, 12), ip);
    ContainsByBlock(Prefix(V4, 0xC0A8_0000, 16), ip);
    ContainsByBlock(Prefix(V4, 0xA9FE_0000, 16), ip);
    ContainsByBlock(Prefix(V6, 0xFC00 * Pow2(112), 7), ip);
    ContainsByBlock(Prefix(V6, 0xFE80 * Pow2(112), 10), ip);
    DivBetween(0xFC00 * Pow2(112), Pow2(121), 0x7E);
    DivBetween(0xFE80 * Pow2(112), Pow2(118), 0x3FA);
  }

  lemma PowersOfTwo()
    ensures Pow2(16) == 0x1_0000 && Pow2(20) == 0x10_0000 && Pow2(24) == 0x100_0000 && Pow2(32) == 0x1_0000_0000
    ensures Pow2(118) == 64 * Pow2(112) && Pow2(120) == 256 * Pow2(112) && Pow2(121) == 512 * Pow2(112)
    ensures Pow2(128) == 0x1_0000 * Pow2(112) == Pow2(120) * 256
  {
    assert Pow2(4) == 16 && Pow2(6) == 64 && Pow2(8) == 256 && Pow2(9) == 512;
    PowAdd(8, 8);
    PowAdd(16, 4);
    PowAdd(16, 8);
    PowAdd(16, 16);
    PowAdd(112, 6);
    PowAdd(112, 8);
    PowAdd(112, 9);
    PowAdd(112, 16);
    PowAdd(120, 8);
  }

  predicate CoveredBy(routes: seq<IpNet>, ip: IpAddr) {
    exists r :: r in routes && r.Contains(ip)
  }

  predicate CoveredByVpn(routes4: seq<IpNet>, routes6: seq<IpNet>, ip: IpAddr) {
    CoveredBy(if ip.family == V4 then routes4 else routes6, ip)
  }

  /** The addresses that need a bypass: global scope, and captured by a VPN route. */
  predicate Wanted(routes4: seq<IpNet>, routes6: seq<IpNet>, ip: IpAddr) {
    !PrivateScope(ip) && CoveredByVpn(routes4, routes6, ip)
  }

  function WantedOf(routes4: seq<IpNet>, routes6: seq<IpNet>, ips: set<IpAddr>): set<IpAddr> {
    set ip | ip in ips && Wanted(routes4, routes6, ip)
  }

  /** Exactly the addresses that lie in no private scope and in a route of their own family. */
  lemma WantedExactly(routes4: seq<IpNet>, routes6: seq<IpNet>, ips: set<IpAddr>, ip: IpAddr)
    ensures ip in WantedOf(routes4, routes6, ips) <==>
            && ip in ips && !PrivateScope(ip)
            && (ip.family == V4 ==> exists r :: r in routes4 && r.Contains(ip))
            && (ip.family == V6 ==> exists r :: r in routes6 && r.Contains(ip))
  {
    hide PrivateScope;
  }

  // ---- The desktop manager ---------------------------------------------------------------------

  class BypassRouteManager {
    const table: RouteTable
    const vpnTunName: string
    const routes4: seq<IpNet>
    const routes6: seq<IpNet>
    const underlay4: Option<UnderlayGateway>
    const underlay6: Option<UnderlayGateway>
    var activeRoutes: map<IpAddr, RouteGuard>
    var collected: set<IpAddr>
    /** Every address ever published to this manager. */
    ghost var seen: set<IpAddr>

    constructor (table: RouteTable, vpnTunName: string, routes4: seq<IpNet>, routes6: seq<IpNet>,
                 underlay4: Option<UnderlayGateway>, underlay6: Option<UnderlayGateway>)
      ensures Valid() && activeRoutes == map[] && collected == {} && seen == {}
      ensures this.table == table && this.vpnTunName == vpnTunName && this.routes4 == routes4 && this.routes6 == routes6
      ensures this.underlay4 == underlay4 && this.underlay6 == underlay6
    {
      this.table, this.vpnTunName, this.routes4, this.routes6 := table, vpnTunName, routes4, routes6;
      this.underlay4, this.underlay6 := underlay4, underlay6;
      activeRoutes, collected, seen := map[], {}, {};
    }

    predicate FallbacksOffTunnel() {
      && (underlay4.Some? ==> underlay4.value.device != vpnTunName)
      && (underlay6.Some? ==> underlay6.value.device != vpnTunName)
    }

    /** Collected is exactly the wanted addresses seen; active is a part of it, and points off the tunnel. */
    ghost predicate Valid()
      reads this
    {
      && collected == WantedOf(routes4, routes6, seen)
      && activeRoutes.Keys <= collected
      && (FallbacksOffTunnel() ==> forall ip :: ip in activeRoutes ==> activeRoutes[ip].hop.device != vpnTunName)
    }

    /** The table holds the system's routes, those put on the tunnel and the active bypasses, and nothing else. */
    ghost predicate Routed(system: map<IpNet, Hop>, ontun: set<IpNet>)
      reads this, table
    {
      Layered(table.entries, system, ontun, vpnTunName, Hops(activeRoutes))
    }

    function Fallback(ip: IpAddr): Option<UnderlayGateway> {
      if ip.family == V4 then underlay4 else underlay6
    }

    /** Applies one published set: add-only, each address on its own. An address is skipped only where
        the OS's answer to the route query gave no way off the tunnel, or the command to add it failed. */
    method Update(required: set<IpAddr>, answers: IpAddr -> Result<BypassRouteInfo, RouteError>)
      requires Valid() && forall ip :: answers(ip).Ok? ==> answers(ip).value.peerIp == ip
      modifies this, table
      ensures Valid() && seen == old(seen) + required
      ensures collected == old(collected) + WantedOf(routes4, routes6, required)
      ensures forall ip :: ip in old(activeRoutes) ==> ip in activeRoutes && activeRoutes[ip] == old(activeRoutes)[ip]
      ensures activeRoutes.Keys <= old(activeRoutes.Keys) + WantedOf(routes4, routes6, required)
      ensures Grown(old(table.entries), table.entries) && old(table.failures) <= table.failures
      ensures forall ip :: ip in WantedOf(routes4, routes6, required) && ip !in activeRoutes ==>
                Skipped(ip, answers, |old(table.failures)|)
      ensures forall ip :: ip in activeRoutes && ip !in old(activeRoutes) ==> PinnedBy(ip, answers(ip))
      ensures forall system, ontun :: FallbacksOffTunnel() && old(Routed(system, ontun)) ==> Routed(system, ontun)
    {
      hide Valid, Layered, Resolves, ResolveBypassRouteInfo, Hops, FailedSince, Grown, WantedOf;
      GrownOn(table.entries, table.entries, table.entries);
      var wanted := Collect(required);
      var toAdd := set ip | ip in wanted && ip !in activeRoutes;
      ghost var before := activeRoutes;
      while toAdd != {}
        invariant Valid() && toAdd <= wanted && toAdd !! activeRoutes.Keys
        invariant seen == old(seen) + required && collected == old(collected) + wanted
        invariant forall ip :: ip in before ==> ip in activeRoutes && activeRoutes[ip] == before[ip]
        invariant activeRoutes.Keys <= before.Keys + wanted
        invariant Grown(old(table.entries), table.entries) && old(table.failures) <= table.failures
        invariant forall ip :: ip in wanted && ip !in activeRoutes && ip !in toAdd ==> Skipped(ip, answers, |old(table.failures)|)
        invariant forall ip :: ip in activeRoutes && ip !in before ==> PinnedBy(ip, answers(ip))
        invariant forall system, ontun :: FallbacksOffTunnel() && old(Routed(system, ontun)) ==> Routed(system, ontun)
        decreases |toAdd|
      {
        var ip :| ip in toAdd;
        toAdd := toAdd - {ip};
        ghost var failures, entries := table.failures, table.entries;
        AddOne(ip, answers(ip));
        FailedMore(failures, if table.failures == failures then [] else [HostRoute(ip)], |old(table.failures)|);
        assert failures + [] == failures;
        GrownOn(old(table.entries), entries, table.entries);
      }
    }

    /** Keeps the addresses that need a bypass, and records them before any is tried. */
    method Collect(required: set<IpAddr>) returns (wanted: set<IpAddr>)
      requires Valid()
      modifies this`seen, this`collected
      ensures Valid() && seen == old(seen) + required && collected == old(collected) + wanted
      ensures wanted == WantedOf(routes4, routes6, required)
    {
      hide Wanted;
      wanted := WantedOf(routes4, routes6, required);
      seen := seen + required;
      collected := collected + wanted;
    }

    /** Tries one bypass. */
    method AddOne(ip: IpAddr, answer: Result<BypassRouteInfo, RouteError>)
      requires Valid() && ip in collected && ip !in activeRoutes && (answer.Ok? ==> answer.value.peerIp == ip)
      modifies this`activeRoutes, table
      ensures Valid() && Grown(old(table.entries), table.entries)
      ensures ip in activeRoutes ==> activeRoutes == old(activeRoutes)[ip := activeRoutes[ip]] && table.failures == old(table.failures)
      ensures ip !in activeRoutes ==> activeRoutes == old(activeRoutes) && table.entries == old(table.entries)
      ensures ip !in activeRoutes ==>
                table.failures == old(table.failures) + if Resolves(answer, Some(vpnTunName), Fallback(ip)) then [HostRoute(ip)] else []
      ensures ip in activeRoutes ==> PinnedBy(ip, answer)
      ensures forall system, ontun :: FallbacksOffTunnel() && old(Routed(system, ontun)) ==> Routed(system, ontun)
    {
      hide Layered, WantedOf, Hops;
      var r := AddBypassRoute(table, answer, Some(vpnTunName), Fallback(ip));
      if r.Ok? {
        ResolvedBypassIsSafe(answer.value, Some(vpnTunName), Fallback(ip));
        forall system, ontun | FallbacksOffTunnel() && old(Routed(system, ontun))
          ensures Layered(table.entries, system, ontun, vpnTunName, Hops(activeRoutes[ip := r.value]))
        {
          HopsMore(activeRoutes, ip, r.value);
          BypassLayered(old(table.entries), system, ontun, vpnTunName, Hops(activeRoutes), ip, r.value.hop, table.entries);
        }
        activeRoutes := activeRoutes[ip := r.value];
      }
    }

    /** The bypass leaves where the answer to its query says, or else through the gateway captured for its family. */
    ghost predicate PinnedBy(ip: IpAddr, answer: Result<BypassRouteInfo, RouteError>)
      reads this
      requires ip in activeRoutes
    {
      var fallback := if ip.family == V4 then underlay4 else underlay6;
      && Resolves(answer, Some(vpnTunName), fallback)
      && var info := ResolveBypassRouteInfo(answer.value, Some(vpnTunName), fallback).value;
         activeRoutes[ip].hop == Hop(info.device, info.gateway)
    }

    /** Why an address has no bypass: its query led nowhere usable, or adding it failed since. */
    ghost predicate Skipped(ip: IpAddr, answers: IpAddr -> Result<BypassRouteInfo, RouteError>, since: nat)
      reads this, table
    {
      || !Resolves(answers(ip), Some(vpnTunName), if ip.family == V4 then underlay4 else underlay6)
      || FailedSince(table.failures, since, HostRoute(ip))
    }
  }

  /** No route was removed or changed. */
  ghost predicate Grown(before: map<IpNet, Hop>, after: map<IpNet, Hop>) {
    forall d :: d in before ==> d in after && after[d] == before[d]
  }

  lemma GrownOn(a: map<IpNet, Hop>, b: map<IpNet, Hop>, c: map<IpNet, Hop>)
    ensures Grown(a, a)
    ensures Grown(a, b) && Grown(b, c) ==> Grown(a, c)
  {
  }

  ghost predicate FailedSince(failures: seq<IpNet>, since: nat, d: IpNet) {
    since <= |failures| && d in failures[since..]
  }

  lemma FailedMore(failures: seq<IpNet>, more: seq<IpNet>, since: nat)
    requires since <= |failures|
    ensures forall d :: FailedSince(failures, since, d) || d in more ==> FailedSince(failures + more, since, d)
  {
    assert (failures + more)[since..] == failures[since..] + more;
  }

  /** Where each active bypass points. */
  function Hops(active: map<IpAddr, RouteGuard>): map<IpAddr, Hop> {
    map ip | ip in active :: active[ip].hop
  }

  lemma HopsMore(active: map<IpAddr, RouteGuard>, ip: IpAddr, g: RouteGuard)
    ensures Hops(active[ip := g]) == Hops(active)[ip := g.hop]
    ensures ip in Hops(active) <==> ip in active
  {
  }

  // ---- The iOS computation ---------------------------------------------------------------------

  /** Host routes of the wanted addresses, in order, one list per family. */
  function Excludes(routes4: seq<IpNet>, routes6: seq<IpNet>, addrs: seq<IpAddr>, family: Family): seq<IpNet> {
    if addrs == [] then []
    else
      var n := |addrs| - 1;
      Excludes(routes4, routes6, addrs[..n], family)
      + if addrs[n].family == family && Wanted(routes4, routes6, addrs[n]) then [HostRoute(addrs[n])] else []
  }

  method OverlappingUnderlayExcludes(addrs: seq<IpAddr>, routes4: seq<IpNet>, routes6: seq<IpNet>)
    returns (v4: seq<IpNet>, v6: seq<IpNet>)
    ensures v4 == Excludes(routes4, routes6, addrs, V4) && v6 == Excludes(routes4, routes6, addrs, V6)
  {
    hide PrivateScope, CoveredBy;
    v4, v6 := [], [];
    for i := 0 to |addrs|
      invariant v4 == Excludes(routes4, routes6, addrs[..i], V4)
      invariant v6 == Excludes(routes4, routes6, addrs[..i], V6)
    {
      assert addrs[..i + 1][..i] == addrs[..i];
      var ip := addrs[i];
      if PrivateScope(ip) {
        continue;
      }
      match ip.family {
        case V4 =>
          if CoveredBy(routes4, ip) {
            v4 := v4 + [HostRoute(ip)];
          }
        case V6 =>
          if CoveredBy(routes6, ip) {
            v6 := v6 + [HostRoute(ip)];
          }
      }
    }
    assert addrs[..|addrs|] == addrs;
  }

  /** In order, one by one: an address gives its host prefix, in the list of its family, iff it needs a bypass. */
  lemma ExcludesInOrder(routes4: seq<IpNet>, routes6: seq<IpNet>, a: seq<IpAddr>, b: seq<IpAddr>, ip: IpAddr, f: Family)
    ensures Excludes(routes4, routes6, a + b, f) == Excludes(routes4, routes6, a, f) + Excludes(routes4, routes6, b, f)
    ensures Excludes(routes4, routes6, [ip], f) == if ip.family == f && Wanted(routes4, routes6, ip) then [Net(ip, ip.family.Width())] else []
  {
    hide Wanted, Excludes;
    ExcludesAppend(routes4, routes6, a, b, f);
    ExcludesNothing(routes4, routes6, f);
    ExcludesStep(routes4, routes6, [], ip, f);
    assert [] + [ip] == [ip];
  }

  lemma ExcludesNothing(routes4: seq<IpNet>, routes6: seq<IpNet>, f: Family)
    ensures Excludes(routes4, routes6, [], f) == []
  {
  }

  lemma ExcludesStep(routes4: seq<IpNet>, routes6: seq<IpNet>, a: seq<IpAddr>, ip: IpAddr, f: Family)
    ensures Excludes(routes4, routes6, a + [ip], f) ==
            Excludes(routes4, routes6, a, f) + if ip.family == f && Wanted(routes4, routes6, ip) then [Net(ip, ip.family.Width())] else []
  {
    hide Wanted;
    assert (a + [ip])[..|a|] == a;
  }

  lemma {:induction false} ExcludesAppend(routes4: seq<IpNet>, routes6: seq<IpNet>, a: seq<IpAddr>, b: seq<IpAddr>, f: Family)
    ensures Excludes(routes4, routes6, a + b, f) == Excludes(routes4, routes6, a, f) + Excludes(routes4, routes6, b, f)
    decreases |b|
  {
    hide Wanted, Excludes;
    if b == [] {
      assert a + b == a;
      ExcludesNothing(routes4, routes6, f);
    } else {
      var n, ip := |b| - 1, b[|b| - 1];
      ExcludesAppend(routes4, routes6, a, b[..n], f);
      ExcludesStep(routes4, routes6, a + b[..n], ip, f);
      ExcludesStep(routes4, routes6, b[..n], ip, f);
      assert b[..n] + [ip] == b && (a + b[..n]) + [ip] == a + b;
    }
  }

  /** Both clients bypass the same addresses: an address is in the manager's collected set after seeing
      `addrs` iff its host route is in the iOS exclude lists. */
  lemma {:induction false} SameBypassSet(routes4: seq<IpNet>, routes6: seq<IpNet>, addrs: seq<IpAddr>, ip: IpAddr)
    ensures ip in WantedOf(routes4, routes6, set a | a in addrs) <==>
            HostRoute(ip) in Excludes(routes4, routes6, addrs, ip.family)
  {
    hide Wanted;
    if addrs != [] {
      var n := |addrs| - 1;
      SameBypassSet(routes4, routes6, addrs[..n], ip);
      assert addrs == addrs[..n] + [addrs[n]];
      assert (set a | a in addrs) == (set a | a in addrs[..n]) + {addrs[n]};
    }
  }

  // ---- Where packets go ------------------------------------------------------------------------

  /** `d` is a longest-prefix match for `ip`. */
  ghost predicate IsLookup(entries: map<IpNet, Hop>, ip: IpAddr, d: IpNet) {
    && d in entries && d.Contains(ip)
    && forall e :: e in entries && e.Contains(ip) ==> e.prefixLen <= d.prefixLen
  }

  /** `d` is the host route of an active bypass, as it was added. */
  predicate Pins(active: map<IpAddr, Hop>, d: IpNet, hop: Hop) {
    d.prefixLen == d.addr.family.Width() && d.addr in active && hop == active[d.addr]
  }

  /**
   The layers of a client's table: what `system` held before the session (routes of the fresh TUN
   device included), the destinations `ontun` that the session put on the tunnel, host routes among
   them, and the bypasses. A destination that was there before is left to the system.
   */
  ghost predicate Layered(entries: map<IpNet, Hop>, system: map<IpNet, Hop>, ontun: set<IpNet>, tun: string, active: map<IpAddr, Hop>) {
    && (forall d :: d in entries ==> Canonical(d) == d)
    && (forall d :: d in entries ==> d in system || d in ontun || Pins(active, d, entries[d]))
    && (forall d :: d in system ==> d in entries && entries[d] == system[d])
    && (forall d :: d in ontun ==> d in entries && d !in system && entries[d].device == tun)
    && (forall ip :: ip in active ==> HostRoute(ip) in entries && active[ip].device != tun)
  }

  /** The destinations on the tunnel: put there by the session, or by the system before it. */
  function Tunnelled(system: map<IpNet, Hop>, ontun: set<IpNet>, tun: string): set<IpNet> {
    ontun + set d | d in system && system[d].device == tun
  }

  lemma OnlyItselfAtFullLength(d: IpNet, ip: IpAddr)
    requires d.prefixLen == d.addr.family.Width()
    ensures d.Contains(ip) <==> d == HostRoute(ip)
    ensures HostRoute(ip).Contains(ip)
  {
    assert Pow2(0) == 1;
    DivBetween(d.addr.bits, 1, d.addr.bits);
    DivBetween(ip.bits, 1, ip.bits);
  }

  function Members(s: seq<IpNet>): set<IpNet> {
    set d | d in s
  }

  /** A session starts from the system's own table. */
  lemma FreshTableIsLayered(system: map<IpNet, Hop>, tun: string)
    requires forall d :: d in system ==> Canonical(d) == d
    ensures Layered(system, system, {}, tun, map[])
  {
  }

  /** Routes installed through the tunnel, in whatever order with bypasses, add to the tunnel's layer what
      was not there before. */
  lemma VpnLayered(entries: map<IpNet, Hop>, system: map<IpNet, Hop>, ontun: set<IpNet>, tun: string, active: map<IpAddr, Hop>,
                   added: seq<IpNet>, after: map<IpNet, Hop>)
    requires Layered(entries, system, ontun, tun, active) && Extended(entries, after, added, Hop(tun, None))
    requires forall d :: d in added ==> Canonical(d) == d
    ensures Layered(after, system, ontun + Members(added), tun, active)
  {
    hide Canonical, Distinct;
  }

  /** A bypass added next, or found already there, keeps the layers. */
  lemma BypassLayered(entries: map<IpNet, Hop>, system: map<IpNet, Hop>, ontun: set<IpNet>, tun: string,
                      active: map<IpAddr, Hop>, ip: IpAddr, hop: Hop, after: map<IpNet, Hop>)
    requires Layered(entries, system, ontun, tun, active) && ip !in active && hop.device != tun
    requires after == if HostRoute(ip) in entries then entries else entries[HostRoute(ip) := hop]
    ensures Layered(after, system, ontun, tun, active[ip := hop])
  {
    hide Canonical;
    HostIsCanonical(ip);
  }

  /** A table with one entry per destination has at most one longest match. */
  lemma LookupIsUnique(entries: map<IpNet, Hop>, ip: IpAddr, d: IpNet, e: IpNet)
    requires forall n :: n in entries ==> Canonical(n) == n
    requires IsLookup(entries, ip, d) && e in entries && e.Contains(ip) && e.prefixLen == d.prefixLen
    ensures d == e
  {
    ContainsByBlock(d, ip);
    ContainsByBlock(e, ip);
    assert Canonical(d) == d && Canonical(e) == e;
  }

  /** Some entry that contains `ip` means some longest match. */
  lemma LookupExists(entries: map<IpNet, Hop>, ip: IpAddr, e: IpNet) returns (d: IpNet)
    requires e in entries && e.Contains(ip)
    ensures IsLookup(entries, ip, d) && e.prefixLen <= d.prefixLen
    decreases e.addr.family.Width() - e.prefixLen
  {
    d := e;
    if longer :| longer in entries && longer.Contains(ip) && longer.prefixLen > e.prefixLen {
      d := LookupExists(entries, ip, longer);
    }
  }

  /** Lookup sends a bypassed address off the tunnel exactly when its host route is not itself one of the
      destinations on the tunnel. */
  lemma BypassedGoesOffTunnel(entries: map<IpNet, Hop>, system: map<IpNet, Hop>, ontun: set<IpNet>, tun: string,
                              active: map<IpAddr, Hop>, ip: IpAddr, d: IpNet)
    requires Layered(entries, system, ontun, tun, active) && ip in active && IsLookup(entries, ip, d)
    ensures d == HostRoute(ip)
    ensures entries[d].device != tun <==> HostRoute(ip) !in Tunnelled(system, ontun, tun)
  {
    hide Canonical;
    OnlyItselfAtFullLength(HostRoute(ip), ip);
    assert d.prefixLen == d.addr.family.Width();
    OnlyItselfAtFullLength(d, ip);
  }

  /** The exception is real: the gateway's own host route, installed first, keeps a bypass of that address
      from taking effect, although the bypass counts as active. */
  lemma GatewayStaysOnTunnel(gateway: IpAddr, tun: string, underlay: Hop)
    requires underlay.device != tun
    ensures var host := HostRoute(gateway);
            var entries := map[host := Hop(tun, None)];
            && Layered(entries, map[], {host}, tun, map[gateway := underlay])
            && IsLookup(entries, gateway, host) && entries[host].device == tun
  {
    HostIsCanonical(gateway);
    OnlyItselfAtFullLength(HostRoute(gateway), gateway);
  }

  /** `v` beats every route of the system to `ip` that leads elsewhere. */
  ghost predicate Outranks(system: map<IpNet, Hop>, tun: string, ip: IpAddr, v: IpNet) {
    forall s :: s in system && s.Contains(ip) && system[s].device != tun ==> s.prefixLen < v.prefixLen
  }

  /** What a lookup for an address without a bypass can hit. */
  lemma LookupHits(entries: map<IpNet, Hop>, system: map<IpNet, Hop>, ontun: set<IpNet>, tun: string,
                   active: map<IpAddr, Hop>, ip: IpAddr, d: IpNet)
    requires Layered(entries, system, ontun, tun, active) && ip !in active && d in entries && d.Contains(ip)
    ensures entries[d].device == tun <==> d in Tunnelled(system, ontun, tun)
    ensures entries[d].device != tun ==> d in system
  {
    hide Canonical;
    if d.prefixLen == d.addr.family.Width() {
      OnlyItselfAtFullLength(d, ip);
    }
  }

  /**
   Lookup sends any other address into the tunnel exactly when some destination on the tunnel holds it
   and is longer than every route of the system to it that leads elsewhere.
   */
  lemma OthersGoIntoTunnel(entries: map<IpNet, Hop>, system: map<IpNet, Hop>, ontun: set<IpNet>, tun: string,
                           active: map<IpAddr, Hop>, ip: IpAddr)
    requires Layered(entries, system, ontun, tun, active) && ip !in active
    ensures (exists d :: IsLookup(entries, ip, d) && entries[d].device == tun) <==>
            (exists v :: v in Tunnelled(system, ontun, tun) && v.Contains(ip) && Outranks(system, tun, ip, v))
  {
    hide Canonical, Tunnelled;
    forall d: IpNet | IsLookup(entries, ip, d) && entries[d].device == tun
      ensures d in Tunnelled(system, ontun, tun) && Outranks(system, tun, ip, d)
    {
      LookupHits(entries, system, ontun, tun, active, ip, d);
      forall s | s in system && s.Contains(ip) && system[s].device != tun
        ensures s.prefixLen < d.prefixLen
      {
        if s.prefixLen == d.prefixLen {
          LookupIsUnique(entries, ip, d, s);
        }
      }
    }
    forall v | v in Tunnelled(system, ontun, tun) && v.Contains(ip) && Outranks(system, tun, ip, v)
      ensures exists d :: IsLookup(entries, ip, d) && entries[d].device == tun
    {
      TunnelledIsThere(entries, system, ontun, tun, active, v);
      var d := LookupExists(entries, ip, v);
      LookupHits(entries, system, ontun, tun, active, ip, d);
    }
  }

  lemma TunnelledIsThere(entries: map<IpNet, Hop>, system: map<IpNet, Hop>, ontun: set<IpNet>, tun: string,
                         active: map<IpAddr, Hop>, v: IpNet)
    requires Layered(entries, system, ontun, tun, active) && v in Tunnelled(system, ontun, tun)
    ensures v in entries
  {
  }

  /** Once the routes that cover an address are on the tunnel, a default route of the system never stands
      in the way, even of a configured default route: after the /0 split every VPN route is longer. */
  lemma DefaultRouteIsOutranked(vpn: seq<IpNet>, tunnelled: set<IpNet>, system: map<IpNet, Hop>, tun: string, ip: IpAddr)
    requires CoveredBy(vpn, ip) && forall n :: n in ExpandAll(vpn) ==> Canonical(n) in tunnelled
    requires forall s :: s in system && s.Contains(ip) && system[s].device != tun ==> s.prefixLen == 0
    ensures exists v :: v in tunnelled && v.Contains(ip) && Outranks(system, tun, ip, v)
  {
    hide ExpandAll, Canonical;
    ExpansionCovers(vpn, ip);
    var n :| n in ExpandAll(vpn) && n.Contains(ip);
    CanonicalSame(n);
    assert Canonical(n) in tunnelled && Outranks(system, tun, ip, Canonical(n));
  }

  // ---- The order of a session ------------------------------------------------------------------

  /** Every destination of the list has a route. */
  ghost predicate Carried(routes: seq<IpNet>, entries: map<IpNet, Hop>) {
    forall n :: n in ExpandAll(routes) ==> Canonical(n) in entries
  }

  ghost predicate AllCarried(lists: seq<seq<IpNet>>, entries: map<IpNet, Hop>) {
    forall i :: 0 <= i < |lists| ==> Carried(lists[i], entries)
  }

  lemma CarriedOn(lists: seq<seq<IpNet>>, a: map<IpNet, Hop>, b: map<IpNet, Hop>)
    requires AllCarried(lists, a) && Grown(a, b)
    ensures AllCarried(lists, b)
  {
    hide ExpandAll, Canonical;
  }

  function Held(guards: seq<RouteGuard>): set<IpNet> {
    if guards == [] then {} else Held(guards[..|guards| - 1]) + Members(guards[|guards| - 1].routes)
  }

  lemma HeldMore(guards: seq<RouteGuard>, g: RouteGuard)
    ensures Held(guards + [g]) == Held(guards) + Members(g.routes)
  {
    assert (guards + [g])[..|guards|] == guards;
  }

  function Prefixes(network: Option<IpNet>): (lists: seq<seq<IpNet>>)
    ensures |lists| <= 1
  {
    if network.Some? then [[network.value]] else []
  }

  /** Configured routes are installed for an assigned family only. */
  function Configured(network: Option<IpNet>, routes: seq<IpNet>): (lists: seq<seq<IpNet>>)
    ensures |lists| <= 1
  {
    if network.Some? && routes != [] then [routes] else []
  }

  /** The routes of one desktop session: bootstrap bypasses first, then the server's own prefixes, then the
      configured routes, then whatever the server publishes. */
  class SessionRoutes {
    const table: RouteTable
    const manager: BypassRouteManager
    /** The prefixes the server advertised, one per assigned family. */
    const network4: Option<IpNet>
    const network6: Option<IpNet>
    var guards: seq<RouteGuard>
    ghost const system: map<IpNet, Hop>
    ghost var ontun: set<IpNet>
    /** The route lists installed so far. */
    ghost var carried: seq<seq<IpNet>>

    /** On the table as the new TUN device left it, with gateways captured while no VPN route is in. */
    constructor (table: RouteTable, tun: string, routes4: seq<IpNet>, routes6: seq<IpNet>,
                 underlay4: Option<UnderlayGateway>, underlay6: Option<UnderlayGateway>,
                 network4: Option<IpNet>, network6: Option<IpNet>)
      requires forall d :: d in table.entries ==> Canonical(d) == d
      requires underlay4.Some? ==> underlay4.value.device != tun
      requires underlay6.Some? ==> underlay6.value.device != tun
      ensures this.table == table && fresh(manager) && manager.routes4 == routes4 && manager.routes6 == routes6
      ensures manager.vpnTunName == tun && manager.activeRoutes == map[]
      ensures this.network4 == network4 && this.network6 == network6
      ensures Valid() && system == table.entries && ontun == {} && guards == [] && carried == []
    {
      this.table := table;
      manager := new BypassRouteManager(table, tun, routes4, routes6, underlay4, underlay6);
      this.network4, this.network6 := network4, network6;
      guards, system, ontun, carried := [], table.entries, {}, [];
      new;
      FreshTableIsLayered(system, tun);
      assert Hops(map[]) == map[];
    }

    /** At every point of the session the table has its layers; the guards hold exactly the tunnel's. */
    ghost predicate Valid()
      reads this, table, manager
    {
      && manager.table == table && manager.Valid() && manager.FallbacksOffTunnel()
      && manager.Routed(system, ontun)
      && ontun == Held(guards) && AllCarried(carried, table.entries)
    }

    predicate WillAddRoutes() {
      (network4.Some? && manager.routes4 != []) || (network6.Some? && manager.routes6 != [])
    }

    method Install(routes: seq<IpNet>) returns (r: Result<(), RouteError>)
      requires Valid()
      modifies this, table
      ensures Valid() && old(table.failures) <= table.failures
      ensures r.Ok? ==> carried == old(carried) + [routes] && table.failures == old(table.failures)
      ensures r.Err? ==> carried == old(carried) && table.entries == old(table.entries) && old(table.failures) < table.failures
    {
      hide Layered, ExpandAll, Canonical, Hops, WantedOf, Distinct;
      var tun := manager.vpnTunName;
      var added := AddRoutes(table, tun, routes);
      if added.Err? {
        return Err(added.error);
      }
      var owned := added.value.routes;
      forall d | d in owned
        ensures Canonical(d) == d
      {
        var n :| n in ExpandAll(routes) && d == Canonical(n);
        CanonicalSame(n);
      }
      VpnLayered(old(table.entries), system, ontun, tun, Hops(manager.activeRoutes), owned, table.entries);
      HeldMore(guards, added.value);
      CarriedOn(carried, old(table.entries), table.entries);
      guards, carried := guards + [added.value], carried + [routes];
      ontun := ontun + Members(owned);
      r := Ok(());
    }

    /** The routes of `connect`, in its order; it stops at the first prefix that cannot be installed. */
    method Connect(bootstrap: set<IpAddr>, answers: IpAddr -> Result<BypassRouteInfo, RouteError>)
      returns (r: Result<(), RouteError>)
      requires Valid() && carried == [] && forall ip :: answers(ip).Ok? ==> answers(ip).value.peerIp == ip
      modifies this, table, manager
      ensures Valid()
      ensures (network4.Some? && manager.routes4 != []) || (network6.Some? && manager.routes6 != []) ==>
                manager.collected == old(manager.collected) + WantedOf(manager.routes4, manager.routes6, bootstrap)
      ensures r.Err? ==> old(table.failures) < table.failures
      ensures r.Ok? ==> carried == (if network4.Some? then [[network4.value]] else [])
                                   + (if network6.Some? then [[network6.value]] else [])
                                   + (if network4.Some? && manager.routes4 != [] then [manager.routes4] else [])
                                   + (if network6.Some? && manager.routes6 != [] then [manager.routes6] else [])
    {
      hide Valid, WantedOf;
      if WillAddRoutes() {
        Publish(bootstrap, answers);
      }
      var _ :- InstallAll(Prefixes(network4));
      var _ :- InstallAll(Prefixes(network6));
      var _ :- InstallAll(Configured(network4, manager.routes4));
      var _ :- InstallAll(Configured(network6, manager.routes6));
      r := Ok(());
    }

    /** Installs the list there is, if there is one. */
    method InstallAll(lists: seq<seq<IpNet>>) returns (r: Result<(), RouteError>)
      requires Valid() && |lists| <= 1
      modifies this, table
      ensures Valid() && old(table.failures) <= table.failures
      ensures r.Ok? ==> carried == old(carried) + lists
      ensures r.Err? ==> old(table.failures) < table.failures
    {
      hide Valid;
      if |lists| == 0 {
        return Ok(());
      }
      r := Install(lists[0]);
      assert lists == [lists[0]];
    }

    /** One set of addresses the server published. */
    method Publish(required: set<IpAddr>, answers: IpAddr -> Result<BypassRouteInfo, RouteError>)
      requires Valid() && forall ip :: answers(ip).Ok? ==> answers(ip).value.peerIp == ip
      modifies table, manager
      ensures Valid() && old(table.failures) <= table.failures
      ensures manager.collected == old(manager.collected) + WantedOf(manager.routes4, manager.routes6, required)
    {
      hide Layered, Grown, Hops, WantedOf, Carried;
      ghost var entries := table.entries;
      manager.Update(required, answers);
      CarriedOn(carried, entries, table.entries);
    }
  }
}
