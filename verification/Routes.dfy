/** Route installation with rollback, and the guards that own what was installed. */
module Routes {
  import opened Wrappers
  import opened Cidr
  import opened Ledger

  /** Where a route points: a device, and a gateway for bypass routes. */
  datatype Hop = Hop(device: string, gateway: Option<IpAddr>)

  datatype AddOutcome = Added | AlreadyExisted

  datatype RouteError = CommandFailed | Refused

  /** The destination a prefix names, whatever its host bits. */
  function Canonical(net: IpNet): (r: IpNet)
    ensures r.prefixLen == net.prefixLen && r.addr.family == net.addr.family
  {
    NetworkIsAddr(net);
    Net(net.Network(), net.prefixLen)
  }

  lemma CanonicalSame(net: IpNet)
    ensures Canonical(Canonical(net)) == Canonical(net)
    ensures forall ip: IpAddr :: Canonical(net).Contains(ip) <==> net.Contains(ip)
  {
    var s, x := net.Size(), net.addr.bits;
    BlockStartAgain(x, s);
  }

  lemma BlockStartAgain(x: nat, s: nat)
    requires s > 0
    ensures BlockStart(BlockStart(x, s), s) == BlockStart(x, s)
  {
    DivBetween(BlockStart(x, s), s, x / s);
  }

  /** The OS routing table, one entry per destination. Commands may fail at will; a destination that is
      already there is reported as such and left alone. */
  class RouteTable {
    var entries: map<IpNet, Hop>
    /** The destinations whose command failed, in order. */
    ghost var failures: seq<IpNet>

    constructor (entries: map<IpNet, Hop>)
      ensures this.entries == entries && failures == []
    {
      this.entries, failures := entries, [];
    }

    method Add(net: IpNet, hop: Hop) returns (r: Result<AddOutcome, RouteError>)
      modifies this
      ensures r == Ok(Added) ==> Canonical(net) !in old(entries) && entries == old(entries)[Canonical(net) := hop]
      ensures r == Ok(AlreadyExisted) ==> Canonical(net) in old(entries) && entries == old(entries)
      ensures r.Err? ==> r.error == CommandFailed && entries == old(entries)
      ensures failures == old(failures) + if r.Err? then [Canonical(net)] else []
    {
      var dest := Canonical(net);
      if * {
        failures := failures + [dest];
        return Err(CommandFailed);
      }
      if dest in entries {
        return Ok(AlreadyExisted);
      }
      entries := entries[dest := hop];
      r := Ok(Added);
    }

    /** Deletes the route to `dest` that points at `hop`, if there is one. */
    method Remove(dest: IpNet, hop: Hop)
      modifies this`entries
      ensures entries == if dest in old(entries) && old(entries)[dest] == hop then old(entries) - {dest} else old(entries)
    {
      if dest in entries && entries[dest] == hop {
        entries := entries - {dest};
      }
    }
  }

  // ---- The /0 split ----------------------------------------------------------------------------

  lemma HalfIsAddr(f: Family)
    ensures 0 < Pow2(f.Width() - 1) < Pow2(f.Width())
  {
  }

  /** A default route becomes its two `/1` halves; any other route stays as it is. */
  function ExpandDefaultRoute(route: IpNet): (r: seq<IpNet>)
    ensures |r| > 0
  {
    var f := route.addr.family;
    HalfIsAddr(f);
    if route.prefixLen != 0 then [route]
    else
      var low: IpAddr, high: IpAddr := Addr(f, 0), Addr(f, Pow2(f.Width() - 1));
      [Net(low, 1), Net(high, 1)]
  }

  function ExpandAll(routes: seq<IpNet>): seq<IpNet> {
    if routes == [] then [] else ExpandDefaultRoute(routes[0]) + ExpandAll(routes[1..])
  }

  ghost predicate Covered(routes: seq<IpNet>, ip: IpAddr) {
    exists r :: r in routes && r.Contains(ip)
  }

  /** The halves together cover exactly the default route, disjointly, and each is more specific. */
  lemma HalvesCover(route: IpNet, ip: IpAddr)
    ensures Covered(ExpandDefaultRoute(route), ip) <==> route.Contains(ip)
    ensures route.prefixLen == 0 ==>
              !(ExpandDefaultRoute(route)[0].Contains(ip) && ExpandDefaultRoute(route)[1].Contains(ip))
    ensures forall r :: r in ExpandDefaultRoute(route) ==> r.prefixLen > 0
    ensures route.prefixLen > 0 ==> ExpandDefaultRoute(route) == [route]
    ensures route.prefixLen == 0 ==> |ExpandDefaultRoute(route)| == 2 && forall r :: r in ExpandDefaultRoute(route) ==> r.prefixLen == 1
  {
    var halves := ExpandDefaultRoute(route);
    if route.prefixLen == 0 {
      HalfBlocks(route);
      assert halves[0] in halves && halves[1] in halves;
    } else {
      assert halves[0] in halves;
    }
  }

  lemma HalfBlocks(route: IpNet)
    requires route.prefixLen == 0
    ensures var s, halves := Pow2(route.addr.family.Width() - 1), ExpandDefaultRoute(route);
            && Pow2(route.addr.family.Width()) == 2 * s
            && halves[0].Size() == halves[1].Size() == s && route.Size() == 2 * s
            && halves[0].Network().bits == 0 && halves[1].Network().bits == s && route.Network().bits == 0
  {
    var s := Pow2(route.addr.family.Width() - 1);
    DivBetween(0, s, 0);
    DivBetween(s, s, 1);
    DivBetween(route.addr.bits, 2 * s, 0);
  }

  lemma {:induction false} ExpansionCovers(routes: seq<IpNet>, ip: IpAddr)
    ensures Covered(ExpandAll(routes), ip) <==> Covered(routes, ip)
    ensures forall r :: r in ExpandAll(routes) ==> r.prefixLen > 0
  {
    hide ExpandDefaultRoute;
    if routes != [] {
      HalvesCover(routes[0], ip);
      ExpansionCovers(routes[1..], ip);
      var head, tail := ExpandDefaultRoute(routes[0]), ExpandAll(routes[1..]);
      assert routes == [routes[0]] + routes[1..];
      if Covered(head + tail, ip) {
        var r: IpNet :| r in head + tail && r.Contains(ip);
        assert r in head || r in tail;
      }
      if Covered(head, ip) {
        var r :| r in head && r.Contains(ip);
        assert r in head + tail;
      }
      if Covered(tail, ip) {
        var r :| r in tail && r.Contains(ip);
        assert r in head + tail;
      }
    }
  }

  // ---- Installation ----------------------------------------------------------------------------

  /** Owns the routes it lists; dropping it removes them. */
  type RouteGuard = Guard<IpNet, Hop>

  /** Removes the listed routes, last first, which takes the table back to where it was. */
  method RemoveAll(table: RouteTable, hop: Hop, added: seq<IpNet>, ghost before: map<IpNet, Hop>)
    requires Extended(before, table.entries, added, hop)
    modifies table`entries
    ensures table.entries == before
  {
    var i := |added|;
    assert added[..i] == added;
    while i > 0
      invariant 0 <= i <= |added| && Extended(before, table.entries, added[..i], hop)
    {
      i := i - 1;
      ghost var was := table.entries;
      assert added[..i + 1] == added[..i] + [added[i]];
      LastRemoved(before, was, added[..i], added[i], hop);
      table.Remove(added[i], hop);
    }
    assert table.entries == before;
  }

  /** Installs routes through the tunnel. It fails only where a command failed, at the first one, and
      then the table is as it was; on success the guard owns exactly the routes that were created, and
      every requested route is in the table. */
  method AddRoutes(table: RouteTable, tunName: string, routes: seq<IpNet>) returns (r: Result<RouteGuard, RouteError>)
    modifies table
    ensures r.Err? ==> table.entries == old(table.entries)
    ensures r.Err? ==> exists n :: n in ExpandAll(routes) && table.failures == old(table.failures) + [Canonical(n)]
    ensures r.Ok? ==> table.failures == old(table.failures)
    ensures r.Ok? ==> r.value.hop == Hop(tunName, None)
    ensures r.Ok? ==> Extended(old(table.entries), table.entries, r.value.routes, Hop(tunName, None))
    ensures r.Ok? ==> forall n :: n in ExpandAll(routes) ==> Canonical(n) in table.entries
    ensures r.Ok? ==> forall d :: d in r.value.routes ==> exists n :: n in ExpandAll(routes) && d == Canonical(n)
  {
    hide ExpandAll, Canonical;
    var hop := Hop(tunName, None);
    var expanded := ExpandAll(routes);
    var added: seq<IpNet> := [];
    ghost var before := table.entries;
    for i := 0 to |expanded|
      invariant Extended(before, table.entries, added, hop)
      invariant forall n :: n in expanded[..i] ==> Canonical(n) in table.entries
      invariant forall d :: d in added ==> exists n :: n in expanded && d == Canonical(n)
      invariant table.failures == old(table.failures)
    {
      ghost var was := table.entries;
      var outcome := table.Add(expanded[i], hop);
      match outcome {
        case Ok(Added) =>
          OneAdded(before, was, added, Canonical(expanded[i]), hop);
          added := added + [Canonical(expanded[i])];
        case Ok(AlreadyExisted) =>
        case Err(e) =>
          RemoveAll(table, hop, added, before);
          return Err(e);
      }
    }
    assert expanded[..|expanded|] == expanded;
    r := Ok(Guard(hop, added));
  }

  // ---- Bypass routes ---------------------------------------------------------------------------

  datatype BypassRouteInfo = BypassRouteInfo(peerIp: IpAddr, device: string, gateway: Option<IpAddr>, ifIndex: Option<nat>)

  datatype UnderlayGateway = UnderlayGateway(device: string, gateway: Option<IpAddr>, ifIndex: Option<nat>)

  predicate Usable(fallback: Option<UnderlayGateway>) {
    fallback.Some? && fallback.value.gateway.Some?
  }

  /** The queried route, or the captured underlay gateway when the route leads into the tunnel or has no next hop. */
  function ResolveBypassRouteInfo(info: BypassRouteInfo, disallow: Option<string>, fallback: Option<UnderlayGateway>)
    : Result<BypassRouteInfo, RouteError>
  {
    if disallow != Some(info.device) && info.gateway.Some? then Ok(info)
    else if Usable(fallback) then
      Ok(info.(device := fallback.value.device, gateway := fallback.value.gateway, ifIndex := fallback.value.ifIndex))
    else Err(Refused)
  }

  /** A resolved bypass keeps its peer, always has a next hop, and stays off the tunnel if the fallback does;
      it is refused exactly when the queried route is unusable and so is the fallback. */
  lemma ResolvedBypassIsSafe(info: BypassRouteInfo, disallow: Option<string>, fallback: Option<UnderlayGateway>)
    ensures var r := ResolveBypassRouteInfo(info, disallow, fallback);
            && (r.Err? <==> (disallow == Some(info.device) || info.gateway.None?) && (fallback.None? || fallback.value.gateway.None?))
            && (r.Ok? ==> r.value.peerIp == info.peerIp && r.value.gateway.Some?)
            && (disallow != Some(info.device) && info.gateway.Some? ==> r == Ok(info))
            && ((disallow == Some(info.device) || info.gateway.None?) && r.Ok? ==>
                  && fallback.Some? && r.value.device == fallback.value.device
                  && r.value.gateway == fallback.value.gateway && r.value.ifIndex == fallback.value.ifIndex)
            && (r.Ok? && (fallback.None? || disallow != Some(fallback.value.device)) ==> disallow != Some(r.value.device))
  {
  }

  /** The host route to one address. */
  function HostRoute(ip: IpAddr): IpNet {
    Net(ip, ip.family.Width())
  }

  lemma HostIsCanonical(ip: IpAddr)
    ensures Canonical(HostRoute(ip)) == HostRoute(ip)
  {
    assert Pow2(0) == 1;
    DivBetween(ip.bits, 1, ip.bits);
  }

  predicate Resolves(queried: Result<BypassRouteInfo, RouteError>, disallow: Option<string>, fallback: Option<UnderlayGateway>) {
    queried.Ok? && ResolveBypassRouteInfo(queried.value, disallow, fallback).Ok?
  }

  /** Adds a host route off the tunnel; the guard owns it only if this process created it. `queried` is
      the OS's answer to the route query, which may also fail. */
  method AddBypassRoute(table: RouteTable, queried: Result<BypassRouteInfo, RouteError>, disallow: Option<string>,
                        fallback: Option<UnderlayGateway>)
    returns (r: Result<RouteGuard, RouteError>)
    modifies table
    ensures r.Err? ==> table.entries == old(table.entries)
    ensures r.Ok? ==> Resolves(queried, disallow, fallback)
    ensures table.failures == old(table.failures) + if r.Err? && Resolves(queried, disallow, fallback) then [HostRoute(queried.value.peerIp)] else []
    ensures r.Ok? ==> var info := ResolveBypassRouteInfo(queried.value, disallow, fallback).value;
                      var host := HostRoute(info.peerIp);
                      && r.value.hop == Hop(info.device, info.gateway)
                      && Extended(old(table.entries), table.entries, r.value.routes, r.value.hop)
                      && host in table.entries
                      && r.value.routes == if host in old(table.entries) then [] else [host]
  {
    var info :- queried;
    info :- ResolveBypassRouteInfo(info, disallow, fallback);
    var host, hop := HostRoute(info.peerIp), Hop(info.device, info.gateway);
    HostIsCanonical(info.peerIp);
    var outcome :- table.Add(host, hop);
    r := Ok(Guard(hop, if outcome == Added then [host] else []));
  }

  // ---- Ownership over a whole session ----------------------------------------------------------

  /** The live guards of a process and the table they act on. Guards are dropped in any order. */
  class RouteOwner {
    const table: RouteTable
    ghost const initial: map<IpNet, Hop>
    var guards: map<nat, RouteGuard>
    var nextId: nat

    constructor (table: RouteTable)
      ensures this.table == table && initial == table.entries && guards == map[] && Valid()
    {
      this.table := table;
      initial := table.entries;
      guards := map[];
      nextId := 0;
    }

    ghost predicate Valid()
      reads this, table
    {
      Balanced(initial, guards, nextId, table.entries)
    }

    method Hold(g: RouteGuard, ghost before: map<IpNet, Hop>)
      requires Extended(before, table.entries, g.routes, g.hop)
      requires Balanced(initial, guards, nextId, before)
      modifies this
      ensures Valid() && guards == old(guards)[old(nextId) := g] && nextId == old(nextId) + 1
    {
      hide Balanced, Extended;
      HoldKeepsBalance(initial, guards, nextId, before, table.entries, g);
      guards := guards[nextId := g];
      nextId := nextId + 1;
    }

    method InstallRoutes(tunName: string, routes: seq<IpNet>) returns (ok: bool)
      requires Valid()
      modifies this, table
      ensures Valid()
      ensures !ok ==> table.entries == old(table.entries) && guards == old(guards)
      ensures ok ==> guards.Keys == old(guards.Keys) + {old(nextId)} && nextId == old(nextId) + 1
      ensures ok ==> forall n :: n in ExpandAll(routes) ==> Canonical(n) in table.entries
    {
      ghost var before := table.entries;
      var r := AddRoutes(table, tunName, routes);
      if r.Err? {
        return false;
      }
      Hold(r.value, before);
      ok := true;
    }

    method InstallBypass(queried: Result<BypassRouteInfo, RouteError>, disallow: Option<string>, fallback: Option<UnderlayGateway>)
      returns (ok: bool)
      requires Valid()
      modifies this, table
      ensures Valid()
      ensures !ok ==> table.entries == old(table.entries) && guards == old(guards)
      ensures ok ==> guards.Keys == old(guards.Keys) + {old(nextId)} && nextId == old(nextId) + 1
    {
      ghost var before := table.entries;
      var r := AddBypassRoute(table, queried, disallow, fallback);
      if r.Err? {
        return false;
      }
      Hold(r.value, before);
      ok := true;
    }

    /** Dropping any guard removes exactly what it owns. */
    method Drop(id: nat)
      requires Valid() && id in guards
      modifies this, table
      ensures Valid() && guards == old(guards) - {id} && nextId == old(nextId)
      ensures table.entries == old(table.entries) - (set r | r in old(guards)[id].routes)
    {
      var g := guards[id];
      ghost var rest := table.entries - (set r | r in g.routes);
      DropKeepsBalance(initial, guards, nextId, table.entries, id);
      RemoveAll(table, g.hop, g.routes, rest);
      guards := guards - {id};
    }
  }
}
