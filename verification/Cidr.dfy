/** IP addresses and CIDR prefixes, with the containment tests of the `ipnet` crate. */
module Cidr {
  import opened Wrappers

  function Pow2(n: nat): (r: nat)
    ensures r > 0
  {
    if n == 0 then 1 else 2 * Pow2(n - 1)
  }

  /** The start of the `s`-sized block that holds `x`. */
  function BlockStart(x: nat, s: nat): (r: nat)
    requires s > 0
    ensures r == x / s * s && r <= x < r + s
  {
    assert x == x / s * s + x % s;
    DivNonNegative(x, s);
    x / s * s
  }

  lemma DivNonNegative(x: nat, s: nat)
    requires s > 0
    ensures 0 <= x / s * s
  {
    assert 0 <= x / s;
  }

  datatype Family = V4 | V6 {
    function Width(): nat {
      if V4? then 32 else 128
    }
  }

  datatype RawAddr = Addr(family: Family, bits: nat)

  type IpAddr = a: RawAddr | a.bits < Pow2(a.family.Width()) witness (PowPositive(32); Addr(V4, 0))

  lemma PowPositive(n: nat)
    ensures 0 < Pow2(n)
  {
  }

  /** A prefix as configured: the address may have host bits set. */
  datatype RawNet = Net(addr: IpAddr, prefixLen: nat) {
    function Size(): (r: nat)
      requires prefixLen <= addr.family.Width()
      ensures r > 0
    {
      Pow2(addr.family.Width() - prefixLen)
    }

    /** The address with its host bits zeroed. */
    function Network(): RawAddr
      requires prefixLen <= addr.family.Width()
    {
      Addr(addr.family, BlockStart(addr.bits, Size()))
    }

    predicate Contains(ip: RawAddr)
      requires prefixLen <= addr.family.Width()
    {
      ip.family == addr.family && Network().bits <= ip.bits < Network().bits + Size()
    }
  }

  type IpNet = n: RawNet | n.prefixLen <= n.addr.family.Width() witness (PowPositive(32); Net(Addr(V4, 0), 0))

  // ---- Division facts --------------------------------------------------------------------------

  lemma DivBetween(x: nat, s: nat, q: nat)
    requires s > 0
    ensures x / s == q <==> q * s <= x < q * s + s
  {
    var d := x / s;
    assert d * s <= x < d * s + s;
    if d < q {
      MulMono(d + 1, q, s);
    } else if q < d {
      MulMono(q + 1, d, s);
    }
  }

  lemma MulMono(a: nat, b: nat, s: nat)
    requires a <= b
    ensures a * s <= b * s
  {
  }

  lemma DivDiv(x: nat, s: nat, m: nat)
    requires s > 0 && m > 0
    ensures s * m > 0 && x / (s * m) == x / s / m
  {
    var y := x / s;
    var q := y / m;
    DivBetween(x, s, y);
    DivBetween(y, m, q);
    BlockOfBlocks(x, s, m, y, q);
    DivBetween(x, s * m, q);
  }

  /** A block of `m` blocks of size `s`. */
  lemma BlockOfBlocks(x: nat, s: nat, m: nat, y: nat, q: nat)
    requires s > 0 && m > 0
    requires y * s <= x < y * s + s && q * m <= y < q * m + m
    ensures s * m > 0 && q * (s * m) <= x < q * (s * m) + s * m
  {
    MulMono(q * m, y, s);
    MulMono(y + 1, q * m + m, s);
    Regroup(q, s, m);
    Regroup(1, s, m);
    Distribute(y, 1, s);
    Distribute(q * m, m, s);
    MulMono(1, m, s);
  }

  lemma Regroup(q: nat, s: nat, m: nat)
    ensures (q * m) * s == q * (s * m)
  {
  }

  lemma Distribute(a: nat, b: nat, s: nat)
    ensures (a + b) * s == a * s + b * s
  {
  }

  lemma {:induction false} PowAdd(a: nat, b: nat)
    ensures Pow2(a + b) == Pow2(a) * Pow2(b)
  {
    if b > 0 {
      PowAdd(a, b - 1);
      Regroup(Pow2(a), Pow2(b - 1), 2);
    }
  }

  // ---- Containment -----------------------------------------------------------------------------

  /** Containment compares the leading bits, of 32 or 128. */
  lemma ContainsExactly(n: IpNet, ip: IpAddr)
    ensures n.prefixLen <= if n.addr.family == V4 then 32 else 128
    ensures n.Contains(ip) <==>
            && ip.family == n.addr.family
            && var s := Pow2((if n.addr.family == V4 then 32 else 128) - n.prefixLen); ip.bits / s == n.addr.bits / s
  {
    hide Pow2;
    ContainsByBlock(n, ip);
  }

  /** Containment compares block numbers. */
  lemma ContainsByBlock(n: IpNet, ip: RawAddr)
    ensures n.Contains(ip) <==> ip.family == n.addr.family && ip.bits / n.Size() == n.addr.bits / n.Size()
  {
    hide BlockStart, Pow2;
    SameBlock(ip.bits, n.addr.bits, n.Size());
  }

  lemma SameBlock(x: nat, b: nat, s: nat)
    requires s > 0
    ensures BlockStart(b, s) <= x < BlockStart(b, s) + s <==> x / s == b / s
  {
    hide BlockStart;
    DivBetween(x, s, b / s);
  }

  lemma ContainsOwnNetwork(n: IpNet)
    ensures n.Contains(n.Network())
  {
  }

  lemma NetworkIsAddr(n: IpNet)
    ensures n.Network().bits < Pow2(n.addr.family.Width())
  {
  }

  /** A longer prefix that shares one address with a shorter one lies inside it. */
  lemma SharedMeansNested(wide: IpNet, narrow: IpNet, ip: RawAddr, other: RawAddr)
    requires wide.prefixLen <= narrow.prefixLen
    requires wide.Contains(ip) && narrow.Contains(ip) && narrow.Contains(other)
    ensures wide.Contains(other)
  {
    var s := narrow.Size();
    var m := Pow2(narrow.prefixLen - wide.prefixLen);
    var w := narrow.addr.family.Width();
    PowAdd(w - narrow.prefixLen, narrow.prefixLen - wide.prefixLen);
    assert wide.Size() == s * m;
    DivDiv(ip.bits, s, m);
    DivDiv(other.bits, s, m);
    ContainsByBlock(narrow, ip);
    ContainsByBlock(narrow, other);
    ContainsByBlock(wide, ip);
    ContainsByBlock(wide, other);
  }

  predicate Overlaps(a: IpNet, b: IpNet) {
    a.Contains(b.Network()) || b.Contains(a.Network())
  }

  ghost predicate Inside(a: IpNet, b: IpNet) {
    forall ip :: a.Contains(ip) ==> b.Contains(ip)
  }

  /** The overlap test is exact: it holds iff the two prefixes share an address, and two prefixes of
      one family are always nested or disjoint. */
  lemma OverlapsIffShared(a: IpNet, b: IpNet)
    ensures Overlaps(a, b) <==> exists ip: IpAddr :: a.Contains(ip) && b.Contains(ip)
    ensures Overlaps(a, b) ==> Inside(a, b) || Inside(b, a)
  {
    ContainsOwnNetwork(a);
    ContainsOwnNetwork(b);
    NetworkIsAddr(a);
    NetworkIsAddr(b);
    if Overlaps(a, b) {
      var ip: IpAddr := if a.Contains(b.Network()) then b.Network() else a.Network();
      assert a.Contains(ip) && b.Contains(ip);
      NestedThrough(a, b, ip);
    }
    if ip: IpAddr :| a.Contains(ip) && b.Contains(ip) {
      if a.prefixLen <= b.prefixLen {
        SharedMeansNested(a, b, ip, b.Network());
      } else {
        SharedMeansNested(b, a, ip, a.Network());
      }
    }
  }

  lemma NestedThrough(a: IpNet, b: IpNet, ip: RawAddr)
    requires a.Contains(ip) && b.Contains(ip)
    ensures Inside(a, b) || Inside(b, a)
  {
    if a.prefixLen <= b.prefixLen {
      forall other | b.Contains(other)
        ensures a.Contains(other)
      {
        SharedMeansNested(a, b, ip, other);
      }
    } else {
      forall other | a.Contains(other)
        ensures b.Contains(other)
      {
        SharedMeansNested(b, a, ip, other);
      }
    }
  }

  // ---- The split-tunnel check ------------------------------------------------------------------

  const EXEMPT_MAX_PREFIX_LEN: nat := 1

  datatype LocalNetwork = LocalNetwork(interface: string, net: IpNet)

  datatype Conflict = Conflict(route: IpNet, local: LocalNetwork)

  predicate Exempt(route: IpNet) {
    route.prefixLen <= EXEMPT_MAX_PREFIX_LEN
  }

  function FirstLocal(route: IpNet, locals: seq<LocalNetwork>): Option<LocalNetwork> {
    if locals == [] then None
    else if Overlaps(route, locals[0].net) then Some(locals[0])
    else FirstLocal(route, locals[1..])
  }

  function FirstConflict(routes: seq<IpNet>, locals: seq<LocalNetwork>): Option<Conflict> {
    if routes == [] then None
    else if Exempt(routes[0]) then FirstConflict(routes[1..], locals)
    else
      match FirstLocal(routes[0], locals)
      case Some(local) => Some(Conflict(routes[0], local))
      case None => FirstConflict(routes[1..], locals)
  }

  /** Routes are checked in order, IPv4 then IPv6. */
  function SplitTunnelConflict(routes4: seq<IpNet>, routes6: seq<IpNet>, locals: seq<LocalNetwork>): Option<Conflict> {
    FirstConflict(routes4 + routes6, locals)
  }

  predicate HasRefusableRoutes(routes4: seq<IpNet>, routes6: seq<IpNet>) {
    (exists r :: r in routes4 && !Exempt(r)) || (exists r :: r in routes6 && !Exempt(r))
  }

  /** A non-exempt route that shares an address with a network the host is on. */
  ghost predicate Conflicts(route: IpNet, local: LocalNetwork) {
    route.prefixLen > 1 && exists ip: IpAddr :: route.Contains(ip) && local.net.Contains(ip)
  }

  ghost predicate ConflictsWithAny(route: IpNet, locals: seq<LocalNetwork>) {
    exists local :: local in locals && Conflicts(route, local)
  }

  lemma OverlapIsConflict(route: IpNet, local: LocalNetwork)
    requires !Exempt(route)
    ensures Overlaps(route, local.net) <==> Conflicts(route, local)
  {
    OverlapsIffShared(route, local.net);
  }

  lemma ConflictsWithItself(route: IpNet)
    requires !Exempt(route)
    ensures Conflicts(route, LocalNetwork("", route))
  {
    ContainsOwnNetwork(route);
    NetworkIsAddr(route);
    var ip: IpAddr := route.Network();
    assert route.Contains(ip);
  }

  lemma {:induction false} FirstLocalIsFirst(route: IpNet, locals: seq<LocalNetwork>)
    requires !Exempt(route)
    ensures FirstLocal(route, locals).None? <==> !ConflictsWithAny(route, locals)
    ensures FirstLocal(route, locals).Some? ==>
              exists j :: 0 <= j < |locals| && locals[j] == FirstLocal(route, locals).value
                          && Conflicts(route, locals[j]) && !ConflictsWithAny(route, locals[..j])
  {
    hide Overlaps, Conflicts;
    if locals != [] {
      OverlapIsConflict(route, locals[0]);
      if Conflicts(route, locals[0]) {
        assert locals[0] in locals && locals[..0] == [];
      } else {
        FirstLocalIsFirst(route, locals[1..]);
        assert locals == [locals[0]] + locals[1..];
        if FirstLocal(route, locals).Some? {
          var j :| 0 <= j < |locals[1..]| && locals[1..][j] == FirstLocal(route, locals).value
                   && Conflicts(route, locals[1..][j]) && !ConflictsWithAny(route, locals[1..][..j]);
          assert locals[..j + 1] == [locals[0]] + locals[1..][..j];
          assert locals[j + 1] == locals[1..][j];
        }
      }
    }
  }

  /** The refusal names the first conflicting route and its first conflicting network; there is none
      exactly when no non-exempt route shares an address with any local network. */
  lemma {:induction false} ConflictIsFirst(routes: seq<IpNet>, locals: seq<LocalNetwork>)
    ensures var r := FirstConflict(routes, locals);
            && (r.None? <==> forall i :: 0 <= i < |routes| ==> !ConflictsWithAny(routes[i], locals))
            && (r.Some? ==> exists i :: 0 <= i < |routes| && NamedBy(routes, locals, i, r.value))
  {
    if routes != [] {
      var route, rest := routes[0], routes[1..];
      if !Exempt(route) {
        FirstLocalIsFirst(route, locals);
      }
      if ConflictsWithAny(route, locals) {
        assert NamedBy(routes, locals, 0, FirstConflict(routes, locals).value);
      } else {
        ConflictIsFirst(rest, locals);
        assert forall i :: 0 < i < |routes| ==> routes[i] == rest[i - 1];
        if FirstConflict(rest, locals).Some? {
          var c := FirstConflict(rest, locals).value;
          var i :| 0 <= i < |rest| && NamedBy(rest, locals, i, c);
          assert NamedBy(routes, locals, i + 1, c);
        }
      }
    }
  }

  ghost predicate NamedBy(routes: seq<IpNet>, locals: seq<LocalNetwork>, i: nat, c: Conflict)
    requires i < |routes|
  {
    && c.route == routes[i]
    && (forall k :: 0 <= k < i ==> !ConflictsWithAny(routes[k], locals))
    && exists j :: 0 <= j < |locals| && locals[j] == c.local
                   && Conflicts(c.route, c.local) && !ConflictsWithAny(c.route, locals[..j])
  }

  /** IPv4 routes come first: an IPv6 route is named only if no IPv4 route conflicts, and none only if none does. */
  lemma Ipv4RoutesComeFirst(routes4: seq<IpNet>, routes6: seq<IpNet>, locals: seq<LocalNetwork>)
    ensures var r := SplitTunnelConflict(routes4, routes6, locals);
            && (r.None? <==> (forall n :: n in routes4 ==> !ConflictsWithAny(n, locals)) && forall n :: n in routes6 ==> !ConflictsWithAny(n, locals))
            && (r.Some? && (exists n :: n in routes4 && ConflictsWithAny(n, locals)) ==>
                  exists i :: 0 <= i < |routes4| && NamedBy(routes4, locals, i, r.value))
            && (r.Some? && (forall n :: n in routes4 ==> !ConflictsWithAny(n, locals)) ==>
                  exists i :: 0 <= i < |routes6| && NamedBy(routes6, locals, i, r.value))
  {
    hide FirstConflict, ConflictsWithAny, Conflicts;
    var all := routes4 + routes6;
    ConflictIsFirst(all, locals);
    var r := SplitTunnelConflict(routes4, routes6, locals);
    assert forall i :: 0 <= i < |routes4| ==> all[i] == routes4[i];
    assert forall i :: 0 <= i < |routes6| ==> all[|routes4| + i] == routes6[i];
    if r.None? {
      forall n | n in routes4 || n in routes6
        ensures !ConflictsWithAny(n, locals)
      {
        assert n in all;
        var i :| 0 <= i < |all| && all[i] == n;
      }
    } else {
      var i :| 0 <= i < |all| && NamedBy(all, locals, i, r.value);
      NamedConflicts(all, locals, i, r.value);
      if i < |routes4| {
        assert NamedBy(routes4, locals, i, r.value) && all[i] in routes4;
      } else {
        assert NamedBy(routes6, locals, i - |routes4|, r.value) && all[i] in routes6;
      }
    }
  }

  lemma NamedConflicts(routes: seq<IpNet>, locals: seq<LocalNetwork>, i: nat, c: Conflict)
    requires i < |routes| && NamedBy(routes, locals, i, c)
    ensures ConflictsWithAny(routes[i], locals)
  {
    hide Conflicts;
  }

  /** Skipping the watcher is sound and never too eager: some list of local networks conflicts exactly
      when a refusable route exists. */
  lemma WatcherNeededExactly(routes4: seq<IpNet>, routes6: seq<IpNet>)
    ensures HasRefusableRoutes(routes4, routes6) <==>
            exists locals :: SplitTunnelConflict(routes4, routes6, locals).Some?
  {
    hide Conflicts, FirstConflict;
    var routes := routes4 + routes6;
    if HasRefusableRoutes(routes4, routes6) {
      var r :| r in routes && !Exempt(r);
      var i :| 0 <= i < |routes| && routes[i] == r;
      var locals := [LocalNetwork("", r)];
      ConflictsWithItself(r);
      assert locals[0] in locals;
      assert ConflictsWithAny(routes[i], locals);
      ConflictIsFirst(routes, locals);
      assert SplitTunnelConflict(routes4, routes6, locals).Some?;
    }
    forall locals | SplitTunnelConflict(routes4, routes6, locals).Some?
      ensures HasRefusableRoutes(routes4, routes6)
    {
      ConflictIsFirst(routes, locals);
      var c := FirstConflict(routes, locals).value;
      var i :| 0 <= i < |routes| && NamedBy(routes, locals, i, c);
      NamedIsRefusable(routes, locals, i, c);
      assert routes[i] in routes;
    }
  }

  lemma NamedIsRefusable(routes: seq<IpNet>, locals: seq<LocalNetwork>, i: nat, c: Conflict)
    requires i < |routes| && NamedBy(routes, locals, i, c)
    ensures !Exempt(routes[i])
  {
  }
}
