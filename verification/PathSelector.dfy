/** Choosing the transport path: tiers, biased RTT, and hysteresis. */
module PathSelector {
  import opened Wrappers
  import opened Cidr

  /** Nanoseconds: how far IPv6 is preferred, and the improvement a same-tier switch needs. */
  const IPV6_RTT_ADVANTAGE := 3_000_000
  const RTT_SWITCHING_MIN := 5_000_000

  datatype Remote = Ip(addr: IpAddr, port: nat) | Relay(url: nat) | Other(id: nat)

  datatype FourTuple = FourTuple(remote: Remote, local: Option<IpAddr>)

  datatype Candidate = Candidate(path: FourTuple, rtt: nat)

  /** An IPv4-mapped IPv6 address (::ffff:0:0/96) as IPv4; any other address unchanged. */
  function ToCanonical(ip: IpAddr): IpAddr {
    if ip.family == V6 && ip.bits / 0x1_0000_0000 == 0xFFFF then
      Pow32();
      Addr(V4, ip.bits % 0x1_0000_0000)
    else ip
  }

  lemma Pow32()
    ensures Pow2(32) == 0x1_0000_0000
  {
    assert Pow2(8) == 256;
    PowAdd(8, 8);
    PowAdd(16, 16);
  }

  predicate IsExcluded(excluded: seq<IpNet>, path: FourTuple) {
    path.remote.Ip? && exists net :: net in excluded && net.Contains(ToCanonical(path.remote.addr))
  }

  datatype Key = Key(relay: bool, biased: int) {
    predicate Less(other: Key) {
      if relay == other.relay then biased < other.biased else !relay
    }
  }

  function Bias(path: FourTuple): int {
    if path.remote.Ip? && path.remote.addr.family == V6 then IPV6_RTT_ADVANTAGE else 0
  }

  function SortKey(path: FourTuple, rtt: int): Key {
    Key(path.remote.Relay?, rtt - Bias(path))
  }

  function KeyOf(c: Candidate): Key {
    SortKey(c.path, c.rtt)
  }

  // ---- The scan --------------------------------------------------------------------------------

  function BestOf(excluded: seq<IpNet>, cs: seq<Candidate>): (best: Option<nat>)
    ensures best.Some? ==> best.value < |cs|
  {
    if cs == [] then None
    else
      var n := |cs| - 1;
      var best := BestOf(excluded, cs[..n]);
      if IsExcluded(excluded, cs[n].path) then best
      else if best.None? || KeyOf(cs[n]).Less(KeyOf(cs[best.value])) then Some(n)
      else best
  }

  function CurrentKeyOf(excluded: seq<IpNet>, current: Option<FourTuple>, cs: seq<Candidate>): Option<Key> {
    if cs == [] then None
    else
      var n := |cs| - 1;
      var key := CurrentKeyOf(excluded, current, cs[..n]);
      if IsExcluded(excluded, cs[n].path) then key
      else if Some(cs[n].path) == current && (key.None? || KeyOf(cs[n]).Less(key.value)) then Some(KeyOf(cs[n]))
      else key
  }

  /** Whether the current path is kept against the best one. */
  predicate Keeps(current: Key, best: Key) {
    current.relay == best.relay && current.biased < best.biased + RTT_SWITCHING_MIN
  }

  function Choice(excluded: seq<IpNet>, current: Option<FourTuple>, cs: seq<Candidate>): (r: Option<nat>)
    ensures r.Some? ==> r.value < |cs|
  {
    var best := BestOf(excluded, cs);
    var key := CurrentKeyOf(excluded, current, cs);
    if best.None? || (key.Some? && Keeps(key.value, KeyOf(cs[best.value]))) then None else best
  }

  method Choose(excluded: seq<IpNet>, current: Option<FourTuple>, candidates: seq<Candidate>) returns (r: Option<nat>)
    ensures r == Choice(excluded, current, candidates)
  {
    hide IsExcluded, SortKey;
    var best: Option<(nat, Key)> := None;
    var currentKey: Option<Key> := None;
    for i := 0 to |candidates|
      invariant currentKey == CurrentKeyOf(excluded, current, candidates[..i])
      invariant match BestOf(excluded, candidates[..i])
                case None => best == None
                case Some(b) => b < i && best == Some((b, KeyOf(candidates[b])))
    {
      assert candidates[..i + 1][..i] == candidates[..i];
      var c := candidates[i];
      if IsExcluded(excluded, c.path) {
        continue;
      }
      var key := SortKey(c.path, c.rtt);
      if Some(c.path) == current && (currentKey.None? || key.Less(currentKey.value)) {
        currentKey := Some(key);
      }
      if best.None? || key.Less(best.value.1) {
        best := Some((i, key));
      }
    }
    assert candidates[..|candidates|] == candidates;
    if best.None? {
      return None;
    }
    var (index, bestKey) := best.value;
    match currentKey
    case None => r := Some(index);
    case Some(k) =>
      if k.relay != bestKey.relay {
        r := Some(index);
      } else if bestKey.biased + RTT_SWITCHING_MIN <= k.biased {
        r := Some(index);
      } else {
        r := None;
      }
  }

  // ---- What the scan finds ---------------------------------------------------------------------

  ghost predicate AllowedAt(excluded: seq<IpNet>, cs: seq<Candidate>, i: int) {
    0 <= i < |cs| && !IsExcluded(excluded, cs[i].path)
  }

  /** `i` is allowed and minimal among the allowed candidates, the earliest on ties. */
  ghost predicate IsBest(excluded: seq<IpNet>, cs: seq<Candidate>, i: int) {
    && AllowedAt(excluded, cs, i)
    && (forall j :: AllowedAt(excluded, cs, j) ==> !KeyOf(cs[j]).Less(KeyOf(cs[i])))
    && (forall j :: AllowedAt(excluded, cs, j) && j < i ==> KeyOf(cs[i]).Less(KeyOf(cs[j])))
  }

  lemma {:induction false} BestOfIsBest(excluded: seq<IpNet>, cs: seq<Candidate>)
    ensures var b := BestOf(excluded, cs);
            if b.Some? then IsBest(excluded, cs, b.value) else forall i :: !AllowedAt(excluded, cs, i)
  {
    hide IsExcluded, SortKey;
    if cs != [] {
      var n := |cs| - 1;
      var front := cs[..n];
      BestOfIsBest(excluded, front);
      assert forall j :: 0 <= j < n ==> cs[j] == front[j];
      assert forall j :: AllowedAt(excluded, cs, j) && j != n ==> AllowedAt(excluded, front, j);
      assert forall j :: AllowedAt(excluded, front, j) ==> AllowedAt(excluded, cs, j);
    }
  }

  /** `k` is the least key the allowed current path has among the candidates. */
  ghost predicate IsCurrentKey(excluded: seq<IpNet>, path: FourTuple, cs: seq<Candidate>, k: Key) {
    && (exists j :: AllowedAt(excluded, cs, j) && cs[j].path == path && KeyOf(cs[j]) == k)
    && (forall j :: AllowedAt(excluded, cs, j) && cs[j].path == path ==> !KeyOf(cs[j]).Less(k))
  }

  lemma {:induction false} CurrentKeyIsLeast(excluded: seq<IpNet>, current: Option<FourTuple>, cs: seq<Candidate>)
    ensures var k := CurrentKeyOf(excluded, current, cs);
            if k.Some? then current.Some? && IsCurrentKey(excluded, current.value, cs, k.value)
            else forall j :: AllowedAt(excluded, cs, j) ==> Some(cs[j].path) != current
  {
    hide IsExcluded, SortKey;
    if cs != [] {
      var n := |cs| - 1;
      var front := cs[..n];
      CurrentKeyIsLeast(excluded, current, front);
      assert forall j :: 0 <= j < n ==> cs[j] == front[j];
      assert forall j :: AllowedAt(excluded, cs, j) && j != n ==> AllowedAt(excluded, front, j);
      var before := CurrentKeyOf(excluded, current, front);
      if before.Some? {
        var j :| AllowedAt(excluded, front, j) && front[j].path == current.value && KeyOf(front[j]) == before.value;
        assert AllowedAt(excluded, cs, j) && KeyOf(cs[j]) == before.value;
      }
      if AllowedAt(excluded, cs, n) {
        assert cs[n] == cs[|cs| - 1];
      }
    }
  }

  /** No selection means nothing was allowed, or the allowed current path is in the best tier and within
      the switching threshold; a selection is the best candidate, and never an excluded one. */
  lemma ChoiceIsRight(excluded: seq<IpNet>, current: Option<FourTuple>, cs: seq<Candidate>)
    ensures var r := Choice(excluded, current, cs);
            && (r.Some? ==> IsBest(excluded, cs, r.value))
            && (r.None? <==>
                || (forall i :: !AllowedAt(excluded, cs, i))
                || (exists b, k: Key :: current.Some? && IsBest(excluded, cs, b) && IsCurrentKey(excluded, current.value, cs, k)
                                        && Keeps(k, KeyOf(cs[b]))))
  {
    hide IsExcluded, SortKey, BestOf, CurrentKeyOf, Keeps;
    BestOfIsBest(excluded, cs);
    CurrentKeyIsLeast(excluded, current, cs);
    var best, key := BestOf(excluded, cs), CurrentKeyOf(excluded, current, cs);
    if best.Some? && current.Some? {
      forall b, k: Key | IsBest(excluded, cs, b) && IsCurrentKey(excluded, current.value, cs, k)
        ensures b == best.value && key == Some(k)
      {
        BestIsUnique(excluded, cs, b, best.value);
        var j :| AllowedAt(excluded, cs, j) && cs[j].path == current.value && KeyOf(cs[j]) == k;
        CurrentKeyIsUnique(excluded, current.value, cs, k, key.value);
      }
    }
  }

  // ---- The same, in nanoseconds ------------------------------------------------------------------

  /** An excluded path: a direct one whose address, IPv4-mapped ones (::ffff:a.b.c.d) taken as IPv4, lies in one
      of the networks. */
  ghost predicate Forbidden(excluded: seq<IpNet>, path: FourTuple) {
    && path.remote.Ip?
    && var ip := path.remote.addr;
       exists net :: net in excluded &&
         if ip.family == V6 && 0xFFFF_0000_0000 <= ip.bits <= 0xFFFF_FFFF_FFFF
         then net.Contains(Addr(V4, ip.bits - 0xFFFF_0000_0000)) else net.Contains(ip)
  }

  /** A candidate's RTT, with 3 ms off for IPv6. */
  function Weighed(c: Candidate): int {
    if c.path.remote.Ip? && c.path.remote.addr.family == V6 then c.rtt - 3_000_000 else c.rtt
  }

  ghost predicate Open(excluded: seq<IpNet>, cs: seq<Candidate>, i: int) {
    0 <= i < |cs| && !Forbidden(excluded, cs[i].path)
  }

  /** `i` is no worse than any open candidate: a relay only among relays, then the least weighed RTT. */
  ghost predicate NoWorse(excluded: seq<IpNet>, cs: seq<Candidate>, i: int)
    requires 0 <= i < |cs|
  {
    forall j :: Open(excluded, cs, j) ==>
      && (cs[i].path.remote.Relay? ==> cs[j].path.remote.Relay?)
      && (cs[i].path.remote.Relay? == cs[j].path.remote.Relay? ==> Weighed(cs[i]) <= Weighed(cs[j]))
  }

  /** `c` is good enough to stay on: not a relay while a direct path is open, and nothing in its tier is 5 ms or
      more better. */
  ghost predicate GoodEnough(excluded: seq<IpNet>, cs: seq<Candidate>, c: int)
    requires 0 <= c < |cs|
  {
    forall j :: Open(excluded, cs, j) ==>
      && (cs[c].path.remote.Relay? ==> cs[j].path.remote.Relay?)
      && (cs[c].path.remote.Relay? == cs[j].path.remote.Relay? ==> Weighed(cs[c]) < Weighed(cs[j]) + 5_000_000)
  }

  /** The choice is open, no worse than any other and the first such; there is none exactly when nothing is open
      or the current path, itself open, is good enough. */
  lemma ChoiceExactly(excluded: seq<IpNet>, current: Option<FourTuple>, cs: seq<Candidate>)
    ensures var r := Choice(excluded, current, cs);
            && (r.Some? ==> Open(excluded, cs, r.value) && NoWorse(excluded, cs, r.value))
            && (r.Some? ==> forall j :: Open(excluded, cs, j) && j < r.value ==> !NoWorse(excluded, cs, j))
            && (r.None? <==>
                || (forall i :: !Open(excluded, cs, i))
                || (exists c :: Open(excluded, cs, c) && Some(cs[c].path) == current && GoodEnough(excluded, cs, c)))
  {
    hide IsExcluded, BestOf, CurrentKeyOf, Forbidden, Choice;
    OpenIsAllowed(excluded, cs);
    ChoiceIsRight(excluded, current, cs);
    BestOfIsBest(excluded, cs);
    CurrentKeyIsLeast(excluded, current, cs);
    var best := BestOf(excluded, cs);
    if best.Some? && current.Some? {
      forall c | Open(excluded, cs, c) && Some(cs[c].path) == current && GoodEnough(excluded, cs, c)
        ensures Choice(excluded, current, cs).None?
      {
        var k := CurrentKeyOf(excluded, current, cs).value;
        var j :| AllowedAt(excluded, cs, j) && cs[j].path == current.value && KeyOf(cs[j]) == k;
        assert !KeyOf(cs[c]).Less(k);
        assert Keeps(k, KeyOf(cs[best.value]));
        assert IsCurrentKey(excluded, current.value, cs, k);
      }
    }
  }

  lemma OpenIsAllowed(excluded: seq<IpNet>, cs: seq<Candidate>)
    ensures forall i :: Open(excluded, cs, i) <==> AllowedAt(excluded, cs, i)
  {
    forall i | 0 <= i < |cs|
      ensures IsExcluded(excluded, cs[i].path) <==> Forbidden(excluded, cs[i].path)
    {
      if cs[i].path.remote.Ip? {
        Unmapped(cs[i].path.remote.addr);
      }
    }
  }

  lemma Unmapped(ip: IpAddr)
    ensures ToCanonical(ip) == if ip.family == V6 && 0xFFFF_0000_0000 <= ip.bits <= 0xFFFF_FFFF_FFFF
                               then Addr(V4, ip.bits - 0xFFFF_0000_0000) else ip
  {
    assert ip.bits == 0x1_0000_0000 * (ip.bits / 0x1_0000_0000) + ip.bits % 0x1_0000_0000;
  }

  lemma BestIsUnique(excluded: seq<IpNet>, cs: seq<Candidate>, a: int, b: int)
    requires IsBest(excluded, cs, a) && IsBest(excluded, cs, b)
    ensures a == b
  {
    hide IsExcluded, SortKey;
  }

  lemma CurrentKeyIsUnique(excluded: seq<IpNet>, path: FourTuple, cs: seq<Candidate>, k: Key, m: Key)
    requires IsCurrentKey(excluded, path, cs, k) && IsCurrentKey(excluded, path, cs, m)
    ensures k == m
  {
    hide IsExcluded, SortKey;
    var i :| AllowedAt(excluded, cs, i) && cs[i].path == path && KeyOf(cs[i]) == k;
    var j :| AllowedAt(excluded, cs, j) && cs[j].path == path && KeyOf(cs[j]) == m;
  }

  /** Choosing again on the same candidates after switching keeps the new path. */
  lemma ChoiceIsStable(excluded: seq<IpNet>, current: Option<FourTuple>, cs: seq<Candidate>)
    requires Choice(excluded, current, cs).Some?
    ensures Choice(excluded, Some(cs[Choice(excluded, current, cs).value].path), cs) == None
  {
    hide IsExcluded, SortKey, BestOf, CurrentKeyOf;
    var b := BestOf(excluded, cs).value;
    var path := cs[b].path;
    BestOfIsBest(excluded, cs);
    CurrentKeyIsLeast(excluded, Some(path), cs);
    assert AllowedAt(excluded, cs, b);
    var k := CurrentKeyOf(excluded, Some(path), cs).value;
    var j :| AllowedAt(excluded, cs, j) && cs[j].path == path && KeyOf(cs[j]) == k;
  }

  // ---- Whole runs ------------------------------------------------------------------------------

  /** One round's measurements: the allowed ones are of the same distinct paths every time, each RTT less
      than 2.5 ms away from that path's own base value. Excluded candidates may come and go. */
  ghost predicate Jittered(excluded: seq<IpNet>, paths: set<FourTuple>, base: FourTuple -> int, cs: seq<Candidate>) {
    && (forall i :: AllowedAt(excluded, cs, i) ==> cs[i].path in paths)
    && (forall p :: p in paths ==> exists i :: AllowedAt(excluded, cs, i) && cs[i].path == p)
    && (forall i, j :: AllowedAt(excluded, cs, i) && AllowedAt(excluded, cs, j) && i < j ==> cs[i].path != cs[j].path)
    && (forall i :: AllowedAt(excluded, cs, i) ==> -RTT_SWITCHING_MIN < 2 * (cs[i].rtt - base(cs[i].path)) < RTT_SWITCHING_MIN)
  }

  /** The path in use after one round. */
  function Next(excluded: seq<IpNet>, current: FourTuple, cs: seq<Candidate>): FourTuple {
    match Choice(excluded, Some(current), cs)
    case None => current
    case Some(i) => cs[i].path
  }

  /** The paths in use from the start of a run to its end. */
  function Trace(excluded: seq<IpNet>, start: FourTuple, rounds: seq<seq<Candidate>>): (t: seq<FourTuple>)
    ensures |t| == |rounds| + 1
  {
    if rounds == [] then [start]
    else
      var t := Trace(excluded, start, rounds[..|rounds| - 1]);
      t + [Next(excluded, t[|t| - 1], rounds[|rounds| - 1])]
  }

  function Switches(t: seq<FourTuple>): nat {
    if |t| < 2 then 0 else Switches(t[..|t| - 1]) + if t[|t| - 1] != t[|t| - 2] then 1 else 0
  }

  function Rank(base: FourTuple -> int, p: FourTuple): Key {
    SortKey(p, base(p))
  }

  /** Under bounded jitter every switch goes strictly down in (relay tier, base biased RTT). */
  lemma SwitchImproves(excluded: seq<IpNet>, paths: set<FourTuple>, base: FourTuple -> int, current: FourTuple, cs: seq<Candidate>)
    requires Jittered(excluded, paths, base, cs) && current in paths
    ensures var next := Next(excluded, current, cs);
            next in paths && (next == current || Rank(base, next).Less(Rank(base, current)))
  {
    hide IsExcluded, BestOf, CurrentKeyOf;
    var best, key := BestOf(excluded, cs), CurrentKeyOf(excluded, Some(current), cs);
    BestOfIsBest(excluded, cs);
    CurrentKeyIsLeast(excluded, Some(current), cs);
    var c :| AllowedAt(excluded, cs, c) && cs[c].path == current;
    if Choice(excluded, Some(current), cs).Some? {
      var j :| AllowedAt(excluded, cs, j) && cs[j].path == current && KeyOf(cs[j]) == key.value;
      assert j == c;
      assert !KeyOf(cs[c]).Less(KeyOf(cs[best.value]));
    }
  }

  /** Everything in use before the last switch ranks strictly above the path in use now, so the paths
      visited are as many as the switches plus one. */
  ghost predicate Descended(paths: set<FourTuple>, base: FourTuple -> int, t: seq<FourTuple>) {
    && t != []
    && (forall i :: 0 <= i < |t| ==> t[i] in paths && AtOrAbove(base, t[i], t[|t| - 1]))
    && |Visited(t)| == Switches(t) + 1
  }

  ghost predicate AtOrAbove(base: FourTuple -> int, p: FourTuple, now: FourTuple) {
    p == now || Rank(base, now).Less(Rank(base, p))
  }

  ghost function Visited(t: seq<FourTuple>): set<FourTuple> {
    set p | p in t
  }

  lemma DescendsOn(paths: set<FourTuple>, base: FourTuple -> int, t: seq<FourTuple>, now: FourTuple)
    requires Descended(paths, base, t) && now in paths && AtOrAbove(base, t[|t| - 1], now)
    ensures Descended(paths, base, t + [now])
  {
    hide SortKey;
    var was, longer := t[|t| - 1], t + [now];
    assert longer[..|t|] == t;
    forall i | 0 <= i < |t|
      ensures AtOrAbove(base, t[i], now)
      ensures now != was ==> t[i] != now
    {
      assert AtOrAbove(base, t[i], was);
    }
    if now != was {
      assert now !in t;
      assert Visited(longer) == Visited(t) + {now};
    } else {
      assert was in t;
      assert Visited(longer) == Visited(t);
    }
  }

  lemma {:induction false} TraceDescends(excluded: seq<IpNet>, paths: set<FourTuple>, base: FourTuple -> int, start: FourTuple, rounds: seq<seq<Candidate>>)
    requires start in paths && forall i :: 0 <= i < |rounds| ==> Jittered(excluded, paths, base, rounds[i])
    ensures Descended(paths, base, Trace(excluded, start, rounds))
  {
    hide Jittered, Next, SortKey, Descended;
    if rounds == [] {
      StartDescended(paths, base, start);
    } else {
      var n := |rounds| - 1;
      var front := Trace(excluded, start, rounds[..n]);
      TraceDescends(excluded, paths, base, start, rounds[..n]);
      LastInPaths(paths, base, front);
      SwitchImproves(excluded, paths, base, front[n], rounds[n]);
      DescendsOn(paths, base, front, Next(excluded, front[n], rounds[n]));
    }
  }

  lemma StartDescended(paths: set<FourTuple>, base: FourTuple -> int, start: FourTuple)
    requires start in paths
    ensures Descended(paths, base, [start])
  {
    assert Visited([start]) == {start};
  }

  lemma LastInPaths(paths: set<FourTuple>, base: FourTuple -> int, t: seq<FourTuple>)
    requires Descended(paths, base, t)
    ensures t[|t| - 1] in paths
  {
  }

  /**
   No flapping: over any run with a fixed set of distinct allowed candidates and every RTT within
   2.5 ms of its base, the selector never returns to a path it left, and switches fewer times than
   there are candidates.
   */
  lemma NoFlapping(excluded: seq<IpNet>, paths: set<FourTuple>, base: FourTuple -> int, start: FourTuple, rounds: seq<seq<Candidate>>)
    requires start in paths && forall i :: 0 <= i < |rounds| ==> Jittered(excluded, paths, base, rounds[i])
    ensures var t := Trace(excluded, start, rounds);
            && Switches(t) < |paths|
            && forall i, j, k :: 0 <= i < j < k < |t| && t[i] != t[j] ==> t[k] != t[i]
  {
    hide Jittered, Switches, SortKey;
    var t := Trace(excluded, start, rounds);
    TraceDescends(excluded, paths, base, start, rounds);
    Subset(Visited(t), paths);
    forall i, j, k | 0 <= i < j < k < |t| && t[i] != t[j]
      ensures t[k] != t[i]
    {
      EarlierRanks(excluded, paths, base, start, rounds, i, j);
      EarlierRanks(excluded, paths, base, start, rounds, j, k);
    }
  }

  /** The bound is sharp: two direct paths with equal base RTT and a jitter of exactly 2.5 ms flap. */
  lemma FlapsAtTheThreshold(a: FourTuple, b: FourTuple, rtt: nat)
    requires a != b && a.remote.Other? && b.remote.Other? && rtt >= RTT_SWITCHING_MIN / 2
    ensures var high, low := rtt + RTT_SWITCHING_MIN / 2, rtt - RTT_SWITCHING_MIN / 2;
            Trace([], a, [[Candidate(a, high), Candidate(b, low)], [Candidate(a, low), Candidate(b, high)]]) == [a, b, a]
  {
    var high, low := rtt + RTT_SWITCHING_MIN / 2, rtt - RTT_SWITCHING_MIN / 2;
    var first, second := [Candidate(a, high), Candidate(b, low)], [Candidate(a, low), Candidate(b, high)];
    TwoPaths(a, b, high, low, a);
    TwoPaths(a, b, low, high, b);
    var rounds := [first, second];
    assert rounds[..1] == [first] && [first][..0] == [];
    assert Trace([], a, []) == [a];
    assert Trace([], a, [first]) == [a, b];
  }

  lemma TwoPaths(a: FourTuple, b: FourTuple, ra: nat, rb: nat, current: FourTuple)
    requires a != b && a.remote.Other? && b.remote.Other? && (current == a || current == b)
    requires if current == a then rb + RTT_SWITCHING_MIN <= ra else ra + RTT_SWITCHING_MIN <= rb
    ensures Next([], current, [Candidate(a, ra), Candidate(b, rb)]) == if current == a then b else a
  {
    hide BestOf, CurrentKeyOf;
    var cs := [Candidate(a, ra), Candidate(b, rb)];
    BestOfIsBest([], cs);
    CurrentKeyIsLeast([], Some(current), cs);
    assert AllowedAt([], cs, 0) && AllowedAt([], cs, 1);
    assert KeyOf(cs[0]) == Key(false, ra) && KeyOf(cs[1]) == Key(false, rb);
  }

  lemma EarlierRanks(excluded: seq<IpNet>, paths: set<FourTuple>, base: FourTuple -> int, start: FourTuple, rounds: seq<seq<Candidate>>, i: nat, j: nat)
    requires start in paths && forall k :: 0 <= k < |rounds| ==> Jittered(excluded, paths, base, rounds[k])
    requires i <= j <= |rounds|
    ensures var t := Trace(excluded, start, rounds);
            t[j] == t[i] || Rank(base, t[j]).Less(Rank(base, t[i]))
  {
    hide Jittered, Switches, SortKey, Next;
    TraceDescends(excluded, paths, base, start, rounds[..j]);
    TracePrefix(excluded, start, rounds, j);
  }

  lemma {:induction false} TracePrefix(excluded: seq<IpNet>, start: FourTuple, rounds: seq<seq<Candidate>>, j: nat)
    requires j <= |rounds|
    ensures Trace(excluded, start, rounds)[..j + 1] == Trace(excluded, start, rounds[..j])
  {
    hide Next;
    if j < |rounds| {
      var n := |rounds| - 1;
      TracePrefix(excluded, start, rounds[..n], j);
      assert rounds[..n][..j] == rounds[..j];
    } else {
      assert rounds[..j] == rounds;
    }
  }

  lemma {:induction false} Subset<T>(a: set<T>, b: set<T>)
    requires a <= b
    ensures |a| <= |b|
  {
    if a != {} {
      var x :| x in a;
      Subset(a - {x}, b - {x});
    }
  }
}
