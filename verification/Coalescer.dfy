/**
 The write-side half of the offload engine: which plain TCP segments may be glued together, how a
 batch is cut into runs, and how a run becomes one GSO super-frame.
 */
module Coalescer {
  import opened Wrappers
  import opened Bytes
  import opened Virtio
  import opened Segmenter
  import opened SegmentTheorems

  // ---- Which segments qualify ------------------------------------------------------------------

  datatype TcpSegmentMeta = TcpSegmentMeta(isIpv6: bool, ipHeaderLen: nat, tcpHeaderLen: nat, seqNo: nat, payloadLen: nat) {
    function HeaderLen(): nat {
      ipHeaderLen + tcpHeaderLen
    }
  }

  /** FIN, SYN, RST (0x07) or URG (0x20). */
  predicate NoCoalesceFlags(flags: byte) {
    flags % 8 != 0 || flags % 64 >= 32
  }

  /** IPv4 without options (0x45), carrying TCP, not a fragment (0x3fff clear) and not ECN-marked. */
  predicate PlainIpv4Bytes(b0: byte, tos: byte, b6: byte, b7: byte, protocol: byte) {
    && b0 == 0x45
    && protocol == PROTO_TCP
    && b6 % 64 == 0 && b7 == 0
    && tos % 4 == 0
  }

  /** IPv6 (0x6.) with TCP straight after the fixed header, not ECN-marked (0x30 clear in the second byte). */
  predicate PlainIpv6Bytes(b0: byte, b1: byte, nextHeader: byte) {
    && 0x60 <= b0 < 0x70
    && nextHeader == PROTO_TCP
    && b1 % 64 < 16
  }

  /** A plain header whose total length matches the buffer. */
  predicate PlainIpv4(p: Packet) {
    |p| >= 20 && PlainIpv4Bytes(p[0], p[1], p[6], p[7], p[9]) && U16At(p, 2) == |p|
  }

  predicate PlainIpv6(p: Packet) {
    |p| >= 40 && PlainIpv6Bytes(p[0], p[1], p[6]) && U16At(p, 4) == |p| - 40
  }

  function ParseCoalescibleTcp(p: Packet): (r: Option<TcpSegmentMeta>)
    ensures r.Some? ==> r.value.tcpHeaderLen >= 20 && r.value.HeaderLen() + r.value.payloadLen == |p|
    ensures r.Some? ==> r.value.ipHeaderLen == (if r.value.isIpv6 then 40 else 20)
    ensures r.Some? ==> r.value.payloadLen > 0 && r.value.seqNo < U32_LIMIT
  {
    if !PlainIpv4(p) && !PlainIpv6(p) then None
    else
      var isIpv6 := PlainIpv6(p);
      var t := if isIpv6 then 40 else 20;
      if |p| < t + 20 then None
      else
        var tcpHeaderLen := TcpHeaderLenAt(p, t);
        if tcpHeaderLen < 20 || t + tcpHeaderLen >= |p| then None
        else if NoCoalesceFlags(p[t + 13]) then None
        else Some(TcpSegmentMeta(isIpv6, t, tcpHeaderLen, U32At(p, t + 4), |p| - t - tcpHeaderLen))
  }

  predicate CanChain(a: Packet, ma: TcpSegmentMeta, b: Packet, mb: TcpSegmentMeta)
    requires ParseCoalescibleTcp(a) == Some(ma) && ParseCoalescibleTcp(b) == Some(mb)
  {
    var t := ma.ipHeaderLen;
    && ma.isIpv6 == mb.isIpv6
    && ma.tcpHeaderLen == mb.tcpHeaderLen
    && (if ma.isIpv6 then a[0..4] == b[0..4] && a[8..40] == b[8..40] && a[7] == b[7]
        else a[1] == b[1] && a[8] == b[8] && a[12..20] == b[12..20])
    && a[t..t + 4] == b[t..t + 4]
    && a[t + 8..t + 12] == b[t + 8..t + 12]
    && a[t + 14..t + 16] == b[t + 14..t + 16]
    && a[t + 20..t + ma.tcpHeaderLen] == b[t + 20..t + mb.tcpHeaderLen]
    && mb.seqNo == (ma.seqNo + ma.payloadLen) % U32_LIMIT
  }

  // ---- What a coalescible segment means --------------------------------------------------------

  /** Everything a run must have in common: addresses, traffic class, hop limit, ports, ack, window, options. */
  datatype Flow = Flow(
    isIpv6: bool, tcpHeaderLen: nat, trafficClass: seq<byte>, hopLimit: byte, addresses: seq<byte>,
    ports: seq<byte>, ack: seq<byte>, window: seq<byte>, options: seq<byte>)

  predicate Parses(p: Packet) {
    ParseCoalescibleTcp(p).Some?
  }

  function MetaOf(p: Packet): TcpSegmentMeta
    requires Parses(p)
  {
    ParseCoalescibleTcp(p).value
  }

  function FlowOf(p: Packet): Flow
    requires Parses(p)
  {
    var m := MetaOf(p);
    var t := m.ipHeaderLen;
    Flow(m.isIpv6, m.tcpHeaderLen,
         if m.isIpv6 then p[0..4] else [p[1]],
         if m.isIpv6 then p[7] else p[8],
         if m.isIpv6 then p[8..40] else p[12..20],
         p[t..t + 4], p[t + 8..t + 12], p[t + 14..t + 16], p[t + 20..t + m.tcpHeaderLen])
  }

  function HeaderLenOf(p: Packet): (h: nat)
    requires Parses(p)
    ensures 40 <= h < |p|
  {
    MetaOf(p).HeaderLen()
  }

  function PayloadOfSegment(p: Packet): (s: seq<byte>)
    requires Parses(p)
    ensures |s| == MetaOf(p).payloadLen > 0
  {
    p[HeaderLenOf(p)..]
  }

  /** One segment as its receiver sees it. */
  datatype TcpView = TcpView(flow: Flow, seqNo: nat, payload: seq<byte>)

  function ViewOf(p: Packet): TcpView
    requires Parses(p)
  {
    TcpView(FlowOf(p), MetaOf(p).seqNo, PayloadOfSegment(p))
  }

  // ---- The same, in bytes ----------------------------------------------------------------------

  /** A TCP header at `t` with payload behind it, and none of FIN, SYN, RST and URG. */
  predicate DataAt(p: Packet, t: nat)
    requires t + 20 <= |p|
  {
    20 <= 4 * (p[t + 12] / 16) < |p| - t && p[t + 13] % 8 == 0 && p[t + 13] / 32 % 2 == 0
  }

  /** A pure-data TCP segment, byte by byte: IPv4 without options, fragments (MF and offset clear) and ECN marks,
      or IPv6 without extension headers and ECN marks, of exactly the length its header says. */
  predicate PlainSegment(p: Packet) {
    && |p| >= 40
    && if p[0] == 0x45 then
         p[9] == 6 && p[6] % 64 == 0 && p[7] == 0 && p[1] % 4 == 0 && 256 * (p[2] as int) + p[3] == |p| && DataAt(p, 20)
       else
         && 0x60 <= p[0] <= 0x6F && |p| >= 60
         && p[6] == 6 && p[1] / 16 % 4 == 0 && 256 * (p[4] as int) + p[5] == |p| - 40 && DataAt(p, 40)
  }

  lemma ParsesExactly(p: Packet)
    ensures Parses(p) <==> PlainSegment(p)
    ensures Parses(p) ==> MetaOf(p).isIpv6 == (p[0] != 0x45)
    ensures Parses(p) ==> HeaderLenOf(p) == (if p[0] == 0x45 then 20 + 4 * (p[32] / 16) else 40 + 4 * (p[52] / 16))
    ensures Parses(p) ==> MetaOf(p).seqNo == U32At(p, if p[0] == 0x45 then 24 else 44)
  {
    hide U32At;
    if |p| >= 40 {
      BitsOf(p[1]);
      BitsOf(p[33]);
      if |p| >= 60 {
        BitsOf(p[53]);
      }
    }
  }

  lemma BitsOf(b: byte)
    ensures b / 32 % 2 == 0 <==> b % 64 < 32
    ensures b / 16 % 4 == 0 <==> b % 64 < 16
  {
    SplitBits(b / 64, b % 64);
  }

  lemma SplitBits(high: nat, low: nat)
    requires low < 64
    ensures (64 * high + low) / 32 % 2 == low / 32
    ensures (64 * high + low) / 16 % 4 == low / 16
  {
    assert (64 * high + low) / 32 == 2 * high + low / 32;
    assert (64 * high + low) / 16 == 4 * high + low / 16;
  }

  /** Bytes of a plain segment the coalescer does not compare as a whole: IPv4 ID and fragment
      word, reserved bits and flags, urgent pointer, and the checksums. */
  predicate Unseen(ipv4: bool, k: int) {
    if ipv4 then 4 <= k < 8 || 10 <= k < 12 || 32 <= k < 34 || 36 <= k < 40 else 52 <= k < 54 || 56 <= k < 60
  }

  /** The same segment to a receiver: every other byte is equal, and so are the data offset, the FIN, SYN, RST
      and URG bits, and the IPv4 MF bit and fragment offset. */
  ghost predicate SameSegment(p: Packet, q: Packet) {
    && |p| == |q| >= 40 && p[0] == q[0] && (p[0] != 0x45 ==> |p| >= 60)
    && (forall k :: 0 <= k < |p| && !Unseen(p[0] == 0x45, k) ==> p[k] == q[k])
    && (p[0] == 0x45 ==> p[6] % 64 == q[6] % 64 && p[7] == q[7])
    && var t := if p[0] == 0x45 then 20 else 40;
       p[t + 12] / 16 == q[t + 12] / 16 && p[t + 13] % 8 == q[t + 13] % 8 && p[t + 13] / 32 % 2 == q[t + 13] / 32 % 2
  }

  /** Chaining, in bytes: ToS and TTL, or the first word and hop limit; addresses; ports, ack, header length,
      window and options; and the second starts where the first ends, mod 2^32. */
  lemma ChainsExactly(a: Packet, b: Packet)
    requires PlainSegment(a) && PlainSegment(b) && Parses(a) && Parses(b)
    ensures var t := if a[0] == 0x45 then 20 else 40;
            var h := t + 4 * (a[t + 12] / 16);
            CanChain(a, MetaOf(a), b, MetaOf(b)) <==>
            && (if a[0] == 0x45 then b[0] == 0x45 && a[1] == b[1] && a[8] == b[8] && a[12..20] == b[12..20]
                else b[0] != 0x45 && a[0..4] == b[0..4] && a[7..40] == b[7..40])
            && a[t + 12] / 16 == b[t + 12] / 16
            && a[t..t + 4] == b[t..t + 4] && a[t + 8..t + 12] == b[t + 8..t + 12] && a[t + 14..t + 16] == b[t + 14..t + 16]
            && h <= |b| && a[t + 20..h] == b[t + 20..h]
            && U32At(b, t + 4) == (U32At(a, t + 4) + |a| - h) % 0x1_0000_0000
  {
    hide ParseCoalescibleTcp, U32At;
    ParsesExactly(a);
    ParsesExactly(b);
    if a[0] != 0x45 {
      assert a[7..40] == [a[7]] + a[8..40] && b[7..40] == [b[7]] + b[8..40];
    }
  }

  /** Chaining is exactly: same flow, and the second starts where the first ends. */
  lemma ChainsIffSameFlow(a: Packet, b: Packet)
    requires Parses(a) && Parses(b)
    ensures CanChain(a, MetaOf(a), b, MetaOf(b)) <==>
            FlowOf(a) == FlowOf(b) && MetaOf(b).seqNo == (MetaOf(a).seqNo + |PayloadOfSegment(a)|) % U32_LIMIT
  {
    hide PlainIpv4, PlainIpv6;
  }

  // ---- Runs ------------------------------------------------------------------------------------

  function Bodies(run: seq<Packet>, h: nat): (bodies: seq<seq<byte>>)
    requires forall k :: 0 <= k < |run| ==> h <= |run[k]|
    ensures |bodies| == |run| && forall k :: 0 <= k < |run| ==> bodies[k] == run[k][h..]
  {
    if run == [] then [] else Bodies(run[..|run| - 1], h) + [run[|run| - 1][h..]]
  }

  ghost predicate AllParse(run: seq<Packet>) {
    forall k :: 0 <= k < |run| ==> Parses(run[k])
  }

  ghost predicate OneFlow(run: seq<Packet>)
    requires AllParse(run)
  {
    forall k :: 0 < k < |run| ==> FlowOf(run[k]) == FlowOf(run[0])
  }

  ghost predicate Contiguous(run: seq<Packet>)
    requires AllParse(run)
  {
    forall k :: 0 < k < |run| ==> StartsAfter(run[k - 1], run[k])
  }

  ghost predicate StartsAfter(a: Packet, b: Packet)
    requires Parses(a) && Parses(b)
  {
    MetaOf(b).seqNo == (MetaOf(a).seqNo + |PayloadOfSegment(a)|) % U32_LIMIT
  }

  /** Every body but the last has the first one's size, the last is no longer, and two or more fit one IP packet. */
  ghost predicate Sized(run: seq<Packet>, h: nat)
    requires run != [] && forall k :: 0 <= k < |run| ==> h <= |run[k]|
  {
    && Uniform(Bodies(run, h), |run[0]| - h)
    && (|run| >= 2 ==> h + |Concat(Bodies(run, h))| < U16_LIMIT)
  }

  lemma OneFlowOneHeaderLen(run: seq<Packet>)
    requires run != [] && AllParse(run) && OneFlow(run)
    ensures forall k :: 0 <= k < |run| ==> HeaderLenOf(run[k]) == HeaderLenOf(run[0]) < |run[k]|
  {
    forall k | 0 <= k < |run|
      ensures HeaderLenOf(run[k]) == HeaderLenOf(run[0])
    {
      if k > 0 {
        assert FlowOf(run[k]) == FlowOf(run[0]);
      }
    }
  }

  /** A run that may travel as one super-frame. */
  ghost predicate Coalescible(run: seq<Packet>) {
    && run != []
    && AllParse(run)
    && OneFlow(run)
    && Contiguous(run)
    && (OneFlowOneHeaderLen(run);
        Sized(run, HeaderLenOf(run[0])))
  }

  function MergedLen(run: seq<Packet>, h: nat): nat
    requires forall k :: 0 <= k < |run| ==> h <= |run[k]|
  {
    h + |Concat(Bodies(run, h))|
  }

  /** What the planner asks before it lets `p` join `run`. */
  ghost predicate Joins(run: seq<Packet>, p: Packet)
    requires Coalescible(run)
  {
    OneFlowOneHeaderLen(run);
    var h, last := HeaderLenOf(run[0]), run[|run| - 1];
    && Parses(p)
    && |PayloadOfSegment(p)| <= |PayloadOfSegment(run[0])|
    && |PayloadOfSegment(last)| == |PayloadOfSegment(run[0])|
    && MergedLen(run, h) + |PayloadOfSegment(p)| < U16_LIMIT
    && CanChain(last, MetaOf(last), p, MetaOf(p))
  }

  lemma RunFlow(run: seq<Packet>, k: nat)
    requires Coalescible(run) && k < |run|
    ensures FlowOf(run[k]) == FlowOf(run[0]) && HeaderLenOf(run[k]) == HeaderLenOf(run[0])
    ensures PayloadOfSegment(run[k]) == run[k][HeaderLenOf(run[0])..]
  {
    hide ParseCoalescibleTcp, Sized, Contiguous;
    OneFlowOneHeaderLen(run);
  }

  lemma MergedLenSnoc(run: seq<Packet>, p: Packet, h: nat)
    requires h <= |p| && forall k :: 0 <= k < |run| ==> h <= |run[k]|
    ensures Bodies(run + [p], h) == Bodies(run, h) + [p[h..]]
    ensures MergedLen(run + [p], h) == MergedLen(run, h) + |p| - h
  {
    ConcatSnoc(Bodies(run, h), p[h..]);
    assert Bodies(run + [p], h) == Bodies(run, h) + [p[h..]];
  }

  /** Joining keeps a run coalescible. */
  lemma JoinKeeps(run: seq<Packet>, p: Packet)
    requires Coalescible(run) && Joins(run, p)
    ensures Coalescible(run + [p])
  {
    hide ParseCoalescibleTcp, FlowOf, CanChain, Concat;
    var last, longer := run[|run| - 1], run + [p];
    var h := HeaderLenOf(run[0]);
    RunFlow(run, |run| - 1);
    OneFlowOneHeaderLen(run);
    ChainsIffSameFlow(last, p);
    assert AllParse(longer);
    SameFlowSameHeaderLen(last, p);
    assert OneFlow(longer);
    assert Contiguous(longer);
    OneFlowOneHeaderLen(longer);
    MergedLenSnoc(run, p, h);
  }

  lemma SameFlowSameHeaderLen(a: Packet, b: Packet)
    requires Parses(a) && Parses(b) && FlowOf(a) == FlowOf(b)
    ensures HeaderLenOf(a) == HeaderLenOf(b)
  {
  }

  /** Every non-empty prefix of a coalescible run is one. */
  lemma PrefixCoalescible(run: seq<Packet>, n: nat)
    requires Coalescible(run) && 0 < n <= |run|
    ensures Coalescible(run[..n])
    decreases |run|
  {
    hide Coalescible;
    assert run != [];
    if n < |run| {
      assert run == run[..|run| - 1] + [run[|run| - 1]];
      JoinedRun(run[..|run| - 1], run[|run| - 1], run);
      PrefixCoalescible(run[..|run| - 1], n);
      assert run[..|run| - 1][..n] == run[..n];
    } else {
      assert run[..n] == run;
    }
  }

  /** A coalescible run of two or more is a coalescible run and one segment that joined it. */
  lemma JoinedRun(run: seq<Packet>, p: Packet, longer: seq<Packet>)
    requires run != [] && longer == run + [p] && Coalescible(longer)
    ensures Coalescible(run) && Joins(run, p)
  {
    hide ParseCoalescibleTcp, FlowOf, CanChain, Concat;
    var h, last := HeaderLenOf(longer[0]), run[|run| - 1];
    OneFlowOneHeaderLen(longer);
    assert AllParse(run) by {
      assert forall k :: 0 <= k < |run| ==> run[k] == longer[k];
    }
    assert OneFlow(run) && Contiguous(run) by {
      assert forall k :: 0 <= k < |run| ==> run[k] == longer[k];
    }
    assert longer[|run| - 1] == last && longer[|run|] == p;
    assert StartsAfter(last, p);
    ChainsIffSameFlow(last, p);
    MergedLenSnoc(run, p, h);
    OneFlowOneHeaderLen(run);
    var bodies := Bodies(longer, h);
    assert |bodies[|run| - 1]| == |run[0]| - h;
    assert forall k :: 0 <= k < |run| ==> Bodies(run, h)[k] == bodies[k];
  }

  // ---- Planning a batch ------------------------------------------------------------------------

  datatype Group = Group(start: nat, end: nat, coalesce: bool)

  /** One group of the greedy plan: coalesced iff it has two or more members, and it cannot grow. */
  ghost predicate GreedyGroup(batch: seq<Packet>, g: Group) {
    && g.start < g.end <= |batch|
    && (g.coalesce <==> g.end - g.start >= 2)
    && (g.coalesce ==> Coalescible(batch[g.start..g.end]))
    && (g.end < |batch| ==> !Coalescible(batch[g.start..g.end + 1]))
  }

  /** `groups` tile the batch from `i` up to `n`, in order and without gaps, each as long as it can be. */
  ghost predicate GreedyRange(batch: seq<Packet>, groups: seq<Group>, i: nat, n: nat) {
    if groups == [] then i == n
    else
      && groups[0].start == i
      && GreedyGroup(batch, groups[0])
      && GreedyRange(batch, groups[1..], groups[0].end, n)
  }

  ghost predicate GreedyPlan(batch: seq<Packet>, groups: seq<Group>) {
    GreedyRange(batch, groups, 0, |batch|)
  }

  lemma SingletonRun(p: Packet)
    requires Parses(p)
    ensures Coalescible([p]) && HeaderLenOf([p][0]) == HeaderLenOf(p) && MergedLen([p], HeaderLenOf(p)) == |p|
  {
    hide ParseCoalescibleTcp, FlowOf, Concat, Bodies;
    var run, h := [p], HeaderLenOf(p);
    assert Bodies(run, h) == [p[h..]];
    ConcatOne(p[h..]);
    assert AllParse(run) && OneFlow(run) && Contiguous(run);
  }

  lemma ConcatOne(s: seq<byte>)
    ensures Concat([s]) == s
  {
    assert Concat([s]) == s + Concat([]);
  }

  /** The inner loop: the longest coalescible run that starts at `i`. */
  method ExtendRun(batch: seq<Packet>, i: nat, first: TcpSegmentMeta) returns (end: nat)
    requires i < |batch| && ParseCoalescibleTcp(batch[i]) == Some(first)
    ensures i < end <= |batch| && Coalescible(batch[i..end])
    ensures end < |batch| ==> !Coalescible(batch[i..end + 1])
  {
    hide ParseCoalescibleTcp, FlowOf, CanChain, Concat, Coalescible;
    var segSize := first.payloadLen;
    var mergedIpLen := first.HeaderLen() + first.payloadLen;
    var prev := first;
    end := i + 1;
    assert batch[i..end] == [batch[i]];
    SingletonRun(batch[i]);
    while end < |batch|
      invariant i < end <= |batch| && Coalescible(batch[i..end])
      invariant ParseCoalescibleTcp(batch[end - 1]) == Some(prev)
      invariant prev.payloadLen == segSize
      invariant RunLen(batch[i..end]) == mergedIpLen
    {
      var run := batch[i..end];
      assert batch[i..end + 1] == run + [batch[end]];
      JoinDecides(run, batch[end]);
      var parsed := ParseCoalescibleTcp(batch[end]);
      if parsed.None? {
        return;
      }
      var next := parsed.value;
      if next.payloadLen > segSize || mergedIpLen + next.payloadLen >= U16_LIMIT || !CanChain(batch[end - 1], prev, batch[end], next) {
        return;
      }
      JoinGrows(run, batch[end]);
      mergedIpLen := mergedIpLen + next.payloadLen;
      prev := next;
      end := end + 1;
      if next.payloadLen < segSize {
        if end < |batch| {
          assert batch[i..end + 1] == batch[i..end] + [batch[end]];
          JoinDecides(batch[i..end], batch[end]);
        }
        return;
      }
    }
  }

  ghost function RunLen(run: seq<Packet>): nat
    requires Coalescible(run)
  {
    OneFlowOneHeaderLen(run);
    MergedLen(run, HeaderLenOf(run[0]))
  }

  /** Joining is exactly what makes the longer run coalescible. */
  lemma JoinDecides(run: seq<Packet>, p: Packet)
    requires Coalescible(run)
    ensures Coalescible(run + [p]) <==> Joins(run, p)
    ensures Joins(run, p) <==>
            && Parses(p)
            && MetaOf(p).payloadLen <= MetaOf(run[0]).payloadLen
            && MetaOf(run[|run| - 1]).payloadLen == MetaOf(run[0]).payloadLen
            && RunLen(run) + MetaOf(p).payloadLen < U16_LIMIT
            && CanChain(run[|run| - 1], MetaOf(run[|run| - 1]), p, MetaOf(p))
  {
    hide ParseCoalescibleTcp, FlowOf, CanChain, Concat;
    if Coalescible(run + [p]) {
      JoinedRun(run, p, run + [p]);
    }
    if Joins(run, p) {
      JoinKeeps(run, p);
    }
  }

  lemma JoinGrows(run: seq<Packet>, p: Packet)
    requires Coalescible(run) && Joins(run, p)
    ensures Coalescible(run + [p]) && RunLen(run + [p]) == RunLen(run) + MetaOf(p).payloadLen
  {
    hide ParseCoalescibleTcp, FlowOf, CanChain, Concat;
    JoinKeeps(run, p);
    OneFlowOneHeaderLen(run);
    RunFlow(run + [p], |run|);
    MergedLenSnoc(run, p, HeaderLenOf(run[0]));
  }

  /** Cuts a batch into the greedy plan. */
  method PlanTunWriteGroups(batch: seq<Packet>) returns (groups: seq<Group>)
    ensures GreedyPlan(batch, groups)
  {
    hide ParseCoalescibleTcp, Coalescible, GreedyRange;
    groups := [];
    var i := 0;
    NoGroups(batch);
    while i < |batch|
      invariant i <= |batch| && GreedyRange(batch, groups, 0, i)
    {
      var parsed := ParseCoalescibleTcp(batch[i]);
      var g: Group;
      if parsed.None? {
        if i + 1 < |batch| {
          UnparsedBreaks(batch[i..i + 2], 0);
        }
        g := Group(i, i + 1, false);
      } else {
        var end := ExtendRun(batch, i, parsed.value);
        g := Group(i, end, end - i >= 2);
      }
      AppendGroup(batch, groups, 0, g);
      groups := groups + [g];
      i := g.end;
    }
  }

  lemma NoGroups(batch: seq<Packet>)
    ensures GreedyRange(batch, [], 0, 0)
  {
  }

  lemma UnparsedBreaks(run: seq<Packet>, k: nat)
    requires k < |run| && !Parses(run[k])
    ensures !Coalescible(run)
  {
  }

  lemma {:induction false} AppendGroup(batch: seq<Packet>, groups: seq<Group>, i: nat, g: Group)
    requires GreedyRange(batch, groups, i, g.start) && GreedyGroup(batch, g)
    ensures GreedyRange(batch, groups + [g], i, g.end)
  {
    hide GreedyGroup;
    var longer := groups + [g];
    if groups == [] {
      assert longer == [g] && longer[1..] == [];
    } else {
      AppendGroup(batch, groups[1..], groups[0].end, g);
      assert longer[0] == groups[0] && longer[1..] == groups[1..] + [g];
    }
  }

  /** The greedy plan is unique, so every batch has exactly one. */
  /** Every member of a coalesced group is pure data: none carries FIN, SYN, RST or URG or is a fragment. */
  lemma {:induction false} CoalescedIsPlainData(batch: seq<Packet>, groups: seq<Group>, i: nat, j: nat, k: nat)
    requires GreedyRange(batch, groups, i, |batch|) && j < |groups| && groups[j].coalesce && groups[j].start <= k < groups[j].end
    ensures k < |batch| && PlainSegment(batch[k])
    decreases j
  {
    hide ParseCoalescibleTcp, OneFlow, Contiguous, Sized, PlainSegment;
    if j > 0 {
      CoalescedIsPlainData(batch, groups[1..], groups[0].end, j - 1, k);
    } else {
      var run := batch[groups[0].start..groups[0].end];
      assert Parses(run[k - groups[0].start]);
      ParsesExactly(batch[k]);
    }
  }

  lemma {:induction false} PlanIsUnique(batch: seq<Packet>, a: seq<Group>, b: seq<Group>, i: nat)
    requires GreedyRange(batch, a, i, |batch|) && GreedyRange(batch, b, i, |batch|)
    ensures a == b
  {
    hide Coalescible;
    if a != [] && b != [] {
      NoLongerGroup(batch, a[0], b[0]);
      NoLongerGroup(batch, b[0], a[0]);
      PlanIsUnique(batch, a[1..], b[1..], a[0].end);
    } else if a != [] {
      GroupFits(batch, a);
    } else if b != [] {
      GroupFits(batch, b);
    }
  }

  lemma GroupFits(batch: seq<Packet>, a: seq<Group>)
    requires a != [] && GreedyGroup(batch, a[0])
    ensures a[0].start < |batch|
  {
  }

  lemma NoLongerGroup(batch: seq<Packet>, a: Group, b: Group)
    requires GreedyGroup(batch, a) && GreedyGroup(batch, b) && a.start == b.start
    ensures b.end <= a.end
  {
    hide Coalescible;
    if a.end < b.end {
      SubRun(batch, b.start, b.end, a.end + 1);
    }
  }

  lemma SubRun(batch: seq<Packet>, i: nat, n: nat, m: nat)
    requires i < m <= n <= |batch| && Coalescible(batch[i..n])
    ensures Coalescible(batch[i..m])
  {
    hide Coalescible;
    PrefixCoalescible(batch[i..n], m - i);
    assert batch[i..n][..m - i] == batch[i..m];
  }
}
