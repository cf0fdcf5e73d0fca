/** Segmentation and coalescing undo one another. */
module GsoRoundTrip {
  import opened Wrappers
  import opened Bytes
  import opened Checksum
  import opened Virtio
  import opened Segmenter
  import opened SegmentTheorems
  import opened Coalescer
  import opened Assembler

  // ---- Headers of a coalescible segment, with its length fields set aside ----------------------

  /** The header conditions of `parse_coalescible_tcp` that do not mention the packet's length. */
  predicate PlainHeaders(l: Layout, p: Packet) {
    && l.tcpOffset == (if l.isIpv6 then 40 else 20)
    && l.tcpOffset + 20 <= l.headerLen <= |p|
    && l.headerLen == l.tcpOffset + TcpHeaderLenAt(p, l.tcpOffset)
    && (if l.isIpv6 then PlainIpv6Bytes(p[0], p[1], p[6]) else PlainIpv4Bytes(p[0], p[1], p[6], p[7], p[9]))
    && !NoCoalesceFlags(p[l.tcpOffset + 13])
  }

  function LayoutOfSegment(p: Packet): Layout
    requires Parses(p)
  {
    Layout(MetaOf(p).isIpv6, MetaOf(p).ipHeaderLen, HeaderLenOf(p))
  }

  lemma ParsesMeansPlain(p: Packet)
    requires Parses(p)
    ensures PlainHeaders(LayoutOfSegment(p), p) && IpLengthOk(LayoutOfSegment(p), p)
    ensures MetaOf(p).seqNo == U32At(p, MetaOf(p).ipHeaderLen + 4)
  {
  }

  lemma PlainMeansParses(l: Layout, p: Packet)
    requires PlainHeaders(l, p) && IpLengthOk(l, p) && l.headerLen < |p|
    ensures ParseCoalescibleTcp(p) ==
            Some(TcpSegmentMeta(l.isIpv6, l.tcpOffset, l.headerLen - l.tcpOffset, U32At(p, l.tcpOffset + 4), |p| - l.headerLen))
    ensures LayoutOfSegment(p) == l
  {
  }

  /** So a packet is coalescible exactly when its headers are plain, its length field is right and it has
      a payload, and then it is laid out as its headers say. */
  lemma ParsesIffPlain(l: Layout, p: Packet)
    ensures Parses(p) && LayoutOfSegment(p) == l <==> PlainHeaders(l, p) && IpLengthOk(l, p) && l.headerLen < |p|
  {
    hide ParseCoalescibleTcp, NoCoalesceFlags, PlainIpv4Bytes, PlainIpv6Bytes, DataOffset;
    if Parses(p) {
      ParsesMeansPlain(p);
    }
    if PlainHeaders(l, p) && IpLengthOk(l, p) && l.headerLen < |p| {
      PlainMeansParses(l, p);
    }
  }

  /** Equal views are the same segment, in bytes. */
  lemma ViewIsSegment(p: Packet, q: Packet)
    requires Parses(p) && Parses(q) && ViewOf(p) == ViewOf(q)
    ensures SameSegment(p, q)
  {
    hide ParseCoalescibleTcp, U32At, ViewOf, DataAt;
    ViewSlices(p, q);
    ParsesExactly(p);
    ParsesExactly(q);
    var t := if p[0] == 0x45 then 20 else 40;
    var h := HeaderLenOf(p);
    SliceBytes(p, q, t, t + 4);
    SliceBytes(p, q, t + 4, t + 8);
    SliceBytes(p, q, t + 8, t + 12);
    SliceBytes(p, q, t + 14, t + 16);
    SliceBytes(p, q, t + 20, h);
    SliceBytes(p, q, h, |p|);
    if p[0] == 0x45 {
      SliceBytes(p, q, 12, 20);
      WordDigits(p[2], p[3]);
      WordDigits(q[2], q[3]);
    } else {
      SliceBytes(p, q, 0, 4);
      SliceBytes(p, q, 8, 40);
      WordDigits(p[4], p[5]);
      WordDigits(q[4], q[5]);
    }
    assert forall k :: 0 <= k < |p| && !Unseen(p[0] == 0x45, k) ==> p[k] == q[k];
    FlagsOfPlain(p, t);
    FlagsOfPlain(q, t);
  }

  lemma FlagsOfPlain(p: Packet, t: nat)
    requires t + 20 <= |p| && DataAt(p, t)
    ensures p[t + 13] % 8 == 0 && p[t + 13] / 32 % 2 == 0
  {
  }

  lemma ViewSlices(p: Packet, q: Packet)
    requires Parses(p) && Parses(q) && ViewOf(p) == ViewOf(q)
    ensures |p| == |q| >= 40 && (p[0] == 0x45 <==> q[0] == 0x45)
    ensures var t, h := if p[0] == 0x45 then 20 else 40, HeaderLenOf(p);
            && t + 20 <= h && p[t + 12] / 16 == q[t + 12] / 16
            && p[t..t + 4] == q[t..t + 4] && p[t + 4..t + 8] == q[t + 4..t + 8] && p[t + 8..t + 12] == q[t + 8..t + 12]
            && p[t + 14..t + 16] == q[t + 14..t + 16] && p[t + 20..h] == q[t + 20..h] && p[h..] == q[h..]
    ensures if p[0] == 0x45 then p[1] == q[1] && p[8] == q[8] && p[12..20] == q[12..20]
            else p[0..4] == q[0..4] && p[7] == q[7] && p[8..40] == q[8..40]
  {
    hide ParseCoalescibleTcp, U32At, DataAt;
    ParsesExactly(p);
    ParsesExactly(q);
    var t := if p[0] == 0x45 then 20 else 40;
    U32Injective(p, t + 4, q, t + 4);
  }

  /** The flow, read at the places `l` gives. */
  function FlowAt(l: Layout, p: Packet): Flow
    requires l.tcpOffset == (if l.isIpv6 then 40 else 20) && l.tcpOffset + 20 <= l.headerLen <= |p|
  {
    var t := l.tcpOffset;
    Flow(l.isIpv6, l.headerLen - t,
         if l.isIpv6 then p[0..4] else [p[1]],
         if l.isIpv6 then p[7] else p[8],
         if l.isIpv6 then p[8..40] else p[12..20],
         p[t..t + 4], p[t + 8..t + 12], p[t + 14..t + 16], p[t + 20..l.headerLen])
  }

  lemma FlowAtLayout(p: Packet)
    requires Parses(p)
    ensures FlowOf(p) == FlowAt(LayoutOfSegment(p), p)
  {
    hide ParseCoalescibleTcp;
  }

  /** Headers that agree wherever a segment does not own the byte, and on the flags. */
  ghost predicate SameHeaders(l: Layout, a: Packet, b: Packet)
    requires l.tcpOffset + 20 <= l.headerLen <= |a| && l.headerLen <= |b|
  {
    && (forall k :: 0 <= k < l.headerLen && !Rewritten(l, k) ==> a[k] == b[k])
    && a[l.tcpOffset + 13] == b[l.tcpOffset + 13]
  }

  lemma SameHeadersSameFlow(l: Layout, a: Packet, b: Packet)
    requires l.tcpOffset == (if l.isIpv6 then 40 else 20) && l.tcpOffset + 20 <= l.headerLen <= |a| && l.headerLen <= |b|
    requires forall k :: 0 <= k < l.headerLen && !Rewritten(l, k) ==> a[k] == b[k]
    ensures FlowAt(l, a) == FlowAt(l, b)
  {
    var t := l.tcpOffset;
    if l.isIpv6 {
      assert a[0..4] == b[0..4];
      assert a[8..40] == b[8..40];
    } else {
      assert a[12..20] == b[12..20];
    }
    assert a[t..t + 4] == b[t..t + 4];
    assert a[t + 8..t + 12] == b[t + 8..t + 12];
    assert a[t + 14..t + 16] == b[t + 14..t + 16];
    assert a[t + 20..l.headerLen] == b[t + 20..l.headerLen];
  }

  lemma ClearedFlagsStayPlain(flags: byte)
    requires !NoCoalesceFlags(flags)
    ensures !NoCoalesceFlags(ClearFinPsh(flags))
  {
    var q := flags / 64;
    assert flags / 2 % 4 == 0;
    if flags == 64 * q || flags == 64 * q + 8 {
      assert ClearFinPsh(flags) == 64 * q;
    } else {
      assert flags / 16 == 4 * q + 1;
      assert ClearFinPsh(flags) == 64 * q + 16;
    }
  }

  /** A faithful segment cut from plain headers parses, with the headers' flow and its own payload and number. */
  lemma FaithfulView(l: Layout, headers: Packet, chunk: Packet, seqNo: nat, last: bool, segment: Packet, ref: Packet)
    requires PlainHeaders(l, ref) && l.headerLen == |headers| && SameHeaders(l, headers, ref) && chunk != []
    requires Faithful(l, headers, chunk, seqNo, last, segment)
    ensures Parses(segment) && LayoutOfSegment(segment) == l
    ensures ViewOf(segment) == TcpView(FlowAt(l, ref), seqNo, chunk)
  {
    hide Ipv4HeaderOk, TcpChecksumOk, ClearFinPsh, NoCoalesceFlags, ParseCoalescibleTcp, PlainIpv4Bytes, PlainIpv6Bytes, DataOffset, FlowAt, IhlBytes;
    ClearedFlagsStayPlain(ref[l.tcpOffset + 13]);
    assert forall k :: 0 <= k < l.headerLen && !Rewritten(l, k) ==> segment[k] == ref[k];
    assert segment[l.tcpOffset + 12] == ref[l.tcpOffset + 12];
    assert PlainHeaders(l, segment);
    PlainMeansParses(l, segment);
    FlowAtLayout(segment);
    SameHeadersSameFlow(l, segment, ref);
  }

  // ---- Coalesce, then segment ------------------------------------------------------------------

  /** Member `k` of a coalescible run starts `k` segment sizes after the first, mod 2^32. */
  lemma RunSequenceNumbers(run: seq<Packet>, k: nat)
    requires Coalescible(run) && k < |run|
    ensures MetaOf(run[k]).seqNo == (MetaOf(run[0]).seqNo + k * |PayloadOfSegment(run[0])|) % U32_LIMIT
  {
    hide Coalescible, ParseCoalescibleTcp, Times, PayloadOfSegment;
    MemberFollows(run, k);
    RunNumbers(run, k);
    TimesIsProduct(k, |PayloadOfSegment(run[0])|);
  }

  lemma {:induction false} RunNumbers(run: seq<Packet>, k: nat)
    requires Coalescible(run) && k < |run|
    ensures MetaOf(run[k]).seqNo == (MetaOf(run[0]).seqNo + Times(k, |PayloadOfSegment(run[0])|)) % U32_LIMIT
  {
    hide Coalescible, ParseCoalescibleTcp, Times, PayloadOfSegment;
    MemberFollows(run, k);
    var s := |PayloadOfSegment(run[0])|;
    TimesStep(k, s);
    if k > 0 {
      RunNumbers(run, k - 1);
      AddModAbsorbs(MetaOf(run[0]).seqNo + Times(k - 1, s), s);
    }
  }

  lemma TimesStep(k: nat, n: nat)
    ensures k == 0 ==> Times(k, n) == 0
    ensures k > 0 ==> Times(k, n) == Times(k - 1, n) + n
  {
  }

  lemma MemberFollows(run: seq<Packet>, k: nat)
    requires Coalescible(run) && k < |run|
    ensures Parses(run[k]) && Parses(run[0]) && MetaOf(run[0]).seqNo < U32_LIMIT
    ensures k > 0 ==> StartsAfter(run[k - 1], run[k]) && |PayloadOfSegment(run[k - 1])| == |PayloadOfSegment(run[0])|
  {
    hide ParseCoalescibleTcp, FlowOf, Concat;
    if k > 0 {
      RunFlow(run, k - 1);
      OneFlowOneHeaderLen(run);
      assert |Bodies(run, HeaderLenOf(run[0]))[k - 1]| == |run[0]| - HeaderLenOf(run[0]);
    }
  }

  lemma AddModAbsorbs(a: nat, b: nat)
    ensures (a % U32_LIMIT + b) % U32_LIMIT == (a + b) % U32_LIMIT
  {
  }

  /** What gluing leaves of the headers and payload it was given. */
  lemma GluedKeeps(l: Layout, joined: Packet)
    requires l.tcpOffset == (if l.isIpv6 then 40 else 20) && l.tcpOffset + 20 <= l.headerLen <= |joined|
    requires Glued(l.isIpv6, l.tcpOffset, joined).Ok?
    ensures var g := Glued(l.isIpv6, l.tcpOffset, joined).value;
            && |g| == |joined| && g[l.headerLen..] == joined[l.headerLen..]
            && forall k :: 0 <= k < l.headerLen && !IpField(l, k) && !(l.tcpOffset + 16 <= k < l.tcpOffset + 18) ==> g[k] == joined[k]
  {
    hide WordSum, Folded, PseudoSum, Ipv4HeaderOk;
    ResizedKeeps(l, joined);
    var g := Glued(l.isIpv6, l.tcpOffset, joined).value;
    assert forall k :: l.headerLen <= k < |g| ==> g[k] == joined[k];
    assert g[l.headerLen..] == joined[l.headerLen..];
  }

  /** The super-frame of a run, taken apart again: metadata, layout, headers and payload. */
  ghost predicate GluedFrom(run: seq<Packet>, hdr: VirtioNetHdr, merged: Packet, l: Layout) {
    && Coalescible(run)
    && l == LayoutOfSegment(run[0])
    && LayoutOf(hdr, merged) == Ok(l)
    && hdr.gsoSize == |PayloadOfSegment(run[0])|
    && |merged| < U16_LIMIT && l.headerLen <= |run[0]|
    && (forall k :: 0 <= k < |run| ==> l.headerLen <= |run[k]|)
    && PayloadOf(l, merged) == Concat(Bodies(run, l.headerLen))
    && SameHeaders(l, merged, run[0])
    && U32At(merged, l.tcpOffset + 4) == MetaOf(run[0]).seqNo
  }

  /** Assembly never fails on a coalescible run of two or more, and splitting the frame gives its parts back. */
  lemma RunAssembles(run: seq<Packet>) returns (hdr: VirtioNetHdr, merged: Packet, l: Layout)
    requires Coalescible(run) && |run| >= 2
    ensures Superframe(run) == Ok(ToBytes(hdr) + merged)
    ensures SplitTunFrame(ToBytes(hdr) + merged, true) == Ok(TunFrame(Some(hdr), merged))
    ensures GluedFrom(run, hdr, merged, l)
  {
    hide ParseCoalescibleTcp, Concat, Bodies, Resized, WithPartialChecksum, FlowOf, ToBytes, SplitTunFrame, LayoutOf, SameHeaders, Contiguous;
    var first, m := run[0], MetaOf(run[0]);
    l := LayoutOfSegment(first);
    var h := l.headerLen;
    OneFlowOneHeaderLen(run);
    FirstWithinTotal(run, h);
    hdr := MergedHdr(m);
    var joined := Joined(run, h);
    FirstResizes(first, Concat(Bodies(run, h)));
    merged := Glued(m.isIpv6, m.ipHeaderLen, joined).value;
    GluedKeeps(l, joined);
    assert joined[h..] == Concat(Bodies(run, h));
    MergedParts(first, hdr, merged, l);
    SplitGso(hdr, merged);
  }

  /** The ten bytes in front: NEEDS_CSUM with the field at offset 16 of a TCP segment behind an IP header of 20 or
      40 bytes, TCP segmentation of that family, and the sizes of header and first payload. */
  lemma AssembledHeader(m: TcpSegmentMeta)
    requires m.HeaderLen() + m.payloadLen < U16_LIMIT
    ensures var b := ToBytes(MergedHdr(m));
            && |b| == 10 && b[0] == 1 && b[1] == (if m.isIpv6 then 4 else 1)
            && b[2] + 256 * (b[3] as int) == m.ipHeaderLen + m.tcpHeaderLen && b[4] + 256 * (b[5] as int) == m.payloadLen
            && b[6] + 256 * (b[7] as int) == m.ipHeaderLen && b[8] + 256 * (b[9] as int) == 16
  {
    hide ToBytes;
    HeaderLayout(MergedHdr(m));
  }

  /** The packet behind them: the first segment's headers with the whole length and the pseudo-header's folded sum
      written in, and all payloads. */
  ghost predicate IsMerged(t: nat, h: nat, run: seq<Packet>, ip: Packet)
    requires (t == 20 || t == 40) && t + 20 <= h && run != [] && forall k :: 0 <= k < |run| ==> h <= |run[k]|
  {
    && h <= |ip| < U16_LIMIT && ip[h..] == Concat(Bodies(run, h))
    && (if t == 20 then U16At(ip, 2) == |ip| && PlainHeaderOk(ip) else U16At(ip, 4) == |ip| - 40)
    && U16At(ip, t + 16) == Folded(WordSum(PseudoHeader(t == 40, ip, |ip| - t)))
    && forall k :: 0 <= k < h && !(t + 16 <= k < t + 18) && !(if t == 20 then 2 <= k < 4 || 10 <= k < 12 else 4 <= k < 6)
                   ==> ip[k] == run[0][k]
  }

  /** The super-frame of a run is exactly that header and that packet. */
  lemma AssembledExactly(run: seq<Packet>)
    requires Coalescible(run) && |run| >= 2
    ensures Superframe(run).Ok? && |Superframe(run).value| > 10
    ensures var m := MetaOf(run[0]);
            && m.HeaderLen() + m.payloadLen < U16_LIMIT && Superframe(run).value[..10] == ToBytes(MergedHdr(m))
            && (forall k :: 0 <= k < |run| ==> m.HeaderLen() <= |run[k]|)
            && IsMerged(m.ipHeaderLen, m.HeaderLen(), run, Superframe(run).value[10..])
  {
    hide ParseCoalescibleTcp, Concat, Bodies, Resized, WithPartialChecksum, FlowOf, ToBytes, Contiguous, Sized, WordSum, Folded,
         PseudoSum, PseudoHeader, U16At, MergedHdr;
    var first, m := run[0], MetaOf(run[0]);
    var l, h := LayoutOfSegment(first), HeaderLenOf(first);
    SizedRun(run);
    FirstWithinTotal(run, h);
    var joined := Joined(run, h);
    FirstResizes(first, Concat(Bodies(run, h)));
    GluedKeeps(l, joined);
    PlainFirst(first, joined, h);
    GluedChecks(l, joined);
    var merged := Glued(m.isIpv6, m.ipHeaderLen, joined).value;
    assert joined[h..] == Concat(Bodies(run, h));
    assert Superframe(run) == Ok(ToBytes(MergedHdr(m)) + merged);
    assert (ToBytes(MergedHdr(m)) + merged)[10..] == merged;
  }

  /** An IPv4 header of 20 bytes that verifies. */
  ghost predicate PlainHeaderOk(p: Packet)
    requires |p| >= 20
  {
    Folded(WordSum(p[..20])) == 0xFFFF
  }

  lemma PlainFirst(first: Packet, joined: Packet, h: nat)
    requires Parses(first) && h == HeaderLenOf(first) <= |joined| && joined[..h] == first[..h]
    ensures !MetaOf(first).isIpv6 ==> IhlBytes(joined) == 20
  {
    hide ParseCoalescibleTcp;
    ParsesExactly(first);
    assert joined[0] == joined[..h][0] == first[0];
  }

  lemma SizedRun(run: seq<Packet>)
    requires Coalescible(run) && |run| >= 2
    ensures forall k :: 0 <= k < |run| ==> HeaderLenOf(run[0]) < |run[k]|
    ensures MergedLen(run, HeaderLenOf(run[0])) < U16_LIMIT
  {
    hide ParseCoalescibleTcp, Contiguous, Concat, Bodies;
    OneFlowOneHeaderLen(run);
  }

  /** Gluing leaves a frame with its own length, a header that verifies and the pseudo-header's sum in place. */
  lemma GluedChecks(l: Layout, joined: Packet)
    requires l.tcpOffset == (if l.isIpv6 then 40 else 20) && l.tcpOffset + 20 <= |joined| < U16_LIMIT
    requires Glued(l.isIpv6, l.tcpOffset, joined).Ok?
    ensures var g := Glued(l.isIpv6, l.tcpOffset, joined).value;
            && |g| == |joined| && IpLengthOk(l, g) && (!l.isIpv6 && IhlBytes(joined) == 20 ==> PlainHeaderOk(g))
            && U16At(g, l.tcpOffset + 16) == Folded(WordSum(PseudoHeader(l.isIpv6, g, |g| - l.tcpOffset)))
  {
    hide WordSum, Folded, PseudoSum, PseudoHeader, Resized, Be16;
    ResizedKeeps(l, joined);
    var t, resized := l.tcpOffset, Resized(l.isIpv6, joined, |joined|).value;
    var g := Glued(l.isIpv6, t, joined).value;
    var partial := Folded(PseudoSum(l.isIpv6, resized, |resized| - t));
    SamePseudoSum(l.isIpv6, g, resized, |g| - t);
    PseudoSumIsHeader(l.isIpv6, g, |g| - t, []);
    assert g[t + 16] == Be16(partial)[0] && g[t + 17] == Be16(partial)[1];
    if !l.isIpv6 && IhlBytes(joined) == 20 {
      assert g[..20] == resized[..20];
    }
  }

  lemma SplitGso(hdr: VirtioNetHdr, merged: Packet)
    requires hdr.IsTcpGso() && hdr.numBuffers == 0 && merged != []
    ensures SplitTunFrame(ToBytes(hdr) + merged, true) == Ok(TunFrame(Some(hdr), merged))
  {
    hide ToBytes, SplitTunFrame;
    SplitInvertsCompose(true, Some(hdr), merged);
  }

  lemma MergedParts(first: Packet, hdr: VirtioNetHdr, merged: Packet, l: Layout)
    requires Parses(first) && l == LayoutOfSegment(first) && |first| < U16_LIMIT && hdr == MergedHdr(MetaOf(first))
    requires l.headerLen < |merged|
    requires forall k :: 0 <= k < l.headerLen && !IpField(l, k) && !(l.tcpOffset + 16 <= k < l.tcpOffset + 18) ==> merged[k] == first[k]
    ensures LayoutOf(hdr, merged) == Ok(l) && SameHeaders(l, merged, first)
    ensures U32At(merged, l.tcpOffset + 4) == MetaOf(first).seqNo
  {
    hide ParseCoalescibleTcp, NoCoalesceFlags, PlainIpv4Bytes, PlainIpv6Bytes, DataOffset, LayoutOf, MergedHdr;
    ParsesMeansPlain(first);
    assert merged[0] == first[0];
    assert merged[l.tcpOffset + 12] == first[l.tcpOffset + 12];
    PlainVersion(l, first);
    LayoutFromHdr(MetaOf(first), merged, l);
    U32Same(merged, l.tcpOffset + 4, first, l.tcpOffset + 4);
  }

  lemma LayoutFromHdr(m: TcpSegmentMeta, merged: Packet, l: Layout)
    requires m.HeaderLen() + m.payloadLen < U16_LIMIT && m.payloadLen > 0
    requires l.isIpv6 == m.isIpv6 && l.tcpOffset == m.ipHeaderLen
    requires l.tcpOffset + 20 <= l.headerLen <= |merged| && l.headerLen == l.tcpOffset + TcpHeaderLenAt(merged, l.tcpOffset)
    requires VersionOf(merged) == if l.isIpv6 then 6 else 4
    ensures LayoutOf(MergedHdr(m), merged) == Ok(l)
  {
    hide DataOffset;
    var hdr := MergedHdr(m);
    assert hdr.NormalizedGsoType() == (if m.isIpv6 then GSO_TCPV6 else GSO_TCPV4) && hdr.NeedsChecksum();
  }

  lemma PlainVersion(l: Layout, p: Packet)
    requires PlainHeaders(l, p)
    ensures VersionOf(p) == if l.isIpv6 then 6 else 4
    ensures !l.isIpv6 ==> IhlBytes(p) == 20 && p[9] == PROTO_TCP
  {
  }

  /** What the kernel makes of a written TUN frame: the plain packets it stands for. */
  function Delivery(frame: Packet, vnetHdrEnabled: bool): Emission {
    match SplitTunFrame(frame, vnetHdrEnabled)
    case Err(_) => Emission([], Some(UnreadableFrame))
    case Ok(TunFrame(None, packet)) => Emission([packet], None)
    case Ok(TunFrame(Some(hdr), packet)) => Materialized(hdr, packet)
  }

  /**
   Coalescing then segmenting is the identity on what a receiver sees: every run of two or more the
   planner may mark comes back as the same number of segments, each with the flow, sequence number
   and payload of the member it stands for.
   */
  lemma CoalesceThenSegment(run: seq<Packet>)
    requires Coalescible(run) && |run| >= 2
    ensures Superframe(run).Ok? && AllParse(run) && SameViews(run, Delivery(Superframe(run).value, true))
    ensures SameSegments(Delivery(Superframe(run).value, true), run)
  {
    hide Coalescible, GluedFrom, SplitTunFrame, SegmentGso, ToBytes, SameViews, SameSegments;
    var hdr, merged, l := RunAssembles(run);
    GluedIsGso(run, hdr, merged, l);
    ResegmentedViews(run, hdr, merged, l);
    ViewsAreSegments(run, Delivery(Superframe(run).value, true));
  }

  /** One segment per packet, each the same segment in bytes, and no error. */
  ghost predicate SameSegments(e: Emission, run: seq<Packet>) {
    e.error.None? && |e.segments| == |run| && forall k :: 0 <= k < |run| ==> SameSegment(e.segments[k], run[k])
  }

  lemma ViewsAreSegments(run: seq<Packet>, e: Emission)
    requires AllParse(run) && SameViews(run, e)
    ensures SameSegments(e, run)
  {
    hide ParseCoalescibleTcp, ViewOf, SameSegment;
    forall k | 0 <= k < |run|
      ensures SameSegment(e.segments[k], run[k])
    {
      ViewIsSegment(e.segments[k], run[k]);
    }
  }

  lemma GluedIsGso(run: seq<Packet>, hdr: VirtioNetHdr, merged: Packet, l: Layout)
    requires GluedFrom(run, hdr, merged, l)
    ensures hdr.IsTcpGso() && AllParse(run)
  {
    hide Sized, Contiguous, OneFlow, SameHeaders;
  }

  ghost predicate SameViews(run: seq<Packet>, e: Emission)
    requires AllParse(run)
  {
    && e.error.None?
    && |e.segments| == |run|
    && forall k :: 0 <= k < |run| ==> Parses(e.segments[k]) && ViewOf(e.segments[k]) == ViewOf(run[k])
  }

  lemma ResegmentedViews(run: seq<Packet>, hdr: VirtioNetHdr, merged: Packet, l: Layout)
    requires GluedFrom(run, hdr, merged, l) && |run| >= 2
    ensures SameViews(run, SegmentGso(hdr, merged))
  {
    hide ParseCoalescibleTcp, Concat, Bodies, OneFlow, Contiguous, Sized, LayoutOf, SameHeaders, SegmentGso, ViewOf, MemberSegment, Faithful;
    var e := SegmentGso(hdr, merged);
    ResegmentedMembers(run, hdr, merged, l);
    forall k | 0 <= k < |run|
      ensures Parses(e.segments[k]) && ViewOf(e.segments[k]) == ViewOf(run[k])
    {
      MemberView(run, hdr, merged, l, k, e.segments[k]);
    }
  }

  /** Segment `k` of the re-segmented frame is built from the merged headers and member `k`'s payload. */
  ghost predicate MemberSegment(run: seq<Packet>, merged: Packet, l: Layout, k: nat, segment: Packet)
    requires k < |run| && l.tcpOffset + 20 <= l.headerLen <= |merged| && l.headerLen <= |run[k]|
    requires l.headerLen <= |run[0]|
  {
    IsSegment(l, merged[..l.headerLen], Times(k, |run[0]| - l.headerLen), run[k][l.headerLen..], k == |run| - 1, segment)
  }

  lemma PlainBuilds(l: Layout, headers: Packet, ref: Packet, seqNo: nat, n: nat)
    requires PlainHeaders(l, ref) && |headers| == l.headerLen && SameHeaders(l, headers, ref)
    requires l.headerLen + n < U16_LIMIT && seqNo < U32_LIMIT
    ensures Buildable(l, headers, seqNo, n)
  {
    PlainVersion(l, ref);
    assert headers[0] == ref[0];
  }

  lemma UniformTwo(cs: seq<seq<byte>>, n: nat)
    requires Uniform(cs, n) && |cs| >= 2
    ensures n < |Concat(cs)| && |cs[|cs| - 1]| <= n && Chunks(Concat(cs), n) == cs
  {
    UniformAreChunks(cs, n);
    UniformHead(cs, n);
    UniformAreChunks(cs[1..], n);
  }

  lemma ResegmentedMembers(run: seq<Packet>, hdr: VirtioNetHdr, merged: Packet, l: Layout)
    requires GluedFrom(run, hdr, merged, l) && |run| >= 2
    ensures var e := SegmentGso(hdr, merged);
            && e.error.None? && |e.segments| == |run|
            && forall k :: 0 <= k < |run| ==> MemberSegment(run, merged, l, k, e.segments[k])
  {
    hide ParseCoalescibleTcp, Concat, Bodies, FlowOf, SegmentOf, SegmentsOf, Chunks, Buildable, SeqAt, IsSegment, Times, BuiltFrom;
    var bodies, headers := Bodies(run, l.headerLen), merged[..l.headerLen];
    var n := |run[0]| - l.headerLen;
    UniformTwo(bodies, n);
    ParsesMeansPlain(run[0]);
    forall k | 0 <= k < |bodies|
      ensures BuildsAt(l, headers, 0, bodies, n, k)
    {
      ChunkOffset(bodies, n, k);
      TimesIsProduct(k, n);
      PlainBuilds(l, headers, run[0], SeqAt(l, headers, k * n), |bodies[k]|);
    }
    SegmentsOfChunks(l, headers, 0, bodies, n);
    var e := SegmentGso(hdr, merged);
    assert e == SegmentsOf(l, headers, 0, bodies);
    forall k | 0 <= k < |run|
      ensures MemberSegment(run, merged, l, k, e.segments[k])
    {
      BuiltFromAt(l, headers, 0, bodies, e.segments, n, k);
    }
  }

  lemma MemberView(run: seq<Packet>, hdr: VirtioNetHdr, merged: Packet, l: Layout, k: nat, segment: Packet)
    requires GluedFrom(run, hdr, merged, l) && k < |run| && MemberSegment(run, merged, l, k, segment)
    ensures Faithful(l, merged[..l.headerLen], run[k][l.headerLen..], MetaOf(run[k]).seqNo, k == |run| - 1, segment)
    ensures Parses(segment) && LayoutOfSegment(segment) == l && ViewOf(segment) == ViewOf(run[k])
  {
    hide ParseCoalescibleTcp, Concat, Bodies, Contiguous, Sized, LayoutOf, FlowOf, FlowAt, SegmentOf, SeqAt, Times, Faithful,
         PlainIpv4Bytes, PlainIpv6Bytes, DataOffset;
    var headers, body := merged[..l.headerLen], run[k][l.headerLen..];
    var seqNo := SeqAt(l, headers, Times(k, |run[0]| - l.headerLen));
    MemberSeq(run, hdr, merged, l, k);
    RunFlow(run, k);
    ParsesMeansPlain(run[0]);
    PlainVersion(l, run[0]);
    SegmentIsFaithful(l, headers, body, seqNo, k == |run| - 1);
    FaithfulView(l, headers, body, seqNo, k == |run| - 1, segment, run[0]);
    FlowAtLayout(run[0]);
  }

  lemma U32Prefix(s: seq<byte>, n: nat, i: nat)
    requires i + 4 <= n <= |s|
    ensures U32At(s[..n], i) == U32At(s, i)
  {
    U32Same(s[..n], i, s, i);
  }

  lemma MemberSeq(run: seq<Packet>, hdr: VirtioNetHdr, merged: Packet, l: Layout, k: nat)
    requires GluedFrom(run, hdr, merged, l) && k < |run|
    ensures SeqAt(l, merged[..l.headerLen], Times(k, |run[0]| - l.headerLen)) == MetaOf(run[k]).seqNo
  {
    hide ParseCoalescibleTcp, Concat, Bodies, Contiguous, Sized, OneFlow, LayoutOf, Times, U32At;
    RunNumbers(run, k);
    U32Prefix(merged, l.headerLen, l.tcpOffset + 4);
  }
}
