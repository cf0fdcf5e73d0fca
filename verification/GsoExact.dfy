/** When the round trips are exact byte for byte, and the trip that starts from a super-frame. */
module GsoExact {
  import opened Wrappers
  import opened Bytes
  import opened Checksum
  import opened Virtio
  import opened Segmenter
  import opened SegmentTheorems
  import opened Coalescer
  import opened Assembler
  import opened GsoRoundTrip

  // ---- Checksums this code computes ------------------------------------------------------------

  predicate HeadersInPlace(l: Layout, p: Packet) {
    && (if l.isIpv6 then 40 <= l.tcpOffset else |p| >= 20 && 20 <= IhlBytes(p) <= l.tcpOffset)
    && l.tcpOffset + 20 <= |p|
  }

  /** The packet carries exactly the checksums this code would store in it. */
  predicate CarriesChecksums(l: Layout, p: Packet)
    requires HeadersInPlace(l, p)
  {
    && p == WithTcpChecksum(l.isIpv6, p, l.tcpOffset)
    && (!l.isIpv6 ==> p == WithIpv4Checksum(p))
  }

  predicate ChecksumField(l: Layout, k: nat) {
    l.tcpOffset + 16 <= k < l.tcpOffset + 18 || (!l.isIpv6 && 10 <= k < 12)
  }

  /** Two packets that carry computed checksums and agree everywhere else are the same packet. */
  lemma ChecksumsAreDetermined(l: Layout, a: Packet, b: Packet)
    requires HeadersInPlace(l, a) && HeadersInPlace(l, b)
    requires CarriesChecksums(l, a) && CarriesChecksums(l, b)
    requires |a| == |b| && forall k :: 0 <= k < |a| && !ChecksumField(l, k) ==> a[k] == b[k]
    ensures a == b
  {
    hide WordSum, Folded, PseudoSum;
    if !l.isIpv6 {
      assert Splice(a, 10, [0, 0])[..IhlBytes(a)] == Splice(b, 10, [0, 0])[..IhlBytes(b)];
    }
    assert SameOutside(a, b, l.tcpOffset + 16, 2);
    assert Splice(a, l.tcpOffset + 16, [0, 0]) == Splice(b, l.tcpOffset + 16, [0, 0]);
  }

  lemma StoredTcpChecksumStays(l: Layout, p: Packet)
    requires HeadersInPlace(l, p)
    ensures var r := WithTcpChecksum(l.isIpv6, p, l.tcpOffset);
            r == WithTcpChecksum(l.isIpv6, r, l.tcpOffset)
  {
    hide WordSum, Folded, PseudoSum;
    var r := WithTcpChecksum(l.isIpv6, p, l.tcpOffset);
    assert Splice(r, l.tcpOffset + 16, [0, 0]) == Splice(p, l.tcpOffset + 16, [0, 0]);
  }

  lemma StoredIpv4ChecksumStays(l: Layout, p: Packet)
    requires !l.isIpv6 && HeadersInPlace(l, p)
    ensures var r := WithTcpChecksum(false, WithIpv4Checksum(p), l.tcpOffset);
            HeadersInPlace(l, r) && r == WithIpv4Checksum(r)
  {
    hide WordSum, Folded, PseudoSum, TcpChecksum;
    var q := WithIpv4Checksum(p);
    var r := WithTcpChecksum(false, q, l.tcpOffset);
    assert Splice(r, 10, [0, 0])[..IhlBytes(r)] == Splice(p, 10, [0, 0])[..IhlBytes(p)];
  }

  lemma SegmentsCarryChecksums(l: Layout, headers: Packet, chunk: Packet, seqNo: nat, last: bool)
    requires l.tcpOffset + 20 <= l.headerLen == |headers| && seqNo < U32_LIMIT
    requires TcpPastIp(l, headers) && SegmentOf(l, headers, chunk, seqNo, last).Ok?
    ensures var s := SegmentOf(l, headers, chunk, seqNo, last).value;
            HeadersInPlace(l, s) && CarriesChecksums(l, s)
  {
    hide WithIpv4Checksum, WithTcpChecksum;
    var flagged := Flagged(l, headers, chunk, seqNo, last);
    var resized := Resized(l.isIpv6, flagged, |flagged|).value;
    if l.isIpv6 {
      StoredTcpChecksumStays(l, resized);
    } else {
      var p := Splice(flagged, 2, Be16(|flagged|));
      Ipv4ChecksumKeepsIhl(p);
      StoredTcpChecksumStays(l, resized);
      StoredIpv4ChecksumStays(l, p);
    }
  }

  lemma Ipv4ChecksumKeepsIhl(p: Packet)
    requires |p| >= 20 && 20 <= IhlBytes(p) <= |p|
    ensures IhlBytes(WithIpv4Checksum(p)) == IhlBytes(p)
  {
  }

  // ---- Byte-for-byte -----------------------------------------------------------------------------

  /** Agreement with the first member on the fields coalescing does not compare: IP ID and fragment
      flags, reserved bits, flags (FIN and PSH cleared before the last member), urgent pointer. */
  predicate MatchesLead(l: Layout, p: Packet, lead: Packet, last: bool)
    requires l.tcpOffset >= 20 && l.tcpOffset + 20 <= |p| && l.tcpOffset + 20 <= |lead|
  {
    var t := l.tcpOffset;
    && (!l.isIpv6 ==> p[4..8] == lead[4..8])
    && p[t + 12] == lead[t + 12]
    && p[t + 13] == (if last then lead[t + 13] else ClearFinPsh(lead[t + 13]))
    && p[t + 18..t + 20] == lead[t + 18..t + 20]
  }

  lemma PlainInPlace(l: Layout, p: Packet)
    requires PlainHeaders(l, p)
    ensures HeadersInPlace(l, p)
  {
    PlainVersion(l, p);
  }

  /** Equal views and equal uncompared fields leave only the checksums to differ. */
  lemma TwinIpBytes(l: Layout, a: Packet, b: Packet)
    requires Parses(a) && Parses(b) && LayoutOfSegment(a) == LayoutOfSegment(b) == l && |a| == |b|
    requires FlowAt(l, a) == FlowAt(l, b) && (!l.isIpv6 ==> a[4..8] == b[4..8])
    ensures forall k :: 0 <= k < l.tcpOffset && !ChecksumField(l, k) ==> a[k] == b[k]
  {
    hide ParseCoalescibleTcp, NoCoalesceFlags, DataOffset, PlainIpv4Bytes, PlainIpv6Bytes, U16At;
    ParsesMeansPlain(a);
    ParsesMeansPlain(b);
    if l.isIpv6 {
      U16Injective(a, 4, b, 4);
      SliceBytes(a, b, 0, 4);
      SliceBytes(a, b, 8, 40);
      PlainFixed(l, a, b);
    } else {
      U16Injective(a, 2, b, 2);
      SliceBytes(a, b, 4, 8);
      SliceBytes(a, b, 12, 20);
      PlainFixed(l, a, b);
      assert [a[1]][0] == [b[1]][0];
    }
  }

  /** The bytes a plain header leaves no choice about. */
  lemma PlainFixed(l: Layout, a: Packet, b: Packet)
    requires PlainHeaders(l, a) && PlainHeaders(l, b)
    ensures if l.isIpv6 then a[6] == b[6] else a[0] == b[0] && a[9] == b[9]
  {
    hide NoCoalesceFlags, DataOffset;
  }

  lemma TwinTcpBytes(l: Layout, a: Packet, b: Packet)
    requires l.tcpOffset == (if l.isIpv6 then 40 else 20) && l.tcpOffset + 20 <= l.headerLen <= |a| == |b|
    requires FlowAt(l, a) == FlowAt(l, b) && U32At(a, l.tcpOffset + 4) == U32At(b, l.tcpOffset + 4)
    requires a[l.tcpOffset + 12] == b[l.tcpOffset + 12] && a[l.tcpOffset + 13] == b[l.tcpOffset + 13]
    requires a[l.tcpOffset + 18..l.tcpOffset + 20] == b[l.tcpOffset + 18..l.tcpOffset + 20]
    ensures forall k :: l.tcpOffset <= k < l.headerLen && !ChecksumField(l, k) ==> a[k] == b[k]
  {
    hide U32At;
    var t := l.tcpOffset;
    U32Injective(a, t + 4, b, t + 4);
    SliceBytes(a, b, t, t + 4);
    SliceBytes(a, b, t + 4, t + 8);
    SliceBytes(a, b, t + 8, t + 12);
    SliceBytes(a, b, t + 14, t + 16);
    SliceBytes(a, b, t + 18, t + 20);
    SliceBytes(a, b, t + 20, l.headerLen);
  }

  lemma TwinsAreEqual(l: Layout, a: Packet, b: Packet, lead: Packet, last: bool)
    requires Parses(a) && Parses(b) && LayoutOfSegment(a) == LayoutOfSegment(b) == l && ViewOf(a) == ViewOf(b)
    requires l.tcpOffset + 20 <= |lead|
    requires MatchesLead(l, a, lead, last) && MatchesLead(l, b, lead, last)
    requires HeadersInPlace(l, a) && HeadersInPlace(l, b) && CarriesChecksums(l, a) && CarriesChecksums(l, b)
    ensures a == b
  {
    hide ParseCoalescibleTcp, CarriesChecksums, HeadersInPlace;
    FlowAtLayout(a);
    FlowAtLayout(b);
    ParsesMeansPlain(a);
    ParsesMeansPlain(b);
    assert a[l.headerLen..] == b[l.headerLen..];
    TwinIpBytes(l, a, b);
    TwinTcpBytes(l, a, b);
    assert a[l.headerLen..|a|] == a[l.headerLen..] && b[l.headerLen..|b|] == b[l.headerLen..];
    SliceBytes(a, b, l.headerLen, |a|);
    ChecksumsAreDetermined(l, a, b);
  }

  /** Segment `k` of the re-segmented frame equals member `k` exactly when the member matches the first
      on the uncompared fields and carries the checksums this code computes. */
  lemma MemberExact(run: seq<Packet>, hdr: VirtioNetHdr, merged: Packet, l: Layout, k: nat, segment: Packet)
    requires GluedFrom(run, hdr, merged, l) && k < |run| && MemberSegment(run, merged, l, k, segment)
    ensures ExactMember(run, k)
            <==> segment == run[k]
  {
    hide ParseCoalescibleTcp, Coalescible, LayoutOf, ViewOf, CarriesChecksums, HeadersInPlace, Faithful, ClearFinPsh;
    MemberView(run, hdr, merged, l, k, segment);
    RunLayout(run, k);
    SegmentMatchesLead(run, hdr, merged, l, k, segment);
    if ExactMember(run, k) {
      TwinsAreEqual(l, segment, run[k], run[0], k == |run| - 1);
    }
  }

  lemma RunLayout(run: seq<Packet>, k: nat)
    requires Coalescible(run) && k < |run|
    ensures Parses(run[0]) && Parses(run[k]) && LayoutOfSegment(run[k]) == LayoutOfSegment(run[0])
    ensures HeadersInPlace(LayoutOfSegment(run[k]), run[k]) && LayoutOfSegment(run[0]).headerLen <= |run[0]|
  {
    hide ParseCoalescibleTcp, Contiguous, Sized;
    RunFlow(run, k);
    ParsesMeansPlain(run[k]);
    PlainInPlace(LayoutOfSegment(run[k]), run[k]);
  }

  ghost predicate ExactMember(run: seq<Packet>, k: nat)
    requires Coalescible(run) && k < |run|
  {
    RunLayout(run, k);
    var l := LayoutOfSegment(run[0]);
    MatchesLead(l, run[k], run[0], k == |run| - 1) && CarriesChecksums(l, run[k])
  }

  lemma SegmentMatchesLead(run: seq<Packet>, hdr: VirtioNetHdr, merged: Packet, l: Layout, k: nat, segment: Packet)
    requires GluedFrom(run, hdr, merged, l) && k < |run| && MemberSegment(run, merged, l, k, segment)
    ensures l.tcpOffset >= 20 && l.tcpOffset + 20 <= |segment| && l.tcpOffset + 20 <= |run[0]|
    ensures MatchesLead(l, segment, run[0], k == |run| - 1)
    ensures HeadersInPlace(l, segment) && CarriesChecksums(l, segment)
  {
    hide ParseCoalescibleTcp, Concat, Bodies, Contiguous, Sized, OneFlow, LayoutOf, SegmentOf, SeqAt, Times,
         PlainIpv4Bytes, PlainIpv6Bytes, DataOffset, CarriesChecksums, Faithful, MatchesLead;
    MemberView(run, hdr, merged, l, k, segment);
    ParsesMeansPlain(run[0]);
    PlainVersion(l, run[0]);
    var headers := merged[..l.headerLen];
    SegmentsCarryChecksums(l, headers, run[k][l.headerLen..], SeqAt(l, headers, Times(k, |run[0]| - l.headerLen)), k == |run| - 1);
    FaithfulMatchesLead(l, headers, run[k][l.headerLen..], MetaOf(run[k]).seqNo, k == |run| - 1, segment, run[0]);
  }

  lemma FaithfulMatchesLead(l: Layout, headers: Packet, chunk: Packet, seqNo: nat, last: bool, segment: Packet, lead: Packet)
    requires l.tcpOffset == (if l.isIpv6 then 40 else 20) && l.tcpOffset + 20 <= l.headerLen == |headers| <= |lead|
    requires SameHeaders(l, headers, lead) && Faithful(l, headers, chunk, seqNo, last, segment)
    ensures MatchesLead(l, segment, lead, last)
  {
    hide ClearFinPsh, Ipv4HeaderOk, TcpChecksumOk, IhlBytes, IpLengthOk, U32At;
    var t := l.tcpOffset;
    assert forall i :: 0 <= i < l.headerLen && !Rewritten(l, i) ==> segment[i] == lead[i];
    if !l.isIpv6 {
      assert segment[4..8] == lead[4..8];
    }
    assert segment[t + 18..t + 20] == lead[t + 18..t + 20];
  }

  /** The whole run comes back byte for byte exactly when every member is exact. */
  lemma CoalesceThenSegmentExact(run: seq<Packet>)
    requires Coalescible(run) && |run| >= 2
    ensures Superframe(run).Ok?
    ensures Delivery(Superframe(run).value, true) == Emission(run, None)
            <==> forall k :: 0 <= k < |run| ==> ExactMember(run, k)
  {
    hide Coalescible, GluedFrom, SplitTunFrame, SegmentGso, ToBytes, ExactMember, MemberSegment;
    var hdr, merged, l := RunAssembles(run);
    GluedIsGso(run, hdr, merged, l);
    GluedSizes(run, hdr, merged, l);
    ResegmentedMembers(run, hdr, merged, l);
    var e := SegmentGso(hdr, merged);
    forall k | 0 <= k < |run|
      ensures ExactMember(run, k) <==> e.segments[k] == run[k]
    {
      MemberExact(run, hdr, merged, l, k, e.segments[k]);
    }
  }

  lemma GluedSizes(run: seq<Packet>, hdr: VirtioNetHdr, merged: Packet, l: Layout)
    requires GluedFrom(run, hdr, merged, l)
    ensures l.tcpOffset + 20 <= l.headerLen <= |merged|
    ensures forall k :: 0 <= k < |run| ==> l.headerLen <= |run[k]|
  {
    hide Sized, Contiguous, OneFlow, SameHeaders;
  }

  // ---- Segment, then coalesce ------------------------------------------------------------------

  /** A plain-data super-frame of several segments: no options, extension headers or fragments, no ECN,
      no SYN, FIN, RST or URG, at most 65535 bytes. */
  ghost predicate PlainSuperframe(offload: VirtioNetHdr, ip: Packet, l: Layout) {
    && LayoutOf(offload, ip) == Ok(l)
    && PlainHeaders(l, ip)
    && offload.gsoSize < |PayloadOf(l, ip)| && |ip| < U16_LIMIT
  }

  /** Segment `k` of the super-frame, as its receiver sees it. */
  ghost predicate CutAt(l: Layout, ip: Packet, n: nat, k: nat, chunk: Packet, segment: Packet)
    requires PlainHeaders(l, ip)
  {
    && Parses(segment) && LayoutOfSegment(segment) == l
    && ViewOf(segment) == TcpView(FlowAt(l, ip), SeqAt(l, ip[..l.headerLen], Times(k, n)), chunk)
  }

  lemma CutViews(offload: VirtioNetHdr, ip: Packet, l: Layout)
    requires PlainSuperframe(offload, ip, l)
    ensures var e, cs := SegmentGso(offload, ip), Chunks(PayloadOf(l, ip), offload.gsoSize);
            && e.error.None? && |e.segments| == |cs| >= 2 && Uniform(cs, offload.gsoSize) && Concat(cs) == PayloadOf(l, ip)
            && (forall k :: 0 <= k < |cs| ==> CutAt(l, ip, offload.gsoSize, k, cs[k], e.segments[k]))
            && Faithful(l, ip[..l.headerLen], cs[0], SeqAt(l, ip[..l.headerLen], 0), false, e.segments[0])
  {
    hide Concat, Chunks, FlowAt, SegmentGso, SeqAt, Times, Faithful, LayoutOf, PlainIpv4Bytes, PlainIpv6Bytes, DataOffset, NoCoalesceFlags;
    var n: nat, headers := offload.gsoSize, ip[..l.headerLen];
    PlainVersion(l, ip);
    SegmentationIsFaithful(offload, ip, l);
    ChunksCut(PayloadOf(l, ip), n);
    LastChunkFits(PayloadOf(l, ip), n);
    TimesStep(0, n);
    var e, cs := SegmentGso(offload, ip), Chunks(PayloadOf(l, ip), n);
    forall k | 0 <= k < |cs|
      ensures CutAt(l, ip, n, k, cs[k], e.segments[k])
    {
      FaithfulView(l, headers, cs[k], SeqAt(l, headers, Times(k, n)), k == |cs| - 1, e.segments[k], ip);
    }
  }

  lemma CutIsCoalescible(l: Layout, ip: Packet, n: nat, cs: seq<seq<byte>>, segments: seq<Packet>)
    requires PlainHeaders(l, ip) && l.headerLen + |Concat(cs)| < U16_LIMIT
    requires Uniform(cs, n) && |segments| == |cs|
    requires forall k :: 0 <= k < |cs| ==> CutAt(l, ip, n, k, cs[k], segments[k])
    ensures Coalescible(segments) && (forall k :: 0 <= k < |segments| ==> l.headerLen <= |segments[k]|)
    ensures Bodies(segments, l.headerLen) == cs
  {
    hide ParseCoalescibleTcp, Concat, FlowOf, FlowAt, PlainIpv4Bytes, PlainIpv6Bytes, DataOffset, NoCoalesceFlags, SeqAt, Times;
    assert AllParse(segments);
    assert OneFlow(segments) by {
      assert CutAt(l, ip, n, 0, cs[0], segments[0]);
    }
    forall k | 0 < k < |segments|
      ensures StartsAfter(segments[k - 1], segments[k])
    {
      assert CutAt(l, ip, n, k - 1, cs[k - 1], segments[k - 1]) && CutAt(l, ip, n, k, cs[k], segments[k]);
      ConsecutiveSeq(l, ip, n, k);
    }
    assert HeaderLenOf(segments[0]) == l.headerLen;
    OneFlowOneHeaderLen(segments);
    assert Bodies(segments, l.headerLen) == cs;
  }

  lemma ConsecutiveSeq(l: Layout, ip: Packet, n: nat, k: nat)
    requires l.tcpOffset + 20 <= l.headerLen <= |ip| && k > 0
    ensures SeqAt(l, ip[..l.headerLen], Times(k, n)) == (SeqAt(l, ip[..l.headerLen], Times(k - 1, n)) + n) % U32_LIMIT
  {
    hide Times, U32At;
    TimesStep(k, n);
    AddModAbsorbs(U32At(ip[..l.headerLen], l.tcpOffset + 4) + Times(k - 1, n), n);
  }

  /** Resizing overwrites the length fields and IPv4 checksum, so it depends on nothing else. */
  lemma ResizedDepends(l: Layout, a: Packet, b: Packet)
    requires HeadersInPlace(l, a) && HeadersInPlace(l, b) && |a| == |b|
    requires forall k :: 0 <= k < |a| && !IpField(l, k) && !(l.tcpOffset + 16 <= k < l.tcpOffset + 18) ==> a[k] == b[k]
    requires Resized(l.isIpv6, a, |a|).Ok?
    ensures Resized(l.isIpv6, b, |b|).Ok?
    ensures SameOutside(Resized(l.isIpv6, a, |a|).value, Resized(l.isIpv6, b, |b|).value, l.tcpOffset + 16, 2)
  {
    hide WordSum, Finalized;
    if !l.isIpv6 {
      var n := IhlBytes(a);
      var sa, sb := Splice(a, 2, Be16(|a|)), Splice(b, 2, Be16(|b|));
      assert Splice(sa, 10, [0, 0])[..n] == Splice(sb, 10, [0, 0])[..n];
    }
  }

  /** Gluing also overwrites the TCP checksum field. */
  lemma GluedDepends(l: Layout, a: Packet, b: Packet)
    requires HeadersInPlace(l, a) && HeadersInPlace(l, b) && |a| == |b|
    requires forall k :: 0 <= k < |a| && !IpField(l, k) && !(l.tcpOffset + 16 <= k < l.tcpOffset + 18) ==> a[k] == b[k]
    requires Glued(l.isIpv6, l.tcpOffset, a).Ok?
    ensures Glued(l.isIpv6, l.tcpOffset, a) == Glued(l.isIpv6, l.tcpOffset, b)
  {
    hide Folded, PseudoSum, Resized;
    ResizedDepends(l, a, b);
    var ra, rb := Resized(l.isIpv6, a, |a|).value, Resized(l.isIpv6, b, |b|).value;
    SamePseudoSum(l.isIpv6, ra, rb, |a| - l.tcpOffset);
    assert WithPartialChecksum(l.isIpv6, ra, l.tcpOffset) == WithPartialChecksum(l.isIpv6, rb, l.tcpOffset);
  }

  /** The packet without its PSH bit; plain data has no FIN. */
  function Quiet(l: Layout, ip: Packet): Packet
    requires l.tcpOffset + 13 < |ip|
  {
    ip[l.tcpOffset + 13 := ClearFinPsh(ip[l.tcpOffset + 13])]
  }

  lemma QuietIsPlain(l: Layout, ip: Packet)
    requires PlainHeaders(l, ip)
    ensures PlainHeaders(l, Quiet(l, ip))
  {
    hide NoCoalesceFlags, ClearFinPsh, PlainIpv4Bytes, PlainIpv6Bytes, DataOffset;
    ClearedFlagsStayPlain(ip[l.tcpOffset + 13]);
  }

  lemma FirstCutHeaders(l: Layout, ip: Packet, chunk: Packet, segment: Packet)
    requires PlainHeaders(l, ip)
    requires Faithful(l, ip[..l.headerLen], chunk, SeqAt(l, ip[..l.headerLen], 0), false, segment)
    ensures forall k :: 0 <= k < l.headerLen && !IpField(l, k) && !(l.tcpOffset + 16 <= k < l.tcpOffset + 18) ==> segment[k] == Quiet(l, ip)[k]
  {
    hide Ipv4HeaderOk, TcpChecksumOk, IpLengthOk, PlainIpv4Bytes, PlainIpv6Bytes, DataOffset, IhlBytes, ClearFinPsh, U32At;
    var t, headers := l.tcpOffset, ip[..l.headerLen];
    U32Injective(segment, t + 4, headers, t + 4);
    SliceBytes(segment, headers, t + 4, t + 8);
  }

  /** The metadata `assemble_tcp_gso_superframe` writes for a burst cut every `n` bytes. */
  function BurstHdr(l: Layout, n: u16): VirtioNetHdr
    requires l.headerLen < U16_LIMIT && l.tcpOffset < U16_LIMIT
  {
    VirtioNetHdr(NEEDS_CSUM, if l.isIpv6 then GSO_TCPV6 else GSO_TCPV4, l.headerLen, n, l.tcpOffset, 16, 0)
  }

  /**
   Segmenting then coalescing is the identity on plain-data super-frames, but for the PSH bit: the planner
   puts the whole burst in one coalesced group, and assembling it restores the headers and payload, with
   lengths and IPv4 checksum for the whole frame and the partial checksum in place of the full ones.
   */
  lemma SegmentThenCoalesce(offload: VirtioNetHdr, ip: Packet, l: Layout, groups: seq<Group>)
    requires PlainSuperframe(offload, ip, l)
    requires GreedyPlan(SegmentGso(offload, ip).segments, groups)
    ensures var e := SegmentGso(offload, ip);
            && e.error.None?
            && groups == [Group(0, |e.segments|, true)]
            && Glued(l.isIpv6, l.tcpOffset, Quiet(l, ip)).Ok?
            && Superframe(e.segments) == Ok(ToBytes(BurstHdr(l, offload.gsoSize)) + Glued(l.isIpv6, l.tcpOffset, Quiet(l, ip)).value)
  {
    hide Coalescible, PlainHeaders, Faithful, FlowAt, SegmentGso, SeqAt, Times, Concat, Chunks, Superframe, Glued, LayoutOf;
    var n: nat, e, cs := offload.gsoSize, SegmentGso(offload, ip), Chunks(PayloadOf(l, ip), offload.gsoSize);
    CutViews(offload, ip, l);
    CutIsCoalescible(l, ip, n, cs, e.segments);
    WholeBatch(e.segments, groups);
    CutReassembles(offload, ip, l);
  }

  lemma WholeBatch(batch: seq<Packet>, groups: seq<Group>)
    requires Coalescible(batch) && |batch| >= 2 && GreedyPlan(batch, groups)
    ensures groups == [Group(0, |batch|, true)]
  {
    hide Coalescible;
    var whole := [Group(0, |batch|, true)];
    assert batch[0..|batch|] == batch;
    assert whole[1..] == [];
    assert GreedyGroup(batch, whole[0]) && GreedyRange(batch, [], |batch|, |batch|);
    assert GreedyPlan(batch, whole);
    PlanIsUnique(batch, groups, whole, 0);
  }

  lemma CutReassembles(offload: VirtioNetHdr, ip: Packet, l: Layout)
    requires PlainSuperframe(offload, ip, l)
    ensures Glued(l.isIpv6, l.tcpOffset, Quiet(l, ip)).Ok? && l.headerLen < U16_LIMIT
    ensures Superframe(SegmentGso(offload, ip).segments) ==
            Ok(ToBytes(BurstHdr(l, offload.gsoSize)) + Glued(l.isIpv6, l.tcpOffset, Quiet(l, ip)).value)
  {
    hide Faithful, FlowAt, SegmentGso, SeqAt, Times, Concat, Chunks, Bodies, Glued, LayoutOf, Superframe, ParseCoalescibleTcp,
         PlainHeaders, Coalescible, Uniform;
    var n: nat, e, cs := offload.gsoSize, SegmentGso(offload, ip), Chunks(PayloadOf(l, ip), offload.gsoSize);
    CutViews(offload, ip, l);
    CutIsCoalescible(l, ip, n, cs, e.segments);
    assert CutAt(l, ip, n, 0, cs[0], e.segments[0]);
    LastChunkFits(PayloadOf(l, ip), n);
    BurstReassembles(l, ip, n, cs, e.segments);
  }

  lemma BurstReassembles(l: Layout, ip: Packet, n: u16, cs: seq<seq<byte>>, segments: seq<Packet>)
    requires PlainHeaders(l, ip) && |ip| < U16_LIMIT
    requires Coalescible(segments) && |segments| >= 2 && |cs| > 0 && |cs[0]| == n && Concat(cs) == ip[l.headerLen..]
    requires (forall k :: 0 <= k < |segments| ==> l.headerLen <= |segments[k]|) && Bodies(segments, l.headerLen) == cs
    requires LayoutOfSegment(segments[0]) == l
    requires Faithful(l, ip[..l.headerLen], cs[0], SeqAt(l, ip[..l.headerLen], 0), false, segments[0])
    ensures Glued(l.isIpv6, l.tcpOffset, Quiet(l, ip)).Ok?
    ensures Superframe(segments) == Ok(ToBytes(BurstHdr(l, n)) + Glued(l.isIpv6, l.tcpOffset, Quiet(l, ip)).value)
  {
    hide Faithful, SeqAt, Concat, Bodies, Glued, ToBytes, ParseCoalescibleTcp, PlainIpv4Bytes, PlainIpv6Bytes, DataOffset,
         NoCoalesceFlags, Contiguous, Sized;
    var h := l.headerLen;
    OneFlowOneHeaderLen(segments);
    FirstWithinTotal(segments, h);
    var joined := Joined(segments, h);
    assert joined == segments[0][..h] + ip[h..];
    JoinedGlues(l, ip, cs, segments[0], joined);
    assert MergedLen(segments, h) == |ip|;
    assert MergedHdr(MetaOf(segments[0])) == BurstHdr(l, n);
  }

  lemma JoinedGlues(l: Layout, ip: Packet, cs: seq<seq<byte>>, first: Packet, joined: Packet)
    requires PlainHeaders(l, ip) && |ip| < U16_LIMIT && cs != []
    requires Parses(first) && LayoutOfSegment(first) == l && joined == first[..l.headerLen] + ip[l.headerLen..]
    requires Faithful(l, ip[..l.headerLen], cs[0], SeqAt(l, ip[..l.headerLen], 0), false, first)
    ensures Glued(l.isIpv6, l.tcpOffset, Quiet(l, ip)).Ok?
    ensures Glued(l.isIpv6, l.tcpOffset, joined) == Glued(l.isIpv6, l.tcpOffset, Quiet(l, ip))
  {
    hide Faithful, SeqAt, Glued, Resized, ParseCoalescibleTcp, PlainIpv4Bytes, PlainIpv6Bytes, DataOffset, NoCoalesceFlags;
    FirstCutHeaders(l, ip, cs[0], first);
    FirstResizes(first, ip[l.headerLen..]);
    ParsesMeansPlain(first);
    PlainVersion(l, first);
    QuietIsPlain(l, ip);
    PlainInPlace(l, Quiet(l, ip));
    GluedWhenResized(l, joined);
    assert joined[0] == first[0];
    GluedDepends(l, joined, Quiet(l, ip));
  }

  lemma GluedWhenResized(l: Layout, joined: Packet)
    requires (if l.isIpv6 then 40 else 20) <= l.tcpOffset && l.tcpOffset + 18 <= |joined|
    ensures Glued(l.isIpv6, l.tcpOffset, joined).Ok? <==> Resized(l.isIpv6, joined, |joined|).Ok?
  {
    hide Resized, WithPartialChecksum;
  }

  /** Reassembly restores the super-frame itself exactly when PSH was clear and it carried its own length, IPv4
      checksum and partial checksum. */
  lemma RestoredExactly(l: Layout, ip: Packet)
    requires HeadersInPlace(l, ip) && Glued(l.isIpv6, l.tcpOffset, Quiet(l, ip)).Ok?
    ensures Glued(l.isIpv6, l.tcpOffset, Quiet(l, ip)) == Ok(ip)
            <==> && Quiet(l, ip) == ip
                 && IpLengthOk(l, ip)
                 && (!l.isIpv6 ==> ip == WithIpv4Checksum(ip))
                 && U16At(ip, l.tcpOffset + 16) == Folded(PseudoSum(l.isIpv6, ip, |ip| - l.tcpOffset))
  {
    hide Folded, PseudoSum, Ipv4HeaderChecksum, ClearFinPsh;
    if Quiet(l, ip) == ip {
      GluedExactly(l, ip);
    } else {
      GluedKeepsFlags(l, Quiet(l, ip));
    }
  }

  lemma GluedKeepsFlags(l: Layout, p: Packet)
    requires HeadersInPlace(l, p) && Glued(l.isIpv6, l.tcpOffset, p).Ok?
    ensures |Glued(l.isIpv6, l.tcpOffset, p).value| == |p|
    ensures Glued(l.isIpv6, l.tcpOffset, p).value[l.tcpOffset + 13] == p[l.tcpOffset + 13]
  {
    hide Resized;
    ResizedKeeps(l, p);
  }

  lemma GluedExactly(l: Layout, ip: Packet)
    requires HeadersInPlace(l, ip) && Glued(l.isIpv6, l.tcpOffset, ip).Ok?
    ensures Glued(l.isIpv6, l.tcpOffset, ip) == Ok(ip)
            <==> && IpLengthOk(l, ip)
                 && (!l.isIpv6 ==> ip == WithIpv4Checksum(ip))
                 && U16At(ip, l.tcpOffset + 16) == Folded(PseudoSum(l.isIpv6, ip, |ip| - l.tcpOffset))
  {
    hide Folded, PseudoSum, Resized, IpLengthOk, WithIpv4Checksum, Splice, Be16, U16At;
    var t := l.tcpOffset;
    var resized := Resized(l.isIpv6, ip, |ip|).value;
    ResizedKeeps(l, ip);
    SamePseudoSum(l.isIpv6, resized, ip, |ip| - t);
    StoreBehind(ip, resized, t + 16, Folded(PseudoSum(l.isIpv6, ip, |ip| - t)));
    ResizedExactly(l, ip);
  }

  lemma ResizedExactly(l: Layout, ip: Packet)
    requires HeadersInPlace(l, ip) && Resized(l.isIpv6, ip, |ip|).Ok?
    ensures Resized(l.isIpv6, ip, |ip|) == Ok(ip) <==> IpLengthOk(l, ip) && (!l.isIpv6 ==> ip == WithIpv4Checksum(ip))
  {
    hide WordSum, Finalized, Be16, U16At;
    if l.isIpv6 {
      StoreIsIdentity(ip, 4, |ip| - 40);
    } else {
      var sized := Splice(ip, 2, Be16(|ip|));
      StoreIsIdentity(ip, 2, |ip|);
      StoreIsIdentity(ip, 10, Ipv4HeaderChecksum(ip));
      StoreBehind(ip, sized, 10, Ipv4HeaderChecksum(sized));
    }
  }

  /** A store over a packet that differs only elsewhere gives the packet back iff neither changed anything. */
  lemma StoreBehind(p: Packet, q: Packet, i: nat, v: nat)
    requires i + 2 <= |p| == |q| && v < U16_LIMIT && p[i] == q[i] && p[i + 1] == q[i + 1]
    ensures Splice(q, i, Be16(v)) == p <==> q == p && U16At(p, i) == v
  {
    hide Be16, U16At;
    StoreIsIdentity(p, i, v);
    if Splice(q, i, Be16(v)) == p {
      assert forall k :: 0 <= k < |p| && !(i <= k < i + 2) ==> q[k] == p[k];
      assert q == p;
    }
  }

  lemma StoreIsIdentity(p: Packet, i: nat, v: nat)
    requires i + 2 <= |p| && v < U16_LIMIT
    ensures Splice(p, i, Be16(v)) == p <==> U16At(p, i) == v
  {
    if U16At(p, i) == v {
      U16Injective(p, i, Be16(v), 0);
    } else {
      assert U16At(Splice(p, i, Be16(v)), i) == v;
    }
  }
}
