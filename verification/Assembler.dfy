/** Gluing a run of segments into one GSO super-frame. */
module Assembler {
  import opened Wrappers
  import opened Bytes
  import opened Checksum
  import opened Virtio
  import opened Segmenter
  import opened Coalescer

  /** The TCP checksum field set to the folded, not complemented, pseudo-header sum. */
  function WithPartialChecksum(isIpv6: bool, p: Packet, tcpOffset: nat): (r: Packet)
    requires (if isIpv6 then 40 else 20) <= tcpOffset && tcpOffset + 18 <= |p|
    ensures |r| == |p|
  {
    Splice(p, tcpOffset + 16, Be16(Folded(PseudoSum(isIpv6, p, |p| - tcpOffset))))
  }

  function MergedHdr(m: TcpSegmentMeta): VirtioNetHdr
    requires m.HeaderLen() + m.payloadLen < U16_LIMIT
  {
    VirtioNetHdr(NEEDS_CSUM, if m.isIpv6 then GSO_TCPV6 else GSO_TCPV4, m.HeaderLen(), m.payloadLen, m.ipHeaderLen, 16, 0)
  }

  /** Headers and joined payload with the merged length and partial checksum written in. */
  function Glued(isIpv6: bool, tcpOffset: nat, joined: Packet): Result<Packet, OffloadError>
    requires (if isIpv6 then 40 else 20) <= tcpOffset && tcpOffset + 18 <= |joined|
  {
    var resized :- Resized(isIpv6, joined, |joined|);
    Ok(WithPartialChecksum(isIpv6, resized, tcpOffset))
  }

  function Joined(run: seq<Packet>, h: nat): Packet
    requires run != [] && forall k :: 0 <= k < |run| ==> h <= |run[k]|
  {
    run[0][..h] + Concat(Bodies(run, h))
  }

  function Superframe(run: seq<Packet>): Result<Packet, OffloadError> {
    if |run| < 2 then Err(TooFewSegments)
    else if !Parses(run[0]) then Err(FirstNotCoalescible)
    else
      var m := MetaOf(run[0]);
      var h := m.HeaderLen();
      if exists k :: 0 <= k < |run| && |run[k]| <= h then Err(SegmentTooShort)
      else if MergedLen(run, h) >= U16_LIMIT then Err(MergedTooLarge)
      else
        FirstWithinTotal(run, h);
        var merged :- Glued(m.isIpv6, m.ipHeaderLen, Joined(run, h));
        Ok(ToBytes(MergedHdr(m)) + merged)
  }

  lemma {:induction false} BodiesFront(run: seq<Packet>, h: nat)
    requires run != [] && forall k :: 0 <= k < |run| ==> h <= |run[k]|
    ensures Bodies(run, h) == [run[0][h..]] + Bodies(run[1..], h)
    ensures MergedLen(run, h) == |run[0]| + |Concat(Bodies(run[1..], h))|
  {
    var bs := Bodies(run, h);
    assert bs[1..] == Bodies(run[1..], h);
    assert bs == [bs[0]] + bs[1..];
  }

  lemma FirstWithinTotal(run: seq<Packet>, h: nat)
    requires run != [] && forall k :: 0 <= k < |run| ==> h <= |run[k]|
    ensures |run[0]| <= MergedLen(run, h)
  {
    BodiesFront(run, h);
  }

  /** What can be assembled: two or more segments, the first of them pure data, each longer than its headers and
      together at most 65535 bytes. */
  lemma AssemblesExactly(run: seq<Packet>)
    ensures Superframe(run).Ok? <==>
            && |run| >= 2 && PlainSegment(run[0])
            && var h := if run[0][0] == 0x45 then 20 + 4 * (run[0][32] / 16) else 40 + 4 * (run[0][52] / 16);
               (forall k :: 0 <= k < |run| ==> |run[k]| > h) && h + |Concat(Bodies(run, h))| <= 65535
  {
    hide ParseCoalescibleTcp, PlainSegment, Concat, Bodies, Resized, WithPartialChecksum;
    if |run| >= 2 {
      ParsesExactly(run[0]);
      if Parses(run[0]) {
        var h := HeaderLenOf(run[0]);
        if (forall k :: 0 <= k < |run| ==> |run[k]| > h) && MergedLen(run, h) < U16_LIMIT {
          FirstWithinTotal(run, h);
          FirstResizes(run[0], Concat(Bodies(run, h)));
        }
      }
    }
  }

  // ---- The code --------------------------------------------------------------------------------

  method TcpPseudoHeaderPartial(packet: Packet, isIpv6: bool, tcpLen: nat) returns (partial: nat)
    requires |packet| >= if isIpv6 then 40 else 20
    ensures partial == Folded(PseudoSum(isIpv6, packet, tcpLen % (if isIpv6 then U32_LIMIT else U16_LIMIT)))
  {
    hide WordSum, Folded;
    var sum := 0;
    var len := Wrap32(tcpLen);
    if isIpv6 {
      WordSumBound(packet[8..40]);
      sum := AddBytes(sum, packet[8..40]);
      WrapSmall(WordSum(packet[8..40]));
      sum := Wrap32(sum + len / U16_LIMIT);
      sum := Wrap32(sum + len % U16_LIMIT);
    } else {
      WordSumBound(packet[12..20]);
      sum := AddBytes(sum, packet[12..20]);
      WrapSmall(WordSum(packet[12..20]));
      LowHalf(tcpLen);
      sum := Wrap32(sum + len % U16_LIMIT);
    }
    WrapSmall(PseudoSum(isIpv6, packet, if isIpv6 then len else len % U16_LIMIT));
    sum := Wrap32(sum + PROTO_TCP);
    partial := FoldChecksum(sum);
  }

  lemma LowHalf(n: nat)
    ensures Wrap32(n) % U16_LIMIT == n % U16_LIMIT
  {
    DropMultiple(Wrap32(n), n / U32_LIMIT * U16_LIMIT);
  }

  lemma {:induction false} DropMultiple(x: nat, k: nat)
    ensures (x + k * U16_LIMIT) % U16_LIMIT == x % U16_LIMIT
  {
    if k > 0 {
      DropMultiple(x, k - 1);
    }
  }

  /** First pass of the assembly: the payload total, or an error on a segment no longer than the headers. */
  method TotalPayload(segments: seq<Packet>, h: nat) returns (total: Option<nat>)
    ensures total.None? <==> exists k :: 0 <= k < |segments| && |segments[k]| <= h
    ensures total.Some? ==> h + total.value == MergedLen(segments, h)
  {
    var sum := 0;
    for i := 0 to |segments|
      invariant forall k :: 0 <= k < i ==> |segments[k]| > h
      invariant h + sum == MergedLen(segments[..i], h)
    {
      if |segments[i]| <= h {
        return None;
      }
      assert segments[..i + 1] == segments[..i] + [segments[i]];
      MergedLenSnoc(segments[..i], segments[i], h);
      sum := sum + (|segments[i]| - h);
    }
    assert segments[..|segments|] == segments;
    total := Some(sum);
  }

  /** Second pass: the frame's header bytes followed by every payload. */
  method PutPayloads(out: Buffer, segments: seq<Packet>, h: nat)
    requires forall k :: 0 <= k < |segments| ==> h <= |segments[k]|
    modifies out
    ensures out.bytes == old(out.bytes) + Concat(Bodies(segments, h))
  {
    for i := 0 to |segments|
      invariant out.bytes == old(out.bytes) + Concat(Bodies(segments[..i], h))
    {
      assert segments[..i + 1] == segments[..i] + [segments[i]];
      MergedLenSnoc(segments[..i], segments[i], h);
      ConcatSnoc(Bodies(segments[..i], h), segments[i][h..]);
      out.bytes := out.bytes + segments[i][h..];
    }
    assert segments[..|segments|] == segments;
  }

  lemma FirstResizes(p: Packet, body: seq<byte>)
    requires Parses(p) && HeaderLenOf(p) + |body| < U16_LIMIT
    ensures Resized(MetaOf(p).isIpv6, p[..HeaderLenOf(p)] + body, HeaderLenOf(p) + |body|).Ok?
  {
    hide WithIpv4Checksum, NoCoalesceFlags;
  }

  /** Assembles a super-frame into `out`; on success it holds exactly the specified frame. */
  method AssembleTcpGsoSuperframe(out: Buffer, segments: seq<Packet>) returns (r: Result<(), OffloadError>)
    modifies out
    ensures var frame := Superframe(segments);
            if frame.Ok? then r == Ok(()) && out.bytes == frame.value else r == Err(frame.error)
  {
    hide ParseCoalescibleTcp, Concat, Bodies, Resized, PseudoSum, Folded;
    if |segments| < 2 {
      return Err(TooFewSegments);
    }
    var parsed := ParseCoalescibleTcp(segments[0]);
    if parsed.None? {
      return Err(FirstNotCoalescible);
    }
    var first := parsed.value;
    var h := first.HeaderLen();
    var total := TotalPayload(segments, h);
    if total.None? {
      return Err(SegmentTooShort);
    }
    var mergedIpLen := h + total.value;
    if mergedIpLen >= U16_LIMIT {
      return Err(MergedTooLarge);
    }
    FirstWithinTotal(segments, h);

    var hdr := ToBytes(MergedHdr(first));
    out.bytes := hdr + segments[0][..h];
    PutPayloads(out, segments, h);
    ghost var joined := Joined(segments, h);
    assert out.bytes == hdr + joined;
    assert out.bytes[VIRTIO_NET_HDR_LEN..] == joined && out.bytes[..VIRTIO_NET_HDR_LEN] == hdr;
    FirstResizes(segments[0], Concat(Bodies(segments, h)));
    r := FinishFrame(out, first, mergedIpLen);
  }

  /** Length fields, then the checksum field, of the frame behind the virtio header. */
  method FinishFrame(out: Buffer, first: TcpSegmentMeta, mergedIpLen: nat) returns (r: Result<(), OffloadError>)
    requires |out.bytes| == VIRTIO_NET_HDR_LEN + mergedIpLen && mergedIpLen < U16_LIMIT
    requires first.ipHeaderLen == (if first.isIpv6 then 40 else 20) && first.ipHeaderLen + 20 <= mergedIpLen
    modifies out
    ensures var was := old(out.bytes);
            var glued := Glued(first.isIpv6, first.ipHeaderLen, was[VIRTIO_NET_HDR_LEN..]);
            if glued.Ok? then r == Ok(()) && out.bytes == was[..VIRTIO_NET_HDR_LEN] + glued.value
            else r == Err(glued.error)
  {
    hide WithPartialChecksum, Ipv4Resized, Ipv6Resized;
    if first.isIpv6 {
      var _ :- UpdateIpv6PayloadLength(out, VIRTIO_NET_HDR_LEN, mergedIpLen);
    } else {
      var _ :- UpdateIpv4LengthsAndChecksum(out, VIRTIO_NET_HDR_LEN, mergedIpLen);
    }
    PutPartialChecksum(out, out.bytes[..VIRTIO_NET_HDR_LEN], out.bytes[VIRTIO_NET_HDR_LEN..], first);
    r := Ok(());
  }

  /** Zeroes the checksum field behind `hdr` and refills it with the partial sum. */
  method PutPartialChecksum(out: Buffer, ghost hdr: Packet, ghost frame: Packet, first: TcpSegmentMeta)
    requires |hdr| == VIRTIO_NET_HDR_LEN && out.bytes == hdr + frame && |frame| < U16_LIMIT
    requires first.ipHeaderLen == (if first.isIpv6 then 40 else 20) && first.ipHeaderLen + 20 <= |frame|
    modifies out
    ensures out.bytes == hdr + WithPartialChecksum(first.isIpv6, frame, first.ipHeaderLen)
  {
    hide PseudoSum, Folded, Splice, Be16;
    var i := first.ipHeaderLen + 16;
    SpliceBehind(hdr, frame, i, [0, 0]);
    out.bytes := Splice(out.bytes, VIRTIO_NET_HDR_LEN + i, [0, 0]);
    var zeroed := out.bytes[VIRTIO_NET_HDR_LEN..];
    assert zeroed == Splice(frame, i, [0, 0]);
    var partial := TcpPseudoHeaderPartial(zeroed, first.isIpv6, |zeroed| - first.ipHeaderLen);
    SamePseudoSum(first.isIpv6, frame, zeroed, |zeroed| - first.ipHeaderLen);
    SpliceBehind(hdr, zeroed, i, Be16(partial));
    out.bytes := Splice(out.bytes, VIRTIO_NET_HDR_LEN + i, Be16(partial));
    SpliceTwice(frame, i, [0, 0], Be16(partial));
  }

  lemma SpliceTwice(s: seq<byte>, i: nat, a: seq<byte>, b: seq<byte>)
    requires |a| == |b| && i + |a| <= |s|
    ensures Splice(Splice(s, i, a), i, b) == Splice(s, i, b)
  {
  }

  lemma SpliceBehind(hdr: Packet, frame: Packet, i: nat, patch: seq<byte>)
    requires i + |patch| <= |frame|
    ensures Splice(hdr + frame, |hdr| + i, patch) == hdr + Splice(frame, i, patch)
  {
  }
}
