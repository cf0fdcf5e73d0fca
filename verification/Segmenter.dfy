/**
 Software segmentation of a TCP GSO super-frame into plain TCP packets, and completion of partial
 checksums: the read-side half of the offload engine.
 */
module Segmenter {
  import opened Wrappers
  import opened Bytes
  import opened Checksum
  import opened Virtio

  const PROTO_TCP: byte := 6

  datatype OffloadError =
    | NotTcpGso | EmptyPacket | VersionGsoMismatch | UnsupportedVersion | NotPlainTcp
    | InvalidTcpOffset | InvalidTcpHeaderLength | SequenceOffsetTooLarge
    | Ipv4TooShort | Ipv4NotTcp | InvalidIhl | Ipv4TooLarge | Ipv6TooShort | Ipv6TooLarge
    | InvalidChecksumOffset | UnsupportedGso | UnsupportedFlags | InvalidCsumStart | InvalidCsumOffset
    | TooFewSegments | FirstNotCoalescible | SegmentTooShort | MergedTooLarge
    | EmitFailed | UnreadableFrame

  /** Packets handed to `emit`, in order, and the error that stopped the work, if any. */
  datatype Emission = Emission(segments: seq<Packet>, error: Option<OffloadError>)

  /** The caller's `emit`: it accepts `room` packets and then fails, or never fails when `room` is `None`. */
  class Sink {
    var emitted: seq<Packet>
    var room: Option<nat>

    constructor (room: Option<nat>)
      ensures emitted == [] && this.room == room
    {
      emitted, this.room := [], room;
    }

    method Emit(p: Packet) returns (r: Result<(), OffloadError>)
      modifies this
      ensures r == if old(room) != Some(0) then Ok(()) else Err(EmitFailed)
      ensures r.Ok? ==> emitted == old(emitted) + [p]
      ensures r.Ok? && old(room).Some? ==> room == Some(old(room).value - 1)
      ensures r.Ok? && old(room).None? ==> room == None
      ensures r.Err? ==> emitted == old(emitted) && room == old(room)
    {
      if room == Some(0) {
        return Err(EmitFailed);
      }
      emitted := emitted + [p];
      if room.Some? {
        room := Some(room.value - 1);
      }
      r := Ok(());
    }
  }

  /** What a sink holds, and what its caller returns, after being offered `e`. */
  ghost predicate Delivered(before: seq<Packet>, room: Option<nat>, e: Emission, after: seq<Packet>, r: Result<(), OffloadError>) {
    if room.None? || |e.segments| <= room.value then
      && after == before + e.segments
      && r == (if e.error.None? then Ok(()) else Err(e.error.value))
    else
      after == before + e.segments[..room.value] && r == Err(EmitFailed)
  }

  // ---- Header fields ---------------------------------------------------------------------------

  function VersionOf(p: Packet): int
    requires |p| > 0
  {
    p[0] / 16
  }

  function IhlBytes(p: Packet): nat
    requires |p| > 0
  {
    p[0] % 16 * 4
  }

  /** The data offset nibble, in bytes. */
  function DataOffset(b: byte): nat {
    b / 16 * 4
  }

  function TcpHeaderLenAt(p: Packet, tcpOffset: nat): nat
    requires tcpOffset + 20 <= |p|
  {
    DataOffset(p[tcpOffset + 12])
  }

  /** The flag byte with FIN (0x01) and PSH (0x08) cleared and every other bit kept. */
  function ClearFinPsh(flags: byte): (r: byte)
    ensures r % 2 == 0 && r / 8 % 2 == 0
    ensures r / 2 % 4 == flags / 2 % 4 && r / 16 == flags / 16
  {
    var high, middle := flags / 16, flags / 2 % 4;
    assert (high * 16 + middle * 2) / 16 == high;
    high * 16 + middle * 2
  }

  function Ipv4HeaderChecksum(p: Packet): nat
    requires |p| >= 20 && 20 <= IhlBytes(p) <= |p|
  {
    Finalized(WordSum(Splice(p, 10, [0, 0])[..IhlBytes(p)]))
  }

  function WithIpv4Checksum(p: Packet): (r: Packet)
    requires |p| >= 20 && 20 <= IhlBytes(p) <= |p|
    ensures |r| == |p|
  {
    Splice(p, 10, Be16(Ipv4HeaderChecksum(p)))
  }

  function Ipv4Resized(p: Packet, len: nat): (r: Result<Packet, OffloadError>)
    ensures r.Ok? ==> |r.value| == |p|
  {
    if |p| < 20 then Err(Ipv4TooShort)
    else if p[9] != PROTO_TCP then Err(Ipv4NotTcp)
    else if IhlBytes(p) < 20 || IhlBytes(p) > |p| then Err(InvalidIhl)
    else if len >= U16_LIMIT then Err(Ipv4TooLarge)
    else Ok(WithIpv4Checksum(Splice(p, 2, Be16(len))))
  }

  function Ipv6Resized(p: Packet, len: nat): (r: Result<Packet, OffloadError>)
    ensures r.Ok? ==> |r.value| == |p|
  {
    if |p| < 40 || len < 40 then Err(Ipv6TooShort)
    else if len - 40 >= U16_LIMIT then Err(Ipv6TooLarge)
    else Ok(Splice(p, 4, Be16(len - 40)))
  }

  function Resized(isIpv6: bool, p: Packet, len: nat): (r: Result<Packet, OffloadError>)
    ensures r.Ok? ==> |r.value| == |p|
  {
    if isIpv6 then Ipv6Resized(p, len) else Ipv4Resized(p, len)
  }

  lemma ResizedFits(isIpv6: bool, p: Packet)
    requires Resized(isIpv6, p, |p|).Ok?
    ensures if isIpv6 then 40 <= |p| < 40 + U16_LIMIT else 20 <= |p| < U16_LIMIT
  {
  }

  /** Pseudo-header sum of section 3.1 of RFC 9293 (IPv4) and section 8.1 of RFC 8200 (IPv6). */
  function PseudoSum(isIpv6: bool, p: Packet, tcpLen: nat): nat
    requires |p| >= if isIpv6 then 40 else 20
  {
    if isIpv6 then WordSum(p[8..40]) + tcpLen / U16_LIMIT + tcpLen % U16_LIMIT + PROTO_TCP
    else WordSum(p[12..20]) + tcpLen + PROTO_TCP
  }

  /** The pseudo-header itself, byte for byte: addresses, zeros, protocol 6 and TCP length. */
  function PseudoHeader(isIpv6: bool, p: Packet, tcpLen: nat): seq<byte>
    requires |p| >= (if isIpv6 then 40 else 20) && tcpLen < if isIpv6 then U32_LIMIT else U16_LIMIT
  {
    if isIpv6 then p[8..40] + (Be32(tcpLen) + [0, 0, 0, 6]) else p[12..20] + ([0, 6] + Be16(tcpLen))
  }

  /** `PseudoSum` is the sum of that header, and adding a segment's sum is summing both as one string. */
  lemma PseudoSumIsHeader(isIpv6: bool, p: Packet, tcpLen: nat, segment: seq<byte>)
    requires |p| >= (if isIpv6 then 40 else 20) && tcpLen < if isIpv6 then U32_LIMIT else U16_LIMIT
    ensures PseudoSum(isIpv6, p, tcpLen) == WordSum(PseudoHeader(isIpv6, p, tcpLen))
    ensures PseudoSum(isIpv6, p, tcpLen) + WordSum(segment) == WordSum(PseudoHeader(isIpv6, p, tcpLen) + segment)
  {
    hide WordSum, Be32, Be16, U32At, U16At;
    PseudoTail(isIpv6, tcpLen);
    if isIpv6 {
      WordSumAppend(p[8..40], Be32(tcpLen) + [0, 0, 0, 6]);
    } else {
      WordSumAppend(p[12..20], [0, 6] + Be16(tcpLen));
    }
    WordSumAppend(PseudoHeader(isIpv6, p, tcpLen), segment);
  }

  lemma PseudoTail(isIpv6: bool, tcpLen: nat)
    requires tcpLen < if isIpv6 then U32_LIMIT else U16_LIMIT
    ensures isIpv6 ==> WordSum(Be32(tcpLen) + [0, 0, 0, 6]) == tcpLen / U16_LIMIT + tcpLen % U16_LIMIT + 6
    ensures !isIpv6 ==> WordSum([0, 6] + Be16(tcpLen)) == 6 + tcpLen
  {
    if isIpv6 {
      var high, low := Be16(tcpLen / U16_LIMIT), Be16(tcpLen % U16_LIMIT);
      var tail := Be32(tcpLen) + [0, 0, 0, 6];
      assert tail == high + low + [0, 0, 0, 6];
      assert tail[2..] == low + [0, 0, 0, 6] && tail[2..][2..] == [0, 0, 0, 6] && tail[2..][2..][2..] == [0, 6];
      assert WordSum([0, 6]) == 6 && WordSum([0, 0, 0, 6]) == 6;
      assert WordSum(tail) == U16At(tail, 0) + (U16At(tail[2..], 0) + WordSum(tail[2..][2..]));
      assert U16At(tail, 0) == U16At(high, 0) && U16At(tail[2..], 0) == U16At(low, 0);
    } else {
      var length := Be16(tcpLen);
      var tail := [0, 6] + length;
      assert tail[2..] == length && length[2..] == [];
      assert U16At(tail, 0) == 6 && WordSum(length) == tcpLen;
    }
  }

  lemma SamePseudoSum(isIpv6: bool, a: Packet, b: Packet, tcpLen: nat)
    requires |a| == |b| >= if isIpv6 then 40 else 20
    requires forall k :: (if isIpv6 then 8 else 12) <= k < (if isIpv6 then 40 else 20) ==> a[k] == b[k]
    ensures PseudoSum(isIpv6, a, tcpLen) == PseudoSum(isIpv6, b, tcpLen)
  {
    hide WordSum;
    if isIpv6 {
      assert a[8..40] == b[8..40];
    } else {
      assert a[12..20] == b[12..20];
    }
  }

  /** The full TCP checksum of `p`, whatever its checksum field holds. */
  function TcpChecksum(isIpv6: bool, p: Packet, tcpOffset: nat): nat
    requires |p| >= (if isIpv6 then 40 else 20) && tcpOffset + 18 <= |p|
  {
    var z := Splice(p, tcpOffset + 16, [0, 0]);
    Finalized(PseudoSum(isIpv6, z, |z| - tcpOffset) + WordSum(z[tcpOffset..]))
  }

  function WithTcpChecksum(isIpv6: bool, p: Packet, tcpOffset: nat): (r: Packet)
    requires |p| >= (if isIpv6 then 40 else 20) && tcpOffset + 18 <= |p|
    ensures |r| == |p|
  {
    Splice(p, tcpOffset + 16, Be16(TcpChecksum(isIpv6, p, tcpOffset)))
  }

  // ---- The segmenter ---------------------------------------------------------------------------

  /** Where the headers of an accepted super-frame end. `hdr_len` plays no part in it. */
  datatype Layout = Layout(isIpv6: bool, tcpOffset: nat, headerLen: nat)

  ghost predicate LayoutFits(l: Layout, ip: Packet) {
    && l.tcpOffset + 20 <= l.headerLen <= |ip|
    && l.headerLen == l.tcpOffset + TcpHeaderLenAt(ip, l.tcpOffset)
    && VersionOf(ip) == if l.isIpv6 then 6 else 4
  }

  function IpHeaderLenForTcp(ip: Packet): Result<nat, OffloadError>
    requires |ip| > 0
  {
    if VersionOf(ip) == 4 then
      var ihl := IhlBytes(ip);
      if ihl < 20 || |ip| < ihl || ip[9] != PROTO_TCP then Err(NotPlainTcp) else Ok(ihl)
    else if VersionOf(ip) == 6 then
      if |ip| < 40 || ip[6] != PROTO_TCP then Err(NotPlainTcp) else Ok(40)
    else Err(UnsupportedVersion)
  }

  function LayoutOf(offload: VirtioNetHdr, ip: Packet): (r: Result<Layout, OffloadError>)
    ensures r.Ok? ==> LayoutFits(r.value, ip) && offload.gsoSize > 0
  {
    if !offload.IsTcpGso() then Err(NotTcpGso)
    else if ip == [] then Err(EmptyPacket)
    else if VersionOf(ip) != 4 && VersionOf(ip) != 6 then Err(UnsupportedVersion)
    else if (VersionOf(ip) == 4) != (offload.NormalizedGsoType() == GSO_TCPV4) then Err(VersionGsoMismatch)
    else
      var tcpOffset: nat :- if offload.NeedsChecksum() then Ok(offload.csumStart) else IpHeaderLenForTcp(ip);
      if tcpOffset + 20 > |ip| then Err(InvalidTcpOffset)
      else
        var tcpHeaderLen := TcpHeaderLenAt(ip, tcpOffset);
        if tcpHeaderLen < 20 || tcpOffset + tcpHeaderLen > |ip| then Err(InvalidTcpHeaderLength)
        else Ok(Layout(VersionOf(ip) == 6, tcpOffset, tcpOffset + tcpHeaderLen))
  }

  /** Headers and chunk with the segment's sequence number and flags in place. */
  function Flagged(l: Layout, headers: Packet, chunk: Packet, seqNo: nat, last: bool): (r: Packet)
    requires l.tcpOffset + 20 <= l.headerLen == |headers| && seqNo < U32_LIMIT
    ensures |r| == |headers| + |chunk| && r[|headers|..] == chunk
    ensures U32At(r, l.tcpOffset + 4) == seqNo
    ensures r[l.tcpOffset + 13] == if last then headers[l.tcpOffset + 13] else ClearFinPsh(headers[l.tcpOffset + 13])
    ensures forall k :: 0 <= k < |headers| && !(l.tcpOffset + 4 <= k < l.tcpOffset + 8) && k != l.tcpOffset + 13
                        ==> r[k] == headers[k]
  {
    var raw := Splice(headers + chunk, l.tcpOffset + 4, Be32(seqNo));
    var r := if last then raw else raw[l.tcpOffset + 13 := ClearFinPsh(headers[l.tcpOffset + 13])];
    assert r[l.tcpOffset + 4..l.tcpOffset + 8] == Be32(seqNo) == Be32(seqNo)[0..4];
    assert r[|headers|..] == chunk;
    r
  }

  /** One segment: the headers, a payload chunk, and every field rewritten for it. */
  function SegmentOf(l: Layout, headers: Packet, chunk: Packet, seqNo: nat, last: bool): (r: Result<Packet, OffloadError>)
    requires l.tcpOffset + 20 <= l.headerLen == |headers| && seqNo < U32_LIMIT
    ensures r.Ok? ==> |r.value| == |headers| + |chunk|
  {
    var flagged := Flagged(l, headers, chunk, seqNo, last);
    var resized :- Resized(l.isIpv6, flagged, |flagged|);
    Ok(WithTcpChecksum(l.isIpv6, resized, l.tcpOffset))
  }

  function PayloadOf(l: Layout, ip: Packet): Packet
    requires l.headerLen <= |ip|
  {
    ip[l.headerLen..]
  }

  /** A payload cut every `n` bytes. */
  function Chunks(s: seq<byte>, n: nat): (cs: seq<seq<byte>>)
    requires n > 0
    ensures |cs| > 0
  {
    if |s| <= n then [s] else [s[..n]] + Chunks(s[n..], n)
  }

  /** One segment per chunk, the first at payload offset `offset`, up to the first that cannot be built. */
  function SegmentsOf(l: Layout, headers: Packet, offset: nat, cs: seq<seq<byte>>): Emission
    requires l.tcpOffset + 20 <= l.headerLen == |headers|
    decreases |cs|
  {
    if cs == [] then Emission([], None)
    else if offset >= U32_LIMIT then Emission([], Some(SequenceOffsetTooLarge))
    else
      match SegmentOf(l, headers, cs[0], SeqAt(l, headers, offset), |cs| == 1)
      case Err(e) => Emission([], Some(e))
      case Ok(segment) =>
        var rest := SegmentsOf(l, headers, offset + |cs[0]|, cs[1..]);
        Emission([segment] + rest.segments, rest.error)
  }

  function SeqAt(l: Layout, headers: Packet, offset: nat): (s: nat)
    requires l.tcpOffset + 8 <= |headers|
    ensures s < U32_LIMIT
  {
    (U32At(headers, l.tcpOffset + 4) + offset) % U32_LIMIT
  }

  /** A partial checksum at `index` completed over `p[start..]`. */
  function Completed(p: Packet, start: nat, index: nat): (r: Packet)
    requires start <= index && index + 2 <= |p|
    ensures |r| == |p|
  {
    Splice(p, index, Be16(Finalized(Wrap32(WordSum(p[start..])))))
  }

  function SegmentGso(offload: VirtioNetHdr, ip: Packet): Emission {
    match LayoutOf(offload, ip)
    case Err(e) => Emission([], Some(e))
    case Ok(l) =>
      if |PayloadOf(l, ip)| > offload.gsoSize then
        SegmentsOf(l, ip[..l.headerLen], 0, Chunks(PayloadOf(l, ip), offload.gsoSize))
      else if !offload.NeedsChecksum() then Emission([ip], None)
      else Emission([Completed(ip, l.tcpOffset, l.tcpOffset + 16)], None)
  }

  /** Where a checksum-only packet's sum starts and where its checksum goes. */
  function ChecksumOffload(offload: VirtioNetHdr, ip: Packet): (r: Result<Option<(nat, nat)>, OffloadError>)
    ensures r.Ok? && r.value.Some? ==> r.value.value.0 <= r.value.value.1 <= |ip| - 2
  {
    if offload.gsoType != GSO_NONE then Err(UnsupportedGso)
    else if ip == [] then Err(EmptyPacket)
    else if !offload.NeedsChecksum() then Ok(None)
    else if offload.flags / 4 != 0 then Err(UnsupportedFlags)
    else if offload.csumStart >= |ip| then Err(InvalidCsumStart)
    else
      var index: nat := offload.csumStart + offload.csumOffset;
      if index + 2 > |ip| then Err(InvalidCsumOffset) else Ok(Some((offload.csumStart, index)))
  }

  /** A checksum is completed exactly for NEEDS_CSUM, alone or with DATA_VALID, with its field inside the
      packet; a packet without NEEDS_CSUM passes; anything else is refused. */
  lemma ChecksumOffloadExactly(offload: VirtioNetHdr, ip: Packet, start: nat, index: nat)
    ensures ChecksumOffload(offload, ip) == Ok(Some((start, index))) <==>
            && offload.gsoType == GSO_NONE && offload.flags in {1, 3}
            && start == offload.csumStart && index == start + offload.csumOffset && index + 2 <= |ip|
    ensures ChecksumOffload(offload, ip) == Ok(None) <==> offload.gsoType == GSO_NONE && offload.flags % 2 == 0 && ip != []
  {
    assert offload.flags == 4 * (offload.flags / 4) + offload.flags % 4;
  }

  function Materialized(offload: VirtioNetHdr, ip: Packet): Emission {
    if offload.IsTcpGso() then SegmentGso(offload, ip)
    else if offload.gsoType != GSO_NONE then Emission([], Some(UnsupportedGso))
    else
      match ChecksumOffload(offload, ip)
      case Err(e) => Emission([], Some(e))
      case Ok(None) => Emission([ip], None)
      case Ok(Some(at)) => Emission([Completed(ip, at.0, at.1)], None)
  }

  // ---- The code, step by step ------------------------------------------------------------------

  method FinalizeChecksum(bytes: seq<byte>) returns (checksum: nat)
    ensures checksum == Finalized(Wrap32(WordSum(bytes)))
  {
    var sum := AddBytes(0, bytes);
    var folded := FoldChecksum(sum);
    checksum := ONES - folded;
  }

  /** Rewrites the IPv4 header that starts at `at` in the buffer; an error leaves the buffer alone. */
  method UpdateIpv4LengthsAndChecksum(buf: Buffer, at: nat, packetLen: nat) returns (r: Result<(), OffloadError>)
    requires at <= |buf.bytes|
    modifies buf
    ensures var out := Ipv4Resized(old(buf.bytes)[at..], packetLen);
            if out.Ok? then r == Ok(()) && buf.bytes == old(buf.bytes)[..at] + out.value
            else r == Err(out.error) && buf.bytes == old(buf.bytes)
  {
    var packet := buf.bytes[at..];
    if |packet| < 20 {
      return Err(Ipv4TooShort);
    }
    if packet[9] != PROTO_TCP {
      return Err(Ipv4NotTcp);
    }
    var ihl := IhlBytes(packet);
    if ihl < 20 || ihl > |packet| {
      return Err(InvalidIhl);
    }
    if packetLen >= U16_LIMIT {
      return Err(Ipv4TooLarge);
    }
    packet := Splice(packet, 2, Be16(packetLen));
    packet := Splice(packet, 10, [0, 0]);
    var checksum := FinalizeChecksum(packet[..ihl]);
    NoCarryLost(0, packet[..ihl]);
    packet := Splice(packet, 10, Be16(checksum));
    assert packet == WithIpv4Checksum(Splice(buf.bytes[at..], 2, Be16(packetLen)));
    buf.bytes := buf.bytes[..at] + packet;
    r := Ok(());
  }

  method UpdateIpv6PayloadLength(buf: Buffer, at: nat, packetLen: nat) returns (r: Result<(), OffloadError>)
    requires at <= |buf.bytes|
    modifies buf
    ensures var out := Ipv6Resized(old(buf.bytes)[at..], packetLen);
            if out.Ok? then r == Ok(()) && buf.bytes == old(buf.bytes)[..at] + out.value
            else r == Err(out.error) && buf.bytes == old(buf.bytes)
  {
    var packet := buf.bytes[at..];
    if |packet| < 40 || packetLen < 40 {
      return Err(Ipv6TooShort);
    }
    if packetLen - 40 >= U16_LIMIT {
      return Err(Ipv6TooLarge);
    }
    buf.bytes := buf.bytes[..at] + Splice(packet, 4, Be16(packetLen - 40));
    r := Ok(());
  }

  /** The checksum routines, over a packet whose checksum field has just been zeroed. */
  method TcpChecksumIpv4(packet: Packet, tcpOffset: nat) returns (r: Result<nat, OffloadError>)
    ensures r.Ok? <==> |packet| >= 20 && tcpOffset < |packet| < tcpOffset + U16_LIMIT
    ensures r.Ok? ==> r.value == Finalized(PseudoSum(false, packet, |packet| - tcpOffset) + WordSum(packet[tcpOffset..]))
  {
    hide WordSum, Folded;
    if |packet| < 20 || tcpOffset >= |packet| {
      return Err(InvalidChecksumOffset);
    }
    var tcpLen := |packet| - tcpOffset;
    if tcpLen >= U16_LIMIT {
      return Err(Ipv4TooLarge);
    }
    var sum := AddBytes(0, packet[12..20]);
    WordSumBound(packet[12..20]);
    NoCarryLost(0, packet[12..20]);
    sum := Wrap32(sum + PROTO_TCP);
    WrapSmall(WordSum(packet[12..20]) + PROTO_TCP);
    sum := Wrap32(sum + tcpLen);
    WrapSmall(PseudoSum(false, packet, tcpLen));
    sum := AddBytes(sum, packet[tcpOffset..]);
    NoCarryLost(PseudoSum(false, packet, tcpLen), packet[tcpOffset..]);
    var folded := FoldChecksum(sum);
    r := Ok(ONES - folded);
  }

  method TcpChecksumIpv6(packet: Packet, tcpOffset: nat) returns (r: Result<nat, OffloadError>)
    ensures r.Ok? <==> |packet| >= 40 && tcpOffset < |packet| < tcpOffset + U32_LIMIT
    ensures r.Ok? ==>
              r.value == Finalized(Wrap32(PseudoSum(true, packet, |packet| - tcpOffset) + WordSum(packet[tcpOffset..])))
  {
    hide WordSum, Folded;
    if |packet| < 40 || tcpOffset >= |packet| {
      return Err(InvalidChecksumOffset);
    }
    var tcpLen := |packet| - tcpOffset;
    if tcpLen >= U32_LIMIT {
      return Err(Ipv6TooLarge);
    }
    var sum := PseudoSumIpv6(packet, tcpLen);
    sum := AddBytes(sum, packet[tcpOffset..]);
    var folded := FoldChecksum(sum);
    r := Ok(ONES - folded);
  }

  method PseudoSumIpv6(packet: Packet, tcpLen: nat) returns (sum: nat)
    requires |packet| >= 40 && tcpLen < U32_LIMIT
    ensures sum == PseudoSum(true, packet, tcpLen) < U32_LIMIT
  {
    hide WordSum;
    ghost var addresses := WordSum(packet[8..40]);
    WordSumSplit(packet[8..40], 16);
    assert packet[8..40][..16] == packet[8..24] && packet[8..40][16..] == packet[24..40];
    WordSumBound(packet[8..40]);
    sum := AddBytes(0, packet[8..24]);
    WrapSmall(WordSum(packet[8..24]));
    sum := AddBytes(sum, packet[24..40]);
    WrapSmall(addresses);
    var hi, lo := tcpLen / U16_LIMIT, tcpLen % U16_LIMIT;
    sum := Wrap32(sum + hi);
    WrapSmall(addresses + hi);
    sum := Wrap32(sum + lo);
    WrapSmall(addresses + hi + lo);
    sum := Wrap32(sum + PROTO_TCP);
    WrapSmall(addresses + hi + lo + PROTO_TCP);
  }

  /** Recomputes the TCP checksum in place: zero the field, sum, store. The length update has already
      refused any packet the checksum routines would refuse. */
  method UpdateTcpChecksum(scratch: Buffer, l: Layout)
    requires l.tcpOffset + 20 <= |scratch.bytes|
    requires if l.isIpv6 then 40 <= |scratch.bytes| < 40 + U16_LIMIT else 20 <= |scratch.bytes| < U16_LIMIT
    modifies scratch
    ensures scratch.bytes == WithTcpChecksum(l.isIpv6, old(scratch.bytes), l.tcpOffset)
  {
    hide WordSum, Folded;
    ghost var was := scratch.bytes;
    scratch.bytes := Splice(scratch.bytes, l.tcpOffset + 16, [0, 0]);
    ghost var zeroed := scratch.bytes;
    var sum: Result<nat, OffloadError>;
    if l.isIpv6 {
      sum := TcpChecksumIpv6(scratch.bytes, l.tcpOffset);
      WordSumBound(zeroed[8..40]);
      NoCarryLost(PseudoSum(true, zeroed, |zeroed| - l.tcpOffset), zeroed[l.tcpOffset..]);
    } else {
      sum := TcpChecksumIpv4(scratch.bytes, l.tcpOffset);
    }
    var checksum := sum.value;
    assert checksum == TcpChecksum(l.isIpv6, was, l.tcpOffset);
    scratch.bytes := Splice(scratch.bytes, l.tcpOffset + 16, Be16(checksum));
    assert scratch.bytes == Splice(was, l.tcpOffset + 16, Be16(checksum));
  }

  /** Refills the scratch buffer with headers and chunk, and writes sequence number and flags into it. */
  method PutFlagged(scratch: Buffer, l: Layout, headers: Packet, chunk: Packet, seqNo: nat, last: bool)
    requires l.tcpOffset + 20 <= l.headerLen == |headers| && seqNo < U32_LIMIT
    modifies scratch
    ensures scratch.bytes == Flagged(l, headers, chunk, seqNo, last)
  {
    hide U32At, Be32, ClearFinPsh, Splice;
    scratch.bytes := [];
    scratch.bytes := scratch.bytes + headers;
    scratch.bytes := scratch.bytes + chunk;
    assert scratch.bytes == headers + chunk;
    scratch.bytes := Splice(scratch.bytes, l.tcpOffset + 4, Be32(seqNo));
    if !last {
      scratch.bytes := scratch.bytes[l.tcpOffset + 13 := ClearFinPsh(headers[l.tcpOffset + 13])];
    }
  }

  /** The body of the segmentation loop: one segment built in the reused scratch buffer. */
  method BuildSegment(scratch: Buffer, l: Layout, headers: Packet, chunk: Packet, seqNo: nat, last: bool)
    returns (r: Result<(), OffloadError>)
    requires l.tcpOffset + 20 <= l.headerLen == |headers| && seqNo < U32_LIMIT
    modifies scratch
    ensures var out := SegmentOf(l, headers, chunk, seqNo, last);
            if out.Ok? then r == Ok(()) && scratch.bytes == out.value else r == Err(out.error)
  {
    hide WithTcpChecksum, Ipv4Resized, Ipv6Resized, Flagged;
    PutFlagged(scratch, l, headers, chunk, seqNo, last);
    ghost var flagged := scratch.bytes;
    assert flagged[0..] == flagged;
    if l.isIpv6 {
      var _ :- UpdateIpv6PayloadLength(scratch, 0, |headers| + |chunk|);
    } else {
      var _ :- UpdateIpv4LengthsAndChecksum(scratch, 0, |headers| + |chunk|);
    }
    assert scratch.bytes == Resized(l.isIpv6, flagged, |flagged|).value;
    ResizedFits(l.isIpv6, flagged);
    UpdateTcpChecksum(scratch, l);
    r := Ok(());
  }

  /** The chunks still to send when the loop stands at `offset`. */
  function RemainingChunks(payload: Packet, n: nat, offset: nat): seq<seq<byte>>
    requires n > 0
  {
    if offset < |payload| then Chunks(payload[offset..], n) else []
  }

  lemma NextChunk(payload: Packet, n: nat, offset: nat)
    requires n > 0 && offset < |payload|
    ensures var cs := RemainingChunks(payload, n, offset);
            var end := Min(offset + n, |payload|);
            && cs[0] == payload[offset..end]
            && (|cs| == 1 <==> end == |payload|)
            && cs[1..] == RemainingChunks(payload, n, end)
            && RemainingChunks(payload, n, end) == RemainingChunks(payload, n, offset + n)
  {
    if |payload| - offset > n {
      assert payload[offset..][..n] == payload[offset..offset + n];
      assert payload[offset..][n..] == payload[offset + n..];
    }
  }

  /** What the loop still owes when it stands at `offset`. */
  function Owed(l: Layout, headers: Packet, payload: Packet, n: nat, offset: nat): Emission
    requires l.tcpOffset + 20 <= l.headerLen == |headers| && n > 0
  {
    SegmentsOf(l, headers, offset, RemainingChunks(payload, n, offset))
  }

  lemma OwedStep(l: Layout, headers: Packet, payload: Packet, n: nat, offset: nat)
    requires l.tcpOffset + 20 <= l.headerLen == |headers| && n > 0
    ensures offset >= |payload| ==> Owed(l, headers, payload, n, offset) == Emission([], None)
    ensures U32_LIMIT <= offset < |payload| ==>
              Owed(l, headers, payload, n, offset) == Emission([], Some(SequenceOffsetTooLarge))
    ensures offset < |payload| && offset < U32_LIMIT ==>
            var end := Min(offset + n, |payload|);
            var owed := Owed(l, headers, payload, n, offset);
            var rest := Owed(l, headers, payload, n, offset + n);
            match SegmentOf(l, headers, payload[offset..end], SeqAt(l, headers, offset), end == |payload|)
            case Err(e) => owed == Emission([], Some(e))
            case Ok(segment) => owed == Emission([segment] + rest.segments, rest.error)
  {
    hide SegmentOf, SeqAt, Chunks;
    if offset < |payload| {
      NextChunk(payload, n, offset);
      var end := Min(offset + n, |payload|);
      assert Owed(l, headers, payload, n, end) == Owed(l, headers, payload, n, offset + n);
    }
  }

  lemma Reassociate(done: seq<Packet>, segment: Packet, rest: seq<Packet>)
    ensures done + ([segment] + rest) == (done + [segment]) + rest
  {
  }

  /** The segmentation loop. */
  method SegmentChunks(l: Layout, ip: Packet, n: nat, scratch: Buffer, sink: Sink)
    returns (r: Result<(), OffloadError>)
    requires l.tcpOffset + 20 <= l.headerLen < |ip| && n > 0
    modifies scratch, sink
    ensures Delivered(old(sink.emitted), old(sink.room), Owed(l, ip[..l.headerLen], PayloadOf(l, ip), n, 0), sink.emitted, r)
  {
    hide SegmentOf, Owed, SeqAt;
    var headers, payload := ip[..l.headerLen], PayloadOf(l, ip);
    var offset := 0;
    ghost var done: seq<Packet>, left := [], Owed(l, headers, payload, n, 0);
    ghost var all := left;
    while offset < |payload|
      invariant 0 <= offset
      invariant left == Owed(l, headers, payload, n, offset)
      invariant all.segments == done + left.segments && all.error == left.error
      invariant sink.emitted == old(sink.emitted) + done
      invariant old(sink.room).None? <==> sink.room.None?
      invariant sink.room.Some? ==> sink.room.value + |done| == old(sink.room).value
    {
      OwedStep(l, headers, payload, n, offset);
      if offset >= U32_LIMIT {
        return Err(SequenceOffsetTooLarge);
      }
      var end := Min(offset + n, |payload|);
      var _ :- BuildSegment(scratch, l, headers, payload[offset..end], SeqAt(l, headers, offset), end == |payload|);
      ghost var rest := Owed(l, headers, payload, n, offset + n);
      Reassociate(done, scratch.bytes, rest.segments);
      r := sink.Emit(scratch.bytes);
      if r.Err? {
        return;
      }
      done, left := done + [scratch.bytes], rest;
      offset := offset + n;
    }
    OwedStep(l, headers, payload, n, offset);
    r := Ok(());
  }

  /** Segments a super-frame into `sink`, building each segment in `scratch`. */
  method SegmentTcpGsoInto(offload: VirtioNetHdr, ip: Packet, scratch: Buffer, sink: Sink)
    returns (r: Result<(), OffloadError>)
    modifies scratch, sink
    ensures Delivered(old(sink.emitted), old(sink.room), SegmentGso(offload, ip), sink.emitted, r)
  {
    var l :- LayoutOf(offload, ip);
    if |PayloadOf(l, ip)| > offload.gsoSize {
      assert PayloadOf(l, ip)[0..] == PayloadOf(l, ip);
      r := SegmentChunks(l, ip, offload.gsoSize, scratch, sink);
      return;
    }
    if !offload.NeedsChecksum() {
      r := sink.Emit(ip);
      return;
    }
    scratch.bytes := ip;
    var checksum := FinalizeChecksum(scratch.bytes[l.tcpOffset..]);
    scratch.bytes := Splice(scratch.bytes, l.tcpOffset + 16, Be16(checksum));
    r := sink.Emit(scratch.bytes);
  }

  /** Turns any offload metadata into plain packets. */
  method MaterializeOffloadInto(offload: VirtioNetHdr, ip: Packet, scratch: Buffer, sink: Sink)
    returns (r: Result<(), OffloadError>)
    modifies scratch, sink
    ensures Delivered(old(sink.emitted), old(sink.room), Materialized(offload, ip), sink.emitted, r)
  {
    if offload.IsTcpGso() {
      r := SegmentTcpGsoInto(offload, ip, scratch, sink);
      return;
    }
    if offload.gsoType != GSO_NONE {
      return Err(UnsupportedGso);
    }
    var target :- ChecksumOffload(offload, ip);
    if target.None? {
      r := sink.Emit(ip);
      return;
    }
    var (start, index) := target.value;
    scratch.bytes := ip;
    var checksum := FinalizeChecksum(scratch.bytes[start..]);
    scratch.bytes := Splice(scratch.bytes, index, Be16(checksum));
    r := sink.Emit(scratch.bytes);
  }
}
