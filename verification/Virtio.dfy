/**
 The 10-byte `virtio_net_hdr` of section 5.1.6 of the virtio specification, and the TUN frames
 that carry it in front of an IP packet when `IFF_VNET_HDR` is on.
 */
module Virtio {
  import opened Wrappers
  import opened Bytes

  const VIRTIO_NET_HDR_LEN: nat := 10
  const NEEDS_CSUM: byte := 1
  const GSO_NONE: byte := 0
  const GSO_TCPV4: byte := 1
  const GSO_TCPV6: byte := 4

  datatype VirtioNetHdr = VirtioNetHdr(
    flags: byte, gsoType: byte, hdrLen: u16, gsoSize: u16, csumStart: u16, csumOffset: u16, numBuffers: u16)
  {
    /** The GSO type without its ECN bit (0x80). */
    function NormalizedGsoType(): byte {
      gsoType % 128
    }

    predicate IsTcpGso() {
      NormalizedGsoType() in {GSO_TCPV4, GSO_TCPV6} && gsoSize != 0
    }

    predicate NeedsChecksum() {
      flags % 2 != 0
    }

    /** Metadata worth keeping on a frame that carries no segmentation offload. */
    predicate HasChecksumMetadata() {
      flags != 0 || csumStart != 0 || csumOffset != 0
    }
  }

  const PLAIN_HDR := VirtioNetHdr(0, 0, 0, 0, 0, 0, 0)

  function Le16(v: u16): seq<byte> {
    [v % 256, v / 256]
  }

  function Le16At(s: seq<byte>, i: nat): u16
    requires i + 2 <= |s|
  {
    Word(s[i + 1], s[i])
  }

  function ToBytes(h: VirtioNetHdr): (r: seq<byte>)
    ensures |r| == VIRTIO_NET_HDR_LEN
  {
    [h.flags, h.gsoType] + Le16(h.hdrLen) + Le16(h.gsoSize) + Le16(h.csumStart) + Le16(h.csumOffset)
  }

  function FromBytes(s: seq<byte>): Option<VirtioNetHdr> {
    if |s| != VIRTIO_NET_HDR_LEN then None
    else Some(VirtioNetHdr(s[0], s[1], Le16At(s, 2), Le16At(s, 4), Le16At(s, 6), Le16At(s, 8), 0))
  }

  /** Where each field lies, low byte first. */
  lemma HeaderLayout(h: VirtioNetHdr)
    ensures var b := ToBytes(h);
            && |b| == 10 && b[0] == h.flags && b[1] == h.gsoType
            && b[2] + 256 * (b[3] as int) == h.hdrLen && b[4] + 256 * (b[5] as int) == h.gsoSize
            && b[6] + 256 * (b[7] as int) == h.csumStart && b[8] + 256 * (b[9] as int) == h.csumOffset
  {
    var b := ToBytes(h);
    assert b[2..4] == Le16(h.hdrLen) && b[4..6] == Le16(h.gsoSize);
    assert b[6..8] == Le16(h.csumStart) && b[8..10] == Le16(h.csumOffset);
  }

  /** TCP segmentation is type 1 or 4, with or without the ECN bit, and a segment size. */
  lemma TcpGsoExactly(h: VirtioNetHdr)
    ensures h.IsTcpGso() <==> h.gsoType in {1, 4, 0x81, 0x84} && h.gsoSize > 0
    ensures h.IsTcpGso() ==> (h.NormalizedGsoType() == GSO_TCPV4 <==> h.gsoType in {1, 0x81})
    ensures h.NeedsChecksum() <==> h.flags % 2 == 1
  {
    assert h.gsoType == h.gsoType / 128 * 128 + h.gsoType % 128;
  }

  /** Parsing inverts serializing, except for `num_buffers`, which the 10-byte form cannot hold. */
  lemma HeaderRoundTrip(h: VirtioNetHdr)
    ensures FromBytes(ToBytes(h)) == Some(h.(numBuffers := 0))
  {
    var b := ToBytes(h);
    assert Le16At(b, 2) == h.hdrLen && Le16At(b, 4) == h.gsoSize;
    assert Le16At(b, 6) == h.csumStart && Le16At(b, 8) == h.csumOffset;
  }

  lemma BytesRoundTrip(s: seq<byte>)
    requires |s| == VIRTIO_NET_HDR_LEN
    ensures ToBytes(FromBytes(s).value) == s
  {
    hide Le16, Le16At;
    Le16RoundTrip(s, 2);
    Le16RoundTrip(s, 4);
    Le16RoundTrip(s, 6);
    Le16RoundTrip(s, 8);
    assert s == [s[0], s[1]] + s[2..4] + s[4..6] + s[6..8] + s[8..10];
  }

  lemma Le16RoundTrip(s: seq<byte>, i: nat)
    requires i + 2 <= |s|
    ensures Le16(Le16At(s, i)) == s[i..i + 2]
  {
    WordDigits(s[i + 1], s[i]);
  }

  datatype FrameError =
    | ZeroLengthFrame
    | ShorterThanHeader
    | EmptyIpPayload
    | UnsupportedGsoType(gsoType: byte)
    | OffloadWithoutVnetHeaders

  datatype TunFrame = TunFrame(offload: Option<VirtioNetHdr>, packet: Packet)

  function SplitTunFrame(frame: Packet, vnetHdrEnabled: bool): Result<TunFrame, FrameError> {
    if !vnetHdrEnabled then
      if frame == [] then Err(ZeroLengthFrame) else Ok(TunFrame(None, frame))
    else if |frame| < VIRTIO_NET_HDR_LEN then Err(ShorterThanHeader)
    else
      var h := FromBytes(frame[..VIRTIO_NET_HDR_LEN]).value;
      var packet := frame[VIRTIO_NET_HDR_LEN..];
      if packet == [] then Err(EmptyIpPayload)
      else if h.gsoType == GSO_NONE then
        Ok(TunFrame(if h.HasChecksumMetadata() then Some(h) else None, packet))
      else if h.IsTcpGso() then Ok(TunFrame(Some(h), packet))
      else Err(UnsupportedGsoType(h.gsoType))
  }

  function Composed(vnetHdrEnabled: bool, offload: Option<VirtioNetHdr>, packet: Packet): (r: Result<Packet, FrameError>)
    ensures r.Ok? && vnetHdrEnabled ==>
              && |r.value| == VIRTIO_NET_HDR_LEN + |packet|
              && r.value[..VIRTIO_NET_HDR_LEN] == ToBytes(if offload.Some? then offload.value else PLAIN_HDR)
              && r.value[VIRTIO_NET_HDR_LEN..] == packet
  {
    if packet == [] then Err(EmptyIpPayload)
    else if !vnetHdrEnabled && offload.Some? then Err(OffloadWithoutVnetHeaders)
    else if !vnetHdrEnabled then Ok(packet)
    else Ok(ToBytes(if offload.Some? then offload.value else PLAIN_HDR) + packet)
  }

  /** A frame is the packet itself, or ten bytes, all zero without metadata, and the packet; only an empty
      packet, or metadata where there is no header for it, cannot be framed. */
  lemma ComposesExactly(vnet: bool, offload: Option<VirtioNetHdr>, packet: Packet)
    ensures Composed(vnet, offload, packet).Ok? <==> packet != [] && (vnet || offload.None?)
    ensures packet != [] && !vnet && offload.None? ==> Composed(vnet, offload, packet) == Ok(packet)
    ensures packet != [] && vnet && offload.None? ==> Composed(vnet, offload, packet) == Ok([0, 0, 0, 0, 0, 0, 0, 0, 0, 0] + packet)
    ensures packet != [] && vnet && offload.Some? ==> Composed(vnet, offload, packet) == Ok(ToBytes(offload.value) + packet)
  {
    assert ToBytes(PLAIN_HDR) == [0, 0, 0, 0, 0, 0, 0, 0, 0, 0];
  }

  method ComposeTunFrame(out: Buffer, vnetHdrEnabled: bool, offload: Option<VirtioNetHdr>, packet: Packet)
    returns (r: Result<(), FrameError>)
    modifies out
    ensures r.Ok? <==> Composed(vnetHdrEnabled, offload, packet).Ok?
    ensures r.Ok? ==> out.bytes == Composed(vnetHdrEnabled, offload, packet).value
    ensures r.Err? ==> r.error == Composed(vnetHdrEnabled, offload, packet).error && out.bytes == old(out.bytes)
  {
    if packet == [] {
      return Err(EmptyIpPayload);
    }
    if !vnetHdrEnabled && offload.Some? {
      return Err(OffloadWithoutVnetHeaders);
    }
    out.bytes := [];
    if vnetHdrEnabled {
      var header := ToBytes(match offload case Some(h) => h case None => PLAIN_HDR);
      out.bytes := out.bytes + header;
    }
    out.bytes := out.bytes + packet;
    r := Ok(());
  }

  /**
   Splitting inverts composing. Metadata comes back as written, up to `num_buffers`; it vanishes
   exactly when it says nothing, and is refused exactly when its GSO type is unsupported.
   */
  lemma SplitInvertsCompose(vnet: bool, offload: Option<VirtioNetHdr>, packet: Packet)
    requires Composed(vnet, offload, packet).Ok?
    ensures var frame := Composed(vnet, offload, packet).value;
            SplitTunFrame(frame, vnet) ==
            if offload.None? then Ok(TunFrame(None, packet))
            else
              var h := offload.value;
              if h.gsoType == 0 && h.flags == 0 && h.csumStart == 0 && h.csumOffset == 0 then Ok(TunFrame(None, packet))
              else if h.gsoType != 0 && !(h.gsoType in {1, 4, 0x81, 0x84} && h.gsoSize > 0) then Err(UnsupportedGsoType(h.gsoType))
              else Ok(TunFrame(Some(h.(numBuffers := 0)), packet))
  {
    if offload.Some? {
      TcpGsoExactly(offload.value);
    }
    if vnet {
      var h := if offload.Some? then offload.value else PLAIN_HDR;
      var frame := ToBytes(h) + packet;
      assert frame[..VIRTIO_NET_HDR_LEN] == ToBytes(h);
      assert frame[VIRTIO_NET_HDR_LEN..] == packet;
      HeaderRoundTrip(h);
    }
  }

  /** Every frame longer than its header is a composed one; a shorter one is refused. */
  lemma SplitsEveryFrame(frame: Packet, vnet: bool)
    ensures |frame| <= (if vnet then 10 else 0) ==> SplitTunFrame(frame, vnet).Err?
    ensures vnet && |frame| > 10 ==> exists h :: frame == ToBytes(h) + frame[10..] && Composed(vnet, Some(h), frame[10..]) == Ok(frame)
    ensures !vnet && |frame| > 0 ==> Composed(vnet, None, frame) == Ok(frame)
  {
    if vnet && |frame| > 10 {
      BytesRoundTrip(frame[..10]);
      var h := FromBytes(frame[..10]).value;
      assert frame == frame[..10] + frame[10..];
      ComposesExactly(vnet, Some(h), frame[10..]);
    }
  }
}
