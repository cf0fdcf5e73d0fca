/** What segmentation and checksum completion preserve. */
module SegmentTheorems {
  import opened Wrappers
  import opened Bytes
  import opened Checksum
  import opened Virtio
  import opened Segmenter

  // ---- Partial checksums -----------------------------------------------------------------------

  /** A word stored across an odd boundary enters the sum with its bytes swapped. */
  lemma {:induction false} WordSumOddField(s: seq<byte>, i: nat)
    requires i + 2 <= |s| && i % 2 == 1
    ensures WordSum(s) == WordSum(Splice(s, i, [0, 0])) + Word(s[i + 1], s[i])
  {
    var z := Splice(s, i, [0, 0]);
    if i == 1 {
      if |s| > 3 {
        assert z[2..][2..] == s[2..][2..];
      }
    } else {
      WordSumOddField(s[2..], i - 2);
      assert z[2..] == Splice(s[2..], i - 2, [0, 0]);
    }
  }

  lemma SwappedWordsFoldApart(rest: nat, hi: byte, lo: byte)
    ensures Folded(rest + Word(lo, hi)) == Folded(rest + Word(hi, lo)) <==> hi == lo
  {
    if Folded(rest + Word(lo, hi)) == Folded(rest + Word(hi, lo)) {
      FoldedEquality(rest + Word(lo, hi), rest + Word(hi, lo));
    }
  }

  /**
   Completing a partial checksum whose field holds the folded pseudo-header sum stores exactly the
   full checksum computed from a zeroed field, for every packet of up to 64 KiB, if and only if the
   field lies at an even `csum_offset` or holds two equal bytes.
   */
  lemma CompletionIsExact(p: Packet, start: nat, index: nat, pseudo: nat)
    requires start <= index && index + 2 <= |p| <= start + U16_LIMIT
    requires U16At(p, index) == Folded(pseudo)
    ensures var full := Finalized(pseudo + WordSum(Splice(p, index, [0, 0])[start..]));
            Completed(p, start, index) == Splice(p, index, Be16(full))
            <==> (index - start) % 2 == 0 || p[index] == p[index + 1]
  {
    hide WordSum, Folded;
    var s, z := p[start..], Splice(p, index, [0, 0])[start..];
    var i := index - start;
    assert z == Splice(s, i, [0, 0]);
    NoCarryLost(0, s);
    var rest := WordSum(z);
    FoldedAdds(rest, pseudo);
    var stored, full := Finalized(WordSum(s)), Finalized(pseudo + rest);
    if i % 2 == 0 {
      WordSumStore(s, i, [0, 0]);
      assert U16At([0, 0], 0) == 0;
    } else {
      WordSumOddField(s, i);
      SwappedWordsFoldApart(rest, p[index], p[index + 1]);
    }
    SpliceInjective(p, index, stored, full);
  }

  lemma SpliceInjective(p: Packet, i: nat, v: nat, w: nat)
    requires i + 2 <= |p| && v < U16_LIMIT && w < U16_LIMIT
    ensures Splice(p, i, Be16(v)) == Splice(p, i, Be16(w)) <==> v == w
  {
    if Splice(p, i, Be16(v)) == Splice(p, i, Be16(w)) {
      assert U16At(Splice(p, i, Be16(v)), i) == v;
      assert U16At(Splice(p, i, Be16(w)), i) == w;
    }
  }

  // ---- Checksums that verify -------------------------------------------------------------------

  /** What a receiver checks: pseudo-header and segment, summed as one string, fold to all ones. */
  ghost predicate TcpChecksumOk(isIpv6: bool, p: Packet, tcpOffset: nat)
    requires |p| >= (if isIpv6 then 40 else 20) && tcpOffset <= |p|
  {
    && |p| - tcpOffset < (if isIpv6 then U32_LIMIT else U16_LIMIT)
    && Folded(WordSum(PseudoHeader(isIpv6, p, |p| - tcpOffset) + p[tcpOffset..])) == 0xFFFF
  }

  ghost predicate Ipv4HeaderOk(p: Packet)
    requires |p| >= 20 && IhlBytes(p) <= |p|
  {
    Folded(WordSum(p[..p[0] % 16 * 4])) == 0xFFFF
  }

  lemma ZeroField(s: seq<byte>, i: nat)
    requires i + 2 <= |s| && s[i] == s[i + 1] == 0
    ensures U16At(s, i) == 0
  {
  }

  lemma StoredTcpChecksumVerifies(isIpv6: bool, p: Packet, tcpOffset: nat)
    requires (if isIpv6 then 40 else 20) <= tcpOffset && tcpOffset + 20 <= |p|
    requires |p| - tcpOffset < if isIpv6 then U32_LIMIT else U16_LIMIT
    ensures TcpChecksumOk(isIpv6, WithTcpChecksum(isIpv6, p, tcpOffset), tcpOffset)
  {
    hide WordSum, Folded, PseudoSum, PseudoHeader, Be16, U16At;
    var z := Splice(p, tcpOffset + 16, [0, 0]);
    var r := WithTcpChecksum(isIpv6, p, tcpOffset);
    var c := TcpChecksum(isIpv6, p, tcpOffset);
    WordSumStore(z[tcpOffset..], 16, Be16(c));
    assert r[tcpOffset..] == Splice(z[tcpOffset..], 16, Be16(c));
    ZeroField(z[tcpOffset..], 16);
    SamePseudoSum(isIpv6, r, z, |z| - tcpOffset);
    PseudoSumIsHeader(isIpv6, r, |r| - tcpOffset, r[tcpOffset..]);
    Verifies(PseudoSum(isIpv6, z, |z| - tcpOffset) + WordSum(z[tcpOffset..]));
  }

  lemma StoredIpv4ChecksumVerifies(p: Packet)
    requires |p| >= 20 && 20 <= IhlBytes(p) <= |p|
    ensures Ipv4HeaderOk(WithIpv4Checksum(p))
  {
    hide WordSum, Folded, Be16, U16At;
    var n := IhlBytes(p);
    assert WithIpv4Checksum(p)[0] == p[0];
    var z := Splice(p, 10, [0, 0])[..n];
    var c := Finalized(WordSum(z));
    WordSumStore(z, 10, Be16(c));
    assert WithIpv4Checksum(p)[..n] == Splice(z, 10, Be16(c));
    ZeroField(z, 10);
    Verifies(WordSum(z));
  }

  // ---- One segment -----------------------------------------------------------------------------

  /** The TCP header lies at or past the end of the IP header. */
  ghost predicate TcpPastIp(l: Layout, headers: Packet)
    requires |headers| > 0
  {
    if l.isIpv6 then l.tcpOffset >= 40 else l.tcpOffset >= 20 && l.tcpOffset >= IhlBytes(headers)
  }

  /** Header bytes a segment owns: IP length and checksum, sequence number, flags, TCP checksum. */
  predicate Rewritten(l: Layout, k: nat) {
    || l.tcpOffset + 4 <= k < l.tcpOffset + 8
    || k == l.tcpOffset + 13
    || l.tcpOffset + 16 <= k < l.tcpOffset + 18
    || IpField(l, k)
  }

  predicate IpField(l: Layout, k: nat) {
    if l.isIpv6 then 4 <= k < 6 else 2 <= k < 4 || 10 <= k < 12
  }

  ghost predicate IpLengthOk(l: Layout, p: Packet)
    requires |p| >= if l.isIpv6 then 40 else 20
  {
    if l.isIpv6 then U16At(p, 4) == |p| - 40 else U16At(p, 2) == |p|
  }

  /** `segment` is what a receiver expects of `chunk` sent under `headers` at sequence number `seqNo`. */
  ghost predicate Faithful(l: Layout, headers: Packet, chunk: Packet, seqNo: nat, last: bool, segment: Packet)
    requires l.tcpOffset + 20 <= l.headerLen == |headers|
    requires |headers| >= if l.isIpv6 then 40 else 20
  {
    && |segment| == |headers| + |chunk|
    && segment[|headers|..] == chunk
    && U32At(segment, l.tcpOffset + 4) == seqNo
    && segment[l.tcpOffset + 13] == (if last then headers[l.tcpOffset + 13] else ClearFinPsh(headers[l.tcpOffset + 13]))
    && (forall k :: 0 <= k < |headers| && !Rewritten(l, k) ==> segment[k] == headers[k])
    && IpLengthOk(l, segment)
    && (!l.isIpv6 ==> IhlBytes(segment) <= |segment| && Ipv4HeaderOk(segment))
    && TcpChecksumOk(l.isIpv6, segment, l.tcpOffset)
  }

  /** The byte of a segment that the length update takes for the IPv4 protocol: a `csum_start` of 2 to 5
      lays the sequence number over it. */
  function ProtocolByte(l: Layout, headers: Packet, seqNo: nat): byte
    requires |headers| >= 20 && seqNo < U32_LIMIT
  {
    if 2 <= l.tcpOffset <= 5 then Be32(seqNo)[5 - l.tcpOffset] else headers[9]
  }

  /** Which segments the length update accepts, in terms of headers, number and size. */
  predicate Buildable(l: Layout, headers: Packet, seqNo: nat, chunkLen: nat)
    requires |headers| >= 20 && seqNo < U32_LIMIT
  {
    var total := |headers| + chunkLen;
    if l.isIpv6 then 40 <= total < 40 + U16_LIMIT
    else ProtocolByte(l, headers, seqNo) == PROTO_TCP && 20 <= IhlBytes(headers) <= total < U16_LIMIT
  }

  lemma SegmentBuilds(l: Layout, headers: Packet, chunk: Packet, seqNo: nat, last: bool)
    requires l.tcpOffset + 20 <= l.headerLen == |headers| && seqNo < U32_LIMIT
    ensures SegmentOf(l, headers, chunk, seqNo, last).Ok? <==> Buildable(l, headers, seqNo, |chunk|)
  {
    hide WithIpv4Checksum, WithTcpChecksum, Be32, U32At, ClearFinPsh, Flagged;
    NumberOverlay(l, headers, chunk, seqNo, last);
  }

  lemma NumberOverlay(l: Layout, headers: Packet, chunk: Packet, seqNo: nat, last: bool)
    requires l.tcpOffset + 20 <= l.headerLen == |headers| && seqNo < U32_LIMIT
    ensures Flagged(l, headers, chunk, seqNo, last)[9] == ProtocolByte(l, headers, seqNo)
  {
    hide Be32, U32At, ClearFinPsh;
  }

  lemma ResizedKeeps(l: Layout, p: Packet)
    requires Resized(l.isIpv6, p, |p|).Ok?
    ensures var r := Resized(l.isIpv6, p, |p|).value;
            && |r| == |p| >= (if l.isIpv6 then 40 else 20)
            && IpLengthOk(l, r)
            && (forall k :: 0 <= k < |p| && !IpField(l, k) ==> r[k] == p[k])
            && (!l.isIpv6 ==> 20 <= IhlBytes(r) == IhlBytes(p) <= |p| && Ipv4HeaderOk(r))
  {
    hide WordSum, Folded;
    if !l.isIpv6 {
      StoredIpv4ChecksumVerifies(Splice(p, 2, Be16(|p|)));
    }
  }

  lemma SegmentIsFaithful(l: Layout, headers: Packet, chunk: Packet, seqNo: nat, last: bool)
    requires l.tcpOffset + 20 <= l.headerLen == |headers| && seqNo < U32_LIMIT
    requires TcpPastIp(l, headers)
    requires SegmentOf(l, headers, chunk, seqNo, last).Ok?
    ensures |headers| >= if l.isIpv6 then 40 else 20
    ensures Faithful(l, headers, chunk, seqNo, last, SegmentOf(l, headers, chunk, seqNo, last).value)
  {
    hide Resized, WithTcpChecksum, Flagged, U32At, ClearFinPsh, TcpChecksumOk, Ipv4HeaderOk;
    var flagged := Flagged(l, headers, chunk, seqNo, last);
    ResizedKeeps(l, flagged);
    ResizedFits(l.isIpv6, flagged);
    StoredChecksumKeeps(l, Resized(l.isIpv6, flagged, |flagged|).value);
    U32Same(SegmentOf(l, headers, chunk, seqNo, last).value, l.tcpOffset + 4, flagged, l.tcpOffset + 4);
  }

  lemma StoredChecksumKeeps(l: Layout, p: Packet)
    requires (if l.isIpv6 then 40 else 20) <= l.tcpOffset && l.tcpOffset + 20 <= |p|
    requires |p| - l.tcpOffset < if l.isIpv6 then U32_LIMIT else U16_LIMIT
    ensures var r := WithTcpChecksum(l.isIpv6, p, l.tcpOffset);
            && |r| == |p| && SameOutside(r, p, l.tcpOffset + 16, 2)
            && (IhlBytes(p) <= l.tcpOffset && Ipv4HeaderOk(p) ==> Ipv4HeaderOk(r))
            && TcpChecksumOk(l.isIpv6, r, l.tcpOffset)
  {
    hide WordSum, Folded, TcpChecksum;
    var r := WithTcpChecksum(l.isIpv6, p, l.tcpOffset);
    StoredTcpChecksumVerifies(l.isIpv6, p, l.tcpOffset);
    if IhlBytes(p) <= l.tcpOffset {
      assert r[..IhlBytes(r)] == p[..IhlBytes(p)];
    }
  }

  // ---- Whole super-frames ----------------------------------------------------------------------

  /** Non-empty chunks, every one but the last exactly `n` bytes and the last no longer. */
  ghost predicate Uniform(cs: seq<seq<byte>>, n: nat) {
    && |cs| > 0
    && 0 < |cs[|cs| - 1]| <= n
    && forall k :: 0 <= k < |cs| - 1 ==> |cs[k]| == n
  }

  lemma {:induction false} ChunksCut(s: seq<byte>, n: nat)
    requires 0 < n && 0 < |s|
    ensures Concat(Chunks(s, n)) == s
    ensures Uniform(Chunks(s, n), n)
  {
    if |s| > n {
      ChunksCut(s[n..], n);
      assert s == s[..n] + s[n..];
    }
  }

  lemma {:induction false} UniformAreChunks(cs: seq<seq<byte>>, n: nat)
    requires Uniform(cs, n)
    ensures Chunks(Concat(cs), n) == cs
    ensures |Concat(cs)| > 0
  {
    if |cs| > 1 {
      UniformAreChunks(cs[1..], n);
      var s := Concat(cs);
      assert s[..n] == cs[0] && s[n..] == Concat(cs[1..]);
    } else {
      assert Concat(cs) == cs[0];
    }
  }

  lemma UniformHead(cs: seq<seq<byte>>, n: nat)
    requires Uniform(cs, n)
    ensures Concat(cs) == cs[0] + Concat(cs[1..]) && 0 < |cs[0]| <= n
    ensures |cs| > 1 ==> |cs[0]| == n && Uniform(cs[1..], n) && cs[1..][|cs| - 2] == cs[|cs| - 1]
  {
  }

  ghost predicate IsSegment(l: Layout, headers: Packet, offset: nat, chunk: Packet, last: bool, segment: Packet)
    requires l.tcpOffset + 20 <= l.headerLen == |headers|
  {
    SegmentOf(l, headers, chunk, SeqAt(l, headers, offset), last) == Ok(segment)
  }

  /** `segments` are built from the first chunks of `cs`, the first of them at payload offset `offset`. */
  ghost predicate BuiltFrom(l: Layout, headers: Packet, offset: nat, cs: seq<seq<byte>>, segments: seq<Packet>)
    requires l.tcpOffset + 20 <= l.headerLen == |headers|
    decreases |segments|
  {
    segments != [] ==>
      && cs != []
      && IsSegment(l, headers, offset, cs[0], |cs| == 1, segments[0])
      && BuiltFrom(l, headers, offset + |cs[0]|, cs[1..], segments[1..])
  }

  /** The segment of chunk `k` builds, the first chunk lying at payload offset `offset`. */
  ghost predicate BuildsAt(l: Layout, headers: Packet, offset: nat, cs: seq<seq<byte>>, n: nat, k: nat)
    requires l.tcpOffset + 20 <= l.headerLen == |headers| && k < |cs|
  {
    var at := offset + k * n;
    at < U32_LIMIT && Buildable(l, headers, SeqAt(l, headers, at), |cs[k]|)
  }

  /** One segment per chunk up to the first chunk that does not build, where the error comes. */
  ghost predicate BuiltAsExpected(l: Layout, headers: Packet, offset: nat, cs: seq<seq<byte>>, n: nat, e: Emission)
    requires l.tcpOffset + 20 <= l.headerLen == |headers|
  {
    && |e.segments| <= |cs| && BuiltFrom(l, headers, offset, cs, e.segments)
    && (e.error.None? <==> |e.segments| == |cs|)
    && (forall k :: 0 <= k < |e.segments| ==> BuildsAt(l, headers, offset, cs, n, k))
    && (|e.segments| < |cs| ==> !BuildsAt(l, headers, offset, cs, n, |e.segments|))
  }

  lemma {:induction false} SegmentsOfChunks(l: Layout, headers: Packet, offset: nat, cs: seq<seq<byte>>, n: nat)
    requires l.tcpOffset + 20 <= l.headerLen == |headers| && Uniform(cs, n)
    ensures BuiltAsExpected(l, headers, offset, cs, n, SegmentsOf(l, headers, offset, cs))
    decreases |cs|
  {
    hide SegmentOf, SegmentsOf, Buildable, Concat, SeqAt;
    UniformHead(cs, n);
    SegmentsCons(l, headers, offset, cs);
    assert BuildsAt(l, headers, offset, cs, n, 0) <==> offset < U32_LIMIT && Buildable(l, headers, SeqAt(l, headers, offset), |cs[0]|);
    if BuildsAt(l, headers, offset, cs, n, 0) {
      SegmentBuilds(l, headers, cs[0], SeqAt(l, headers, offset), |cs| == 1);
      var e := SegmentsOf(l, headers, offset, cs);
      assert IsSegment(l, headers, offset, cs[0], |cs| == 1, e.segments[0]);
      if |cs| > 1 {
        var rest := SegmentsOf(l, headers, offset + n, cs[1..]);
        SegmentsOfChunks(l, headers, offset + n, cs[1..], n);
        forall k | 0 < k < |cs|
          ensures BuildsAt(l, headers, offset, cs, n, k) <==> BuildsAt(l, headers, offset + n, cs[1..], n, k - 1)
        {
          assert k * n == n + (k - 1) * n;
        }
        assert e.segments[1..] == rest.segments && BuiltFrom(l, headers, offset, cs, e.segments);
        forall k | 0 <= k < |e.segments|
          ensures BuildsAt(l, headers, offset, cs, n, k)
        {
          assert k > 0 ==> BuildsAt(l, headers, offset + n, cs[1..], n, k - 1);
        }
      } else {
        assert |e.segments[1..]| == 0 && BuiltFrom(l, headers, offset, cs, e.segments);
      }
    } else if offset < U32_LIMIT {
      SegmentBuilds(l, headers, cs[0], SeqAt(l, headers, offset), |cs| == 1);
    }
  }

  lemma SegmentsCons(l: Layout, headers: Packet, offset: nat, cs: seq<seq<byte>>)
    requires l.tcpOffset + 20 <= l.headerLen == |headers|
    requires cs != []
    ensures var e := SegmentsOf(l, headers, offset, cs);
            var rest := SegmentsOf(l, headers, offset + |cs[0]|, cs[1..]);
            && (|cs| == 1 ==> rest == Emission([], None))
            && if offset >= U32_LIMIT then e == Emission([], Some(SequenceOffsetTooLarge)) else
               match SegmentOf(l, headers, cs[0], SeqAt(l, headers, offset), |cs| == 1)
               case Err(x) => e == Emission([], Some(x))
               case Ok(segment) => e.segments != [] && e.segments[0] == segment && e.segments[1..] == rest.segments && e.error == rest.error
  {
    hide SegmentOf, SeqAt;
  }

  function Times(k: nat, n: nat): nat {
    if k == 0 then 0 else Times(k - 1, n) + n
  }

  lemma {:induction false} TimesIsProduct(k: nat, n: nat)
    ensures Times(k, n) == k * n
  {
    if k > 0 {
      TimesIsProduct(k - 1, n);
    }
  }

  lemma {:induction false} BuiltFromAt(l: Layout, headers: Packet, offset: nat, cs: seq<seq<byte>>, segments: seq<Packet>, n: nat, k: nat)
    requires l.tcpOffset + 20 <= l.headerLen == |headers|
    requires Uniform(cs, n) && BuiltFrom(l, headers, offset, cs, segments) && k < |segments|
    ensures k < |cs| && IsSegment(l, headers, offset + Times(k, n), cs[k], k == |cs| - 1, segments[k])
    decreases k
  {
    hide IsSegment;
    UniformHead(cs, n);
    if k > 0 {
      assert BuiltFrom(l, headers, offset + |cs[0]|, cs[1..], segments[1..]);
      if |cs| > 1 {
        BuiltFromAt(l, headers, offset + n, cs[1..], segments[1..], n, k - 1);
        assert Times(k, n) == n + Times(k - 1, n);
      }
    }
  }

  lemma {:induction false} ChunkOffset(cs: seq<seq<byte>>, n: nat, k: nat)
    requires Uniform(cs, n) && k < |cs|
    ensures Times(k, n) < |Concat(cs)| && |cs[k]| <= n
  {
    UniformHead(cs, n);
    if k > 0 {
      ChunkOffset(cs[1..], n, k - 1);
    }
  }

  /**
   Segmentation stops half way, with some segments out and an error, exactly when the first segment builds
   and a later one does not. That takes a `csum_start` inside the IP header, or a payload past 4 GiB.
   */
  lemma HalfWayExactly(offload: VirtioNetHdr, ip: Packet, l: Layout)
    requires LayoutOf(offload, ip) == Ok(l) && |PayloadOf(l, ip)| > offload.gsoSize
    ensures var e, headers, n: nat := SegmentGso(offload, ip), ip[..l.headerLen], offload.gsoSize;
            var cs := Chunks(PayloadOf(l, ip), n);
            && (e.error.Some? && e.segments != [] <==>
                BuildsAt(l, headers, 0, cs, n, 0) && exists k :: 0 < k < |cs| && !BuildsAt(l, headers, 0, cs, n, k))
            && (e.error.None? <==> forall k :: 0 <= k < |cs| ==> BuildsAt(l, headers, 0, cs, n, k))
            && (TcpPastIp(l, ip) && |ip| < U32_LIMIT && e.error.Some? ==> e.segments == [])
  {
    hide BuildsAt, BuiltFrom, Uniform, SegmentsOf, Chunks, TcpPastIp;
    var payload, headers, n: nat := PayloadOf(l, ip), ip[..l.headerLen], offload.gsoSize;
    var cs := Chunks(payload, n);
    ChunksCut(payload, n);
    SegmentsOfChunks(l, headers, 0, cs, n);
    if TcpPastIp(l, ip) && |ip| < U32_LIMIT && BuildsAt(l, headers, 0, cs, n, 0) {
      forall k | 0 <= k < |cs|
        ensures BuildsAt(l, headers, 0, cs, n, k)
      {
        LaterBuilds(l, ip, cs, n, k);
      }
    }
  }

  lemma BuildsBehindIp(l: Layout, ip: Packet, cs: seq<seq<byte>>, n: nat, k: nat)
    requires l.tcpOffset + 20 <= l.headerLen <= |ip| && Uniform(cs, n) && k < |cs|
    requires Concat(cs) == PayloadOf(l, ip) && n < |PayloadOf(l, ip)| && |ip| < U16_LIMIT && TcpPastIp(l, ip)
    ensures BuildsAt(l, ip[..l.headerLen], 0, cs, n, k) <==> l.isIpv6 || (ip[9] == PROTO_TCP && IhlBytes(ip) >= 20)
  {
    hide SeqAt, Times, Concat;
    ChunkOffset(cs, n, k);
    TimesIsProduct(k, n);
  }

  /** With TCP behind IP, what the first segment passes every segment passes. */
  lemma LaterBuilds(l: Layout, ip: Packet, cs: seq<seq<byte>>, n: nat, k: nat)
    requires l.tcpOffset + 20 <= l.headerLen <= |ip| && Uniform(cs, n) && |cs| > 1 && k < |cs|
    requires Concat(cs) == PayloadOf(l, ip) && |ip| < U32_LIMIT && TcpPastIp(l, ip)
    requires BuildsAt(l, ip[..l.headerLen], 0, cs, n, 0)
    ensures BuildsAt(l, ip[..l.headerLen], 0, cs, n, k)
  {
    hide SeqAt, Times, Concat;
    ChunkOffset(cs, n, k);
    TimesIsProduct(k, n);
  }

  /** Such a packet: an IPv4 header of 60 bytes by its own account, TCP placed at its very start. */
  lemma HalfWayExample()
    ensures var zeros: Packet := seq(41, _ => 0);
            var ip: Packet := [0x4F, 0, 0, 0, 0, 0, 0, 0, 0, PROTO_TCP, 0, 0, 0x50, 0, 0, 0, 0, 0, 0, 0] + zeros;
            var e := SegmentGso(VirtioNetHdr(NEEDS_CSUM, GSO_TCPV4, 0, 40, 0, 16, 0), ip);
            e.error.Some? && |e.segments| > 0
  {
    hide SegmentGso;
    var zeros: Packet := seq(41, _ => 0);
    var ip: Packet := [0x4F, 0, 0, 0, 0, 0, 0, 0, 0, PROTO_TCP, 0, 0, 0x50, 0, 0, 0, 0, 0, 0, 0] + zeros;
    var offload := VirtioNetHdr(NEEDS_CSUM, GSO_TCPV4, 0, 40, 0, 16, 0);
    var l := Layout(false, 0, 20);
    assert LayoutOf(offload, ip) == Ok(l);
    assert PayloadOf(l, ip) == zeros;
    assert Chunks(zeros, 40) == [zeros[..40], zeros[40..]];
    var cs := Chunks(zeros, 40);
    assert BuildsAt(l, ip[..20], 0, cs, 40, 0) && !BuildsAt(l, ip[..20], 0, cs, 40, 1);
    HalfWayExactly(offload, ip, l);
  }

  lemma OverlaidNumbers(headers: Packet)
    requires |headers| >= 20 && headers[6] == headers[7] == headers[8] == 0 && headers[9] == PROTO_TCP
    ensures var l := Layout(false, 2, |headers|);
            && SeqAt(l, headers, 0) == 6 && SeqAt(l, headers, 40) == 46
            && ProtocolByte(l, headers, 6) == PROTO_TCP && ProtocolByte(l, headers, 46) == 46
  {
    U32Words(headers, 6);
  }

  /** And another: TCP from the third byte on, so that the second segment's number changes the protocol. */
  lemma HalfWayByNumber()
    ensures var zeros: Packet := seq(61, _ => 0);
            var ip: Packet := [0x45, 0, 0, 0, 0, 0, 0, 0, 0, PROTO_TCP, 0, 0, 0, 0, 0x50, 0, 0, 0, 0, 0, 0, 0] + zeros;
            var e := SegmentGso(VirtioNetHdr(NEEDS_CSUM, GSO_TCPV4, 0, 40, 2, 16, 0), ip);
            e.error.Some? && |e.segments| > 0
  {
    hide SegmentGso, SeqAt, ProtocolByte;
    var zeros: Packet := seq(61, _ => 0);
    var ip: Packet := [0x45, 0, 0, 0, 0, 0, 0, 0, 0, PROTO_TCP, 0, 0, 0, 0, 0x50, 0, 0, 0, 0, 0, 0, 0] + zeros;
    var offload := VirtioNetHdr(NEEDS_CSUM, GSO_TCPV4, 0, 40, 2, 16, 0);
    var l := Layout(false, 2, 22);
    assert LayoutOf(offload, ip) == Ok(l);
    assert PayloadOf(l, ip) == zeros;
    assert Chunks(zeros, 40) == [zeros[..40], zeros[40..]];
    var cs, headers := Chunks(zeros, 40), ip[..22];
    OverlaidNumbers(headers);
    assert BuildsAt(l, headers, 0, cs, 40, 0) && !BuildsAt(l, headers, 0, cs, 40, 1);
    HalfWayExactly(offload, ip, l);
  }

  /**
   Every accepted super-frame of at most 65535 bytes whose TCP header does not overlap its IP header
   comes out whole or not at all, and each segment is faithful to its chunk of the payload. That the
   chunks concatenate to the payload, all but the last exactly `gso_size` long, is `ChunksCut`.
   */
  lemma SegmentationIsFaithful(offload: VirtioNetHdr, ip: Packet, l: Layout)
    requires LayoutOf(offload, ip) == Ok(l) && |ip| < U16_LIMIT && TcpPastIp(l, ip)
    requires |PayloadOf(l, ip)| > offload.gsoSize
    ensures var e, cs := SegmentGso(offload, ip), Chunks(PayloadOf(l, ip), offload.gsoSize);
            && (e.error.None? <==> l.isIpv6 || (ip[9] == PROTO_TCP && IhlBytes(ip) >= 20))
            && (e.error.Some? ==> e.segments == [])
            && (e.error.None? ==>
                  && |e.segments| == |cs| && l.headerLen >= (if l.isIpv6 then 40 else 20)
                  && forall k :: 0 <= k < |cs| ==>
                       Faithful(l, ip[..l.headerLen], cs[k], SeqAt(l, ip[..l.headerLen], Times(k, offload.gsoSize)), k == |cs| - 1, e.segments[k]))
  {
    hide Faithful, SegmentOf, SegmentsOf, SeqAt, Times, BuiltFrom, BuildsAt, Uniform, Concat, Chunks;
    var payload, headers, n: nat := PayloadOf(l, ip), ip[..l.headerLen], offload.gsoSize;
    var e, cs := SegmentGso(offload, ip), Chunks(payload, n);
    ChunksCut(payload, n);
    HalfWayExactly(offload, ip, l);
    LastChunkFits(payload, n);
    forall k | 0 <= k < |cs|
      ensures BuildsAt(l, headers, 0, cs, n, k) <==> l.isIpv6 || (ip[9] == PROTO_TCP && IhlBytes(ip) >= 20)
    {
      BuildsBehindIp(l, ip, cs, n, k);
    }
    assert e.error.None? ==> BuildsAt(l, headers, 0, cs, n, 0);
    if e.error.None? {
      SegmentsOfChunks(l, headers, 0, cs, n);
      forall k | 0 <= k < |cs|
        ensures Faithful(l, headers, cs[k], SeqAt(l, headers, Times(k, n)), k == |cs| - 1, e.segments[k])
      {
        BuiltFromAt(l, headers, 0, cs, e.segments, n, k);
        SegmentIsFaithful(l, headers, cs[k], SeqAt(l, headers, Times(k, n)), k == |cs| - 1);
      }
    }
  }

  lemma FaithfulNumber(l: Layout, headers: Packet, chunk: Packet, offset: nat, last: bool, segment: Packet)
    requires l.tcpOffset + 20 <= l.headerLen == |headers| && |headers| >= if l.isIpv6 then 40 else 20
    requires Faithful(l, headers, chunk, SeqAt(l, headers, offset), last, segment)
    ensures |segment| >= |headers|
    ensures U32At(segment, l.tcpOffset + 4) == (U32At(headers, l.tcpOffset + 4) + offset) % U32_LIMIT
  {
    hide U32At, TcpChecksumOk, Ipv4HeaderOk, ClearFinPsh, IpLengthOk;
  }

  /** Spelled out: segment `k` starts `k` segment sizes after the super-frame, mod 2^32. */
  lemma SegmentNumbers(offload: VirtioNetHdr, ip: Packet, l: Layout, k: nat)
    requires LayoutOf(offload, ip) == Ok(l) && |ip| < U16_LIMIT && TcpPastIp(l, ip)
    requires |PayloadOf(l, ip)| > offload.gsoSize && k < |SegmentGso(offload, ip).segments|
    ensures |SegmentGso(offload, ip).segments[k]| >= l.headerLen
    ensures U32At(SegmentGso(offload, ip).segments[k], l.tcpOffset + 4) == (U32At(ip, l.tcpOffset + 4) + k * offload.gsoSize) % U32_LIMIT
  {
    hide SegmentGso, U32At, LayoutOf, Chunks, Times, Faithful, SeqAt;
    SegmentationIsFaithful(offload, ip, l);
    TimesIsProduct(k, offload.gsoSize);
    var headers, cs := ip[..l.headerLen], Chunks(PayloadOf(l, ip), offload.gsoSize);
    FaithfulNumber(l, headers, cs[k], Times(k, offload.gsoSize), k == |cs| - 1, SegmentGso(offload, ip).segments[k]);
    U32Same(ip[..l.headerLen], l.tcpOffset + 4, ip, l.tcpOffset + 4);
  }

  /** The kernel's `hdr_len` hint never matters, for any packet. */
  lemma HdrLenNeverMatters(offload: VirtioNetHdr, ip: Packet, h: u16)
    ensures Materialized(offload.(hdrLen := h), ip) == Materialized(offload, ip)
  {
    hide SegmentsOf, Completed, Chunks;
    assert LayoutOf(offload.(hdrLen := h), ip) == LayoutOf(offload, ip);
  }

  lemma LastChunkFits(s: seq<byte>, n: nat)
    requires 0 < n < |s|
    ensures var cs := Chunks(s, n); |cs| > 1 && |cs[0]| == n && 0 < |cs[|cs| - 1]| <= n
  {
    ChunksCut(s, n);
  }

  /** The single-segment path: a frame that carries the folded pseudo-header sum leaves with a checksum that verifies. */
  lemma SingleSegmentVerifies(offload: VirtioNetHdr, ip: Packet, l: Layout)
    requires LayoutOf(offload, ip) == Ok(l) && |ip| < U16_LIMIT && TcpPastIp(l, ip)
    requires |PayloadOf(l, ip)| <= offload.gsoSize && offload.NeedsChecksum()
    requires U16At(ip, l.tcpOffset + 16) == Folded(PseudoSum(l.isIpv6, ip, |ip| - l.tcpOffset))
    ensures SegmentGso(offload, ip) == Emission([WithTcpChecksum(l.isIpv6, ip, l.tcpOffset)], None)
    ensures TcpChecksumOk(l.isIpv6, WithTcpChecksum(l.isIpv6, ip, l.tcpOffset), l.tcpOffset)
  {
    hide WordSum, Folded, PseudoSum, TcpChecksumOk, U16At, Be16;
    var t := l.tcpOffset;
    var z := Splice(ip, t + 16, [0, 0]);
    CompletionIsExact(ip, t, t + 16, PseudoSum(l.isIpv6, ip, |ip| - t));
    SamePseudoSum(l.isIpv6, z, ip, |ip| - t);
    StoredTcpChecksumVerifies(l.isIpv6, ip, t);
  }

  // ---- Any metadata ----------------------------------------------------------------------------

  /** Which super-frames are accepted and where their headers end, in bytes. */
  lemma LayoutExactly(offload: VirtioNetHdr, ip: Packet, l: Layout)
    ensures LayoutOf(offload, ip) == Ok(l) <==>
            && offload.gsoSize > 0 && |ip| > 0
            && (if l.isIpv6 then 0x60 <= ip[0] < 0x70 && offload.gsoType in {4, 0x84}
                else 0x40 <= ip[0] < 0x50 && offload.gsoType in {1, 0x81})
            && (if offload.flags % 2 == 1 then l.tcpOffset == offload.csumStart
                else if l.isIpv6 then |ip| >= 40 && ip[6] == 6 && l.tcpOffset == 40
                else l.tcpOffset == 4 * (ip[0] - 0x40) && 20 <= l.tcpOffset <= |ip| && ip[9] == 6)
            && l.tcpOffset + 20 <= |ip|
            && l.headerLen == l.tcpOffset + 4 * (ip[l.tcpOffset + 12] / 16)
            && l.tcpOffset + 20 <= l.headerLen <= |ip|
  {
    TcpGsoExactly(offload);
    if |ip| > 0 {
      assert ip[0] == 16 * (ip[0] / 16) + ip[0] % 16;
    }
  }

  /** A checksum-only packet leaves with its field completed, so that field, pseudo-header and data fold to all
      ones, and otherwise as it came. */
  lemma ChecksumOnlyVerifies(offload: VirtioNetHdr, ip: Packet, pseudo: nat)
    requires offload.gsoType == 0 && offload.flags in {1, 3} && offload.csumOffset % 2 == 0
    requires offload.csumStart + offload.csumOffset + 2 <= |ip| <= 0x1_0000
    requires U16At(ip, offload.csumStart + offload.csumOffset) == Folded(pseudo)
    ensures var e := Materialized(offload, ip);
            && e.error.None? && |e.segments| == 1
            && SameOutside(e.segments[0], ip, offload.csumStart + offload.csumOffset, 2)
            && Folded(pseudo + WordSum(e.segments[0][offload.csumStart..])) == 0xFFFF
  {
    hide WordSum, Folded, Be16, U16At, Completed;
    var start: nat, index: nat := offload.csumStart, offload.csumStart + offload.csumOffset;
    ChecksumOffloadExactly(offload, ip, start, index);
    CompletionIsExact(ip, start, index, pseudo);
    var z := Splice(ip, index, [0, 0]);
    var full := Finalized(pseudo + WordSum(z[start..]));
    var r := Splice(ip, index, Be16(full));
    WordSumStore(z[start..], index - start, Be16(full));
    assert r[start..] == Splice(z[start..], index - start, Be16(full));
    ZeroField(z[start..], index - start);
    Verifies(pseudo + WordSum(z[start..]));
  }

  /** Without NEEDS_CSUM a plain packet, or a super-frame of one segment, passes as it is; TCP segmentation is
      what the segmenter makes of it; any other GSO type is refused. */
  lemma OtherwiseAsItIs(offload: VirtioNetHdr, ip: Packet)
    ensures offload.gsoType == 0 && offload.flags % 2 == 0 && ip != [] ==> Materialized(offload, ip) == Emission([ip], None)
    ensures LayoutOf(offload, ip).Ok? && offload.flags % 2 == 0 && |ip| - LayoutOf(offload, ip).value.headerLen <= offload.gsoSize ==>
              Materialized(offload, ip) == Emission([ip], None)
    ensures offload.gsoType in {1, 4, 0x81, 0x84} && offload.gsoSize > 0 ==> Materialized(offload, ip) == SegmentGso(offload, ip)
    ensures !(offload.gsoType == 0 || (offload.gsoType in {1, 4, 0x81, 0x84} && offload.gsoSize > 0)) ==>
              Materialized(offload, ip).segments == [] && Materialized(offload, ip).error.Some?
  {
    hide SegmentsOf, Completed, LayoutOf, Chunks;
    TcpGsoExactly(offload);
    ChecksumOffloadExactly(offload, ip, 0, 0);
    if LayoutOf(offload, ip).Ok? {
      LayoutExactly(offload, ip, LayoutOf(offload, ip).value);
    }
  }
}
