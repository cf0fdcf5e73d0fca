# ezvpn in Dafny

ezvpn tunnels IP packets over QUIC datagrams. This project models the parts of it where correctness is
hardest to see and proves what they promise, for all inputs, all runs and all interleavings:

- the TCP segmentation and coalescing engine on both sides of the tunnel, down to the bytes: sequence
  numbers modulo 2^32, IP lengths, flags, ones'-complement checksums (RFC 1071 sections 1 and 2, RFC 9293
  section 3.1, RFC 791 section 3.1, RFC 8200 sections 3 and 8.1) and the `virtio_net_hdr` of section 5.1.6
  of the virtio specification;
- the TUN writer task, the datagram sender and the control frames;
- path selection with hysteresis;
- route installation and ownership, bypass routes and the longest-prefix lookup they lead to, CIDR overlap;
- the reconnect loop, the handshake record, the mobile session loop and the C interface's callback lock.

Code that updates things in place is modelled by classes and loops whose contracts tie them to
specification functions; the theorems are about those functions. The outside world is nondeterministic: a
connection, a TUN device and a routing table may fail at any call, and remember in ghost state that they
did, so that the code cannot report a failure of its own invention. Randomness, clocks and answers from
the network are parameters. Integer widths are written out where they matter.

| file | what it holds |
|---|---|
| `Wrappers.dfy`, `Bytes.dfy` | options and results; bytes, big-endian fields, splicing |
| `Checksum.dfy`, `Virtio.dfy` | the checksum arithmetic; TUN frames |
| `Segmenter.dfy`, `SegmentTheorems.dfy` | cutting a super-frame; what every cut keeps |
| `Coalescer.dfy`, `Assembler.dfy` | planning runs; gluing a run |
| `GsoRoundTrip.dfy`, `GsoExact.dfy` | both directions undo each other, field by field and byte by byte |
| `TunWriter.dfy`, `Datagrams.dfy`, `ControlFrames.dfy` | writing to the device; sending; the control channel |
| `PathSelector.dfy` | choosing a path; no flapping |
| `Cidr.dfy`, `Ledger.dfy`, `Routes.dfy`, `Bypass.dfy` | prefixes; ownership; routes; bypasses |
| `Reconnect.dfy`, `Handshake.dfy` | the desktop client's loop and record |
| `MobileSession.dfy`, `EventCallbacks.dfy` | the mobile loop; the callback lock |

Three places where the code does not do what one might expect, and the model follows the code:

- The comments at `src/tunnel/client.rs:155` and `src/tunnel/client.rs:219` say that a change in the IPv6 trio makes the client
  quit. The code adopts a changed IPv6 address just like an IPv4 one; only the IPv6 network and gateway are
  compared (`Handshake.ReassignedAddressIsAdopted`).
- Segmentation can emit some segments and then fail, when `csum_start` lies inside the IP header
  (`SegmentTheorems.HalfWayExample`, `SegmentTheorems.HalfWayByNumber`); `SegmentTheorems.HalfWayExactly`
  says when.
- A bypass for an address whose host route is already on the tunnel, such as the VPN gateway's, is reported
  as active but changes nothing: the address stays on the tunnel (`Bypass.GatewayStaysOnTunnel`);
  `Bypass.BypassedGoesOffTunnel` says exactly when a bypass works.

## Model

| member | source | states |
|---|---|---|
| `Bytes.FieldsAreBigEndian` | src/tunnel/offload.rs:847-864 | Fields are big-endian, digit by digit. |
| `Checksum.WordSumMeans` | src/tunnel/offload.rs:887-896 | Words are two bytes, high byte first, an odd last byte padded with zero, as section 1 of RFC 1071 says. |
| `Checksum.AddBytes` | src/tunnel/offload.rs:887-896 | The running `u32` sum over a byte string is start plus the sum of its big-endian words (an odd last byte counts as a high byte), modulo 2^32. |
| `Checksum.NoCarryLost` | src/tunnel/offload.rs:887-896 | For every string up to 64 KiB the wrapping sum is the true sum: `wrapping_add` loses no carry. |
| `Checksum.FoldChecksum` | src/tunnel/offload.rs:898-903 | The folding loop terminates with the ones'-complement value of the sum: congruent to it modulo 65535, and zero only for zero. |
| `Checksum.FoldedEquality` | src/tunnel/offload.rs:898-903 | Two sums fold to the same value iff they agree modulo 65535 and are both zero or both not. |
| `Checksum.FoldedAdds` | src/tunnel/offload.rs:391-403 | Folding a part first does not change the folded total, so a stored partial sum can stand for its pseudo-header. |
| `Checksum.Verifies` | src/tunnel/offload.rs:905-907 | Adding the finalized checksum back to its own sum always folds to 0xFFFF: a receiver accepts. |
| `Checksum.WordSumSplit` | src/tunnel/offload.rs:887-896 | The word sum splits at every even offset. |
| `Checksum.WordSumStore` | src/tunnel/offload.rs:887-896 | Storing a word at an even offset changes the sum by exactly the difference of the words. |
| `Virtio.HeaderLayout` | src/tunnel/offload.rs:53-63 | Each field lies at its place in the ten bytes, low byte first. |
| `Virtio.TcpGsoExactly` | src/tunnel/offload.rs:65-82 | TCP segmentation is type 1 or 4, with or without the ECN bit, with a segment size; NEEDS_CSUM is the lowest flag bit. |
| `Virtio.HeaderRoundTrip` | src/tunnel/offload.rs:40-64 | Parsing a serialized header gives it back, except `num_buffers`, which the 10-byte form cannot hold. |
| `Virtio.BytesRoundTrip` | src/tunnel/offload.rs:40-64 | Serializing a parsed header gives the same ten bytes. |
| `Virtio.ComposeTunFrame` | src/tunnel/offload.rs:153-185 | Writes exactly the composed frame, or fails with the same error and leaves the buffer alone. |
| `Virtio.SplitInvertsCompose` | src/tunnel/offload.rs:102-185 | Splitting a composed frame gives back packet and metadata; plain metadata disappears and an unsupported GSO type is refused, exactly as the branches say. |
| `Virtio.ComposesExactly` | src/tunnel/offload.rs:153-185 | A frame is the packet, or ten bytes (all zero without metadata) and the packet; only an empty packet, or metadata with no header for it, is refused. |
| `Virtio.SplitsEveryFrame` | src/tunnel/offload.rs:102-146 | Every frame longer than its header is a composed one, so splitting is settled for all frames; a shorter one is refused. |
| `Segmenter.UpdateIpv4LengthsAndChecksum` | src/tunnel/offload.rs:806-830 | In-place update equals the length-and-checksum rewrite of the packet, with every error case leaving the bytes alone. |
| `Segmenter.UpdateIpv6PayloadLength` | src/tunnel/offload.rs:832-845 | The same for the IPv6 payload length. |
| `Segmenter.TcpChecksumIpv4` | src/tunnel/offload.rs:847-864 | Succeeds iff the lengths fit, and then is the complement of pseudo-header plus segment (`PseudoSumIsHeader` gives its bytes), with no carry lost. |
| `Segmenter.TcpChecksumIpv6` | src/tunnel/offload.rs:866-885 | The same for IPv6, with the 32-bit length and wrap-around written out. |
| `Segmenter.PseudoSumIsHeader` | src/tunnel/offload.rs:391-403 | The pseudo-header sum is the word sum of the pseudo-header's own bytes, protocol number 6 included, for both families, and sums with a segment as one string. |
| `Segmenter.ChecksumOffloadExactly` | src/tunnel/offload.rs:730-785 | A checksum is completed iff NEEDS_CSUM is set, alone or with DATA_VALID, and the field lies inside the packet; a non-empty packet without NEEDS_CSUM passes; anything else is refused. |
| `Segmenter.BuildSegment` | src/tunnel/offload.rs:585-620 | The reused scratch buffer ends up holding exactly the segment of the specification, or the error is the same. |
| `Segmenter.SegmentChunks` | src/tunnel/offload.rs:583-625 | The loop emits the specified segments in order and stops at the first build error or refused emission, with the same error. |
| `Segmenter.SegmentTcpGsoInto` | src/tunnel/offload.rs:496-628 | For every header, packet and sink: what is emitted and returned is the specified segmentation cut off where the sink gave out. |
| `Segmenter.MaterializeOffloadInto` | src/tunnel/offload.rs:676-705 | The same for any offload metadata: segmentation, checksum completion (`ChecksumOnlyVerifies`), or the packet as it is (`OtherwiseAsItIs`). |
| `SegmentTheorems.CompletionIsExact` | src/tunnel/offload.rs:561-573 | Completing a partial checksum equals the full checksum over a zeroed field iff the field lies at an even offset from `csum_start` or its two bytes are equal. |
| `SegmentTheorems.StoredTcpChecksumVerifies` | src/tunnel/offload.rs:847-885 | A packet whose TCP checksum this code stored verifies at the receiver: pseudo-header bytes and segment, summed as one string, fold to 0xFFFF, whenever the TCP length fits the pseudo-header. |
| `SegmentTheorems.StoredIpv4ChecksumVerifies` | src/tunnel/offload.rs:806-830 | The same for the IPv4 header checksum, IP options included. |
| `SegmentTheorems.SegmentBuilds` | src/tunnel/offload.rs:585-620 | For every layout a segment builds iff its protocol byte, which a `csum_start` of 2 to 5 lays the sequence number over, its header length and its total length fit. |
| `SegmentTheorems.SegmentIsFaithful` | src/tunnel/offload.rs:585-620 | A built segment keeps every header byte it does not own, carries its chunk, its sequence number, the right IP length, FIN/PSH only if last, and verifying checksums. |
| `SegmentTheorems.ChunksCut` | src/tunnel/offload.rs:583-590 | Cutting a payload gives chunks that concatenate to it, all of full size but the last, which is not empty. |
| `SegmentTheorems.UniformAreChunks` | src/tunnel/offload.rs:583-590 | Conversely any such list of chunks is what cutting its concatenation gives. |
| `SegmentTheorems.SegmentationIsFaithful` | src/tunnel/offload.rs:496-628 | Main result: every accepted super-frame up to 65535 bytes with TCP behind IP comes out whole or not at all, succeeding iff its IP header says TCP; segment k carries chunk k of the payload (`ChunksCut`), its own sequence number (`SegmentNumbers`) and is faithful. |
| `SegmentTheorems.HdrLenNeverMatters` | src/tunnel/offload.rs:496-560 | The result is independent of the kernel's `hdr_len`, for every packet. |
| `SegmentTheorems.SegmentNumbers` | src/tunnel/offload.rs:583-603 | Segment k carries sequence number first + k * gso_size mod 2^32. |
| `SegmentTheorems.HalfWayExactly` | src/tunnel/offload.rs:583-625 | For every accepted super-frame: segmentation stops half way with segments out iff the first segment builds and a later one does not, succeeds iff all build, and never stops half way when TCP lies behind IP and the payload is below 4 GiB. |
| `SegmentTheorems.HalfWayExample` | src/tunnel/offload.rs:496-628 | A concrete packet that stops half way because its last segment is shorter than the header length it claims. |
| `SegmentTheorems.HalfWayByNumber` | src/tunnel/offload.rs:496-628 | Another that stops half way because the second segment's sequence number overwrites its protocol byte. |
| `SegmentTheorems.SingleSegmentVerifies` | src/tunnel/offload.rs:561-573 | A super-frame of one segment whose field held the folded pseudo-header sum comes out with exactly the full checksum, which verifies. |
| `SegmentTheorems.LayoutExactly` | src/tunnel/offload.rs:496-555 | Which super-frames are accepted and where their headers end, in bytes: an iff. |
| `SegmentTheorems.ChecksumOnlyVerifies` | src/tunnel/offload.rs:696-705 | A checksum-only packet leaves as one packet that differs only in its field and whose field, pseudo-header and data fold to 0xFFFF. |
| `SegmentTheorems.OtherwiseAsItIs` | src/tunnel/offload.rs:676-698 | Without NEEDS_CSUM a plain packet or a super-frame of one segment passes unchanged; any other GSO type is refused. |
| `Coalescer.ParsesExactly` | src/tunnel/offload.rs:224-300 | A packet is coalescible iff it is a pure-data segment, byte by byte: no options, MF or fragment offset, extension headers or ECN, no FIN, SYN, RST or URG, a payload, and the length it says. |
| `Coalescer.ChainsExactly` | src/tunnel/offload.rs:310-339 | Two such segments chain iff the listed bytes are equal and the second starts where the first ends, mod 2^32. |
| `Coalescer.ChainsIffSameFlow` | src/tunnel/offload.rs:310-339 | Two segments chain iff all compared flow fields agree and the second starts where the first ends, modulo 2^32. |
| `Coalescer.JoinDecides` | src/tunnel/offload.rs:358-380 | The planner's test on the last member alone decides whether the whole longer run is coalescible. |
| `Coalescer.ExtendRun` | src/tunnel/offload.rs:358-380 | The run found is coalescible and one packet more is not. |
| `Coalescer.PlanTunWriteGroups` | src/tunnel/offload.rs:348-385 | The groups are an ordered exact partition of the batch, each maximal, coalesced iff it has two or more members. |
| `Coalescer.CoalescedIsPlainData` | src/tunnel/offload.rs:348-385 | No member of a coalesced group carries FIN, SYN, RST or URG or is a fragment. |
| `Coalescer.PlanIsUnique` | src/tunnel/offload.rs:348-385 | That description has exactly one solution for every batch. |
| `Assembler.TcpPseudoHeaderPartial` | src/tunnel/offload.rs:391-403 | The folded pseudo-header sum, for a length of any size as the code masks it. |
| `Assembler.TotalPayload` | src/tunnel/offload.rs:429-445 | Refuses iff some segment has no payload, otherwise the merged length. |
| `Assembler.PutPayloads` | src/tunnel/offload.rs:464-466 | Appends all payloads in order. |
| `Assembler.AssembleTcpGsoSuperframe` | src/tunnel/offload.rs:417-483 | The bytes written are the specified super-frame, and the error is the specified one, for every list of segments. |
| `Assembler.AssemblesExactly` | src/tunnel/offload.rs:417-444 | Assembly succeeds iff there are two or more segments, the first is pure data, each is longer than its headers and all fit 65535 bytes. |
| `GsoRoundTrip.ParsesMeansPlain` | src/tunnel/offload.rs:224-300 | A parsed segment has plain headers and the right IP length. |
| `GsoRoundTrip.PlainMeansParses` | src/tunnel/offload.rs:224-300 | Conversely plain headers with the right length parse, with these fields. |
| `GsoRoundTrip.ParsesIffPlain` | src/tunnel/offload.rs:224-300 | So a packet is coalescible, with a given layout, iff its headers are plain for that layout, its length field is right and it has a payload. |
| `GsoRoundTrip.RunSequenceNumbers` | src/tunnel/offload.rs:310-385 | Member k of a run has sequence number first + k * segment size mod 2^32. |
| `GsoRoundTrip.RunAssembles` | src/tunnel/offload.rs:417-483 | Assembly never fails on a coalescible run of two or more, and the frame splits back into its header and packet. |
| `GsoRoundTrip.AssembledHeader` | src/tunnel/offload.rs:446-458 | The ten bytes in front of a super-frame: NEEDS_CSUM at offset 16 of the TCP segment, the GSO type of the family, header and first payload size. |
| `GsoRoundTrip.AssembledExactly` | src/tunnel/offload.rs:417-483 | A super-frame is that header and the first segment's headers, with whole length, verifying IPv4 checksum and the pseudo-header's folded sum, and all payloads. |
| `GsoRoundTrip.ViewIsSegment` | src/tunnel/offload.rs:310-339 | Equal views mean equal bytes but for IPv4 ID, reserved bits, PSH, ACK, ECE and CWR bits, urgent pointer and checksums; FIN, SYN, RST, URG and the fragment bits are equal too. |
| `GsoRoundTrip.CoalesceThenSegment` | src/tunnel/offload.rs:310-628 | Main result: segmenting the assembled super-frame gives back every member, as the same segment in bytes: addresses, ports, ack, window, options, sequence number, payload, and the FIN, SYN, RST, URG and fragment bits. |
| `GsoExact.ChecksumsAreDetermined` | src/tunnel/offload.rs:806-885 | Packets that carry this code's checksums and agree elsewhere are equal. |
| `GsoExact.CoalesceThenSegmentExact` | src/tunnel/offload.rs:310-628 | The round trip is byte for byte iff each member agrees with the first on the uncompared fields (IPv4 ID and fragment bytes, reserved bits, flag byte with PSH clear, urgent pointer) and carries the checksums this code computes. |
| `GsoExact.CutIsCoalescible` | src/tunnel/offload.rs:583-625 | Segments cut from a plain super-frame form one coalescible run. |
| `GsoExact.SegmentThenCoalesce` | src/tunnel/offload.rs:306-483 | Main converse: for any plain multi-segment super-frame the plan of its segments is exactly one coalesced group, and assembling it gives the original headers and payload, PSH cleared, with length and partial checksum in place. |
| `GsoExact.RestoredExactly` | src/tunnel/offload.rs:417-483 | Reassembly restores the very same bytes iff PSH was clear and the original carried its own length, IPv4 checksum and partial checksum. |
| `TunWriter.ComposedMeans` | src/tunnel/offload.rs:153-185 | Whatever frame is composed, the kernel reads it as the packets its metadata means. |
| `TunWriter.PlanExpandsToBatch` | src/net/device.rs:1037-1074 | For every batch, carrying out the plan and re-segmenting gives the batch back in order: nothing reordered, lost, repeated or mixed between flows. |
| `TunWriter.TunWriter.WritePacket` | src/net/device.rs:959-1005 | The kernel gets exactly what the metadata means, in one write, or nothing; it fails only if the frame cannot be composed or the device failed. |
| `TunWriter.TunWriter.WriteGroup` | src/net/device.rs:1047-1071 | One write carries the whole run; the per-packet fallback is unreachable. |
| `TunWriter.TunWriter.WritePlannedGroups` | src/net/device.rs:1037-1074 | On success one write per group and the kernel has the batch; on failure an in-order part of it. |
| `TunWriter.TunWriter.WriteBatch` | src/net/device.rs:1015-1035 | For every batch and mode: the kernel receives the batch in order, in as few writes as the one plan has groups; it fails only with the device or at an empty packet. |
| `TunWriter.WriterTask.NoteWriteResult` | src/tunnel/client.rs:1047-1072 | The counter is the failed streak of the log; the writer stops exactly when it reaches ten. |
| `TunWriter.WriterTask.FlushPlainRun` | src/tunnel/client.rs:1089-1095 | Offers the whole buffered run behind everything offered before. |
| `TunWriter.WriterTask.TakeRequest` | src/tunnel/client.rs:1084-1100 | A packet with metadata is written behind the buffered plain packets that arrived before it. |
| `TunWriter.WriterTask.Round` | src/tunnel/client.rs:1078-1108 | Over the writer's whole life packets are offered in arrival order across metadata-carrying ones; the kernel holds all of them while writes succeed, and every counted failure has its own cause. |
| `Datagrams.TallyCountsAll` | src/tunnel/stream.rs:80-102 | The three counters together grow by the number of datagrams, each by its own share. |
| `Datagrams.SendEach` | src/tunnel/stream.rs:149-161 | One at a time: only datagrams the connection called too large are dropped, until another error drops the rest. |
| `Datagrams.SendDatagramBatch` | src/tunnel/stream.rs:122-169 | For every behaviour of the connection it terminates, counts each datagram once, queues an in-order part, drops as too large exactly what the connection refused as such, and returns an error only if the connection did, dropping exactly a tail. |
| `Datagrams.CopyPacketToArena` | src/tunnel/stream.rs:297-304 | Returns the packet's bytes and leaves the arena empty. |
| `Datagrams.PreparationAccounts` | src/tunnel/stream.rs:208-231 | Every packet is kept, within the limit, or counted as dropped; none is dropped that fits. |
| `Datagrams.PreparedInOrder` | src/tunnel/stream.rs:182-231 | In order, one by one: a packet is kept iff it fits, and otherwise counted as too large, or as other when there is no limit. |
| `Datagrams.Preparation.PrepareOneDatagram` | src/tunnel/stream.rs:208-231 | Appends the packet or counts it once, by the size limit. |
| `Datagrams.Preparation.PrepareIpDatagrams` | src/tunnel/stream.rs:182-204 | Appends exactly the materialized packets that fit, in order, and counts every other one, plus one if materialization failed. |
| `ControlFrames.EncodeServerAddrsFrame` | src/tunnel/stream.rs:261-276 | Appends the length-prefixed frame, or refuses exactly an oversized body and appends nothing. |
| `ControlFrames.EncodeHeartbeatFrame` | src/tunnel/stream.rs:280-287 | The encoding of the ping or pong with this sequence number. |
| `ControlFrames.ClassifyInverts` | src/tunnel/stream.rs:235-256 | A body classifies as a frame iff it is that frame's encoding. |
| `ControlFrames.FrameOnWire` | src/tunnel/stream.rs:62 | A legal body has 1 to 65547 bytes, and goes out behind its length in four big-endian bytes. |
| `ControlFrames.BodyOnWire` | src/tunnel/stream.rs:261-287 | A body is type 1 and the JSON text, or type 2 or 3 and the number in eight big-endian bytes. |
| `ControlFrames.GetsEveryFrame` | src/tunnel/client.rs:1152-1193 | Every frame sent is got, in order, whatever undecodable bodies come between. |
| `ControlFrames.ReadFrame` | src/tunnel/stream.rs:313-338 | Reads one legal frame and leaves the stream right behind it; clean end, truncation and oversize are told apart. |
| `ControlFrames.ReadAllInverts` | src/tunnel/stream.rs:313-338 | Main result: reading the concatenated encoding of any list of legal bodies, unknown types included, recovers the list; it ends cleanly unless the stream was reset. |
| `ControlFrames.CleanReadIsEncoding` | src/tunnel/stream.rs:313-338 | Conversely, for every stream the frames read are legal and encode a prefix of it; it ends cleanly iff they are all of it and it was not reset. |
| `ControlFrames.TruncationLosesOnlyTheTail` | src/tunnel/stream.rs:313-338 | A stream cut anywhere, finished or reset, yields exactly the frames that are whole; it ends cleanly iff the cut is at a boundary and was no reset. |
| `ControlFrames.ControlLoop` | src/tunnel/client.rs:1152-1193 | Handles exactly the decodable frames, in order, skips undecodable ones, and ends for the reader's reason. |
| `PathSelector.Choose` | src/transport/path_selector.rs:69-96 | The one-pass loop computes the choice. |
| `PathSelector.BestOfIsBest` | src/transport/path_selector.rs:69-85 | The best candidate is allowed, minimal in tier and biased RTT, earliest on ties; none only if nothing is allowed. |
| `PathSelector.CurrentKeyIsLeast` | src/transport/path_selector.rs:69-85 | The key of the current path is its least over its allowed entries. |
| `PathSelector.ChoiceIsRight` | src/transport/path_selector.rs:45-96 | It picks only the best allowed path, and picks none iff nothing is allowed or the allowed current path is in the best tier and within 5 ms of the best. |
| `PathSelector.ChoiceExactly` | src/transport/path_selector.rs:45-96 | In nanoseconds: the choice is open, a relay only among relays, least in RTT with 3 ms off for IPv6, and the first such; there is none iff nothing is open or the open current path is in the best tier and less than 5 ms worse. An address is excluded, IPv4-mapped ones as IPv4, iff a listed network holds it. |
| `PathSelector.ChoiceIsStable` | src/transport/path_selector.rs:69-96 | Choosing again after switching, on the same candidates, never switches. |
| `PathSelector.SwitchImproves` | src/transport/path_selector.rs:57-96 | With jitter below 2.5 ms a switch always improves tier or base RTT. |
| `PathSelector.NoFlapping` | src/transport/path_selector.rs:27-96 | Main result: over any run whose allowed candidates are fixed and jitter by less than 2.5 ms, whatever excluded ones come and go, a path once left is never taken again and there are fewer switches than candidates. |
| `PathSelector.FlapsAtTheThreshold` | src/transport/path_selector.rs:27-31 | At exactly 2.5 ms two paths do flap: the bound is sharp. |
| `Cidr.SharedMeansNested` | src/net/local_networks.rs:128-133 | Prefixes that share an address are nested. |
| `Cidr.OverlapsIffShared` | src/net/local_networks.rs:131-133 | `overlaps` holds iff two prefixes share an address, and then one holds the other. |
| `Cidr.ContainsExactly` | src/net/local_networks.rs:128-133 | A network holds an address iff family and leading bits agree. |
| `Cidr.FirstLocalIsFirst` | src/net/local_networks.rs:85-101 | The local network named is the first that shares an address with the route. |
| `Cidr.ConflictIsFirst` | src/net/local_networks.rs:85-101 | The conflict named is the first conflicting non-exempt route; none iff no such route shares an address with a local network. |
| `Cidr.Ipv4RoutesComeFirst` | src/net/local_networks.rs:85-101 | IPv4 routes are checked first: an IPv6 route is named only if no IPv4 route conflicts. |
| `Cidr.WatcherNeededExactly` | src/net/local_networks.rs:123-126 | There are refusable routes iff some list of local networks could conflict, so skipping the watcher is sound. |
| `Routes.HalvesCover` | src/net/device.rs:1849-1868 | The two halves of a default route cover exactly it, disjointly; other routes stay. |
| `Routes.ExpansionCovers` | src/net/device.rs:1849-1868 | Expanding a route list changes no coverage and leaves no default route. |
| `Routes.RemoveAll` | src/net/device.rs:1938-1952 | Removing what was added restores the table. |
| `Routes.AddRoutes` | src/net/device.rs:1874-1907 | For every mix of added, existing and failed commands: a failure, which is a command's own, leaves the table as it was; success installs all and owns exactly what it created. |
| `Routes.ResolvedBypassIsSafe` | src/net/device.rs:2904-2964 | A usable route is kept as it is; otherwise device, gateway and interface are the fallback's, with the peer kept; refused iff route and fallback are both unusable; off the tunnel if the fallback is. |
| `Routes.AddBypassRoute` | src/net/device.rs:2849-2881 | Adds the host route through the resolved hop and owns it iff it created it; it fails only by query, resolution or command. |
| `Ledger.HoldKeepsBalance` | src/net/device.rs:1874-1907 | A new guard keeps the table equal to the initial one plus what guards own, disjointly. |
| `Ledger.DropKeepsBalance` | src/net/device.rs:1938-1952 | Dropping any guard keeps it so. |
| `Ledger.NothingOwnedNothingChanged` | src/net/device.rs:1938-1952 | With all guards dropped, in any order, the table is the initial one; at no time is a pre-existing route gone. |
| `Routes.RouteOwner.InstallRoutes` | src/net/device.rs:2194-2234 | Installing keeps the balance, for both families; failure changes nothing. |
| `Routes.RouteOwner.InstallBypass` | src/net/device.rs:2849-2881 | The same for a bypass route. |
| `Routes.RouteOwner.Drop` | src/net/device.rs:3190-3208 | Removes exactly what the guard owns and keeps the balance. |
| `Bypass.PrivateScopeExactly` | src/tunnel/client.rs:1895-1900 | Private scope is 10.0.0.0/8, 172.16.0.0/12, 192.168.0.0/16, 169.254.0.0/16, fc00::/7 and fe80::/10. |
| `Bypass.WantedExactly` | src/tunnel/client.rs:1524-1550 | An address needs a bypass iff it is in no private scope and in a route of its own family. |
| `Bypass.BypassRouteManager.Update` | src/tunnel/client.rs:1524-1594 | Over any sequence of published sets: collected is exactly the global-scope covered addresses seen, active only grows within it and points off the tunnel, no route is removed, and an address is skipped only if its query led nowhere usable or its command failed; the layers of the table are kept. |
| `Bypass.BypassRouteManager.AddOne` | src/tunnel/client.rs:1574-1593 | One address: added with its guard, or nothing changes; the layers of the table are kept either way. |
| `Bypass.OverlappingUnderlayExcludes` | src/tunnel/client.rs:1928-1946 | The two exclude lists, in order. |
| `Bypass.ExcludesInOrder` | src/tunnel/client.rs:1928-1946 | Each list holds, in order, the host prefixes of exactly the addresses of its family that need a bypass. |
| `Bypass.SameBypassSet` | src/tunnel/client.rs:1524-1604 | The iOS excludes and the desktop's collected set agree on every address. |
| `Bypass.VpnLayered` | src/net/device.rs:1874-1907 | Routes installed through the tunnel, host prefixes included and before or after bypasses, add to the tunnel's layer exactly what was not there before. |
| `Bypass.BypassLayered` | src/net/device.rs:2849-2881 | A bypass added, or found already there, keeps the layers. |
| `Bypass.LookupIsUnique` | src/net/device.rs:2849-2881 | One entry per destination means one longest match. |
| `Bypass.BypassedGoesOffTunnel` | src/net/device.rs:2904-2964 | Longest-prefix lookup hits an active address's host route, and sends it off the tunnel iff that host route is not itself a destination on the tunnel. |
| `Bypass.GatewayStaysOnTunnel` | src/tunnel/client.rs:435-449 | The exception is real: with the gateway's host route in first, a bypass of that address is active and has no effect. |
| `Bypass.OthersGoIntoTunnel` | src/net/device.rs:1849-1868 | Lookup sends any other address into the tunnel iff some destination on the tunnel holds it and is longer than every system route to it that leads elsewhere. |
| `Bypass.DefaultRouteIsOutranked` | src/net/device.rs:1849-1868 | With all covering routes on the tunnel, a system default route never stands in the way, even of a configured default route, thanks to the split. |
| `Bypass.SessionRoutes.Install` | src/net/device.rs:1874-1907 | One list of prefixes installed, or a command failed and nothing changed; the layers are kept and the guards own exactly the tunnel's. |
| `Bypass.SessionRoutes.Connect` | src/tunnel/client.rs:410-475 | The order of `connect` (bootstrap bypasses, server prefixes, configured routes of the assigned families) establishes and keeps the layers; on success exactly these lists are in the table, and it fails only where a command failed. |
| `Bypass.SessionRoutes.Publish` | src/tunnel/client.rs:1736-1749 | Every later published set keeps the layers and everything installed. |
| `Reconnect.RecoverableExactly` | src/error.rs:140-145 | A lost connection, the network and signalling are retried, and nothing else. |
| `Reconnect.BackoffSchedule` | src/tunnel/client.rs:1872-1884 | For every attempt the delay is 1000 * 2^(attempt-1) ms plus jitter up to the sixth and 60000 ms from the seventh on: no saturation ever shows. |
| `Reconnect.BackoffGrows` | src/tunnel/client.rs:1872-1884 | A later retry waits strictly longer whatever the jitter, until both wait 60000 ms. |
| `Reconnect.RunWithReconnect` | src/tunnel/client.rs:1362-1429 | For every sequence of results the loop stops at the first success, fatal error or exceeded cap, with that result, and waits the backoff of its own outage after each other one. |
| `Reconnect.GivesUpExactly` | src/tunnel/client.rs:1395-1415 | For any cap below `u32::MAX` it gives up exactly on failure cap + 1 of one outage, never on a lost connection. |
| `Reconnect.NeverGivesUp` | src/tunnel/client.rs:1395-1415 | With a cap of `u32::MAX` or none it never gives up, because the counter saturates. |
| `Reconnect.OutageDelaysGrow` | src/tunnel/client.rs:1362-1429 | Within one outage delays strictly increase until constant at the limit; a lost connection starts over at one second. |
| `Handshake.ParsesExactly` | src/tunnel/client.rs:825-868 | A response is taken iff accepted, whole per family and not empty; a refusal is an authentication failure, a malformed one a signalling error. |
| `Handshake.EstablishedParams.CheckParamsAgainst` | src/tunnel/client.rs:224-257 | Accepts iff nothing is recorded or `network`, `server_ip`, `network6` and `server_ip6` are equal; the accepted becomes the record, the rejected leaves it. |
| `Handshake.EstablishedParams.Attempts` | src/tunnel/client.rs:365-371 | A run of attempts builds exactly the sessions of the specification and stops at the first fatal one. |
| `Handshake.BaselineAgrees` | src/tunnel/client.rs:185-257 | The recorded networks and gateways never change after the first session. |
| `Handshake.SessionsShareConfig` | src/tunnel/client.rs:185-257 | Over every run a whole response becomes a session iff it agrees with any earlier session, else the client quits; no family appears or disappears. |
| `Handshake.ReassignedAddressIsAdopted` | src/tunnel/client.rs:239-250 | A change of assigned addresses alone, IPv6 included, is adopted. |
| `MobileSession.MobileSession.Reestablish` | src/tunnel/mobile.rs:299-322 | Dials with growing backoff until a session is made or an error is final, reporting each failure. |
| `MobileSession.MobileSession.Run` | src/tunnel/mobile.rs:267-339 | Every run follows the session protocol, takes its answers in order, ends only for the reasons the protocol allows, and keeps the shown connection current. |
| `MobileSession.SameConfigExactly` | src/tunnel/mobile.rs:153-168 | Two sessions have the same settings iff address, netmask length, gateway and excluded routes of both families agree. |
| `MobileSession.OnlyRecoverableIsRetried` | src/tunnel/mobile.rs:293-321 | Only a lost connection, the network or signalling is retried, and each is reported as what it was. |
| `MobileSession.DrivenSessionsMatch` | src/tunnel/mobile.rs:268-335 | Every session ever driven over the descriptor has exactly the settings applied at the start. |
| `MobileSession.ChangedSessionIsReleased` | src/tunnel/mobile.rs:324-332 | A session with other settings is closed, never announced or driven, and ends the run. |
| `MobileSession.EventsTell` | src/tunnel/mobile.rs:267-339 | Events form (Reconnecting+ Reconnected)* Reconnecting* and tell exactly how many sessions were driven and how many dials failed. |
| `MobileSession.DialsWaitAsReported` | src/tunnel/mobile.rs:299-303 | Each dial waits the backoff of the losses reported since the last session. |
| `EventCallbacks.StepKeeps` | src/ffi.rs:450-499 | Every step of task or `stop` keeps the lock invariant. |
| `EventCallbacks.DeliveredInOrder` | src/ffi.rs:450-480 | In every interleaving callbacks arrive in order without a gap, and all of them unless stopped. |
| `EventCallbacks.SilentAfterStop` | src/ffi.rs:494-499 | In every interleaving, once `stop` has set the flag no callback is running or ever starts. |
| `EventCallbacks.StuckMeansStopped` | src/ffi.rs:450-541 | No deadlock: what cannot go on has a returned `stop` and a finished or aborted task. |
| `EventCallbacks.ExecutionsEnd` | src/ffi.rs:450-541 | Every interleaving of finitely many callbacks ends. |
| `EventCallbacks.CodesExactly` | src/ffi.rs:544-558 | The codes: 1 for a loss, 2 for a new session, 4 for an end by changed configuration, 3 for any other end. |
| `EventCallbacks.CallerSeesWellReported` | src/ffi.rs:616-652 | For every run and interleaving the caller sees a well-formed word of events with at most one final code, last, which is the run's own. |
| `EventCallbacks.EzvpnHandle.Run` | src/ffi.rs:428-481 | A pending session runs once; a failed `dup` leaves it pending; without one it is refused. |

## Left out

- PrepareIpDatagrams: the source prepares each segment inside the segmenter's callback; the model collects the segments first and then prepares them, which gives the same datagrams and counts because that callback never fails.
- WriteGroup: requires a run the planner marked, as its only caller does; the per-packet fallback is left out because it is proved unreachable.
- RunWithReconnect: takes the results of its connection attempts as a sequence and reports a run that outlasts it as still running, and so does the mobile session's `Run`; log lines are not modelled.
- SessionRoutes: takes the underlay gateways, which the code captures before any VPN route is in, to lie off the tunnel; the teardown of its guards is `RouteOwner.Drop`.
- The server (`server.rs`) is not part of this model: address pool, client isolation and spoofing checks.
- iroh and QUIC internals, relay probing, DNS, TLS, signatures: a connection is an object that may queue, refuse or fail.
- JSON and TOML: a server-address message is an opaque body, a handshake response is already decoded.
- TUN creation, ioctls and the operating systems' route commands: only their results on a routing table, with removals succeeding and no other process writing to it.
- The kernel's own segmentation of a super-frame is taken to be this code's segmenter, as the repository itself takes it at `src/tunnel/offload.rs:1594-1646`.
- Darwin's writer, spinning, byte-rate gating and buffer sizing: performance only.
- The heartbeat timers and the select loop of `run_tunnel`; only its writer task and control loop are modelled.
- Counters of type `u64` are unbounded; their overflow is not modelled.
- C strings, raw pointers, poisoned locks and the null callback of the C interface; a callback that calls `stop` itself, which the interface forbids.
- `overlap_error`, which wraps the conflict in an error, and status printing: easy members.
