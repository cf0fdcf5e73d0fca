/** Writing drained packets to the TUN device: batching, coalescing, and the writer task around it. */
module TunWriter {
  import opened Wrappers
  import opened Bytes
  import opened Virtio
  import opened Segmenter
  import opened Coalescer
  import opened Assembler
  import opened GsoRoundTrip

  /** The same packet to its receiver: byte-identical, or the same pure-data segment. */
  ghost predicate SamePacket(a: Packet, b: Packet) {
    a == b || SameSegment(a, b)
  }

  ghost predicate SamePackets(a: seq<Packet>, b: seq<Packet>) {
    |a| == |b| && forall k :: 0 <= k < |a| ==> SamePacket(a[k], b[k])
  }

  /** `out` is `sent` with some packets left out: nothing reordered, repeated or invented. */
  ghost predicate InOrder(out: seq<Packet>, sent: seq<Packet>) {
    || out == []
    || (sent != [] && (InOrder(out, sent[1..]) || (SamePacket(out[0], sent[0]) && InOrder(out[1..], sent[1..]))))
  }

  lemma {:induction false} SameIsInOrder(a: seq<Packet>, b: seq<Packet>)
    requires SamePackets(a, b)
    ensures InOrder(a, b)
  {
    hide SamePacket;
    if a != [] {
      SameIsInOrder(a[1..], b[1..]);
    }
  }

  lemma {:induction false} InOrderAppends(a: seq<Packet>, b: seq<Packet>, c: seq<Packet>, d: seq<Packet>)
    requires InOrder(a, b) && InOrder(c, d)
    ensures InOrder(a + c, b + d)
    decreases |b|
  {
    hide SamePacket;
    if b == [] {
      assert a + c == c && b + d == d;
    } else {
      assert (b + d)[0] == b[0] && (b + d)[1..] == b[1..] + d;
      if a == [] || InOrder(a, b[1..]) {
        InOrderAppends(a, b[1..], c, d);
      } else {
        InOrderAppends(a[1..], b[1..], c, d);
        assert (a + c)[0] == a[0] && (a + c)[1..] == a[1..] + c;
      }
    }
  }

  lemma SameAppends(a: seq<Packet>, b: seq<Packet>, c: seq<Packet>, d: seq<Packet>)
    requires SamePackets(a, b) && SamePackets(c, d)
    ensures SamePackets(a + c, b + d)
  {
  }

  /** The packets the kernel receives from the frames written to it. */
  function DeliverAll(frames: seq<Packet>, vnet: bool): seq<Packet> {
    if frames == [] then [] else DeliverAll(frames[..|frames| - 1], vnet) + Delivery(frames[|frames| - 1], vnet).segments
  }

  /** The packets a write request stands for. */
  function Meaning(offload: Option<VirtioNetHdr>, packet: Packet): seq<Packet> {
    if offload.None? then [packet] else Materialized(offload.value, packet).segments
  }

  /** Whatever `compose_tun_frame` accepts, the kernel reads as what the metadata means. */
  lemma ComposedMeans(vnet: bool, offload: Option<VirtioNetHdr>, packet: Packet)
    requires Composed(vnet, offload, packet).Ok?
    ensures Delivery(Composed(vnet, offload, packet).value, vnet).segments == Meaning(offload, packet)
  {
    hide SplitTunFrame, SegmentsOf, LayoutOf, Completed, ToBytes;
    SplitInvertsCompose(vnet, offload, packet);
    if offload.Some? {
      NumBuffersIgnored(offload.value, packet);
      if offload.value.gsoType == GSO_NONE && !offload.value.HasChecksumMetadata() {
        assert Materialized(offload.value, packet) == Emission([packet], None);
      }
    }
  }

  lemma NumBuffersIgnored(h: VirtioNetHdr, packet: Packet)
    ensures Materialized(h.(numBuffers := 0), packet) == Materialized(h, packet)
  {
    hide SegmentsOf, Completed, Chunks;
    assert LayoutOf(h.(numBuffers := 0), packet) == LayoutOf(h, packet);
  }

  /** Whatever happens, the kernel sees the old packets and then part of `sent`, in order; all of it on success. */
  ghost predicate Wrote(before: seq<Packet>, after: seq<Packet>, sent: seq<Packet>, ok: bool) {
    && |before| <= |after| && after[..|before|] == before
    && InOrder(after[|before|..], sent)
    && (ok ==> SamePackets(after[|before|..], sent))
  }

  lemma WroteThen(a: seq<Packet>, b: seq<Packet>, c: seq<Packet>, sent: seq<Packet>, more: seq<Packet>, ok: bool, okMore: bool)
    requires Wrote(a, b, sent, ok) && Wrote(b, c, more, okMore)
    ensures Wrote(a, c, sent + more, ok && okMore)
  {
    hide InOrder, SamePacket;
    assert c[..|a|] == c[..|b|][..|a|] == a;
    assert c[|a|..] == c[..|b|][|a|..] + c[|b|..];
    InOrderAppends(b[|a|..], sent, c[|b|..], more);
    if ok && okMore {
      SameAppends(b[|a|..], sent, c[|b|..], more);
    }
  }

  lemma WroteNothing(a: seq<Packet>, sent: seq<Packet>)
    ensures Wrote(a, a, sent, sent == [])
  {
    assert a[|a|..] == [];
  }

  lemma WroteSame(before: seq<Packet>, added: seq<Packet>, sent: seq<Packet>)
    requires SamePackets(added, sent)
    ensures Wrote(before, before + added, sent, true)
  {
    hide InOrder, SamePacket;
    assert (before + added)[|before|..] == added;
    SameIsInOrder(added, sent);
  }

  /** A plan carried out and re-segmented: super-frames for coalesced groups, single packets otherwise. */
  function Expanded(batch: seq<Packet>, groups: seq<Group>): seq<Packet>
    requires forall j :: 0 <= j < |groups| ==> groups[j].start < groups[j].end <= |batch|
  {
    if groups == [] then []
    else
      var g := groups[0];
      var frame := Superframe(batch[g.start..g.end]);
      (if !g.coalesce then [batch[g.start]]
       else if frame.Ok? then Delivery(frame.value, true).segments
       else batch[g.start..g.end])
      + Expanded(batch, groups[1..])
  }

  lemma {:induction false} GroupsInRange(batch: seq<Packet>, groups: seq<Group>, i: nat)
    requires GreedyRange(batch, groups, i, |batch|)
    ensures forall j :: 0 <= j < |groups| ==> groups[j].start < groups[j].end <= |batch|
  {
    hide Coalescible;
    if groups != [] {
      GroupsInRange(batch, groups[1..], groups[0].end);
      assert forall j :: 0 < j < |groups| ==> groups[j] == groups[1..][j - 1];
    }
  }

  /**
   For every batch, carrying out the plan and re-segmenting each super-frame gives the batch back, in
   order: write-side coalescing never reorders, loses, duplicates or mixes flows.
   */
  lemma {:induction false} PlanExpandsToBatch(batch: seq<Packet>, groups: seq<Group>, i: nat)
    requires i <= |batch| && GreedyRange(batch, groups, i, |batch|)
    ensures forall j :: 0 <= j < |groups| ==> groups[j].start < groups[j].end <= |batch|
    ensures SamePackets(Expanded(batch, groups), batch[i..])
    decreases |groups|
  {
    hide Coalescible, Superframe, Delivery, SamePacket, SameViews, SameSegments;
    GroupsInRange(batch, groups, i);
    if groups != [] {
      var g := groups[0];
      PlanExpandsToBatch(batch, groups[1..], g.end);
      var run := batch[g.start..g.end];
      assert batch[i..] == run + batch[g.end..];
      if g.coalesce {
        CoalesceThenSegment(run);
        SameSegmentsArePackets(run, Delivery(Superframe(run).value, true));
        SameAppends(Delivery(Superframe(run).value, true).segments, run, Expanded(batch, groups[1..]), batch[g.end..]);
      } else {
        assert run == [batch[g.start]];
        SameAsItself(run);
        SameAppends(run, run, Expanded(batch, groups[1..]), batch[g.end..]);
      }
    }
  }

  lemma SameAsItself(a: seq<Packet>)
    ensures SamePackets(a, a)
  {
  }

  datatype WriteError = BadFrame(FrameError) | Io

  class TunWriter {
    const vnetHdrEnabled: bool
    const offloadEnabled: bool
    var frames: seq<Packet>
    const scratch: Buffer
    /** How often the device failed a write. */
    ghost var refusals: nat

    constructor (vnetHdrEnabled: bool, offloadEnabled: bool)
      ensures this.vnetHdrEnabled == vnetHdrEnabled && this.offloadEnabled == offloadEnabled
      ensures frames == [] && refusals == 0 && fresh(scratch)
    {
      this.vnetHdrEnabled, this.offloadEnabled := vnetHdrEnabled, offloadEnabled;
      frames, refusals := [], 0;
      scratch := new Buffer();
    }

    /** Every packet the kernel has received so far. */
    ghost function Kernel(): seq<Packet>
      reads this
    {
      DeliverAll(frames, vnetHdrEnabled)
    }

    /** A write fails only where the device failed it, or at an empty packet, which no frame can carry. */
    ghost predicate FailsOnly(before: nat, batch: seq<Packet>, ok: bool)
      reads this
    {
      (ok ==> refusals == before) && (!ok ==> refusals == before + 1 || (refusals == before && [] in batch))
    }

    /** One write to the device, which may fail at any time. */
    method WriteAll(frame: Packet) returns (r: Result<(), WriteError>)
      modifies this
      ensures r.Ok? ==> frames == old(frames) + [frame] && refusals == old(refusals)
      ensures r.Err? ==> frames == old(frames) && refusals == old(refusals) + 1
    {
      if * {
        frames := frames + [frame];
        return Ok(());
      }
      refusals := refusals + 1;
      r := Err(Io);
    }

    method WritePacket(offload: Option<VirtioNetHdr>, packet: Packet) returns (r: Result<(), WriteError>)
      modifies this, scratch
      ensures Wrote(old(Kernel()), Kernel(), Meaning(offload, packet), r.Ok?)
      ensures Composed(vnetHdrEnabled, offload, packet).Err? ==> r.Err? && refusals == old(refusals)
      ensures Composed(vnetHdrEnabled, offload, packet).Ok? ==> refusals == old(refusals) + if r.Ok? then 0 else 1
      ensures |frames| == |old(frames)| + if r.Ok? then 1 else 0
    {
      hide Wrote, Meaning, Delivery, InOrder;
      WroteNothing(Kernel(), Meaning(offload, packet));
      WroteNotOk(Kernel(), Meaning(offload, packet));
      if !vnetHdrEnabled {
        if offload.Some? {
          return Err(BadFrame(OffloadWithoutVnetHeaders));
        }
        if packet == [] {
          return Err(BadFrame(EmptyIpPayload));
        }
        r := WriteAll(packet);
      } else {
        var composed := ComposeTunFrame(scratch, vnetHdrEnabled, offload, packet);
        if composed.Err? {
          return Err(BadFrame(composed.error));
        }
        r := WriteAll(scratch.bytes);
      }
      if r.Ok? {
        ComposedMeans(vnetHdrEnabled, offload, packet);
        WroteSame(old(Kernel()), Meaning(offload, packet), Meaning(offload, packet));
        DeliverOneMore(old(frames), Composed(vnetHdrEnabled, offload, packet).value, vnetHdrEnabled);
      }
    }

    /** Writes a run of two or more as one super-frame. The planner's runs always assemble, so the
        per-packet fallback is never taken; it would be `WritePackets` over the same packets. */
    method WriteGroup(run: seq<Packet>) returns (r: Result<(), WriteError>)
      requires vnetHdrEnabled && Coalescible(run) && |run| >= 2
      modifies this, scratch
      ensures Wrote(old(Kernel()), Kernel(), run, r.Ok?)
      ensures |frames| == |old(frames)| + (if r.Ok? then 1 else 0)
      ensures refusals == old(refusals) + (if r.Ok? then 0 else 1)
    {
      hide Wrote, Delivery, InOrder, Coalescible, Superframe, SameSegments;
      CoalesceThenSegment(run);
      WroteNotOk(Kernel(), run);
      var assembled := AssembleTcpGsoSuperframe(scratch, run);
      assert assembled.Ok?;
      r := WriteAll(scratch.bytes);
      if r.Ok? {
        SameSegmentsArePackets(run, Delivery(scratch.bytes, true));
        WroteSame(old(Kernel()), Delivery(scratch.bytes, true).segments, run);
        DeliverOneMore(old(frames), scratch.bytes, true);
      }
    }

    method WritePackets(batch: seq<Packet>) returns (r: Result<(), WriteError>)
      modifies this, scratch
      ensures Wrote(old(Kernel()), Kernel(), batch, r.Ok?) && FailsOnly(old(refusals), batch, r.Ok?)
      ensures r.Ok? ==> |frames| == |old(frames)| + |batch|
    {
      hide Wrote, Kernel, InOrder;
      var i := 0;
      WroteNothing(Kernel(), []);
      while i < |batch|
        invariant 0 <= i <= |batch| && |frames| == |old(frames)| + i && refusals == old(refusals)
        invariant Wrote(old(Kernel()), Kernel(), batch[..i], true)
      {
        ghost var mid := Kernel();
        r := WritePacket(None, batch[i]);
        WroteThen(old(Kernel()), mid, Kernel(), batch[..i], [batch[i]], true, r.Ok?);
        assert batch[..i] + [batch[i]] == batch[..i + 1];
        if r.Err? {
          WroteMore(old(Kernel()), Kernel(), batch[..i + 1], batch[i + 1..]);
          assert batch[..i + 1] + batch[i + 1..] == batch;
          return;
        }
        i := i + 1;
      }
      assert batch[..i] == batch;
      r := Ok(());
    }

    method WritePlannedGroups(batch: seq<Packet>, groups: seq<Group>) returns (r: Result<(), WriteError>)
      requires vnetHdrEnabled && GreedyPlan(batch, groups)
      modifies this, scratch
      ensures Wrote(old(Kernel()), Kernel(), batch, r.Ok?) && FailsOnly(old(refusals), batch, r.Ok?)
      ensures r.Ok? ==> |frames| == |old(frames)| + |groups|
    {
      hide Wrote, Kernel, InOrder, Coalescible;
      var j, i := 0, 0;
      WroteNothing(Kernel(), []);
      while j < |groups|
        invariant 0 <= j <= |groups| && 0 <= i <= |batch| && |frames| == |old(frames)| + j && refusals == old(refusals)
        invariant GreedyRange(batch, groups[j..], i, |batch|)
        invariant Wrote(old(Kernel()), Kernel(), batch[..i], true)
      {
        var g := groups[j];
        ghost var mid := Kernel();
        if !g.coalesce {
          r := WritePacket(None, batch[g.start]);
          assert batch[g.start..g.end] == [batch[g.start]];
        } else {
          r := WriteGroup(batch[g.start..g.end]);
        }
        WroteThen(old(Kernel()), mid, Kernel(), batch[..i], batch[i..g.end], true, r.Ok?);
        assert batch[..i] + batch[i..g.end] == batch[..g.end];
        if r.Err? {
          WroteMore(old(Kernel()), Kernel(), batch[..g.end], batch[g.end..]);
          assert batch[..g.end] + batch[g.end..] == batch;
          return;
        }
        assert groups[j..][1..] == groups[j + 1..];
        i, j := g.end, j + 1;
      }
      assert groups[j..] == [] && batch[..i] == batch;
      r := Ok(());
    }

    /** Writes a drained batch: coalesced when the device takes super-frames, packet by packet otherwise. */
    method WriteBatch(batch: seq<Packet>) returns (r: Result<(), WriteError>)
      modifies this, scratch
      ensures Wrote(old(Kernel()), Kernel(), batch, r.Ok?) && FailsOnly(old(refusals), batch, r.Ok?)
      ensures r.Ok? && !(vnetHdrEnabled && offloadEnabled) ==> |frames| == |old(frames)| + |batch|
      ensures r.Ok? && vnetHdrEnabled && offloadEnabled ==>
                forall groups :: GreedyPlan(batch, groups) ==> |frames| == |old(frames)| + |groups|
    {
      if !vnetHdrEnabled || !offloadEnabled {
        r := WritePackets(batch);
      } else {
        var groups := PlanTunWriteGroups(batch);
        forall other | GreedyPlan(batch, other)
          ensures other == groups
        {
          PlanIsUnique(batch, groups, other, 0);
        }
        r := WritePlannedGroups(batch, groups);
      }
    }
  }

  lemma DeliverOneMore(frames: seq<Packet>, frame: Packet, vnet: bool)
    ensures DeliverAll(frames + [frame], vnet) == DeliverAll(frames, vnet) + Delivery(frame, vnet).segments
  {
    hide Delivery;
    assert (frames + [frame])[..|frames|] == frames;
  }

  lemma WroteNotOk(a: seq<Packet>, sent: seq<Packet>)
    ensures Wrote(a, a, sent, false)
  {
    assert a[|a|..] == [];
  }

  lemma WroteMore(a: seq<Packet>, b: seq<Packet>, sent: seq<Packet>, more: seq<Packet>)
    requires Wrote(a, b, sent, false)
    ensures Wrote(a, b, sent + more, false)
  {
    hide Wrote;
    WroteNotOk(b, more);
    WroteThen(a, b, b, sent, more, false, false);
  }

  lemma SameSegmentsArePackets(run: seq<Packet>, e: Emission)
    requires SameSegments(e, run)
    ensures SamePackets(e.segments, run)
  {
    hide SameSegment;
  }

  // ---- The writer task -------------------------------------------------------------------------

  const MAX_TUN_WRITE_FAILURES: nat := 10

  datatype Request = Request(packet: Packet, offload: Option<VirtioNetHdr>)

  function MeaningAll(requests: seq<Request>): seq<Packet> {
    if requests == [] then []
    else
      var last := requests[|requests| - 1];
      MeaningAll(requests[..|requests| - 1]) + Meaning(last.offload, last.packet)
  }

  /** How many writes at the end of the log failed in a row. */
  function FailedInARow(log: seq<bool>): nat {
    if log == [] || log[|log| - 1] then 0 else 1 + FailedInARow(log[..|log| - 1])
  }

  function Failures(log: seq<bool>): nat {
    if log == [] then 0 else Failures(log[..|log| - 1]) + if log[|log| - 1] then 0 else 1
  }

  function Empties(run: seq<Packet>): nat {
    if run == [] then 0 else Empties(run[..|run| - 1]) + if run[|run| - 1] == [] then 1 else 0
  }

  lemma EmptiesSnoc(run: seq<Packet>, p: Packet)
    ensures Empties(run + [p]) == Empties(run) + if p == [] then 1 else 0
  {
    assert (run + [p])[..|run|] == run;
  }

  lemma {:induction false} EmptiesFound(run: seq<Packet>)
    ensures [] in run ==> Empties(run) > 0
    ensures Empties([]) == 0
  {
    if run != [] {
      EmptiesFound(run[..|run| - 1]);
      assert run == run[..|run| - 1] + [run[|run| - 1]];
    }
  }

  ghost predicate AllOk(log: seq<bool>) {
    forall k :: 0 <= k < |log| ==> log[k]
  }

  class WriterTask {
    const tun: TunWriter
    var consecutiveFailures: nat
    var plainRun: seq<Packet>
    /** Whether each write of the writer's life succeeded. */
    ghost var log: seq<bool>
    /** What the kernel held when the writer started, and every packet offered to it since. */
    ghost const start: seq<Packet>
    ghost var written: seq<Packet>
    /** How often the device had failed when the writer started, and how many requests since fit no frame. */
    ghost const startRefusals: nat
    ghost var unframed: nat

    constructor (tun: TunWriter)
      ensures this.tun == tun && Valid() && Running()
      ensures start == tun.Kernel() && plainRun == [] && written == [] && log == [] && unframed == 0
    {
      this.tun := tun;
      start, startRefusals := tun.Kernel(), tun.refusals;
      consecutiveFailures, plainRun, log, written, unframed := 0, [], [], [], 0;
      new;
      WroteNothing(tun.Kernel(), []);
    }

    /** The counter is the failed streak of the log, which never reached the limit before the last write. */
    ghost predicate Counted()
      reads this
    {
      && consecutiveFailures == FailedInARow(log) <= MAX_TUN_WRITE_FAILURES
      && forall k :: 0 <= k < |log| ==> FailedInARow(log[..k]) < MAX_TUN_WRITE_FAILURES
    }

    /** Each failure has its own cause: the device failed, or a request fit no frame. */
    ghost predicate Explained()
      reads this, tun
    {
      && tun.refusals >= startRefusals
      && Failures(log) + Empties(plainRun) <= tun.refusals - startRefusals + unframed
    }

    /** Over the whole life of the writer the kernel has received a part, in order, of what was offered,
        and all of it when no write failed. */
    ghost predicate Valid()
      reads this, tun
    {
      Counted() && Explained() && Wrote(start, tun.Kernel(), written, AllOk(log))
    }

    ghost predicate Running()
      reads this
    {
      consecutiveFailures < MAX_TUN_WRITE_FAILURES
    }

    method NoteWriteResult(result: Result<(), WriteError>) returns (stop: bool)
      requires Counted() && Running()
      modifies this`consecutiveFailures, this`log
      ensures Counted() && log == old(log) + [result.Ok?]
      ensures stop <==> !Running()
      ensures stop <==> FailedInARow(log) >= 10
    {
      assert (log + [result.Ok?])[..|log|] == log;
      forall k | 0 <= k <= |log|
        ensures FailedInARow((log + [result.Ok?])[..k]) < MAX_TUN_WRITE_FAILURES
      {
        assert (log + [result.Ok?])[..k] == log[..k];
        assert log[..|log|] == log;
      }
      log := log + [result.Ok?];
      consecutiveFailures := if result.Ok? then 0 else consecutiveFailures + 1;
      stop := consecutiveFailures >= MAX_TUN_WRITE_FAILURES;
    }

    /** Writes out the buffered run of metadata-less packets. */
    method FlushPlainRun() returns (stop: bool)
      requires Valid() && Running()
      modifies this, tun, tun.scratch
      ensures Valid() && plainRun == [] && written == old(written) + old(plainRun) && unframed == old(unframed)
      ensures stop <==> !Running()
    {
      hide Wrote, FailedInARow, Failures, Empties, AllOk;
      EmptiesFound(plainRun);
      ghost var was, kernel := log, tun.Kernel();
      var result := tun.WriteBatch(plainRun);
      WroteThen(start, kernel, tun.Kernel(), written, plainRun, AllOk(was), result.Ok?);
      written := written + plainRun;
      plainRun := [];
      stop := NoteWriteResult(result);
      AllOkSnoc(was, result.Ok?);
    }

    /** Writes one packet that carries metadata. */
    method WriteRequest(req: Request) returns (stop: bool)
      requires Valid() && Running() && plainRun == []
      modifies this, tun, tun.scratch
      ensures Valid() && plainRun == [] && written == old(written) + Meaning(req.offload, req.packet)
      ensures unframed == old(unframed) + if Framed(req) then 0 else 1
      ensures stop <==> !Running()
    {
      hide Wrote, FailedInARow, Meaning, Failures, Empties, AllOk;
      ghost var was, kernel := log, tun.Kernel();
      var result := tun.WritePacket(req.offload, req.packet);
      WroteThen(start, kernel, tun.Kernel(), written, Meaning(req.offload, req.packet), AllOk(was), result.Ok?);
      written := written + Meaning(req.offload, req.packet);
      unframed := unframed + if Framed(req) then 0 else 1;
      stop := NoteWriteResult(result);
      AllOkSnoc(was, result.Ok?);
    }

    ghost predicate Framed(req: Request) {
      Composed(tun.vnetHdrEnabled, req.offload, req.packet).Ok?
    }

    /** One request of a drained batch: buffered when plain, otherwise written behind the buffered run. */
    method TakeRequest(req: Request) returns (stop: bool)
      requires Valid() && Running()
      modifies this, tun, tun.scratch
      ensures Valid() && (stop <==> !Running())
      ensures written + plainRun <= old(written) + old(plainRun) + Meaning(req.offload, req.packet)
      ensures !stop ==> written + plainRun == old(written) + old(plainRun) + Meaning(req.offload, req.packet)
      ensures Framed(req) ==> unframed == old(unframed)
    {
      hide Valid, Meaning, Framed;
      ghost var was, meaning := written + plainRun, Meaning(req.offload, req.packet);
      if req.offload.None? {
        PlainMeaning(req.packet);
        BufferPlain(req);
        assert written + plainRun == was + meaning;
        return false;
      }
      if plainRun != [] {
        stop := FlushPlainRun();
        assert written + plainRun == was;
        if stop {
          return;
        }
      }
      assert written == was;
      stop := WriteRequest(req);
      assert written + plainRun == was + meaning;
    }

    method BufferPlain(req: Request)
      requires Valid() && req.offload.None?
      modifies this`plainRun, this`unframed
      ensures Valid() && plainRun == old(plainRun) + [req.packet]
      ensures unframed == old(unframed) + if Framed(req) then 0 else 1
    {
      hide Wrote, FailedInARow, ToBytes, Failures, Empties, AllOk;
      EmptiesSnoc(plainRun, req.packet);
      plainRun := plainRun + [req.packet];
      unframed := unframed + if Framed(req) then 0 else 1;
    }

    /** One drained channel batch. Every request's packets are offered to the device in arrival order,
        unless the writer stops first. */
    method Round(batch: seq<Request>) returns (stop: bool)
      requires Valid() && Running() && plainRun == []
      modifies this, tun, tun.scratch
      ensures Valid() && (stop <==> !Running())
      ensures written <= old(written) + MeaningAll(batch)
      ensures !stop ==> plainRun == [] && written == old(written) + MeaningAll(batch)
      ensures (forall i :: 0 <= i < |batch| ==> Framed(batch[i])) ==> unframed == old(unframed)
    {
      hide Valid, Meaning, Framed;
      for i := 0 to |batch|
        invariant Valid() && Running()
        invariant (forall i :: 0 <= i < |batch| ==> Framed(batch[i])) ==> unframed == old(unframed)
        invariant written + plainRun == old(written) + MeaningAll(batch[..i])
      {
        MeaningSnoc(batch, i);
        var was := written + plainRun;
        stop := TakeRequest(batch[i]);
        if stop {
          var rest := MeaningSplit(batch, i + 1);
          assert was + Meaning(batch[i].offload, batch[i].packet) + rest == old(written) + MeaningAll(batch);
          return;
        }
      }
      assert batch[..|batch|] == batch;
      stop := false;
      if plainRun != [] {
        stop := FlushPlainRun();
      }
    }
  }

  lemma MeaningSnoc(batch: seq<Request>, i: nat)
    requires i < |batch|
    ensures MeaningAll(batch[..i + 1]) == MeaningAll(batch[..i]) + Meaning(batch[i].offload, batch[i].packet)
  {
    hide Meaning;
    assert batch[..i + 1][..i] == batch[..i];
  }

  lemma AllOkSnoc(log: seq<bool>, ok: bool)
    ensures AllOk(log + [ok]) <==> AllOk(log) && ok
    ensures Failures(log + [ok]) == Failures(log) + if ok then 0 else 1
  {
    assert (log + [ok])[..|log|] == log;
    if AllOk(log + [ok]) {
      assert forall k :: 0 <= k < |log| ==> (log + [ok])[k] == log[k];
      assert (log + [ok])[|log|] == ok;
    }
  }

  lemma PlainMeaning(packet: Packet)
    ensures Meaning(None, packet) == [packet]
  {
  }

  lemma {:induction false} MeaningSplit(batch: seq<Request>, i: nat) returns (rest: seq<Packet>)
    requires i <= |batch|
    ensures MeaningAll(batch) == MeaningAll(batch[..i]) + rest
  {
    hide Meaning;
    if i == |batch| {
      rest := [];
      assert batch[..i] == batch;
    } else {
      var n := |batch| - 1;
      rest := MeaningSplit(batch[..n], i);
      assert batch[..n][..i] == batch[..i];
      rest := rest + Meaning(batch[n].offload, batch[n].packet);
    }
  }
}
