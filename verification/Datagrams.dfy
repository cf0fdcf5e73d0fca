/** Mapping packets to QUIC datagrams and queueing them on a connection. */
module Datagrams {
  import opened Wrappers
  import opened Bytes
  import opened Virtio
  import opened Segmenter

  datatype SendError = TooLarge | UnsupportedByPeer | Disabled | ConnectionLost

  /** What became of one datagram. */
  datatype Fate = Sent | DroppedTooLarge | DroppedOther

  datatype Outcome = Outcome(sent: nat, droppedTooLarge: nat, droppedOther: nat) {
    function Count(f: Fate): Outcome {
      match f
      case Sent => this.(sent := sent + 1)
      case DroppedTooLarge => this.(droppedTooLarge := droppedTooLarge + 1)
      case DroppedOther => this.(droppedOther := droppedOther + 1)
    }
  }

  function Tally(start: Outcome, fates: seq<Fate>): Outcome {
    if fates == [] then start else Tally(start, fates[..|fates| - 1]).Count(fates[|fates| - 1])
  }

  /** The datagrams that met fate `f`, in order. */
  function Those(datagrams: seq<Packet>, fates: seq<Fate>, f: Fate): seq<Packet>
    requires |fates| <= |datagrams|
  {
    if fates == [] then []
    else
      var n := |fates| - 1;
      Those(datagrams, fates[..n], f) + (if fates[n] == f then [datagrams[n]] else [])
  }

  /** Every datagram counted exactly once. */
  lemma {:induction false} TallyCountsAll(start: Outcome, fates: seq<Fate>)
    ensures var o := Tally(start, fates);
            && o.sent + o.droppedTooLarge + o.droppedOther == start.sent + start.droppedTooLarge + start.droppedOther + |fates|
            && o.sent == start.sent + |multiset(fates)| - multiset(fates)[DroppedTooLarge] - multiset(fates)[DroppedOther]
            && o.droppedTooLarge == start.droppedTooLarge + multiset(fates)[DroppedTooLarge]
            && o.droppedOther == start.droppedOther + multiset(fates)[DroppedOther]
  {
    if fates != [] {
      var n := |fates| - 1;
      TallyCountsAll(start, fates[..n]);
      assert fates == fates[..n] + [fates[n]];
    }
  }

  /** A QUIC connection: it may queue, refuse or fail at will, but queues only what it is given, in order. */
  class Connection {
    var queued: seq<Packet>
    /** The datagrams it refused one by one as too large, and every other error it reported. */
    ghost var oversized: seq<Packet>
    ghost var errors: seq<SendError>

    constructor ()
      ensures queued == [] && oversized == [] && errors == []
    {
      queued, oversized, errors := [], [], [];
    }

    /** Queues the longest prefix the send buffer holds; an error queues nothing. */
    method TrySendMany(rest: seq<Packet>) returns (r: Result<nat, SendError>)
      modifies this
      ensures r.Ok? ==> r.value <= |rest| && queued == old(queued) + rest[..r.value]
      ensures r.Err? ==> queued == old(queued)
      ensures oversized == old(oversized)
      ensures errors == old(errors) + if r.Err? && r.error != TooLarge then [r.error] else []
    {
      if * {
        var e: SendError :| true;
        errors := errors + if e != TooLarge then [e] else [];
        return Err(e);
      }
      var n: nat :| n <= |rest|;
      queued := queued + rest[..n];
      r := Ok(n);
    }

    /** Waits for room for one datagram. */
    method SendWait(datagram: Packet) returns (r: Result<(), SendError>)
      modifies this
      ensures queued == old(queued) + if r.Ok? then [datagram] else []
      ensures oversized == old(oversized) + if r == Err(TooLarge) then [datagram] else []
      ensures errors == old(errors) + if r.Err? && r.error != TooLarge then [r.error] else []
    {
      if * {
        var e: SendError :| true;
        oversized := oversized + if e == TooLarge then [datagram] else [];
        errors := errors + if e != TooLarge then [e] else [];
        return Err(e);
      }
      queued := queued + [datagram];
      r := Ok(());
    }
  }

  /** The counters a caller lends out (`&mut DatagramSendOutcome`). */
  class OutcomeCell {
    var value: Outcome

    constructor ()
      ensures value == Outcome(0, 0, 0)
    {
      value := Outcome(0, 0, 0);
    }
  }

  function Repeat(f: Fate, n: nat): (fates: seq<Fate>)
    ensures |fates| == n && forall k :: 0 <= k < n ==> fates[k] == f
  {
    seq(n, _ => f)
  }

  lemma RepeatSnoc(f: Fate, n: nat)
    requires n > 0
    ensures Repeat(f, n) == Repeat(f, n - 1) + [f]
  {
  }

  lemma TallyOne(start: Outcome, fates: seq<Fate>, f: Fate)
    ensures Tally(start, fates + [f]) == Tally(start, fates).Count(f)
  {
    assert (fates + [f])[..|fates|] == fates;
  }

  lemma OneMore(datagrams: seq<Packet>, fates: seq<Fate>, f: Fate, g: Fate)
    requires |fates| < |datagrams|
    ensures Those(datagrams, fates + [f], g) == Those(datagrams, fates, g) + if f == g then [datagrams[|fates|]] else []
  {
    assert (fates + [f])[..|fates|] == fates;
  }

  /** A run of equal fates adds its length to one counter, and its datagrams to the sent ones if they were sent. */
  lemma {:induction false} RunOfFates(start: Outcome, datagrams: seq<Packet>, fates: seq<Fate>, f: Fate, n: nat)
    requires |fates| + n <= |datagrams|
    ensures var o := Tally(start, fates);
            Tally(start, fates + Repeat(f, n)) ==
            Outcome(o.sent + (if f == Sent then n else 0),
                    o.droppedTooLarge + (if f == DroppedTooLarge then n else 0),
                    o.droppedOther + (if f == DroppedOther then n else 0))
    ensures forall g :: Those(datagrams, fates + Repeat(f, n), g) ==
                        Those(datagrams, fates, g) + if f == g then datagrams[|fates|..|fates| + n] else []
  {
    if n == 0 {
      assert fates + Repeat(f, 0) == fates;
    } else {
      RunOfFates(start, datagrams, fates, f, n - 1);
      RepeatSnoc(f, n);
      var shorter := fates + Repeat(f, n - 1);
      assert fates + Repeat(f, n) == shorter + [f];
      TallyOne(start, shorter, f);
      forall g
        ensures Those(datagrams, shorter + [f], g) == Those(datagrams, shorter, g) + if f == g then [datagrams[|shorter|]] else []
      {
        OneMore(datagrams, shorter, f, g);
      }
    }
  }

  /** Where the counters, the queue and the refusals stood before a batch. */
  datatype Books = Books(outcome: Outcome, queued: seq<Packet>, oversized: seq<Packet>)

  /** The books balance: counters, queue and refusals tell the same story as the fates so far. */
  ghost predicate Balanced(start: Books, datagrams: seq<Packet>, fates: seq<Fate>, outcome: OutcomeCell, conn: Connection)
    reads outcome, conn
  {
    && |fates| <= |datagrams|
    && outcome.value == Tally(start.outcome, fates)
    && conn.queued == start.queued + Those(datagrams, fates, Sent)
    && conn.oversized == start.oversized + Those(datagrams, fates, DroppedTooLarge)
  }

  /** From some index on, and only there, datagrams were dropped for another reason than their size. */
  ghost predicate CutOffAt(fates: seq<Fate>, k: nat) {
    k <= |fates| && forall i :: 0 <= i < |fates| ==> (fates[i] == DroppedOther <==> i >= k)
  }

  lemma CutOff(fates: seq<Fate>, n: nat)
    requires DroppedOther !in fates
    ensures CutOffAt(fates + Repeat(DroppedOther, n), |fates|)
  {
    forall i | 0 <= i < |fates|
      ensures (fates + Repeat(DroppedOther, n))[i] != DroppedOther
    {
      assert fates[i] in fates;
    }
  }

  /** One datagram has met its fate: the books balance with it. */
  lemma Settled(start: Books, datagrams: seq<Packet>, fates: seq<Fate>, f: Fate)
    requires |fates| < |datagrams| && f != DroppedOther && DroppedOther !in fates
    ensures Tally(start.outcome, fates + [f]) == Tally(start.outcome, fates).Count(f)
    ensures Those(datagrams, fates + [f], Sent) == Those(datagrams, fates, Sent) + if f == Sent then [datagrams[|fates|]] else []
    ensures Those(datagrams, fates + [f], DroppedTooLarge) ==
            Those(datagrams, fates, DroppedTooLarge) + if f == DroppedTooLarge then [datagrams[|fates|]] else []
    ensures DroppedOther !in fates + [f]
  {
    TallyOne(start.outcome, fates, f);
    OneMore(datagrams, fates, f, Sent);
    OneMore(datagrams, fates, f, DroppedTooLarge);
  }

  /** Gives up on everything not yet settled. */
  method DropRest(conn: Connection, datagrams: seq<Packet>, outcome: OutcomeCell, ghost start: Books, ghost before: seq<Fate>, left: nat)
    returns (ghost fates: seq<Fate>)
    requires |before| + left == |datagrams| && left > 0 && DroppedOther !in before
    requires Balanced(start, datagrams, before, outcome, conn)
    modifies outcome
    ensures |fates| == |datagrams| && Balanced(start, datagrams, fates, outcome, conn)
    ensures CutOffAt(fates, |before|)
  {
    hide Tally, Those;
    RunOfFates(start.outcome, datagrams, before, DroppedOther, left);
    CutOff(before, left);
    outcome.value := outcome.value.(droppedOther := outcome.value.droppedOther + left);
    fates := before + Repeat(DroppedOther, left);
  }

  /** Sends one datagram, waiting for room; an error other than its size gives up on it and the rest. */
  method SendOne(conn: Connection, datagrams: seq<Packet>, outcome: OutcomeCell, index: nat, ghost start: Books, ghost before: seq<Fate>)
    returns (r: Result<(), SendError>, ghost fates: seq<Fate>)
    requires index == |before| < |datagrams| && DroppedOther !in before
    requires Balanced(start, datagrams, before, outcome, conn)
    modifies conn, outcome
    ensures Balanced(start, datagrams, fates, outcome, conn)
    ensures r.Ok? ==> |fates| == |before| + 1 && DroppedOther !in fates && conn.errors == old(conn.errors)
    ensures r.Err? ==> |fates| == |datagrams| && CutOffAt(fates, index)
    ensures r.Err? ==> r.error != TooLarge && conn.errors == old(conn.errors) + [r.error]
  {
    hide Tally, Those;
    var sent := conn.SendWait(datagrams[index]);
    if sent.Err? && sent.error != TooLarge {
      fates := DropRest(conn, datagrams, outcome, start, before, |datagrams| - index);
      return Err(sent.error), fates;
    }
    var fate := if sent.Ok? then Sent else DroppedTooLarge;
    Settled(start, datagrams, before, fate);
    outcome.value := outcome.value.Count(fate);
    fates := before + [fate];
    r := Ok(());
  }

  /** Sends datagrams one at a time, each waiting for room, from index `from` on. */
  method SendEach(conn: Connection, datagrams: seq<Packet>, outcome: OutcomeCell, from: nat, ghost start: Books, ghost before: seq<Fate>)
    returns (r: Result<(), SendError>, ghost fates: seq<Fate>)
    requires from == |before| <= |datagrams| && DroppedOther !in before
    requires Balanced(start, datagrams, before, outcome, conn)
    modifies conn, outcome
    ensures |fates| == |datagrams| && Balanced(start, datagrams, fates, outcome, conn)
    ensures r.Ok? ==> DroppedOther !in fates && conn.errors == old(conn.errors)
    ensures r.Err? ==> r.error != TooLarge && conn.errors == old(conn.errors) + [r.error]
    ensures r.Err? ==> exists k: nat :: k < |datagrams| && CutOffAt(fates, k)
  {
    hide Balanced;
    fates := before;
    var index := from;
    while index < |datagrams|
      invariant from <= index == |fates| <= |datagrams| && DroppedOther !in fates
      invariant Balanced(start, datagrams, fates, outcome, conn) && conn.errors == old(conn.errors)
    {
      r, fates := SendOne(conn, datagrams, outcome, index, start, fates);
      if r.Err? {
        return;
      }
      index := index + 1;
    }
    r := Ok(());
  }

  /**
   Queues a batch on the connection, whatever the connection does. It terminates; every datagram is
   counted exactly once; the queued ones are an in-order part of the batch; success drops only the
   datagrams that the connection itself refused as too large; an error is the connection's own and drops
   exactly a tail.
   */
  method SendDatagramBatch(conn: Connection, datagrams: seq<Packet>, outcome: OutcomeCell)
    returns (r: Result<(), SendError>, ghost fates: seq<Fate>)
    modifies conn, outcome
    ensures |fates| == |datagrams|
    ensures outcome.value == Tally(old(outcome.value), fates)
    ensures conn.queued == old(conn.queued) + Those(datagrams, fates, Sent)
    ensures conn.oversized == old(conn.oversized) + Those(datagrams, fates, DroppedTooLarge)
    ensures r.Ok? ==> DroppedOther !in fates && conn.errors == old(conn.errors)
    ensures r.Err? ==> r.error != TooLarge && conn.errors == old(conn.errors) + [r.error]
    ensures r.Err? ==> exists k: nat :: k < |datagrams| && CutOffAt(fates, k)
  {
    hide Those, Tally;
    ghost var start := Books(outcome.value, conn.queued, conn.oversized);
    fates := [];
    NothingSettled(start, datagrams);
    var done := 0;
    while done < |datagrams|
      invariant done == |fates| <= |datagrams| && DroppedOther !in fates
      invariant Balanced(start, datagrams, fates, outcome, conn) && conn.errors == old(conn.errors)
      decreases |datagrams| - done
    {
      var rest := datagrams[done..];
      var tried := conn.TrySendMany(rest);
      match tried
      case Ok(queued) =>
        if queued == 0 {
          r, fates := SendOne(conn, datagrams, outcome, done, start, fates);
          if r.Err? {
            return;
          }
          done := done + 1;
        } else {
          RunOfFates(start.outcome, datagrams, fates, Sent, queued);
          assert rest[..queued] == datagrams[done..done + queued];
          outcome.value := outcome.value.(sent := outcome.value.sent + queued);
          fates := fates + Repeat(Sent, queued);
          done := done + queued;
        }
      case Err(TooLarge) =>
        r, fates := SendEach(conn, datagrams, outcome, done, start, fates);
        return;
      case Err(e) =>
        fates := DropRest(conn, datagrams, outcome, start, fates, |rest|);
        return Err(e), fates;
    }
    r := Ok(());
  }

  lemma NothingSettled(start: Books, datagrams: seq<Packet>)
    ensures Tally(start.outcome, []) == start.outcome
    ensures Those(datagrams, [], Sent) == [] && Those(datagrams, [], DroppedTooLarge) == []
  {
  }

  // ---- Preparation -----------------------------------------------------------------------------

  /** Copies a packet through the arena; the arena is drained again and the packet comes out unchanged. */
  method CopyPacketToArena(arena: Buffer, packet: Packet) returns (bytes: Packet)
    requires arena.bytes == []
    modifies arena
    ensures bytes == packet && arena.bytes == []
  {
    arena.bytes := arena.bytes + packet;
    bytes := arena.bytes[..|packet|];
    arena.bytes := arena.bytes[|packet|..];
  }

  /** A queued packet's fate before it is sent: kept, or dropped with its counter. */
  function PrepareFate(maxSize: Option<nat>, packet: Packet): Option<Fate> {
    if maxSize.None? then Some(DroppedOther)
    else if |packet| <= maxSize.value then None
    else Some(DroppedTooLarge)
  }

  function Fitting(maxSize: Option<nat>, packets: seq<Packet>): seq<Packet> {
    if packets == [] then []
    else
      var n := |packets| - 1;
      Fitting(maxSize, packets[..n]) + if PrepareFate(maxSize, packets[n]).None? then [packets[n]] else []
  }

  function Refused(maxSize: Option<nat>, packets: seq<Packet>): seq<Fate> {
    if packets == [] then []
    else
      var n := |packets| - 1;
      Refused(maxSize, packets[..n]) + match PrepareFate(maxSize, packets[n]) case None => [] case Some(f) => [f]
  }

  /** Every packet is either kept, within the limit and in order, or counted as dropped. */
  lemma {:induction false} PreparationAccounts(maxSize: Option<nat>, packets: seq<Packet>)
    ensures |Fitting(maxSize, packets)| + |Refused(maxSize, packets)| == |packets|
    ensures forall p :: p in Fitting(maxSize, packets) ==> p in packets && maxSize.Some? && |p| <= maxSize.value
    ensures forall p :: p in packets && p !in Fitting(maxSize, packets) ==> maxSize.None? || |p| > maxSize.value
    ensures Sent !in Refused(maxSize, packets)
    ensures maxSize.Some? ==> DroppedOther !in Refused(maxSize, packets)
    ensures maxSize.None? ==> DroppedTooLarge !in Refused(maxSize, packets)
  {
    if packets != [] {
      var n := |packets| - 1;
      PreparationAccounts(maxSize, packets[..n]);
      assert packets == packets[..n] + [packets[n]];
    }
  }

  /** In order, one by one: a packet is kept iff it fits, and otherwise counted by why it does not. */
  lemma PreparedInOrder(maxSize: Option<nat>, a: seq<Packet>, b: seq<Packet>, p: Packet)
    ensures Fitting(maxSize, a + b) == Fitting(maxSize, a) + Fitting(maxSize, b)
    ensures Refused(maxSize, a + b) == Refused(maxSize, a) + Refused(maxSize, b)
    ensures Fitting(maxSize, [p]) == if maxSize.Some? && |p| <= maxSize.value then [p] else []
    ensures Refused(maxSize, [p]) == if maxSize.None? then [DroppedOther] else if |p| > maxSize.value then [DroppedTooLarge] else []
  {
    FittingAppend(maxSize, a, b);
    RefusedAppend(maxSize, a, b);
    assert [p][..0] == [];
  }

  lemma FittingStep(maxSize: Option<nat>, a: seq<Packet>, p: Packet)
    ensures Fitting(maxSize, a + [p]) == Fitting(maxSize, a) + if PrepareFate(maxSize, p).None? then [p] else []
  {
    hide PrepareFate;
    assert (a + [p])[..|a|] == a;
  }

  lemma {:induction false} FittingAppend(maxSize: Option<nat>, a: seq<Packet>, b: seq<Packet>)
    ensures Fitting(maxSize, a + b) == Fitting(maxSize, a) + Fitting(maxSize, b)
    decreases |b|
  {
    hide PrepareFate, Fitting;
    if b == [] {
      assert a + b == a;
      PrepareNone(maxSize, Outcome(0, 0, 0));
    } else {
      var front, p := b[..|b| - 1], b[|b| - 1];
      FittingAppend(maxSize, a, front);
      FittingStep(maxSize, a + front, p);
      FittingStep(maxSize, front, p);
      assert front + [p] == b && (a + front) + [p] == a + b;
    }
  }

  lemma RefusedStep(maxSize: Option<nat>, a: seq<Packet>, p: Packet)
    ensures Refused(maxSize, a + [p]) == Refused(maxSize, a) + match PrepareFate(maxSize, p) { case None => [] case Some(f) => [f] }
  {
    hide PrepareFate;
    assert (a + [p])[..|a|] == a;
  }

  lemma {:induction false} RefusedAppend(maxSize: Option<nat>, a: seq<Packet>, b: seq<Packet>)
    ensures Refused(maxSize, a + b) == Refused(maxSize, a) + Refused(maxSize, b)
    decreases |b|
  {
    hide PrepareFate, Refused;
    if b == [] {
      assert a + b == a;
      PrepareNone(maxSize, Outcome(0, 0, 0));
    } else {
      var front, p := b[..|b| - 1], b[|b| - 1];
      RefusedAppend(maxSize, a, front);
      RefusedStep(maxSize, a + front, p);
      RefusedStep(maxSize, front, p);
      assert front + [p] == b && (a + front) + [p] == a + b;
    }
  }

  class Preparation {
    const arena: Buffer
    const segScratch: Buffer
    var pending: seq<Packet>
    const outcome: OutcomeCell

    constructor ()
      ensures pending == [] && fresh(arena) && fresh(segScratch) && fresh(outcome)
      ensures arena.bytes == [] && arena != segScratch
    {
      arena := new Buffer();
      segScratch := new Buffer();
      outcome := new OutcomeCell();
      pending := [];
    }

    method PrepareOneDatagram(maxSize: Option<nat>, packet: Packet)
      requires arena.bytes == []
      modifies this, arena, outcome
      ensures arena.bytes == []
      ensures pending == old(pending) + if PrepareFate(maxSize, packet).None? then [packet] else []
      ensures outcome.value == match PrepareFate(maxSize, packet)
                               case None => old(outcome.value)
                               case Some(f) => old(outcome.value).Count(f)
      ensures maxSize.Some? && |packet| <= maxSize.value ==> pending == old(pending) + [packet] && outcome.value == old(outcome.value)
      ensures maxSize.Some? && |packet| > maxSize.value ==>
                pending == old(pending) && outcome.value == old(outcome.value).(droppedTooLarge := old(outcome.value).droppedTooLarge + 1)
      ensures maxSize.None? ==>
                pending == old(pending) && outcome.value == old(outcome.value).(droppedOther := old(outcome.value).droppedOther + 1)
    {
      match maxSize {
        case Some(max) =>
          if |packet| > max {
            outcome.value := outcome.value.(droppedTooLarge := outcome.value.droppedTooLarge + 1);
            return;
          }
        case None =>
          outcome.value := outcome.value.(droppedOther := outcome.value.droppedOther + 1);
          return;
      }
      var copy := CopyPacketToArena(arena, packet);
      pending := pending + [copy];
    }

    /** Turns one TUN packet into datagrams: each plain packet its metadata stands for, as far as it fits. */
    method PrepareIpDatagrams(maxSize: Option<nat>, offload: Option<VirtioNetHdr>, packet: Packet)
      requires arena.bytes == [] && arena != segScratch
      modifies this, arena, segScratch, outcome
      ensures arena.bytes == []
      ensures var e := if offload.Some? then Materialized(offload.value, packet) else Emission([packet], None);
              && pending == old(pending) + Fitting(maxSize, e.segments)
              && outcome.value ==
                 Tally(old(outcome.value), Refused(maxSize, e.segments) + if e.error.Some? then [DroppedOther] else [])
    {
      hide Materialized, Refused, Fitting, Tally;
      ghost var o0, p0 := outcome.value, pending;
      var segments, failed := [packet], false;
      if offload.Some? {
        var sink := new Sink(None);
        var r := MaterializeOffloadInto(offload.value, packet, segScratch, sink);
        segments, failed := sink.emitted, r.Err?;
      }
      PrepareNone(maxSize, o0);
      for i := 0 to |segments|
        invariant arena.bytes == []
        invariant pending == p0 + Fitting(maxSize, segments[..i])
        invariant outcome.value == Tally(o0, Refused(maxSize, segments[..i]))
      {
        PrepareSnoc(maxSize, segments, i, o0);
        PrepareOneDatagram(maxSize, segments[i]);
      }
      assert segments[..|segments|] == segments;
      if failed {
        TallyOne(o0, Refused(maxSize, segments), DroppedOther);
        outcome.value := outcome.value.(droppedOther := outcome.value.droppedOther + 1);
      }
      assert Refused(maxSize, segments) + [] == Refused(maxSize, segments);
    }
  }

  lemma PrepareNone(maxSize: Option<nat>, o: Outcome)
    ensures Fitting(maxSize, []) == [] && Refused(maxSize, []) == [] && Tally(o, []) == o
  {
  }

  lemma PrepareSnoc(maxSize: Option<nat>, packets: seq<Packet>, i: nat, o: Outcome)
    requires i < |packets|
    ensures Fitting(maxSize, packets[..i + 1]) ==
            Fitting(maxSize, packets[..i]) + if PrepareFate(maxSize, packets[i]).None? then [packets[i]] else []
    ensures Tally(o, Refused(maxSize, packets[..i + 1])) ==
            match PrepareFate(maxSize, packets[i])
            case None => Tally(o, Refused(maxSize, packets[..i]))
            case Some(f) => Tally(o, Refused(maxSize, packets[..i])).Count(f)
  {
    assert packets[..i + 1][..i] == packets[..i];
    match PrepareFate(maxSize, packets[i])
    case Some(f) => TallyOne(o, Refused(maxSize, packets[..i]), f);
    case None => assert Refused(maxSize, packets[..i]) + [] == Refused(maxSize, packets[..i]);
  }
}
