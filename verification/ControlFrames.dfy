/** The control channel: `[len: u32 BE] [type] [body]` frames on a reliable stream. */
module ControlFrames {
  import opened Wrappers
  import opened Bytes

  const FRAME_LEN_PREFIX: nat := 4
  const MAX_FRAME_BODY: nat := 2 + 10 + 65535
  const HEARTBEAT_BODY_LEN: nat := 1 + 8

  datatype MessageType = ServerAddrsType | PingType | PongType {
    function AsByte(): byte {
      match this
      case ServerAddrsType => 1
      case PingType => 2
      case PongType => 3
    }
  }

  function MessageTypeOf(b: byte): Option<MessageType> {
    if b == 1 then Some(ServerAddrsType) else if b == 2 then Some(PingType) else if b == 3 then Some(PongType) else None
  }

  datatype Frame = ServerAddrs(json: seq<byte>) | Ping(seqNo: nat) | Pong(seqNo: nat)

  datatype SignalingError = EmptyBody | BadHeartbeatLength | UnknownType(typeByte: byte) | InvalidLength(len: nat) | FrameTooLarge | ConnectionLost

  function Classify(body: seq<byte>): Result<Frame, SignalingError> {
    if body == [] then Err(EmptyBody)
    else
      var rest := body[1..];
      match MessageTypeOf(body[0])
      case Some(ServerAddrsType) => Ok(ServerAddrs(rest))
      case Some(kind) =>
        if |rest| != 8 then Err(BadHeartbeatLength)
        else Ok(if kind == PingType then Ping(U64At(rest, 0)) else Pong(U64At(rest, 0)))
      case None => Err(UnknownType(body[0]))
  }

  /** The body an encoder writes for a frame. */
  function BodyOf(f: Frame): seq<byte>
    requires f.ServerAddrs? || f.seqNo < U64_LIMIT
  {
    match f
    case ServerAddrs(json) => [ServerAddrsType.AsByte()] + json
    case Ping(n) => [PingType.AsByte()] + Be64(n)
    case Pong(n) => [PongType.AsByte()] + Be64(n)
  }

  predicate LegalBody(body: seq<byte>) {
    0 < |body| <= MAX_FRAME_BODY
  }

  function Encoded(body: seq<byte>): seq<byte>
    requires LegalBody(body)
  {
    Be32(|body|) + body
  }

  function EncodedAll(bodies: seq<seq<byte>>): seq<byte>
    requires forall k :: 0 <= k < |bodies| ==> LegalBody(bodies[k])
  {
    if bodies == [] then [] else Encoded(bodies[0]) + EncodedAll(bodies[1..])
  }

  /** A frame on the wire: the body's length in four big-endian bytes, then the body, of at most 65547 bytes. */
  lemma FrameOnWire(body: seq<byte>)
    ensures LegalBody(body) <==> 1 <= |body| <= 65547
    ensures LegalBody(body) ==>
            var s := Encoded(body);
            && |s| == 4 + |body| && s[4..] == body
            && 0x100_0000 * (s[0] as int) + 0x1_0000 * (s[1] as int) + 0x100 * (s[2] as int) + s[3] == |body|
  {
    hide Be32, U32At;
    if LegalBody(body) {
      var prefix := Be32(|body|);
      FieldsAreBigEndian(prefix, 0);
      assert Encoded(body)[..4] == prefix;
    }
  }

  /** A body on the wire: type 1 and the JSON text, or type 2 or 3 and the number in eight big-endian bytes. */
  lemma BodyOnWire(f: Frame)
    requires f.ServerAddrs? || f.seqNo < U64_LIMIT
    ensures var b := BodyOf(f);
            && |b| >= 1 && b[0] == (match f { case ServerAddrs(_) => 1 case Ping(_) => 2 case Pong(_) => 3 })
            && (f.ServerAddrs? ==> b[1..] == f.json)
            && (!f.ServerAddrs? ==> |b| == 9 && U64At(b, 1) == f.seqNo)
  {
    hide Be64, U32At;
    if !f.ServerAddrs? {
      var b, number := BodyOf(f), Be64(f.seqNo);
      U32Same(b, 1, number, 0);
      U32Same(b, 5, number, 4);
    }
  }

  // ---- Encoders --------------------------------------------------------------------------------

  /** Appends a server-addresses frame whose JSON body is `json`. */
  method EncodeServerAddrsFrame(buf: Buffer, json: seq<byte>) returns (r: Result<nat, SignalingError>)
    modifies buf
    ensures r.Ok? <==> 1 + |json| <= MAX_FRAME_BODY
    ensures r.Ok? ==> buf.bytes == old(buf.bytes) + Encoded(BodyOf(ServerAddrs(json))) && r.value == |buf.bytes| - |old(buf.bytes)|
    ensures r.Err? ==> buf.bytes == old(buf.bytes)
  {
    hide Be32;
    var bodyLen := 1 + |json|;
    if bodyLen > MAX_FRAME_BODY {
      return Err(FrameTooLarge);
    }
    buf.bytes := buf.bytes + Be32(bodyLen);
    buf.bytes := buf.bytes + [ServerAddrsType.AsByte()];
    buf.bytes := buf.bytes + json;
    assert buf.bytes == old(buf.bytes) + (Be32(bodyLen) + ([ServerAddrsType.AsByte()] + json));
    r := Ok(FRAME_LEN_PREFIX + bodyLen);
  }

  method EncodeHeartbeatFrame(kind: MessageType, seqNo: nat) returns (frame: seq<byte>)
    requires kind != ServerAddrsType && seqNo < U64_LIMIT
    ensures frame == Encoded(BodyOf(if kind == PingType then Ping(seqNo) else Pong(seqNo)))
  {
    hide Be32, Be64;
    frame := Be32(HEARTBEAT_BODY_LEN);
    frame := frame + [kind.AsByte()];
    frame := frame + Be64(seqNo);
    assert frame == Be32(HEARTBEAT_BODY_LEN) + ([kind.AsByte()] + Be64(seqNo));
  }

  /** Classifying inverts the encoders, in both directions. */
  lemma ClassifyInverts(f: Frame, body: seq<byte>)
    requires f.ServerAddrs? || f.seqNo < U64_LIMIT
    ensures Classify(body) == Ok(f) <==> body == BodyOf(f)
  {
    hide Be64, U64At;
    if body == BodyOf(f) {
      assert body[1..] == if f.ServerAddrs? then f.json else Be64(f.seqNo);
    } else if Classify(body) == Ok(f) {
      var rest := body[1..];
      assert body == [body[0]] + rest;
      if !f.ServerAddrs? {
        Be64Inverts(rest);
      }
    }
  }

  lemma Be64Inverts(s: seq<byte>)
    requires |s| == 8
    ensures Be64(U64At(s, 0)) == s
  {
    var back := Be64(U64At(s, 0));
    assert U32At(back, 0) == U32At(s, 0) && U32At(back, 4) == U32At(s, 4);
    U32Injective(back, 0, s, 0);
    U32Injective(back, 4, s, 4);
    assert back == back[0..4] + back[4..8] && s == s[0..4] + s[4..8];
  }

  // ---- Reading ---------------------------------------------------------------------------------

  datatype ReadExactError = FinishedEarly(got: nat) | ReadFailed

  /** The receive side of a QUIC stream: the bytes still to come, and whether the peer finishes or resets it after them. */
  class RecvStream {
    var rest: seq<byte>
    const reset: bool

    constructor (bytes: seq<byte>, reset: bool)
      ensures rest == bytes && this.reset == reset
    {
      rest, this.reset := bytes, reset;
    }

    method ReadExact(n: nat) returns (r: Result<seq<byte>, ReadExactError>)
      modifies this
      ensures if n <= |old(rest)| then r == Ok(old(rest)[..n]) && rest == old(rest)[n..]
              else r == Err(if reset then ReadFailed else FinishedEarly(|old(rest)|)) && rest == []
    {
      if n <= |rest| {
        r := Ok(rest[..n]);
        rest := rest[n..];
      } else {
        r := Err(if reset then ReadFailed else FinishedEarly(|rest|));
        rest := [];
      }
    }
  }

  /** One `read_frame` call on a stream that still holds `s`: the frame body, a clean end, or an error. */
  function FrameAt(s: seq<byte>, reset: bool): Result<Option<seq<byte>>, SignalingError> {
    if |s| == 0 && !reset then Ok(None)
    else if |s| < FRAME_LEN_PREFIX then Err(ConnectionLost)
    else
      var n := U32At(s, 0);
      if n == 0 || n > MAX_FRAME_BODY then Err(InvalidLength(n))
      else if |s| < FRAME_LEN_PREFIX + n then Err(ConnectionLost)
      else Ok(Some(s[FRAME_LEN_PREFIX..FRAME_LEN_PREFIX + n]))
  }

  method ReadFrame(recv: RecvStream) returns (r: Result<Option<seq<byte>>, SignalingError>)
    modifies recv
    ensures r == FrameAt(old(recv.rest), recv.reset)
    ensures r.Ok? && r.value.Some? ==>
              LegalBody(r.value.value) && old(recv.rest) == Encoded(r.value.value) + recv.rest
  {
    ghost var s := recv.rest;
    var prefix := recv.ReadExact(FRAME_LEN_PREFIX);
    if prefix.Err? {
      if prefix.error == FinishedEarly(0) {
        return Ok(None);
      }
      return Err(ConnectionLost);
    }
    var n := U32At(prefix.value, 0);
    U32Same(s, 0, prefix.value, 0);
    if n == 0 || n > MAX_FRAME_BODY {
      return Err(InvalidLength(n));
    }
    ghost var t := recv.rest;
    var body := recv.ReadExact(n);
    if body.Err? {
      return Err(ConnectionLost);
    }
    assert s == prefix.value + t && t == body.value + recv.rest;
    assert s == (prefix.value + body.value) + recv.rest;
    assert body.value == s[FRAME_LEN_PREFIX..FRAME_LEN_PREFIX + n];
    PrefixIsLength(prefix.value);
    r := Ok(Some(body.value));
  }

  lemma PrefixIsLength(p: seq<byte>)
    requires |p| == 4
    ensures Be32(U32At(p, 0)) == p
  {
    var back := Be32(U32At(p, 0));
    U32Injective(back, 0, p, 0);
    assert back[0..4] == back && p[0..4] == p;
  }

  /** Reading until the stream ends or breaks: the bodies, and whether it ended cleanly. */
  datatype Reading = Reading(bodies: seq<seq<byte>>, failure: Option<SignalingError>)

  function ReadAll(s: seq<byte>, reset: bool): Reading
    decreases |s|
  {
    match FrameAt(s, reset)
    case Err(e) => Reading([], Some(e))
    case Ok(None) => Reading([], None)
    case Ok(Some(body)) =>
      var rest := ReadAll(s[FRAME_LEN_PREFIX + |body|..], reset);
      Reading([body] + rest.bodies, rest.failure)
  }

  lemma FrameThenRest(body: seq<byte>, rest: seq<byte>, reset: bool)
    requires LegalBody(body)
    ensures FrameAt(Encoded(body) + rest, reset) == Ok(Some(body))
    ensures (Encoded(body) + rest)[FRAME_LEN_PREFIX + |body|..] == rest
  {
    var s := Encoded(body) + rest;
    U32Same(s, 0, Be32(|body|), 0);
    assert s[FRAME_LEN_PREFIX..FRAME_LEN_PREFIX + |body|] == body;
  }

  lemma ReadFirst(body: seq<byte>, rest: seq<byte>, reset: bool)
    requires LegalBody(body)
    ensures ReadAll(Encoded(body) + rest, reset) ==
            Reading([body] + ReadAll(rest, reset).bodies, ReadAll(rest, reset).failure)
  {
    hide Encoded, FrameAt;
    FrameThenRest(body, rest, reset);
  }

  /** How a stream that stops is reported: cleanly only behind whole frames and without a reset. */
  function EndOf(whole: bool, reset: bool): Option<SignalingError> {
    if whole && !reset then None else Some(ConnectionLost)
  }

  lemma ReadNothing(reset: bool)
    ensures ReadAll([], reset) == Reading([], EndOf(true, reset)) && EncodedAll([]) == []
  {
  }

  /** Reading the concatenation of any legal frames, of known or unknown type, gives exactly them, and a
      clean end unless the stream was reset. */
  lemma {:induction false} ReadAllInverts(bodies: seq<seq<byte>>, reset: bool)
    requires forall k :: 0 <= k < |bodies| ==> LegalBody(bodies[k])
    ensures ReadAll(EncodedAll(bodies), reset) == Reading(bodies, EndOf(true, reset))
  {
    hide Encoded, ReadAll, EndOf;
    if bodies == [] {
      ReadNothing(reset);
    } else {
      ReadFirst(bodies[0], EncodedAll(bodies[1..]), reset);
      ReadAllInverts(bodies[1..], reset);
    }
  }

  lemma FrameIsEncoded(s: seq<byte>, body: seq<byte>, reset: bool)
    requires FrameAt(s, reset) == Ok(Some(body))
    ensures LegalBody(body) && |s| >= FRAME_LEN_PREFIX + |body| && s == Encoded(body) + s[FRAME_LEN_PREFIX + |body|..]
  {
    hide Be32;
    PrefixIsLength(s[..4]);
    U32Same(s[..4], 0, s, 0);
  }

  ghost predicate AllLegal(bodies: seq<seq<byte>>) {
    forall k :: 0 <= k < |bodies| ==> LegalBody(bodies[k])
  }

  /** Conversely, whatever the stream holds, the frames read are legal and encode a prefix of it; it ends
      cleanly exactly when they are all of it and it was not reset. */
  lemma {:induction false} CleanReadIsEncoding(s: seq<byte>, reset: bool)
    ensures AllLegal(ReadAll(s, reset).bodies) && EncodedAll(ReadAll(s, reset).bodies) <= s
    ensures ReadAll(s, reset).failure.None? <==> EncodedAll(ReadAll(s, reset).bodies) == s && !reset
    decreases |s|
  {
    hide FrameAt, Encoded;
    ReadNothing(reset);
    match FrameAt(s, reset)
    case Ok(Some(body)) =>
      FrameIsEncoded(s, body, reset);
      var rest := s[FRAME_LEN_PREFIX + |body|..];
      CleanReadIsEncoding(rest, reset);
      assert ReadAll(s, reset).bodies[1..] == ReadAll(rest, reset).bodies;
      assert EncodedAll(ReadAll(s, reset).bodies) == Encoded(body) + EncodedAll(ReadAll(rest, reset).bodies);
    case Ok(None) =>
      OnlyEmptyEnds(s, reset);
    case Err(e) =>
      OnlyEmptyEnds(s, reset);
  }

  lemma OnlyEmptyEnds(s: seq<byte>, reset: bool)
    ensures FrameAt(s, reset) == Ok(None) <==> s == [] && !reset
  {
  }

  /** A cut inside a frame never yields it: exactly the whole frames before the cut are read, and the
      stream ends cleanly only if the cut falls on a frame boundary and was no reset. */
  lemma {:induction false} TruncationLosesOnlyTheTail(bodies: seq<seq<byte>>, n: nat, reset: bool) returns (k: nat)
    requires forall j :: 0 <= j < |bodies| ==> LegalBody(bodies[j])
    requires n <= |EncodedAll(bodies)|
    ensures k <= |bodies| && |EncodedAll(bodies[..k])| <= n
    ensures k < |bodies| ==> n < |EncodedAll(bodies[..k + 1])|
    ensures ReadAll(EncodedAll(bodies)[..n], reset) == Reading(bodies[..k], EndOf(n == |EncodedAll(bodies[..k])|, reset))
  {
    hide Encoded, EncodedAll, ReadAll, LegalBody, EndOf;
    ReadNothing(reset);
    if bodies == [] {
      k := 0;
      assert EncodedAll(bodies)[..n] == [];
    } else {
      var head, tail := Encoded(bodies[0]), bodies[1..];
      EncodedCons(bodies);
      var s := EncodedAll(bodies)[..n];
      if n < |head| {
        k := 0;
        assert s == head[..n];
        CutFrame(bodies[0], n, reset);
        PrefixCons(bodies, 0);
        assert bodies[1..][..0] == [] && bodies[..0] == [];
      } else {
        assert s == head + EncodedAll(tail)[..n - |head|];
        ReadFirst(bodies[0], EncodedAll(tail)[..n - |head|], reset);
        k := TruncationLosesOnlyTheTail(tail, n - |head|, reset);
        PrefixCons(bodies, k);
        if k < |tail| {
          PrefixCons(bodies, k + 1);
        }
        k := k + 1;
      }
    }
  }

  lemma EncodedCons(bodies: seq<seq<byte>>)
    requires bodies != [] && forall j :: 0 <= j < |bodies| ==> LegalBody(bodies[j])
    ensures EncodedAll(bodies) == Encoded(bodies[0]) + EncodedAll(bodies[1..])
  {
  }

  lemma PrefixCons(bodies: seq<seq<byte>>, k: nat)
    requires k < |bodies| && forall j :: 0 <= j < |bodies| ==> LegalBody(bodies[j])
    ensures bodies[..k + 1] == [bodies[0]] + bodies[1..][..k]
    ensures EncodedAll(bodies[..k + 1]) == Encoded(bodies[0]) + EncodedAll(bodies[1..][..k])
  {
    hide Encoded;
    assert bodies[..k + 1][1..] == bodies[1..][..k];
  }

  lemma CutFrame(body: seq<byte>, n: nat, reset: bool)
    requires LegalBody(body) && n < |Encoded(body)|
    ensures ReadAll(Encoded(body)[..n], reset) == Reading([], EndOf(n == 0, reset))
  {
    if n >= FRAME_LEN_PREFIX {
      U32Same(Encoded(body)[..n], 0, Be32(|body|), 0);
    }
  }

  // ---- The client's control loop ---------------------------------------------------------------

  /** The frames the loop gets: whatever classifies, in order; undecodable frames are skipped. */
  function Decodable(bodies: seq<seq<byte>>): seq<Frame> {
    if bodies == [] then []
    else
      (match Classify(bodies[0]) case Ok(f) => [f] case Err(_) => []) + Decodable(bodies[1..])
  }

  lemma ReadStep(s: seq<byte>, reset: bool)
    ensures match FrameAt(s, reset)
            case Err(e) => ReadAll(s, reset) == Reading([], Some(e)) && Decodable([]) == []
            case Ok(None) => ReadAll(s, reset) == Reading([], None) && Decodable([]) == []
            case Ok(Some(body)) =>
              && |s| >= FRAME_LEN_PREFIX + |body|
              && var rest := ReadAll(s[FRAME_LEN_PREFIX + |body|..], reset);
                 && ReadAll(s, reset).failure == rest.failure
                 && Decodable(ReadAll(s, reset).bodies) ==
                    (match Classify(body) case Ok(f) => [f] case Err(_) => []) + Decodable(rest.bodies)
  {
    hide Classify;
  }

  function BodiesOf(frames: seq<Frame>): (bodies: seq<seq<byte>>)
    requires forall k :: 0 <= k < |frames| ==> frames[k].ServerAddrs? || frames[k].seqNo < U64_LIMIT
    ensures |bodies| == |frames| && forall k :: 0 <= k < |frames| ==> bodies[k] == BodyOf(frames[k])
  {
    seq(|frames|, k requires 0 <= k < |frames| => BodyOf(frames[k]))
  }

  /** Every frame sent is got, in order, whatever undecodable bodies come between. */
  lemma {:induction false} GetsEveryFrame(frames: seq<Frame>, more: seq<seq<byte>>, junk: seq<byte>)
    requires forall k :: 0 <= k < |frames| ==> frames[k].ServerAddrs? || frames[k].seqNo < U64_LIMIT
    ensures Decodable(BodiesOf(frames) + more) == frames + Decodable(more)
    ensures Classify(junk).Err? ==> Decodable(BodiesOf(frames) + [junk] + more) == frames + Decodable(more)
    decreases |frames|
  {
    hide Classify, BodyOf;
    var bodies := BodiesOf(frames);
    if frames == [] {
      assert bodies + more == more && bodies + [junk] + more == [junk] + more;
      assert ([junk] + more)[1..] == more;
    } else {
      GetsEveryFrame(frames[1..], more, junk);
      ClassifyInverts(frames[0], bodies[0]);
      assert bodies[1..] == BodiesOf(frames[1..]);
      assert (bodies + more)[1..] == bodies[1..] + more;
      assert (bodies + [junk] + more)[1..] == bodies[1..] + [junk] + more;
    }
  }

  method ControlLoop(recv: RecvStream) returns (handled: seq<Frame>, reason: Option<SignalingError>)
    modifies recv
    ensures var all := ReadAll(old(recv.rest), recv.reset);
            handled == Decodable(all.bodies) && reason == all.failure
  {
    hide Classify, FrameAt, ReadAll, Decodable, Encoded;
    handled := [];
    ghost var all := ReadAll(recv.rest, recv.reset);
    while true
      invariant handled + Decodable(ReadAll(recv.rest, recv.reset).bodies) == Decodable(all.bodies)
      invariant ReadAll(recv.rest, recv.reset).failure == all.failure
      decreases |recv.rest|
    {
      ghost var s := recv.rest;
      ReadStep(s, recv.reset);
      var frame := ReadFrame(recv);
      if frame.Err? {
        return handled, Some(frame.error);
      }
      if frame.value.None? {
        return handled, None;
      }
      var body := frame.value.value;
      FrameThenRest(body, recv.rest, recv.reset);
      var f := Classify(body);
      if f.Ok? {
        handled := handled + [f.value];
      }
    }
  }
}
