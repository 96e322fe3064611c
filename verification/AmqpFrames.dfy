/** The AMQP 0-9-1 general frame format (section 4.2.3 of the standard) as the client library writes
    and reads it: encoding of one frame, decoding of one frame, and the parser of a whole byte
    stream that the incremental decoder is measured against. */
module AmqpFrames {
  import opened Wrappers
  import opened AmqpData

  const HEADER_SIZE := 7
  const FOOTER_SIZE := 1
  const FRAME_END: Octet := 206

  const FRAME_METHOD: Octet := 1
  const FRAME_HEADER: Octet := 2
  const FRAME_BODY: Octet := 3
  const FRAME_HEARTBEAT: Octet := 8
  /** 'A', which marks a protocol header in place of a frame type. */
  const PSEUDOFRAME_PROTOCOL_HEADER: Octet := 65

  // ----- Frames -----

  datatype Frame =
    | MethodFrame(channel: nat, id: nat, fields: Fields)
    | HeaderFrame(channel: nat, classId: nat, bodySize: nat, props: Fields)
    | BodyFrame(channel: nat, fragment: Bytes)
    | HeartbeatFrame(channel: nat)
    | ProtocolFrame(channel: nat, transportHigh: Octet, transportLow: Octet, major: Octet, minor: Octet)

  /** The field codecs as the frame layer uses them: arbitrary functions of the method or class number,
      the fields and the room that is left.  AmqpProperties gives two of the library's own. */
  datatype Codec = Codec(
    encodeMethod: (nat, Fields, nat) -> Result<Bytes>,
    decodeMethod: (nat, Bytes) -> Result<Fields>,
    encodeProperties: (nat, Fields, nat) -> Result<Bytes>,
    decodeProperties: (nat, Bytes) -> Result<Fields>)
  {
    /** Errors are negative and an encoding fits the room it was given. */
    ghost predicate Valid() {
      && (forall id, f, room :: match encodeMethod(id, f, room) case Ok(b) => |b| <= room case Err(e) => e < 0)
      && (forall id, f, room :: match encodeProperties(id, f, room) case Ok(b) => |b| <= room case Err(e) => e < 0)
      && (forall id, b :: decodeMethod(id, b).Err? ==> decodeMethod(id, b).status < 0)
      && (forall id, b :: decodeProperties(id, b).Err? ==> decodeProperties(id, b).status < 0)
    }

    /** What is written for these fields, if anything, is read back as these fields. */
    predicate MethodSurvives(id: nat, fields: Fields, room: nat) {
      var b := encodeMethod(id, fields, room);
      b.Ok? ==> decodeMethod(id, b.value) == Ok(fields)
    }

    predicate PropertiesSurvive(classId: nat, props: Fields, room: nat) {
      var b := encodeProperties(classId, props, room);
      b.Ok? ==> decodeProperties(classId, b.value) == Ok(props)
    }
  }

  /** The frame's numbers fit the C types that hold them. */
  predicate InRange(f: Frame) {
    f.channel < 0x1_0000 &&
    match f
    case MethodFrame(_, id, _) => id < 0x1_0000_0000
    case HeaderFrame(_, classId, bodySize, _) => classId < 0x1_0000 && bodySize < 0x1_0000_0000_0000_0000
    case BodyFrame(_, fragment) => |fragment| < 0x1_0000_0000
    case HeartbeatFrame(_) => true
    case ProtocolFrame(_, _, _, _, _) => true
  }

  /** What `amqp_frame_to_bytes` writes into a buffer of `room` bytes, section 4.2.3. */
  function Envelope(frameType: Octet, channel: nat, payload: Bytes): (b: Bytes)
    ensures |b| == |payload| + HEADER_SIZE + FOOTER_SIZE
  {
    [frameType] + Be(channel, 2) + Be(|payload|, 4) + payload + [FRAME_END]
  }

  function Encode(codec: Codec, f: Frame, room: nat): Result<Bytes>
    requires room >= 20
  {
    match f
    case BodyFrame(channel, fragment) =>
      Ok(Envelope(FRAME_BODY, channel, fragment))
    case MethodFrame(channel, id, fields) =>
      (match codec.encodeMethod(id, fields, room - 12)
       case Ok(b) => Ok(Envelope(FRAME_METHOD, channel, Be(id, 4) + b))
       case Err(e) => Err(e))
    case HeaderFrame(channel, classId, bodySize, props) =>
      (match codec.encodeProperties(classId, props, room - 20)
       case Ok(b) => Ok(Envelope(FRAME_HEADER, channel, Be(classId, 2) + Be(0, 2) + Be(bodySize, 8) + b))
       case Err(e) => Err(e))
    case HeartbeatFrame(channel) =>
      Ok(Envelope(FRAME_HEARTBEAT, channel, []))
    case ProtocolFrame(_, _, _, _, _) =>
      Err(STATUS_INVALID_PARAMETER)
  }

  /** The field codec reads back what it writes for this very frame. */
  predicate Survives(codec: Codec, f: Frame, room: nat)
    requires room >= 20
  {
    match f
    case MethodFrame(_, id, fields) => codec.MethodSurvives(id, fields, room - 12)
    case HeaderFrame(_, classId, _, props) => codec.PropertiesSurvive(classId, props, room - 20)
    case _ => true
  }

  /** The room a frame needs beyond what the codecs check for themselves. */
  predicate BodyFits(f: Frame, room: nat) {
    f.BodyFrame? ==> |f.fragment| + HEADER_SIZE + FOOTER_SIZE <= room
  }

  lemma EncodedFits(codec: Codec, f: Frame, room: nat)
    requires codec.Valid() && room >= 20 && BodyFits(f, room)
    requires Encode(codec, f, room).Ok?
    ensures 8 <= |Encode(codec, f, room).value| <= room
  {
  }

  // ----- Decoding one frame -----

  /** The frame size announced by a complete frame header, footer included. */
  function Target(s: Bytes): (n: nat)
    requires |s| >= HEADER_SIZE
    ensures n >= HEADER_SIZE + FOOTER_SIZE
  {
    FromBe(s[3..7]) + HEADER_SIZE + FOOTER_SIZE
  }

  /** A method or content header frame too short for its fixed fields.  The library reads past such
      a payload, so nothing is promised about it. */
  predicate TooShort(frameType: Octet, target: nat) {
    (frameType == FRAME_METHOD && target < 12) || (frameType == FRAME_HEADER && target < 20)
  }

  /** One complete raw frame: a frame, nothing for an ignored type, or an error. */
  function DecodeWhole(codec: Codec, raw: Bytes): Result<Option<Frame>>
    requires |raw| >= 8 && !TooShort(raw[0], |raw|)
  {
    var n := |raw|;
    var channel := FromBe(raw[1..3]);
    if raw[n - 1] != FRAME_END then Err(STATUS_BAD_AMQP_DATA)
    else if raw[0] == FRAME_METHOD then
      var id := FromBe(raw[7..11]);
      match codec.decodeMethod(id, raw[11..n - 1])
      case Ok(fields) => Ok(Some(MethodFrame(channel, id, fields)))
      case Err(e) => Err(e)
    else if raw[0] == FRAME_HEADER then
      var classId := FromBe(raw[7..9]);
      match codec.decodeProperties(classId, raw[19..n - 1])
      case Ok(props) => Ok(Some(HeaderFrame(channel, classId, FromBe(raw[11..19]), props)))
      case Err(e) => Err(e)
    else if raw[0] == FRAME_BODY then Ok(Some(BodyFrame(channel, raw[7..n - 1])))
    else if raw[0] == FRAME_HEARTBEAT then Ok(Some(HeartbeatFrame(channel)))
    else Ok(None)
  }

  lemma DecodeErrorsNegative(codec: Codec, raw: Bytes)
    requires codec.Valid() && |raw| >= 8 && !TooShort(raw[0], |raw|)
    ensures match DecodeWhole(codec, raw) case Ok(_) => true case Err(e) => e < 0
  {
  }

  /** What the beginning of a byte stream amounts to. */
  datatype First =
    | Incomplete
    | Whole(size: nat, frame: Option<Frame>)
    | Bad(status: int)
    | Undefined

  function FirstFrame(codec: Codec, frameMax: nat, s: Bytes): (r: First)
    ensures r.Whole? ==> 8 <= r.size <= |s|
  {
    if |s| < HEADER_SIZE then Incomplete
    else if Target(s) > frameMax then Bad(STATUS_BAD_AMQP_DATA)
    else if |s| < Target(s) then Incomplete
    else if TooShort(s[0], Target(s)) then Undefined
    else match DecodeWhole(codec, s[..Target(s)])
      case Ok(frame) => Whole(Target(s), frame)
      case Err(e) => Bad(e)
  }

  /** Whatever follows a settled beginning does not change it. */
  lemma FirstFrameStable(codec: Codec, frameMax: nat, a: Bytes, b: Bytes)
    requires !FirstFrame(codec, frameMax, a).Incomplete?
    ensures FirstFrame(codec, frameMax, a + b) == FirstFrame(codec, frameMax, a)
  {
    assert (a + b)[3..7] == a[3..7];
    if |a| >= Target(a) {
      assert (a + b)[..Target(a)] == a[..Target(a)];
    }
  }

  // ----- Parsing a whole stream -----

  datatype End = Pending(rest: Bytes) | Failed(status: int) | OutsideContract

  datatype Parsed = Parsed(frames: seq<Frame>, end: End)

  function Deliver(frame: Option<Frame>): seq<Frame> {
    if frame.Some? then [frame.value] else []
  }

  function Parse(codec: Codec, frameMax: nat, s: Bytes): Parsed
    decreases |s|
  {
    match FirstFrame(codec, frameMax, s)
    case Incomplete => Parsed([], Pending(s))
    case Bad(e) => Parsed([], Failed(e))
    case Undefined => Parsed([], OutsideContract)
    case Whole(n, frame) => Ahead(Deliver(frame), Parse(codec, frameMax, s[n..]))
  }

  function Ahead(frames: seq<Frame>, later: Parsed): Parsed {
    Parsed(frames + later.frames, later.end)
  }

  lemma AheadTwice(a: seq<Frame>, b: seq<Frame>, later: Parsed)
    ensures Ahead(a, Ahead(b, later)) == Ahead(a + b, later)
  {
    assert a + (b + later.frames) == a + b + later.frames;
  }

  lemma AheadEnds(frames: seq<Frame>, end: End, later: Parsed)
    ensures Ahead(frames, Parsed([], end)) == Parsed(frames, end)
    ensures Ahead([], later) == later
    ensures Ahead(frames, later).end == later.end
  {
    assert frames + [] == frames;
  }

  /** Parsing may stop anywhere and resume from the unread rest. */
  function Resume(codec: Codec, frameMax: nat, before: Parsed, more: Bytes): Parsed {
    match before.end
    case Pending(rest) => Ahead(before.frames, Parse(codec, frameMax, rest + more))
    case Failed(_) => before
    case OutsideContract => before
  }

  lemma ResumeAhead(codec: Codec, frameMax: nat, frames: seq<Frame>, later: Parsed, more: Bytes)
    ensures Resume(codec, frameMax, Ahead(frames, later), more) == Ahead(frames, Resume(codec, frameMax, later, more))
  {
    if later.end.Pending? {
      AheadTwice(frames, later.frames, Parse(codec, frameMax, later.end.rest + more));
    }
  }

  lemma {:induction false} ParseResumes(codec: Codec, frameMax: nat, a: Bytes, b: Bytes)
    ensures Parse(codec, frameMax, a + b) == Resume(codec, frameMax, Parse(codec, frameMax, a), b)
    decreases |a|
  {
    var first := FirstFrame(codec, frameMax, a);
    if !first.Incomplete? {
      FirstFrameStable(codec, frameMax, a, b);
    }
    hide FirstFrame;
    if first.Whole? {
      assert (a + b)[first.size..] == a[first.size..] + b;
      ParseResumes(codec, frameMax, a[first.size..], b);
      ResumeAhead(codec, frameMax, Deliver(first.frame), Parse(codec, frameMax, a[first.size..]), b);
    }
  }

  lemma {:induction false} PendingIsIncomplete(codec: Codec, frameMax: nat, s: Bytes)
    requires Parse(codec, frameMax, s).end.Pending?
    ensures FirstFrame(codec, frameMax, Parse(codec, frameMax, s).end.rest).Incomplete?
    decreases |s|
  {
    var first := FirstFrame(codec, frameMax, s);
    if first.Whole? {
      PendingIsIncomplete(codec, frameMax, s[first.size..]);
    }
  }

  // ----- Round trip -----

  lemma EnvelopeParts(frameType: Octet, channel: nat, payload: Bytes)
    requires channel < 0x1_0000 && |payload| < 0x1_0000_0000
    ensures var e := Envelope(frameType, channel, payload);
            e[0] == frameType && FromBe(e[1..3]) == channel && Target(e) == |e| &&
            e[7..|e| - 1] == payload && e[|e| - 1] == FRAME_END
  {
    Widths();
    FromBeOfBe(channel, 2);
    FromBeOfBe(|payload|, 4);
    var e := Envelope(frameType, channel, payload);
    assert e[1..3] == Be(channel, 2);
    assert e[3..7] == Be(|payload|, 4);
  }

  /** What a frame comes back as: the frame with its field list written and read again. */
  function ReadBack(codec: Codec, f: Frame, room: nat): Result<Frame>
    requires room >= 20 && Encode(codec, f, room).Ok?
  {
    match f
    case MethodFrame(channel, id, fields) =>
      (match codec.decodeMethod(id, codec.encodeMethod(id, fields, room - 12).value)
       case Ok(got) => Ok(MethodFrame(channel, id, got))
       case Err(e) => Err(e))
    case HeaderFrame(channel, classId, bodySize, props) =>
      (match codec.decodeProperties(classId, codec.encodeProperties(classId, props, room - 20).value)
       case Ok(got) => Ok(HeaderFrame(channel, classId, bodySize, got))
       case Err(e) => Err(e))
    case _ => Ok(f)
  }

  lemma {:induction false} ReadBackIff(codec: Codec, f: Frame, room: nat)
    requires room >= 20 && Encode(codec, f, room).Ok?
    ensures ReadBack(codec, f, room) == Ok(f) <==> Survives(codec, f, room)
  {
  }

  /** A frame that is encoded within the frame size limit is read back, whatever bytes follow it, with
      its own field list written and read again; as itself, if and only if its fields survive that. */
  lemma {:induction false} FrameRoundTrip(codec: Codec, f: Frame, frameMax: nat, rest: Bytes)
    requires codec.Valid() && 20 <= frameMax < 0x1_0000_0000 && SendableOne(codec, f, frameMax)
    ensures var e := Encode(codec, f, frameMax).value;
            FirstFrame(codec, frameMax, e + rest) ==
            match ReadBack(codec, f, frameMax)
            case Ok(g) => Whole(|e|, Some(g))
            case Err(s) => Bad(s)
    ensures var e := Encode(codec, f, frameMax).value;
            FirstFrame(codec, frameMax, e + rest) == Whole(|e|, Some(f)) <==> Survives(codec, f, frameMax)
  {
    var e := Encode(codec, f, frameMax).value;
    EncodedFits(codec, f, frameMax);
    WholeDecodes(codec, f, frameMax);
    ReadBackIff(codec, f, frameMax);
    hide Encode, DecodeWhole, Survives, InRange, TooShort, ReadBack;
    assert e[..|e|] == e;
    FirstFrameStable(codec, frameMax, e, rest);
  }

  lemma {:induction false} WholeDecodes(codec: Codec, f: Frame, room: nat)
    requires codec.Valid() && 20 <= room < 0x1_0000_0000 && SendableOne(codec, f, room)
    ensures var e := Encode(codec, f, room).value;
            |e| >= 8 && !TooShort(e[0], |e|) && Target(e) == |e| &&
            DecodeWhole(codec, e) ==
            match ReadBack(codec, f, room)
            case Ok(g) => Ok(Some(g))
            case Err(s) => Err(s)
  {
    EncodedFits(codec, f, room);
    match f
    case BodyFrame(channel, fragment) =>
      EnvelopeParts(FRAME_BODY, channel, fragment);
    case HeartbeatFrame(channel) =>
      EnvelopeParts(FRAME_HEARTBEAT, channel, []);
    case MethodFrame(channel, id, fields) =>
      MethodParts(channel, id, codec.encodeMethod(id, fields, room - 12).value);
    case HeaderFrame(channel, classId, bodySize, props) =>
      HeaderParts(channel, classId, bodySize, codec.encodeProperties(classId, props, room - 20).value);
    case ProtocolFrame(_, _, _, _, _) =>
  }

  lemma {:induction false} MethodParts(channel: nat, id: nat, b: Bytes)
    requires channel < 0x1_0000 && id < 0x1_0000_0000 && |b| + 4 < 0x1_0000_0000
    ensures var e := Envelope(FRAME_METHOD, channel, Be(id, 4) + b);
            e[0] == FRAME_METHOD && FromBe(e[1..3]) == channel && Target(e) == |e| && e[|e| - 1] == FRAME_END &&
            FromBe(e[7..11]) == id && e[11..|e| - 1] == b
  {
    var payload := Be(id, 4) + b;
    var e := Envelope(FRAME_METHOD, channel, payload);
    EnvelopeParts(FRAME_METHOD, channel, payload);
    Widths();
    FromBeOfBe(id, 4);
    hide Envelope, FromBe, Be;
    assert e[7..11] == e[7..|e| - 1][..4] == payload[..4] == Be(id, 4);
    assert e[11..|e| - 1] == e[7..|e| - 1][4..] == payload[4..] == b;
  }

  lemma {:induction false} HeaderParts(channel: nat, classId: nat, bodySize: nat, b: Bytes)
    requires channel < 0x1_0000 && classId < 0x1_0000 && bodySize < 0x1_0000_0000_0000_0000 && |b| + 12 < 0x1_0000_0000
    ensures var e := Envelope(FRAME_HEADER, channel, Be(classId, 2) + Be(0, 2) + Be(bodySize, 8) + b);
            e[0] == FRAME_HEADER && FromBe(e[1..3]) == channel && Target(e) == |e| && e[|e| - 1] == FRAME_END &&
            FromBe(e[7..9]) == classId && FromBe(e[11..19]) == bodySize && e[19..|e| - 1] == b
  {
    var payload := Be(classId, 2) + Be(0, 2) + Be(bodySize, 8) + b;
    var e := Envelope(FRAME_HEADER, channel, payload);
    EnvelopeParts(FRAME_HEADER, channel, payload);
    Widths();
    FromBeOfBe(classId, 2);
    FromBeOfBe(bodySize, 8);
    hide Envelope, FromBe, Be;
    assert e[7..9] == e[7..|e| - 1][..2] == payload[..2] == Be(classId, 2);
    assert e[11..19] == e[7..|e| - 1][4..12] == payload[4..12] == Be(bodySize, 8);
    assert e[19..|e| - 1] == e[7..|e| - 1][12..] == payload[12..] == b;
  }

  /** The encodings of the frames one after another, up to the first that cannot be encoded. */
  function EncodeAll(codec: Codec, frames: seq<Frame>, room: nat): Bytes
    requires room >= 20
  {
    if frames == [] then []
    else match Encode(codec, frames[0], room)
      case Ok(b) => b + EncodeAll(codec, frames[1..], room)
      case Err(_) => []
  }

  /** The frame can be sent. */
  predicate SendableOne(codec: Codec, f: Frame, room: nat)
    requires room >= 20
  {
    InRange(f) && BodyFits(f, room) && Encode(codec, f, room).Ok?
  }

  predicate Sendable(codec: Codec, frames: seq<Frame>, room: nat)
    requires room >= 20
  {
    frames == [] || (SendableOne(codec, frames[0], room) && Sendable(codec, frames[1..], room))
  }

  predicate AllSurvive(codec: Codec, frames: seq<Frame>, room: nat)
    requires room >= 20
  {
    frames == [] || (Survives(codec, frames[0], room) && AllSurvive(codec, frames[1..], room))
  }

  /** The frames as they come back one after another, up to the first whose fields cannot be read, and
      then `later`. */
  function ReadBackAll(codec: Codec, frames: seq<Frame>, room: nat, later: Parsed): Parsed
    requires room >= 20 && Sendable(codec, frames, room)
  {
    if frames == [] then later
    else
      match ReadBack(codec, frames[0], room)
      case Ok(g) => Ahead([g], ReadBackAll(codec, frames[1..], room, later))
      case Err(s) => Parsed([], Failed(s))
  }

  lemma {:induction false} ParseOneFrame(codec: Codec, f: Frame, frameMax: nat, rest: Bytes)
    requires codec.Valid() && 20 <= frameMax < 0x1_0000_0000 && SendableOne(codec, f, frameMax)
    ensures Parse(codec, frameMax, Encode(codec, f, frameMax).value + rest) ==
            match ReadBack(codec, f, frameMax)
            case Ok(g) => Ahead([g], Parse(codec, frameMax, rest))
            case Err(s) => Parsed([], Failed(s))
  {
    var e := Encode(codec, f, frameMax).value;
    FrameRoundTrip(codec, f, frameMax, rest);
    hide Encode, ReadBack, SendableOne, FirstFrame;
    assert (e + rest)[|e|..] == rest;
  }

  /** Encoded frames parse to what they come back as, and then as the bytes that follow do. */
  lemma {:induction false} StreamReadsBack(codec: Codec, frames: seq<Frame>, frameMax: nat, rest: Bytes)
    requires codec.Valid() && 20 <= frameMax < 0x1_0000_0000
    requires Sendable(codec, frames, frameMax)
    ensures Parse(codec, frameMax, EncodeAll(codec, frames, frameMax) + rest)
         == ReadBackAll(codec, frames, frameMax, Parse(codec, frameMax, rest))
  {
    if frames == [] {
      assert EncodeAll(codec, frames, frameMax) + rest == rest;
    } else {
      assert SendableOne(codec, frames[0], frameMax) && Sendable(codec, frames[1..], frameMax);
      assert Encode(codec, frames[0], frameMax).Ok?;
      hide EncodeAll, Parse, Encode, Ahead, SendableOne, ReadBack;
      var tail := EncodeAll(codec, frames[1..], frameMax) + rest;
      EncodeAllHead(codec, frames, frameMax, rest);
      StreamReadsBack(codec, frames[1..], frameMax, rest);
      ParseOneFrame(codec, frames[0], frameMax, tail);
    }
  }

  lemma {:induction false} AllReadBack(codec: Codec, frames: seq<Frame>, room: nat, later: Parsed)
    requires room >= 20 && Sendable(codec, frames, room) && AllSurvive(codec, frames, room)
    ensures ReadBackAll(codec, frames, room, later) == Ahead(frames, later)
  {
    if frames == [] {
      assert frames + later.frames == later.frames;
    } else {
      ReadBackIff(codec, frames[0], room);
      hide Encode, Survives, ReadBack;
      AllReadBack(codec, frames[1..], room, later);
      AheadTwice([frames[0]], frames[1..], later);
      assert [frames[0]] + frames[1..] == frames;
    }
  }

  lemma {:induction false} StreamRoundTrip(codec: Codec, frames: seq<Frame>, frameMax: nat, rest: Bytes)
    requires codec.Valid() && 20 <= frameMax < 0x1_0000_0000
    requires Sendable(codec, frames, frameMax) && AllSurvive(codec, frames, frameMax)
    ensures Parse(codec, frameMax, EncodeAll(codec, frames, frameMax) + rest)
         == Ahead(frames, Parse(codec, frameMax, rest))
  {
    StreamReadsBack(codec, frames, frameMax, rest);
    AllReadBack(codec, frames, frameMax, Parse(codec, frameMax, rest));
  }

  lemma {:induction false} EncodeAllHead(codec: Codec, frames: seq<Frame>, room: nat, rest: Bytes)
    requires room >= 20 && frames != [] && Encode(codec, frames[0], room).Ok?
    ensures EncodeAll(codec, frames, room) + rest
         == Encode(codec, frames[0], room).value + (EncodeAll(codec, frames[1..], room) + rest)
  {
    hide Encode;
  }
}
