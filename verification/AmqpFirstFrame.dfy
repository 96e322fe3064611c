/** The first frame of a connection.  Its first eight bytes are collected while a protocol header is
    still possible, and only seven of them reach the frame buffer (amqp_connection.c:318). */
module AmqpFirstFrame {
  import opened Wrappers
  import opened AmqpData
  import opened AmqpFrames
  import opened AmqpDecoder

  lemma {:induction false} LeadingByte(v: nat, k: nat)
    requires k > 0 && v < Pow256(k)
    ensures Be(v, k)[0] == 0 <==> v < Pow256(k - 1)
  {
    if k > 1 {
      LeadingByte(v / 256, k - 1);
      assert Be(v, k)[0] == Be(v / 256, k - 1)[0];
    } else {
      assert Be(v, 1) == [v % 256];
    }
  }

  lemma {:induction false} FromBeInjective(a: Bytes, b: Bytes)
    requires |a| == |b| && a != b
    ensures FromBe(a) != FromBe(b)
    decreases |a|
  {
    var k := |a| - 1;
    assert a == a[..k] + [a[k]] && b == b[..k] + [b[k]];
    if a[..k] != b[..k] {
      FromBeInjective(a[..k], b[..k]);
    }
  }

  /** The byte after the frame header is zero anyway: the first byte of the payload, or the end marker
      of an empty one. */
  predicate ByteSevenZero(f: Frame) {
    match f
    case MethodFrame(_, id, _) => id < 0x100_0000
    case HeaderFrame(_, classId, _, _) => classId < 0x100
    case BodyFrame(_, fragment) => fragment != [] && fragment[0] == 0
    case HeartbeatFrame(_) => false
    case ProtocolFrame(_, _, _, _, _) => false
  }

  lemma {:induction false} ByteSeven(codec: Codec, f: Frame, frameMax: nat)
    requires codec.Valid() && 20 <= frameMax < 0x1_0000_0000
    requires InRange(f) && BodyFits(f, frameMax) && Encode(codec, f, frameMax).Ok?
    ensures var e := Encode(codec, f, frameMax).value;
            |e| >= 8 && e[0] < 65 && (e[7] == 0 <==> ByteSevenZero(f))
  {
    EncodedFits(codec, f, frameMax);
    Widths();
    assert Pow256(3) == 0x100_0000;
    match f
    case MethodFrame(_, id, _) => LeadingByte(id, 4);
    case HeaderFrame(_, classId, _, _) => LeadingByte(classId, 2);
    case _ =>
  }

  /** Zeroing the first byte of a field that was not zero changes the number the field stands for. */
  lemma {:induction false} ZeroedField(e: Bytes, from: nat, to: nat)
    requires from < to <= |e| && e[from] != 0
    ensures FromBe(e[from := 0][from..to]) != FromBe(e[from..to])
  {
    var z := e[from := 0];
    assert z[from..to][0] == 0 && e[from..to][0] == e[from];
    FromBeInjective(z[from..to], e[from..to]);
  }

  /** The frame as the decoder sees it when its eighth byte is lost. */
  lemma {:induction false} ZeroedDiffers(codec: Codec, f: Frame, frameMax: nat)
    requires codec.Valid() && 20 <= frameMax < 0x1_0000_0000
    requires InRange(f) && BodyFits(f, frameMax) && Encode(codec, f, frameMax).Ok? && !ByteSevenZero(f)
    ensures var e := Encode(codec, f, frameMax).value;
            |e| >= 8 && !TooShort(e[0], |e|) && DecodeWhole(codec, e[7 := 0]) != Ok(Some(f))
  {
    EncodedFits(codec, f, frameMax);
    ByteSeven(codec, f, frameMax);
    hide ByteSevenZero, FromBe, Be;
    match f
    case MethodFrame(channel, id, fields) =>
      MethodDiffers(codec, channel, id, codec.encodeMethod(id, fields, frameMax - 12).value, f);
    case HeaderFrame(channel, classId, bodySize, props) =>
      HeaderDiffers(codec, channel, classId, bodySize, codec.encodeProperties(classId, props, frameMax - 20).value, f);
    case BodyFrame(channel, fragment) =>
      BodyDiffers(codec, channel, fragment);
    case HeartbeatFrame(_) =>
    case ProtocolFrame(_, _, _, _, _) =>
  }

  lemma {:induction false} MethodDiffers(codec: Codec, channel: nat, id: nat, b: Bytes, f: Frame)
    requires channel < 0x1_0000 && id < 0x1_0000_0000 && |b| + 4 < 0x1_0000_0000 && f.MethodFrame? && f.id == id
    requires Envelope(FRAME_METHOD, channel, Be(id, 4) + b)[7] != 0
    ensures var e := Envelope(FRAME_METHOD, channel, Be(id, 4) + b);
            !TooShort(e[0], |e|) && DecodeWhole(codec, e[7 := 0]) != Ok(Some(f))
  {
    var e := Envelope(FRAME_METHOD, channel, Be(id, 4) + b);
    MethodParts(channel, id, b);
    ZeroedField(e, 7, 11);
    hide Envelope, FromBe, Be;
  }

  lemma {:induction false} HeaderDiffers(codec: Codec, channel: nat, classId: nat, bodySize: nat, b: Bytes, f: Frame)
    requires channel < 0x1_0000 && classId < 0x1_0000 && bodySize < 0x1_0000_0000_0000_0000 && |b| + 12 < 0x1_0000_0000
    requires f.HeaderFrame? && f.classId == classId
    requires Envelope(FRAME_HEADER, channel, Be(classId, 2) + Be(0, 2) + Be(bodySize, 8) + b)[7] != 0
    ensures var e := Envelope(FRAME_HEADER, channel, Be(classId, 2) + Be(0, 2) + Be(bodySize, 8) + b);
            !TooShort(e[0], |e|) && DecodeWhole(codec, e[7 := 0]) != Ok(Some(f))
  {
    var e := Envelope(FRAME_HEADER, channel, Be(classId, 2) + Be(0, 2) + Be(bodySize, 8) + b);
    HeaderParts(channel, classId, bodySize, b);
    ZeroedField(e, 7, 9);
    hide Envelope, FromBe, Be;
  }

  lemma {:induction false} BodyDiffers(codec: Codec, channel: nat, fragment: Bytes)
    requires channel < 0x1_0000 && |fragment| < 0x1_0000_0000
    requires Envelope(FRAME_BODY, channel, fragment)[7] != 0
    ensures var e := Envelope(FRAME_BODY, channel, fragment);
            DecodeWhole(codec, e[7 := 0]) != Ok(Some(BodyFrame(channel, fragment)))
  {
    var e := Envelope(FRAME_BODY, channel, fragment);
    EnvelopeParts(FRAME_BODY, channel, fragment);
    hide Envelope, FromBe, Be;
    var z, n := e[7 := 0], |e|;
    if n > 8 {
      assert z[7..n - 1][0] == 0 && e[7..n - 1][0] == e[7];
    }
  }

  /** A new connection decodes its first frame as it was sent exactly when its fields survive at all and
      the byte it loses was zero: never a heartbeat or an empty body fragment, and a fragment only when it starts with a zero. */
  lemma {:induction false} FirstFrameIntactIff(codec: Codec, f: Frame, frameMax: nat, rest: Bytes)
    requires codec.Valid() && 20 <= frameMax < 0x1_0000_0000
    requires InRange(f) && BodyFits(f, frameMax) && Encode(codec, f, frameMax).Ok?
    ensures var e := Encode(codec, f, frameMax).value;
            FirstFrom(true, codec, frameMax, e + rest) == Whole(|e|, Some(f)) <==>
            ByteSevenZero(f) && Survives(codec, f, frameMax)
  {
    var e := Encode(codec, f, frameMax).value;
    WholeDecodes(codec, f, frameMax);
    ReadBackIff(codec, f, frameMax);
    ByteSeven(codec, f, frameMax);
    EncodedFits(codec, f, frameMax);
    if ByteSevenZero(f) {
      assert e[7 := 0] == e;
    } else {
      ZeroedDiffers(codec, f, frameMax);
    }
    hide Encode, DecodeWhole;
    FirstIsZeroed(codec, frameMax, e, rest);
  }

  lemma {:induction false} FirstIsZeroed(codec: Codec, frameMax: nat, e: Bytes, rest: Bytes)
    requires |e| >= 8 && e[0] < 65 && Target(e) == |e| <= frameMax && !TooShort(e[0], |e|)
    ensures FirstFrom(true, codec, frameMax, e + rest) ==
            match DecodeWhole(codec, e[7 := 0])
            case Ok(frame) => Whole(|e|, frame)
            case Err(status) => Bad(status)
  {
    var z := e[7 := 0];
    assert (e + rest)[..4][0] == e[0];
    assert Seen(true, e + rest) == z + rest;
    assert z[3..7] == e[3..7] && z[..|z|] == z;
    FirstFrameStable(codec, frameMax, z, rest);
  }

  /** The first heartbeat of a connection is refused: its end marker is the lost byte. */
  lemma {:induction false} FirstHeartbeatRejected(codec: Codec, frameMax: nat, channel: nat, rest: Bytes)
    requires frameMax >= 20 && channel < 0x1_0000
    ensures FirstFrom(true, codec, frameMax, Envelope(FRAME_HEARTBEAT, channel, []) + rest) == Bad(-2)
  {
    var e := Envelope(FRAME_HEARTBEAT, channel, []);
    EnvelopeParts(FRAME_HEARTBEAT, channel, []);
    FirstIsZeroed(codec, frameMax, e, rest);
  }
}
