/** A message on its whole way: published, written to the wire in arbitrary portions, received in
    arbitrary portions by a new connection, decoded, cloned and read. */
module AmqpEndToEnd {
  import opened Wrappers
  import opened AmqpData
  import opened AmqpFrames
  import opened AmqpSender
  import opened AmqpConsumer
  import opened AmqpFirstFrame
  import opened AmqpProperties
  import D = AmqpDecoder
  import T = AmqpTables

  /** A division of a byte string into pieces; every division has its list of sizes. */
  function CutUp(s: Bytes, sizes: seq<nat>): seq<Bytes>
    decreases |sizes|
  {
    if sizes == [] || sizes[0] > |s| then [s]
    else [s[..sizes[0]]] + CutUp(s[sizes[0]..], sizes[1..])
  }

  lemma {:induction false} CutUpConcat(s: Bytes, sizes: seq<nat>)
    ensures D.Concat(CutUp(s, sizes)) == s
    decreases |sizes|
  {
    if sizes == [] || sizes[0] > |s| {
      assert [s][1..] == [];
      assert s + [] == s;
    } else {
      CutUpConcat(s[sizes[0]..], sizes[1..]);
      assert s == s[..sizes[0]] + s[sizes[0]..];
    }
  }

  lemma {:induction false} GatherFragments(channel: nat, body: Bytes, usable: nat, rest: seq<Incoming>)
    requires usable > 0
    ensures var fs := Fragments(channel, body, usable);
            Gather(Wrap(fs) + rest, |body|) == Gathered(Normal, body, |fs|)
    decreases |body|
  {
    if body != [] {
      var len := if |body| >= usable then usable else |body|;
      var fs, tail := Fragments(channel, body, usable), Fragments(channel, body[len..], usable);
      assert fs == [BodyFrame(channel, body[..len])] + tail;
      GatherFragments(channel, body[len..], usable, rest);
      hide Fragments;
      GatherOne(channel, body[..len], tail, rest, |body|);
      assert body == body[..len] + body[len..];
    }
  }

  lemma {:induction false} GatherOne(channel: nat, fragment: Bytes, tail: seq<Frame>, rest: seq<Incoming>, size: nat)
    requires 0 < |fragment| <= size
    ensures var later := Gather(Wrap(tail) + rest, size - |fragment|);
            var all := Gather(Wrap([BodyFrame(channel, fragment)] + tail) + rest, size);
            all == Gathered(later.reply, fragment + later.body, later.used + 1)
  {
    var stream := Wrap([BodyFrame(channel, fragment)] + tail) + rest;
    assert stream[0] == Got(BodyFrame(channel, fragment)) && stream[1..] == Wrap(tail) + rest;
    hide Wrap;
  }

  lemma {:induction false} FragmentsSendable(codec: Codec, channel: nat, body: Bytes, frameMax: nat)
    requires 20 <= frameMax < 0x8000_0000 && channel < 0x1_0000
    ensures var fs := Fragments(channel, body, frameMax - 8);
            Sendable(codec, fs, frameMax) && AllSurvive(codec, fs, frameMax)
    decreases |body|
  {
    if body != [] {
      var usable := frameMax - 8;
      var len := if |body| >= usable then usable else |body|;
      FragmentsSendable(codec, channel, body[len..], frameMax);
      var fs := Fragments(channel, body, usable);
      assert fs[0] == BodyFrame(channel, body[..len]) && fs[1..] == Fragments(channel, body[len..], usable);
    }
  }

  lemma {:induction false} PublishSendable(codec: Codec, channel: nat, m: Fields, props: Fields, body: Bytes, frameMax: nat)
    requires 20 <= frameMax < 0x8000_0000 && channel < 0x1_0000 && |body| < 0x1_0000_0000_0000_0000
    requires Encodable(codec, PublishFrames(channel, m, props, body, frameMax - 8), frameMax)
    ensures Sendable(codec, PublishFrames(channel, m, props, body, frameMax - 8), frameMax)
  {
    var frames := PublishFrames(channel, m, props, body, frameMax - 8);
    FragmentsSendable(codec, channel, body, frameMax);
    assert frames[1..][1..] == Fragments(channel, body, frameMax - 8);
    assert SendableOne(codec, frames[0], frameMax) && SendableOne(codec, frames[1], frameMax);
    assert frames[1..][0] == frames[1];
  }

  /** The properties of a message as they come back from their encoding. */
  function ReadProperties(codec: Codec, props: Fields, frameMax: nat): Result<Fields>
    requires frameMax >= 20
  {
    match codec.encodeProperties(BASIC_CLASS, props, frameMax - 20)
    case Ok(b) => codec.decodeProperties(BASIC_CLASS, b)
    case Err(e) => Err(e)
  }

  /** What becomes of them at the reader, who clones them. */
  function Delivered(codec: Codec, props: Fields, frameMax: nat): Result<Fields>
    requires frameMax >= 20
  {
    match ReadProperties(codec, props, frameMax)
    case Ok(got) => CloneFields(got)
    case Err(e) => Err(e)
  }

  /** The properties reach the reader as they were exactly when they survive the codec and no key in
      the headers is empty. */
  lemma {:induction false} DeliveredIff(codec: Codec, props: Fields, frameMax: nat)
    requires frameMax >= 20 && codec.encodeProperties(BASIC_CLASS, props, frameMax - 20).Ok?
    ensures Delivered(codec, props, frameMax) == Ok(props) <==>
            codec.PropertiesSurvive(BASIC_CLASS, props, frameMax - 20) && Cloneable(props)
  {
    var got := ReadProperties(codec, props, frameMax);
    if got.Ok? {
      CloneFieldsIff(got.value);
    }
    hide CloneFields, Cloneable;
  }

  /** The publish method's number starts with a zero byte, so even as the first frame of a new
      connection it is decoded as it was sent. */
  lemma {:induction false} FirstByteOfPublish(codec: Codec, channel: nat, m: Fields, props: Fields, body: Bytes, frameMax: nat)
    requires codec.Valid() && 20 <= frameMax < 0x8000_0000 && channel < 0x1_0000
    requires Encodable(codec, PublishFrames(channel, m, props, body, frameMax - 8), frameMax)
    ensures var wire := EncodeAll(codec, PublishFrames(channel, m, props, body, frameMax - 8), frameMax);
            |wire| >= 8 && wire[0] < 65 && wire[7] == 0
  {
    var frames := PublishFrames(channel, m, props, body, frameMax - 8);
    var f := frames[0];
    assert f == MethodFrame(channel, BASIC_PUBLISH_METHOD, m);
    hide Encode, EncodeAll, PublishFrames;
    ByteSeven(codec, f, frameMax);
    EncodeAllHead(codec, frames, frameMax, []);
    var wire, e := EncodeAll(codec, frames, frameMax), Encode(codec, f, frameMax).value;
    assert wire + [] == wire;
    assert wire == e + (EncodeAll(codec, frames[1..], frameMax) + []);
  }

  /** A published message's bytes, received by a new connection, decode to exactly the frames that were
      sent, with the properties as they come back; properties that do not come back at all end the
      stream with the codec's error. */
  lemma {:induction false} PublishedStreamDecodes(codec: Codec, channel: nat, m: Fields, props: Fields, body: Bytes, frameMax: nat)
    requires codec.Valid() && 20 <= frameMax < 0x8000_0000 && codec.MethodSurvives(BASIC_PUBLISH_METHOD, m, frameMax - 12)
    requires channel < 0x1_0000 && |body| < 0x1_0000_0000_0000_0000
    requires Encodable(codec, PublishFrames(channel, m, props, body, frameMax - 8), frameMax)
    ensures var wire := EncodeAll(codec, PublishFrames(channel, m, props, body, frameMax - 8), frameMax);
            D.ParseFrom(true, codec, frameMax, wire) == PublishParsed(codec, channel, m, props, body, frameMax)
  {
    var frames := PublishFrames(channel, m, props, body, frameMax - 8);
    var wire := EncodeAll(codec, frames, frameMax);
    PublishSendable(codec, channel, m, props, body, frameMax);
    FirstByteOfPublish(codec, channel, m, props, body, frameMax);
    assert wire[..4] != D.AMQP_MAGIC by { assert wire[..4][0] < 65; }
    assert D.Seen(true, wire) == wire;
    PublishReadsBack(codec, channel, m, props, body, frameMax);
    assert Parse(codec, frameMax, []) == Parsed([], Pending([]));
    hide EncodeAll, PublishFrames, Sendable, Parse, ReadBackAll, PublishParsed;
    StreamReadsBack(codec, frames, frameMax, []);
    assert wire + [] == wire;
  }

  function PublishParsed(codec: Codec, channel: nat, m: Fields, props: Fields, body: Bytes, frameMax: nat): Parsed
    requires frameMax >= 20
  {
    match ReadProperties(codec, props, frameMax)
    case Ok(got) => Parsed(PublishFrames(channel, m, got, body, frameMax - 8), Pending([]))
    case Err(e) => Parsed([MethodFrame(channel, BASIC_PUBLISH_METHOD, m)], Failed(e))
  }

  lemma {:induction false} PublishReadsBack(codec: Codec, channel: nat, m: Fields, props: Fields, body: Bytes, frameMax: nat)
    requires 20 <= frameMax < 0x8000_0000 && channel < 0x1_0000
    requires codec.MethodSurvives(BASIC_PUBLISH_METHOD, m, frameMax - 12)
    requires Sendable(codec, PublishFrames(channel, m, props, body, frameMax - 8), frameMax)
    ensures ReadBackAll(codec, PublishFrames(channel, m, props, body, frameMax - 8), frameMax, Parsed([], Pending([])))
         == PublishParsed(codec, channel, m, props, body, frameMax)
  {
    hide *;
    var end := Parsed([], Pending([]));
    var start, header := MethodFrame(channel, BASIC_PUBLISH_METHOD, m), HeaderFrame(channel, BASIC_CLASS, |body|, props);
    var fs := Fragments(channel, body, frameMax - 8);
    PublishShape(channel, m, props, body, frameMax - 8);
    FragmentsSendable(codec, channel, body, frameMax);
    SendableParts(codec, start, header, fs, frameMax);
    AllReadBack(codec, fs, frameMax, end);
    StartReadsBack(codec, channel, m, frameMax);
    HeaderReadsBack(codec, channel, |body|, props, frameMax);
    ReadTwo(codec, start, header, fs, frameMax, end);
    SeenPublish(codec, channel, m, props, body, frameMax);
  }

  lemma {:induction false} SendableParts(codec: Codec, a: Frame, b: Frame, later: seq<Frame>, room: nat)
    requires room >= 20 && Sendable(codec, [a] + ([b] + later), room)
    ensures SendableOne(codec, a, room) && SendableOne(codec, b, room)
    ensures Encode(codec, a, room).Ok? && Encode(codec, b, room).Ok?
  {
    assert ([a] + ([b] + later))[1..] == [b] + later;
    hide Encode;
  }

  lemma {:induction false} StartReadsBack(codec: Codec, channel: nat, m: Fields, frameMax: nat)
    requires frameMax >= 20 && codec.MethodSurvives(BASIC_PUBLISH_METHOD, m, frameMax - 12)
    requires Encode(codec, MethodFrame(channel, BASIC_PUBLISH_METHOD, m), frameMax).Ok?
    ensures var start := MethodFrame(channel, BASIC_PUBLISH_METHOD, m); ReadBack(codec, start, frameMax) == Ok(start)
  {
    ReadBackIff(codec, MethodFrame(channel, BASIC_PUBLISH_METHOD, m), frameMax);
    hide ReadBack;
  }

  /** The frames read back, put together. */
  lemma {:induction false} SeenPublish(codec: Codec, channel: nat, m: Fields, props: Fields, body: Bytes, frameMax: nat)
    requires frameMax >= 20
    ensures var start, end := MethodFrame(channel, BASIC_PUBLISH_METHOD, m), Parsed([], Pending([]));
            var fs := Fragments(channel, body, frameMax - 8);
            PublishParsed(codec, channel, m, props, body, frameMax) ==
            Ahead([start], match ReadProperties(codec, props, frameMax)
              case Err(e) => Parsed([], Failed(e))
              case Ok(got) => Ahead([HeaderFrame(channel, BASIC_CLASS, |body|, got)], Ahead(fs, end)))
  {
    var got := ReadProperties(codec, props, frameMax);
    hide PublishFrames, Fragments, Ahead, ReadProperties;
    if got.Ok? {
      PublishShape(channel, m, got.value, body, frameMax - 8);
      ThreeAhead(MethodFrame(channel, BASIC_PUBLISH_METHOD, m), HeaderFrame(channel, BASIC_CLASS, |body|, got.value),
                 Fragments(channel, body, frameMax - 8));
    } else {
      AheadEnds([MethodFrame(channel, BASIC_PUBLISH_METHOD, m)], Failed(got.status), Parsed([], Pending([])));
    }
  }

  lemma {:induction false} PublishShape(channel: nat, m: Fields, props: Fields, body: Bytes, usable: nat)
    requires usable > 0
    ensures PublishFrames(channel, m, props, body, usable) ==
            [MethodFrame(channel, BASIC_PUBLISH_METHOD, m)] +
              ([HeaderFrame(channel, BASIC_CLASS, |body|, props)] + Fragments(channel, body, usable))
  {
    hide Fragments;
  }

  lemma {:induction false} HeaderReadsBack(codec: Codec, channel: nat, size: nat, props: Fields, frameMax: nat)
    requires frameMax >= 20 && Encode(codec, HeaderFrame(channel, BASIC_CLASS, size, props), frameMax).Ok?
    ensures ReadBack(codec, HeaderFrame(channel, BASIC_CLASS, size, props), frameMax) ==
            match ReadProperties(codec, props, frameMax)
            case Ok(got) => Ok(HeaderFrame(channel, BASIC_CLASS, size, got))
            case Err(e) => Err(e)
  {
  }

  lemma {:induction false} ThreeAhead(a: Frame, b: Frame, later: seq<Frame>)
    ensures Ahead([a], Ahead([b], Ahead(later, Parsed([], Pending([]))))) == Parsed([a] + ([b] + later), Pending([]))
  {
    assert later + [] == later;
  }

  lemma {:induction false} ReadTwo(codec: Codec, a: Frame, b: Frame, later: seq<Frame>, room: nat, end: Parsed)
    requires room >= 20 && SendableOne(codec, a, room) && SendableOne(codec, b, room) && Sendable(codec, later, room)
    ensures Sendable(codec, [a] + ([b] + later), room)
    ensures ReadBackAll(codec, [a] + ([b] + later), room, end) ==
            match ReadBack(codec, a, room)
            case Err(s) => Parsed([], Failed(s))
            case Ok(x) =>
              Ahead([x], match ReadBack(codec, b, room)
                case Err(s) => Parsed([], Failed(s))
                case Ok(y) => Ahead([y], ReadBackAll(codec, later, room, end)))
  {
    assert ([a] + ([b] + later))[1..] == [b] + later && ([b] + later)[1..] == later;
    hide Encode, ReadBack;
  }

  /** The reader of the channel gets back the properties, if they can be cloned, and the body. */
  lemma {:induction false} PublishedMessageReads(channel: nat, m: Fields, props: Fields, body: Bytes, usable: nat, rest: seq<Incoming>)
    requires usable > 0
    ensures var frames := PublishFrames(channel, m, props, body, usable)[1..];
            ReadStream(Wrap(frames) + rest) ==
            match CloneFields(props)
            case Ok(clone) => Read(Normal, clone, body, |frames|)
            case Err(e) => Read(LibraryException(e), NO_FIELDS, [], 1)
  {
    hide *;
    var fs, header := Fragments(channel, body, usable), HeaderFrame(channel, BASIC_CLASS, |body|, props);
    PublishShape(channel, m, props, body, usable);
    assert ([MethodFrame(channel, BASIC_PUBLISH_METHOD, m)] + ([header] + fs))[1..] == [header] + fs;
    WrapHead(header, fs, rest);
    GatherFragments(channel, body, usable, rest);
    ReadOpened(header, Wrap(fs) + rest);
  }

  lemma {:induction false} WrapHead(f: Frame, later: seq<Frame>, rest: seq<Incoming>)
    ensures Wrap([f] + later) + rest == [Got(f)] + (Wrap(later) + rest)
  {
  }

  lemma {:induction false} ReadOpened(header: Frame, stream: seq<Incoming>)
    requires header.HeaderFrame?
    ensures ReadStream([Got(header)] + stream) ==
            match CloneFields(header.props)
            case Err(e) => Read(LibraryException(e), NO_FIELDS, [], 1)
            case Ok(clone) =>
              var g := Gather(stream, header.bodySize);
              Read(g.reply, clone, g.body, 1 + g.used)
  {
    assert ([Got(header)] + stream)[1..] == stream;
    hide CloneFields, Gather;
  }

  lemma {:induction false} FailureReads(status: int, channel: nat)
    ensures ReadStream(Stream([], [WaitFailed(status)], channel)) == Read(LibraryException(status), NO_FIELDS, [], 1)
  {
    var incoming := [WaitFailed(status)];
    assert incoming[1..] == [] && Arriving(incoming, channel) == incoming;
    assert Wrap(Queued([], channel)) == [] && [] + incoming == incoming;
  }

  lemma {:induction false} ArrivingWhole(frames: seq<Frame>, channel: nat)
    requires forall i :: 0 <= i < |frames| ==> frames[i].channel == channel && !frames[i].HeartbeatFrame?
    ensures Stream([], Wrap(frames), channel) == Wrap(frames)
  {
    assert Wrap(Queued([], channel)) == [];
    ArrivingAll(frames, channel);
  }

  lemma {:induction false} ArrivingAll(frames: seq<Frame>, channel: nat)
    requires forall i :: 0 <= i < |frames| ==> frames[i].channel == channel && !frames[i].HeartbeatFrame?
    ensures Arriving(Wrap(frames), channel) == Wrap(frames)
  {
    if frames != [] {
      ArrivingAll(frames[1..], channel);
      assert Wrap(frames)[1..] == Wrap(frames[1..]);
    }
  }

  lemma {:induction false} PublishFramesOnChannel(channel: nat, m: Fields, props: Fields, body: Bytes, usable: nat)
    requires usable > 0
    ensures var frames := PublishFrames(channel, m, props, body, usable);
            |frames| >= 2 && forall i :: 0 <= i < |frames| ==> frames[i].channel == channel && !frames[i].HeartbeatFrame?
  {
    FragmentsCover(channel, body, usable);
  }

  /** Publish, wire, decode and read: when the publisher reports success, the reader on the other
      side returns the body and the properties as they come back from their encoding and the clone, or
      the error they fail with, however the socket took the bytes and however they arrived.  Success is
      certain when nothing fails and all frames can be encoded. */
  method PublishAndRead(codec: Codec, frameMax: nat, events: seq<Event>, channel: nat, m: Fields, props: Fields, body: Bytes,
                        sizes: seq<nat>)
    returns (status: int, reply: Reply, gotProps: Fields, gotBody: Bytes, sender: Sender)
    requires codec.Valid() && 20 <= frameMax < 0x8000_0000 && codec.MethodSurvives(BASIC_PUBLISH_METHOD, m, frameMax - 12)
    requires channel < 0x1_0000 && |body| < 0x1_0000_0000_0000_0000
    requires forall e :: e in events && e.Failure? ==> e.status < 0
    ensures status == STATUS_OK ==> IsDelivered(Delivered(codec, props, frameMax), reply, gotProps, gotBody, body)
    ensures status == STATUS_OK ==>
              (reply == Normal && gotProps == props && gotBody == body <==>
                codec.PropertiesSurvive(BASIC_CLASS, props, frameMax - 20) && Cloneable(props))
    ensures status == STATUS_OK ==> codec.encodeProperties(BASIC_CLASS, props, frameMax - 20).Ok?
    ensures var frames := PublishFrames(channel, m, props, body, frameMax - 8);
            (forall e :: e in events ==> e.Sent? || e.Ready?) && sender.events != [] && Encodable(codec, frames, frameMax) ==>
              status == STATUS_OK
  {
    reply, gotProps, gotBody := LibraryException(STATUS_TIMEOUT), NO_FIELDS, [];
    hide EncodeAll, PublishFrames, Encodable, Encode, D.Concat, Calm, CutUp, Delivered, Cloneable;
    sender := new Sender(codec, frameMax, events);
    status := sender.Publish(channel, m, props, body);
    if status != STATUS_OK {
      return;
    }
    ghost var wire := EncodeAll(codec, PublishFrames(channel, m, props, body, frameMax - 8), frameMax);
    assert [] + wire == wire;
    HeaderEncoded(codec, channel, m, props, body, frameMax);
    DeliveredIff(codec, props, frameMax);
    var chunks := CutUp(sender.wire, sizes);
    CutUpConcat(sender.wire, sizes);
    reply, gotProps, gotBody := ReceiveMessage(codec, frameMax, chunks, channel, m, props, body);
  }

  lemma {:induction false} HeaderEncoded(codec: Codec, channel: nat, m: Fields, props: Fields, body: Bytes, frameMax: nat)
    requires frameMax >= 20
    ensures var frames := PublishFrames(channel, m, props, body, frameMax - 8);
            Encodable(codec, frames, frameMax) <==>
            codec.encodeMethod(BASIC_PUBLISH_METHOD, m, frameMax - 12).Ok? &&
            codec.encodeProperties(BASIC_CLASS, props, frameMax - 20).Ok?
  {
    var frames := PublishFrames(channel, m, props, body, frameMax - 8);
    FragmentsCover(channel, body, frameMax - 8);
    assert frames[0] == MethodFrame(channel, BASIC_PUBLISH_METHOD, m);
    assert frames[1] == HeaderFrame(channel, BASIC_CLASS, |body|, props);
    forall i | 2 <= i < |frames|
      ensures Encode(codec, frames[i], frameMax).Ok?
    {
      assert frames[i] == Fragments(channel, body, frameMax - 8)[i - 2];
    }
    hide Fragments, PublishFrames;
  }

  /** What the reader returns for properties that come out as `delivered`. */
  predicate IsDelivered(delivered: Result<Fields>, reply: Reply, gotProps: Fields, gotBody: Bytes, body: Bytes) {
    match delivered
    case Ok(props) => reply == Normal && gotProps == props && gotBody == body
    case Err(e) => reply == LibraryException(e)
  }

  /** The same with the library's own codec for what a publish sends.  Nothing is assumed about it, and
      nothing asked of the message: the reader gets exactly these properties and this body if and only
      if the flags leave the reserved bits alone and every key in the headers, at any depth, has from 1
      to 255 bytes. */
  method PublishWithLibraryCodec(others: Codec, frameMax: nat, events: seq<Event>, channel: nat, m: Fields,
                                 flags: nat, slots: seq<Option<Prop>>, body: Bytes, sizes: seq<nat>)
    returns (status: int, reply: Reply, gotProps: Fields, gotBody: Bytes, sender: Sender)
    requires others.Valid() && 20 <= frameMax < 0x8000_0000
    requires channel < 0x1_0000 && |body| < 0x1_0000_0000_0000_0000
    requires forall e :: e in events && e.Failure? ==> e.status < 0
    ensures status == STATUS_OK ==>
              (reply == Normal && gotProps == BasicProperties(flags, slots) && gotBody == body <==>
                FlagsKept(flags) && HeadersMeet(T.ShortKeys, slots) && HeadersMeet(T.NonEmptyKeys, slots))
    ensures var encodable := EncodePublish(m, frameMax - 12).Ok? && EncodeBasic(flags, slots, frameMax - 20).Ok?;
            (forall e :: e in events ==> e.Sent? || e.Ready?) && sender.events != [] && encodable ==> status == STATUS_OK
  {
    var codec := LibraryCodec(others);
    var props := BasicProperties(flags, slots);
    LibraryValid(others);
    ArgumentsSurvive(others, m, frameMax - 12);
    LibraryPropertiesSurvive(others, flags, slots, frameMax - 20);
    LibraryEncodes(others, m, flags, slots, frameMax);
    HeaderEncoded(codec, channel, m, props, body, frameMax);
    LibraryCloneable(flags, slots, frameMax - 20);
    hide LibraryCodec, FlagsKept, HeadersMeet, EncodeBasic, EncodePublish, Cloneable, Delivered, IsDelivered, Encodable, PublishFrames;
    status, reply, gotProps, gotBody, sender := PublishAndRead(codec, frameMax, events, channel, m, props, body, sizes);
  }

  lemma {:induction false} LibraryEncodes(others: Codec, m: Fields, flags: nat, slots: seq<Option<Prop>>, frameMax: nat)
    requires frameMax >= 20
    ensures LibraryCodec(others).encodeMethod(BASIC_PUBLISH_METHOD, m, frameMax - 12) == EncodePublish(m, frameMax - 12)
    ensures LibraryCodec(others).encodeProperties(BASIC_CLASS, BasicProperties(flags, slots), frameMax - 20)
         == EncodeBasic(flags, slots, frameMax - 20)
  {
    hide EncodePublish, EncodeBasic;
  }

  lemma {:induction false} LibraryCloneable(flags: nat, slots: seq<Option<Prop>>, room: nat)
    ensures EncodeBasic(flags, slots, room).Ok? ==>
              (Cloneable(BasicProperties(flags, slots)) <==> HeadersMeet(T.NonEmptyKeys, slots))
  {
    if EncodeBasic(flags, slots, room).Ok? {
      AcceptedKnown(slots);
    }
    hide HeadersMeet, SlotsFit, SlotsAccepted, WriteSlots, FlagWords;
  }

  /** The message that shows why keys must not be empty: it is published, and decoded as it was, and
      refused by the reader. */
  lemma {:induction false} EmptyKeyNotRead(channel: nat, room: nat, rest: seq<Incoming>)
    requires 8 <= room < 0x1_0000_0000
    ensures var props := BasicProperties(0x2000, EmptyKeySlots());
            EncodeBasic(props.flags, props.slots, room).Ok? &&
            DecodeBasic(EncodeBasic(props.flags, props.slots, room).value) == Ok(props) &&
            ReadStream([Got(HeaderFrame(channel, BASIC_CLASS, 0, props))] + rest).reply
              == LibraryException(STATUS_INVALID_PARAMETER)
  {
    EmptyKeyRefused(room);
    hide EmptyKeySlots, EncodeBasic, DecodeBasic, CloneFields;
  }

  /** The receiving side: pieces of a published message's bytes in, properties and body out. */
  method ReceiveMessage(codec: Codec, frameMax: nat, chunks: seq<Bytes>, channel: nat,
                        ghost m: Fields, ghost props: Fields, ghost body: Bytes)
    returns (reply: Reply, gotProps: Fields, gotBody: Bytes)
    requires codec.Valid() && 20 <= frameMax < 0x8000_0000 && codec.MethodSurvives(BASIC_PUBLISH_METHOD, m, frameMax - 12)
    requires channel < 0x1_0000 && |body| < 0x1_0000_0000_0000_0000
    requires Encodable(codec, PublishFrames(channel, m, props, body, frameMax - 8), frameMax)
    requires D.Concat(chunks) == EncodeAll(codec, PublishFrames(channel, m, props, body, frameMax - 8), frameMax)
    ensures IsDelivered(Delivered(codec, props, frameMax), reply, gotProps, gotBody, body)
  {
    hide EncodeAll, PublishFrames, Encodable, Encode, D.ParseFrom, D.Concat, Wrap, Stream, ReadStream, CloneFields;
    PublishedStreamDecodes(codec, channel, m, props, body, frameMax);
    ghost var parsed := PublishParsed(codec, channel, m, props, body, frameMax);
    var status, got := ReceiveAll(codec, frameMax, chunks, parsed);
    if status < 0 {
      FailureReads(status, channel);
      var failing := new Inbox([WaitFailed(status)]);
      reply, gotProps, gotBody := failing.ReadMessage(channel);
      return;
    }
    ghost var seen := ReadProperties(codec, props, frameMax).value;
    PublishFramesOnChannel(channel, m, seen, body, frameMax - 8);
    var received := got[1..];
    ArrivingWhole(received, channel);
    PublishedMessageReads(channel, m, seen, body, frameMax - 8, []);
    assert Wrap(received) + [] == Wrap(received);
    var inbox := new Inbox(Wrap(received));
    reply, gotProps, gotBody := inbox.ReadMessage(channel);
  }

  /** One frame encoded and handed to an idle decoder, whatever bytes follow it: one call returns the
      same frame, takes exactly its bytes and leaves the decoder idle. */
  method EncodeAndDecode(sender: Sender, decoder: D.Decoder, frame: Frame, more: Bytes)
    returns (status: int, len: nat, res: int, got: Option<Frame>)
    requires sender.Valid() && decoder.Valid() && decoder.phase == D.Idle
    requires sender.codec == decoder.codec && sender.frameMax == decoder.frameMax
    requires sender.outbound != decoder.headerBuffer && InRange(frame) && BodyFits(frame, sender.frameMax)
    requires Survives(sender.codec, frame, sender.frameMax)
    modifies sender.outbound, decoder, decoder.headerBuffer, decoder.inbound
    ensures status == STATUS_OK <==> Encode(sender.codec, frame, sender.frameMax).Ok?
    ensures status == STATUS_OK ==> got == Some(frame) && decoder.Valid() && decoder.phase == D.Idle && decoder.Unread() == []
    ensures status == STATUS_OK ==> res == len == |Encode(sender.codec, frame, sender.frameMax).value|
    ensures status == STATUS_OK && frame.BodyFrame? ==> res == |frame.fragment| + 8
  {
    res, got := 0, None;
    status, len := sender.FrameToBytes(frame);
    if status != STATUS_OK {
      return;
    }
    var encoded := sender.outbound[..len];
    FrameRoundTrip(sender.codec, frame, sender.frameMax, more);
    assert decoder.Unread() + (encoded + more) == encoded + more;
    hide Encode, FirstFrame;
    res, got := decoder.HandleInput(encoded + more);
  }

  /** A new connection fed with pieces of a stream that parses to `parsed`. */
  method ReceiveAll(codec: Codec, frameMax: nat, chunks: seq<Bytes>, ghost parsed: Parsed) returns (status: int, got: seq<Frame>)
    requires codec.Valid() && parsed.end != OutsideContract
    requires D.ParseFrom(true, codec, frameMax, D.Concat(chunks)) == parsed
    ensures got == parsed.frames
    ensures if parsed.end.Failed? then status == parsed.end.status < 0 else status == STATUS_OK
  {
    hide D.ParseFrom, D.Concat;
    var decoder := new D.Decoder(codec, frameMax);
    assert decoder.Unread() + D.Concat(chunks) == D.Concat(chunks);
    assert decoder.View(D.Concat(chunks)) == parsed;
    status, got := decoder.FeedAll(chunks);
  }
}
