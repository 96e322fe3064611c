/** The octets themselves: what stands on the wire for frames, field values, properties and a whole
    publish, in numbers, and how octets that no encoder writes are read. */
module AmqpWire {
  import opened Wrappers
  import opened Words
  import opened AmqpData
  import opened AmqpFrames
  import opened AmqpTables
  import opened AmqpProperties
  import opened AmqpSender
  import D = AmqpDecoder

  /** The numbers of amqp.h behind the names. */
  lemma {:induction false} StatusNumbers()
    ensures STATUS_OK == 0 && STATUS_BAD_AMQP_DATA == -2 && STATUS_SOCKET_ERROR == -9 && STATUS_INVALID_PARAMETER == -10
    ensures STATUS_TABLE_TOO_BIG == -11 && STATUS_TIMEOUT == -13 && STATUS_TIMER_FAILURE == -14
    ensures STATUS_HEARTBEAT_TIMEOUT == -15 && STATUS_UNEXPECTED_STATE == -16
  {
  }

  // ----- Frames -----

  /** An octet for the type, two for the channel, four for the size of the payload, the payload, 206. */
  lemma {:induction false} EnvelopeOctets(frameType: Octet, channel: nat, payload: Bytes)
    requires channel < 0x1_0000 && |payload| < 0x1_0000_0000
    ensures var n := |payload|;
            Envelope(frameType, channel, payload) ==
            [frameType] + [channel / 256, channel % 256] +
              [n / 0x100_0000, n / 0x1_0000 % 256, n / 256 % 256, n % 256] + payload + [206]
  {
    ChannelOctets(channel);
    PayloadOctets(|payload|);
    hide Be;
  }

  lemma {:induction false} ChannelOctets(channel: nat)
    requires channel < 0x1_0000
    ensures Be(channel, 2) == [channel / 256, channel % 256]
  {
    BeOctets(channel);
    hide Be;
  }

  lemma {:induction false} PayloadOctets(n: nat)
    requires n < 0x1_0000_0000
    ensures Be(n, 4) == [n / 0x100_0000, n / 0x1_0000 % 256, n / 256 % 256, n % 256]
  {
    BeOctets(n);
    hide Be;
  }

  /** Methods, headers, bodies and heartbeats are the types 1, 2, 3 and 8. */
  lemma {:induction false} FrameOctets(codec: Codec, channel: nat, fragment: Bytes, room: nat)
    requires room >= 20
    ensures Encode(codec, BodyFrame(channel, fragment), room) == Ok(Envelope(3, channel, fragment))
    ensures Encode(codec, HeartbeatFrame(channel), room) == Ok(Envelope(8, channel, []))
    ensures forall h, l, major, minor :: Encode(codec, ProtocolFrame(channel, h, l, major, minor), room) == Err(-10)
    ensures forall id, f: Fields :: codec.encodeMethod(id, f, room - 12).Ok? ==>
              Encode(codec, MethodFrame(channel, id, f), room)
                == Ok(Envelope(1, channel, Be(id, 4) + codec.encodeMethod(id, f, room - 12).value))
    ensures forall c: nat, size, f: Fields :: codec.encodeProperties(c, f, room - 20).Ok? ==>
              Encode(codec, HeaderFrame(channel, c, size, f), room)
                == Ok(Envelope(2, channel, Be(c, 2) + Be(0, 2) + Be(size, 8) + codec.encodeProperties(c, f, room - 20).value))
  {
    hide Envelope, Be;
  }

  /** Reading the beginning of a stream before any field is looked at: too little to tell, a frame that
      announces more than the limit, a frame that is not complete, one that does not end in 206, and
      one of a type that is passed over. */
  lemma {:induction false} FirstFrameCases(codec: Codec, frameMax: nat, s: Bytes)
    ensures |s| < 7 ==> FirstFrame(codec, frameMax, s) == Incomplete
    ensures |s| >= 7 && FromBe(s[3..7]) + 8 > frameMax ==> FirstFrame(codec, frameMax, s) == Bad(-2)
    ensures |s| >= 7 && |s| < FromBe(s[3..7]) + 8 <= frameMax ==> FirstFrame(codec, frameMax, s) == Incomplete
    ensures |s| >= 7 && FromBe(s[3..7]) + 8 <= |s| && FromBe(s[3..7]) + 8 <= frameMax ==>
              var n := FromBe(s[3..7]) + 8;
              (s[n - 1] != 206 && s[0] != 1 && s[0] != 2 ==> FirstFrame(codec, frameMax, s) == Bad(-2)) &&
              (s[n - 1] != 206 && s[0] == 1 && n >= 12 ==> FirstFrame(codec, frameMax, s) == Bad(-2)) &&
              (s[n - 1] != 206 && s[0] == 2 && n >= 20 ==> FirstFrame(codec, frameMax, s) == Bad(-2)) &&
              (s[n - 1] == 206 && s[0] != 1 && s[0] != 2 && s[0] != 3 && s[0] != 8 ==>
                FirstFrame(codec, frameMax, s) == Whole(n, None))
  {
    hide FromBe;
  }

  /** What the frames of the four types are read as.  The two octets behind the class of a header are not
      looked at. */
  lemma {:induction false} FrameRead(codec: Codec, frameMax: nat, s: Bytes, n: nat)
    requires 8 <= n <= |s| && n <= frameMax && FromBe(s[3..7]) + 8 == n && s[n - 1] == 206
    ensures s[0] == 1 && n >= 12 ==>
              FirstFrame(codec, frameMax, s) ==
              match codec.decodeMethod(FromBe(s[7..11]), s[11..n - 1])
              case Ok(fields) => Whole(n, Some(MethodFrame(FromBe(s[1..3]), FromBe(s[7..11]), fields)))
              case Err(e) => Bad(e)
    ensures s[0] == 2 && n >= 20 ==>
              FirstFrame(codec, frameMax, s) ==
              match codec.decodeProperties(FromBe(s[7..9]), s[19..n - 1])
              case Ok(props) => Whole(n, Some(HeaderFrame(FromBe(s[1..3]), FromBe(s[7..9]), FromBe(s[11..19]), props)))
              case Err(e) => Bad(e)
    ensures s[0] == 3 ==> FirstFrame(codec, frameMax, s) == Whole(n, Some(BodyFrame(FromBe(s[1..3]), s[7..n - 1])))
    ensures s[0] == 8 ==> FirstFrame(codec, frameMax, s) == Whole(n, Some(HeartbeatFrame(FromBe(s[1..3]))))
  {
    hide FromBe;
    var raw := s[..n];
    assert raw[1..3] == s[1..3];
    if s[0] == 1 && n >= 12 {
      assert raw[7..11] == s[7..11] && raw[11..n - 1] == s[11..n - 1];
    } else if s[0] == 2 && n >= 20 {
      assert raw[7..9] == s[7..9] && raw[11..19] == s[11..19] && raw[19..n - 1] == s[19..n - 1];
    } else if s[0] == 3 {
      assert raw[7..n - 1] == s[7..n - 1];
    }
  }

  /** A frame of another type leaves no trace among the frames delivered. */
  lemma {:induction false} OtherTypeSkipped(codec: Codec, frameMax: nat, frameType: Octet, channel: nat, payload: Bytes, rest: Bytes)
    requires channel < 0x1_0000 && |payload| + 8 <= frameMax < 0x1_0000_0000
    requires frameType != 1 && frameType != 2 && frameType != 3 && frameType != 8
    ensures Parse(codec, frameMax, Envelope(frameType, channel, payload) + rest) == Parse(codec, frameMax, rest)
  {
    var e := Envelope(frameType, channel, payload);
    EnvelopeParts(frameType, channel, payload);
    FirstFrameCases(codec, frameMax, e);
    FirstFrameStable(codec, frameMax, e, rest);
    hide Envelope, FromBe;
    assert (e + rest)[|e|..] == rest;
    AheadEnds([], OutsideContract, Parse(codec, frameMax, rest));
  }

  /** "AMQP" in octets opens a protocol header, whose other four octets are handed out in order. */
  lemma {:induction false} ProtocolHeaderRead(codec: Codec, frameMax: nat, a: Octet, b: Octet, c: Octet, d: Octet, rest: Bytes)
    ensures var s := [65, 77, 81, 80] + [a, b, c, d] + rest;
            D.FirstFrom(true, codec, frameMax, s) == Whole(8, Some(ProtocolFrame(0, a, b, c, d))) &&
            D.ParseFrom(true, codec, frameMax, s) == Ahead([ProtocolFrame(0, a, b, c, d)], Parse(codec, frameMax, rest))
  {
    var s := [65, 77, 81, 80] + [a, b, c, d] + rest;
    assert s[..4] == [65, 77, 81, 80] && s[8..] == rest;
    assert s[4] == a && s[5] == b && s[6] == c && s[7] == d;
    hide FirstFrame, Parse, Ahead;
  }

  // ----- Field values -----

  /** The letter of every kind of number, its width, and the values it holds. */
  lemma {:induction false} NumberLetters()
    ensures NumberCode(I8) == 'b' as int && NumberCode(U8) == 'B' as int && NumberCode(I16) == 's' as int
    ensures NumberCode(U16) == 'u' as int && NumberCode(I32) == 'I' as int && NumberCode(U32) == 'i' as int
    ensures NumberCode(I64) == 'l' as int && NumberCode(U64) == 'L' as int && NumberCode(F32) == 'f' as int
    ensures NumberCode(F64) == 'd' as int && NumberCode(Timestamp) == 'T' as int
    ensures Width(I8) == Width(U8) == 1 && Width(I16) == Width(U16) == 2 && Width(I32) == Width(U32) == Width(F32) == 4
    ensures Width(I64) == Width(U64) == Width(F64) == Width(Timestamp) == 8
    ensures forall n :: (Holds(I8, n) <==> -0x80 <= n < 0x80) && (Holds(U8, n) <==> 0 <= n < 0x100)
    ensures forall n :: (Holds(I16, n) <==> -0x8000 <= n < 0x8000) && (Holds(U16, n) <==> 0 <= n < 0x1_0000)
    ensures forall n :: (Holds(I32, n) <==> -0x8000_0000 <= n < 0x8000_0000) && (Holds(U32, n) <==> 0 <= n < 0x1_0000_0000)
    ensures forall n :: Holds(I64, n) <==> -0x8000_0000_0000_0000 <= n < 0x8000_0000_0000_0000
    ensures forall n :: Holds(U64, n) <==> 0 <= n < 0x1_0000_0000_0000_0000
    ensures forall n :: (Holds(F32, n) <==> Holds(U32, n)) && (Holds(F64, n) <==> Holds(U64, n)) && (Holds(Timestamp, n) <==> Holds(U64, n))
  {
    Widths();
    hide Pow256;
  }

  /** Four octets for a size. */
  function SizeOctets(n: nat): Bytes {
    [n / 0x100_0000 % 256, n / 0x1_0000 % 256, n / 256 % 256, n % 256]
  }

  /** A value is its letter and then, by its kind, one octet, a number in two's complement, one octet and
      a number, or a size and so many octets. */
  lemma {:induction false} ValueOctets(v: Value)
    requires Meets(InRange, v)
    ensures match v
            case Boolean(b) => Written(v) == ['t' as int, if b then 1 else 0]
            case Number(kind, n) =>
              Written(v) == [NumberCode(kind)] + Be(if n < 0 then n + Pow256(Width(kind)) else n, Width(kind))
            case Decimal(decimals, unscaled) => Written(v) == ['D' as int, decimals] + SizeOctets(unscaled)
            case Text(utf8, bytes) => Written(v) == [if utf8 then 'S' as int else 'x' as int] + (SizeOctets(|bytes|) + bytes)
            case Array(items) => Written(v) == ['A' as int] + (SizeOctets(|Items(items)|) + Items(items))
            case Table(entries) => Written(v) == ['F' as int] + (SizeOctets(|Entries(entries)|) + Entries(entries))
            case Void => Written(v) == ['V' as int]
            case Unknown(code) => Written(v) == [code]
  {
    match v
    case Decimal(_, unscaled) => BeOctets(unscaled);
    case Text(_, bytes) => BeOctets(|bytes|);
    case Array(items) => BeOctets(|Items(items)|);
    case Table(entries) => BeOctets(|Entries(entries)|);
    case _ =>
  }

  /** Values stand one after another; an entry is the length of its key, the key and the value. */
  lemma {:induction false} EntriesOctets(v: Value, items: seq<Value>, e: Entry, entries: seq<Entry>)
    requires Meets(InRange, v) && ItemsMeet(InRange, items) && Meets(InRange, e.value) && EntriesMeet(InRange, entries)
    ensures ItemsMeet(InRange, [v] + items) && EntriesMeet(InRange, [e] + entries)
    ensures Items([]) == [] && Entries([]) == []
    ensures Items([v] + items) == Written(v) + Items(items)
    ensures Entries([e] + entries) == [|e.key| % 256] + e.key + Written(e.value) + Entries(entries)
  {
    assert ([v] + items)[1..] == items && ([e] + entries)[1..] == entries;
    hide Meets, Written;
  }

  /** Every octet but 0 is read as true. */
  lemma {:induction false} BooleanOctet(u: Octet)
    ensures ReadValue(['t' as int, u], 0) == Read(Boolean(u != 0), 2)
  {
    var s: Bytes := ['t' as int, u];
    assert s[1..2] == [u] && [u][..0] == [];
    assert FromBe(s[1..2]) == u;
    AtScalar(s, 0);
    hide ReadValue, FromBe;
  }

  /** An array may run over the size it announces: the last value begun is finished. */
  lemma {:induction false} ArrayOverrun()
    ensures var s := ['A' as int] + SizeOctets(1) + ['t' as int, 1];
            ReadValue(s, 0) == Read(Array([Boolean(true)]), 7)
  {
    var s: Bytes := ['A' as int] + SizeOctets(1) + ['t' as int, 1];
    assert s[1..5] == SizeOctets(1);
    BeOctets(1);
    FromBeOfBe(1, 4);
    assert Pow256(4) > 1;
    AtNested(s, 0);
    assert s[5] == 't' as int && s[6..7] == [1] && [1][..0] == [];
    assert FromBe(s[6..7]) == 1;
    AtScalar(s, 5);
    hide ReadValue, FromBe, SizeOctets, Be;
    ItemsStep(s, 5, 6);
    LimitReached(s, 7, 6);
    PutInFront(Boolean(true), [], 7);
    assert [Boolean(true)] + [] == [Boolean(true)];
  }

  lemma {:induction false} BooleanEntry(s: Bytes, at: nat, k: Octet, u: Octet)
    requires at + 4 <= |s| && s[at] == 1 && s[at + 1] == k && s[at + 2] == 't' as int && s[at + 3] == u
    ensures ReadEntry(s, at) == Read(Entry([k], Boolean(u != 0)), at + 4)
  {
    assert s[at + 1..at + 2] == [k] && s[at + 3..at + 4] == [u] && [u][..0] == [];
    assert FromBe(s[at + 3..at + 4]) == u;
    AtScalar(s, at + 2);
    hide ReadValue, FromBe;
  }

  /** So may a table. */
  lemma {:induction false} TableOverrun()
    ensures var s := ['F' as int] + SizeOctets(1) + [1, 'k' as int, 't' as int, 1];
            ReadValue(s, 0) == Read(Table([Entry(['k' as int], Boolean(true))]), 9)
  {
    var s: Bytes := ['F' as int] + SizeOctets(1) + [1, 'k' as int, 't' as int, 1];
    assert s[1..5] == SizeOctets(1);
    BeOctets(1);
    FromBeOfBe(1, 4);
    assert Pow256(4) > 1;
    AtNested(s, 0);
    hide ReadValue, FromBe, SizeOctets, Be, ReadEntry;
    BooleanEntry(s, 5, 'k' as int, 1);
    EntriesStep(s, 5, 6);
    LimitReached(s, 9, 6);
    assert [Entry(['k' as int], Boolean(true))] + [] == [Entry(['k' as int], Boolean(true))];
  }

  /** An octet that is none of the eighteen letters is refused. */
  lemma {:induction false} OtherLetterRefused(s: Bytes, at: nat)
    requires at < |s| && s[at] !in [98, 66, 115, 117, 73, 105, 108, 76, 102, 100, 84, 116, 68, 83, 120, 65, 70, 86]
    ensures ReadValue(s, at) == Refused
  {
    AtUnknown(s, at);
    hide ReadValue;
  }

  // ----- Properties -----

  lemma {:induction false} PadOne(flags: nat, later: seq<Option<Prop>>, i: nat)
    requires i < 14 && SlotsFit(flags, later, i + 1) && !Bit(flags, 15 - i)
    ensures SlotsFit(flags, [None] + later, i) && WriteSlots(flags, [None] + later, i) == WriteSlots(flags, later, i + 1)
    ensures SlotsAccepted([None] + later) <==> SlotsAccepted(later)
    ensures HeadersMeet(ShortKeys, [None] + later) <==> HeadersMeet(ShortKeys, later)
  {
    SlotInFront(flags, None, later, i);
    assert ([None] + later)[1..] == later;
    hide Bit, SlotsFit, SlotsAccepted, HeadersMeet;
    SlotsWritten(flags, [None] + later, i);
    SlotWritten(None);
    assert [] + WriteSlots(flags, later, i + 1) == WriteSlots(flags, later, i + 1);
  }

  lemma {:induction false} Pad(flags: nat, later: seq<Option<Prop>>, i: nat)
    requires i <= 14 && SlotsFit(flags, later, i) && forall k :: 15 - i < k < 16 ==> !Bit(flags, k)
    ensures var slots := Missing(i) + later;
            SlotsFit(flags, slots, 0) && WriteSlots(flags, slots, 0) == WriteSlots(flags, later, i)
    ensures SlotsAccepted(Missing(i) + later) <==> SlotsAccepted(later)
    ensures HeadersMeet(ShortKeys, Missing(i) + later) <==> HeadersMeet(ShortKeys, later)
    decreases i
  {
    hide SlotsFit, WriteSlots, SlotsAccepted, HeadersMeet, Bit;
    if i == 0 {
      assert Missing(0) + later == later;
    } else {
      hide Missing;
      PadOne(flags, later, i - 1);
      Pad(flags, [None] + later, i - 1);
      MissingLast(i - 1);
      assert Missing(i - 1) + ([None] + later) == Missing(i) + later;
    }
  }

  lemma {:induction false} MissingLast(n: nat)
    ensures Missing(n + 1) == Missing(n) + [None]
  {
    if n > 0 {
      MissingLast(n - 1);
      assert [None] + (Missing(n - 1) + [None]) == ([None] + Missing(n - 1)) + [None];
    }
  }

  /** A property list with one property. */
  function OneSlot(i: nat, p: Prop): (slots: seq<Option<Prop>>)
    requires i < 14
    ensures |slots| == 14
  {
    Missing(i) + ([Some(p)] + Missing(13 - i))
  }

  lemma {:induction false} OneSlotFits(i: nat, p: Prop)
    requires i < 14 && PropInRange(p) && KindOf(p) == KindAt(i)
    ensures var flags := Pow2(15 - i);
            SlotsFit(flags, OneSlot(i, p), 0) && WriteSlots(flags, OneSlot(i, p), 0) == WriteProp(p)
    ensures SlotsAccepted(OneSlot(i, p)) <==> PropAccepted(p)
    ensures HeadersMeet(ShortKeys, OneSlot(i, p)) <==> (p.Headers? ==> EntriesMeet(ShortKeys, p.entries))
  {
    var flags := Pow2(15 - i);
    forall k | 0 <= k < 16
      ensures Bit(flags, k) <==> k == 15 - i
    {
      OnlyFlag(15 - i, k);
    }
    assert OneSlot(i, p) == Missing(i) + ([Some(p)] + Missing(13 - i));
    hide *;
    OneAmongNone(flags, i, p, Missing(13 - i));
  }

  lemma {:induction false} OneAmongNone(flags: nat, i: nat, p: Prop, tail: seq<Option<Prop>>)
    requires i < 14 && PropInRange(p) && KindOf(p) == KindAt(i) && tail == Missing(13 - i)
    requires forall k :: 0 <= k < 16 ==> (Bit(flags, k) <==> k == 15 - i)
    ensures var slots := Missing(i) + ([Some(p)] + tail);
            SlotsFit(flags, slots, 0) && WriteSlots(flags, slots, 0) == WriteProp(p)
    ensures SlotsAccepted(Missing(i) + ([Some(p)] + tail)) <==> PropAccepted(p)
    ensures HeadersMeet(ShortKeys, Missing(i) + ([Some(p)] + tail)) <==> (p.Headers? ==> EntriesMeet(ShortKeys, p.entries))
  {
    hide *;
    NoSlotsFit(flags, 13 - i);
    SlotInFront(flags, Some(p), tail, i);
    OneWritten(flags, p, tail, i);
    Pad(flags, [Some(p)] + tail, i);
  }

  lemma {:induction false} OneWritten(flags: nat, p: Prop, tail: seq<Option<Prop>>, i: nat)
    requires SlotsFit(flags, [Some(p)] + tail, i) && SlotsFit(flags, tail, i + 1) && PropInRange(p)
    requires |WriteSlots(flags, tail, i + 1)| == 0
    ensures WriteSlots(flags, [Some(p)] + tail, i) == WriteProp(p)
  {
    assert ([Some(p)] + tail)[1..] == tail && ([Some(p)] + tail)[0] == Some(p);
    SlotsWritten(flags, [Some(p)] + tail, i);
    hide SlotsFit, WriteSlots, WriteProp, PropInRange;
    SlotWritten(Some(p));
    assert WriteProp(p) + [] == WriteProp(p);
  }

  /** The two flag octets of a single property: its place counted from the highest bit. */
  lemma {:induction false} FlagOctets(i: nat)
    requires i < 14
    ensures FlagWords(Pow2(15 - i)) ==
            if i < 8 then [[128, 64, 32, 16, 8, 4, 2, 1][i], 0] else [0, [128, 64, 32, 16, 8, 4][i - 8]]
    ensures FlagsKept(Pow2(15 - i)) && Pow2(15 - i) < 0x1_0000
  {
    assert Pow2(2) == 4 && Pow2(3) == 8 && Pow2(4) == 16 && Pow2(5) == 32 && Pow2(6) == 64 && Pow2(7) == 128;
    assert Pow2(8) == 256 && Pow2(9) == 512 && Pow2(10) == 1024 && Pow2(11) == 2048 && Pow2(12) == 4096;
    assert Pow2(13) == 8192 && Pow2(14) == 16384 && Pow2(15) == 32768;
    hide Pow2;
    OneWordOctets(Pow2(15 - i));
  }

  lemma {:induction false} WordOctets(w: nat)
    requires w < 0x1_0000
    ensures Be(w, 2) == [w / 256, w % 256]
  {
    hide *;
    BeOctets(w);
  }

  lemma {:induction false} OneWordOctets(flags: nat)
    requires flags < 0x1_0000 && flags % 2 == 0
    ensures FlagWords(flags) == [flags / 256, flags % 256]
  {
    BeOctets(flags);
    hide Be;
    assert Be(flags, 2) + [] == Be(flags, 2);
  }

  /** A message with a single property is its flag octets and, by the place, a length octet and the text,
      a size and the entries (headers, place 2), one octet (delivery-mode and priority, 3 and 4) or eight
      octets (timestamp, 9); and it is read back from them. */
  lemma {:induction false} SingleProperty(i: nat, p: Prop, room: nat)
    requires i < 14 && room < 0x1_0000_0000
    requires match p
             case Headers(entries) => i == 2 && EntriesMeet(InRange, entries) && EntriesMeet(KnownKinds, entries)
             case Small(_) => i == 3 || i == 4
             case Long(number) => i == 9 && number < 0x1_0000_0000_0000_0000
             case Short(text) => i != 2 && i != 3 && i != 4 && i != 9 && |text| < 256
    requires 2 + |PropertyOctets(p)| <= room
    ensures var flags := if i < 8 then [[128, 64, 32, 16, 8, 4, 2, 1][i], 0] else [0, [128, 64, 32, 16, 8, 4][i - 8]];
            EncodeBasic(Pow2(15 - i), OneSlot(i, p), room) == Ok(flags + PropertyOctets(p)) &&
            ((p.Headers? ==> EntriesMeet(ShortKeys, p.entries)) ==>
              DecodeBasic(flags + PropertyOctets(p)) == Ok(BasicProperties(Pow2(15 - i), OneSlot(i, p))))
  {
    PropertyWritten(p);
    assert KindOf(p) == KindAt(i);
    hide *;
    OneSlotFits(i, p);
    FlagOctets(i);
    EncodeIs(Pow2(15 - i), OneSlot(i, p), room);
    PropertiesSurviveIff(Pow2(15 - i), OneSlot(i, p), room);
  }

  lemma {:induction false} EncodeIs(flags: nat, slots: seq<Option<Prop>>, room: nat)
    requires flags < 0x1_0000_0000 && SlotsFit(flags, slots, 0) && SlotsAccepted(slots)
    requires |FlagWords(flags) + WriteSlots(flags, slots, 0)| <= room
    ensures EncodeBasic(flags, slots, room) == Ok(FlagWords(flags) + WriteSlots(flags, slots, 0))
  {
    hide SlotsFit, SlotsAccepted, WriteSlots, FlagWords;
  }

  function PropertyOctets(p: Prop): Bytes
    requires p.Short? ==> |p.text| < 256
    requires p.Headers? ==> EntriesMeet(InRange, p.entries)
  {
    match p
    case Short(text) => [|text|] + text
    case Headers(entries) => SizeOctets(|Entries(entries)|) + Entries(entries)
    case Small(octet) => [octet]
    case Long(number) => SizeOctets(number / 0x1_0000_0000) + SizeOctets(number)
  }

  lemma {:induction false} PropertyWritten(p: Prop)
    requires PropInRange(p) && PropAccepted(p)
    ensures WriteProp(p) == PropertyOctets(p)
  {
    match p
    case Short(_) =>
    case Headers(entries) => BeOctets(|Entries(entries)|);
    case Small(_) =>
    case Long(number) =>
      BeHalves(number);
      BeOctets(number);
      BeOctets(number / 0x1_0000_0000);
  }

  /** A short string of 256 octets or more is refused wherever it stands. */
  lemma {:induction false} LongStringRefused(flags: nat, slots: seq<Option<Prop>>, i: nat, room: nat)
    requires i < |slots| && slots[i].Some? && slots[i].value.Short? && |slots[i].value.text| >= 256
    ensures EncodeBasic(flags, slots, room).Err?
  {
    NotAccepted(slots, i);
    hide SlotsFit, SlotsAccepted, WriteSlots, FlagWords;
  }

  lemma {:induction false} NotAccepted(slots: seq<Option<Prop>>, i: nat)
    requires i < |slots| && slots[i].Some? && slots[i].value.Short? && |slots[i].value.text| >= 256
    ensures !SlotsAccepted(slots)
  {
    if i > 0 {
      NotAccepted(slots[1..], i - 1);
    }
  }

  /** Flags beyond the lower sixteen take a second word, announced by the first bit of the first. */
  lemma {:induction false} TwoWordOctets(flags: nat)
    requires 0x1_0000 <= flags < 0x1_0000_0000
    ensures var low, high := flags % 0x1_0000 / 2 * 2 + 1, flags / 0x1_0000 / 2 * 2;
            FlagWords(flags) == [low / 256, low % 256] + [high / 256, high % 256]
  {
    var low, high := flags % 0x1_0000 / 2 * 2 + 1, flags / 0x1_0000 / 2 * 2;
    assert LowWord(flags) == low && low < 0x1_0000 && high < 0x1_0000;
    hide *;
    OneOrTwoWords(flags);
    WordOctets(low);
    WordOctets(high);
  }

  /** The arguments of basic.publish: two octets for the ticket, two short strings, and one octet with
      mandatory as its lowest bit and immediate as the next. */
  lemma {:induction false} ArgumentOctets(ticket: nat, exchange: Bytes, key: Bytes, mandatory: bool, immediate: bool, room: nat)
    requires ticket < 0x1_0000 && |exchange| < 256 && |key| < 256 && 5 + |exchange| + |key| <= room
    ensures EncodePublish(PublishArguments(ticket, exchange, key, mandatory, immediate), room) ==
            Ok([ticket / 256, ticket % 256] + ([|exchange|] + exchange + ([|key|] + key +
              [if mandatory && immediate then 3 else if immediate then 2 else if mandatory then 1 else 0])))
  {
    BeOctets(ticket);
    hide Be;
  }

  lemma {:induction false} LongArgumentRefused(f: Fields, room: nat)
    requires f.PublishArguments? && (|f.exchange| >= 256 || |f.routingKey| >= 256)
    ensures EncodePublish(f, room).Err?
  {
  }

  /** The decoders, and the encoder of publish arguments of the right form, refuse with bad data. */
  lemma {:induction false} CodecErrors(f: Fields, room: nat, b: Bytes)
    ensures DecodeBasic(b).Err? ==> DecodeBasic(b).status == -2
    ensures DecodePublish(b).Err? ==> DecodePublish(b).status == -2
    ensures EncodePublish(f, room).Err? && f.PublishArguments? && f.ticket < 0x1_0000 ==> EncodePublish(f, room).status == -2
  {
    hide ReadFlags, ReadSlots, ReadShort, ReadUint, WritePublish;
  }

  // ----- One publish in full -----

  /** The headers { "k": true } and delivery-mode 2. */
  function SampleEntries(): seq<Entry> {
    [Entry(['k' as int], Boolean(true))]
  }

  function SampleSlots(): seq<Option<Prop>> {
    Missing(2) + ([Some(Headers(SampleEntries()))] + ([Some(Small(2))] + Missing(10)))
  }

  lemma {:induction false} ScaledBit(k: nat, v: nat, i: nat)
    ensures Bit(Pow2(k) * v, i) <==> i >= k && Bit(v, i - k)
  {
    if k > 0 {
      var half := Pow2(k - 1) * v;
      assert Pow2(k) * v == 2 * half;
      if i > 0 {
        ScaledBit(k - 1, v, i - 1);
      }
    } else {
      assert Pow2(0) * v == v;
    }
  }

  lemma {:induction false} SampleFlags()
    ensures forall k :: 0 <= k < 16 ==> (Bit(0x3000, k) <==> k == 12 || k == 13)
  {
    assert Pow2(12) == 0x1000;
    forall k | 0 <= k < 16
      ensures Bit(0x3000, k) <==> k == 12 || k == 13
    {
      ScaledBit(12, 3, k);
      if k >= 12 {
        BitsOfThree(k - 12);
      }
    }
  }

  lemma {:induction false} BitsOfThree(i: nat)
    ensures Bit(3, i) <==> i < 2
  {
    if i >= 2 {
      NoFlag(i - 2);
      assert Bit(3, i) == Bit(1, i - 1) == Bit(0, i - 2);
    } else {
      assert Bit(3, 0) && Bit(3, 1);
    }
  }

  lemma {:induction false} SampleTable()
    ensures var t := SampleEntries();
            EntriesMeet(InRange, t) && EntriesMeet(KnownKinds, t) && EntriesMeet(ShortKeys, t) &&
            Entries(t) == [1, 107] + [116, 1]
  {
    var e := Entry(['k' as int], Boolean(true));
    assert [e] + [] == [e] && 'k' as int == 107 && 't' as int == 116;
    ValueOctets(Boolean(true));
    EntriesOctets(Void, [], e, []);
    assert EntriesMeet(KnownKinds, [e]) && EntriesMeet(ShortKeys, [e]) by {
      assert [e][1..] == [];
    }
    hide Written, Meets;
    assert [1] + ['k' as int] + ['t' as int, 1] + [] == [1, 107] + [116, 1];
  }

  lemma {:induction false} SampleSlotsFit()
    ensures var slots := SampleSlots();
            SlotsFit(0x3000, slots, 0) && SlotsAccepted(slots) && HeadersMeet(ShortKeys, slots) &&
            WriteSlots(0x3000, slots, 0) == [0, 0, 0, 4] + ([1, 107] + [116, 1]) + [2]
  {
    hide *;
    SampleTable();
    SampleFlags();
    SampleKinds();
    SampleSlotsAre();
    TwoAmongNone(0x3000, Headers(SampleEntries()), Small(2), Missing(10));
  }

  lemma {:induction false} TwoAmongNone(flags: nat, head: Prop, mode: Prop, tail: seq<Option<Prop>>)
    requires KindOf(head) == KindAt(2) && KindOf(mode) == KindAt(3) && PropInRange(head) && PropInRange(mode)
    requires PropAccepted(head) && PropAccepted(mode) && tail == Missing(10)
    requires mode.Small? && head.Headers? && EntriesMeet(ShortKeys, head.entries)
    requires forall k :: 0 <= k < 16 ==> (Bit(flags, k) <==> k == 12 || k == 13)
    ensures var slots := Missing(2) + ([Some(head)] + ([Some(mode)] + tail));
            SlotsFit(flags, slots, 0) && SlotsAccepted(slots) && HeadersMeet(ShortKeys, slots) &&
            WriteSlots(flags, slots, 0) == WriteProp(head) + WriteProp(mode)
  {
    hide *;
    NoSlotsFit(flags, 10);
    SlotInFront(flags, Some(mode), tail, 3);
    SlotInFront(flags, Some(head), [Some(mode)] + tail, 2);
    TwoSlotsWritten(flags, head, mode, tail);
    Pad(flags, [Some(head)] + ([Some(mode)] + tail), 2);
  }

  lemma {:induction false} SampleSlotsAre()
    ensures SampleSlots() == Missing(2) + ([Some(Headers(SampleEntries()))] + ([Some(Small(2))] + Missing(10)))
  {
    hide Missing, SampleEntries;
  }

  lemma {:induction false} SampleKinds()
    ensures var head, mode := Headers(SampleEntries()), Small(2);
            KindOf(head) == KindAt(2) && KindOf(mode) == KindAt(3) && PropInRange(head) && PropInRange(mode) &&
            PropAccepted(head) && PropAccepted(mode) &&
            WriteProp(head) == [0, 0, 0, 4] + ([1, 107] + [116, 1]) && WriteProp(mode) == [2]
  {
    SampleTable();
    BeOctets(4);
    hide Entries, EntriesMeet, Be, SampleEntries;
    assert |Entries(SampleEntries())| == 4;
  }

  lemma {:induction false} TwoSlotsWritten(flags: nat, a: Prop, b: Prop, later: seq<Option<Prop>>)
    requires SlotsFit(flags, [Some(a)] + ([Some(b)] + later), 2) && SlotsFit(flags, [Some(b)] + later, 3)
    requires SlotsFit(flags, later, 4) && |WriteSlots(flags, later, 4)| == 0
    ensures PropInRange(a) && PropInRange(b)
    ensures WriteSlots(flags, [Some(a)] + ([Some(b)] + later), 2) == WriteProp(a) + WriteProp(b)
  {
    var two := [Some(b)] + later;
    var one := [Some(a)] + two;
    assert one[1..] == two && two[1..] == later && one[0] == Some(a) && two[0] == Some(b);
    SlotsWritten(flags, one, 2);
    SlotsWritten(flags, two, 3);
    hide SlotsFit, WriteSlots, WriteProp, PropInRange;
    SlotWritten(Some(a));
    SlotWritten(Some(b));
    assert WriteProp(b) + [] == WriteProp(b);
  }

  /** Publishing "hi" to the default exchange with routing key "q" on channel 1, with these properties:
      a method frame, a content header and one body frame, in octets. */
  lemma {:induction false} PublishOctets(others: Codec)
    ensures var m := PublishArguments(0, [], ['q' as int], false, false);
            var frames := PublishFrames(1, m, BasicProperties(0x3000, SampleSlots()), ['h' as int, 'i' as int], 4088);
            EncodeAll(LibraryCodec(others), frames, 4096) ==
              [1] + [0, 1] + [0, 0, 0, 10] + ([0, 60, 0, 40] + ([0, 0] + ([0] + ([1, 113] + [0])))) + [206] +
              ([2] + [0, 1] + [0, 0, 0, 23] +
                 ([0, 60] + [0, 0] + ([0, 0, 0, 0] + [0, 0, 0, 2]) + ([48, 0] + ([0, 0, 0, 4] + ([1, 107] + [116, 1]) + [2]))) +
                 [206] +
               ([3] + [0, 1] + [0, 0, 0, 2] + [104, 105] + [206]))
  {
    var codec := LibraryCodec(others);
    var m := PublishArguments(0, [], ['q' as int], false, false);
    var props, body: Bytes := BasicProperties(0x3000, SampleSlots()), ['h' as int, 'i' as int];
    var a, b, c := MethodFrame(1, 0x3C0028, m), HeaderFrame(1, 60, 2, props), BodyFrame(1, body);
    hide *;
    SampleShape(m, props, body);
    SampleMethod(others, m);
    SampleHeader(others, props);
    SampleBody(codec, body);
    EncodeThree(codec, a, b, c, 4096);
  }

  lemma {:induction false} SampleShape(m: Fields, props: Fields, body: Bytes)
    requires |body| == 2
    ensures PublishFrames(1, m, props, body, 4088) ==
            [MethodFrame(1, 0x3C0028, m), HeaderFrame(1, 60, 2, props), BodyFrame(1, body)]
  {
    assert body[..2] == body && body[2..] == [];
    assert Fragments(1, [], 4088) == [];
    assert Fragments(1, body, 4088) == [BodyFrame(1, body)] + [];
    hide Fragments;
  }

  lemma {:induction false} EncodeThree(codec: Codec, a: Frame, b: Frame, c: Frame, room: nat)
    requires room >= 20 && Encode(codec, a, room).Ok? && Encode(codec, b, room).Ok? && Encode(codec, c, room).Ok?
    ensures EncodeAll(codec, [a, b, c], room) ==
            Encode(codec, a, room).value + (Encode(codec, b, room).value + Encode(codec, c, room).value)
  {
    assert [a, b, c][1..] == [b, c] && [b, c][1..] == [c] && [c][1..] == [];
    hide Encode;
    assert EncodeAll(codec, [], room) == [];
    assert EncodeAll(codec, [c], room) == Encode(codec, c, room).value + [] == Encode(codec, c, room).value;
    assert EncodeAll(codec, [b, c], room) == Encode(codec, b, room).value + EncodeAll(codec, [c], room);
  }

  lemma {:induction false} SampleMethod(others: Codec, m: Fields)
    requires m == PublishArguments(0, [], ['q' as int], false, false)
    ensures Encode(LibraryCodec(others), MethodFrame(1, 0x3C0028, m), 4096) ==
            Ok([1] + [0, 1] + [0, 0, 0, 10] + ([0, 60, 0, 40] + ([0, 0] + ([0] + ([1, 113] + [0])))) + [206])
  {
    var fields: Bytes := [0, 0] + ([0] + ([1, 113] + [0]));
    ArgumentOctets(0, [], ['q' as int], false, false, 4084);
    assert [0] + [] == [0] && [1] + ['q' as int] == [1, 113];
    BeOctets(0x3C0028);
    assert Be(0x3C0028, 4) == [0, 60, 0, 40];
    hide Envelope, Be, EncodePublish, EncodeBasic, DecodePublish, DecodeBasic;
    assert EncodePublish(m, 4084) == Ok(fields);
    EnvelopeOctets(1, 1, [0, 60, 0, 40] + fields);
  }

  lemma {:induction false} SampleHeader(others: Codec, props: Fields)
    requires props == BasicProperties(0x3000, SampleSlots())
    ensures Encode(LibraryCodec(others), HeaderFrame(1, 60, 2, props), 4096) ==
            Ok([2] + [0, 1] + [0, 0, 0, 23] +
               ([0, 60] + [0, 0] + ([0, 0, 0, 0] + [0, 0, 0, 2]) + ([48, 0] + ([0, 0, 0, 4] + ([1, 107] + [116, 1]) + [2]))) + [206])
  {
    hide *;
    SampleProperties();
    SampleFixed();
    HeaderEncodes(others, 0x3000, SampleSlots(), [48, 0] + ([0, 0, 0, 4] + ([1, 107] + [116, 1]) + [2]));
    EnvelopeOctets(2, 1, [0, 60] + [0, 0] + ([0, 0, 0, 0] + [0, 0, 0, 2]) + ([48, 0] + ([0, 0, 0, 4] + ([1, 107] + [116, 1]) + [2])));
  }

  lemma {:induction false} SampleProperties()
    ensures EncodeBasic(0x3000, SampleSlots(), 4076) == Ok([48, 0] + ([0, 0, 0, 4] + ([1, 107] + [116, 1]) + [2]))
  {
    hide *;
    SampleSlotsFit();
    OneWordOctets(0x3000);
    EncodeIs(0x3000, SampleSlots(), 4076);
  }

  lemma {:induction false} SampleFixed()
    ensures Be(60, 2) + Be(0, 2) + Be(2, 8) == [0, 60] + [0, 0] + ([0, 0, 0, 0] + [0, 0, 0, 2])
  {
    hide *;
    BeOctets(60);
    BeOctets(0);
    BeOctets(2);
    BeHalves(2);
  }

  lemma {:induction false} HeaderEncodes(others: Codec, flags: nat, slots: seq<Option<Prop>>, b: Bytes)
    requires EncodeBasic(flags, slots, 4076) == Ok(b)
    ensures Encode(LibraryCodec(others), HeaderFrame(1, 60, 2, BasicProperties(flags, slots)), 4096)
         == Ok(Envelope(2, 1, Be(60, 2) + Be(0, 2) + Be(2, 8) + b))
  {
    hide EncodeBasic, DecodeBasic, EncodePublish, DecodePublish, Envelope, Be;
  }

  lemma {:induction false} SampleBody(codec: Codec, body: Bytes)
    requires body == ['h' as int, 'i' as int]
    ensures Encode(codec, BodyFrame(1, body), 4096) == Ok([3] + [0, 1] + [0, 0, 0, 2] + [104, 105] + [206])
  {
    EnvelopeOctets(3, 1, body);
    hide Envelope;
  }
}
