/** The generated codecs of amqp_framing.c for the two field lists a publish sends: the arguments of
    basic.publish and the properties of the Basic class. */
module AmqpProperties {
  import opened Wrappers
  import opened Words
  import opened AmqpData
  import opened AmqpFrames
  import opened AmqpTables

  // ----- The flag words -----

  /** Sixteen flags to a word, the lowest of which says that another word follows.  The first bit of
      every word is overwritten. */
  function FlagWords(flags: nat): (b: Bytes)
  {
    var rest := flags / 0x1_0000;
    Be(flags % 0x1_0000 / 2 * 2 + (if rest != 0 then 1 else 0), 2) + (if rest == 0 then [] else FlagWords(rest))
  }

  /** The flags of at most two words. */
  function ReadFlags(s: Bytes, at: nat): (r: Read<nat>)
    ensures r.Read? ==> at < r.at <= |s|
  {
    match ReadUint(s, at, 2)
    case Refused => Refused
    case Read(low, next) =>
      if low % 2 == 0 then Read(low, next)
      else
        match ReadUint(s, next, 2)
        case Refused => Refused
        case Read(high, after) => if high % 2 == 0 then Read(low + 0x1_0000 * high, after) else Refused
  }

  /** The first bit of each word plays its part only: the lower says whether any flag is above it, and
      the upper is clear. */
  predicate FlagsKept(flags: nat) {
    (flags % 2 == 1 <==> flags / 0x1_0000 != 0) && flags / 0x1_0000 % 2 == 0
  }

  function FlagsRead(flags: nat): nat {
    var rest := flags / 0x1_0000;
    flags % 0x1_0000 / 2 * 2 + (if rest != 0 then 1 else 0) + 0x1_0000 * (rest / 2 * 2)
  }

  /** The word written for the lower sixteen flags. */
  function LowWord(flags: nat): (w: nat)
    ensures w < 0x1_0000 && (w % 2 == 1 <==> flags / 0x1_0000 != 0)
  {
    flags % 0x1_0000 / 2 * 2 + (if flags / 0x1_0000 != 0 then 1 else 0)
  }

  lemma {:induction false} OneOrTwoWords(flags: nat)
    requires flags < 0x1_0000_0000
    ensures var high := flags / 0x1_0000;
            FlagWords(flags) == Be(LowWord(flags), 2) + (if high == 0 then [] else Be(high / 2 * 2, 2))
  {
    var high := flags / 0x1_0000;
    hide Be;
    if high != 0 {
      var second := Be(high / 2 * 2, 2);
      assert FlagWords(high) == second + [] == second;
    }
  }

  lemma {:induction false} FlagsReadBack(flags: nat, s: Bytes, at: nat)
    requires flags < 0x1_0000_0000 && StandsAt(FlagWords(flags), s, at)
    ensures ReadFlags(s, at) == Read(FlagsRead(flags), at + |FlagWords(flags)|)
  {
    hide *;
    OneOrTwoWords(flags);
    var low, high := LowWord(flags), flags / 0x1_0000;
    if high == 0 {
      assert Be(low, 2) + [] == Be(low, 2);
      OneWordReads(low, s, at);
    } else {
      TwoWordsRead(low, high / 2 * 2, s, at);
    }
    FlagsInWords(flags);
  }

  lemma {:induction false} OneWordReads(low: nat, s: Bytes, at: nat)
    requires low < 0x1_0000 && low % 2 == 0 && StandsAt(Be(low, 2), s, at)
    ensures ReadFlags(s, at) == Read(low, at + 2)
  {
    Widths();
    UintReads(low, 2, s, at);
    hide Be, ReadUint, StandsAt;
  }

  lemma {:induction false} TwoWordsRead(low: nat, high: nat, s: Bytes, at: nat)
    requires low < 0x1_0000 && low % 2 == 1 && high < 0x1_0000 && high % 2 == 0
    requires StandsAt(Be(low, 2) + Be(high, 2), s, at)
    ensures ReadFlags(s, at) == Read(low + 0x1_0000 * high, at + 4)
  {
    Widths();
    hide Be, ReadUint, StandsAt;
    StandsParts(Be(low, 2), Be(high, 2), s, at);
    UintReads(low, 2, s, at);
    UintReads(high, 2, s, at + 2);
  }

  lemma {:induction false} FlagsInWords(flags: nat)
    ensures FlagsRead(flags) == LowWord(flags) + 0x1_0000 * (flags / 0x1_0000 / 2 * 2)
  {
  }

  lemma {:induction false} FlagsReadIff(flags: nat)
    ensures FlagsRead(flags) == flags <==> FlagsKept(flags)
  {
    var low, high := flags % 0x1_0000, flags / 0x1_0000;
    assert flags == low + 0x1_0000 * high && flags % 2 == low % 2;
  }

  lemma {:induction false} BitBelow(a: nat, b: nat, n: nat, i: nat)
    requires i < n
    ensures Bit(a + Pow2(n) * b, i) == Bit(a, i)
  {
    var t := Pow2(n - 1) * b;
    assert Pow2(n) * b == 2 * t;
    hide Pow2;
    if i > 0 {
      assert (a + 2 * t) / 2 == a / 2 + t;
      BitBelow(a / 2, b, n - 1, i - 1);
    }
  }

  /** The flags of the fourteen properties are the same. */
  predicate SameSlotFlags(v: nat, w: nat) {
    forall k :: 2 <= k < 16 ==> Bit(v, k) == Bit(w, k)
  }

  lemma {:induction false} SlotFlagsKept(flags: nat)
    ensures SameSlotFlags(flags, FlagsRead(flags))
  {
    var low, high, got := flags % 0x1_0000, flags / 0x1_0000, FlagsRead(flags);
    assert Pow2(15) == 0x8000;
    assert flags / 2 == low / 2 + 0x8000 * high && got / 2 == low / 2 + 0x8000 * (high / 2 * 2);
    forall k | 2 <= k < 16
      ensures Bit(flags, k) == Bit(got, k)
    {
      hide Pow2, FlagsRead;
      BitBelow(low / 2, high, 15, k - 1);
      BitBelow(low / 2, high / 2 * 2, 15, k - 1);
    }
  }

  // ----- Properties -----

  datatype PropKind = ShortKind | HeadersKind | SmallKind | LongKind

  /** The kinds in the order of the flags, from the highest: content-type, content-encoding, headers,
      delivery-mode, priority, correlation-id, reply-to, expiration, message-id, timestamp, type,
      user-id, app-id, cluster-id. */
  function KindAt(i: nat): PropKind {
    if i == 2 then HeadersKind
    else if i == 3 || i == 4 then SmallKind
    else if i == 9 then LongKind
    else ShortKind
  }

  function KindOf(p: Prop): PropKind {
    match p
    case Short(_) => ShortKind
    case Headers(_) => HeadersKind
    case Small(_) => SmallKind
    case Long(_) => LongKind
  }

  /** The values that the C types can hold. */
  predicate PropInRange(p: Prop) {
    match p
    case Headers(entries) => EntriesMeet(InRange, entries)
    case Long(number) => number < 0x1_0000_0000_0000_0000
    case _ => true
  }

  /** From the given place on, every property is there exactly when its flag is set, and of its kind. */
  predicate SlotsFit(flags: nat, slots: seq<Option<Prop>>, i: nat)
    decreases |slots|
  {
    i + |slots| == 14 &&
    (slots == [] ||
     ((slots[0].Some? <==> Bit(flags, 15 - i)) &&
      (slots[0].Some? ==> KindOf(slots[0].value) == KindAt(i) && PropInRange(slots[0].value)) &&
      SlotsFit(flags, slots[1..], i + 1)))
  }

  /** What the encoder checks itself: the length of a short string and the kinds inside a table. */
  predicate PropAccepted(p: Prop) {
    match p
    case Short(text) => |text| < 256
    case Headers(entries) => EntriesMeet(KnownKinds, entries)
    case _ => true
  }

  predicate SlotsAccepted(slots: seq<Option<Prop>>) {
    slots == [] || ((slots[0].Some? ==> PropAccepted(slots[0].value)) && SlotsAccepted(slots[1..]))
  }

  /** What is asked of a header table and of all that is nested in it.  The encoder does not check its
      keys. */
  predicate HeadersMeet(demand: Demand, slots: seq<Option<Prop>>) {
    slots == [] ||
    ((slots[0].Some? && slots[0].value.Headers? ==> EntriesMeet(demand, slots[0].value.entries)) &&
     HeadersMeet(demand, slots[1..]))
  }

  function WriteProp(p: Prop): Bytes
    requires PropInRange(p)
  {
    match p
    case Short(text) => WrittenKey(text)
    case Headers(entries) => Sized(Entries(entries))
    case Small(octet) => [octet]
    case Long(number) => Be(number, 8)
  }

  function WriteSlots(flags: nat, slots: seq<Option<Prop>>, i: nat): Bytes
    requires SlotsFit(flags, slots, i)
    decreases |slots|
  {
    if slots == [] then [] else WriteSlot(slots[0]) + WriteSlots(flags, slots[1..], i + 1)
  }

  function WriteSlot(slot: Option<Prop>): Bytes
    requires slot.Some? ==> PropInRange(slot.value)
  {
    if slot.Some? then WriteProp(slot.value) else []
  }

  /** `amqp_encode_properties` for the Basic class.  What does not fit the C types cannot occur. */
  function EncodeBasic(flags: nat, slots: seq<Option<Prop>>, room: nat): Result<Bytes> {
    if flags >= 0x1_0000_0000 || !SlotsFit(flags, slots, 0) then Err(STATUS_INVALID_PARAMETER)
    else
      var b := FlagWords(flags) + WriteSlots(flags, slots, 0);
      if SlotsAccepted(slots) && |b| <= room then Ok(b) else Err(STATUS_BAD_AMQP_DATA)
  }

  function ReadShort(s: Bytes, at: nat): (r: Read<Bytes>)
    ensures r.Read? ==> at < r.at <= |s|
  {
    if at < |s| then ReadBytes(s, at + 1, s[at]) else Refused
  }

  function ReadProp(kind: PropKind, s: Bytes, at: nat): (r: Read<Prop>)
    ensures r.Read? ==> at < r.at <= |s|
  {
    match kind
    case ShortKind => (match ReadShort(s, at) case Read(text, after) => Read(Short(text), after) case Refused => Refused)
    case HeadersKind => (match ReadTable(s, at) case Read(entries, after) => Read(Headers(entries), after) case Refused => Refused)
    case SmallKind => if at < |s| then Read(Small(s[at]), at + 1) else Refused
    case LongKind => (match ReadUint(s, at, 8) case Read(number, after) => Read(Long(number), after) case Refused => Refused)
  }

  function ReadSlots(flags: nat, s: Bytes, at: nat, i: nat): Read<seq<Option<Prop>>>
    decreases 14 - i
  {
    if i >= 14 then Read([], at)
    else if !Bit(flags, 15 - i) then Front([None], ReadSlots(flags, s, at, i + 1))
    else
      match ReadProp(KindAt(i), s, at)
      case Refused => Refused
      case Read(p, after) => Front([Some(p)], ReadSlots(flags, s, after, i + 1))
  }

  /** `amqp_decode_properties` for the Basic class. */
  function DecodeBasic(b: Bytes): Result<Fields> {
    match ReadFlags(b, 0)
    case Refused => Err(STATUS_BAD_AMQP_DATA)
    case Read(flags, at) =>
      match ReadSlots(flags, b, at, 0)
      case Refused => Err(STATUS_BAD_AMQP_DATA)
      case Read(slots, _) => Ok(BasicProperties(flags, slots))
  }

  lemma {:induction false} PropReads(p: Prop, s: Bytes, at: nat)
    requires PropInRange(p) && PropAccepted(p) && (p.Headers? ==> EntriesMeet(ShortKeys, p.entries))
    requires |WriteProp(p)| < 0x1_0000_0000 && StandsAt(WriteProp(p), s, at)
    ensures ReadProp(KindOf(p), s, at) == Read(p, at + |WriteProp(p)|)
  {
    hide StandsAt, ReadTable, Entries, Be, FromBe;
    match p
    case Short(text) =>
      StandsFirst(|text|, text, s, at);
      BytesRead(text, s, at + 1);
    case Headers(entries) =>
      TableReads(entries, s, at);
    case Small(octet) =>
      assert [octet] + [] == [octet];
      StandsFirst(octet, [], s, at);
    case Long(number) =>
      Widths();
      UintReads(number, 8, s, at);
  }

  lemma {:induction false} SlotsRead(written: nat, flags: nat, slots: seq<Option<Prop>>, i: nat, s: Bytes, at: nat)
    requires SlotsFit(written, slots, i) && SlotsAccepted(slots) && HeadersMeet(ShortKeys, slots) && SameSlotFlags(written, flags)
    requires |WriteSlots(written, slots, i)| < 0x1_0000_0000 && StandsAt(WriteSlots(written, slots, i), s, at)
    ensures ReadSlots(flags, s, at, i) == Read(slots, at + |WriteSlots(written, slots, i)|)
    decreases |slots|
  {
    hide *;
    if slots == [] {
      NoSlots(written, flags, i, s, at);
    } else {
      SlotsParts(written, flags, slots, i, s, at);
      ReadSlot(flags, s, at, i);
      var head := slots[0];
      var n := if head.Some? then |WriteProp(head.value)| else 0;
      if head.Some? {
        PropReads(head.value, s, at);
      }
      SlotsRead(written, flags, slots[1..], i + 1, s, at + n);
      PutInFront(head, slots[1..], at + |WriteSlots(written, slots, i)|);
      Uncons(slots);
    }
  }

  lemma {:induction false} PutInFront<T>(x: T, xs: seq<T>, at: nat)
    ensures Front([x], Read(xs, at)) == Read([x] + xs, at)
  {
  }

  lemma {:induction false} NoSlots(written: nat, flags: nat, i: nat, s: Bytes, at: nat)
    requires SlotsFit(written, [], i)
    ensures WriteSlots(written, [], i) == [] && ReadSlots(flags, s, at, i) == Read([], at)
  {
  }

  lemma {:induction false} ReadSlot(flags: nat, s: Bytes, at: nat, i: nat)
    requires i < 14
    ensures ReadSlots(flags, s, at, i) ==
            if !Bit(flags, 15 - i) then Front([None], ReadSlots(flags, s, at, i + 1))
            else match ReadProp(KindAt(i), s, at)
              case Refused => Refused
              case Read(p, after) => Front([Some(p)], ReadSlots(flags, s, after, i + 1))
  {
    hide ReadProp, Bit, Front;
  }

  lemma {:induction false} SlotsParts(written: nat, flags: nat, slots: seq<Option<Prop>>, i: nat, s: Bytes, at: nat)
    requires slots != [] && SlotsFit(written, slots, i) && SlotsAccepted(slots) && HeadersMeet(ShortKeys, slots)
    requires SameSlotFlags(written, flags) && StandsAt(WriteSlots(written, slots, i), s, at)
    ensures i < 14 && SlotsFit(written, slots[1..], i + 1) && SlotsAccepted(slots[1..]) && HeadersMeet(ShortKeys, slots[1..])
    ensures Bit(flags, 15 - i) == slots[0].Some?
    ensures slots[0].Some? ==>
              var p := slots[0].value;
              KindOf(p) == KindAt(i) && PropInRange(p) && PropAccepted(p) && (p.Headers? ==> EntriesMeet(ShortKeys, p.entries)) &&
              StandsAt(WriteProp(p), s, at)
    ensures var n := if slots[0].Some? then |WriteProp(slots[0].value)| else 0;
            StandsAt(WriteSlots(written, slots[1..], i + 1), s, at + n) &&
            |WriteSlots(written, slots, i)| == n + |WriteSlots(written, slots[1..], i + 1)|
  {
    hide *;
    SlotsHead(written, slots, i);
    SameFlag(written, flags, i);
    SlotsStand(written, slots, i, s, at);
  }

  lemma {:induction false} SlotsHead(written: nat, slots: seq<Option<Prop>>, i: nat)
    requires slots != [] && SlotsFit(written, slots, i) && SlotsAccepted(slots) && HeadersMeet(ShortKeys, slots)
    ensures i < 14 && SlotsFit(written, slots[1..], i + 1) && SlotsAccepted(slots[1..]) && HeadersMeet(ShortKeys, slots[1..])
    ensures Bit(written, 15 - i) == slots[0].Some?
    ensures slots[0].Some? ==>
              var p := slots[0].value;
              KindOf(p) == KindAt(i) && PropInRange(p) && PropAccepted(p) && (p.Headers? ==> EntriesMeet(ShortKeys, p.entries))
  {
    hide KindOf, KindAt, PropInRange, PropAccepted, Bit, EntriesMeet;
  }

  lemma {:induction false} SlotsStand(written: nat, slots: seq<Option<Prop>>, i: nat, s: Bytes, at: nat)
    requires slots != [] && SlotsFit(written, slots, i) && StandsAt(WriteSlots(written, slots, i), s, at)
    ensures slots[0].Some? ==> PropInRange(slots[0].value) && StandsAt(WriteProp(slots[0].value), s, at)
    ensures SlotsFit(written, slots[1..], i + 1)
    ensures var n := if slots[0].Some? then |WriteProp(slots[0].value)| else 0;
            StandsAt(WriteSlots(written, slots[1..], i + 1), s, at + n) &&
            |WriteSlots(written, slots, i)| == n + |WriteSlots(written, slots[1..], i + 1)|
  {
    hide *;
    SlotsWritten(written, slots, i);
    var slot, tail := slots[0], slots[1..];
    SlotWritten(slot);
    if slot.Some? {
      StandsParts(WriteProp(slot.value), WriteSlots(written, tail, i + 1), s, at);
    } else {
      StandsParts([], WriteSlots(written, tail, i + 1), s, at);
    }
  }

  lemma {:induction false} SlotWritten(slot: Option<Prop>)
    requires slot.Some? ==> PropInRange(slot.value)
    ensures WriteSlot(slot) == if slot.Some? then WriteProp(slot.value) else []
  {
  }

  lemma {:induction false} SlotsWritten(written: nat, slots: seq<Option<Prop>>, i: nat)
    requires slots != [] && SlotsFit(written, slots, i)
    ensures SlotsFit(written, slots[1..], i + 1) && (slots[0].Some? ==> PropInRange(slots[0].value))
    ensures WriteSlots(written, slots, i) == WriteSlot(slots[0]) + WriteSlots(written, slots[1..], i + 1)
  {
    hide PropInRange, Bit, KindAt, KindOf, WriteSlot;
  }

  lemma {:induction false} SameFlag(v: nat, w: nat, i: nat)
    requires i < 14 && SameSlotFlags(v, w)
    ensures Bit(v, 15 - i) == Bit(w, 15 - i)
  {
    hide Bit;
  }

  /** Headers that were read have short keys. */
  lemma {:induction false} SlotsShort(flags: nat, s: Bytes, at: nat, i: nat)
    ensures var r := ReadSlots(flags, s, at, i); r.Read? ==> HeadersMeet(ShortKeys, r.value)
    decreases 14 - i
  {
    if i < 14 {
      if !Bit(flags, 15 - i) {
        SlotsShort(flags, s, at, i + 1);
      } else {
        var p := ReadProp(KindAt(i), s, at);
        if p.Read? {
          TableShort(s, at);
          hide ReadTable;
          SlotsShort(flags, s, p.at, i + 1);
        }
      }
    }
  }

  /** Properties that were encoded are decoded as they were if and only if the flags leave the two
      reserved bits alone and no key in the headers is longer than 255 bytes. */
  lemma {:induction false} PropertiesSurviveIff(flags: nat, slots: seq<Option<Prop>>, room: nat)
    requires EncodeBasic(flags, slots, room).Ok? && room < 0x1_0000_0000
    ensures DecodeBasic(EncodeBasic(flags, slots, room).value) == Ok(BasicProperties(flags, slots)) <==>
            FlagsKept(flags) && HeadersMeet(ShortKeys, slots)
  {
    var words, body := FlagWords(flags), WriteSlots(flags, slots, 0);
    var b := words + body;
    WholeStands(b);
    hide FlagWords, WriteSlots, StandsAt, SlotsFit, SlotsAccepted, ReadFlags, FlagsKept, FlagsRead, HeadersMeet, ReadSlots, SameSlotFlags;
    StandsParts(words, body, b, 0);
    FlagsReadBack(flags, b, 0);
    FlagsReadIff(flags);
    var got := FlagsRead(flags);
    SlotsShort(got, b, |words|, 0);
    if HeadersMeet(ShortKeys, slots) {
      SlotFlagsKept(flags);
      SlotsRead(flags, got, slots, 0, b, |words|);
    }
  }

  lemma {:induction false} WholeStands(b: Bytes)
    ensures StandsAt(b, b, 0)
  {
    assert b[0..|b|] == b;
  }

  // ----- Cloning -----

  function CloneSlots(slots: seq<Option<Prop>>): Result<seq<Option<Prop>>> {
    if slots == [] then Ok([])
    else
      match CloneSlot(slots[0])
      case Err(e) => Err(e)
      case Ok(first) =>
        match CloneSlots(slots[1..])
        case Ok(later) => Ok([first] + later)
        case Err(e) => Err(e)
  }

  function CloneSlot(slot: Option<Prop>): Result<Option<Prop>> {
    if slot.Some? && slot.value.Headers? then
      match CloneEntries(slot.value.entries)
      case Ok(entries) => Ok(Some(Headers(entries)))
      case Err(e) => Err(e)
    else Ok(slot)
  }

  /** `amqp_basic_properties_clone` when every allocation succeeds.  The properties of other classes
      than Basic are taken as they are. */
  function CloneFields(f: Fields): Result<Fields> {
    if f.BasicProperties? then
      match CloneSlots(f.slots)
      case Ok(slots) => Ok(BasicProperties(f.flags, slots))
      case Err(e) => Err(e)
    else Ok(f)
  }

  /** No key in the headers is empty, and all kinds in them are known. */
  predicate Cloneable(f: Fields) {
    f.BasicProperties? ==> HeadersMeet(NonEmptyKeys, f.slots) && HeadersMeet(KnownKinds, f.slots)
  }

  lemma {:induction false} CloneSlotsIff(slots: seq<Option<Prop>>)
    ensures CloneSlots(slots) ==
            if HeadersMeet(NonEmptyKeys, slots) && HeadersMeet(KnownKinds, slots) then Ok(slots)
            else Err(STATUS_INVALID_PARAMETER)
  {
    if slots != [] {
      if slots[0].Some? && slots[0].value.Headers? {
        CloneEntriesIff(slots[0].value.entries);
      }
      CloneSlotsIff(slots[1..]);
      Uncons(slots);
      hide CloneEntries, EntriesMeet;
    }
  }

  /** Cloning properties gives the same properties back or is refused. */
  lemma {:induction false} CloneFieldsIff(f: Fields)
    ensures CloneFields(f) == if Cloneable(f) then Ok(f) else Err(STATUS_INVALID_PARAMETER)
  {
    if f.BasicProperties? {
      CloneSlotsIff(f.slots);
    }
    hide CloneSlots, HeadersMeet;
  }

  /** What the encoder accepts has no unknown kinds. */
  lemma {:induction false} AcceptedKnown(slots: seq<Option<Prop>>)
    requires SlotsAccepted(slots)
    ensures HeadersMeet(KnownKinds, slots)
  {
    if slots != [] {
      AcceptedKnown(slots[1..]);
      hide EntriesMeet;
    }
  }

  function Missing(n: nat): (slots: seq<Option<Prop>>)
    ensures |slots| == n
  {
    if n == 0 then [] else [None] + Missing(n - 1)
  }

  /** The smallest headers that are encoded and decoded but not cloned: one entry with an empty key. */
  function EmptyKeySlots(): seq<Option<Prop>> {
    [None] + ([None] + ([Some(Headers([Entry([], Void)]))] + Missing(11)))
  }

  lemma {:induction false} NoSlotsFit(flags: nat, n: nat)
    requires n <= 14 && forall k :: 2 <= k < 2 + n ==> !Bit(flags, k)
    ensures SlotsFit(flags, Missing(n), 14 - n) && |WriteSlots(flags, Missing(n), 14 - n)| == 0
    ensures SlotsAccepted(Missing(n)) && HeadersMeet(ShortKeys, Missing(n))
  {
    if n > 0 {
      NoSlotsFit(flags, n - 1);
      assert Missing(n)[1..] == Missing(n - 1);
      hide Bit;
    }
  }

  lemma {:induction false} OnlyFlag(k: nat, i: nat)
    ensures Bit(Pow2(k), i) <==> i == k
  {
    if k > 0 && i > 0 {
      OnlyFlag(k - 1, i - 1);
    } else if i > 0 {
      NoFlag(i - 1);
    }
  }

  lemma {:induction false} NoFlag(i: nat)
    ensures !Bit(0, i)
  {
    if i > 0 {
      NoFlag(i - 1);
    }
  }

  lemma {:induction false} HeadersFlag()
    ensures forall k :: 0 <= k < 16 ==> (Bit(0x2000, k) <==> k == 13)
  {
    assert Pow2(13) == 0x2000;
    hide Pow2, Bit;
    forall k | 0 <= k < 16
      ensures Bit(0x2000, k) <==> k == 13
    {
      OnlyFlag(13, k);
    }
  }

  lemma {:induction false} EmptyKeyFits()
    ensures var slots := EmptyKeySlots();
            SlotsFit(0x2000, slots, 0) && SlotsAccepted(slots) && HeadersMeet(ShortKeys, slots) &&
            !HeadersMeet(NonEmptyKeys, slots) && |WriteSlots(0x2000, slots, 0)| == 6
  {
    hide *;
    var entries := [Entry([], Void)];
    EmptyKeyShape();
    HeadersProp(entries);
    TailFits();
    ThreeInFront(0x2000, Some(Headers(entries)), Missing(11));
  }

  lemma {:induction false} EmptyKeyShape()
    ensures EmptyKeySlots() == [None] + ([None] + ([Some(Headers([Entry([], Void)]))] + Missing(11)))
  {
    hide Missing;
  }

  lemma {:induction false} TailFits()
    ensures SlotsFit(0x2000, Missing(11), 3) && |WriteSlots(0x2000, Missing(11), 3)| == 0
    ensures SlotsAccepted(Missing(11)) && HeadersMeet(ShortKeys, Missing(11))
    ensures Bit(0x2000, 13) && !Bit(0x2000, 14) && !Bit(0x2000, 15)
  {
    hide *;
    HeadersFlag();
    NoSlotsFit(0x2000, 11);
  }

  lemma {:induction false} ThreeInFront(flags: nat, head: Option<Prop>, later: seq<Option<Prop>>)
    requires SlotsFit(flags, later, 3) && SlotsAccepted(later) && HeadersMeet(ShortKeys, later)
    requires Bit(flags, 13) && !Bit(flags, 14) && !Bit(flags, 15)
    requires head.Some? && head.value.Headers? && KindOf(head.value) == KindAt(2)
    requires PropInRange(head.value) && PropAccepted(head.value)
    requires EntriesMeet(ShortKeys, head.value.entries) && !EntriesMeet(NonEmptyKeys, head.value.entries)
    ensures var slots := [None] + ([None] + ([head] + later));
            SlotsFit(flags, slots, 0) && SlotsAccepted(slots) && HeadersMeet(ShortKeys, slots) &&
            !HeadersMeet(NonEmptyKeys, slots) &&
            |WriteSlots(flags, slots, 0)| == |WriteProp(head.value)| + |WriteSlots(flags, later, 3)|
  {
    hide *;
    SlotInFront(flags, head, later, 2);
    SlotInFront(flags, None, [head] + later, 1);
    SlotInFront(flags, None, [None] + ([head] + later), 0);
  }

  lemma {:induction false} HeadersProp(entries: seq<Entry>)
    requires entries == [Entry([], Void)]
    ensures var p := Headers(entries);
            KindOf(p) == KindAt(2) && PropInRange(p) && PropAccepted(p) && |WriteProp(p)| == 6
    ensures EntriesMeet(ShortKeys, entries) && !EntriesMeet(NonEmptyKeys, entries)
  {
    HeadersOnly(entries);
    hide Entries, EntriesMeet;
  }

  lemma {:induction false} HeadersOnly(entries: seq<Entry>)
    requires entries == [Entry([], Void)]
    ensures EntriesMeet(InRange, entries) && EntriesMeet(KnownKinds, entries) && EntriesMeet(ShortKeys, entries)
    ensures !EntriesMeet(NonEmptyKeys, entries) && |Entries(entries)| == 2
  {
    var rest := entries[1..];
    assert rest == [] && entries[0] == Entry([], Void);
    assert forall d: Demand :: EntriesMeet(d, rest) && Meets(d, Void);
    assert Entries(rest) == [] && |Written(Void)| == 1;
  }

  lemma {:induction false} SlotInFront(flags: nat, slot: Option<Prop>, later: seq<Option<Prop>>, i: nat)
    requires SlotsFit(flags, later, i + 1) && i < 14 && (slot.Some? <==> Bit(flags, 15 - i))
    requires slot.Some? ==> KindOf(slot.value) == KindAt(i) && PropInRange(slot.value)
    ensures SlotsFit(flags, [slot] + later, i)
    ensures SlotsAccepted([slot] + later) <==> (slot.Some? ==> PropAccepted(slot.value)) && SlotsAccepted(later)
    ensures forall d: Demand :: HeadersMeet(d, [slot] + later) <==>
              (slot.Some? && slot.value.Headers? ==> EntriesMeet(d, slot.value.entries)) && HeadersMeet(d, later)
    ensures |WriteSlots(flags, [slot] + later, i)| ==
            (if slot.Some? then |WriteProp(slot.value)| else 0) + |WriteSlots(flags, later, i + 1)|
  {
    assert ([slot] + later)[1..] == later && ([slot] + later)[0] == slot;
    hide Bit, KindAt, KindOf, PropInRange, PropAccepted, EntriesMeet, WriteProp;
  }

  lemma {:induction false} OneWord(flags: nat)
    requires flags < 0x1_0000 && flags % 2 == 0
    ensures |FlagWords(flags)| == 2 && FlagsKept(flags)
  {
  }

  lemma {:induction false} EncodeFits(flags: nat, slots: seq<Option<Prop>>, room: nat)
    requires flags < 0x1_0000_0000 && SlotsFit(flags, slots, 0) && SlotsAccepted(slots)
    requires |FlagWords(flags)| + |WriteSlots(flags, slots, 0)| <= room
    ensures EncodeBasic(flags, slots, room).Ok?
  {
    hide SlotsFit, SlotsAccepted, WriteSlots, FlagWords;
  }

  lemma {:induction false} CloneRefuses(flags: nat, slots: seq<Option<Prop>>)
    requires !HeadersMeet(NonEmptyKeys, slots)
    ensures CloneFields(BasicProperties(flags, slots)) == Err(STATUS_INVALID_PARAMETER)
  {
    CloneFieldsIff(BasicProperties(flags, slots));
    hide HeadersMeet, CloneFields;
  }

  /** Such headers are encoded, and decoded as they were, and then refused by the reader's clone. */
  lemma {:induction false} EmptyKeyRefused(room: nat)
    requires 8 <= room < 0x1_0000_0000
    ensures var slots := EmptyKeySlots();
            EncodeBasic(0x2000, slots, room).Ok? &&
            DecodeBasic(EncodeBasic(0x2000, slots, room).value) == Ok(BasicProperties(0x2000, slots)) &&
            CloneFields(BasicProperties(0x2000, slots)) == Err(STATUS_INVALID_PARAMETER)
  {
    hide *;
    var slots := EmptyKeySlots();
    EmptyKeyFits();
    OneWord(0x2000);
    EncodeFits(0x2000, slots, room);
    PropertiesSurviveIff(0x2000, slots, room);
    CloneRefuses(0x2000, slots);
  }

  // ----- The arguments of basic.publish -----

  function WritePublish(f: Fields): Bytes
    requires f.PublishArguments?
  {
    Be(f.ticket, 2) + (WrittenKey(f.exchange) + (WrittenKey(f.routingKey) + [PublishBits(f)]))
  }

  /** The BASIC_PUBLISH case of `amqp_encode_method`. */
  function EncodePublish(f: Fields, room: nat): Result<Bytes> {
    if !f.PublishArguments? || f.ticket >= 0x1_0000 then Err(STATUS_INVALID_PARAMETER)
    else if |f.exchange| < 256 && |f.routingKey| < 256 && |WritePublish(f)| <= room then Ok(WritePublish(f))
    else Err(STATUS_BAD_AMQP_DATA)
  }

  /** The same case of `amqp_decode_method`. */
  function DecodePublish(b: Bytes): Result<Fields> {
    match ReadUint(b, 0, 2)
    case Refused => Err(STATUS_BAD_AMQP_DATA)
    case Read(ticket, at) =>
      match ReadShort(b, at)
      case Refused => Err(STATUS_BAD_AMQP_DATA)
      case Read(exchange, next) =>
        match ReadShort(b, next)
        case Refused => Err(STATUS_BAD_AMQP_DATA)
        case Read(routingKey, last) =>
          if last < |b| then Ok(PublishArguments(ticket, exchange, routingKey, b[last] % 2 == 1, b[last] / 2 % 2 == 1))
          else Err(STATUS_BAD_AMQP_DATA)
  }

  lemma {:induction false} ShortReads(text: Bytes, s: Bytes, at: nat)
    requires |text| < 256 && StandsAt(WrittenKey(text), s, at)
    ensures ReadShort(s, at) == Read(text, at + 1 + |text|)
  {
    StandsFirst(|text|, text, s, at);
    BytesRead(text, s, at + 1);
  }

  lemma {:induction false} PublishSurvives(f: Fields, room: nat)
    requires EncodePublish(f, room).Ok?
    ensures DecodePublish(EncodePublish(f, room).value) == Ok(f)
  {
    var b, bits := WritePublish(f), PublishBits(f);
    WholeStands(b);
    Widths();
    var next := 3 + |f.exchange|;
    hide StandsAt, WrittenKey, ReadShort, ReadUint, Be, PublishBits;
    PublishParts(f, b);
    UintReads(f.ticket, 2, b, 0);
    ShortReads(f.exchange, b, 2);
    ShortReads(f.routingKey, b, next);
    BitsRead(f);
  }

  function PublishBits(f: Fields): Octet
    requires f.PublishArguments?
  {
    (if f.mandatory then 1 else 0) + (if f.immediate then 2 else 0)
  }

  lemma {:induction false} BitsRead(f: Fields)
    requires f.PublishArguments?
    ensures (PublishBits(f) % 2 == 1) == f.mandatory && (PublishBits(f) / 2 % 2 == 1) == f.immediate
  {
  }

  lemma {:induction false} PublishParts(f: Fields, b: Bytes)
    requires f.PublishArguments? && StandsAt(WritePublish(f), b, 0)
    ensures StandsAt(Be(f.ticket, 2), b, 0) && StandsAt(WrittenKey(f.exchange), b, 2)
    ensures var next := 3 + |f.exchange|;
            var last := next + 1 + |f.routingKey|;
            StandsAt(WrittenKey(f.routingKey), b, next) && last < |b| && b[last] == PublishBits(f)
  {
    var bits := PublishBits(f);
    hide StandsAt, WrittenKey, Be, PublishBits;
    StandsParts(Be(f.ticket, 2), WrittenKey(f.exchange) + (WrittenKey(f.routingKey) + [bits]), b, 0);
    StandsParts(WrittenKey(f.exchange), WrittenKey(f.routingKey) + [bits], b, 2);
    var next := 3 + |f.exchange|;
    StandsParts(WrittenKey(f.routingKey), [bits], b, next);
    assert [bits] + [] == [bits];
    StandsFirst(bits, [], b, next + 1 + |f.routingKey|);
  }

  // ----- The library's codec -----

  /** A codec that treats basic.publish and the properties of the Basic class as the library does, and
      everything else in any way. */
  function LibraryCodec(others: Codec): Codec {
    Codec(
      (id: nat, f: Fields, room: nat) =>
        if id == BASIC_PUBLISH_METHOD then EncodePublish(f, room) else others.encodeMethod(id, f, room),
      (id: nat, b: Bytes) =>
        if id == BASIC_PUBLISH_METHOD then DecodePublish(b) else others.decodeMethod(id, b),
      (classId: nat, f: Fields, room: nat) =>
        if classId != BASIC_CLASS then others.encodeProperties(classId, f, room)
        else if f.BasicProperties? then EncodeBasic(f.flags, f.slots, room)
        else Err(STATUS_INVALID_PARAMETER),
      (classId: nat, b: Bytes) =>
        if classId == BASIC_CLASS then DecodeBasic(b) else others.decodeProperties(classId, b))
  }

  lemma {:induction false} LibraryValid(others: Codec)
    requires others.Valid()
    ensures LibraryCodec(others).Valid()
  {
    var c := LibraryCodec(others);
    hide FlagWords, WriteSlots, ReadFlags, ReadSlots, WritePublish, ReadShort, SlotsFit, SlotsAccepted;
    forall id, f, room
      ensures match c.encodeMethod(id, f, room) case Ok(b) => |b| <= room case Err(e) => e < 0
      ensures match c.encodeProperties(id, f, room) case Ok(b) => |b| <= room case Err(e) => e < 0
    {
      assert match others.encodeMethod(id, f, room) case Ok(b) => |b| <= room case Err(e) => e < 0;
      assert match others.encodeProperties(id, f, room) case Ok(b) => |b| <= room case Err(e) => e < 0;
    }
    forall id, b
      ensures c.decodeMethod(id, b).Err? ==> c.decodeMethod(id, b).status < 0
      ensures c.decodeProperties(id, b).Err? ==> c.decodeProperties(id, b).status < 0
    {
      assert others.decodeMethod(id, b).Err? ==> others.decodeMethod(id, b).status < 0;
      assert others.decodeProperties(id, b).Err? ==> others.decodeProperties(id, b).status < 0;
    }
  }

  /** With the library's codec a publish method's arguments always survive. */
  lemma {:induction false} ArgumentsSurvive(others: Codec, m: Fields, room: nat)
    ensures LibraryCodec(others).MethodSurvives(BASIC_PUBLISH_METHOD, m, room)
  {
    if EncodePublish(m, room).Ok? {
      PublishSurvives(m, room);
    }
    hide EncodePublish, DecodePublish;
  }

  /** And a message's properties do exactly when flags and header keys allow it. */
  lemma {:induction false} LibraryPropertiesSurvive(others: Codec, flags: nat, slots: seq<Option<Prop>>, room: nat)
    requires room < 0x1_0000_0000
    ensures LibraryCodec(others).PropertiesSurvive(BASIC_CLASS, BasicProperties(flags, slots), room) <==>
            (EncodeBasic(flags, slots, room).Ok? ==> FlagsKept(flags) && HeadersMeet(ShortKeys, slots))
  {
    if EncodeBasic(flags, slots, room).Ok? {
      PropertiesSurviveIff(flags, slots, room);
    }
    hide EncodeBasic, DecodeBasic;
  }
}
