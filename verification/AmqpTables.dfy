/** Field tables and arrays of amqp_table.c: values of eighteen kinds, nested to any depth, written into a
    buffer with sizes filled in afterwards, and read back. */
module AmqpTables {
  import opened Wrappers
  import opened AmqpData

  // ----- Kinds -----

  const BOOLEAN: Octet := 116
  const DECIMAL: Octet := 68
  const UTF8: Octet := 83
  const BYTES: Octet := 120
  const ARRAY: Octet := 65
  const TABLE: Octet := 70
  const VOID: Octet := 86

  function NumberCode(kind: NumberKind): Octet {
    match kind
    case I8 => 98
    case U8 => 66
    case I16 => 115
    case U16 => 117
    case I32 => 73
    case U32 => 105
    case I64 => 108
    case U64 => 76
    case F32 => 102
    case F64 => 100
    case Timestamp => 84
  }

  function NumberKindOf(code: Octet): (kind: Option<NumberKind>)
    ensures kind.Some? ==> NumberCode(kind.value) == code
    ensures kind.None? ==> forall k: NumberKind :: NumberCode(k) != code
  {
    if code == 98 then Some(I8) else if code == 66 then Some(U8)
    else if code == 115 then Some(I16) else if code == 117 then Some(U16)
    else if code == 73 then Some(I32) else if code == 105 then Some(U32)
    else if code == 108 then Some(I64) else if code == 76 then Some(U64)
    else if code == 102 then Some(F32) else if code == 100 then Some(F64)
    else if code == 84 then Some(Timestamp)
    else None
  }

  function Width(kind: NumberKind): (w: nat)
    ensures w > 0
  {
    match kind
    case I8 => 1
    case U8 => 1
    case I16 => 2
    case U16 => 2
    case I32 => 4
    case U32 => 4
    case F32 => 4
    case _ => 8
  }

  predicate Signed(kind: NumberKind) {
    kind == I8 || kind == I16 || kind == I32 || kind == I64
  }

  /** The values of the C type. */
  predicate Holds(kind: NumberKind, n: int) {
    var range: int := Pow256(Width(kind));
    if Signed(kind) then -range <= 2 * n < range else 0 <= n < range
  }

  /** Conversion to the unsigned type of the same width and back. */
  function ToBits(kind: NumberKind, n: int): (u: nat)
    requires Holds(kind, n)
    ensures u < Pow256(Width(kind))
  {
    if n < 0 then n + Pow256(Width(kind)) else n
  }

  function FromBits(kind: NumberKind, u: nat): int {
    var range := Pow256(Width(kind));
    if Signed(kind) && 2 * u >= range then u - range else u
  }

  // ----- What is written -----

  /** What may be asked of a value and all that is nested in it: that the numbers fit their C types and
      only unknown kinds are called unknown; that all kinds are known; that every key fits a length of
      one byte; that no key is empty. */
  datatype Demand = InRange | KnownKinds | ShortKeys | NonEmptyKeys

  predicate Meets(demand: Demand, v: Value)
    decreases v
  {
    match v
    case Number(kind, n) => demand.InRange? ==> Holds(kind, n)
    case Decimal(_, unscaled) => demand.InRange? ==> unscaled < 0x1_0000_0000
    case Array(items) => ItemsMeet(demand, items)
    case Table(entries) => EntriesMeet(demand, entries)
    case Unknown(code) =>
      !demand.KnownKinds? &&
      (demand.InRange? ==> NumberKindOf(code).None? && code !in [BOOLEAN, DECIMAL, UTF8, BYTES, ARRAY, TABLE, VOID])
    case _ => true
  }

  predicate ItemsMeet(demand: Demand, items: seq<Value>)
    decreases items
  {
    items == [] || (Meets(demand, items[0]) && ItemsMeet(demand, items[1..]))
  }

  predicate EntriesMeet(demand: Demand, entries: seq<Entry>)
    decreases entries
  {
    entries == [] ||
    ((demand.ShortKeys? ==> |entries[0].key| < 256) && (demand.NonEmptyKeys? ==> entries[0].key != []) &&
     Meets(demand, entries[0].value) && EntriesMeet(demand, entries[1..]))
  }

  function Code(v: Value): Octet {
    match v
    case Boolean(_) => BOOLEAN
    case Number(kind, _) => NumberCode(kind)
    case Decimal(_, _) => DECIMAL
    case Text(utf8, _) => if utf8 then UTF8 else BYTES
    case Array(_) => ARRAY
    case Table(_) => TABLE
    case Void => VOID
    case Unknown(code) => code
  }

  function Content(v: Value): Bytes
    requires Meets(InRange, v)
    decreases v, 0
  {
    match v
    case Boolean(b) => [if b then 1 else 0]
    case Number(kind, n) => Be(ToBits(kind, n), Width(kind))
    case Decimal(decimals, unscaled) => [decimals] + Be(unscaled, 4)
    case Text(_, bytes) => Sized(bytes)
    case Array(items) => Sized(Items(items))
    case Table(entries) => Sized(Entries(entries))
    case Void => []
    case Unknown(_) => []
  }

  function Written(v: Value): (b: Bytes)
    requires Meets(InRange, v)
    ensures b != []
    decreases v, 1
  {
    [Code(v)] + Content(v)
  }

  /** A size of four bytes, then the contents. */
  function Sized(b: Bytes): (s: Bytes)
    ensures |s| == 4 + |b|
  {
    Be(|b|, 4) + b
  }

  function Items(items: seq<Value>): Bytes
    requires ItemsMeet(InRange, items)
    decreases items
  {
    if items == [] then [] else Written(items[0]) + Items(items[1..])
  }

  function Entries(entries: seq<Entry>): Bytes
    requires EntriesMeet(InRange, entries)
    decreases entries
  {
    if entries == [] then []
    else WrittenKey(entries[0].key) + Written(entries[0].value) + Entries(entries[1..])
  }

  /** The length byte of a key is truncated, the key is not. */
  function WrittenKey(key: Bytes): (b: Bytes)
    ensures |b| == 1 + |key|
  {
    [|key| % 256] + key
  }

  // ----- What is read -----

  datatype Read<+T> = Read(value: T, at: nat) | Refused

  function ReadUint(s: Bytes, at: nat, width: nat): (r: Read<nat>)
    ensures r.Read? ==> r.at == at + width <= |s|
  {
    if at + width <= |s| then Read(FromBe(s[at..at + width]), at + width) else Refused
  }

  function ReadBytes(s: Bytes, at: nat, len: nat): (r: Read<Bytes>)
    ensures r.Read? ==> r.at == at + len <= |s| && |r.value| == len
  {
    if at + len <= |s| then Read(s[at..at + len], at + len) else Refused
  }

  function ReadValue(s: Bytes, at: nat): (r: Read<Value>)
    ensures r.Read? ==> at < r.at <= |s|
    decreases |s| - at, 0
  {
    if at >= |s| then Refused
    else
      var code, next := s[at], at + 1;
      if code == BOOLEAN then ReadBoolean(s, next)
      else if NumberKindOf(code).Some? then ReadNumber(s, next, NumberKindOf(code).value)
      else if code == DECIMAL then ReadDecimal(s, next)
      else if code == UTF8 || code == BYTES then ReadText(s, next, code == UTF8)
      else if code == ARRAY then AsArray(ReadArray(s, next))
      else if code == TABLE then AsTable(ReadTable(s, next))
      else if code == VOID then Read(Void, next)
      else Refused
  }

  function AsArray(r: Read<seq<Value>>): Read<Value> {
    match r
    case Read(items, after) => Read(Array(items), after)
    case Refused => Refused
  }

  function AsTable(r: Read<seq<Entry>>): Read<Value> {
    match r
    case Read(entries, after) => Read(Table(entries), after)
    case Refused => Refused
  }

  function ReadBoolean(s: Bytes, at: nat): (r: Read<Value>)
    ensures r.Read? ==> at < r.at <= |s|
  {
    match ReadUint(s, at, 1)
    case Read(u, after) => Read(Boolean(u != 0), after)
    case Refused => Refused
  }

  function ReadNumber(s: Bytes, at: nat, kind: NumberKind): (r: Read<Value>)
    ensures r.Read? ==> at < r.at <= |s|
  {
    match ReadUint(s, at, Width(kind))
    case Read(u, after) => Read(Number(kind, FromBits(kind, u)), after)
    case Refused => Refused
  }

  function ReadDecimal(s: Bytes, at: nat): (r: Read<Value>)
    ensures r.Read? ==> at < r.at <= |s|
  {
    if at >= |s| then Refused
    else
      match ReadUint(s, at + 1, 4)
      case Read(u, after) => Read(Decimal(s[at], u), after)
      case Refused => Refused
  }

  function ReadText(s: Bytes, at: nat, utf8: bool): (r: Read<Value>)
    ensures r.Read? ==> at < r.at <= |s|
  {
    match ReadUint(s, at, 4)
    case Refused => Refused
    case Read(len, first) =>
      match ReadBytes(s, first, len)
      case Read(bytes, after) => Read(Text(utf8, bytes), after)
      case Refused => Refused
  }

  /** `amqp_decode_array` */
  function ReadArray(s: Bytes, at: nat): (r: Read<seq<Value>>)
    ensures r.Read? ==> at < r.at <= |s|
    decreases |s| - at, 0
  {
    match ReadUint(s, at, 4)
    case Refused => Refused
    case Read(size, first) => ReadItems(s, first, first + size)
  }

  /** Values are read until the limit is reached or passed. */
  function ReadItems(s: Bytes, at: nat, limit: nat): (r: Read<seq<Value>>)
    requires at <= |s|
    ensures r.Read? ==> at <= r.at <= |s|
    decreases |s| - at, 1
  {
    if at >= limit then Read([], at)
    else
      match ReadValue(s, at)
      case Refused => Refused
      case Read(v, next) =>
        match ReadItems(s, next, limit)
        case Read(items, after) => Read([v] + items, after)
        case Refused => Refused
  }

  /** `amqp_decode_table` */
  function ReadTable(s: Bytes, at: nat): (r: Read<seq<Entry>>)
    ensures r.Read? ==> at < r.at <= |s|
    decreases |s| - at, 0
  {
    match ReadUint(s, at, 4)
    case Refused => Refused
    case Read(size, first) => ReadEntries(s, first, first + size)
  }

  function ReadEntry(s: Bytes, at: nat): (r: Read<Entry>)
    requires at <= |s|
    ensures r.Read? ==> at < r.at <= |s|
    decreases |s| - at, 1
  {
    if at == |s| then Refused
    else
      match ReadBytes(s, at + 1, s[at])
      case Refused => Refused
      case Read(key, next) =>
        match ReadValue(s, next)
        case Read(v, after) => Read(Entry(key, v), after)
        case Refused => Refused
  }

  function ReadEntries(s: Bytes, at: nat, limit: nat): (r: Read<seq<Entry>>)
    requires at <= |s|
    ensures r.Read? ==> at <= r.at <= |s|
    decreases |s| - at, 2
  {
    if at >= limit then Read([], at)
    else
      match ReadEntry(s, at)
      case Refused => Refused
      case Read(e, next) =>
        match ReadEntries(s, next, limit)
        case Read(entries, after) => Read([e] + entries, after)
        case Refused => Refused
  }

  // ----- Reading what was written -----

  /** The bytes `b` stand in `s` at the given place. */
  predicate StandsAt(b: Bytes, s: Bytes, at: nat) {
    at + |b| <= |s| && s[at..at + |b|] == b
  }

  lemma {:induction false} StandsParts(a: Bytes, b: Bytes, s: Bytes, at: nat)
    requires StandsAt(a + b, s, at)
    ensures StandsAt(a, s, at) && StandsAt(b, s, at + |a|)
  {
    var w := s[at..at + |a + b|];
    assert s[at..at + |a|] == w[..|a|] == a;
    assert s[at + |a|..at + |a| + |b|] == w[|a|..] == b;
  }

  lemma {:induction false} StandsFirst(x: Octet, b: Bytes, s: Bytes, at: nat)
    requires StandsAt([x] + b, s, at)
    ensures at < |s| && s[at] == x && StandsAt(b, s, at + 1)
  {
    StandsParts([x], b, s, at);
    assert s[at..at + 1][0] == x;
  }

  lemma {:induction false} UintReads(v: nat, k: nat, s: Bytes, at: nat)
    requires v < Pow256(k) && StandsAt(Be(v, k), s, at)
    ensures ReadUint(s, at, k) == Read(v, at + k)
  {
    FromBeOfBe(v, k);
  }

  lemma {:induction false} SizedReads(b: Bytes, s: Bytes, at: nat)
    requires |b| < 0x1_0000_0000 && StandsAt(Sized(b), s, at)
    ensures ReadUint(s, at, 4) == Read(|b|, at + 4) && StandsAt(b, s, at + 4)
  {
    Widths();
    StandsParts(Be(|b|, 4), b, s, at);
    UintReads(|b|, 4, s, at);
  }

  lemma {:induction false} NumberReads(kind: NumberKind, n: int, s: Bytes, at: nat)
    requires Holds(kind, n) && StandsAt(Be(ToBits(kind, n), Width(kind)), s, at)
    ensures ReadNumber(s, at, kind) == Read(Number(kind, n), at + Width(kind))
  {
    UintReads(ToBits(kind, n), Width(kind), s, at);
  }

  lemma {:induction false} NumberCodes(kind: NumberKind)
    ensures NumberKindOf(NumberCode(kind)) == Some(kind)
    ensures NumberCode(kind) !in [BOOLEAN, DECIMAL, UTF8, BYTES, ARRAY, TABLE, VOID]
  {
  }

  lemma {:induction false} AtScalar(s: Bytes, at: nat)
    requires at < |s|
    ensures s[at] == BOOLEAN ==> ReadValue(s, at) == ReadBoolean(s, at + 1)
    ensures s[at] == DECIMAL ==> ReadValue(s, at) == ReadDecimal(s, at + 1)
    ensures s[at] == UTF8 || s[at] == BYTES ==> ReadValue(s, at) == ReadText(s, at + 1, s[at] == UTF8)
    ensures s[at] == VOID ==> ReadValue(s, at) == Read(Void, at + 1)
  {
    hide ReadUint, ReadDecimal, ReadText, ReadNumber, ReadBoolean, ReadArray, ReadTable;
  }

  lemma {:induction false} AtNumber(s: Bytes, at: nat, kind: NumberKind)
    requires at < |s| && s[at] == NumberCode(kind)
    ensures ReadValue(s, at) == ReadNumber(s, at + 1, kind)
  {
    NumberCodes(kind);
    hide ReadUint, ReadDecimal, ReadText, ReadNumber, ReadBoolean, ReadArray, ReadTable, NumberCode, NumberKindOf;
  }

  lemma {:induction false} AtNested(s: Bytes, at: nat)
    requires at < |s|
    ensures s[at] == ARRAY ==> ReadValue(s, at) == AsArray(ReadArray(s, at + 1))
    ensures s[at] == TABLE ==> ReadValue(s, at) == AsTable(ReadTable(s, at + 1))
  {
    hide ReadUint, ReadDecimal, ReadText, ReadNumber, ReadBoolean, ReadArray, ReadTable;
  }

  lemma {:induction false} ScalarReads(v: Value, s: Bytes, at: nat)
    requires Meets(InRange, v) && Meets(KnownKinds, v) && !v.Array? && !v.Table?
    requires |Written(v)| < 0x1_0000_0000 && StandsAt(Written(v), s, at)
    ensures ReadValue(s, at) == Read(v, at + |Written(v)|)
  {
    StandsFirst(Code(v), Content(v), s, at);
    AtScalar(s, at);
    hide StandsAt, ReadUint, ReadBoolean, ReadDecimal, ReadValue, ReadNumber, Be, FromBe, NumberCode;
    match v
    case Boolean(b) => BooleanReads(b, s, at + 1);
    case Number(kind, n) =>
      AtNumber(s, at, kind);
      NumberReads(kind, n, s, at + 1);
    case Decimal(decimals, unscaled) => DecimalReads(decimals, unscaled, s, at + 1);
    case Text(utf8, bytes) =>
      SizedReads(bytes, s, at + 1);
      BytesRead(bytes, s, at + 5);
    case Void =>
  }

  lemma {:induction false} BooleanReads(b: bool, s: Bytes, at: nat)
    requires StandsAt([if b then 1 else 0], s, at)
    ensures ReadBoolean(s, at) == Read(Boolean(b), at + 1)
  {
    var v := if b then 1 else 0;
    assert Be(v, 1) == [v];
    UintReads(v, 1, s, at);
  }

  lemma {:induction false} DecimalReads(decimals: Octet, unscaled: nat, s: Bytes, at: nat)
    requires unscaled < 0x1_0000_0000 && StandsAt([decimals] + Be(unscaled, 4), s, at)
    ensures ReadDecimal(s, at) == Read(Decimal(decimals, unscaled), at + 5)
  {
    Widths();
    StandsFirst(decimals, Be(unscaled, 4), s, at);
    UintReads(unscaled, 4, s, at + 1);
  }

  lemma {:induction false} BytesRead(b: Bytes, s: Bytes, at: nat)
    requires StandsAt(b, s, at)
    ensures ReadBytes(s, at, |b|) == Read(b, at + |b|)
  {
  }

  /** A value is read back from where it was written, with anything before and behind it. */
  lemma {:induction false} ValueReads(v: Value, s: Bytes, at: nat)
    requires Meets(InRange, v) && Meets(KnownKinds, v) && Meets(ShortKeys, v)
    requires |Written(v)| < 0x1_0000_0000 && StandsAt(Written(v), s, at)
    ensures ReadValue(s, at) == Read(v, at + |Written(v)|)
    decreases v, 0
  {
    if !v.Array? && !v.Table? {
      ScalarReads(v, s, at);
    } else {
      StandsFirst(Code(v), Content(v), s, at);
      AtNested(s, at);
      hide StandsAt, Items, Entries, ReadValue, ReadArray, ReadTable, Be;
      if v.Array? {
        ArrayReads(v.items, s, at + 1);
      } else {
        TableReads(v.entries, s, at + 1);
      }
    }
  }

  lemma {:induction false} ArrayReads(items: seq<Value>, s: Bytes, at: nat)
    requires ItemsMeet(InRange, items) && ItemsMeet(KnownKinds, items) && ItemsMeet(ShortKeys, items)
    requires |Items(items)| < 0x1_0000_0000 && StandsAt(Sized(Items(items)), s, at)
    ensures ReadArray(s, at) == Read(items, at + 4 + |Items(items)|)
    decreases items, 1
  {
    hide StandsAt, Items, ReadItems, Sized;
    SizedReads(Items(items), s, at);
    ItemsRead(items, s, at + 4);
  }

  lemma {:induction false} TableReads(entries: seq<Entry>, s: Bytes, at: nat)
    requires EntriesMeet(InRange, entries) && EntriesMeet(KnownKinds, entries) && EntriesMeet(ShortKeys, entries)
    requires |Entries(entries)| < 0x1_0000_0000 && StandsAt(Sized(Entries(entries)), s, at)
    ensures ReadTable(s, at) == Read(entries, at + 4 + |Entries(entries)|)
    decreases entries, 1
  {
    hide StandsAt, Entries, ReadEntries, Sized;
    SizedReads(Entries(entries), s, at);
    EntriesRead(entries, s, at + 4);
  }

  lemma {:induction false} ItemsRead(items: seq<Value>, s: Bytes, at: nat)
    requires ItemsMeet(InRange, items) && ItemsMeet(KnownKinds, items) && ItemsMeet(ShortKeys, items)
    requires |Items(items)| < 0x1_0000_0000 && StandsAt(Items(items), s, at)
    ensures ReadItems(s, at, at + |Items(items)|) == Read(items, at + |Items(items)|)
    decreases items, 0
  {
    hide *;
    if items == [] {
      NothingToRead(s, at);
    } else {
      ItemsParts(items, s, at);
      ValueReads(items[0], s, at);
      ItemsRead(items[1..], s, at + |Written(items[0])|);
      ReadOneMore(items[0], items[1..], s, at, at + |Items(items)|);
      Uncons(items);
    }
  }

  lemma {:induction false} NothingToRead(s: Bytes, at: nat)
    ensures Items([]) == [] && Entries([]) == []
    ensures at <= |s| ==> ReadItems(s, at, at) == Read([], at) && ReadEntries(s, at, at) == Read([], at)
    ensures StandsAt([], s, at) ==> at <= |s|
  {
  }

  lemma {:induction false} ItemsParts(items: seq<Value>, s: Bytes, at: nat)
    requires items != [] && ItemsMeet(InRange, items) && ItemsMeet(KnownKinds, items) && ItemsMeet(ShortKeys, items)
    requires StandsAt(Items(items), s, at)
    ensures Meets(InRange, items[0]) && Meets(KnownKinds, items[0]) && Meets(ShortKeys, items[0])
    ensures ItemsMeet(InRange, items[1..]) && ItemsMeet(KnownKinds, items[1..]) && ItemsMeet(ShortKeys, items[1..])
    ensures StandsAt(Written(items[0]), s, at) && StandsAt(Items(items[1..]), s, at + |Written(items[0])|)
    ensures |Items(items)| == |Written(items[0])| + |Items(items[1..])| && at < at + |Items(items)| <= |s|
  {
    StandsParts(Written(items[0]), Items(items[1..]), s, at);
    hide Meets, Written;
  }

  lemma {:induction false} Uncons<T>(xs: seq<T>)
    requires xs != []
    ensures [xs[0]] + xs[1..] == xs
  {
  }

  lemma {:induction false} ReadOneMore(v: Value, rest: seq<Value>, s: Bytes, at: nat, limit: nat)
    requires at < limit <= |s| && ReadValue(s, at).Read? && ReadValue(s, at).value == v
    requires ReadItems(s, ReadValue(s, at).at, limit) == Read(rest, limit)
    ensures ReadItems(s, at, limit) == Read([v] + rest, limit)
  {
    hide ReadValue;
  }

  lemma {:induction false} EntryReads(e: Entry, s: Bytes, at: nat)
    requires Meets(InRange, e.value) && Meets(KnownKinds, e.value) && Meets(ShortKeys, e.value) && |e.key| < 256
    requires |Written(e.value)| < 0x1_0000_0000 && StandsAt(WrittenKey(e.key) + Written(e.value), s, at)
    ensures ReadEntry(s, at) == Read(e, at + 1 + |e.key| + |Written(e.value)|)
    decreases e, 0
  {
    var b := Written(e.value);
    hide Written, ReadValue, ReadBytes;
    StandsParts(WrittenKey(e.key), b, s, at);
    StandsFirst(|e.key|, e.key, s, at);
    BytesRead(e.key, s, at + 1);
    hide StandsAt;
    ValueReads(e.value, s, at + 1 + |e.key|);
  }

  lemma {:induction false} EntriesRead(entries: seq<Entry>, s: Bytes, at: nat)
    requires EntriesMeet(InRange, entries) && EntriesMeet(KnownKinds, entries) && EntriesMeet(ShortKeys, entries)
    requires |Entries(entries)| < 0x1_0000_0000 && StandsAt(Entries(entries), s, at)
    ensures ReadEntries(s, at, at + |Entries(entries)|) == Read(entries, at + |Entries(entries)|)
    decreases entries, 0
  {
    hide *;
    if entries == [] {
      NothingToRead(s, at);
    } else {
      EntriesParts(entries, s, at);
      EntryReads(entries[0], s, at);
      EntriesRead(entries[1..], s, at + 1 + |entries[0].key| + |Written(entries[0].value)|);
      ReadOneEntryMore(entries[0], entries[1..], s, at, at + |Entries(entries)|);
      Uncons(entries);
    }
  }

  lemma {:induction false} EntriesParts(entries: seq<Entry>, s: Bytes, at: nat)
    requires entries != [] && EntriesMeet(InRange, entries) && EntriesMeet(KnownKinds, entries) && EntriesMeet(ShortKeys, entries)
    requires StandsAt(Entries(entries), s, at)
    ensures var v := entries[0].value; Meets(InRange, v) && Meets(KnownKinds, v) && Meets(ShortKeys, v)
    ensures |entries[0].key| < 256
    ensures EntriesMeet(InRange, entries[1..]) && EntriesMeet(KnownKinds, entries[1..]) && EntriesMeet(ShortKeys, entries[1..])
    ensures var b := WrittenKey(entries[0].key) + Written(entries[0].value);
            StandsAt(b, s, at) && StandsAt(Entries(entries[1..]), s, at + 1 + |entries[0].key| + |Written(entries[0].value)|) &&
            |Entries(entries)| == |b| + |Entries(entries[1..])| && at < at + |Entries(entries)| <= |s|
  {
    StandsParts(WrittenKey(entries[0].key) + Written(entries[0].value), Entries(entries[1..]), s, at);
    hide Meets, Written;
  }

  lemma {:induction false} ReadOneEntryMore(e: Entry, rest: seq<Entry>, s: Bytes, at: nat, limit: nat)
    requires at < limit <= |s| && ReadEntry(s, at).Read? && ReadEntry(s, at).value == e
    requires ReadEntries(s, ReadEntry(s, at).at, limit) == Read(rest, limit)
    ensures ReadEntries(s, at, limit) == Read([e] + rest, limit)
  {
    hide ReadEntry;
  }

  // ----- Whatever is read has short keys -----

  lemma {:induction false} ReadKeysShort(s: Bytes, at: nat)
    ensures ReadValue(s, at).Read? ==> Meets(ShortKeys, ReadValue(s, at).value)
    decreases |s| - at, 0
  {
    if at < |s| {
      AtNested(s, at);
    }
    if at < |s| && s[at] == ARRAY {
      if ReadUint(s, at + 1, 4).Read? {
        ItemsShort(s, at + 5, at + 5 + ReadUint(s, at + 1, 4).value);
      }
    } else if at < |s| && s[at] == TABLE {
      TableShort(s, at + 1);
    } else {
      OtherShort(s, at);
    }
  }

  lemma {:induction false} OtherShort(s: Bytes, at: nat)
    requires at < |s| ==> s[at] != ARRAY && s[at] != TABLE
    ensures ReadValue(s, at).Read? ==> Meets(ShortKeys, ReadValue(s, at).value)
  {
    hide ReadUint, ReadArray, ReadTable, NumberKindOf;
  }

  lemma {:induction false} ItemsShort(s: Bytes, at: nat, limit: nat)
    requires at <= |s|
    ensures var r := ReadItems(s, at, limit); r.Read? ==> ItemsMeet(ShortKeys, r.value)
    decreases |s| - at, 1
  {
    if at < limit && ReadValue(s, at).Read? {
      ReadKeysShort(s, at);
      ItemsShort(s, ReadValue(s, at).at, limit);
    }
  }

  lemma {:induction false} TableShort(s: Bytes, at: nat)
    ensures ReadTable(s, at).Read? ==> EntriesMeet(ShortKeys, ReadTable(s, at).value)
    decreases |s| - at, 0
  {
    if ReadUint(s, at, 4).Read? {
      EntriesShort(s, at + 4, at + 4 + ReadUint(s, at, 4).value);
    }
  }

  lemma {:induction false} EntriesShort(s: Bytes, at: nat, limit: nat)
    requires at <= |s|
    ensures var r := ReadEntries(s, at, limit); r.Read? ==> EntriesMeet(ShortKeys, r.value)
    decreases |s| - at, 1
  {
    if at < limit && ReadEntry(s, at).Read? {
      var e := ReadEntry(s, at).value;
      ReadKeysShort(s, at + 1 + |e.key|);
      EntriesShort(s, ReadEntry(s, at).at, limit);
    }
  }

  /** A table survives being written and read if and only if no key in it, at any depth, is longer than
      255 bytes.  The encoder does not check that. */
  lemma {:induction false} TableRoundTripIff(entries: seq<Entry>, s: Bytes, at: nat)
    requires EntriesMeet(InRange, entries) && EntriesMeet(KnownKinds, entries)
    requires |Entries(entries)| < 0x1_0000_0000 && StandsAt(Sized(Entries(entries)), s, at)
    ensures ReadTable(s, at) == Read(entries, at + 4 + |Entries(entries)|) <==> EntriesMeet(ShortKeys, entries)
  {
    if EntriesMeet(ShortKeys, entries) {
      TableReads(entries, s, at);
    } else {
      TableShort(s, at);
    }
  }

  /** The smallest loss: one key of 256 bytes, written behind the length 0. */
  lemma {:induction false} LongKeyLost(key: Bytes)
    requires |key| == 256
    ensures var table := [Entry(key, Void)];
            WrittenKey(key) == [0] + key &&
            ReadTable(Sized(Entries(table)), 0) != Read(table, |Sized(Entries(table))|)
  {
    var table := [Entry(key, Void)];
    assert table[1..] == [] && Entries(table) == WrittenKey(key) + Written(Void) + [];
    var b := Sized(Entries(table));
    assert b[0..|b|] == b;
    hide Be;
    TableRoundTripIff(table, b, 0);
  }

  // ----- Cloning -----

  /** `amqp_field_value_clone` when every allocation succeeds. */
  function CloneValue(v: Value): Result<Value>
    decreases v
  {
    match v
    case Array(items) => (match CloneItems(items) case Ok(clones) => Ok(Array(clones)) case Err(e) => Err(e))
    case Table(entries) => (match CloneEntries(entries) case Ok(clones) => Ok(Table(clones)) case Err(e) => Err(e))
    case Unknown(_) => Err(STATUS_INVALID_PARAMETER)
    case _ => Ok(v)
  }

  function CloneItems(items: seq<Value>): Result<seq<Value>>
    decreases items
  {
    if items == [] then Ok([])
    else
      match CloneValue(items[0])
      case Err(e) => Err(e)
      case Ok(first) =>
        match CloneItems(items[1..])
        case Ok(later) => Ok([first] + later)
        case Err(e) => Err(e)
  }

  /** `amqp_table_clone` over `amqp_table_entry_clone`, which refuses an empty key. */
  function CloneEntries(entries: seq<Entry>): Result<seq<Entry>>
    decreases entries
  {
    if entries == [] then Ok([])
    else if entries[0].key == [] then Err(STATUS_INVALID_PARAMETER)
    else
      match CloneValue(entries[0].value)
      case Err(e) => Err(e)
      case Ok(first) =>
        match CloneEntries(entries[1..])
        case Ok(later) => Ok([Entry(entries[0].key, first)] + later)
        case Err(e) => Err(e)
  }

  lemma {:induction false} CloneValueIff(v: Value)
    ensures CloneValue(v) ==
            if Meets(NonEmptyKeys, v) && Meets(KnownKinds, v) then Ok(v) else Err(STATUS_INVALID_PARAMETER)
    decreases v
  {
    if v.Array? {
      CloneItemsIff(v.items);
    } else if v.Table? {
      CloneEntriesIff(v.entries);
    }
    hide CloneItems, CloneEntries, ItemsMeet, EntriesMeet;
  }

  lemma {:induction false} CloneItemsIff(items: seq<Value>)
    ensures CloneItems(items) ==
            if ItemsMeet(NonEmptyKeys, items) && ItemsMeet(KnownKinds, items) then Ok(items) else Err(STATUS_INVALID_PARAMETER)
    decreases items
  {
    if items != [] {
      CloneValueIff(items[0]);
      CloneItemsIff(items[1..]);
      Uncons(items);
      hide CloneValue, Meets;
    }
  }

  /** Cloning a table gives the same table back if and only if no key in it, at any depth, is empty and
      all kinds are known; otherwise it is refused. */
  lemma {:induction false} CloneEntriesIff(entries: seq<Entry>)
    ensures CloneEntries(entries) ==
            if EntriesMeet(NonEmptyKeys, entries) && EntriesMeet(KnownKinds, entries) then Ok(entries)
            else Err(STATUS_INVALID_PARAMETER)
    decreases entries
  {
    if entries != [] {
      CloneValueIff(entries[0].value);
      CloneEntriesIff(entries[1..]);
      Uncons(entries);
      hide CloneValue, Meets;
    }
  }

  // ----- The code -----

  /** Why an encoder gives up: there is no room for a kind, there is no room for something else, or a
      kind is unknown. */
  predicate Refusal(status: int, known: bool) {
    status == STATUS_BAD_AMQP_DATA || status == STATUS_TABLE_TOO_BIG || (status == STATUS_INVALID_PARAMETER && !known)
  }

  function Front<T>(xs: seq<T>, r: Read<seq<T>>): Read<seq<T>> {
    match r
    case Read(ys, at) => Read(xs + ys, at)
    case Refused => Refused
  }

  lemma {:induction false} FrontTwice<T>(xs: seq<T>, x: T, r: Read<seq<T>>)
    ensures Front(xs, Front([x], r)) == Front(xs + [x], r)
  {
    if r.Read? {
      assert xs + ([x] + r.value) == xs + [x] + r.value;
    }
  }

  lemma {:induction false} FrontEnds<T>(xs: seq<T>, at: nat, r: Read<seq<T>>)
    ensures Front(xs, Read([], at)) == Read(xs, at) && Front(xs, Refused) == Refused && Front([], r) == r
  {
    assert xs + [] == xs;
    if r.Read? {
      assert [] + r.value == r.value;
    }
  }

  lemma {:induction false} ItemsStep(s: Bytes, at: nat, limit: nat)
    requires at < limit && at <= |s|
    ensures ReadItems(s, at, limit) ==
            match ReadValue(s, at)
            case Refused => Refused
            case Read(v, next) => Front([v], ReadItems(s, next, limit))
  {
    hide ReadValue;
  }

  lemma {:induction false} EntriesStep(s: Bytes, at: nat, limit: nat)
    requires at < limit && at <= |s|
    ensures ReadEntries(s, at, limit) ==
            match ReadEntry(s, at)
            case Refused => Refused
            case Read(e, next) => Front([e], ReadEntries(s, next, limit))
  {
    hide ReadEntry;
  }

  /** A buffer and the `offset` that the encoding and decoding functions move along it. */
  class Cursor {
    const encoded: array<Octet>
    var offset: nat

    constructor (encoded: array<Octet>)
      ensures this.encoded == encoded && offset == 0
    {
      this.encoded, offset := encoded, 0;
    }

    /** The bytes `b` have been put behind the first `from` bytes that the buffer had before. */
    ghost predicate Appended(before: Bytes, from: nat, b: Bytes)
      reads this, encoded
    {
      from <= |before| && offset == from + |b| <= encoded.Length && encoded[..offset] == before[..from] + b
    }

    /** `amqp_encode_8` .. `amqp_encode_64` at an offset of its own.  Only the low bytes are kept. */
    method PutUintAt(at: nat, u: nat, width: nat) returns (ok: bool)
      modifies encoded
      ensures ok <==> at + width <= encoded.Length
      ensures ok ==> encoded[at..at + width] == Be(u, width)
      ensures forall i :: 0 <= i < encoded.Length && !(at <= i < at + width) ==> encoded[i] == old(encoded[i])
    {
      if at + width > encoded.Length {
        return false;
      }
      var b := Be(u, width);
      forall i | 0 <= i < width {
        encoded[at + i] := b[i];
      }
      return true;
    }

    /** `amqp_encode_bytes` */
    method PutBytes(b: Bytes) returns (ok: bool)
      modifies this`offset, encoded
      ensures b == [] ==> ok && offset == old(offset) && encoded[..] == old(encoded[..])
      ensures b != [] ==> (ok <==> old(offset) + |b| <= encoded.Length)
      ensures ok && old(offset) <= encoded.Length ==> Appended(old(encoded[..]), old(offset), b)
    {
      var at := offset;
      if b == [] {
        return true;
      }
      offset := at + |b|;
      if offset > encoded.Length {
        return false;
      }
      forall i | 0 <= i < |b| {
        encoded[at + i] := b[i];
      }
      assert encoded[..offset] == old(encoded[..])[..at] + b;
      return true;
    }

    /** `amqp_encode_8` .. `amqp_encode_64` */
    method PutUint(u: nat, width: nat) returns (ok: bool)
      modifies this`offset, encoded
      ensures ok <==> old(offset) + width <= encoded.Length
      ensures ok ==> Appended(old(encoded[..]), old(offset), Be(u, width))
    {
      ok := PutUintAt(offset, u, width);
      ghost var at := offset;
      offset := offset + width;
      if ok {
        assert encoded[..offset] == old(encoded[..])[..at] + encoded[at..offset];
      }
    }

    lemma {:induction false} AppendedTwice(before: Bytes, from: nat, a: Bytes, middle: Bytes, at: nat, b: Bytes)
      requires Appended(middle, at, b)
      requires from <= |before| && at == from + |a| <= |middle| && middle[..at] == before[..from] + a
      ensures Appended(before, from, a + b)
    {
      assert before[..from] + a + b == before[..from] + (a + b);
    }

    lemma {:induction false} AppendedOnto(before: Bytes, from: nat, done: Bytes, middle: Bytes, at: nat, b: Bytes)
      requires Appended(middle, at, b) && |middle| == |before| == encoded.Length && at == from + |done|
      requires at <= |middle| ==> from <= |before| && middle[..at] == before[..from] + done
      ensures Appended(before, from, done + b)
    {
      AppendedTwice(before, from, done, middle, at, b);
    }

    lemma Appended0(before: Bytes, from: nat)
      requires before == encoded[..] && from == offset
      ensures from <= encoded.Length ==> Appended(before, from, [])
    {
      assert from <= encoded.Length ==> encoded[..from] + [] == encoded[..from];
    }

    /** The DECIMAL case of `amqp_encode_field_value`. */
    method PutDecimal(decimals: Octet, unscaled: nat) returns (ok: bool)
      requires offset <= encoded.Length
      modifies this`offset, encoded
      ensures ok <==> old(offset) + 5 <= encoded.Length
      ensures ok ==> Appended(old(encoded[..]), old(offset), [decimals] + Be(unscaled, 4))
    {
      ghost var before, from := encoded[..], offset;
      OneByte(decimals);
      hide Be;
      ok := PutUint(decimals, 1);
      if ok {
        ghost var middle, at := encoded[..], offset;
        ok := PutUint(unscaled, 4);
        if ok {
          AppendedTwice(before, from, [decimals], middle, at, Be(unscaled, 4));
        }
      }
    }

    /** The UTF8 and BYTES cases. */
    method PutText(bytes: Bytes) returns (ok: bool)
      requires offset <= encoded.Length
      modifies this`offset, encoded
      ensures ok <==> old(offset) + |Sized(bytes)| <= encoded.Length
      ensures ok ==> Appended(old(encoded[..]), old(offset), Sized(bytes))
    {
      ghost var before, from := encoded[..], offset;
      hide Be;
      ok := PutUint(|bytes|, 4);
      if ok {
        ghost var middle, at := encoded[..], offset;
        ok := PutBytes(bytes);
        if ok {
          AppendedTwice(before, from, Be(|bytes|, 4), middle, at, bytes);
        }
      }
    }

    /** `amqp_encode_field_value` behind the kind, for the kinds that nest nothing. */
    method EncodeScalar(v: Value) returns (status: int)
      requires Meets(InRange, v) && !v.Array? && !v.Table? && offset <= encoded.Length
      modifies this`offset, encoded
      ensures status == STATUS_OK <==> Meets(KnownKinds, v) && old(offset) + |Content(v)| <= encoded.Length
      ensures status == STATUS_OK ==> Appended(old(encoded[..]), old(offset), Content(v))
      ensures status != STATUS_OK ==> Refusal(status, Meets(KnownKinds, v))
    {
      var ok := true;
      hide Be;
      match v {
        case Boolean(b) =>
          OneByte(if b then 1 else 0);
          ok := PutUint(if b then 1 else 0, 1);
        case Number(kind, n) =>
          ok := PutUint(ToBits(kind, n), Width(kind));
        case Decimal(decimals, unscaled) =>
          ok := PutDecimal(decimals, unscaled);
        case Text(_, bytes) =>
          ok := PutText(bytes);
        case Void =>
          assert encoded[..offset] + [] == encoded[..offset];
        case Unknown(_) =>
          return STATUS_INVALID_PARAMETER;
      }
      status := if ok then STATUS_OK else STATUS_TABLE_TOO_BIG;
    }

    /** `amqp_encode_field_value` */
    method EncodeValue(v: Value) returns (status: int)
      requires Meets(InRange, v)
      modifies this`offset, encoded
      ensures status == STATUS_OK <==> Meets(KnownKinds, v) && old(offset) + |Written(v)| <= encoded.Length
      ensures status == STATUS_OK ==> Appended(old(encoded[..]), old(offset), Written(v))
      ensures status != STATUS_OK ==> Refusal(status, Meets(KnownKinds, v))
      decreases v, 2
    {
      ghost var before, from := encoded[..], offset;
      var ok := PutUint(Code(v), 1);
      if !ok {
        return STATUS_BAD_AMQP_DATA;
      }
      OneByte(Code(v));
      ghost var middle, at := encoded[..], offset;
      hide Be, Items, Entries, Code;
      match v {
        case Array(items) =>
          status := EncodeArray(items);
        case Table(entries) =>
          status := EncodeTable(entries);
        case _ =>
          status := EncodeScalar(v);
      }
      if status == STATUS_OK {
        AppendedTwice(before, from, [Code(v)], middle, at, Content(v));
      }
    }

    /** `amqp_encode_array`: leaves room for the size, writes the values, then fills the size in. */
    method EncodeArray(items: seq<Value>) returns (status: int)
      requires ItemsMeet(InRange, items)
      modifies this`offset, encoded
      ensures status == STATUS_OK <==>
                ItemsMeet(KnownKinds, items) && old(offset) + |Sized(Items(items))| <= encoded.Length
      ensures status == STATUS_OK ==> Appended(old(encoded[..]), old(offset), Sized(Items(items)))
      ensures status != STATUS_OK ==> Refusal(status, ItemsMeet(KnownKinds, items))
      decreases items, 1
    {
      var start := offset;
      ghost var before := encoded[..];
      hide Be, Items, ItemsMeet;
      offset := offset + 4;
      status := EncodeItems(items);
      if status == STATUS_OK {
        status := FillSize(before, start, Items(items));
      }
    }

    /** The end of `amqp_encode_array` and `amqp_encode_table`. */
    method FillSize(ghost before: Bytes, start: nat, ghost contents: Bytes) returns (status: int)
      requires |before| == encoded.Length && offset == start + 4 + |contents|
      requires offset <= encoded.Length ==> Appended(before, start + 4, contents)
      requires offset > encoded.Length ==> contents == []
      modifies encoded
      ensures status == STATUS_OK || status == STATUS_TABLE_TOO_BIG
      ensures status == STATUS_OK <==> offset <= encoded.Length
      ensures status == STATUS_OK ==> Appended(before, start, Sized(contents))
    {
      ghost var middle := encoded[..];
      hide Be;
      var ok := PutUintAt(start, offset - start - 4, 4);
      if !ok {
        return STATUS_TABLE_TOO_BIG;
      }
      SizeFilled(before, middle, encoded[..], start, Be(|contents|, 4), contents);
      return STATUS_OK;
    }

    /** The loop of `amqp_encode_array`. */
    method EncodeItems(items: seq<Value>) returns (status: int)
      requires ItemsMeet(InRange, items)
      modifies this`offset, encoded
      ensures status == STATUS_OK <==>
                ItemsMeet(KnownKinds, items) && (items == [] || old(offset) + |Items(items)| <= encoded.Length)
      ensures status == STATUS_OK ==> offset == old(offset) + |Items(items)|
      ensures status == STATUS_OK && old(offset) <= encoded.Length ==> Appended(old(encoded[..]), old(offset), Items(items))
      ensures status != STATUS_OK ==> Refusal(status, ItemsMeet(KnownKinds, items))
      decreases items, 0
    {
      ghost var before, from, done := encoded[..], offset, [];
      var i := 0;
      assert items[0..] == items;
      NoItems();
      hide *;
      Appended0(before, from);
      while i < |items|
        invariant i <= |items| && ItemsMeet(InRange, items[i..])
        invariant ItemsMeet(KnownKinds, items) <==> ItemsMeet(KnownKinds, items[i..])
        invariant Items(items) == done + Items(items[i..]) && offset == from + |done|
        invariant i == 0 ==> done == [] && encoded[..] == before
        invariant i > 0 ==> offset <= encoded.Length
        invariant offset <= encoded.Length ==> Appended(before, from, done)
      {
        ItemsNext(items, i, done);
        ghost var middle, at := encoded[..], offset;
        status := EncodeValue(items[i]);
        if status != STATUS_OK {
          WhyRefused(status, Meets(KnownKinds, items[i]), ItemsMeet(KnownKinds, items));
          return;
        }
        AppendedOnto(before, from, done, middle, at, Written(items[i]));
        done := done + Written(items[i]);
        i := i + 1;
      }
      assert items[i..] == [] && done + [] == done;
      return STATUS_OK;
    }

    /** `amqp_encode_table` */
    method EncodeTable(entries: seq<Entry>) returns (status: int)
      requires EntriesMeet(InRange, entries)
      modifies this`offset, encoded
      ensures status == STATUS_OK <==>
                EntriesMeet(KnownKinds, entries) && old(offset) + |Sized(Entries(entries))| <= encoded.Length
      ensures status == STATUS_OK ==> Appended(old(encoded[..]), old(offset), Sized(Entries(entries)))
      ensures status != STATUS_OK ==> Refusal(status, EntriesMeet(KnownKinds, entries))
      decreases entries, 1
    {
      var start := offset;
      ghost var before := encoded[..];
      hide Be, Entries, EntriesMeet;
      offset := offset + 4;
      status := EncodeEntries(entries);
      if status == STATUS_OK {
        status := FillSize(before, start, Entries(entries));
      }
    }

    /** The loop of `amqp_encode_table`. */
    method EncodeEntries(entries: seq<Entry>) returns (status: int)
      requires EntriesMeet(InRange, entries)
      modifies this`offset, encoded
      ensures status == STATUS_OK <==>
                EntriesMeet(KnownKinds, entries) && (entries == [] || old(offset) + |Entries(entries)| <= encoded.Length)
      ensures status == STATUS_OK ==> offset == old(offset) + |Entries(entries)|
      ensures status == STATUS_OK && old(offset) <= encoded.Length ==> Appended(old(encoded[..]), old(offset), Entries(entries))
      ensures status != STATUS_OK ==> Refusal(status, EntriesMeet(KnownKinds, entries))
      decreases entries, 0
    {
      ghost var before, from, done := encoded[..], offset, [];
      var i := 0;
      assert entries[0..] == entries;
      NoItems();
      hide *;
      Appended0(before, from);
      while i < |entries|
        invariant i <= |entries| && EntriesMeet(InRange, entries[i..])
        invariant EntriesMeet(KnownKinds, entries) <==> EntriesMeet(KnownKinds, entries[i..])
        invariant Entries(entries) == done + Entries(entries[i..]) && offset == from + |done|
        invariant i == 0 ==> done == [] && encoded[..] == before
        invariant i > 0 ==> offset <= encoded.Length
        invariant offset <= encoded.Length ==> Appended(before, from, done)
      {
        EntriesNext(entries, i, done);
        ghost var middle, at, b := encoded[..], offset, WrittenKey(entries[i].key) + Written(entries[i].value);
        status := EncodeEntry(entries[i]);
        if status != STATUS_OK {
          WhyRefused(status, Meets(KnownKinds, entries[i].value), EntriesMeet(KnownKinds, entries));
          return;
        }
        AppendedOnto(before, from, done, middle, at, b);
        done := done + b;
        i := i + 1;
      }
      assert entries[i..] == [] && done + [] == done;
      return STATUS_OK;
    }

    /** One turn of that loop.  The length byte keeps only the low eight bits of the key's length, and
        nothing checks that they are all. */
    method EncodeEntry(e: Entry) returns (status: int)
      requires Meets(InRange, e.value)
      modifies this`offset, encoded
      ensures status == STATUS_OK <==>
                Meets(KnownKinds, e.value) && old(offset) + |WrittenKey(e.key)| + |Written(e.value)| <= encoded.Length
      ensures status == STATUS_OK ==> Appended(old(encoded[..]), old(offset), WrittenKey(e.key) + Written(e.value))
      ensures status != STATUS_OK ==> Refusal(status, Meets(KnownKinds, e.value))
      decreases e, 0
    {
      ghost var before, from := encoded[..], offset;
      OneByte(|e.key| % 256);
      hide Be, Written, Meets;
      var ok := PutUint(|e.key| % 256, 1);
      if !ok {
        return STATUS_TABLE_TOO_BIG;
      }
      ghost var middle, at := encoded[..], offset;
      ok := PutBytes(e.key);
      if !ok {
        return STATUS_TABLE_TOO_BIG;
      }
      AppendedTwice(before, from, [|e.key| % 256], middle, at, e.key);
      middle, at := encoded[..], offset;
      status := EncodeValue(e.value);
      if status == STATUS_OK {
        AppendedTwice(before, from, WrittenKey(e.key), middle, at, Written(e.value));
      }
    }

    // ----- Decoding -----

    /** `amqp_decode_8` .. `amqp_decode_64` */
    method TakeUint(width: nat) returns (ok: bool, u: nat)
      modifies this`offset
      ensures match ReadUint(encoded[..], old(offset), width)
              case Read(x, at) => ok && u == x && offset == at
              case Refused => !ok
    {
      var at := offset;
      offset := at + width;
      if offset > encoded.Length {
        return false, 0;
      }
      assert encoded[at..offset] == encoded[..][at..offset];
      return true, FromBe(encoded[at..offset]);
    }

    /** `amqp_decode_bytes` */
    method TakeBytes(len: nat) returns (ok: bool, b: Bytes)
      modifies this`offset
      ensures match ReadBytes(encoded[..], old(offset), len)
              case Read(x, at) => ok && b == x && offset == at
              case Refused => !ok
    {
      var at := offset;
      offset := at + len;
      if offset > encoded.Length {
        return false, [];
      }
      assert encoded[at..offset] == encoded[..][at..offset];
      return true, encoded[at..offset];
    }

    /** `amqp_decode_field_value` */
    method DecodeValue() returns (status: int, v: Value)
      requires offset <= encoded.Length
      modifies this`offset
      ensures match ReadValue(encoded[..], old(offset))
              case Read(x, at) => status == STATUS_OK && v == x && offset == at
              case Refused => status == STATUS_BAD_AMQP_DATA
      decreases encoded.Length - offset, 0
    {
      ghost var s, from := encoded[..], offset;
      var ok, code := TakeUint(1);
      if !ok {
        return STATUS_BAD_AMQP_DATA, Void;
      }
      OneByteRead(s, from);
      AtNested(s, from);
      hide ReadValue, ReadArray, ReadTable, FromBe;
      if code == ARRAY {
        var items;
        status, items := DecodeArray();
        v := Array(items);
      } else if code == TABLE {
        var entries;
        status, entries := DecodeTable();
        v := Table(entries);
      } else {
        status, v := DecodeScalar(s, code);
      }
    }

    /** The kinds that nest nothing, behind the kind. */
    method DecodeScalar(ghost s: Bytes, code: Octet) returns (status: int, v: Value)
      requires 0 < offset <= encoded.Length && s == encoded[..] && s[offset - 1] == code && code != ARRAY && code != TABLE
      modifies this`offset
      ensures match ReadValue(encoded[..], old(offset) - 1)
              case Read(x, at) => status == STATUS_OK && v == x && offset == at
              case Refused => status == STATUS_BAD_AMQP_DATA
    {
      ghost var from := offset - 1;
      AtScalar(s, from);
      AtUnknown(s, from);
      status, v := STATUS_BAD_AMQP_DATA, Void;
      var ok, u;
      hide ReadValue, FromBe, NumberCode;
      if code == BOOLEAN {
        ok, u := TakeUint(1);
        if ok { status, v := STATUS_OK, Boolean(u != 0); }
      } else if code == DECIMAL {
        status, v := DecodeDecimal();
      } else if code == UTF8 || code == BYTES {
        status, v := DecodeText(code == UTF8);
      } else if code == VOID {
        status := STATUS_OK;
      } else {
        var kind := NumberKindOf(code);
        if kind.Some? {
          AtNumber(s, from, kind.value);
          ok, u := TakeUint(Width(kind.value));
          if ok { status, v := STATUS_OK, Number(kind.value, FromBits(kind.value, u)); }
        }
      }
    }

    method DecodeDecimal() returns (status: int, v: Value)
      requires offset <= encoded.Length
      modifies this`offset
      ensures match ReadDecimal(encoded[..], old(offset))
              case Read(x, at) => status == STATUS_OK && v == x && offset == at
              case Refused => status == STATUS_BAD_AMQP_DATA
    {
      status, v := STATUS_BAD_AMQP_DATA, Void;
      ghost var s, from := encoded[..], offset;
      var ok, decimals := TakeUint(1);
      if ok {
        OneByteRead(s, from);
        var unscaled;
        ok, unscaled := TakeUint(4);
        if ok { status, v := STATUS_OK, Decimal(decimals, unscaled); }
      }
    }

    method DecodeText(utf8: bool) returns (status: int, v: Value)
      requires offset <= encoded.Length
      modifies this`offset
      ensures match ReadText(encoded[..], old(offset), utf8)
              case Read(x, at) => status == STATUS_OK && v == x && offset == at
              case Refused => status == STATUS_BAD_AMQP_DATA
    {
      status, v := STATUS_BAD_AMQP_DATA, Void;
      var ok, len := TakeUint(4);
      if ok {
        var bytes;
        ok, bytes := TakeBytes(len);
        if ok { status, v := STATUS_OK, Text(utf8, bytes); }
      }
    }

    /** `amqp_decode_array`: values until the announced end is reached or passed. */
    method DecodeArray() returns (status: int, items: seq<Value>)
      requires offset <= encoded.Length
      modifies this`offset
      ensures match ReadArray(encoded[..], old(offset))
              case Read(x, at) => status == STATUS_OK && items == x && offset == at
              case Refused => status == STATUS_BAD_AMQP_DATA
      decreases encoded.Length - offset, 0
    {
      items := [];
      ghost var s := encoded[..];
      var ok, size := TakeUint(4);
      if !ok {
        return STATUS_BAD_AMQP_DATA, items;
      }
      var limit := offset + size;
      ghost var all := ReadItems(s, offset, limit);
      FrontEnds([], 0, all);
      hide ReadItems, ReadValue, Front;
      while offset < limit
        invariant old(offset) < offset <= encoded.Length && all == Front(items, ReadItems(s, offset, limit))
        decreases encoded.Length - offset
      {
        ItemsStep(s, offset, limit);
        FrontEnds(items, 0, all);
        var v;
        status, v := DecodeValue();
        if status < 0 {
          return;
        }
        FrontTwice(items, v, ReadItems(s, offset, limit));
        items := items + [v];
      }
      LimitReached(s, offset, limit);
      FrontEnds(items, offset, all);
      return STATUS_OK, items;
    }

    /** `amqp_decode_table` */
    method DecodeTable() returns (status: int, entries: seq<Entry>)
      requires offset <= encoded.Length
      modifies this`offset
      ensures match ReadTable(encoded[..], old(offset))
              case Read(x, at) => status == STATUS_OK && entries == x && offset == at
              case Refused => status == STATUS_BAD_AMQP_DATA
      decreases encoded.Length - offset, 0
    {
      entries := [];
      ghost var s := encoded[..];
      var ok, size := TakeUint(4);
      if !ok {
        return STATUS_BAD_AMQP_DATA, entries;
      }
      var limit := offset + size;
      ghost var all := ReadEntries(s, offset, limit);
      FrontEnds([], 0, all);
      hide ReadEntries, ReadEntry, Front;
      while offset < limit
        invariant old(offset) < offset <= encoded.Length && all == Front(entries, ReadEntries(s, offset, limit))
        decreases encoded.Length - offset
      {
        EntriesStep(s, offset, limit);
        FrontEnds(entries, 0, all);
        var e;
        status, e := DecodeEntry();
        if status < 0 {
          return;
        }
        FrontTwice(entries, e, ReadEntries(s, offset, limit));
        entries := entries + [e];
      }
      LimitReached(s, offset, limit);
      FrontEnds(entries, offset, all);
      return STATUS_OK, entries;
    }

    /** One turn of the loop of `amqp_decode_table`. */
    method DecodeEntry() returns (status: int, e: Entry)
      requires offset <= encoded.Length
      modifies this`offset
      ensures match ReadEntry(encoded[..], old(offset))
              case Read(x, at) => status == STATUS_OK && e == x && offset == at
              case Refused => status == STATUS_BAD_AMQP_DATA
      decreases encoded.Length - offset, 1
    {
      e := Entry([], Void);
      ghost var s, from := encoded[..], offset;
      var ok, len := TakeUint(1);
      if !ok {
        return STATUS_BAD_AMQP_DATA, e;
      }
      OneByteRead(s, from);
      var key;
      ok, key := TakeBytes(len);
      if !ok {
        return STATUS_BAD_AMQP_DATA, e;
      }
      hide ReadValue, FromBe;
      var v;
      status, v := DecodeValue();
      e := Entry(key, v);
    }
  }

  lemma {:induction false} OneByte(x: Octet)
    ensures Be(x, 1) == [x]
  {
  }

  lemma {:induction false} OneByteRead(s: Bytes, at: nat)
    requires at < |s|
    ensures FromBe(s[at..at + 1]) == s[at]
  {
    assert s[at..at + 1] == [s[at]] && [s[at]][..0] == [];
  }

  lemma {:induction false} AtUnknown(s: Bytes, at: nat)
    requires at < |s|
    ensures s[at] !in [BOOLEAN, DECIMAL, UTF8, BYTES, ARRAY, TABLE, VOID] && NumberKindOf(s[at]).None? ==>
              ReadValue(s, at) == Refused
  {
    hide NumberKindOf;
  }

  lemma {:induction false} LimitReached(s: Bytes, at: nat, limit: nat)
    requires limit <= at <= |s|
    ensures ReadItems(s, at, limit) == Read([], at) && ReadEntries(s, at, limit) == Read([], at)
  {
  }

  lemma {:induction false} NoItems()
    ensures Items([]) == [] && ItemsMeet(KnownKinds, []) && Entries([]) == [] && EntriesMeet(KnownKinds, [])
  {
  }

  lemma {:induction false} ItemsNext(items: seq<Value>, i: nat, done: Bytes)
    requires i < |items| && ItemsMeet(InRange, items) && ItemsMeet(InRange, items[i..])
    requires Items(items) == done + Items(items[i..])
    ensures Meets(InRange, items[i]) && ItemsMeet(InRange, items[i + 1..])
    ensures ItemsMeet(KnownKinds, items[i..]) <==> Meets(KnownKinds, items[i]) && ItemsMeet(KnownKinds, items[i + 1..])
    ensures Items(items) == done + Written(items[i]) + Items(items[i + 1..])
  {
    var rest := items[i..];
    assert rest[0] == items[i] && rest[1..] == items[i + 1..];
    hide Meets, Written;
    assert done + (Written(items[i]) + Items(rest[1..])) == done + Written(items[i]) + Items(rest[1..]);
  }

  lemma {:induction false} EntriesNext(entries: seq<Entry>, i: nat, done: Bytes)
    requires i < |entries| && EntriesMeet(InRange, entries) && EntriesMeet(InRange, entries[i..])
    requires Entries(entries) == done + Entries(entries[i..])
    ensures Meets(InRange, entries[i].value) && EntriesMeet(InRange, entries[i + 1..])
    ensures EntriesMeet(KnownKinds, entries[i..]) <==> Meets(KnownKinds, entries[i].value) && EntriesMeet(KnownKinds, entries[i + 1..])
    ensures Entries(entries) == done + (WrittenKey(entries[i].key) + Written(entries[i].value)) + Entries(entries[i + 1..])
  {
    var rest := entries[i..];
    assert rest[0] == entries[i] && rest[1..] == entries[i + 1..];
    hide Meets, Written, WrittenKey;
    var b := WrittenKey(entries[i].key) + Written(entries[i].value);
    assert Entries(rest) == b + Entries(rest[1..]);
    assert done + (b + Entries(rest[1..])) == done + b + Entries(rest[1..]);
  }

  lemma {:induction false} SizeFilled(before: Bytes, middle: Bytes, after: Bytes, start: nat, size: Bytes, contents: Bytes)
    requires |size| == 4 && |before| == |middle| == |after| && start + 4 + |contents| <= |middle|
    requires middle[..start + 4 + |contents|] == before[..start + 4] + contents
    requires after[start..start + 4] == size
    requires forall i :: 0 <= i < |after| && !(start <= i < start + 4) ==> after[i] == middle[i]
    ensures after[..start + 4 + |contents|] == before[..start] + (size + contents)
  {
    var n := start + 4 + |contents|;
    forall i | 0 <= i < n
      ensures after[i] == (before[..start] + (size + contents))[i]
    {
      if start <= i < start + 4 {
        assert after[i] == after[start..start + 4][i - start];
      } else {
        assert after[i] == middle[..n][i];
      }
    }
  }

  lemma WhyRefused(status: int, known: bool, allKnown: bool)
    requires Refusal(status, known) && (allKnown ==> known)
    ensures Refusal(status, allKnown) && status != STATUS_OK
  {
  }

  // ----- Through the code and back -----

  lemma {:induction false} BeginsWith(b: Bytes, s: Bytes)
    requires |b| <= |s| && s[..|b|] == [] + b
    ensures StandsAt(b, s, 0)
  {
  }

  /** A table written into a buffer and read from it again comes back, if there was room and all kinds
      are known, exactly when no key in it is longer than 255 bytes. */
  method WriteAndRead(entries: seq<Entry>, buffer: array<Octet>) returns (written: int, status: int, got: seq<Entry>)
    requires EntriesMeet(InRange, entries) && buffer.Length < 0x1_0000_0000
    modifies buffer
    ensures written == STATUS_OK <==> EntriesMeet(KnownKinds, entries) && |Sized(Entries(entries))| <= buffer.Length
    ensures written == STATUS_OK ==> (status == STATUS_OK && got == entries <==> EntriesMeet(ShortKeys, entries))
  {
    status, got := STATUS_OK, [];
    var writer := new Cursor(buffer);
    hide Entries, EntriesMeet, Sized;
    written := writer.EncodeTable(entries);
    if written != STATUS_OK {
      return;
    }
    ghost var s := buffer[..];
    BeginsWith(Sized(Entries(entries)), s);
    TableRoundTripIff(entries, s, 0);
    TableShort(s, 0);
    var reader := new Cursor(buffer);
    status, got := reader.DecodeTable();
  }
}
