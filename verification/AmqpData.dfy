/** Values that travel in AMQP frames, and big-endian integers. */
module AmqpData {
  import opened Wrappers

  datatype Result<+T> = Ok(value: T) | Err(status: int)

  type Octet = x: nat | x < 256

  type Bytes = seq<Octet>

  const STATUS_OK := 0
  const STATUS_BAD_AMQP_DATA := -2
  const STATUS_SOCKET_ERROR := -9
  const STATUS_INVALID_PARAMETER := -10
  const STATUS_TABLE_TOO_BIG := -11
  const STATUS_TIMEOUT := -13
  const STATUS_TIMER_FAILURE := -14
  const STATUS_HEARTBEAT_TIMEOUT := -15
  const STATUS_UNEXPECTED_STATE := -16

  // ----- Big-endian integers: `amqp_e8` .. `amqp_e64` and `amqp_d8` .. `amqp_d64` -----

  function Pow256(k: nat): (p: nat)
    ensures p > 0
  {
    if k == 0 then 1 else 256 * Pow256(k - 1)
  }

  function Be(v: nat, k: nat): (b: Bytes)
    ensures |b| == k
  {
    if k == 0 then [] else Be(v / 256, k - 1) + [v % 256]
  }

  function FromBe(b: Bytes): nat {
    if b == [] then 0 else 256 * FromBe(b[..|b| - 1]) + b[|b| - 1]
  }

  lemma {:induction false} FromBeOfBe(v: nat, k: nat)
    requires v < Pow256(k)
    ensures FromBe(Be(v, k)) == v
  {
    if k > 0 {
      FromBeOfBe(v / 256, k - 1);
      assert Be(v, k)[..k - 1] == Be(v / 256, k - 1);
    }
  }

  lemma {:induction false} FromBeBound(b: Bytes)
    ensures FromBe(b) < Pow256(|b|)
  {
    if b != [] {
      FromBeBound(b[..|b| - 1]);
    }
  }

  lemma Widths()
    ensures Pow256(1) == 0x100 && Pow256(2) == 0x1_0000 && Pow256(4) == 0x1_0000_0000
    ensures Pow256(8) == 0x1_0000_0000_0000_0000
  {
    assert Pow256(3) == 0x100_0000;
    assert Pow256(6) == 0x1_0000_0000_0000;
  }

  /** The octets, most significant first. */
  lemma {:induction false} BeOctets(v: nat)
    ensures Be(v, 1) == [v % 256]
    ensures Be(v, 2) == [v / 256 % 256, v % 256]
    ensures Be(v, 4) == [v / 0x100_0000 % 256, v / 0x1_0000 % 256, v / 256 % 256, v % 256]
  {
    BeNext(v, 0);
    BeNext(v, 1);
    BeNext(v / 256, 0);
    BeNext(v, 2);
    BeNext(v / 256, 1);
    BeNext(v / 0x1_0000, 0);
    BeNext(v, 3);
    BeNext(v / 256, 2);
    BeNext(v / 0x1_0000, 1);
    BeNext(v / 0x100_0000, 0);
    hide Be;
    assert v / 256 / 256 == v / 0x1_0000 && v / 0x1_0000 / 256 == v / 0x100_0000;
  }

  lemma {:induction false} BeNext(v: nat, k: nat)
    ensures Be(v, k + 1) == Be(v / 256, k) + [v % 256] && Be(v, 0) == []
  {
  }

  lemma {:induction false} BeHalves(v: nat)
    ensures Be(v, 8) == Be(v / 0x1_0000_0000, 4) + Be(v, 4)
  {
    BeOctets(v);
    BeNext(v, 7);
    BeNext(v / 256, 6);
    BeNext(v / 0x1_0000, 5);
    BeNext(v / 0x100_0000, 4);
    hide Be;
    assert v / 256 / 256 == v / 0x1_0000 && v / 0x1_0000 / 256 == v / 0x100_0000 && v / 0x100_0000 / 256 == v / 0x1_0000_0000;
  }

  // ----- Field values -----

  /** The kinds that hold one number.  F32 and F64 hold the bits of a floating-point value, which the
      library copies through an integer of the same width. */
  datatype NumberKind = I8 | U8 | I16 | U16 | I32 | U32 | I64 | U64 | F32 | F64 | Timestamp

  /** `amqp_field_value_t`.  `Unknown` stands for a kind the library does not know. */
  datatype Value =
    | Boolean(b: bool)
    | Number(kind: NumberKind, n: int)
    | Decimal(decimals: Octet, unscaled: nat)
    | Text(utf8: bool, bytes: Bytes)
    | Array(items: seq<Value>)
    | Table(entries: seq<Entry>)
    | Void
    | Unknown(code: Octet)

  datatype Entry = Entry(key: Bytes, value: Value)

  // ----- Arguments and properties -----

  const BASIC_CLASS: nat := 0x3C
  const BASIC_PUBLISH_METHOD: nat := 0x3C0028

  /** A property of a message: a short string, a table, an octet or a 64-bit number. */
  datatype Prop = Short(text: Bytes) | Headers(entries: seq<Entry>) | Small(octet: Octet) | Long(number: nat)

  /** The decoded fields of a method or of a property list: those of basic.publish, those of the Basic
      class, one place for each of its fourteen properties, or others that are not looked into. */
  datatype Fields =
    | PublishArguments(ticket: nat, exchange: Bytes, routingKey: Bytes, mandatory: bool, immediate: bool)
    | BasicProperties(flags: nat, slots: seq<Option<Prop>>)
    | OtherFields(numbers: seq<int>)

  const NO_FIELDS := OtherFields([])
}
