/** The bit-serial and the table-driven engine of crc.hpp.  Registers are `width` bits wide and
    neither engine masks the bits above `bits` while it works; contracts speak of the low `bits`
    bits, and where the code depends on the bits above them the invariant says so. */
module CrcEngines {
  import opened Words
  import opened CrcSpec

  /** `reflector<Bits>::reflect`: mirrors the low `bits` bits, one at a time. */
  method Reflect(x: Word, bits: nat) returns (reflection: Word)
    requires bits <= |x|
    ensures reflection == Resize(Reverse(x[..bits]), |x|)
  {
    reflection := Zeros(|x|);
    var rest := x;
    for i := 0 to bits
      invariant rest == Shr(x, i)
      invariant |reflection| == |x|
      invariant forall j :: 0 <= j < |x| ==> reflection[j] == (bits - i <= j < bits && x[bits - 1 - j])
    {
      if rest[0] {
        reflection := Or(reflection, OnlyBit(|x|, bits - 1 - i));
      }
      rest := Shr(rest, 1);
    }
  }

  /** What a division step does to a register, junk above `bits` included. */
  lemma {:induction false} RegisterStep(reg: Word, bits: nat, poly: Word, b: bool)
    requires 1 <= bits <= |reg| == |poly|
    ensures var top := OnlyBit(|reg|, bits - 1);
            var x := Xor(reg, if b then top else Zeros(|reg|));
            var after := if And(x, top) != Zeros(|reg|) then Xor(Shl(x, 1), poly) else Shl(x, 1);
            after[..bits] == Step(poly[..bits], reg[..bits], b)
  {
    var top := OnlyBit(|reg|, bits - 1);
    var x := Xor(reg, if b then top else Zeros(|reg|));
    TopBitTest(x, bits);
    ShiftLow(reg, x, bits);
    XorLow(Shl(x, 1), poly, bits);
  }

  lemma {:induction false} TopBitTest(x: Word, bits: nat)
    requires 1 <= bits <= |x|
    ensures And(x, OnlyBit(|x|, bits - 1)) != Zeros(|x|) <==> x[bits - 1]
  {
    var masked := And(x, OnlyBit(|x|, bits - 1));
    assert masked[bits - 1] == x[bits - 1];
    if !x[bits - 1] {
      assert masked == Zeros(|x|);
    }
  }

  lemma {:induction false} ShiftLow(reg: Word, x: Word, bits: nat)
    requires 1 <= bits <= |reg| == |x| && forall i :: 0 <= i < bits - 1 ==> x[i] == reg[i]
    ensures Shl(x, 1)[..bits] == Shl(reg[..bits], 1)
  {
    forall i | 0 <= i < bits
      ensures Shl(x, 1)[..bits][i] == Shl(reg[..bits], 1)[i]
    {
    }
  }

  lemma {:induction false} XorLow(a: Word, b: Word, bits: nat)
    requires |a| == |b| && bits <= |a|
    ensures Xor(a, b)[..bits] == Xor(a[..bits], b[..bits])
  {
  }

  lemma {:induction false} NextBit(byte: Byte, bitCount: nat, i: nat)
    requires 0 < i <= bitCount <= 8
    ensures Shl(byte, 8 - i)[7] == Reverse(byte[..bitCount])[bitCount - i]
    ensures Shl(Shl(byte, 8 - i), 1) == Shl(byte, 8 - (i - 1))
  {
  }

  lemma {:induction false} RunNothing(p: Word, r: Word, input: seq<bool>)
    requires |p| == |r| > 0
    ensures Run(p, r, input[..0]) == r
  {
  }

  lemma {:induction false} RunNextByte(p: Word, r: Word, bytes: seq<Byte>, k: nat, reflectIn: bool)
    requires |p| == |r| > 0 && k < |bytes|
    ensures Run(p, Run(p, r, MessageBits(bytes[..k], reflectIn)), ByteBits(bytes[k], reflectIn))
         == Run(p, r, MessageBits(bytes[..k + 1], reflectIn))
  {
    assert bytes[..k + 1] == bytes[..k] + [bytes[k]];
    hide *;
    RunConcat(p, r, MessageBits(bytes[..k], reflectIn), ByteBits(bytes[k], reflectIn));
    MessageBitsAppend(bytes[..k], bytes[k], reflectIn);
  }

  /** `crc_basic<Bits>` */
  class CrcBasic {
    const bits: nat
    const width: nat
    var rem: Word
    const poly: Word
    const init: Word
    const final: Word
    const rftIn: bool
    const rftOut: bool

    ghost predicate Valid()
      reads this
    {
      1 <= bits <= width && 8 <= width &&
      |rem| == |poly| == |init| == |final| == width
    }

    ghost function Interim(): (r: Word)
      requires Valid()
      reads this
      ensures |r| == bits
    {
      rem[..bits]
    }

    ghost function Config(): (c: Params)
      requires Valid()
      reads this
      ensures c.Valid() && |c.poly| == bits
    {
      Params(poly[..bits], init[..bits], final[..bits], rftIn, rftOut)
    }

    constructor (bits: nat, poly: Word, init: Word, final: Word, rftIn: bool, rftOut: bool)
      requires 1 <= bits <= |poly| && 8 <= |poly| == |init| == |final|
      ensures Valid() && this.bits == bits && width == |poly|
      ensures rem == this.init == init && this.poly == poly && this.final == final
      ensures this.rftIn == rftIn && this.rftOut == rftOut
    {
      this.bits, this.width, this.rem, this.poly := bits, |poly|, init, poly;
      this.init, this.final, this.rftIn, this.rftOut := init, final, rftIn, rftOut;
    }

    method ResetTo(newRem: Word)
      requires Valid() && |newRem| == width
      modifies this
      ensures Valid() && Interim() == newRem[..bits]
    {
      rem := newRem;
    }

    method Reset()
      requires Valid()
      modifies this
      ensures Valid() && Interim() == Config().init
    {
      ResetTo(init);
    }

    method GetInterimRemainder() returns (r: Word)
      requires Valid()
      ensures r == Resize(Interim(), width)
    {
      r := And(rem, seq(width, i => i < bits));
    }

    method ProcessBit(bit: bool)
      requires Valid()
      modifies this
      ensures Valid() && Interim() == Step(poly[..bits], old(Interim()), bit)
    {
      RegisterStep(rem, bits, poly, bit);
      var highBitMask := OnlyBit(width, bits - 1);
      rem := Xor(rem, if bit then highBitMask else Zeros(width));
      var doPolyDiv := And(rem, highBitMask) != Zeros(width);
      rem := Shl(rem, 1);
      if doPolyDiv {
        rem := Xor(rem, poly);
      }
    }

    method ProcessBits(bits_: Byte, bitCount: nat)
      requires Valid() && bitCount <= 8
      modifies this
      ensures Valid() && Interim() == Run(poly[..bits], old(Interim()), Reverse(bits_[..bitCount]))
    {
      ghost var p, was, input := poly[..bits], Interim(), Reverse(bits_[..bitCount]);
      var shifted: Byte := Shl(bits_, 8 - bitCount);
      var i := bitCount;
      RunNothing(p, was, input);
      hide Shl, Reverse, Step, Run, Interim;
      while i > 0
        invariant Valid() && 0 <= i <= bitCount
        invariant shifted == Shl(bits_, 8 - i)
        invariant Interim() == Run(p, was, input[..bitCount - i])
      {
        RunSnoc(p, was, input, bitCount - i);
        NextBit(bits_, bitCount, i);
        ProcessBit(shifted[7]);
        i, shifted := i - 1, Shl(shifted, 1);
      }
      assert input[..bitCount] == input;
    }

    method ProcessByte(byte: Byte)
      requires Valid()
      modifies this
      ensures Valid() && Interim() == Run(poly[..bits], old(Interim()), ByteBits(byte, rftIn))
    {
      if rftIn {
        var reflected := Reflect(byte, 8);
        assert Reverse(reflected[..8]) == byte;
        ProcessBits(reflected, 8);
      } else {
        assert byte[..8] == byte;
        ProcessBits(byte, 8);
      }
    }

    method ProcessBlock(bytes: seq<Byte>)
      requires Valid()
      modifies this
      ensures Valid() && Interim() == Run(poly[..bits], old(Interim()), MessageBits(bytes, rftIn))
    {
      for p := 0 to |bytes|
        invariant Valid()
        invariant Interim() == Run(poly[..bits], old(Interim()), MessageBits(bytes[..p], rftIn))
      {
        ProcessByte(bytes[p]);
        RunNextByte(poly[..bits], old(Interim()), bytes, p, rftIn);
      }
      assert bytes[..|bytes|] == bytes;
    }

    method Checksum() returns (r: Word)
      requires Valid()
      ensures r == Resize(Output(Config(), Interim()), width)
    {
      var out := rem;
      if rftOut {
        out := Reflect(rem, bits);
      }
      r := And(Xor(out, final), seq(width, i => i < bits));
    }
  }

  // ----- The table-driven engine -----

  /** A table entry: the division of the eight mixed bits, mirrored for the reflected engine.  Only
      the reflected table is clean above `|p|`. */
  ghost predicate EntryHolds(entry: Word, p: Word, index: Byte, reflect: bool, width: nat)
    requires 0 < |p| <= width
  {
    |entry| == width &&
    if reflect then entry == Resize(Reverse(Entry(p, index)), width)
    else entry[..|p|] == Entry(p, Reverse(index))
  }

  ghost predicate TableHolds(table: seq<Word>, p: Word, reflect: bool, width: nat)
    requires 0 < |p| <= width
  {
    |table| == 256 &&
    forall index: Byte :: Value(index) < 256 && EntryHolds(table[Value(index)], p, index, reflect, width)
  }

  /** `crc_helper<Bits, DoReflect>::reflect` */
  method MaybeReflect(x: Word, bits: nat, doReflect: bool) returns (r: Word)
    requires bits <= |x|
    ensures r == if doReflect then Resize(Reverse(x[..bits]), |x|) else x
  {
    r := x;
    if doReflect {
      r := Reflect(x, bits);
    }
  }

  ghost function IndexOf(dividend: nat, reflect: bool): (b: Byte) {
    if reflect then Reverse(FromNat(dividend, 8)) else FromNat(dividend, 8)
  }

  lemma {:induction false} IndexCovers(index: Byte, reflect: bool)
    ensures var d := Value(if reflect then Reverse(index) else index);
            d < 256 && IndexOf(d, reflect) == index
  {
    ByteValueRange(index);
    ByteValueRange(Reverse(index));
    ReverseTwice(index);
  }

  lemma {:induction false} IndexDistinct(a: nat, b: nat, reflect: bool)
    requires a < 256 && b < 256 && Value(IndexOf(a, reflect)) == Value(IndexOf(b, reflect))
    ensures a == b
  {
    ByteValueRange(IndexOf(a, reflect));
    ByteValueRange(IndexOf(b, reflect));
    ReverseTwice(FromNat(a, 8));
    ReverseTwice(FromNat(b, 8));
    ByteOfNat(a);
    ByteOfNat(b);
  }

  lemma {:induction false} MaskNonZero(i: nat)
    requires i <= 8
    ensures OnlyBit(8, 7 - i) != Zeros(8) <==> i < 8
  {
    if i < 8 {
      assert OnlyBit(8, 7 - i)[7 - i];
    }
  }

  lemma {:induction false} PickBit(dividend: Byte, i: nat)
    requires i < 8
    ensures And(dividend, OnlyBit(8, 7 - i)) != Zeros(8) <==> Reverse(dividend)[i]
    ensures Shr(OnlyBit(8, 7 - i), 1) == OnlyBit(8, 7 - (i + 1))
  {
    assert And(dividend, OnlyBit(8, 7 - i))[7 - i] == Reverse(dividend)[i];
    if !Reverse(dividend)[i] {
      assert And(dividend, OnlyBit(8, 7 - i)) == Zeros(8);
    }
  }

  /** The remainder loop of `init_table`: eight division steps fed from the dividend's top bit. */
  method DivideByte(dividend: Byte, bits: nat, poly: Word) returns (remainder: Word)
    requires 1 <= bits <= |poly|
    ensures |remainder| == |poly|
    ensures remainder[..bits] == Entry(poly[..bits], Reverse(dividend))
  {
    var width := |poly|;
    var hiBit := OnlyBit(width, bits - 1);
    ghost var p, input := poly[..bits], Reverse(dividend);
    remainder := Zeros(width);
    assert remainder[..bits] == Zeros(bits);
    var mask := OnlyBit(8, 7);
    ghost var i := 0;
    RunNothing(p, Zeros(bits), input);
    hide Xor, And, Shl, Shr, OnlyBit, Reverse, Step, Zeros, Run;
    while mask != Zeros(8)
      invariant 0 <= i <= 8 && mask == OnlyBit(8, 7 - i) && |remainder| == width
      invariant remainder[..bits] == Run(p, Zeros(bits), input[..i])
      decreases 8 - i
    {
      MaskNonZero(i);
      RunSnoc(p, Zeros(bits), input, i);
      PickBit(dividend, i);
      RegisterStep(remainder, bits, poly, input[i]);
      XorCancels(remainder);
      if And(dividend, mask) != Zeros(8) {
        remainder := Xor(remainder, hiBit);
      }
      if And(remainder, hiBit) != Zeros(width) {
        remainder := Shl(remainder, 1);
        remainder := Xor(remainder, poly);
      } else {
        remainder := Shl(remainder, 1);
      }
      mask := Shr(mask, 1);
      i := i + 1;
    }
    MaskNonZero(i);
    assert input[..8] == input;
  }

  ghost predicate Filled(table: seq<Word>, p: Word, reflect: bool, width: nat, dividend: nat)
    requires 0 < |p| <= width && |table| == 256
  {
    forall d :: 0 <= d < dividend ==>
      Value(IndexOf(d, reflect)) < 256 &&
      EntryHolds(table[Value(IndexOf(d, reflect))], p, IndexOf(d, reflect), reflect, width)
  }

  lemma {:induction false} FillOne(table: seq<Word>, p: Word, reflect: bool, width: nat, dividend: nat, entry: Word)
    requires 0 < |p| <= width && |table| == 256 && dividend < 256
    requires Filled(table, p, reflect, width, dividend)
    requires EntryHolds(entry, p, IndexOf(dividend, reflect), reflect, width)
    ensures Value(IndexOf(dividend, reflect)) < 256
    ensures Filled(table[Value(IndexOf(dividend, reflect)) := entry], p, reflect, width, dividend + 1)
  {
    ByteValueRange(IndexOf(dividend, reflect));
    hide EntryHolds, IndexOf, Value;
    forall d | 0 <= d < dividend
      ensures Value(IndexOf(d, reflect)) != Value(IndexOf(dividend, reflect))
    {
      if Value(IndexOf(d, reflect)) == Value(IndexOf(dividend, reflect)) {
        IndexDistinct(d, dividend, reflect);
      }
    }
  }

  lemma {:induction false} FilledHolds(table: seq<Word>, p: Word, reflect: bool, width: nat)
    requires 0 < |p| <= width && |table| == 256
    requires Filled(table, p, reflect, width, 256)
    ensures TableHolds(table, p, reflect, width)
  {
    forall index: Byte
      ensures Value(index) < 256 && EntryHolds(table[Value(index)], p, index, reflect, width)
    {
      IndexCovers(index, reflect);
      ByteValueRange(index);
    }
  }

  /** The index and the value that `init_table` stores for one dividend. */
  method TableEntry(dividend: nat, bits: nat, poly: Word, reflect: bool) returns (index: Byte, entry: Word)
    requires dividend < 256 && 1 <= bits <= |poly|
    ensures index == IndexOf(dividend, reflect) && Value(index) < 256
    ensures EntryHolds(entry, poly[..bits], index, reflect, |poly|)
  {
    var byte: Byte := FromNat(dividend, 8);
    var remainder := DivideByte(byte, bits, poly);
    index := MaybeReflect(byte, 8, reflect);
    assert byte[..8] == byte;
    ByteValueRange(index);
    entry := MaybeReflect(remainder, bits, reflect);
    ReverseTwice(byte);
  }

  /** `crc_table_t::init_table` on its first run. */
  method InitTable(table: array<Word>, bits: nat, poly: Word, reflect: bool)
    requires table.Length == 256 && 1 <= bits <= |poly|
    modifies table
    ensures TableHolds(table[..], poly[..bits], reflect, |poly|)
  {
    var dividend := 0;
    while true
      invariant 0 <= dividend < 256
      invariant Filled(table[..], poly[..bits], reflect, |poly|, dividend)
      decreases 256 - dividend
    {
      var index, entry := TableEntry(dividend, bits, poly, reflect);
      FillOne(table[..], poly[..bits], reflect, |poly|, dividend, entry);
      table[Value(index)] := entry;
      if dividend + 1 == 256 { break; }
      dividend := dividend + 1;
    }
    FilledHolds(table[..], poly[..bits], reflect, |poly|);
  }

  /** `remainder<Bits, (Bits > CHAR_BIT)>::align_msb` */
  function AlignMsb(rem: Word, bits: nat): (b: Byte) {
    if bits > 8 then Resize(Shr(rem, bits - 8), 8) else Resize(Shl(rem, 8 - bits), 8)
  }

  /** `crc_helper<Bits, DoReflect>::index` */
  function Index(rem: Word, bits: nat, x: Byte, reflect: bool): (b: Byte) {
    Xor(x, if reflect then Resize(rem, 8) else AlignMsb(rem, bits))
  }

  lemma {:induction false} IndexMixes(rem: Word, bits: nat, x: Byte, reflect: bool)
    requires 1 <= bits <= |rem| && 8 <= |rem|
    requires reflect ==> rem == Resize(rem[..bits], |rem|)
    ensures var r := if reflect then Reverse(rem[..bits]) else rem[..bits];
            ByteBits(Index(rem, bits, x, reflect), reflect) == Xor(ByteBits(x, reflect), Top(r, 8))
  {
    if reflect {
      LowIsTop(rem, bits);
    } else {
      MsbIsTop(rem, bits);
      ReverseXor(x, AlignMsb(rem, bits));
    }
    hide Xor, Resize, Reverse, Top, AlignMsb;
  }

  /** The low byte of a reflected register holds the top bits, even if the register is wider. */
  lemma {:induction false} LowIsTop(rem: Word, bits: nat)
    requires 1 <= bits <= |rem| && 8 <= |rem| && rem == Resize(rem[..bits], |rem|)
    ensures Resize(rem, 8) == Top(Reverse(rem[..bits]), 8)
  {
    forall i | 0 <= i < 8
      ensures Resize(rem, 8)[i] == Top(Reverse(rem[..bits]), 8)[i]
    {
      assert Resize(rem, 8)[i] == rem[i] == Resize(rem[..bits], |rem|)[i];
    }
  }

  lemma {:induction false} MsbIsTop(rem: Word, bits: nat)
    requires 1 <= bits <= |rem| && 8 <= |rem|
    ensures Reverse(AlignMsb(rem, bits)) == Top(rem[..bits], 8)
  {
    forall i | 0 <= i < 8
      ensures Reverse(AlignMsb(rem, bits))[i] == Top(rem[..bits], 8)[i]
    {
      assert AlignMsb(rem, bits)[7 - i] == (0 <= bits - 1 - i && rem[bits - 1 - i]);
    }
  }

  lemma {:induction false} ReverseXor(a: Word, b: Word)
    requires |a| == |b|
    ensures Reverse(Xor(a, b)) == Xor(Reverse(a), Reverse(b))
  {
  }

  /** Shifting the stored remainder and folding in a table entry, for either storage order. */
  lemma {:induction false} FoldEntry(rem: Word, bits: nat, r: Word, e: Word, entry: Word, reflect: bool)
    requires 1 <= bits <= |rem| == |entry| && |r| == |e| == bits
    requires if reflect then rem == Resize(Reverse(r), |rem|) && entry == Resize(Reverse(e), |rem|)
             else rem[..bits] == r && entry[..bits] == e
    ensures var after := Xor(if reflect then Shr(rem, 8) else Shl(rem, 8), entry);
            var folded := Xor(Shl(r, 8), e);
            if reflect then after == Resize(Reverse(folded), |rem|) else after[..bits] == folded
  {
  }

  lemma {:induction false} StoredReversed(rem: Word, bits: nat, r: Word)
    requires bits <= |rem| && |r| == bits
    ensures rem == Resize(Reverse(r), |rem|) <==> rem == Resize(rem[..bits], |rem|) && Reverse(rem[..bits]) == r
  {
    if rem == Resize(Reverse(r), |rem|) {
      assert rem[..bits] == Reverse(r);
    }
  }

  /** `crc_optimal<Bits, TruncPoly, InitRem, FinalXor, ReflectIn, ReflectRem>` */
  class CrcOptimal {
    const bits: nat
    const width: nat
    const poly: Word
    const init: Word
    const final: Word
    const rftIn: bool
    const rftOut: bool
    const table: array<Word>
    var rem: Word

    ghost predicate Valid()
      reads this, table
    {
      1 <= bits <= width && 8 <= width &&
      |rem| == |poly| == |init| == |final| == width &&
      (rftIn ==> rem == Resize(rem[..bits], width)) &&
      TableHolds(table[..], poly[..bits], rftIn, width)
    }

    ghost function Interim(): (r: Word)
      requires Valid()
      reads this, table
      ensures |r| == bits
    {
      if rftIn then Reverse(rem[..bits]) else rem[..bits]
    }

    ghost function Config(): (c: Params)
      requires Valid()
      reads this, table
      ensures c.Valid() && |c.poly| == bits
    {
      Params(poly[..bits], init[..bits], final[..bits], rftIn, rftOut)
    }

    /** `initRem` is where the remainder starts; by default the source takes the configured `init`. */
    constructor (bits: nat, poly: Word, init: Word, final: Word, rftIn: bool, rftOut: bool, initRem: Word)
      requires 1 <= bits <= |poly| && 8 <= |poly| == |init| == |final| == |initRem|
      ensures Valid() && fresh(table) && this.bits == bits && width == |poly|
      ensures this.poly == poly && this.init == init && this.final == final
      ensures this.rftIn == rftIn && this.rftOut == rftOut
      ensures Interim() == initRem[..bits]
    {
      this.bits, this.width, this.poly, this.init, this.final := bits, |poly|, poly, init, final;
      this.rftIn, this.rftOut := rftIn, rftOut;
      table := new Word[256];
      rem := initRem;
      new;
      rem := MaybeReflect(initRem, bits, rftIn);
      InitTable(table, bits, poly, rftIn);
      ReverseTwice(initRem[..bits]);
      assert rftIn ==> rem[..bits] == Reverse(initRem[..bits]);
    }

    method Reset(newRem: Word)
      requires Valid() && |newRem| == width
      modifies this
      ensures Valid() && Interim() == newRem[..bits]
    {
      rem := MaybeReflect(newRem, bits, rftIn);
      ReverseTwice(newRem[..bits]);
      assert rftIn ==> rem[..bits] == Reverse(newRem[..bits]);
    }

    method GetInterimRemainder() returns (r: Word)
      requires Valid()
      ensures r == Resize(Interim(), width)
    {
      r := MaybeReflect(rem, bits, rftIn);
      r := And(r, seq(width, i => i < bits));
    }

    /** One iteration of `process_block`: the table entry replaces eight division steps. */
    method ProcessByte(byte: Byte)
      requires Valid()
      modifies this
      ensures Valid() && Interim() == Run(poly[..bits], old(Interim()), ByteBits(byte, rftIn))
    {
      ghost var p, was, r := poly[..bits], rem, Interim();
      var byteIndex := Index(rem, bits, byte, rftIn);
      IndexMixes(rem, bits, byte, rftIn);
      Absorb(p, r, ByteBits(byte, rftIn));
      var entry := table[Value(byteIndex)];
      assert EntryHolds(entry, p, byteIndex, rftIn, width);
      StoredReversed(rem, bits, r);
      FoldEntry(rem, bits, r, Entry(p, ByteBits(byteIndex, rftIn)), entry, rftIn);
      rem := if rftIn then Shr(rem, 8) else Shl(rem, 8);
      rem := Xor(rem, entry);
      StoredReversed(rem, bits, Run(p, r, ByteBits(byte, rftIn)));
    }

    method ProcessBlock(bytes: seq<Byte>)
      requires Valid()
      modifies this
      ensures Valid() && Interim() == Run(poly[..bits], old(Interim()), MessageBits(bytes, rftIn))
    {
      for p := 0 to |bytes|
        invariant Valid()
        invariant Interim() == Run(poly[..bits], old(Interim()), MessageBits(bytes[..p], rftIn))
      {
        ProcessByte(bytes[p]);
        RunNextByte(poly[..bits], old(Interim()), bytes, p, rftIn);
      }
      assert bytes[..|bytes|] == bytes;
    }

    /** The stored remainder as bytes, for widths of whole bytes. */
    method StoredBytes() returns (bytes: seq<Byte>)
      requires Valid() && bits % 8 == 0
      ensures bytes == RemainderBytes(Stored(Interim(), rftIn), rftIn)
    {
      ReverseTwice(rem[..bits]);
      bytes := RemainderBytes(rem[..bits], rftIn);
    }

    method Checksum() returns (r: Word)
      requires Valid()
      ensures r == Resize(Output(Config(), Interim()), width)
    {
      hide TableHolds;
      var out := MaybeReflect(rem, bits, rftOut != rftIn);
      ReverseTwice(rem[..bits]);
      r := And(Xor(out, final), seq(width, i => i < bits));
    }
  }

  /** `crc<Bits, ...>`: the one-shot function. */
  method Crc(bits: nat, poly: Word, init: Word, final: Word, rftIn: bool, rftOut: bool, bytes: seq<Byte>)
    returns (r: Word)
    requires 1 <= bits <= |poly| && 8 <= |poly| == |init| == |final|
    ensures var c := Params(poly[..bits], init[..bits], final[..bits], rftIn, rftOut);
            r == Resize(CrcSpec.Checksum(c, bytes), |poly|)
  {
    var computer := new CrcOptimal(bits, poly, init, final, rftIn, rftOut, init);
    computer.ProcessBlock(bytes);
    r := computer.Checksum();
  }

  /** Both engines on the same message.  Their registers may have different widths (`least` against
      `fast`) and the parameters different bits above `bits`; remainder and checksum still agree. */
  method BothEngines(bits: nat, poly: Word, init: Word, final: Word, polyFast: Word, initFast: Word, finalFast: Word,
                     rftIn: bool, rftOut: bool, bytes: seq<Byte>)
    returns (interim: Word, interimFast: Word, sum: Word, sumFast: Word)
    requires 1 <= bits <= |poly| && 8 <= |poly| == |init| == |final|
    requires bits <= |polyFast| && 8 <= |polyFast| == |initFast| == |finalFast|
    requires poly[..bits] == polyFast[..bits] && init[..bits] == initFast[..bits] && final[..bits] == finalFast[..bits]
    ensures |interim| == |sum| == |poly| && |interimFast| == |sumFast| == |polyFast|
    ensures interim[..bits] == interimFast[..bits] && sum[..bits] == sumFast[..bits]
    ensures forall i :: bits <= i < |poly| ==> !interim[i] && !sum[i]
    ensures forall i :: bits <= i < |polyFast| ==> !interimFast[i] && !sumFast[i]
  {
    ghost var c := Params(poly[..bits], init[..bits], final[..bits], rftIn, rftOut);
    interim, sum := BasicRun(bits, poly, init, final, rftIn, rftOut, bytes);
    interimFast, sumFast := OptimalRun(bits, polyFast, initFast, finalFast, rftIn, rftOut, bytes);
    hide Remainder, Output, Resize;
    ResizedLow(Remainder(c, bytes), |poly|);
    ResizedLow(Remainder(c, bytes), |polyFast|);
    ResizedLow(Output(c, Remainder(c, bytes)), |poly|);
    ResizedLow(Output(c, Remainder(c, bytes)), |polyFast|);
  }

  lemma {:induction false} ResizedLow(w: Word, width: nat)
    requires |w| <= width
    ensures Resize(w, width)[..|w|] == w && forall i :: |w| <= i < width ==> !Resize(w, width)[i]
  {
  }

  method BasicRun(bits: nat, poly: Word, init: Word, final: Word, rftIn: bool, rftOut: bool, bytes: seq<Byte>)
    returns (interim: Word, sum: Word)
    requires 1 <= bits <= |poly| && 8 <= |poly| == |init| == |final|
    ensures var c := Params(poly[..bits], init[..bits], final[..bits], rftIn, rftOut);
            interim == Resize(Remainder(c, bytes), |poly|) && sum == Resize(Output(c, Remainder(c, bytes)), |poly|)
  {
    var basic := new CrcBasic(bits, poly, init, final, rftIn, rftOut);
    hide Run, MessageBits, Output, Resize;
    basic.ProcessBlock(bytes);
    interim := basic.GetInterimRemainder();
    sum := basic.Checksum();
  }

  method OptimalRun(bits: nat, poly: Word, init: Word, final: Word, rftIn: bool, rftOut: bool, bytes: seq<Byte>)
    returns (interim: Word, sum: Word)
    requires 1 <= bits <= |poly| && 8 <= |poly| == |init| == |final|
    ensures var c := Params(poly[..bits], init[..bits], final[..bits], rftIn, rftOut);
            interim == Resize(Remainder(c, bytes), |poly|) && sum == Resize(Output(c, Remainder(c, bytes)), |poly|)
  {
    hide Run, MessageBits, Output, Resize, TableHolds, Reverse;
    var optimal := new CrcOptimal(bits, poly, init, final, rftIn, rftOut, init);
    optimal.ProcessBlock(bytes);
    interim := optimal.GetInterimRemainder();
    sum := optimal.Checksum();
  }

  /** The table-driven engine fed a message and then its own stored remainder: highest byte first, or
      lowest byte first in reflected storage. */
  method OwnRemainderVanishes(bits: nat, poly: Word, init: Word, rftIn: bool, bytes: seq<Byte>) returns (check: Word)
    requires 8 <= bits <= |poly| == |init| && bits % 8 == 0
    ensures check == Zeros(|poly|)
  {
    var computer := new CrcOptimal(bits, poly, init, Zeros(|poly|), rftIn, rftIn, init);
    computer.ProcessBlock(bytes);
    hide Run, RemainderBytes, MessageBits, TableHolds, Resize, Zeros, Reverse;
    var own := computer.StoredBytes();
    OwnBytesVanish(poly[..bits], computer.Interim(), rftIn);
    computer.ProcessBlock(own);
    check := computer.GetInterimRemainder();
    ZerosResized(bits, |poly|);
  }

  lemma {:induction false} ZerosResized(bits: nat, width: nat)
    ensures Resize(Zeros(bits), width) == Zeros(width)
  {
  }

  // ----- The augmented-message function -----

  /** Eight augmenting steps at once. */
  lemma {:induction false} AugByte(p: Word, r: Word, b: Byte)
    requires |p| == |r| >= 8
    ensures AugRun(p, r, Reverse(b)) == Xor(Or(Shl(r, 8), Resize(b, |r|)), Entry(p, Top(r, 8)))
  {
    var n := |r|;
    AugRunSplits(p, r, Reverse(b));
    Absorb(p, r, Zeros(8));
    assert Xor(Zeros(8), Top(r, 8)) == Top(r, 8);
    assert AtBottom(Reverse(b), n) == Resize(b, n) by { ReverseTwice(b); }
    AugMix(Shl(r, 8), Resize(b, n), Entry(p, Top(r, 8)));
  }

  lemma {:induction false} AugMix(shifted: Word, low: Word, e: Word)
    requires |shifted| == |low| == |e|
    requires forall i :: 0 <= i < |low| ==> !(shifted[i] && low[i])
    ensures Xor(Xor(shifted, e), low) == Xor(Or(shifted, low), e)
  {
  }

  lemma {:induction false} AugFold(rem: Word, bits: nat, p: Word, b: Byte, entry: Word)
    requires 8 <= bits <= |rem| == |entry| && |p| == bits
    requires entry[..bits] == Entry(p, Reverse(Resize(Shr(rem, bits - 8), 8)))
    ensures Xor(Or(Shl(rem, 8), Resize(b, |rem|)), entry)[..bits] == AugRun(p, rem[..bits], Reverse(b))
  {
    var was := rem[..bits];
    AugByte(p, was, b);
    assert Reverse(Resize(Shr(rem, bits - 8), 8)) == Top(was, 8);
    assert Or(Shl(rem, 8), Resize(b, |rem|))[..bits] == Or(Shl(was, 8), Resize(b, bits));
  }

  lemma {:induction false} AugNextByte(p: Word, r: Word, bytes: seq<Byte>, k: nat)
    requires |p| == |r| > 0 && k < |bytes|
    ensures AugRun(p, AugRun(p, r, MessageBits(bytes[..k], false)), Reverse(bytes[k]))
         == AugRun(p, r, MessageBits(bytes[..k + 1], false))
  {
    AugRunConcat(p, r, MessageBits(bytes[..k], false), Reverse(bytes[k]));
    MessageBitsAppend(bytes[..k], bytes[k], false);
    assert bytes[..k + 1] == bytes[..k] + [bytes[k]];
  }

  /** `augmented_crc` with an explicit initial remainder.  The shift by `Bits - CHAR_BIT` demands at
      least eight bits. */
  method AugmentedCrc(bits: nat, poly: Word, initialRemainder: Word, bytes: seq<Byte>) returns (r: Word)
    requires 8 <= bits <= |poly| == |initialRemainder|
    ensures r == Resize(AugRun(poly[..bits], initialRemainder[..bits], MessageBits(bytes, false)), |poly|)
  {
    var width := |poly|;
    ghost var p, init := poly[..bits], initialRemainder[..bits];
    var rem := initialRemainder;
    var table := new Word[256];
    InitTable(table, bits, poly, false);
    for k := 0 to |bytes|
      invariant |rem| == width && TableHolds(table[..], p, false, width)
      invariant rem[..bits] == AugRun(p, init, MessageBits(bytes[..k], false))
    {
      var byteIndex: Byte := Resize(Shr(rem, bits - 8), 8);
      var entry := table[Value(byteIndex)];
      assert EntryHolds(entry, p, byteIndex, false, width);
      AugFold(rem, bits, p, bytes[k], entry);
      AugNextByte(p, init, bytes, k);
      rem := Shl(rem, 8);
      rem := Or(rem, Resize(bytes[k], width));
      rem := Xor(rem, entry);
    }
    assert bytes[..|bytes|] == bytes;
    r := And(rem, seq(width, i => i < bits));
  }

  /** The zero-initialised, unreflected CRC that `augmented_crc` computes in its own way. */
  function PlainParams(p: Word): (c: Params)
    requires |p| > 0
    ensures c.Valid()
  {
    Params(p, Zeros(|p|), Zeros(|p|), false, false)
  }

  lemma {:induction false} ZeroBytesAreZeros(k: nat)
    ensures MessageBits(seq(k, _ => Zeros(8)), false) == Zeros(8 * k)
  {
    if k > 0 {
      var bytes: seq<Byte> := seq(k, _ => Zeros(8));
      var fewer: seq<Byte> := seq(k - 1, _ => Zeros(8));
      ZeroBytesAreZeros(k - 1);
      assert bytes == fewer + [Zeros(8)];
      MessageBitsAppend(fewer, Zeros(8), false);
      assert Reverse(Zeros(8)) == Zeros(8);
      assert Zeros(8 * (k - 1)) + Zeros(8) == Zeros(8 * k);
    }
  }

  /** Zero bytes appended give the plain CRC, the plain CRC appended gives zero. */
  method AugmentedAgrees(bits: nat, poly: Word, bytes: seq<Byte>) returns (plain: Word, augmented: Word, check: Word)
    requires 8 <= bits <= |poly| && bits % 8 == 0
    ensures plain == Resize(CrcSpec.Checksum(PlainParams(poly[..bits]), bytes), |poly|)
    ensures augmented == plain && check == Zeros(|poly|)
  {
    var width, zero := |poly|, Zeros(|poly|);
    ghost var p := poly[..bits];
    ZerosLow(bits, width);
    plain := Crc(bits, poly, zero, zero, false, false, bytes);
    ghost var r := Remainder(PlainParams(p), bytes);
    PlainOutput(p, bytes);
    ResizedLow(r, width);
    hide Zeros, Resize, MessageBits, Run, AugRun, Top, RemainderBytes, Output;
    var padding: seq<Byte> := seq(bits / 8, _ => Zeros(8));
    augmented := AugmentedCrc(bits, poly, zero, bytes + padding);
    MessageBitsConcat(bytes, padding, false);
    ZeroBytesAreZeros(bits / 8);
    AugmentedIsPlain(p, MessageBits(bytes, false));
    var own := RemainderBytes(plain[..bits], false);
    check := AugmentedCrc(bits, poly, zero, bytes + own);
    MessageBitsConcat(bytes, own, false);
    RemainderBytesAreTop(r, false);
    AugmentedOwnCrcVanishes(p, MessageBits(bytes, false));
    ZerosResized(bits, width);
  }

  lemma {:induction false} ZerosLow(bits: nat, width: nat)
    requires bits <= width
    ensures Zeros(width)[..bits] == Zeros(bits)
  {
  }

  lemma {:induction false} PlainOutput(p: Word, bytes: seq<Byte>)
    requires |p| > 0
    ensures CrcSpec.Checksum(PlainParams(p), bytes) == Remainder(PlainParams(p), bytes) == Run(p, Zeros(|p|), MessageBits(bytes, false))
  {
    XorCancels(Remainder(PlainParams(p), bytes));
  }
}
