/** What the engines compute, said without their steps: the remainder of polynomial division over GF(2),
    and how the output options change it. */
module CrcDivision {
  import opened Words
  import opened CrcSpec
  import opened CrcEngines

  /** The divisor: the truncated polynomial with its leading coefficient, highest first. */
  function Divisor(p: Word): (d: seq<bool>)
    ensures |d| == |p| + 1
  {
    [true] + Top(p, |p|)
  }

  /** The product of a polynomial, highest coefficient first, and the divisor. */
  function Times(q: seq<bool>, p: Word): (t: seq<bool>)
    ensures |t| == |q| + |p|
  {
    if q == [] then Zeros(|p|)
    else
      var k := |q| - 1;
      var t := Times(q[..k], p) + [false];
      if q[k] then Xor(t, Zeros(k) + Divisor(p)) else t
  }

  /** Which steps subtract the divisor. */
  function Quotient(p: Word, bits: seq<bool>): (q: seq<bool>)
    requires |p| > 0
    ensures |q| == |bits|
  {
    if bits == [] then []
    else
      var k := |bits| - 1;
      Quotient(p, bits[..k]) + [Run(p, Zeros(|p|), bits[..k])[|p| - 1] != bits[k]]
  }

  /** A message, moved up by the width of the remainder, plus that remainder. */
  function Moved(bits: seq<bool>, r: Word): (m: seq<bool>)
    ensures |m| == |bits| + |r|
  {
    bits + Top(r, |r|)
  }

  lemma {:induction false} TimesAt(q: seq<bool>, p: Word, j: nat)
    requires q != [] && j < |q| + |p|
    ensures var k := |q| - 1;
            Times(q, p)[j] == ((j < k + |p| && Times(q[..k], p)[j]) != (q[k] && j >= k && Divisor(p)[j - k]))
  {
    hide Divisor;
  }

  lemma {:induction false} MovedStep(p: Word, r: Word, bits: seq<bool>, b: bool, j: nat)
    requires |p| == |r| > 0 && j < |bits| + 1 + |p|
    ensures var k, n := |bits|, |p|;
            var c := r[n - 1] != b;
            Moved(bits + [b], Step(p, r, b))[j] ==
            ((j < k + n && Moved(bits, r)[j]) != (c && j >= k && Divisor(p)[j - k]))
  {
    var k, n := |bits|, |p|;
    MovedAt(bits + [b], Step(p, r, b), j);
    if j < k + n {
      MovedAt(bits, r, j);
    }
    if j > k {
      StepAt(p, r, b, n - (j - k));
      assert Divisor(p)[j - k] == p[n - (j - k)];
    }
    hide Moved, Step;
  }

  lemma {:induction false} MovedAt(bits: seq<bool>, r: Word, j: nat)
    requires j < |bits| + |r|
    ensures Moved(bits, r)[j] == if j < |bits| then bits[j] else r[|r| - 1 - (j - |bits|)]
  {
  }

  lemma {:induction false} StepAt(p: Word, r: Word, b: bool, i: nat)
    requires |p| == |r| > i
    ensures Step(p, r, b)[i] == ((i > 0 && r[i - 1]) != (r[|r| - 1] != b && p[i]))
  {
  }

  /** Quotient times divisor plus remainder is the message. */
  lemma {:induction false} DivisionHolds(p: Word, bits: seq<bool>)
    requires |p| > 0
    ensures Times(Quotient(p, bits), p) == Moved(bits, Run(p, Zeros(|p|), bits))
    decreases |bits|
  {
    var q, n := Quotient(p, bits), |p|;
    if bits == [] {
      assert Moved(bits, Zeros(n)) == Zeros(n);
    } else {
      var k := |bits| - 1;
      var init, r := bits[..k], Run(p, Zeros(n), bits[..k]);
      DivisionHolds(p, init);
      RunLast(p, Zeros(n), bits);
      assert q[..k] == Quotient(p, init) && q[k] == (r[n - 1] != bits[k]);
      hide *;
      CutOnce(bits, k);
      assert bits[k..] == [bits[k]];
      OneMoreBit(p, q, init, bits[k], r);
    }
  }

  lemma {:induction false} OneMoreBit(p: Word, q: seq<bool>, init: seq<bool>, b: bool, r: Word)
    requires |p| == |r| > 0 && |q| == |init| + 1
    requires Times(q[..|init|], p) == Moved(init, r) && q[|init|] == (r[|p| - 1] != b)
    ensures Times(q, p) == Moved(init + [b], Step(p, r, b))
  {
    hide *;
    forall j | 0 <= j < |q| + |p|
      ensures Times(q, p)[j] == Moved(init + [b], Step(p, r, b))[j]
    {
      TimesAt(q, p, j);
      MovedStep(p, r, init, b, j);
    }
  }

  /** The leading coefficients of a product give away the factor. */
  lemma {:induction false} FactorUnique(q: seq<bool>, s: seq<bool>, p: Word)
    requires |q| == |s| && |p| > 0
    requires forall j :: 0 <= j < |q| ==> Times(q, p)[j] == Times(s, p)[j]
    ensures q == s
    decreases |q|
  {
    if q != [] {
      var k := |q| - 1;
      hide Times;
      forall j | 0 <= j < k
        ensures Times(q[..k], p)[j] == Times(s[..k], p)[j]
      {
        TimesAt(q, p, j);
        TimesAt(s, p, j);
      }
      FactorUnique(q[..k], s[..k], p);
      TimesAt(q, p, k);
      TimesAt(s, p, k);
      assert q[..k] + [q[k]] == q && s[..k] + [s[k]] == s;
    }
  }

  /** The zero-initialised remainder is the remainder of dividing the message, moved up by its width, by
      the polynomial: it and the quotient are the only pair that makes the division come out. */
  lemma {:induction false} RemainderIff(p: Word, bits: seq<bool>, q: seq<bool>, r: Word)
    requires |p| == |r| > 0 && |q| == |bits|
    ensures Times(q, p) == Moved(bits, r) <==> q == Quotient(p, bits) && r == Run(p, Zeros(|p|), bits)
  {
    var s := Run(p, Zeros(|p|), bits);
    DivisionHolds(p, bits);
    if Times(q, p) == Moved(bits, r) {
      forall j | 0 <= j < |q|
        ensures Times(q, p)[j] == Times(Quotient(p, bits), p)[j]
      {
        assert Moved(bits, r)[j] == bits[j] == Moved(bits, s)[j];
      }
      FactorUnique(q, Quotient(p, bits), p);
      SameRemainder(bits, r, s);
    }
  }

  lemma {:induction false} SameRemainder(bits: seq<bool>, r: Word, s: Word)
    requires |r| == |s| && Moved(bits, r) == Moved(bits, s)
    ensures r == s
  {
    forall i | 0 <= i < |r|
      ensures r[i] == s[i]
    {
      var j := |bits| + (|r| - 1 - i);
      assert Moved(bits, r)[j] == r[i] && Moved(bits, s)[j] == s[i];
    }
  }

  // ----- Order of the bits, and the output options -----

  /** Bytes are divided in order, each from its highest bit, or from its lowest when input is reflected. */
  lemma {:induction false} MessageBitAt(msg: seq<Byte>, k: nat, i: nat)
    requires k < |msg| && i < 8
    ensures MessageBits(msg, false)[8 * k + i] == msg[k][7 - i]
    ensures MessageBits(msg, true)[8 * k + i] == msg[k][i]
    decreases |msg|
  {
    var last := |msg| - 1;
    if k < last {
      MessageBitAt(msg[..last], k, i);
    }
  }

  lemma {:induction false} PlainOutputBits(p: Word, init: Word, rftIn: bool, bytes: seq<Byte>)
    requires |p| == |init| > 0
    ensures Checksum(Params(p, init, Zeros(|p|), rftIn, false), bytes) == Run(p, init, MessageBits(bytes, rftIn))
  {
    XorCancels(Run(p, init, MessageBits(bytes, rftIn)));
  }

  lemma {:induction false} OutputBits(c: Params, bytes: seq<Byte>, i: nat)
    requires c.Valid() && i < |c.poly|
    ensures var r := Run(c.poly, c.init, MessageBits(bytes, c.reflectIn));
            var n := |c.poly|;
            Checksum(c, bytes)[i] == ((if c.reflectOut then r[n - 1 - i] else r[i]) != c.finalXor[i])
  {
    hide Run, MessageBits;
  }

  /** The options of `crc` bit by bit: without them the checksum is the remainder; reflecting the output
      turns it end for end; and the final xor flips exactly the bits it has set. */
  method OutputOptions(bits: nat, poly: Word, init: Word, final: Word, rftIn: bool, rftOut: bool, bytes: seq<Byte>)
    returns (plain: Word, reflected: Word, flipped: Word)
    requires 1 <= bits <= |poly| && 8 <= |poly| == |init| == |final|
    ensures |plain| == |reflected| == |flipped| == |poly|
    ensures plain[..bits] == Run(poly[..bits], init[..bits], MessageBits(bytes, rftIn))
    ensures forall i :: 0 <= i < bits ==> reflected[i] == plain[bits - 1 - i]
    ensures forall i :: 0 <= i < bits ==> flipped[i] == ((if rftOut then reflected[i] else plain[i]) != final[i])
  {
    var zero := Zeros(|poly|);
    plain := Crc(bits, poly, init, zero, rftIn, false, bytes);
    reflected := Crc(bits, poly, init, zero, rftIn, true, bytes);
    flipped := Crc(bits, poly, init, final, rftIn, rftOut, bytes);
    ZerosLow(bits, |poly|);
    ghost var p, r := poly[..bits], init[..bits];
    ghost var c0, c1 := Params(p, r, Zeros(bits), rftIn, false), Params(p, r, Zeros(bits), rftIn, true);
    ghost var c2 := Params(p, r, final[..bits], rftIn, rftOut);
    PlainOutputBits(p, r, rftIn, bytes);
    ResizedLow(Checksum(c0, bytes), |poly|);
    ResizedLow(Checksum(c1, bytes), |poly|);
    ResizedLow(Checksum(c2, bytes), |poly|);
    assert forall i :: 0 <= i < bits ==> !Zeros(bits)[i];
    hide Run, MessageBits, Resize, Zeros, Checksum;
    forall i | 0 <= i < bits
      ensures reflected[i] == plain[bits - 1 - i]
      ensures flipped[i] == ((if rftOut then reflected[i] else plain[i]) != final[i])
    {
      OutputBits(c0, bytes, i);
      OutputBits(c0, bytes, bits - 1 - i);
      OutputBits(c1, bytes, i);
      OutputBits(c2, bytes, i);
      assert reflected[i] == reflected[..bits][i] && plain[i] == plain[..bits][i] && flipped[i] == flipped[..bits][i];
      assert plain[bits - 1 - i] == plain[..bits][bits - 1 - i] && final[i] == final[..bits][i];
    }
  }
}
