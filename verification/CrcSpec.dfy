/** Polynomial division over GF(2) on an n-bit remainder, independent of how the engines of
    crc.hpp store it, and the theorems the CRC algorithms rest on. */
module CrcSpec {
  import opened Words

  /** One division step: the input bit meets the top remainder bit, which is then shifted out. */
  function Step(p: Word, r: Word, b: bool): (s: Word)
    requires |p| == |r| > 0
    ensures |s| == |r|
  {
    if r[|r| - 1] != b then Xor(Shl(r, 1), p) else Shl(r, 1)
  }

  /** Division of a whole bit string, first bit first. */
  function Run(p: Word, r: Word, bits: seq<bool>): (s: Word)
    requires |p| == |r| > 0
    ensures |s| == |r|
  {
    if bits == [] then r
    else Step(p, Run(p, r, bits[..|bits| - 1]), bits[|bits| - 1])
  }

  /** The `k` highest remainder bits, highest first, padded with zeros past the remainder's end. */
  function Top(r: Word, k: nat): (t: seq<bool>)
    ensures |t| == k
  {
    seq(k, i requires 0 <= i < k => i < |r| && r[|r| - 1 - i])
  }

  /** The remainder whose top `|z|` bits are `z`, highest first, and whose other bits are zero. */
  function AtTop(z: seq<bool>, n: nat): (w: Word)
    ensures |w| == n
  {
    seq(n, i => 0 <= n - 1 - i < |z| && z[n - 1 - i])
  }

  // ----- Shifting bits out against feeding them in -----

  lemma {:induction false} StepShiftsOut(p: Word, x: Word, y: Word, b: bool)
    requires |p| == |x| == |y| > 0
    ensures Step(p, Xor(x, y), b) == Xor(Shl(x, 1), Step(p, y, b != x[|x| - 1]))
  {
    assert Shl(Xor(x, y), 1) == Xor(Shl(x, 1), Shl(y, 1));
  }

  /** The remainder's own top bits act exactly like input bits: this is what lets a byte-wide
      engine look up one table entry instead of dividing eight times. */
  lemma {:induction false} Absorb(p: Word, r: Word, bits: seq<bool>)
    requires |p| == |r| > 0
    ensures Run(p, r, bits)
         == Xor(Shl(r, |bits|), Run(p, Zeros(|r|), Xor(bits, Top(r, |bits|))))
    decreases |bits|
  {
    var n, k := |r|, |bits|;
    hide *;
    if k == 0 {
      AbsorbNothing(p, r, bits);
    } else {
      var init, b := bits[..k - 1], bits[k - 1];
      RunLast(p, r, bits);
      RunLast(p, Zeros(n), Xor(bits, Top(r, k)));
      Absorb(p, r, init);
      MixedBits(r, bits);
      ShlOnce(r, k - 1);
      StepShiftsOut(p, Shl(r, k - 1), Run(p, Zeros(n), Xor(init, Top(r, k - 1))), b);
    }
  }

  lemma {:induction false} AbsorbNothing(p: Word, r: Word, bits: seq<bool>)
    requires |p| == |r| > 0 && bits == []
    ensures Run(p, r, bits) == Xor(Shl(r, |bits|), Run(p, Zeros(|r|), Xor(bits, Top(r, |bits|))))
  {
    assert Xor(bits, Top(r, 0)) == [];
    assert Xor(Shl(r, 0), Zeros(|r|)) == r;
  }

  lemma {:induction false} RunLast(p: Word, r: Word, bits: seq<bool>)
    requires |p| == |r| > 0 && bits != []
    ensures Run(p, r, bits) == Step(p, Run(p, r, bits[..|bits| - 1]), bits[|bits| - 1])
  {
  }

  lemma {:induction false} MixedBits(r: Word, bits: seq<bool>)
    requires |r| > 0 && |bits| > 0
    ensures var k, mixed := |bits| - 1, Xor(bits, Top(r, |bits|));
            mixed[..k] == Xor(bits[..k], Top(r, k)) && mixed[k] == (bits[k] != Shl(r, k)[|r| - 1])
  {
  }

  lemma {:induction false} ShlOnce(r: Word, k: nat)
    ensures Shl(Shl(r, k), 1) == Shl(r, k + 1)
  {
  }

  lemma {:induction false} RunSnoc(p: Word, r: Word, bits: seq<bool>, k: nat)
    requires |p| == |r| > 0 && k < |bits|
    ensures Run(p, r, bits[..k + 1]) == Step(p, Run(p, r, bits[..k]), bits[k])
  {
    assert bits[..k + 1][..k] == bits[..k];
  }

  lemma {:induction false} RunConcat(p: Word, r: Word, a: seq<bool>, b: seq<bool>)
    requires |p| == |r| > 0
    ensures Run(p, r, a + b) == Run(p, Run(p, r, a), b)
    decreases |b|
  {
    if b == [] {
      assert a + b == a;
    } else {
      var k := |b| - 1;
      assert (a + b)[..|a + b| - 1] == a + b[..k];
      RunConcat(p, r, a, b[..k]);
    }
  }

  lemma {:induction false} StepLinear(p: Word, x: Word, y: Word, b: bool, c: bool)
    requires |p| == |x| == |y| > 0
    ensures Step(p, Xor(x, y), b != c) == Xor(Step(p, x, b), Step(p, y, c))
  {
    assert Shl(Xor(x, y), 1) == Xor(Shl(x, 1), Shl(y, 1));
  }

  lemma {:induction false} RunLinear(p: Word, x: Word, y: Word, a: seq<bool>, b: seq<bool>)
    requires |p| == |x| == |y| > 0 && |a| == |b|
    ensures Run(p, Xor(x, y), Xor(a, b)) == Xor(Run(p, x, a), Run(p, y, b))
    decreases |a|
  {
    if a != [] {
      var k := |a| - 1;
      RunLinear(p, x, y, a[..k], b[..k]);
      assert Xor(a, b)[..k] == Xor(a[..k], b[..k]);
      StepLinear(p, Run(p, x, a[..k]), Run(p, y, b[..k]), a[k], b[k]);
    }
  }

  lemma {:induction false} RunZeros(p: Word, k: nat)
    requires |p| > 0
    ensures Run(p, Zeros(|p|), Zeros(k)) == Zeros(|p|)
  {
    if k > 0 {
      RunZeros(p, k - 1);
      assert Zeros(k)[..k - 1] == Zeros(k - 1);
      assert Shl(Zeros(|p|), 1) == Zeros(|p|);
    }
  }

  lemma {:induction false} XorCancels(a: Word)
    ensures Xor(a, a) == Zeros(|a|)
    ensures Xor(a, Zeros(|a|)) == a && Xor(Zeros(|a|), a) == a
  {
  }

  /** Feeding a remainder its own top bits only shifts it. */
  lemma {:induction false} OwnTopOnlyShifts(p: Word, r: Word, k: nat)
    requires |p| == |r| > 0
    ensures Run(p, r, Top(r, k)) == Shl(r, k)
  {
    hide Run, Shl, Zeros, Top, Xor;
    Absorb(p, r, Top(r, k));
    XorCancels(Top(r, k));
    RunZeros(p, k);
    XorCancels(Shl(r, k));
  }

  // ----- Burst errors -----

  lemma {:induction false} RunInjective(p: Word, r: Word, s: Word, bits: seq<bool>)
    requires |p| == |r| == |s| > 0 && p[0]
    requires Run(p, r, bits) == Run(p, s, bits)
    ensures r == s
    decreases |bits|
  {
    if bits != [] {
      var k := |bits| - 1;
      StepInjective(p, Run(p, r, bits[..k]), Run(p, s, bits[..k]), bits[k]);
      RunInjective(p, r, s, bits[..k]);
    }
  }

  /** With an odd polynomial bit 0 of the new remainder tells whether the division happened. */
  lemma {:induction false} StepInjective(p: Word, r: Word, s: Word, b: bool)
    requires |p| == |r| == |s| > 0 && p[0]
    requires Step(p, r, b) == Step(p, s, b)
    ensures r == s
  {
    var n := |r|;
    var t := Step(p, r, b);
    assert t[0] == (r[n - 1] != b) == (s[n - 1] != b);
    forall i | 0 <= i < n
      ensures r[i] == s[i]
    {
      if i < n - 1 {
        assert t[i + 1] == (r[i] != (t[0] && p[i + 1])) == (s[i] != (t[0] && p[i + 1]));
      }
    }
  }

  /** A window of at most n differing bits can be traded for a difference in the remainder before
      the window. */
  lemma {:induction false} WindowIntoRemainder(p: Word, r: Word, x: seq<bool>, y: seq<bool>)
    requires |p| == |r| > 0 && |x| == |y| <= |r|
    ensures Run(p, r, x) == Run(p, Xor(r, AtTop(Xor(x, y), |r|)), y)
  {
    var s := Xor(r, AtTop(Xor(x, y), |r|));
    WindowMixes(r, x, y);
    Absorb(p, r, x);
    Absorb(p, s, y);
  }

  lemma {:induction false} WindowMixes(r: Word, x: seq<bool>, y: seq<bool>)
    requires |x| == |y| <= |r|
    ensures var s := Xor(r, AtTop(Xor(x, y), |r|));
            Shl(s, |x|) == Shl(r, |x|) && Xor(y, Top(s, |x|)) == Xor(x, Top(r, |x|))
  {
  }

  lemma {:induction false} WindowVisible(r: Word, x: seq<bool>, y: seq<bool>)
    requires |x| == |y| <= |r| && x != y
    ensures Xor(r, AtTop(Xor(x, y), |r|)) != r
  {
    var i :| 0 <= i < |x| && x[i] != y[i];
    assert AtTop(Xor(x, y), |r|)[|r| - 1 - i];
    assert Xor(r, AtTop(Xor(x, y), |r|))[|r| - 1 - i] != r[|r| - 1 - i];
  }

  lemma {:induction false} BurstDetected(p: Word, r: Word, pre: seq<bool>, x: seq<bool>, y: seq<bool>, post: seq<bool>)
    requires |p| == |r| > 0 && p[0]
    requires |x| == |y| <= |p| && x != y
    ensures Run(p, r, pre + x + post) != Run(p, r, pre + y + post)
  {
    if Run(p, r, pre + x + post) == Run(p, r, pre + y + post) {
      var s := Run(p, r, pre);
      WindowVisible(s, x, y);
      RunConcat(p, r, pre + x, post);
      RunConcat(p, r, pre + y, post);
      RunConcat(p, r, pre, x);
      RunConcat(p, r, pre, y);
      RunInjective(p, Run(p, s, x), Run(p, s, y), post);
      WindowIntoRemainder(p, s, x, y);
      RunInjective(p, Xor(s, AtTop(Xor(x, y), |p|)), s, y);
    }
  }

  /** The n-bit string an even polynomial divides without remainder: the polynomial itself. */
  function BlindWindow(p: Word): (z: seq<bool>)
    requires |p| > 0
    ensures |z| == |p|
  {
    [true] + Top(p, |p| - 1)
  }

  lemma {:induction false} EvenPolynomialBlind(p: Word)
    requires |p| > 0 && !p[0]
    ensures Run(p, Zeros(|p|), BlindWindow(p)) == Zeros(|p|)
  {
    var n := |p|;
    assert Shl(p, n - 1) == Zeros(n);
    hide Run, Shl, Zeros, Top;
    RunConcat(p, Zeros(n), [true], Top(p, n - 1));
    FeedLast(p, true);
    OwnTopOnlyShifts(p, p, n - 1);
  }

  /** Every two bit strings that differ in a window no longer than the remainder get different
      remainders, whatever surrounds the window. */
  ghost predicate DetectsBursts(p: Word)
    requires |p| > 0
  {
    forall r: Word, pre: seq<bool>, x: seq<bool>, y: seq<bool>, post: seq<bool> ::
      |r| == |p| && |x| == |y| <= |p| && x != y ==>
        Run(p, r, pre + x + post) != Run(p, r, pre + y + post)
  }

  lemma {:induction false} EvenPolynomialMisses(p: Word)
    requires |p| > 0 && !p[0]
    ensures !DetectsBursts(p)
  {
    EvenPolynomialBlind(p);
    RunZeros(p, |p|);
    var x, y := BlindWindow(p), Zeros(|p|);
    assert x[0] && !y[0];
    assert [] + x + [] == x;
    assert [] + y + [] == y;
    assert Run(p, Zeros(|p|), [] + x + []) == Run(p, Zeros(|p|), [] + y + []);
  }

  lemma {:induction false} BurstsDetectedIffOdd(p: Word)
    requires |p| > 0
    ensures DetectsBursts(p) <==> p[0]
  {
    if p[0] {
      forall r: Word, pre: seq<bool>, x: seq<bool>, y: seq<bool>, post: seq<bool> |
        |r| == |p| && |x| == |y| <= |p| && x != y
        ensures Run(p, r, pre + x + post) != Run(p, r, pre + y + post)
      {
        BurstDetected(p, r, pre, x, y, post);
      }
    } else {
      EvenPolynomialMisses(p);
    }
  }

  // ----- A message followed by its own remainder -----

  lemma {:induction false} SelfRemainderVanishes(p: Word, r: Word, bits: seq<bool>)
    requires |p| == |r| > 0
    ensures Run(p, r, bits + Top(Run(p, r, bits), |r|)) == Zeros(|r|)
  {
    var n, s := |r|, Run(p, r, bits);
    assert Shl(s, n) == Zeros(n);
    hide Run, Shl, Zeros, Top;
    RunConcat(p, r, bits, Top(s, n));
    OwnTopOnlyShifts(p, s, n);
  }

  // ----- The augmented-message form: message bits enter at the bottom -----

  function AugStep(p: Word, r: Word, b: bool): (s: Word)
    requires |p| == |r| > 0
    ensures |s| == |r|
  {
    Xor(Step(p, r, false), Resize([b], |r|))
  }

  function AugRun(p: Word, r: Word, bits: seq<bool>): (s: Word)
    requires |p| == |r| > 0
    ensures |s| == |r|
  {
    if bits == [] then r
    else AugStep(p, AugRun(p, r, bits[..|bits| - 1]), bits[|bits| - 1])
  }

  lemma {:induction false} AugRunConcat(p: Word, r: Word, a: seq<bool>, b: seq<bool>)
    requires |p| == |r| > 0
    ensures AugRun(p, r, a + b) == AugRun(p, AugRun(p, r, a), b)
    decreases |b|
  {
    if b == [] {
      assert a + b == a;
    } else {
      var k := |b| - 1;
      assert (a + b)[..|a + b| - 1] == a + b[..k];
      AugRunConcat(p, r, a, b[..k]);
    }
  }

  /** Bits fed in at the bottom stay apart from the division until they reach the top. */
  function AtBottom(bits: seq<bool>, n: nat): (w: Word)
    ensures |w| == n
  {
    Resize(Reverse(bits), n)
  }

  lemma {:induction false} AugRunSplits(p: Word, r: Word, bits: seq<bool>)
    requires |p| == |r| > 0 && |bits| <= |r|
    ensures AugRun(p, r, bits) == Xor(Run(p, r, Zeros(|bits|)), AtBottom(bits, |r|))
    decreases |bits|
  {
    var n, k := |r|, |bits|;
    if k == 0 {
      hide AugStep, Step;
      assert Xor(r, AtBottom(bits, n)) == r;
    } else {
      assert Zeros(k)[..k - 1] == Zeros(k - 1) && Zeros(k)[..k] == Zeros(k);
      hide Run, Xor, Zeros, AtBottom, AugStep, Step;
      AugRunSplits(p, r, bits[..k - 1]);
      RunSnoc(p, r, Zeros(k), k - 1);
      AugStepSplits(p, Run(p, r, Zeros(k - 1)), bits);
    }
  }

  lemma {:induction false} AugStepSplits(p: Word, x: Word, bits: seq<bool>)
    requires |p| == |x| > 0 && 0 < |bits| <= |x|
    ensures var k := |bits| - 1;
            AugStep(p, Xor(x, AtBottom(bits[..k], |x|)), bits[k]) == Xor(Step(p, x, false), AtBottom(bits, |x|))
  {
    var n, k := |x|, |bits| - 1;
    var y := AtBottom(bits[..k], n);
    assert !y[n - 1];
    assert Xor(Shl(y, 1), Resize([bits[k]], n)) == AtBottom(bits, n);
    assert Shl(Xor(x, y), 1) == Xor(Shl(x, 1), Shl(y, 1));
    assert Step(p, Xor(x, y), false) == Xor(Step(p, x, false), Shl(y, 1));
    XorAssoc(Step(p, x, false), Shl(y, 1), Resize([bits[k]], n));
  }

  lemma {:induction false} XorAssoc(a: Word, b: Word, c: Word)
    requires |a| == |b| == |c|
    ensures Xor(Xor(a, b), c) == Xor(a, Xor(b, c))
  {
  }

  lemma {:induction false} ZeroStepsCommute(p: Word, r: Word, k: nat)
    requires |p| == |r| > 0
    ensures Run(p, Step(p, r, false), Zeros(k)) == Step(p, Run(p, r, Zeros(k)), false)
  {
    assert [false][..0] == [];
    assert Run(p, r, [false]) == Step(p, r, false);
    RunConcat(p, r, [false], Zeros(k));
    assert [false] + Zeros(k) == Zeros(k + 1);
    assert Zeros(k + 1)[..k] == Zeros(k);
  }

  /** Pushing a lone bottom bit through n zero steps leaves the polynomial. */
  lemma {:induction false} LoneBitThrough(p: Word, b: bool)
    requires |p| > 0
    ensures Run(p, Resize([b], |p|), Zeros(|p|)) == if b then p else Zeros(|p|)
  {
    var n := |p|;
    var e, zeros := Resize([b], n), Zeros(n - 1);
    assert Shl(e, n) == Zeros(n);
    assert Top(e, n) == zeros + [b];
    FeedLast(p, b);
    RunZeros(p, n - 1);
    hide Run, Shl, Zeros, Top, Xor, Resize, Step;
    RunConcat(p, Zeros(n), zeros, [b]);
    Absorb(p, e, Zeros(n));
    XorCancels(zeros + [b]);
    XorCancels(Run(p, Zeros(n), zeros + [b]));
  }

  lemma {:induction false} FeedLast(p: Word, b: bool)
    requires |p| > 0
    ensures Run(p, Zeros(|p|), [b]) == if b then p else Zeros(|p|)
  {
    assert [b][..0] == [];
    assert Shl(Zeros(|p|), 1) == Zeros(|p|);
    XorCancels(p);
  }

  /** n augmenting zeros turn the augmented remainder into the plain one. */
  lemma {:induction false} AugmentedCatchesUp(p: Word, bits: seq<bool>)
    requires |p| > 0
    ensures Run(p, AugRun(p, Zeros(|p|), bits), Zeros(|p|)) == Run(p, Zeros(|p|), bits)
    decreases |bits|
  {
    var n := |p|;
    if bits == [] {
      RunZeros(p, n);
    } else {
      var k := |bits| - 1;
      var b, a := bits[k], AugRun(p, Zeros(n), bits[..k]);
      AugmentedCatchesUp(p, bits[..k]);
      hide Step, Xor, Shl, Zeros, Resize;
      RunLinear(p, Step(p, a, false), Resize([b], n), Zeros(n), Zeros(n));
      XorCancels(Zeros(n));
      ZeroStepsCommute(p, a, n);
      LoneBitThrough(p, b);
      StepAddsInput(p, Run(p, Zeros(n), bits[..k]), b);
    }
  }

  lemma {:induction false} StepAddsInput(p: Word, r: Word, b: bool)
    requires |p| == |r| > 0
    ensures Xor(Step(p, r, false), if b then p else Zeros(|p|)) == Step(p, r, b)
  {
  }

  lemma {:induction false} AugmentedIsPlain(p: Word, bits: seq<bool>)
    requires |p| > 0
    ensures AugRun(p, Zeros(|p|), bits + Zeros(|p|)) == Run(p, Zeros(|p|), bits)
  {
    var n := |p|;
    var a := AugRun(p, Zeros(n), bits);
    assert AtBottom(Zeros(n), n) == Zeros(n);
    hide Run, AugRun, Zeros, Xor, AtBottom;
    AugRunConcat(p, Zeros(n), bits, Zeros(n));
    AugRunSplits(p, a, Zeros(n));
    AugmentedCatchesUp(p, bits);
    XorCancels(Run(p, Zeros(n), bits));
  }

  lemma {:induction false} AugmentedOwnCrcVanishes(p: Word, bits: seq<bool>)
    requires |p| > 0
    ensures AugRun(p, Zeros(|p|), bits + Top(Run(p, Zeros(|p|), bits), |p|)) == Zeros(|p|)
  {
    var n := |p|;
    var a, r := AugRun(p, Zeros(n), bits), Run(p, Zeros(n), bits);
    hide Run, AugRun, Zeros, Xor, AtBottom, Top;
    AugRunConcat(p, Zeros(n), bits, Top(r, n));
    AugRunSplits(p, a, Top(r, n));
    AugmentedCatchesUp(p, bits);
    BottomOfTop(r);
    XorCancels(r);
  }

  lemma {:induction false} BottomOfTop(r: Word)
    ensures AtBottom(Top(r, |r|), |r|) == r
  {
  }

  // ----- Bytes -----

  /** The bits of a byte in the order the engines divide them. */
  function ByteBits(b: Byte, reflectIn: bool): (bits: seq<bool>)
    ensures |bits| == 8
  {
    if reflectIn then b else Reverse(b)
  }

  function MessageBits(msg: seq<Byte>, reflectIn: bool): (bits: seq<bool>)
    ensures |bits| == 8 * |msg|
  {
    if msg == [] then [] else MessageBits(msg[..|msg| - 1], reflectIn) + ByteBits(msg[|msg| - 1], reflectIn)
  }

  /** One byte's worth of division from a zero remainder: what a table entry has to hold. */
  function Entry(p: Word, mixed: seq<bool>): (s: Word)
    requires |p| > 0
    ensures |s| == |p|
  {
    Run(p, Zeros(|p|), mixed)
  }

  lemma {:induction false} MessageBitsAppend(msg: seq<Byte>, b: Byte, reflectIn: bool)
    ensures MessageBits(msg + [b], reflectIn) == MessageBits(msg, reflectIn) + ByteBits(b, reflectIn)
  {
    assert (msg + [b])[..|msg|] == msg;
  }

  lemma {:induction false} Regroup(x: seq<bool>, y: seq<bool>, z: seq<bool>)
    ensures x + y + z == x + (y + z)
  {
  }

  lemma {:induction false} MessageBitsConcat(a: seq<Byte>, b: seq<Byte>, reflectIn: bool)
    ensures MessageBits(a + b, reflectIn) == MessageBits(a, reflectIn) + MessageBits(b, reflectIn)
    decreases |b|
  {
    if b == [] {
      assert a + b == a;
    } else {
      var k := |b| - 1;
      assert a + b == a + b[..k] + [b[k]] && b == b[..k] + [b[k]];
      hide *;
      MessageBitsConcat(a, b[..k], reflectIn);
      MessageBitsAppend(a + b[..k], b[k], reflectIn);
      MessageBitsAppend(b[..k], b[k], reflectIn);
      Regroup(MessageBits(a, reflectIn), MessageBits(b[..k], reflectIn), ByteBits(b[k], reflectIn));
    }
  }

  lemma {:induction false} ByteBitsInjective(a: Byte, b: Byte, reflectIn: bool)
    requires ByteBits(a, reflectIn) == ByteBits(b, reflectIn)
    ensures a == b
  {
    ReverseTwice(a);
    ReverseTwice(b);
  }

  lemma {:induction false} MessageBitsInjective(a: seq<Byte>, b: seq<Byte>, reflectIn: bool)
    requires MessageBits(a, reflectIn) == MessageBits(b, reflectIn)
    ensures a == b
    decreases |a|
  {
    assert 8 * |a| == 8 * |b|;
    if a != [] {
      var k := |a| - 1;
      var u, v := MessageBits(a, reflectIn), MessageBits(b, reflectIn);
      assert MessageBits(a[..k], reflectIn) == u[..8 * k] && ByteBits(a[k], reflectIn) == u[8 * k..];
      assert MessageBits(b[..k], reflectIn) == v[..8 * k] && ByteBits(b[k], reflectIn) == v[8 * k..];
      MessageBitsInjective(a[..k], b[..k], reflectIn);
      ByteBitsInjective(a[k], b[k], reflectIn);
      assert a == a[..k] + [a[k]] && b == b[..k] + [b[k]];
    }
  }

  /** The bytes of a stored remainder: highest byte first for the plain engine, lowest byte of the
      reflected storage first for the reflected one. */
  function RemainderBytes(stored: Word, reflected: bool): (bytes: seq<Byte>)
    requires |stored| % 8 == 0
    ensures |bytes| == |stored| / 8
    decreases |stored|
  {
    var n := |stored|;
    if n == 0 then []
    else if reflected then [stored[..8]] + RemainderBytes(stored[8..], reflected)
    else [stored[n - 8..]] + RemainderBytes(stored[..n - 8], reflected)
  }

  /** The stored form of a remainder. */
  function Stored(r: Word, reflected: bool): (w: Word)
    ensures |w| == |r|
  {
    if reflected then Reverse(r) else r
  }

  lemma {:induction false} RemainderBytesAreTop(r: Word, reflected: bool)
    requires |r| % 8 == 0
    ensures MessageBits(RemainderBytes(Stored(r, reflected), reflected), reflected) == Top(r, |r|)
    decreases |r|
  {
    var n := |r|;
    if n > 0 {
      var low := r[..n - 8];
      var first, bytes := StoredFirst(r, reflected), RemainderBytes(Stored(low, reflected), reflected);
      RemainderBytesAreTop(low, reflected);
      RemainderBytesStep(r, reflected);
      hide *;
      StoredSplits(r, reflected);
      MessageBitsConcat([first], bytes, reflected);
      SingleByte(first, reflected);
    }
  }

  lemma {:induction false} RemainderBytesStep(r: Word, reflected: bool)
    requires |r| % 8 == 0 && |r| > 0
    ensures RemainderBytes(Stored(r, reflected), reflected)
         == [StoredFirst(r, reflected)] + RemainderBytes(Stored(r[..|r| - 8], reflected), reflected)
  {
    StoredSplits(r, reflected);
    hide Top, ByteBits;
  }

  lemma {:induction false} SingleByte(b: Byte, reflectIn: bool)
    ensures MessageBits([b], reflectIn) == ByteBits(b, reflectIn)
  {
    assert [b][..0] == [];
  }

  function StoredFirst(r: Word, reflected: bool): (b: Byte)
    requires |r| >= 8
  {
    if reflected then Stored(r, true)[..8] else Stored(r, false)[|r| - 8..]
  }

  lemma {:induction false} StoredSplits(r: Word, reflected: bool)
    requires |r| >= 8
    ensures var n, low := |r|, r[..|r| - 8];
            (if reflected then Stored(r, true)[8..] else Stored(r, false)[..n - 8]) == Stored(low, reflected) &&
            ByteBits(StoredFirst(r, reflected), reflected) + Top(low, n - 8) == Top(r, n)
  {
    var n, low := |r|, r[..|r| - 8];
    assert ByteBits(StoredFirst(r, reflected), reflected) == Top(r, n)[..8];
    assert Top(low, n - 8) == Top(r, n)[8..];
    hide Top, ByteBits, StoredFirst;
    var t := Top(r, n);
    assert t[..8] + t[8..] == t;
  }

  // ----- Whole messages -----

  /** The parameters of a CRC, all of them n bits wide. */
  datatype Params = Params(poly: Word, init: Word, finalXor: Word, reflectIn: bool, reflectOut: bool) {
    predicate Valid() {
      |poly| == |init| == |finalXor| > 0
    }
  }

  function Remainder(c: Params, msg: seq<Byte>): (r: Word)
    requires c.Valid()
    ensures |r| == |c.poly|
  {
    Run(c.poly, c.init, MessageBits(msg, c.reflectIn))
  }

  function Output(c: Params, r: Word): (s: Word)
    requires c.Valid() && |r| == |c.poly|
    ensures |s| == |r|
  {
    Xor(if c.reflectOut then Reverse(r) else r, c.finalXor)
  }

  function Checksum(c: Params, msg: seq<Byte>): (s: Word)
    requires c.Valid()
  {
    Output(c, Remainder(c, msg))
  }

  lemma {:induction false} XorInjective(a: Word, b: Word, c: Word)
    requires |a| == |b| == |c| && Xor(a, c) == Xor(b, c)
    ensures a == b
  {
    forall i | 0 <= i < |a|
      ensures a[i] == b[i]
    {
      assert Xor(a, c)[i] == (a[i] != c[i]) && Xor(b, c)[i] == (b[i] != c[i]);
    }
  }

  lemma {:induction false} OutputInjective(c: Params, r: Word, s: Word)
    requires c.Valid() && |r| == |s| == |c.poly|
    requires Output(c, r) == Output(c, s)
    ensures r == s
  {
    hide Xor, Reverse;
    XorInjective(if c.reflectOut then Reverse(r) else r, if c.reflectOut then Reverse(s) else s, c.finalXor);
    ReverseTwice(r);
    ReverseTwice(s);
  }

  /** Outside the bits from `from` up to `from + width`, in processing order, the messages agree. */
  ghost predicate DifferWithin(a: seq<Byte>, b: seq<Byte>, reflectIn: bool, from: nat, width: nat) {
    |a| == |b| &&
    forall i :: 0 <= i < 8 * |a| && !(from <= i < from + width) ==>
      MessageBits(a, reflectIn)[i] == MessageBits(b, reflectIn)[i]
  }

  lemma {:induction false} ChecksumCatchesBurst(c: Params, a: seq<Byte>, b: seq<Byte>, from: nat)
    requires c.Valid() && c.poly[0]
    requires a != b && DifferWithin(a, b, c.reflectIn, from, |c.poly|)
    ensures Checksum(c, a) != Checksum(c, b)
  {
    var u, v := MessageBits(a, c.reflectIn), MessageBits(b, c.reflectIn);
    var lo := if from < |u| then from else |u|;
    var hi := if from + |c.poly| < |u| then from + |c.poly| else |u|;
    assert u[..lo] == v[..lo] && u[hi..] == v[hi..];
    hide DifferWithin, MessageBits;
    Cut(u, lo, hi);
    Cut(v, lo, hi);
    if u[lo..hi] == v[lo..hi] {
      MessageBitsInjective(a, b, c.reflectIn);
    }
    BurstDetected(c.poly, c.init, u[..lo], u[lo..hi], v[lo..hi], u[hi..]);
    if Checksum(c, a) == Checksum(c, b) {
      OutputInjective(c, Remainder(c, a), Remainder(c, b));
    }
  }

  lemma Cut(bits: seq<bool>, lo: nat, hi: nat)
    requires lo <= hi <= |bits|
    ensures bits == bits[..lo] + bits[lo..hi] + bits[hi..]
  {
  }

  /** The message whose bits, in processing order, are the given ones. */
  function BytesOf(bits: seq<bool>, reflectIn: bool): (msg: seq<Byte>)
    requires |bits| % 8 == 0
    decreases |bits|
  {
    if bits == [] then []
    else
      var k := |bits| - 8;
      BytesOf(bits[..k], reflectIn) + [if reflectIn then bits[k..] else Reverse(bits[k..])]
  }

  lemma {:induction false} BytesOfLast(bits: seq<bool>, reflectIn: bool, last: Byte)
    requires |bits| % 8 == 0 && bits != [] && last == if reflectIn then bits[|bits| - 8..] else Reverse(bits[|bits| - 8..])
    ensures BytesOf(bits, reflectIn) == BytesOf(bits[..|bits| - 8], reflectIn) + [last]
    ensures ByteBits(last, reflectIn) == bits[|bits| - 8..]
  {
    ReverseTwice(bits[|bits| - 8..]);
  }

  lemma {:induction false} BytesOfBits(bits: seq<bool>, reflectIn: bool)
    requires |bits| % 8 == 0
    ensures MessageBits(BytesOf(bits, reflectIn), reflectIn) == bits
    decreases |bits|
  {
    if bits != [] {
      var k := |bits| - 8;
      var last: Byte := if reflectIn then bits[k..] else Reverse(bits[k..]);
      BytesOfLast(bits, reflectIn, last);
      hide *;
      BytesOfBits(bits[..k], reflectIn);
      MessageBitsAppend(BytesOf(bits[..k], reflectIn), last, reflectIn);
      CutOnce(bits, k);
    }
  }

  lemma {:induction false} CutOnce(bits: seq<bool>, k: nat)
    requires k <= |bits|
    ensures bits[..k] + bits[k..] == bits
  {
  }

  /** No two different messages of one length that agree outside some window of n consecutive bits
      share a checksum. */
  ghost predicate ChecksumDetectsBursts(c: Params)
    requires c.Valid()
  {
    forall a: seq<Byte>, b: seq<Byte>, from: nat ::
      a != b && DifferWithin(a, b, c.reflectIn, from, |c.poly|) ==> Checksum(c, a) != Checksum(c, b)
  }

  lemma {:induction false} EvenChecksumMisses(c: Params)
    requires c.Valid() && !c.poly[0]
    ensures !ChecksumDetectsBursts(c)
  {
    var n := |c.poly|;
    var pad := 7 * n;
    var x, y := BlindWindow(c.poly) + Zeros(pad), Zeros(n + pad);
    assert |x| == |y| == 8 * n;
    PaddedCollision(c.poly, c.init, pad);
    assert x[0] && !y[0];
    UndetectedPair(c, x, y);
  }

  lemma {:induction false} UndetectedPair(c: Params, x: seq<bool>, y: seq<bool>)
    requires c.Valid() && |x| == |y| && |x| % 8 == 0 && x != y
    requires forall i :: |c.poly| <= i < |x| ==> x[i] == y[i]
    requires Run(c.poly, c.init, x) == Run(c.poly, c.init, y)
    ensures !ChecksumDetectsBursts(c)
  {
    var a, b := BytesOf(x, c.reflectIn), BytesOf(y, c.reflectIn);
    BytesOfBits(x, c.reflectIn);
    BytesOfBits(y, c.reflectIn);
    assert DifferWithin(a, b, c.reflectIn, 0, |c.poly|);
    assert Checksum(c, a) == Checksum(c, b);
  }

  lemma {:induction false} PaddedCollision(p: Word, r: Word, pad: nat)
    requires |p| == |r| > 0 && !p[0]
    ensures Run(p, r, BlindWindow(p) + Zeros(pad)) == Run(p, r, Zeros(|p| + pad))
  {
    var n := |p|;
    hide *;
    var x, y := BlindWindow(p) + Zeros(pad), Zeros(n + pad);
    EvenPolynomialBlind(p);
    RunZeros(p, pad);
    RunConcat(p, Zeros(n), BlindWindow(p), Zeros(pad));
    RunLinear(p, r, Zeros(n), y, x);
    XorCancels(r);
    XorCancels(x);
    XorCancels(Run(p, r, y));
  }

  lemma {:induction false} ChecksumDetectsIffOdd(c: Params)
    requires c.Valid()
    ensures ChecksumDetectsBursts(c) <==> c.poly[0]
  {
    if c.poly[0] {
      forall a: seq<Byte>, b: seq<Byte>, from: nat | a != b && DifferWithin(a, b, c.reflectIn, from, |c.poly|)
        ensures Checksum(c, a) != Checksum(c, b)
      {
        ChecksumCatchesBurst(c, a, b, from);
      }
    } else {
      EvenChecksumMisses(c);
    }
  }

  function ByteOf(v: nat): Byte {
    FromNat(v, 8)
  }

  function XmodemPoly(): (p: Word)
    ensures |p| == 16
  {
    FromNat(0x8408, 16)
  }

  function Xmodem(): (c: Params)
    ensures c.Valid() && |c.poly| == 16
  {
    Params(XmodemPoly(), Zeros(16), Zeros(16), true, true)
  }

  /** `crc_xmodem_type` is declared with 0x8408, an even polynomial.  The two-byte messages 43 20 and
      00 00, in hexadecimal, differ within 16 bits and share a checksum. */
  lemma {:induction false} XmodemMissesBursts()
    ensures var a, b := [ByteOf(0x43), ByteOf(0x20)], [Zeros(8), Zeros(8)];
            a != b && DifferWithin(a, b, true, 0, 16) && Checksum(Xmodem(), a) == Checksum(Xmodem(), b)
    ensures !ChecksumDetectsBursts(Xmodem())
  {
    hide *;
    var p, x, y := XmodemPoly(), ByteOf(0x43), ByteOf(0x20);
    XmodemWindow();
    NonZero(x);
    TwoBytes(x, y);
    TwoBytes(Zeros(8), Zeros(8));
    ZerosTwice(8);
    EvenPolynomialBlind(p);
    RunZeros(p, 16);
    XmodemRemainders([x, y], [Zeros(8), Zeros(8)]);
    SameChecksum(Xmodem(), [x, y], [Zeros(8), Zeros(8)]);
  }

  lemma {:induction false} XmodemRemainders(a: seq<Byte>, b: seq<Byte>)
    ensures Xmodem().reflectIn && Remainder(Xmodem(), a) == Run(XmodemPoly(), Zeros(16), MessageBits(a, true))
    ensures Remainder(Xmodem(), b) == Run(XmodemPoly(), Zeros(16), MessageBits(b, true))
  {
    hide Run, MessageBits, XmodemPoly, Zeros;
  }

  lemma {:induction false} NonZero(b: Byte)
    requires b[0]
    ensures b != Zeros(8)
  {
  }

  lemma {:induction false} ZerosTwice(k: nat)
    ensures Zeros(k) + Zeros(k) == Zeros(2 * k)
  {
  }

  lemma {:induction false} SameChecksum(c: Params, a: seq<Byte>, b: seq<Byte>)
    requires c.Valid() && |c.poly| == 16 && |a| == |b| == 2 && a != b
    requires Remainder(c, a) == Remainder(c, b)
    ensures DifferWithin(a, b, c.reflectIn, 0, 16) && Checksum(c, a) == Checksum(c, b) && !ChecksumDetectsBursts(c)
  {
    hide Remainder, MessageBits, Output;
    assert DifferWithin(a, b, c.reflectIn, 0, |c.poly|);
  }

  /** The message 43 20 is the string that the polynomial divides. */
  lemma {:induction false} XmodemWindow()
    ensures ByteOf(0x43) + ByteOf(0x20) == BlindWindow(XmodemPoly())
    ensures !XmodemPoly()[0] && ByteOf(0x43)[0]
  {
    XmodemBits();
    hide XmodemPoly, ByteOf;
    var w, m := BlindWindow(XmodemPoly()), ByteOf(0x43) + ByteOf(0x20);
    forall i | 0 <= i < 16
      ensures w[i] <==> i == 0 || i == 1 || i == 6 || i == 13
    {
      assert i > 0 ==> w[i] == XmodemPoly()[16 - i];
    }
  }

  lemma {:induction false} XmodemBits()
    ensures forall i :: 0 <= i < 8 ==> (ByteOf(0x43)[i] <==> i == 0 || i == 1 || i == 6)
    ensures forall i :: 0 <= i < 8 ==> (ByteOf(0x20)[i] <==> i == 5)
    ensures forall i :: 0 <= i < 16 ==> (XmodemPoly()[i] <==> i == 3 || i == 10 || i == 15)
  {
    hide FromNat;
    forall i | 0 <= i < 8
      ensures ByteOf(0x43)[i] == Bit(0x43, i) && ByteOf(0x20)[i] == Bit(0x20, i)
    {
      BitOfWord(0x43, 8, i);
      BitOfWord(0x20, 8, i);
    }
    forall i | 0 <= i < 16
      ensures XmodemPoly()[i] == Bit(0x8408, i)
    {
      BitOfWord(0x8408, 16, i);
    }
    Bits43And20();
    Bits8408();
  }

  lemma {:induction false} Bits43And20()
    ensures forall i :: 0 <= i < 8 ==> (Bit(0x43, i) <==> i == 0 || i == 1 || i == 6)
    ensures forall i :: 0 <= i < 8 ==> (Bit(0x20, i) <==> i == 5)
  {
    assert Bit(0x43, 0) && Bit(0x43, 1) && !Bit(0x43, 2) && !Bit(0x43, 3);
    assert !Bit(0x43, 4) && !Bit(0x43, 5) && Bit(0x43, 6) && !Bit(0x43, 7);
    assert !Bit(0x20, 0) && !Bit(0x20, 1) && !Bit(0x20, 2) && !Bit(0x20, 3);
    assert !Bit(0x20, 4) && Bit(0x20, 5) && !Bit(0x20, 6) && !Bit(0x20, 7);
  }

  lemma {:induction false} Bits8408()
    ensures forall i :: 0 <= i < 16 ==> (Bit(0x8408, i) <==> i == 3 || i == 10 || i == 15)
  {
    assert !Bit(0x8408, 0) && !Bit(0x8408, 1) && !Bit(0x8408, 2) && Bit(0x8408, 3);
    assert !Bit(0x8408, 4) && !Bit(0x8408, 5) && !Bit(0x8408, 6) && !Bit(0x8408, 7);
    assert !Bit(0x84, 0) && !Bit(0x84, 1) && Bit(0x84, 2) && !Bit(0x84, 3);
    assert !Bit(0x84, 4) && !Bit(0x84, 5) && !Bit(0x84, 6) && Bit(0x84, 7);
    forall i | 0 <= i < 8
      ensures Bit(0x8408, i + 8) == Bit(0x84, i)
    {
      BitAbove(0x8408, i);
    }
    hide Bit;
    forall i | 8 <= i < 16
      ensures Bit(0x8408, i) <==> i == 10 || i == 15
    {
      assert Bit(0x8408, (i - 8) + 8) == Bit(0x84, i - 8);
    }
  }

  lemma {:induction false} BitAbove(v: nat, i: nat)
    ensures Bit(v, i + 8) == Bit(v / 256, i)
  {
    assert Bit(v, i + 8) == Bit(v / 2, i + 7) == Bit(v / 4, i + 6) == Bit(v / 8, i + 5) == Bit(v / 16, i + 4);
    assert Bit(v / 16, i + 4) == Bit(v / 32, i + 3) == Bit(v / 64, i + 2) == Bit(v / 128, i + 1) == Bit(v / 256, i);
  }

  lemma {:induction false} TwoBytes(x: Byte, y: Byte)
    ensures MessageBits([x, y], true) == x + y
  {
    assert [x, y][..1] == [x] && [x][..0] == [];
    assert [] + x == x;
  }

  lemma {:induction false} OwnBytesVanish(p: Word, r: Word, reflected: bool)
    requires |p| == |r| > 0 && |r| % 8 == 0
    ensures Run(p, r, MessageBits(RemainderBytes(Stored(r, reflected), reflected), reflected)) == Zeros(|r|)
  {
    RemainderBytesAreTop(r, reflected);
    OwnTopOnlyShifts(p, r, |r|);
    assert Shl(r, |r|) == Zeros(|r|);
  }

  /** A message followed by its own stored remainder always divides to zero. */
  lemma {:induction false} MessageWithOwnRemainder(c: Params, msg: seq<Byte>)
    requires c.Valid() && |c.poly| % 8 == 0
    ensures var r := Remainder(c, msg);
            Remainder(c, msg + RemainderBytes(Stored(r, c.reflectIn), c.reflectIn)) == Zeros(|c.poly|)
  {
    var r := Remainder(c, msg);
    RemainderBytesAreTop(r, c.reflectIn);
    MessageBitsConcat(msg, RemainderBytes(Stored(r, c.reflectIn), c.reflectIn), c.reflectIn);
    SelfRemainderVanishes(c.poly, c.init, MessageBits(msg, c.reflectIn));
  }
}
