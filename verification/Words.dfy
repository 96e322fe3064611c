/** Fixed-width machine words as bit sequences.  Index 0 is the least significant bit and the
    length is the width of the C++ unsigned type, so every operation truncates explicitly. */
module Words {

  type Word = seq<bool>

  type Byte = w: Word | |w| == 8 witness seq(8, _ => false)

  function Zeros(n: nat): (w: Word)
    ensures |w| == n
  {
    seq(n, i => false)
  }

  /** The word whose only set bit is bit `i`; zero when `i` lies outside the word. */
  function OnlyBit(n: nat, i: int): (w: Word)
    ensures |w| == n
  {
    seq(n, j => j == i)
  }

  function Xor(a: Word, b: Word): (w: Word)
    requires |a| == |b|
    ensures |w| == |a|
  {
    seq(|a|, i requires 0 <= i < |a| => a[i] != b[i])
  }

  function And(a: Word, b: Word): (w: Word)
    requires |a| == |b|
    ensures |w| == |a|
  {
    seq(|a|, i requires 0 <= i < |a| => a[i] && b[i])
  }

  function Or(a: Word, b: Word): (w: Word)
    requires |a| == |b|
    ensures |w| == |a|
  {
    seq(|a|, i requires 0 <= i < |a| => a[i] || b[i])
  }

  function Shl(a: Word, k: nat): (w: Word)
    ensures |w| == |a|
  {
    seq(|a|, i requires 0 <= i < |a| => i >= k && a[i - k])
  }

  function Shr(a: Word, k: nat): (w: Word)
    ensures |w| == |a|
  {
    seq(|a|, i requires 0 <= i < |a| => i + k < |a| && a[i + k])
  }

  /** Conversion to an unsigned type of another width: zero-extends or truncates. */
  function Resize(a: Word, n: nat): (w: Word)
    ensures |w| == n
  {
    seq(n, i => 0 <= i < |a| && a[i])
  }

  function Reverse(a: Word): (w: Word)
    ensures |w| == |a|
  {
    seq(|a|, i requires 0 <= i < |a| => a[|a| - 1 - i])
  }

  /** The unsigned number a word stands for. */
  function Value(w: Word): nat {
    if w == [] then 0 else (if w[0] then 1 else 0) + 2 * Value(w[1..])
  }

  function Pow2(n: nat): (p: nat)
    ensures p > 0
  {
    if n == 0 then 1 else 2 * Pow2(n - 1)
  }

  function FromNat(v: nat, n: nat): (w: Word)
    ensures |w| == n
  {
    if n == 0 then [] else [v % 2 == 1] + FromNat(v / 2, n - 1)
  }

  predicate Bit(v: nat, i: nat) {
    if i == 0 then v % 2 == 1 else Bit(v / 2, i - 1)
  }

  lemma {:induction false} BitOfWord(v: nat, n: nat, i: nat)
    requires i < n
    ensures FromNat(v, n)[i] == Bit(v, i)
  {
    if i > 0 {
      BitOfWord(v / 2, n - 1, i - 1);
    }
  }

  lemma {:induction false} ValueOfFromNat(v: nat, n: nat)
    requires v < Pow2(n)
    ensures Value(FromNat(v, n)) == v
  {
    if n > 0 {
      ValueOfFromNat(v / 2, n - 1);
      assert FromNat(v, n)[1..] == FromNat(v / 2, n - 1);
    }
  }

  lemma {:induction false} FromNatOfValue(w: Word)
    ensures Value(w) < Pow2(|w|)
    ensures FromNat(Value(w), |w|) == w
  {
    if w != [] {
      FromNatOfValue(w[1..]);
      assert w == [w[0]] + w[1..];
    }
  }

  lemma ByteValueRange(b: Byte)
    ensures Value(b) < 256
    ensures FromNat(Value(b), 8) == b
  {
    FromNatOfValue(b);
    assert Pow2(8) == 256;
  }

  lemma ByteOfNat(v: nat)
    requires v < 256
    ensures Value(FromNat(v, 8)) == v
  {
    assert Pow2(8) == 256;
    ValueOfFromNat(v, 8);
  }

  lemma ReverseTwice(a: Word)
    ensures Reverse(Reverse(a)) == a
  {
  }
}
