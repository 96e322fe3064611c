/** Printing integers as `lexical_cast.hpp` does: digits written backwards into a buffer whose size is
    fixed at compile time, with the locale's digit grouping. */
module LexicalCast {
  import Words

  const CHAR_MAX := 127

  // ----- Decimal digits -----

  function Digit(d: nat): (c: char)
    requires d < 10
    ensures '0' <= c <= '9'
  {
    '0' + d as char
  }

  function DigitValue(c: char): (d: nat)
    requires '0' <= c <= '9'
  {
    (c - '0') as nat
  }

  /** The decimal numeral of a number, without leading zeros. */
  function Decimal(n: nat): (s: string)
    ensures s != ""
  {
    if n < 10 then [Digit(n)] else Decimal(n / 10) + [Digit(n % 10)]
  }

  predicate AllDigits(s: string) {
    forall i :: 0 <= i < |s| ==> '0' <= s[i] <= '9'
  }

  function Value(s: string): nat
    requires AllDigits(s)
  {
    if s == "" then 0 else 10 * Value(s[..|s| - 1]) + DigitValue(s[|s| - 1])
  }

  lemma {:induction false} DecimalReads(n: nat)
    ensures AllDigits(Decimal(n)) && Value(Decimal(n)) == n
  {
    if n < 10 {
      assert Decimal(n)[..0] == "";
    } else {
      DecimalReads(n / 10);
      var s := Decimal(n);
      assert s[..|s| - 1] == Decimal(n / 10);
      assert AllDigits(s);
    }
  }

  /** Each digit is the character of its decimal place, 48 standing for zero, and there is no leading
      zero. */
  lemma {:induction false} DecimalPlaces(n: nat, i: nat)
    requires i < |Decimal(n)|
    ensures Decimal(n)[|Decimal(n)| - 1 - i] as int == 48 + n / Pow10(i) % 10
    ensures n > 0 ==> Pow10(|Decimal(n)| - 1) <= n < Pow10(|Decimal(n)|)
    decreases n
  {
    if n >= 10 {
      var s := Decimal(n / 10);
      DecimalPlaces(n / 10, if i == 0 then 0 else i - 1);
      if i > 0 {
        assert Decimal(n)[|s| - i] == s[|s| - i];
        DivideTwice(n, Pow10(i - 1));
      }
    }
  }

  lemma {:induction false} DivideTwice(n: nat, m: nat)
    requires m > 0
    ensures n / 10 / m == n / (10 * m)
  {
    var q, r := n / 10 / m, n / 10 % m;
    assert n == 10 * (m * q + r) + n % 10;
    assert 0 <= 10 * r + n % 10 < 10 * m;
    assert n == (10 * m) * q + (10 * r + n % 10);
    QuotientIs(n, 10 * m, q, 10 * r + n % 10);
  }

  lemma {:induction false} QuotientIs(n: nat, m: nat, q: nat, r: nat)
    requires m > 0 && r < m && n == m * q + r
    ensures n / m == q
  {
    var d := n / m;
    assert n == m * d + n % m && 0 <= n % m < m;
    if d < q {
      NextMultiple(m, d, q);
    } else if d > q {
      NextMultiple(m, q, d);
    }
  }

  lemma {:induction false} NextMultiple(m: nat, a: nat, b: nat)
    requires a < b
    ensures m * a + m <= m * b
  {
    assert m * b == m * (b - 1) + m;
    if a < b - 1 {
      NextMultiple(m, a, b - 1);
    }
  }

  function Pow10(k: nat): (p: nat)
    ensures p > 0
  {
    if k == 0 then 1 else 10 * Pow10(k - 1)
  }

  lemma {:induction false} DecimalLength(n: nat, k: nat)
    requires n < Pow10(k + 1)
    ensures |Decimal(n)| <= k + 1
  {
    if n >= 10 {
      DecimalLength(n / 10, k - 1);
    }
  }

  // ----- Grouping -----

  /** A group size as the code reads it from the locale: zero and negative mean unlimited, which is
      taken to be CHAR_MAX. */
  function GroupSize(size: int): (g: nat)
    ensures g > 0
  {
    if size <= 0 then CHAR_MAX else size
  }

  /** The size of the group with the given number, counted from the right; the last one repeats. */
  function SizeOf(grouping: seq<int>, group: nat): (g: nat)
    ensures g > 0
  {
    if grouping == [] then CHAR_MAX
    else if group < |grouping| then GroupSize(grouping[group])
    else GroupSize(grouping[|grouping| - 1])
  }

  /** The digits cut from the right into groups with separators between them; `room` digits still fit
      the group being written. */
  function Grouped(digits: string, grouping: seq<int>, sep: char, group: nat, room: nat): (s: string)
    decreases |digits|, if room == 0 then 1 else 0
  {
    if |digits| <= room then digits
    else if room == 0 then Grouped(digits, grouping, sep, group + 1, SizeOf(grouping, group + 1)) + [sep]
    else Grouped(digits[..|digits| - room], grouping, sep, group, 0) + digits[|digits| - room..]
  }

  /** The text of a number. */
  function Text(n: nat, grouping: seq<int>, sep: char): string {
    Grouped(Decimal(n), grouping, sep, 0, SizeOf(grouping, 0))
  }

  /** Taking one digit off the right. */
  lemma {:induction false} GroupedLast(digits: string, grouping: seq<int>, sep: char, group: nat, room: nat)
    requires digits != "" && room > 0
    ensures Grouped(digits, grouping, sep, group, room) ==
            Grouped(digits[..|digits| - 1], grouping, sep, group, room - 1) + [digits[|digits| - 1]]
  {
    var k := |digits| - 1;
    if |digits| > room {
      assert digits[..k][..k - (room - 1)] == digits[..|digits| - room];
      assert digits[..k][k - (room - 1)..] + [digits[k]] == digits[|digits| - room..];
      if room == 1 {
        assert digits[..k][k..] == "";
        assert Grouped(digits[..k], grouping, sep, group, 0) + "" == Grouped(digits[..k], grouping, sep, group, 0);
      }
    } else {
      assert digits == digits[..k] + [digits[k]];
    }
  }

  // ----- Where the separators stand -----

  /** Counting from the right, a group ends after `k` digits: `k` is a sum of leading group sizes, the last
      of which repeats, and no size that is zero or negative comes before. */
  predicate EndsGroup(grouping: seq<int>, k: nat, group: nat)
    decreases k
  {
    grouping != [] &&
    var size := grouping[if group < |grouping| then group else |grouping| - 1];
    size > 0 && (k == size || (k > size && EndsGroup(grouping, k - size, group + 1)))
  }

  /** Digits with a separator behind each that has a digit following and as many digits to its right as
      end a group. */
  function Separated(digits: string, grouping: seq<int>, sep: char): string {
    if digits == "" then ""
    else
      [digits[0]] + (if |digits| > 1 && EndsGroup(grouping, |digits| - 1, 0) then [sep] else "") +
        Separated(digits[1..], grouping, sep)
  }

  /** The same seen from inside a group in which `room` digits are left. */
  predicate EndsHere(grouping: seq<int>, k: nat, group: nat, room: nat)
    decreases k, if room == 0 then 1 else 0
  {
    k == room || (k > room && EndsHere(grouping, k - room, group + 1, SizeOf(grouping, group + 1)))
  }

  function Spread(digits: string, grouping: seq<int>, sep: char, group: nat, room: nat): string {
    if digits == "" then ""
    else
      [digits[0]] + (if EndsHere(grouping, |digits| - 1, group, room) then [sep] else "") +
        Spread(digits[1..], grouping, sep, group, room)
  }

  lemma {:induction false} SpreadNothing(digits: string, grouping: seq<int>, sep: char, group: nat, room: nat)
    requires |digits| <= room
    ensures Spread(digits, grouping, sep, group, room) == digits
  {
    if digits != "" {
      SpreadNothing(digits[1..], grouping, sep, group, room);
    }
  }

  /** A full group: its separator goes behind everything that follows in the next one. */
  lemma {:induction false} SpreadFull(digits: string, grouping: seq<int>, sep: char, group: nat)
    requires digits != ""
    ensures Spread(digits, grouping, sep, group, 0)
         == Spread(digits, grouping, sep, group + 1, SizeOf(grouping, group + 1)) + [sep]
  {
    var size := SizeOf(grouping, group + 1);
    if |digits| == 1 {
      assert digits[1..] == "";
      assert EndsHere(grouping, 0, group, 0) && !EndsHere(grouping, 0, group + 1, size);
    } else {
      SpreadFull(digits[1..], grouping, sep, group);
      var k := |digits| - 1;
      assert EndsHere(grouping, k, group, 0) == EndsHere(grouping, k, group + 1, size);
    }
  }

  /** The digits of the group itself go behind a group that is full. */
  lemma {:induction false} SpreadGroup(digits: string, grouping: seq<int>, sep: char, group: nat, room: nat)
    requires |digits| > room > 0
    ensures var k := |digits| - room;
            Spread(digits, grouping, sep, group, room) == Spread(digits[..k], grouping, sep, group, 0) + digits[k..]
  {
    var k := |digits| - room;
    var head, tail := digits[..k], digits[1..];
    SpreadHead(digits, grouping, sep, group, room);
    SpreadHead(head, grouping, sep, group, 0);
    assert EndsHere(grouping, |digits| - 1, group, room) == EndsHere(grouping, k - 1, group, 0);
    hide EndsHere, Spread;
    assert head[0] == digits[0] && head[1..] == tail[..k - 1] && tail[k - 1..] == digits[k..];
    if k == 1 {
      SpreadNothing(tail, grouping, sep, group, room);
      SpreadNothing("", grouping, sep, group, 0);
      assert head[1..] == "" && tail[0..] == tail;
    } else {
      SpreadGroup(tail, grouping, sep, group, room);
    }
  }

  lemma {:induction false} SpreadHead(digits: string, grouping: seq<int>, sep: char, group: nat, room: nat)
    requires digits != ""
    ensures Spread(digits, grouping, sep, group, room) ==
            [digits[0]] + (if EndsHere(grouping, |digits| - 1, group, room) then [sep] else "") +
              Spread(digits[1..], grouping, sep, group, room)
  {
    hide EndsHere;
  }

  lemma {:induction false} GroupedSpreads(digits: string, grouping: seq<int>, sep: char, group: nat, room: nat)
    ensures Grouped(digits, grouping, sep, group, room) == Spread(digits, grouping, sep, group, room)
    decreases |digits|, if room == 0 then 1 else 0
  {
    if |digits| <= room {
      SpreadNothing(digits, grouping, sep, group, room);
    } else if room == 0 {
      GroupedSpreads(digits, grouping, sep, group + 1, SizeOf(grouping, group + 1));
      SpreadFull(digits, grouping, sep, group);
    } else {
      GroupedSpreads(digits[..|digits| - room], grouping, sep, group, 0);
      SpreadGroup(digits, grouping, sep, group, room);
    }
  }

  /** Sizes that are not positive stand for more digits than any number has. */
  lemma {:induction false} EndsIff(grouping: seq<int>, k: nat, group: nat)
    requires 0 < k < 127
    ensures EndsHere(grouping, k, group, SizeOf(grouping, group)) <==> EndsGroup(grouping, k, group)
    decreases k
  {
    var size := SizeOf(grouping, group);
    if k > size {
      EndsIff(grouping, k - size, group + 1);
    }
  }

  lemma {:induction false} SpreadSeparates(digits: string, grouping: seq<int>, sep: char)
    requires |digits| <= 127
    ensures Spread(digits, grouping, sep, 0, SizeOf(grouping, 0)) == Separated(digits, grouping, sep)
  {
    if digits != "" {
      if |digits| > 1 {
        EndsIff(grouping, |digits| - 1, 0);
      }
      SpreadSeparates(digits[1..], grouping, sep);
    }
  }

  /** The text of a number of at most 127 digits, more than any integral type has: a separator stands
      exactly where a group ends and another digit precedes. */
  lemma {:induction false} TextSeparates(n: nat, grouping: seq<int>, sep: char)
    requires |Decimal(n)| <= 127
    ensures Text(n, grouping, sep) == Separated(Decimal(n), grouping, sep)
  {
    hide Decimal;
    GroupedSpreads(Decimal(n), grouping, sep, 0, SizeOf(grouping, 0));
    SpreadSeparates(Decimal(n), grouping, sep);
  }

  // ----- Reading back -----

  function WithoutSeparators(s: string, sep: char): string {
    if s == "" then "" else (if s[0] == sep then "" else [s[0]]) + WithoutSeparators(s[1..], sep)
  }

  lemma {:induction false} WithoutConcat(a: string, b: string, sep: char)
    ensures WithoutSeparators(a + b, sep) == WithoutSeparators(a, sep) + WithoutSeparators(b, sep)
    decreases |a|
  {
    if a == "" {
      assert a + b == b;
    } else {
      assert (a + b)[1..] == a[1..] + b;
      WithoutConcat(a[1..], b, sep);
    }
  }

  lemma {:induction false} WithoutNothing(s: string, sep: char)
    requires sep !in s
    ensures WithoutSeparators(s, sep) == s
  {
    if s != "" {
      WithoutNothing(s[1..], sep);
    }
  }

  lemma {:induction false} GroupingReads(digits: string, grouping: seq<int>, sep: char, group: nat, room: nat)
    requires sep !in digits
    ensures WithoutSeparators(Grouped(digits, grouping, sep, group, room), sep) == digits
    decreases |digits|, if room == 0 then 1 else 0
  {
    if |digits| <= room {
      WithoutNothing(digits, sep);
    } else if room == 0 {
      var rest := Grouped(digits, grouping, sep, group + 1, SizeOf(grouping, group + 1));
      GroupingReads(digits, grouping, sep, group + 1, SizeOf(grouping, group + 1));
      WithoutConcat(rest, [sep], sep);
      assert [sep][1..] == "";
    } else {
      var k := |digits| - room;
      GroupingReads(digits[..k], grouping, sep, group, 0);
      WithoutNothing(digits[k..], sep);
      WithoutConcat(Grouped(digits[..k], grouping, sep, group, 0), digits[k..], sep);
      assert digits[..k] + digits[k..] == digits;
    }
  }

  /** At most one separator between any two digits. */
  lemma {:induction false} GroupedLength(digits: string, grouping: seq<int>, sep: char, group: nat, room: nat)
    ensures |digits| <= |Grouped(digits, grouping, sep, group, room)|
    ensures |Grouped(digits, grouping, sep, group, room)| <= 2 * |digits|
    ensures room > 0 && digits != "" ==> |Grouped(digits, grouping, sep, group, room)| <= 2 * |digits| - 1
    decreases |digits|, if room == 0 then 1 else 0
  {
    if |digits| <= room {
    } else if room == 0 {
      GroupedLength(digits, grouping, sep, group + 1, SizeOf(grouping, group + 1));
    } else {
      GroupedLength(digits[..|digits| - room], grouping, sep, group, 0);
    }
  }

  // ----- Integral types -----

  /** `std::numeric_limits::digits10`: the largest number of decimal digits of which every combination
      fits into the given number of value bits. */
  ghost predicate IsDigits10(bits: nat, digits10: nat) {
    Pow10(digits10) <= Words.Pow2(bits) < Pow10(digits10 + 1)
  }

  /** An integral type: its number of value bits, its `digits10` and whether it is signed. */
  datatype Integral = Integral(bits: nat, digits10: nat, signed: bool) {
    ghost predicate Valid() {
      bits > 0 && IsDigits10(bits, digits10)
    }

    predicate Holds(n: int) {
      (if signed then -(Words.Pow2(bits) as int) else 0) <= n < Words.Pow2(bits)
    }

    /** `lcast_src_length_integral` */
    function SourceLength(): nat {
      (if signed then 1 else 0) + 1 + digits10 * 2
    }
  }

  /** The types the library lists, on a platform with 16-, 32- and 64-bit integers. */
  lemma {:induction false} ListedTypesValid()
    ensures Integral(16, 4, false).Valid() && Integral(15, 4, true).Valid()
    ensures Integral(32, 9, false).Valid() && Integral(31, 9, true).Valid()
    ensures Integral(64, 19, false).Valid() && Integral(63, 18, true).Valid()
  {
    PowersOfTwo();
    PowersOfTen();
    hide Words.Pow2, Pow10;
  }

  lemma {:induction false} PowersOfTwo()
    ensures Words.Pow2(15) == 0x8000 && Words.Pow2(16) == 0x1_0000
    ensures Words.Pow2(31) == 0x8000_0000 && Words.Pow2(32) == 0x1_0000_0000
    ensures Words.Pow2(63) == 0x8000_0000_0000_0000 && Words.Pow2(64) == 0x1_0000_0000_0000_0000
  {
    assert Words.Pow2(8) == 0x100;
    assert Words.Pow2(15) == 0x8000 && Words.Pow2(16) == 0x1_0000;
    assert Words.Pow2(24) == 0x100_0000;
    assert Words.Pow2(31) == 0x8000_0000 && Words.Pow2(32) == 0x1_0000_0000;
    assert Words.Pow2(40) == 0x100_0000_0000;
    assert Words.Pow2(48) == 0x1_0000_0000_0000;
    assert Words.Pow2(56) == 0x100_0000_0000_0000;
  }

  lemma {:induction false} PowersOfTen()
    ensures Pow10(4) == 10000 && Pow10(5) == 100000
    ensures Pow10(9) == 1000000000 && Pow10(10) == 10000000000
    ensures Pow10(18) == 1000000000000000000 && Pow10(19) == 10000000000000000000
    ensures Pow10(20) == 100000000000000000000
  {
    assert Pow10(4) == 10000 && Pow10(5) == 100000;
    assert Pow10(9) == 1000000000 && Pow10(10) == 10000000000;
    assert Pow10(14) == 100000000000000;
    assert Pow10(18) == 1000000000000000000 && Pow10(19) == 10000000000000000000;
  }

  /** `lcast_to_unsigned`: conversion to the unsigned type of the same width, negated there modulo a
      power of two when the value is negative. */
  function ToUnsigned(t: Integral, value: int): (u: nat)
    requires t.Holds(value)
  {
    var modulus := if t.signed then 2 * Words.Pow2(t.bits) else Words.Pow2(t.bits);
    var uvalue := if value < 0 then value + modulus else value;
    if value < 0 then (modulus - uvalue) % modulus else uvalue
  }

  /** The conversion yields the magnitude, the smallest value included. */
  lemma {:induction false} ToUnsignedIsMagnitude(t: Integral, value: int)
    requires t.Holds(value)
    ensures ToUnsigned(t, value) == if value < 0 then -value else value
  {
    if value < 0 {
      var modulus := 2 * Words.Pow2(t.bits);
      assert 0 <= -value < modulus;
      SmallModulus(-value, modulus);
    }
  }

  lemma SmallModulus(x: nat, m: nat)
    requires x < m
    ensures x % m == x
  {
  }

  /** The text of a value with its sign. */
  function Printed(value: int, grouping: seq<int>, sep: char): string {
    if value < 0 then "-" + Text(-value, grouping, sep) else Text(value, grouping, sep)
  }

  /** What reading a printed text means: a sign, then the digits without separators. */
  function ReadBack(text: string, sep: char): int
    requires AllDigits(WithoutSeparators(if text != "" && text[0] == '-' then text[1..] else text, sep))
  {
    if text != "" && text[0] == '-' then -(Value(WithoutSeparators(text[1..], sep)) as int)
    else Value(WithoutSeparators(text, sep))
  }

  /** Any text printed with a separator that is no digit is read back as its value. */
  lemma {:induction false} PrintedReads(value: int, grouping: seq<int>, sep: char)
    requires !('0' <= sep <= '9')
    ensures var text := Printed(value, grouping, sep);
            AllDigits(WithoutSeparators(if text != "" && text[0] == '-' then text[1..] else text, sep)) &&
            ReadBack(text, sep) == value
  {
    var n := if value < 0 then -value else value;
    DecimalReads(n);
    GroupingReads(Decimal(n), grouping, sep, 0, SizeOf(grouping, 0));
    TextStarts(n, grouping, sep);
    var text := Printed(value, grouping, sep);
    if value < 0 {
      assert text[1..] == Text(n, grouping, sep);
    }
  }

  lemma {:induction false} TextStarts(n: nat, grouping: seq<int>, sep: char)
    ensures var s := Text(n, grouping, sep); s != "" && '0' <= s[0] <= '9'
  {
    DecimalReads(n);
    GroupedStarts(Decimal(n), grouping, sep, 0, SizeOf(grouping, 0));
  }

  lemma {:induction false} GroupedStarts(digits: string, grouping: seq<int>, sep: char, group: nat, room: nat)
    requires digits != ""
    ensures var s := Grouped(digits, grouping, sep, group, room); s != "" && s[0] == digits[0]
    decreases |digits|, if room == 0 then 1 else 0
  {
    if |digits| <= room {
    } else if room == 0 {
      GroupedStarts(digits, grouping, sep, group + 1, SizeOf(grouping, group + 1));
    } else {
      GroupedStarts(digits[..|digits| - room], grouping, sep, group, 0);
    }
  }

  /** The text of every value of the type fits the statically sized buffer. */
  lemma {:induction false} PrintedFits(t: Integral, value: int, grouping: seq<int>, sep: char)
    requires t.Valid() && t.Holds(value)
    ensures |Printed(value, grouping, sep)| <= t.SourceLength()
    ensures |Text(ToUnsigned(t, value), grouping, sep)| <= 1 + 2 * t.digits10
    ensures value < 0 ==> t.signed
  {
    var n := if value < 0 then -value else value;
    ToUnsignedIsMagnitude(t, value);
    DecimalLength(n, t.digits10);
    GroupedLength(Decimal(n), grouping, sep, 0, SizeOf(grouping, 0));
  }

  lemma {:induction false} OneMoreDigit(n: nat, s: string)
    requires n >= 10 && Decimal(n / 10) == s
    ensures Decimal(n) == s + [('0' as int + n % 10) as char]
  {
  }

  lemma {:induction false} Decimal1234567()
    ensures Decimal(1234567) == ['1', '2', '3', '4', '5', '6', '7'] && Decimal(1234) == ['1', '2', '3', '4']
  {
    var one: string := ['1'];
    assert Decimal(1) == one;
    hide Decimal;
    OneMoreDigit(12, one);
    OneMoreDigit(123, one + ['2']);
    OneMoreDigit(1234, one + ['2'] + ['3']);
    OneMoreDigit(12345, one + ['2'] + ['3'] + ['4']);
    OneMoreDigit(123456, one + ['2'] + ['3'] + ['4'] + ['5']);
    OneMoreDigit(1234567, one + ['2'] + ['3'] + ['4'] + ['5'] + ['6']);
  }

  lemma {:induction false} SeparatedNext(ch: char, later: string, grouping: seq<int>, sep: char)
    ensures Separated([ch] + later, grouping, sep) ==
            [ch] + (if later != "" && EndsGroup(grouping, |later|, 0) then [sep] else "") + Separated(later, grouping, sep)
  {
    assert ([ch] + later)[1..] == later;
  }

  /** `k` is the sum of `count` group sizes from `group` on, all of them positive. */
  predicate IsSum(grouping: seq<int>, k: int, group: nat, count: nat)
    requires grouping != []
    decreases count
  {
    if count == 0 then k == 0
    else
      var size := grouping[if group < |grouping| then group else |grouping| - 1];
      size > 0 && IsSum(grouping, k - size, group + 1, count - 1)
  }

  predicate FirstGroups(grouping: seq<int>, k: int, group: nat, count: nat)
    requires grouping != []
  {
    count > 0 && IsSum(grouping, k, group, count)
  }

  /** A group ends `k` digits from the right exactly when the sizes of the first so many groups, the last
      size repeating, are positive and add up to `k`. */
  lemma {:induction false} EndsGroupIff(grouping: seq<int>, k: nat, group: nat)
    requires grouping != []
    ensures EndsGroup(grouping, k, group) <==> exists count: nat :: FirstGroups(grouping, k, group, count)
  {
    if EndsGroup(grouping, k, group) {
      var count := SumFound(grouping, k, group);
      assert FirstGroups(grouping, k, group, count);
    } else if exists count: nat :: FirstGroups(grouping, k, group, count) {
      var count: nat :| FirstGroups(grouping, k, group, count);
      SumEnds(grouping, k, group, count);
    }
  }

  lemma {:induction false} SumFound(grouping: seq<int>, k: nat, group: nat) returns (count: nat)
    requires EndsGroup(grouping, k, group)
    ensures count > 0 && IsSum(grouping, k, group, count)
    decreases k
  {
    var size := grouping[if group < |grouping| then group else |grouping| - 1];
    if k == size {
      assert IsSum(grouping, k - size, group + 1, 0);
      count := 1;
    } else {
      count := SumFound(grouping, k - size, group + 1);
      count := count + 1;
    }
  }

  lemma {:induction false} SumEnds(grouping: seq<int>, k: int, group: nat, count: nat)
    requires grouping != [] && count > 0 && IsSum(grouping, k, group, count)
    ensures k > 0 && EndsGroup(grouping, k, group)
    decreases count
  {
    if count > 1 {
      SumEnds(grouping, k - grouping[if group < |grouping| then group else |grouping| - 1], group + 1, count - 1);
    } else {
      assert IsSum(grouping, k - grouping[if group < |grouping| then group else |grouping| - 1], group + 1, 0);
    }
  }

  /** Groups of three, and of three and then two, on 1234567 and 1234. */
  lemma {:induction false} GroupingExamples()
    ensures forall k :: 0 < k < 7 ==> (EndsGroup([3], k, 0) <==> k == 3 || k == 6)
    ensures forall k :: 0 < k < 7 ==> (EndsGroup([3, 2], k, 0) <==> k == 3 || k == 5)
    ensures forall k :: 0 < k < 7 ==> (EndsGroup([3, 0], k, 0) <==> k == 3)
    ensures forall k :: 0 < k < 7 ==> !EndsGroup([], k, 0) && !EndsGroup([0], k, 0) && !EndsGroup([-1], k, 0)
  {
  }

  /** One number in full: -1234 in groups of three. */
  lemma {:induction false} PrintedExample()
    ensures Printed(-1234, [3], ',') == "-" + (['1', ','] + ['2', '3', '4'])
    ensures Printed(1234567, [], ',') == ['1', '2', '3', '4', '5', '6', '7']
  {
    Decimal1234567();
    GroupingExamples();
    hide Decimal;
    TextSeparates(1234, [3], ',');
    TextSeparates(1234567, [], ',');
    hide Text, EndsGroup;
    assert Separated("", [3], ',') == "";
    hide Separated;
    SeparatedNext('4', "", [3], ',');
    SeparatedNext('3', ['4'], [3], ',');
    SeparatedNext('2', ['3', '4'], [3], ',');
    SeparatedNext('1', ['2', '3', '4'], [3], ',');
    assert ['1', '2', '3', '4'] == ['1'] + ['2', '3', '4'] && ['2', '3', '4'] == ['2'] + ['3', '4'] && ['3', '4'] == ['3'] + ['4'];
    NeverSeparated(['1', '2', '3', '4', '5', '6', '7'], ',');
  }

  /** Without grouping there are only digits. */
  lemma {:induction false} NeverSeparated(digits: string, sep: char)
    ensures Separated(digits, [], sep) == digits
  {
    if digits != "" {
      NeverSeparated(digits[1..], sep);
    }
  }

  /** The buffer is not larger than it has to be: the smallest value of a signed type, in groups of one
      digit, fills it. */
  lemma {:induction false} SourceLengthTight(t: Integral, sep: char)
    requires t.Valid() && t.signed && t.digits10 < 127
    ensures |Printed(-(Words.Pow2(t.bits) as int), [1], sep)| == t.SourceLength()
  {
    var n := Words.Pow2(t.bits);
    DecimalPlaces(n, 0);
    DecimalLength(n, t.digits10);
    LongEnough(|Decimal(n)|, t.digits10, n);
    hide Decimal;
    TextSeparates(n, [1], sep);
    SeparatedOnes(Decimal(n), sep);
  }

  lemma {:induction false} LongEnough(len: nat, k: nat, n: nat)
    requires n < Pow10(len) && Pow10(k) <= n
    ensures len > k
  {
    if len <= k {
      Pow10Grows(len, k);
    }
  }

  lemma {:induction false} Pow10Grows(a: nat, b: nat)
    requires a <= b
    ensures Pow10(a) <= Pow10(b)
  {
    if a < b {
      Pow10Grows(a, b - 1);
    }
  }

  lemma {:induction false} SeparatedOnes(digits: string, sep: char)
    requires digits != ""
    ensures |Separated(digits, [1], sep)| == 2 * |digits| - 1
  {
    if |digits| > 1 {
      EveryDigitEnds(|digits| - 1, 0);
      SeparatedOnes(digits[1..], sep);
    } else {
      assert digits[1..] == "";
    }
  }

  lemma {:induction false} EveryDigitEnds(k: nat, group: nat)
    requires k > 0
    ensures EndsGroup([1], k, group)
  {
    if k > 1 {
      EveryDigitEnds(k - 1, group + 1);
    }
  }

  // ----- The code -----

  /** The text still to be written in front of what has been written. */
  function ToCome(n: nat, more: bool, grouping: seq<int>, sep: char, group: nat, room: nat): string {
    if more then Grouped(Decimal(n), grouping, sep, group, room) else ""
  }

  lemma {:induction false} SeparatorNext(n: nat, grouping: seq<int>, sep: char, group: nat)
    ensures var rest := Grouped(Decimal(n), grouping, sep, group + 1, SizeOf(grouping, group + 1));
            Grouped(Decimal(n), grouping, sep, group, 0) == rest + [sep] && rest != ""
  {
    GroupedStarts(Decimal(n), grouping, sep, group + 1, SizeOf(grouping, group + 1));
  }

  lemma {:induction false} DigitNext(n: nat, grouping: seq<int>, sep: char, group: nat, room: nat)
    requires room > 0
    ensures Grouped(Decimal(n), grouping, sep, group, room) ==
            ToCome(n / 10, n / 10 != 0, grouping, sep, group, room - 1) + [Digit(n % 10)]
  {
    GroupedLast(Decimal(n), grouping, sep, group, room);
    var s := Decimal(n);
    if n < 10 {
      assert s[..|s| - 1] == "" && s[|s| - 1] == Digit(n % 10);
    } else {
      assert s[..|s| - 1] == Decimal(n / 10) && s[|s| - 1] == Digit(n % 10);
    }
  }

  lemma NextSize(grouping: seq<int>, group: nat)
    ensures SizeOf(grouping, group + 1) ==
            if group + 1 < |grouping| then GroupSize(grouping[group + 1]) else SizeOf(grouping, group)
  {
  }

  lemma MoveIn(text: string, rest: string, ch: char, written: string)
    requires text == (rest + [ch]) + written
    ensures text == rest + ([ch] + written) && |rest| + 1 + |written| == |text|
  {
  }

  /** `Traits::assign` one place further to the left. */
  method WriteBefore(buffer: array<char>, start: nat, finish: nat, ch: char) returns (now: nat)
    requires 0 < start <= finish <= buffer.Length
    modifies buffer
    ensures now == start - 1 && buffer[now..finish] == [ch] + old(buffer[start..finish])
    ensures forall i :: 0 <= i < buffer.Length && i != now ==> buffer[i] == old(buffer[i])
  {
    now := start - 1;
    buffer[now] := ch;
  }

  /** `lcast_put_unsigned`: writes the digits of `n` backwards, ending before `finish`. */
  method PutUnsigned(number: nat, buffer: array<char>, finish: nat, grouping: seq<int>, thousandsSep: char)
    returns (start: nat)
    requires |Text(number, grouping, thousandsSep)| <= finish <= buffer.Length
    modifies buffer
    ensures start <= finish && buffer[start..finish] == Text(number, grouping, thousandsSep)
    ensures forall i :: 0 <= i < buffer.Length && !(start <= i < finish) ==> buffer[i] == old(buffer[i])
  {
    ghost var text := Text(number, grouping, thousandsSep);
    start := finish;
    var n := number;
    var group: nat := 0;
    var lastGroupSize := if grouping == [] then CHAR_MAX else GroupSize(grouping[0]);
    var left: nat := lastGroupSize;
    var more := true;
    assert buffer[start..finish] == "";
    hide Grouped, Decimal, SizeOf;
    while more
      invariant start <= finish <= buffer.Length && |text| <= finish
      invariant lastGroupSize == SizeOf(grouping, group)
      invariant forall i :: 0 <= i < buffer.Length && !(start <= i < finish) ==> buffer[i] == old(buffer[i])
      invariant text == ToCome(n, more, grouping, thousandsSep, group, left) + buffer[start..finish]
      invariant more || n == 0
      decreases n, more
    {
      if left == 0 {
        SeparatorNext(n, grouping, thousandsSep, group);
        NextSize(grouping, group);
        group := group + 1;
        if group < |grouping| {
          lastGroupSize := GroupSize(grouping[group]);
        }
        left := lastGroupSize;
        ghost var rest := Grouped(Decimal(n), grouping, thousandsSep, group, left);
        MoveIn(text, rest, thousandsSep, buffer[start..finish]);
        start := WriteBefore(buffer, start, finish, thousandsSep);
      }
      DigitNext(n, grouping, thousandsSep, group, left);
      left := left - 1;
      MoveIn(text, ToCome(n / 10, n / 10 != 0, grouping, thousandsSep, group, left), Digit(n % 10), buffer[start..finish]);
      start := WriteBefore(buffer, start, finish, Digit(n % 10));
      n := n / 10;
      more := n != 0;
    }
    assert "" + buffer[start..finish] == buffer[start..finish];
  }

  /** The integral `operator<<`: digits into the whole source buffer, then the sign in front. */
  method Insert(t: Integral, value: int, grouping: seq<int>, thousandsSep: char) returns (buffer: array<char>, start: nat)
    requires t.Valid() && t.Holds(value)
    ensures fresh(buffer) && buffer.Length == t.SourceLength() && start <= buffer.Length
    ensures buffer[start..] == Printed(value, grouping, thousandsSep)
  {
    PrintedFits(t, value, grouping, thousandsSep);
    ToUnsignedIsMagnitude(t, value);
    buffer := new char[t.SourceLength()];
    var finish := buffer.Length;
    start := PutUnsigned(ToUnsigned(t, value), buffer, finish, grouping, thousandsSep);
    if value < 0 {
      assert finish - start == |Text(-value, grouping, thousandsSep)|;
      ghost var text := buffer[start..finish];
      start := start - 1;
      buffer[start] := '-';
      assert buffer[start..] == "-" + text;
    }
  }
}
