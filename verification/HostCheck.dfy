/** Matching a host name against a certificate's name as amqp_hostcheck.c does, following the
    wildcard rules of section 6.4.3 of RFC 6125. */
module HostCheck {

  // ----- C strings -----

  /** A C string without its terminator. */
  predicate IsCString(s: string) {
    forall i :: 0 <= i < |s| ==> s[i] != '\0'
  }

  /** The character at position `i`, the terminator included. */
  function At(s: string, i: nat): char
    requires i <= |s|
  {
    if i == |s| then '\0' else s[i]
  }

  predicate FirstAt(s: string, ch: char, k: nat) {
    k <= |s| && (k < |s| ==> s[k] == ch) && forall i :: 0 <= i < k ==> s[i] != ch
  }

  /** `strchr` for a character other than the terminator: its first position, or the length. */
  function Find(s: string, ch: char): (k: nat)
    ensures k <= |s| && FirstAt(s, ch, k)
  {
    if s == "" || s[0] == ch then 0 else 1 + Find(s[1..], ch)
  }

  /** `amqp_raw_toupper` */
  function ToUpper(ch: char): (u: char)
    ensures ch == '\0' <==> u == '\0'
    ensures ch == '.' <==> u == '.'
  {
    if 'a' <= ch <= 'z' then ch - 'a' + 'A' else ch
  }

  /** Equal ignoring ASCII case. */
  predicate SameText(a: string, b: string) {
    |a| == |b| && forall i :: 0 <= i < |a| ==> ToUpper(a[i]) == ToUpper(b[i])
  }

  function Take(s: string, n: nat): string {
    if n <= |s| then s[..n] else s
  }

  /** Two characters count as the same when they are, or when one is an ASCII capital, 65 to 90, and
      the other the small letter 32 above it. */
  lemma {:induction false} SameLetterIff(a: char, b: char)
    ensures ToUpper(a) == ToUpper(b) <==>
            var x, y := a as int, b as int;
            x == y || (65 <= x <= 90 && y == x + 32) || (65 <= y <= 90 && x == y + 32)
  {
  }

  /** The same for texts. */
  lemma {:induction false} SameTextIff(a: string, b: string)
    ensures SameText(a, b) <==>
            |a| == |b| && forall i :: 0 <= i < |a| ==>
              var x, y := a[i] as int, b[i] as int;
              x == y || (65 <= x <= 90 && y == x + 32) || (65 <= y <= 90 && x == y + 32)
  {
    if |a| == |b| {
      forall i | 0 <= i < |a|
        ensures ToUpper(a[i]) == ToUpper(b[i]) <==>
                var x, y := a[i] as int, b[i] as int;
                x == y || (65 <= x <= 90 && y == x + 32) || (65 <= y <= 90 && x == y + 32)
      {
        SameLetterIff(a[i], b[i]);
      }
      hide ToUpper;
    }
  }

  /** `amqp_raw_equal` decides equality ignoring case: the lengths agree, and at each place the two
      characters are equal or are a capital, 65 to 90, and the small letter 32 above it. */
  method RawEqual(first: string, second: string) returns (equal: bool)
    requires IsCString(first) && IsCString(second)
    ensures equal <==> SameText(first, second)
    ensures equal <==>
            |first| == |second| && forall i :: 0 <= i < |first| ==>
              var x, y := first[i] as int, second[i] as int;
              x == y || (65 <= x <= 90 && y == x + 32) || (65 <= y <= 90 && x == y + 32)
  {
    SameTextIff(first, second);
    var i := 0;
    while At(first, i) != '\0' && At(second, i) != '\0'
      invariant i <= |first| && i <= |second|
      invariant forall j :: 0 <= j < i ==> ToUpper(first[j]) == ToUpper(second[j])
      decreases |first| - i
    {
      if ToUpper(At(first, i)) != ToUpper(At(second, i)) {
        break;
      }
      i := i + 1;
    }
    equal := ToUpper(At(first, i)) == ToUpper(At(second, i));
  }

  /** `amqp_raw_nequal` compares the first `max` characters, as far as there are so many. */
  method RawNEqual(first: string, second: string, max: nat) returns (equal: bool)
    requires IsCString(first) && IsCString(second)
    ensures equal <==> SameText(Take(first, max), Take(second, max))
  {
    var i, left := 0, max;
    while At(first, i) != '\0' && At(second, i) != '\0' && left != 0
      invariant i <= |first| && i <= |second| && left == max - i
      invariant forall j :: 0 <= j < i ==> ToUpper(first[j]) == ToUpper(second[j])
      decreases left
    {
      if ToUpper(At(first, i)) != ToUpper(At(second, i)) {
        break;
      }
      left, i := left - 1, i + 1;
    }
    if left == 0 {
      assert Take(first, max) == first[..max] && Take(second, max) == second[..max];
      return true;
    }
    equal := ToUpper(At(first, i)) == ToUpper(At(second, i));
    ghost var a, b := Take(first, max), Take(second, max);
    if i < |first| && i < |second| {
      assert a[i] == first[i] && b[i] == second[i];
    }
  }

  // ----- What should match -----

  /** A pattern that may act as a wildcard, in its parts: `prefix*suffix.rest`, where `rest` has
      another dot and the pattern is no internationalised label. */
  predicate WildcardParts(pattern: string, prefix: string, suffix: string, rest: string) {
    && pattern == prefix + "*" + suffix + "." + rest
    && '.' !in prefix && '*' !in prefix && '.' !in suffix
    && '.' in rest
    && !SameText(Take(pattern, 4), "xn--")
  }

  /** The host has a non-empty, dot-free text in place of the asterisk. */
  predicate Fits(host: string, prefix: string, wild: string, suffix: string, rest: string) {
    wild != "" && '.' !in wild && SameText(host, prefix + wild + suffix + "." + rest)
  }

  ghost predicate WildcardMatch(pattern: string, host: string) {
    exists prefix, wild, suffix, rest :: WildcardParts(pattern, prefix, suffix, rest) && Fits(host, prefix, wild, suffix, rest)
  }

  // ----- How the code decides it -----

  /** The conditions of `amqp_hostmatch` under which the asterisk counts. */
  predicate Enabled(pattern: string) {
    var star, dot := Find(pattern, '*'), Find(pattern, '.');
    star < |pattern| && dot < |pattern| && '.' in pattern[dot + 1..] && star <= dot && !SameText(Take(pattern, 4), "xn--")
  }

  /** The comparisons of `amqp_hostmatch`: what precedes and follows the asterisk with the two ends of the
      host's first label, and what follows that label. */
  predicate LabelsCompare(host: string, hostDot: nat, prefix: string, suffix: string, tail: string) {
    |prefix| + 1 + |suffix| <= hostDot < |host| && SameText(prefix, host[..|prefix|]) &&
    SameText(suffix, host[hostDot - |suffix|..hostDot]) && SameText(tail, host[hostDot..])
  }

  predicate LabelsFit(pattern: string, host: string) {
    var star, dot := Find(pattern, '*'), Find(pattern, '.');
    star < dot < |pattern| &&
    LabelsCompare(host, Find(host, '.'), pattern[..star], pattern[star + 1..dot], pattern[dot..])
  }

  lemma {:induction false} FindUnique(s: string, ch: char, k: nat)
    requires FirstAt(s, ch, k)
    ensures Find(s, ch) == k
  {
    assert FirstAt(s, ch, Find(s, ch));
    hide Find;
  }

  lemma {:induction false} FindBehind(a: string, b: string, ch: char)
    requires ch !in a
    ensures Find(a + b, ch) == |a| + Find(b, ch)
  {
    var k := |a| + Find(b, ch);
    assert k < |a + b| ==> (a + b)[k] == b[Find(b, ch)];
    FindUnique(a + b, ch, k);
  }

  lemma {:induction false} FindHead(ch: char, b: string)
    ensures Find([ch] + b, ch) == 0
  {
  }

  lemma {:induction false} SameDots(a: string, b: string)
    requires SameText(a, b)
    ensures Find(a, '.') == Find(b, '.')
  {
    forall i | 0 <= i < |a|
      ensures a[i] == '.' <==> b[i] == '.'
    {
      assert ToUpper(a[i]) == ToUpper(b[i]);
    }
    FindUnique(b, '.', Find(a, '.'));
  }

  /** Comparing with a concatenation is comparing part by part. */
  lemma {:induction false} SameSplit(host: string, a: string, b: string)
    ensures SameText(host, a + b) <==> |a| <= |host| && SameText(host[..|a|], a) && SameText(host[|a|..], b)
  {
    if |a| <= |host| && SameText(host[..|a|], a) && SameText(host[|a|..], b) {
      forall i | 0 <= i < |host|
        ensures ToUpper(host[i]) == ToUpper((a + b)[i])
      {
        if i >= |a| {
          assert host[i] == host[|a|..][i - |a|];
        } else {
          assert host[i] == host[..|a|][i];
        }
      }
    }
    if SameText(host, a + b) {
      forall i | 0 <= i < |b|
        ensures ToUpper(host[|a|..][i]) == ToUpper(b[i])
      {
        assert ToUpper(host[|a| + i]) == ToUpper((a + b)[|a| + i]);
      }
    }
  }

  lemma {:induction false} SameSwap(a: string, b: string)
    ensures SameText(a, b) <==> SameText(b, a)
  {
  }

  /** Comparing a host with the parts of a wildcard pattern, laid out from the left. */
  predicate PartsFit(host: string, p: nat, w: nat, x: nat, prefix: string, wild: string, suffix: string, tail: string) {
    p + w + x <= |host| && SameText(host[..p], prefix) && SameText(host[p..p + w], wild) &&
    SameText(host[p + w..p + w + x], suffix) && SameText(host[p + w + x..], tail)
  }

  lemma {:induction false} SliceSlice(s: string, i: nat, n: nat)
    requires i + n <= |s|
    ensures s[i..][..n] == s[i..i + n] && s[i..][n..] == s[i + n..]
  {
  }

  lemma {:induction false} FitsTwo(host: string, from: nat, a: string, b: string)
    requires from <= |host|
    ensures SameText(host[from..], a + b) <==>
            from + |a| <= |host| && SameText(host[from..from + |a|], a) && SameText(host[from + |a|..], b)
  {
    SameSplit(host[from..], a, b);
    hide SameText;
    if from + |a| <= |host| {
      SliceSlice(host, from, |a|);
    }
  }

  lemma {:induction false} FitsParts(host: string, prefix: string, wild: string, suffix: string, rest: string)
    ensures SameText(host, prefix + wild + suffix + "." + rest) <==>
            PartsFit(host, |prefix|, |wild|, |suffix|, prefix, wild, suffix, "." + rest)
  {
    hide SameText;
    var p, w, tail := |prefix|, |wild|, "." + rest;
    assert prefix + wild + suffix + "." + rest == prefix + (wild + (suffix + tail));
    SameSplit(host, prefix, wild + (suffix + tail));
    if p <= |host| {
      FitsTwo(host, p, wild, suffix + tail);
      if p + w <= |host| {
        FitsTwo(host, p + w, suffix, tail);
      }
    }
  }

  /** A pattern cut where its parts meet. */
  lemma {:induction false} PatternSlices(pattern: string, prefix: string, suffix: string, rest: string)
    requires pattern == prefix + "*" + suffix + "." + rest
    ensures var d := |prefix| + 1 + |suffix|;
            d < |pattern| && pattern[..|prefix|] == prefix && pattern[|prefix| + 1..d] == suffix &&
            pattern[d..] == "." + rest && pattern[d + 1..] == rest
  {
    var d := |prefix| + 1 + |suffix|;
    assert |pattern| == d + 1 + |rest|;
    assert pattern[..|prefix|] == prefix;
    assert pattern[|prefix| + 1..d] == suffix;
    assert pattern[d..] == "." + rest;
    assert pattern[d + 1..] == rest;
  }

  lemma {:induction false} StarAndDot(pattern: string, prefix: string, suffix: string, rest: string)
    requires pattern == prefix + "*" + suffix + "." + rest
    requires '.' !in prefix && '*' !in prefix && '.' !in suffix
    ensures Find(pattern, '*') == |prefix| && Find(pattern, '.') == |prefix| + 1 + |suffix|
  {
    var tail := suffix + "." + rest;
    assert pattern == prefix + ("*" + tail);
    FindBehind(prefix, "*" + tail, '*');
    FindHead('*', tail);
    var head := prefix + "*" + suffix;
    assert pattern == head + ("." + rest);
    FindBehind(head, "." + rest, '.');
    FindHead('.', rest);
  }

  lemma {:induction false} PartsEnable(pattern: string, prefix: string, suffix: string, rest: string)
    requires WildcardParts(pattern, prefix, suffix, rest)
    ensures Enabled(pattern) && Find(pattern, '*') == |prefix| && Find(pattern, '.') == |prefix| + 1 + |suffix|
  {
    hide Find, FirstAt, SameText, Take;
    StarAndDot(pattern, prefix, suffix, rest);
    PatternSlices(pattern, prefix, suffix, rest);
  }

  lemma {:induction false} CutInFive(s: string, i: nat, j: nat)
    requires i < j < |s|
    ensures s == s[..i] + [s[i]] + s[i + 1..j] + [s[j]] + s[j + 1..]
  {
  }

  lemma {:induction false} NothingBefore(s: string, ch: char, from: nat, to: nat)
    requires from <= to <= Find(s, ch)
    ensures ch !in s[from..to] && ch !in s[..to]
  {
    assert FirstAt(s, ch, Find(s, ch));
    hide Find;
  }

  lemma {:induction false} FoundThere(s: string, ch: char)
    requires Find(s, ch) < |s|
    ensures s[Find(s, ch)] == ch
  {
    assert FirstAt(s, ch, Find(s, ch));
    hide Find;
  }

  lemma {:induction false} StarBeforeDot(pattern: string)
    requires Enabled(pattern)
    ensures Find(pattern, '*') < Find(pattern, '.') < |pattern|
  {
    FoundThere(pattern, '*');
    FoundThere(pattern, '.');
  }

  lemma {:induction false} EnabledParts(pattern: string) returns (prefix: string, suffix: string, rest: string)
    requires Enabled(pattern)
    ensures WildcardParts(pattern, prefix, suffix, rest)
  {
    var star, dot := Find(pattern, '*'), Find(pattern, '.');
    StarBeforeDot(pattern);
    FoundThere(pattern, '*');
    FoundThere(pattern, '.');
    hide Find, FirstAt, SameText, Take;
    CutInFive(pattern, star, dot);
    NothingBefore(pattern, '*', star, star);
    NothingBefore(pattern, '.', star + 1, dot);
    NothingBefore(pattern, '.', star, star);
    prefix, suffix, rest := pattern[..star], pattern[star + 1..dot], pattern[dot + 1..];
  }

  lemma {:induction false} FirstDot(host: string, firstLabel: string, rest: string)
    requires SameText(host, firstLabel + "." + rest) && '.' !in firstLabel
    ensures Find(host, '.') == |firstLabel| < |host|
  {
    assert firstLabel + "." + rest == firstLabel + ("." + rest);
    SameDots(host, firstLabel + ("." + rest));
    FindBehind(firstLabel, "." + rest, '.');
    FindHead('.', rest);
  }

  lemma {:induction false} PartSlices(pattern: string, prefix: string, suffix: string, rest: string)
    requires WildcardParts(pattern, prefix, suffix, rest)
    ensures var d := |prefix| + 1 + |suffix|;
            d < |pattern| && pattern[..|prefix|] == prefix && pattern[|prefix| + 1..d] == suffix &&
            pattern[d..] == "." + rest
  {
    PatternSlices(pattern, prefix, suffix, rest);
    hide SameText;
  }

  lemma {:induction false} LabelsFitIff(pattern: string, host: string, prefix: string, suffix: string, rest: string)
    requires WildcardParts(pattern, prefix, suffix, rest)
    ensures LabelsFit(pattern, host) <==> LabelsCompare(host, Find(host, '.'), prefix, suffix, "." + rest)
  {
    hide Find, FirstAt, SameText, WildcardParts, Enabled, LabelsCompare;
    PartsEnable(pattern, prefix, suffix, rest);
    PartSlices(pattern, prefix, suffix, rest);
  }

  lemma {:induction false} ComparedFits(host: string, hostDot: nat, prefix: string, suffix: string, tail: string)
    returns (wild: string)
    requires LabelsCompare(host, hostDot, prefix, suffix, tail) && hostDot == Find(host, '.')
    ensures wild != "" && '.' !in wild && PartsFit(host, |prefix|, |wild|, |suffix|, prefix, wild, suffix, tail)
  {
    hide Find, SameText;
    var p, behind := |prefix|, hostDot - |suffix|;
    wild := host[p..behind];
    NothingBefore(host, '.', p, behind);
    SameItself(wild);
    SameSwap(prefix, host[..p]);
    SameSwap(suffix, host[behind..hostDot]);
    SameSwap(tail, host[hostDot..]);
  }

  /** A host in the described form passes the comparisons. */
  lemma {:induction false} FitsLabels(pattern: string, host: string, prefix: string, wild: string, suffix: string, rest: string)
    requires WildcardParts(pattern, prefix, suffix, rest) && Fits(host, prefix, wild, suffix, rest)
    ensures Enabled(pattern) && LabelsFit(pattern, host)
  {
    PartsEnable(pattern, prefix, suffix, rest);
    LabelsFitIff(pattern, host, prefix, suffix, rest);
    FitsCompared(host, prefix, wild, suffix, rest);
    hide *;
  }

  lemma {:induction false} FitsCompared(host: string, prefix: string, wild: string, suffix: string, rest: string)
    requires Fits(host, prefix, wild, suffix, rest) && '.' !in prefix && '.' !in suffix
    ensures LabelsCompare(host, Find(host, '.'), prefix, suffix, "." + rest)
  {
    var p, w, x := |prefix|, |wild|, |suffix|;
    hide Find, SameText;
    FirstDot(host, prefix + wild + suffix, rest);
    FitsParts(host, prefix, wild, suffix, rest);
    SameSwap(host[..p], prefix);
    SameSwap(host[p + w..p + w + x], suffix);
    SameSwap(host[p + w + x..], "." + rest);
  }

  lemma {:induction false} PartsMatch(pattern: string, host: string, prefix: string, wild: string, suffix: string, rest: string)
    requires WildcardParts(pattern, prefix, suffix, rest) && wild != "" && '.' !in wild
    requires PartsFit(host, |prefix|, |wild|, |suffix|, prefix, wild, suffix, "." + rest)
    ensures WildcardMatch(pattern, host)
  {
    hide SameText, WildcardParts, PartsFit;
    FitsParts(host, prefix, wild, suffix, rest);
    assert Fits(host, prefix, wild, suffix, rest);
  }

  /** A host that passes the comparisons has the described form. */
  lemma {:induction false} LabelsFits(pattern: string, host: string)
    requires Enabled(pattern) && LabelsFit(pattern, host)
    ensures WildcardMatch(pattern, host)
  {
    hide *;
    var prefix, suffix, rest := EnabledParts(pattern);
    LabelsFitIff(pattern, host, prefix, suffix, rest);
    var wild := ComparedFits(host, Find(host, '.'), prefix, suffix, "." + rest);
    PartsMatch(pattern, host, prefix, wild, suffix, rest);
  }

  lemma {:induction false} SameItself(a: string)
    ensures SameText(a, a)
  {
  }

  /** The code's comparisons decide exactly the wildcard match. */
  lemma {:induction false} LabelsDecide(pattern: string, host: string)
    ensures Enabled(pattern) && LabelsFit(pattern, host) <==> WildcardMatch(pattern, host)
  {
    if Enabled(pattern) && LabelsFit(pattern, host) {
      LabelsFits(pattern, host);
    }
    if WildcardMatch(pattern, host) {
      var prefix, wild, suffix, rest :|
        WildcardParts(pattern, prefix, suffix, rest) && Fits(host, prefix, wild, suffix, rest);
      FitsLabels(pattern, host, prefix, wild, suffix, rest);
    }
  }

  // ----- The code -----

  lemma {:induction false} TakeSlice(s: string, from: nat, n: nat)
    requires from + n <= |s|
    ensures Take(s[from..], n) == s[from..from + n]
  {
  }

  lemma {:induction false} BehindIsCString(s: string, from: nat)
    requires IsCString(s) && from <= |s|
    ensures IsCString(s[from..])
  {
  }

  /** The comparison of the labels, once the wildcard counts. */
  method CompareLabels(hostname: string, pattern: string, star: nat, dot: nat) returns (matched: bool)
    requires IsCString(hostname) && IsCString(pattern) && Enabled(pattern)
    requires star == Find(pattern, '*') && dot == Find(pattern, '.')
    ensures matched <==> LabelsFit(pattern, hostname)
  {
    hide Find, FirstAt, SameText, WildcardParts, Take, IsCString;
    StarBeforeDot(pattern);
    hide Enabled;
    var hostDot := Find(hostname, '.');
    if hostDot == |hostname| {
      return false;
    }
    BehindIsCString(pattern, dot);
    BehindIsCString(hostname, hostDot);
    var sameRest := RawEqual(pattern[dot..], hostname[hostDot..]);
    if !sameRest {
      return false;
    }
    if hostDot < dot {
      return false;
    }
    var prefixLength, suffixLength := star, dot - (star + 1);
    assert pattern[0..] == pattern && hostname[0..] == hostname;
    TakeSlice(pattern, 0, prefixLength);
    TakeSlice(hostname, 0, prefixLength);
    var samePrefix := RawNEqual(pattern, hostname, prefixLength);
    BehindIsCString(pattern, star + 1);
    BehindIsCString(hostname, hostDot - suffixLength);
    TakeSlice(pattern, star + 1, suffixLength);
    TakeSlice(hostname, hostDot - suffixLength, suffixLength);
    var sameSuffix := RawNEqual(pattern[star + 1..], hostname[hostDot - suffixLength..], suffixLength);
    matched := samePrefix && sameSuffix;
  }

  /** `amqp_hostmatch` */
  method HostMatch(hostname: string, pattern: string) returns (matched: bool)
    requires IsCString(hostname) && IsCString(pattern)
    ensures matched <==>
              if Enabled(pattern) then LabelsFit(pattern, hostname) else SameText(pattern, hostname)
  {
    var star := Find(pattern, '*');
    if star == |pattern| {
      matched := RawEqual(pattern, hostname);
      return;
    }
    var enabled := true;
    var dot := Find(pattern, '.');
    var international := RawNEqual(pattern, "xn--", 4);
    assert Take("xn--", 4) == "xn--";
    hide Find, SameText, LabelsFit, Take;
    if dot == |pattern| || '.' !in pattern[dot + 1..] || star > dot || international {
      enabled := false;
    }
    assert enabled <==> Enabled(pattern);
    if !enabled {
      matched := RawEqual(pattern, hostname);
      return;
    }
    matched := CompareLabels(hostname, pattern, star, dot);
  }

  /** `amqp_hostcheck`: empty names never match; others match when they are equal ignoring case or by
      the wildcard rule, and in no other case. */
  method Check(matchPattern: string, hostname: string) returns (matched: bool)
    requires IsCString(matchPattern) && IsCString(hostname)
    ensures matched <==> matchPattern != "" && hostname != "" &&
                         (SameText(matchPattern, hostname) || WildcardMatch(matchPattern, hostname))
  {
    if matchPattern == "" || hostname == "" {
      return false;
    }
    SameSwap(hostname, matchPattern);
    var equal := RawEqual(hostname, matchPattern);
    if equal {
      return true;
    }
    LabelsDecide(matchPattern, hostname);
    matched := HostMatch(hostname, matchPattern);
  }

  // ----- What the wildcard rule asks for -----

  /** "xn--" in either case, at the start of an internationalised label. */
  lemma {:induction false} InternationalIff(pattern: string)
    ensures SameText(Take(pattern, 4), "xn--") <==>
            |pattern| >= 4 && (pattern[0] as int == 88 || pattern[0] as int == 120) &&
            (pattern[1] as int == 78 || pattern[1] as int == 110) && pattern[2] as int == 45 == pattern[3] as int
  {
    var t, x := Take(pattern, 4), "xn--";
    assert x[0] as int == 120 && x[1] as int == 110 && x[2] as int == 45 == x[3] as int;
    SameTextIff(t, x);
    hide SameText;
    if |pattern| >= 4 {
      assert t[0] == pattern[0] && t[1] == pattern[1] && t[2] == pattern[2] && t[3] == pattern[3];
    }
  }

  /** A wildcard match needs an asterisk in the first label, two further labels and no internationalised
      one in front; the host is no shorter than the pattern, and agrees with it from the first dots on. */
  lemma {:induction false} WildcardNeeds(pattern: string, host: string)
    requires WildcardMatch(pattern, host)
    ensures |host| >= |pattern|
    ensures !(|pattern| >= 4 && (pattern[0] as int == 88 || pattern[0] as int == 120) &&
              (pattern[1] as int == 78 || pattern[1] as int == 110) && pattern[2] as int == 45 == pattern[3] as int)
    ensures var i, j, h := Find(pattern, '*'), Find(pattern, '.'), Find(host, '.');
            i < j < |pattern| && h < |host| && h >= j && '.' in pattern[j + 1..] &&
            SameText(host[h..], pattern[j..])
  {
    LabelsDecide(pattern, host);
    InternationalIff(pattern);
    StarBeforeDot(pattern);
    var j, h := Find(pattern, '.'), Find(host, '.');
    SameSwap(host[h..], pattern[j..]);
    hide Find, FirstAt;
    assert |host[h..]| == |pattern[j..]|;
  }

  /** And a pattern with such an asterisk matches whatever non-empty text without a dot takes its place. */
  lemma {:induction false} WildcardSuffices(prefix: string, wild: string, suffix: string, rest: string)
    requires '.' !in prefix && '*' !in prefix && '.' !in suffix && '.' in rest && wild != "" && '.' !in wild
    requires var p := prefix + "*" + suffix + "." + rest;
             !(|p| >= 4 && (p[0] as int == 88 || p[0] as int == 120) && (p[1] as int == 78 || p[1] as int == 110) &&
               p[2] as int == 45 == p[3] as int)
    ensures WildcardMatch(prefix + "*" + suffix + "." + rest, prefix + wild + suffix + "." + rest)
  {
    InternationalIff(prefix + "*" + suffix + "." + rest);
    assert Fits(prefix + wild + suffix + "." + rest, prefix, wild, suffix, rest);
    assert WildcardParts(prefix + "*" + suffix + "." + rest, prefix, suffix, rest);
  }

  // ----- Case -----

  lemma {:induction false} SameTransitive(a: string, b: string, c: string)
    requires SameText(a, b) && SameText(b, c)
    ensures SameText(a, c)
  {
  }

  lemma {:induction false} SameEither(a: string, b: string, c: string)
    requires SameText(a, b)
    ensures SameText(a, c) <==> SameText(b, c)
    ensures SameText(c, a) <==> SameText(c, b)
  {
  }

  lemma {:induction false} FrontAndRest(s: string, i: nat)
    requires i <= |s|
    ensures s[..i] == s[0..i] && s[i..] == s[i..|s|]
  {
  }

  lemma {:induction false} SameSlices(a: string, b: string, i: nat, j: nat)
    requires SameText(a, b) && i <= j <= |a|
    ensures SameText(a[i..j], b[i..j])
  {
    forall k | 0 <= k < j - i
      ensures ToUpper(a[i..j][k]) == ToUpper(b[i..j][k])
    {
      assert a[i..j][k] == a[i + k] && b[i..j][k] == b[i + k];
    }
  }

  /** A character that has no case is at the same places. */
  lemma {:induction false} SameFind(a: string, b: string, ch: char)
    requires SameText(a, b) && (ch == '*' || ch == '.')
    ensures Find(a, ch) == Find(b, ch)
  {
    forall i | 0 <= i < |a|
      ensures a[i] == ch <==> b[i] == ch
    {
      assert ToUpper(a[i]) == ToUpper(b[i]);
      SameLetterIff(a[i], b[i]);
    }
    FindUnique(b, ch, Find(a, ch));
  }

  lemma {:induction false} DotIn(s: string)
    ensures '.' in s <==> Find(s, '.') < |s|
  {
    assert FirstAt(s, '.', Find(s, '.'));
    hide Find;
  }

  lemma {:induction false} SameEnabled(p: string, q: string)
    requires SameText(p, q)
    ensures Enabled(p) <==> Enabled(q)
  {
    SameFind(p, q, '*');
    SameFind(p, q, '.');
    var dot := Find(p, '.');
    assert |p| == |q|;
    if dot < |p| {
      FrontAndRest(p, dot + 1);
      FrontAndRest(q, dot + 1);
      SameSlices(p, q, dot + 1, |p|);
      SameFind(p[dot + 1..], q[dot + 1..], '.');
      DotIn(p[dot + 1..]);
      DotIn(q[dot + 1..]);
    }
    SameTake(p, q);
    SameEither(Take(p, 4), Take(q, 4), "xn--");
    hide Find, FirstAt, SameText, Take, ToUpper;
  }

  lemma {:induction false} SameTake(p: string, q: string)
    requires SameText(p, q)
    ensures SameText(Take(p, 4), Take(q, 4))
  {
    if |p| >= 4 {
      SameSlices(p, q, 0, 4);
      FrontAndRest(p, 4);
      FrontAndRest(q, 4);
    }
  }

  lemma {:induction false} SameCompare(g: string, h: string, dot: nat, prefix: string, prefix1: string,
                                       suffix: string, suffix1: string, tail: string, tail1: string)
    requires SameText(g, h) && SameText(prefix, prefix1) && SameText(suffix, suffix1) && SameText(tail, tail1)
    requires |g| == |h| && |prefix| == |prefix1| && |suffix| == |suffix1|
    ensures LabelsCompare(g, dot, prefix, suffix, tail) <==> LabelsCompare(h, dot, prefix1, suffix1, tail1)
  {
    if |prefix| + 1 + |suffix| <= dot < |g| {
      var p, s := |prefix|, dot - |suffix|;
      FrontAndRest(g, p);
      FrontAndRest(h, p);
      FrontAndRest(g, dot);
      FrontAndRest(h, dot);
      SameSlices(g, h, 0, p);
      SameSlices(g, h, s, dot);
      SameSlices(g, h, dot, |g|);
      hide SameText;
      SameEither(prefix, prefix1, g[..p]);
      SameEither(g[..p], h[..p], prefix1);
      SameEither(suffix, suffix1, g[s..dot]);
      SameEither(g[s..dot], h[s..dot], suffix1);
      SameEither(tail, tail1, g[dot..]);
      SameEither(g[dot..], h[dot..], tail1);
    }
  }

  lemma {:induction false} SameLength(a: string, b: string)
    requires SameText(a, b)
    ensures |a| == |b|
  {
  }

  lemma {:induction false} SameLabelsFit(p: string, q: string, g: string, h: string)
    requires SameText(p, q) && SameText(g, h)
    ensures LabelsFit(p, g) <==> LabelsFit(q, h)
  {
    hide Find, FirstAt, ToUpper, SameText, LabelsCompare;
    SameLength(p, q);
    SameLength(g, h);
    SameFind(p, q, '*');
    SameFind(p, q, '.');
    SameFind(g, h, '.');
    var star, dot := Find(p, '*'), Find(p, '.');
    if star < dot < |p| {
      FrontAndRest(p, star);
      FrontAndRest(q, star);
      FrontAndRest(p, dot);
      FrontAndRest(q, dot);
      SameSlices(p, q, 0, star);
      SameSlices(p, q, star + 1, dot);
      SameSlices(p, q, dot, |p|);
      SameCompare(g, h, Find(g, '.'), p[..star], q[..star], p[star + 1..dot], q[star + 1..dot], p[dot..], q[dot..]);
    }
  }

  /** Writing any letters of pattern or host in the other case changes no answer. */
  method CaseDoesNotMatter(pattern: string, pattern1: string, host: string, host1: string) returns (a: bool, b: bool)
    requires IsCString(pattern) && IsCString(pattern1) && IsCString(host) && IsCString(host1)
    requires |pattern| == |pattern1| && forall i :: 0 <= i < |pattern| ==>
               var x, y := pattern[i] as int, pattern1[i] as int;
               x == y || (65 <= x <= 90 && y == x + 32) || (65 <= y <= 90 && x == y + 32)
    requires |host| == |host1| && forall i :: 0 <= i < |host| ==>
               var x, y := host[i] as int, host1[i] as int;
               x == y || (65 <= x <= 90 && y == x + 32) || (65 <= y <= 90 && x == y + 32)
    ensures a == b
  {
    SameTextIff(pattern, pattern1);
    SameTextIff(host, host1);
    hide SameText, WildcardMatch, IsCString;
    SameEnabled(pattern, pattern1);
    SameLabelsFit(pattern, pattern1, host, host1);
    LabelsDecide(pattern, host);
    LabelsDecide(pattern1, host1);
    SameEither(pattern, pattern1, host);
    SameEither(host, host1, pattern1);
    a := Check(pattern, host);
    b := Check(pattern1, host1);
  }
}
