/** `char_separator` and its token iterator: splitting at kept and dropped delimiter characters, with
    empty tokens kept or dropped. */
module CharSeparators {

  datatype Delims = Delims(dropped: string, kept: string) {
    predicate IsKept(ch: char) { ch in kept }

    predicate IsDropped(ch: char) { ch in dropped }

    predicate IsDelim(ch: char) { IsKept(ch) || IsDropped(ch) }
  }

  // ----- Specification -----

  /** The length of the piece in front of the first delimiter. */
  function PieceLength(d: Delims, s: string): (k: nat)
    ensures k <= |s| && (k < |s| ==> d.IsDelim(s[k]))
    ensures forall i :: 0 <= i < k ==> !d.IsDelim(s[i])
  {
    if s == "" || d.IsDelim(s[0]) then 0 else 1 + PieceLength(d, s[1..])
  }

  /** Splitting with empty tokens kept: a piece, then what follows its delimiter. */
  function Tokens(d: Delims, s: string): seq<string>
    decreases |s|, 1
  {
    [s[..PieceLength(d, s)]] + After(d, s[PieceLength(d, s)..])
  }

  /** What follows a piece: a kept delimiter is a token of its own. */
  function After(d: Delims, s: string): seq<string>
    decreases |s|, 0
  {
    if s == "" then []
    else (if d.IsKept(s[0]) then [[s[0]]] else []) + Tokens(d, s[1..])
  }

  /** Splitting with empty tokens dropped. */
  function Compact(d: Delims, s: string): seq<string>
    decreases |s|
  {
    if s == "" then []
    else if d.IsDropped(s[0]) then Compact(d, s[1..])
    else if d.IsKept(s[0]) then [[s[0]]] + Compact(d, s[1..])
    else [s[..PieceLength(d, s)]] + Compact(d, s[PieceLength(d, s)..])
  }

  // ----- Splitting undoes joining -----

  /** Pieces joined by delimiters. */
  function Weave(first: string, rest: seq<(char, string)>): string
    decreases |rest|
  {
    if rest == [] then first else first + [rest[0].0] + Weave(rest[0].1, rest[1..])
  }

  /** The tokens of such a string: every piece, with every kept delimiter in between. */
  function Interleave(d: Delims, first: string, rest: seq<(char, string)>): seq<string>
    decreases |rest|
  {
    if rest == [] then [first]
    else [first] + (if d.IsKept(rest[0].0) then [[rest[0].0]] else []) + Interleave(d, rest[0].1, rest[1..])
  }

  predicate Clean(d: Delims, piece: string) {
    forall i :: 0 <= i < |piece| ==> !d.IsDelim(piece[i])
  }

  predicate Woven(d: Delims, first: string, rest: seq<(char, string)>) {
    Clean(d, first) && forall i :: 0 <= i < |rest| ==> d.IsDelim(rest[i].0) && Clean(d, rest[i].1)
  }

  lemma {:induction false} PieceOfJoined(d: Delims, piece: string, more: string)
    requires Clean(d, piece) && (more != "" ==> d.IsDelim(more[0]))
    ensures PieceLength(d, piece + more) == |piece|
    decreases |piece|
  {
    if piece != "" {
      assert (piece + more)[1..] == piece[1..] + more;
      PieceOfJoined(d, piece[1..], more);
    } else {
      assert piece + more == more;
    }
  }

  lemma {:induction false} TokensOfWoven(d: Delims, first: string, rest: seq<(char, string)>)
    requires Woven(d, first, rest)
    ensures Tokens(d, Weave(first, rest)) == Interleave(d, first, rest)
    decreases |rest|
  {
    if rest == [] {
      PieceOfJoined(d, first, "");
      assert first + "" == first;
      assert first[..|first|] == first && first[|first|..] == "";
    } else {
      var later := Weave(rest[0].1, rest[1..]);
      var more := [rest[0].0] + later;
      assert Weave(first, rest) == first + more;
      PieceOfJoined(d, first, more);
      TokensOfWoven(d, rest[0].1, rest[1..]);
      hide PieceLength, Weave, Clean, Woven;
      CutJoined(first, more);
      assert more[1..] == later;
    }
  }

  lemma {:induction false} CutJoined(a: string, b: string)
    ensures (a + b)[..|a|] == a && (a + b)[|a|..] == b
  {
  }

  /** Every string is pieces joined by delimiters. */
  function Unweave(d: Delims, s: string): (string, seq<(char, string)>)
    decreases |s|
  {
    var k := PieceLength(d, s);
    if k == |s| then (s, [])
    else
      var later := Unweave(d, s[k + 1..]);
      (s[..k], [(s[k], later.0)] + later.1)
  }

  lemma {:induction false} UnweaveWeaves(d: Delims, s: string)
    ensures var (first, rest) := Unweave(d, s); Woven(d, first, rest) && Weave(first, rest) == s
    decreases |s|
  {
    hide *;
    UnweaveStep(d, s);
    var k := PieceLength(d, s);
    if k < |s| {
      var later := Unweave(d, s[k + 1..]);
      UnweaveWeaves(d, s[k + 1..]);
      WeaveOneMore(d, s[..k], s[k], later.0, later.1);
      assert s == s[..k] + [s[k]] + s[k + 1..];
    } else {
      WeaveNothing(d, s);
    }
  }

  lemma WeaveNothing(d: Delims, s: string)
    requires Clean(d, s)
    ensures Woven(d, s, []) && Weave(s, []) == s
  {
  }

  lemma {:induction false} UnweaveStep(d: Delims, s: string)
    ensures var k := PieceLength(d, s);
            Clean(d, s[..k]) &&
            if k == |s| then Unweave(d, s) == (s, []) && Clean(d, s)
            else d.IsDelim(s[k]) && Unweave(d, s) == (s[..k], [(s[k], Unweave(d, s[k + 1..]).0)] + Unweave(d, s[k + 1..]).1)
  {
  }

  lemma {:induction false} WeaveOneMore(d: Delims, first: string, ch: char, second: string, rest: seq<(char, string)>)
    requires Clean(d, first) && d.IsDelim(ch) && Woven(d, second, rest)
    ensures Weave(first, [(ch, second)] + rest) == first + [ch] + Weave(second, rest)
    ensures Woven(d, first, [(ch, second)] + rest)
  {
    assert ([(ch, second)] + rest)[1..] == rest;
  }

  /** Splitting with empty tokens kept is exact: the string is its pieces joined by its delimiters in
      one way only, and the tokens are those pieces with the kept delimiters between them. */
  lemma {:induction false} SplittingExact(d: Delims, s: string, first: string, rest: seq<(char, string)>)
    ensures Woven(d, first, rest) && Weave(first, rest) == s <==> (first, rest) == Unweave(d, s)
    ensures Tokens(d, s) == Interleave(d, Unweave(d, s).0, Unweave(d, s).1)
  {
    UnweaveWeaves(d, s);
    TokensOfWoven(d, Unweave(d, s).0, Unweave(d, s).1);
    if Woven(d, first, rest) && Weave(first, rest) == s {
      UnweaveUnique(d, first, rest);
    }
  }

  lemma {:induction false} UnweaveUnique(d: Delims, first: string, rest: seq<(char, string)>)
    requires Woven(d, first, rest)
    ensures Unweave(d, Weave(first, rest)) == (first, rest)
    decreases |rest|
  {
    if rest == [] {
      PieceOfJoined(d, first, "");
      assert first + "" == first;
    } else {
      var later := Weave(rest[0].1, rest[1..]);
      var more := [rest[0].0] + later;
      assert Weave(first, rest) == first + more;
      PieceOfJoined(d, first, more);
      UnweaveUnique(d, rest[0].1, rest[1..]);
      hide PieceLength, Weave, Clean, Woven;
      CutJoined(first, more);
      assert (first + more)[|first| + 1..] == more[1..] == later;
      assert rest == [(rest[0].0, rest[0].1)] + rest[1..];
    }
  }

  // ----- What the tokens are, character by character -----

  function Joined(tokens: seq<string>): string {
    if tokens == [] then "" else tokens[0] + Joined(tokens[1..])
  }

  /** The string without the characters of a set, but for those of another. */
  function Without(s: string, dropped: string, kept: string): string {
    if s == "" then ""
    else (if s[0] in dropped && s[0] !in kept then "" else [s[0]]) + Without(s[1..], dropped, kept)
  }

  lemma {:induction false} JoinedConcat(a: seq<string>, b: seq<string>)
    ensures Joined(a + b) == Joined(a) + Joined(b)
    decreases |a|
  {
    if a == [] {
      assert a + b == b;
    } else {
      assert (a + b)[1..] == a[1..] + b;
      JoinedConcat(a[1..], b);
      assert a[0] + (Joined(a[1..]) + Joined(b)) == a[0] + Joined(a[1..]) + Joined(b);
    }
  }

  lemma {:induction false} JoinedOne(x: string)
    ensures Joined([x]) == x
  {
    assert [x][1..] == [] && x + "" == x;
  }

  lemma {:induction false} WithoutFrom(s: string, k: nat, dropped: string, kept: string)
    requires k <= |s| && forall i :: 0 <= i < k ==> s[i] !in dropped
    ensures Without(s, dropped, kept) == s[..k] + Without(s[k..], dropped, kept)
    decreases k
  {
    if k == 0 {
      assert s[0..] == s;
    } else {
      WithoutFrom(s[1..], k - 1, dropped, kept);
      assert s[1..][k - 1..] == s[k..] && s[..k] == [s[0]] + s[1..][..k - 1];
    }
  }

  /** The tokens put together are the string without the characters that are dropped and not kept. */
  lemma {:induction false} TokensJoin(d: Delims, s: string)
    ensures Joined(Tokens(d, s)) == Without(s, d.dropped, d.kept)
    decreases |s|, 1
  {
    var k := PieceLength(d, s);
    JoinedConcat([s[..k]], After(d, s[k..]));
    JoinedOne(s[..k]);
    WithoutFrom(s, k, d.dropped, d.kept);
    AfterJoins(d, s[k..]);
  }

  lemma {:induction false} AfterJoins(d: Delims, s: string)
    requires s != "" ==> d.IsDelim(s[0])
    ensures Joined(After(d, s)) == Without(s, d.dropped, d.kept)
    decreases |s|, 0
  {
    if s != "" {
      TokensJoin(d, s[1..]);
      if d.IsKept(s[0]) {
        JoinedConcat([[s[0]]], Tokens(d, s[1..]));
        JoinedOne([s[0]]);
      } else {
        assert After(d, s) == [] + Tokens(d, s[1..]) == Tokens(d, s[1..]);
      }
    }
  }

  /** With empty tokens dropped, every dropped character is gone. */
  lemma {:induction false} CompactJoins(d: Delims, s: string)
    ensures Joined(Compact(d, s)) == Without(s, d.dropped, "")
    decreases |s|
  {
    if s != "" {
      if d.IsDropped(s[0]) {
        CompactJoins(d, s[1..]);
      } else if d.IsKept(s[0]) {
        CompactJoins(d, s[1..]);
        JoinedConcat([[s[0]]], Compact(d, s[1..]));
        JoinedOne([s[0]]);
      } else {
        var k := PieceLength(d, s);
        CompactJoins(d, s[k..]);
        JoinedConcat([s[..k]], Compact(d, s[k..]));
        JoinedOne(s[..k]);
        WithoutFrom(s, k, d.dropped, "");
      }
    }
  }

  /** A token is a kept delimiter, or free of delimiters of both kinds. */
  predicate TokenShape(d: Delims, tok: string) {
    (|tok| == 1 && tok[0] in d.kept) || forall i :: 0 <= i < |tok| ==> tok[i] !in d.kept && tok[i] !in d.dropped
  }

  lemma {:induction false} TokenShapes(d: Delims, s: string)
    ensures forall i :: 0 <= i < |Tokens(d, s)| ==> TokenShape(d, Tokens(d, s)[i])
    decreases |s|, 1
  {
    var k := PieceLength(d, s);
    assert TokenShape(d, s[..k]);
    AfterShapes(d, s[k..]);
  }

  lemma {:induction false} AfterShapes(d: Delims, s: string)
    requires s != "" ==> d.IsDelim(s[0])
    ensures forall i :: 0 <= i < |After(d, s)| ==> TokenShape(d, After(d, s)[i])
    decreases |s|, 0
  {
    if s != "" {
      TokenShapes(d, s[1..]);
    }
  }

  /** There is one piece more than there are delimiters, and one token for every kept one. */
  lemma {:induction false} TokenCount(d: Delims, s: string)
    ensures |Tokens(d, s)| == 1 + Count(s, d.kept + d.dropped) + Count(s, d.kept)
    decreases |s|, 1
  {
    var k := PieceLength(d, s);
    CountFrom(s, k, d.kept + d.dropped);
    CountFrom(s, k, d.kept);
    AfterCount(d, s[k..]);
  }

  lemma {:induction false} AfterCount(d: Delims, s: string)
    requires s != "" ==> d.IsDelim(s[0])
    ensures |After(d, s)| == Count(s, d.kept + d.dropped) + Count(s, d.kept)
    decreases |s|, 0
  {
    if s != "" {
      TokenCount(d, s[1..]);
    }
  }

  function Count(s: string, chars: string): nat {
    if s == "" then 0 else (if s[0] in chars then 1 else 0) + Count(s[1..], chars)
  }

  lemma {:induction false} CountFrom(s: string, k: nat, chars: string)
    requires k <= |s| && forall i :: 0 <= i < k ==> s[i] !in chars
    ensures Count(s, chars) == Count(s[k..], chars)
    decreases k
  {
    if k == 0 {
      assert s[0..] == s;
    } else {
      CountFrom(s[1..], k - 1, chars);
      assert s[1..][k - 1..] == s[k..];
    }
  }

  // ----- The two policies -----

  function NonEmpty(tokens: seq<string>): seq<string> {
    if tokens == [] then []
    else (if tokens[0] == "" then [] else [tokens[0]]) + NonEmpty(tokens[1..])
  }

  lemma {:induction false} NonEmptyConcat(a: seq<string>, b: seq<string>)
    ensures NonEmpty(a + b) == NonEmpty(a) + NonEmpty(b)
    decreases |a|
  {
    if a == [] {
      assert a + b == b;
    } else {
      assert (a + b)[1..] == a[1..] + b;
      NonEmptyConcat(a[1..], b);
      var head := if a[0] == "" then [] else [a[0]];
      assert head + (NonEmpty(a[1..]) + NonEmpty(b)) == head + NonEmpty(a[1..]) + NonEmpty(b);
    }
  }

  lemma {:induction false} CompactIsNonEmpty(d: Delims, s: string)
    requires forall ch :: !(d.IsKept(ch) && d.IsDropped(ch))
    ensures Compact(d, s) == NonEmpty(Tokens(d, s))
    decreases |s|, 1
  {
    var k := PieceLength(d, s);
    NonEmptyConcat([s[..k]], After(d, s[k..]));
    if k == 0 {
      assert s[..0] == "" && s[0..] == s;
      CompactAfter(d, s);
    } else {
      CompactAfter(d, s[k..]);
    }
  }

  lemma {:induction false} CompactAfter(d: Delims, s: string)
    requires forall ch :: !(d.IsKept(ch) && d.IsDropped(ch))
    requires s != "" ==> d.IsDelim(s[0])
    ensures Compact(d, s) == NonEmpty(After(d, s))
    decreases |s|, 0
  {
    if s != "" {
      CompactIsNonEmpty(d, s[1..]);
      if d.IsKept(s[0]) {
        NonEmptyConcat([[s[0]]], Tokens(d, s[1..]));
      } else {
        assert After(d, s) == Tokens(d, s[1..]);
      }
    }
  }

  /** Dropped in front of a token, such a character is not seen as a kept one. */
  lemma {:induction false} OverlapDisagrees(d: Delims, ch: char)
    requires d.IsKept(ch) && d.IsDropped(ch)
    ensures Compact(d, [ch]) == [] != NonEmpty(Tokens(d, [ch]))
  {
    var s := [ch];
    assert s[1..] == "" && s[..0] == "" && s[0..] == s && ""[..0] == "" && ""[0..] == "";
    assert Tokens(d, "") == [""];
    assert Tokens(d, s) == [""] + ([[ch]] + [""]);
    hide Tokens;
    NonEmptyConcat([""], [[ch]] + [""]);
    NonEmptyConcat([[ch]], [""]);
    assert NonEmpty([[ch]]) == [[ch]];
  }

  /** Dropping empty tokens is keeping them and removing them afterwards, for every string, exactly
      when no character is both a kept and a dropped delimiter. */
  lemma {:induction false} PoliciesAgreeIff(d: Delims)
    ensures (forall s: string :: Compact(d, s) == NonEmpty(Tokens(d, s))) <==>
            forall ch :: !(d.IsKept(ch) && d.IsDropped(ch))
  {
    if ch :| d.IsKept(ch) && d.IsDropped(ch) {
      OverlapDisagrees(d, ch);
    } else {
      forall s: string
        ensures Compact(d, s) == NonEmpty(Tokens(d, s))
      {
        CompactIsNonEmpty(d, s);
      }
    }
  }

  // ----- The functor -----

  datatype Call = Token(tok: string, next: nat) | NoMore

  /** What is still to come with empty tokens kept.  `done` says that the piece in front of the
      current position has been handed out. */
  function Remaining(d: Delims, s: string, done: bool): seq<string> {
    if done && (s == "" || d.IsDelim(s[0])) then After(d, s) else Tokens(d, s)
  }

  /** With the flag up, the piece in front of a leading delimiter is missing. */
  lemma {:induction false} FlagHidesPieceIff(d: Delims, s: string)
    requires s != ""
    ensures Remaining(d, s, true) == Tokens(d, s) <==> !d.IsDelim(s[0])
  {
    if d.IsDelim(s[0]) {
      assert |Tokens(d, s)| == 1 + |After(d, s[0..])| && s[0..] == s;
    }
  }

  /** The steps that need no scanning, where the input has a delimiter. */
  lemma {:induction false} RemainingSteps(d: Delims, input: string, at: nat)
    requires at < |input|
    ensures var ch, s, next := input[at], input[at..], input[at + 1..];
            && (d.IsDelim(ch) ==> Remaining(d, s, false) == [input[at..at]] + Remaining(d, s, true))
            && (d.IsKept(ch) ==> Remaining(d, s, true) == [input[at..at + 1]] + Remaining(d, next, false))
            && (d.IsDropped(ch) && !d.IsKept(ch) ==> Remaining(d, s, true) == Tokens(d, next))
            && (!d.IsDelim(ch) ==> Remaining(d, s, true) == Remaining(d, s, false) == Tokens(d, s))
  {
    var s := input[at..];
    assert s[1..] == input[at + 1..];
    if d.IsDelim(s[0]) {
      assert PieceLength(d, s) == 0 && s[..0] == input[at..at] && s[0..] == s;
      assert input[at..at + 1] == [s[0]];
    }
  }

  lemma {:induction false} PieceThenRest(d: Delims, s: string)
    ensures var k := PieceLength(d, s);
            Tokens(d, s) == [s[..k]] + Remaining(d, s[k..], true) &&
            (s != "" && !d.IsDelim(s[0]) ==> k > 0 && Compact(d, s) == [s[..k]] + Compact(d, s[k..]))
  {
  }

  lemma {:induction false} PieceLengthAt(d: Delims, input: string, next: nat)
    requires next <= |input|
    ensures PieceLength(d, input[next..]) ==
            if next == |input| || d.IsDelim(input[next]) then 0 else 1 + PieceLength(d, input[next + 1..])
  {
    assert next < |input| ==> input[next..][1..] == input[next + 1..];
  }

  class CharSeparator {
    const delims: Delims
    const keepEmpty: bool
    var outputDone: bool

    constructor (delims: Delims, keepEmpty: bool)
      ensures this.delims == delims && this.keepEmpty == keepEmpty && !outputDone
    {
      this.delims, this.keepEmpty, outputDone := delims, keepEmpty, false;
    }

    /** The tokens still to come from a position of the input. */
    ghost function Left(input: string, next: nat): seq<string>
      requires next <= |input|
      reads this
    {
      if keepEmpty then Remaining(delims, input[next..], outputDone) else Compact(delims, input[next..])
    }

    /** The loop over non-delimiter characters. */
    method SkipPiece(input: string, start: nat) returns (next: nat)
      requires start <= |input|
      ensures start <= next <= |input| && (start < |input| && !delims.IsDelim(input[start]) ==> start < next)
      ensures Tokens(delims, input[start..]) == [input[start..next]] + Remaining(delims, input[next..], true)
      ensures start < |input| && !delims.IsDelim(input[start]) ==>
                Compact(delims, input[start..]) == [input[start..next]] + Compact(delims, input[next..])
    {
      next := start;
      hide PieceLength, Tokens, Compact, Remaining;
      while next != |input| && !delims.IsDropped(input[next]) && !delims.IsKept(input[next])
        invariant start <= next <= |input|
        invariant PieceLength(delims, input[start..]) == next - start + PieceLength(delims, input[next..])
        decreases |input| - next
      {
        PieceLengthAt(delims, input, next);
        next := next + 1;
      }
      ghost var s := input[start..];
      PieceLengthAt(delims, input, next);
      PieceThenRest(delims, s);
      assert s[next - start..] == input[next..] && s[..next - start] == input[start..next];
    }

    /** The loop past dropped delimiters. */
    method SkipDropped(input: string, begin: nat) returns (next: nat)
      requires begin <= |input|
      ensures begin <= next <= |input| && (next < |input| ==> !delims.IsDropped(input[next]))
      ensures Compact(delims, input[begin..]) == Compact(delims, input[next..])
    {
      next := begin;
      while next != |input| && delims.IsDropped(input[next])
        invariant begin <= next <= |input|
        invariant Compact(delims, input[begin..]) == Compact(delims, input[next..])
        decreases |input| - next
      {
        assert input[next..][1..] == input[next + 1..];
        next := next + 1;
      }
    }

    /** The token is the stretch of input that ends where the call stops. */
    predicate EndsAt(input: string, begin: nat, tok: string, next: nat) {
      begin + |tok| <= next <= |input| && tok == input[next - |tok|..next]
    }

    lemma {:induction false} SliceEnds(input: string, begin: nat, start: nat, next: nat)
      requires begin <= start <= next <= |input|
      ensures EndsAt(input, begin, input[start..next], next)
    {
    }

    /** A call that yields an empty token without consuming any input. */
    predicate Stays(input: string, begin: nat, done: bool)
      requires begin <= |input|
    {
      keepEmpty && !done && (begin == |input| || delims.IsDelim(input[begin]))
    }

    method ApplyDropping(input: string, begin: nat) returns (r: Call)
      requires begin <= |input|
      ensures match r
              case NoMore => Compact(delims, input[begin..]) == []
              case Token(tok, next) =>
                begin < next && EndsAt(input, begin, tok, next) && Compact(delims, input[begin..]) == [tok] + Compact(delims, input[next..])
    {
      var next := SkipDropped(input, begin);
      var start := next;
      if next == |input| {
        return NoMore;
      }
      if delims.IsKept(input[next]) {
        assert input[next..][1..] == input[next + 1..];
        next := next + 1;
        assert input[start..next] == [input[start]];
      } else {
        hide Compact, EndsAt;
        next := SkipPiece(input, start);
      }
      SliceEnds(input, begin, start, next);
      return Token(input[start..next], next);
    }

    method ApplyKeeping(input: string, begin: nat) returns (r: Call)
      requires keepEmpty && begin <= |input|
      modifies this
      ensures match r
              case NoMore => old(outputDone) && outputDone && Remaining(delims, input[begin..], old(outputDone)) == []
              case Token(tok, next) =>
                EndsAt(input, begin, tok, next) && (begin == next <==> Stays(input, begin, old(outputDone))) &&
                (begin == next ==> outputDone) &&
                Remaining(delims, input[begin..], old(outputDone)) == [tok] + Remaining(delims, input[next..], outputDone)
    {
      var start, next := begin, begin;
      if next == |input| {
        if !outputDone {
          outputDone := true;
          assert ""[..0] == "" && ""[0..] == "";
          assert input[begin..begin] == "";
          SliceEnds(input, begin, begin, next);
          return Token("", next);
        } else {
          return NoMore;
        }
      }
      RemainingSteps(delims, input, begin);
      hide Remaining, Tokens, After, PieceLength, EndsAt;
      if delims.IsKept(input[next]) {
        if !outputDone {
          outputDone := true;
        } else {
          next := next + 1;
          outputDone := false;
        }
      } else if !outputDone && delims.IsDropped(input[next]) {
        outputDone := true;
      } else {
        if delims.IsDropped(input[next]) {
          next := next + 1;
          start := next;
        }
        next := SkipPiece(input, start);
        outputDone := true;
      }
      SliceEnds(input, begin, start, next);
      return Token(input[start..next], next);
    }

    /** `operator()` */
    method Apply(input: string, begin: nat) returns (r: Call)
      requires begin <= |input|
      modifies this
      ensures match r
              case NoMore => outputDone == old(outputDone) && (keepEmpty ==> outputDone) && old(Left(input, begin)) == []
              case Token(tok, next) =>
                EndsAt(input, begin, tok, next) && (begin == next <==> Stays(input, begin, old(outputDone))) &&
                (begin == next ==> outputDone) &&
                old(Left(input, begin)) == [tok] + Left(input, next)
    {
      if keepEmpty {
        r := ApplyKeeping(input, begin);
      } else {
        r := ApplyDropping(input, begin);
      }
    }
  }

  // ----- token_iterator over the functor -----

  /** The tokens of a string under either policy, for an iterator that starts with a fresh functor. */
  function AllTokens(d: Delims, keepEmpty: bool, s: string): seq<string> {
    if s == "" then [] else if keepEmpty then Tokens(d, s) else Compact(d, s)
  }

  class CharTokenIterator {
    const f: CharSeparator
    const input: string
    var begin: nat
    var valid: bool
    var tok: string

    /** The tokens from the current one on. */
    ghost function Tail(): seq<string>
      requires begin <= |input|
      reads this, f
    {
      if valid then [tok] + f.Left(input, begin) else []
    }

    /** Constructor with `initialize`, on a fresh functor. */
    constructor (delims: Delims, keepEmpty: bool, input: string)
      ensures fresh(f) && f.delims == delims && f.keepEmpty == keepEmpty && this.input == input && begin <= |input|
      ensures Tail() == AllTokens(delims, keepEmpty, input)
      ensures if input == "" then !valid && !f.outputDone else keepEmpty && !valid ==> f.outputDone
    {
      f := new CharSeparator(delims, keepEmpty);
      this.input, begin, valid, tok := input, 0, false, "";
      new;
      if begin != |input| {
        assert input[0..] == input;
        Advance();
      }
    }

    /** The same with a functor that may have been used before: the iterator copies it as it is, since
        `reset` does nothing. */
    constructor FromFunctor(functor: CharSeparator, input: string)
      ensures fresh(f) && f.delims == functor.delims && f.keepEmpty == functor.keepEmpty
      ensures this.input == input && begin <= |input|
      ensures Tail() == if input == "" then [] else functor.Left(input, 0)
    {
      f := new CharSeparator(functor.delims, functor.keepEmpty);
      this.input, begin, valid, tok := input, 0, false, "";
      new;
      f.outputDone := functor.outputDone;
      if begin != |input| {
        Advance();
      }
    }

    method Advance()
      requires begin <= |input|
      modifies this, f
      ensures old(begin) <= begin <= |input| && Tail() == old(f.Left(input, begin))
      ensures if valid then f.EndsAt(input, old(begin), tok, begin) && (begin == old(begin) ==> !old(f.outputDone) && f.outputDone) &&
                            (begin == old(begin) <==> f.Stays(input, old(begin), old(f.outputDone)))
              else begin == old(begin) && f.outputDone == old(f.outputDone) && (f.keepEmpty ==> f.outputDone)
    {
      var r := f.Apply(input, begin);
      match r {
        case Token(t, next) => tok, begin, valid := t, next, true;
        case NoMore => valid := false;
      }
    }

    lemma NothingLeft()
      requires begin <= |input|
      ensures !valid ==> Tail() == []
    {
    }

    /** `increment`.  The iterator compares equal to the copy made before exactly when the call stayed in
        place, which never happens while empty tokens are dropped. */
    method Increment()
      requires valid && begin <= |input|
      modifies this, f
      ensures old(begin) <= begin <= |input| && old(Tail()) == [old(tok)] + Tail()
      ensures if valid then f.EndsAt(input, old(begin), tok, begin) && (begin == old(begin) ==> !old(f.outputDone) && f.outputDone) &&
                            (begin == old(begin) <==> f.Stays(input, old(begin), old(f.outputDone)))
              else begin == old(begin) && f.outputDone == old(f.outputDone) && (f.keepEmpty ==> f.outputDone)
    {
      Advance();
    }

    /** `equal`, for an iterator over the same input. */
    predicate Equal(other: CharTokenIterator)
      reads this, other
    {
      if valid && other.valid then begin == other.begin else valid == other.valid
    }
  }

  lemma {:induction false} KeptComma(d: Delims)
    requires d == Delims("", ",")
    ensures Tokens(d, ",") == [""] + ([","] + [""])
  {
    assert ","[..0] == "" && ","[0..] == "," && ","[1..] == "" && ""[..0] == "" && ""[0..] == "";
    assert Tokens(d, "") == [""];
    assert After(d, ",") == [",", ""];
  }

  lemma {:induction false} SameHead(x: string, xs: seq<string>, y: string, ys: seq<string>)
    requires [x] + xs == [y] + ys
    ensures x == y && xs == ys
  {
    assert ([x] + xs)[0] == x && ([y] + ys)[0] == y;
    assert ([x] + xs)[1..] == xs && ([y] + ys)[1..] == ys;
  }

  /** An iterator on the second of the three tokens of ",". */
  method OnComma() returns (it: CharTokenIterator)
    ensures fresh(it) && fresh(it.f) && it.valid && it.tok == "," && it.begin == 1 && it.input == ","
    ensures it.Tail() == [","] + [""]
  {
    var delims := Delims("", ",");
    KeptComma(delims);
    hide Tokens, Remaining;
    it := new CharTokenIterator(delims, true, ",");
    ghost var first := it.tok;
    it.Increment();
    SameHead(first, it.Tail(), "", [","] + [""]);
    assert it.Tail() != [];
    SameHead(it.tok, it.Tail()[1..], ",", [""]);
  }

  /** `equal` looks at positions only.  Behind a kept delimiter the empty token has the same position,
      so iterators on different tokens compare equal. */
  method EqualIgnoresTokens() returns (a: CharTokenIterator, b: CharTokenIterator)
    ensures a.valid && b.valid && a.Equal(b) && a.tok == "," && b.tok == ""
  {
    a := OnComma();
    b := OnComma();
    b.Increment();
    SameHead(",", b.Tail(), ",", [""]);
    assert b.Tail() != [] && b.Tail()[0] == b.tok;
  }

  lemma Shift(before: seq<string>, tok: string, tail: seq<string>)
    ensures before + ([tok] + tail) == before + [tok] + tail
  {
  }

  /** Running an iterator to its end.  Some calls consume no input, so the measure also counts the
      functor's flag. */
  method Collect(it: CharTokenIterator) returns (tokens: seq<string>)
    requires it.begin <= |it.input|
    modifies it, it.f
    ensures tokens == old(it.Tail())
    ensures if old(it.valid) then it.f.keepEmpty ==> it.f.outputDone else it.f.outputDone == old(it.f.outputDone)
  {
    ghost var all := it.Tail();
    tokens := [];
    hide *;
    while it.valid
      invariant it.begin <= |it.input| && all == tokens + it.Tail()
      invariant old(it.valid) ==> it.valid || (it.f.keepEmpty ==> it.f.outputDone)
      invariant !old(it.valid) ==> !it.valid && it.f.outputDone == old(it.f.outputDone)
      decreases |it.input| - it.begin, if it.f.outputDone then 0 else 1, it.valid
    {
      ghost var before, tok := tokens, it.tok;
      tokens := tokens + [it.tok];
      it.Increment();
      Shift(before, tok, it.Tail());
    }
    it.NothingLeft();
  }

  /** Iterating over the tokens of a string. */
  method Tokenize(delims: Delims, keepEmpty: bool, input: string) returns (tokens: seq<string>)
    ensures tokens == AllTokens(delims, keepEmpty, input)
    ensures tokens == if input == "" then [] else if keepEmpty then Tokens(delims, input) else Compact(delims, input)
  {
    var it := new CharTokenIterator(delims, keepEmpty, input);
    tokens := Collect(it);
  }

  /** A functor that has run over one string and is used again for another yields all tokens of the
      other exactly when empty tokens are dropped, or there was nothing to run over, or the other does
      not start with a delimiter: only then the flag left behind does no harm. */
  method ReuseFunctor(delims: Delims, keepEmpty: bool, first: string, second: string) returns (tokens: seq<string>)
    ensures tokens == AllTokens(delims, keepEmpty, second) <==>
              !keepEmpty || first == "" || second == "" || !delims.IsDelim(second[0])
  {
    var it := new CharTokenIterator(delims, keepEmpty, first);
    var ignored := Collect(it);
    assert keepEmpty ==> (it.f.outputDone <==> first != "");
    var again := new CharTokenIterator.FromFunctor(it.f, second);
    if second != "" {
      assert second[0..] == second;
      FlagHidesPieceIff(delims, second);
    }
    hide Remaining, Tokens, Compact;
    tokens := Collect(again);
  }
}
