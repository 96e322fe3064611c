/** `escaped_list_separator` and its token iterator: reading delimited lists with quotes and escapes,
    and the writer it inverts. */
module EscapedLists {
  import opened Wrappers

  /** The three character roles, each played by any number of characters. */
  datatype Roles = Roles(escape: string, delim: string, quote: string) {
    predicate Special(ch: char) {
      ch in escape || ch in delim || ch in quote
    }
  }

  datatype Reason = EndsWithEscape | UnknownEscape

  // ----- Specification: one field, then the list -----

  datatype Scanned = Field(tok: string, rest: string, delimited: bool) | Bad(reason: Reason)

  function Before(text: string, s: Scanned): Scanned {
    match s
    case Field(tok, rest, delimited) => Field(text + tok, rest, delimited)
    case Bad(_) => s
  }

  /** What an escaped character stands for, if it may be escaped. */
  function Unescape(roles: Roles, ch: char): string {
    if ch == 'n' then "\n" else if roles.Special(ch) then [ch] else ""
  }

  function Scan(roles: Roles, s: string, inQuote: bool): Scanned
    decreases |s|
  {
    if s == "" then Field("", "", false)
    else if s[0] in roles.escape then
      if |s| == 1 then Bad(EndsWithEscape)
      else if Unescape(roles, s[1]) == "" then Bad(UnknownEscape)
      else Before(Unescape(roles, s[1]), Scan(roles, s[2..], inQuote))
    else if s[0] in roles.delim then
      if inQuote then Before([s[0]], Scan(roles, s[1..], inQuote)) else Field("", s[1..], true)
    else if s[0] in roles.quote then Scan(roles, s[1..], !inQuote)
    else Before([s[0]], Scan(roles, s[1..], inQuote))
  }

  lemma {:induction false} ScanShrinks(roles: Roles, s: string, inQuote: bool)
    requires Scan(roles, s, inQuote).Field? && s != ""
    ensures |Scan(roles, s, inQuote).rest| < |s|
    decreases |s|
  {
    if s[0] in roles.escape {
      if |s| > 2 { ScanShrinks(roles, s[2..], inQuote); }
    } else if s[0] in roles.delim {
      if inQuote && |s| > 1 { ScanShrinks(roles, s[1..], inQuote); }
    } else if |s| > 1 {
      ScanShrinks(roles, s[1..], if s[0] in roles.quote then !inQuote else inQuote);
    }
  }

  datatype Listed = Listed(fields: seq<string>) | Failed(fields: seq<string>, reason: Reason)

  function Then(tok: string, later: Listed): Listed {
    later.(fields := [tok] + later.fields)
  }

  function Front(fields: seq<string>, later: Listed): Listed {
    later.(fields := fields + later.fields)
  }

  lemma FrontThen(fields: seq<string>, tok: string, later: Listed)
    ensures Front(fields, Then(tok, later)) == Front(fields + [tok], later)
  {
    assert fields + ([tok] + later.fields) == fields + [tok] + later.fields;
  }

  /** All fields of a list; `last` says that a delimiter was just read, so one more field, possibly
      empty, follows. */
  function Fields(roles: Roles, s: string, last: bool): Listed
    decreases |s|
  {
    if s == "" then Listed(if last then [""] else [])
    else
      match Scan(roles, s, false)
      case Bad(reason) => Failed([], reason)
      case Field(tok, rest, delimited) =>
        ScanShrinks(roles, s, false);
        Then(tok, Fields(roles, rest, delimited))
  }

  // ----- The writer -----

  function WriteChar(roles: Roles, e: char, ch: char): string {
    if ch == '\n' then [e, 'n'] else if roles.Special(ch) then [e, ch] else [ch]
  }

  function WriteField(roles: Roles, e: char, field: string): string {
    if field == "" then "" else WriteChar(roles, e, field[0]) + WriteField(roles, e, field[1..])
  }

  function WriteList(roles: Roles, e: char, d: char, fields: seq<string>): string {
    if fields == [] then ""
    else if |fields| == 1 then WriteField(roles, e, fields[0])
    else WriteField(roles, e, fields[0]) + [d] + WriteList(roles, e, d, fields[1..])
  }

  lemma {:induction false} ScanWritten(roles: Roles, e: char, field: string, rest: string)
    requires e in roles.escape && !roles.Special('n')
    ensures Scan(roles, WriteField(roles, e, field) + rest, false) == Before(field, Scan(roles, rest, false))
    decreases |field|
  {
    if field == "" {
      assert WriteField(roles, e, field) + rest == rest;
      BeforeNothing(Scan(roles, rest, false));
    } else {
      var w, tail := WriteChar(roles, e, field[0]), WriteField(roles, e, field[1..]) + rest;
      ScanWritten(roles, e, field[1..], rest);
      assert WriteField(roles, e, field) + rest == w + tail;
      ScanChar(roles, e, field[0], tail);
      BeforeTwice([field[0]], field[1..], Scan(roles, rest, false));
      assert [field[0]] + field[1..] == field;
    }
  }

  lemma {:induction false} ScanChar(roles: Roles, e: char, ch: char, tail: string)
    requires e in roles.escape && !roles.Special('n')
    ensures Scan(roles, WriteChar(roles, e, ch) + tail, false) == Before([ch], Scan(roles, tail, false))
  {
    var w := WriteChar(roles, e, ch);
    assert (w + tail)[|w|..] == tail;
  }

  lemma BeforeNothing(s: Scanned)
    ensures Before("", s) == s
  {
    if s.Field? { assert "" + s.tok == s.tok; }
  }

  lemma BeforeEnds(text: string, rest: string, delimited: bool, reason: Reason)
    ensures Before(text, Field("", rest, delimited)) == Field(text, rest, delimited)
    ensures Before(text, Bad(reason)) == Bad(reason)
  {
    assert text + "" == text;
  }

  lemma BeforeTwice(a: string, b: string, s: Scanned)
    ensures Before(a, Before(b, s)) == Before(a + b, s)
  {
    if s.Field? { assert a + (b + s.tok) == a + b + s.tok; }
  }

  lemma {:induction false} FieldsWritten(roles: Roles, e: char, d: char, fields: seq<string>, last: bool)
    requires e in roles.escape && d in roles.delim && d !in roles.escape && !roles.Special('n')
    requires fields != [] && (fields == [""] ==> last)
    ensures Fields(roles, WriteList(roles, e, d, fields), last) == Listed(fields)
    decreases |fields|
  {
    hide Scan, WriteField;
    if |fields| == 1 {
      ScanLast(roles, e, fields[0]);
      WrittenEmptyIff(roles, e, fields[0]);
      assert fields == [fields[0]];
    } else {
      ScanDelimited(roles, e, d, fields[0], WriteList(roles, e, d, fields[1..]));
      FieldsWritten(roles, e, d, fields[1..], true);
      assert fields == [fields[0]] + fields[1..];
    }
  }

  lemma {:induction false} ScanLast(roles: Roles, e: char, field: string)
    requires e in roles.escape && !roles.Special('n')
    ensures Scan(roles, WriteField(roles, e, field), false) == Field(field, "", false)
  {
    ScanWritten(roles, e, field, "");
    assert WriteField(roles, e, field) + "" == WriteField(roles, e, field) && field + "" == field;
  }

  lemma {:induction false} ScanDelimited(roles: Roles, e: char, d: char, field: string, later: string)
    requires e in roles.escape && d in roles.delim && d !in roles.escape && !roles.Special('n')
    ensures Scan(roles, WriteField(roles, e, field) + [d] + later, false) == Field(field, later, true)
  {
    ScanWritten(roles, e, field, [d] + later);
    assert WriteField(roles, e, field) + [d] + later == WriteField(roles, e, field) + ([d] + later);
    assert ([d] + later)[1..] == later && field + "" == field;
  }

  lemma {:induction false} WrittenEmptyIff(roles: Roles, e: char, field: string)
    ensures WriteField(roles, e, field) == "" <==> field == ""
  {
  }

  /** Writing any list with these characters and reading it again gives the list back; only the list
      of one empty field, which is written like no field at all, is not distinguishable. */
  ghost predicate RoundTrips(roles: Roles, e: char, d: char) {
    forall fields: seq<string> :: fields != [""] ==>
      Fields(roles, WriteList(roles, e, d, fields), false) == Listed(fields)
  }

  /** The letter that stands for a line break after an escape must not play a role itself. */
  lemma {:induction false} RoundTripsIff(roles: Roles, e: char, d: char)
    requires e in roles.escape && d in roles.delim && d !in roles.escape
    ensures RoundTrips(roles, e, d) <==> !roles.Special('n')
  {
    if roles.Special('n') {
      var s := WriteList(roles, e, d, ["n"]);
      assert s == WriteField(roles, e, "n") == [e, 'n'] + "" == [e, 'n'];
      assert s[2..] == "" && "\n" + "" == "\n";
      assert Scan(roles, s, false) == Before("\n", Field("", "", false));
      assert Fields(roles, "", false) == Listed([]);
      assert Fields(roles, s, false) == Then("\n", Listed([]));
      assert Fields(roles, s, false).fields[0] == "\n" != "n";
    } else {
      forall fields: seq<string> | fields != [""]
        ensures Fields(roles, WriteList(roles, e, d, fields), false) == Listed(fields)
      {
        if fields != [] { FieldsWritten(roles, e, d, fields, false); }
      }
    }
  }

  /** Inside quotes a delimiter needs no escape. */
  function WriteQuoted(roles: Roles, e: char, field: string): string {
    if field == "" then "" else QuotedChar(roles, e, field[0]) + WriteQuoted(roles, e, field[1..])
  }

  function QuotedChar(roles: Roles, e: char, ch: char): string {
    if ch in roles.delim && ch !in roles.escape && ch != '\n' then [ch] else WriteChar(roles, e, ch)
  }

  /** A field between quotes is read as it is, delimiters included. */
  lemma {:induction false} QuotedFieldReads(roles: Roles, e: char, q: char, field: string, rest: string)
    requires e in roles.escape && q in roles.quote && q !in roles.escape && q !in roles.delim && !roles.Special('n')
    ensures Scan(roles, [q] + WriteQuoted(roles, e, field) + [q] + rest, false) == Before(field, Scan(roles, rest, false))
  {
    var s := [q] + WriteQuoted(roles, e, field) + [q] + rest;
    assert s[1..] == WriteQuoted(roles, e, field) + ([q] + rest);
    ScanInQuotes(roles, e, field, [q] + rest);
    assert ([q] + rest)[1..] == rest;
  }

  lemma {:induction false} ScanInQuotes(roles: Roles, e: char, field: string, rest: string)
    requires e in roles.escape && !roles.Special('n')
    ensures Scan(roles, WriteQuoted(roles, e, field) + rest, true) == Before(field, Scan(roles, rest, true))
    decreases |field|
  {
    if field == "" {
      assert WriteQuoted(roles, e, field) + rest == rest;
      BeforeNothing(Scan(roles, rest, true));
    } else {
      var w, tail := QuotedChar(roles, e, field[0]), WriteQuoted(roles, e, field[1..]) + rest;
      assert WriteQuoted(roles, e, field) + rest == w + tail;
      ScanQuotedChar(roles, e, field[0], tail);
      hide Scan, Before, QuotedChar, WriteQuoted;
      ScanInQuotes(roles, e, field[1..], rest);
      BeforeTwice([field[0]], field[1..], Scan(roles, rest, true));
      assert [field[0]] + field[1..] == field;
    }
  }

  lemma {:induction false} ScanQuotedChar(roles: Roles, e: char, ch: char, tail: string)
    requires e in roles.escape && !roles.Special('n')
    ensures Scan(roles, QuotedChar(roles, e, ch) + tail, true) == Before([ch], Scan(roles, tail, true))
  {
    var w := QuotedChar(roles, e, ch);
    assert (w + tail)[|w|..] == tail;
  }

  /** A field may be put together from plain and quoted parts in any order. */
  datatype Part = Plain(text: string) | Quoted(open: char, text: string, close: char)

  function WritePart(roles: Roles, e: char, part: Part): string {
    match part
    case Plain(text) => WriteField(roles, e, text)
    case Quoted(open, text, close) => [open] + WriteQuoted(roles, e, text) + [close]
  }

  function WriteParts(roles: Roles, e: char, parts: seq<Part>): string {
    if parts == [] then "" else WritePart(roles, e, parts[0]) + WriteParts(roles, e, parts[1..])
  }

  function TextOf(parts: seq<Part>): string {
    if parts == [] then "" else parts[0].text + TextOf(parts[1..])
  }

  predicate IsQuote(roles: Roles, ch: char) {
    ch in roles.quote && ch !in roles.escape && ch !in roles.delim
  }

  predicate PartsQuoted(roles: Roles, parts: seq<Part>) {
    parts == [] ||
    ((parts[0].Quoted? ==> IsQuote(roles, parts[0].open) && IsQuote(roles, parts[0].close)) && PartsQuoted(roles, parts[1..]))
  }

  /** Quotes may open and close anywhere in a field, each with any quote character, and leave no trace. */
  lemma {:induction false} PartsRead(roles: Roles, e: char, parts: seq<Part>, rest: string)
    requires e in roles.escape && !roles.Special('n') && PartsQuoted(roles, parts)
    ensures Scan(roles, WriteParts(roles, e, parts) + rest, false) == Before(TextOf(parts), Scan(roles, rest, false))
  {
    if parts == [] {
      assert WriteParts(roles, e, parts) + rest == rest;
      BeforeNothing(Scan(roles, rest, false));
    } else {
      var later := WriteParts(roles, e, parts[1..]) + rest;
      PartRead(roles, e, parts[0], later);
      PartsWritten(roles, e, parts, rest);
      assert TextOf(parts) == parts[0].text + TextOf(parts[1..]);
      hide *;
      PartsRead(roles, e, parts[1..], rest);
      BeforeTwice(parts[0].text, TextOf(parts[1..]), Scan(roles, rest, false));
    }
  }

  lemma {:induction false} PartsWritten(roles: Roles, e: char, parts: seq<Part>, rest: string)
    requires parts != []
    ensures WriteParts(roles, e, parts) + rest == WritePart(roles, e, parts[0]) + (WriteParts(roles, e, parts[1..]) + rest)
    ensures PartsQuoted(roles, parts) ==> PartsQuoted(roles, parts[1..])
  {
    hide WritePart, IsQuote;
  }

  lemma {:induction false} PartRead(roles: Roles, e: char, part: Part, rest: string)
    requires e in roles.escape && !roles.Special('n') && PartsQuoted(roles, [part])
    ensures Scan(roles, WritePart(roles, e, part) + rest, false) == Before(part.text, Scan(roles, rest, false))
  {
    hide Scan, WriteField, WriteQuoted, Before;
    match part
    case Plain(text) =>
      ScanWritten(roles, e, text, rest);
    case Quoted(open, text, close) =>
      assert WritePart(roles, e, part) + rest == [open] + (WriteQuoted(roles, e, text) + ([close] + rest));
      QuotedPart(roles, e, open, close, text, rest);
  }

  lemma {:induction false} QuotedPart(roles: Roles, e: char, open: char, close: char, text: string, rest: string)
    requires e in roles.escape && !roles.Special('n') && IsQuote(roles, open) && IsQuote(roles, close)
    ensures Scan(roles, [open] + (WriteQuoted(roles, e, text) + ([close] + rest)), false) == Before(text, Scan(roles, rest, false))
  {
    var inner := WriteQuoted(roles, e, text) + ([close] + rest);
    assert ([open] + inner)[1..] == inner && ([close] + rest)[1..] == rest;
    ScanInQuotes(roles, e, text, [close] + rest);
    hide WriteQuoted, Before;
  }

  /** A quote that is never closed reaches to the end of the input and is no error. */
  lemma {:induction false} UnclosedReads(roles: Roles, e: char, open: char, text: string)
    requires e in roles.escape && !roles.Special('n') && IsQuote(roles, open)
    ensures Scan(roles, [open] + WriteQuoted(roles, e, text), false) == Field(text, "", false)
  {
    var inner := WriteQuoted(roles, e, text);
    assert ([open] + inner)[1..] == inner && inner + "" == inner && text + "" == text;
    ScanInQuotes(roles, e, text, "");
    hide WriteQuoted;
  }

  /** An escape before the letter n is a line feed, character 10; before an escape, a delimiter or a
      quote it is that character, inside quotes and outside. */
  lemma {:induction false} EscapeReads(roles: Roles, e: char, ch: char, rest: string, inQuote: bool)
    requires e in roles.escape
    requires ch == 'n' || ch in roles.escape || ch in roles.delim || ch in roles.quote
    ensures Scan(roles, [e, ch] + rest, inQuote)
            == Before([if ch == 'n' then 10 as char else ch], Scan(roles, rest, inQuote))
  {
    assert ([e, ch] + rest)[2..] == rest;
  }

  // ----- Which inputs are refused -----

  /** Going from left to right, past each escape and the character behind it: the first escape that is the
      last character, or whose next is neither the letter n nor an escape, delimiter or quote. */
  function EscapeError(roles: Roles, s: string): Option<Reason>
    decreases |s|
  {
    if s == "" then None
    else if s[0] !in roles.escape then EscapeError(roles, s[1..])
    else if |s| == 1 then Some(EndsWithEscape)
    else if s[1] == 'n' || s[1] in roles.escape || s[1] in roles.delim || s[1] in roles.quote then EscapeError(roles, s[2..])
    else Some(UnknownEscape)
  }

  lemma {:induction false} ScanError(roles: Roles, s: string, inQuote: bool)
    ensures match Scan(roles, s, inQuote)
            case Bad(reason) => EscapeError(roles, s) == Some(reason)
            case Field(_, rest, _) => EscapeError(roles, s) == EscapeError(roles, rest)
    decreases |s|
  {
    if s != "" {
      if s[0] in roles.escape {
        if |s| > 1 {
          ScanError(roles, s[2..], inQuote);
        }
      } else if s[0] !in roles.delim && s[0] in roles.quote {
        ScanError(roles, s[1..], !inQuote);
      } else {
        ScanError(roles, s[1..], inQuote);
      }
    }
  }

  /** Reading a list fails exactly when there is such an escape, quotes or not, and says which kind. */
  lemma {:induction false} FailsIff(roles: Roles, s: string, last: bool)
    ensures match EscapeError(roles, s)
            case None => Fields(roles, s, last).Listed?
            case Some(reason) => Fields(roles, s, last).Failed? && Fields(roles, s, last).reason == reason
    decreases |s|
  {
    if s != "" {
      ScanError(roles, s, false);
      if Scan(roles, s, false).Field? {
        ScanShrinks(roles, s, false);
        hide Scan;
        FailsIff(roles, Scan(roles, s, false).rest, Scan(roles, s, false).delimited);
      }
    }
  }

  /** The scanner at a position of the whole input. */
  lemma {:induction false} ScanAt(roles: Roles, input: string, next: nat, inQuote: bool)
    requires next < |input|
    ensures Scan(roles, input[next..], inQuote) ==
            var ch := input[next];
            if ch in roles.escape then
              if next + 1 == |input| then Bad(EndsWithEscape)
              else if Unescape(roles, input[next + 1]) == "" then Bad(UnknownEscape)
              else Before(Unescape(roles, input[next + 1]), Scan(roles, input[next + 2..], inQuote))
            else if ch in roles.delim then
              if inQuote then Before([ch], Scan(roles, input[next + 1..], inQuote))
              else Field("", input[next + 1..], true)
            else if ch in roles.quote then Scan(roles, input[next + 1..], !inQuote)
            else Before([ch], Scan(roles, input[next + 1..], inQuote))
  {
    var rest := input[next..];
    assert rest[1..] == input[next + 1..];
    if |rest| > 1 {
      assert rest[2..] == input[next + 2..];
    }
  }

  lemma ScanEnd(roles: Roles, inQuote: bool)
    ensures Scan(roles, "", inQuote) == Field("", "", false)
  {
  }

  // ----- The functor -----

  datatype Call = Token(tok: string, next: nat) | NoMore | Thrown(reason: Reason)

  class EscapedListSeparator {
    const roles: Roles
    var last: bool

    constructor (roles: Roles)
      ensures this.roles == roles && !last
    {
      this.roles, last := roles, false;
    }

    method Reset()
      modifies this
      ensures !last
    {
      last := false;
    }

    /** `do_escape`: `next` stands on the escape character. */
    method DoEscape(input: string, next: nat) returns (r: Call)
      requires next < |input|
      ensures match r
              case Token(tok, after) =>
                after == next + 1 < |input| && tok == Unescape(roles, input[next + 1]) != ""
              case Thrown(reason) =>
                if next + 1 == |input| then reason == EndsWithEscape
                else Unescape(roles, input[next + 1]) == "" && reason == UnknownEscape
              case NoMore => false
    {
      var after := next + 1;
      if after == |input| {
        return Thrown(EndsWithEscape);
      }
      if input[after] == 'n' {
        return Token("\n", after);
      } else if input[after] in roles.quote {
        return Token([input[after]], after);
      } else if input[after] in roles.delim {
        return Token([input[after]], after);
      } else if input[after] in roles.escape {
        return Token([input[after]], after);
      } else {
        return Thrown(UnknownEscape);
      }
    }

    /** Whether the loop of `operator()` stops at this character. */
    predicate EndsField(ch: char, inQuote: bool) {
      ch !in roles.escape && ch in roles.delim && !inQuote
    }

    /** The loop body for a character that does not end the field: what it adds to the token, where it
        leaves `next` and the quoting flag. */
    method ReadPiece(input: string, next: nat, inQuote: bool) returns (piece: string, after: nat, quoted: bool, error: Option<Reason>)
      requires next < |input| && !EndsField(input[next], inQuote)
      ensures match error
              case None => next < after <= |input| &&
                           Scan(roles, input[next..], inQuote) == Before(piece, Scan(roles, input[after..], quoted))
              case Some(reason) => Scan(roles, input[next..], inQuote) == Bad(reason)
    {
      ScanAt(roles, input, next, inQuote);
      hide Scan, Before;
      piece, after, quoted, error := "", next, inQuote, None;
      if input[next] in roles.escape {
        var escaped := DoEscape(input, next);
        if escaped.Thrown? {
          error := Some(escaped.reason);
          return;
        }
        piece, after := escaped.tok, escaped.next;
      } else if input[next] in roles.delim {
        piece := [input[next]];
      } else if input[next] in roles.quote {
        quoted := !inQuote;
        BeforeNothing(Scan(roles, input[next + 1..], quoted));
      } else {
        piece := [input[next]];
      }
      after := after + 1;
    }

    /** The scanning loop of `operator()`. */
    method ReadField(input: string, begin: nat) returns (r: Call)
      requires begin < |input|
      modifies this
      ensures match r
              case Token(tok, next) =>
                begin < next <= |input| && Scan(roles, input[begin..], false) == Field(tok, input[next..], last)
              case Thrown(reason) => Scan(roles, input[begin..], false) == Bad(reason) && !last
              case NoMore => false
    {
      var inQuote, tok, next := false, "", begin;
      last := false;
      ghost var scanned := Scan(roles, input[begin..], false);
      BeforeNothing(scanned);
      hide Scan, Before;
      while next != |input|
        invariant begin <= next <= |input| && !last
        invariant scanned == Before(tok, Scan(roles, input[next..], inQuote))
        decreases |input| - next
      {
        if EndsField(input[next], inQuote) {
          ScanAt(roles, input, next, inQuote);
          next := next + 1;
          last := true;
          BeforeEnds(tok, input[next..], true, EndsWithEscape);
          return Token(tok, next);
        }
        var piece, after, quoted, error := ReadPiece(input, next, inQuote);
        if error.Some? {
          BeforeEnds(tok, "", false, error.value);
          return Thrown(error.value);
        }
        BeforeTwice(tok, piece, Scan(roles, input[after..], quoted));
        tok, next, inQuote := tok + piece, after, quoted;
      }
      assert input[next..] == "";
      ScanEnd(roles, inQuote);
      BeforeEnds(tok, "", false, EndsWithEscape);
      return Token(tok, next);
    }

    /** `operator()`: the next field of the list, or what is wrong with it. */
    method Apply(input: string, begin: nat) returns (r: Call)
      requires begin <= |input|
      modifies this
      ensures r.Token? ==> begin <= r.next <= |input| && (begin == r.next <==> begin == |input|) &&
                              (begin == r.next ==> old(last) && !last)
      ensures Fields(roles, input[begin..], old(last)) ==
              match r
              case Token(tok, next) => Then(tok, Fields(roles, input[next..], last))
              case NoMore => Listed([])
              case Thrown(reason) => Failed([], reason)
      ensures !r.Token? ==> !last
    {
      if begin == |input| {
        if last {
          last := false;
          return Token("", begin);
        }
        return NoMore;
      }
      hide Scan;
      r := ReadField(input, begin);
    }
  }

  // ----- token_iterator over the functor -----

  class EscapedListIterator {
    const f: EscapedListSeparator
    const input: string
    var begin: nat
    var valid: bool
    var tok: string
    /** Set when the functor has thrown; the iterator is then of no further use. */
    var thrown: Option<Reason>

    /** The fields from the current token on. */
    ghost function Remaining(): Listed
      requires begin <= |input|
      reads this, f
    {
      if thrown.Some? then Failed([], thrown.value)
      else if valid then Then(tok, Fields(f.roles, input[begin..], f.last))
      else Listed([])
    }

    /** Constructor with `initialize`: an empty input has no tokens at all. */
    constructor (roles: Roles, input: string)
      ensures fresh(f) && f.roles == roles && this.input == input && begin <= |input|
      ensures thrown.Some? ==> !valid
      ensures Remaining() == Fields(roles, input, false)
    {
      f := new EscapedListSeparator(roles);
      this.input, begin, valid, tok, thrown := input, 0, false, "", None;
      new;
      f.Reset();
      if begin != |input| {
        assert input[0..] == input;
        Advance();
      }
    }

    method Advance()
      requires begin <= |input| && thrown == None
      modifies this, f
      ensures begin <= |input| && old(begin) <= begin && (thrown.Some? ==> !valid)
      ensures if valid then (begin == old(begin) <==> old(begin) == |input|) && (begin == old(begin) ==> old(f.last) && !f.last)
              else !f.last
      ensures Remaining() == Fields(f.roles, input[old(begin)..], old(f.last))
    {
      var r := f.Apply(input, begin);
      match r {
        case Token(t, next) => tok, begin, valid := t, next, true;
        case NoMore => valid := false;
        case Thrown(reason) => valid, thrown := false, Some(reason);
      }
    }

    /** `increment`.  Only the empty field behind a final delimiter shares its position with the field
        before it, so only there the iterator compares equal to the copy made before. */
    method Increment()
      requires valid && begin <= |input| && thrown == None
      modifies this, f
      ensures begin <= |input| && old(begin) <= begin && (thrown.Some? ==> !valid)
      ensures if valid then (begin == old(begin) <==> old(begin) == |input|) && (begin == old(begin) ==> old(f.last) && !f.last)
              else !f.last
      ensures old(Remaining()) == Then(old(tok), Remaining())
    {
      Advance();
    }
  }

  /** Iterating over the tokens of a string yields exactly its list of fields, or fails as it does. */
  method Tokenize(roles: Roles, input: string) returns (result: Listed)
    ensures result == Fields(roles, input, false)
    ensures match EscapeError(roles, input)
            case None => result.Listed?
            case Some(reason) => result.Failed? && result.reason == reason
  {
    FailsIff(roles, input, false);
    var it := new EscapedListIterator(roles, input);
    var fields: seq<string> := [];
    hide Fields, EscapeError;
    while it.valid
      invariant it.begin <= |input| && it.input == input && it.f.roles == roles && fresh(it) && fresh(it.f)
      invariant it.thrown.Some? ==> !it.valid
      invariant Fields(roles, input, false) == Front(fields, it.Remaining())
      decreases |input| - it.begin, if it.f.last then 1 else 0, it.valid
    {
      ghost var before, tok := fields, it.tok;
      fields := fields + [it.tok];
      it.Increment();
      FrontThen(before, tok, it.Remaining());
    }
    assert fields + [] == fields;
    result := if it.thrown.Some? then Failed(fields, it.thrown.value) else Listed(fields);
  }

  /** Writing a list and tokenizing what was written, in one go. */
  method WriteAndTokenize(roles: Roles, e: char, d: char, fields: seq<string>) returns (result: Listed)
    requires e in roles.escape && d in roles.delim && d !in roles.escape && !roles.Special('n') && fields != [""]
    ensures result == Listed(fields)
  {
    if fields != [] { FieldsWritten(roles, e, d, fields, false); }
    result := Tokenize(roles, WriteList(roles, e, d, fields));
  }
}
