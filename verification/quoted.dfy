/** String literals (`strip_first_last` and `parse_quoted_text` in
    `pomsky-lib/src/parse/parsers.rs`). A double-quoted literal knows two
    escapes, `\\` and `\"`; a literal in single quotes is taken verbatim. */
module Quoted {
  import opened Wrappers
  import opened Text
  import opened Errors

  /** The text between the quotes: one byte off each end. */
  function StripFirstLast(s: string): (r: string)
    requires |s| >= 2 && IsAscii(s[0]) && IsAscii(s[|s| - 1])
    ensures |r| == |s| - 2
    ensures Utf8(r) == Utf8(s)[1..|Utf8(s)| - 1]
  {
    var r := s[1..|s| - 1];
    assert s == [s[0]] + r + [s[|s| - 1]];
    Utf8Concat([s[0]] + r, [s[|s| - 1]]);
    Utf8Concat([s[0]], r);
    r
  }

  predicate IsEscapable(c: char) {
    c == '\\' || c == '"'
  }

  /** The decoded content of the text inside double quotes, or the byte
      offset (within that text) of the first backslash that starts no valid
      escape. */
  function Unescape(s: string): Result<string, nat>
    decreases |s|
  {
    if s == [] then Ok([])
    else if s[0] == '\\' then
      if |s| >= 2 && IsEscapable(s[1]) then
        match Unescape(s[2..])
        case Ok(t) => Ok([s[1]] + t)
        case Err(k) => Err(k + 2)
      else Err(0)
    else
      match Unescape(s[1..])
      case Ok(t) => Ok([s[0]] + t)
      case Err(k) => Err(k + Utf8Len([s[0]]))
  }

  /** What `parse_quoted_text` returns for a string token. The offset in
      `InvalidEscapeInStringAt` is `input.len() - s.len()`, where `s` is the
      rest of the inner text from the offending backslash on: the byte offset
      of the backslash plus one. */
  function QuotedText(input: string): Result<string, ParseErrorKind>
    requires |input| >= 2 && IsAscii(input[0]) && IsAscii(input[|input| - 1])
  {
    if input[0] == '"' then
      match Unescape(StripFirstLast(input))
      case Ok(t) => Ok(t)
      case Err(k) => Err(InvalidEscapeInStringAt(k + 2))
    else Ok(StripFirstLast(input))
  }

  function Shift(r: Result<string, nat>, done: string, consumed: nat): Result<string, nat> {
    match r
    case Ok(t) => Ok(done + t)
    case Err(k) => Err(consumed + k)
  }

  lemma ShiftNothing(r: Result<string, nat>)
    ensures Shift(r, "", 0) == r
  {
    match r
    case Ok(t) => assert "" + t == t;
    case Err(k) =>
  }

  lemma ShiftTwice(r: Result<string, nat>, a: string, m: nat, b: string, n: nat)
    ensures Shift(Shift(r, b, n), a, m) == Shift(r, a + b, m + n)
  {
    match r
    case Ok(t) => assert a + (b + t) == (a + b) + t;
    case Err(k) =>
  }

  /** The state of the decoding loop after `i` characters of `s`, with
      `buf` decoded so far: what decoding the whole text will give. */
  function Outcome(s: string, i: nat, buf: string): Result<string, nat>
    requires i <= |s|
  {
    Shift(Unescape(s[i..]), buf, Utf8Len(s[..i]))
  }

  lemma StepPlain(s: string, i: nat, buf: string)
    requires i < |s| && s[i] != '\\'
    ensures Outcome(s, i, buf) == Outcome(s, i + 1, buf + [s[i]])
  {
    var t := s[i..];
    assert t[0] == s[i] && t[1..] == s[i + 1..];
    assert Unescape(t) == Shift(Unescape(s[i + 1..]), [s[i]], Utf8Len([s[i]]));
    assert s[..i + 1] == s[..i] + [s[i]];
    Utf8Concat(s[..i], [s[i]]);
    ShiftTwice(Unescape(s[i + 1..]), buf, Utf8Len(s[..i]), [s[i]], Utf8Len([s[i]]));
  }

  lemma StepEscape(s: string, i: nat, buf: string)
    requires i + 1 < |s| && s[i] == '\\' && IsEscapable(s[i + 1])
    ensures Outcome(s, i, buf) == Outcome(s, i + 2, buf + [s[i + 1]])
  {
    var t := s[i..];
    assert t[0] == '\\' && |t| >= 2 && t[1] == s[i + 1];
    assert t[2..] == s[i + 2..];
    assert Unescape(t) == Shift(Unescape(s[i + 2..]), [s[i + 1]], 2);
    assert s[..i + 2] == s[..i] + [s[i], s[i + 1]];
    Utf8Concat(s[..i], [s[i], s[i + 1]]);
    Utf8Ascii([s[i], s[i + 1]]);
    assert Utf8Len(s[..i + 2]) == Utf8Len(s[..i]) + 2;
    ShiftTwice(Unescape(s[i + 2..]), buf, Utf8Len(s[..i]), [s[i + 1]], 2);
  }

  lemma StepBad(s: string, i: nat, buf: string)
    requires i < |s| && s[i] == '\\' && !(i + 1 < |s| && IsEscapable(s[i + 1]))
    ensures Outcome(s, i, buf) == Err(Utf8Len(s[..i]))
  {
    assert s[i..][0] == s[i];
    assert |s[i..]| >= 2 ==> s[i..][1] == s[i + 1];
  }

  lemma ErrorOffset(input: string, s: string, i: nat)
    requires |input| >= 2 && IsAscii(input[0]) && IsAscii(input[|input| - 1])
    requires s == StripFirstLast(input) && i <= |s|
    ensures |Utf8(input)| - |Utf8(s[i..])| == Utf8Len(s[..i]) + 2
  {
    assert s[..i] + s[i..] == s;
    Utf8Concat(s[..i], s[i..]);
  }

  lemma StepStart(s: string)
    ensures Outcome(s, 0, "") == Unescape(s)
  {
    assert s[0..] == s;
    assert s[..0] == [];
    ShiftNothing(Unescape(s));
  }

  lemma StepEnd(s: string, buf: string)
    ensures Outcome(s, |s|, buf) == Ok(buf)
  {
    assert s[|s|..] == [];
    assert buf + [] == buf;
  }

  /** `parse_quoted_text`: walk the inner text, copying characters and
      decoding escapes into a buffer, and stop at the first invalid escape. */
  method ParseQuotedText(input: string) returns (r: Result<string, ParseErrorKind>)
    requires |input| >= 2 && IsAscii(input[0]) && IsAscii(input[|input| - 1])
    ensures r == QuotedText(input)
  {
    if input[0] != '"' {
      return Ok(StripFirstLast(input));
    }
    var s := StripFirstLast(input);
    var buf := "";
    var i := 0;
    StepStart(s);
    while i < |s|
      invariant 0 <= i <= |s|
      invariant Unescape(s) == Outcome(s, i, buf)
    {
      if s[i] == '\\' {
        if i + 1 < |s| && (s[i + 1] == '\\' || s[i + 1] == '"') {
          StepEscape(s, i, buf);
          buf := buf + [s[i + 1]];
          i := i + 2;
        } else {
          StepBad(s, i, buf);
          ErrorOffset(input, s, i);
          // input.len() - s.len(), with s the rest of the inner text
          return Err(InvalidEscapeInStringAt(|Utf8(input)| - |Utf8(s[i..])|));
        }
      } else {
        StepPlain(s, i, buf);
        buf := buf + [s[i]];
        i := i + 1;
      }
    }
    StepEnd(s, buf);
    r := Ok(buf);
  }

  /** The literal text that decodes to `t`: every backslash and double
      quote preceded by a backslash. */
  function Escape(t: string): string {
    if t == [] then []
    else (if IsEscapable(t[0]) then ['\\', t[0]] else [t[0]]) + Escape(t[1..])
  }

  lemma {:induction false} UnescapeEscape(t: string)
    ensures Unescape(Escape(t)) == Ok(t)
  {
    if t != [] {
      var e := Escape(t);
      var tail := Escape(t[1..]);
      UnescapeEscape(t[1..]);
      if IsEscapable(t[0]) {
        assert e == ['\\', t[0]] + tail;
        assert e[2..] == tail;
      } else {
        assert e == [t[0]] + tail;
        assert e[1..] == tail;
      }
      assert [t[0]] + t[1..] == t;
    }
  }

  /** Decoding a double-quoted literal undoes `Escape`: every string is the
      content of some literal. */
  lemma QuotedEscapeRoundTrip(t: string)
    ensures var lit := ['"'] + Escape(t) + ['"'];
      |lit| >= 2 && IsAscii(lit[0]) && IsAscii(lit[|lit| - 1]) && QuotedText(lit) == Ok(t)
  {
    var lit := ['"'] + Escape(t) + ['"'];
    assert StripFirstLast(lit) == Escape(t);
    UnescapeEscape(t);
  }

  /** Text without backslashes is copied unchanged. */
  lemma {:induction false} UnescapePlain(s: string)
    requires forall i :: 0 <= i < |s| ==> s[i] != '\\'
    ensures Unescape(s) == Ok(s)
  {
    if s != [] {
      UnescapePlain(s[1..]);
      assert [s[0]] + s[1..] == s;
    }
  }

  lemma PrefixSplit(s: string, n: nat, j: nat)
    requires n + j <= |s|
    ensures s[..n + j] == s[..n] + s[n..][..j]
  {
  }

  predicate BadEscapeAt(s: string, j: int) {
    0 <= j < |s| && s[j] == '\\' && !(j + 1 < |s| && IsEscapable(s[j + 1]))
  }

  /** An error found after a valid escape moves two bytes along. */
  lemma ErrorAfterEscape(s: string, j: nat)
    requires |s| >= 2 && s[0] == '\\' && IsEscapable(s[1])
    requires BadEscapeAt(s[2..], j) && Unescape(s[2..][..j]).Ok? && Unescape(s[2..]).Err?
    requires Unescape(s[2..]).error == Utf8Len(s[2..][..j])
    ensures BadEscapeAt(s, j + 2) && Unescape(s[..j + 2]).Ok? && Unescape(s).error == Utf8Len(s[..j + 2])
  {
    var t := s[2..];
    var p := s[..j + 2];
    PrefixSplit(s, 2, j);
    assert p[0] == s[0] && p[1] == s[1] && p[2..] == t[..j];
    assert Unescape(p).Ok?;
    Utf8Concat(s[..2], t[..j]);
    Utf8Ascii(s[..2]);
    assert Unescape(s).error == Utf8Len(p);
    assert s[j + 2] == t[j];
    assert j + 3 < |s| ==> s[j + 3] == t[j + 1];
  }

  /** An error found after a plain character moves by its byte length. */
  lemma ErrorAfterPlain(s: string, j: nat)
    requires |s| >= 1 && s[0] != '\\'
    requires BadEscapeAt(s[1..], j) && Unescape(s[1..][..j]).Ok? && Unescape(s[1..]).Err?
    requires Unescape(s[1..]).error == Utf8Len(s[1..][..j])
    ensures BadEscapeAt(s, j + 1) && Unescape(s[..j + 1]).Ok? && Unescape(s).error == Utf8Len(s[..j + 1])
  {
    var t := s[1..];
    var p := s[..j + 1];
    PrefixSplit(s, 1, j);
    assert p[0] == s[0] && p[1..] == t[..j];
    assert Unescape(p).Ok?;
    Utf8Concat([s[0]], t[..j]);
    assert s[..1] == [s[0]];
    assert Unescape(s).error == Utf8Len(p);
    assert s[j + 1] == t[j];
    assert j + 2 < |s| ==> s[j + 2] == t[j + 1];
  }

  /** A decoding error points at a backslash that starts no valid escape,
      with everything before it decoding cleanly; the reported offset is the
      number of bytes before that backslash. */
  lemma {:induction false} UnescapeError(s: string)
    requires Unescape(s).Err?
    ensures exists j :: BadEscapeAt(s, j) && Unescape(s[..j]).Ok? && Unescape(s).error == Utf8Len(s[..j])
    decreases |s|
  {
    if s[0] == '\\' && |s| >= 2 && IsEscapable(s[1]) {
      UnescapeError(s[2..]);
      var j :| BadEscapeAt(s[2..], j) && Unescape(s[2..][..j]).Ok? && Unescape(s[2..]).error == Utf8Len(s[2..][..j]);
      ErrorAfterEscape(s, j);
    } else if s[0] == '\\' {
      assert s[..0] == [];
      assert BadEscapeAt(s, 0);
    } else {
      UnescapeError(s[1..]);
      var j :| BadEscapeAt(s[1..], j) && Unescape(s[1..][..j]).Ok? && Unescape(s[1..]).error == Utf8Len(s[1..][..j]);
      ErrorAfterPlain(s, j);
    }
  }
}
