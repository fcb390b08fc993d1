/** Parser warnings and their text (`pomsky-syntax/src/warning.rs`). */
module Warnings {
  import opened Wrappers
  import opened Text
  import opened Spans

  datatype DeprecationWarning = Dot

  datatype ParseWarningKind = Deprecation(warning: DeprecationWarning) {
    /** `ParseWarningKind::at`. */
    function At(span: Span): (w: ParseWarning)
      ensures w.kind == this && w.span == span
    {
      ParseWarning(this, span)
    }
  }

  datatype ParseWarning = ParseWarning(kind: ParseWarningKind, span: Span)

  /** The deprecation text for `[.]`, written in four pieces so that its
      characters can be checked piece by piece. */
  const DotMessage: string := DotPieces[0] + DotPieces[1] + DotPieces[2] + DotPieces[3]
  const DotPieces: seq<string> := ["This syntax ", "is deprecated. ", "Use `.` without ", "the brackets."]

  /** `Display for DeprecationWarning`. */
  function DisplayDeprecation(d: DeprecationWarning): (s: string)
    ensures d == Dot ==> s == DotMessage
  {
    match d
    case Dot => DotMessage
  }

  /** `Display for ParseWarningKind`: the inner deprecation's text. */
  function DisplayKind(k: ParseWarningKind): (s: string)
    ensures s == DisplayDeprecation(k.warning)
  {
    match k
    case Deprecation(d) => DisplayDeprecation(d)
  }

  const AtMarker: string := "\n  at "

  /** `Display for ParseWarning`: the message, then the byte range in
      decimal when the span has one. */
  function DisplayWarning(w: ParseWarning): (s: string)
    ensures DisplayKind(w.kind) <= s
    ensures s == DisplayKind(w.kind) <==> w.span.Range().None?
  {
    WithLocation(DisplayKind(w.kind), w.span)
  }

  /** A message followed by the span's byte range, if it has one. */
  function WithLocation(msg: string, span: Span): (s: string)
    ensures msg <= s
    ensures s == msg <==> span.Range().None?
    ensures span.Range().Some? ==> msg + AtMarker <= s
  {
    match span.Range()
    case Some((start, end)) => msg + AtMarker + RadixString(start, 10) + ".." + RadixString(end, 10)
    case None => msg
  }

  /** The position of the first `c` in `s`, or `|s|` when there is none. */
  function IndexOf(s: string, c: char): (k: nat)
    ensures k <= |s|
    ensures forall i :: 0 <= i < k ==> s[i] != c
    ensures k < |s| ==> s[k] == c
  {
    if |s| == 0 then 0 else if s[0] == c then 0 else 1 + IndexOf(s[1..], c)
  }

  /** The value of a non-empty string of decimal digits. */
  function DecimalValue(s: string): Option<nat>
    decreases |s|
  {
    if |s| == 0 then None
    else
      var c := s[|s| - 1];
      if !('0' <= c <= '9') then None
      else if |s| == 1 then Some(c as int - '0' as int)
      else match DecimalValue(s[..|s| - 1])
        case Some(v) => Some(v * 10 + (c as int - '0' as int))
        case None => None
  }

  /** Reading `start..end` back. */
  function ReadRange(nums: string): Option<(nat, nat)> {
    var d := IndexOf(nums, '.');
    if d + 1 >= |nums| || nums[d + 1] != '.' then None
    else match (DecimalValue(nums[..d]), DecimalValue(nums[d + 2..]))
      case (Some(a), Some(b)) => Some((a, b))
      case _ => None
  }

  /** Reading a displayed warning back: the message up to the first line
      break, and the range after it if there is one. */
  function ReadWarning(text: string): Option<(string, Option<(nat, nat)>)> {
    var k := IndexOf(text, '\n');
    if k == |text| then Some((text, None))
    else
      var rest := text[k..];
      if |rest| < |AtMarker| || rest[..|AtMarker|] != AtMarker then None
      else match ReadRange(rest[|AtMarker|..])
        case Some(range) => Some((text[..k], Some(range)))
        case None => None
  }

  lemma {:induction false} IndexOfConcat(a: string, b: string, c: char)
    requires forall i :: 0 <= i < |a| ==> a[i] != c
    ensures IndexOf(a + b, c) == |a| + IndexOf(b, c)
    decreases |a|
  {
    if |a| > 0 {
      assert (a + b)[1..] == a[1..] + b;
      IndexOfConcat(a[1..], b, c);
    } else {
      assert a + b == b;
    }
  }

  /** Decimal digits read back to the number they were written from. */
  lemma {:induction false} DecimalRoundTrip(n: nat)
    ensures DecimalValue(RadixString(n, 10)) == Some(n)
    decreases n
  {
    var s := RadixString(n, 10);
    if n >= 10 {
      DecimalRoundTrip(n / 10);
      assert s[..|s| - 1] == RadixString(n / 10, 10);
    }
  }

  lemma DigitsHaveNoDot(n: nat)
    ensures forall i :: 0 <= i < |RadixString(n, 10)| ==> RadixString(n, 10)[i] != '.' && RadixString(n, 10)[i] != '\n'
    decreases n
  {
    if n >= 10 {
      DigitsHaveNoDot(n / 10);
    }
  }

  lemma NoBreakConcat(a: string, b: string)
    requires '\n' !in a && '\n' !in b
    ensures '\n' !in a + b
  {
  }

  lemma DotMessageHasNoBreak()
    ensures '\n' !in DotMessage
  {
    var p := DotPieces;
    assert '\n' !in p[0] && '\n' !in p[1];
    assert '\n' !in p[2] && '\n' !in p[3];
    NoBreakConcat(p[0], p[1]);
    NoBreakConcat(p[0] + p[1], p[2]);
    NoBreakConcat(p[0] + p[1] + p[2], p[3]);
  }

  lemma MessagesHaveNoBreak(k: ParseWarningKind)
    ensures forall i :: 0 <= i < |DisplayKind(k)| ==> DisplayKind(k)[i] != '\n'
  {
    DotMessageHasNoBreak();
  }

  /** Two dot-free numerals joined by `..` split back at the first dot. */
  lemma ReadJoined(a: string, b: string)
    requires forall i :: 0 <= i < |a| ==> a[i] != '.'
    ensures ReadRange(a + ".." + b) == match (DecimalValue(a), DecimalValue(b))
      case (Some(x), Some(y)) => Some((x, y))
      case _ => None
  {
    var tail := a + ".." + b;
    assert tail == a + (".." + b);
    IndexOfConcat(a, ".." + b, '.');
    assert IndexOf(".." + b, '.') == 0;
    assert IndexOf(tail, '.') == |a|;
    assert tail[|a| + 1] == '.';
    assert tail[..|a|] == a;
    assert tail[|a| + 2..] == b;
  }

  lemma ReadDecimalRange(start: nat, end: nat)
    ensures ReadRange(RadixString(start, 10) + ".." + RadixString(end, 10)) == Some((start, end))
  {
    DigitsHaveNoDot(start);
    ReadJoined(RadixString(start, 10), RadixString(end, 10));
    DecimalRoundTrip(start);
    DecimalRoundTrip(end);
  }

  lemma ReadAfterMessage(msg: string, tail: string)
    requires forall i :: 0 <= i < |msg| ==> msg[i] != '\n'
    requires ReadRange(tail).Some?
    ensures ReadWarning(msg + AtMarker + tail) == Some((msg, ReadRange(tail)))
  {
    var text := msg + AtMarker + tail;
    assert text == msg + (AtMarker + tail);
    IndexOfConcat(msg, AtMarker + tail, '\n');
    assert AtMarker[0] == '\n';
    assert IndexOf(AtMarker + tail, '\n') == 0;
    assert text[|msg|..] == AtMarker + tail;
    assert (AtMarker + tail)[..|AtMarker|] == AtMarker;
    assert (AtMarker + tail)[|AtMarker|..] == tail;
    assert text[..|msg|] == msg;
  }

  /** A message without line breaks and its location can be read back
      from their text. */
  lemma ReadWithLocation(msg: string, span: Span)
    requires forall i :: 0 <= i < |msg| ==> msg[i] != '\n'
    ensures ReadWarning(WithLocation(msg, span)) == Some((msg, span.Range()))
  {
    if span.Span? {
      var tail := RadixString(span.start, 10) + ".." + RadixString(span.end, 10);
      assert WithLocation(msg, span) == msg + AtMarker + tail;
      ReadDecimalRange(span.start, span.end);
      ReadAfterMessage(msg, tail);
    } else {
      assert IndexOf(msg, '\n') == |msg|;
    }
  }

  /** The displayed text determines the message and the range: reading it
      back gives exactly the message and the span's range. */
  lemma ReadDisplayedWarning(w: ParseWarning)
    ensures ReadWarning(DisplayWarning(w)) == Some((DisplayKind(w.kind), w.span.Range()))
  {
    MessagesHaveNoBreak(w.kind);
    ReadWithLocation(DisplayKind(w.kind), w.span);
  }
}
