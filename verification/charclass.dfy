/** Character classes `[...]` (`parse_char_class` and its inner parsers in
    `pomsky-lib/src/parse/parsers.rs`). */
module CharClasses {
  import opened Wrappers
  import opened Text
  import opened Spans
  import opened Tokens
  import opened Errors
  import opened Nom
  import opened Quoted
  import opened Ast
  import opened CodePoints
  import opened Atoms

  /** One endpoint of a class item: a string token still to be decoded, or
      a character already known. */
  datatype StringOrChar = Str(text: string) | Ch(c: char)

  predicate ValidEndpoint(x: StringOrChar) {
    x.Str? ==> |x.text| >= 2 && IsAscii(x.text[0]) && IsAscii(x.text[|x.text| - 1])
  }

  /** `StringOrChar::to_char`: a string must decode to exactly one
      character; a decoding error is passed on as it is. */
  function ToChar(x: StringOrChar): (r: Result<char, ParseErrorKind>)
    requires ValidEndpoint(x)
    ensures x.Ch? ==> r == Ok(x.c)
    ensures x.Str? && r.Ok? ==> QuotedText(x.text) == Ok([r.value])
    ensures x.Str? && QuotedText(x.text).Err? ==> r == Err(QuotedText(x.text).error)
    ensures x.Str? && QuotedText(x.text).Ok? ==>
      (r.Ok? <==> |QuotedText(x.text).value| == 1) &&
      (r.Err? ==> r.error == CharString(if |QuotedText(x.text).value| == 0 then CharStringError.Empty
                                        else CharStringError.TooManyCodePoints))
  {
    match x
    case Ch(c) => Ok(c)
    case Str(s) =>
      match QuotedText(s)
      case Err(k) => Err(k)
      case Ok(t) =>
        if |t| == 1 then assert t == [t[0]]; Ok(t[0])
        else if |t| == 0 then Err(CharString(CharStringError.Empty))
        else Err(CharString(CharStringError.TooManyCodePoints))
  }

  /** A one-character literal in either kind of quotes is that character. */
  lemma ToCharOfLiteral(c: char)
    ensures ToChar(Str(['\''] + [c] + ['\''])) == Ok(c)
    ensures var lit := ['"'] + Escape([c]) + ['"'];
      ValidEndpoint(Str(lit)) && ToChar(Str(lit)) == Ok(c)
  {
    assert StripFirstLast(['\''] + [c] + ['\'']) == [c];
    QuotedEscapeRoundTrip([c]);
  }

  /** `parse_string_or_char`: a string token, a code point, or a special
      character, tried in that order; if none applies, a recoverable
      `ExpectedCodePointOrChar` at the next token. */
  function ParseStringOrChar(input: Input): (r: PResult<StringOrChar>)
    requires input.Valid()
    ensures Consumed(input, r)
    ensures r.Parsed? ==> ValidEndpoint(r.value) && r.rest == input.Advance()
    ensures r.Error? ==> r.err == ExpectedCodePointOrChar.At(input.FirstSpan())
    ensures r.Failure? ==> input.StartsWith(TokenKind.CodePoint)
  {
    var s := ExpectToken(input, TokenKind.String);
    if s.Parsed? then Parsed(s.rest, Str(s.value.0))
    else
      var cp := ParseCodePoint(input);
      if cp.Parsed? then Parsed(cp.rest, Ch(cp.value.0))
      else if cp.Failure? then Failure(cp.err)
      else
        var sc := ParseSpecialChar(input);
        if sc.Parsed? then Parsed(sc.rest, Ch(sc.value))
        else Error(ExpectedCodePointOrChar.At(input.FirstSpan()))
  }

  /** `parse_chars_or_range`: a single endpoint (a string gives all its
      characters), or two endpoints around a dash, each of which must be a
      single character and which must not descend. Once the dash is seen,
      every error is fatal. */
  function ParseCharsOrRange(input: Input): (r: PResult<CharGroup>)
    requires input.Valid()
    ensures Consumed(input, r)
    ensures r.Parsed? ==> r.value.Items?
    ensures r.Error? <==> ParseStringOrChar(input).Error?
    ensures ParseStringOrChar(input).Failure? ==> r == Failure(ParseStringOrChar(input).err)
    ensures var first := ParseStringOrChar(input);
      first.Parsed? && !first.rest.StartsWith(Dash) ==>
        match SingleEndpoint(first.value, input.FirstSpan())
        case Ok(g) => r == Parsed(first.rest, g)
        case Err(e) => r == Failure(e)
    ensures var first := ParseStringOrChar(input);
      first.Parsed? && first.rest.StartsWith(Dash) ==>
        var last := ParseStringOrChar(first.rest.Advance());
        if !last.Parsed? then r == Failure(last.err)
        else match RangeOfEndpoints(first.value, input.FirstSpan(), last.value, first.rest.Advance().FirstSpan())
          case Ok(g) => r == Parsed(last.rest, g)
          case Err(e) => r == Failure(e)
  {
    var span1 := input.FirstSpan();
    var first := ParseStringOrChar(input);
    if first.Error? then Error(first.err)
    else if first.Failure? then Failure(first.err)
    else
      var dash := ExpectToken(first.rest, Dash);
      if dash.Parsed? then
        var span2 := dash.rest.FirstSpan();
        var last := Cut(ParseStringOrChar(dash.rest));
        if !last.Parsed? then Failure(last.err)
        else
          SuffixTrans(input, first.rest, dash.rest);
          SuffixTrans(input, dash.rest, last.rest);
          match RangeOfEndpoints(first.value, span1, last.value, span2)
          case Err(e) => Failure(e)
          case Ok(g) => Parsed(last.rest, g)
      else
        match SingleEndpoint(first.value, span1)
        case Err(e) => Failure(e)
        case Ok(g) => Parsed(first.rest, g)
  }

  /** The range branch of `parse_chars_or_range`, after both endpoints are
      read: each must be one character, and they must not descend. */
  function RangeOfEndpoints(first: StringOrChar, span1: Span, last: StringOrChar, span2: Span)
    : (r: Result<CharGroup, ParseError>)
    requires ValidEndpoint(first) && ValidEndpoint(last)
    ensures r.Ok? ==> r.value.Items?
    ensures ToChar(first).Err? ==> r == Err(ToChar(first).error.At(span1))
    ensures ToChar(first).Ok? && ToChar(last).Err? ==> r == Err(ToChar(last).error.At(span2))
    ensures ToChar(first).Ok? && ToChar(last).Ok? ==>
      var f, l := ToChar(first).value, ToChar(last).value;
      && (r.Ok? <==> f <= l)
      && (r.Ok? ==> r.value == Items([CharRange(f, l)]))
      && (r.Err? ==> r.error == ParseErrorKind.CharClass(DescendingRange(f, l)).At(span1.Join(span2)))
  {
    match ToChar(first)
    case Err(e) => Err(e.At(span1))
    case Ok(f) =>
      match ToChar(last)
      case Err(e) => Err(e.At(span2))
      case Ok(l) =>
        match TryFromRange(f, l)
        case None => Err(ParseErrorKind.CharClass(DescendingRange(f, l)).At(span1.Join(span2)))
        case Some(g) => Ok(g)
  }

  /** The branch without a dash: a string stands for all its characters. */
  function SingleEndpoint(first: StringOrChar, span1: Span): (r: Result<CharGroup, ParseError>)
    requires ValidEndpoint(first)
    ensures r.Ok? ==> r.value.Items?
    ensures first.Ch? ==> r == Ok(Items([Char(first.c)]))
    ensures first.Str? ==> match QuotedText(first.text)
      case Ok(t) => r == Ok(FromChars(t))
      case Err(k) => r == Err(k.At(span1))
  {
    match first
    case Str(s) =>
      (match QuotedText(s)
       case Err(k) => Err(k.At(span1))
       case Ok(t) => Ok(FromChars(t)))
    case Ch(c) => Ok(FromChar(c))
  }

  /** A string token is read as a string endpoint. */
  lemma StringEndpoint(input: Input)
    requires input.Valid() && input.StartsWith(TokenKind.String)
    ensures ParseStringOrChar(input) == Parsed(input.Advance(), Str(input.tokens[0].text))
  {
  }

  /** Two one-character literals around a dash form a range exactly when
      they do not descend; otherwise the error covers both endpoints. */
  lemma CharRangeOrder(input: Input, f: char, l: char)
    requires input.Valid() && |input.tokens| >= 3
    requires input.tokens[0] == Token(TokenKind.String, ['\''] + [f] + ['\''], input.tokens[0].span)
    requires input.tokens[1].kind == Dash
    requires input.tokens[2] == Token(TokenKind.String, ['\''] + [l] + ['\''], input.tokens[2].span)
    ensures ParseCharsOrRange(input) ==
      if f <= l then Parsed(input.Advance().Advance().Advance(), Items([CharRange(f, l)]))
      else Failure(ParseErrorKind.CharClass(DescendingRange(f, l)).At(input.tokens[0].span.Join(input.tokens[2].span)))
  {
    var d := input.Advance();
    assert d.tokens[0] == input.tokens[1] && d.Advance().tokens[0] == input.tokens[2];
    StringEndpoint(input);
    StringEndpoint(d.Advance());
    ToCharOfLiteral(f);
    ToCharOfLiteral(l);
  }

  /** `parse_dot` inside a class: the deprecated `.` item. */
  function ParseDot(input: Input): (r: PResult<CharGroup>)
    ensures !r.Failure? && Consumed(input, r)
    ensures r.Parsed? <==> input.StartsWith(TokenKind.Dot)
    ensures r.Parsed? ==> r.value == CharGroup.Dot
  {
    var t := ExpectToken(input, TokenKind.Dot);
    if t.Parsed? then Parsed(t.rest, CharGroup.Dot) else Error(t.err)
  }

  /** `CharGroup::try_from_group_name`, which resolves a class name such as
      `word` or `Greek` (with `!` for a negated one). */
  type GroupNames = (string, bool) -> Result<CharGroup, CharClassError>

  /** A named class item, `!`-prefixed or not; a name the resolver rejects
      is a fatal error. */
  function ParseNamedItem(input: Input, names: GroupNames): (r: PResult<CharGroup>)
    ensures Consumed(input, r)
    ensures var after := if input.StartsWith(Not) then input.Advance() else input;
      && (r.Error? <==> !after.StartsWith(Identifier))
      && (!r.Error? ==> names(after.tokens[0].text, input.StartsWith(Not)).Ok? == r.Parsed?)
      && (r.Parsed? ==> r == Parsed(after.Advance(), names(after.tokens[0].text, input.StartsWith(Not)).value))
      && (r.Failure? ==> r.err == ParseErrorKind.CharClass(names(after.tokens[0].text, input.StartsWith(Not)).error)
                                    .At(input.FirstSpan()))
  {
    var not := ExpectToken(input, Not);
    var after := if not.Parsed? then not.rest else input;
    var id := ExpectToken(after, Identifier);
    if !id.Parsed? then Error(id.err)
    else
      SuffixTrans(input, after, id.rest);
      match names(id.value.0, not.Parsed?)
      case Ok(g) => Parsed(id.rest, g)
      case Err(e) => Failure(ParseErrorKind.CharClass(e).At(input.FirstSpan()))
  }

  /** A `.` starts no endpoint, so the dot item is the one to read it. */
  lemma DotIsNoEndpoint(input: Input)
    requires input.Valid()
    ensures input.StartsWith(TokenKind.Dot) ==> ParseStringOrChar(input).Error?
  {
  }

  /** One item of a class: the alternatives of `parse_char_group`, ending
      in a recoverable `Invalid` error. */
  function ParseGroupItem(input: Input, names: GroupNames): (r: PResult<CharGroup>)
    requires input.Valid()
    ensures Consumed(input, r)
    ensures r.Error? ==> r.err == ParseErrorKind.CharClass(CharClassError.Invalid).At(input.FirstSpan())
    ensures input.StartsWith(TokenKind.Dot) ==> r == Parsed(input.Advance(), CharGroup.Dot)
  {
    DotIsNoEndpoint(input);
    var a := ParseCharsOrRange(input);
    if !a.Error? then a
    else
      var b := ParseDot(input);
      if !b.Error? then b
      else
        var c := ParseNamedItem(input, names);
        if !c.Error? then c
        else Error(ParseErrorKind.CharClass(CharClassError.Invalid).At(input.FirstSpan()))
  }

  /** `many0` over the items: as many as parse, stopping at the first
      recoverable error. */
  function GroupItems(input: Input, names: GroupNames): (r: PResult<seq<CharGroup>>)
    requires input.Valid()
    ensures !r.Error?
    ensures r.Parsed? ==> input.SuffixOf(r.rest)
    decreases |input.tokens|
  {
    var item := ParseGroupItem(input, names);
    if item.Error? then Parsed(input, [])
    else if item.Failure? then Failure(item.err)
    else
      SuffixValid(input, item.rest);
      var more := GroupItems(item.rest, names);
      if more.Parsed? then
        SuffixTrans(input, item.rest, more.rest);
        Parsed(more.rest, [item.value] + more.value)
      else more
  }

  /** `CharGroup::add`: items are appended to items; the deprecated dot
      cannot be combined with anything. */
  function CharGroupAdd(a: CharGroup, b: CharGroup): (r: Result<CharGroup, CharClassError>)
    ensures r.Ok? <==> a.Items? && b.Items?
    ensures r.Ok? ==> r.value == Items(a.items + b.items)
    ensures r.Err? ==> r.error == Unallowed
  {
    if a.Items? && b.Items? then Ok(Items(a.items + b.items)) else Err(Unallowed)
  }

  /** The class the items make: the first item, with every later one added
      in order; no items make an empty class. */
  function FoldGroups(gs: seq<CharGroup>): Result<CharGroup, CharClassError>
    decreases |gs|
  {
    if |gs| == 0 then Ok(Items([]))
    else if |gs| == 1 then Ok(gs[0])
    else
      match FoldGroups(gs[..|gs| - 1])
      case Ok(c) => CharGroupAdd(c, gs[|gs| - 1])
      case Err(e) => Err(e)
  }

  /** All the items of a sequence of item groups, in order. */
  function AllItems(gs: seq<CharGroup>): seq<GroupItem>
    requires forall i :: 0 <= i < |gs| ==> gs[i].Items?
  {
    if |gs| == 0 then [] else AllItems(gs[..|gs| - 1]) + gs[|gs| - 1].items
  }

  /** The fold succeeds exactly when there is at most one item or no item
      is a dot; then the class holds all the items in order, and otherwise
      the error is `Unallowed`. */
  lemma {:induction false} FoldGroupsMeaning(gs: seq<CharGroup>)
    ensures FoldGroups(gs).Ok? <==> |gs| <= 1 || forall i :: 0 <= i < |gs| ==> gs[i].Items?
    ensures (forall i :: 0 <= i < |gs| ==> gs[i].Items?) ==> FoldGroups(gs) == Ok(Items(AllItems(gs)))
    ensures FoldGroups(gs).Err? ==> FoldGroups(gs).error == Unallowed
    decreases |gs|
  {
    if |gs| >= 2 {
      var init := gs[..|gs| - 1];
      FoldGroupsMeaning(init);
      assert forall i :: 0 <= i < |init| ==> init[i] == gs[i];
      if FoldGroups(init).Ok? && !FoldGroups(init).value.Items? {
        assert |init| == 1 && init[0] == CharGroup.Dot;
      }
    } else if |gs| == 1 && gs[0].Items? {
      assert gs[..0] == [];
      assert AllItems(gs) == gs[0].items;
    }
  }

  /** An error in the fold is never undone by later items. */
  lemma {:induction false} FoldGroupsSticky(gs: seq<CharGroup>, i: nat)
    requires i <= |gs| && FoldGroups(gs[..i]).Err?
    ensures FoldGroups(gs) == FoldGroups(gs[..i])
    decreases |gs| - i
  {
    if i < |gs| {
      assert gs[..i + 1][..i] == gs[..i];
      FoldGroupsSticky(gs, i + 1);
    } else {
      assert gs[..i] == gs;
    }
  }

  /** The loop of `parse_char_group` that adds every later item to the
      first one, stopping at the first item that cannot be added. */
  method CombineGroups(gs: seq<CharGroup>) returns (r: Result<CharGroup, CharClassError>)
    ensures r == FoldGroups(gs)
  {
    if |gs| == 0 {
      return Ok(Items([]));
    }
    var acc := gs[0];
    var i := 1;
    while i < |gs|
      invariant 1 <= i <= |gs|
      invariant FoldGroups(gs[..i]) == Ok(acc)
    {
      assert gs[..i + 1][..i] == gs[..i];
      var added := CharGroupAdd(acc, gs[i]);
      if added.Err? {
        FoldGroupsSticky(gs, i + 1);
        return added;
      }
      acc := added.value;
      i := i + 1;
    }
    assert gs[..i] == gs;
    return Ok(acc);
  }

  /** `parse_char_group`: the items, folded into one class; a fold error is
      fatal and spans from the first item to where the items end. */
  function ParseCharGroup(input: Input, names: GroupNames): (r: PResult<CharGroup>)
    requires input.Valid()
    ensures !r.Error?
    ensures r.Parsed? ==> input.SuffixOf(r.rest)
    ensures GroupItems(input, names).Failure? ==> r == Failure(GroupItems(input, names).err)
    ensures var items := GroupItems(input, names);
      items.Parsed? && (forall i :: 0 <= i < |items.value| ==> items.value[i].Items?) ==>
        r == Parsed(items.rest, Items(AllItems(items.value)))
    ensures var items := GroupItems(input, names);
      items.Parsed? && |items.value| == 1 ==> r == Parsed(items.rest, items.value[0])
    ensures var items := GroupItems(input, names);
      items.Parsed? && |items.value| > 1 && (exists i :: 0 <= i < |items.value| && items.value[i].Dot?) ==>
        r == Failure(ParseErrorKind.CharClass(Unallowed).At(input.FirstSpan().Join(items.rest.FirstSpan().StartPoint())))
  {
    var span1 := input.FirstSpan();
    var items := GroupItems(input, names);
    if !items.Parsed? then Failure(items.err)
    else
      FoldGroupsMeaning(items.value);
      match FoldGroups(items.value)
      case Ok(c) => Parsed(items.rest, c)
      case Err(e) => Failure(ParseErrorKind.CharClass(e).At(span1.Join(items.rest.FirstSpan().StartPoint())))
  }

  /** `parse_char_class`: `[`, a diagnostic for a leading `^`, the items,
      `]`; an empty class is an error at the opening bracket. Everything
      after the `[` is committed. */
  function ParseCharClass(input: Input, names: GroupNames): (r: PResult<Rule>)
    requires input.Valid()
    ensures r.Error? <==> !input.StartsWith(OpenBracket)
    ensures r.Parsed? ==> r.value.CharClass? && r.value.group != Items([])
    ensures input.StartsWith(OpenBracket) && input.Advance().StartsWith(Caret) ==>
      r == Failure(ParseErrorKind.CharClass(CaretInGroup).At(input.tokens[1].span))
    ensures input.StartsWith(OpenBracket) && !input.Advance().StartsWith(Caret) ==>
      var g := ParseCharGroup(input.Advance(), names);
      && (!g.Parsed? ==> r == Failure(g.err))
      && (g.Parsed? && !g.rest.StartsWith(CloseBracket) ==> r == Failure(ExpectedToken(CloseBracket).At(g.rest.FirstSpan())))
      && (g.Parsed? && g.rest.StartsWith(CloseBracket) && g.value == Items([]) ==>
            r == Failure(ParseErrorKind.CharClass(CharClassError.Empty).At(input.tokens[0].span)))
      && (g.Parsed? && g.rest.StartsWith(CloseBracket) && g.value != Items([]) ==>
            r == Parsed(g.rest.Advance(), Rule.CharClass(g.value, input.tokens[0].span.Join(g.rest.tokens[0].span))))
  {
    var open := ExpectToken(input, OpenBracket);
    if !open.Parsed? then Error(open.err)
    else
      var caret := ExpectToken(open.rest, Caret);
      if caret.Parsed? then Failure(ParseErrorKind.CharClass(CaretInGroup).At(open.rest.FirstSpan()))
      else
        var group := ParseCharGroup(open.rest, names);
        if !group.Parsed? then Failure(group.err)
        else
          var close := Cut(ExpectToken(group.rest, CloseBracket));
          if !close.Parsed? then Failure(close.err)
          else if group.value == Items([]) then Failure(ParseErrorKind.CharClass(CharClassError.Empty).At(input.FirstSpan()))
          else Parsed(close.rest, Rule.CharClass(group.value, open.value.1.Join(close.value.1)))
  }

  /** Before a closing bracket there are no items: the group is empty. */
  lemma NoItemsBeforeClose(input: Input, names: GroupNames)
    requires input.Valid() && input.StartsWith(CloseBracket)
    ensures GroupItems(input, names) == Parsed(input, [])
    ensures ParseCharGroup(input, names) == Parsed(input, Items([]))
  {
    assert ParseStringOrChar(input).Error? by {
      assert ParseCodePoint(input).Error?;
      assert ParseSpecialChar(input).Error?;
    }
    assert ParseCharsOrRange(input).Error?;
    assert ParseDot(input).Error?;
    assert ParseNamedItem(input, names).Error?;
    assert ParseGroupItem(input, names).Error?;
    assert GroupItems(input, names) == Parsed(input, []);
  }

  /** `[]` is the empty-class error at the opening bracket, and `[^` the
      caret diagnostic at the caret. */
  lemma EmptyAndNegatedClasses(input: Input, names: GroupNames)
    requires input.Valid() && |input.tokens| >= 2 && input.tokens[0].kind == OpenBracket
    ensures input.tokens[1].kind == CloseBracket ==>
      ParseCharClass(input, names) == Failure(ParseErrorKind.CharClass(CharClassError.Empty).At(input.tokens[0].span))
    ensures input.tokens[1].kind == Caret ==>
      ParseCharClass(input, names) == Failure(ParseErrorKind.CharClass(CaretInGroup).At(input.tokens[1].span))
  {
    var rest := input.Advance();
    if input.tokens[1].kind == CloseBracket {
      NoItemsBeforeClose(rest, names);
    }
  }

  /** One step of the items loop: an item, then whatever the loop reads
      after it. */
  lemma ItemsStep(input: Input, names: GroupNames, rest: Input, g: CharGroup, last: Input, gs: seq<CharGroup>)
    requires input.Valid() && ParseGroupItem(input, names) == Parsed(rest, g)
    requires rest.Valid() && GroupItems(rest, names) == Parsed(last, gs)
    ensures GroupItems(input, names) == Parsed(last, [g] + gs)
  {
  }

  /** A string that decodes to nothing, not followed by a dash, is one
      item holding no characters. */
  lemma EmptyStringItem(input: Input, names: GroupNames)
    requires input.Valid() && input.StartsWith(TokenKind.String) && QuotedText(input.tokens[0].text) == Ok([])
    requires !input.Advance().StartsWith(Dash)
    ensures ParseGroupItem(input, names) == Parsed(input.Advance(), Items([]))
  {
    StringEndpoint(input);
  }

  /** When every item read is a list of items and `]` follows, the class
      holds all the items in order, spanning the brackets; if there are no
      items at all, it is the empty-class error at the `[`. */
  lemma CharClassOfItems(input: Input, names: GroupNames)
    requires input.Valid() && input.StartsWith(OpenBracket) && !input.Advance().StartsWith(Caret)
    requires var items := GroupItems(input.Advance(), names);
      && items.Parsed? && items.rest.StartsWith(CloseBracket)
      && forall i :: 0 <= i < |items.value| ==> items.value[i].Items?
    ensures var items := GroupItems(input.Advance(), names);
      ParseCharClass(input, names) ==
        if AllItems(items.value) == [] then Failure(ParseErrorKind.CharClass(CharClassError.Empty).At(input.tokens[0].span))
        else Parsed(items.rest.Advance(), Rule.CharClass(Items(AllItems(items.value)), input.tokens[0].span.Join(items.rest.tokens[0].span)))
  {
    var items := GroupItems(input.Advance(), names);
    assert ParseCharGroup(input.Advance(), names) == Parsed(items.rest, Items(AllItems(items.value)));
  }

  /** Items that are one empty list, before `]`, make the empty-class
      error at the `[`. */
  lemma EmptyItemsClass(input: Input, names: GroupNames, close: Input)
    requires input.Valid() && input.StartsWith(OpenBracket) && !input.Advance().StartsWith(Caret)
    requires GroupItems(input.Advance(), names) == Parsed(close, [Items([])]) && close.StartsWith(CloseBracket)
    ensures ParseCharClass(input, names) == Failure(ParseErrorKind.CharClass(CharClassError.Empty).At(input.tokens[0].span))
  {
    assert ParseCharGroup(input.Advance(), names) == Parsed(close, Items([]));
  }

  /** `['']`: a string that decodes to nothing gives no items, so the class
      is the empty-class error at the `[`, as `[]` is. */
  lemma EmptyStringClass(input: Input, names: GroupNames)
    requires input.Valid() && |input.tokens| >= 3
    requires input.tokens[0].kind == OpenBracket && input.tokens[2].kind == CloseBracket
    requires input.tokens[1].kind == TokenKind.String && QuotedText(input.tokens[1].text) == Ok([])
    ensures ParseCharClass(input, names) == Failure(ParseErrorKind.CharClass(CharClassError.Empty).At(input.tokens[0].span))
  {
    var rest := input.Advance();
    var close := rest.Advance();
    assert rest.tokens[0] == input.tokens[1] && close.tokens[0] == input.tokens[2];
    EmptyStringItem(rest, names);
    NoItemsBeforeClose(close, names);
    ItemsStep(rest, names, close, Items([]), close, []);
    assert [Items([])] + [] == [Items([])];
    EmptyItemsClass(input, names, close);
  }
}
