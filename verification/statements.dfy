/** Statements before an expression: `enable lazy;`, `disable lazy;` and
    `let name = rule;` (`parse_modified` in
    `pomsky-lib/src/parse/parsers.rs`). The rule parser `parse_or` is a
    parameter here: the recursive grammar is not part of this model. */
module Statements {
  import opened Wrappers
  import opened Spans
  import opened Tokens
  import opened Errors
  import opened Nom
  import opened Ast
  import opened Atoms

  /** `enable lazy;` or `disable lazy;`, spanning from the first keyword to
      the semicolon. Every error is recoverable. */
  function ParseModifierStmt(input: Input): (r: PResult<(Stmt, Span)>)
    ensures !r.Failure? && Consumed(input, r)
    ensures r.Parsed? ==> r.value.0.Enable? || r.value.0.Disable?
  {
    var en := ExpectWord(input, "enable");
    var kw := if en.Parsed? then en else ExpectWord(input, "disable");
    if !kw.Parsed? then Error(kw.err)
    else
      var lazy := ExpectWord(kw.rest, "lazy");
      if !lazy.Parsed? then Error(lazy.err)
      else
        var semi := ExpectToken(lazy.rest, Semicolon);
        if !semi.Parsed? then Error(semi.err)
        else
          SuffixTrans(input, kw.rest, lazy.rest);
          SuffixTrans(input, lazy.rest, semi.rest);
          var stmt := if en.Parsed? then Enable(BooleanSetting.Lazy) else Disable(BooleanSetting.Lazy);
          Parsed(semi.rest, (stmt, kw.value.Join(semi.value.1)))
  }

  /** `let name = rule;`: after `let`, everything is committed. */
  function ParseLetStmt(input: Input, parseOr: Input -> PResult<Rule>): (r: PResult<(Stmt, Span)>)
    requires IsParser(parseOr)
    ensures Consumed(input, r)
    ensures r.Error? <==> !input.StartsWithWord("let")
    ensures r.Parsed? ==> r.value.0.Let? && r.value.0.name !in Keywords
  {
    var kw := ExpectWord(input, "let");
    if !kw.Parsed? then Error(kw.err)
    else
      var name := ParseLetName(kw.rest);
      if !name.Parsed? then Failure(name.err)
      else
        var eq := Cut(ExpectToken(name.rest, Equals));
        if !eq.Parsed? then Failure(eq.err)
        else
          var rule := Cut(parseOr(eq.rest));
          if !rule.Parsed? then Failure(rule.err)
          else
            var semi := Cut(ExpectToken(rule.rest, Semicolon));
            if !semi.Parsed? then Failure(semi.err)
            else
              SuffixTrans(input, kw.rest, name.rest);
              SuffixTrans(input, name.rest, eq.rest);
              SuffixTrans(input, eq.rest, rule.rest);
              SuffixTrans(input, rule.rest, semi.rest);
              Parsed(semi.rest, (Let(name.value.0, rule.value, name.value.1), kw.value.Join(semi.value.1)))
  }

  /** One statement: a modifier, or else a `let` binding. */
  function ParseStmt(input: Input, parseOr: Input -> PResult<Rule>): (r: PResult<(Stmt, Span)>)
    requires IsParser(parseOr)
    ensures Consumed(input, r)
  {
    var m := ParseModifierStmt(input);
    if !m.Error? then m else ParseLetStmt(input, parseOr)
  }

  /** `many0` over the statements. */
  function ParseStmts(input: Input, parseOr: Input -> PResult<Rule>): (r: PResult<seq<(Stmt, Span)>>)
    requires IsParser(parseOr)
    ensures !r.Error?
    ensures r.Parsed? ==> input.SuffixOf(r.rest)
    decreases |input.tokens|
  {
    var s := ParseStmt(input, parseOr);
    if s.Error? then Parsed(input, [])
    else if s.Failure? then Failure(s.err)
    else
      var more := ParseStmts(s.rest, parseOr);
      if more.Parsed? then
        SuffixTrans(input, s.rest, more.rest);
        Parsed(more.rest, [s.value] + more.value)
      else more
  }

  /** The name span of the first `let` whose name is in `seen` or was bound
      by an earlier `let` of `stmts`. */
  function DuplicateAfter(stmts: seq<(Stmt, Span)>, seen: set<string>): Option<Span>
    decreases |stmts|
  {
    if |stmts| == 0 then None
    else if stmts[0].0.Let? && stmts[0].0.name in seen then Some(stmts[0].0.nameSpan)
    else DuplicateAfter(stmts[1..], if stmts[0].0.Let? then seen + {stmts[0].0.name} else seen)
  }

  /** The first `let` that rebinds a name bound by an earlier `let`. */
  function FirstDuplicate(stmts: seq<(Stmt, Span)>): Option<Span> {
    DuplicateAfter(stmts, {})
  }

  /** The `let` names of `stmts` are pairwise distinct and none is in `seen`. */
  predicate DistinctLets(stmts: seq<(Stmt, Span)>, seen: set<string>) {
    && (forall i :: 0 <= i < |stmts| && stmts[i].0.Let? ==> stmts[i].0.name !in seen)
    && (forall i, j :: 0 <= i < j < |stmts| && stmts[i].0.Let? && stmts[j].0.Let? ==> stmts[i].0.name != stmts[j].0.name)
  }

  lemma {:induction false} DuplicateAfterMeaning(stmts: seq<(Stmt, Span)>, seen: set<string>)
    ensures DuplicateAfter(stmts, seen).None? <==> DistinctLets(stmts, seen)
    decreases |stmts|
  {
    if |stmts| > 0 {
      var s0 := stmts[0].0;
      var seen' := if s0.Let? then seen + {s0.name} else seen;
      DuplicateAfterMeaning(stmts[1..], seen');
      var tail := stmts[1..];
      if DistinctLets(stmts, seen) {
        forall i | 0 <= i < |tail| && tail[i].0.Let?
          ensures tail[i].0.name !in seen'
        {
          assert stmts[i + 1] == tail[i];
        }
        forall i, j | 0 <= i < j < |tail| && tail[i].0.Let? && tail[j].0.Let?
          ensures tail[i].0.name != tail[j].0.name
        {
          assert stmts[i + 1] == tail[i] && stmts[j + 1] == tail[j];
        }
      }
      if !(s0.Let? && s0.name in seen) && DistinctLets(tail, seen') {
        forall i | 0 <= i < |stmts| && stmts[i].0.Let?
          ensures stmts[i].0.name !in seen
        {
          if i > 0 { assert stmts[i] == tail[i - 1]; }
        }
        forall i, j | 0 <= i < j < |stmts| && stmts[i].0.Let? && stmts[j].0.Let?
          ensures stmts[i].0.name != stmts[j].0.name
        {
          assert stmts[j] == tail[j - 1];
          if i > 0 { assert stmts[i] == tail[i - 1]; }
        }
      }
    }
  }

  /** A duplicate is reported exactly when two `let` statements bind the
      same name. */
  lemma FirstDuplicateMeaning(stmts: seq<(Stmt, Span)>)
    ensures FirstDuplicate(stmts).None? <==> DistinctLets(stmts, {})
  {
    DuplicateAfterMeaning(stmts, {});
  }

  /** Statement `j` is the first `let` that rebinds a name: the `let`s
      before it bind distinct names outside `seen`, and its own name is in
      `seen` or bound by one of them. */
  predicate RebindsAt(stmts: seq<(Stmt, Span)>, seen: set<string>, j: int) {
    && 0 <= j < |stmts| && stmts[j].0.Let?
    && DistinctLets(stmts[..j], seen)
    && (stmts[j].0.name in seen
        || exists i :: 0 <= i < j && stmts[i].0.Let? && stmts[i].0.name == stmts[j].0.name)
  }

  /** The reported span is the name span of the first `let` that rebinds
      a name. */
  lemma {:induction false} DuplicateAfterSpan(stmts: seq<(Stmt, Span)>, seen: set<string>)
    requires DuplicateAfter(stmts, seen).Some?
    ensures exists j :: RebindsAt(stmts, seen, j) && DuplicateAfter(stmts, seen).value == stmts[j].0.nameSpan
    decreases |stmts|
  {
    var s0 := stmts[0].0;
    if s0.Let? && s0.name in seen {
      assert RebindsAt(stmts, seen, 0);
    } else {
      var seen' := if s0.Let? then seen + {s0.name} else seen;
      var tail := stmts[1..];
      DuplicateAfterSpan(tail, seen');
      var k :| RebindsAt(tail, seen', k) && DuplicateAfter(tail, seen').value == tail[k].0.nameSpan;
      var j := k + 1;
      assert stmts[j] == tail[k];
      var pre := stmts[..j];
      forall i | 0 <= i < |pre| && pre[i].0.Let?
        ensures pre[i].0.name !in seen
      {
        if i > 0 { assert pre[i] == tail[..k][i - 1]; }
      }
      forall i, i2 | 0 <= i < i2 < |pre| && pre[i].0.Let? && pre[i2].0.Let?
        ensures pre[i].0.name != pre[i2].0.name
      {
        assert pre[i2] == tail[..k][i2 - 1];
        if i > 0 { assert pre[i] == tail[..k][i - 1]; }
      }
      if tail[k].0.name !in seen {
        if tail[k].0.name in seen' {
          assert stmts[0].0.Let? && stmts[0].0.name == stmts[j].0.name;
        } else {
          var i' :| 0 <= i' < k && tail[i'].0.Let? && tail[i'].0.name == tail[k].0.name;
          assert stmts[i' + 1] == tail[i'];
        }
      }
      assert RebindsAt(stmts, seen, j);
    }
  }

  /** The duplicate check of `parse_modified`: one pass over the statements
      with the set of names bound so far (only when there are at least two
      statements). */
  method CheckLets(stmts: seq<(Stmt, Span)>) returns (dup: Option<Span>)
    ensures dup == FirstDuplicate(stmts)
  {
    if |stmts| > 1 {
      var seen: set<string> := {};
      var i := 0;
      while i < |stmts|
        invariant 0 <= i <= |stmts|
        invariant DuplicateAfter(stmts[i..], seen) == FirstDuplicate(stmts)
      {
        assert stmts[i..][1..] == stmts[i + 1..];
        var stmt := stmts[i].0;
        if stmt.Let? {
          if stmt.name in seen {
            return Some(stmt.nameSpan);
          }
          seen := seen + {stmt.name};
        }
        i := i + 1;
      }
      assert stmts[i..] == [];
      return None;
    } else if |stmts| == 1 {
      var seen: set<string> := if stmts[0].0.Let? then {} + {stmts[0].0.name} else {};
      assert DuplicateAfter(stmts[1..], seen) == None;
      assert DuplicateAfter(stmts, {}) == DuplicateAfter(stmts[1..], seen);
      return None;
    }
    return None;
  }

  /** The statements wrapped around the body, the first outermost, each
      spanning from its own start to the end of the body. */
  function WrapStmts(stmts: seq<(Stmt, Span)>, body: Rule, spanEnd: Span): (r: Rule)
    ensures |stmts| > 0 ==> r.StmtExpr? && r.stmt == stmts[0].0 && r.span == stmts[0].1.Join(spanEnd)
    decreases |stmts|
  {
    if |stmts| == 0 then body
    else StmtExpr(stmts[0].0, WrapStmts(stmts[1..], body, spanEnd), stmts[0].1.Join(spanEnd))
  }

  /** The statements of the outermost `n` statement expressions, and what
      they enclose. */
  function PeelStmts(rule: Rule, n: nat): (seq<Stmt>, Rule) {
    if n == 0 || !rule.StmtExpr? then ([], rule)
    else
      var inner := PeelStmts(rule.body, n - 1);
      ([rule.stmt] + inner.0, inner.1)
  }

  function StmtsOf(stmts: seq<(Stmt, Span)>): (r: seq<Stmt>)
    ensures |r| == |stmts|
    ensures forall i :: 0 <= i < |stmts| ==> r[i] == stmts[i].0
  {
    seq(|stmts|, i requires 0 <= i < |stmts| => stmts[i].0)
  }

  /** Wrapping loses nothing: peeling as many statement expressions as
      there were statements gives back the statements, in order, and the
      body. */
  lemma {:induction false} PeelWrap(stmts: seq<(Stmt, Span)>, body: Rule, spanEnd: Span)
    ensures PeelStmts(WrapStmts(stmts, body, spanEnd), |stmts|) == (StmtsOf(stmts), body)
    decreases |stmts|
  {
    if |stmts| > 0 {
      PeelWrap(stmts[1..], body, spanEnd);
      assert StmtsOf(stmts) == [stmts[0].0] + StmtsOf(stmts[1..]);
    }
  }

  /** The wrapping loop of `parse_modified`, from the last statement to the
      first. */
  method WrapInStmts(stmts: seq<(Stmt, Span)>, body: Rule) returns (rule: Rule)
    ensures rule == WrapStmts(stmts, body, body.SpanOf())
  {
    var spanEnd := body.SpanOf();
    rule := body;
    var i := |stmts|;
    while i > 0
      invariant 0 <= i <= |stmts|
      invariant rule == WrapStmts(stmts[i..], body, spanEnd)
    {
      i := i - 1;
      assert stmts[i..][1..] == stmts[i + 1..];
      rule := StmtExpr(stmts[i].0, rule, stmts[i].1.Join(spanEnd));
    }
    assert stmts[0..] == stmts;
  }

  /** The closure of `parse_modified`: reject a rebound name, else wrap. */
  function ModifiedResult(stmts: seq<(Stmt, Span)>, body: Rule): (r: Result<Rule, ParseError>)
    ensures r.Ok? <==> DistinctLets(stmts, {})
    ensures r.Ok? ==> PeelStmts(r.value, |stmts|) == (StmtsOf(stmts), body)
    ensures r.Err? ==> r.error.kind == LetBindingExists
    ensures r.Err? ==> exists j :: RebindsAt(stmts, {}, j) && r.error.span == stmts[j].0.nameSpan
  {
    FirstDuplicateMeaning(stmts);
    PeelWrap(stmts, body, body.SpanOf());
    match FirstDuplicate(stmts)
    case Some(sp) => DuplicateAfterSpan(stmts, {}); Err(LetBindingExists.At(sp))
    case None => Ok(WrapStmts(stmts, body, body.SpanOf()))
  }

  method ModifiedClosure(stmts: seq<(Stmt, Span)>, body: Rule) returns (r: Result<Rule, ParseError>)
    ensures r == ModifiedResult(stmts, body)
    ensures r.Ok? <==> DistinctLets(stmts, {})
    ensures r.Ok? ==> PeelStmts(r.value, |stmts|) == (StmtsOf(stmts), body)
    ensures r.Err? ==> r.error.kind == LetBindingExists
    ensures r.Err? ==> exists j :: RebindsAt(stmts, {}, j) && r.error.span == stmts[j].0.nameSpan
  {
    var dup := CheckLets(stmts);
    if dup.Some? {
      return Err(LetBindingExists.At(dup.value));
    }
    var rule := WrapInStmts(stmts, body);
    return Ok(rule);
  }

  /** `parse_modified`: the statements, then the rule they apply to, then
      the closure, whose error is fatal. */
  function ParseModified(input: Input, parseOr: Input -> PResult<Rule>): (r: PResult<Rule>)
    requires IsParser(parseOr)
    ensures r.Parsed? ==> input.SuffixOf(r.rest)
    ensures ParseStmts(input, parseOr).Parsed? ==>
      (r.Error? <==> parseOr(ParseStmts(input, parseOr).rest).Error?)
  {
    var stmts := ParseStmts(input, parseOr);
    if !stmts.Parsed? then Failure(stmts.err)
    else
      var body := parseOr(stmts.rest);
      if !body.Parsed? then body
      else match ModifiedResult(stmts.value, body.value)
        case Err(e) => Failure(e)
        case Ok(rule) =>
          SuffixTrans(input, stmts.rest, body.rest);
          Parsed(body.rest, rule)
  }

  /** Once the statements and the rule after them are read, the result is
      the rule wrapped in every statement, in order, exactly when no name is
      bound twice; otherwise a fatal `LetBindingExists` at the name of a
      `let` statement. */
  lemma ParseModifiedMeaning(input: Input, parseOr: Input -> PResult<Rule>)
    requires IsParser(parseOr)
    requires ParseStmts(input, parseOr).Parsed?
    requires parseOr(ParseStmts(input, parseOr).rest).Parsed?
    ensures var stmts := ParseStmts(input, parseOr).value;
      var body := parseOr(ParseStmts(input, parseOr).rest);
      var r := ParseModified(input, parseOr);
      && (r.Parsed? <==> DistinctLets(stmts, {}))
      && (r.Parsed? ==> r.rest == body.rest && PeelStmts(r.value, |stmts|) == (StmtsOf(stmts), body.value))
      && (!r.Parsed? ==> r.Failure? && r.err.kind == LetBindingExists)
      && (!r.Parsed? ==> exists j :: RebindsAt(stmts, {}, j) && r.err.span == stmts[j].0.nameSpan)
  {
    var stmts := ParseStmts(input, parseOr).value;
    var body := parseOr(ParseStmts(input, parseOr).rest);
    var m := ModifiedResult(stmts, body.value);
  }
}
