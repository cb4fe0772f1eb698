/**
 * The parser object: a two-token window (`cur`, `peek`) over the lexer and
 * an append-only list of diagnostics. Every method is proved to compute
 * what the function of the same name in ParserSpec describes, starting
 * from the parser's state on entry.
 */
module Parsing {
  import opened Wrappers
  import opened Tokens
  import opened Ast
  import opened ParserSpec

  /**
   * The driver's loop invariant: `goal`, the outcome of the whole run, is
   * what is done so far followed by what is left to parse from `pos`.
   */
  ghost predicate DriverInvariant(tokens: seq<Token>, pos: nat, done: Program, errs: seq<ParseError>,
                                  goal: ProgramOutcome, base: seq<ParseError>)
  {
    pos <= |tokens| + 1 &&
    var rest := ParseProgram(tokens, pos);
    goal.statements == done + rest.statements && goal.pos == rest.pos && base + goal.errs == errs + rest.errs
  }

  lemma DriverStart(tokens: seq<Token>, pos: nat, base: seq<ParseError>)
    requires pos <= |tokens| + 1
    ensures DriverInvariant(tokens, pos, [], base, ParseProgram(tokens, pos), base)
  {
    assert [] + ParseProgram(tokens, pos).statements == ParseProgram(tokens, pos).statements;
  }

  /**
   * One turn of the driver loop keeps its invariant: the statement at `pos`,
   * if it parsed, moves from what is left to what is done, and its
   * diagnostics from what is left to what is recorded.
   */
  lemma DriverStep(tokens: seq<Token>, pos: nat, done: Program, errs: seq<ParseError>, goal: ProgramOutcome, base: seq<ParseError>)
    requires TokenAt(tokens, pos) != Eof && DriverInvariant(tokens, pos, done, errs, goal, base)
    ensures pos < |tokens|
    ensures var st := ParserSpec.ParseStatement(tokens, pos);
            DriverInvariant(tokens, st.pos + 1, done + (if st.value.Some? then [st.value.value] else []), errs + st.errs, goal, base)
  {
    hide ParseProgram, ParserSpec.ParseStatement;
    ProgramStep(tokens, pos);
    var st := ParserSpec.ParseStatement(tokens, pos);
    var next := ParseProgram(tokens, st.pos + 1);
    AppendAssociative(errs, st.errs, next.errs);
    AppendAssociative(done, if st.value.Some? then [st.value.value] else [], next.statements);
  }

  /** At `Eof` nothing is left: the outcome is what is done. */
  lemma DriverEnd(tokens: seq<Token>, pos: nat, done: Program, errs: seq<ParseError>, goal: ProgramOutcome, base: seq<ParseError>)
    requires TokenAt(tokens, pos) == Eof && DriverInvariant(tokens, pos, done, errs, goal, base)
    ensures goal.statements == done && goal.pos == pos && base + goal.errs == errs
  {
    hide ParseProgram;
    ProgramStep(tokens, pos);
    assert done + [] == done && errs + [] == errs;
  }

  /**
   * The infix loop's invariant: `goal`, the outcome of the whole loop, is
   * the outcome of the loop still to run from `pos` with `left`.
   */
  ghost predicate InfixInvariant(tokens: seq<Token>, pos: nat, precedence: Precedence, left: Option<Expression>,
                                 goal: Parsed<Expression>, base: seq<ParseError>, errs: seq<ParseError>)
  {
    pos <= |tokens| &&
    var rest := ParserSpec.InfixLoop(tokens, pos, precedence, left);
    goal.value == rest.value && goal.pos == rest.pos && base + goal.errs == errs + rest.errs
  }

  lemma InfixStart(tokens: seq<Token>, pos: nat, precedence: Precedence, left: Option<Expression>, base: seq<ParseError>)
    requires pos <= |tokens|
    ensures InfixInvariant(tokens, pos, precedence, left, ParserSpec.InfixLoop(tokens, pos, precedence, left), base, base)
  {
  }

  /**
   * One turn of the infix loop: without a left operand the loop gives up
   * one token on; otherwise the right operand is folded in and the loop
   * goes on from where it stopped.
   */
  lemma InfixTurn(tokens: seq<Token>, pos: nat, precedence: Precedence, left: Option<Expression>,
                  goal: Parsed<Expression>, base: seq<ParseError>, errs: seq<ParseError>)
    requires InfixInvariant(tokens, pos, precedence, left, goal, base, errs) && Binds(tokens, pos, precedence)
    ensures pos < |tokens|
    ensures left.None? ==> goal.value == None && goal.pos == pos + 1 && base + goal.errs == errs
    ensures left.Some? ==>
            var infix := ParserSpec.ParseInfixExpression(tokens, pos + 1, left.value);
            InfixInvariant(tokens, infix.pos, precedence, infix.value, goal, base, errs + infix.errs)
  {
    hide ParserSpec.InfixLoop, ParserSpec.ParseInfixExpression;
    InfixLoopStep(tokens, pos, precedence, left);
    assert TokenAt(tokens, pos + 1) != Eof;
    if left.Some? {
      var infix := ParserSpec.ParseInfixExpression(tokens, pos + 1, left.value);
      AppendAssociative(errs, infix.errs, ParserSpec.InfixLoop(tokens, infix.pos, precedence, infix.value).errs);
    } else {
      assert errs + [] == errs;
    }
  }

  /** Where nothing binds the loop ends with the left operand it has. */
  lemma InfixEnd(tokens: seq<Token>, pos: nat, precedence: Precedence, left: Option<Expression>,
                 goal: Parsed<Expression>, base: seq<ParseError>, errs: seq<ParseError>)
    requires InfixInvariant(tokens, pos, precedence, left, goal, base, errs) && !Binds(tokens, pos, precedence)
    ensures goal.value == left && goal.pos == pos && base + goal.errs == errs
  {
    hide ParserSpec.InfixLoop;
    InfixLoopStep(tokens, pos, precedence, left);
    assert errs + [] == errs;
  }

  class Parser {
    /** Everything the lexer hands out before it starts repeating `Eof`. */
    const tokens: seq<Token>
    /** Index of `cur` in the lexer's output; the lexer has handed out `pos + 2` tokens. */
    var pos: nat
    var cur: Token
    var peek: Token
    var errors: seq<ParseError>

    /**
     * `cur` and `peek` are the lexer's tokens at `pos` and `pos + 1`. The
     * position can pass the end by one: the driver steps once more after a
     * statement that stopped on `Eof`.
     */
    ghost predicate Valid()
      reads this
    {
      pos <= |tokens| + 1 && cur == TokenAt(tokens, pos) && peek == TokenAt(tokens, pos + 1)
    }

    /** `Parser::new`: pulls the first two tokens from a fresh lexer. */
    constructor (tokens: seq<Token>)
      ensures Valid() && this.tokens == tokens && pos == 0 && errors == []
    {
      this.tokens := tokens;
      cur := TokenAt(tokens, 0);
      peek := TokenAt(tokens, 1);
      pos := 0;
      errors := [];
    }

    /** `next_token`: promotes `peek` to `cur` and pulls a new `peek`. */
    method NextToken()
      requires Valid() && pos <= |tokens|
      modifies this
      ensures Valid() && pos == old(pos) + 1 && cur == old(peek) && errors == old(errors)
    {
      cur := peek;
      peek := TokenAt(tokens, pos + 2);
      pos := pos + 1;
    }

    predicate CurTokenIs(t: Token)
      reads this
    {
      cur == t
    }

    predicate PeekTokenIs(t: Token)
      reads this
    {
      peek == t
    }

    /** `peek_precedence`: a binary operator binds with its operator's strength, anything else not at all. */
    function PeekPrecedence(): (p: Precedence)
      reads this
      ensures p != Lowest <==> InfixOperatorOf(peek).Some?
      ensures InfixOperatorOf(peek).Some? ==> p == OperatorPrecedence(InfixOperatorOf(peek).value)
    {
      PrecedenceOf(peek)
    }

    /** `cur_precedence`: the same table, read at `cur`. */
    function CurPrecedence(): (p: Precedence)
      reads this
      ensures p != Lowest <==> InfixOperatorOf(cur).Some?
      ensures InfixOperatorOf(cur).Some? ==> p == OperatorPrecedence(InfixOperatorOf(cur).value)
      ensures cur == peek ==> p == PeekPrecedence()
    {
      PrecedenceOf(cur)
    }

    method ErrorsLen() returns (n: nat)
      ensures n == |errors|
    {
      n := |errors|;
    }

    method GetErrors() returns (es: seq<ParseError>)
      ensures es == errors
    {
      es := errors;
    }

    /** `peek_error`: records that `t` was expected where `peek` stands. */
    method PeekError(t: Token)
      modifies this`errors
      ensures errors == old(errors) + [ExpectedNext(t, peek)]
    {
      errors := errors + [ExpectedNext(t, peek)];
    }

    /**
     * `expect_peek`: on a match, steps onto it and records nothing;
     * otherwise records exactly one diagnostic and leaves the window as it was.
     */
    method ExpectPeek(t: Token) returns (ok: bool)
      requires Valid() && pos <= |tokens| && t != Eof
      modifies this
      ensures Valid()
      ensures ok == (old(peek) == t)
      ensures ok ==> pos == old(pos) + 1 && cur == old(peek) && errors == old(errors)
      ensures !ok ==> pos == old(pos) && cur == old(cur) && peek == old(peek) &&
                      errors == old(errors) + [ExpectedNext(t, old(peek))]
      ensures var c := ParserSpec.ExpectPeek(tokens, old(pos), t);
              ok == c.ok && pos == c.pos && errors == old(errors) + c.errs
    {
      if !PeekTokenIs(t) {
        PeekError(t);
        ok := false;
      } else {
        NextToken();
        ok := true;
      }
    }

    /** `parse`: the statement driver. */
    method Parse() returns (program: Program)
      requires Valid()
      modifies this
      ensures Valid() && cur == Eof
      ensures var r := ParseProgram(tokens, old(pos));
              program == r.statements && pos == r.pos && errors == old(errors) + r.errs
    {
      hide ParseProgram, ParserSpec.ParseStatement, DriverInvariant;
      ghost var goal := ParseProgram(tokens, pos);
      DriverStart(tokens, pos, errors);
      var res: seq<Statement> := [];
      while cur != Eof
        invariant Valid()
        invariant DriverInvariant(tokens, pos, res, errors, goal, old(errors))
        decreases |tokens| + 1 - pos
      {
        ghost var res0, errs0 := res, errors;
        ghost var st := ParserSpec.ParseStatement(tokens, pos);
        DriverStep(tokens, pos, res, errors, goal, old(errors));
        var stmt := ParseStatement();
        if stmt.Some? {
          res := res + [stmt.value];
        }
        assert res == res0 + (if st.value.Some? then [st.value.value] else []) && errors == errs0 + st.errs;
        NextToken();
      }
      DriverEnd(tokens, pos, res, errors, goal, old(errors));
      program := res;
    }

    /** `parse_statement`. */
    method ParseStatement() returns (s: Option<Statement>)
      requires Valid() && pos <= |tokens|
      modifies this
      ensures Valid() && pos <= |tokens|
      ensures var r := ParserSpec.ParseStatement(tokens, old(pos));
              s == r.value && pos == r.pos && errors == old(errors) + r.errs
    {
      match cur {
        case Let => s := ParseLetStatement();
        case Return => s := ParseReturnStatement();
        case _ => s := ParseExpressionStatement();
      }
    }

    /** `parse_let_statement`, with the scan for `;` stopping at `Eof` as well. */
    method ParseLetStatement() returns (s: Option<Statement>)
      requires Valid() && pos <= |tokens|
      modifies this
      ensures Valid() && pos <= |tokens|
      ensures var r := ParserSpec.ParseLetStatement(tokens, old(pos));
              s == r.value && pos == r.pos && errors == old(errors) + r.errs
    {
      var name: string;
      if peek.Ident? {
        var v := peek.text;
        NextToken();
        name := v;
      } else {
        errors := errors + [ExpectedIdent(peek)];
        return None;
      }
      var ok := ExpectPeek(Assign);
      if !ok {
        return None;
      }
      ghost var stop := SkipToSemicolon(tokens, pos);
      while !CurTokenIs(Semicolon) && !CurTokenIs(Eof)
        invariant Valid() && pos <= |tokens|
        invariant SkipToSemicolon(tokens, pos) == stop && errors == old(errors)
        decreases |tokens| - pos
      {
        NextToken();
      }
      s := Some(LetStatement(name));
      assert errors == old(errors) + [];
    }

    /** `parse_return_statement`, with the scan for `;` stopping at `Eof` as well. */
    method ParseReturnStatement() returns (s: Option<Statement>)
      requires Valid() && pos <= |tokens| && cur == Return
      modifies this
      ensures Valid() && pos <= |tokens|
      ensures var r := ParserSpec.ParseReturnStatement(tokens, old(pos));
              s == r.value && pos == r.pos && errors == old(errors) + r.errs
    {
      NextToken();
      ghost var stop := SkipToSemicolon(tokens, pos);
      while !CurTokenIs(Semicolon) && !CurTokenIs(Eof)
        invariant Valid() && pos <= |tokens|
        invariant SkipToSemicolon(tokens, pos) == stop && errors == old(errors)
        decreases |tokens| - pos
      {
        NextToken();
      }
      s := Some(ReturnStatement);
      assert errors == old(errors) + [];
    }

    /** `parse_expression_statement`. */
    method ParseExpressionStatement() returns (s: Option<Statement>)
      requires Valid() && pos <= |tokens|
      modifies this
      ensures Valid() && pos <= |tokens|
      ensures var r := ParserSpec.ParseExpressionStatement(tokens, old(pos));
              s == r.value && pos == r.pos && errors == old(errors) + r.errs
    {
      var e := ParseExpression(Lowest);
      match e {
        case Some(exp) =>
          s := Some(ExpressionStatement(exp));
          if PeekTokenIs(Semicolon) {
            NextToken();
          }
        case None =>
          s := None;
      }
    }

    /**
     * `parse_expression`. The loop has no arm for a peek token that is not
     * a binary operator: such a token has precedence `Lowest`, so the loop
     * condition already excludes it (lemma OnlyOperatorsBind).
     */
    method ParseExpression(precedence: Precedence) returns (e: Option<Expression>)
      requires Valid() && pos <= |tokens|
      modifies this
      ensures Valid() && pos <= |tokens|
      ensures var r := ParserSpec.ParseExpression(tokens, old(pos), precedence);
              e == r.value && pos == r.pos && errors == old(errors) + r.errs
      decreases |tokens| - pos, 3
    {
      ghost var start := pos;
      var left := PrefixPart();
      ghost var prefix := ParserSpec.PrefixPart(tokens, start);
      AppendAssociative(old(errors), prefix.errs, ParserSpec.InfixLoop(tokens, prefix.pos, precedence, prefix.value).errs);
      e := InfixLoop(precedence, left);
    }

    /**
     * The `while` loop of `parse_expression`. A peek token that is not a
     * binary operator has precedence `Lowest`, so the loop condition
     * already excludes it and the source's `_ => return left` arm is never
     * taken (lemma OnlyOperatorsBind).
     */
    method InfixLoop(precedence: Precedence, left0: Option<Expression>) returns (e: Option<Expression>)
      requires Valid() && pos <= |tokens|
      modifies this
      ensures Valid() && pos <= |tokens|
      ensures var r := ParserSpec.InfixLoop(tokens, old(pos), precedence, left0);
              e == r.value && pos == r.pos && errors == old(errors) + r.errs
      decreases |tokens| - pos, 2
    {
      hide ParserSpec.InfixLoop, ParserSpec.ParseInfixExpression, InfixInvariant;
      ghost var goal := ParserSpec.InfixLoop(tokens, pos, precedence, left0);
      InfixStart(tokens, pos, precedence, left0, errors);
      var left := left0;
      while !PeekTokenIs(Semicolon) && precedence.Level() < PeekPrecedence().Level()
        invariant Valid() && pos <= |tokens|
        invariant InfixInvariant(tokens, pos, precedence, left, goal, old(errors), errors)
        decreases |tokens| - pos
      {
        assert Binds(tokens, pos, precedence);
        InfixTurn(tokens, pos, precedence, left, goal, old(errors), errors);
        NextToken();
        if left.None? {
          return None;
        }
        left := ParseInfixExpression(left.value);
      }
      InfixEnd(tokens, pos, precedence, left, goal, old(errors), errors);
      e := left;
    }

    /** The dispatch on `cur` that starts `parse_expression`: one rule per token kind. */
    method PrefixPart() returns (left: Option<Expression>)
      requires Valid() && pos <= |tokens|
      modifies this
      ensures Valid() && pos <= |tokens|
      ensures var r := ParserSpec.PrefixPart(tokens, old(pos));
              left == r.value && pos == r.pos && errors == old(errors) + r.errs
      decreases |tokens| - pos, 1
    {
      match cur {
        case Ident(_) => left := Some(ParseIdentifier(cur));
        case Int(_) => left := ParseIntegerLiteral(cur);
        case Bang => left := ParsePrefixExpression();
        case Minus => left := ParsePrefixExpression();
        case True => left := Some(ParseBooleanLiteral(cur));
        case False => left := Some(ParseBooleanLiteral(cur));
        case LParen => left := ParseGroupedExpression();
        case _ =>
          errors := errors + [NoPrefixParseFn(cur)];
          left := None;
      }
    }

    /** `parse_prefix_expression`. */
    method ParsePrefixExpression() returns (e: Option<Expression>)
      requires Valid() && pos <= |tokens|
      modifies this
      ensures Valid() && pos <= |tokens|
      ensures var r := ParserSpec.ParsePrefixExpression(tokens, old(pos));
              e == r.value && pos == r.pos && errors == old(errors) + r.errs
      decreases |tokens| - pos, 0
    {
      hide ParserSpec.ParseExpression;
      var operator: PrefixOperator;
      match cur {
        case Minus => operator := PrefixOperator.Minus;
        case Bang => operator := PrefixOperator.Bang;
        case _ => return None;
      }
      NextToken();
      var right := ParseExpression(Prefix);
      match right {
        case Some(exp) => e := Some(PrefixExpression(operator, exp));
        case None => e := None;
      }
    }

    /** `parse_infix_expression`. */
    method ParseInfixExpression(left: Expression) returns (e: Option<Expression>)
      requires Valid() && pos <= |tokens|
      modifies this
      ensures Valid() && pos <= |tokens|
      ensures var r := ParserSpec.ParseInfixExpression(tokens, old(pos), left);
              e == r.value && pos == r.pos && errors == old(errors) + r.errs
      decreases |tokens| - pos, 1
    {
      hide ParserSpec.ParseExpression;
      var operator: InfixOperator;
      match cur {
        case Plus => operator := InfixOperator.Plus;
        case Minus => operator := InfixOperator.Minus;
        case Asterisk => operator := InfixOperator.Asterisk;
        case Slash => operator := InfixOperator.Slash;
        case Eq => operator := InfixOperator.Eq;
        case NotEq => operator := InfixOperator.NotEq;
        case Lt => operator := InfixOperator.Lt;
        case Gt => operator := InfixOperator.Gt;
        case _ => return None;
      }
      var precedence := CurPrecedence();
      NextToken();
      var right := ParseExpression(precedence);
      match right {
        case Some(exp) => e := Some(InfixExpression(operator, left, exp));
        case None => e := None;
      }
    }

    /** `parse_grouped_expression`. */
    method ParseGroupedExpression() returns (e: Option<Expression>)
      requires Valid() && pos <= |tokens| && cur == LParen
      modifies this
      ensures Valid() && pos <= |tokens|
      ensures var r := ParserSpec.ParseGroupedExpression(tokens, old(pos));
              e == r.value && pos == r.pos && errors == old(errors) + r.errs
      decreases |tokens| - pos, 0
    {
      hide ParserSpec.ParseExpression;
      NextToken();
      var exp := ParseExpression(Lowest);
      var ok := ExpectPeek(RParen);
      if !ok {
        return None;
      }
      e := exp;
    }
  }
}
