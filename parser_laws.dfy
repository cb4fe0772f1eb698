/**
 * Laws of the parse functions: how each one composes the results of the
 * ones it calls, what a failure anywhere does to the enclosing
 * expression, and the properties of the precedence table the infix loop
 * relies on.
 */
module ParserLaws {
  import opened Wrappers
  import opened Tokens
  import opened IntegerText
  import opened Ast
  import opened ParserSpec

  // ---------------------------------------------------------------------------
  // The precedence table.

  /** Which tokens have which binding strength (both `peek_precedence` and `cur_precedence`). */
  lemma PrecedenceTable(t: Token)
    ensures PrecedenceOf(t) == Equals <==> t == Token.Eq || t == Token.NotEq
    ensures PrecedenceOf(t) == LessGreater <==> t == Token.Lt || t == Token.Gt
    ensures PrecedenceOf(t) == Sum <==> t == Token.Plus || t == Token.Minus
    ensures PrecedenceOf(t) == Product <==> t == Token.Asterisk || t == Token.Slash
    ensures PrecedenceOf(t) == Lowest <==> InfixOperatorOf(t).None?
    ensures PrecedenceOf(t) != Prefix && PrecedenceOf(t) != Call
  {
  }

  /** The levels order the precedences strictly, in declaration order. */
  lemma PrecedenceOrder(p: Precedence, q: Precedence)
    ensures p.Level() == q.Level() <==> p == q
    ensures Lowest.Level() < Equals.Level() < LessGreater.Level() < Sum.Level() < Product.Level() < Prefix.Level() < Call.Level()
  {
  }

  /**
   * Only a binary operator can bind more strongly than any precedence, so
   * the infix loop never meets a peek token it has no rule for.
   */
  lemma OnlyOperatorsBind(tokens: seq<Token>, pos: nat, precedence: Precedence)
    requires Binds(tokens, pos, precedence)
    ensures InfixOperatorOf(TokenAt(tokens, pos + 1)).Some? && pos + 1 < |tokens|
    ensures precedence.Level() < Prefix.Level()
  {
  }

  /**
   * The loop condition, `;` test included, holds exactly when the peek
   * token is a binary operator whose precedence exceeds the caller's.
   */
  lemma BindsOnTighterOperator(tokens: seq<Token>, pos: nat, precedence: Precedence)
    ensures Binds(tokens, pos, precedence) <==>
            InfixOperatorOf(TokenAt(tokens, pos + 1)).Some? &&
            precedence.Level() < OperatorPrecedence(InfixOperatorOf(TokenAt(tokens, pos + 1)).value).Level()
  {
  }

  // ---------------------------------------------------------------------------
  // How successful parses compose.

  /** `parse_expression` is its prefix part followed by the infix loop. */
  lemma ExpressionUnfold(tokens: seq<Token>, pos: nat, precedence: Precedence)
    requires pos <= |tokens|
    ensures var left := PrefixPart(tokens, pos);
            var rest := InfixLoop(tokens, left.pos, precedence, left.value);
            ParseExpression(tokens, pos, precedence) == Parsed(rest.value, rest.pos, left.errs + rest.errs)
  {
  }

  /**
   * A statement that starts with neither `let` nor `return` is an
   * expression statement: it fails exactly when its expression does, with
   * the expression's diagnostics, and when it succeeds it steps onto one
   * `;` only if that is the peek token, adding no diagnostics.
   */
  lemma ExpressionStatementShape(tokens: seq<Token>, pos: nat)
    requires pos <= |tokens| && TokenAt(tokens, pos) != Let && TokenAt(tokens, pos) != Return
    ensures var exp := ParseExpression(tokens, pos, Lowest);
            exp.value.None? ==> ParseStatement(tokens, pos) == Parsed(None, exp.pos, exp.errs)
    ensures var exp := ParseExpression(tokens, pos, Lowest);
            exp.value.Some? ==>
              ParseStatement(tokens, pos) ==
              Parsed(Some(ExpressionStatement(exp.value.value)),
                     if TokenAt(tokens, exp.pos + 1) == Semicolon then exp.pos + 1 else exp.pos, [])
  {
  }

  /** An expression whose prefix part succeeds continues with the infix loop from there. */
  lemma ExpressionOfPrefixPart(tokens: seq<Token>, pos: nat, precedence: Precedence, x: Expression, q: nat)
    requires pos <= |tokens| && PrefixPart(tokens, pos) == Parsed(Some(x), q, [])
    ensures q <= |tokens| && ParseExpression(tokens, pos, precedence) == InfixLoop(tokens, q, precedence, Some(x))
  {
    assert [] + InfixLoop(tokens, q, precedence, Some(x)).errs == InfixLoop(tokens, q, precedence, Some(x)).errs;
  }

  /** A prefix operator applied to an operand that parses. */
  lemma PrefixOfOperand(tokens: seq<Token>, pos: nat, op: PrefixOperator, x: Expression, q: nat)
    requires pos <= |tokens| && PrefixOperatorOf(TokenAt(tokens, pos)) == Some(op)
    requires pos + 1 <= |tokens| && ParseExpression(tokens, pos + 1, Prefix) == Parsed(Some(x), q, [])
    ensures PrefixPart(tokens, pos) == Parsed(Some(PrefixExpression(op, x)), q, [])
  {
    assert ParsePrefixExpression(tokens, pos) == Parsed(Some(PrefixExpression(op, x)), q, []);
  }

  /** A binary operator whose right operand parses at the operator's own precedence. */
  lemma InfixOfOperand(tokens: seq<Token>, pos: nat, left: Expression, op: InfixOperator, right: Expression, q: nat)
    requires pos < |tokens| && InfixOperatorOf(TokenAt(tokens, pos)) == Some(op)
    requires ParseExpression(tokens, pos + 1, OperatorPrecedence(op)) == Parsed(Some(right), q, [])
    ensures ParseInfixExpression(tokens, pos, left) == Parsed(Some(InfixExpression(op, left, right)), q, [])
  {
  }

  /** A parenthesized expression is the expression inside, with `cur` on the `)`. */
  lemma GroupOfInner(tokens: seq<Token>, pos: nat, x: Expression, q: nat)
    requires pos < |tokens| && TokenAt(tokens, pos) == LParen
    requires ParseExpression(tokens, pos + 1, Lowest) == Parsed(Some(x), q, [])
    requires TokenAt(tokens, q + 1) == RParen
    ensures PrefixPart(tokens, pos) == Parsed(Some(x), q + 1, [])
  {
    assert ParseGroupedExpression(tokens, pos) == Parsed(Some(x), q + 1, []);
  }

  /**
   * One turn of the infix loop on a binary operator: the operator and its
   * right operand are folded into the left side, and the loop goes on
   * from the right operand's last token. Folding into the left side is
   * what makes operators of equal precedence associate to the left.
   */
  lemma InfixLoopFolds(tokens: seq<Token>, pos: nat, precedence: Precedence, left: Expression,
                       op: InfixOperator, right: Expression, q: nat)
    requires pos < |tokens| && InfixOperatorOf(TokenAt(tokens, pos + 1)) == Some(op)
    requires precedence.Level() < OperatorPrecedence(op).Level()
    requires ParseExpression(tokens, pos + 2, OperatorPrecedence(op)) == Parsed(Some(right), q, [])
    ensures q <= |tokens| &&
            InfixLoop(tokens, pos, precedence, Some(left)) ==
            InfixLoop(tokens, q, precedence, Some(InfixExpression(op, left, right)))
  {
    assert Binds(tokens, pos, precedence);
    InfixOfOperand(tokens, pos + 1, left, op, right, q);
    InfixLoopStep(tokens, pos, precedence, Some(left));
    var rest := InfixLoop(tokens, q, precedence, Some(InfixExpression(op, left, right)));
    assert [] + rest.errs == rest.errs;
  }

  // ---------------------------------------------------------------------------
  // What a failure does.

  /** The tokens some rule of `parse_expression` can start an expression with. */
  predicate StartsExpression(t: Token) {
    t.Ident? || t.Int? || t == Token.Bang || t == Token.Minus || t == True || t == False || t == LParen
  }

  /**
   * A token no rule starts an expression with gives no expression and
   * exactly one diagnostic naming it; the infix loop may still step onto a
   * binding operator before it gives up.
   */
  lemma UnknownPrefixToken(tokens: seq<Token>, pos: nat, precedence: Precedence)
    requires pos <= |tokens| && !StartsExpression(TokenAt(tokens, pos))
    ensures var r := ParseExpression(tokens, pos, precedence);
            r.value == None && r.errs == [NoPrefixParseFn(TokenAt(tokens, pos))] &&
            r.pos == (if Binds(tokens, pos, precedence) then pos + 1 else pos)
  {
    hide InfixLoop, ParsePrefixExpression, ParseInfixExpression, ParseGroupedExpression;
    InfixLoopStep(tokens, pos, precedence, None);
  }

  /** An integer literal that does not fit in 64 bits gives no expression and records nothing. */
  lemma IntegerOverflowIsSilent(tokens: seq<Token>, pos: nat, precedence: Precedence)
    requires pos <= |tokens| && TokenAt(tokens, pos).Int?
    requires AllDigits(TokenAt(tokens, pos).text) && |TokenAt(tokens, pos).text| > 0
    requires DecimalValue(TokenAt(tokens, pos).text) > I64_MAX
    ensures var r := ParseExpression(tokens, pos, precedence);
            r.value == None && r.errs == []
  {
    hide InfixLoop, ParsePrefixExpression, ParseInfixExpression, ParseGroupedExpression;
    InfixLoopStep(tokens, pos, precedence, None);
  }

  /**
   * A prefix expression is built exactly when its operand parses, and it
   * carries the operand's diagnostics and end position.
   */
  lemma PrefixNeedsOperand(tokens: seq<Token>, pos: nat)
    requires pos <= |tokens| && PrefixOperatorOf(TokenAt(tokens, pos)).Some?
    ensures pos < |tokens|
    ensures var r := PrefixPart(tokens, pos);
            var operand := ParseExpression(tokens, pos + 1, Prefix);
            (r.value.Some? <==> operand.value.Some?) && r.pos == operand.pos && r.errs == operand.errs
  {
  }

  /**
   * A binding operator whose right operand fails: the loop builds no
   * infix node, gives nothing, and adds no diagnostic beyond the operand's.
   */
  lemma RightOperandFails(tokens: seq<Token>, pos: nat, precedence: Precedence, left: Expression)
    requires pos <= |tokens| && Binds(tokens, pos, precedence)
    requires ParseExpression(tokens, pos + 2, PrecedenceOf(TokenAt(tokens, pos + 1))).value.None?
    ensures var r := InfixLoop(tokens, pos, precedence, Some(left));
            var right := ParseExpression(tokens, pos + 2, PrecedenceOf(TokenAt(tokens, pos + 1)));
            r.value.None? && r.errs == right.errs
  {
    InfixLoopStep(tokens, pos, precedence, Some(left));
    var infix := ParseInfixExpression(tokens, pos + 1, left);
    InfixLoopStep(tokens, infix.pos, precedence, None);
    assert infix.errs + [] == infix.errs;
  }

  /**
   * A group whose inner expression is not followed by `)` gives nothing,
   * leaves `cur` where the inner expression ended, and adds one diagnostic
   * naming the token found instead.
   */
  lemma GroupWithoutClose(tokens: seq<Token>, pos: nat)
    requires pos <= |tokens| && TokenAt(tokens, pos) == LParen
    requires TokenAt(tokens, ParseExpression(tokens, pos + 1, Lowest).pos + 1) != RParen
    ensures var inner := ParseExpression(tokens, pos + 1, Lowest);
            PrefixPart(tokens, pos) ==
              Parsed(None, inner.pos, inner.errs + [ExpectedNext(RParen, TokenAt(tokens, inner.pos + 1))])
  {
  }

  /**
   * Nothing binds more strongly than `Prefix`, so the operand of a prefix
   * operator is a single prefix part: in `-a * b` the `*` is left to the
   * enclosing loop.
   */
  lemma PrefixOperandIsAtom(tokens: seq<Token>, pos: nat)
    requires pos <= |tokens|
    ensures ParseExpression(tokens, pos, Prefix) == PrefixPart(tokens, pos)
  {
    hide PrefixPart, InfixLoop, ParsePrefixExpression, ParseInfixExpression, ParseGroupedExpression;
    var left := PrefixPart(tokens, pos);
    InfixLoopStep(tokens, left.pos, Prefix, left.value);
    assert left.errs + [] == left.errs;
  }

  /** The infix loop, when it succeeds, stops only where the peek token does not bind. */
  lemma {:induction false} LoopStopsWhereNothingBinds(tokens: seq<Token>, pos: nat, precedence: Precedence,
                                                       left: Option<Expression>)
    requires pos <= |tokens| && InfixLoop(tokens, pos, precedence, left).value.Some?
    ensures !Binds(tokens, InfixLoop(tokens, pos, precedence, left).pos, precedence)
    decreases |tokens| - pos
  {
    InfixLoopStep(tokens, pos, precedence, left);
    if Binds(tokens, pos, precedence) {
      var infix := ParseInfixExpression(tokens, pos + 1, left.value);
      LoopStopsWhereNothingBinds(tokens, infix.pos, precedence, infix.value);
    }
  }

  /**
   * An expression that parses takes every operator that binds more
   * strongly than its precedence: where it stops, the peek token does not
   * bind.
   */
  lemma ExpressionStopsWhereNothingBinds(tokens: seq<Token>, pos: nat, precedence: Precedence)
    requires pos <= |tokens| && ParseExpression(tokens, pos, precedence).value.Some?
    ensures !Binds(tokens, ParseExpression(tokens, pos, precedence).pos, precedence)
  {
    var left := PrefixPart(tokens, pos);
    LoopStopsWhereNothingBinds(tokens, left.pos, precedence, left.value);
  }
}
