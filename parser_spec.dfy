/**
 * What each function of the parser computes, stated on values.
 *
 * A parser state is the position `pos` of the current token in the lexer's
 * output `tokens`: the current token is `TokenAt(tokens, pos)` and the peek
 * token `TokenAt(tokens, pos + 1)`. Each function below takes the state on
 * entry and returns what the parser returns, the position it leaves `cur`
 * at, and the diagnostics it appends, in order. The class in parser.dfy is
 * proved to do exactly this.
 */
module ParserSpec {
  import opened Wrappers
  import opened Tokens
  import opened IntegerText
  import opened Ast

  /** Binding strength, weakest first; `Call` is declared but no rule uses it. */
  datatype Precedence = Lowest | Equals | LessGreater | Sum | Product | Prefix | Call {
    function Level(): nat {
      match this
      case Lowest => 0
      case Equals => 1
      case LessGreater => 2
      case Sum => 3
      case Product => 4
      case Prefix => 5
      case Call => 6
    }
  }

  /** A diagnostic; the source renders these as text, the model keeps what the text names. */
  datatype ParseError =
    | ExpectedIdent(got: Token)                   // `let` not followed by an identifier
    | ExpectedNext(expected: Token, got: Token)   // a failed `expect_peek`
    | NoPrefixParseFn(found: Token)               // no rule starts an expression with this token

  /** What a parse function returns, where it leaves `cur`, and the diagnostics it appends. */
  datatype Parsed<T> = Parsed(value: Option<T>, pos: nat, errs: seq<ParseError>)

  /** The outcome of `expect_peek`. */
  datatype Checkpoint = Checkpoint(ok: bool, pos: nat, errs: seq<ParseError>)

  /** The outcome of the statement driver `parse`. */
  datatype ProgramOutcome = ProgramOutcome(statements: Program, pos: nat, errs: seq<ParseError>)

  /** The binding strength of each binary operator, by operator class. */
  function OperatorPrecedence(op: InfixOperator): Precedence {
    match op
    case Eq | NotEq => Equals
    case Lt | Gt => LessGreater
    case Plus | Minus => Sum
    case Asterisk | Slash => Product
  }

  /** The binary operator a token stands for, if any. */
  function InfixOperatorOf(t: Token): Option<InfixOperator> {
    match t
    case Plus => Some(InfixOperator.Plus)
    case Minus => Some(InfixOperator.Minus)
    case Asterisk => Some(InfixOperator.Asterisk)
    case Slash => Some(InfixOperator.Slash)
    case Eq => Some(InfixOperator.Eq)
    case NotEq => Some(InfixOperator.NotEq)
    case Lt => Some(InfixOperator.Lt)
    case Gt => Some(InfixOperator.Gt)
    case _ => None
  }

  /** The unary operator a token stands for, if any. */
  function PrefixOperatorOf(t: Token): Option<PrefixOperator> {
    match t
    case Minus => Some(PrefixOperator.Minus)
    case Bang => Some(PrefixOperator.Bang)
    case _ => None
  }

  /**
   * The precedence table shared by `peek_precedence` and `cur_precedence`:
   * a binary operator token binds with its operator's strength, every other
   * token with `Lowest`.
   */
  function PrecedenceOf(t: Token): (p: Precedence)
    ensures InfixOperatorOf(t).Some? ==> p == OperatorPrecedence(InfixOperatorOf(t).value)
    ensures InfixOperatorOf(t).None? ==> p == Lowest
    ensures p.Level() <= Product.Level()
  {
    match t
    case Eq => Equals
    case NotEq => Equals
    case Lt => LessGreater
    case Gt => LessGreater
    case Plus => Sum
    case Minus => Sum
    case Asterisk => Product
    case Slash => Product
    case _ => Lowest
  }

  /** An identifier node naming the identifier's text. */
  function ParseIdentifier(t: Token): (r: Expression)
    requires t.Ident?
    ensures r.Identifier? && r.name == t.text
  {
    Identifier(t.text)
  }

  /** An integer literal; a text that does not fit in 64 bits gives no expression (and no diagnostic). */
  function ParseIntegerLiteral(t: Token): (r: Option<Expression>)
    requires t.Int?
    ensures AllDigits(t.text) && |t.text| > 0 ==>
      (r.Some? <==> DecimalValue(t.text) <= I64_MAX) &&
      (r.Some? ==> r.value.Integer? && r.value.value as int == DecimalValue(t.text))
  {
    match ParseI64(t.text)
    case Some(v) => Some(Integer(v))
    case None => None
  }

  /** A boolean node, true exactly for the `true` token. */
  function ParseBooleanLiteral(t: Token): (r: Expression)
    ensures r.Boolean? && (r.truth <==> t == True)
  {
    Boolean(t == True)
  }

  /** `expect_peek`: step onto the peek token if it is `t`, otherwise record one diagnostic. */
  function ExpectPeek(tokens: seq<Token>, pos: nat, t: Token): (r: Checkpoint)
    requires pos <= |tokens| && t != Eof
    ensures r.ok <==> TokenAt(tokens, pos + 1) == t
    ensures r.ok ==> r.pos == pos + 1 && TokenAt(tokens, r.pos) == t && r.errs == []
    ensures !r.ok ==> r.pos == pos && r.errs == [ExpectedNext(t, TokenAt(tokens, pos + 1))]
  {
    if TokenAt(tokens, pos + 1) == t then Checkpoint(true, pos + 1, [])
    else Checkpoint(false, pos, [ExpectedNext(t, TokenAt(tokens, pos + 1))])
  }

  // ---------------------------------------------------------------------------
  // Expressions. The five functions below are mutually recursive; every
  // recursive call is made after a token other than Eof has been consumed,
  // or at the same position with a smaller rank.

  /** `parse_expression`: a prefix part, then the infix loop at the given minimum precedence. */
  function ParseExpression(tokens: seq<Token>, pos: nat, precedence: Precedence): (r: Parsed<Expression>)
    requires pos <= |tokens|
    ensures pos <= r.pos <= |tokens|
    ensures r.value.Some? ==> r.errs == []
    decreases |tokens| - pos, 3
  {
    var left := PrefixPart(tokens, pos);
    var rest := InfixLoop(tokens, left.pos, precedence, left.value);
    Parsed(rest.value, rest.pos, left.errs + rest.errs)
  }

  /** The dispatch on the current token that starts `parse_expression`. */
  function PrefixPart(tokens: seq<Token>, pos: nat): (r: Parsed<Expression>)
    requires pos <= |tokens|
    ensures pos <= r.pos <= |tokens|
    ensures r.value.Some? ==> r.errs == []
    decreases |tokens| - pos, 2
  {
    var cur := TokenAt(tokens, pos);
    match cur
    case Ident(_) => Parsed(Some(ParseIdentifier(cur)), pos, [])
    case Int(_) => Parsed(ParseIntegerLiteral(cur), pos, [])
    case Bang => ParsePrefixExpression(tokens, pos)
    case Minus => ParsePrefixExpression(tokens, pos)
    case True => Parsed(Some(ParseBooleanLiteral(cur)), pos, [])
    case False => Parsed(Some(ParseBooleanLiteral(cur)), pos, [])
    case LParen => ParseGroupedExpression(tokens, pos)
    case _ => Parsed(None, pos, [NoPrefixParseFn(cur)])
  }

  /**
   * The infix loop: while the peek token binds more strongly than
   * `precedence`, step onto it and fold `left` with the right operand. A
   * missing left operand ends the loop right after that step.
   */
  function InfixLoop(tokens: seq<Token>, pos: nat, precedence: Precedence, left: Option<Expression>): (r: Parsed<Expression>)
    requires pos <= |tokens|
    ensures pos <= r.pos <= |tokens|
    ensures r.value.Some? ==> left.Some? && r.errs == []
    decreases |tokens| - pos, 2
  {
    var peek := TokenAt(tokens, pos + 1);
    if peek == Semicolon || precedence.Level() >= PrecedenceOf(peek).Level() then
      Parsed(left, pos, [])
    else if left.None? then
      Parsed(None, pos + 1, [])
    else
      var infix := ParseInfixExpression(tokens, pos + 1, left.value);
      var rest := InfixLoop(tokens, infix.pos, precedence, infix.value);
      Parsed(rest.value, rest.pos, infix.errs + rest.errs)
  }

  /** The loop condition of `parse_expression`: does the peek token at `pos` bind more strongly? */
  predicate Binds(tokens: seq<Token>, pos: nat, precedence: Precedence) {
    var peek := TokenAt(tokens, pos + 1);
    peek != Semicolon && precedence.Level() < PrecedenceOf(peek).Level()
  }

  /**
   * One turn of the infix loop: it stops where the peek token does not
   * bind; a missing left operand ends it one step on; otherwise the right
   * operand is parsed and the loop goes on from there.
   */
  lemma InfixLoopStep(tokens: seq<Token>, pos: nat, precedence: Precedence, left: Option<Expression>)
    requires pos <= |tokens|
    ensures !Binds(tokens, pos, precedence) ==> InfixLoop(tokens, pos, precedence, left) == Parsed(left, pos, [])
    ensures Binds(tokens, pos, precedence) && left.None? ==> InfixLoop(tokens, pos, precedence, left) == Parsed(None, pos + 1, [])
    ensures Binds(tokens, pos, precedence) && left.Some? ==>
            pos < |tokens| &&
            var infix := ParseInfixExpression(tokens, pos + 1, left.value);
            var rest := InfixLoop(tokens, infix.pos, precedence, infix.value);
            InfixLoop(tokens, pos, precedence, left) == Parsed(rest.value, rest.pos, infix.errs + rest.errs)
  {
  }

  /** `parse_prefix_expression`: the operand is parsed at `Prefix` precedence. */
  function ParsePrefixExpression(tokens: seq<Token>, pos: nat): (r: Parsed<Expression>)
    requires pos <= |tokens|
    ensures pos <= r.pos <= |tokens|
    ensures r.value.Some? ==> r.errs == []
    decreases |tokens| - pos, 1
  {
    match PrefixOperatorOf(TokenAt(tokens, pos))
    case None => Parsed(None, pos, [])
    case Some(op) =>
      var right := ParseExpression(tokens, pos + 1, Prefix);
      match right.value
      case Some(exp) => Parsed(Some(PrefixExpression(op, exp)), right.pos, right.errs)
      case None => Parsed(None, right.pos, right.errs)
  }

  /** `parse_infix_expression`: the right operand is parsed at the operator's own precedence. */
  function ParseInfixExpression(tokens: seq<Token>, pos: nat, left: Expression): (r: Parsed<Expression>)
    requires pos <= |tokens|
    ensures pos <= r.pos <= |tokens|
    ensures r.value.Some? ==> r.errs == []
    decreases |tokens| - pos, 1
  {
    match InfixOperatorOf(TokenAt(tokens, pos))
    case None => Parsed(None, pos, [])
    case Some(op) =>
      var precedence := PrecedenceOf(TokenAt(tokens, pos));
      var right := ParseExpression(tokens, pos + 1, precedence);
      match right.value
      case Some(exp) => Parsed(Some(InfixExpression(op, left, exp)), right.pos, right.errs)
      case None => Parsed(None, right.pos, right.errs)
  }

  /** `parse_grouped_expression`: an expression at `Lowest`, then a mandatory `)`. */
  function ParseGroupedExpression(tokens: seq<Token>, pos: nat): (r: Parsed<Expression>)
    requires pos <= |tokens| && TokenAt(tokens, pos) == LParen
    ensures pos <= r.pos <= |tokens|
    ensures r.value.Some? ==> r.errs == []
    decreases |tokens| - pos, 1
  {
    var exp := ParseExpression(tokens, pos + 1, Lowest);
    var close := ExpectPeek(tokens, exp.pos, RParen);
    if !close.ok then Parsed(None, close.pos, exp.errs + close.errs)
    else Parsed(exp.value, close.pos, exp.errs + close.errs)
  }

  // ---------------------------------------------------------------------------
  // Statements.

  /**
   * The first position at or after `pos` whose token is `Semicolon`, or
   * `Eof` if there is none: where the scan in `let` and `return` stops.
   */
  function SkipToSemicolon(tokens: seq<Token>, pos: nat): (r: nat)
    requires pos <= |tokens|
    ensures pos <= r <= |tokens|
    ensures TokenAt(tokens, r) == Semicolon || TokenAt(tokens, r) == Eof
    ensures forall k :: pos <= k < r ==> TokenAt(tokens, k) != Semicolon && TokenAt(tokens, k) != Eof
    decreases |tokens| - pos
  {
    if TokenAt(tokens, pos) == Semicolon || TokenAt(tokens, pos) == Eof then pos
    else SkipToSemicolon(tokens, pos + 1)
  }

  /**
   * `parse_let_statement`: `let`, an identifier, `=`, then everything up to
   * the semicolon is skipped. The statement keeps only the identifier's
   * text. Each of the two checks that can fail records exactly one
   * diagnostic and leaves `cur` where the check was made.
   */
  function ParseLetStatement(tokens: seq<Token>, pos: nat): (r: Parsed<Statement>)
    requires pos <= |tokens|
    ensures pos <= r.pos <= |tokens|
    ensures r.value.Some? <==> TokenAt(tokens, pos + 1).Ident? && TokenAt(tokens, pos + 2) == Assign
    ensures r.value.Some? ==>
      r.value.value == LetStatement(TokenAt(tokens, pos + 1).text) && r.errs == [] &&
      r.pos == SkipToSemicolon(tokens, pos + 2)
    ensures !TokenAt(tokens, pos + 1).Ident? ==>
      r.pos == pos && r.errs == [ExpectedIdent(TokenAt(tokens, pos + 1))]
    ensures TokenAt(tokens, pos + 1).Ident? && TokenAt(tokens, pos + 2) != Assign ==>
      r.pos == pos + 1 && r.errs == [ExpectedNext(Assign, TokenAt(tokens, pos + 2))]
  {
    var peek := TokenAt(tokens, pos + 1);
    if !peek.Ident? then Parsed(None, pos, [ExpectedIdent(peek)])
    else
      var name := peek.text;
      var assign := ExpectPeek(tokens, pos + 1, Assign);
      if !assign.ok then Parsed(None, assign.pos, assign.errs)
      else Parsed(Some(LetStatement(name)), SkipToSemicolon(tokens, assign.pos), [])
  }

  /** `parse_return_statement`: skips past `return` up to the semicolon; it cannot fail. */
  function ParseReturnStatement(tokens: seq<Token>, pos: nat): (r: Parsed<Statement>)
    requires pos <= |tokens| && TokenAt(tokens, pos) == Return
    ensures pos < r.pos <= |tokens|
    ensures r.value == Some(ReturnStatement) && r.errs == []
    ensures TokenAt(tokens, r.pos) == Semicolon || TokenAt(tokens, r.pos) == Eof
  {
    Parsed(Some(ReturnStatement), SkipToSemicolon(tokens, pos + 1), [])
  }

  /** `parse_expression_statement`: an expression at `Lowest`, then one optional `;`. */
  function ParseExpressionStatement(tokens: seq<Token>, pos: nat): (r: Parsed<Statement>)
    requires pos <= |tokens|
    ensures pos <= r.pos <= |tokens|
    ensures r.value.Some? ==> r.errs == [] && r.value.value.ExpressionStatement?
  {
    var exp := ParseExpression(tokens, pos, Lowest);
    match exp.value
    case None => Parsed(None, exp.pos, exp.errs)
    case Some(e) =>
      var end := if TokenAt(tokens, exp.pos + 1) == Semicolon then exp.pos + 1 else exp.pos;
      Parsed(Some(ExpressionStatement(e)), end, exp.errs)
  }

  /** `parse_statement`: the current token decides the statement form. */
  function ParseStatement(tokens: seq<Token>, pos: nat): (r: Parsed<Statement>)
    requires pos <= |tokens|
    ensures pos <= r.pos <= |tokens|
    ensures r.value.Some? ==> r.errs == []
    ensures r.value.Some? ==>
      (r.value.value.LetStatement? <==> TokenAt(tokens, pos) == Let) &&
      (r.value.value.ReturnStatement? <==> TokenAt(tokens, pos) == Return)
    ensures TokenAt(tokens, pos) == Return ==> r.value == Some(ReturnStatement)
  {
    match TokenAt(tokens, pos)
    case Let => ParseLetStatement(tokens, pos)
    case Return => ParseReturnStatement(tokens, pos)
    case _ => ParseExpressionStatement(tokens, pos)
  }

  /**
   * `parse`: one statement per iteration, then one step, until `cur` is
   * `Eof`. Statements that came back empty are dropped; the others are kept
   * in source order.
   */
  function ParseProgram(tokens: seq<Token>, pos: nat): (r: ProgramOutcome)
    requires pos <= |tokens| + 1
    ensures pos <= r.pos <= |tokens| + 1
    ensures TokenAt(tokens, r.pos) == Eof
    ensures |r.statements| <= r.pos - pos
    decreases |tokens| + 1 - pos
  {
    if TokenAt(tokens, pos) == Eof then ProgramOutcome([], pos, [])
    else
      var stmt := ParseStatement(tokens, pos);
      var rest := ParseProgram(tokens, stmt.pos + 1);
      var kept := if stmt.value.Some? then [stmt.value.value] else [];
      ProgramOutcome(kept + rest.statements, rest.pos, stmt.errs + rest.errs)
  }

  /**
   * One iteration of the driver: at `Eof` nothing is left to parse;
   * otherwise the statement at `pos`, if any, comes first.
   */
  lemma ProgramStep(tokens: seq<Token>, pos: nat)
    requires pos <= |tokens| + 1
    ensures TokenAt(tokens, pos) == Eof ==> ParseProgram(tokens, pos) == ProgramOutcome([], pos, [])
    ensures TokenAt(tokens, pos) != Eof ==>
            pos < |tokens| &&
            var stmt := ParseStatement(tokens, pos);
            var rest := ParseProgram(tokens, stmt.pos + 1);
            ParseProgram(tokens, pos) ==
              ProgramOutcome((if stmt.value.Some? then [stmt.value.value] else []) + rest.statements,
                             rest.pos, stmt.errs + rest.errs)
  {
  }
}
