/**
 * A printer from syntax trees back to tokens that parenthesizes only where
 * the precedence rules require it, and the proof that the parser inverts
 * it. The round trip is what "left associativity", "a tighter operator
 * binds first", "a prefix operator binds tighter than any infix operator"
 * and "parentheses override precedence" mean, stated for every tree.
 */
module Printer {
  import opened Wrappers
  import opened Tokens
  import opened IntegerText
  import opened Ast
  import opened ParserSpec
  import opened ParserLaws

  /**
   * Trees a lexer can give rise to: an integer literal is a run of digits,
   * so a negative number can only be written with a prefix minus.
   */
  predicate Printable(e: Expression) {
    match e
    case Integer(v) => v >= 0
    case PrefixExpression(_, r) => Printable(r)
    case InfixExpression(_, l, r) => Printable(l) && Printable(r)
    case _ => true
  }

  function PrefixToken(op: PrefixOperator): (t: Token)
    ensures PrefixOperatorOf(t) == Some(op)
  {
    match op
    case Minus => Token.Minus
    case Bang => Token.Bang
  }

  function InfixToken(op: InfixOperator): (t: Token)
    ensures InfixOperatorOf(t) == Some(op)
    ensures PrecedenceOf(t) == OperatorPrecedence(op)
  {
    match op
    case Plus => Token.Plus
    case Minus => Token.Minus
    case Asterisk => Token.Asterisk
    case Slash => Token.Slash
    case Eq => Token.Eq
    case NotEq => Token.NotEq
    case Lt => Token.Lt
    case Gt => Token.Gt
  }

  /**
   * The operator matches take each operator token to an operator whose
   * token is that token again; `-` is the one token that is both a prefix
   * and a binary operator.
   */
  lemma OperatorTokens(t: Token)
    ensures InfixOperatorOf(t).Some? ==> InfixToken(InfixOperatorOf(t).value) == t
    ensures PrefixOperatorOf(t).Some? ==> PrefixToken(PrefixOperatorOf(t).value) == t
    ensures InfixOperatorOf(t).Some? && PrefixOperatorOf(t).Some? ==> t == Token.Minus
  {
  }

  /**
   * How tightly the printed form of an expression holds together: an
   * infix expression as tightly as its operator, anything else like a
   * single token.
   */
  function Strength(e: Expression): (s: nat)
    ensures Equals.Level() <= s <= Call.Level()
  {
    if e.InfixExpression? then OperatorPrecedence(e.infixOp).Level() else Call.Level()
  }

  function Parenthesized(ts: seq<Token>, paren: bool): (r: seq<Token>)
    ensures |r| >= |ts|
  {
    if paren then [LParen] + ts + [RParen] else ts
  }

  /**
   * The tokens of `e`. A left operand is parenthesized when it binds more
   * loosely than its operator, a right operand also when it binds equally
   * (the parser associates to the left), and the operand of a prefix
   * operator whenever it is an infix expression.
   */
  function Print(e: Expression): (ts: seq<Token>)
    requires Printable(e)
    ensures |ts| > 0
  {
    match e
    case Identifier(name) => [Ident(name)]
    case Integer(v) => [Int(DecimalText(v as int))]
    case Boolean(b) => [if b then True else False]
    case PrefixExpression(op, r) =>
      [PrefixToken(op)] + Parenthesized(Print(r), Strength(r) <= Prefix.Level())
    case InfixExpression(op, l, r) =>
      var p := OperatorPrecedence(op).Level();
      Parenthesized(Print(l), Strength(l) < p) + [InfixToken(op)] + Parenthesized(Print(r), Strength(r) <= p)
  }

  /** Tokens a printed expression can hold: none of them ends a statement or starts a `let` or `return`. */
  predicate InExpression(t: Token) {
    t != Semicolon && t != Eof && t != Let && t != Return
  }

  predicate AllInExpression(ts: seq<Token>) {
    forall t | t in ts :: InExpression(t)
  }

  lemma JoinInExpression(a: seq<Token>, b: seq<Token>)
    requires AllInExpression(a) && AllInExpression(b)
    ensures AllInExpression(a + b)
  {
  }

  lemma ParenthesizedInExpression(ts: seq<Token>, paren: bool)
    requires AllInExpression(ts)
    ensures AllInExpression(Parenthesized(ts, paren))
  {
  }

  /** A printed expression holds no token that ends a statement or starts a `let` or `return`. */
  lemma {:induction false} PrintedTokens(e: Expression)
    requires Printable(e)
    ensures AllInExpression(Print(e))
  {
    hide Print, Parenthesized;
    match e
    case PrefixExpression(op, r) =>
      PrintedTokens(r);
      PrintOfPrefix(e);
      ParenthesizedInExpression(Print(r), Strength(r) <= Prefix.Level());
      JoinInExpression([PrefixToken(op)], Parenthesized(Print(r), Strength(r) <= Prefix.Level()));
    case InfixExpression(op, l, r) =>
      var p := OperatorPrecedence(op).Level();
      PrintedTokens(l);
      PrintedTokens(r);
      PrintOfInfix(e);
      ParenthesizedInExpression(Print(l), Strength(l) < p);
      ParenthesizedInExpression(Print(r), Strength(r) <= p);
      JoinInExpression(Parenthesized(Print(l), Strength(l) < p), [InfixToken(op)]);
      JoinInExpression(Parenthesized(Print(l), Strength(l) < p) + [InfixToken(op)], Parenthesized(Print(r), Strength(r) <= p));
    case _ =>
      PrintOfAtom(e);
      assert Print(e) == [Print(e)[0]];
  }

  // ---------------------------------------------------------------------------
  // Token windows.

  /** `tokens` holds `ts` from position `pos` on. */
  predicate At(tokens: seq<Token>, pos: nat, ts: seq<Token>) {
    pos + |ts| <= |tokens| && tokens[pos..pos + |ts|] == ts
  }

  lemma AtBound(tokens: seq<Token>, pos: nat, ts: seq<Token>)
    requires At(tokens, pos, ts)
    ensures pos + |ts| <= |tokens|
  {
  }

  lemma AtToken(tokens: seq<Token>, pos: nat, ts: seq<Token>, i: nat)
    requires At(tokens, pos, ts) && i < |ts|
    ensures TokenAt(tokens, pos + i) == ts[i]
  {
    assert tokens[pos..pos + |ts|][i] == tokens[pos + i];
  }

  lemma AtSplit(tokens: seq<Token>, pos: nat, a: seq<Token>, b: seq<Token>)
    requires At(tokens, pos, a + b)
    ensures pos + |a| + |b| <= |tokens|
    ensures At(tokens, pos, a) && At(tokens, pos + |a|, b)
  {
    var w := tokens[pos..pos + |a| + |b|];
    assert tokens[pos..pos + |a|] == w[..|a|];
    assert tokens[pos + |a|..pos + |a| + |b|] == w[|a|..];
    assert w[..|a|] == a && w[|a|..] == b;
  }

  lemma AtSplit3(tokens: seq<Token>, pos: nat, a: seq<Token>, b: seq<Token>, c: seq<Token>)
    requires At(tokens, pos, a + b + c)
    ensures At(tokens, pos, a) && At(tokens, pos + |a|, b) && At(tokens, pos + |a| + |b|, c)
  {
    AtSplit(tokens, pos, a + b, c);
    AtSplit(tokens, pos, a, b);
  }

  lemma AtGroup(tokens: seq<Token>, pos: nat, ts: seq<Token>)
    requires At(tokens, pos, [LParen] + ts + [RParen])
    ensures TokenAt(tokens, pos) == LParen && At(tokens, pos + 1, ts) && TokenAt(tokens, pos + 1 + |ts|) == RParen
  {
    AtSplit3(tokens, pos, [LParen], ts, [RParen]);
    AtToken(tokens, pos, [LParen], 0);
    AtToken(tokens, pos + 1 + |ts|, [RParen], 0);
  }

  lemma AtWhole(tokens: seq<Token>)
    ensures At(tokens, 0, tokens)
  {
    assert tokens[0..|tokens|] == tokens;
  }

  // ---------------------------------------------------------------------------
  // The round trip, by induction on the tree.

  /** An integer literal printed in decimal parses back to its value. */
  lemma IntegerLiteralRoundTrip(v: i64)
    requires v >= 0
    ensures ParseIntegerLiteral(Int(DecimalText(v as int))) == Some(Integer(v))
  {
    DecimalRoundTrip(v as int);
  }

  /** Whatever follows a window of tokens never binds more tightly than `level`. */
  predicate Settles(t: Token, level: nat) {
    PrecedenceOf(t).Level() <= level
  }

  lemma PrintOfAtom(e: Expression)
    requires e.Identifier? || e.Integer? || e.Boolean?
    requires Printable(e)
    ensures |Print(e)| == 1 && InExpression(Print(e)[0])
  {
  }

  lemma PrintOfPrefix(e: Expression)
    requires e.PrefixExpression? && Printable(e)
    ensures Print(e) == [PrefixToken(e.prefixOp)] + Parenthesized(Print(e.right), Strength(e.right) <= Prefix.Level())
  {
  }

  lemma PrintOfInfix(e: Expression)
    requires e.InfixExpression? && Printable(e)
    ensures var p := OperatorPrecedence(e.infixOp).Level();
            Print(e) == Parenthesized(Print(e.left), Strength(e.left) < p) + [InfixToken(e.infixOp)] +
                        Parenthesized(Print(e.right), Strength(e.right) <= p)
  {
  }

  /** An identifier, integer or boolean token is an expression in itself. */
  lemma PrintedAtom(tokens: seq<Token>, pos: nat, e: Expression)
    requires Printable(e) && At(tokens, pos, Print(e))
    requires e.Identifier? || e.Integer? || e.Boolean?
    ensures |Print(e)| == 1 && PrefixPart(tokens, pos) == Parsed(Some(e), pos, [])
  {
    AtToken(tokens, pos, Print(e), 0);
    if e.Integer? {
      IntegerLiteralRoundTrip(e.value);
    }
  }

  /**
   * The printed tokens of `e`, followed by a token that does not bind more
   * tightly than `e` itself, parse at any precedence weaker than `e` to
   * `e`; the infix loop then goes on from the last token of `e`.
   */
  lemma PrintedExpression(tokens: seq<Token>, pos: nat, e: Expression, minP: Precedence)
    requires Printable(e) && At(tokens, pos, Print(e))
    requires minP.Level() < Strength(e)
    requires Settles(TokenAt(tokens, pos + |Print(e)|), Strength(e))
    ensures ParseExpression(tokens, pos, minP) == InfixLoop(tokens, pos + |Print(e)| - 1, minP, Some(e))
    decreases e, 1
  {
    hide ParseExpression, PrefixPart, InfixLoop, ParsePrefixExpression, ParseInfixExpression, ParseGroupedExpression, Print, At;
    if e.InfixExpression? {
      PrintedInfix(tokens, pos, e, minP);
    } else {
      if e.PrefixExpression? {
        PrintedPrefix(tokens, pos, e);
      } else {
        PrintedAtom(tokens, pos, e);
      }
      ExpressionOfPrefixPart(tokens, pos, minP, e, pos + |Print(e)| - 1);
    }
  }

  /** A prefix operator and its (possibly parenthesized) operand. */
  lemma PrintedPrefix(tokens: seq<Token>, pos: nat, e: Expression)
    requires e.PrefixExpression? && Printable(e) && At(tokens, pos, Print(e))
    ensures PrefixPart(tokens, pos) == Parsed(Some(e), pos + |Print(e)| - 1, [])
    decreases e, 0
  {
    hide ParseExpression, PrefixPart, InfixLoop, ParsePrefixExpression, ParseInfixExpression, ParseGroupedExpression, Print, At;
    var paren := Strength(e.right) <= Prefix.Level();
    var operand := Parenthesized(Print(e.right), paren);
    PrintOfPrefix(e);
    AtSplit(tokens, pos, [PrefixToken(e.prefixOp)], operand);
    AtToken(tokens, pos, [PrefixToken(e.prefixOp)], 0);
    assert |Print(e)| == 1 + |operand|;
    PrintedOperand(tokens, pos + 1, e.right, paren, Prefix);
    PrefixOfOperand(tokens, pos, e.prefixOp, e.right, pos + |Print(e)| - 1);
  }

  /** Where the two operands and the operator of a printed infix expression lie. */
  lemma InfixLayout(tokens: seq<Token>, pos: nat, e: Expression)
    requires e.InfixExpression? && Printable(e) && At(tokens, pos, Print(e))
    ensures var p := OperatorPrecedence(e.infixOp).Level();
            var left := Parenthesized(Print(e.left), Strength(e.left) < p);
            var right := Parenthesized(Print(e.right), Strength(e.right) <= p);
            |Print(e)| == |left| + 1 + |right| && At(tokens, pos, left) &&
            TokenAt(tokens, pos + |left|) == InfixToken(e.infixOp) && At(tokens, pos + |left| + 1, right)
  {
    hide ParseExpression, PrefixPart, InfixLoop, ParsePrefixExpression, ParseInfixExpression, ParseGroupedExpression, Print, At, Parenthesized,
         InExpression, AllInExpression;
    var p := OperatorPrecedence(e.infixOp).Level();
    var left := Parenthesized(Print(e.left), Strength(e.left) < p);
    var right := Parenthesized(Print(e.right), Strength(e.right) <= p);
    PrintOfInfix(e);
    AtSplit3(tokens, pos, left, [InfixToken(e.infixOp)], right);
    AtToken(tokens, pos + |left|, [InfixToken(e.infixOp)], 0);
  }

  /** A binary operator with its two operands, each parenthesized where the printer put parentheses. */
  lemma PrintedInfix(tokens: seq<Token>, pos: nat, e: Expression, minP: Precedence)
    requires e.InfixExpression? && Printable(e) && At(tokens, pos, Print(e))
    requires minP.Level() < Strength(e)
    requires Settles(TokenAt(tokens, pos + |Print(e)|), Strength(e))
    ensures ParseExpression(tokens, pos, minP) == InfixLoop(tokens, pos + |Print(e)| - 1, minP, Some(e))
    decreases e, 0
  {
    hide ParseExpression, PrefixPart, InfixLoop, ParsePrefixExpression, ParseInfixExpression, ParseGroupedExpression, Print, At, Parenthesized,
         TokenAt, InExpression, AllInExpression;
    var op, l, r := e.infixOp, e.left, e.right;
    var p := OperatorPrecedence(op).Level();
    var left := Parenthesized(Print(l), Strength(l) < p);
    var right := Parenthesized(Print(r), Strength(r) <= p);
    var at := pos + |left|;
    var end := pos + |Print(e)|;
    InfixLayout(tokens, pos, e);
    assert end == at + 1 + |right| && Strength(e) == p;
    PrintedLeft(tokens, pos, l, p, minP);
    PrintedOperand(tokens, at + 1, r, Strength(r) <= p, OperatorPrecedence(op));
    InfixLoopFolds(tokens, at - 1, minP, l, op, r, end - 1);
  }

  /**
   * The left operand of an operator of level `p`, printed before that
   * operator: parsing from its first token leaves the infix loop on the
   * operand's last token with the operand as the left side.
   */
  lemma PrintedLeft(tokens: seq<Token>, pos: nat, l: Expression, p: nat, minP: Precedence)
    requires Printable(l) && At(tokens, pos, Parenthesized(Print(l), Strength(l) < p))
    requires minP.Level() < p
    requires PrecedenceOf(TokenAt(tokens, pos + |Parenthesized(Print(l), Strength(l) < p)|)).Level() == p
    ensures ParseExpression(tokens, pos, minP) ==
            InfixLoop(tokens, pos + |Parenthesized(Print(l), Strength(l) < p)| - 1, minP, Some(l))
    decreases l, 3
  {
    hide ParseExpression, PrefixPart, InfixLoop, ParsePrefixExpression, ParseInfixExpression, ParseGroupedExpression, Print, At;
    if Strength(l) < p {
      PrintedGroup(tokens, pos, l);
      ExpressionOfPrefixPart(tokens, pos, minP, l, pos + |Print(l)| + 1);
    } else {
      PrintedExpression(tokens, pos, l, minP);
    }
  }

  /**
   * A right operand (or the whole of an expression statement), printed
   * with or without parentheses and followed by a token that does not bind
   * more tightly than `minP`, parses at `minP` to exactly that operand.
   */
  lemma PrintedOperand(tokens: seq<Token>, pos: nat, x: Expression, paren: bool, minP: Precedence)
    requires Printable(x) && At(tokens, pos, Parenthesized(Print(x), paren))
    requires paren || minP.Level() < Strength(x)
    requires Settles(TokenAt(tokens, pos + |Parenthesized(Print(x), paren)|), minP.Level())
    ensures ParseExpression(tokens, pos, minP) == Parsed(Some(x), pos + |Parenthesized(Print(x), paren)| - 1, [])
    decreases x, 3
  {
    hide ParseExpression, PrefixPart, InfixLoop, ParsePrefixExpression, ParseInfixExpression, ParseGroupedExpression, Print, At;
    var end := pos + |Parenthesized(Print(x), paren)|;
    if paren {
      PrintedGroup(tokens, pos, x);
      ExpressionOfPrefixPart(tokens, pos, minP, x, end - 1);
    } else {
      PrintedExpression(tokens, pos, x, minP);
    }
    InfixLoopStep(tokens, end - 1, minP, Some(x));
  }

  /** A parenthesized expression is read as the expression inside, with `cur` left on the `)`. */
  lemma PrintedGroup(tokens: seq<Token>, pos: nat, x: Expression)
    requires Printable(x) && At(tokens, pos, [LParen] + Print(x) + [RParen])
    ensures PrefixPart(tokens, pos) == Parsed(Some(x), pos + |Print(x)| + 1, [])
    decreases x, 2
  {
    hide ParseExpression, PrefixPart, InfixLoop, ParsePrefixExpression, ParseInfixExpression, ParseGroupedExpression, Print, At;
    var n := |Print(x)|;
    AtGroup(tokens, pos, Print(x));
    PrintedExpression(tokens, pos + 1, x, Lowest);
    InfixLoopStep(tokens, pos + n, Lowest, Some(x));
    GroupOfInner(tokens, pos, x, pos + n);
  }

  /** Parsing the printed tokens of any tree gives the tree back, with no diagnostics. */
  lemma ExpressionRoundTrip(e: Expression)
    requires Printable(e)
    ensures ParseExpression(Print(e), 0, Lowest) == Parsed(Some(e), |Print(e)| - 1, [])
  {
    hide ParseExpression, PrefixPart, InfixLoop, ParsePrefixExpression, ParseInfixExpression, ParseGroupedExpression, Print, At;
    AtWhole(Print(e));
    PrintedOperand(Print(e), 0, e, false, Lowest);
  }
}
