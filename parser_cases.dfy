/**
 * Inputs from the parser's own tests, each with the program and the
 * diagnostics the parser produces for it. The tests compare rendered
 * text such as `((a + b) - c)`; here the same expectation is stated as
 * the shape of the tree.
 */
module ParserCases {
  import opened Wrappers
  import opened Tokens
  import opened IntegerText
  import opened Ast
  import opened ParserSpec
  import opened ParserLaws
  import opened Printer
  import opened ProgramPrinter

  const a := Identifier("a")
  const b := Identifier("b")
  const c := Identifier("c")

  function Num(n: i64): Expression {
    Integer(n)
  }

  /** `a + b - c` is `((a + b) - c)`: operators of equal precedence associate to the left. */
  lemma EqualPrecedenceAssociatesLeft()
    ensures ParseProgram([Ident("a"), Token.Plus, Ident("b"), Token.Minus, Ident("c")], 0) ==
            ProgramOutcome([ExpressionStatement(
              InfixExpression(InfixOperator.Minus, InfixExpression(InfixOperator.Plus, a, b), c))], 5, [])
  {
    var tokens := [Ident("a"), Token.Plus, Ident("b"), Token.Minus, Ident("c")];
    var e := InfixExpression(InfixOperator.Minus, InfixExpression(InfixOperator.Plus, a, b), c);
    assert Print(e) == tokens;
    AtWhole(tokens);
    FinalExpression(tokens, 0, e);
  }

  /** `a + b / c` is `(a + (b / c))`: the tighter operator takes the shared operand. */
  lemma TighterOperatorBindsFirst()
    ensures ParseProgram([Ident("a"), Token.Plus, Ident("b"), Token.Slash, Ident("c")], 0) ==
            ProgramOutcome([ExpressionStatement(
              InfixExpression(InfixOperator.Plus, a, InfixExpression(InfixOperator.Slash, b, c)))], 5, [])
  {
    var tokens := [Ident("a"), Token.Plus, Ident("b"), Token.Slash, Ident("c")];
    var e := InfixExpression(InfixOperator.Plus, a, InfixExpression(InfixOperator.Slash, b, c));
    assert Print(e) == tokens;
    AtWhole(tokens);
    FinalExpression(tokens, 0, e);
  }

  /** `-a * b` is `((-a) * b)`: a prefix operator takes only the operand right after it. */
  lemma PrefixBindsTighterThanInfix()
    ensures ParseProgram([Token.Minus, Ident("a"), Token.Asterisk, Ident("b")], 0) ==
            ProgramOutcome([ExpressionStatement(
              InfixExpression(InfixOperator.Asterisk, PrefixExpression(PrefixOperator.Minus, a), b))], 4, [])
  {
    var tokens := [Token.Minus, Ident("a"), Token.Asterisk, Ident("b")];
    var e := InfixExpression(InfixOperator.Asterisk, PrefixExpression(PrefixOperator.Minus, a), b);
    assert Print(e) == tokens;
    AtWhole(tokens);
    FinalExpression(tokens, 0, e);
  }

  /** `!-a` is `(!(-a))`: prefix operators nest. */
  lemma PrefixOperatorsNest()
    ensures ParseProgram([Token.Bang, Token.Minus, Ident("a")], 0) ==
            ProgramOutcome([ExpressionStatement(
              PrefixExpression(PrefixOperator.Bang, PrefixExpression(PrefixOperator.Minus, a)))], 3, [])
  {
    var tokens := [Token.Bang, Token.Minus, Ident("a")];
    var e := PrefixExpression(PrefixOperator.Bang, PrefixExpression(PrefixOperator.Minus, a));
    assert Print(e) == tokens;
    AtWhole(tokens);
    FinalExpression(tokens, 0, e);
  }

  /** `(5 + 5) * 2` is `((5 + 5) * 2)`: parentheses override precedence. */
  lemma ParenthesesOverridePrecedence()
    ensures ParseProgram([LParen, Int("5"), Token.Plus, Int("5"), RParen, Token.Asterisk, Int("2")], 0) ==
            ProgramOutcome([ExpressionStatement(
              InfixExpression(InfixOperator.Asterisk, InfixExpression(InfixOperator.Plus, Num(5), Num(5)), Num(2)))], 7, [])
  {
    var tokens := [LParen, Int("5"), Token.Plus, Int("5"), RParen, Token.Asterisk, Int("2")];
    var e := InfixExpression(InfixOperator.Asterisk, InfixExpression(InfixOperator.Plus, Num(5), Num(5)), Num(2));
    assert Print(e) == tokens;
    AtWhole(tokens);
    FinalExpression(tokens, 0, e);
  }

  lemma SeparatedStatementsWritten()
    ensures var first := InfixExpression(InfixOperator.Plus, Num(3), Num(4));
            var second := InfixExpression(InfixOperator.Asterisk, PrefixExpression(PrefixOperator.Minus, Num(5)), Num(5));
            AllPrintable([ExpressionSource(first)]) && Printable(second) &&
            Lower([ExpressionSource(first)]) + Print(second) ==
              [Int("3"), Token.Plus, Int("4"), Semicolon, Token.Minus, Int("5"), Token.Asterisk, Int("5")] &&
            Meanings([ExpressionSource(first)]) == [ExpressionStatement(first)]
  {
    var first := InfixExpression(InfixOperator.Plus, Num(3), Num(4));
    var second := InfixExpression(InfixOperator.Asterisk, PrefixExpression(PrefixOperator.Minus, Num(5)), Num(5));
    assert Print(first) == [Int("3"), Token.Plus, Int("4")];
    assert Print(second) == [Token.Minus, Int("5"), Token.Asterisk, Int("5")];
    assert [ExpressionSource(first)][1..] == [];
    hide Print, Lower, Meanings;
    LowerUnfold([ExpressionSource(first)]);
    LowerUnfold([]);
  }

  /** `3 + 4; -5 * 5` is two statements, `(3 + 4)` and `((-5) * 5)`. */
  lemma SemicolonSeparatesStatements()
    ensures ParseProgram([Int("3"), Token.Plus, Int("4"), Semicolon, Token.Minus, Int("5"), Token.Asterisk, Int("5")], 0) ==
            ProgramOutcome([ExpressionStatement(InfixExpression(InfixOperator.Plus, Num(3), Num(4))),
                            ExpressionStatement(InfixExpression(InfixOperator.Asterisk,
                                                                PrefixExpression(PrefixOperator.Minus, Num(5)), Num(5)))], 8, [])
  {
    hide *;
    SeparatedStatementsWritten();
    ProgramWithFinalExpression([ExpressionSource(InfixExpression(InfixOperator.Plus, Num(3), Num(4)))],
                               InfixExpression(InfixOperator.Asterisk, PrefixExpression(PrefixOperator.Minus, Num(5)), Num(5)));
  }

  lemma LiteralTexts()
    ensures DecimalText(5) == "5" && DecimalText(10) == "10"
    ensures DecimalText(838383) == "838383" && DecimalText(993322) == "993322"
  {
  }

  lemma LetLowered(name: string, n: i64, text: string)
    requires n >= 0 && DecimalText(n as int) == text
    ensures PrintableSource(LetSource(name, Num(n)))
    ensures LowerStatement(LetSource(name, Num(n))) == [Let, Ident(name), Assign, Int(text), Semicolon]
  {
  }

  lemma ReturnLowered(n: i64, text: string)
    requires n >= 0 && DecimalText(n as int) == text
    ensures PrintableSource(ReturnSource(Num(n)))
    ensures LowerStatement(ReturnSource(Num(n))) == [Return, Int(text), Semicolon]
  {
  }

  lemma LetStatementsWritten()
    ensures var ss := [LetSource("x", Num(5)), LetSource("y", Num(10)), LetSource("foobar", Num(838383))];
            AllPrintable(ss) &&
            Lower(ss) == [Let, Ident("x"), Assign, Int("5"), Semicolon] +
                         [Let, Ident("y"), Assign, Int("10"), Semicolon] +
                         [Let, Ident("foobar"), Assign, Int("838383"), Semicolon] &&
            Meanings(ss) == [LetStatement("x"), LetStatement("y"), LetStatement("foobar")]
  {
    LiteralTexts();
    var ss := [LetSource("x", Num(5)), LetSource("y", Num(10)), LetSource("foobar", Num(838383))];
    assert ss[1..] == [ss[1], ss[2]] && ss[1..][1..] == [ss[2]] && ss[1..][1..][1..] == [];
    LetLowered("x", 5, "5");
    LetLowered("y", 10, "10");
    LetLowered("foobar", 838383, "838383");
    hide DecimalText, Lower, Meanings, LowerStatement;
    LowerUnfold(ss);
    LowerUnfold(ss[1..]);
    LowerUnfold(ss[1..][1..]);
    LowerUnfold(ss[1..][1..][1..]);
    AppendAssociative(LowerStatement(ss[0]), LowerStatement(ss[1]), LowerStatement(ss[2]));
  }

  /** `let x = 5; let y = 10; let foobar = 838383;` is three let statements binding `x`, `y` and `foobar`. */
  lemma LetStatements()
    ensures ParseProgram([Let, Ident("x"), Assign, Int("5"), Semicolon] +
                         [Let, Ident("y"), Assign, Int("10"), Semicolon] +
                         [Let, Ident("foobar"), Assign, Int("838383"), Semicolon], 0) ==
            ProgramOutcome([LetStatement("x"), LetStatement("y"), LetStatement("foobar")], 15, [])
  {
    hide *;
    LetStatementsWritten();
    ProgramRoundTrip([LetSource("x", Num(5)), LetSource("y", Num(10)), LetSource("foobar", Num(838383))]);
  }

  lemma ReturnStatementsWritten()
    ensures var ss := [ReturnSource(Num(5)), ReturnSource(Num(10)), ReturnSource(Num(993322))];
            AllPrintable(ss) &&
            Lower(ss) == [Return, Int("5"), Semicolon] +
                         [Return, Int("10"), Semicolon] +
                         [Return, Int("993322"), Semicolon] &&
            Meanings(ss) == [ReturnStatement, ReturnStatement, ReturnStatement]
  {
    LiteralTexts();
    var ss := [ReturnSource(Num(5)), ReturnSource(Num(10)), ReturnSource(Num(993322))];
    assert ss[1..] == [ss[1], ss[2]] && ss[1..][1..] == [ss[2]] && ss[1..][1..][1..] == [];
    ReturnLowered(5, "5");
    ReturnLowered(10, "10");
    ReturnLowered(993322, "993322");
    hide DecimalText, Lower, Meanings, LowerStatement;
    LowerUnfold(ss);
    LowerUnfold(ss[1..]);
    LowerUnfold(ss[1..][1..]);
    LowerUnfold(ss[1..][1..][1..]);
    AppendAssociative(LowerStatement(ss[0]), LowerStatement(ss[1]), LowerStatement(ss[2]));
  }

  /** `return 5; return 10; return 993322;` is three return statements. */
  lemma ReturnStatements()
    ensures ParseProgram([Return, Int("5"), Semicolon] +
                         [Return, Int("10"), Semicolon] +
                         [Return, Int("993322"), Semicolon], 0) ==
            ProgramOutcome([ReturnStatement, ReturnStatement, ReturnStatement], 9, [])
  {
    hide *;
    ReturnStatementsWritten();
    ProgramRoundTrip([ReturnSource(Num(5)), ReturnSource(Num(10)), ReturnSource(Num(993322))]);
  }

  lemma LetWithoutAssignStatement(tokens: seq<Token>)
    requires tokens == [Let, Ident("x"), Int("5"), Semicolon]
    ensures ParseStatement(tokens, 0) == Parsed(None, 1, [ExpectedNext(Assign, Int("5"))])
  {
    hide ParseProgram, ParseReturnStatement, ParseExpressionStatement, ParseExpression;
  }

  lemma LetWithoutAssignRest(tokens: seq<Token>)
    requires tokens == [Let, Ident("x"), Int("5"), Semicolon]
    ensures ParseProgram(tokens, 2) == ProgramOutcome([ExpressionStatement(Num(5))], 4, [])
  {
    assert Print(Num(5)) == [Int("5")];
    hide ParseProgram, ParseStatement, ParseExpression, PrefixPart, InfixLoop,
         ParsePrefixExpression, ParseInfixExpression, ParseGroupedExpression, Print;
    assert At(tokens, 2, Print(Num(5)) + [Semicolon]);
    ExpressionStatementRoundTrip(tokens, 2, Num(5));
    ProgramStep(tokens, 2);
    ProgramStep(tokens, 4);
  }

  /**
   * `let x 5;`: the missing `=` is reported once, the let statement is
   * dropped, and the parser goes on to read `5;` as an expression statement.
   */
  lemma LetWithoutAssign()
    ensures ParseProgram([Let, Ident("x"), Int("5"), Semicolon], 0) ==
            ProgramOutcome([ExpressionStatement(Num(5))], 4, [ExpectedNext(Assign, Int("5"))])
  {
    var tokens := [Let, Ident("x"), Int("5"), Semicolon];
    hide ParseProgram, ParseStatement;
    LetWithoutAssignStatement(tokens);
    LetWithoutAssignRest(tokens);
    ProgramStep(tokens, 0);
  }

  lemma PrintedFivePlusFive()
    ensures Print(InfixExpression(InfixOperator.Plus, Num(5), Num(5))) == [Int("5"), Token.Plus, Int("5")]
  {
  }

  lemma GroupMissingCloseStatement(tokens: seq<Token>)
    requires tokens == [LParen, Int("5"), Token.Plus, Int("5")]
    ensures ParseStatement(tokens, 0) == Parsed(None, 3, [ExpectedNext(RParen, Eof)])
  {
    var inner := InfixExpression(InfixOperator.Plus, Num(5), Num(5));
    hide ParseProgram, ParseStatement, ParseLetStatement, ParseReturnStatement, ParseExpressionStatement, ParseExpression,
         PrefixPart, InfixLoop, ParsePrefixExpression, ParseInfixExpression, ParseGroupedExpression, Print;
    PrintedFivePlusFive();
    assert At(tokens, 1, Print(inner));
    PrintedOperand(tokens, 1, inner, false, Lowest);
    GroupWithoutClose(tokens, 0);
    InfixLoopStep(tokens, 3, Lowest, None);
    ExpressionUnfold(tokens, 0, Lowest);
    ExpressionStatementShape(tokens, 0);
  }

  /** `(5 + 5` with no `)`: one diagnostic naming the `Eof` found instead, and no statement. */
  lemma GroupMissingClose()
    ensures ParseProgram([LParen, Int("5"), Token.Plus, Int("5")], 0) ==
            ProgramOutcome([], 4, [ExpectedNext(RParen, Eof)])
  {
    var tokens := [LParen, Int("5"), Token.Plus, Int("5")];
    hide ParseProgram, ParseStatement;
    GroupMissingCloseStatement(tokens);
    ProgramStep(tokens, 0);
    ProgramStep(tokens, 4);
  }

  lemma UnknownPrefixParts(tokens: seq<Token>)
    requires tokens == [Token.Plus, Int("5")]
    ensures ParseStatement(tokens, 0) == Parsed(None, 0, [NoPrefixParseFn(Token.Plus)])
    ensures ParseProgram(tokens, 1) == ProgramOutcome([ExpressionStatement(Num(5))], 2, [])
  {
    assert Print(Num(5)) == [Int("5")];
    hide ParseProgram, ParseExpression, PrefixPart, InfixLoop, ParsePrefixExpression, ParseInfixExpression, ParseGroupedExpression, Print;
    UnknownPrefixToken(tokens, 0, Lowest);
    assert At(tokens, 1, Print(Num(5)));
    FinalExpression(tokens, 1, Num(5));
  }

  /**
   * `+5`: no rule starts an expression with `+`, so that attempt is
   * reported and dropped; the next iteration reads `5` on its own.
   */
  lemma UnknownPrefixIsDropped()
    ensures ParseProgram([Token.Plus, Int("5")], 0) ==
            ProgramOutcome([ExpressionStatement(Num(5))], 2, [NoPrefixParseFn(Token.Plus)])
  {
    var tokens := [Token.Plus, Int("5")];
    hide ParseProgram, ParseStatement;
    UnknownPrefixParts(tokens);
    ProgramStep(tokens, 0);
  }
}
