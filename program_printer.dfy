/**
 * Statements and programs written out as tokens, and the proof that the
 * parser reads every such program back: one statement per source
 * statement, in order, with no diagnostics. A `let` or `return` keeps
 * nothing of its value, because the parser skips the value's tokens.
 */
module ProgramPrinter {
  import opened Wrappers
  import opened Tokens
  import opened Ast
  import opened ParserSpec
  import opened ParserLaws
  import opened Printer

  /** A statement as written in the source text. */
  datatype SourceStatement =
    | LetSource(name: string, value: Expression)
    | ReturnSource(value: Expression)
    | ExpressionSource(expression: Expression)

  predicate PrintableSource(s: SourceStatement) {
    match s
    case LetSource(_, v) => Printable(v)
    case ReturnSource(v) => Printable(v)
    case ExpressionSource(e) => Printable(e)
  }

  predicate AllPrintable(ss: seq<SourceStatement>) {
    ss == [] || (PrintableSource(ss[0]) && AllPrintable(ss[1..]))
  }

  /** The tokens of one statement, each closed by a semicolon. */
  function LowerStatement(s: SourceStatement): (ts: seq<Token>)
    requires PrintableSource(s)
    ensures |ts| > 1 && ts[|ts| - 1] == Semicolon
  {
    match s
    case LetSource(name, v) => [Let, Ident(name), Assign] + Print(v) + [Semicolon]
    case ReturnSource(v) => [Return] + Print(v) + [Semicolon]
    case ExpressionSource(e) => Print(e) + [Semicolon]
  }

  /** The statement the parser is meant to build for `s`. */
  function Meaning(s: SourceStatement): Statement {
    match s
    case LetSource(name, _) => LetStatement(name)
    case ReturnSource(_) => ReturnStatement
    case ExpressionSource(e) => ExpressionStatement(e)
  }

  function Lower(ss: seq<SourceStatement>): (ts: seq<Token>)
    requires AllPrintable(ss)
  {
    if ss == [] then [] else LowerStatement(ss[0]) + Lower(ss[1..])
  }

  function Meanings(ss: seq<SourceStatement>): (r: Program)
    ensures |r| == |ss|
  {
    if ss == [] then [] else [Meaning(ss[0])] + Meanings(ss[1..])
  }

  /** The semicolon scan crosses any run of tokens that holds no semicolon and no `Eof`. */
  lemma {:induction false} SkipOver(tokens: seq<Token>, pos: nat, ts: seq<Token>)
    requires At(tokens, pos, ts + [Semicolon])
    requires AllInExpression(ts)
    ensures SkipToSemicolon(tokens, pos) == pos + |ts|
    decreases |ts|
  {
    AtToken(tokens, pos, ts + [Semicolon], 0);
    if ts != [] {
      assert ts[0] in ts;
      assert forall t | t in ts[1..] :: t in ts;
      assert ts + [Semicolon] == [ts[0]] + (ts[1..] + [Semicolon]);
      AtSplit(tokens, pos, [ts[0]], ts[1..] + [Semicolon]);
      SkipOver(tokens, pos + 1, ts[1..]);
    }
  }

  /** The first token of a printed expression, which no statement keyword can be. */
  lemma FirstOfPrint(tokens: seq<Token>, pos: nat, e: Expression)
    requires Printable(e) && At(tokens, pos, Print(e))
    ensures InExpression(TokenAt(tokens, pos))
  {
    PrintedTokens(e);
    AtToken(tokens, pos, Print(e), 0);
    assert Print(e)[0] in Print(e);
  }

  /** A `let` followed by an identifier and `=` is a let statement ending where the semicolon scan stops. */
  lemma LetStatementOf(tokens: seq<Token>, pos: nat, name: string)
    requires pos + 2 < |tokens|
    requires TokenAt(tokens, pos) == Let && TokenAt(tokens, pos + 1) == Ident(name) && TokenAt(tokens, pos + 2) == Assign
    ensures ParseStatement(tokens, pos) == Parsed(Some(LetStatement(name)), SkipToSemicolon(tokens, pos + 2), [])
  {
    hide ParseProgram, ParseExpression, PrefixPart, InfixLoop, ParsePrefixExpression, ParseInfixExpression, ParseGroupedExpression,
         ParseExpressionStatement, ParseReturnStatement, SkipToSemicolon;
    assert ParseStatement(tokens, pos) == ParseLetStatement(tokens, pos);
  }

  /** The tokens of `let name = value;` as the let rule reads them, and where its scan stops. */
  lemma LetScan(tokens: seq<Token>, pos: nat, name: string, v: Expression)
    requires Printable(v) && At(tokens, pos, LowerStatement(LetSource(name, v)))
    ensures pos + 2 < |tokens|
    ensures TokenAt(tokens, pos) == Let && TokenAt(tokens, pos + 1) == Ident(name) && TokenAt(tokens, pos + 2) == Assign
    ensures SkipToSemicolon(tokens, pos + 2) == pos + |Print(v)| + 3
  {
    hide ParseStatement, ParseLetStatement, ParseProgram, ParseExpression, PrefixPart, InfixLoop, ParsePrefixExpression,
         ParseInfixExpression, ParseGroupedExpression, Print, SkipToSemicolon;
    var body := [Assign] + Print(v);
    assert LowerStatement(LetSource(name, v)) == [Let, Ident(name)] + (body + [Semicolon]);
    AtSplit(tokens, pos, [Let, Ident(name)], body + [Semicolon]);
    AtToken(tokens, pos, [Let, Ident(name)], 0);
    AtToken(tokens, pos, [Let, Ident(name)], 1);
    AtToken(tokens, pos + 2, body + [Semicolon], 0);
    PrintedTokens(v);
    JoinInExpression([Assign], Print(v));
    SkipOver(tokens, pos + 2, body);
  }

  /** `let name = value;` becomes a let statement that keeps only the name; `cur` ends on the semicolon. */
  lemma LetRoundTrip(tokens: seq<Token>, pos: nat, name: string, v: Expression)
    requires Printable(v) && At(tokens, pos, LowerStatement(LetSource(name, v)))
    ensures TokenAt(tokens, pos) == Let
    ensures ParseStatement(tokens, pos) == Parsed(Some(LetStatement(name)), pos + |Print(v)| + 3, [])
  {
    hide *;
    LetScan(tokens, pos, name, v);
    LetStatementOf(tokens, pos, name);
  }

  /** `return value;` becomes a return statement; `cur` ends on the semicolon. */
  lemma ReturnRoundTrip(tokens: seq<Token>, pos: nat, v: Expression)
    requires Printable(v) && At(tokens, pos, LowerStatement(ReturnSource(v)))
    ensures TokenAt(tokens, pos) == Return
    ensures ParseStatement(tokens, pos) == Parsed(Some(ReturnStatement), pos + |Print(v)| + 1, [])
  {
    hide ParseProgram, ParseExpression, PrefixPart, InfixLoop, ParsePrefixExpression, ParseInfixExpression, ParseGroupedExpression, Print;
    assert LowerStatement(ReturnSource(v)) == [Return] + (Print(v) + [Semicolon]);
    AtSplit(tokens, pos, [Return], Print(v) + [Semicolon]);
    AtToken(tokens, pos, [Return], 0);
    PrintedTokens(v);
    SkipOver(tokens, pos + 1, Print(v));
  }

  /** `e;` becomes an expression statement holding `e`; `cur` ends on the semicolon. */
  lemma ExpressionStatementRoundTrip(tokens: seq<Token>, pos: nat, e: Expression)
    requires Printable(e) && At(tokens, pos, LowerStatement(ExpressionSource(e)))
    ensures InExpression(TokenAt(tokens, pos))
    ensures ParseStatement(tokens, pos) == Parsed(Some(ExpressionStatement(e)), pos + |Print(e)|, [])
  {
    hide ParseProgram, ParseExpression, PrefixPart, InfixLoop, ParsePrefixExpression, ParseInfixExpression, ParseGroupedExpression, Print;
    AtSplit(tokens, pos, Print(e), [Semicolon]);
    AtToken(tokens, pos + |Print(e)|, [Semicolon], 0);
    FirstOfPrint(tokens, pos, e);
    PrintedOperand(tokens, pos, e, false, Lowest);
  }

  /**
   * Each statement form parses back to its meaning with no diagnostics,
   * leaving `cur` on the closing semicolon.
   */
  lemma StatementRoundTrip(tokens: seq<Token>, pos: nat, s: SourceStatement)
    requires PrintableSource(s) && At(tokens, pos, LowerStatement(s))
    ensures TokenAt(tokens, pos) != Eof
    ensures ParseStatement(tokens, pos) == Parsed(Some(Meaning(s)), pos + |LowerStatement(s)| - 1, [])
  {
    hide ParseStatement, Print, At;
    match s
    case LetSource(name, v) => LetRoundTrip(tokens, pos, name, v);
    case ReturnSource(v) => ReturnRoundTrip(tokens, pos, v);
    case ExpressionSource(e) => ExpressionStatementRoundTrip(tokens, pos, e);
  }

  /** The driver keeps the statement it reads at `pos` and goes on after its semicolon. */
  lemma ProgramAfterStatement(tokens: seq<Token>, pos: nat, s: SourceStatement)
    requires PrintableSource(s) && At(tokens, pos, LowerStatement(s))
    ensures var rest := ParseProgram(tokens, pos + |LowerStatement(s)|);
            ParseProgram(tokens, pos) == ProgramOutcome([Meaning(s)] + rest.statements, rest.pos, rest.errs)
  {
    hide *;
    AtBound(tokens, pos, LowerStatement(s));
    StatementRoundTrip(tokens, pos, s);
    ProgramStep(tokens, pos);
    assert [] + ParseProgram(tokens, pos + |LowerStatement(s)|).errs == ParseProgram(tokens, pos + |LowerStatement(s)|).errs;
  }

  lemma LowerUnfold(ss: seq<SourceStatement>)
    requires AllPrintable(ss)
    ensures ss == [] ==> Lower(ss) == [] && Meanings(ss) == []
    ensures ss != [] ==> PrintableSource(ss[0]) && AllPrintable(ss[1..]) &&
                         Lower(ss) == LowerStatement(ss[0]) + Lower(ss[1..]) &&
                         Meanings(ss) == [Meaning(ss[0])] + Meanings(ss[1..])
  {
  }

  /**
   * A run of written statements parses to their meanings, in order and
   * with no diagnostics, and the driver goes on right after the last
   * semicolon.
   */
  lemma {:induction false} StatementsRoundTrip(tokens: seq<Token>, pos: nat, ss: seq<SourceStatement>)
    requires AllPrintable(ss)
    requires At(tokens, pos, Lower(ss))
    ensures var rest := ParseProgram(tokens, pos + |Lower(ss)|);
            ParseProgram(tokens, pos) == ProgramOutcome(Meanings(ss) + rest.statements, rest.pos, rest.errs)
    decreases |ss|
  {
    hide *;
    AtBound(tokens, pos, Lower(ss));
    LowerUnfold(ss);
    if ss == [] {
      assert Meanings(ss) + ParseProgram(tokens, pos).statements == ParseProgram(tokens, pos).statements;
    } else {
      AtSplit(tokens, pos, LowerStatement(ss[0]), Lower(ss[1..]));
      ProgramAfterStatement(tokens, pos, ss[0]);
      StatementsRoundTrip(tokens, pos + |LowerStatement(ss[0])|, ss[1..]);
      AppendAssociative([Meaning(ss[0])], Meanings(ss[1..]), ParseProgram(tokens, pos + |Lower(ss)|).statements);
    }
  }

  /** A whole program of written statements parses to their meanings with no diagnostics. */
  lemma ProgramRoundTrip(ss: seq<SourceStatement>)
    requires AllPrintable(ss)
    ensures ParseProgram(Lower(ss), 0) == ProgramOutcome(Meanings(ss), |Lower(ss)|, [])
  {
    hide *;
    AtWhole(Lower(ss));
    StatementsRoundTrip(Lower(ss), 0, ss);
    ProgramStep(Lower(ss), |Lower(ss)|);
    assert Meanings(ss) + [] == Meanings(ss);
  }

  /** An expression as the last thing in the input needs no semicolon. */
  lemma FinalExpression(tokens: seq<Token>, pos: nat, e: Expression)
    requires Printable(e) && At(tokens, pos, Print(e)) && pos + |Print(e)| == |tokens|
    ensures ParseProgram(tokens, pos) == ProgramOutcome([ExpressionStatement(e)], |tokens|, [])
  {
    hide ParseProgram, ParseExpression, PrefixPart, InfixLoop, ParsePrefixExpression, ParseInfixExpression, ParseGroupedExpression, Print, At;
    FirstOfPrint(tokens, pos, e);
    PrintedOperand(tokens, pos, e, false, Lowest);
    ProgramStep(tokens, pos);
    ProgramStep(tokens, |tokens|);
  }

  /** Written statements followed by an expression without a semicolon. */
  lemma ProgramWithFinalExpression(ss: seq<SourceStatement>, e: Expression)
    requires AllPrintable(ss)
    requires Printable(e)
    ensures var tokens := Lower(ss) + Print(e);
            ParseProgram(tokens, 0) == ProgramOutcome(Meanings(ss) + [ExpressionStatement(e)], |tokens|, [])
  {
    hide *;
    AtWhole(Lower(ss) + Print(e));
    AtSplit(Lower(ss) + Print(e), 0, Lower(ss), Print(e));
    StatementsRoundTrip(Lower(ss) + Print(e), 0, ss);
    FinalExpression(Lower(ss) + Print(e), |Lower(ss)|, e);
  }
}
