/**
 * The semicolon scans of `parse_let_statement` and `parse_return_statement`
 * as they are written: they step until `cur` is `Semicolon` and have no
 * other exit. Once the lexer is used up it hands out `Eof` forever, so a
 * `let` or `return` with no semicolon after it never stops. ParserSpec
 * models the evidently intended scan, SkipToSemicolon, which also stops
 * at `Eof`; the lemmas below show where the two differ and that they agree
 * wherever the scan as written does stop.
 */
module Findings {
  import opened Wrappers
  import opened Tokens
  import opened Ast
  import opened ParserSpec

  /**
   * The scan as written, run for at most `fuel` steps: `Some(k)` when it
   * stops with `cur` at position `k`, `None` when it is still stepping.
   */
  function ScanAsWritten(tokens: seq<Token>, pos: nat, fuel: nat): (r: Option<nat>)
    ensures r.Some? ==> pos <= r.value <= pos + fuel && TokenAt(tokens, r.value) == Semicolon
    decreases fuel
  {
    if TokenAt(tokens, pos) == Semicolon then Some(pos)
    else if fuel == 0 then None
    else ScanAsWritten(tokens, pos + 1, fuel - 1)
  }

  /** With no semicolon left at or after `pos`, the scan as written never stops, however long it runs. */
  lemma {:induction false} NoSemicolonNoStop(tokens: seq<Token>, pos: nat, fuel: nat)
    requires forall k :: pos <= k < |tokens| ==> tokens[k] != Semicolon
    ensures ScanAsWritten(tokens, pos, fuel) == None
    decreases fuel
  {
    assert TokenAt(tokens, pos) != Semicolon by {
      if pos < |tokens| {
        assert tokens[pos] != Semicolon;
      }
    }
    if fuel > 0 {
      NoSemicolonNoStop(tokens, pos + 1, fuel - 1);
    }
  }

  /** `return 5` at the end of the input: the scan as written starts on `5` and never stops. */
  lemma ReturnWithoutSemicolonNeverStops(fuel: nat)
    ensures ScanAsWritten([Return, Int("5")], 1, fuel) == None
  {
    NoSemicolonNoStop([Return, Int("5")], 1, fuel);
  }

  /** The same input with the scan that also stops at `Eof`: one return statement and no diagnostics. */
  lemma ReturnWithoutSemicolonParses()
    ensures ParseReturnStatement([Return, Int("5")], 0) == Parsed(Some(ReturnStatement), 2, [])
    ensures ParseProgram([Return, Int("5")], 0) == ProgramOutcome([ReturnStatement], 3, [])
  {
    var tokens := [Return, Int("5")];
    assert ParseStatement(tokens, 0) == Parsed(Some(ReturnStatement), 2, []) by {
      hide ParseExpressionStatement, ParseLetStatement, ParseExpression, ParseProgram;
      assert TokenAt(tokens, 0) == Return && TokenAt(tokens, 1) == Int("5") && TokenAt(tokens, 2) == Eof;
      assert SkipToSemicolon(tokens, 2) == 2;
      assert SkipToSemicolon(tokens, 1) == 2;
    }
    hide ParseStatement, ParseExpressionStatement, ParseLetStatement, ParseExpression;
    ProgramStep(tokens, 0);
    ProgramStep(tokens, 3);
  }

  /** `let x = 5` at the end of the input: the scan as written starts on `=` and never stops. */
  lemma LetWithoutSemicolonNeverStops(fuel: nat)
    ensures ScanAsWritten([Let, Ident("x"), Assign, Int("5")], 2, fuel) == None
  {
    NoSemicolonNoStop([Let, Ident("x"), Assign, Int("5")], 2, fuel);
  }

  /** The same input with the scan that also stops at `Eof`: one let statement binding `x`, no diagnostics. */
  lemma LetWithoutSemicolonParses()
    ensures ParseLetStatement([Let, Ident("x"), Assign, Int("5")], 0) == Parsed(Some(LetStatement("x")), 4, [])
  {
    var tokens := [Let, Ident("x"), Assign, Int("5")];
    hide ParseExpressionStatement, ParseExpression;
    assert SkipToSemicolon(tokens, 2) == 4 by {
      assert TokenAt(tokens, 2) == Assign && TokenAt(tokens, 3) == Int("5") && TokenAt(tokens, 4) == Eof;
      assert SkipToSemicolon(tokens, 4) == 4;
      assert SkipToSemicolon(tokens, 3) == 4;
    }
  }

  /** On a lexer's output, wherever the scan as written stops, the corrected scan stops at the same place. */
  lemma {:induction false} CorrectedScanAgrees(tokens: seq<Token>, pos: nat, fuel: nat)
    requires LexerOutput(tokens)
    requires pos <= |tokens| && ScanAsWritten(tokens, pos, fuel).Some?
    ensures SkipToSemicolon(tokens, pos) == ScanAsWritten(tokens, pos, fuel).value
    decreases fuel
  {
    if TokenAt(tokens, pos) != Semicolon {
      assert pos < |tokens| && TokenAt(tokens, pos) == tokens[pos];
      CorrectedScanAgrees(tokens, pos + 1, fuel - 1);
    }
  }

  /**
   * Conversely, where the corrected scan finds a semicolon, the scan as
   * written reaches it within as many steps as tokens remain.
   */
  lemma {:induction false} ScanAsWrittenReaches(tokens: seq<Token>, pos: nat)
    requires pos <= |tokens| && TokenAt(tokens, SkipToSemicolon(tokens, pos)) == Semicolon
    ensures ScanAsWritten(tokens, pos, |tokens| - pos) == Some(SkipToSemicolon(tokens, pos))
    decreases |tokens| - pos
  {
    if TokenAt(tokens, pos) != Semicolon {
      assert TokenAt(tokens, pos) != Eof;
      ScanAsWrittenReaches(tokens, pos + 1);
    }
  }
}
