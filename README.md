# A verified model of the interpreter-rs Pratt parser

This project models `src/parser.rs` of interpreter-rs. That file holds the parser of a small
Monkey-style language. A `Parser` object reads tokens from a lexer through a two-token window
(`cur` and `peek`). It builds a `Program` of `let`, `return` and expression statements. It
collects diagnostics instead of stopping. Expressions are parsed by precedence climbing
(a Pratt parser). Seven precedence levels run from `Lowest` to `Call`. There are two prefix
operators (`!` and `-`) and eight binary operators. Parentheses group.

The model has two layers, one per form the source takes:

- **Imperative layer (`parser.dfy`, class `Parsing.Parser`).**
  - The class has the source's fields: `cur`, `peek` and the append-only `errors`.
  - The lexer becomes the sequence `tokens` it hands out, with a position `pos`. Past the end
    of the sequence the lexer returns `Eof` forever.
  - Every method of the source that changes the parser's state is a method of the class, with
    the source's loops and branches. There are two exceptions, both listed under "Left out":
    the semicolon scans also stop at `Eof`, and the infix loop has no counterpart of its
    unreachable fallback arm.
  - The literal parsers `parse_identifier`, `parse_integer_literal` and `parse_boolean_literal`
    only read `cur`, so they are functions of `ParserSpec` applied to `cur`. The queries
    `cur_token_is`, `peek_token_is`, `peek_precedence` and `cur_precedence` are functions
    of the class.
  - `parse_expression` is split into two methods. `PrefixPart` is the `match` on `cur` that
    starts it. `InfixLoop` is the `while` loop that folds binary operators.
  - Each parse method is proved to return what its `ParserSpec` counterpart computes. The
    counterpart has the same name, except that `Parse` has `ParseProgram`. It leaves `cur` where that function says. It appends exactly that function's
    diagnostics to `errors`. The other methods have contracts of their own: the constructor,
    `NextToken`, `PeekError`, `ErrorsLen` and `GetErrors`.
- **Value layer (`parser_spec.dfy`, module `ParserSpec`).**
  - Every parse function is restated on values: `(tokens, pos)` goes to
    `Parsed(value, pos, errs)`.
  - What the parser promises is proved about these functions:
    - the precedence table, and what failures do (`ParserLaws`);
    - the expression round trip: every tree, printed with minimal parentheses, parses back to
      itself with no diagnostics, so left associativity, operator binding, prefix binding and
      grouping hold for all inputs (`Printer`);
    - the round trip for whole programs of statements (`ProgramPrinter`);
    - the inputs of the source's own tests (`ParserCases`).

A `let` statement keeps only the name it binds. A `return` keeps nothing. The source skips the
tokens of their values, and so does the model. Integer literals follow Rust's
`str::parse::<i64>` (`IntegerText`). A literal that does not fit in 64 bits gives no
expression and no diagnostic.

Three points about the code shape the model:

- The scans after `let` and `return` (src/parser.rs:89-91 and 98-100) stop only at `;`.
  With no `;` left in the input they never stop (see Findings).
- The identifier check after `let` (src/parser.rs:75-84) builds its own diagnostic. It does
  not call `expect_peek`. The model gives it its own diagnostic kind, `ExpectedIdent`.
- The `_ => return left` arm of the infix loop (src/parser.rs:152) can never be reached
  (`ParserLaws.OnlyOperatorsBind`).

## Model

| member | source | states |
|---|---|---|
| `Tokens.TokenAt` | src/parser.rs:243-246 | past the end of the lexer's output the lexer hands out `Eof`; any other token lies inside the output |
| `Parsing.Parser.constructor` | src/parser.rs:28-38 | a new parser has `cur` and `peek` on the lexer's first two tokens and no diagnostics |
| `Parsing.Parser.NextToken` | src/parser.rs:243-246 | `cur` becomes the old `peek`, the window moves one token on, the diagnostics are unchanged |
| `Parsing.Parser.PeekPrecedence` | src/parser.rs:274-286 | a peek token binds with a strength above `Lowest` exactly when it is a binary operator, and then with that operator's precedence |
| `Parsing.Parser.CurPrecedence` | src/parser.rs:288-300 | the same table at `cur`; it agrees with `peek_precedence` whenever `cur` and `peek` are the same token |
| `Parsing.Parser.ErrorsLen` | src/parser.rs:53-55 | returns the number of diagnostics recorded |
| `Parsing.Parser.GetErrors` | src/parser.rs:57-59 | returns the recorded diagnostics, in order |
| `Parsing.Parser.PeekError` | src/parser.rs:266-272 | appends exactly one diagnostic naming the expected token and the actual peek; nothing else changes |
| `Parsing.Parser.ExpectPeek` | src/parser.rs:256-264 | on a matching peek it steps onto it and records nothing; otherwise it returns false, keeps `cur` and `peek`, and appends exactly one diagnostic |
| `Parsing.Parser.Parse` | src/parser.rs:40-51 | the driver ends with `cur` on `Eof`; it returns the statements `ParseProgram` keeps, in source order, and appends its diagnostics |
| `Parsing.Parser.ParseStatement` | src/parser.rs:61-67 | computes `ParserSpec.ParseStatement` of the state on entry: its result, where it leaves `cur`, the diagnostics it appends |
| `Parsing.Parser.ParseLetStatement` | src/parser.rs:69-93 | computes `ParserSpec.ParseLetStatement`; the semicolon scan is a loop proved to stop where `SkipToSemicolon` says |
| `Parsing.Parser.ParseReturnStatement` | src/parser.rs:95-102 | computes `ParserSpec.ParseReturnStatement`, with the same scan |
| `Parsing.Parser.ParseExpressionStatement` | src/parser.rs:104-119 | computes `ParserSpec.ParseExpressionStatement` |
| `Parsing.Parser.ParseExpression` | src/parser.rs:121-156 | computes `ParserSpec.ParseExpression`: the prefix part followed by the infix loop |
| `Parsing.Parser.PrefixPart` | src/parser.rs:122-133 | computes `ParserSpec.PrefixPart`: one rule per token kind, and one diagnostic for a token with no rule |
| `Parsing.Parser.InfixLoop` | src/parser.rs:135-155 | the `while` loop computes `ParserSpec.InfixLoop`; its invariant ties the state to the rest of the loop still to run |
| `Parsing.Parser.ParsePrefixExpression` | src/parser.rs:188-205 | computes `ParserSpec.ParsePrefixExpression` |
| `Parsing.Parser.ParseInfixExpression` | src/parser.rs:207-232 | computes `ParserSpec.ParseInfixExpression` |
| `Parsing.Parser.ParseGroupedExpression` | src/parser.rs:234-241 | computes `ParserSpec.ParseGroupedExpression` |
| `IntegerText.ParseI64` | src/parser.rs:170-180 | on digit-only text that is not empty, the conversion succeeds exactly when the value is at most 2^63-1, and then gives that value |
| `IntegerText.I64RoundTrip` | src/parser.rs:170-180 | the text of every 64-bit value, sign included, converts back to that value |
| `IntegerText.DecimalRoundTrip` | src/parser.rs:170-180 | the shortest decimal text of every natural number denotes that number |
| `ParserSpec.PrecedenceOf` | src/parser.rs:274-300 | a binary operator token has its operator's precedence; every other token has `Lowest`; no token reaches `Prefix` |
| `ParserSpec.ParseIdentifier` | src/parser.rs:158-168 | an identifier token becomes an identifier node holding the token's text |
| `ParserSpec.ParseBooleanLiteral` | src/parser.rs:182-186 | a boolean node, true exactly when the token is `true` |
| `ParserSpec.ParseIntegerLiteral` | src/parser.rs:170-180 | gives an integer node exactly when the digits fit in 64 bits, holding their value |
| `ParserSpec.ExpectPeek` | src/parser.rs:256-264 | succeeds exactly when the peek token is the expected one, and then leaves `cur` on it with no diagnostic; otherwise `cur` stays and exactly one diagnostic names the expected and the actual peek token |
| `ParserSpec.ParseExpression` | src/parser.rs:121-156 | the parse never moves backwards or past the input; a result comes with no diagnostics |
| `ParserSpec.PrefixPart` | src/parser.rs:122-133 | the same bounds; a result comes with no diagnostics |
| `ParserSpec.InfixLoop` | src/parser.rs:135-155 | the same bounds; the loop produces a result only if it was given a left operand |
| `ParserSpec.ParsePrefixExpression` | src/parser.rs:188-205 | bounds; a result comes with no diagnostics |
| `ParserSpec.ParseInfixExpression` | src/parser.rs:207-232 | bounds; a result comes with no diagnostics |
| `ParserSpec.ParseGroupedExpression` | src/parser.rs:234-241 | bounds; a result comes with no diagnostics |
| `ParserSpec.SkipToSemicolon` | src/parser.rs:89-91 | the scan stops on the first `;` or `Eof` at or after its start, and crosses neither before it |
| `ParserSpec.ParseLetStatement` | src/parser.rs:69-93 | succeeds exactly when an identifier and `=` follow `let`, and then binds that identifier with no diagnostics; each failed check records exactly one diagnostic and leaves `cur` where it was made |
| `ParserSpec.ParseReturnStatement` | src/parser.rs:95-102 | always gives a return statement with no diagnostics, and stops on `;` or `Eof` |
| `ParserSpec.ParseExpressionStatement` | src/parser.rs:104-119 | a result is an expression statement with no diagnostics |
| `ParserSpec.ParseStatement` | src/parser.rs:61-67 | a `let` statement comes exactly from a leading `let`, and a `return` statement exactly from a leading `return`; `return` always gives one |
| `ParserSpec.ParseProgram` | src/parser.rs:40-51 | the driver stops on `Eof` and keeps at most one statement per token it passes |
| `ParserLaws.PrecedenceTable` | src/parser.rs:274-300 | `==`/`!=` bind at Equals, `<`/`>` at LessGreater, `+`/`-` at Sum, `*`/`/` at Product, every other token at Lowest |
| `ParserLaws.PrecedenceOrder` | src/parser.rs:16-25 | Lowest < Equals < LessGreater < Sum < Product < Prefix < Call, and distinct precedences have distinct levels |
| `ParserLaws.OnlyOperatorsBind` | src/parser.rs:135-153 | whenever the loop condition holds, the peek token is a binary operator inside the input, so the loop's fallback arm is never taken |
| `ParserLaws.BindsOnTighterOperator` | src/parser.rs:135 | the loop condition holds exactly when the peek token is a binary operator whose precedence is above the caller's; the `;` test never decides it alone |
| `ParserLaws.ExpressionStatementShape` | src/parser.rs:104-119 | an expression statement fails exactly when its expression does; on success it steps onto one `;` only if that is the peek token |
| `ParserLaws.ExpressionOfPrefixPart` | src/parser.rs:121-156 | after a successful prefix part, the expression is the infix loop from there |
| `ParserLaws.PrefixOfOperand` | src/parser.rs:188-205 | a prefix operator with an operand that parses at Prefix precedence gives the prefix node |
| `ParserLaws.InfixOfOperand` | src/parser.rs:207-232 | a binary operator with a right operand that parses at the operator's own precedence gives the infix node |
| `ParserLaws.GroupOfInner` | src/parser.rs:234-241 | `( e )` is `e`, with `cur` left on the `)` |
| `ParserLaws.InfixLoopFolds` | src/parser.rs:135-155 | one turn folds the operator and its right operand into the left side; this is what makes equal precedences associate to the left |
| `ParserLaws.UnknownPrefixToken` | src/parser.rs:127-132 | a token no rule starts with gives no expression and exactly one diagnostic naming it |
| `ParserLaws.IntegerOverflowIsSilent` | src/parser.rs:170-180 | a literal above 2^63-1 gives no expression and no diagnostic |
| `ParserLaws.PrefixNeedsOperand` | src/parser.rs:197-204 | a prefix node is built exactly when its operand parses, and carries the operand's diagnostics |
| `ParserLaws.RightOperandFails` | src/parser.rs:223-231 | a failed right operand leaves the whole loop with no expression and only the operand's diagnostics |
| `ParserLaws.GroupWithoutClose` | src/parser.rs:234-241 | a group with no `)` after its inner expression gives nothing and adds one diagnostic naming the token found instead |
| `ParserLaws.PrefixOperandIsAtom` | src/parser.rs:188-205 | at Prefix precedence nothing binds, so a prefix operator's operand is a single prefix part |
| `ParserLaws.LoopStopsWhereNothingBinds` | src/parser.rs:135-155 | a successful infix loop stops only where the peek token does not bind at its precedence |
| `ParserLaws.ExpressionStopsWhereNothingBinds` | src/parser.rs:121-156 | a successful expression takes every operator that binds more strongly than its precedence |
| `Printer.PrefixToken` | src/parser.rs:189-193 | every prefix operator has a token that the operator match maps to it |
| `Printer.InfixToken` | src/parser.rs:208-218 | every binary operator has a token that the operator match maps to it, and that token has the operator's precedence |
| `Printer.OperatorTokens` | src/parser.rs:137-144 | every token the operator matches accept is the token of the operator they map it to, so the matches are one-to-one; `-` is the one token that is both a prefix and a binary operator |
| `Printer.IntegerLiteralRoundTrip` | src/parser.rs:170-180 | the decimal text of a non-negative 64-bit value parses back to it |
| `Printer.PrintedAtom` | src/parser.rs:122-133 | an identifier, integer or boolean token becomes its leaf node, with `cur` still on it |
| `Printer.PrintedExpression` | src/parser.rs:121-156 | a printed expression, followed by a token that does not bind more tightly, parses to itself and hands the infix loop its last token |
| `Printer.PrintedLeft` | src/parser.rs:135-155 | a printed left operand parenthesised where its strength is below the operator's leaves the infix loop on its last token, with the operand as the left side of that operator |
| `Printer.PrintedOperand` | src/parser.rs:121-156 | a printed operand, parenthesised where needed, parses to itself with no diagnostics, with `cur` on its last token |
| `Printer.PrintedGroup` | src/parser.rs:234-241 | a printed expression between parentheses parses to itself, with `cur` on the `)` |
| `Printer.PrintedPrefix` | src/parser.rs:188-205 | a printed prefix expression parses to itself |
| `Printer.PrintedInfix` | src/parser.rs:135-232 | a printed infix expression parses to itself, and the loop continues from its last token |
| `Printer.ExpressionRoundTrip` | src/parser.rs:121-241 | every expression tree a lexer can give rise to, printed with minimal parentheses, parses back to exactly that tree with no diagnostics |
| `ProgramPrinter.SkipOver` | src/parser.rs:89-91 | the semicolon scan crosses any run of expression tokens and stops on the `;` after it |
| `ProgramPrinter.LetRoundTrip` | src/parser.rs:69-93 | `let name = value;` parses to a let statement binding `name`, with `cur` on the `;` |
| `ProgramPrinter.ReturnRoundTrip` | src/parser.rs:95-102 | `return value;` parses to a return statement, with `cur` on the `;` |
| `ProgramPrinter.ExpressionStatementRoundTrip` | src/parser.rs:104-119 | `e;` parses to an expression statement holding `e`, with `cur` on the `;` |
| `ProgramPrinter.StatementRoundTrip` | src/parser.rs:61-67 | each statement form parses to its meaning with no diagnostics |
| `ProgramPrinter.ProgramAfterStatement` | src/parser.rs:40-51 | the driver keeps the statement it reads and goes on right after its `;` |
| `ProgramPrinter.StatementsRoundTrip` | src/parser.rs:40-51 | a run of written statements parses to their meanings in order, with no diagnostics |
| `ProgramPrinter.ProgramRoundTrip` | src/parser.rs:40-51 | a whole program of written statements parses to their meanings, with no diagnostics |
| `ProgramPrinter.FinalExpression` | src/parser.rs:104-119 | an expression at the very end of the input needs no `;` |
| `ProgramPrinter.ProgramWithFinalExpression` | src/parser.rs:40-51 | written statements followed by a bare expression parse to their meanings and that expression statement |
| `ParserCases.EqualPrecedenceAssociatesLeft` | src/parser.rs:667-668 | `a + b - c` is `((a + b) - c)` |
| `ParserCases.TighterOperatorBindsFirst` | src/parser.rs:679-680 | `a + b / c` is `(a + (b / c))` |
| `ParserCases.PrefixBindsTighterThanInfix` | src/parser.rs:655-656 | `-a * b` is `((-a) * b)` |
| `ParserCases.PrefixOperatorsNest` | src/parser.rs:659-660 | `!-a` is `(!(-a))` |
| `ParserCases.ParenthesesOverridePrecedence` | src/parser.rs:727-728 | `(5 + 5) * 2` is `((5 + 5) * 2)` |
| `ParserCases.SemicolonSeparatesStatements` | src/parser.rs:687-688 | `3 + 4; -5 * 5` is two statements, `(3 + 4)` and `((-5) * 5)` |
| `ParserCases.LetStatements` | src/parser.rs:385-400 | three let statements binding `x`, `y` and `foobar`, with no diagnostics |
| `ParserCases.ReturnStatements` | src/parser.rs:402-420 | three return statements, with no diagnostics |
| `ParserCases.LetWithoutAssign` | src/parser.rs:86-88 | `let x 5;` records one missing-`=` diagnostic, drops the let, and reads `5;` as the next statement |
| `ParserCases.GroupMissingClose` | src/parser.rs:236-238 | `(5 + 5` gives no statement and one diagnostic naming the `Eof` found where `)` belongs |
| `ParserCases.UnknownPrefixIsDropped` | src/parser.rs:127-132 | `+5` records one no-rule diagnostic for `+`, drops that attempt, and then reads `5` |
| `Findings.ScanAsWritten` | src/parser.rs:98-100 | the scan as written, run for a bounded number of steps; it stops only on a `;` |
| `Findings.NoSemicolonNoStop` | src/parser.rs:98-100 | with no `;` left in the input, the scan as written never stops |
| `Findings.ReturnWithoutSemicolonNeverStops` | src/parser.rs:98-100 | `return 5` with no `;` never stops under the scan as written |
| `Findings.ReturnWithoutSemicolonParses` | src/parser.rs:95-102 | with the scan that also stops at `Eof`, `return 5` is one return statement with no diagnostics |
| `Findings.LetWithoutSemicolonNeverStops` | src/parser.rs:89-91 | `let x = 5` with no `;` never stops under the scan as written |
| `Findings.LetWithoutSemicolonParses` | src/parser.rs:69-93 | with the corrected scan, `let x = 5` is one let statement binding `x` |
| `Findings.CorrectedScanAgrees` | src/parser.rs:89-91 | wherever the scan as written stops, the corrected scan stops at the same place |
| `Findings.ScanAsWrittenReaches` | src/parser.rs:89-91 | where the corrected scan finds a `;`, the scan as written reaches it too |

Some lemmas unfold a definition one step so that proofs which hide it can still use it. They
state no property of their own and have no row here: `ParserSpec.InfixLoopStep`,
`ParserSpec.ProgramStep`, `ParserLaws.ExpressionUnfold`, `ProgramPrinter.LowerUnfold`,
`Printer.PrintOfAtom`, `Printer.PrintOfPrefix` and `Printer.PrintOfInfix`. Others carry a loop
invariant or token positions from one step of a proof to the next: `Parsing.DriverStart`,
`Parsing.DriverStep`, `Parsing.DriverEnd`, `Parsing.InfixStart`, `Parsing.InfixTurn`,
`Parsing.InfixEnd`, `Printer.InfixLayout`, `ProgramPrinter.LetScan` and
`ProgramPrinter.LetStatementOf`.

## Left out

- The lexer (`crate::lexer`) and the token type (`crate::token`) are not part of this model. A lexer is the finite sequence of tokens it produces, followed by `Eof` forever. Integer literal text is assumed to be digits only, as the lexer produces it.
- The tokens that syntax nodes store (`tok` fields) and all rendering (`token_literal`, `Program::string`) are left out. They only serve to print nodes. Properties are stated on the shape of the tree.
- Diagnostic text is left out. The source builds it with Rust's pretty debug formatting. A diagnostic is a `ParseError` value naming the tokens its text names.
- The literal parsers `parse_identifier`, `parse_integer_literal` and `parse_boolean_literal` are the functions `ParserSpec.ParseIdentifier`, `ParserSpec.ParseIntegerLiteral` and `ParserSpec.ParseBooleanLiteral`, applied to `cur`. They read the parser but do not change it.
- `Rc` sharing and `clone` are left out. Children are plain immutable values.
- The `panic!("unreachable")` branches of `parse_identifier` and `parse_integer_literal` are left out. Those functions require an `Ident` or `Int` token instead, which is what their only call site guarantees.
- The infix loop's `_ => return left` arm is left out of `Parsing.Parser.InfixLoop`. `ParserLaws.OnlyOperatorsBind` proves it can never be taken.
- Parsing.Parser.ParseGroupedExpression: requires `cur == LParen`. Its only call site guarantees that.
- Parsing.Parser.ParseReturnStatement: requires `cur == Return`. Its only call site guarantees that.
- Parsing.Parser.ParseLetStatement: its semicolon scan also stops at `Eof`. As written, the scan does not stop when no `;` is left (see Findings).
- Parsing.Parser.ParseReturnStatement: the same corrected scan.
- `Printer.ExpressionRoundTrip` covers the trees a lexer can give rise to. Those trees have no negative integer literal, because a negative number can only be written with a prefix minus.
- The `Call` precedence is declared but no rule uses it. It appears only in the order of precedences.
- `cur_token_is` and `peek_token_is` are modelled as the plain comparisons `CurTokenIs` and `PeekTokenIs`. They state nothing beyond their bodies.
- The parser's unit tests (lines 303-780) are not modelled as tests. Their inputs appear as the lemmas of `ParserCases`. Those lemmas state tree shapes instead of the rendered strings the tests compare.

## Findings

| source | as written | input that shows it | evidently intended | confidence | as-written member | corrected member |
|---|---|---|---|---|---|---|
| src/parser.rs:98-100 | the scan after `return` loops until `cur` is `;`; the lexer returns `Eof` forever, so with no `;` left the loop never ends | `return 5` at the end of the input | stop at `Eof` as well, as the driver loop does, giving one return statement | not executed; depends on the lexer repeating `Eof`, which is not part of this model | `Findings.ReturnWithoutSemicolonNeverStops` | `Findings.ReturnWithoutSemicolonParses` |
| src/parser.rs:89-91 | the same scan after `let name =` | `let x = 5` at the end of the input | stop at `Eof` as well, giving one let statement binding `x` | not executed; depends on the lexer repeating `Eof`, which is not part of this model | `Findings.LetWithoutSemicolonNeverStops` | `Findings.LetWithoutSemicolonParses` |
