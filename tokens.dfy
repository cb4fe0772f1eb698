/**
 * The tokens the parser consumes, and the lexer seen from the parser's side.
 *
 * The lexer itself is not part of this model. What the parser relies on is
 * that it hands out a finite sequence of tokens and then `Eof` forever; a
 * lexer is therefore modelled by the sequence `tokens` it produces, and the
 * token it hands out on its i-th call is `TokenAt(tokens, i)`.
 */
module Tokens {

  datatype Token =
    | Ident(text: string)
    | Int(text: string)
    | Let
    | Return
    | True
    | False
    | Assign
    | Bang
    | Minus
    | Plus
    | Slash
    | Asterisk
    | Eq
    | NotEq
    | Lt
    | Gt
    | LParen
    | RParen
    | Semicolon
    | Eof

  /** A lexer's output before it starts repeating `Eof`: no `Eof` inside it. */
  predicate LexerOutput(tokens: seq<Token>) {
    forall k :: 0 <= k < |tokens| ==> tokens[k] != Eof
  }

  /** The token the lexer hands out on its i-th call: `Eof` once the sequence is used up. */
  function TokenAt(tokens: seq<Token>, i: nat): (t: Token)
    ensures i >= |tokens| ==> t == Eof
    ensures i < |tokens| ==> t == tokens[i]
  {
    if i < |tokens| then tokens[i] else Eof
  }
}
