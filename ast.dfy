/**
 * The syntax tree the parser builds. Every node is an immutable value and
 * owns its children; the tokens the source keeps inside nodes (used only to
 * render them) are not part of this model.
 */
module Ast {
  import opened IntegerText

  datatype PrefixOperator = Minus | Bang

  datatype InfixOperator = Plus | Minus | Asterisk | Slash | Eq | NotEq | Lt | Gt

  datatype Expression =
    | Identifier(name: string)
    | Integer(value: i64)
    | Boolean(truth: bool)
    | PrefixExpression(prefixOp: PrefixOperator, right: Expression)
    | InfixExpression(infixOp: InfixOperator, left: Expression, right: Expression)

  /** A `let` keeps only the name it binds; a `return` keeps nothing. */
  datatype Statement =
    | LetStatement(name: string)
    | ReturnStatement
    | ExpressionStatement(expression: Expression)

  type Program = seq<Statement>
}
