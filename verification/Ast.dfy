/** Tokens and expression trees. */
module Ast {
  datatype TokenType =
    | IDENTIFIER | NUMBER | STRING
    | WITH | AS | HAVING | FROM | WHERE | SELECT | LIMIT | ORDER | BY | GROUP | ASC | DESC
    | JOIN | ON | LIKE | INTO | RECURSIVE | UNION | ALL
    | GREATER_THAN | LESS_THAN | EQUALS | NOT_EQUALS | GREATER_EQUALS | LESS_EQUALS | AND | OR
    | COMMA | STAR | LEFT_PAREN | RIGHT_PAREN
    | END_OF_FILE

  datatype Token = Token(kind: TokenType, value: string, line: nat, col: nat)

  /** A literal or column, a function call, or a binary operation. */
  datatype Expr =
    | Literal(token: Token)
    | Call(token: Token, args: seq<Expr>)
    | Binary(token: Token, left: Expr, right: Expr)
}
