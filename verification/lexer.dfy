/** Token vocabulary shared by the lexer and the parser (src/lexer.ts).
    The repository declares only the token types; it has no lexing function,
    so this module holds declarations alone. */
module Lexer {

  /** A JavaScript `number`. Modelled exactly as a real: no rounding, no
      infinities, no NaN. */
  type Number = real

  /** One lexical unit; the seventeen variants of `TokenType`. */
  datatype Token =
    | Int(value: Number)
    | Pls
    | Min
    | Mul
    | Div
    | Lt
    | Gt
    | Eq
    | Ne
    | If
    | Else
    | Var
    | Eof
    | Assign
    | LBrace
    | RBrace
    | Identifier(name: string)
}
