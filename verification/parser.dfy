/** The abstract syntax tree and the `parse` entry point (src/parser.ts). */
module Parser {
  import Lexer

  /** An optional value: the alternate branch of an `IF`, and the result of
      evaluation, which is `None` where the value is one the model leaves
      out. */
  datatype Option<+T> = None | Some(value: T) {
    predicate IsFailure() { None? }

    function PropagateFailure<U>(): Option<U>
      requires None?
    {
      None
    }

    function Extract(): T
      requires Some?
    {
      value
    }
  }

  /** The root of the tree: the top-level statements in order. */
  datatype Program = Program(body: seq<Statement>)

  /** The closed union of the four statement kinds. */
  datatype Statement =
    | VariableDeclaration(identifier: string, value: Expression)
    | ExpressionStatement(expression: Expression)
    | IfStatement(condition: Expression, consequent: BlockStatement, alternate: Option<BlockStatement>)
    | Block(block: BlockStatement)

  /** A braced statement list. It is a statement of its own (`Block`) and
      the only form the branches of an `IfStatement` may take. */
  datatype BlockStatement = BlockStatement(body: seq<Statement>)

  /** The closed union of the ten expression kinds; every binary node has
      exactly a left and a right operand. */
  datatype Expression =
    | IntegerLiteral(value: Lexer.Number)
    | Identifier(name: string)
    | AdditionExpression(left: Expression, right: Expression)
    | SubtractionExpression(left: Expression, right: Expression)
    | MultiplicationExpression(left: Expression, right: Expression)
    | DivisionExpression(left: Expression, right: Expression)
    | LessThanExpression(left: Expression, right: Expression)
    | GreaterThanExpression(left: Expression, right: Expression)
    | EqualExpression(left: Expression, right: Expression)
    | NotEqualExpression(left: Expression, right: Expression)

  /** `parse` as the repository has it: it ignores its tokens and yields a
      program without statements. */
  function Parse(tokens: seq<Lexer.Token>): (p: Program)
    ensures |p.body| == 0
  {
    Program([])
  }
}
