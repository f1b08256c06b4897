# A verified model of the `lets-make-an-interpreter` evaluator

The repository is a toy interpreter written in TypeScript. A lexer turns
text into tokens, `parse` builds a `Program` tree, and `evaluate` walks the
tree. The only real logic is the tree-walking evaluator in
`src/evaluator.ts`: it threads one mutable name→number record (`Env`)
through every statement and returns the value of the last statement run,
or 0 when nothing runs. This project models that evaluator, the syntax tree
it consumes (`src/parser.ts`), `parse` as written and the token type.

Files:

- `lexer.dfy`, module `Lexer`: the `Token` datatype (`src/lexer.ts:1-38`).
  The repository has no lexing function.
- `parser.dfy`, module `Parser`: `Program`, the four-variant `Statement`,
  `BlockStatement` and the ten-variant `Expression` as datatypes, and
  `Parse`, which ignores its tokens and returns an empty program.
- `evaluator.dfy`, module `Evaluator`: the evaluator.
  - `EvaluateExpression` is a pure function of the expression and the
    environment, as `evaluateExpression` is. It only reads the environment.
  - `ExecStatement` and `ExecStatements` define the meaning of
    statements as functions. They take an environment and return the value together
    with the environment left behind.
  - The class `Environment` is the mutable record. The methods
    `EvaluateStatement`, `EvaluateBlock` and `EvaluateProgram` update it in
    place with the source's `for` loops. Each method is proved to agree
    with those functions.
  - `Evaluate` creates a fresh, empty environment per run.
- `properties.dfy`, module `EvaluatorProperties`: lemmas on what the
  evaluator promises.

Numbers are JavaScript `number`s. They are modelled as exact `real`s, so
`DivisionExpression` stays in the model with exact quotients. An
expression whose value the model leaves out has no value (`None`). This
happens for a name that was never bound, and for a division by zero, where
JavaScript gives an infinity or NaN. For most unbound names JavaScript
reads `undefined`; a few names read a member that every object inherits
(see "Left out"). A statement that meets such an expression has the
outcome `Unmodelled`. Statement lists stop at the first `Unmodelled`
statement, whatever the statements after it would have given.

The model follows the code where a complete interpreter for this language
would behave differently:

- There is no `UndefinedVariable` error. The code reads `env[name]` and
  carries on with `undefined`.
- Division is exact, not integer division. The test at
  `src/evaluator.test.ts:22-25` expects `2 / 4 + 2 * 3 / 4 - 1` to be 1,
  which needs the quotient 0.5.
- `parse` is a stub, not a recursive-descent parser.

## Model

| member | source | states |
|---|---|---|
| `Parser.Parse` | src/parser.ts:75-80 | the program returned has no statements, whatever the tokens |
| `EvaluatorProperties.ParseThenEvaluateIsZero` | src/parser.ts:75-80 | evaluating the result of `parse` gives 0 for every token list |
| `Evaluator.Run` | src/evaluator.ts:90-93 | a program runs from the empty environment; an empty program gives 0 |
| `Evaluator.Evaluate` | src/evaluator.ts:90-93 | `evaluate` allocates a fresh empty environment and returns `Run(p)`: the value of the program's last statement run from no bindings, or `None` if a value left out of the model was met |
| `Evaluator.Environment.constructor` | src/evaluator.ts:91 | a new environment has no bindings |
| `Evaluator.EvaluateProgram` | src/evaluator.ts:5-11 | the loop over top-level statements returns the value `ExecStatements` gives and leaves exactly the environment it gives |
| `Evaluator.EvaluateStatement` | src/evaluator.ts:13-37 | each statement case returns the value `ExecStatement` gives and leaves exactly the environment it gives, updating the shared record in place |
| `Evaluator.EvaluateBlock` | src/evaluator.ts:28-33 | the block loop keeps the last statement's value; it returns the value `ExecStatements` gives for the body and leaves the environment it gives |
| `Evaluator.EvaluateExpression` | src/evaluator.ts:39-88 | the value of an expression, reading the environment and never writing it: a literal its value, an identifier its binding (a value exactly when the name is bound), a binary node its operator applied to the left then right operand values; a comparison's value is 0 or 1 |
| `Evaluator.Combine` | src/evaluator.ts:43-82 | the eight operator cases: sum, difference, product, exact quotient, and 1/0 for `< > == !=`; it has no value exactly for a leaf or a zero divisor, and a comparison always gives 0 or 1 |
| `Evaluator.ExecStatement` | src/evaluator.ts:13-37 | the outcome of one statement: an expression statement yields its value and leaves the environment as it was; `VAR x = e` leaves the environment with `x` bound to exactly the value it yields; `IF` picks a branch by a non-zero condition, or yields 0; a block runs its list |
| `Evaluator.ExecStatements` | src/evaluator.ts:28-33 | the outcome of a statement list run in one shared environment: an empty list yields 0 and changes nothing, a one-statement list is that statement, and a longer list runs its last statement in the environment the others left |
| `Evaluator.ExecStatementsAppend` | src/evaluator.ts:28-33 | running `a + b` is running `a`, then `b` in the environment `a` left; the value is `b`'s unless `b` is empty; an unmodelled statement stops the list |
| `EvaluatorProperties.HeadThenRest` | src/evaluator.ts:28-33 | a list runs its first statement, then the rest in the environment the first one left; the value is the last statement's |
| `EvaluatorProperties.EmptyListIsZero` | src/evaluator.ts:5-11 | an empty block or program yields 0 and changes nothing |
| `EvaluatorProperties.LiteralAndIdentifier` | src/evaluator.ts:41-84 | a literal yields its value; a bound identifier yields its binding; an unbound one has no value |
| `EvaluatorProperties.ArithmeticOperators` | src/evaluator.ts:43-62 | `+ - *` give the sum, difference and product of the operand values; `/` gives the exact quotient, or no value for a zero divisor |
| `EvaluatorProperties.ComparisonIsZeroOrOne` | src/evaluator.ts:63-82 | `< > == !=` always yield 0 or 1, and yield 1 exactly when the relation holds |
| `EvaluatorProperties.ReadsOnlyItsNames` | src/evaluator.ts:39-88 | an expression's value depends on the environment only through the names it mentions |
| `EvaluatorProperties.DefinedWhenNamesBound` | src/evaluator.ts:39-88 | a division-free expression whose names are all bound always has a value |
| `EvaluatorProperties.VariableDeclarationBinds` | src/evaluator.ts:17-19 | `VAR x = e` binds `x` to the value of `e`, overwriting any earlier binding, keeps every other binding and yields the value |
| `EvaluatorProperties.IfStatementChoice` | src/evaluator.ts:20-27 | a non-zero condition runs the consequent; zero runs the alternate if present; otherwise the result is 0 and the environment is unchanged |
| `EvaluatorProperties.BindingsPersist` | src/evaluator.ts:13-37 | no statement removes a binding |
| `EvaluatorProperties.BindingsPersistIn` | src/evaluator.ts:28-33 | no statement list removes a binding |
| `EvaluatorProperties.WritesOnlyDeclared` | src/evaluator.ts:13-37 | outside the names a statement declares, the environment after it equals the one before |
| `EvaluatorProperties.WritesOnlyDeclaredIn` | src/evaluator.ts:28-33 | the same frame property for statement lists |
| `EvaluatorProperties.NoDeclarationNoChange` | src/evaluator.ts:15-16 | a statement without declarations (such as an expression statement) leaves the environment unchanged |
| `EvaluatorProperties.DeclarationOutlivesList` | src/evaluator.ts:28-33 | a declaration run anywhere in a list is still bound when the list ends |
| `EvaluatorProperties.BlockOpensNoScope` | src/evaluator.ts:28-33 | a declaration inside a block is still bound after the block |
| `EvaluatorProperties.BranchOpensNoScope` | src/evaluator.ts:20-27 | a declaration inside the branch of an `IF` that ran is still bound after the `IF` |
| `EvaluatorProperties.DeclareThenUse` | src/evaluator.test.ts:27-47 | `VAR a = n` then `a` yields `n`; a second declaration of `a` overwrites the first |
| `EvaluatorProperties.IfAfterDeclaration` | src/evaluator.test.ts:49-92 | `VAR a = n` then `IF a == 1 { 2 }` (optionally `ELSE { 3 }`) yields 2 when `n` is 1, otherwise 3 or 0 |
| `EvaluatorProperties.FractionalDivision` | src/evaluator.test.ts:22-25 | `2 / 4 + 2 * 3 / 4 - 1` evaluates to 1 |

`Statement` and `Expression` are closed datatypes, and every `match` on
them is exhaustive. So the `default` branches at `src/evaluator.ts:34-35`
and `src/evaluator.ts:85-86`, which throw "Unknown statement" and "Unknown
expression", cannot be reached. The model has no counterpart for them.

## Left out

- Lexing: `src/lexer.ts` declares only `TokenType` and `Token`. The `lex`
  function imported by the tests and the command-line tool is not part of
  this model.
- The recursive-descent grammar that `src/parser.test.ts` expects
  (precedence, associativity, `IF`/`ELSE` parsing) is not modelled, because
  `parse` is a stub that returns an empty program.
- `src/cli.ts`: argument handling, file reading and printing are I/O and
  are not modelled.
- Floating point: values are exact reals. Rounding, overflow to infinity
  and NaN are not modelled.
- Division by zero has no value in the model. JavaScript would give an
  infinity or NaN and carry on.
- Evaluator.EvaluateStatement: for an unbound name it gives no value and
  says nothing of the environment left behind. JavaScript carries on with
  `undefined`: arithmetic gives NaN, `VAR` binds `undefined`, and an `IF`
  takes its consequent because `undefined !== 0`.
- Evaluator.EvaluateBlock: the same gap for an unbound name inside a block.
- Evaluator.EvaluateProgram: the same gap for an unbound name at top level.
- Evaluator.Evaluate: returns `None` whenever any statement it runs meets
  an unbound name or a zero divisor, even where the JavaScript result does
  not depend on that value. For example, an unbound `x` followed by `1`
  gives 1 at `src/evaluator.ts:7-10`, and the model gives `None`.
- The environment is modelled as a map with no prototype chain. The source
  creates it as the object literal `{}` (`src/evaluator.ts:91`), so it
  inherits from `Object.prototype`. An unbound `toString`, `constructor`,
  `valueOf` or `hasOwnProperty` then reads an inherited function at
  `src/evaluator.ts:84`: `IF toString { 1 }` takes its consequent, and
  `toString + 1` gives a string. `VAR __proto__ = 5` does not bind at
  `src/evaluator.ts:18`, because that setter ignores a number, and line 19
  returns `Object.prototype`. A name like `__proto__` only arises in a
  hand-built tree, since names in the language are alphabetic.
- EvaluatorProperties.VariableDeclarationBinds: proves that `VAR x = e`
  binds `x` for every name. In the source this fails for `__proto__`, as
  described in the line above.
- `IfStatement.alternate` is declared as required at `src/parser.ts:67`.
  It is modelled as optional, because the evaluator tests whether it is
  present (`src/evaluator.ts:24`) and the parser test for `IF` without
  `ELSE` leaves it out.
