/** What the evaluator promises, stated over the specification functions of
    module `Evaluator` and proved for all inputs. */
module EvaluatorProperties {
  import Lexer
  import opened Parser
  import opened Evaluator

  // ---------------------------------------------------------------------
  // Syntactic helpers

  /** Names an expression reads. */
  function Names(e: Expression): set<string>
  {
    match e
    case IntegerLiteral(_) => {}
    case Identifier(x) => {x}
    case _ => Names(e.left) + Names(e.right)
  }

  /** The expression contains no division node. */
  predicate DivisionFree(e: Expression)
  {
    match e
    case IntegerLiteral(_) => true
    case Identifier(_) => true
    case DivisionExpression(_, _) => false
    case _ => DivisionFree(e.left) && DivisionFree(e.right)
  }

  /** The language's booleans: exactly 0 or 1. */
  predicate ZeroOrOne(v: Option<Value>)
  {
    v == Some(0.0) || v == Some(1.0)
  }

  /** Names a statement may write: those of every declaration in it, in
      either branch of an `IF` and at any depth of nested blocks. */
  function Declared(s: Statement): set<string>
    decreases s, 1
  {
    match s
    case VariableDeclaration(x, _) => {x}
    case ExpressionStatement(_) => {}
    case IfStatement(_, consequent, alternate) =>
      DeclaredIn(consequent.body) + (if alternate.Some? then DeclaredIn(alternate.value.body) else {})
    case Block(b) => DeclaredIn(b.body)
  }

  function DeclaredIn(ss: seq<Statement>): set<string>
    decreases ss, 0
  {
    if ss == [] then {} else DeclaredIn(ss[..|ss| - 1]) + Declared(ss[|ss| - 1])
  }

  // ---------------------------------------------------------------------
  // Expressions

  /** A literal yields its value and an identifier its binding; an
      unbound identifier has no value. */
  lemma LiteralAndIdentifier(n: Value, x: string, env: Env)
    ensures EvaluateExpression(IntegerLiteral(n), env) == Some(n)
    ensures x in env ==> EvaluateExpression(Identifier(x), env) == Some(env[x])
    ensures x !in env ==> EvaluateExpression(Identifier(x), env) == None
  {
  }

  /** `+ - *` combine their operand values arithmetically; `/` divides
      exactly when the divisor is non-zero and otherwise has no value. */
  lemma ArithmeticOperators(l: Expression, r: Expression, env: Env, a: Value, b: Value)
    requires EvaluateExpression(l, env) == Some(a) && EvaluateExpression(r, env) == Some(b)
    ensures EvaluateExpression(AdditionExpression(l, r), env) == Some(a + b)
    ensures EvaluateExpression(SubtractionExpression(l, r), env) == Some(a - b)
    ensures EvaluateExpression(MultiplicationExpression(l, r), env) == Some(a * b)
    ensures EvaluateExpression(DivisionExpression(l, r), env) == if b == 0.0 then None else Some(a / b)
  {
    // The product is not linear: name the operator's result first.
    assert EvaluateExpression(MultiplicationExpression(l, r), env) == Combine(MultiplicationExpression(l, r), a, b);
  }

  /** `<`, `>`, `==` and `!=` yield exactly 0 or 1, and 1 exactly when the
      relation holds between the operand values. */
  lemma ComparisonIsZeroOrOne(l: Expression, r: Expression, env: Env, a: Value, b: Value)
    requires EvaluateExpression(l, env) == Some(a) && EvaluateExpression(r, env) == Some(b)
    ensures ZeroOrOne(EvaluateExpression(LessThanExpression(l, r), env))
    ensures ZeroOrOne(EvaluateExpression(GreaterThanExpression(l, r), env))
    ensures ZeroOrOne(EvaluateExpression(EqualExpression(l, r), env))
    ensures ZeroOrOne(EvaluateExpression(NotEqualExpression(l, r), env))
    ensures EvaluateExpression(LessThanExpression(l, r), env) == Some(1.0) <==> a < b
    ensures EvaluateExpression(GreaterThanExpression(l, r), env) == Some(1.0) <==> a > b
    ensures EvaluateExpression(EqualExpression(l, r), env) == Some(1.0) <==> a == b
    ensures EvaluateExpression(NotEqualExpression(l, r), env) == Some(1.0) <==> a != b
  {
  }

  /** An expression depends on the environment only through the names it
      reads. */
  lemma {:induction false} ReadsOnlyItsNames(e: Expression, env1: Env, env2: Env)
    requires forall x :: x in Names(e) ==> (x in env1 <==> x in env2)
    requires forall x :: x in Names(e) && x in env1 && x in env2 ==> env1[x] == env2[x]
    ensures EvaluateExpression(e, env1) == EvaluateExpression(e, env2)
  {
    match e
    case IntegerLiteral(_) =>
    case Identifier(_) =>
    case _ =>
      ReadsOnlyItsNames(e.left, env1, env2);
      ReadsOnlyItsNames(e.right, env1, env2);
  }

  /** With every name it reads bound and no division in it, an expression
      always has a value. */
  lemma {:induction false} DefinedWhenNamesBound(e: Expression, env: Env)
    requires Names(e) <= env.Keys
    requires DivisionFree(e)
    ensures EvaluateExpression(e, env).Some?
  {
    match e
    case IntegerLiteral(_) =>
    case Identifier(_) =>
    case DivisionExpression(_, _) =>
    case _ =>
      DefinedWhenNamesBound(e.left, env);
      DefinedWhenNamesBound(e.right, env);
  }

  // ---------------------------------------------------------------------
  // Statements

  /** A statement list runs its head first and the rest in the environment
      the head left behind; its value is the last statement's. */
  lemma HeadThenRest(s: Statement, rest: seq<Statement>, env: Env)
    ensures ExecStatements([s] + rest, env) == AndThen(ExecStatement(s, env), rest)
  {
    assert [s][..0] == [];
    ExecStatementsAppend([s], rest, env);
  }

  /** An empty statement list, as a block or as a whole program, yields 0
      and changes nothing. */
  lemma EmptyListIsZero(env: Env)
    ensures ExecStatement(Block(BlockStatement([])), env) == Done(0.0, env)
    ensures Run(Program([])) == Some(0.0)
  {
  }

  /** `VAR x = e` binds `x` to the value of `e`, overwriting any earlier
      binding, keeps every other binding, and yields that value. */
  lemma VariableDeclarationBinds(x: string, e: Expression, env: Env)
    requires EvaluateExpression(e, env).Some?
    ensures var o := ExecStatement(VariableDeclaration(x, e), env);
      && o.Done?
      && o.value == EvaluateExpression(e, env).value
      && o.env.Keys == env.Keys + {x}
      && o.env[x] == o.value
      && forall y :: y in env && y != x ==> o.env[y] == env[y]
  {
  }

  /** An `IF` runs its consequent on a non-zero condition, otherwise its
      alternate when there is one, and otherwise yields 0 and changes
      nothing. */
  lemma IfStatementChoice(c: Expression, consequent: BlockStatement, alternate: Option<BlockStatement>, env: Env)
    requires EvaluateExpression(c, env).Some?
    ensures var s, v := IfStatement(c, consequent, alternate), EvaluateExpression(c, env).value;
      && (v != 0.0 ==> ExecStatement(s, env) == ExecStatement(Block(consequent), env))
      && (v == 0.0 && alternate.Some? ==> ExecStatement(s, env) == ExecStatement(Block(alternate.value), env))
      && (v == 0.0 && alternate.None? ==> ExecStatement(s, env) == Done(0.0, env))
  {
  }

  /** No statement removes a binding: blocks and branches open no scope
      that would be dropped when they end. */
  lemma {:induction false} BindingsPersist(s: Statement, env: Env)
    requires ExecStatement(s, env).Done?
    ensures env.Keys <= ExecStatement(s, env).env.Keys
    decreases s, 1
  {
    match s
    case ExpressionStatement(_) =>
    case VariableDeclaration(_, _) =>
    case IfStatement(c, consequent, alternate) =>
      var v := EvaluateExpression(c, env).value;
      if v != 0.0 {
        BindingsPersistIn(consequent.body, env);
      } else if alternate.Some? {
        BindingsPersistIn(alternate.value.body, env);
      }
    case Block(b) => BindingsPersistIn(b.body, env);
  }

  lemma {:induction false} BindingsPersistIn(ss: seq<Statement>, env: Env)
    requires ExecStatements(ss, env).Done?
    ensures env.Keys <= ExecStatements(ss, env).env.Keys
    decreases ss, 0
  {
    if ss != [] {
      var prefix := ss[..|ss| - 1];
      BindingsPersistIn(prefix, env);
      BindingsPersist(ss[|ss| - 1], ExecStatements(prefix, env).env);
    }
  }

  /** The only writes are declarations: outside the names a statement
      declares, the environment it leaves is the one it was given. */
  lemma {:induction false} WritesOnlyDeclared(s: Statement, env: Env)
    requires ExecStatement(s, env).Done?
    ensures ExecStatement(s, env).env - Declared(s) == env - Declared(s)
    decreases s, 1
  {
    match s
    case ExpressionStatement(_) =>
    case VariableDeclaration(_, _) =>
    case IfStatement(c, consequent, alternate) =>
      var v := EvaluateExpression(c, env).value;
      var d := Declared(s);
      if v != 0.0 {
        WritesOnlyDeclaredIn(consequent.body, env);
        SubtractMore(ExecStatement(s, env).env, env, DeclaredIn(consequent.body), d);
      } else if alternate.Some? {
        WritesOnlyDeclaredIn(alternate.value.body, env);
        SubtractMore(ExecStatement(s, env).env, env, DeclaredIn(alternate.value.body), d);
      }
    case Block(b) => WritesOnlyDeclaredIn(b.body, env);
  }

  lemma {:induction false} WritesOnlyDeclaredIn(ss: seq<Statement>, env: Env)
    requires ExecStatements(ss, env).Done?
    ensures ExecStatements(ss, env).env - DeclaredIn(ss) == env - DeclaredIn(ss)
    decreases ss, 0
  {
    if ss != [] {
      var prefix, last := ss[..|ss| - 1], ss[|ss| - 1];
      var mid := ExecStatements(prefix, env).env;
      var d := DeclaredIn(ss);
      WritesOnlyDeclaredIn(prefix, env);
      WritesOnlyDeclared(last, mid);
      SubtractMore(mid, env, DeclaredIn(prefix), d);
      SubtractMore(ExecStatements(ss, env).env, mid, Declared(last), d);
    }
  }

  /** Two maps equal outside `a` are equal outside any `b` containing `a`. */
  lemma SubtractMore(m1: Env, m2: Env, a: set<string>, b: set<string>)
    requires a <= b
    requires m1 - a == m2 - a
    ensures m1 - b == m2 - b
  {
    assert m1 - b == (m1 - a) - b;
    assert m2 - b == (m2 - a) - b;
  }

  /** A statement that declares nothing (an expression statement, or an
      `IF` or block free of declarations) leaves the environment as it was. */
  lemma NoDeclarationNoChange(s: Statement, env: Env)
    requires ExecStatement(s, env).Done?
    requires Declared(s) == {}
    ensures ExecStatement(s, env).env == env
  {
    WritesOnlyDeclared(s, env);
    assert ExecStatement(s, env).env == ExecStatement(s, env).env - {};
    assert env == env - {};
  }

  /** A declaration run as the `i`-th statement of a list is still bound
      when the list ends, whatever follows it. */
  lemma DeclarationOutlivesList(ss: seq<Statement>, i: nat, env: Env)
    requires i < |ss| && ss[i].VariableDeclaration?
    requires ExecStatements(ss, env).Done?
    ensures ss[i].identifier in ExecStatements(ss, env).env
  {
    var upTo, after := ss[..i + 1], ss[i + 1..];
    assert upTo + after == ss;
    ExecStatementsAppend(upTo, after, env);
    assert upTo[..i] == ss[..i];
    var mid := ExecStatements(upTo, env);
    assert mid.Done?;
    assert ss[i].identifier in mid.env;
    if after != [] {
      BindingsPersistIn(after, mid.env);
    }
  }

  /** Blocks open no scope: a declaration made inside a block is still
      bound after the block. */
  lemma BlockOpensNoScope(b: BlockStatement, i: nat, env: Env)
    requires i < |b.body| && b.body[i].VariableDeclaration?
    requires ExecStatement(Block(b), env).Done?
    ensures b.body[i].identifier in ExecStatement(Block(b), env).env
  {
    DeclarationOutlivesList(b.body, i, env);
  }

  /** Nor do the branches of an `IF`: a declaration made in the branch that
      ran is still bound after the `IF`. */
  lemma BranchOpensNoScope(c: Expression, consequent: BlockStatement, alternate: Option<BlockStatement>, i: nat, env: Env)
    requires EvaluateExpression(c, env).Some?
    requires var s := IfStatement(c, consequent, alternate); ExecStatement(s, env).Done?
    ensures var s, v := IfStatement(c, consequent, alternate), EvaluateExpression(c, env).value;
      && (v != 0.0 && i < |consequent.body| && consequent.body[i].VariableDeclaration? ==>
            consequent.body[i].identifier in ExecStatement(s, env).env)
      && (v == 0.0 && alternate.Some? && i < |alternate.value.body| && alternate.value.body[i].VariableDeclaration? ==>
            alternate.value.body[i].identifier in ExecStatement(s, env).env)
  {
    var v := EvaluateExpression(c, env).value;
    if v != 0.0 && i < |consequent.body| && consequent.body[i].VariableDeclaration? {
      DeclarationOutlivesList(consequent.body, i, env);
    }
    if v == 0.0 && alternate.Some? && i < |alternate.value.body| && alternate.value.body[i].VariableDeclaration? {
      DeclarationOutlivesList(alternate.value.body, i, env);
    }
  }

  // ---------------------------------------------------------------------
  // Whole programs

  /** `parse` as written yields an empty program, so parsing and then
      evaluating any token list gives 0. */
  lemma ParseThenEvaluateIsZero(tokens: seq<Lexer.Token>)
    ensures Run(Parse(tokens)) == Some(0.0)
  {
  }

  /** `VAR a = n` followed by `a` yields `n`, whatever `n` is; a second
      declaration of `a` overwrites the first for later reads. */
  lemma DeclareThenUse(n: Value, m: Value)
    ensures Run(Program([VariableDeclaration("a", IntegerLiteral(n)),
                         ExpressionStatement(Identifier("a"))])) == Some(n)
    ensures Run(Program([VariableDeclaration("a", IntegerLiteral(n)),
                         VariableDeclaration("a", IntegerLiteral(m)),
                         ExpressionStatement(Identifier("a"))])) == Some(m)
  {
    var use := ExpressionStatement(Identifier("a"));
    var first := VariableDeclaration("a", IntegerLiteral(n));
    var second := VariableDeclaration("a", IntegerLiteral(m));
    assert [first, use] == [first] + [use];
    assert [first, second, use] == [first] + [second, use];
    assert [second, use] == [second] + [use];
    assert [use] == [use] + [];
    HeadThenRest(first, [use], map[]);
    HeadThenRest(use, [], map["a" := n]);
    HeadThenRest(first, [second, use], map[]);
    HeadThenRest(second, [use], map["a" := n]);
    HeadThenRest(use, [], map["a" := m]);
  }

  /** `VAR a = n` then `IF a == 1 { 2 }`, with or without `ELSE { 3 }`:
      2 when `n` is 1; otherwise 3 with the alternate and 0 without. */
  lemma IfAfterDeclaration(n: Value, withElse: bool)
    ensures
      var alternate := if withElse then Some(BlockStatement([ExpressionStatement(IntegerLiteral(3.0))])) else None;
      var p := Program([VariableDeclaration("a", IntegerLiteral(n)),
                        IfStatement(EqualExpression(Identifier("a"), IntegerLiteral(1.0)),
                                    BlockStatement([ExpressionStatement(IntegerLiteral(2.0))]),
                                    alternate)]);
      Run(p) == Some(if n == 1.0 then 2.0 else if withElse then 3.0 else 0.0)
  {
    var two, three := ExpressionStatement(IntegerLiteral(2.0)), ExpressionStatement(IntegerLiteral(3.0));
    var alternate := if withElse then Some(BlockStatement([three])) else None;
    var decl := VariableDeclaration("a", IntegerLiteral(n));
    var cond := EqualExpression(Identifier("a"), IntegerLiteral(1.0));
    var s := IfStatement(cond, BlockStatement([two]), alternate);
    var env := map["a" := n];
    assert [decl, s] == [decl] + [s];
    HeadThenRest(decl, [s], map[]);
    assert ExecStatement(decl, map[]) == Done(n, env);
    assert [s] == [s] + [];
    HeadThenRest(s, [], env);
    assert EvaluateExpression(cond, env) == Some(if n == 1.0 then 1.0 else 0.0);
    assert [two] == [two] + [] && [three] == [three] + [];
    HeadThenRest(two, [], env);
    HeadThenRest(three, [], env);
  }

  /** `2 / 4 + 2 * 3 / 4 - 1`, grouped as the parser tests expect, is 1:
      the exact quotients 0.5 and 1.5 are kept, not truncated. */
  lemma FractionalDivision()
    ensures
      var two, three, four, one := IntegerLiteral(2.0), IntegerLiteral(3.0), IntegerLiteral(4.0), IntegerLiteral(1.0);
      var e := SubtractionExpression(
        AdditionExpression(DivisionExpression(two, four),
                           DivisionExpression(MultiplicationExpression(two, three), four)),
        one);
      EvaluateExpression(e, map[]) == Some(1.0)
  {
  }
}
