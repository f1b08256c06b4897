/** The tree-walking evaluator (src/evaluator.ts).

    Expressions are evaluated by a pure function that only reads the
    environment. Statements are given twice: by the specification functions
    `ExecStatement` / `ExecStatements`, which thread the environment through
    and return it, and by the methods `EvaluateStatement`, `EvaluateBlock`
    and `EvaluateProgram`, which update one shared `Environment` object in
    place, as the source does, and are proved to agree with them. */
module Evaluator {
  import opened Parser

  /** A JavaScript `number`, taken as an exact real. */
  type Value = real

  /** Variable name to value; the source's `Env` record. */
  type Env = map<string, Value>

  /** What running a statement gives: its value and the environment
      afterwards, or `Unmodelled` when an expression met a value that the
      model leaves out (an unbound name, a division by zero). */
  datatype Outcome = Done(value: Value, env: Env) | Unmodelled

  /** Value of an expression. `None` stands for the JavaScript `undefined`
      read from an unbound name, and for the non-finite result of a division
      by zero; both then spread through the enclosing expression. Every
      binary node evaluates its left operand, then its right one, and
      combines the two values. */
  function EvaluateExpression(e: Expression, env: Env): (r: Option<Value>)
    ensures e.Identifier? ==> (r.Some? <==> e.name in env)
    ensures IsComparison(e) && r.Some? ==> r.value == 0.0 || r.value == 1.0
  {
    match e
    case IntegerLiteral(n) => Some(n)
    case Identifier(x) => if x in env then Some(env[x]) else None
    case _ =>
      var a :- EvaluateExpression(e.left, env);
      var b :- EvaluateExpression(e.right, env);
      Combine(e, a, b)
  }

  /** The operator of the binary node `e` applied to the operand values `a`
      and `b`. Comparisons give 1 or 0. Leaves are not binary nodes and give
      `None`. */
  function Combine(e: Expression, a: Value, b: Value): (r: Option<Value>)
    ensures r.None? <==> (e.IntegerLiteral? || e.Identifier? || (e.DivisionExpression? && b == 0.0))
    ensures IsComparison(e) ==> r == Some(0.0) || r == Some(1.0)
  {
    match e
    case AdditionExpression(_, _) => Some(a + b)
    case SubtractionExpression(_, _) => Some(a - b)
    case MultiplicationExpression(_, _) => Some(a * b)
    case DivisionExpression(_, _) => if b == 0.0 then None else Some(a / b)
    case LessThanExpression(_, _) => Some(if a < b then 1.0 else 0.0)
    case GreaterThanExpression(_, _) => Some(if a > b then 1.0 else 0.0)
    case EqualExpression(_, _) => Some(if a == b then 1.0 else 0.0)
    case NotEqualExpression(_, _) => Some(if a != b then 1.0 else 0.0)
    case IntegerLiteral(_) => None
    case Identifier(_) => None
  }

  /** One of the four comparison operators. */
  predicate IsComparison(e: Expression)
  {
    e.LessThanExpression? || e.GreaterThanExpression? || e.EqualExpression? || e.NotEqualExpression?
  }

  /** Meaning of one statement, run in `env`. */
  function ExecStatement(s: Statement, env: Env): (r: Outcome)
    ensures r.Done? && s.VariableDeclaration? ==> r.env == env[s.identifier := r.value]
    ensures r.Done? && s.ExpressionStatement? ==> r.env == env
    decreases s, 1
  {
    match s
    case ExpressionStatement(e) =>
      (match EvaluateExpression(e, env)
       case None => Unmodelled
       case Some(v) => Done(v, env))
    case VariableDeclaration(x, e) =>
      (match EvaluateExpression(e, env)
       case None => Unmodelled
       case Some(v) => Done(v, env[x := v]))
    case IfStatement(c, consequent, alternate) =>
      (match EvaluateExpression(c, env)
       case None => Unmodelled
       case Some(v) =>
         if v != 0.0 then ExecStatements(consequent.body, env)
         else if alternate.Some? then ExecStatements(alternate.value.body, env)
         else Done(0.0, env))
    case Block(b) => ExecStatements(b.body, env)
  }

  /** Meaning of a statement list: the statements run left to right in one
      shared environment, and the list's value is that of its last
      statement, or 0 when it is empty. Defined on the last element so that
      it matches a loop that has run over a prefix. */
  function ExecStatements(ss: seq<Statement>, env: Env): (r: Outcome)
    ensures ss == [] ==> r == Done(0.0, env)
    ensures |ss| == 1 ==> r == ExecStatement(ss[0], env)
    decreases ss, 0
  {
    if ss == [] then Done(0.0, env)
    else
      match ExecStatements(ss[..|ss| - 1], env)
      case Unmodelled => Unmodelled
      case Done(_, env') => ExecStatement(ss[|ss| - 1], env')
  }

  /** Continues the outcome `o` of some statements with the list `rest`:
      the value is that of `rest` unless `rest` is empty. */
  function AndThen(o: Outcome, rest: seq<Statement>): Outcome
  {
    match o
    case Unmodelled => Unmodelled
    case Done(_, after) => if rest == [] then o else ExecStatements(rest, after)
  }

  /** Running `a + b` is running `a` and then `b` in the environment `a`
      left behind; the value is `b`'s unless `b` is empty. A list stops at
      the first statement whose outcome is `Unmodelled`. */
  lemma {:induction false} ExecStatementsAppend(a: seq<Statement>, b: seq<Statement>, env: Env)
    ensures ExecStatements(a + b, env) == AndThen(ExecStatements(a, env), b)
    decreases |b|
  {
    if b == [] {
      assert a + b == a;
    } else {
      var n := |b| - 1;
      assert (a + b)[..|a + b| - 1] == a + b[..n];
      assert (a + b)[|a + b| - 1] == b[n];
      ExecStatementsAppend(a, b[..n], env);
      if n == 0 {
        assert a + b[..n] == a;
        assert b[..n] == [];
        match ExecStatements(a, env)
        case Unmodelled =>
        case Done(_, mid) =>
          assert ExecStatements(b, mid) == ExecStatement(b[0], mid);
      }
    }
  }

  /** Result of `evaluate`: the program run from an empty environment. */
  function Run(p: Program): (r: Option<Value>)
    ensures p.body == [] ==> r == Some(0.0)
  {
    match ExecStatements(p.body, map[])
    case Unmodelled => None
    case Done(v, _) => Some(v)
  }

  /** The method result `r` and the environment `bindings` left behind
      agree with the outcome `o` of the specification. */
  predicate Agrees(o: Outcome, r: Option<Value>, bindings: Env)
  {
    match o
    case Unmodelled => r.None?
    case Done(v, env) => r == Some(v) && bindings == env
  }

  /** The one mutable record of a run; declarations write into it in place. */
  class Environment {
    var bindings: Env

    constructor ()
      ensures bindings == map[]
    {
      bindings := map[];
    }
  }

  /** `evaluateStatement`: runs `s` against the shared environment. */
  method EvaluateStatement(s: Statement, env: Environment) returns (r: Option<Value>)
    modifies env
    decreases s, 1
    ensures Agrees(ExecStatement(s, old(env.bindings)), r, env.bindings)
  {
    match s
    case ExpressionStatement(e) =>
      r := EvaluateExpression(e, env.bindings);
    case VariableDeclaration(x, e) =>
      var v := EvaluateExpression(e, env.bindings);
      if v.None? {
        return None;
      }
      env.bindings := env.bindings[x := v.value];
      r := Some(env.bindings[x]);
    case IfStatement(c, consequent, alternate) =>
      var cond := EvaluateExpression(c, env.bindings);
      if cond.None? {
        return None;
      }
      if cond.value != 0.0 {
        r := EvaluateBlock(consequent, env);
        return;
      }
      if alternate.Some? {
        r := EvaluateBlock(alternate.value, env);
        return;
      }
      r := Some(0.0);
    case Block(b) =>
      r := EvaluateBlock(b, env);
  }

  /** The `BlockStatement` case of `evaluateStatement`: a loop that runs each
      inner statement and keeps the last value. */
  method EvaluateBlock(b: BlockStatement, env: Environment) returns (r: Option<Value>)
    modifies env
    decreases b, 0
    ensures Agrees(ExecStatements(b.body, old(env.bindings)), r, env.bindings)
  {
    ghost var start := env.bindings;
    var result := 0.0;
    for i := 0 to |b.body|
      invariant ExecStatements(b.body[..i], start) == Done(result, env.bindings)
    {
      assert b.body[..i + 1][..i] == b.body[..i];
      var v := EvaluateStatement(b.body[i], env);
      if v.None? {
        ExecStatementsAppend(b.body[..i + 1], b.body[i + 1..], start);
        assert b.body[..i + 1] + b.body[i + 1..] == b.body;
        return None;
      }
      result := v.value;
    }
    assert b.body[..|b.body|] == b.body;
    r := Some(result);
  }

  /** `evaluateProgram`: the same loop over the top-level statements. */
  method EvaluateProgram(p: Program, env: Environment) returns (r: Option<Value>)
    modifies env
    ensures Agrees(ExecStatements(p.body, old(env.bindings)), r, env.bindings)
  {
    ghost var start := env.bindings;
    var result := 0.0;
    for i := 0 to |p.body|
      invariant ExecStatements(p.body[..i], start) == Done(result, env.bindings)
    {
      assert p.body[..i + 1][..i] == p.body[..i];
      var v := EvaluateStatement(p.body[i], env);
      if v.None? {
        ExecStatementsAppend(p.body[..i + 1], p.body[i + 1..], start);
        assert p.body[..i + 1] + p.body[i + 1..] == p.body;
        return None;
      }
      result := v.value;
    }
    assert p.body[..|p.body|] == p.body;
    r := Some(result);
  }

  /** `evaluate`: a fresh, empty environment for every run. */
  method Evaluate(p: Program) returns (r: Option<Value>)
    ensures r == Run(p)
  {
    var env := new Environment();
    r := EvaluateProgram(p, env);
  }
}
