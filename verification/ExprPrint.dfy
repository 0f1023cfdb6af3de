/** Printing of expressions (expr_print) with the parentheses chosen by
    expr_compare_type, and a reader that recovers the value from the tokens. */
module ExprPrint {
  import opened ExprCore

  datatype ExprType = ENone | EOr | EAnd | ENot | EEqual | EUnequal | EChoice | ESymbol

  datatype Token = Name(name: string) | Bang | Eq | Ne | AndAnd | OrOr | LParen | RParen

  function TypeOf(e: Expr): ExprType {
    match e
    case Sym(_) => ESymbol
    case Equal(_, _) => EEqual
    case Unequal(_, _) => EUnequal
    case Not(_) => ENot
    case Bin(op, _, _) => if op == OpAnd then EAnd else EOr
  }

  // expr_compare_type: the cases of its switch fall through
  function CompareType(t1: ExprType, t2: ExprType): int {
    if t1 == t2 then 0
    else if t1 in {EEqual, EUnequal} && t2 == ENot then 1
    else if t1 in {EEqual, EUnequal, ENot} && t2 == EAnd then 1
    else if t1 in {EEqual, EUnequal, ENot, EAnd} && t2 == EOr then 1
    else if t1 in {EEqual, EUnequal, ENot, EAnd, EOr} && t2 == EChoice then 1
    else if t1 in {EEqual, EUnequal, ENot, EAnd, EOr, EChoice} && t2 == ENone then 1
    else -1
  }

  function Body(e: Expr, names: Symbol -> string): seq<Token>
    decreases e, 0
  {
    match e
    case Sym(s) => [Name(names(s))]
    case Not(x) => [Bang] + Print(x, names, ENot)
    case Equal(l, r) => [Name(names(l)), Eq, Name(names(r))]
    case Unequal(l, r) => [Name(names(l)), Ne, Name(names(r))]
    case Bin(op, l, r) =>
      var t := TypeOf(e);
      Print(l, names, t) + [if op == OpAnd then AndAnd else OrOr] + Print(r, names, t)
  }

  function Print(e: Expr, names: Symbol -> string, prev: ExprType): seq<Token>
    decreases e, 1
  {
    if CompareType(prev, TypeOf(e)) > 0 then [LParen] + Body(e, names) + [RParen] else Body(e, names)
  }

  // Parentheses stand around && and || below a negation and around || below
  // &&, and nowhere else.
  lemma ParenthesesExactly(e: Expr, names: Symbol -> string, prev: ExprType)
    requires prev in {ENone, EOr, EAnd, ENot}
    ensures Print(e, names, prev) ==
      if e.Bin? && (prev == ENot || (prev == EAnd && e.op == OpOr)) then [LParen] + Body(e, names) + [RParen] else Body(e, names)
  {
  }

  // ----- reading the tokens back -----

  // what a name stands for
  datatype Meaning = Meaning(tri: string -> Tristate, str: string -> string)

  datatype Read = Fail | Read(value: Tristate, rest: seq<Token>)

  function ReadOperand(ts: seq<Token>, m: Meaning): (r: Read)
    ensures r.Read? ==> |r.rest| < |ts|
    decreases |ts|, 0
  {
    if ts == [] then Fail
    else match ts[0]
      case Name(n) =>
        if |ts| >= 3 && ts[1] in {Eq, Ne} && ts[2].Name? then
          var same := m.str(n) == m.str(ts[2].name);
          Read(if same == (ts[1] == Eq) then 2 else 0, ts[3..])
        else Read(m.tri(n), ts[1..])
      case Bang =>
        var r := ReadOperand(ts[1..], m);
        if r.Fail? then Fail else Read(NegateTri(r.value), r.rest)
      case LParen =>
        var r := ReadOp(OpOr, ts[1..], m);
        if r.Fail? || r.rest == [] || r.rest[0] != RParen then Fail else Read(r.value, r.rest[1..])
      case _ => Fail
  }

  function Mark(op: Op): Token {
    if op == OpAnd then AndAnd else OrOr
  }

  // a chain of op: operands of && are single operands, operands of || are chains of &&
  function ReadOp(op: Op, ts: seq<Token>, m: Meaning): (r: Read)
    ensures r.Read? ==> |r.rest| < |ts|
    decreases |ts|, if op == OpAnd then 2 else 4
  {
    var r := if op == OpAnd then ReadOperand(ts, m) else ReadOp(OpAnd, ts, m);
    if r.Fail? then Fail else ReadMore(op, r.value, r.rest, m)
  }

  function ReadMore(op: Op, v: Tristate, ts: seq<Token>, m: Meaning): (r: Read)
    ensures r.Read? ==> |r.rest| <= |ts|
    decreases |ts|, if op == OpAnd then 1 else 3
  {
    if ts == [] || ts[0] != Mark(op) then Read(v, ts)
    else
      var r := if op == OpAnd then ReadOperand(ts[1..], m) else ReadOp(OpAnd, ts[1..], m);
      if r.Fail? then Fail else ReadMore(op, op.Apply(v, r.value), r.rest, m)
  }

  // ----- printing and reading -----

  ghost predicate Names(names: Symbol -> string, env: Env, m: Meaning) {
    forall s: Symbol :: m.tri(names(s)) == env.tri(s) && m.str(names(s)) == env.str(s)
  }

  predicate NoTest(rest: seq<Token>) {
    rest == [] || rest[0] !in {Eq, Ne}
  }

  predicate NoMark(op: Op, rest: seq<Token>) {
    rest == [] || rest[0] != Mark(op)
  }

  // what is printed below ! is one operand
  lemma {:induction false} ReadBackOperand(e: Expr, names: Symbol -> string, rest: seq<Token>, env: Env, m: Meaning)
    requires Names(names, env, m) && NoTest(rest)
    ensures ReadOperand(Print(e, names, ENot) + rest, m) == Read(Eval(e, env), rest)
    decreases e, 2
  {
    var ts := Print(e, names, ENot) + rest;
    match e
    case Bin(op, l, r) =>
      ReadBackParens(e, names, rest, env, m);
    case Not(x) =>
      assert ts[1..] == Print(x, names, ENot) + rest;
      ReadBackOperand(x, names, rest, env, m);
    case Sym(s) => assert ts[1..] == rest;
    case Equal(l, r) =>
      assert Print(e, names, ENot) == [Name(names(l)), Eq, Name(names(r))];
      TestTokens(Name(names(l)), Eq, Name(names(r)), rest);
    case Unequal(l, r) =>
      assert Print(e, names, ENot) == [Name(names(l)), Ne, Name(names(r))];
      TestTokens(Name(names(l)), Ne, Name(names(r)), rest);
  }

  lemma TestTokens(a: Token, t: Token, b: Token, rest: seq<Token>)
    ensures var ts := [a, t, b] + rest;
      |ts| >= 3 && ts[0] == a && ts[1] == t && ts[2] == b && ts[3..] == rest
  {
  }

  lemma {:induction false} ReadBackParens(e: Expr, names: Symbol -> string, rest: seq<Token>, env: Env, m: Meaning)
    requires Names(names, env, m) && e.Bin?
    ensures ReadOperand([LParen] + Body(e, names) + [RParen] + rest, m) == Read(Eval(e, env), rest)
    decreases e, 1
  {
    var ts := [LParen] + Body(e, names) + [RParen] + rest;
    var close := [RParen] + rest;
    assert ts[1..] == Body(e, names) + close;
    if e.op == OpAnd {
      ReadBackChain(OpAnd, e, names, close, env, m);
      assert ReadMore(OpAnd, Eval(e, env), close, m) == Read(Eval(e, env), close);
      assert ReadMore(OpOr, Eval(e, env), close, m) == Read(Eval(e, env), close);
    } else {
      ReadBackChain(OpOr, e, names, close, env, m);
      assert ReadMore(OpOr, Eval(e, env), close, m) == Read(Eval(e, env), close);
    }
    assert close[1..] == rest;
  }

  // A printed op-expression contributes its value to the chain of op it stands in.
  lemma {:induction false} ReadBackChain(op: Op, e: Expr, names: Symbol -> string, rest: seq<Token>, env: Env, m: Meaning)
    requires Names(names, env, m) && NoTest(rest) && IsOp(op, e) && (op == OpOr ==> NoMark(OpAnd, rest))
    ensures ReadOp(op, Body(e, names) + rest, m) == ReadMore(op, Eval(e, env), rest, m)
    decreases e, 0
  {
    var t := TypeOf(e);
    var more := [Mark(op)] + Print(e.right, names, t) + rest;
    assert Body(e, names) + rest == Print(e.left, names, t) + more;
    ReadBackElement(op, e.left, names, more, env, m);
    ReadBackMore(op, Eval(e.left, env), e.right, names, rest, env, m);
  }

  // the first element of a chain of op
  lemma {:induction false} ReadBackElement(op: Op, e: Expr, names: Symbol -> string, rest: seq<Token>, env: Env, m: Meaning)
    requires Names(names, env, m) && NoTest(rest) && (op == OpOr ==> NoMark(OpAnd, rest))
    ensures ReadOp(op, Print(e, names, if op == OpAnd then EAnd else EOr) + rest, m) == ReadMore(op, Eval(e, env), rest, m)
    decreases e, 4
  {
    if IsOp(op, e) {
      ReadBackChain(op, e, names, rest, env, m);
    } else if op == OpOr {
      ReadBackAndElement(e, names, rest, env, m);
    } else {
      ReadBackBare(e, names, rest, env, m);
    }
  }

  // below &&, everything but && itself reads as one operand
  lemma {:induction false} ReadBackBare(e: Expr, names: Symbol -> string, rest: seq<Token>, env: Env, m: Meaning)
    requires Names(names, env, m) && NoTest(rest) && !IsOp(OpAnd, e)
    ensures ReadOperand(Print(e, names, EAnd) + rest, m) == Read(Eval(e, env), rest)
    decreases e, 3
  {
    assert Print(e, names, EAnd) == Print(e, names, ENot);
    ReadBackOperand(e, names, rest, env, m);
  }

  // below ||, everything but || itself reads as one chain of &&
  lemma {:induction false} ReadBackAndElement(e: Expr, names: Symbol -> string, rest: seq<Token>, env: Env, m: Meaning)
    requires Names(names, env, m) && NoTest(rest) && NoMark(OpAnd, rest) && !IsOp(OpOr, e)
    ensures ReadOp(OpAnd, Print(e, names, EOr) + rest, m) == Read(Eval(e, env), rest)
    decreases e, 3
  {
    if IsOp(OpAnd, e) {
      ReadBackChain(OpAnd, e, names, rest, env, m);
    } else {
      assert Print(e, names, EOr) == Print(e, names, ENot);
      ReadBackOperand(e, names, rest, env, m);
    }
  }

  // a further element of a chain of op
  lemma {:induction false} ReadBackMore(op: Op, v: Tristate, e: Expr, names: Symbol -> string, rest: seq<Token>, env: Env, m: Meaning)
    requires Names(names, env, m) && NoTest(rest) && (op == OpOr ==> NoMark(OpAnd, rest))
    ensures ReadMore(op, v, [Mark(op)] + Print(e, names, if op == OpAnd then EAnd else EOr) + rest, m)
         == ReadMore(op, op.Apply(v, Eval(e, env)), rest, m)
    decreases e, 4
  {
    var t := if op == OpAnd then EAnd else EOr;
    var ts := [Mark(op)] + Print(e, names, t) + rest;
    assert ts[1..] == Print(e, names, t) + rest;
    if IsOp(op, e) {
      var more := [Mark(op)] + Print(e.right, names, t) + rest;
      assert ts == [Mark(op)] + Print(e.left, names, t) + more;
      ReadBackMore(op, v, e.left, names, more, env, m);
      ReadBackMore(op, op.Apply(v, Eval(e.left, env)), e.right, names, rest, env, m);
      ApplyRegroup(op, v, Eval(e.left, env), Eval(e.right, env), 0);
    } else if op == OpOr {
      ReadBackAndElement(e, names, rest, env, m);
    } else {
      ReadBackBare(e, names, rest, env, m);
    }
  }

  // Reading the complete output of expr_print gives the value of the expression.
  lemma {:induction false} PrintReadsBack(e: Expr, names: Symbol -> string, env: Env, m: Meaning)
    requires Names(names, env, m)
    ensures ReadOp(OpOr, Print(e, names, ENone), m) == Read(Eval(e, env), [])
  {
    var ts := Print(e, names, ENone);
    assert ts + [] == ts;
    if IsOp(OpOr, e) {
      ReadBackChain(OpOr, e, names, [], env, m);
    } else {
      assert Print(e, names, ENone) == Print(e, names, EOr);
      ReadBackAndElement(e, names, [], env, m);
    }
  }

  ghost predicate Distinct(names: Symbol -> string) {
    forall s: Symbol, t: Symbol :: names(s) == names(t) ==> s == t
  }

  ghost function Named(names: Symbol -> string, n: string): Symbol {
    if exists s: Symbol :: names(s) == n then (var s: Symbol :| names(s) == n; s) else Yes
  }

  // Expressions that print the same tokens have the same value in every
  // environment: the parentheses suffice.
  lemma PrintUnambiguous(e1: Expr, e2: Expr, names: Symbol -> string, env: Env)
    requires Distinct(names) && Print(e1, names, ENone) == Print(e2, names, ENone)
    ensures Eval(e1, env) == Eval(e2, env)
  {
    var m := Meaning(n => env.tri(Named(names, n)), n => env.str(Named(names, n)));
    forall s: Symbol
      ensures m.tri(names(s)) == env.tri(s) && m.str(names(s)) == env.str(s)
    {
      assert Named(names, names(s)) == s;
    }
    PrintReadsBack(e1, names, env, m);
    PrintReadsBack(e2, names, env, m);
  }
}
