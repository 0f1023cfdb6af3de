/** Extraction of the operands two expressions have in common (expr_extract_eq). */
module ExprFactor {
  import opened Options
  import opened ExprCore
  import opened ExprEquality

  datatype Factored = Factored(common: Option<Expr>, e1: Expr, e2: Expr)

  // expr_extract_eq: common operands are collected in the first component and
  // replaced by the unit on both sides
  function Extract(op: Op, common: Option<Expr>, e1: Expr, e2: Expr): (r: Factored)
    ensures Size(r.e1) <= Size(e1) && Size(r.e2) <= Size(e2)
    decreases Size(e1) + Size(e2)
  {
    if IsOp(op, e1) then
      var a := Extract(op, common, e1.left, e2);
      var b := Extract(op, a.common, e1.right, a.e2);
      Factored(b.common, Bin(op, a.e1, b.e1), b.e2)
    else if IsOp(op, e2) then
      var a := Extract(op, common, e1, e2.left);
      var b := Extract(op, a.common, a.e1, e2.right);
      Factored(b.common, b.e1, Bin(op, a.e2, b.e2))
    else if ExprEq(e1, e2) then
      Factored(AllocOp(op, common, Some(e1)), Sym(op.Unit()), Sym(op.Unit()))
    else Factored(common, e1, e2)
  }

  // expr_extract_eq_and and expr_extract_eq_or
  function ExtractEq(op: Op, e1: Expr, e2: Expr): Factored {
    var r := Extract(op, None, e1, e2);
    if r.common.None? then r else Factored(r.common, EliminateYn(r.e1), EliminateYn(r.e2))
  }

  // the value of a possibly absent operand
  function OperandValue(op: Op, e: Option<Expr>, env: Env): Tristate {
    if e.None? then env.tri(op.Unit()) else Eval(e.value, env)
  }

  lemma {:induction false} ExtractSound(op: Op, common: Option<Expr>, e1: Expr, e2: Expr, env: Env) returns (c: Tristate)
    requires WellFormed(env)
    ensures var r := Extract(op, common, e1, e2);
      && OperandValue(op, r.common, env) == op.Apply(OperandValue(op, common, env), c)
      && Eval(e1, env) == op.Apply(c, Eval(r.e1, env))
      && Eval(e2, env) == op.Apply(c, Eval(r.e2, env))
    decreases Size(e1) + Size(e2)
  {
    hide Op.Apply, ExprEq;
    var u := OperandValue(op, common, env);
    if IsOp(op, e1) {
      var a := Extract(op, common, e1.left, e2);
      var b := Extract(op, a.common, e1.right, a.e2);
      var c1 := ExtractSound(op, common, e1.left, e2, env);
      var c2 := ExtractSound(op, a.common, e1.right, a.e2, env);
      c := op.Apply(c1, c2);
      ApplyRegroup(op, u, c1, c2, 0);
      ApplyRegroup(op, c1, Eval(a.e1, env), c2, Eval(b.e1, env));
      ApplyRegroup(op, c1, c2, Eval(b.e2, env), 0);
    } else if IsOp(op, e2) {
      var a := Extract(op, common, e1, e2.left);
      var b := Extract(op, a.common, a.e1, e2.right);
      var c1 := ExtractSound(op, common, e1, e2.left, env);
      var c2 := ExtractSound(op, a.common, a.e1, e2.right, env);
      c := op.Apply(c1, c2);
      ApplyRegroup(op, u, c1, c2, 0);
      ApplyRegroup(op, c1, Eval(a.e2, env), c2, Eval(b.e2, env));
      ApplyRegroup(op, c1, c2, Eval(b.e1, env), 0);
    } else {
      c := ExtractOperand(op, common, e1, e2, env);
    }
  }

  // one operand on either side
  lemma ExtractOperand(op: Op, common: Option<Expr>, e1: Expr, e2: Expr, env: Env) returns (c: Tristate)
    requires WellFormed(env) && !IsOp(op, e1) && !IsOp(op, e2)
    ensures var r := Extract(op, common, e1, e2);
      && OperandValue(op, r.common, env) == op.Apply(OperandValue(op, common, env), c)
      && Eval(e1, env) == op.Apply(c, Eval(r.e1, env))
      && Eval(e2, env) == op.Apply(c, Eval(r.e2, env))
  {
    hide ExprEq;
    if ExprEq(e1, e2) {
      ExprEqSound(e1, e2, env);
      c := Eval(e1, env);
    } else {
      c := env.tri(op.Unit());
    }
  }

  // Factoring loses nothing: each input is its remainder combined with the common part.
  lemma {:induction false} ExtractEqKeepsBoth(op: Op, e1: Expr, e2: Expr, env: Env)
    requires WellFormed(env)
    ensures var r := ExtractEq(op, e1, e2);
      && Eval(e1, env) == op.Apply(OperandValue(op, r.common, env), Eval(r.e1, env))
      && Eval(e2, env) == op.Apply(OperandValue(op, r.common, env), Eval(r.e2, env))
  {
    var r := Extract(op, None, e1, e2);
    var c := ExtractSound(op, None, e1, e2, env);
    YnKeepsValue(r.e1, env);
    YnKeepsValue(r.e2, env);
  }
}
