/** Constant folding (expr_eliminate_yn), equality up to reordering (expr_eq)
    and the elimination of common operands it is built on. */
module ExprEquality {
  import opened ExprCore

  // ----- expr_eliminate_yn -----

  function EliminateYn(e: Expr): Expr {
    match e
    case Bin(op, l, r) =>
      var l' := EliminateYn(l);
      var r' := EliminateYn(r);
      if l' == Sym(op.Absorb()) then Sym(op.Absorb())
      else if l' == Sym(op.Unit()) then r'
      else if r' == Sym(op.Absorb()) then Sym(op.Absorb())
      else if r' == Sym(op.Unit()) then l'
      else Bin(op, l', r')
    case _ => e
  }

  predicate IsYn(e: Expr) {
    e == Sym(Yes) || e == Sym(No)
  }

  // Some && or ||, reached through && and || only, has y or n as an operand.
  predicate HasYn(e: Expr) {
    match e
    case Bin(_, l, r) => IsYn(l) || IsYn(r) || HasYn(l) || HasYn(r)
    case _ => false
  }

  lemma {:induction false} YnKeepsValue(e: Expr, env: Env)
    requires WellFormed(env)
    ensures Eval(EliminateYn(e), env) == Eval(e, env)
  {
    match e
    case Bin(op, l, r) =>
      YnKeepsValue(l, env);
      YnKeepsValue(r, env);
    case _ =>
  }

  // The result has no y or n operand left, and it is strictly smaller
  // exactly when there was one to remove.
  lemma {:induction false} YnNormalises(e: Expr)
    ensures !HasYn(EliminateYn(e))
    ensures Size(EliminateYn(e)) <= Size(e)
    ensures HasYn(e) <==> Size(EliminateYn(e)) < Size(e)
    ensures !HasYn(e) <==> EliminateYn(e) == e
    ensures NotsOnSymbols(e) ==> NotsOnSymbols(EliminateYn(e))
  {
    match e
    case Bin(op, l, r) =>
      YnNormalises(l);
      YnNormalises(r);
    case _ =>
  }

  // ----- expr_eq, __expr_eliminate_eq and expr_eliminate_eq -----

  predicate IsConstLeaf(e: Expr) {
    // SYMBOL_YES and SYMBOL_NO are both set on every constant symbol but m
    e.Sym? && e.sym.IsConst() && e.sym != Mod
  }

  // __expr_eliminate_eq: operands that occur on both sides become the unit
  function EliminateOperands(op: Op, e1: Expr, e2: Expr): (r: (Expr, Expr))
    ensures Size(r.0) <= Size(e1) && Size(r.1) <= Size(e2)
    ensures IsOp(op, e1) ==> IsOp(op, r.0)
    ensures IsOp(op, e2) ==> IsOp(op, r.1)
    decreases Size(e1) + Size(e2), if IsOp(op, e1) || IsOp(op, e2) then 0 else 3
  {
    if IsOp(op, e1) then
      var a := EliminateOperands(op, e1.left, e2);
      var b := EliminateOperands(op, e1.right, a.1);
      (Bin(op, a.0, b.0), b.1)
    else if IsOp(op, e2) then
      var a := EliminateOperands(op, e1, e2.left);
      var b := EliminateOperands(op, a.0, e2.right);
      (b.0, Bin(op, a.1, b.1))
    else if e1 == e2 && IsConstLeaf(e1) then (e1, e2)
    else if !ExprEq(e1, e2) then (e1, e2)
    else (Sym(op.Unit()), Sym(op.Unit()))
  }

  // expr_eliminate_eq on two non-null expressions
  function EliminateEq(e1: Expr, e2: Expr): (Expr, Expr)
    decreases Size(e1) + Size(e2), 1
  {
    var a := if e1.Bin? then EliminateOperands(e1.op, e1, e2) else (e1, e2);
    var b := if a.1.Bin? && !IsOp(a.1.op, a.0) then EliminateOperands(a.1.op, a.0, a.1) else a;
    (EliminateYn(b.0), EliminateYn(b.1))
  }

  predicate ExprEq(e1: Expr, e2: Expr)
    decreases Size(e1) + Size(e2), 2
  {
    match e1
    case Bin(op, _, _) =>
      IsOp(op, e2) &&
      var r := EliminateEq(e1, e2);
      r.0.Sym? && r.0 == r.1
    case Not(a) => e2.Not? && ExprEq(a, e2.arg)
    case _ => e1 == e2
  }

  // ----- what equality means for values -----

  // The removed operands have one common value on both sides.
  lemma {:induction false} EliminateOperandsSound(op: Op, e1: Expr, e2: Expr, env: Env) returns (c: Tristate)
    requires WellFormed(env)
    ensures var r := EliminateOperands(op, e1, e2);
      && Eval(e1, env) == op.Apply(c, Eval(r.0, env))
      && Eval(e2, env) == op.Apply(c, Eval(r.1, env))
    decreases Size(e1) + Size(e2), if IsOp(op, e1) || IsOp(op, e2) then 0 else 3
  {
    if IsOp(op, e1) {
      var a := EliminateOperands(op, e1.left, e2);
      var b := EliminateOperands(op, e1.right, a.1);
      var c1 := EliminateOperandsSound(op, e1.left, e2, env);
      var c2 := EliminateOperandsSound(op, e1.right, a.1, env);
      c := op.Apply(c1, c2);
      ApplyRegroup(op, c1, Eval(a.0, env), c2, Eval(b.0, env));
      ApplyRegroup(op, c1, c2, Eval(b.1, env), 0);
    } else if IsOp(op, e2) {
      var a := EliminateOperands(op, e1, e2.left);
      var b := EliminateOperands(op, a.0, e2.right);
      var c1 := EliminateOperandsSound(op, e1, e2.left, env);
      var c2 := EliminateOperandsSound(op, a.0, e2.right, env);
      c := op.Apply(c1, c2);
      ApplyRegroup(op, c1, Eval(a.1, env), c2, Eval(b.1, env));
      ApplyRegroup(op, c1, c2, Eval(b.0, env), 0);
    } else if (e1 == e2 && IsConstLeaf(e1)) || !ExprEq(e1, e2) {
      c := env.tri(op.Unit());
    } else {
      ExprEqSound(e1, e2, env);
      c := Eval(e1, env);
    }
  }

  // Expressions that expr_eq identifies have the same value in every environment.
  lemma {:induction false} ExprEqSound(e1: Expr, e2: Expr, env: Env)
    requires WellFormed(env)
    requires ExprEq(e1, e2)
    ensures Eval(e1, env) == Eval(e2, env)
    decreases Size(e1) + Size(e2), 2
  {
    match e1
    case Bin(op, _, _) =>
      var c := EliminateOperandsSound(op, e1, e2, env);
      var r := EliminateOperands(op, e1, e2);
      YnKeepsValue(r.0, env);
      YnKeepsValue(r.1, env);
    case Not(a) => ExprEqSound(a, e2.arg, env);
    case _ =>
  }

  // When expr_eliminate_eq leaves nothing of the second expression, the first
  // was at most the second; the order between the remainders always carries
  // over to the inputs.
  lemma {:induction false} EliminateEqConservative(e1: Expr, e2: Expr, env: Env)
    requires WellFormed(env)
    ensures var r := EliminateEq(e1, e2);
      && (Eval(r.0, env) <= Eval(r.1, env) ==> Eval(e1, env) <= Eval(e2, env))
      && (Eval(r.0, env) >= Eval(r.1, env) ==> Eval(e1, env) >= Eval(e2, env))
  {
    var a := (e1, e2);
    if e1.Bin? {
      a := EliminateOperands(e1.op, e1, e2);
      var c := EliminateOperandsSound(e1.op, e1, e2, env);
    }
    var b := a;
    if a.1.Bin? && !IsOp(a.1.op, a.0) {
      b := EliminateOperands(a.1.op, a.0, a.1);
      var c := EliminateOperandsSound(a.1.op, a.0, a.1, env);
    }
    YnKeepsValue(b.0, env);
    YnKeepsValue(b.1, env);
  }

  // ----- what equality means for the shape of expressions -----

  // The normal form up to associativity and commutativity of && and ||.
  datatype Canon =
    | CLeaf(e: Expr)
    | CNot(arg: Canon)
    | CBin(op: Op, operands: multiset<Canon>)

  ghost function CanonOf(e: Expr): Canon
    decreases e, 0
  {
    match e
    case Not(x) => CNot(CanonOf(x))
    case Bin(op, l, r) => CBin(op, Operands(op, l) + Operands(op, r))
    case _ => CLeaf(e)
  }

  // the operands of e as a flattened op-expression
  ghost function Operands(op: Op, e: Expr): multiset<Canon>
    decreases e, 1
  {
    match e
    case Bin(op2, l, r) =>
      if op2 == op then Operands(op, l) + Operands(op, r) else multiset{CanonOf(e)}
    case _ => multiset{CanonOf(e)}
  }

  // No operand is a constant other than m.
  predicate ConstFree(e: Expr) {
    match e
    case Sym(_) => !IsConstLeaf(e)
    case Not(x) => ConstFree(x)
    case Bin(_, l, r) => ConstFree(l) && ConstFree(r)
    case _ => true
  }

  // The operands still to be matched: those not yet replaced by the unit.
  ghost function Remaining(op: Op, e: Expr): multiset<Canon>
  {
    if IsOp(op, e) then Remaining(op, e.left) + Remaining(op, e.right)
    else if e == Sym(op.Unit()) then multiset{}
    else multiset{CanonOf(e)}
  }

  ghost predicate Partial(op: Op, e: Expr) {
    if IsOp(op, e) then Partial(op, e.left) && Partial(op, e.right)
    else e == Sym(op.Unit()) || ConstFree(e)
  }

  lemma {:induction false} ConstFreeIsPartial(op: Op, e: Expr)
    requires ConstFree(e)
    ensures Partial(op, e) && Remaining(op, e) == Operands(op, e)
    ensures EliminateYn(e) == e && !IsYn(e)
  {
    if e.Bin? {
      ConstFreeIsPartial(op, e.left);
      ConstFreeIsPartial(op, e.right);
    }
  }

  // Constant folding keeps exactly the operands that are left.
  lemma {:induction false} YnKeepsRemaining(op: Op, e: Expr)
    requires Partial(op, e)
    ensures Remaining(op, EliminateYn(e)) == Remaining(op, e)
    ensures EliminateYn(e) == Sym(op.Unit()) <==> Remaining(op, e) == multiset{}
    ensures EliminateYn(e) != Sym(op.Absorb())
  {
    if IsOp(op, e) {
      FoldingStep(op, e);
      hide Remaining, EliminateYn;
      YnKeepsRemaining(op, e.left);
      YnKeepsRemaining(op, e.right);
      FoldedRemaining(op, EliminateYn(e.left), EliminateYn(e.right));
    } else if e == Sym(op.Unit()) {
      assert Remaining(op, e) == multiset{};
    } else {
      ConstFreeIsPartial(op, e);
      OneRemaining(op, e);
    }
  }

  // folding of an operator whose operands do not decide it
  lemma FoldingStep(op: Op, e: Expr)
    requires IsOp(op, e)
    ensures Remaining(op, e) == Remaining(op, e.left) + Remaining(op, e.right)
    ensures var l, r := EliminateYn(e.left), EliminateYn(e.right);
      l != Sym(op.Absorb()) && r != Sym(op.Absorb()) ==>
        EliminateYn(e) == if l == Sym(op.Unit()) then r else if r == Sym(op.Unit()) then l else Bin(op, l, r)
  {
  }

  lemma OneRemaining(op: Op, e: Expr)
    requires !IsOp(op, e) && ConstFree(e)
    ensures Remaining(op, e) != multiset{} && e != Sym(op.Unit()) && e != Sym(op.Absorb())
  {
    hide CanonOf;
    assert CanonOf(e) in multiset{CanonOf(e)};
  }

  // the last step of the folding of one operator
  lemma FoldedRemaining(op: Op, l: Expr, r: Expr)
    requires l != Sym(op.Absorb()) && r != Sym(op.Absorb())
    requires l == Sym(op.Unit()) <==> Remaining(op, l) == multiset{}
    requires r == Sym(op.Unit()) <==> Remaining(op, r) == multiset{}
    ensures var e := if l == Sym(op.Unit()) then r else if r == Sym(op.Unit()) then l else Bin(op, l, r);
      && Remaining(op, e) == Remaining(op, l) + Remaining(op, r)
      && (e == Sym(op.Unit()) <==> Remaining(op, l) + Remaining(op, r) == multiset{})
  {
    hide CanonOf;
    NoneOfBoth(Remaining(op, l), Remaining(op, r));
  }

  lemma NoneOfBoth<T>(a: multiset<T>, b: multiset<T>)
    ensures a + b == multiset{} <==> a == multiset{} && b == multiset{}
  {
    assert |a + b| == |a| + |b|;
  }

  lemma DifferenceInTwoSteps<T>(l: multiset<T>, r: multiset<T>, e: multiset<T>)
    ensures (l - e) + (r - (e - l)) == (l + r) - e
    ensures (e - l) - r == e - (l + r)
  {
  }

  lemma EqualDifferences<T>(a: multiset<T>, b: multiset<T>)
    ensures a - b == b - a <==> a == b
    ensures a - b == multiset{} && b - a == multiset{} <==> a == b
  {
    if a - b == b - a {
      forall x ensures a[x] == b[x] {
        assert (a - b)[x] == (b - a)[x];
      }
    }
  }

  // Greedy matching computes both multiset differences.
  lemma {:induction false} EliminateOperandsDifference(op: Op, e1: Expr, e2: Expr)
    requires Partial(op, e1) && Partial(op, e2)
    ensures var r := EliminateOperands(op, e1, e2);
      && Partial(op, r.0) && Partial(op, r.1)
      && Remaining(op, r.0) == Remaining(op, e1) - Remaining(op, e2)
      && Remaining(op, r.1) == Remaining(op, e2) - Remaining(op, e1)
    decreases Size(e1) + Size(e2), if IsOp(op, e1) || IsOp(op, e2) then 0 else 4
  {
    if IsOp(op, e1) {
      var a := EliminateOperands(op, e1.left, e2);
      var b := EliminateOperands(op, e1.right, a.1);
      assert EliminateOperands(op, e1, e2) == (Bin(op, a.0, b.0), b.1);
      hide EliminateOperands, ExprEq, ConstFree, CanonOf;
      EliminateOperandsDifference(op, e1.left, e2);
      EliminateOperandsDifference(op, e1.right, a.1);
      DifferenceInTwoSteps(Remaining(op, e1.left), Remaining(op, e1.right), Remaining(op, e2));
    } else if IsOp(op, e2) {
      var a := EliminateOperands(op, e1, e2.left);
      var b := EliminateOperands(op, a.0, e2.right);
      assert EliminateOperands(op, e1, e2) == (b.0, Bin(op, a.1, b.1));
      hide EliminateOperands, ExprEq, ConstFree, CanonOf;
      EliminateOperandsDifference(op, e1, e2.left);
      EliminateOperandsDifference(op, a.0, e2.right);
      DifferenceInTwoSteps(Remaining(op, e2.left), Remaining(op, e2.right), Remaining(op, e1));
    } else {
      OperandPairDifference(op, e1, e2);
    }
  }

  lemma OnlySelfEqualsConstant(u: Expr, e1: Expr, e2: Expr)
    requires u.Sym? && (e1 == u || e2 == u)
    ensures ExprEq(e1, e2) <==> e1 == e2
  {
  }

  lemma {:induction false} OperandPairDifference(op: Op, e1: Expr, e2: Expr)
    requires Partial(op, e1) && Partial(op, e2) && !IsOp(op, e1) && !IsOp(op, e2)
    ensures var r := EliminateOperands(op, e1, e2);
      && Partial(op, r.0) && Partial(op, r.1)
      && Remaining(op, r.0) == Remaining(op, e1) - Remaining(op, e2)
      && Remaining(op, r.1) == Remaining(op, e2) - Remaining(op, e1)
    decreases Size(e1) + Size(e2), 3
  {
    var u := Sym(op.Unit());
    var r := EliminateOperands(op, e1, e2);
    if e1 == u || e2 == u {
      OnlySelfEqualsConstant(u, e1, e2);
      assert r == (e1, e2);
    } else {
      ExprEqIsReordering(e1, e2);
      assert !IsConstLeaf(e1);
      assert Remaining(op, e1) == multiset{CanonOf(e1)} && Remaining(op, e2) == multiset{CanonOf(e2)};
      if ExprEq(e1, e2) {
        assert r == (u, u);
      } else {
        assert r == (e1, e2);
      }
    }
  }

  // expr_eq decides equality up to associativity and commutativity: the
  // operand multisets agree, although leaves are matched greedily.
  lemma {:induction false} ExprEqIsReordering(e1: Expr, e2: Expr)
    requires ConstFree(e1) && ConstFree(e2)
    ensures ExprEq(e1, e2) <==> CanonOf(e1) == CanonOf(e2)
    decreases Size(e1) + Size(e2), 2
  {
    match e1
    case Bin(op, _, _) =>
      if IsOp(op, e2) {
        ConstFreeIsPartial(op, e1);
        ConstFreeIsPartial(op, e2);
        EliminateOperandsDifference(op, e1, e2);
        var r := EliminateOperands(op, e1, e2);
        YnKeepsRemaining(op, r.0);
        YnKeepsRemaining(op, r.1);
        EqualDifferences(Remaining(op, e1), Remaining(op, e2));
      }
    case Not(a) =>
      if e2.Not? {
        ExprEqIsReordering(a, e2.arg);
      }
    case _ =>
  }

  // What is left of two expressions of one operator, or of one and a single
  // operand, are the operands that only one of them has.
  lemma EliminateEqDifference(op: Op, e1: Expr, e2: Expr)
    requires ConstFree(e1) && ConstFree(e2)
    requires IsOp(op, e1) || !e1.Bin?
    requires IsOp(op, e2) || !e2.Bin?
    requires e1.Bin? || e2.Bin?
    ensures var r := EliminateEq(e1, e2);
      && Remaining(op, r.0) == Operands(op, e1) - Operands(op, e2)
      && Remaining(op, r.1) == Operands(op, e2) - Operands(op, e1)
  {
    hide Operands, Remaining, ConstFree, EliminateYn, ExprEq, Partial;
    ConstFreeIsPartial(op, e1);
    ConstFreeIsPartial(op, e2);
    EliminateOperandsDifference(op, e1, e2);
    var r := EliminateOperands(op, e1, e2);
    YnKeepsRemaining(op, r.0);
    YnKeepsRemaining(op, r.1);
    if !e2.Bin? {
      LeafStaysLeaf(op, e1, e2);
    }
    hide EliminateOperands;
  }

  lemma {:induction false} LeafStaysLeaf(op: Op, e1: Expr, e2: Expr)
    requires !e2.Bin?
    ensures !EliminateOperands(op, e1, e2).1.Bin?
    decreases e1
  {
    hide ExprEq;
    if IsOp(op, e1) {
      LeafStaysLeaf(op, e1.left, e2);
      LeafStaysLeaf(op, e1.right, EliminateOperands(op, e1.left, e2).1);
    }
  }

  // With constants among the operands neither direction holds: both sides may
  // fold to n, and equal text constants are skipped on purpose.
  lemma ConstantsFoldTogether(a: Symbol, b: Symbol)
    requires a.Config? && b.Config? && a != b
    ensures var e1, e2 := Bin(OpAnd, Sym(a), Sym(No)), Bin(OpAnd, Sym(b), Sym(No));
      ExprEq(e1, e2) && CanonOf(e1) != CanonOf(e2)
  {
    var n := Sym(No);
    var e1, e2 := Bin(OpAnd, Sym(a), n), Bin(OpAnd, Sym(b), n);
    UnequalPair(OpAnd, Sym(a), Sym(b), n);
    assert EliminateOperands(OpAnd, n, Sym(b)) == (n, Sym(b));
    assert EliminateOperands(OpAnd, n, n) == (n, n);
    assert EliminateOperands(OpAnd, n, e2) == (n, e2);
    assert EliminateOperands(OpAnd, e1, e2) == (e1, e2);
    assert EliminateYn(Sym(a)) == Sym(a) && EliminateYn(Sym(b)) == Sym(b) && EliminateYn(n) == n;
    assert CLeaf(Sym(a)) in Operands(OpAnd, Sym(a));
    assert CLeaf(Sym(a)) in CanonOf(e1).operands;
    assert CLeaf(Sym(a)) !in Operands(OpAnd, Sym(b)) && CLeaf(Sym(a)) !in Operands(OpAnd, n);
    assert CLeaf(Sym(a)) !in CanonOf(e2).operands;
  }

  lemma TextConstantsAreSkipped(x: LiteralText, y: LiteralText)
    requires x != y
    ensures var s, t := Sym(Literal(x)), Sym(Literal(y));
      !ExprEq(Bin(OpAnd, s, t), Bin(OpAnd, t, s)) && CanonOf(Bin(OpAnd, s, t)) == CanonOf(Bin(OpAnd, t, s))
  {
    var s, t := Sym(Literal(x)), Sym(Literal(y));
    var st, ts := Bin(OpAnd, s, t), Bin(OpAnd, t, s);
    UnequalPair(OpAnd, s, t, s);
    UnequalPair(OpAnd, t, t, s);
    assert EliminateOperands(OpAnd, st, ts) == (st, ts);
    assert EliminateYn(st) == st && EliminateYn(ts) == ts;
  }

  // a leaf that matches neither operand, or only itself as a constant
  lemma UnequalPair(op: Op, a: Expr, b: Expr, c: Expr)
    requires a.Sym? && b.Sym? && c.Sym?
    requires (a == b || a == c) ==> IsConstLeaf(a)
    ensures EliminateOperands(op, a, Bin(op, b, c)) == (a, Bin(op, b, c))
  {
    assert EliminateOperands(op, a, b) == (a, b);
    assert EliminateOperands(op, a, c) == (a, c);
  }
}
