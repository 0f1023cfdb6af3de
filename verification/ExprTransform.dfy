/** Rewriting of expressions: negation normal form (expr_transform),
    comparison of an expression with a constant (expr_trans_compare),
    the bool shortcut (expr_trans_bool) and the dependency tests. */
module ExprTransform {
  import opened Options
  import opened ExprCore
  import opened ExprEquality

  // ----- expr_transform -----

  // The measure that pushing a negation inwards decreases.
  function Weight(e: Expr): nat {
    match e
    case Sym(_) => 1
    case Not(x) => 2 * Weight(x)
    case Bin(_, l, r) => 1 + Weight(l) + Weight(r)
    case _ => 2
  }

  lemma {:induction false} WeightPositive(e: Expr)
    ensures Weight(e) >= 1
  {
    match e
    case Not(x) => WeightPositive(x);
    case Bin(_, l, r) => WeightPositive(l); WeightPositive(r);
    case _ =>
  }

  function TransformSymbolTest(equal: bool, s: Symbol, c: Symbol): Expr
    // a comparison of a bool with y, m or n; other comparisons stay
  {
    var same := if equal then Equal(s, c) else Unequal(s, c);
    if s.Type() != Boolean then same
    else match c
      case No => if equal then Not(Sym(s)) else Sym(s)
      case Mod => Sym(if equal then No else Yes)
      case Yes => if equal then Sym(s) else Not(Sym(s))
      case _ => same
  }

  function NegateSymbol(s: Symbol): Expr {
    match s
    case Yes => Sym(No)
    case Mod => Sym(Mod)
    case No => Sym(Yes)
    case _ => Not(Sym(s))
  }

  function Transform(e: Expr): (r: Expr)
    ensures Weight(r) <= Weight(e)
    decreases Weight(e)
  {
    WeightPositive(e);
    match e
    case Sym(_) => e
    case Equal(l, c) => TransformSymbolTest(true, l, c)
    case Unequal(l, c) => TransformSymbolTest(false, l, c)
    case Bin(op, l, r) => WeightPositive(l); WeightPositive(r); Bin(op, Transform(l), Transform(r))
    case Not(x) =>
      WeightPositive(x);
      var x' := Transform(x);
      WeightPositive(x');
      match x'
      case Not(y) => WeightPositive(y); Transform(y)
      case Equal(l, c) => Unequal(l, c)
      case Unequal(l, c) => Equal(l, c)
      // the result is transformed again: the negations still have to sink
      case Bin(op, l, r) =>
        assert Weight(Not(l)) == 2 * Weight(l) && Weight(Not(r)) == 2 * Weight(r);
        Transform(Bin(op.Dual(), Not(l), Not(r)))
      case Sym(s) => NegateSymbol(s)
  }

  lemma {:induction false} TransformKeepsValue(e: Expr, env: Env)
    requires WellFormed(env)
    ensures Eval(Transform(e), env) == Eval(e, env)
    decreases Weight(e)
  {
    WeightPositive(e);
    match e
    case Bin(op, l, r) =>
      WeightPositive(l);
      WeightPositive(r);
      TransformKeepsValue(l, env);
      TransformKeepsValue(r, env);
    case Not(x) =>
      WeightPositive(x);
      var x' := Transform(x);
      WeightPositive(x');
      TransformKeepsValue(x, env);
      match x' {
        case Not(y) => WeightPositive(y); TransformKeepsValue(y, env);
        case Bin(op, l, r) =>
          assert Weight(Not(l)) == 2 * Weight(l) && Weight(Not(r)) == 2 * Weight(r);
          TransformKeepsValue(Bin(op.Dual(), Not(l), Not(r)), env);
        case _ =>
      }
    case _ =>
  }

  // Negation normal form: ! only on symbols other than y, m and n, and no
  // comparison of a bool with y, m or n.
  predicate Transformed(e: Expr) {
    match e
    case Sym(_) => true
    case Equal(l, c) => TransformSymbolTest(true, l, c) == e
    case Unequal(l, c) => TransformSymbolTest(false, l, c) == e
    case Not(x) => x.Sym? && x.sym !in {Yes, Mod, No}
    case Bin(_, l, r) => Transformed(l) && Transformed(r)
  }

  lemma {:induction false} TransformNormalises(e: Expr)
    ensures Transformed(Transform(e))
    ensures NotsOnSymbols(Transform(e))
    decreases Weight(e)
  {
    WeightPositive(e);
    match e
    case Bin(op, l, r) =>
      WeightPositive(l);
      WeightPositive(r);
      TransformNormalises(l);
      TransformNormalises(r);
    case Not(x) =>
      WeightPositive(x);
      var x' := Transform(x);
      WeightPositive(x');
      TransformNormalises(x);
      match x' {
        case Not(y) => WeightPositive(y); TransformNormalises(y);
        case Bin(op, l, r) =>
          assert Weight(Not(l)) == 2 * Weight(l) && Weight(Not(r)) == 2 * Weight(r);
          TransformNormalises(Bin(op.Dual(), Not(l), Not(r)));
        case _ =>
      }
    case _ =>
  }

  // A normal form is left alone, so the pass is idempotent.
  lemma {:induction false} TransformFixes(e: Expr)
    ensures Transform(e) == e <==> Transformed(e)
    ensures Transform(Transform(e)) == Transform(e)
  {
    TransformNormalises(e);
    if Transformed(e) {
      TransformedIsFixed(e);
    }
    TransformedIsFixed(Transform(e));
  }

  lemma {:induction false} TransformedIsFixed(e: Expr)
    requires Transformed(e)
    ensures Transform(e) == e
  {
    match e
    case Bin(_, l, r) => TransformedIsFixed(l); TransformedIsFixed(r);
    case _ =>
  }

  // ----- expr_trans_bool -----

  function TransBool(e: Expr): Expr {
    match e
    case Bin(op, l, r) => Bin(op, TransBool(l), TransBool(r))
    case Not(x) => Not(TransBool(x))
    case Unequal(l, c) => if l.Type() == Tristated && c == No then Sym(l) else e
    case _ => e
  }

  // With negations on symbols only, as expr_transform leaves them, "n or not n" is kept, although m may replace y.
  lemma {:induction false} TransBoolKeepsVisibility(e: Expr, env: Env)
    requires WellFormed(env) && NotsOnSymbols(e)
    ensures Eval(TransBool(e), env) <= Eval(e, env)
    ensures Eval(TransBool(e), env) == 0 <==> Eval(e, env) == 0
    ensures NotsOnSymbols(TransBool(e))
  {
    match e
    case Bin(op, l, r) =>
      TransBoolKeepsVisibility(l, env);
      TransBoolKeepsVisibility(r, env);
    case Unequal(l, c) =>
      if l.Type() == Tristated && c == No {
        assert env.str(l) == TristateName(env.tri(l));
      }
    case _ =>
  }

  // The value itself is kept exactly when no rewritten test sits on a
  // symbol that is m where it decides; a single test already shows it.
  lemma TransBoolTestExact(s: Symbol, env: Env)
    requires WellFormed(env) && s.Type() == Tristated
    ensures Eval(TransBool(Unequal(s, No)), env) == Eval(Unequal(s, No), env) <==> env.tri(s) != 1
  {
    assert env.str(s) == TristateName(env.tri(s));
  }

  // a test FOO!=n of a tristate stands somewhere
  predicate HasTest(e: Expr) {
    match e
    case Bin(_, l, r) => HasTest(l) || HasTest(r)
    case Not(x) => HasTest(x)
    case Unequal(l, c) => l.Type() == Tristated && c == No
    case _ => false
  }

  // All such tests are rewritten, and nothing else is.
  lemma {:induction false} TransBoolRewrites(e: Expr)
    ensures !HasTest(TransBool(e)) && Size(TransBool(e)) == Size(e)
    ensures TransBool(e) == e <==> !HasTest(e)
  {
    match e
    case Bin(_, l, r) =>
      TransBoolRewrites(l);
      TransBoolRewrites(r);
    case Not(x) => TransBoolRewrites(x);
    case _ =>
  }

  // ----- expr_trans_compare -----

  // Comparison of an expression with y or n; equal is the E_EQUAL / E_UNEQUAL argument.
  function TransCompare(e: Expr, equal: bool, c: Symbol): Expr
    requires c == Yes || c == No
  {
    match e
    case Bin(op, l, r) =>
      var join := if c == Yes then op else op.Dual();
      var both := Bin(join, TransCompare(l, true, c), TransCompare(r, true, c));
      if equal then both else Not(both)
    case Not(x) => TransCompare(x, !equal, c)
    case Sym(s) => if equal then Equal(s, c) else Unequal(s, c)
    case _ => if equal == (c == Yes) then e else Not(e)
  }

  function TransCompareOpt(e: Option<Expr>, equal: bool, c: Symbol): Expr
    requires c == Yes || c == No
  {
    match e
    case None => if equal then Sym(c) else Not(Sym(c))
    case Some(x) => TransCompare(x, equal, c)
  }

  // every operand symbol is a bool, a tristate or one of y, m and n
  predicate Logical(e: Expr) {
    match e
    case Sym(s) => s.IsTristateType() || s in {Yes, Mod, No}
    case Not(x) => Logical(x)
    case Bin(_, l, r) => Logical(l) && Logical(r)
    case _ => true
  }

  // no negated subexpression has the value m
  ghost predicate NegationsDefinite(e: Expr, env: Env) {
    match e
    case Not(x) => Eval(x, env) != 1 && NegationsDefinite(x, env)
    case Bin(_, l, r) => NegationsDefinite(l, env) && NegationsDefinite(r, env)
    case _ => true
  }

  lemma {:induction false} TransCompareDefinite(e: Expr, equal: bool, c: Symbol, env: Env)
    requires WellFormed(env) && (c == Yes || c == No)
    ensures Eval(TransCompare(e, equal, c), env) != 1
  {
    match e
    case Bin(op, l, r) =>
      TransCompareDefinite(l, true, c, env);
      TransCompareDefinite(r, true, c, env);
    case Not(x) => TransCompareDefinite(x, !equal, c, env);
    case _ =>
  }

  // Under a negation of m the rule gives the opposite answer.
  lemma TransCompareNegatedMod(s: Symbol, equal: bool, c: Symbol, env: Env)
    requires WellFormed(env) && (c == Yes || c == No) && s.IsTristateType()
    ensures Eval(TransCompare(Not(Sym(s)), equal, c), env)
         == (if (Eval(Not(Sym(s)), env) == env.tri(c)) == equal then 2 else 0)
       <==> env.tri(s) != 1
  {
    assert env.str(s) == TristateName(env.tri(s));
  }

  // The value with ! as the comparison with c reads it: !m is n when n is asked
  // for, and y when y is asked for.
  function ReadValue(e: Expr, c: Symbol, env: Env): Tristate
    requires c == Yes || c == No
  {
    match e
    case Not(x) =>
      var v := ReadValue(x, c, env);
      if c == No then (if v == 0 then 2 else 0) else (if v == 2 then 0 else 2)
    case Bin(op, l, r) => op.Apply(ReadValue(l, c, env), ReadValue(r, c, env))
    case _ => Eval(e, env)
  }

  // What the comparison says, in every environment: it compares that value.
  lemma {:induction false} TransCompareReads(e: Expr, equal: bool, c: Symbol, env: Env)
    requires WellFormed(env) && (c == Yes || c == No) && Logical(e)
    ensures Eval(TransCompare(e, equal, c), env) == if (ReadValue(e, c, env) == env.tri(c)) == equal then 2 else 0
  {
    match e
    case Bin(op, l, r) =>
      TransCompareReads(l, true, c, env);
      TransCompareReads(r, true, c, env);
    case Not(x) => TransCompareReads(x, !equal, c, env);
    case Sym(s) =>
      assert env.str(s) == TristateName(env.tri(s));
    case _ =>
  }

  // So it is right if and only if reading !m this way does not change the answer.
  lemma TransCompareRight(e: Expr, equal: bool, c: Symbol, env: Env)
    requires WellFormed(env) && (c == Yes || c == No) && Logical(e)
    ensures Eval(TransCompare(e, equal, c), env) == (if (Eval(e, env) == env.tri(c)) == equal then 2 else 0)
       <==> (ReadValue(e, c, env) == env.tri(c) <==> Eval(e, env) == env.tri(c))
  {
    TransCompareReads(e, equal, c, env);
  }

  // Where no negation is applied to m, every expression is read as it is.
  lemma {:induction false} DefiniteIsReadRight(e: Expr, c: Symbol, env: Env)
    requires (c == Yes || c == No) && NegationsDefinite(e, env)
    ensures ReadValue(e, c, env) == Eval(e, env)
  {
    match e
    case Bin(_, l, r) =>
      DefiniteIsReadRight(l, c, env);
      DefiniteIsReadRight(r, c, env);
    case Not(x) => DefiniteIsReadRight(x, c, env);
    case _ =>
  }

  // In particular it is right wherever no negation is applied to m.
  lemma TransCompareExact(e: Expr, equal: bool, c: Symbol, env: Env)
    requires WellFormed(env) && (c == Yes || c == No) && Logical(e)
    requires NegationsDefinite(e, env)
    ensures Eval(TransCompare(e, equal, c), env) == if (Eval(e, env) == env.tri(c)) == equal then 2 else 0
  {
    TransCompareReads(e, equal, c, env);
    DefiniteIsReadRight(e, c, env);
  }

  // With negations on symbols the value read for n is never the larger one,
  lemma {:induction false} ReadValueBelow(e: Expr, env: Env)
    requires NotsOnSymbols(e)
    ensures ReadValue(e, No, env) <= Eval(e, env) <= ReadValue(e, Yes, env)
  {
    match e
    case Bin(op, l, r) =>
      ReadValueBelow(l, env);
      ReadValueBelow(r, env);
    case _ =>
  }

  // so that "not n" is never claimed wrongly, and n is never missed.
  lemma TransCompareOneSided(e: Expr, env: Env)
    requires WellFormed(env) && NotsOnSymbols(e) && Logical(e)
    ensures Eval(TransCompare(e, false, No), env) == 2 ==> Eval(e, env) != 0
    ensures Eval(e, env) == 0 ==> Eval(TransCompare(e, true, No), env) == 2
  {
    ReadValueBelow(e, env);
    TransCompareReads(e, false, No, env);
    TransCompareReads(e, true, No, env);
  }

  // ----- expr_contains_symbol and expr_depends_symbol -----

  predicate Contains(e: Expr, s: Symbol) {
    match e
    case Bin(_, l, r) => Contains(l, s) || Contains(r, s)
    case Not(x) => Contains(x, s)
    case Sym(t) => t == s
    case Equal(l, r) => l == s || r == s
    case Unequal(l, r) => l == s || r == s
  }

  predicate Depends(e: Expr, s: Symbol) {
    match e
    case Bin(op, l, r) => op == OpAnd && (Depends(l, s) || Depends(r, s))
    case Sym(t) => t == s
    case Equal(l, r) => l == s && (r == Yes || r == Mod)
    case Unequal(l, r) => l == s && r == No
    case Not(_) => false
  }

  lemma {:induction false} DependsContains(e: Expr, s: Symbol)
    requires Depends(e, s)
    ensures Contains(e, s)
  {
    if e.Bin? {
      if Depends(e.left, s) {
        DependsContains(e.left, s);
      } else {
        DependsContains(e.right, s);
      }
    }
  }

  // A dependency forces the symbol: where the
  // expression is not n, neither is the symbol.
  lemma {:induction false} DependsForcesSymbol(e: Expr, s: Symbol, env: Env)
    requires WellFormed(env) && Depends(e, s) && s.IsTristateType()
    ensures Eval(e, env) != 0 ==> env.tri(s) != 0
  {
    match e
    case Bin(_, l, r) =>
      if Depends(l, s) {
        DependsForcesSymbol(l, s, env);
      } else {
        DependsForcesSymbol(r, s, env);
      }
    case Equal(_, _) => assert env.str(s) == TristateName(env.tri(s));
    case Unequal(_, _) => assert env.str(s) == TristateName(env.tri(s));
    case _ =>
  }

  // The value depends only on the symbols the expression contains.
  lemma {:induction false} ValueOfContained(e: Expr, env: Env, env': Env)
    requires forall s: Symbol :: Contains(e, s) ==> env.tri(s) == env'.tri(s) && env.str(s) == env'.str(s)
    ensures Eval(e, env) == Eval(e, env')
  {
    match e
    case Not(x) => ValueOfContained(x, env, env');
    case Bin(_, l, r) => ValueOfContained(l, env, env'); ValueOfContained(r, env, env');
    case _ =>
  }
}
