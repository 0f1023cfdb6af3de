/** The dependency part of menu_finalize: the condition of an entry, the
    visibility of a prompt, and the test that nests an entry below a symbol. */
module MenuDeps {
  import opened Options
  import opened ExprCore
  import opened ExprEquality
  import opened ExprTransform
  import opened ExprJoin
  import opened ExprDups
  import opened ExprSettled
  import opened SymbolSpec

  function Both(a: Tristate, b: Tristate): Tristate {
    OpAnd.Apply(a, b)
  }

  predicate NotsOnSymbolsOpt(e: Option<Expr>) {
    e.None? || NotsOnSymbols(e.value)
  }

  // expr_eliminate_dups(expr_alloc_and(expr_copy(outer), expr_transform(own)))
  function Conjoined(outer: Option<Expr>, own: Option<Expr>): Option<Expr> {
    var both := AllocOp(OpAnd, outer, if own.None? then None else Some(Transform(own.value)));
    if both.None? then None else Some(Deduped(both.value))
  }

  method Conjoin(outer: Option<Expr>, own: Option<Expr>) returns (r: Option<Expr>)
    ensures r == Conjoined(outer, own)
    ensures forall env: Env | WellFormed(env) :: Sharpens(Both(EvalOpt(outer, env), EvalOpt(own, env)), EvalOpt(r, env))
    ensures NotsOnSymbolsOpt(outer) ==> NotsOnSymbolsOpt(r)
    ensures r.None? <==> outer.None? && own.None?
  {
    var own' := None;
    if own.Some? {
      own' := Some(Transform(own.value));
      TransformNormalises(own.value);
    }
    var both := AllocOp(OpAnd, outer, own');
    r := both;
    if both.Some? {
      var d := EliminateDups(both.value);
      r := Some(d);
    }
    forall env: Env | WellFormed(env)
      ensures Sharpens(Both(EvalOpt(outer, env), EvalOpt(own, env)), EvalOpt(r, env))
    {
      if own.Some? {
        TransformKeepsValue(own.value, env);
      }
      assert EvalOpt(both, env) == Both(EvalOpt(outer, env), EvalOpt(own, env));
    }
  }

  // the condition the menu leaves at a property
  function PropertyCondition(entry: Option<Expr>, own: Option<Expr>, isTristate: bool): Option<Expr> {
    var dep := Conjoined(entry, own);
    if isTristate || dep.None? then dep else Some(TransBool(dep.value))
  }

  // The condition of a prompt: the entry's condition and the prompt's own one.
  // For an entry that is not a tristate FOO!=n is shortened to FOO. Wherever the
  // conjunction is definite, the prompt is hidden exactly when it is n.
  method PromptCondition(entry: Option<Expr>, own: Option<Expr>, isTristate: bool) returns (r: Option<Expr>)
    requires NotsOnSymbolsOpt(entry)
    ensures r == PropertyCondition(entry, own, isTristate) && NotsOnSymbolsOpt(r)
    ensures forall env: Env | WellFormed(env) && Both(EvalOpt(entry, env), EvalOpt(own, env)) != 1 ::
      EvalOpt(r, env) == 0 <==> Both(EvalOpt(entry, env), EvalOpt(own, env)) == 0
    ensures isTristate ==> forall env: Env | WellFormed(env) ::
      Sharpens(Both(EvalOpt(entry, env), EvalOpt(own, env)), EvalOpt(r, env))
  {
    var dep := Conjoin(entry, own);
    r := dep;
    if !isTristate && dep.Some? {
      r := Some(TransBool(dep.value));
      forall env: Env | WellFormed(env)
        ensures EvalOpt(r, env) == 0 <==> EvalOpt(dep, env) == 0
        ensures NotsOnSymbolsOpt(r)
      {
        TransBoolKeepsVisibility(dep.value, env);
      }
      NotsAfterTransBool(dep.value);
    }
  }

  lemma {:induction false} NotsAfterTransBool(e: Expr)
    requires NotsOnSymbols(e)
    ensures NotsOnSymbols(TransBool(e))
  {
    if e.Bin? {
      NotsAfterTransBool(e.left);
      NotsAfterTransBool(e.right);
    }
  }

  // expr_eliminate_dups(expr_transform(expr_trans_compare(e, E_UNEQUAL, &symbol_no)))
  function IsNotNo(e: Option<Expr>): Expr {
    Deduped(Transform(TransCompareOpt(e, false, No)))
  }

  lemma IsNotNoKeeps(e: Option<Expr>, env: Env)
    requires WellFormed(env)
    ensures Eval(IsNotNo(e), env) == Eval(TransCompareOpt(e, false, No), env)
  {
    var c := TransCompareOpt(e, false, No);
    TransformKeepsValue(c, env);
    if e.Some? {
      TransCompareDefinite(e.value, false, No, env);
    }
    DedupedSharpens(Transform(c), env);
  }

  method NotNo(e: Option<Expr>) returns (r: Expr)
    ensures r == IsNotNo(e)
    ensures forall env: Env | WellFormed(env) ::
      Eval(r, env) == Eval(TransCompareOpt(e, false, No), env)
  {
    r := EliminateDups(Transform(TransCompareOpt(e, false, No)));
    forall env: Env | WellFormed(env)
      ensures Eval(r, env) == Eval(TransCompareOpt(e, false, No), env)
    {
      IsNotNoKeeps(e, env);
    }
  }

  // A condition that is passed down and the comparison prepared for the nesting
  // test have no two operands left that are equal or can be joined.
  lemma ConditionsAreSettled(outer: Option<Expr>, own: Option<Expr>, c: Expr, x: Expr, p: Path, q: Path)
    requires Conjoined(outer, own) == Some(c) || c == IsNotNo(own)
    requires Reached(c, x) && x.Bin? && Slot(x.op, x, p) && Slot(x.op, x, q) && p != q
    ensures !Mergeable(x.op, Get(x.op, x, p), Get(x.op, x, q))
  {
    hide Deduped, Mergeable, Transform;
    if Conjoined(outer, own) == Some(c) {
      var both := AllocOp(OpAnd, outer, if own.None? then None else Some(Transform(own.value)));
      NothingToJoin(both.value, x, p, q);
    } else {
      NothingToJoin(Transform(TransCompareOpt(own, false, No)), x, p, q);
    }
  }

  predicate LogicalOpt(e: Option<Expr>) {
    e.None? || Logical(e.value)
  }

  // the comparison of e with n is right
  ghost predicate ReadRight(e: Option<Expr>, env: Env) {
    e.Some? ==> (ReadValue(e.value, No, env) == 0 <==> Eval(e.value, env) == 0)
  }

  // it is wherever no negation is applied to m
  lemma DefiniteReadRight(e: Option<Expr>, env: Env)
    requires e.Some? ==> NegationsDefinite(e.value, env)
    ensures ReadRight(e, env)
  {
    if e.Some? {
      DefiniteIsReadRight(e.value, No, env);
    }
  }

  // The test of one following entry: is it nested below sym, whose prompt has
  // the condition base?
  function NestingTest(sym: Symbol, base: Option<Expr>, dep: Option<Expr>): bool {
    dep.Some? && Contains(dep.value, sym) &&
    (Depends(dep.value, sym) || IsYes(Some(EliminateEq(IsNotNo(dep), IsNotNo(base)).1)))
  }

  // operands of && that keep an entry from being shown while the symbol is n
  predicate Needs(e: Expr, s: Symbol) {
    e == Sym(s) || e == Equal(s, Yes) || e == Equal(s, Mod) || e == Unequal(s, No)
  }

  ghost predicate NeedsAt(e: Expr, p: Path, s: Symbol) {
    OnSpine(OpAnd, e, p) && Needs(Get(OpAnd, e, p), s)
  }

  // An expression depends on a symbol exactly if it is such a test or has one
  // among its operands.
  lemma DependsExactly(e: Expr, s: Symbol)
    ensures Depends(e, s) <==> exists p :: NeedsAt(e, p, s)
  {
    if Depends(e, s) {
      var p := NeededOperand(e, s);
    }
    forall p | NeedsAt(e, p, s)
      ensures Depends(e, s)
    {
      OperandNeeded(e, s, p);
    }
  }

  lemma {:induction false} NeededOperand(e: Expr, s: Symbol) returns (p: Path)
    requires Depends(e, s)
    ensures NeedsAt(e, p, s)
  {
    if e.Bin? {
      var d := if Depends(e.left, s) then Left else Right;
      var q := NeededOperand(Child(e, d), s);
      StepDown(e, d, q);
      p := [d] + q;
    } else {
      p := [];
    }
  }

  lemma {:induction false} OperandNeeded(e: Expr, s: Symbol, p: Path)
    requires NeedsAt(e, p, s)
    ensures Depends(e, s)
    decreases p
  {
    if p != [] {
      OperandNeeded(Child(e, p[0]), s, p[1..]);
    }
  }

  lemma StepDown(e: Expr, d: Dir, p: Path)
    requires IsOp(OpAnd, e) && OnSpine(OpAnd, Child(e, d), p)
    ensures OnSpine(OpAnd, e, [d] + p) && Get(OpAnd, e, [d] + p) == Get(OpAnd, Child(e, d), p)
  {
    assert ([d] + p)[1..] == p;
  }

  // a symbol is contained exactly if it is an operand or compared
  lemma {:induction false} ContainsExactly(e: Expr, s: Symbol)
    ensures Contains(e, s) <==> s in Syms(e)
  {
    match e
    case Not(x) => ContainsExactly(x, s);
    case Bin(_, l, r) =>
      ContainsExactly(l, s);
      ContainsExactly(r, s);
    case _ =>
  }

  // An entry with such an operand is nested, whatever the prompt's condition.
  lemma NestedIfNeeded(sym: Symbol, base: Option<Expr>, dep: Option<Expr>, p: Path)
    requires dep.Some? && NeedsAt(dep.value, p, sym)
    ensures NestingTest(sym, base, dep)
  {
    hide IsNotNo;
    DependsExactly(dep.value, sym);
    DependsContains(dep.value, sym);
  }

  // Any other entry is nested exactly if it names the symbol and, where the
  // comparisons with n have no constants, every operand of that of the prompt's
  // condition is one of its own.
  lemma NestedExactly(sym: Symbol, base: Option<Expr>, dep: Option<Expr>)
    requires dep.Some? && IsOp(OpAnd, IsNotNo(dep)) && ConstFree(IsNotNo(dep)) && ConstFree(IsNotNo(base))
    requires forall p :: !NeedsAt(dep.value, p, sym)
    ensures NestingTest(sym, base, dep) <==> sym in Syms(dep.value) && Operands(OpAnd, IsNotNo(base)) <= Operands(OpAnd, IsNotNo(dep))
  {
    hide IsNotNo, Operands, ConstFree, EliminateEq;
    DependsExactly(dep.value, sym);
    ContainsExactly(dep.value, sym);
    NothingLeftExactly(IsNotNo(dep), IsNotNo(base));
  }

  // nothing is left of b exactly if its operands are among those of d
  lemma NothingLeftExactly(d: Expr, b: Expr)
    requires IsOp(OpAnd, d) && ConstFree(d) && ConstFree(b)
    ensures EliminateEq(d, b).1 == Sym(Yes) <==> Operands(OpAnd, b) <= Operands(OpAnd, d)
  {
    hide Operands, Remaining, ConstFree, EliminateYn, EliminateOperands, Partial;
    ConstFreeIsPartial(OpAnd, d);
    ConstFreeIsPartial(OpAnd, b);
    EliminateOperandsDifference(OpAnd, d, b);
    var r := EliminateOperands(OpAnd, d, b);
    YnKeepsRemaining(OpAnd, r.1);
    NoDifference(Operands(OpAnd, b), Operands(OpAnd, d));
    if IsOp(OpOr, r.1) {
      SecondRound(d, b);
    }
  }

  // a disjunction was matched by no operand, and no single match removes it
  lemma SecondRound(d: Expr, b: Expr)
    requires IsOp(OpAnd, d) && ConstFree(d) && ConstFree(b) && IsOp(OpOr, EliminateOperands(OpAnd, d, b).1)
    ensures EliminateEq(d, b).1 != Sym(Yes) && EliminateYn(EliminateOperands(OpAnd, d, b).1) != Sym(Yes)
  {
    hide Operands, Remaining, ConstFree, EliminateYn, EliminateOperands, Partial;
    assert b != Sym(Yes) by { ConstFreeIsPartial(OpAnd, b); }
    Unmatched(d, b);
    ConstFreeIsPartial(OpOr, d);
    ConstFreeIsPartial(OpOr, b);
    EliminateOperandsDifference(OpOr, d, b);
    YnKeepsRemaining(OpOr, EliminateOperands(OpOr, d, b).1);
    YnKeepsRemaining(OpOr, b);
  }

  lemma {:induction false} Unmatched(d: Expr, b: Expr)
    requires !IsOp(OpAnd, b) && b != Sym(Yes)
    ensures var r := EliminateOperands(OpAnd, d, b); (r == (d, b)) || r.1 == Sym(Yes)
    ensures EliminateOperands(OpAnd, d, Sym(Yes)).1 == Sym(Yes)
  {
    hide ExprEq;
    if IsOp(OpAnd, d) {
      Unmatched(d.left, b);
      Unmatched(d.right, b);
    } else {
      OnlySelfEqualsConstant(Sym(Yes), d, Sym(Yes));
    }
  }

  // An entry that is nested is never shown without its parent: where its
  // condition is not n, either the symbol is set or the prompt of the symbol is
  // visible. The comparison of the entry's condition with n must be right; the
  // prompt's condition, in normal form, is free.
  lemma NestedIsShownWithParent(sym: Symbol, base: Option<Expr>, dep: Option<Expr>, env: Env)
    requires NestingTest(sym, base, dep) && sym.IsTristateType() && LogicalOpt(base) && LogicalOpt(dep) && WellFormed(env)
    requires ReadRight(dep, env) && (NotsOnSymbolsOpt(base) || ReadRight(base, env))
    ensures EvalOpt(dep, env) != 0 ==> env.tri(sym) != 0 || EvalOpt(base, env) != 0
  {
    hide Deduped;
    if Depends(dep.value, sym) {
      DependsForcesSymbol(dep.value, sym, env);
    } else {
      IsNotNoKeeps(dep, env);
      IsNotNoKeeps(base, env);
      EliminateEqConservative(IsNotNo(dep), IsNotNo(base), env);
      TransCompareReads(dep.value, false, No, env);
      if base.Some? {
        TransCompareReads(base.value, false, No, env);
        if NotsOnSymbols(base.value) {
          ReadValueBelow(base.value, env);
        }
      }
    }
  }

  // For conditions in normal form, which is what the menu gives the test, that
  // is exact: a nested entry that is neither with its symbol nor with a visible
  // prompt stays hidden if and only if its comparison with n is right.
  lemma NestedHiddenExactly(sym: Symbol, base: Option<Expr>, dep: Option<Expr>, env: Env)
    requires NestingTest(sym, base, dep) && sym.IsTristateType() && LogicalOpt(base) && LogicalOpt(dep) && WellFormed(env)
    requires NotsOnSymbolsOpt(dep) && NotsOnSymbolsOpt(base)
    ensures (EvalOpt(dep, env) != 0 ==> env.tri(sym) != 0 || EvalOpt(base, env) != 0)
      <==> (ReadRight(dep, env) || env.tri(sym) != 0 || EvalOpt(base, env) != 0)
  {
    hide NestingTest;
    assert dep.Some? by { NestedHasCondition(sym, base, dep); }
    ReadValueBelow(dep.value, env);
    if ReadRight(dep, env) {
      NestedIsShownWithParent(sym, base, dep, env);
    }
  }

  lemma NestedHasCondition(sym: Symbol, base: Option<Expr>, dep: Option<Expr>)
    requires NestingTest(sym, base, dep)
    ensures dep.Some?
  {
  }

  // With a negation of m in the entry's condition this fails: !x && s!=m is
  // nested below s with the prompt condition x=n, and is shown, as m, where x
  // is m and s is n.
  lemma NestedWithoutParent(x: Symbol, s: Symbol, env: Env)
    requires x.Type() == Tristated && s.Type() == Tristated && x != s
    requires WellFormed(env) && env.tri(x) == 1 && env.tri(s) == 0
    ensures var base, dep := Some(Equal(x, No)), Some(Bin(OpAnd, Not(Sym(x)), Unequal(s, Mod)));
      && NestingTest(s, base, dep)
      && EvalOpt(dep, env) == 1 && EvalOpt(base, env) == 0 && env.tri(s) == 0
      && Eval(IsNotNo(dep), env) == 0 && Eval(IsNotNo(base), env) == 0
  {
    var base, dep := Some(Equal(x, No)), Some(Bin(OpAnd, Not(Sym(x)), Unequal(s, Mod)));
    assert env.str(x) == TristateName(1) && env.str(s) == TristateName(0);
    var d := Bin(OpAnd, Equal(x, No), Unequal(s, Mod));
    TestsOfPair(x, s);
    assert IsNotNo(dep) == d && IsNotNo(base) == Equal(x, No);
    assert EliminateOperands(OpAnd, Equal(x, No), Equal(x, No)) == (Sym(Yes), Sym(Yes));
    assert EliminateOperands(OpAnd, Unequal(s, Mod), Sym(Yes)) == (Unequal(s, Mod), Sym(Yes));
    assert EliminateOperands(OpAnd, d, Equal(x, No)) == (Bin(OpAnd, Sym(Yes), Unequal(s, Mod)), Sym(Yes));
    assert EliminateEq(d, Equal(x, No)).1 == Sym(Yes);
    hide Deduped;
    assert !Depends(dep.value, s) && Contains(dep.value, s);
    assert "n" != "m" && env.str(s) != env.str(Mod) && env.str(x) != env.str(No);
    assert Eval(Unequal(s, Mod), env) == 2 && Eval(Not(Sym(x)), env) == 1;
    assert Eval(dep.value, env) == 1;
    assert Eval(d, env) == 0 && Eval(Equal(x, No), env) == 0;
    assert NestingTest(s, base, dep);
  }

  lemma TestsOfPair(x: Symbol, s: Symbol)
    requires x.Type() == Tristated && s.Type() == Tristated && x != s
    ensures IsNotNo(Some(Equal(x, No))) == Equal(x, No)
    ensures IsNotNo(Some(Bin(OpAnd, Not(Sym(x)), Unequal(s, Mod)))) == Bin(OpAnd, Equal(x, No), Unequal(s, Mod))
  {
    var d := Bin(OpAnd, Equal(x, No), Unequal(s, Mod));
    var c := TransCompare(Bin(OpAnd, Not(Sym(x)), Unequal(s, Mod)), false, No);
    assert TransCompare(Not(Sym(x)), true, No) == TransCompare(Sym(x), false, No) == Unequal(x, No);
    assert TransCompare(Unequal(s, Mod), true, No) == Not(Unequal(s, Mod));
    assert c == Not(Bin(OpOr, Unequal(x, No), Not(Unequal(s, Mod))));
    assert Transform(Not(Unequal(s, Mod))) == Equal(s, Mod);
    assert Transform(Bin(OpOr, Unequal(x, No), Not(Unequal(s, Mod)))) == Bin(OpOr, Unequal(x, No), Equal(s, Mod));
    assert Transform(Not(Unequal(x, No))) == Equal(x, No);
    assert Transform(Not(Equal(s, Mod))) == Unequal(s, Mod);
    assert Transform(Bin(OpAnd, Not(Unequal(x, No)), Not(Equal(s, Mod)))) == d;
    assert Transform(c) == d;
    PairIsFixed(Equal(x, No), Unequal(s, Mod));
  }

  // no round finds anything in two tests of different symbols
  lemma PairIsFixed(a: Expr, b: Expr)
    requires a.Equal? && b.Unequal? && a.lhs != b.lhs
    ensures Deduped(Bin(OpAnd, a, b)) == Bin(OpAnd, a, b)
  {
    LeafPairStays(OpAnd, a, b);
  }

  method Nests(sym: Symbol, base: Option<Expr>, dep: Option<Expr>) returns (nests: bool)
    ensures nests == NestingTest(sym, base, dep)
  {
    var basedep := NotNo(base);
    if dep.None? || !Contains(dep.value, sym) {
      return false;
    }
    if Depends(dep.value, sym) {
      return true;
    }
    var d := NotNo(dep);
    nests := IsYes(Some(EliminateEq(d, basedep).1));
  }
}
