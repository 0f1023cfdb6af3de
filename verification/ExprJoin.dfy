/** Two operands of one && or || that can be merged into one expression
    (expr_join_or and expr_join_and). */
module ExprJoin {
  import opened Options
  import opened ExprCore
  import opened ExprEquality

  // The symbol a candidate operand is about, as far as joining looks at it.
  function LeftSubject(e: Expr): Option<Symbol> {
    match e
    case Sym(s) => Some(s)
    case Equal(l, _) => Some(l)
    case Unequal(l, _) => Some(l)
    case Not(Sym(s)) => Some(s)
    case Not(Equal(l, _)) => Some(l)
    case Not(Unequal(l, _)) => Some(l)
    case _ => None
  }

  function RightSubject(e: Expr): Option<Symbol> {
    match e
    case Sym(s) => Some(s)
    case Equal(l, _) => Some(l)
    case Unequal(l, _) => Some(l)
    case Not(Sym(s)) => Some(s)
    case _ => None
  }

  // both arguments are the same test, on the constants c and d in either order
  predicate TestPair(c1: Symbol, c2: Symbol, c: Symbol, d: Symbol) {
    (c1 == c && c2 == d) || (c1 == d && c2 == c)
  }

  function JoinOr(e1: Expr, e2: Expr): Option<Expr> {
    if ExprEq(e1, e2) then Some(e1)
    else
      var s := LeftSubject(e1);
      if s.None? || s != RightSubject(e2) || !s.value.IsTristateType() then None
      else
        var sym := s.value;
        if sym.Type() == Tristated && e1.Equal? && e2.Equal? && TestPair(e1.rhs, e2.rhs, Yes, Mod) then
          Some(Unequal(sym, No))
        else if sym.Type() == Tristated && e1.Equal? && e2.Equal? && TestPair(e1.rhs, e2.rhs, Yes, No) then
          Some(Unequal(sym, Mod))
        else if sym.Type() == Tristated && e1.Equal? && e2.Equal? && TestPair(e1.rhs, e2.rhs, Mod, No) then
          Some(Unequal(sym, Yes))
        else if sym.Type() == Boolean && ((e1.Not? && e1.arg.Sym? && e2.Sym?) || (e2.Not? && e2.arg.Sym? && e1.Sym?)) then
          Some(Sym(Yes))
        else None
  }

  // one operand is the bare symbol, the other compares it with c
  predicate SymbolWithTest(e1: Expr, e2: Expr, equal: bool, c: Symbol) {
    (e1.Sym? && IsTest(e2, equal, c)) || (e2.Sym? && IsTest(e1, equal, c))
  }

  predicate IsTest(e: Expr, equal: bool, c: Symbol) {
    if equal then e.Equal? && e.rhs == c else e.Unequal? && e.rhs == c
  }

  function JoinAnd(e1: Expr, e2: Expr): Option<Expr> {
    if ExprEq(e1, e2) then Some(e1)
    else
      var s := LeftSubject(e1);
      if s.None? || s != RightSubject(e2) || !s.value.IsTristateType() then None
      else
        var sym := s.value;
        if SymbolWithTest(e1, e2, true, Yes) then Some(Equal(sym, Yes))
        else if SymbolWithTest(e1, e2, false, No) then Some(Sym(sym))
        else if SymbolWithTest(e1, e2, false, Mod) then Some(Equal(sym, Yes))
        else if sym.Type() != Tristated then None
        else if e1.Equal? && e2.Unequal? && e1.rhs.IsConst() && e2.rhs.IsConst() then
          Some(if e1.rhs != e2.rhs then Equal(sym, e1.rhs) else Sym(No))
        else if e1.Unequal? && e2.Equal? && e1.rhs.IsConst() && e2.rhs.IsConst() then
          Some(if e2.rhs != e1.rhs then Equal(sym, e2.rhs) else Sym(No))
        else if e1.Unequal? && e2.Unequal? && TestPair(e1.rhs, e2.rhs, Yes, No) then Some(Equal(sym, Mod))
        else if e1.Unequal? && e2.Unequal? && TestPair(e1.rhs, e2.rhs, Yes, Mod) then Some(Equal(sym, No))
        else if e1.Unequal? && e2.Unequal? && TestPair(e1.rhs, e2.rhs, Mod, No) then Some(Equal(sym, Yes))
        else None
  }

  function Join(op: Op, e1: Expr, e2: Expr): (r: Option<Expr>)
  {
    if op == OpAnd then JoinAnd(e1, e2) else JoinOr(e1, e2)
  }

  // A merged operand is exactly the conjunction or disjunction of the two, for
  // all three values, in no more space.
  lemma JoinExact(op: Op, e1: Expr, e2: Expr, env: Env)
    requires WellFormed(env) && Join(op, e1, e2).Some?
    ensures Eval(Join(op, e1, e2).value, env) == op.Apply(Eval(e1, env), Eval(e2, env))
  {
    if ExprEq(e1, e2) {
      ExprEqSound(e1, e2, env);
    } else {
      var sym := LeftSubject(e1).value;
      assert env.str(sym) == TristateName(env.tri(sym));
      if op == OpAnd {
        JoinAndExact(e1, e2, sym, env);
      } else {
        JoinOrExact(e1, e2, sym, env);
      }
    }
  }

  lemma JoinOrExact(e1: Expr, e2: Expr, sym: Symbol, env: Env)
    requires WellFormed(env) && !ExprEq(e1, e2) && JoinOr(e1, e2).Some? && LeftSubject(e1) == Some(sym)
    ensures Eval(JoinOr(e1, e2).value, env) == OpOr.Apply(Eval(e1, env), Eval(e2, env))
  {
    assert env.str(sym) == TristateName(env.tri(sym));
  }

  lemma JoinAndExact(e1: Expr, e2: Expr, sym: Symbol, env: Env)
    requires WellFormed(env) && !ExprEq(e1, e2) && JoinAnd(e1, e2).Some? && LeftSubject(e1) == Some(sym)
    ensures Eval(JoinAnd(e1, e2).value, env) == OpAnd.Apply(Eval(e1, env), Eval(e2, env))
  {
    assert env.str(sym) == TristateName(env.tri(sym));
    if e1.Equal? && e2.Unequal? && e1.rhs.IsConst() && e2.rhs.IsConst() {
      ConstTextsDiffer(e1.rhs, e2.rhs, env);
    }
    if e1.Unequal? && e2.Equal? && e1.rhs.IsConst() && e2.rhs.IsConst() {
      ConstTextsDiffer(e1.rhs, e2.rhs, env);
    }
  }

  lemma ConstTextsDiffer(c: Symbol, d: Symbol, env: Env)
    requires WellFormed(env) && c.IsConst() && d.IsConst()
    ensures c == d <==> env.str(c) == env.str(d)
  {
  }

  lemma JoinShape(op: Op, e1: Expr, e2: Expr)
    requires Join(op, e1, e2).Some? && !IsOp(op, e1) && !IsOp(op, e2)
    ensures var r := Join(op, e1, e2).value;
      && !IsOp(op, r)
      && Size(r) + 1 <= Size(e1) + Size(e2)
      && (NotsOnSymbols(e1) && NotsOnSymbols(e2) ==> NotsOnSymbols(r))
  {
    SizePositive(e1);
    SizePositive(e2);
  }

  lemma SizePositive(e: Expr)
    ensures Size(e) >= 1
  {
  }
}
