/** Elimination of duplicate and contradicting operands (expr_eliminate_dups).

    The passes rewrite one tree through two pointers to slots of that same
    tree. A slot is a path from the top of the current && or || expression;
    a pass takes the tree with the two paths and returns the tree with the
    slots overwritten, so a write through one path is seen through the other. */
module ExprDups {
  import opened Options
  import opened ExprCore
  import opened ExprEquality
  import opened ExprTransform
  import opened ExprFactor
  import opened ExprJoin

  datatype Dir = Left | Right

  type Path = seq<Dir>

  // ----- slots of a flattened op-expression -----

  function Child(e: Expr, d: Dir): Expr
    requires e.Bin?
  {
    if d == Left then e.left else e.right
  }

  // p leads through op-nodes only
  predicate OnSpine(op: Op, e: Expr, p: Path) {
    p == [] || (IsOp(op, e) && OnSpine(op, Child(e, p[0]), p[1..]))
  }

  function Get(op: Op, e: Expr, p: Path): Expr
    requires OnSpine(op, e, p)
  {
    if p == [] then e else Get(op, Child(e, p[0]), p[1..])
  }

  function Put(op: Op, e: Expr, p: Path, x: Expr): Expr
    requires OnSpine(op, e, p)
  {
    if p == [] then x
    else if p[0] == Left then Bin(op, Put(op, e.left, p[1..], x), e.right)
    else Bin(op, e.left, Put(op, e.right, p[1..], x))
  }

  // The shape of the op-nodes at the top of e: writes to operands keep it.
  datatype Spine = Tip | Fork(left: Spine, right: Spine)

  function SpineOf(op: Op, e: Expr): Spine {
    if IsOp(op, e) then Fork(SpineOf(op, e.left), SpineOf(op, e.right)) else Tip
  }

  function SpineSize(s: Spine): nat {
    if s.Tip? then 0 else 1 + SpineSize(s.left) + SpineSize(s.right)
  }

  predicate InSpine(s: Spine, p: Path) {
    p == [] || (s.Fork? && InSpine(if p[0] == Left then s.left else s.right, p[1..]))
  }

  function SubSpine(s: Spine, p: Path): Spine
    requires InSpine(s, p)
  {
    if p == [] then s else SubSpine(if p[0] == Left then s.left else s.right, p[1..])
  }

  lemma {:induction false} SpineAt(op: Op, e: Expr, p: Path)
    ensures OnSpine(op, e, p) <==> InSpine(SpineOf(op, e), p)
    ensures OnSpine(op, e, p) ==> SpineOf(op, Get(op, e, p)) == SubSpine(SpineOf(op, e), p)
  {
    if p != [] && IsOp(op, e) {
      SpineAt(op, Child(e, p[0]), p[1..]);
    }
  }

  // going down one step from a slot
  lemma {:induction false} GetStep(op: Op, e: Expr, p: Path, d: Dir)
    requires OnSpine(op, e, p) && IsOp(op, Get(op, e, p))
    ensures OnSpine(op, e, p + [d]) && Get(op, e, p + [d]) == Child(Get(op, e, p), d)
  {
    if p == [] {
      assert p + [d] == [d];
    } else {
      GetStep(op, Child(e, p[0]), p[1..], d);
      assert (p + [d])[1..] == p[1..] + [d];
    }
  }

  // Overwriting an operand with an operand.
  lemma {:induction false} PutOperand(op: Op, e: Expr, p: Path, x: Expr)
    requires OnSpine(op, e, p) && !IsOp(op, Get(op, e, p)) && !IsOp(op, x)
    ensures SpineOf(op, Put(op, e, p, x)) == SpineOf(op, e)
    ensures OnSpine(op, Put(op, e, p, x), p) && Get(op, Put(op, e, p, x), p) == x
    ensures Size(Put(op, e, p, x)) + Size(Get(op, e, p)) == Size(e) + Size(x)
    ensures NotsOnSymbols(e) ==> NotsOnSymbols(Get(op, e, p))
    ensures NotsOnSymbols(e) && NotsOnSymbols(x) ==> NotsOnSymbols(Put(op, e, p, x))
    ensures p != [] ==> IsOp(op, Put(op, e, p, x)) && Size(Get(op, e, p)) < Size(e)
    ensures p != [] && IsYn(x) ==> HasYn(Put(op, e, p, x))
    decreases p
  {
    if p != [] {
      PutOperand(op, Child(e, p[0]), p[1..], x);
      SizePositive(e.left);
      SizePositive(e.right);
    }
  }

  // Two operand slots are the same or do not overlap.
  lemma {:induction false} PutElsewhere(op: Op, e: Expr, p: Path, q: Path, x: Expr)
    requires OnSpine(op, e, p) && !IsOp(op, Get(op, e, p)) && !IsOp(op, x)
    requires OnSpine(op, e, q) && !IsOp(op, Get(op, e, q)) && p != q
    ensures OnSpine(op, Put(op, e, p, x), q) && Get(op, Put(op, e, p, x), q) == Get(op, e, q)
    decreases p
  {
    if p != [] && q != [] && p[0] == q[0] {
      assert p[1..] != q[1..];
      PutElsewhere(op, Child(e, p[0]), p[1..], q[1..], x);
    }
  }

  // the operands around a slot, taken together
  function Around(op: Op, e: Expr, p: Path, env: Env): Tristate
    requires OnSpine(op, e, p)
  {
    if p == [] then env.tri(op.Unit())
    else op.Apply(Around(op, Child(e, p[0]), p[1..], env), Eval(Child(e, if p[0] == Left then Right else Left), env))
  }

  lemma {:induction false} ValueAround(op: Op, e: Expr, p: Path, x: Expr, env: Env)
    requires WellFormed(env) && OnSpine(op, e, p)
    ensures Eval(e, env) == op.Apply(Eval(Get(op, e, p), env), Around(op, e, p, env))
    ensures Eval(Put(op, e, p, x), env) == op.Apply(Eval(x, env), Around(op, e, p, env))
    decreases p
  {
    if p != [] {
      var c := Child(e, p[0]);
      ValueAround(op, c, p[1..], x, env);
      var a, o := Around(op, c, p[1..], env), Eval(Child(e, if p[0] == Left then Right else Left), env);
      ApplyRegroup(op, Eval(Get(op, c, p[1..]), env), a, o, 0);
      ApplyRegroup(op, Eval(x, env), a, o, 0);
      ApplyRegroup(op, Eval(Child(e, Left), env), Eval(Child(e, Right), env), 0, 0);
      ApplyRegroup(op, Eval(Child(Put(op, e, p, x), Left), env), Eval(Child(Put(op, e, p, x), Right), env), 0, 0);
    }
  }

  // ----- expr_eliminate_dups1 -----

  // the rewritten tree and the number of transformations (trans_count)
  datatype Result = Result(e: Expr, count: nat)

  // What both passes keep: the op-spine, the size, and the tree itself when
  // nothing is counted. A counted transformation leaves a constant to fold.
  ghost predicate Kept(op: Op, e: Expr, r: Result) {
    && SpineOf(op, r.e) == SpineOf(op, e)
    && Size(r.e) <= Size(e)
    && (r.count == 0 ==> r.e == e)
    && (r.count > 0 ==> HasYn(r.e))
    && (NotsOnSymbols(e) ==> NotsOnSymbols(r.e))
  }

  // the join of two different operands, after the first was simplified itself
  function JoinSlots(op: Op, e: Expr, p1: Path, p2: Path): (r: Result)
    requires OnSpine(op, e, p1) && OnSpine(op, e, p2) && p1 != p2
    requires !IsOp(op, Get(op, e, p1)) && !IsOp(op, Get(op, e, p2))
    ensures Kept(op, e, r)
  {
    var j := Join(op, Get(op, e, p1), Get(op, e, p2));
    if j.None? then Result(e, 0)
    else
      JoinShape(op, Get(op, e, p1), Get(op, e, p2));
      SlotsBelow(op, e, p1, p2);
      PutOperand(op, e, p1, Sym(op.Unit()));
      PutElsewhere(op, e, p1, p2, Sym(op.Unit()));
      var e' := Put(op, e, p1, Sym(op.Unit()));
      PutOperand(op, e', p2, j.value);
      PutElsewhere(op, e', p2, p1, j.value);
      UnitOperandFolds(op, Put(op, e', p2, j.value), p1);
      Result(Put(op, e', p2, j.value), 1)
  }

  lemma SlotsBelow(op: Op, e: Expr, p1: Path, p2: Path)
    requires OnSpine(op, e, p1) && OnSpine(op, e, p2) && p1 != p2
    requires !IsOp(op, Get(op, e, p1)) && !IsOp(op, Get(op, e, p2))
    ensures p1 != [] && p2 != [] && IsOp(op, e)
  {
  }

  lemma {:induction false} UnitOperandFolds(op: Op, e: Expr, p: Path)
    requires OnSpine(op, e, p) && p != [] && IsYn(Get(op, e, p))
    ensures HasYn(e)
    decreases p
  {
    if p[1..] != [] {
      UnitOperandFolds(op, Child(e, p[0]), p[1..]);
    } else {
      assert Get(op, e, p) == Child(e, p[0]);
    }
  }

  function Dups1(op: Op, e: Expr, p1: Path, p2: Path): (r: Result)
    requires IsOp(op, e) && OnSpine(op, e, p1) && OnSpine(op, e, p2)
    ensures Kept(op, e, r)
    decreases Size(e), SpineSize(SpineOf(op, Get(op, e, p1))) + SpineSize(SpineOf(op, Get(op, e, p2)))
  {
    var n1, n2 := Get(op, e, p1), Get(op, e, p2);
    SpineAt(op, e, p1);
    SpineAt(op, e, p2);
    if IsOp(op, n1) then
      GetStep(op, e, p1, Left);
      GetStep(op, e, p1, Right);
      SpineAt(op, e, p1 + [Left]);
      SpineAt(op, e, p1 + [Right]);
      var a := Dups1(op, e, p1 + [Left], p2);
      SpineAt(op, a.e, p1 + [Right]);
      SpineAt(op, a.e, p2);
      var b := Dups1(op, a.e, p1 + [Right], p2);
      Result(b.e, a.count + b.count)
    else if IsOp(op, n2) then
      GetStep(op, e, p2, Left);
      GetStep(op, e, p2, Right);
      SpineAt(op, e, p2 + [Left]);
      SpineAt(op, e, p2 + [Right]);
      var a := Dups1(op, e, p1, p2 + [Left]);
      SpineAt(op, a.e, p2 + [Right]);
      SpineAt(op, a.e, p1);
      var b := Dups1(op, a.e, p1, p2 + [Right]);
      Result(b.e, a.count + b.count)
    else if p1 == p2 then Result(e, 0)
    else
      SlotsBelow(op, e, p1, p2);
      PutOperand(op, e, p1, n1);
      var inner := if n1.Bin? then Dups1(n1.op, n1, [], []) else Result(n1, 0);
      PutOperand(op, e, p1, inner.e);
      PutElsewhere(op, e, p1, p2, inner.e);
      NestedFolds(op, e, p1, inner.e);
      var e' := Put(op, e, p1, inner.e);
      var j := JoinSlots(op, e', p1, p2);
      PutSame(op, e, p1);
      Result(j.e, inner.count + j.count)
  }

  lemma {:induction false} PutSame(op: Op, e: Expr, p: Path)
    requires OnSpine(op, e, p)
    ensures Put(op, e, p, Get(op, e, p)) == e
    decreases p
  {
    if p != [] {
      PutSame(op, Child(e, p[0]), p[1..]);
    }
  }

  lemma {:induction false} NestedFolds(op: Op, e: Expr, p: Path, x: Expr)
    requires OnSpine(op, e, p)
    ensures HasYn(x) ==> HasYn(Put(op, e, p, x))
    decreases p
  {
    if p != [] {
      NestedFolds(op, Child(e, p[0]), p[1..], x);
    }
  }

  // ----- expr_eliminate_dups2 -----

  // (FOO || BAR) && (!FOO && !BAR) -> n, and its dual: does the operand e2
  // contain all operands of the negation of e1?
  predicate Contradicts(op: Op, e1: Expr, e2: Expr) {
    ExtractEq(op, Transform(Not(e1)), e2).e1 == Sym(op.Unit())
  }

  // the check of one operand against e2, which may be a whole subtree and may contain the operand
  function ContradictSlots(op: Op, e: Expr, p1: Path, p2: Path): (r: Result)
    requires IsOp(op, e) && OnSpine(op, e, p1) && OnSpine(op, e, p2)
    requires !IsOp(op, Get(op, e, p1))
    ensures Kept(op, e, r)
  {
    if Get(op, e, p1).Bin? && Contradicts(op, Get(op, e, p1), Get(op, e, p2)) then
      var c := Sym(op.Absorb());
      PutOperand(op, e, p1, c);
      SizePositive(Get(op, e, p1));
      Result(Put(op, e, p1, c), 1)
    else Result(e, 0)
  }

  function Dups2(op: Op, e: Expr, p1: Path, p2: Path): (r: Result)
    requires IsOp(op, e) && OnSpine(op, e, p1) && OnSpine(op, e, p2)
    ensures Kept(op, e, r)
    decreases Size(e), SpineSize(SpineOf(op, Get(op, e, p1))) + SpineSize(SpineOf(op, Get(op, e, p2)))
  {
    var n1, n2 := Get(op, e, p1), Get(op, e, p2);
    SpineAt(op, e, p1);
    SpineAt(op, e, p2);
    if IsOp(op, n1) then
      GetStep(op, e, p1, Left);
      GetStep(op, e, p1, Right);
      SpineAt(op, e, p1 + [Left]);
      SpineAt(op, e, p1 + [Right]);
      var a := Dups2(op, e, p1 + [Left], p2);
      SpineAt(op, a.e, p1 + [Right]);
      SpineAt(op, a.e, p2);
      var b := Dups2(op, a.e, p1 + [Right], p2);
      Result(b.e, a.count + b.count)
    else
      // no early return after the descent on this side: the operand is then
      // compared with the whole subtree as well
      var d := if IsOp(op, n2) then DescendRight(op, e, p1, p2) else Result(e, 0);
      SpineAt(op, d.e, p1);
      SpineAt(op, d.e, p2);
      if p1 == p2 then d
      else
        var m1 := Get(op, d.e, p1);
        var inner := if m1.Bin? then NestedDups2(op, d.e, p1) else Result(d.e, 0);
        SpineAt(op, inner.e, p1);
        SpineAt(op, inner.e, p2);
        var c := ContradictSlots(op, inner.e, p1, p2);
        Result(c.e, d.count + inner.count + c.count)
  }

  function DescendRight(op: Op, e: Expr, p1: Path, p2: Path): (r: Result)
    requires IsOp(op, e) && OnSpine(op, e, p1) && OnSpine(op, e, p2)
    requires !IsOp(op, Get(op, e, p1)) && IsOp(op, Get(op, e, p2))
    ensures Kept(op, e, r)
    decreases Size(e), SpineSize(SpineOf(op, Get(op, e, p1))) + SpineSize(SpineOf(op, Get(op, e, p2))), 0
  {
    SpineAt(op, e, p1);
    SpineAt(op, e, p2);
    GetStep(op, e, p2, Left);
    GetStep(op, e, p2, Right);
    SpineAt(op, e, p2 + [Left]);
    SpineAt(op, e, p2 + [Right]);
    var a := Dups2(op, e, p1, p2 + [Left]);
    SpineAt(op, a.e, p2 + [Right]);
    SpineAt(op, a.e, p1);
    var b := Dups2(op, a.e, p1, p2 + [Right]);
    Result(b.e, a.count + b.count)
  }

  // the pass over an operand that is itself an expression of the other operator
  function NestedDups2(op: Op, e: Expr, p: Path): (r: Result)
    requires IsOp(op, e) && OnSpine(op, e, p) && Get(op, e, p).Bin? && Get(op, e, p).op != op
    ensures Kept(op, e, r)
    decreases Size(e), 0, 0
  {
    var n := Get(op, e, p);
    PutOperand(op, e, p, n);
    var inner := Dups2(n.op, n, [], []);
    PutOperand(op, e, p, inner.e);
    NestedFolds(op, e, p, inner.e);
    PutSame(op, e, p);
    Result(Put(op, e, p, inner.e), inner.count)
  }

  // ----- what the passes do to the value -----

  lemma JoinSlotsExact(op: Op, e: Expr, p1: Path, p2: Path, env: Env)
    requires WellFormed(env)
    requires OnSpine(op, e, p1) && OnSpine(op, e, p2) && p1 != p2
    requires !IsOp(op, Get(op, e, p1)) && !IsOp(op, Get(op, e, p2))
    ensures Eval(JoinSlots(op, e, p1, p2).e, env) == Eval(e, env)
  {
    var n1, n2 := Get(op, e, p1), Get(op, e, p2);
    var j := Join(op, n1, n2);
    if j.Some? {
      var u := Sym(op.Unit());
      JoinExact(op, n1, n2, env);
      PutOperand(op, e, p1, u);
      PutElsewhere(op, e, p1, p2, u);
      ValueAround(op, e, p1, u, env);
      var e' := Put(op, e, p1, u);
      ValueAround(op, e', p2, j.value, env);
      ApplyRegroup(op, Eval(n1, env), Eval(n2, env), Around(op, e', p2, env), 0);
    }
  }

  // The join pass is exact for all three values.
  lemma {:induction false} Dups1Exact(op: Op, e: Expr, p1: Path, p2: Path, env: Env)
    requires WellFormed(env)
    requires IsOp(op, e) && OnSpine(op, e, p1) && OnSpine(op, e, p2)
    ensures Eval(Dups1(op, e, p1, p2).e, env) == Eval(e, env)
    decreases Size(e), SpineSize(SpineOf(op, Get(op, e, p1))) + SpineSize(SpineOf(op, Get(op, e, p2)))
  {
    var n1, n2 := Get(op, e, p1), Get(op, e, p2);
    SpineAt(op, e, p1);
    SpineAt(op, e, p2);
    if IsOp(op, n1) {
      Descend(op, e, p1);
      var a := Dups1(op, e, p1 + [Left], p2);
      Dups1Exact(op, e, p1 + [Left], p2, env);
      SpineAt(op, a.e, p1 + [Right]);
      SpineAt(op, a.e, p2);
      Dups1Exact(op, a.e, p1 + [Right], p2, env);
    } else if IsOp(op, n2) {
      Descend(op, e, p2);
      var a := Dups1(op, e, p1, p2 + [Left]);
      Dups1Exact(op, e, p1, p2 + [Left], env);
      SpineAt(op, a.e, p2 + [Right]);
      SpineAt(op, a.e, p1);
      Dups1Exact(op, a.e, p1, p2 + [Right], env);
    } else if p1 != p2 {
      SlotsBelow(op, e, p1, p2);
      PutOperand(op, e, p1, n1);
      var inner := if n1.Bin? then Dups1(n1.op, n1, [], []) else Result(n1, 0);
      if n1.Bin? {
        Dups1Exact(n1.op, n1, [], [], env);
      }
      PutOperand(op, e, p1, inner.e);
      PutElsewhere(op, e, p1, p2, inner.e);
      ValueAround(op, e, p1, inner.e, env);
      JoinSlotsExact(op, Put(op, e, p1, inner.e), p1, p2, env);
    }
  }

  // both steps down from a slot, and what they find
  lemma {:induction false} Descend(op: Op, e: Expr, p: Path)
    requires OnSpine(op, e, p) && IsOp(op, Get(op, e, p))
    ensures OnSpine(op, e, p + [Left]) && OnSpine(op, e, p + [Right])
    ensures SpineOf(op, Get(op, e, p)) == Fork(SpineOf(op, Get(op, e, p + [Left])), SpineOf(op, Get(op, e, p + [Right])))
    ensures InSpine(SpineOf(op, e), p + [Left]) && InSpine(SpineOf(op, e), p + [Right])
    ensures SubSpine(SpineOf(op, e), p + [Left]) == SpineOf(op, Get(op, e, p + [Left]))
    ensures SubSpine(SpineOf(op, e), p + [Right]) == SpineOf(op, Get(op, e, p + [Right]))
  {
    GetStep(op, e, p, Left);
    GetStep(op, e, p, Right);
    SpineAt(op, e, p + [Left]);
    SpineAt(op, e, p + [Right]);
  }

  lemma SharpensAround(op: Op, v: Tristate, v': Tristate, around: Tristate)
    requires Sharpens(v, v')
    ensures Sharpens(op.Apply(v, around), op.Apply(v', around))
  {
  }

  lemma SharpensChain(a: Tristate, b: Tristate, c: Tristate)
    requires Sharpens(a, b) && Sharpens(b, c)
    ensures Sharpens(a, c)
  {
  }

  // Where the contradiction rule fires, it is exact for every value but m: it
  // loses m always.
  lemma ContradictionExact(op: Op, e: Expr, p1: Path, p2: Path, env: Env)
    requires WellFormed(env)
    requires IsOp(op, e) && OnSpine(op, e, p1) && OnSpine(op, e, p2) && !IsOp(op, Get(op, e, p1))
    ensures var r := ContradictSlots(op, e, p1, p2);
      r.count > 0 ==>
        && Eval(r.e, env) == env.tri(op.Absorb())
        && (Eval(r.e, env) == Eval(e, env) <==> Eval(e, env) != 1)
  {
    hide Transform, ExtractEq, Around, Get, Put, OnSpine;
    var n1, n2 := Get(op, e, p1), Get(op, e, p2);
    if n1.Bin? && Contradicts(op, n1, n2) {
      var c := Sym(op.Absorb());
      TransformKeepsValue(Not(n1), env);
      ExtractEqKeepsBoth(op, Transform(Not(n1)), n2, env);
      assert op.Apply(Eval(n2, env), NegateTri(Eval(n1, env))) == Eval(n2, env);
      ValueAround(op, e, p1, c, env);
      ValueAround(op, e, p2, c, env);
      assert op.Apply(Eval(e, env), Eval(n1, env)) == Eval(e, env);
      assert op.Apply(Eval(e, env), Eval(n2, env)) == Eval(e, env);
    }
  }

  // so definite answers stay
  lemma ContradictSlotsSharpens(op: Op, e: Expr, p1: Path, p2: Path, env: Env)
    requires WellFormed(env)
    requires IsOp(op, e) && OnSpine(op, e, p1) && OnSpine(op, e, p2) && !IsOp(op, Get(op, e, p1))
    ensures Sharpens(Eval(e, env), Eval(ContradictSlots(op, e, p1, p2).e, env))
  {
    ContradictionExact(op, e, p1, p2, env);
  }

  // The contradiction pass never changes a definite answer.
  lemma {:induction false} Dups2Sharpens(op: Op, e: Expr, p1: Path, p2: Path, env: Env)
    requires WellFormed(env)
    requires IsOp(op, e) && OnSpine(op, e, p1) && OnSpine(op, e, p2)
    ensures Sharpens(Eval(e, env), Eval(Dups2(op, e, p1, p2).e, env))
    decreases Size(e), SpineSize(SpineOf(op, Get(op, e, p1))) + SpineSize(SpineOf(op, Get(op, e, p2)))
  {
    var n1, n2 := Get(op, e, p1), Get(op, e, p2);
    SpineAt(op, e, p1);
    SpineAt(op, e, p2);
    var v := Eval(e, env);
    if IsOp(op, n1) {
      Descend(op, e, p1);
      var a := Dups2(op, e, p1 + [Left], p2);
      Dups2Sharpens(op, e, p1 + [Left], p2, env);
      SpineAt(op, a.e, p1 + [Right]);
      SpineAt(op, a.e, p2);
      Dups2Sharpens(op, a.e, p1 + [Right], p2, env);
      SharpensChain(v, Eval(a.e, env), Eval(Dups2(op, a.e, p1 + [Right], p2).e, env));
    } else {
      var d := if IsOp(op, n2) then DescendRight(op, e, p1, p2) else Result(e, 0);
      if IsOp(op, n2) {
        DescendRightSharpens(op, e, p1, p2, env);
      }
      OperandSharpens(op, e, p1, p2, env);
      SharpensChain(v, Eval(d.e, env), Eval(Dups2(op, e, p1, p2).e, env));
    }
  }

  // what follows the descent on the right side
  lemma {:induction false} OperandSharpens(op: Op, e: Expr, p1: Path, p2: Path, env: Env)
    requires WellFormed(env)
    requires IsOp(op, e) && OnSpine(op, e, p1) && OnSpine(op, e, p2) && !IsOp(op, Get(op, e, p1))
    ensures var d := if IsOp(op, Get(op, e, p2)) then DescendRight(op, e, p1, p2) else Result(e, 0);
      && d.count <= Dups2(op, e, p1, p2).count
      && Sharpens(Eval(d.e, env), Eval(Dups2(op, e, p1, p2).e, env))
    decreases Size(e), SpineSize(SpineOf(op, Get(op, e, p1))) + SpineSize(SpineOf(op, Get(op, e, p2))), 1
  {
    var d := if IsOp(op, Get(op, e, p2)) then DescendRight(op, e, p1, p2) else Result(e, 0);
    SpineAt(op, e, p1);
    SpineAt(op, e, p2);
    SpineAt(op, d.e, p1);
    SpineAt(op, d.e, p2);
    if p1 != p2 {
      var m1 := Get(op, d.e, p1);
      var inner := if m1.Bin? then NestedDups2(op, d.e, p1) else Result(d.e, 0);
      if m1.Bin? {
        NestedDups2Sharpens(op, d.e, p1, env);
      }
      SpineAt(op, inner.e, p1);
      SpineAt(op, inner.e, p2);
      ContradictSlotsSharpens(op, inner.e, p1, p2, env);
      SharpensChain(Eval(d.e, env), Eval(inner.e, env), Eval(ContradictSlots(op, inner.e, p1, p2).e, env));
    }
  }

  lemma {:induction false} DescendRightSharpens(op: Op, e: Expr, p1: Path, p2: Path, env: Env)
    requires WellFormed(env)
    requires IsOp(op, e) && OnSpine(op, e, p1) && OnSpine(op, e, p2)
    requires !IsOp(op, Get(op, e, p1)) && IsOp(op, Get(op, e, p2))
    ensures Sharpens(Eval(e, env), Eval(DescendRight(op, e, p1, p2).e, env))
    decreases Size(e), SpineSize(SpineOf(op, Get(op, e, p1))) + SpineSize(SpineOf(op, Get(op, e, p2))), 0
  {
    SpineAt(op, e, p1);
    SpineAt(op, e, p2);
    Descend(op, e, p2);
    var a := Dups2(op, e, p1, p2 + [Left]);
    Dups2Sharpens(op, e, p1, p2 + [Left], env);
    SpineAt(op, a.e, p2 + [Right]);
    SpineAt(op, a.e, p1);
    Dups2Sharpens(op, a.e, p1, p2 + [Right], env);
    SharpensChain(Eval(e, env), Eval(a.e, env), Eval(Dups2(op, a.e, p1, p2 + [Right]).e, env));
  }

  lemma {:induction false} NestedDups2Sharpens(op: Op, e: Expr, p: Path, env: Env)
    requires WellFormed(env)
    requires IsOp(op, e) && OnSpine(op, e, p) && Get(op, e, p).Bin? && Get(op, e, p).op != op
    ensures Sharpens(Eval(e, env), Eval(NestedDups2(op, e, p).e, env))
    decreases Size(e), 0, 0
  {
    var n := Get(op, e, p);
    PutOperand(op, e, p, n);
    var inner := Dups2(n.op, n, [], []);
    Dups2Sharpens(n.op, n, [], [], env);
    ValueAround(op, e, p, inner.e, env);
    SharpensAround(op, Eval(n, env), Eval(inner.e, env), Around(op, e, p, env));
  }

  // ----- expr_eliminate_dups -----

  // one round of both passes over the whole expression
  function Round(e: Expr): (r: Result)
    ensures Size(r.e) <= Size(e)
    ensures r.count == 0 ==> r.e == e
    ensures r.count > 0 ==> HasYn(r.e)
    ensures NotsOnSymbols(e) ==> NotsOnSymbols(r.e)
  {
    if !e.Bin? then Result(e, 0)
    else
      var a := Dups1(e.op, e, [], []);
      var b := Dups2(e.op, a.e, [], []);
      Result(b.e, a.count + b.count)
  }

  lemma RoundSharpens(e: Expr, env: Env)
    requires WellFormed(env)
    ensures Sharpens(Eval(e, env), Eval(Round(e).e, env))
  {
    if e.Bin? {
      var a := Dups1(e.op, e, [], []);
      Dups1Exact(e.op, e, [], [], env);
      Dups2Sharpens(e.op, a.e, [], [], env);
    }
  }

  // A counted round followed by constant folding leaves a strictly smaller
  // tree without constants to fold.
  lemma RoundShrinks(e: Expr)
    requires Round(e).count > 0
    ensures Size(EliminateYn(Round(e).e)) < Size(e)
    ensures !HasYn(EliminateYn(Round(e).e))
    ensures NotsOnSymbols(e) ==> NotsOnSymbols(EliminateYn(Round(e).e))
  {
    YnNormalises(Round(e).e);
  }

  // Joining and folding alone keep every value, m included; so does a round
  // that finds no contradiction.
  lemma JoinPassExact(e: Expr, env: Env)
    requires WellFormed(env) && e.Bin?
    ensures Eval(EliminateYn(Dups1(e.op, e, [], []).e), env) == Eval(e, env)
    ensures Dups2(e.op, Dups1(e.op, e, [], []).e, [], []).count == 0 ==>
      Eval(EliminateYn(Round(e).e), env) == Eval(e, env)
  {
    hide Dups1, Dups2;
    Dups1Exact(e.op, e, [], [], env);
    YnKeepsValue(Dups1(e.op, e, [], []).e, env);
  }

  // (a || b) && (!a && !b)
  function Contradiction(a: Symbol, b: Symbol): Expr {
    Bin(OpAnd, Bin(OpOr, Sym(a), Sym(b)), Bin(OpAnd, Not(Sym(a)), Not(Sym(b))))
  }

  // On this expression the whole pass loses m: its value is m where a || b is
  // m, and the pass always makes n of it.
  lemma ContradictionLosesMod(a: Symbol, b: Symbol, env: Env)
    requires WellFormed(env) && a.Config? && b.Config? && a != b
    ensures var e := Contradiction(a, b);
      && Eval(Deduped(e), env) == 0
      && Eval(e, env) == (if Eval(Bin(OpOr, Sym(a), Sym(b)), env) == 1 then 1 else 0)
  {
    hide Eval, Deduped, Contradiction;
    ContradictionDeduped(a, b, env);
    ContradictionValue(a, b, env);
  }

  lemma ContradictionValue(a: Symbol, b: Symbol, env: Env)
    ensures Eval(Contradiction(a, b), env) == if Eval(Bin(OpOr, Sym(a), Sym(b)), env) == 1 then 1 else 0
  {
    var o, x, y := Bin(OpOr, Sym(a), Sym(b)), Not(Sym(a)), Not(Sym(b));
    assert Eval(Contradiction(a, b), env) == OpAnd.Apply(Eval(o, env), Eval(Bin(OpAnd, x, y), env));
    assert Eval(Bin(OpAnd, x, y), env) == OpAnd.Apply(Eval(x, env), Eval(y, env));
    assert Eval(x, env) == NegateTri(Eval(Sym(a), env)) && Eval(y, env) == NegateTri(Eval(Sym(b), env));
  }

  lemma ContradictionDeduped(a: Symbol, b: Symbol, env: Env)
    requires WellFormed(env) && a.Config? && b.Config? && a != b
    ensures Eval(Deduped(Contradiction(a, b)), env) == 0
  {
    var e := Contradiction(a, b);
    var round := Round(e);
    ContradictionRound(a, b, env);
    hide Round, Eval, Contradiction, EliminateYn, HasYn, Size;
    YnKeepsValue(round.e, env);
    RoundShrinks(e);
    DedupedSharpens(EliminateYn(round.e), env);
  }

  lemma ContradictionRound(a: Symbol, b: Symbol, env: Env)
    requires WellFormed(env) && a.Config? && b.Config? && a != b
    ensures var round := Round(Contradiction(a, b)); round.count > 0 && Eval(round.e, env) == 0
  {
    hide Dups1, Dups2, Eval, OnSpine;
    ContradictionJoins(a, b);
    ContradictionFound(a, b, env);
  }

  lemma ContradictionSlots(a: Symbol, b: Symbol)
    ensures var e := Contradiction(a, b);
      && OnSpine(OpAnd, e, []) && Get(OpAnd, e, []) == e
      && OnSpine(OpAnd, e, [Left]) && Get(OpAnd, e, [Left]) == Bin(OpOr, Sym(a), Sym(b))
      && OnSpine(OpAnd, e, [Right]) && Get(OpAnd, e, [Right]) == Bin(OpAnd, Not(Sym(a)), Not(Sym(b)))
      && OnSpine(OpAnd, e, [Right, Left]) && Get(OpAnd, e, [Right, Left]) == Not(Sym(a))
      && OnSpine(OpAnd, e, [Right, Right]) && Get(OpAnd, e, [Right, Right]) == Not(Sym(b))
  {
    var e, o, n := Contradiction(a, b), Bin(OpOr, Sym(a), Sym(b)), Bin(OpAnd, Not(Sym(a)), Not(Sym(b)));
    TopSlots(OpAnd, o, n);
    TopSlots(OpAnd, Not(Sym(a)), Not(Sym(b)));
    assert [Right, Left][1..] == [Left] && [Right, Right][1..] == [Right];
    assert Get(OpAnd, e, [Right, Left]) == Get(OpAnd, n, [Left]);
    assert Get(OpAnd, e, [Right, Right]) == Get(OpAnd, n, [Right]);
  }

  lemma TopSlots(op: Op, a: Expr, b: Expr)
    ensures var e := Bin(op, a, b);
      && OnSpine(op, e, []) && Get(op, e, []) == e
      && OnSpine(op, e, [Left]) && Get(op, e, [Left]) == a
      && OnSpine(op, e, [Right]) && Get(op, e, [Right]) == b
  {
    assert OnSpine(op, a, []) && OnSpine(op, b, []);
    assert [Left][1..] == [] && [Right][1..] == [];
    assert Get(op, a, []) == a && Get(op, b, []) == b;
  }

  // the join pass finds nothing
  lemma ContradictionJoins(a: Symbol, b: Symbol)
    requires a.Config? && b.Config? && a != b
    ensures Dups1(OpAnd, Contradiction(a, b), [], []) == Result(Contradiction(a, b), 0)
  {
    hide Get, OnSpine, SpineOf, InSpine, SubSpine, SpineSize;
    ContradictionSlots(a, b);
    var e := Contradiction(a, b);
    var l, r, rl, rr := [Left], [Right], [Right, Left], [Right, Right];
    assert [] + [Left] == l && [] + [Right] == r && r + [Left] == rl && r + [Right] == rr;
    LeafPairStays(OpOr, Sym(a), Sym(b));
    OperandsStay(OpAnd, e, l, l);
    OperandsStay(OpAnd, e, l, rl);
    OperandsStay(OpAnd, e, l, rr);
    OperandsStay(OpAnd, e, rl, l);
    OperandsStay(OpAnd, e, rl, rl);
    OperandsStay(OpAnd, e, rl, rr);
    OperandsStay(OpAnd, e, rr, l);
    OperandsStay(OpAnd, e, rr, rl);
    OperandsStay(OpAnd, e, rr, rr);
    assert Dups1(OpAnd, e, l, r) == Dups1(OpAnd, e, rl, r) == Dups1(OpAnd, e, rr, r) == Result(e, 0);
    assert Dups1(OpAnd, e, l, []) == Dups1(OpAnd, e, rl, []) == Dups1(OpAnd, e, rr, []) == Result(e, 0);
    assert Dups1(OpAnd, e, r, []) == Result(e, 0);
  }

  // what the contradiction pass makes of a || b: it is no match for either
  // operand of the other side, but for the whole of it
  lemma ContradictionRule(a: Symbol, b: Symbol)
    requires a.Config? && b.Config? && a != b
    ensures var o, n := Bin(OpOr, Sym(a), Sym(b)), Bin(OpAnd, Not(Sym(a)), Not(Sym(b)));
      Contradicts(OpAnd, o, n) && !Contradicts(OpAnd, o, n.left) && !Contradicts(OpAnd, o, n.right)
  {
    var x, y := Sym(a), Sym(b);
    var o, n := Bin(OpOr, x, y), Bin(OpAnd, Not(x), Not(y));
    TransformedIsFixed(n);
    assert Transform(o) == o;
    assert Transform(Not(o)) == n;
    var yes := Sym(Yes);
    assert ExprEq(x, x) && ExprEq(y, y) && !ExprEq(x, y) && !ExprEq(y, x);
    assert Extract(OpAnd, None, Not(x), Not(x)) == Factored(Some(Not(x)), yes, yes);
    assert Extract(OpAnd, Some(Not(x)), yes, Not(y)) == Factored(Some(Not(x)), yes, Not(y));
    assert Extract(OpAnd, None, Not(x), n) == Factored(Some(Not(x)), yes, Bin(OpAnd, yes, Not(y)));
    var xy := Some(Bin(OpAnd, Not(x), Not(y)));
    assert Extract(OpAnd, Some(Not(x)), Not(y), yes) == Factored(Some(Not(x)), Not(y), yes);
    assert Extract(OpAnd, Some(Not(x)), Not(y), Not(y)) == Factored(xy, yes, yes);
    assert Extract(OpAnd, Some(Not(x)), Not(y), Bin(OpAnd, yes, Not(y))) == Factored(xy, yes, Bin(OpAnd, yes, yes));
    assert Extract(OpAnd, None, n, n) == Factored(xy, Bin(OpAnd, yes, yes), Bin(OpAnd, yes, yes));
    assert Extract(OpAnd, None, Not(x), Not(y)) == Factored(None, Not(x), Not(y));
    assert Extract(OpAnd, None, Not(y), Not(y)) == Factored(Some(Not(y)), yes, yes);
    assert Extract(OpAnd, None, n, Not(x)).e1 == Bin(OpAnd, yes, Not(y));
    assert Extract(OpAnd, None, n, Not(y)).e1 == Bin(OpAnd, Not(x), yes);
    assert EliminateYn(Bin(OpAnd, yes, yes)) == yes;
    assert EliminateYn(Bin(OpAnd, yes, Not(y))) == Not(y);
    assert EliminateYn(Bin(OpAnd, Not(x), yes)) == Not(x);
  }

  // at the two sides of the expression it fires
  lemma ContradictionAtSides(a: Symbol, b: Symbol, env: Env)
    requires WellFormed(env) && a.Config? && b.Config? && a != b
    ensures var e := Contradiction(a, b);
      && OnSpine(OpAnd, e, [Left]) && OnSpine(OpAnd, e, [Right])
      && var d := Dups2(OpAnd, e, [Left], [Right]);
      d.count > 0 && Eval(d.e, env) == 0 && Dups2(OpAnd, e, [Left], [Left]) == Result(e, 0)
  {
    hide Get, OnSpine, SpineOf, InSpine, SubSpine, SpineSize, Contradicts;
    ContradictionSlots(a, b);
    ContradictionRule(a, b);
    LeafPairStays(OpOr, Sym(a), Sym(b));
    var e := Contradiction(a, b);
    var l, r, rl, rr := [Left], [Right], [Right, Left], [Right, Right];
    assert r + [Left] == rl && r + [Right] == rr;
    PutSame(OpAnd, e, l);
    assert NestedDups2(OpAnd, e, l) == Result(e, 0);
    assert Dups2(OpAnd, e, l, rl) == Result(e, 0);
    assert Dups2(OpAnd, e, l, rr) == Result(e, 0);
    assert DescendRight(OpAnd, e, l, r) == Result(e, 0);
    assert Dups2(OpAnd, e, l, r) == ContradictSlots(OpAnd, e, l, r);
    ContradictionExact(OpAnd, e, l, r, env);
  }

  lemma ContradictionFound(a: Symbol, b: Symbol, env: Env)
    requires WellFormed(env) && a.Config? && b.Config? && a != b
    ensures var d := Dups2(OpAnd, Contradiction(a, b), [], []); d.count > 0 && Eval(d.e, env) == 0
  {
    hide Get, OnSpine, SpineOf, InSpine, SubSpine, SpineSize, ContradictSlots, NestedDups2, Eval;
    ContradictionSlots(a, b);
    ContradictionDescent(a, b, env);
    var e := Contradiction(a, b);
    var l, r := [Left], [Right];
    assert [] + [Left] == l && [] + [Right] == r;
    OperandSharpens(OpAnd, e, l, [], env);
    var d := Dups2(OpAnd, e, l, []);
    SpineAt(OpAnd, e, r);
    SpineAt(OpAnd, d.e, r);
    KeptTop(OpAnd, e, d);
    Dups2Sharpens(OpAnd, d.e, r, [], env);
  }

  lemma ContradictionDescent(a: Symbol, b: Symbol, env: Env)
    requires WellFormed(env) && a.Config? && b.Config? && a != b
    ensures var e := Contradiction(a, b);
      && OnSpine(OpAnd, e, [Left]) && !IsOp(OpAnd, Get(OpAnd, e, [Left]))
      && OnSpine(OpAnd, e, []) && IsOp(OpAnd, Get(OpAnd, e, []))
      && var d := DescendRight(OpAnd, e, [Left], []); d.count > 0 && Eval(d.e, env) == 0
  {
    hide Get, OnSpine, SpineOf, InSpine, SubSpine, SpineSize, Dups2, Eval;
    ContradictionSlots(a, b);
    ContradictionAtSides(a, b, env);
    assert [] + [Left] == [Left] && [] + [Right] == [Right];
  }

  lemma KeptTop(op: Op, e: Expr, r: Result)
    requires IsOp(op, e) && Kept(op, e, r)
    ensures IsOp(op, r.e) && OnSpine(op, r.e, [])
  {
  }

  // two different operands without anything to join or contradict
  lemma LeafPairStays(op: Op, a: Expr, b: Expr)
    requires !a.Bin? && !b.Bin? && Join(op, a, b).None? && Join(op, b, a).None?
    ensures Dups1(op, Bin(op, a, b), [], []) == Result(Bin(op, a, b), 0)
    ensures Dups2(op, Bin(op, a, b), [], []) == Result(Bin(op, a, b), 0)
  {
    var e, l, r := Bin(op, a, b), [Left], [Right];
    assert [] + [Left] == l && [] + [Right] == r;
    TopSlots(op, a, b);
    assert l[0] != r[0];
    OperandsStay(op, e, l, l);
    OperandsStay(op, e, l, r);
    OperandsStay(op, e, r, l);
    OperandsStay(op, e, r, r);
    assert Dups1(op, e, l, []) == Dups1(op, e, r, []) == Result(e, 0);
    assert DescendRight(op, e, l, []) == DescendRight(op, e, r, []) == Result(e, 0);
    assert Dups2(op, e, l, []) == Dups2(op, e, r, []) == Result(e, 0);
  }

  lemma OperandsStay(op: Op, e: Expr, p1: Path, p2: Path)
    requires IsOp(op, e) && OnSpine(op, e, p1) && OnSpine(op, e, p2)
    requires !IsOp(op, Get(op, e, p1)) && !IsOp(op, Get(op, e, p2))
    requires var n := Get(op, e, p1); n.Bin? ==> Dups1(n.op, n, [], []) == Result(n, 0)
    requires p1 == p2 || Join(op, Get(op, e, p1), Get(op, e, p2)).None?
    ensures Dups1(op, e, p1, p2) == Result(e, 0)
    ensures !Get(op, e, p1).Bin? || p1 == p2 ==> Dups2(op, e, p1, p2) == Result(e, 0)
  {
    PutSame(op, e, p1);
  }

  // the symbols used as operands
  ghost predicate Operand(e: Expr, s: Symbol) {
    match e
    case Sym(t) => t == s
    case Not(x) => Operand(x, s)
    case Bin(_, l, r) => Operand(l, s) || Operand(r, s)
    case _ => false
  }

  ghost predicate AllDefinite(e: Expr, env: Env) {
    forall s: Symbol | Operand(e, s) :: env.tri(s) != 1
  }

  lemma {:induction false} DefiniteOperands(e: Expr, env: Env)
    requires AllDefinite(e, env)
    ensures Eval(e, env) != 1
  {
    match e
    case Not(x) =>
      assert forall s: Symbol | Operand(x, s) :: Operand(e, s);
      DefiniteOperands(x, env);
    case Bin(_, l, r) =>
      assert forall s: Symbol | Operand(l, s) || Operand(r, s) :: Operand(e, s);
      DefiniteOperands(l, env);
      DefiniteOperands(r, env);
    case Sym(s) => assert Operand(e, s);
    case _ =>
  }

  // what the rounds end with
  function Deduped(e: Expr): (r: Expr)
    ensures Size(r) <= Size(e) && (r == e || (Size(r) < Size(e) && !HasYn(r)))
    ensures Round(r).count == 0
    ensures NotsOnSymbols(e) ==> NotsOnSymbols(r)
    decreases Size(e)
  {
    var round := Round(e);
    if round.count == 0 then e
    else
      RoundShrinks(e);
      Deduped(EliminateYn(round.e))
  }

  lemma {:induction false} DedupedSharpens(e: Expr, env: Env)
    requires WellFormed(env)
    ensures Sharpens(Eval(e, env), Eval(Deduped(e), env))
    decreases Size(e)
  {
    var round := Round(e);
    if round.count != 0 {
      RoundShrinks(e);
      RoundSharpens(e, env);
      YnKeepsValue(round.e, env);
      DedupedSharpens(EliminateYn(round.e), env);
    }
  }

  // Where the operands are definite nothing changes.
  lemma DedupedKeepsDefinite(e: Expr, env: Env)
    requires WellFormed(env) && AllDefinite(e, env)
    ensures Eval(Deduped(e), env) == Eval(e, env)
  {
    DefiniteOperands(e, env);
    DedupedSharpens(e, env);
  }

  // expr_eliminate_dups: the rounds stop, no further round finds anything, and
  // every definite value of the expression is kept.
  method EliminateDups(e: Expr) returns (r: Expr)
    ensures r == Deduped(e)
    ensures forall env: Env | WellFormed(env) :: Sharpens(Eval(e, env), Eval(r, env))
    ensures forall env: Env | WellFormed(env) && AllDefinite(e, env) :: Eval(r, env) == Eval(e, env)
    ensures Round(r).count == 0
    ensures r == e || (Size(r) < Size(e) && !HasYn(r))
    ensures NotsOnSymbols(e) ==> NotsOnSymbols(r)
  {
    hide Round, AllDefinite;
    r := e;
    while true
      invariant Deduped(r) == Deduped(e)
      decreases Size(r)
    {
      var round := Round(r);
      if round.count == 0 {
        break;
      }
      RoundShrinks(r);
      r := EliminateYn(round.e);
    }
    forall env: Env | WellFormed(env)
      ensures Sharpens(Eval(e, env), Eval(r, env))
      ensures AllDefinite(e, env) ==> Eval(r, env) == Eval(e, env)
    {
      DedupedSharpens(e, env);
      if AllDefinite(e, env) {
        DedupedKeepsDefinite(e, env);
      }
    }
  }
}
