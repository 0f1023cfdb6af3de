/** What expr_eliminate_dups leaves: no two operands of one && or || that a law
    of joining makes one of, and no operand that contradicts the others. */
module ExprSettled {
  import opened Options
  import opened ExprCore
  import opened ExprEquality
  import opened ExprTransform
  import opened ExprFactor
  import opened ExprJoin
  import opened ExprDups

  // x is reached from e through && and || only
  ghost predicate Reached(e: Expr, x: Expr) {
    x == e || (e.Bin? && (Reached(e.left, x) || Reached(e.right, x)))
  }

  // the slot of one operand
  predicate Slot(op: Op, e: Expr, p: Path) {
    OnSpine(op, e, p) && !IsOp(op, Get(op, e, p))
  }

  // ----- the laws of joining -----

  predicate Tristates(c: Symbol, d: Symbol) {
    c in {Yes, Mod, No} && d in {Yes, Mod, No} && c != d
  }

  // s=y || s=m, and b || !b for a bool
  predicate OrLaw(a: Expr, b: Expr) {
    || (a.Equal? && b.Equal? && a.lhs == b.lhs && a.lhs.Type() == Tristated && Tristates(a.rhs, b.rhs))
    || (a.Sym? && a.sym.Type() == Boolean && b == Not(a))
  }

  // s && s=y, s && s!=n, s && s!=m, s=c && s!=d, and s!=c && s!=d for two of y, m, n
  predicate AndLaw(a: Expr, b: Expr) {
    || (a.Sym? && a.sym.IsTristateType() && (b == Equal(a.sym, Yes) || b == Unequal(a.sym, No) || b == Unequal(a.sym, Mod)))
    || (a.Equal? && b.Unequal? && a.lhs == b.lhs && a.lhs.Type() == Tristated && a.rhs.IsConst() && b.rhs.IsConst())
    || (a.Unequal? && b.Unequal? && a.lhs == b.lhs && a.lhs.Type() == Tristated && Tristates(a.rhs, b.rhs))
  }

  predicate Mergeable(op: Op, a: Expr, b: Expr) {
    || ExprEq(a, b)
    || (op == OpOr && (OrLaw(a, b) || OrLaw(b, a)))
    || (op == OpAnd && (AndLaw(a, b) || AndLaw(b, a)))
  }

  // Joining happens exactly for equal operands and by these laws.
  lemma JoinsMergeable(op: Op, a: Expr, b: Expr)
    ensures Join(op, a, b).Some? <==> Mergeable(op, a, b)
  {
    hide ExprEq;
    if op == OpAnd {
      JoinAndMergeable(a, b);
    } else {
      JoinOrMergeable(a, b);
    }
  }

  lemma JoinOrMergeable(a: Expr, b: Expr)
    ensures JoinOr(a, b).Some? <==> ExprEq(a, b) || OrLaw(a, b) || OrLaw(b, a)
  {
    hide ExprEq;
  }

  lemma JoinAndMergeable(a: Expr, b: Expr)
    ensures JoinAnd(a, b).Some? <==> ExprEq(a, b) || AndLaw(a, b) || AndLaw(b, a)
  {
    hide ExprEq;
  }

  // ----- when a pass counts nothing -----

  // a slot has nothing below it
  lemma {:induction false} SlotEnds(op: Op, e: Expr, p: Path, q: Path)
    requires Slot(op, e, p) && OnSpine(op, e, q) && p <= q
    ensures p == q
    decreases p
  {
    if p != [] {
      SlotEnds(op, Child(e, p[0]), p[1..], q[1..]);
    }
  }

  // the next step from an op-node towards a slot
  lemma Towards(op: Op, e: Expr, p: Path, q: Path) returns (d: Dir)
    requires OnSpine(op, e, p) && IsOp(op, Get(op, e, p)) && Slot(op, e, q) && p <= q
    ensures p + [d] <= q
  {
    assert p != q;
    d := q[|p|];
    assert p + [d] == q[..|p| + 1];
  }

  ghost function Left2(op: Op, e: Expr, p1: Path, p2: Path): nat
    requires OnSpine(op, e, p1) && OnSpine(op, e, p2)
  {
    SpineSize(SpineOf(op, Get(op, e, p1))) + SpineSize(SpineOf(op, Get(op, e, p2)))
  }

  // a pass that counts nothing at two slots counts nothing one step further down
  lemma Dups1Below(op: Op, e: Expr, p1: Path, p2: Path, d: Dir)
    requires IsOp(op, e) && OnSpine(op, e, p1) && OnSpine(op, e, p2) && Dups1(op, e, p1, p2).count == 0
    ensures IsOp(op, Get(op, e, p1)) ==>
      OnSpine(op, e, p1 + [d]) && Dups1(op, e, p1 + [d], p2).count == 0 && Left2(op, e, p1 + [d], p2) < Left2(op, e, p1, p2)
    ensures !IsOp(op, Get(op, e, p1)) && IsOp(op, Get(op, e, p2)) ==>
      OnSpine(op, e, p2 + [d]) && Dups1(op, e, p1, p2 + [d]).count == 0 && Left2(op, e, p1, p2 + [d]) < Left2(op, e, p1, p2)
  {
    if IsOp(op, Get(op, e, p1)) {
      Descend(op, e, p1);
      assert Dups1(op, e, p1 + [Left], p2).e == e;
    } else if IsOp(op, Get(op, e, p2)) {
      Descend(op, e, p2);
      assert Dups1(op, e, p1, p2 + [Left]).e == e;
    }
  }

  lemma Dups2Below(op: Op, e: Expr, p1: Path, p2: Path, d: Dir)
    requires IsOp(op, e) && OnSpine(op, e, p1) && OnSpine(op, e, p2) && Dups2(op, e, p1, p2).count == 0
    ensures IsOp(op, Get(op, e, p1)) ==>
      OnSpine(op, e, p1 + [d]) && Dups2(op, e, p1 + [d], p2).count == 0 && Left2(op, e, p1 + [d], p2) < Left2(op, e, p1, p2)
    ensures !IsOp(op, Get(op, e, p1)) && IsOp(op, Get(op, e, p2)) ==>
      OnSpine(op, e, p2 + [d]) && Dups2(op, e, p1, p2 + [d]).count == 0 && Left2(op, e, p1, p2 + [d]) < Left2(op, e, p1, p2)
  {
    if IsOp(op, Get(op, e, p1)) {
      Descend(op, e, p1);
      assert Dups2(op, e, p1 + [Left], p2).e == e;
    } else if IsOp(op, Get(op, e, p2)) {
      Descend(op, e, p2);
      assert Dups2(op, e, p1, p2 + [Left]).e == e;
    }
  }

  lemma {:induction false} Dups1Quiet(op: Op, e: Expr, p1: Path, p2: Path, q1: Path, q2: Path)
    requires IsOp(op, e) && OnSpine(op, e, p1) && OnSpine(op, e, p2) && Dups1(op, e, p1, p2).count == 0
    requires Slot(op, e, q1) && Slot(op, e, q2) && p1 <= q1 && p2 <= q2 && q1 != q2
    ensures Join(op, Get(op, e, q1), Get(op, e, q2)).None?
    ensures var n := Get(op, e, q1); n.Bin? ==> Dups1(n.op, n, [], []).count == 0
    decreases Left2(op, e, p1, p2)
  {
    if IsOp(op, Get(op, e, p1)) {
      var d := Towards(op, e, p1, q1);
      hide Dups1, Join;
      Dups1Below(op, e, p1, p2, d);
      Dups1Quiet(op, e, p1 + [d], p2, q1, q2);
    } else if IsOp(op, Get(op, e, p2)) {
      var d := Towards(op, e, p2, q2);
      hide Dups1, Join;
      Dups1Below(op, e, p1, p2, d);
      Dups1Quiet(op, e, p1, p2 + [d], q1, q2);
    } else {
      SlotEnds(op, e, p1, q1);
      SlotEnds(op, e, p2, q2);
      PutSame(op, e, p1);
    }
  }

  // here the second path may lead to a whole subtree
  lemma {:induction false} Dups2Quiet(op: Op, e: Expr, p1: Path, p2: Path, q1: Path, q2: Path)
    requires IsOp(op, e) && OnSpine(op, e, p1) && OnSpine(op, e, p2) && Dups2(op, e, p1, p2).count == 0
    requires Slot(op, e, q1) && OnSpine(op, e, q2) && p1 <= q1 && p2 <= q2 && q1 != q2 && Get(op, e, q1).Bin?
    ensures !Contradicts(op, Get(op, e, q1), Get(op, e, q2))
    ensures var n := Get(op, e, q1); Dups2(n.op, n, [], []).count == 0
    decreases Left2(op, e, p1, p2)
  {
    hide Contradicts;
    if IsOp(op, Get(op, e, p1)) {
      var d := Towards(op, e, p1, q1);
      hide Dups2;
      Dups2Below(op, e, p1, p2, d);
      Dups2Quiet(op, e, p1 + [d], p2, q1, q2);
    } else {
      SlotEnds(op, e, p1, q1);
      if p2 != q2 {
        if !IsOp(op, Get(op, e, p2)) {
          SlotEnds(op, e, p2, q2);
          assert false;
        }
        hide Dups2;
        var d := q2[|p2|];
        assert p2 + [d] == q2[..|p2| + 1];
        Dups2Below(op, e, p1, p2, d);
        Dups2Quiet(op, e, p1, p2 + [d], q1, q2);
      } else {
        PutSame(op, e, p1);
      }
    }
  }

  // ----- the whole tree -----

  lemma {:induction false} GetBelow(op: Op, e: Expr, s: Path, p: Path)
    requires OnSpine(op, e, s) && OnSpine(op, Get(op, e, s), p)
    ensures OnSpine(op, e, s + p) && Get(op, e, s + p) == Get(op, Get(op, e, s), p)
    decreases s
  {
    if s == [] {
      assert s + p == p;
    } else {
      GetBelow(op, Child(e, s[0]), s[1..], p);
      assert (s + p)[1..] == s[1..] + p;
    }
  }

  lemma {:induction false} FirstSlot(op: Op, e: Expr) returns (p: Path)
    ensures Slot(op, e, p)
  {
    p := [];
    if IsOp(op, e) {
      var q := FirstSlot(op, e.left);
      p := [Left] + q;
      assert p[1..] == q;
    }
  }

  // an operator has at least two slots
  lemma OtherSlot(op: Op, e: Expr, p: Path) returns (q: Path)
    requires IsOp(op, e) && Slot(op, e, p)
    ensures Slot(op, e, q) && q != p
  {
    var d := if p[0] == Left then Right else Left;
    var q' := FirstSlot(op, Child(e, d));
    q := [d] + q';
    assert q[1..] == q';
  }

  // both passes find nothing in e and in what is nested in it
  ghost predicate Quiet(e: Expr) {
    e.Bin? ==> Dups1(e.op, e, [], []).count == 0 && Dups2(e.op, e, [], []).count == 0
  }

  lemma OperandQuiet(op: Op, e: Expr, p: Path)
    requires IsOp(op, e) && Quiet(e) && Slot(op, e, p)
    ensures Quiet(Get(op, e, p))
  {
    if Get(op, e, p).Bin? {
      var q := OtherSlot(op, e, p);
      Dups1Quiet(op, e, [], [], p, q);
      Dups2Quiet(op, e, [], [], p, q);
    }
  }

  // x is an op-node at the top of a quiet tree
  ghost predicate Within(op: Op, e: Expr, s: Path, x: Expr) {
    IsOp(op, e) && Quiet(e) && OnSpine(op, e, s) && Get(op, e, s) == x && IsOp(op, x)
  }

  lemma {:induction false} WithinQuiet(op: Op, e: Expr, s: Path, x: Expr) returns (e': Expr, s': Path)
    requires IsOp(op, e) && Quiet(e) && OnSpine(op, e, s) && Reached(Get(op, e, s), x) && x.Bin?
    ensures Within(x.op, e', s', x)
    decreases Size(Get(op, e, s)), if IsOp(op, Get(op, e, s)) then 0 else 1
  {
    hide Quiet;
    var n := Get(op, e, s);
    if !IsOp(op, n) {
      OperandQuiet(op, e, s);
      e', s' := WithinQuiet(n.op, n, [], x);
    } else if n == x {
      e', s' := e, s;
    } else {
      GetStep(op, e, s, Left);
      GetStep(op, e, s, Right);
      if Reached(n.left, x) {
        e', s' := WithinQuiet(op, e, s + [Left], x);
      } else {
        e', s' := WithinQuiet(op, e, s + [Right], x);
      }
    }
  }

  lemma DedupedQuiet(e: Expr)
    ensures Quiet(Deduped(e))
  {
    hide Deduped, Dups1, Dups2;
    var r := Deduped(e);
    assert Round(r).count == 0;
  }

  // In the result no two operands of one && or ||, at the top or nested, are
  // equal or can be joined.
  lemma NothingToJoin(e: Expr, x: Expr, p: Path, q: Path)
    requires Reached(Deduped(e), x) && x.Bin? && Slot(x.op, x, p) && Slot(x.op, x, q) && p != q
    ensures !Mergeable(x.op, Get(x.op, x, p), Get(x.op, x, q))
  {
    hide Deduped, Join, Mergeable;
    DedupedQuiet(e);
    var r := Deduped(e);
    assert r.Bin?;
    var e', s := WithinQuiet(r.op, r, [], x);
    GetBelow(x.op, e', s, p);
    GetBelow(x.op, e', s, q);
    assert (s + p)[|s|..] == p && (s + q)[|s|..] == q;
    Dups1Quiet(x.op, e', [], [], s + p, s + q);
    JoinsMergeable(x.op, Get(x.op, x, p), Get(x.op, x, q));
  }

  // ----- contradictions -----

  // expr_extract_eq leaves the same remainders as expr_eliminate_eq
  ghost predicate SameRemainders(op: Op, common: Option<Expr>, e1: Expr, e2: Expr) {
    var r := Extract(op, common, e1, e2);
    && (r.e1, r.e2) == EliminateOperands(op, e1, e2)
    && (r.common.None? ==> common.None? && r == Factored(None, e1, e2))
  }

  lemma {:induction false} ExtractRemainders(op: Op, common: Option<Expr>, e1: Expr, e2: Expr)
    requires Partial(op, e1) && Partial(op, e2)
    ensures SameRemainders(op, common, e1, e2)
    decreases Size(e1) + Size(e2)
  {
    if IsOp(op, e1) {
      var a := Extract(op, common, e1.left, e2);
      ExtractRemainders(op, common, e1.left, e2);
      EliminateOperandsDifference(op, e1.left, e2);
      ExtractRemainders(op, a.common, e1.right, a.e2);
      hide Partial, Remaining;
      LeftSplit(op, common, e1, e2);
    } else if IsOp(op, e2) {
      var a := Extract(op, common, e1, e2.left);
      ExtractRemainders(op, common, e1, e2.left);
      EliminateOperandsDifference(op, e1, e2.left);
      ExtractRemainders(op, a.common, a.e1, e2.right);
      hide Partial, Remaining;
      RightSplit(op, common, e1, e2);
    } else {
      OperandPairRemainders(op, common, e1, e2);
    }
  }

  lemma LeftSplit(op: Op, common: Option<Expr>, e1: Expr, e2: Expr)
    requires IsOp(op, e1) && SameRemainders(op, common, e1.left, e2)
    requires var a := Extract(op, common, e1.left, e2); SameRemainders(op, a.common, e1.right, a.e2)
    ensures SameRemainders(op, common, e1, e2)
  {
    hide ExprEq;
  }

  lemma RightSplit(op: Op, common: Option<Expr>, e1: Expr, e2: Expr)
    requires !IsOp(op, e1) && IsOp(op, e2) && SameRemainders(op, common, e1, e2.left)
    requires var a := Extract(op, common, e1, e2.left); SameRemainders(op, a.common, a.e1, e2.right)
    ensures SameRemainders(op, common, e1, e2)
  {
    hide ExprEq;
  }

  lemma OperandPairRemainders(op: Op, common: Option<Expr>, e1: Expr, e2: Expr)
    requires !IsOp(op, e1) && !IsOp(op, e2) && Partial(op, e1)
    ensures SameRemainders(op, common, e1, e2)
  {
    hide ExprEq;
    if e1 == e2 && IsConstLeaf(e1) {
      ConstantPartial(op, e1);
      OnlySelfEqualsConstant(e1, e1, e2);
    }
  }

  lemma ConstantPartial(op: Op, e: Expr)
    requires Partial(op, e) && IsConstLeaf(e)
    ensures e == Sym(op.Unit())
  {
  }

  // Without constants among the operands the rule fires exactly if all operands
  // of the negation of the one are operands of the other.
  lemma ContradictsExactly(op: Op, e1: Expr, e2: Expr)
    requires ConstFree(Transform(Not(e1))) && ConstFree(e2)
    ensures Contradicts(op, e1, e2) <==> Operands(op, Transform(Not(e1))) <= Operands(op, e2)
  {
    hide Transform, ConstFree, Operands, Remaining, EliminateYn;
    var n := Transform(Not(e1));
    var r := Extract(op, None, n, e2);
    ConstFreeIsPartial(op, n);
    ConstFreeIsPartial(op, e2);
    ExtractRemainders(op, None, n, e2);
    EliminateOperandsDifference(op, n, e2);
    YnKeepsRemaining(op, r.e1);
    NoDifference(Operands(op, n), Operands(op, e2));
    assert n != Sym(op.Unit());
  }

  lemma NoDifference<T>(a: multiset<T>, b: multiset<T>)
    ensures a - b == multiset{} <==> a <= b
  {
    if a - b == multiset{} {
      forall x | x in a
        ensures a[x] <= b[x]
      {
        assert (a - b)[x] == 0;
      }
    }
  }

  // No operand of the result is contradicted by another one, or by any whole
  // subtree of the same operator, also one that contains it.
  lemma NothingContradicts(e: Expr, x: Expr, p: Path, q: Path)
    requires Reached(Deduped(e), x) && x.Bin? && Slot(x.op, x, p) && OnSpine(x.op, x, q) && p != q && Get(x.op, x, p).Bin?
    requires ConstFree(Transform(Not(Get(x.op, x, p)))) && ConstFree(Get(x.op, x, q))
    ensures !(Operands(x.op, Transform(Not(Get(x.op, x, p)))) <= Operands(x.op, Get(x.op, x, q)))
  {
    hide Deduped, Contradicts, Transform, ConstFree, Operands;
    DedupedQuiet(e);
    var r := Deduped(e);
    assert r.Bin?;
    var e', s := WithinQuiet(r.op, r, [], x);
    GetBelow(x.op, e', s, p);
    GetBelow(x.op, e', s, q);
    assert (s + p)[|s|..] == p && (s + q)[|s|..] == q;
    Dups2Quiet(x.op, e', [], [], s + p, s + q);
    ContradictsExactly(x.op, Get(x.op, x, p), Get(x.op, x, q));
  }
}
