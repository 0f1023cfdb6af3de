/** The expression tree as the program has it: nodes that are overwritten in
    place. The rewriters on nodes compute the functions on expressions. */
module ExprHeap {
  import opened ExprCore
  import opened ExprEquality
  import opened ExprTransform

  datatype Kind = KOr | KAnd | KNot | KEqual | KUnequal | KSymbol

  class Node {
    var kind: Kind
    // left.expr and right.expr
    var left: Node?
    var right: Node?
    // left.sym and right.sym
    var lsym: Symbol
    var rsym: Symbol
    // nodes among which the tree below this node lies
    ghost var repr: set<Node>

    ghost predicate Valid()
      reads this, repr
      decreases repr
    {
      && this in repr
      && (HasLeft() ==> left != null && left in repr && this !in left.repr && left.repr <= repr && left.Valid())
      && (HasRight() ==> right != null && right in repr && this !in right.repr && right.repr <= repr && right.Valid())
      && (HasRight() ==> left.repr !! right.repr)
    }

    predicate HasLeft()
      reads this
    {
      kind == KNot || kind == KAnd || kind == KOr
    }

    predicate HasRight()
      reads this
    {
      kind == KAnd || kind == KOr
    }

    ghost function Tree(): Expr
      requires Valid()
      reads this, repr
      decreases repr
    {
      match kind
      case KSymbol => Sym(lsym)
      case KEqual => Equal(lsym, rsym)
      case KUnequal => Unequal(lsym, rsym)
      case KNot => Not(left.Tree())
      case KAnd => Bin(OpAnd, left.Tree(), right.Tree())
      case KOr => Bin(OpOr, left.Tree(), right.Tree())
    }

    constructor (kind: Kind, left: Node?, right: Node?, lsym: Symbol, rsym: Symbol, ghost below: set<Node>)
      ensures this.kind == kind && this.left == left && this.right == right && this.lsym == lsym && this.rsym == rsym
      ensures repr == {this} + below
    {
      this.kind, this.left, this.right, this.lsym, this.rsym := kind, left, right, lsym, rsym;
      repr := {this} + below;
    }
  }

  // e becomes the symbol s
  method BecomeSymbol(e: Node, s: Symbol)
    requires e.Valid()
    modifies e
    ensures e.Valid() && e.Tree() == Sym(s) && e.repr == old(e.repr)
  {
    e.kind := KSymbol;
    e.lsym := s;
    e.right := null;
  }

  // *e = *tmp for a child of e
  method BecomeChild(e: Node, tmp: Node)
    requires e.Valid() && ((e.HasLeft() && tmp == e.left) || (e.HasRight() && tmp == e.right))
    modifies e
    ensures e.Valid() && e.Tree() == old(tmp.Tree()) && e.repr == old(e.repr)
  {
    e.kind, e.left, e.right, e.lsym, e.rsym := tmp.kind, tmp.left, tmp.right, tmp.lsym, tmp.rsym;
  }

  // expr_eliminate_yn
  method EliminateYnNode(e: Node)
    requires e.Valid()
    modifies e.repr
    ensures e.Valid() && e.Tree() == EliminateYn(old(e.Tree())) && e.repr == old(e.repr)
    decreases e.repr
  {
    if e.kind == KAnd || e.kind == KOr {
      ghost var l0, r0 := e.left.Tree(), e.right.Tree();
      EliminateYnNode(e.left);
      EliminateYnNode(e.right);
      var absorb, unit := if e.kind == KAnd then No else Yes, if e.kind == KAnd then Yes else No;
      if e.left.kind == KSymbol {
        if e.left.lsym == absorb {
          BecomeSymbol(e, absorb);
          return;
        } else if e.left.lsym == unit {
          BecomeChild(e, e.right);
          return;
        }
      }
      if e.right.kind == KSymbol {
        if e.right.lsym == absorb {
          BecomeSymbol(e, absorb);
        } else if e.right.lsym == unit {
          BecomeChild(e, e.left);
        }
      }
    }
  }

  // expr_trans_bool
  method TransBoolNode(e: Node)
    requires e.Valid()
    modifies e.repr
    ensures e.Valid() && e.Tree() == TransBool(old(e.Tree())) && e.repr == old(e.repr)
    decreases e.repr
  {
    match e.kind {
      case KAnd =>
        TransBoolNode(e.left);
        TransBoolNode(e.right);
      case KOr =>
        TransBoolNode(e.left);
        TransBoolNode(e.right);
      case KNot => TransBoolNode(e.left);
      case KUnequal =>
        if e.lsym.Type() == Tristated && e.rsym == No {
          e.kind := KSymbol;
        }
      case _ =>
    }
  }

  // expr_transform; the result may be another node than e
  method TransformNode(e: Node) returns (r: Node)
    requires e.Valid()
    modifies e.repr
    ensures r.Valid() && r.Tree() == Transform(old(e.Tree()))
    ensures fresh(r.repr - old(e.repr))
    decreases Weight(e.Tree()), 2
  {
    ghost var t := e.Tree();
    WeightPositive(t);
    r := e;
    if e.HasLeft() {
      TransformChildren(e);
    }
    match e.kind {
      case KEqual => TestOfSymbol(e, true);
      case KUnequal => TestOfSymbol(e, false);
      case KNot => r := NotNode(e, t);
      case _ =>
    }
  }

  method TransformChildren(e: Node)
    requires e.Valid() && e.HasLeft()
    modifies e.repr
    ensures e.Valid() && e.kind == old(e.kind) && fresh(e.repr - old(e.repr))
    ensures e.Tree() == match old(e.Tree())
      case Not(x) => Not(Transform(x))
      case Bin(op, l, r) => Bin(op, Transform(l), Transform(r))
      case t => t
    decreases Weight(e.Tree()), 1
  {
    hide Transform;
    WeightPositive(e.left.Tree());
    if e.HasRight() {
      WeightPositive(e.right.Tree());
      TransformLeft(e);
      TransformRight(e);
    } else {
      e.left := TransformNode(e.left);
      e.repr := {e} + e.left.repr;
    }
  }

  method TransformLeft(e: Node)
    requires e.Valid() && e.HasRight()
    modifies e.repr - e.right.repr
    ensures e.Valid() && e.kind == old(e.kind) && fresh(e.repr - old(e.repr)) && e.right == old(e.right)
    ensures e.left.Tree() == Transform(old(e.left.Tree())) && e.right.Tree() == old(e.right.Tree())
    decreases Weight(e.left.Tree()), 3
  {
    hide Transform;
    var l := TransformNode(e.left);
    e.left := l;
    e.repr := {e} + l.repr + e.right.repr;
  }

  method TransformRight(e: Node)
    requires e.Valid() && e.HasRight()
    modifies e.repr - e.left.repr
    ensures e.Valid() && e.kind == old(e.kind) && fresh(e.repr - old(e.repr)) && e.left == old(e.left)
    ensures e.right.Tree() == Transform(old(e.right.Tree())) && e.left.Tree() == old(e.left.Tree())
    decreases Weight(e.right.Tree()), 3
  {
    hide Transform;
    var r := TransformNode(e.right);
    e.right := r;
    e.repr := {e} + r.repr + e.left.repr;
  }

  // a comparison node of a bool with y, m or n
  method TestOfSymbol(e: Node, equal: bool)
    requires e.Valid() && e.kind == if equal then KEqual else KUnequal
    modifies e
    ensures e.Valid() && e.Tree() == TransformSymbolTest(equal, old(e.lsym), old(e.rsym))
    ensures fresh(e.repr - old(e.repr))
  {
    if e.lsym.Type() != Boolean {
      return;
    }
    if e.rsym == (if equal then No else Yes) {
      e.kind := KNot;
      e.left := new Node(KSymbol, null, null, e.lsym, No, {});
      e.repr := {e} + e.left.repr;
    } else if e.rsym == Mod {
      e.kind := KSymbol;
      e.lsym := if equal then No else Yes;
    } else if e.rsym == (if equal then Yes else No) {
      e.kind := KSymbol;
    }
  }

  // a negation node whose operand is transformed; t is the expression it came from
  method NotNode(e: Node, ghost t: Expr) returns (r: Node)
    requires e.Valid() && e.kind == KNot && t.Not? && e.left.Tree() == Transform(t.arg)
    modifies e.repr
    ensures r.Valid() && r.Tree() == Transform(t)
    ensures fresh(r.repr - old(e.repr))
    decreases Weight(t), 1
  {
    WeightPositive(t.arg);
    var tmp := e.left;
    ghost var x := tmp.Tree();
    WeightPositive(x);
    match tmp.kind {
      case KNot =>
        WeightPositive(tmp.left.Tree());
        r := TransformNode(tmp.left);
      case KEqual =>
        r := tmp;
        r.kind := KUnequal;
      case KUnequal =>
        r := tmp;
        r.kind := KEqual;
      case KSymbol =>
        r := e;
        if tmp.lsym in {Yes, Mod, No} {
          r := tmp;
          r.lsym := if tmp.lsym == Yes then No else if tmp.lsym == Mod then Mod else Yes;
        }
      case KOr => r := SinkNot(e, KAnd, t);
      case KAnd => r := SinkNot(e, KOr, t);
    }
  }

  // !(a || b) becomes !a && !b, and is transformed again
  method SinkNot(e: Node, kind: Kind, ghost t: Expr) returns (r: Node)
    requires e.Valid() && e.kind == KNot && t.Not? && e.left.Tree() == Transform(t.arg)
    requires (e.left.kind == KOr && kind == KAnd) || (e.left.kind == KAnd && kind == KOr)
    modifies e.repr
    ensures r.Valid() && r.Tree() == Transform(t)
    ensures fresh(r.repr - old(e.repr))
    decreases Weight(t), 0
  {
    ghost var x := e.left.Tree();
    WeightPositive(x.left);
    WeightPositive(x.right);
    Distribute(e, kind);
    assert Weight(Not(x.left)) == 2 * Weight(x.left) && Weight(Not(x.right)) == 2 * Weight(x.right);
    assert Weight(t) == 2 * Weight(t.arg) && Weight(x) <= Weight(t.arg);
    r := TransformNode(e);
  }

  // the nodes of !(a || b) made into !a && !b, with one more node
  method Distribute(e: Node, kind: Kind)
    requires e.Valid() && e.kind == KNot
    requires (e.left.kind == KOr && kind == KAnd) || (e.left.kind == KAnd && kind == KOr)
    modifies e, e.left
    ensures e.Valid() && fresh(e.repr - old(e.repr))
    ensures var x := old(e.left.Tree()); e.Tree() == Bin(x.op.Dual(), Not(x.left), Not(x.right))
  {
    var tmp := e.left;
    var n := NegatedNode(tmp.right);
    KeepLeftNegated(tmp);
    BecomeBinary(e, kind, n);
  }

  // a negation gets a second operand and another kind
  method BecomeBinary(e: Node, kind: Kind, n: Node)
    requires e.left != null && e.left.Valid() && n.Valid() && e.left.repr !! n.repr && e !in e.left.repr && e !in n.repr
    requires kind == KAnd || kind == KOr
    modifies e
    ensures e.Valid() && e.repr == {e} + old(e.left.repr) + n.repr
    ensures e.Tree() == Bin(if kind == KAnd then OpAnd else OpOr, old(e.left.Tree()), old(n.Tree()))
  {
    e.kind := kind;
    e.right := n;
    e.repr := {e} + e.left.repr + n.repr;
    assert e.left.Valid() && n.Valid();
  }

  // a node with two operands keeps the left one, negated
  method KeepLeftNegated(n: Node)
    requires n.Valid() && n.HasRight()
    modifies n
    ensures n.Valid() && n.Tree() == Not(old(n.left.Tree())) && n.repr == {n} + old(n.left.repr)
  {
    n.kind := KNot;
    n.repr := {n} + n.left.repr;
    n.right := null;
  }

  method NegatedNode(n: Node) returns (r: Node)
    requires n.Valid()
    ensures fresh(r) && r.Valid() && r.Tree() == Not(n.Tree()) && r.repr == {r} + n.repr
  {
    r := new Node(KNot, n, null, No, No, n.repr);
  }
}
