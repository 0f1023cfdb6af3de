/** The three-valued dependency expressions of the configuration language:
    the tristate algebra, symbols, expression trees and their value. */
module ExprCore {
  import opened Options

  // no = 0, mod = 1, yes = 2
  type Tristate = t: int | 0 <= t <= 2

  datatype SymType = Unknown | Boolean | Tristated | Int | Hex | String | Other

  // The text of an interned constant symbol. The texts "y", "m" and "n" are
  // the three tristate constants, so interning never makes a Literal of them.
  type LiteralText = s: string | s != "y" && s != "m" && s != "n" witness ""

  // Symbols are compared by identity. Interning makes identity of constants
  // the same as equality of their text.
  datatype Symbol =
    | Yes
    | Mod
    | No
    | Literal(text: LiteralText)
    | Config(id: nat, stype: SymType)
  {
    function Type(): SymType {
      if Config? then stype else Unknown
    }

    predicate IsTristateType() {
      Type() == Boolean || Type() == Tristated
    }

    // flags & SYMBOL_CONST
    predicate IsConst() {
      !Config?
    }
  }

  datatype Op = OpAnd | OpOr {
    function Dual(): Op {
      if OpAnd? then OpOr else OpAnd
    }

    // the constant that leaves the other operand alone
    function Unit(): Symbol {
      if OpAnd? then Yes else No
    }

    // the constant that decides the whole
    function Absorb(): Symbol {
      if OpAnd? then No else Yes
    }

    // E_AND is the minimum, E_OR the maximum
    function Apply(a: Tristate, b: Tristate): Tristate {
      if OpAnd? then (if a < b then a else b) else (if a > b then a else b)
    }
  }

  // regrouping under one operator
  lemma ApplyRegroup(op: Op, a: Tristate, b: Tristate, c: Tristate, d: Tristate)
    ensures op.Apply(op.Apply(a, b), op.Apply(c, d)) == op.Apply(op.Apply(a, c), op.Apply(b, d))
    ensures op.Apply(op.Apply(a, b), c) == op.Apply(a, op.Apply(b, c))
    ensures op.Apply(a, b) == op.Apply(b, a)
  {
  }

  datatype Expr =
    | Sym(sym: Symbol)
    | Equal(lhs: Symbol, rhs: Symbol)
    | Unequal(lhs: Symbol, rhs: Symbol)
    | Not(arg: Expr)
    | Bin(op: Op, left: Expr, right: Expr)

  // An environment gives every symbol its tristate and its string.
  datatype Env = Env(tri: Symbol -> Tristate, str: Symbol -> string)

  function TristateName(t: Tristate): string {
    if t == 0 then "n" else if t == 1 then "m" else "y"
  }

  function NegateTri(t: Tristate): Tristate {
    2 - t
  }

  // What the values of a calculated symbol table satisfy: the constants have
  // their values, a bool is n or y, and the string of a bool or tristate is the
  // name of its value.
  ghost predicate WellFormed(env: Env) {
    && env.tri(Yes) == 2 && env.str(Yes) == "y"
    && env.tri(Mod) == 1 && env.str(Mod) == "m"
    && env.tri(No) == 0 && env.str(No) == "n"
    && (forall s: Symbol :: s.Literal? ==> env.str(s) == s.text)
    && (forall s: Symbol :: s.Type() == Boolean ==> env.tri(s) != 1)
    && (forall s: Symbol :: s.IsTristateType() ==> env.str(s) == TristateName(env.tri(s)))
  }

  // expr_calc_value, with the symbols already calculated
  function Eval(e: Expr, env: Env): Tristate {
    match e
    case Sym(s) => env.tri(s)
    case Equal(l, r) => if env.str(l) == env.str(r) then 2 else 0
    case Unequal(l, r) => if env.str(l) == env.str(r) then 0 else 2
    case Not(x) => NegateTri(Eval(x, env))
    case Bin(op, l, r) => op.Apply(Eval(l, env), Eval(r, env))
  }

  // A null expression is satisfied.
  function EvalOpt(e: Option<Expr>, env: Env): Tristate {
    if e.None? then 2 else Eval(e.value, env)
  }

  function Size(e: Expr): nat {
    match e
    case Not(x) => 1 + Size(x)
    case Bin(_, l, r) => 1 + Size(l) + Size(r)
    case _ => 1
  }

  predicate IsOp(op: Op, e: Expr) {
    e.Bin? && e.op == op
  }

  // negations stand in front of symbols only
  predicate NotsOnSymbols(e: Expr) {
    match e
    case Not(x) => x.Sym?
    case Bin(_, l, r) => NotsOnSymbols(l) && NotsOnSymbols(r)
    case _ => true
  }

  // expr_is_yes; a null expression counts as y
  predicate IsYes(e: Option<Expr>) {
    e.None? || e.value == Sym(Yes)
  }

  // expr_alloc_and and expr_alloc_or
  function AllocOp(op: Op, e1: Option<Expr>, e2: Option<Expr>): Option<Expr> {
    if e1.None? then e2
    else if e2.None? then e1
    else Some(Bin(op, e1.value, e2.value))
  }

  // The order of information: m may be sharpened to n or y, a definite value stays.
  predicate Sharpens(before: Tristate, after: Tristate) {
    before == 1 || before == after
  }
}
