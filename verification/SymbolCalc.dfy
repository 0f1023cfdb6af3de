/** The memoising evaluator of symbol.c: every symbol is calculated at most
    once, and SYMBOL_VALID is set before its dependencies are calculated. */
module SymbolCalc {
  import opened Options
  import opened ExprCore
  import opened SymbolSpec

  // What a run is compared with on an acyclic graph: a ranking of the symbols
  // and the solution of the equations.
  datatype Plan = Plan(rank: seq<nat>, goal: Vals)

  ghost predicate GoodPlan(g: Graph, users: seq<User>, plan: Plan) {
    WellFormedGraph(g) && Acyclic(g, plan.rank) && Solution(g, users, plan.goal)
  }

  // A calculated symbol. The select floor of a deselected symbol keeps its
  // previous value, and the fields of an undefined symbol are never set.
  ghost predicate Agrees(g: Graph, goal: Vals, id: nat, x: Val)
    requires id < |g.infos| == |goal|
  {
    && x.val == goal[id].val && x.tri == goal[id].tri
    && (Calculated(g.infos[id].stype) ==>
          && x.visible == goal[id].visible && x.write == goal[id].write
          && (!Deselected(g.infos[id], EnvOf(g, goal)) ==> x.floor == goal[id].floor))
  }

  // s may be calculated while everything of rank r and above is in progress
  ghost predicate Fine(g: Graph, plan: Option<Plan>, r: nat, s: Symbol) {
    && Known(g, s)
    && (plan.Some? && s.Config? ==> s.id < |plan.value.rank| && plan.value.rank[s.id] < r)
  }

  ghost predicate AllFine(g: Graph, plan: Option<Plan>, r: nat, ss: set<Symbol>) {
    forall s | s in ss :: Fine(g, plan, r, s)
  }

  ghost function RankOf(plan: Option<Plan>, id: nat): nat {
    if plan.Some? && id < |plan.value.rank| then plan.value.rank[id] else 0
  }

  lemma UsedFine(g: Graph, users: seq<User>, plan: Option<Plan>, id: nat)
    requires WellFormedGraph(g) && id < |g.infos|
    requires plan.Some? ==> GoodPlan(g, users, plan.value)
    ensures forall s: Symbol | Uses(g.infos[id], s) :: Fine(g, plan, RankOf(plan, id), s)
  {
    hide Uses;
    forall s: Symbol | Uses(g.infos[id], s)
      ensures Fine(g, plan, RankOf(plan, id), s)
    {
      if plan.Some? {
        UsedBelow(g, plan.value.rank, id, s);
      }
    }
  }

  class SymbolTable {
    const g: Graph
    var users: seq<User>
    var valid: set<nat>
    var vals: Vals

    constructor (g: Graph, users: seq<User>)
      requires WellFormedGraph(g) && |users| == |g.infos|
      ensures this.g == g && this.users == users && valid == {} && Sound()
    {
      this.g := g;
      this.users := users;
      valid := {};
      vals := seq(|g.infos|, _ => Val("", 0, 0, 0, false));
    }

    ghost predicate Sound()
      reads this
    {
      && WellFormedGraph(g)
      && |users| == |vals| == |g.infos|
      && forall i | i in valid :: i < |vals|
    }

    // the symbols not calculated yet
    ghost function Todo(): set<nat>
      reads this
    {
      set i: nat | i < |g.infos| && i !in valid
    }

    // Every valid symbol that is not in progress agrees with the plan, and the
    // symbols in progress have rank r or more.
    ghost predicate Follows(plan: Option<Plan>, busy: set<nat>, r: nat)
      reads this
    {
      plan.Some? ==>
        && GoodPlan(g, users, plan.value)
        && |vals| == |g.infos|
        && (forall i | i in valid && i !in busy :: i < |vals| && Agrees(g, plan.value.goal, i, vals[i]))
        && (forall b | b in busy :: b < |g.infos| && plan.value.rank[b] >= r)
    }

    // Calculation only adds symbols, and does not touch those already valid.
    twostate predicate Grown()
      reads this
    {
      && old(valid) <= valid
      && |vals| == |old(vals)|
      && forall i: nat | i in old(valid) && i < |vals| :: vals[i] == old(vals[i])
    }

    // sym_calc_value applied to any symbol; constants are always valid
    method CalcSymbol(s: Symbol, ghost plan: Option<Plan>, ghost busy: set<nat>, ghost r: nat)
      requires Sound() && Follows(plan, busy, r) && Fine(g, plan, r, s)
      modifies this`valid, this`vals
      ensures Sound() && Follows(plan, busy, r) && Grown()
      ensures s.Config? ==> s.id in valid
      ensures plan.Some? ==> ValOf(g, s, vals) == ValOf(g, s, plan.value.goal)
      decreases Todo(), 1
    {
      if s.Config? {
        CalcValue(s.id, plan, busy, r);
      }
    }

    // expr_calc_value
    method CalcExpr(e: Expr, ghost plan: Option<Plan>, ghost busy: set<nat>, ghost r: nat) returns (v: Tristate)
      requires Sound() && Follows(plan, busy, r) && AllFine(g, plan, r, Syms(e))
      modifies this`valid, this`vals
      ensures Sound() && Follows(plan, busy, r) && Grown()
      ensures plan.Some? ==> v == Eval(e, EnvOf(g, plan.value.goal))
      decreases Todo(), 2, e
    {
      match e {
        case Sym(s) =>
          CalcSymbol(s, plan, busy, r);
          v := ValOf(g, s, vals).1;
        case Bin(op, l, r') =>
          var v1 := CalcExpr(l, plan, busy, r);
          var v2 := CalcExpr(r', plan, busy, r);
          v := op.Apply(v1, v2);
        case Not(x) =>
          v := CalcExpr(x, plan, busy, r);
          v := NegateTri(v);
        case Equal(a, b) =>
          CalcSymbol(a, plan, busy, r);
          CalcSymbol(b, plan, busy, r);
          v := if StringOf(g, a, vals) == StringOf(g, b, vals) then 2 else 0;
        case Unequal(a, b) =>
          CalcSymbol(a, plan, busy, r);
          CalcSymbol(b, plan, busy, r);
          v := if StringOf(g, a, vals) == StringOf(g, b, vals) then 0 else 2;
      }
    }

    method CalcOpt(e: Option<Expr>, ghost plan: Option<Plan>, ghost busy: set<nat>, ghost r: nat) returns (v: Tristate)
      requires Sound() && Follows(plan, busy, r) && AllFine(g, plan, r, SymsOpt(e))
      modifies this`valid, this`vals
      ensures Sound() && Follows(plan, busy, r) && Grown()
      ensures plan.Some? ==> v == EvalOpt(e, EnvOf(g, plan.value.goal))
      decreases Todo(), 3
    {
      v := 2;
      if e.Some? {
        v := CalcExpr(e.value, plan, busy, r);
      }
    }

    // sym_get_default_prop: the value of the first visible default
    method DefaultProp(ds: seq<Default>, ghost plan: Option<Plan>, ghost busy: set<nat>, ghost r: nat) returns (d: Option<Expr>)
      requires Sound() && Follows(plan, busy, r) && forall d | d in ds :: AllFine(g, plan, r, DefaultSyms(d))
      modifies this`valid, this`vals
      ensures Sound() && Follows(plan, busy, r) && Grown()
      ensures plan.Some? ==> d == FirstDefault(ds, EnvOf(g, plan.value.goal))
      ensures d.Some? ==> AllFine(g, plan, r, Syms(d.value))
      decreases Todo(), 4
    {
      var k := 0;
      while k < |ds|
        invariant 0 <= k <= |ds|
        invariant Sound() && Follows(plan, busy, r) && Grown()
        invariant plan.Some? ==> FirstDefault(ds, EnvOf(g, plan.value.goal)) == FirstDefault(ds[k..], EnvOf(g, plan.value.goal))
      {
        assert ds[k] in ds;
        var v := CalcOpt(ds[k].visible, plan, busy, r);
        if v != 0 {
          return Some(ds[k].value);
        }
        assert ds[k..][1..] == ds[k + 1..];
        k := k + 1;
      }
      d := None;
    }

    // sym_get_range_prop
    method RangeProp(rs: seq<Range>, ghost plan: Option<Plan>, ghost busy: set<nat>, ghost r: nat) returns (range: Option<Range>)
      requires Sound() && Follows(plan, busy, r) && forall x | x in rs :: AllFine(g, plan, r, RangeSyms(x))
      modifies this`valid, this`vals
      ensures Sound() && Follows(plan, busy, r) && Grown()
      ensures plan.Some? ==> range == FirstRange(rs, EnvOf(g, plan.value.goal))
      ensures range.Some? ==> range.value in rs
      decreases Todo(), 4
    {
      var k := 0;
      while k < |rs|
        invariant 0 <= k <= |rs|
        invariant Sound() && Follows(plan, busy, r) && Grown()
        invariant plan.Some? ==> FirstRange(rs, EnvOf(g, plan.value.goal)) == FirstRange(rs[k..], EnvOf(g, plan.value.goal))
      {
        assert rs[k] in rs;
        var v := CalcOpt(rs[k].visible, plan, busy, r);
        if v != 0 {
          return Some(rs[k]);
        }
        assert rs[k..][1..] == rs[k + 1..];
        k := k + 1;
      }
      range := None;
    }

    // the loop over the prompts in sym_calc_visibility
    method CalcPrompts(prompts: seq<Option<Expr>>, ghost plan: Option<Plan>, ghost busy: set<nat>, ghost r: nat) returns (tri: Tristate)
      requires Sound() && Follows(plan, busy, r) && forall p | p in prompts :: AllFine(g, plan, r, SymsOpt(p))
      modifies this`valid, this`vals
      ensures Sound() && Follows(plan, busy, r) && Grown()
      ensures plan.Some? ==> tri == AnyPrompt(prompts, EnvOf(g, plan.value.goal))
      decreases Todo(), 4
    {
      tri := 0;
      var k := 0;
      while k < |prompts|
        invariant 0 <= k <= |prompts|
        invariant Sound() && Follows(plan, busy, r) && Grown()
        invariant plan.Some? ==> tri == AnyPrompt(prompts[..k], EnvOf(g, plan.value.goal))
      {
        assert prompts[k] in prompts;
        var v := CalcOpt(prompts[k], plan, busy, r);
        tri := OpOr.Apply(tri, v);
        assert prompts[..k + 1][..k] == prompts[..k];
        k := k + 1;
      }
      assert prompts[..k] == prompts;
    }

    // sym_calc_visibility: the visibility of the prompts and the select floor
    method CalcVisibility(id: nat, ghost plan: Option<Plan>, ghost busy: set<nat>, ghost r: nat)
      requires Sound() && Follows(plan, busy, r) && id < |g.infos| && id in valid && id in busy
      requires forall s: Symbol | Uses(g.infos[id], s) :: Fine(g, plan, r, s)
      modifies this`valid, this`vals
      ensures Sound() && Follows(plan, busy, r)
      ensures GrownBut(id) && vals[id] == old(vals[id]).(visible := vals[id].visible, floor := vals[id].floor)
      ensures plan.Some? ==>
        var env := EnvOf(g, plan.value.goal);
        && vals[id].visible == Visible(g.infos[id], env)
        && (!Deselected(g.infos[id], env) ==> vals[id].floor == Floor(g.infos[id], env))
      decreases Todo(), 5
    {
      hide Uses, EnvOf, AnyPrompt;
      var info := g.infos[id];
      UsesParts(info);
      var tri := CalcPrompts(info.prompts, plan, busy, r);
      if tri == 1 && info.stype != Tristated {
        tri := 2;
      }
      var deselected := CalcDeselected(info, plan, busy, r);
      if deselected {
        tri := 0;
      }
      vals := vals[id := vals[id].(visible := tri)];
      if deselected {
        return;
      }
      tri := 0;
      if info.select.Some? {
        tri := CalcOpt(info.select, plan, busy, r);
      }
      if tri == 1 && info.stype == Boolean {
        tri := 2;
      }
      vals := vals[id := vals[id].(floor := tri)];
    }

    // sym->rev_dep_inv.expr && expr_calc_value(sym->rev_dep_inv.expr) == yes
    method CalcDeselected(info: Info, ghost plan: Option<Plan>, ghost busy: set<nat>, ghost r: nat) returns (b: bool)
      requires Sound() && Follows(plan, busy, r) && AllFine(g, plan, r, SymsOpt(info.deselect))
      modifies this`valid, this`vals
      ensures Sound() && Follows(plan, busy, r) && Grown()
      ensures plan.Some? ==> b == Deselected(info, EnvOf(g, plan.value.goal))
      decreases Todo(), 4
    {
      b := false;
      if info.deselect.Some? {
        var v := CalcOpt(info.deselect, plan, busy, r);
        b := v == 2;
      }
    }

    // As Grown, but the symbol that is being calculated may change.
    twostate predicate GrownBut(id: nat)
      reads this
    {
      && old(valid) <= valid
      && |vals| == |old(vals)|
      && id < |vals|
      && forall i: nat | i in old(valid) && i < |vals| && i != id :: vals[i] == old(vals[i])
    }

    // the tristate part of sym_calc_value
    method CalcTristate(id: nat, ghost plan: Option<Plan>, ghost busy: set<nat>, ghost r: nat) returns (tri: Tristate, write: bool)
      requires Sound() && Follows(plan, busy, r) && id < |g.infos| && id in valid
      requires forall s: Symbol | Uses(g.infos[id], s) :: Fine(g, plan, r, s)
      requires plan.Some? ==>
        var env := EnvOf(g, plan.value.goal);
        && vals[id].visible == Visible(g.infos[id], env)
        && (!Deselected(g.infos[id], env) ==> vals[id].floor == Floor(g.infos[id], env))
      modifies this`valid, this`vals
      ensures Sound() && Follows(plan, busy, r) && Grown()
      ensures plan.Some? ==>
        var env := EnvOf(g, plan.value.goal);
        tri == TristateValue(g.infos[id], users[id], env) && write == TristateWrite(g.infos[id], env)
      decreases Todo(), 5
    {
      hide Uses;
      var info := g.infos[id];
      UsesParts(info);
      tri, write := 0, false;
      var deselected := CalcDeselected(info, plan, busy, r);
      if deselected {
        tri := 0;
      } else if OpOr.Apply(vals[id].visible, vals[id].floor) != 0 {
        write := true;
        if !users[id].isNew {
          tri := users[id].tri;
        } else {
          var d := DefaultProp(info.defaults, plan, busy, r);
          if d.Some? {
            tri := CalcExpr(d.value, plan, busy, r);
          }
        }
        tri := OpOr.Apply(OpAnd.Apply(tri, vals[id].visible), vals[id].floor);
      } else {
        var d := DefaultProp(info.defaults, plan, busy, r);
        if d.Some? {
          write := true;
          tri := CalcExpr(d.value, plan, busy, r);
        }
      }
      if tri == 1 && info.stype == Boolean {
        tri := 2;
      }
    }

    // the part of sym_calc_value for strings and numbers
    method CalcString(id: nat, ghost plan: Option<Plan>, ghost busy: set<nat>, ghost r: nat) returns (str: string, write: bool)
      requires Sound() && Follows(plan, busy, r) && id < |g.infos| && id in valid
      requires forall s: Symbol | Uses(g.infos[id], s) :: Fine(g, plan, r, s)
      requires plan.Some? ==> vals[id].visible == Visible(g.infos[id], EnvOf(g, plan.value.goal))
      modifies this`valid, this`vals
      ensures Sound() && Follows(plan, busy, r) && Grown()
      ensures plan.Some? ==>
        && str == StringRaw(g, g.infos[id], users[id], plan.value.goal)
        && write == StringWrite(g.infos[id], EnvOf(g, plan.value.goal))
      decreases Todo(), 5
    {
      hide Uses;
      var info := g.infos[id];
      UsesParts(info);
      str, write := "", false;
      if vals[id].visible != 0 {
        write := true;
        if !users[id].isNew {
          str := users[id].val;
          return;
        }
      }
      var d := DefaultProp(info.defaults, plan, busy, r);
      if d.Some? && d.value.Sym? {
        write := true;
        CalcSymbol(d.value.sym, plan, busy, r);
        str := ValOf(g, d.value.sym, vals).0;
      }
    }

    // sym_get_range_val
    method CalcRangeVal(s: Symbol, base: nat, ghost plan: Option<Plan>, ghost busy: set<nat>, ghost r: nat) returns (n: int)
      requires Sound() && Follows(plan, busy, r) && Fine(g, plan, r, s)
      modifies this`valid, this`vals
      ensures Sound() && Follows(plan, busy, r) && Grown()
      ensures plan.Some? ==> n == RangeVal(g, s, base, plan.value.goal)
      decreases Todo(), 4
    {
      CalcSymbol(s, plan, busy, r);
      n := g.libc.strtol(ValOf(g, s, vals).0, Base(s.Type(), base));
    }

    // sym_validate_range
    method ValidateRange(id: nat, str: string, ghost plan: Option<Plan>, ghost busy: set<nat>, ghost r: nat) returns (result: string)
      requires Sound() && Follows(plan, busy, r) && id < |g.infos|
      requires forall s: Symbol | Uses(g.infos[id], s) :: Fine(g, plan, r, s)
      modifies this`valid, this`vals
      ensures Sound() && Follows(plan, busy, r) && Grown()
      ensures plan.Some? ==> result == Clamp(g, g.infos[id], str, plan.value.goal)
      decreases Todo(), 5
    {
      hide Uses;
      var info := g.infos[id];
      UsesParts(info);
      result := str;
      if info.stype != Int && info.stype != Hex {
        return;
      }
      var base := Base(info.stype, 10);
      var range := RangeProp(info.ranges, plan, busy, r);
      if range.None? {
        return;
      }
      var val := g.libc.strtol(str, base);
      var val2 := CalcRangeVal(range.value.low, base, plan, busy, r);
      if val >= val2 {
        val2 := CalcRangeVal(range.value.high, base, plan, busy, r);
        if val <= val2 {
          return;
        }
      }
      result := g.libc.format(info.stype == Hex, val2);
    }

    // sym_calc_value
    method CalcValue(id: nat, ghost plan: Option<Plan>, ghost busy: set<nat>, ghost r: nat)
      requires Sound() && Follows(plan, busy, r) && id < |g.infos|
      requires plan.Some? ==> RankOf(plan, id) < r
      modifies this`valid, this`vals
      ensures Sound() && Follows(plan, busy, r) && Grown()
      ensures id in valid
      ensures plan.Some? ==> Agrees(g, plan.value.goal, id, vals[id])
      decreases Todo(), 0
    {
      hide Uses;
      if id in valid {
        return;
      }
      ghost var todo := Todo();
      valid := valid + {id};
      assert Todo() < todo by {
        assert id in todo;
      }
      var info := g.infos[id];
      if !Calculated(info.stype) {
        vals := vals[id := vals[id].(val := info.name, tri := 0)];
        return;
      }
      ghost var r' := RankOf(plan, id);
      UsedFine(g, users, plan, id);
      Recalculate(id, plan, busy + {id}, r');
    }

    // the body of sym_calc_value for a symbol with a type
    method Recalculate(id: nat, ghost plan: Option<Plan>, ghost busy: set<nat>, ghost r: nat)
      requires Sound() && Follows(plan, busy, r) && id < |g.infos| && id in valid && id in busy
      requires Calculated(g.infos[id].stype)
      requires forall s: Symbol | Uses(g.infos[id], s) :: Fine(g, plan, r, s)
      modifies this`valid, this`vals
      ensures Sound() && Follows(plan, busy, r) && GrownBut(id)
      ensures plan.Some? ==> Agrees(g, plan.value.goal, id, vals[id])
      decreases Todo(), 6
    {
      hide Uses, EnvOf, Visible, Floor, TristateValue, TristateWrite, StringRaw, StringWrite, Clamp, Deselected;
      vals := vals[id := vals[id].(write := false)];
      CalcVisibility(id, plan, busy, r);
      // the default, in case the symbol is reached again while it is calculated
      var logical := g.infos[id].stype == Boolean || g.infos[id].stype == Tristated;
      vals := vals[id := vals[id].(val := if logical then "n" else "", tri := 0)];
      if logical {
        var tri, write := CalcTristate(id, plan, busy, r);
        vals := vals[id := vals[id].(tri := tri, write := write)];
      } else {
        var str, write := CalcString(id, plan, busy, r);
        vals := vals[id := vals[id].(val := str, write := write)];
        str := ValidateRange(id, str, plan, busy, r);
        vals := vals[id := vals[id].(val := str)];
      }
    }

    // Asking for any symbols in any order gives each the value of the plan.
    method CalcAll(order: seq<nat>, ghost plan: Option<Plan>)
      requires Sound() && (forall i | i in order :: i < |g.infos|)
      requires plan.Some? ==> GoodPlan(g, users, plan.value) && Cached(plan.value)
      modifies this`valid, this`vals
      ensures Sound() && Grown() && (forall i | i in order :: i in valid)
      ensures plan.Some? ==> Cached(plan.value)
    {
      ghost var r := if plan.Some? then MaxRank(plan.value.rank) + 1 else 0;
      var k := 0;
      while k < |order|
        invariant 0 <= k <= |order|
        invariant Sound() && Follows(plan, {}, r) && Grown()
        invariant forall i | 0 <= i < k :: order[i] in valid
      {
        assert order[k] in order;
        CalcValue(order[k], plan, {}, r);
        k := k + 1;
      }
    }

    // every valid symbol has the value of the plan
    ghost predicate Cached(plan: Plan)
      reads this
    {
      && |plan.goal| == |vals| == |g.infos|
      && forall i | i in valid :: i < |vals| && Agrees(g, plan.goal, i, vals[i])
    }

    // sym_clear_all_valid; symbols of type S_OTHER are skipped
    method ClearAllValid()
      requires Sound()
      modifies this`valid
      ensures Sound() && valid == set i | i in old(valid) && g.infos[i].stype == Other
    {
      valid := set i | i in valid && g.infos[i].stype == Other;
    }

    // sym_set_tristate_value for a symbol that is no choice value
    method SetTristate(id: nat, val: Tristate) returns (ok: bool)
      requires Sound() && id < |g.infos|
      modifies this`users, this`valid
      ensures Sound()
      ensures ok <==> vals[id].tri == val || WithinRange(g.infos[id], vals[id], val)
      ensures users == if ok then old(users)[id := User(false, val, old(users[id].val))] else old(users)
      ensures valid == if ok && vals[id].tri != val then (set i | i in old(valid) && g.infos[i].stype == Other) else old(valid)
    {
      var oldval := vals[id].tri;
      if oldval != val && !WithinRange(g.infos[id], vals[id], val) {
        return false;
      }
      users := users[id := users[id].(isNew := false)];
      users := users[id := users[id].(tri := val)];
      if oldval != val {
        ClearAllValid();
      }
      ok := true;
    }

    // When all symbols are calculated and the new value is accepted,
    // recalculation gives the symbol exactly that value, and every symbol that does
    // not depend on it keeps its own.
    method Configure(id: nat, val: Tristate, order: seq<nat>, ghost plan: Plan) returns (ok: bool)
      requires Sound() && GoodPlan(g, users, plan) && Cached(plan)
      requires id < |g.infos| && (g.infos[id].stype == Boolean || g.infos[id].stype == Tristated)
      requires forall i: nat | i < |g.infos| :: i in valid && i in order
      requires forall i | i in order :: i < |g.infos|
      modifies this`users, this`valid, this`vals
      ensures Sound()
      ensures ok <==> old(vals[id]).tri == val || WithinRange(g.infos[id], old(vals[id]), val)
      ensures ok ==> vals[id].tri == val
      ensures forall j: nat | j < |g.infos| && (!ok || Independent(g, j, id)) ::
        vals[j].val == old(vals[j]).val && vals[j].tri == old(vals[j]).tri
    {
      ok := SetTristate(id, val);
      if !ok {
        return;
      }
      ghost var goal := Plain(g, users, MaxRank(plan.rank) + 1);
      PlainIsSolution(g, users, plan.rank, MaxRank(plan.rank) + 1);
      SetTakesEffect(g, old(users), users, plan.rank, plan.goal, goal, id, val);
      ghost var plan' := Plan(plan.rank, goal);
      assert Cached(plan') by {
        if plan.goal[id].tri != val {
          forall i | i in valid
            ensures Agrees(g, goal, i, vals[i])
          {
            OtherIsConstant(g, old(users), users, plan.goal, goal, i);
          }
        }
      }
      CalcAll(order, Some(plan'));
      forall j: nat | j < |g.infos|
        ensures Agrees(g, goal, j, vals[j])
      {
        assert j in order;
      }
    }
  }

  // sym_tristate_within_range for a symbol that is no choice value
  predicate WithinRange(info: Info, x: Val, val: Tristate) {
    && x.visible != 0
    && (info.stype == Boolean || info.stype == Tristated)
    && !(info.stype == Boolean && val == 1)
    && x.visible > x.floor
    && x.floor <= val <= x.visible
  }

  // closed under looking up what the members use
  ghost predicate Closed(g: Graph, keep: set<nat>) {
    forall j, s: Symbol | j in keep && j < |g.infos| && s.Config? && Uses(g.infos[j], s) :: s.id in keep
  }

  // j does not depend on id, directly or through other symbols
  ghost predicate Independent(g: Graph, j: nat, id: nat) {
    exists keep: set<nat> :: j in keep && id !in keep && Closed(g, keep)
  }

  lemma OtherIsConstant(g: Graph, users: seq<User>, users': seq<User>, vals: Vals, vals': Vals, i: nat)
    requires Solution(g, users, vals) && Solution(g, users', vals') && i < |g.infos| && g.infos[i].stype == Other
    ensures vals[i] == vals'[i]
  {
  }

  ghost predicate SetUser(users: seq<User>, users': seq<User>, id: nat, val: Tristate) {
    id < |users| && users' == users[id := User(false, val, users[id].val)]
  }

  // Below the rank of the changed symbol nothing changes.
  lemma {:induction false} SameBelow(g: Graph, users: seq<User>, users': seq<User>, rank: seq<nat>, vals: Vals, vals': Vals, id: nat, val: Tristate, depth: nat)
    requires WellFormedGraph(g) && Acyclic(g, rank) && SetUser(users, users', id, val)
    requires Solution(g, users, vals) && Solution(g, users', vals') && depth <= rank[id]
    ensures forall i: nat | i < |rank| && rank[i] < depth :: vals[i] == vals'[i]
  {
    if depth > 0 {
      SameBelow(g, users, users', rank, vals, vals', id, val, depth - 1);
      forall i: nat | i < |rank| && rank[i] < depth
        ensures vals[i] == vals'[i]
      {
        StepBelow(g, users, rank, i, depth - 1, vals, vals');
        StepOtherUser(g, users, users', i, vals');
      }
    }
  }

  // the equation of a symbol looks only at that symbol's user value
  lemma StepOtherUser(g: Graph, users: seq<User>, users': seq<User>, i: nat, vals: Vals)
    requires i < |g.infos| == |users| == |users'| && users[i] == users'[i]
    ensures Step(g, users, i, vals) == Step(g, users', i, vals)
  {
  }

  // symbols that do not depend on the changed one
  lemma {:induction false} SameIndependent(g: Graph, users: seq<User>, users': seq<User>, rank: seq<nat>, vals: Vals, vals': Vals, id: nat, val: Tristate, keep: set<nat>, depth: nat)
    requires WellFormedGraph(g) && Acyclic(g, rank) && SetUser(users, users', id, val)
    requires Solution(g, users, vals) && Solution(g, users', vals')
    requires Closed(g, keep) && id !in keep
    ensures forall i: nat | i < |rank| && rank[i] < depth && i in keep :: vals[i] == vals'[i]
  {
    if depth > 0 {
      SameIndependent(g, users, users', rank, vals, vals', id, val, keep, depth - 1);
      forall i: nat | i < |rank| && rank[i] < depth && i in keep
        ensures vals[i] == vals'[i]
      {
        hide Step, Uses;
        forall s: Symbol | Uses(g.infos[i], s)
          ensures SameOn(g, vals, vals', s)
        {
          UsedBelow(g, rank, i, s);
        }
        StepLocal(g, users, i, vals, vals');
        StepOtherUser(g, users, users', i, vals');
      }
    }
  }

  // with the same surroundings, an accepted value is the value
  lemma AcceptedIsKept(info: Info, user: User, user': User, env: Env, x: Val, val: Tristate)
    requires info.stype == Boolean || info.stype == Tristated
    requires x.visible == Visible(info, env) && x.tri == TristateValue(info, user, env)
    requires !Deselected(info, env) ==> x.floor == Floor(info, env)
    requires x.tri == val || WithinRange(info, x, val)
    requires !user'.isNew && user'.tri == val
    ensures TristateValue(info, user', env) == val
  {
    hide EnvOf, AnyPrompt, FirstDefault, Eval;
  }

  lemma SetTakesEffect(g: Graph, users: seq<User>, users': seq<User>, rank: seq<nat>, vals: Vals, vals': Vals, id: nat, val: Tristate)
    requires WellFormedGraph(g) && Acyclic(g, rank) && SetUser(users, users', id, val)
    requires Solution(g, users, vals) && Solution(g, users', vals')
    requires g.infos[id].stype == Boolean || g.infos[id].stype == Tristated
    requires vals[id].tri == val || WithinRange(g.infos[id], vals[id], val)
    ensures vals'[id].tri == val
    ensures forall j: nat | j < |vals| && Independent(g, j, id) :: vals'[j] == vals[j]
    ensures vals[id].tri == val ==> vals' == vals
  {
    var info := g.infos[id];
    SameBelow(g, users, users', rank, vals, vals', id, val, rank[id]);
    StepBelow(g, users', rank, id, rank[id], vals, vals');
    AcceptedIsKept(info, users[id], users'[id], EnvOf(g, vals), vals[id], val);
    forall j: nat | j < |vals| && Independent(g, j, id)
      ensures vals'[j] == vals[j]
    {
      var keep: set<nat> :| j in keep && id !in keep && Closed(g, keep);
      SameIndependent(g, users, users', rank, vals, vals', id, val, keep, rank[j] + 1);
    }
    if vals[id].tri == val {
      forall i: nat | i < |vals|
        ensures vals[i] == Step(g, users', i, vals)
      {
        if i != id {
          StepOtherUser(g, users, users', i, vals);
        }
      }
      SolutionUnique(g, users', rank, vals, vals');
    }
  }

  lemma UsesParts(info: Info)
    ensures forall p, s | p in info.prompts && s in SymsOpt(p) :: Uses(info, s)
    ensures forall d, s | d in info.defaults && s in DefaultSyms(d) :: Uses(info, s)
    ensures forall x, s | x in info.ranges && s in RangeSyms(x) :: Uses(info, s)
    ensures forall s | s in SymsOpt(info.select) || s in SymsOpt(info.deselect) :: Uses(info, s)
  {
  }
}
