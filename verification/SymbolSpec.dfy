/** What a symbol is worth: the value, visibility and select floor of every
    symbol as equations over the values of the symbols it depends on. */
module SymbolSpec {
  import opened Options
  import opened ExprCore
  import opened ExprTransform

  datatype Default = Default(visible: Option<Expr>, value: Expr)

  datatype Range = Range(visible: Option<Expr>, low: Symbol, high: Symbol)

  // A symbol and its properties in order. select is the disjunction of the
  // conditions that select it (rev_dep), deselect the one that forbids it.
  datatype Info = Info(
    stype: SymType,
    name: string,
    prompts: seq<Option<Expr>>,
    defaults: seq<Default>,
    ranges: seq<Range>,
    select: Option<Expr>,
    deselect: Option<Expr>)

  // the number conversions of the C library
  datatype Libc = Libc(strtol: (string, nat) -> int, format: (bool, int) -> string)

  datatype Graph = Graph(infos: seq<Info>, libc: Libc)

  // the value the user gave; a new symbol has none
  datatype User = User(isNew: bool, tri: Tristate, val: string)

  // curr.val, curr.tri, visible, rev_dep.tri and the flag SYMBOL_WRITE
  datatype Val = Val(val: string, tri: Tristate, visible: Tristate, floor: Tristate, write: bool)

  type Vals = seq<Val>

  // ----- symbols of expressions -----

  function Syms(e: Expr): set<Symbol> {
    match e
    case Sym(s) => {s}
    case Equal(l, r) => {l, r}
    case Unequal(l, r) => {l, r}
    case Not(x) => Syms(x)
    case Bin(_, l, r) => Syms(l) + Syms(r)
  }

  function SymsOpt(e: Option<Expr>): set<Symbol> {
    if e.None? then {} else Syms(e.value)
  }

  function DefaultSyms(d: Default): set<Symbol> {
    SymsOpt(d.visible) + Syms(d.value)
  }

  function RangeSyms(r: Range): set<Symbol> {
    SymsOpt(r.visible) + {r.low, r.high}
  }

  // the symbols the calculation of a symbol looks at
  ghost predicate Uses(info: Info, s: Symbol) {
    || (exists p <- info.prompts :: s in SymsOpt(p))
    || (exists d <- info.defaults :: s in DefaultSyms(d))
    || (exists r <- info.ranges :: s in RangeSyms(r))
    || s in SymsOpt(info.select)
    || s in SymsOpt(info.deselect)
  }

  predicate Known(g: Graph, s: Symbol) {
    s.Config? ==> s.id < |g.infos| && s.stype == g.infos[s.id].stype
  }

  ghost predicate WellFormedGraph(g: Graph) {
    forall id: nat, s: Symbol | id < |g.infos| && Uses(g.infos[id], s) :: Known(g, s)
  }

  // ----- the environment given by a valuation -----

  function ConstVal(s: Symbol): (string, Tristate) {
    match s
    case Yes => ("y", 2)
    case Mod => ("m", 1)
    case Literal(t) => (t, 0)
    case _ => ("n", 0)
  }

  // the declared types
  function Types(g: Graph): (types: seq<SymType>)
    ensures |types| == |g.infos| && forall i | 0 <= i < |types| :: types[i] == g.infos[i].stype
  {
    seq(|g.infos|, i requires 0 <= i < |g.infos| => g.infos[i].stype)
  }

  // curr.val and curr.tri; only a symbol of the declared type is looked up
  function Lookup(types: seq<SymType>, s: Symbol, vals: Vals): (string, Tristate) {
    if s.Config? && s.id < |types| && types[s.id] == s.stype && s.id < |vals| then (vals[s.id].val, vals[s.id].tri) else ConstVal(s)
  }

  function ValOf(g: Graph, s: Symbol, vals: Vals): (string, Tristate) {
    Lookup(Types(g), s, vals)
  }

  // sym_get_string_value
  function TextOf(s: Symbol, v: (string, Tristate)): string {
    if s.IsTristateType() then TristateName(v.1) else v.0
  }

  function StringOf(g: Graph, s: Symbol, vals: Vals): string {
    TextOf(s, ValOf(g, s, vals))
  }

  function EnvFor(types: seq<SymType>, vals: Vals): Env {
    Env(s => Lookup(types, s, vals).1, s => TextOf(s, Lookup(types, s, vals)))
  }

  function EnvOf(g: Graph, vals: Vals): Env {
    EnvFor(Types(g), vals)
  }

  // ----- the equations -----

  function AnyPrompt(prompts: seq<Option<Expr>>, env: Env): Tristate {
    if prompts == [] then 0
    else OpOr.Apply(AnyPrompt(prompts[..|prompts| - 1], env), EvalOpt(prompts[|prompts| - 1], env))
  }

  predicate Deselected(info: Info, env: Env) {
    info.deselect.Some? && Eval(info.deselect.value, env) == 2
  }

  function Visible(info: Info, env: Env): Tristate {
    var tri := AnyPrompt(info.prompts, env);
    if Deselected(info, env) then 0
    else if tri == 1 && info.stype != Tristated then 2
    else tri
  }

  function Floor(info: Info, env: Env): Tristate {
    var tri := if info.select.None? then 0 else Eval(info.select.value, env);
    if tri == 1 && info.stype == Boolean then 2 else tri
  }

  // sym_get_default_prop: the first default whose condition is not n
  function FirstDefault(defaults: seq<Default>, env: Env): Option<Expr> {
    if defaults == [] then None
    else if EvalOpt(defaults[0].visible, env) != 0 then Some(defaults[0].value)
    else FirstDefault(defaults[1..], env)
  }

  function FirstRange(ranges: seq<Range>, env: Env): Option<Range> {
    if ranges == [] then None
    else if EvalOpt(ranges[0].visible, env) != 0 then Some(ranges[0])
    else FirstRange(ranges[1..], env)
  }

  // the value of a bool or tristate before a bool rounds m up
  function RawTristate(info: Info, user: User, env: Env): Tristate {
    var visible := Visible(info, env);
    var floor := Floor(info, env);
    var default := FirstDefault(info.defaults, env);
    if Deselected(info, env) then 0
    else if OpOr.Apply(visible, floor) != 0 then
      var wish := if !user.isNew then user.tri else if default.Some? then Eval(default.value, env) else 0;
      OpOr.Apply(OpAnd.Apply(wish, visible), floor)
    else if default.Some? then Eval(default.value, env)
    else 0
  }

  function TristateValue(info: Info, user: User, env: Env): Tristate {
    var raw := RawTristate(info, user, env);
    if raw == 1 && info.stype == Boolean then 2 else raw
  }

  function TristateWrite(info: Info, env: Env): bool {
    && !Deselected(info, env)
    && (OpOr.Apply(Visible(info, env), Floor(info, env)) != 0 || FirstDefault(info.defaults, env).Some?)
  }

  function StringRaw(g: Graph, info: Info, user: User, vals: Vals): string {
    var env := EnvOf(g, vals);
    var default := FirstDefault(info.defaults, env);
    if Visible(info, env) != 0 && !user.isNew then user.val
    else if default.Some? && default.value.Sym? then ValOf(g, default.value.sym, vals).0
    else ""
  }

  function StringWrite(info: Info, env: Env): bool {
    var default := FirstDefault(info.defaults, env);
    Visible(info, env) != 0 || (default.Some? && default.value.Sym?)
  }

  function Base(t: SymType, fallback: nat): nat {
    if t == Int then 10 else if t == Hex then 16 else fallback
  }

  // sym_get_range_val
  function RangeVal(g: Graph, s: Symbol, base: nat, vals: Vals): int {
    g.libc.strtol(ValOf(g, s, vals).0, Base(s.Type(), base))
  }

  // sym_validate_range
  function Clamp(g: Graph, info: Info, str: string, vals: Vals): string {
    if info.stype != Int && info.stype != Hex then str
    else
      var range := FirstRange(info.ranges, EnvOf(g, vals));
      if range.None? then str
      else
        var base := Base(info.stype, 10);
        var val := g.libc.strtol(str, base);
        var low := RangeVal(g, range.value.low, base, vals);
        var high := RangeVal(g, range.value.high, base, vals);
        if val < low then g.libc.format(info.stype == Hex, low)
        else if val > high then g.libc.format(info.stype == Hex, high)
        else str
  }

  predicate Calculated(t: SymType) {
    t != Unknown && t != Other
  }

  // the value of one symbol in terms of the values of all symbols
  function Step(g: Graph, users: seq<User>, id: nat, vals: Vals): Val
    requires id < |g.infos| == |users|
  {
    var info, user, env := g.infos[id], users[id], EnvOf(g, vals);
    if !Calculated(info.stype) then Val(info.name, 0, 0, 0, false)
    else if info.stype == Boolean || info.stype == Tristated then
      Val("n", TristateValue(info, user, env), Visible(info, env), Floor(info, env), TristateWrite(info, env))
    else
      Val(Clamp(g, info, StringRaw(g, info, user, vals), vals), 0, Visible(info, env), Floor(info, env), StringWrite(info, env))
  }

  // a valuation that satisfies all equations at once
  ghost predicate Solution(g: Graph, users: seq<User>, vals: Vals) {
    && |g.infos| == |users| == |vals|
    && forall id: nat | id < |vals| :: vals[id] == Step(g, users, id, vals)
  }

  // ----- dependencies -----

  // no symbol depends on itself: every symbol is ranked above what it uses
  ghost predicate Acyclic(g: Graph, rank: seq<nat>) {
    && |rank| == |g.infos|
    && forall id: nat, s: Symbol | id < |rank| && s.Config? && s.id < |rank| && Uses(g.infos[id], s) :: rank[s.id] < rank[id]
  }

  ghost predicate SameOn(g: Graph, vals: Vals, vals': Vals, s: Symbol) {
    ValOf(g, s, vals) == ValOf(g, s, vals')
  }

  lemma {:induction false} EvalLocal(g: Graph, e: Expr, vals: Vals, vals': Vals)
    requires forall s | s in Syms(e) :: SameOn(g, vals, vals', s)
    ensures Eval(e, EnvOf(g, vals)) == Eval(e, EnvOf(g, vals'))
  {
    match e
    case Sym(s) => assert SameOn(g, vals, vals', s);
    case Equal(l, r) => assert SameOn(g, vals, vals', l) && SameOn(g, vals, vals', r);
    case Unequal(l, r) => assert SameOn(g, vals, vals', l) && SameOn(g, vals, vals', r);
    case Not(x) => EvalLocal(g, x, vals, vals');
    case Bin(_, l, r) => EvalLocal(g, l, vals, vals'); EvalLocal(g, r, vals, vals');
  }

  lemma EvalOptLocal(g: Graph, e: Option<Expr>, vals: Vals, vals': Vals)
    requires forall s | s in SymsOpt(e) :: SameOn(g, vals, vals', s)
    ensures EvalOpt(e, EnvOf(g, vals)) == EvalOpt(e, EnvOf(g, vals'))
  {
    if e.Some? {
      EvalLocal(g, e.value, vals, vals');
    }
  }

  lemma {:induction false} AnyPromptLocal(g: Graph, prompts: seq<Option<Expr>>, vals: Vals, vals': Vals)
    requires forall p, s | p in prompts && s in SymsOpt(p) :: SameOn(g, vals, vals', s)
    ensures AnyPrompt(prompts, EnvOf(g, vals)) == AnyPrompt(prompts, EnvOf(g, vals'))
  {
    if prompts != [] {
      AnyPromptLocal(g, prompts[..|prompts| - 1], vals, vals');
      EvalOptLocal(g, prompts[|prompts| - 1], vals, vals');
    }
  }

  lemma {:induction false} FirstDefaultLocal(g: Graph, ds: seq<Default>, vals: Vals, vals': Vals)
    requires forall d, s | d in ds && s in DefaultSyms(d) :: SameOn(g, vals, vals', s)
    ensures FirstDefault(ds, EnvOf(g, vals)) == FirstDefault(ds, EnvOf(g, vals'))
    ensures var d := FirstDefault(ds, EnvOf(g, vals));
      d.Some? ==> forall s | s in Syms(d.value) :: SameOn(g, vals, vals', s)
  {
    if ds != [] {
      assert ds[0] in ds;
      assert forall s | s in SymsOpt(ds[0].visible) :: s in DefaultSyms(ds[0]);
      EvalOptLocal(g, ds[0].visible, vals, vals');
      if EvalOpt(ds[0].visible, EnvOf(g, vals)) == 0 {
        FirstDefaultLocal(g, ds[1..], vals, vals');
      }
    }
  }

  lemma {:induction false} FirstRangeLocal(g: Graph, rs: seq<Range>, vals: Vals, vals': Vals)
    requires forall r, s | r in rs && s in RangeSyms(r) :: SameOn(g, vals, vals', s)
    ensures FirstRange(rs, EnvOf(g, vals)) == FirstRange(rs, EnvOf(g, vals'))
    ensures var r := FirstRange(rs, EnvOf(g, vals));
      r.Some? ==> SameOn(g, vals, vals', r.value.low) && SameOn(g, vals, vals', r.value.high)
  {
    if rs != [] {
      assert rs[0] in rs;
      assert rs[0].low in RangeSyms(rs[0]) && rs[0].high in RangeSyms(rs[0]);
      assert forall s | s in SymsOpt(rs[0].visible) :: s in RangeSyms(rs[0]);
      EvalOptLocal(g, rs[0].visible, vals, vals');
      if EvalOpt(rs[0].visible, EnvOf(g, vals)) == 0 {
        FirstRangeLocal(g, rs[1..], vals, vals');
      }
    }
  }

  ghost predicate SameUses(g: Graph, info: Info, vals: Vals, vals': Vals) {
    forall s: Symbol | Uses(info, s) :: SameOn(g, vals, vals', s)
  }

  lemma PartsLocal(g: Graph, info: Info, vals: Vals, vals': Vals)
    requires SameUses(g, info, vals, vals')
    ensures var env, env' := EnvOf(g, vals), EnvOf(g, vals');
      && AnyPrompt(info.prompts, env) == AnyPrompt(info.prompts, env')
      && FirstDefault(info.defaults, env) == FirstDefault(info.defaults, env')
      && Deselected(info, env) == Deselected(info, env')
      && Floor(info, env) == Floor(info, env')
    ensures var d := FirstDefault(info.defaults, EnvOf(g, vals));
      d.Some? ==>
        && Eval(d.value, EnvOf(g, vals)) == Eval(d.value, EnvOf(g, vals'))
        && (d.value.Sym? ==> SameOn(g, vals, vals', d.value.sym))
  {
    assert forall p, s | p in info.prompts && s in SymsOpt(p) :: Uses(info, s);
    assert forall d, s | d in info.defaults && s in DefaultSyms(d) :: Uses(info, s);
    assert forall s | s in SymsOpt(info.select) || s in SymsOpt(info.deselect) :: Uses(info, s);
    AnyPromptLocal(g, info.prompts, vals, vals');
    FirstDefaultLocal(g, info.defaults, vals, vals');
    EvalOptLocal(g, info.select, vals, vals');
    EvalOptLocal(g, info.deselect, vals, vals');
    var d := FirstDefault(info.defaults, EnvOf(g, vals));
    if d.Some? {
      EvalLocal(g, d.value, vals, vals');
    }
  }

  lemma ClampLocal(g: Graph, info: Info, str: string, vals: Vals, vals': Vals)
    requires SameUses(g, info, vals, vals')
    ensures Clamp(g, info, str, vals) == Clamp(g, info, str, vals')
  {
    assert forall r, s | r in info.ranges && s in RangeSyms(r) :: Uses(info, s);
    FirstRangeLocal(g, info.ranges, vals, vals');
  }

  // The equation of a symbol looks only at the symbols it uses.
  lemma StepLocal(g: Graph, users: seq<User>, id: nat, vals: Vals, vals': Vals)
    requires id < |g.infos| == |users| && SameUses(g, g.infos[id], vals, vals')
    ensures Step(g, users, id, vals) == Step(g, users, id, vals')
  {
    hide EnvOf, AnyPrompt, FirstDefault, Deselected, Floor, Clamp, Eval, ValOf;
    var info := g.infos[id];
    PartsLocal(g, info, vals, vals');
    ClampLocal(g, info, StringRaw(g, info, users[id], vals), vals, vals');
  }

  // ----- the plain recursive definition -----

  // the value with at most depth levels of dependencies followed
  function Plain(g: Graph, users: seq<User>, depth: nat): (vals: Vals)
    requires |g.infos| == |users|
    ensures |vals| == |g.infos|
  {
    if depth == 0 then seq(|g.infos|, _ => Val("", 0, 0, 0, false))
    else
      var below := Plain(g, users, depth - 1);
      seq(|g.infos|, i requires 0 <= i < |g.infos| => Step(g, users, i, below))
  }

  lemma UsedBelow(g: Graph, rank: seq<nat>, id: nat, s: Symbol)
    requires WellFormedGraph(g) && Acyclic(g, rank) && id < |rank| == |g.infos| && Uses(g.infos[id], s)
    ensures Known(g, s)
    ensures s.Config? ==> s.id < |rank| && rank[s.id] < rank[id]
  {
  }

  lemma PlainStep(g: Graph, users: seq<User>, depth: nat, id: nat)
    requires |g.infos| == |users| && id < |users| && depth > 0
    ensures Plain(g, users, depth)[id] == Step(g, users, id, Plain(g, users, depth - 1))
  {
    hide Step;
  }

  lemma {:induction false} PlainSettles(g: Graph, users: seq<User>, rank: seq<nat>, depth: nat)
    requires |g.infos| == |users| && WellFormedGraph(g) && Acyclic(g, rank)
    ensures forall id: nat | id < |rank| && rank[id] < depth :: Plain(g, users, depth)[id] == Plain(g, users, depth + 1)[id]
  {
    hide Step, Plain, WellFormedGraph, Uses;
    if depth > 0 {
      PlainSettles(g, users, rank, depth - 1);
      var a, b := Plain(g, users, depth - 1), Plain(g, users, depth);
      forall id: nat | id < |rank| && rank[id] < depth
        ensures b[id] == Plain(g, users, depth + 1)[id]
      {
        PlainStep(g, users, depth, id);
        PlainStep(g, users, depth + 1, id);
        StepBelow(g, users, rank, id, depth - 1, a, b);
      }
    }
  }

  // valuations that agree below a rank give the same next value
  lemma StepBelow(g: Graph, users: seq<User>, rank: seq<nat>, id: nat, depth: nat, a: Vals, b: Vals)
    requires |g.infos| == |users| == |a| == |b| && WellFormedGraph(g) && Acyclic(g, rank)
    requires id < |rank| && rank[id] <= depth
    requires forall i: nat | i < |rank| && rank[i] < depth :: a[i] == b[i]
    ensures Step(g, users, id, a) == Step(g, users, id, b)
  {
    hide Step, Uses, WellFormedGraph;
    forall s: Symbol | Uses(g.infos[id], s)
      ensures SameOn(g, a, b, s)
    {
      UsedBelow(g, rank, id, s);
    }
    StepLocal(g, users, id, a, b);
  }

  function MaxRank(rank: seq<nat>): (m: nat)
    ensures forall i | 0 <= i < |rank| :: rank[i] <= m
  {
    if rank == [] then 0
    else
      var m := MaxRank(rank[..|rank| - 1]);
      if rank[|rank| - 1] > m then rank[|rank| - 1] else m
  }

  // On an acyclic graph the recursion gives a solution,
  lemma PlainIsSolution(g: Graph, users: seq<User>, rank: seq<nat>, depth: nat)
    requires |g.infos| == |users| && WellFormedGraph(g) && Acyclic(g, rank) && depth > MaxRank(rank)
    ensures Solution(g, users, Plain(g, users, depth))
  {
    forall id: nat | id < |g.infos|
      ensures Plain(g, users, depth)[id] == Step(g, users, id, Plain(g, users, depth))
    {
      hide Step, Plain;
      PlainSettles(g, users, rank, depth);
      PlainStep(g, users, depth + 1, id);
    }
  }

  // and there is no other.
  lemma SolutionUnique(g: Graph, users: seq<User>, rank: seq<nat>, vals: Vals, vals': Vals)
    requires WellFormedGraph(g) && Acyclic(g, rank)
    requires Solution(g, users, vals) && Solution(g, users, vals')
    ensures vals == vals'
  {
    SolutionUniqueBelow(g, users, rank, vals, vals', MaxRank(rank) + 1);
  }

  lemma {:induction false} SolutionUniqueBelow(g: Graph, users: seq<User>, rank: seq<nat>, vals: Vals, vals': Vals, depth: nat)
    requires WellFormedGraph(g) && Acyclic(g, rank)
    requires Solution(g, users, vals) && Solution(g, users, vals')
    ensures forall id: nat | id < |rank| && rank[id] < depth :: vals[id] == vals'[id]
  {
    if depth > 0 {
      SolutionUniqueBelow(g, users, rank, vals, vals', depth - 1);
      forall id: nat | id < |rank| && rank[id] < depth
        ensures vals[id] == vals'[id]
      {
        hide Step;
        StepBelow(g, users, rank, id, depth - 1, vals, vals');
      }
    }
  }

  // The values of a calculated table are an environment as the laws of the
  // expressions take it.
  lemma SolutionWellFormed(g: Graph, users: seq<User>, vals: Vals)
    requires Solution(g, users, vals)
    ensures WellFormed(EnvOf(g, vals))
  {
    var env := EnvOf(g, vals);
    forall s: Symbol | s.Type() == Boolean
      ensures env.tri(s) != 1
    {
      if Known(g, s) {
        assert vals[s.id] == Step(g, users, s.id, vals);
      }
    }
  }
}
