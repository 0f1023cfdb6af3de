/** Rewriting the expressions of a symbol graph: what the optimiser of
    expressions may do to dependencies without changing any symbol's value. */
module SymbolRewrite {
  import opened Options
  import opened ExprCore
  import opened ExprTransform
  import opened ExprDups
  import opened SymbolSpec

  // ----- at one environment -----

  ghost predicate SameOpt(e: Option<Expr>, e': Option<Expr>, env: Env) {
    EvalOpt(e, env) == EvalOpt(e', env)
  }

  // both n or both not n
  ghost predicate SameShown(e: Option<Expr>, e': Option<Expr>, env: Env) {
    EvalOpt(e, env) == 0 <==> EvalOpt(e', env) == 0
  }

  // Conditions of defaults and ranges, and of the prompts of all but tristates,
  // are only asked whether they are n.
  ghost predicate SameInfo(info: Info, info': Info, env: Env) {
    && info'.stype == info.stype && info'.name == info.name
    && |info'.prompts| == |info.prompts| && |info'.defaults| == |info.defaults| && |info'.ranges| == |info.ranges|
    && (forall i | 0 <= i < |info.prompts| ::
      if info.stype == Tristated then SameOpt(info.prompts[i], info'.prompts[i], env)
      else SameShown(info.prompts[i], info'.prompts[i], env))
    && (forall i | 0 <= i < |info.defaults| ::
      && SameShown(info.defaults[i].visible, info'.defaults[i].visible, env)
      && SameDefault(info, info.defaults[i].value, info'.defaults[i].value, env))
    && (forall i | 0 <= i < |info.ranges| ::
      && SameShown(info.ranges[i].visible, info'.ranges[i].visible, env)
      && info'.ranges[i].low == info.ranges[i].low && info'.ranges[i].high == info.ranges[i].high)
    && SameOpt(info.select, info'.select, env)
    && info'.deselect.Some? == info.deselect.Some? && SameOpt(info.deselect, info'.deselect, env)
    && info'.select.Some? == info.select.Some?
  }

  // the default of a text or number names a symbol
  ghost predicate SameDefault(info: Info, e: Expr, e': Expr, env: Env) {
    if info.stype == Boolean || info.stype == Tristated then Eval(e, env) == Eval(e', env) else e == e'
  }

  lemma {:induction false} PromptsShown(ps: seq<Option<Expr>>, ps': seq<Option<Expr>>, env: Env)
    requires |ps'| == |ps| && forall i | 0 <= i < |ps| :: SameShown(ps[i], ps'[i], env)
    ensures AnyPrompt(ps, env) == 0 <==> AnyPrompt(ps', env) == 0
  {
    if ps != [] {
      var n := |ps| - 1;
      PromptsShown(ps[..n], ps'[..n], env);
      assert SameShown(ps[n], ps'[n], env);
    }
  }

  lemma {:induction false} PromptsSame(ps: seq<Option<Expr>>, ps': seq<Option<Expr>>, env: Env)
    requires |ps'| == |ps| && forall i | 0 <= i < |ps| :: SameOpt(ps[i], ps'[i], env)
    ensures AnyPrompt(ps, env) == AnyPrompt(ps', env)
  {
    if ps != [] {
      var n := |ps| - 1;
      PromptsSame(ps[..n], ps'[..n], env);
      assert SameOpt(ps[n], ps'[n], env);
    }
  }

  lemma {:induction false} DefaultsSame(info: Info, ds: seq<Default>, ds': seq<Default>, env: Env)
    requires |ds'| == |ds|
    requires forall i | 0 <= i < |ds| ::
      SameShown(ds[i].visible, ds'[i].visible, env) && SameDefault(info, ds[i].value, ds'[i].value, env)
    ensures var d, d' := FirstDefault(ds, env), FirstDefault(ds', env);
      d.Some? == d'.Some? && (d.Some? ==> SameDefault(info, d.value, d'.value, env))
  {
    if ds != [] {
      assert SameShown(ds[0].visible, ds'[0].visible, env);
      DefaultsSame(info, ds[1..], ds'[1..], env);
    }
  }

  lemma {:induction false} RangesSame(rs: seq<Range>, rs': seq<Range>, env: Env)
    requires |rs'| == |rs|
    requires forall i | 0 <= i < |rs| ::
      SameShown(rs[i].visible, rs'[i].visible, env) && rs'[i].low == rs[i].low && rs'[i].high == rs[i].high
    ensures var r, r' := FirstRange(rs, env), FirstRange(rs', env);
      r.Some? == r'.Some? && (r.Some? ==> r'.value.low == r.value.low && r'.value.high == r.value.high)
  {
    if rs != [] {
      assert SameShown(rs[0].visible, rs'[0].visible, env);
      RangesSame(rs[1..], rs'[1..], env);
    }
  }

  // the graphs declare the same symbols
  ghost predicate SameSymbols(g: Graph, g': Graph) {
    && |g'.infos| == |g.infos| && g'.libc == g.libc
    && forall id | 0 <= id < |g.infos| :: g'.infos[id].stype == g.infos[id].stype
  }

  lemma SameLookup(g: Graph, g': Graph, vals: Vals)
    requires SameSymbols(g, g')
    ensures EnvOf(g', vals) == EnvOf(g, vals) && Types(g') == Types(g)
  {
    assert Types(g') == Types(g);
  }

  lemma PartsSame(info: Info, info': Info, env: Env)
    requires SameInfo(info, info', env)
    ensures Visible(info', env) == Visible(info, env) && Floor(info', env) == Floor(info, env)
    ensures Deselected(info', env) == Deselected(info, env)
  {
    hide Eval;
    if info.stype == Tristated {
      PromptsSame(info.prompts, info'.prompts, env);
    } else {
      PromptsShown(info.prompts, info'.prompts, env);
    }
  }

  lemma ClampSame(g: Graph, g': Graph, info: Info, info': Info, str: string, vals: Vals)
    requires SameSymbols(g, g') && SameInfo(info, info', EnvOf(g, vals))
    ensures Clamp(g', info', str, vals) == Clamp(g, info, str, vals)
  {
    hide EnvOf, Types;
    SameLookup(g, g', vals);
    RangesSame(info.ranges, info'.ranges, EnvOf(g, vals));
  }

  // The equation of a symbol does not notice such a change.
  lemma StepSame(g: Graph, g': Graph, users: seq<User>, id: nat, vals: Vals)
    requires SameSymbols(g, g') && id < |g.infos| == |users| && SameInfo(g.infos[id], g'.infos[id], EnvOf(g, vals))
    ensures Step(g', users, id, vals) == Step(g, users, id, vals)
  {
    hide EnvOf, Eval, Types, Visible, Floor, Deselected, Clamp;
    SameLookup(g, g', vals);
    var info, info', env := g.infos[id], g'.infos[id], EnvOf(g, vals);
    PartsSame(info, info', env);
    DefaultsSame(info, info.defaults, info'.defaults, env);
    ClampSame(g, g', info, info', StringRaw(g, info, users[id], vals), vals);
  }

  // where the expressions of g and g' agree in this way
  ghost predicate SameGraph(g: Graph, g': Graph, env: Env) {
    SameSymbols(g, g') && forall id | 0 <= id < |g.infos| :: SameInfo(g.infos[id], g'.infos[id], env)
  }

  lemma SolutionSame(g: Graph, g': Graph, users: seq<User>, vals: Vals)
    requires SameGraph(g, g', EnvOf(g, vals))
    ensures Solution(g', users, vals) <==> Solution(g, users, vals)
  {
    hide Step, EnvOf, SameInfo;
    if |g.infos| == |users| == |vals| {
      forall id: nat | id < |vals|
        ensures Step(g', users, id, vals) == Step(g, users, id, vals)
      {
        assert SameInfo(g.infos[id], g'.infos[id], EnvOf(g, vals));
        StepSame(g, g', users, id, vals);
      }
    }
  }

  // ----- rewriting all conditions of a graph -----

  // what menu_finalize does to a condition; for all but tristates FOO!=n is shortened to FOO
  function Shortened(info: Info, f: Expr -> Expr, e: Option<Expr>): Option<Expr> {
    if e.None? then None
    else if info.stype == Tristated then Some(f(e.value))
    else Some(TransBool(f(e.value)))
  }

  function Mapped(f: Expr -> Expr, e: Option<Expr>): Option<Expr> {
    if e.None? then None else Some(f(e.value))
  }

  function MapInfo(info: Info, f: Expr -> Expr): Info {
    info.(
      prompts := seq(|info.prompts|, i requires 0 <= i < |info.prompts| => Shortened(info, f, info.prompts[i])),
      defaults := seq(|info.defaults|, i requires 0 <= i < |info.defaults| =>
        info.defaults[i].(visible := Shortened(info, f, info.defaults[i].visible))),
      ranges := seq(|info.ranges|, i requires 0 <= i < |info.ranges| =>
        info.ranges[i].(visible := Shortened(info, f, info.ranges[i].visible))),
      select := Mapped(f, info.select),
      deselect := Mapped(f, info.deselect))
  }

  function MapGraph(g: Graph, f: Expr -> Expr): Graph {
    g.(infos := seq(|g.infos|, i requires 0 <= i < |g.infos| => MapInfo(g.infos[i], f)))
  }

  ghost predicate Condition(info: Info, e: Expr) {
    || Some(e) in info.prompts
    || (exists d <- info.defaults :: d.visible == Some(e))
    || (exists r <- info.ranges :: r.visible == Some(e))
    || info.select == Some(e) || info.deselect == Some(e)
  }

  // f keeps the value of every condition of the graph
  ghost predicate Keeps(g: Graph, f: Expr -> Expr, env: Env) {
    forall id, e | 0 <= id < |g.infos| && Condition(g.infos[id], e) ::
      Eval(f(e), env) == Eval(e, env) && NotsOnSymbols(f(e))
  }

  lemma ShortenedShown(info: Info, f: Expr -> Expr, e: Option<Expr>, env: Env)
    requires WellFormed(env) && (e.Some? ==> Eval(f(e.value), env) == Eval(e.value, env) && NotsOnSymbols(f(e.value)))
    ensures SameShown(e, Shortened(info, f, e), env)
    ensures info.stype == Tristated ==> SameOpt(e, Shortened(info, f, e), env)
  {
    if e.Some? {
      TransBoolKeepsVisibility(f(e.value), env);
    }
  }

  lemma MapInfoSame(g: Graph, f: Expr -> Expr, env: Env, id: nat)
    requires WellFormed(env) && Keeps(g, f, env) && id < |g.infos|
    ensures SameInfo(g.infos[id], MapInfo(g.infos[id], f), env)
  {
    hide Shortened, Eval, NotsOnSymbols, SameShown, SameOpt, WellFormed;
    var info := g.infos[id];
    var info' := MapInfo(info, f);
    forall i | 0 <= i < |info.prompts|
      ensures SameShown(info.prompts[i], info'.prompts[i], env)
      ensures info.stype == Tristated ==> SameOpt(info.prompts[i], info'.prompts[i], env)
    {
      assert info.prompts[i].Some? ==> Some(info.prompts[i].value) in info.prompts;
      ShortenedShown(info, f, info.prompts[i], env);
    }
    forall i | 0 <= i < |info.defaults|
      ensures SameShown(info.defaults[i].visible, info'.defaults[i].visible, env)
    {
      assert info.defaults[i] in info.defaults;
      ShortenedShown(info, f, info.defaults[i].visible, env);
    }
    forall i | 0 <= i < |info.ranges|
      ensures SameShown(info.ranges[i].visible, info'.ranges[i].visible, env)
    {
      assert info.ranges[i] in info.ranges;
      ShortenedShown(info, f, info.ranges[i].visible, env);
    }
    MappedSame(f, info.select, env);
    MappedSame(f, info.deselect, env);
  }

  lemma MappedSame(f: Expr -> Expr, e: Option<Expr>, env: Env)
    requires e.Some? ==> Eval(f(e.value), env) == Eval(e.value, env)
    ensures SameOpt(e, Mapped(f, e), env)
  {
  }

  lemma MapGraphSame(g: Graph, f: Expr -> Expr, users: seq<User>, vals: Vals)
    requires WellFormed(EnvOf(g, vals)) && Keeps(g, f, EnvOf(g, vals))
    ensures Solution(MapGraph(g, f), users, vals) <==> Solution(g, users, vals)
  {
    hide WellFormed, Keeps, Step, EnvOf, SameInfo, MapInfo;
    var env, g' := EnvOf(g, vals), MapGraph(g, f);
    MapGraphSymbols(g, f);
    forall id | 0 <= id < |g.infos|
      ensures SameInfo(g.infos[id], g'.infos[id], env)
    {
      MapInfoSame(g, f, env, id);
    }
    SolutionSame(g, g', users, vals);
  }

  lemma MapGraphSymbols(g: Graph, f: Expr -> Expr)
    ensures SameSymbols(g, MapGraph(g, f))
  {
  }

  // the values of either graph form an environment
  lemma EitherWellFormed(g: Graph, f: Expr -> Expr, users: seq<User>, vals: Vals)
    requires Solution(g, users, vals) || Solution(MapGraph(g, f), users, vals)
    ensures WellFormed(EnvOf(g, vals))
  {
    hide EnvOf, WellFormed;
    MapGraphSymbols(g, f);
    SameLookup(g, MapGraph(g, f), vals);
    if Solution(g, users, vals) {
      SolutionWellFormed(g, users, vals);
    } else {
      SolutionWellFormed(MapGraph(g, f), users, vals);
    }
  }

  // Bringing all conditions into normal form, and shortening FOO!=n, changes
  // no symbol's value: the equations of both graphs have the same solutions.
  lemma TransformKeepsSolutions(g: Graph, users: seq<User>, vals: Vals)
    ensures Solution(MapGraph(g, Transform), users, vals) <==> Solution(g, users, vals)
  {
    hide EnvOf, WellFormed, MapGraph;
    if Solution(g, users, vals) || Solution(MapGraph(g, Transform), users, vals) {
      EitherWellFormed(g, Transform, users, vals);
      var env := EnvOf(g, vals);
      forall id, e | 0 <= id < |g.infos| && Condition(g.infos[id], e)
        ensures Eval(Transform(e), env) == Eval(e, env) && NotsOnSymbols(Transform(e))
      {
        TransformKeepsValue(e, env);
        TransformNormalises(e);
      }
      MapGraphSame(g, Transform, users, vals);
    }
  }

  // the operands of all conditions are y or n
  ghost predicate DefiniteConditions(g: Graph, env: Env) {
    forall id, e | 0 <= id < |g.infos| && Condition(g.infos[id], e) :: AllDefinite(e, env)
  }

  // Eliminating duplicates as well changes no value where no condition has an
  // operand that is m.
  lemma DedupsKeepDefiniteSolutions(g: Graph, users: seq<User>, vals: Vals)
    requires DefiniteConditions(g, EnvOf(g, vals))
    ensures Solution(MapGraph(g, Optimized), users, vals) <==> Solution(g, users, vals)
  {
    hide EnvOf, WellFormed, MapGraph;
    if Solution(g, users, vals) || Solution(MapGraph(g, Optimized), users, vals) {
      EitherWellFormed(g, Optimized, users, vals);
      var env := EnvOf(g, vals);
      forall id, e | 0 <= id < |g.infos| && Condition(g.infos[id], e)
        ensures Eval(Optimized(e), env) == Eval(e, env) && NotsOnSymbols(Optimized(e))
      {
        OptimizedKeeps(e, env);
      }
      MapGraphSame(g, Optimized, users, vals);
    }
  }

  // expr_eliminate_dups(expr_transform(e))
  function Optimized(e: Expr): Expr {
    Deduped(Transform(e))
  }

  lemma OptimizedKeeps(e: Expr, env: Env)
    requires WellFormed(env) && AllDefinite(e, env)
    ensures Eval(Optimized(e), env) == Eval(e, env) && NotsOnSymbols(Optimized(e))
  {
    DefiniteOperands(e, env);
    TransformKeepsValue(e, env);
    TransformNormalises(e);
    DedupedSharpens(Transform(e), env);
  }

  // ----- the plain values -----

  lemma {:induction false} TransformSyms(e: Expr, s: Symbol)
    requires s in Syms(Transform(e)) && s.Config?
    ensures s in Syms(e)
    decreases Weight(e)
  {
    WeightPositive(e);
    match e
    case Bin(_, l, r) =>
      WeightPositive(l);
      WeightPositive(r);
      if s in Syms(Transform(l)) {
        TransformSyms(l, s);
      } else {
        TransformSyms(r, s);
      }
    case Not(x) =>
      WeightPositive(x);
      var x' := Transform(x);
      WeightPositive(x');
      match x' {
        case Not(y) => WeightPositive(y); TransformSyms(y, s);
        case Bin(op, l, r) =>
          assert Weight(Not(l)) == 2 * Weight(l) && Weight(Not(r)) == 2 * Weight(r);
          TransformSyms(Bin(op.Dual(), Not(l), Not(r)), s);
        case _ =>
      }
      assert s in Syms(x');
      TransformSyms(x, s);
    case _ =>
  }

  lemma {:induction false} TransBoolSyms(e: Expr)
    ensures Syms(TransBool(e)) <= Syms(e)
  {
    match e
    case Bin(_, l, r) => TransBoolSyms(l); TransBoolSyms(r);
    case Not(x) => TransBoolSyms(x);
    case _ =>
  }

  lemma ShortenedSyms(info: Info, e: Option<Expr>)
    ensures forall s | s in SymsOpt(Shortened(info, Transform, e)) && s.Config? :: s in SymsOpt(e)
    ensures forall s | s in SymsOpt(Mapped(Transform, e)) && s.Config? :: s in SymsOpt(e)
  {
    if e.Some? {
      forall s | s in Syms(Transform(e.value)) && s.Config?
        ensures s in Syms(e.value)
      {
        TransformSyms(e.value, s);
      }
      TransBoolSyms(Transform(e.value));
    }
  }

  lemma MapInfoUses(info: Info, s: Symbol)
    requires s.Config? && Uses(MapInfo(info, Transform), s)
    ensures Uses(info, s)
  {
    hide Shortened, Mapped, Syms, SymsOpt;
    var info' := MapInfo(info, Transform);
    ShortenedSyms(info, info.select);
    ShortenedSyms(info, info.deselect);
    if p :| p in info'.prompts && s in SymsOpt(p) {
      var i :| 0 <= i < |info'.prompts| && info'.prompts[i] == p;
      ShortenedSyms(info, info.prompts[i]);
      assert info.prompts[i] in info.prompts;
    } else if d :| d in info'.defaults && s in DefaultSyms(d) {
      var i :| 0 <= i < |info'.defaults| && info'.defaults[i] == d;
      ShortenedSyms(info, info.defaults[i].visible);
      assert info.defaults[i] in info.defaults && s in DefaultSyms(info.defaults[i]);
    } else if r :| r in info'.ranges && s in RangeSyms(r) {
      var i :| 0 <= i < |info'.ranges| && info'.ranges[i] == r;
      ShortenedSyms(info, info.ranges[i].visible);
      assert info.ranges[i] in info.ranges && s in RangeSyms(info.ranges[i]);
    }
  }

  // On an acyclic graph plain recursion gives the same values before and after.
  lemma TransformKeepsPlain(g: Graph, users: seq<User>, rank: seq<nat>, depth: nat)
    requires |g.infos| == |users| && WellFormedGraph(g) && Acyclic(g, rank) && depth > MaxRank(rank)
    ensures Plain(MapGraph(g, Transform), users, depth) == Plain(g, users, depth)
  {
    hide Step, Plain, Uses, MapInfo, Solution;
    var g' := MapGraph(g, Transform);
    forall id: nat, s: Symbol | id < |g.infos| && s.Config? && Uses(g'.infos[id], s)
      ensures Uses(g.infos[id], s)
    {
      MapInfoUses(g.infos[id], s);
    }
    MapGraphSymbols(g, Transform);
    forall id: nat, s: Symbol | id < |g'.infos| && Uses(g'.infos[id], s)
      ensures Known(g', s)
    {
      if s.Config? {
        assert Uses(g.infos[id], s) && Known(g, s);
      }
    }
    PlainIsSolution(g', users, rank, depth);
    PlainIsSolution(g, users, rank, depth);
    TransformKeepsSolutions(g, users, Plain(g', users, depth));
    SolutionUnique(g, users, rank, Plain(g', users, depth), Plain(g, users, depth));
  }
}
