/** The reverse dependencies that menu_finalize builds for select and deselect,
    and what they do to the values. */
module SymbolSelect {
  import opened Options
  import opened ExprCore
  import opened ExprTransform
  import opened ExprDups
  import opened MenuDeps
  import opened SymbolSpec

  // A select or deselect property: the symbol it stands at, the condition of
  // that entry, and the condition of the property.
  datatype Link = Link(selector: Symbol, entry: Option<Expr>, own: Option<Expr>)

  // a link with its condition as the menu leaves it
  datatype Built = Built(selector: Symbol, condition: Option<Expr>)

  // one more link
  function WithLink(r: Option<Expr>, b: Built): Option<Expr> {
    AllocOp(OpOr, r, AllocOp(OpAnd, Some(Sym(b.selector)), b.condition))
  }

  // rev_dep.expr after these links, in order
  function Reverse(bs: seq<Built>): Option<Expr> {
    if bs == [] then None else WithLink(Reverse(bs[..|bs| - 1]), bs[|bs| - 1])
  }

  // what a link contributes: the selector, up to the condition
  function Pull(b: Built, env: Env): Tristate {
    Both(env.tri(b.selector), EvalOpt(b.condition, env))
  }

  function ReverseValue(r: Option<Expr>, env: Env): Tristate {
    if r.None? then 0 else Eval(r.value, env)
  }

  lemma OneMorePull(r: Option<Expr>, b: Built, env: Env)
    ensures WithLink(r, b).Some?
    ensures ReverseValue(WithLink(r, b), env) == OpOr.Apply(ReverseValue(r, env), Pull(b, env))
  {
    var both := AllocOp(OpAnd, Some(Sym(b.selector)), b.condition);
    assert both.Some? && Eval(both.value, env) == Pull(b, env);
  }

  // The reverse dependency is the strongest pull, n without any.
  lemma {:induction false} ReverseAtMost(bs: seq<Built>, env: Env, t: Tristate)
    ensures Reverse(bs).None? <==> bs == []
    ensures ReverseValue(Reverse(bs), env) <= t <==> forall i | 0 <= i < |bs| :: Pull(bs[i], env) <= t
  {
    hide WithLink, Pull;
    if bs != [] {
      var before, b := bs[..|bs| - 1], bs[|bs| - 1];
      ReverseAtMost(before, env, t);
      OneMorePull(Reverse(before), b, env);
      assert forall i | 0 <= i < |before| :: before[i] == bs[i];
      assert forall i | 0 <= i < |bs| :: i < |before| || bs[i] == b;
    }
  }

  // what the menu makes of a link
  function BuiltOf(l: Link): Built {
    Built(l.selector, PropertyCondition(l.entry, l.own, l.selector.Type() == Tristated))
  }

  // What the condition of a link is, in terms of the conditions as written: n
  // exactly where these are n, if they are definite, and for a tristate
  // selector the same as these.
  ghost predicate Faithful(l: Link, b: Built, env: Env) {
    var written := Both(EvalOpt(l.entry, env), EvalOpt(l.own, env));
    && b.selector == l.selector
    && (written != 1 ==> (EvalOpt(b.condition, env) == 0 <==> written == 0))
    && (l.selector.Type() == Tristated ==> Sharpens(written, EvalOpt(b.condition, env)))
  }

  // the branch of menu_finalize for select properties, for all that name one symbol
  method BuildReverse(links: seq<Link>) returns (r: Option<Expr>, bs: seq<Built>)
    requires forall l | l in links :: NotsOnSymbolsOpt(l.entry)
    ensures r == Reverse(bs) && |bs| == |links| && forall i | 0 <= i < |links| :: bs[i] == BuiltOf(links[i])
    ensures forall i, env: Env | 0 <= i < |links| && WellFormed(env) :: Faithful(links[i], bs[i], env)
  {
    hide Reverse, WithLink, BuiltOf, Faithful;
    r, bs := None, [];
    ReverseNone(bs);
    var k := 0;
    while k < |links|
      invariant k == |bs| <= |links| && r == Reverse(bs) && forall i | 0 <= i < k :: bs[i] == BuiltOf(links[i])
      invariant forall i, env: Env | 0 <= i < k && WellFormed(env) :: Faithful(links[i], bs[i], env)
    {
      assert links[k] in links;
      var b := BuildLink(links[k]);
      ReverseMore(bs, b);
      r := WithLink(r, b);
      bs := bs + [b];
      k := k + 1;
    }
  }

  method BuildLink(l: Link) returns (b: Built)
    requires NotsOnSymbolsOpt(l.entry)
    ensures b == BuiltOf(l)
    ensures forall env: Env | WellFormed(env) :: Faithful(l, b, env)
  {
    var dep := PromptCondition(l.entry, l.own, l.selector.Type() == Tristated);
    b := Built(l.selector, dep);
  }

  lemma ReverseNone(bs: seq<Built>)
    requires bs == []
    ensures Reverse(bs) == None
  {
  }

  lemma ReverseMore(bs: seq<Built>, b: Built)
    ensures Reverse(bs + [b]) == WithLink(Reverse(bs), b)
  {
    assert (bs + [b])[..|bs|] == bs;
  }

  // A bool that selects with the condition FOO!=n selects with FOO only: that
  // is weaker than what is written if and only if the bool is y and FOO is m.
  lemma BoolPullsWithTest(b: Symbol, foo: Symbol, env: Env)
    requires WellFormed(env) && b.Type() == Boolean && foo.Type() == Tristated
    ensures var l := Link(b, None, Some(Unequal(foo, No)));
      Pull(BuiltOf(l), env) == Both(env.tri(b), Eval(l.own.value, env)) <==> env.tri(b) == 0 || env.tri(foo) != 1
  {
    var c := Unequal(foo, No);
    assert Transform(c) == c;
    assert Deduped(c) == c && TransBool(c) == Sym(foo);
    assert env.str(foo) == TristateName(env.tri(foo));
  }

  // In every solution a selected symbol that is not deselected has at least
  // the value of its strongest selector,
  lemma SelectedAtLeast(g: Graph, users: seq<User>, vals: Vals, id: nat, bs: seq<Built>, i: nat)
    requires Solution(g, users, vals) && id < |vals| && i < |bs| && g.infos[id].select == Reverse(bs)
    requires g.infos[id].stype == Boolean || g.infos[id].stype == Tristated
    requires !Deselected(g.infos[id], EnvOf(g, vals))
    ensures vals[id].tri >= Pull(bs[i], EnvOf(g, vals))
  {
    hide EnvOf, AnyPrompt, FirstDefault, Deselected, Reverse;
    var env := EnvOf(g, vals);
    assert vals[id] == Step(g, users, id, vals);
    ReverseAtMost(bs, env, ReverseValue(Reverse(bs), env));
    hide Pull, ReverseValue;
    assert ReverseValue(g.infos[id].select, env) >= Pull(bs[i], env);
    FloorReached(g.infos[id], users[id], env);
  }

  lemma FloorReached(info: Info, user: User, env: Env)
    requires !Deselected(info, env)
    ensures TristateValue(info, user, env) >= Floor(info, env) >= ReverseValue(info.select, env)
  {
    hide AnyPrompt, FirstDefault, Deselected, Eval;
  }

  // and without prompt and default no more than that, a bool rounded up.
  lemma SelectedExactly(g: Graph, users: seq<User>, vals: Vals, id: nat, bs: seq<Built>, t: Tristate)
    requires Solution(g, users, vals) && id < |vals| && g.infos[id].select == Reverse(bs)
    requires g.infos[id].stype == Tristated || (g.infos[id].stype == Boolean && t != 1)
    requires g.infos[id].prompts == [] && g.infos[id].defaults == []
    requires !Deselected(g.infos[id], EnvOf(g, vals))
    ensures vals[id].tri <= t <==> forall i | 0 <= i < |bs| :: Pull(bs[i], EnvOf(g, vals)) <= t
  {
    hide EnvOf, Deselected, Reverse;
    var env := EnvOf(g, vals);
    assert vals[id] == Step(g, users, id, vals);
    ReverseAtMost(bs, env, t);
    assert vals[id].tri == Floor(g.infos[id], env);
  }

  // A symbol is deselected if and only if one deselecting symbol and its
  // condition are y, and is n then, whatever selects it.
  lemma DeselectedIsNo(g: Graph, users: seq<User>, vals: Vals, id: nat, bs: seq<Built>)
    requires Solution(g, users, vals) && id < |vals| && g.infos[id].deselect == Reverse(bs)
    requires g.infos[id].stype == Boolean || g.infos[id].stype == Tristated
    ensures Deselected(g.infos[id], EnvOf(g, vals)) <==> exists i | 0 <= i < |bs| :: Pull(bs[i], EnvOf(g, vals)) == 2
    ensures (exists i | 0 <= i < |bs| :: Pull(bs[i], EnvOf(g, vals)) == 2) ==> vals[id].tri == 0
  {
    hide EnvOf, AnyPrompt, FirstDefault, Reverse;
    var env := EnvOf(g, vals);
    assert vals[id] == Step(g, users, id, vals);
    ReverseAtMost(bs, env, 1);
  }
}
