/** What the values of a solution mean, symbol by symbol, in terms of the
    properties of the symbol and the values of the others. */
module SymbolMeaning {
  import opened Options
  import opened ExprCore
  import opened SymbolSpec
  import opened SymbolCalc

  function Max(a: Tristate, b: Tristate): Tristate {
    if a > b then a else b
  }

  function Min(a: Tristate, b: Tristate): Tristate {
    if a < b then a else b
  }

  // a bool is never m
  function Rounded(stype: SymType, t: Tristate): Tristate {
    if stype == Boolean && t == 1 then 2 else t
  }

  ghost predicate Forbidden(info: Info, env: Env) {
    info.deselect.Some? && Eval(info.deselect.value, env) == 2
  }

  // What expressions read: the value and the text of a symbol of the table, the
  // name of its value for a bool or tristate, and the constants as they are.
  lemma SymbolsMean(g: Graph, vals: Vals, s: Symbol)
    requires |vals| == |g.infos|
    ensures var env := EnvOf(g, vals);
      && (s.Config? && Known(g, s) ==> ValOf(g, s, vals) == (vals[s.id].val, vals[s.id].tri) && env.tri(s) == vals[s.id].tri)
      && (s.Config? && Known(g, s) ==> env.str(s) == if s.IsTristateType() then TristateName(vals[s.id].tri) else vals[s.id].val)
      && (s.Literal? ==> env.tri(s) == 0 && env.str(s) == s.text && ValOf(g, s, vals).0 == s.text)
      && env.tri(Yes) == 2 && env.str(Yes) == "y" && env.tri(Mod) == 1 && env.str(Mod) == "m" && env.tri(No) == 0 && env.str(No) == "n"
  {
  }

  // the first default whose condition is not n is number i
  ghost predicate Chosen(info: Info, env: Env, i: nat) {
    && i < |info.defaults| && EvalOpt(info.defaults[i].visible, env) != 0
    && forall j | 0 <= j < i :: EvalOpt(info.defaults[j].visible, env) == 0
  }

  ghost predicate NoneChosen(info: Info, env: Env) {
    forall j | 0 <= j < |info.defaults| :: EvalOpt(info.defaults[j].visible, env) == 0
  }

  lemma {:induction false} FirstOf(ds: seq<Default>, env: Env, i: nat)
    requires i < |ds| && EvalOpt(ds[i].visible, env) != 0 && forall j | 0 <= j < i :: EvalOpt(ds[j].visible, env) == 0
    ensures FirstDefault(ds, env) == Some(ds[i].value)
  {
    if i > 0 {
      assert forall j | 0 <= j < i - 1 :: ds[1..][j] == ds[j + 1];
      FirstOf(ds[1..], env, i - 1);
    }
  }

  lemma {:induction false} NoFirst(ds: seq<Default>, env: Env)
    requires forall j | 0 <= j < |ds| :: EvalOpt(ds[j].visible, env) == 0
    ensures FirstDefault(ds, env) == None
  {
    if ds != [] {
      assert forall j | 0 <= j < |ds| - 1 :: ds[1..][j] == ds[j + 1];
      NoFirst(ds[1..], env);
    }
  }

  lemma {:induction false} PromptAtLeast(prompts: seq<Option<Expr>>, env: Env, t: Tristate)
    requires t > 0
    ensures AnyPrompt(prompts, env) >= t <==> exists p | p in prompts :: EvalOpt(p, env) >= t
  {
    if prompts != [] {
      var last := prompts[|prompts| - 1];
      PromptAtLeast(prompts[..|prompts| - 1], env, t);
      assert forall p :: p in prompts <==> p in prompts[..|prompts| - 1] || p == last;
    }
  }

  // The visibility is that of the most visible prompt, for all but tristates
  // y if it is not n; nothing is visible of a deselected symbol.
  lemma VisibilityMeans(g: Graph, users: seq<User>, vals: Vals, id: nat, t: Tristate)
    requires Solution(g, users, vals) && id < |vals| && Calculated(g.infos[id].stype) && t > 0
    ensures var info, env := g.infos[id], EnvOf(g, vals);
      vals[id].visible >= t <==>
        !Forbidden(info, env) && exists p | p in info.prompts :: EvalOpt(p, env) >= if info.stype == Tristated then t else 1
  {
    hide EnvOf, AnyPrompt, FirstDefault, Eval, Clamp, StringRaw;
    var info, env := g.infos[id], EnvOf(g, vals);
    assert vals[id] == Step(g, users, id, vals);
    PromptAtLeast(info.prompts, env, t);
    PromptAtLeast(info.prompts, env, 1);
  }

  lemma FloorMeans(g: Graph, users: seq<User>, vals: Vals, id: nat)
    requires Solution(g, users, vals) && id < |vals| && Calculated(g.infos[id].stype)
    ensures var info, env := g.infos[id], EnvOf(g, vals);
      vals[id].floor == if info.select.None? then 0 else Rounded(info.stype, Eval(info.select.value, env))
  {
    hide EnvOf, AnyPrompt, FirstDefault, Eval, Clamp, StringRaw;
    assert vals[id] == Step(g, users, id, vals);
  }

  ghost predicate Logical(info: Info) {
    info.stype == Boolean || info.stype == Tristated
  }

  // A deselected bool or tristate is n and not written.
  lemma ForbiddenIsNo(g: Graph, users: seq<User>, vals: Vals, id: nat)
    requires Solution(g, users, vals) && id < |vals| && Logical(g.infos[id]) && Forbidden(g.infos[id], EnvOf(g, vals))
    ensures vals[id].tri == 0 && !vals[id].write
  {
    hide EnvOf, AnyPrompt, FirstDefault, Eval;
    assert vals[id] == Step(g, users, id, vals);
  }

  // The value of the user counts up to the visibility, and the floor always
  // counts.
  lemma UserValueMeans(g: Graph, users: seq<User>, vals: Vals, id: nat)
    requires Solution(g, users, vals) && id < |vals| && Logical(g.infos[id]) && !Forbidden(g.infos[id], EnvOf(g, vals))
    requires !users[id].isNew && (vals[id].visible != 0 || vals[id].floor != 0)
    ensures vals[id].write
    ensures vals[id].tri == Rounded(g.infos[id].stype, Max(Min(users[id].tri, vals[id].visible), vals[id].floor))
  {
    hide EnvOf, AnyPrompt, FirstDefault, Eval;
    assert vals[id] == Step(g, users, id, vals);
  }

  // A new symbol, and one that is neither visible nor selected, has its first
  // default whose condition is not n: up to the visibility if it is visible or
  // selected, and as it is if not.
  lemma DefaultMeans(g: Graph, users: seq<User>, vals: Vals, id: nat, i: nat)
    requires Solution(g, users, vals) && id < |vals| && Logical(g.infos[id]) && !Forbidden(g.infos[id], EnvOf(g, vals))
    requires users[id].isNew || (vals[id].visible == 0 && vals[id].floor == 0)
    requires Chosen(g.infos[id], EnvOf(g, vals), i)
    ensures var default := Eval(g.infos[id].defaults[i].value, EnvOf(g, vals));
      && vals[id].write
      && vals[id].tri == Rounded(g.infos[id].stype,
          if vals[id].visible != 0 || vals[id].floor != 0 then Max(Min(default, vals[id].visible), vals[id].floor) else default)
  {
    FirstOf(g.infos[id].defaults, EnvOf(g, vals), i);
    hide EnvOf, AnyPrompt, FirstDefault, Eval;
    assert vals[id] == Step(g, users, id, vals);
  }

  // Without such a default it is what selects it.
  lemma NoDefaultMeans(g: Graph, users: seq<User>, vals: Vals, id: nat)
    requires Solution(g, users, vals) && id < |vals| && Logical(g.infos[id]) && !Forbidden(g.infos[id], EnvOf(g, vals))
    requires users[id].isNew || (vals[id].visible == 0 && vals[id].floor == 0)
    requires NoneChosen(g.infos[id], EnvOf(g, vals))
    ensures vals[id].tri == Rounded(g.infos[id].stype, vals[id].floor)
    ensures vals[id].write <==> vals[id].visible != 0 || vals[id].floor != 0
  {
    NoFirst(g.infos[id].defaults, EnvOf(g, vals));
    hide EnvOf, AnyPrompt, FirstDefault, Eval;
    assert vals[id] == Step(g, users, id, vals);
  }

  // ----- texts and numbers -----

  ghost predicate Textual(info: Info) {
    info.stype == String || info.stype == Int || info.stype == Hex
  }

  // str is the text before the range is looked at
  ghost predicate Given(g: Graph, info: Info, user: User, vals: Vals, visible: Tristate, str: string) {
    if visible != 0 && !user.isNew then str == user.val
    else
      && (forall i: nat | Chosen(info, EnvOf(g, vals), i) ::
            str == if info.defaults[i].value.Sym? then ValOf(g, info.defaults[i].value.sym, vals).0 else "")
      && (NoneChosen(info, EnvOf(g, vals)) ==> str == "")
  }

  lemma {:induction false} SomeOrNone(info: Info, env: Env, k: nat) returns (i: nat)
    requires k <= |info.defaults| && forall j | 0 <= j < k :: EvalOpt(info.defaults[j].visible, env) == 0
    ensures if i < |info.defaults| then Chosen(info, env, i) else NoneChosen(info, env)
    decreases |info.defaults| - k
  {
    i := k;
    if k < |info.defaults| && EvalOpt(info.defaults[k].visible, env) == 0 {
      i := SomeOrNone(info, env, k + 1);
    }
  }

  lemma GivenIsRaw(g: Graph, info: Info, user: User, vals: Vals, str: string)
    requires Given(g, info, user, vals, Visible(info, EnvOf(g, vals)), str)
    ensures str == StringRaw(g, info, user, vals)
  {
    var env := EnvOf(g, vals);
    var i := SomeOrNone(info, env, 0);
    if i < |info.defaults| {
      FirstOf(info.defaults, env, i);
    } else {
      NoFirst(info.defaults, env);
    }
    hide EnvOf, Visible, ValOf, FirstDefault, Eval;
  }

  // A string is the text the user gave, if it is visible, or that of the first
  // default whose condition is not n.
  lemma StringMeans(g: Graph, users: seq<User>, vals: Vals, id: nat, str: string)
    requires Solution(g, users, vals) && id < |vals| && g.infos[id].stype == String
    requires Given(g, g.infos[id], users[id], vals, vals[id].visible, str)
    ensures vals[id].val == str
  {
    hide EnvOf, Visible, StringRaw, FirstDefault, Eval, Given;
    assert vals[id] == Step(g, users, id, vals);
    GivenIsRaw(g, g.infos[id], users[id], vals, str);
  }

  lemma TextWritten(g: Graph, users: seq<User>, vals: Vals, id: nat)
    requires Solution(g, users, vals) && id < |vals| && Textual(g.infos[id])
    ensures vals[id].write <==>
      (vals[id].visible != 0 || exists i: nat | Chosen(g.infos[id], EnvOf(g, vals), i) :: g.infos[id].defaults[i].value.Sym?)
  {
    var info, env := g.infos[id], EnvOf(g, vals);
    var i := SomeOrNone(info, env, 0);
    if i < |info.defaults| {
      FirstOf(info.defaults, env, i);
      forall k: nat | Chosen(info, env, k)
        ensures k == i
      {
        assert !(k < i) && !(i < k);
      }
    } else {
      NoFirst(info.defaults, env);
    }
    TextWriteIs(g, users, vals, id);
    hide EnvOf, FirstDefault, Eval;
  }

  lemma TextWriteIs(g: Graph, users: seq<User>, vals: Vals, id: nat)
    requires Solution(g, users, vals) && id < |vals| && Textual(g.infos[id])
    ensures var default := FirstDefault(g.infos[id].defaults, EnvOf(g, vals));
      vals[id].write <==> vals[id].visible != 0 || (default.Some? && default.value.Sym?)
  {
    hide EnvOf, Visible, StringRaw, FirstDefault, Eval, Clamp;
    assert vals[id] == Step(g, users, id, vals);
  }

  // the first range whose condition is not n
  ghost predicate InForce(info: Info, env: Env, i: nat) {
    && i < |info.ranges| && EvalOpt(info.ranges[i].visible, env) != 0
    && forall j | 0 <= j < i :: EvalOpt(info.ranges[j].visible, env) == 0
  }

  lemma {:induction false} RangeInForce(rs: seq<Range>, env: Env, i: nat)
    requires i < |rs| && EvalOpt(rs[i].visible, env) != 0 && forall j | 0 <= j < i :: EvalOpt(rs[j].visible, env) == 0
    ensures FirstRange(rs, env) == Some(rs[i])
  {
    if i > 0 {
      assert forall j | 0 <= j < i - 1 :: rs[1..][j] == rs[j + 1];
      RangeInForce(rs[1..], env, i - 1);
    }
  }

  lemma {:induction false} NoRange(rs: seq<Range>, env: Env)
    requires forall j | 0 <= j < |rs| :: EvalOpt(rs[j].visible, env) == 0
    ensures FirstRange(rs, env) == None
  {
    if rs != [] {
      assert forall j | 0 <= j < |rs| - 1 :: rs[1..][j] == rs[j + 1];
      NoRange(rs[1..], env);
    }
  }

  // the number a text stands for: hexadecimal for a hex, decimal for an int
  function Number(g: Graph, stype: SymType, str: string): int {
    g.libc.strtol(str, if stype == Hex then 16 else 10)
  }

  // a bound is read by its own type, or by that of the number it bounds
  function Bound(g: Graph, stype: SymType, s: Symbol, vals: Vals): int {
    Number(g, if s.Type() == Int || s.Type() == Hex then s.Type() else stype, ValOf(g, s, vals).0)
  }

  // A number below the lower bound of the first range in force becomes that
  // bound, otherwise one above the upper bound becomes that one, and every
  // other text stays as it is.
  lemma NumberMeans(g: Graph, users: seq<User>, vals: Vals, id: nat, str: string, i: nat)
    requires Solution(g, users, vals) && id < |vals| && (g.infos[id].stype == Int || g.infos[id].stype == Hex)
    requires Given(g, g.infos[id], users[id], vals, vals[id].visible, str) && InForce(g.infos[id], EnvOf(g, vals), i)
    ensures var info := g.infos[id];
      var low, high := Bound(g, info.stype, info.ranges[i].low, vals), Bound(g, info.stype, info.ranges[i].high, vals);
      vals[id].val == if Number(g, info.stype, str) < low then g.libc.format(info.stype == Hex, low)
        else if Number(g, info.stype, str) > high then g.libc.format(info.stype == Hex, high)
        else str
  {
    RangeInForce(g.infos[id].ranges, EnvOf(g, vals), i);
    hide EnvOf, Visible, StringRaw, FirstDefault, FirstRange, Eval, Given, ValOf;
    assert vals[id] == Step(g, users, id, vals);
    GivenIsRaw(g, g.infos[id], users[id], vals, str);
  }

  lemma UnboundedMeans(g: Graph, users: seq<User>, vals: Vals, id: nat, str: string)
    requires Solution(g, users, vals) && id < |vals| && (g.infos[id].stype == Int || g.infos[id].stype == Hex)
    requires Given(g, g.infos[id], users[id], vals, vals[id].visible, str)
    requires forall j | 0 <= j < |g.infos[id].ranges| :: EvalOpt(g.infos[id].ranges[j].visible, EnvOf(g, vals)) == 0
    ensures vals[id].val == str
  {
    NoRange(g.infos[id].ranges, EnvOf(g, vals));
    hide EnvOf, Visible, StringRaw, FirstDefault, FirstRange, Eval, Given;
    assert vals[id] == Step(g, users, id, vals);
    GivenIsRaw(g, g.infos[id], users[id], vals, str);
  }

  // a symbol without a type has its name as text
  lemma UndefinedMeans(g: Graph, users: seq<User>, vals: Vals, id: nat)
    requires Solution(g, users, vals) && id < |vals| && (g.infos[id].stype == Unknown || g.infos[id].stype == Other)
    ensures vals[id].val == g.infos[id].name && vals[id].tri == 0 && !vals[id].write
  {
    assert vals[id] == Step(g, users, id, vals);
  }

  // ----- values the user may choose -----

  // the value a bool or tristate that is not deselected takes for a user value
  function Taken(info: Info, x: Val, user: Tristate): Tristate {
    Rounded(info.stype, Max(Min(user, x.visible), x.floor))
  }

  // A value is accepted if and only if the symbol would take it, and would take
  // another one for some other choice.
  lemma AcceptedMeans(g: Graph, users: seq<User>, vals: Vals, id: nat, val: Tristate)
    requires Solution(g, users, vals) && id < |vals| && Logical(g.infos[id])
    ensures WithinRange(g.infos[id], vals[id], val) <==>
      Taken(g.infos[id], vals[id], val) == val && exists other: Tristate :: Taken(g.infos[id], vals[id], other) != val
  {
    hide EnvOf, AnyPrompt, FirstDefault, Eval;
    assert vals[id] == Step(g, users, id, vals);
    var info, x := g.infos[id], vals[id];
    assert Taken(info, x, 0) != val || Taken(info, x, 2) != val || x.visible <= x.floor || !WithinRange(info, x, val);
  }
}
