/** Saving a calculated configuration, loading it and calculating it again. */
module ConfCycle {
  import opened Options
  import opened ExprCore
  import opened SymbolSpec
  import opened SymbolCalc
  import opened MenuTree
  import opened ConfText
  import ConfRead
  import ConfWrite
  import ConfSave

  // interned names are names of one symbol
  ghost predicate Named(g: Graph) {
    forall i, j | 0 <= i < j < |g.infos| :: g.infos[i].name != g.infos[j].name
  }

  function TypesOf(g: Graph): map<string, SymType>
    requires Named(g)
  {
    map i | 0 <= i < |g.infos| :: g.infos[i].name := g.infos[i].stype
  }

  function ValueOf(x: Val): ConfWrite.Value {
    ConfWrite.Value(x.tri, x.val)
  }

  function ValuesOf(g: Graph, vals: Vals): map<string, ConfWrite.Value>
    requires Named(g) && |g.infos| == |vals|
  {
    map i | 0 <= i < |g.infos| :: g.infos[i].name := ValueOf(vals[i])
  }

  // the symbols with SYMBOL_WRITE
  function WrittenOf(g: Graph, vals: Vals): set<string>
    requires |g.infos| == |vals|
  {
    set i | 0 <= i < |g.infos| && vals[i].write :: g.infos[i].name
  }

  // what the reader leaves in a symbol
  function UserOf(s: ConfRead.Saved): User {
    User(s.isNew, s.tri, if s.text.Some? then s.text.value else "")
  }

  // the user value after loading: that of the symbol if it was written
  ghost predicate Reloaded(stype: SymType, x: Val, u: User) {
    if x.write && ConfWrite.IsPrinted(stype) then
      !u.isNew && if ConfWrite.IsText(stype) then u.val == x.val else u.tri == x.tri
    else u.isNew
  }

  ghost predicate AllReloaded(g: Graph, vals: Vals, users: seq<User>) {
    |g.infos| == |vals| == |users| && forall i | 0 <= i < |vals| :: Reloaded(g.infos[i].stype, vals[i], users[i])
  }

  // ----- one symbol -----

  // a bool or tristate calculated from its own value has that value
  lemma TristateAgain(info: Info, user: User, user': User, env: Env)
    requires info.stype == Boolean || info.stype == Tristated
    requires if TristateWrite(info, env) then !user'.isNew && user'.tri == TristateValue(info, user, env) else user'.isNew
    ensures TristateValue(info, user', env) == TristateValue(info, user, env)
  {
    hide AnyPrompt, FirstDefault, Deselected, Eval;
  }

  // the bounds in force, if any
  function Bounds(g: Graph, info: Info, vals: Vals): Option<(int, int)> {
    if info.stype != Int && info.stype != Hex then None
    else
      var range := FirstRange(info.ranges, EnvOf(g, vals));
      if range.None? then None
      else Some((RangeVal(g, range.value.low, Base(info.stype, 10), vals), RangeVal(g, range.value.high, Base(info.stype, 10), vals)))
  }

  // the texts made of the bounds stand for the bounds
  ghost predicate BoundsReadBack(g: Graph, info: Info, vals: Vals) {
    var b := Bounds(g, info, vals);
    b.Some? ==>
      && g.libc.strtol(g.libc.format(info.stype == Hex, b.value.0), Base(info.stype, 10)) == b.value.0
      && g.libc.strtol(g.libc.format(info.stype == Hex, b.value.1), Base(info.stype, 10)) == b.value.1
  }

  predicate InOrder(b: Option<(int, int)>) {
    b.Some? ==> b.value.0 <= b.value.1
  }

  // Clamping a clamped text leaves it alone if and only if the bounds are in order.
  lemma ClampAgain(g: Graph, info: Info, str: string, vals: Vals)
    requires BoundsReadBack(g, info, vals)
    ensures var s := Clamp(g, info, str, vals); Clamp(g, info, s, vals) == s <==> InOrder(Bounds(g, info, vals))
  {
    hide FirstRange, RangeVal, EnvOf;
  }

  // Is the bad order of the bounds of a symbol ever seen?
  ghost predicate Settled(g: Graph, id: nat, vals: Vals)
    requires id < |g.infos|
  {
    Visible(g.infos[id], EnvOf(g, vals)) != 0 ==> InOrder(Bounds(g, g.infos[id], vals))
  }

  lemma StepAgain(g: Graph, users: seq<User>, users': seq<User>, id: nat, vals: Vals)
    requires id < |g.infos| == |users| == |users'| == |vals| && vals[id] == Step(g, users, id, vals)
    requires Reloaded(g.infos[id].stype, vals[id], users'[id]) && BoundsReadBack(g, g.infos[id], vals)
    ensures Step(g, users', id, vals) == vals[id] <==> Settled(g, id, vals)
  {
    hide EnvOf, AnyPrompt, FirstDefault, Deselected, Clamp, Eval, ValOf, BoundsReadBack, Bounds, Visible, Floor, TristateValue, TristateWrite;
    var info, env := g.infos[id], EnvOf(g, vals);
    if info.stype == Boolean || info.stype == Tristated {
      TristateAgain(info, users[id], users'[id], env);
      NoBounds(g, info, vals);
    } else if Calculated(info.stype) {
      ClampAgain(g, info, StringRaw(g, info, users[id], vals), vals);
    } else {
      NoBounds(g, info, vals);
    }
  }

  lemma NoBounds(g: Graph, info: Info, vals: Vals)
    requires info.stype != Int && info.stype != Hex
    ensures InOrder(Bounds(g, info, vals))
  {
  }

  // Calculating from the saved values gives the same configuration if and only
  // if every visible number has its bounds in order.
  lemma ReloadKeepsSolution(g: Graph, users: seq<User>, users': seq<User>, vals: Vals)
    requires Solution(g, users, vals) && AllReloaded(g, vals, users')
    requires forall i | 0 <= i < |g.infos| :: BoundsReadBack(g, g.infos[i], vals)
    ensures Solution(g, users', vals) <==> forall id: nat | id < |vals| :: Settled(g, id, vals)
  {
    hide Step, Reloaded, BoundsReadBack, Settled;
    forall id: nat | id < |vals|
      ensures Step(g, users', id, vals) == vals[id] <==> Settled(g, id, vals)
    {
      StepAgain(g, users, users', id, vals);
    }
  }

  // A number with the bounds 5 and 3: 4 becomes 5, and 5 becomes 3 after loading.
  lemma BoundsOutOfOrder(libc: Libc)
    requires libc.strtol("4", 10) == 4 && libc.strtol("5", 10) == 5 && libc.strtol("3", 10) == 3
    requires libc.format(false, 5) == "5" && libc.format(false, 3) == "3"
    ensures var g := Graph([Info(Int, "X", [None], [], [Range(None, Literal("5"), Literal("3"))], None, None)], libc);
      var saved, vals, vals' := User(false, 0, "5"), [Val("5", 0, 2, 0, true)], [Val("3", 0, 2, 0, true)];
      && Solution(g, [User(false, 0, "4")], vals) && AllReloaded(g, vals, [saved])
      && Solution(g, [saved], vals') && !Solution(g, [saved], vals)
  {
    var info := Info(Int, "X", [None], [], [Range(None, Literal("5"), Literal("3"))], None, None);
    var g := Graph([info], libc);
    var user, saved, vals, vals' := User(false, 0, "4"), User(false, 0, "5"), [Val("5", 0, 2, 0, true)], [Val("3", 0, 2, 0, true)];
    ExampleStep(g, info, user, vals);
    ExampleStep(g, info, saved, vals);
    ExampleStep(g, info, saved, vals');
    hide Step;
    assert vals[0] == Step(g, [user], 0, vals) && vals'[0] == Step(g, [saved], 0, vals') && vals[0] != Step(g, [saved], 0, vals);
    assert Reloaded(info.stype, vals[0], saved);
  }

  lemma ExampleStep(g: Graph, info: Info, user: User, vals: Vals)
    requires info == Info(Int, "X", [None], [], [Range(None, Literal("5"), Literal("3"))], None, None) && g.infos == [info]
    requires g.libc.strtol("4", 10) == 4 && g.libc.strtol("5", 10) == 5 && g.libc.strtol("3", 10) == 3
    requires g.libc.format(false, 5) == "5" && g.libc.format(false, 3) == "3"
    requires !user.isNew && (user.val == "4" || user.val == "5")
    ensures Step(g, [user], 0, vals) == Val(if user.val == "4" then "5" else "3", 0, 2, 0, true)
  {
    BoundsOfExample(g, info, vals);
    hide AnyPrompt, FirstRange, RangeVal, EnvOf;
    assert StringRaw(g, info, user, vals) == user.val;
  }

  lemma BoundsOfExample(g: Graph, info: Info, vals: Vals)
    requires info == Info(Int, "X", [None], [], [Range(None, Literal("5"), Literal("3"))], None, None)
    requires g.libc.strtol("5", 10) == 5 && g.libc.strtol("3", 10) == 3
    ensures AnyPrompt(info.prompts, EnvOf(g, vals)) == 2
    ensures FirstRange(info.ranges, EnvOf(g, vals)) == Some(info.ranges[0])
    ensures RangeVal(g, Literal("5"), 10, vals) == 5 && RangeVal(g, Literal("3"), 10, vals) == 3
  {
  }

  // ----- the check after loading -----

  // sym_string_within_range for text and numbers
  ghost predicate WithinText(g: Graph, info: Info, str: string, vals: Vals) {
    ConfRead.ValidText(info.stype, str) &&
    var b := Bounds(g, info, vals);
    b.Some? ==> b.value.0 <= g.libc.strtol(str, Base(info.stype, 10)) <= b.value.1
  }

  // A value that was loaded is forgotten if the symbol is not visible or the
  // text is not in range.
  ghost function Rechecked(g: Graph, info: Info, u: User, vals: Vals): User {
    u.(isNew := u.isNew || Visible(info, EnvOf(g, vals)) == 0 || (ConfWrite.IsText(info.stype) && !WithinText(g, info, u.val, vals)))
  }

  // With the bounds in order, a text is in range exactly if clamping leaves it.
  lemma InRangeExactly(g: Graph, info: Info, str: string, vals: Vals)
    requires BoundsReadBack(g, info, vals) && InOrder(Bounds(g, info, vals))
    ensures WithinText(g, info, str, vals) <==> ConfRead.ValidText(info.stype, str) && Clamp(g, info, str, vals) == str
  {
    hide FirstRange, RangeVal, EnvOf, ConfRead.ValidText;
  }

  // The check forgets the value of a new or invisible symbol, and that of a text
  // or number that is no value of its type or not the value the symbol has.
  lemma ForgottenExactly(g: Graph, users: seq<User>, id: nat, vals: Vals)
    requires Solution(g, users, vals) && id < |vals| && Calculated(g.infos[id].stype)
    requires BoundsReadBack(g, g.infos[id], vals) && InOrder(Bounds(g, g.infos[id], vals))
    ensures var info, u := g.infos[id], users[id];
      Rechecked(g, info, u, vals) == u.(isNew :=
        u.isNew || vals[id].visible == 0 ||
        (ConfWrite.IsText(info.stype) && (!ConfRead.ValidText(info.stype, u.val) || vals[id].val != u.val)))
  {
    var info, u := g.infos[id], users[id];
    assert vals[id] == Step(g, users, id, vals);
    InRangeExactly(g, info, u.val, vals);
    hide EnvOf, AnyPrompt, FirstDefault, Deselected, Clamp, Eval, ValOf, Visible, Floor, Bounds, WithinText, ConfRead.ValidText, TristateValue, TristateWrite;
  }

  // what a visible symbol must hold for the check to keep its value
  ghost predicate Keepable(g: Graph, info: Info, u: User, vals: Vals) {
    Visible(info, EnvOf(g, vals)) != 0 && !u.isNew && ConfWrite.IsText(info.stype) ==> WithinText(g, info, u.val, vals)
  }

  // a saved value is kept
  lemma SavedKeepable(g: Graph, users: seq<User>, u: User, id: nat, vals: Vals)
    requires id < |g.infos| == |users| == |vals| && vals[id] == Step(g, users, id, vals)
    requires Reloaded(g.infos[id].stype, vals[id], u) && BoundsReadBack(g, g.infos[id], vals) && Settled(g, id, vals)
    requires vals[id].write && ConfWrite.IsPrinted(g.infos[id].stype) ==> ConfWrite.Accepted(g.infos[id].stype, ValueOf(vals[id]))
    ensures Keepable(g, g.infos[id], u, vals)
  {
    hide EnvOf, AnyPrompt, FirstDefault, Deselected, Clamp, Eval, ValOf, Visible, Floor, Bounds, ConfRead.ValidText;
    var info := g.infos[id];
    if Visible(info, EnvOf(g, vals)) != 0 && !u.isNew && ConfWrite.IsText(info.stype) {
      ClampWithin(g, info, StringRaw(g, info, users[id], vals), vals);
      StringAccepted(g, info, vals[id], vals);
    }
  }

  lemma StringAccepted(g: Graph, info: Info, x: Val, vals: Vals)
    requires ConfWrite.IsText(info.stype) && ConfWrite.Accepted(info.stype, ValueOf(x))
    ensures ConfRead.ValidText(info.stype, x.val)
  {
  }

  lemma ClampWithin(g: Graph, info: Info, str: string, vals: Vals)
    requires BoundsReadBack(g, info, vals) && InOrder(Bounds(g, info, vals))
    ensures var b := Bounds(g, info, vals);
      b.Some? ==> b.value.0 <= g.libc.strtol(Clamp(g, info, str, vals), Base(info.stype, 10)) <= b.value.1
  {
    hide FirstRange, RangeVal, EnvOf;
  }

  // forgetting a value nobody can see changes nothing
  lemma ForgottenUnseen(g: Graph, users: seq<User>, id: nat, vals: Vals)
    requires id < |g.infos| == |users| == |vals|
    requires Calculated(g.infos[id].stype) ==> Visible(g.infos[id], EnvOf(g, vals)) == 0
    ensures Step(g, users[id := users[id].(isNew := true)], id, vals) == Step(g, users, id, vals)
  {
    hide EnvOf, AnyPrompt, FirstDefault, Deselected, Clamp, Eval, ValOf, Visible, Floor;
  }

  lemma ForgetKeepsSolution(g: Graph, users: seq<User>, id: nat, vals: Vals)
    requires Solution(g, users, vals) && id < |g.infos|
    requires Calculated(g.infos[id].stype) ==> Visible(g.infos[id], EnvOf(g, vals)) == 0
    ensures Solution(g, users[id := users[id].(isNew := true)], vals)
  {
    hide Step;
    var users' := users[id := users[id].(isNew := true)];
    ForgottenUnseen(g, users, id, vals);
    forall i: nat | i < |vals|
      ensures vals[i] == Step(g, users', i, vals)
    {
      if i != id {
        StepOtherUser(g, users, users', i, vals);
      }
    }
  }

  method StringWithinRange(table: SymbolTable, id: nat, str: string, ghost plan: Option<Plan>, ghost r: nat) returns (ok: bool)
    requires table.Sound() && table.Follows(plan, {}, r) && id < |table.g.infos| && ConfWrite.IsText(table.g.infos[id].stype)
    requires plan.Some? ==> r == MaxRank(plan.value.rank) + 1
    modifies table`valid, table`vals
    ensures table.Sound() && table.Follows(plan, {}, r) && old(table.valid) <= table.valid
    ensures plan.Some? ==> ok == WithinText(table.g, table.g.infos[id], str, plan.value.goal)
  {
    hide Uses, ConfRead.ValidText;
    var g, info := table.g, table.g.infos[id];
    UsedFine(g, table.users, plan, id);
    UsesParts(info);
    ok := ConfRead.StringValid(info.stype, str);
    if !ok || info.stype == String {
      return;
    }
    var base := Base(info.stype, 10);
    var range := table.RangeProp(info.ranges, plan, {}, r);
    if range.None? {
      return;
    }
    var val := g.libc.strtol(str, base);
    var low := table.CalcRangeVal(range.value.low, base, plan, {}, r);
    ok := val >= low;
    if ok {
      var high := table.CalcRangeVal(range.value.high, base, plan, {}, r);
      ok := val <= high;
    }
  }

  // the loop of conf_read over the symbols, for one symbol
  method CheckSymbol(table: SymbolTable, id: nat, ghost plan: Option<Plan>, ghost r: nat)
    requires table.Sound() && table.Follows(plan, {}, r) && id < |table.g.infos|
    requires plan.Some? ==> r == MaxRank(plan.value.rank) + 1 && Keepable(table.g, table.g.infos[id], table.users[id], plan.value.goal)
    modifies table`users, table`valid, table`vals
    ensures table.Sound() && table.Follows(plan, {}, r)
    ensures exists isNew :: table.users == old(table.users)[id := old(table.users)[id].(isNew := isNew)]
    ensures plan.Some? && Calculated(table.g.infos[id].stype) ==>
      table.users[id] == Rechecked(table.g, table.g.infos[id], old(table.users)[id], plan.value.goal)
  {
    table.CalcValue(id, plan, {}, r);
    var u := table.users[id];
    if !u.isNew {
      var info := table.g.infos[id];
      var forget := table.vals[id].visible == 0;
      if ConfWrite.IsText(info.stype) {
        var ok := StringWithinRange(table, id, u.val, plan, r);
        if !ok {
          forget := true;
          table.valid := table.valid - {id};
        }
      }
      if forget {
        ghost var users := table.users;
        table.users := table.users[id := u.(isNew := true)];
        if plan.Some? {
          ForgetKeepsSolution(table.g, users, id, plan.value.goal);
        }
      }
    }
  }

  method CheckSymbols(table: SymbolTable, ghost plan: Option<Plan>)
    requires table.Sound()
    requires plan.Some? ==> GoodPlan(table.g, table.users, plan.value) && table.Cached(plan.value)
    requires plan.Some? ==> forall i | 0 <= i < |table.g.infos| :: Keepable(table.g, table.g.infos[i], table.users[i], plan.value.goal)
    modifies table`users, table`valid, table`vals
    ensures table.Sound()
    ensures plan.Some? ==> GoodPlan(table.g, table.users, plan.value) && table.Cached(plan.value)
    ensures plan.Some? ==> forall i | 0 <= i < |table.g.infos| && Calculated(table.g.infos[i].stype) ::
      table.users[i] == Rechecked(table.g, table.g.infos[i], old(table.users)[i], plan.value.goal)
  {
    hide Keepable, Rechecked, GoodPlan;
    ghost var r := if plan.Some? then MaxRank(plan.value.rank) + 1 else 0;
    assert table.Follows(plan, {}, r);
    var g := table.g;
    var id := 0;
    while id < |g.infos|
      invariant id <= |g.infos| && table.Sound() && table.Follows(plan, {}, r)
      invariant forall i | id <= i < |g.infos| :: table.users[i] == old(table.users)[i]
      invariant plan.Some? ==> forall i | 0 <= i < id && Calculated(g.infos[i].stype) ::
        table.users[i] == Rechecked(g, g.infos[i], old(table.users)[i], plan.value.goal)
    {
      CheckSymbol(table, id, plan, r);
      id := id + 1;
    }
  }

  // ----- all of it -----

  ghost predicate AllRestored(g: Graph, vals: Vals, saved: map<string, ConfRead.Saved>)
    requires |g.infos| == |vals|
  {
    forall i | 0 <= i < |vals| :: g.infos[i].name in saved &&
      if vals[i].write && ConfWrite.IsPrinted(g.infos[i].stype) then
        ConfWrite.Restored(g.infos[i].stype, ValueOf(vals[i]), saved[g.infos[i].name])
      else saved[g.infos[i].name].isNew
  }

  // every symbol that is written can be, and has an entry that is met
  ghost predicate Savable(g: Graph, vals: Vals, f: Forest, hidden: nat -> bool, entry: nat -> ConfWrite.Entry)
    requires |g.infos| == |vals|
  {
    && Named(g) && ConfSave.AllReadable(f, hidden, entry, TypesOf(g), ValuesOf(g, vals), WrittenOf(g, vals))
    && forall i: nat | i < |g.infos| && vals[i].write && ConfWrite.IsPrinted(g.infos[i].stype) :: Met(f, hidden, entry, g.infos[i].name)
  }

  ghost predicate Met(f: Forest, hidden: nat -> bool, entry: nat -> ConfWrite.Entry, name: string) {
    exists k | k in Pre(f) :: !hidden(k) && entry(k) == ConfWrite.Item(name)
  }

  lemma MapsAt(g: Graph, vals: Vals, i: nat)
    requires Named(g) && |vals| == |g.infos| && i < |vals|
    ensures g.infos[i].name in TypesOf(g) && TypesOf(g)[g.infos[i].name] == g.infos[i].stype
    ensures g.infos[i].name in ValuesOf(g, vals) && ValuesOf(g, vals)[g.infos[i].name] == ValueOf(vals[i])
    ensures g.infos[i].name in WrittenOf(g, vals) <==> vals[i].write
  {
    WrittenAt(g, vals, i);
    hide WrittenOf;
  }

  lemma WrittenAt(g: Graph, vals: Vals, i: nat)
    requires Named(g) && |vals| == |g.infos| && i < |vals|
    ensures g.infos[i].name in WrittenOf(g, vals) <==> vals[i].write
  {
    if g.infos[i].name in WrittenOf(g, vals) {
      var j :| 0 <= j < |g.infos| && vals[j].write && g.infos[j].name == g.infos[i].name;
      assert !(i < j) && !(j < i);
    }
  }

  method Save(g: Graph, vals: Vals, menus: Menus, root: nat, ghost f: Forest, hidden: nat -> bool,
      entry: nat -> ConfWrite.Entry, version: string, stamp: Option<string>)
    returns (saved: map<string, ConfRead.Saved>)
    requires |g.infos| == |vals| && Savable(g, vals, f, hidden, entry)
    requires MenuTree.WellFormed(menus.h) && root < |menus.h.next|
    requires menus.h.next[root] == Null && menus.h.parent[root] == Null
    requires Seg(menus.h, At(root), menus.h.list[root], f, Null) && Distinct([root] + Pre(f)) && menus.log == []
    requires ConfWrite.TitleOk(TypesOf(g), ConfWrite.VersionText(version)) && (stamp.Some? ==> ConfWrite.TitleOk(TypesOf(g), stamp.value))
    modifies menus`h, menus`log
    ensures AllRestored(g, vals, saved)
  {
    hide Seg, Pre, ConfWrite.Restored, ConfWrite.TitleOk, ConfSave.AllReadable, TypesOf, ValuesOf, WrittenOf;
    var types, values, written := TypesOf(g), ValuesOf(g, vals), WrittenOf(g, vals);
    var reader := ConfSave.SaveMenus(menus, root, f, hidden, entry, types, values, written, version, stamp);
    saved := reader.saved;
    forall i | 0 <= i < |vals|
      ensures g.infos[i].name in saved
      ensures if vals[i].write && ConfWrite.IsPrinted(g.infos[i].stype) then
          ConfWrite.Restored(g.infos[i].stype, ValueOf(vals[i]), saved[g.infos[i].name])
        else saved[g.infos[i].name].isNew
    {
      MapsAt(g, vals, i);
    }
  }

  // what the loaded values are for the solution the table holds
  lemma RestoredReloaded(g: Graph, vals: Vals, goal: Vals, saved: map<string, ConfRead.Saved>, users: seq<User>)
    requires |g.infos| == |vals| == |goal| == |users| && AllRestored(g, vals, saved)
    requires forall i: nat | i < |vals| :: Agrees(g, goal, i, vals[i])
    requires forall i: nat | i < |vals| :: g.infos[i].name in saved && users[i] == UserOf(saved[g.infos[i].name])
    ensures AllReloaded(g, goal, users)
  {
  }

  lemma AcceptedByReader(g: Graph, vals: Vals, f: Forest, hidden: nat -> bool, entry: nat -> ConfWrite.Entry, i: nat)
    requires |g.infos| == |vals| && Savable(g, vals, f, hidden, entry) && i < |vals|
    ensures vals[i].write && ConfWrite.IsPrinted(g.infos[i].stype) ==> ConfWrite.Accepted(g.infos[i].stype, ValueOf(vals[i]))
  {
    hide Pre, TypesOf, ValuesOf, ConfWrite.Accepted, ConfWrite.Printed, ConfWrite.TitleOk;
    MapsAt(g, vals, i);
    if vals[i].write && ConfWrite.IsPrinted(g.infos[i].stype) {
      assert Met(f, hidden, entry, g.infos[i].name);
    }
  }

  // the solution stays one, and the check keeps every value that is seen
  lemma ReloadedConfiguration(g: Graph, users: seq<User>, users': seq<User>, goal: Vals)
    requires Solution(g, users, goal) && AllReloaded(g, goal, users')
    requires forall i: nat | i < |goal| :: Settled(g, i, goal) && BoundsReadBack(g, g.infos[i], goal)
    requires forall i: nat | i < |goal| && goal[i].write && ConfWrite.IsPrinted(g.infos[i].stype) ::
      ConfWrite.Accepted(g.infos[i].stype, ValueOf(goal[i]))
    ensures Solution(g, users', goal)
    ensures forall i: nat | i < |goal| :: Keepable(g, g.infos[i], users'[i], goal)
  {
    hide Step, Settled, BoundsReadBack, Reloaded, Keepable, ConfWrite.Accepted;
    ReloadKeepsSolution(g, users, users', goal);
    forall i: nat | i < |goal|
      ensures Keepable(g, g.infos[i], users'[i], goal)
    {
      SavedKeepable(g, users, users'[i], i, goal);
    }
  }

  // A calculated configuration that is saved, loaded, checked and calculated
  // again, in any order, is the configuration it was.
  method SaveAndReload(table: SymbolTable, order: seq<nat>, menus: Menus, root: nat, ghost f: Forest, hidden: nat -> bool,
      entry: nat -> ConfWrite.Entry, version: string, stamp: Option<string>, ghost plan: Plan)
    returns (again: SymbolTable)
    requires table.Sound() && GoodPlan(table.g, table.users, plan) && table.Cached(plan)
    requires forall i: nat | i < |table.g.infos| :: i in table.valid && i in order
    requires forall i | i in order :: i < |table.g.infos|
    requires forall i: nat | i < |plan.goal| :: Settled(table.g, i, plan.goal) && BoundsReadBack(table.g, table.g.infos[i], plan.goal)
    requires Savable(table.g, table.vals, f, hidden, entry)
    requires MenuTree.WellFormed(menus.h) && root < |menus.h.next|
    requires menus.h.next[root] == Null && menus.h.parent[root] == Null
    requires Seg(menus.h, At(root), menus.h.list[root], f, Null) && Distinct([root] + Pre(f)) && menus.log == []
    requires ConfWrite.TitleOk(TypesOf(table.g), ConfWrite.VersionText(version)) && (stamp.Some? ==> ConfWrite.TitleOk(TypesOf(table.g), stamp.value))
    modifies menus`h, menus`log
    ensures again.g == table.g && again.Sound()
    ensures forall i: nat | i < |table.g.infos| :: i in again.valid && Agrees(table.g, plan.goal, i, again.vals[i])
  {
    hide Seg, Pre, Settled, BoundsReadBack, ConfWrite.Restored, ConfWrite.TitleOk, ConfWrite.Accepted, Savable, Keepable, Reloaded, Acyclic, WellFormedGraph, Step, Rechecked;
    var g := table.g;
    var saved := Save(g, table.vals, menus, root, f, hidden, entry, version, stamp);
    var users := seq(|g.infos|, i requires 0 <= i < |g.infos| && g.infos[i].name in saved => UserOf(saved[g.infos[i].name]));
    RestoredReloaded(g, table.vals, plan.goal, saved, users);
    forall i: nat | i < |plan.goal| && plan.goal[i].write && ConfWrite.IsPrinted(g.infos[i].stype)
      ensures ConfWrite.Accepted(g.infos[i].stype, ValueOf(plan.goal[i]))
    {
      AcceptedByReader(g, table.vals, f, hidden, entry, i);
    }
    ReloadedConfiguration(g, table.users, users, plan.goal);
    again := new SymbolTable(g, users);
    CheckSymbols(again, Some(plan));
    again.CalcAll(order, Some(plan));
    forall i: nat | i < |g.infos|
      ensures i in again.valid
    {
      assert i in order;
    }
  }
}
