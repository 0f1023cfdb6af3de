/** The search for recursive dependencies (sym_check_deps): depth first over
    the symbols, with SYMBOL_CHECK on the symbols of the current path and
    SYMBOL_CHECKED on all that were entered. */
module SymbolDeps {
  import opened Options
  import opened ExprCore
  import opened SymbolSpec

  datatype PropType = Prompt | Comment | MenuProp | DefaultProp | Choice | Deselect | Select | RangeProp | Reset

  datatype Prop = Prop(kind: PropType, visible: Option<Expr>, expr: Option<Expr>)

  // rev_dep.expr, the property list and SYMBOL_CHOICE of a symbol
  datatype Node = Node(select: Option<Expr>, props: seq<Prop>, isChoice: bool)

  type Nodes = seq<Node>

  // ----- the edges that are followed -----

  function Ids(e: Expr): set<nat> {
    set s | s in Syms(e) && s.Config? :: s.id
  }

  function IdsOpt(e: Option<Expr>): set<nat> {
    if e.None? then {} else Ids(e.value)
  }

  function PropIds(p: Prop, isChoice: bool): set<nat> {
    if p.kind in {Choice, Select, Deselect} then {}
    else if p.kind == DefaultProp && !isChoice then IdsOpt(p.visible) + IdsOpt(p.expr)
    else IdsOpt(p.visible)
  }

  function PropsIds(ps: seq<Prop>, isChoice: bool): set<nat> {
    if ps == [] then {} else PropIds(ps[0], isChoice) + PropsIds(ps[1..], isChoice)
  }

  function Succ(n: Node): set<nat> {
    IdsOpt(n.select) + PropsIds(n.props, n.isChoice)
  }

  ghost predicate Edge(nodes: Nodes, i: nat, j: nat) {
    i < |nodes| && j in Succ(nodes[i])
  }

  // the expression names the symbol
  predicate Names(e: Expr, id: nat) {
    match e
    case Sym(s) => s.Config? && s.id == id
    case Equal(l, r) => (l.Config? && l.id == id) || (r.Config? && r.id == id)
    case Unequal(l, r) => (l.Config? && l.id == id) || (r.Config? && r.id == id)
    case Not(x) => Names(x, id)
    case Bin(_, l, r) => Names(l, id) || Names(r, id)
  }

  predicate NamesOpt(e: Option<Expr>, id: nat) {
    e.Some? && Names(e.value, id)
  }

  lemma {:induction false} IdsAreNames(e: Expr, id: nat)
    ensures id in Ids(e) <==> Names(e, id)
  {
    match e
    case Not(x) =>
      assert Ids(e) == Ids(x);
      IdsAreNames(x, id);
    case Bin(_, l, r) =>
      assert Ids(e) == Ids(l) + Ids(r);
      IdsAreNames(l, id);
      IdsAreNames(r, id);
    case _ =>
  }

  // the property makes the symbol it stands at depend on id
  predicate PropNames(p: Prop, isChoice: bool, id: nat) {
    p.kind != Choice && p.kind != Select && p.kind != Deselect &&
    (NamesOpt(p.visible, id) || (p.kind == DefaultProp && !isChoice && NamesOpt(p.expr, id)))
  }

  lemma {:induction false} PropsNames(ps: seq<Prop>, isChoice: bool, id: nat)
    ensures id in PropsIds(ps, isChoice) <==> exists p | p in ps :: PropNames(p, isChoice, id)
  {
    hide PropNames, PropIds;
    if ps != [] {
      PropsNames(ps[1..], isChoice, id);
      PropAre(ps[0], isChoice, id);
      assert forall q :: q in ps <==> q == ps[0] || q in ps[1..];
    }
  }

  lemma PropAre(p: Prop, isChoice: bool, id: nat)
    ensures id in PropIds(p, isChoice) <==> PropNames(p, isChoice, id)
  {
    hide Ids, Names;
    if p.visible.Some? {
      IdsAreNames(p.visible.value, id);
    }
    if p.expr.Some? {
      IdsAreNames(p.expr.value, id);
    }
  }

  // An edge leads to exactly the symbols that are named by what selects the
  // symbol, by the condition of a property other than choice, select and
  // deselect, or by the value of a default of a symbol that is no choice.
  lemma EdgesAre(nodes: Nodes, i: nat, j: nat)
    requires i < |nodes|
    ensures Edge(nodes, i, j) <==>
      NamesOpt(nodes[i].select, j) || exists p | p in nodes[i].props :: PropNames(p, nodes[i].isChoice, j)
  {
    hide Ids, Names, PropsIds, PropNames;
    PropsNames(nodes[i].props, nodes[i].isChoice, j);
    if nodes[i].select.Some? {
      IdsAreNames(nodes[i].select.value, j);
    }
  }

  ghost predicate ClosedNodes(nodes: Nodes) {
    forall i: nat, j: nat | Edge(nodes, i, j) :: j < |nodes|
  }

  // consecutive symbols depend on each other
  ghost predicate IsPath(nodes: Nodes, p: seq<nat>) {
    && (forall i | 0 <= i < |p| :: p[i] < |nodes|)
    && forall i | 0 < i < |p| :: Edge(nodes, p[i - 1], p[i])
  }

  ghost predicate IsCycle(nodes: Nodes, c: seq<nat>) {
    |c| > 1 && IsPath(nodes, c) && c[0] == c[|c| - 1]
  }

  ghost predicate Recursive(nodes: Nodes) {
    exists c :: IsCycle(nodes, c)
  }

  // a sequence in which everything a member depends on comes before it
  ghost predicate Ordered(nodes: Nodes, order: seq<nat>) {
    forall i | 0 <= i < |order| :: order[i] < |nodes| && (forall j: nat | Edge(nodes, order[i], j) :: j in order[..i])
  }

  lemma {:induction false} OrderedExtend(nodes: Nodes, order: seq<nat>, id: nat)
    requires Ordered(nodes, order) && id < |nodes|
    requires forall j: nat | Edge(nodes, id, j) :: j in order
    ensures Ordered(nodes, order + [id])
  {
    var o := order + [id];
    forall i | 0 <= i < |o|
      ensures o[i] < |nodes| && (forall j: nat | Edge(nodes, o[i], j) :: j in o[..i])
    {
      if i < |order| {
        assert o[..i] == order[..i] && o[i] == order[i];
      } else {
        assert o[..i] == order && o[i] == id;
      }
    }
  }

  // an order of all symbols leaves no room for a cycle
  lemma OrderedNotRecursive(nodes: Nodes, order: seq<nat>)
    requires Ordered(nodes, order) && forall i: nat | i < |nodes| :: i in order
    ensures !Recursive(nodes)
  {
    forall c | IsCycle(nodes, c)
      ensures false
    {
      Descend(nodes, order, c, |c| - 1);
    }
  }

  // the first position of a member
  lemma {:induction false} FirstAt(order: seq<nat>, x: nat) returns (k: nat)
    requires x in order
    ensures k < |order| && order[k] == x && x !in order[..k]
  {
    k :| 0 <= k < |order| && order[k] == x;
    while x in order[..k]
      invariant k < |order| && order[k] == x
      decreases k
    {
      var m :| 0 <= m < k && order[m] == x;
      k := m;
    }
  }

  ghost predicate ComesBefore(order: seq<nat>, x: nat, y: nat) {
    exists k :: 0 <= k < |order| && order[k] == y && y !in order[..k] && x in order[..k]
  }

  // along a path the first occurrences move strictly towards the front
  lemma {:induction false} Descend(nodes: Nodes, order: seq<nat>, p: seq<nat>, n: nat)
    requires Ordered(nodes, order) && IsPath(nodes, p) && 0 < n < |p|
    requires forall i: nat | i < |nodes| :: i in order
    ensures ComesBefore(order, p[n], p[0])
    decreases n
  {
    if n == 1 {
      var k := FirstAt(order, p[0]);
      assert Edge(nodes, p[0], p[1]);
      assert p[1] in order[..k];
    } else {
      Descend(nodes, order, p, n - 1);
      var k :| 0 <= k < |order| && order[k] == p[0] && p[0] !in order[..k] && p[n - 1] in order[..k];
      var m :| 0 <= m < k && order[m] == p[n - 1];
      assert Edge(nodes, p[n - 1], p[n]);
      assert p[n] in order[..m];
      assert order[..m] <= order[..k];
    }
  }

  class Checker {
    const nodes: Nodes
    var check: set<nat>
    var checked: set<nat>
    // whether the warning about a recursive dependency was printed
    var reported: bool
    // the symbols left for good, in the order they were left
    ghost var order: seq<nat>

    constructor (nodes: Nodes)
      requires ClosedNodes(nodes)
      ensures this.nodes == nodes && check == {} && checked == {} && !reported && Sound()
    {
      this.nodes := nodes;
      check, checked, reported := {}, {}, false;
      order := [];
    }

    ghost predicate Sound()
      reads this
    {
      && ClosedNodes(nodes)
      && check <= checked
      && (forall i | i in checked :: i < |nodes|)
      && (reported ==> Recursive(nodes))
      && (!reported ==> Ordered(nodes, order) && forall i | i in checked :: i in check || i in order)
    }

    ghost predicate OnPath(path: seq<nat>)
      reads this
    {
      IsPath(nodes, path) && check == set i | i in path
    }

    // the last symbol of the path depends on all of ids
    ghost predicate From(path: seq<nat>, ids: set<nat>)
      reads this
    {
      path != [] && path[|path| - 1] < |nodes| && ids <= Succ(nodes[path[|path| - 1]])
    }

    ghost predicate InOrder(ids: set<nat>)
      reads this
    {
      forall j | j in ids :: j in order
    }

    ghost function Todo(): set<nat>
      reads this
    {
      set i: nat | i < |nodes| && i !in checked
    }

    // what every part of the search does to the marks
    twostate predicate Searched(new found: Option<nat>)
      reads this
    {
      && check == old(check) && old(checked) <= checked
      && (old(reported) ==> reported)
      && (forall j | j in old(order) :: j in order)
      && (found.Some? ==> reported && found.value in check)
    }

    method CheckSymbol(s: Symbol, ghost path: seq<nat>) returns (found: Option<nat>)
      requires Sound() && OnPath(path) && From(path, if s.Config? then {s.id} else {})
      modifies this`check, this`checked, this`reported, this`order
      ensures Sound() && Searched(found)
      ensures s.Config? && !reported ==> s.id in order
      decreases Todo(), 1
    {
      found := None;
      if s.Config? {
        assert Edge(nodes, path[|path| - 1], s.id);
        found := CheckDeps(s.id, path);
      }
    }

    // sym_check_expr_deps
    method CheckExpr(e: Expr, ghost path: seq<nat>) returns (found: Option<nat>)
      requires Sound() && OnPath(path) && From(path, Ids(e))
      modifies this`check, this`checked, this`reported, this`order
      ensures Sound() && Searched(found)
      ensures !reported ==> InOrder(Ids(e))
      decreases Todo(), 2, e
    {
      match e {
        case Bin(_, l, r) =>
          assert Ids(e) == Ids(l) + Ids(r);
          found := CheckExpr(l, path);
          if found.None? {
            found := CheckExpr(r, path);
          }
        case Not(x) =>
          found := CheckExpr(x, path);
        case Equal(a, b) =>
          assert forall s | s == a || s == b :: s in Syms(e);
          found := CheckSymbol(a, path);
          if found.None? {
            found := CheckSymbol(b, path);
          }
        case Unequal(a, b) =>
          assert forall s | s == a || s == b :: s in Syms(e);
          found := CheckSymbol(a, path);
          if found.None? {
            found := CheckSymbol(b, path);
          }
        case Sym(s) =>
          assert s in Syms(e);
          found := CheckSymbol(s, path);
      }
    }

    method CheckOpt(e: Option<Expr>, ghost path: seq<nat>) returns (found: Option<nat>)
      requires Sound() && OnPath(path) && From(path, IdsOpt(e))
      modifies this`check, this`checked, this`reported, this`order
      ensures Sound() && Searched(found)
      ensures !reported ==> InOrder(IdsOpt(e))
      decreases Todo(), 3
    {
      found := None;
      if e.Some? {
        found := CheckExpr(e.value, path);
      }
    }

    // the loop over the properties in sym_check_deps
    method CheckProps(ps: seq<Prop>, isChoice: bool, ghost path: seq<nat>) returns (found: Option<nat>)
      requires Sound() && OnPath(path) && From(path, PropsIds(ps, isChoice))
      modifies this`check, this`checked, this`reported, this`order
      ensures Sound() && Searched(found)
      ensures !reported ==> InOrder(PropsIds(ps, isChoice))
      decreases Todo(), 4
    {
      found := None;
      var k := 0;
      while k < |ps|
        invariant 0 <= k <= |ps| && found == None
        invariant Sound() && Searched(found)
        invariant From(path, PropsIds(ps[k..], isChoice))
        invariant !reported ==> InOrder(PropsIds(ps, isChoice) - PropsIds(ps[k..], isChoice))
      {
        var p := ps[k];
        assert ps[k..][0] == p && ps[k..][1..] == ps[k + 1..];
        assert PropsIds(ps[k..], isChoice) == PropIds(p, isChoice) + PropsIds(ps[k + 1..], isChoice);
        if p.kind !in {Choice, Select, Deselect} {
          found := CheckOpt(p.visible, path);
          if found.Some? {
            return;
          }
          if p.kind == DefaultProp && !isChoice {
            found := CheckOpt(p.expr, path);
            if found.Some? {
              return;
            }
          }
        }
        assert !reported ==> InOrder(PropIds(p, isChoice));
        k := k + 1;
      }
    }

    // sym_check_deps; path holds the symbols that are being checked
    method CheckDeps(id: nat, ghost path: seq<nat>) returns (found: Option<nat>)
      requires Sound() && OnPath(path) && id < |nodes|
      requires path != [] ==> Edge(nodes, path[|path| - 1], id)
      modifies this`check, this`checked, this`reported, this`order
      ensures Sound() && Searched(found)
      ensures id in checked
      ensures !reported ==> id in order
      decreases Todo(), 0
    {
      hide Ordered, Recursive;
      if id in check {
        ghost var k :| 0 <= k < |path| && path[k] == id;
        CycleFound(nodes, path, k, id);
        reported := true;
        return Some(id);
      }
      if id in checked {
        return None;
      }
      ghost var todo := Todo();
      check, checked := check + {id}, checked + {id};
      assert Todo() < todo by {
        assert id in todo;
      }
      ghost var path' := path + [id];
      assert OnPath(path');
      found := CheckOpt(nodes[id].select, path');
      if found.None? {
        found := CheckProps(nodes[id].props, nodes[id].isChoice, path');
      }
      if found == Some(id) {
        found := None;
      }
      check := check - {id};
      if !reported {
        OrderedExtend(nodes, order, id);
        order := order + [id];
      }
    }

    // Checking every symbol, in any order: a recursion is reported exactly when
    // the followed dependencies contain a cycle, no call returns a symbol, and
    // no CHECK bit stays behind.
    method CheckAll(ids: seq<nat>) returns (allNull: bool)
      requires Sound() && check == {} && checked == {} && !reported
      requires (forall i | i in ids :: i < |nodes|) && (forall i: nat | i < |nodes| :: i in ids)
      modifies this`check, this`checked, this`reported, this`order
      ensures reported <==> Recursive(nodes)
      ensures check == {} && allNull
    {
      allNull := true;
      var k := 0;
      while k < |ids|
        invariant 0 <= k <= |ids|
        invariant Sound() && check == {} && allNull
        invariant forall i | 0 <= i < k :: ids[i] in checked
      {
        assert ids[k] in ids;
        var found := CheckDeps(ids[k], []);
        allNull := allNull && found.None?;
        k := k + 1;
      }
      if !reported {
        forall i: nat | i < |nodes|
          ensures i in order
        {
          assert i in ids;
          var m :| 0 <= m < |ids| && ids[m] == i;
          assert i in checked;
        }
        OrderedNotRecursive(nodes, order);
      }
    }
  }

  lemma CycleFound(nodes: Nodes, path: seq<nat>, k: nat, id: nat)
    requires IsPath(nodes, path) && k < |path| && path[k] == id && Edge(nodes, path[|path| - 1], id)
    ensures Recursive(nodes)
  {
    var c := path[k..] + [id];
    assert forall i | 0 < i < |c| :: Edge(nodes, c[i - 1], c[i]) by {
      forall i | 0 < i < |c|
        ensures Edge(nodes, c[i - 1], c[i])
      {
        if i < |path| - k {
          assert c[i - 1] == path[k + i - 1] && c[i] == path[k + i];
          assert Edge(nodes, path[k + i - 1], path[k + i]);
        }
      }
    }
    assert IsCycle(nodes, c);
  }
}
