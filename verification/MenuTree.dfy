/** The linked tree of menu entries: the re-nesting and flattening done by
    menu_finalize, and the walk over the finished tree in conf_write. */
module MenuTree {

  // a pointer to an entry; an entry is named by its index
  datatype Ptr = Null | At(id: nat)

  // the link fields of all entries
  datatype Heap = Heap(next: seq<Ptr>, parent: seq<Ptr>, list: seq<Ptr>)

  datatype Tree = Node(id: nat, kids: seq<Tree>)

  type Forest = seq<Tree>

  function Pre(f: Forest): seq<nat> {
    if f == [] then [] else [f[0].id] + Pre(f[0].kids) + Pre(f[1..])
  }

  lemma {:induction false} PreAppend(f: Forest, g: Forest)
    ensures Pre(f + g) == Pre(f) + Pre(g)
  {
    if f == [] {
      assert f + g == g;
    } else {
      PreAppend(f[1..], g);
      assert (f + g)[1..] == f[1..] + g && (f + g)[0] == f[0];
      var head := [f[0].id] + Pre(f[0].kids);
      assert Pre(f + g) == head + Pre(f[1..] + g);
      Regroup(head, Pre(f[1..]), Pre(g));
    }
  }

  lemma Regroup(a: seq<nat>, b: seq<nat>, c: seq<nat>)
    ensures (a + b) + c == a + (b + c)
  {
  }

  lemma RegroupTrees(a: Forest, b: Forest, c: Forest)
    ensures a + (b + c) == a + b + c
  {
  }

  lemma PreSplit(f: Forest, k: nat)
    requires k <= |f|
    ensures Pre(f) == Pre(f[..k]) + Pre(f[k..])
  {
    hide Pre;
    assert f[..k] + f[k..] == f;
    PreAppend(f[..k], f[k..]);
  }

  ghost predicate Distinct(s: seq<nat>) {
    forall i, j | 0 <= i < j < |s| :: s[i] != s[j]
  }

  lemma DistinctParts(a: seq<nat>, b: seq<nat>)
    requires Distinct(a + b)
    ensures Distinct(a) && Distinct(b) && (forall x | x in a :: x !in b)
  {
    var s := a + b;
    assert forall i | 0 <= i < |a| :: s[i] == a[i];
    assert forall i | 0 <= i < |b| :: s[|a| + i] == b[i];
  }

  ghost predicate WellFormed(h: Heap) {
    |h.next| == |h.parent| == |h.list|
  }

  // The list that starts at first and stops at end holds the trees of f; every
  // entry's parent pointer names the entry whose list it is in.
  ghost predicate Seg(h: Heap, par: Ptr, first: Ptr, f: Forest, end: Ptr)
    requires WellFormed(h)
    decreases f
  {
    if f == [] then first == end
    else
      var t := f[0];
      && first == At(t.id) && t.id < |h.next|
      && h.parent[t.id] == par
      && Seg(h, At(t.id), h.list[t.id], t.kids, Null)
      && Seg(h, par, h.next[t.id], f[1..], end)
  }

  ghost predicate SameAt(h: Heap, h': Heap, i: nat)
    requires WellFormed(h) && WellFormed(h') && |h.next| == |h'.next|
  {
    i < |h.next| ==> h.next[i] == h'.next[i] && h.parent[i] == h'.parent[i] && h.list[i] == h'.list[i]
  }

  ghost predicate SameOn(h: Heap, h': Heap, ids: seq<nat>) {
    && WellFormed(h) && WellFormed(h') && |h.next| == |h'.next|
    && forall i | i in ids :: SameAt(h, h', i)
  }

  ghost predicate SameBut(h: Heap, h': Heap, ids: seq<nat>) {
    && WellFormed(h) && WellFormed(h') && |h.next| == |h'.next|
    && forall i: nat | i !in ids :: SameAt(h, h', i)
  }

  lemma {:induction false} SegFrame(h: Heap, h': Heap, par: Ptr, first: Ptr, f: Forest, end: Ptr)
    requires WellFormed(h) && Seg(h, par, first, f, end) && SameOn(h, h', Pre(f))
    ensures Seg(h', par, first, f, end)
    decreases f
  {
    if f != [] {
      var t := f[0];
      assert t.id in Pre(f);
      assert forall i | i in Pre(t.kids) :: i in Pre(f);
      assert forall i | i in Pre(f[1..]) :: i in Pre(f);
      assert SameAt(h, h', t.id);
      SegFrame(h, h', At(t.id), h.list[t.id], t.kids, Null);
      SegFrame(h, h', par, h.next[t.id], f[1..], end);
    }
  }

  lemma {:induction false} SegAppend(h: Heap, par: Ptr, first: Ptr, f: Forest, mid: Ptr, g: Forest, end: Ptr)
    requires WellFormed(h) && Seg(h, par, first, f, mid) && Seg(h, par, mid, g, end)
    ensures Seg(h, par, first, f + g, end)
    decreases f
  {
    if f == [] {
      assert f + g == g;
    } else {
      SegAppend(h, par, h.next[f[0].id], f[1..], mid, g, end);
      assert (f + g)[1..] == f[1..] + g;
    }
  }

  lemma {:induction false} SegIds(h: Heap, par: Ptr, first: Ptr, f: Forest, end: Ptr)
    requires WellFormed(h) && Seg(h, par, first, f, end)
    ensures forall i | i in Pre(f) :: i < |h.next|
    decreases f
  {
    if f != [] {
      SegIds(h, At(f[0].id), h.list[f[0].id], f[0].kids, Null);
      SegIds(h, par, h.next[f[0].id], f[1..], end);
    }
  }

  // redirecting the last link of a list
  lemma {:induction false} SegRedirect(h: Heap, h': Heap, par: Ptr, first: Ptr, f: Forest, end: Ptr, end': Ptr)
    requires WellFormed(h) && f != [] && Seg(h, par, first, f, end) && Distinct(Pre(f))
    requires var last := f[|f| - 1].id; last < |h.next| && h' == h.(next := h.next[last := end'])
    ensures WellFormed(h') && Seg(h', par, first, f, end')
    decreases f
  {
    var t := f[0];
    var last := f[|f| - 1].id;
    DistinctParts([t.id] + Pre(t.kids), Pre(f[1..]));
    DistinctParts([t.id], Pre(t.kids));
    assert t.id in [t.id];
    if |f| == 1 {
      assert f[1..] == [];
      SegFrame(h, h', At(t.id), h.list[t.id], t.kids, Null);
    } else {
      LastIn(f[1..]);
      assert f[1..][|f[1..]| - 1] == f[|f| - 1];
      assert t.id in [t.id] + Pre(t.kids);
      assert forall i | i in Pre(t.kids) :: i in [t.id] + Pre(t.kids);
      SegFrame(h, h', At(t.id), h.list[t.id], t.kids, Null);
      SegRedirect(h, h', par, h.next[t.id], f[1..], end, end');
    }
  }

  lemma {:induction false} LastIn(f: Forest)
    requires f != []
    ensures f[|f| - 1].id in Pre(f)
  {
    PreAppend(f[..|f| - 1], [f[|f| - 1]]);
    assert f[..|f| - 1] + [f[|f| - 1]] == f;
    assert f[|f| - 1].id in Pre([f[|f| - 1]]);
  }

  // ----- the walk of conf_write -----

  // The position of the walk: cur is the list of the first forest, below par;
  // the further forests are what follows par, its parent, and so on up to the root.
  ghost predicate Position(h: Heap, root: nat, cur: Ptr, par: Ptr, frames: seq<Forest>)
    requires WellFormed(h)
    decreases |frames|
  {
    && frames != []
    && Seg(h, par, cur, frames[0], Null)
    && par.At? && par.id < |h.next|
    && if |frames| == 1 then par.id == root && h.next[root] == Null && h.parent[root] == Null
       else Position(h, root, h.next[par.id], h.parent[par.id], frames[1..])
  }

  ghost function Remaining(frames: seq<Forest>): seq<nat> {
    if frames == [] then [] else Pre(frames[0]) + Remaining(frames[1..])
  }

  // The walk visits every entry exactly once, in preorder, and stops.
  method Walk(h: Heap, root: nat, ghost f: Forest) returns (visited: seq<nat>)
    requires WellFormed(h) && root < |h.next| && h.next[root] == Null && h.parent[root] == Null
    requires Seg(h, At(root), h.list[root], f, Null)
    ensures visited == Pre(f)
  {
    hide Seg, Pre, Remaining;
    visited := [];
    var menu := h.list[root];
    ghost var frames, par := [f], At(root);
    AtStart(h, root, f);
    while menu.At?
      invariant menu.At? ==> frames != [] && Position(h, root, menu, par, frames)
      invariant visited + Remaining(frames) == Pre(f)
      invariant menu == Null ==> Remaining(frames) == []
      decreases |Remaining(frames)|, if menu.At? then 1 else 0
    {
      var m := menu.id;
      AtEntry(h, root, m, par, frames);
      ghost var kids, rest, tail := frames[0][0].kids, frames[0][1..], frames[1..];
      Regroup(visited, [m], Remaining([kids] + ([rest] + tail)));
      Regroup(visited, [m], Remaining([rest] + tail));
      Regroup(visited, [m], Remaining(tail));
      visited := visited + [m];
      if h.list[m].At? {
        frames, par := [kids] + ([rest] + tail), At(m);
        menu := h.list[m];
      } else if h.next[m].At? {
        frames := [rest] + tail;
        menu := h.next[m];
      } else {
        menu, frames, par := Climb(h, root, m, par, tail);
      }
    }
  }

  lemma AtStart(h: Heap, root: nat, f: Forest)
    requires WellFormed(h) && root < |h.next| && h.next[root] == Null && h.parent[root] == Null
    requires Seg(h, At(root), h.list[root], f, Null)
    ensures Position(h, root, h.list[root], At(root), [f]) && Remaining([f]) == Pre(f)
    ensures h.list[root] == Null ==> Pre(f) == []
  {
    assert Remaining([f]) == Pre(f) + Remaining([]);
  }

  // what the walk finds at an entry, and where it can go from there
  lemma AtEntry(h: Heap, root: nat, m: nat, par: Ptr, frames: seq<Forest>)
    requires WellFormed(h) && Position(h, root, At(m), par, frames)
    ensures m < |h.next| && h.parent[m] == par && frames[0] != []
    ensures var kids, rest, tail := frames[0][0].kids, frames[0][1..], frames[1..];
      && Remaining(frames) == [m] + Remaining([kids] + ([rest] + tail))
      && Position(h, root, h.list[m], At(m), [kids] + ([rest] + tail))
      && Position(h, root, h.next[m], par, [rest] + tail)
      && (h.list[m] == Null ==> Remaining(frames) == [m] + Remaining([rest] + tail))
      && (h.list[m] == Null && h.next[m] == Null ==> Remaining(frames) == [m] + Remaining(tail) && [rest] + tail == [[]] + tail)
  {
    var kids, rest, tail := frames[0][0].kids, frames[0][1..], frames[1..];
    Push(rest, tail);
    Push(kids, [rest] + tail);
    RemainingAtEntry(frames);
    if h.list[m] == Null {
      NullEmpty(h, At(m), kids);
    }
    if h.next[m] == Null {
      NullEmpty(h, par, rest);
    }
  }

  lemma RemainingAtEntry(frames: seq<Forest>)
    requires frames != [] && frames[0] != []
    ensures var t, rest, tail := frames[0][0], frames[0][1..], frames[1..];
      && Remaining(frames) == [t.id] + Remaining([t.kids] + ([rest] + tail))
      && (t.kids == [] ==> Remaining(frames) == [t.id] + Remaining([rest] + tail))
      && (t.kids == [] && rest == [] ==> Remaining(frames) == [t.id] + Remaining(tail))
  {
    hide Pre, Remaining;
    var t, rest, tail := frames[0][0], frames[0][1..], frames[1..];
    var k, r, o := Pre(t.kids), Pre(rest), Remaining(tail);
    RemainingHead(frames);
    PreHead(frames[0]);
    Push(rest, tail);
    Push(t.kids, [rest] + tail);
    Regroup([t.id] + k, r, o);
    Regroup([t.id], k, r + o);
    PreEmpty();
    Nothing(r + o);
    Nothing(o);
  }

  lemma RemainingHead(frames: seq<Forest>)
    requires frames != []
    ensures Remaining(frames) == Pre(frames[0]) + Remaining(frames[1..])
  {
  }

  lemma Nothing(a: seq<nat>)
    ensures [] + a == a
  {
  }

  lemma PreEmpty()
    ensures Pre([]) == []
  {
  }

  // from an entry at the end of its list up to the next one that follows a parent
  method Climb(h: Heap, root: nat, m: nat, ghost par: Ptr, ghost tail: seq<Forest>)
    returns (menu: Ptr, ghost frames: seq<Forest>, ghost par': Ptr)
    requires WellFormed(h) && m < |h.next| && h.parent[m] == par
    requires Position(h, root, Null, par, [[]] + tail)
    ensures menu.At? ==> frames != [] && Position(h, root, menu, par', frames)
    ensures menu == Null ==> Remaining(frames) == []
    ensures Remaining(frames) == Remaining(tail)
  {
    assert ([[]] + tail)[1..] == tail;
    frames, par' := tail, par;
    menu := h.parent[m];
    while menu.At?
      invariant menu == Null ==> frames == []
      invariant menu.At? ==> menu.id < |h.next|
      invariant menu.At? && frames == [] ==> menu.id == root && h.next[root] == Null && h.parent[root] == Null
      invariant menu.At? && frames != [] ==> Position(h, root, h.next[menu.id], h.parent[menu.id], frames)
      invariant Remaining(frames) == Remaining(tail)
      decreases |frames|, if menu.At? then 1 else 0
    {
      if h.next[menu.id].At? {
        par' := h.parent[menu.id];
        menu := h.next[menu.id];
        break;
      }
      if frames != [] {
        NullEmpty(h, h.parent[menu.id], frames[0]);
        frames := frames[1..];
      }
      menu := h.parent[menu.id];
    }
  }

  lemma NullEmpty(h: Heap, par: Ptr, f: Forest)
    requires WellFormed(h) && Seg(h, par, Null, f, Null)
    ensures f == []
  {
  }

  lemma Push(a: Forest, frames: seq<Forest>)
    ensures ([a] + frames)[0] == a && ([a] + frames)[1..] == frames
    ensures Remaining([a] + frames) == Pre(a) + Remaining(frames)
  {
  }

  // ----- menu_finalize -----

  // every entry with children has a prompt text
  ghost predicate Flat(f: Forest, shown: nat -> bool)
    decreases f
  {
    f != [] ==> (f[0].kids != [] ==> shown(f[0].id)) && Flat(f[0].kids, shown) && Flat(f[1..], shown)
  }

  lemma {:induction false} FlatAppend(f: Forest, g: Forest, shown: nat -> bool)
    ensures Flat(f + g, shown) <==> Flat(f, shown) && Flat(g, shown)
  {
    if f == [] {
      assert f + g == g;
    } else {
      FlatAppend(f[1..], g, shown);
      assert (f + g)[1..] == f[1..] + g && (f + g)[0] == f[0];
    }
  }

  // the trees of f, without regard to the prompts of the top entries
  ghost predicate FlatBelow(f: Forest, shown: nat -> bool) {
    forall t | t in f :: Flat(t.kids, shown)
  }

  lemma SegHead(h: Heap, par: Ptr, first: Ptr, f: Forest, end: Ptr)
    requires WellFormed(h) && f != [] && Seg(h, par, first, f, end)
    ensures first == At(f[0].id) && f[0].id < |h.next| && h.parent[f[0].id] == par
    ensures Seg(h, At(f[0].id), h.list[f[0].id], f[0].kids, Null)
    ensures Seg(h, par, h.next[f[0].id], f[1..], end)
  {
  }

  lemma SegOne(h: Heap, par: Ptr, t: Tree)
    requires WellFormed(h) && t.id < |h.next| && h.parent[t.id] == par && Seg(h, At(t.id), h.list[t.id], t.kids, Null)
    ensures Seg(h, par, At(t.id), [t], h.next[t.id])
  {
    assert [t][1..] == [];
  }

  lemma PreOne(t: Tree)
    ensures Pre([t]) == [t.id] + Pre(t.kids)
  {
    assert [t][1..] == [];
  }

  lemma SameButChain(a: Heap, b: Heap, c: Heap, ids: seq<nat>, ids': seq<nat>, all: seq<nat>)
    requires SameBut(a, b, ids) && SameBut(b, c, ids')
    requires forall i | i in ids || i in ids' :: i in all
    ensures SameBut(a, c, all)
  {
    forall i: nat | i !in all
      ensures SameAt(a, c, i)
    {
      assert SameAt(a, b, i) && SameAt(b, c, i);
    }
  }

  lemma SegKept(h: Heap, h': Heap, ids: seq<nat>, par: Ptr, first: Ptr, f: Forest, end: Ptr)
    requires WellFormed(h) && Seg(h, par, first, f, end) && SameBut(h, h', ids)
    requires forall i | i in Pre(f) :: i !in ids
    ensures WellFormed(h') && Seg(h', par, first, f, end)
  {
    SegFrame(h, h', par, first, f, end);
  }

  lemma SegEmpty(h: Heap, par: Ptr, first: Ptr)
    requires WellFormed(h)
    ensures Seg(h, par, first, [], first)
  {
  }

  lemma SegAtEnd(h: Heap, par: Ptr, first: Ptr, end: Ptr)
    requires WellFormed(h) && Seg(h, par, first, [], end)
    ensures first == end
  {
  }

  lemma SegNonEmpty(h: Heap, par: Ptr, first: Ptr, f: Forest)
    requires WellFormed(h) && first.At? && Seg(h, par, first, f, Null)
    ensures f != [] && f[0].id == first.id && Pre(f) != []
  {
  }

  lemma SegNull(h: Heap, par: Ptr, f: Forest)
    requires WellFormed(h) && Seg(h, par, Null, f, Null)
    ensures f == [] && Pre(f) == []
  {
  }

  // One entry of a list was finalized: what was done before it and what
  // follows are still in place.
  lemma Advance(first: Heap, h0: Heap, h: Heap, all: seq<nat>, dpar: Ptr, dfirst: Ptr, done: Forest,
      par: Ptr, m: nat, rest: Forest, t: Tree, k: nat)
    requires 1 <= k <= |rest| && t.id == m
    requires SameBut(first, h0, all) && SameBut(h0, h, Pre(rest[..k]))
    requires Seg(h0, dpar, dfirst, done, At(m))
    requires Seg(h, par, At(m), [t] + rest[k..], Null) && Pre([t]) == Pre(rest[..k])
    requires Distinct(Pre(done) + Pre(rest)) && forall i | i in Pre(rest[..k]) :: i in all
    ensures SameBut(first, h, all)
    ensures Seg(h, dpar, dfirst, done, At(m))
    ensures m < |h.next| && h.parent[m] == par && Seg(h, At(m), h.list[m], t.kids, Null)
    ensures Seg(h, par, h.next[m], rest[k..], Null)
    ensures Pre(done + [t]) == Pre(done) + Pre(rest[..k])
    ensures Pre(rest) == Pre(rest[..k]) + Pre(rest[k..]) && |Pre(rest[k..])| < |Pre(rest)|
    ensures Pre(done + [t]) + Pre(rest[k..]) == Pre(done) + Pre(rest)
    ensures Pre([t]) == [m] + Pre(t.kids) && Distinct(Pre([t]) + Pre(rest[k..]))
    ensures forall i | i in Pre(rest[..k]) :: i in Pre(rest) && i !in Pre(done)
  {
    hide Seg, Pre;
    PreSplit(rest, k);
    PreAppend(done, [t]);
    PreOne(t);
    DistinctParts(Pre(done), Pre(rest));
    Regroup(Pre(done), Pre([t]), Pre(rest[k..]));
    SameButChain(first, h0, h, all, Pre(rest[..k]), all);
    SegKept(h0, h, Pre(rest[..k]), dpar, dfirst, done, At(m));
    SegHead(h, par, At(m), [t] + rest[k..], Null);
    assert ([t] + rest[k..])[1..] == rest[k..];
  }

  lemma Taken(f: Forest, k: nat, j: nat)
    requires k + j <= |f|
    ensures Pre(f[..k + j]) == Pre(f[..k]) + Pre(f[k..][..j])
    ensures f[k..][j..] == f[k + j..]
  {
    hide Pre;
    PreAppend(f[..k], f[k..][..j]);
    assert f[..k] + f[k..][..j] == f[..k + j];
  }

  lemma SameButSelf(h: Heap, ids: seq<nat>)
    requires WellFormed(h)
    ensures SameBut(h, h, ids)
  {
  }

  lemma SameButMore(h: Heap, h': Heap, ids: seq<nat>, more: seq<nat>)
    requires SameBut(h, h', ids) && forall i | i in ids :: i in more
    ensures SameBut(h, h', more)
  {
  }

  // an entry that was finalized as a sibling becomes a child
  lemma Reparent(first: Heap, h: Heap, all: seq<nat>, dpar: Ptr, dfirst: Ptr, done: Forest, par: Ptr, m: nat, t: Tree, rest: Forest)
    requires SameBut(first, h, all) && m < |h.next| && m in all && t.id == m
    requires Seg(h, dpar, dfirst, done, At(m)) && m !in Pre(done)
    requires Seg(h, At(m), h.list[m], t.kids, Null) && Seg(h, par, h.next[m], rest, Null)
    requires Pre([t]) == [m] + Pre(t.kids) && Distinct(Pre([t]) + Pre(rest))
    ensures var h' := h.(parent := h.parent[m := dpar]);
      && SameBut(first, h', all)
      && Seg(h', dpar, dfirst, done + [t], h'.next[m])
      && Seg(h', par, h'.next[m], rest, Null)
  {
    hide Seg, Pre;
    var h' := h.(parent := h.parent[m := dpar]);
    assert SameBut(h, h', [m]);
    SameButChain(first, h, h', all, [m], all);
    DistinctParts(Pre([t]), Pre(rest));
    DistinctParts([m], Pre(t.kids));
    assert m in [m];
    assert m in Pre([t]);
    SegKept(h, h', [m], dpar, dfirst, done, At(m));
    SegKept(h, h', [m], At(m), h.list[m], t.kids, Null);
    SegKept(h, h', [m], par, h.next[m], rest, Null);
    SegOne(h', dpar, t);
    SegAppend(h', dpar, dfirst, done, At(m), [t], h'.next[m]);
  }

  // the next child of m, last, becomes a child of p
  lemma ChildMoved(first: Heap, h: Heap, p: nat, m: nat, kids: Forest, moved: Forest, last: nat, left: Forest)
    requires SameBut(first, h, Pre(kids)) && SameAt(first, h, m) && m < |h.next| && m !in Pre(kids) && Distinct(Pre(kids))
    requires Seg(h, At(p), h.list[m], moved, At(last)) && Seg(h, At(m), At(last), left, Null)
    requires moved + left == kids && left != []
    ensures last < |h.next| && left[0].id == last
    ensures var h' := h.(parent := h.parent[last := At(p)]);
      && SameBut(first, h', Pre(kids)) && SameAt(first, h', m) && h'.next[last] == h.next[last]
      && Seg(h', At(p), h'.list[m], moved + [left[0]], h'.next[last]) && Seg(h', At(m), h'.next[last], left[1..], Null)
  {
    hide Seg, Pre;
    var t := left[0];
    PreAppend(moved, left);
    PreHead(left);
    PreOne(t);
    SegHead(h, At(m), At(last), left, Null);
    DistinctParts(Pre(moved), Pre(left));
    assert last in [last];
    assert last in Pre(left);
    assert last in Pre(kids);
    Reparent(first, h, Pre(kids), At(p), h.list[m], moved, At(m), last, t, left[1..]);
  }

  lemma {:induction false} SegEnd(h: Heap, par: Ptr, first: Ptr, f: Forest, end: Ptr)
    requires WellFormed(h) && f != [] && Seg(h, par, first, f, end)
    ensures f[|f| - 1].id < |h.next| && h.next[f[|f| - 1].id] == end
    decreases f
  {
    if |f| > 1 {
      SegEnd(h, par, h.next[f[0].id], f[1..], end);
    }
  }

  // the new children are cut out of the sibling list
  lemma Relink(first: Heap, h: Heap, p: nat, par: Ptr, kids: Forest, menu: Ptr, sib: Forest, k: nat)
    requires k <= |sib| && SameBut(first, h, Pre(sib[..k])) && p < |h.next| && kids != []
    requires Seg(h, At(p), h.next[p], kids, menu) && Seg(h, par, menu, sib[k..], Null)
    requires Pre(kids) == Pre(sib[..k]) && Pre(sib) == Pre(sib[..k]) + Pre(sib[k..]) && Distinct([p] + Pre(sib))
    ensures var last := kids[|kids| - 1].id;
      && last < |h.next| && last != p
      && var h1 := h.(list := h.list[p := h.next[p]]);
      var h2 := h1.(next := h1.next[p := h1.next[last]]);
      var h' := h2.(next := h2.next[last := Null]);
      && SameBut(first, h', [p] + Pre(sib[..k])) && h'.parent[p] == h.parent[p]
      && Seg(h', At(p), h'.list[p], kids, Null)
      && Seg(h', par, h'.next[p], sib[k..], Null)
  {
    hide Seg, Pre;
    var last := kids[|kids| - 1].id;
    DistinctParts([p], Pre(sib));
    DistinctParts(Pre(sib[..k]), Pre(sib[k..]));
    assert p in [p];
    LastIn(kids);
    SegEnd(h, At(p), h.next[p], kids, menu);
    var h1 := h.(list := h.list[p := h.next[p]]);
    var h2 := h1.(next := h1.next[p := h1.next[last]]);
    var h' := h2.(next := h2.next[last := Null]);
    assert SameBut(h, h2, [p]);
    SegKept(h, h2, [p], At(p), h.next[p], kids, menu);
    SegKept(h, h2, [p], par, menu, sib[k..], Null);
    SegRedirect(h2, h', At(p), h.next[p], kids, menu, Null);
    assert SameBut(h2, h', [last]);
    SegKept(h2, h', [last], par, menu, sib[k..], Null);
    var all := [p] + Pre(sib[..k]);
    SameButChain(first, h, h2, Pre(sib[..k]), [p], all);
    SameButChain(first, h2, h', all, [last], all);
  }

  // a finalized child of p joins the children already done
  lemma ChildDone(first: Heap, h0: Heap, h: Heap, p: nat, kids: Forest, done: Forest, m: nat, rest: Forest, t: Tree, k: nat)
    requires 1 <= k <= |rest| && t.id == m
    requires SameBut(first, h0, Pre(kids)) && SameBut(h0, h, Pre(rest[..k])) && p < |h0.next|
    requires Seg(h0, At(p), h0.list[p], done, At(m))
    requires Seg(h, At(p), At(m), [t] + rest[k..], Null) && Pre([t]) == Pre(rest[..k])
    requires Pre(done) + Pre(rest) == Pre(kids) && Distinct([p] + Pre(kids))
    ensures SameBut(first, h, Pre(kids)) && WellFormed(h) && p < |h.next| == |first.next| && h.list[p] == h0.list[p]
    ensures m < |h.next| && Seg(h, At(p), h.list[p], done + [t], h.next[m])
    ensures Seg(h, At(p), h.next[m], rest[k..], Null)
    ensures Pre(done + [t]) == Pre(done) + Pre(rest[..k]) && Pre(done + [t]) + Pre(rest[k..]) == Pre(kids)
    ensures |Pre(rest[k..])| < |Pre(rest)|
  {
    hide Seg, Pre, Distinct;
    DistinctParts([p], Pre(kids));
    DistinctParts(Pre(done), Pre(rest));
    assert p in [p];
    PreSplit(rest, k);
    assert forall i | i in Pre(rest[..k]) :: i in Pre(done) + Pre(rest);
    Advance(first, h0, h, Pre(kids), At(p), h0.list[p], done, At(p), m, rest, t, k);
    assert SameAt(h0, h, p);
    SegOne(h, At(p), t);
    SegAppend(h, At(p), h.list[p], done, At(m), [t], h.next[m]);
  }

  // a finalized sibling of p becomes a child of p
  lemma SiblingTaken(first: Heap, h0: Heap, h: Heap, p: nat, par: Ptr, sib: Forest, k: nat, done: Forest, m: nat, t: Tree, j: nat)
    requires k <= |sib| && 1 <= j <= |sib| - k && t.id == m
    requires SameBut(first, h0, Pre(sib[..k])) && SameBut(h0, h, Pre(sib[k..][..j])) && p < |h0.next|
    requires Seg(h0, At(p), h0.next[p], done, At(m))
    requires Seg(h, par, At(m), [t] + sib[k..][j..], Null) && Pre([t]) == Pre(sib[k..][..j])
    requires Pre(done) == Pre(sib[..k]) && Distinct([p] + Pre(sib))
    ensures WellFormed(h) && p < |h.next| == |first.next| && m < |h.next|
    ensures var h' := h.(parent := h.parent[m := At(p)]);
      && SameBut(first, h', Pre(sib[..k + j]))
      && h'.next[p] == h0.next[p] && h'.list[p] == h0.list[p] && h'.parent[p] == h0.parent[p]
      && Seg(h', At(p), h'.next[p], done + [t], h'.next[m])
      && Seg(h', par, h'.next[m], sib[k + j..], Null)
    ensures Pre(sib[..k + j]) == Pre(sib[..k]) + Pre(sib[k..][..j]) && Pre(done + [t]) == Pre(sib[..k + j])
    ensures |Pre(sib[k + j..])| < |Pre(sib[k..])|
  {
    hide Seg, Pre, Distinct;
    var rest := sib[k..];
    var all := Pre(sib[..k + j]);
    DistinctParts([p], Pre(sib));
    assert p in [p];
    PreSplit(sib, k);
    PreSplit(rest, j);
    Taken(sib, k, j);
    assert forall i | i in Pre(rest[..j]) :: i in Pre(sib);
    SameButMore(first, h0, Pre(sib[..k]), all);
    Advance(first, h0, h, all, At(p), h0.next[p], done, par, m, rest, t, j);
    assert SameAt(h0, h, p);
    assert m in [m] && m in Pre([t]);
    Reparent(first, h, all, At(p), h.next[p], done, par, m, t, rest[j..]);
  }

  // what the ids of p and of two parts of a list say about each other
  lemma ListParts(p: nat, all: seq<nat>, done: seq<nat>, rest: seq<nat>)
    requires Distinct([p] + all) && done + rest == all
    ensures Distinct(rest) && Distinct([p] + done) && p !in all && p !in done && p !in rest
  {
    DistinctParts([p], all);
    DistinctParts(done, rest);
    assert p in [p];
    assert ([p] + done) + rest == [p] + all;
    DistinctParts([p] + done, rest);
  }

  lemma FlatBelowMore(f: Forest, t: Tree, shown: nat -> bool)
    requires FlatBelow(f, shown) && Flat(t.kids, shown)
    ensures FlatBelow(f + [t], shown)
  {
  }

  // the entry p after its list was flattened
  lemma Assemble(h0: Heap, h1: Heap, h: Heap, p: nat, par: Ptr, kids: Forest, out: Forest, f: Forest, k: nat)
    requires k <= |f| && SameBut(h0, h1, Pre(f[..k])) && SameBut(h1, h, Pre(kids)) && p < |h1.next|
    requires Pre(f[..k]) == [p] + Pre(kids) && Distinct(Pre(f)) && Pre(out) == Pre(kids)
    requires h1.parent[p] == par && Seg(h1, par, h1.next[p], f[k..], Null)
    requires WellFormed(h) && |h.next| == |h1.next| && Seg(h, At(p), h.list[p], out, Null)
    ensures SameBut(h0, h, Pre(f[..k]))
    ensures Seg(h, par, At(p), [Node(p, out)] + f[k..], Null)
    ensures Pre([Node(p, out)]) == Pre(f[..k])
  {
    hide Seg, Pre, Distinct;
    PreSplit(f, k);
    ListSplit(p, Pre(kids), Pre(f[k..]));
    assert SameAt(h1, h, p);
    SegKept(h1, h, Pre(kids), par, h1.next[p], f[k..], Null);
    SameButChain(h0, h1, h, Pre(f[..k]), Pre(kids), Pre(f[..k]));
    PreOne(Node(p, out));
    SegOne(h, par, Node(p, out));
    SegAppend(h, par, At(p), [Node(p, out)], h.next[p], f[k..], Null);
  }

  // finalizing the children of p leaves p and what follows it as they were
  lemma KidsDone(h0: Heap, h: Heap, p: nat, par: Ptr, f: Forest)
    requires f != [] && f[0].id == p && WellFormed(h0) && Seg(h0, par, At(p), f, Null) && Distinct(Pre(f))
    requires SameBut(h0, h, Pre(f[0].kids))
    ensures p < |h0.next| == |h.next| && h.parent[p] == par && Seg(h, par, h.next[p], f[1..], Null)
    ensures SameBut(h0, h, Pre(f[..1]))
  {
    hide Seg, Pre, Distinct;
    PreHead(f);
    SegHead(h0, par, At(p), f, Null);
    ListSplit(p, Pre(f[0].kids), Pre(f[1..]));
    SegKept(h0, h, Pre(f[0].kids), par, h0.next[p], f[1..], Null);
    assert SameAt(h0, h, p);
    PreOne(f[0]);
    assert f[..1] == [f[0]];
    SameButMore(h0, h, Pre(f[0].kids), Pre(f[..1]));
  }

  lemma ListSplit(p: nat, kids: seq<nat>, rest: seq<nat>)
    requires Distinct([p] + kids + rest)
    ensures Distinct([p] + kids) && Distinct(rest) && p !in kids && p !in rest
    ensures forall i | i in rest :: i !in kids
    ensures Distinct([p] + rest)
  {
    DistinctParts([p] + kids, rest);
    DistinctParts([p], kids);
    assert p in [p];
    assert p in [p] + kids;
    assert forall i | i in kids :: i in [p] + kids;
    assert forall i | 0 < i < |[p] + rest| :: ([p] + rest)[i] == rest[i - 1];
  }

  lemma Smaller(f: Forest, k: nat)
    requires 1 <= k <= |f|
    ensures |Pre(f[k..])| < |Pre(f)| && |Pre(f[0].kids)| < |Pre(f)|
  {
    PreSplit(f, k);
    assert f[..k] != [];
  }

  lemma PreHead(f: Forest)
    requires f != []
    ensures Pre(f) == [f[0].id] + Pre(f[0].kids) + Pre(f[1..])
  {
  }

  lemma FlatEmpty(shown: nat -> bool)
    ensures Flat([], shown) && FlatBelow([], shown)
  {
  }

  lemma FlatOne(t: Tree, shown: nat -> bool)
    requires Flat(t.kids, shown) && (t.kids != [] ==> shown(t.id))
    ensures Flat([t], shown)
  {
    assert [t][1..] == [];
  }

  lemma {:induction false} FlatMembers(f: Forest, shown: nat -> bool)
    requires Flat(f, shown)
    ensures FlatBelow(f, shown)
  {
    if f != [] {
      FlatMembers(f[1..], shown);
      assert forall t | t in f :: t == f[0] || t in f[1..];
    }
  }

  lemma SpliceFlat(rest: Forest, shown: nat -> bool)
    requires rest != [] && FlatBelow(rest, shown)
    ensures FlatBelow([Node(rest[0].id, [])] + (rest[0].kids + rest[1..]), shown)
  {
    assert rest[0] in rest;
    FlatMembers(rest[0].kids, shown);
  }

  lemma StepOver(done: Forest, rest: Forest)
    requires rest != []
    ensures Pre(done + [rest[0]]) + Pre(rest[1..]) == Pre(done) + Pre(rest)
    ensures |Pre(rest[1..])| < |Pre(rest)|
  {
    hide Pre;
    PreAppend(done, [rest[0]]);
    PreOne(rest[0]);
    PreHead(rest);
    Regroup(Pre(done), Pre([rest[0]]), Pre(rest[1..]));
  }

  // the three assignments that put the children of m after it
  lemma SpliceLinks(first: Heap, h: Heap, p: nat, m: nat, kids: Forest, after: Forest, last: nat)
    requires SameBut(first, h, Pre(kids)) && m < |h.next| && kids != [] && last == kids[|kids| - 1].id
    requires h.parent[m] == At(p) && Distinct([m] + Pre(kids) + Pre(after))
    requires Seg(h, At(p), h.list[m], kids, Null) && Seg(h, At(p), h.next[m], after, Null)
    ensures last < |h.next| && last != m
    ensures var h1 := h.(next := h.next[last := h.next[m]]);
      var h2 := h1.(next := h1.next[m := h1.list[m]]);
      var h' := h2.(list := h2.list[m := Null]);
      && SameBut(first, h', [m] + Pre(kids) + Pre(after))
      && Seg(h', At(p), At(m), [Node(m, [])] + (kids + after), Null)
  {
    hide Seg, Pre;
    DistinctParts([m] + Pre(kids), Pre(after));
    DistinctParts([m], Pre(kids));
    assert m in [m] && m in [m] + Pre(kids);
    LastIn(kids);
    assert last in [m] + Pre(kids);
    SegEnd(h, At(p), h.list[m], kids, Null);
    var h1 := h.(next := h.next[last := h.next[m]]);
    var h2 := h1.(next := h1.next[m := h1.list[m]]);
    var h' := h2.(list := h2.list[m := Null]);
    SegRedirect(h, h1, At(p), h.list[m], kids, Null, h.next[m]);
    assert SameBut(h, h1, [last]) && SameBut(h1, h', [m]);
    SegKept(h, h1, [last], At(p), h.next[m], after, Null);
    SegKept(h1, h', [m], At(p), h.list[m], kids, h.next[m]);
    SegKept(h1, h', [m], At(p), h.next[m], after, Null);
    SegAppend(h', At(p), h.list[m], kids, h.next[m], after, Null);
    SegEmpty(h', At(m), Null);
    SegOne(h', At(p), Node(m, []));
    SegAppend(h', At(p), At(m), [Node(m, [])], h.list[m], kids + after, Null);
    var all := [m] + Pre(kids) + Pre(after);
    SameButChain(first, h, h1, Pre(kids), [last], all);
    SameButChain(first, h1, h', all, [m], all);
  }

  // ----- parents and children -----

  function Tops(f: Forest): seq<nat> {
    if f == [] then [] else [f[0].id] + Tops(f[1..])
  }

  ghost predicate IsChild(f: Forest, x: nat, c: nat)
    decreases f
  {
    f != [] && ((f[0].id == x && c in Tops(f[0].kids)) || IsChild(f[0].kids, x, c) || IsChild(f[1..], x, c))
  }

  // what is a parent in f is one in g
  ghost predicate Part(g: Forest, f: Forest) {
    forall x, c | IsChild(f, x, c) :: IsChild(g, x, c)
  }

  lemma PartHead(g: Forest, f: Forest)
    requires f != [] && Part(g, f)
    ensures Part(g, f[0].kids) && Part(g, f[1..])
    ensures forall c | c in Tops(f[0].kids) :: IsChild(g, f[0].id, c)
  {
    assert forall x, c | IsChild(f[0].kids, x, c) || IsChild(f[1..], x, c) :: IsChild(f, x, c);
    assert forall c | c in Tops(f[0].kids) :: IsChild(f, f[0].id, c);
  }

  lemma {:induction false} PartRest(g: Forest, f: Forest, k: nat)
    requires k <= |f| && Part(g, f)
    ensures Part(g, f[k..])
    decreases k
  {
    if k == 0 {
      assert f[k..] == f;
    } else {
      PartHead(g, f);
      PartRest(g, f[1..], k - 1);
      assert f[1..][k - 1..] == f[k..];
    }
  }

  lemma ChildOfOne(m: nat, kids: Forest, x: nat, c: nat)
    requires IsChild([Node(m, kids)], x, c)
    ensures (x == m && c in Tops(kids)) || IsChild(kids, x, c)
  {
    var f := [Node(m, kids)];
    assert f[1..] == [] && f[0] == Node(m, kids);
  }

  lemma ChildOfMore(t: Tree, f: Forest, x: nat, c: nat)
    ensures IsChild([t] + f, x, c) <==> IsChild([t], x, c) || IsChild(f, x, c)
  {
    var g := [t] + f;
    assert g[0] == t && g[1..] == f && [t][0] == t && [t][1..] == [];
  }

  lemma {:induction false} ChildOfBoth(f: Forest, g: Forest, x: nat, c: nat)
    ensures IsChild(f + g, x, c) <==> IsChild(f, x, c) || IsChild(g, x, c)
  {
    if f == [] {
      assert f + g == g;
    } else {
      ChildOfBoth(f[1..], g, x, c);
      assert (f + g)[1..] == f[1..] + g && (f + g)[0] == f[0];
    }
  }

  lemma {:induction false} TopsBoth(f: Forest, g: Forest, c: nat)
    ensures c in Tops(f + g) <==> c in Tops(f) || c in Tops(g)
  {
    if f == [] {
      assert f + g == g;
    } else {
      TopsBoth(f[1..], g, c);
      assert (f + g)[1..] == f[1..] + g && (f + g)[0] == f[0];
    }
  }

  lemma {:induction false} TopsRest(f: Forest, k: nat, c: nat)
    requires k <= |f| && c in Tops(f[k..])
    ensures c in Tops(f)
    decreases k
  {
    if k == 0 {
      assert f[k..] == f;
    } else {
      assert f[1..][k - 1..] == f[k..];
      TopsRest(f[1..], k - 1, c);
    }
  }

  class Menus {
    var h: Heap
    const hasSym: nat -> bool
    const shown: nat -> bool
    // the answer of the dependency test for a symbol entry and a later entry
    const nests: (nat, nat) -> bool
    // the entries in the order they are finalized
    ghost var log: seq<nat>

    constructor (h: Heap, hasSym: nat -> bool, shown: nat -> bool, nests: (nat, nat) -> bool)
      ensures this.h == h && log == []
    {
      this.h := h;
      this.hasSym, this.shown, this.nests := hasSym, shown, nests;
      log := [];
    }

    // ----- what the loops compute, as recursion over the trees -----

    // the first of the trees finalized, and how many of them it takes up
    ghost function Finalized(f: Forest): (r: (Tree, nat))
      requires f != []
      ensures r.0.id == f[0].id && 1 <= r.1 <= |f|
      decreases |Pre(f)|, 1
    {
      var m := f[0].id;
      Smaller(f, 1);
      if f[0].kids != [] then (Node(m, Flattened(Children(f[0].kids))), 1)
      else if hasSym(m) then
        var n := Nested(m, f[1..]);
        (Node(m, Flattened(n.0)), 1 + n.1)
      else (Node(m, []), 1)
    }

    ghost function Children(f: Forest): Forest
      decreases |Pre(f)|, 2
    {
      if f == [] then []
      else
        var r := Finalized(f);
        Smaller(f, r.1);
        [r.0] + Children(f[r.1..])
    }

    // the following entries taken by the symbol entry p, and how many of f they were
    ghost function Nested(p: nat, f: Forest): (r: (Forest, nat))
      ensures r.1 <= |f|
      decreases |Pre(f)|, 2
    {
      if f == [] || !nests(p, f[0].id) then ([], 0)
      else
        var r := Finalized(f);
        Smaller(f, r.1);
        var n := Nested(p, f[r.1..]);
        ([r.0] + n.0, r.1 + n.1)
    }

    // entries without prompt text are followed by their children
    ghost function Flattened(f: Forest): Forest
      decreases |Pre(f)|
    {
      if f == [] then []
      else if f[0].kids != [] && !shown(f[0].id) then
        PreAppend(f[0].kids, f[1..]);
        [Node(f[0].id, [])] + Flattened(f[0].kids + f[1..])
      else
        [f[0]] + Flattened(f[1..])
    }

    // Re-nesting and flattening keep the preorder of the entries.
    lemma {:induction false} FinalizedKeepsOrder(f: Forest)
      requires f != []
      ensures Pre([Finalized(f).0]) == Pre(f[..Finalized(f).1])
      decreases |Pre(f)|, 1
    {
      hide Pre;
      Smaller(f, 1);
      PreEmpty();
      PreOne(f[0]);
      PreOne(Finalized(f).0);
      assert f[..1] == [f[0]];
      if f[0].kids != [] {
        ChildrenKeepOrder(f[0].kids);
        FlattenedKeepsOrder(Children(f[0].kids));
      } else if hasSym(f[0].id) {
        var n := Nested(f[0].id, f[1..]);
        NestedKeepsOrder(f[0].id, f[1..]);
        FlattenedKeepsOrder(n.0);
        Taken(f, 1, n.1);
      }
    }

    lemma {:induction false} ChildrenKeepOrder(f: Forest)
      ensures Pre(Children(f)) == Pre(f)
      decreases |Pre(f)|, 2
    {
      hide Pre, Finalized;
      if f != [] {
        var r := Finalized(f);
        Smaller(f, r.1);
        FinalizedKeepsOrder(f);
        ChildrenKeepOrder(f[r.1..]);
        PreAppend([r.0], Children(f[r.1..]));
        PreSplit(f, r.1);
      }
    }

    lemma {:induction false} NestedKeepsOrder(p: nat, f: Forest)
      ensures Pre(Nested(p, f).0) == Pre(f[..Nested(p, f).1])
      decreases |Pre(f)|, 2
    {
      hide Pre, Finalized;
      if f != [] && nests(p, f[0].id) {
        var r := Finalized(f);
        Smaller(f, r.1);
        FinalizedKeepsOrder(f);
        NestedKeepsOrder(p, f[r.1..]);
        var n := Nested(p, f[r.1..]);
        PreAppend([r.0], n.0);
        Taken(f, r.1, n.1);
      } else {
        assert f[..0] == [];
      }
    }

    lemma {:induction false} FlattenedKeepsOrder(f: Forest)
      ensures Pre(Flattened(f)) == Pre(f)
      decreases |Pre(f)|
    {
      hide Pre;
      if f != [] {
        Smaller(f, 1);
        PreHead(f);
        PreEmpty();
        if f[0].kids != [] && !shown(f[0].id) {
          PreAppend(f[0].kids, f[1..]);
          FlattenedKeepsOrder(f[0].kids + f[1..]);
          var t := Node(f[0].id, []);
          PreAppend([t], Flattened(f[0].kids + f[1..]));
          PreOne(t);
          Regroup([f[0].id], Pre(f[0].kids), Pre(f[1..]));
        } else {
          FlattenedKeepsOrder(f[1..]);
          PreAppend([f[0]], Flattened(f[1..]));
          PreOne(f[0]);
        }
      }
    }

    // An entry takes the next one exactly if it has no children, has a symbol and
    // the test holds, and it stops exactly where the test fails.
    lemma TakesFollowers(f: Forest)
      requires f != []
      ensures var (t, k) := Finalized(f);
        && (k > 1 <==> |f| > 1 && f[0].kids == [] && hasSym(f[0].id) && nests(f[0].id, f[1].id))
        && (k < |f| && f[0].kids == [] && hasSym(f[0].id) ==> !nests(f[0].id, f[k].id))
    {
      if f[0].kids == [] && hasSym(f[0].id) {
        Smaller(f, 1);
        NestedStops(f[0].id, f[1..]);
      }
    }

    lemma {:induction false} NestedStops(p: nat, f: Forest)
      ensures var k := Nested(p, f).1;
        && (k > 0 <==> f != [] && nests(p, f[0].id))
        && (k < |f| ==> !nests(p, f[k].id))
      decreases |Pre(f)|, 2
    {
      if f != [] && nests(p, f[0].id) {
        var r := Finalized(f);
        Smaller(f, r.1);
        hide Finalized, Nested;
        NestedStops(p, f[r.1..]);
        NestedMore(p, f);
      }
    }

    lemma NestedMore(p: nat, f: Forest)
      requires f != [] && nests(p, f[0].id)
      ensures Nested(p, f).1 == Finalized(f).1 + Nested(p, f[Finalized(f).1..]).1
    {
      hide Finalized;
    }

    // y had c among its children, or took it
    ghost predicate Held(g: Forest, y: nat, c: nat) {
      IsChild(g, y, c) || (hasSym(y) && nests(y, c))
    }

    // c belongs below x, or below an entry without prompt text
    ghost predicate Placed(g: Forest, x: nat, c: nat) {
      exists y :: Held(g, y, c) && (y == x || !shown(y))
    }

    // Whoever is the parent of an entry afterwards was its parent before or took
    // it, unless the one that was or did has no prompt text.
    lemma ParentsArePlaced(f: Forest, x: nat, c: nat)
      requires f != [] && IsChild([Finalized(f).0], x, c)
      ensures Placed(f, x, c)
    {
      assert forall y, d | IsChild(f, y, d) :: IsChild(f, y, d);
      FinalizedPlaced(f, f, x, c);
    }

    lemma {:induction false} FinalizedPlaced(g: Forest, f: Forest, x: nat, c: nat)
      requires f != [] && IsChild([Finalized(f).0], x, c) && Part(g, f)
      ensures Placed(g, x, c)
      decreases |Pre(f)|, 1
    {
      hide Pre, Finalized;
      Smaller(f, 1);
      PartHead(g, f);
      var m, kids := f[0].id, f[0].kids;
      if kids != [] {
        FinalizedIs(f);
        ChildOfOne(m, Flattened(Children(kids)), x, c);
        if x == m && c in Tops(Flattened(Children(kids))) {
          var y := FlattenedTop(Children(kids), c);
          if c in Tops(Children(kids)) {
            ChildrenTops(kids, c);
            assert Held(g, m, c);
          } else {
            ChildrenPlaced(g, kids, y, c);
          }
        } else {
          FlattenedChild(Children(kids), x, c);
          ChildrenPlaced(g, kids, x, c);
        }
      } else if hasSym(m) {
        FinalizedIs(f);
        var n := Nested(m, f[1..]);
        ChildOfOne(m, Flattened(n.0), x, c);
        if x == m && c in Tops(Flattened(n.0)) {
          var y := FlattenedTop(n.0, c);
          if c in Tops(n.0) {
            NestedTops(m, f[1..], c);
            assert Held(g, m, c);
          } else {
            NestedPlaced(g, m, f[1..], y, c);
          }
        } else {
          FlattenedChild(n.0, x, c);
          NestedPlaced(g, m, f[1..], x, c);
        }
      } else {
        FinalizedIs(f);
      }
    }

    lemma FinalizedIs(f: Forest)
      requires f != []
      ensures Finalized(f).0 ==
        if f[0].kids != [] then Node(f[0].id, Flattened(Children(f[0].kids)))
        else if hasSym(f[0].id) then Node(f[0].id, Flattened(Nested(f[0].id, f[1..]).0))
        else Node(f[0].id, [])
    {
      Smaller(f, 1);
    }

    lemma {:induction false} ChildrenPlaced(g: Forest, f: Forest, x: nat, c: nat)
      requires IsChild(Children(f), x, c) && Part(g, f)
      ensures Placed(g, x, c)
      decreases |Pre(f)|, 2
    {
      hide Pre, Finalized;
      var r := Finalized(f);
      Smaller(f, r.1);
      PartRest(g, f, r.1);
      ChildOfMore(r.0, Children(f[r.1..]), x, c);
      if IsChild([r.0], x, c) {
        FinalizedPlaced(g, f, x, c);
      } else {
        ChildrenPlaced(g, f[r.1..], x, c);
      }
    }

    lemma {:induction false} NestedPlaced(g: Forest, p: nat, f: Forest, x: nat, c: nat)
      requires IsChild(Nested(p, f).0, x, c) && Part(g, f)
      ensures Placed(g, x, c)
      decreases |Pre(f)|, 2
    {
      hide Pre, Finalized;
      var r := Finalized(f);
      Smaller(f, r.1);
      PartRest(g, f, r.1);
      ChildOfMore(r.0, Nested(p, f[r.1..]).0, x, c);
      if IsChild([r.0], x, c) {
        FinalizedPlaced(g, f, x, c);
      } else {
        NestedPlaced(g, p, f[r.1..], x, c);
      }
    }

    lemma {:induction false} ChildrenTops(f: Forest, c: nat)
      requires c in Tops(Children(f))
      ensures c in Tops(f)
      decreases |Pre(f)|, 2
    {
      hide Pre, Finalized;
      var r := Finalized(f);
      Smaller(f, r.1);
      if c != r.0.id {
        ChildrenTops(f[r.1..], c);
        TopsRest(f, r.1, c);
      }
    }

    lemma {:induction false} NestedTops(p: nat, f: Forest, c: nat)
      requires c in Tops(Nested(p, f).0)
      ensures nests(p, c)
      decreases |Pre(f)|, 2
    {
      hide Pre, Finalized;
      var r := Finalized(f);
      Smaller(f, r.1);
      if c != r.0.id {
        NestedTops(p, f[r.1..], c);
      }
    }

    // flattening moves children up only
    lemma {:induction false} FlattenedChild(f: Forest, x: nat, c: nat)
      requires IsChild(Flattened(f), x, c)
      ensures IsChild(f, x, c)
      decreases |Pre(f)|
    {
      if f[0].kids != [] && !shown(f[0].id) {
        PreAppend(f[0].kids, f[1..]);
        var more := f[0].kids + f[1..];
        ChildOfMore(Node(f[0].id, []), Flattened(more), x, c);
        FlattenedChild(more, x, c);
        ChildOfBoth(f[0].kids, f[1..], x, c);
      } else {
        ChildOfMore(f[0], Flattened(f[1..]), x, c);
        if IsChild(Flattened(f[1..]), x, c) {
          FlattenedChild(f[1..], x, c);
        }
      }
    }

    // and from entries without prompt text
    lemma {:induction false} FlattenedTop(f: Forest, c: nat) returns (y: nat)
      requires c in Tops(Flattened(f))
      ensures c in Tops(f) || (!shown(y) && IsChild(f, y, c))
      decreases |Pre(f)|
    {
      y := f[0].id;
      if c != y {
        if f[0].kids != [] && !shown(f[0].id) {
          PreAppend(f[0].kids, f[1..]);
          var more := f[0].kids + f[1..];
          var z := FlattenedTop(more, c);
          TopsBoth(f[0].kids, f[1..], c);
          if c !in Tops(more) {
            ChildOfBoth(f[0].kids, f[1..], z, c);
            y := z;
          }
        } else {
          y := FlattenedTop(f[1..], c);
        }
      }
    }

    lemma ChildrenStep(done: Forest, rest: Forest)
      requires rest != []
      ensures var r := Finalized(rest);
        done + Children(rest) == done + [r.0] + Children(rest[r.1..])
    {
    }

    lemma NestedStep(p: nat, sib: Forest, k: nat, out: Forest)
      requires k < |sib|
      ensures var n := Nested(p, sib[k..]);
        if nests(p, sib[k].id) then
          var r := Finalized(sib[k..]);
          var n' := Nested(p, sib[k + r.1..]);
          out + n.0 == out + [r.0] + n'.0 && n.1 == r.1 + n'.1
        else n == ([], 0)
    {
      hide Finalized;
      var r := Finalized(sib[k..]);
      assert sib[k..][r.1..] == sib[k + r.1..];
    }

    lemma ChildrenNone()
      ensures Children([]) == []
    {
    }

    lemma FlattenedNone()
      ensures Flattened([]) == []
    {
    }

    lemma NestedNone(p: nat)
      ensures Nested(p, []) == ([], 0)
    {
    }

    lemma FlattenedStep(done: Forest, rest: Forest)
      requires rest != [] && (rest[0].kids == [] || shown(rest[0].id))
      ensures done + Flattened(rest) == done + [rest[0]] + Flattened(rest[1..])
    {
      assert Flattened(rest) == [rest[0]] + Flattened(rest[1..]);
      hide Flattened;
      RegroupTrees(done, [rest[0]], Flattened(rest[1..]));
    }

    lemma FlattenedSplice(rest: Forest)
      requires rest != [] && rest[0].kids != [] && !shown(rest[0].id)
      ensures Flattened(rest) == Flattened([Node(rest[0].id, [])] + (rest[0].kids + rest[1..]))
    {
      var rest' := [Node(rest[0].id, [])] + (rest[0].kids + rest[1..]);
      assert rest'[1..] == rest[0].kids + rest[1..];
    }

    // the first branch: finalize every child; children may take their
    // following siblings
    method FinalizeKids(p: nat, ghost kids: Forest) returns (ghost out: Forest)
      requires WellFormed(h) && p < |h.next| && Seg(h, At(p), h.list[p], kids, Null) && Distinct([p] + Pre(kids))
      modifies this`h, this`log
      ensures WellFormed(h) && |h.next| == |old(h).next|
      ensures SameBut(old(h), h, Pre(kids))
      ensures Seg(h, At(p), h.list[p], out, Null) && Pre(out) == Pre(kids)
      ensures log == old(log) + Pre(kids)
      ensures FlatBelow(out, shown)
      ensures out == Children(kids)
      decreases |Pre(kids)|, 2
    {
      hide Seg, Pre, Flat, FlatBelow, Distinct, SameBut, Finalized, Children, Nested, Flattened;
      PreEmpty();
      ListParts(p, Pre(kids), [], Pre(kids));
      SegEmpty(h, At(p), h.list[p]);
      SameButSelf(h, Pre(kids));
      FlatEmpty(shown);
      var menu := h.list[p];
      ghost var done, rest := [], kids;
      while menu.At?
        invariant SameBut(old(h), h, Pre(kids)) && WellFormed(h) && p < |h.next| == |old(h).next|
        invariant Seg(h, At(p), h.list[p], done, menu) && Seg(h, At(p), menu, rest, Null)
        invariant Pre(done) + Pre(rest) == Pre(kids)
        invariant log == old(log) + Pre(done)
        invariant FlatBelow(done, shown)
        invariant done + Children(rest) == Children(kids)
        decreases |Pre(rest)|
      {
        ghost var h0 := h;
        ListParts(p, Pre(kids), Pre(done), Pre(rest));
        SegNonEmpty(h, At(p), menu, rest);
        ghost var t, k := Finalize(menu.id, At(p), rest);
        ChildDone(old(h), h0, h, p, kids, done, menu.id, rest, t, k);
        FlatBelowMore(done, t, shown);
        ChildrenStep(done, rest);
        done, rest := done + [t], rest[k..];
        menu := h.next[menu.id];
      }
      SegNull(h, At(p), rest);
      out := done;
      ChildrenNone();
    }

    // the second branch: following entries that depend on the symbol of p
    // become its children, as long as the test holds
    method NestSiblings(p: nat, ghost par: Ptr, ghost sib: Forest) returns (ghost out: Forest, ghost k: nat)
      requires WellFormed(h) && p < |h.next| && h.list[p] == Null
      requires Seg(h, par, h.next[p], sib, Null) && Distinct([p] + Pre(sib))
      modifies this`h, this`log
      ensures WellFormed(h) && |h.next| == |old(h).next|
      ensures k <= |sib| && SameBut(old(h), h, [p] + Pre(sib[..k])) && h.parent[p] == old(h.parent[p])
      ensures Seg(h, At(p), h.list[p], out, Null) && Seg(h, par, h.next[p], sib[k..], Null)
      ensures Pre(out) == Pre(sib[..k])
      ensures log == old(log) + Pre(sib[..k])
      ensures FlatBelow(out, shown)
      ensures (out, k) == Nested(p, sib)
      decreases |Pre(sib)|, 2
    {
      hide Seg, Pre, Flat, FlatBelow, Distinct, SameBut, Finalized, Children, Nested, Flattened;
      PreEmpty();
      SegEmpty(h, At(p), h.next[p]);
      SameButSelf(h, []);
      FlatEmpty(shown);
      var menu, last := h.next[p], Null;
      out, k := [], 0;
      assert sib[..0] == [] && sib[0..] == sib;
      while menu.At?
        invariant k <= |sib| && SameBut(old(h), h, Pre(sib[..k])) && WellFormed(h) && p < |h.next| == |old(h).next|
        invariant h.list[p] == Null && h.parent[p] == old(h.parent[p])
        invariant Seg(h, At(p), h.next[p], out, menu) && Seg(h, par, menu, sib[k..], Null)
        invariant Pre(out) == Pre(sib[..k])
        invariant log == old(log) + Pre(out)
        invariant FlatBelow(out, shown)
        invariant out + Nested(p, sib[k..]).0 == Nested(p, sib).0
        invariant k + Nested(p, sib[k..]).1 == Nested(p, sib).1
        invariant last == if out == [] then Null else At(out[|out| - 1].id)
        decreases |Pre(sib[k..])|
      {
        SegNonEmpty(h, par, menu, sib[k..]);
        NestedStep(p, sib, k, out);
        assert sib[k..][0] == sib[k];
        if !nests(p, menu.id) {
          assert Nested(p, sib[k..]) == ([], 0);
          break;
        }
        ghost var h0 := h;
        PreSplit(sib, k);
        ListParts(p, Pre(sib), Pre(sib[..k]), Pre(sib[k..]));
        ghost var t, j := Finalize(menu.id, par, sib[k..]);
        SiblingTaken(old(h), h0, h, p, par, sib, k, out, menu.id, t, j);
        FlatBelowMore(out, t, shown);
        h := h.(parent := h.parent[menu.id := At(p)]);
        last := menu;
        out, k := out + [t], k + j;
        menu := h.next[menu.id];
      }
      PreSplit(sib, k);
      if menu == Null {
        SegNull(h, par, sib[k..]);
        NestedNone(p);
      }
      assert Nested(p, sib[k..]) == ([], 0);
      assert Nested(p, sib).0 == out && Nested(p, sib).1 == k;
      if last.At? {
        Relink(old(h), h, p, par, out, menu, sib, k);
        h := h.(list := h.list[p := h.next[p]]);
        h := h.(next := h.next[p := h.next[last.id]]);
        h := h.(next := h.next[last.id := Null]);
      } else {
        SegAtEnd(h, At(p), h.next[p], menu);
        SegEmpty(h, At(p), Null);
        SameButMore(old(h), h, Pre(sib[..k]), [p] + Pre(sib[..k]));
      }
    }

    // the last loop: an entry without a prompt text gives its children to p;
    // they follow it in the list, and are looked at next
    method Flatten(p: nat, ghost kids: Forest) returns (ghost out: Forest)
      requires WellFormed(h) && p < |h.next| && Seg(h, At(p), h.list[p], kids, Null) && Distinct([p] + Pre(kids))
      requires FlatBelow(kids, shown)
      modifies this`h
      ensures WellFormed(h) && |h.next| == |old(h).next|
      ensures SameBut(old(h), h, Pre(kids))
      ensures Seg(h, At(p), h.list[p], out, Null) && Pre(out) == Pre(kids)
      ensures Flat(out, shown)
      ensures out == Flattened(kids)
    {
      hide Seg, Pre, Flat;
      DistinctParts([p], Pre(kids));
      assert p in [p];
      PreEmpty();
      FlatEmpty(shown);
      SegEmpty(h, At(p), h.list[p]);
      var menu := h.list[p];
      ghost var done, rest := [], kids;
      while menu.At?
        invariant SameBut(old(h), h, Pre(kids)) && h.list[p] == old(h.list[p])
        invariant Seg(h, At(p), h.list[p], done, menu) && Seg(h, At(p), menu, rest, Null)
        invariant Pre(done) + Pre(rest) == Pre(kids)
        invariant Flat(done, shown) && FlatBelow(rest, shown)
        invariant done + Flattened(rest) == Flattened(kids)
        decreases |Pre(rest)|
      {
        ghost var h0 := h;
        DistinctParts(Pre(done), Pre(rest));
        assert forall i | i in Pre(rest) :: i in Pre(done) + Pre(rest);
        SegNonEmpty(h, At(p), menu, rest);
        SegHead(h, At(p), menu, rest, Null);
        if h.list[menu.id].At? && !shown(menu.id) {
          Splice(p, menu.id, rest);
          SegKept(h0, h, Pre(rest), At(p), h.list[p], done, menu);
          SameButChain(old(h), h0, h, Pre(kids), Pre(rest), Pre(kids));
          SpliceFlat(rest, shown);
          FlattenedSplice(rest);
          rest := [Node(menu.id, [])] + (rest[0].kids + rest[1..]);
          SegHead(h, At(p), menu, rest, Null);
        } else if h.list[menu.id] == Null {
          SegNull(h, menu, rest[0].kids);
        } else {
          SegNonEmpty(h, menu, h.list[menu.id], rest[0].kids);
        }
        FlatOne(rest[0], shown);
        FlatAppend(done, [rest[0]], shown);
        SegOne(h, At(p), rest[0]);
        SegAppend(h, At(p), h.list[p], done, menu, [rest[0]], h.next[menu.id]);
        StepOver(done, rest);
        FlattenedStep(done, rest);
        done, rest := done + [rest[0]], rest[1..];
        menu := h.next[menu.id];
      }
      SegNull(h, At(p), rest);
      out := done;
      assert Flattened([]) == [];
    }

    // the children of m are put between m and the entry after it
    method Splice(p: nat, m: nat, ghost rest: Forest)
      requires WellFormed(h) && rest != [] && rest[0].id == m < |h.next| && h.list[m].At?
      requires Seg(h, At(p), At(m), rest, Null) && Distinct(Pre(rest))
      modifies this`h
      ensures WellFormed(h) && |h.next| == |old(h).next|
      ensures SameBut(old(h), h, Pre(rest))
      ensures Seg(h, At(p), At(m), [Node(m, [])] + (rest[0].kids + rest[1..]), Null)
      ensures Pre([Node(m, [])] + (rest[0].kids + rest[1..])) == Pre(rest)
    {
      hide Seg, Pre;
      ghost var kids, after := rest[0].kids, rest[1..];
      PreHead(rest);
      PreAppend(kids, after);
      PreHead([Node(m, [])] + (kids + after));
      PreEmpty();
      Regroup([m], Pre(kids), Pre(after));
      DistinctParts([m] + Pre(kids), Pre(after));
      DistinctParts([m], Pre(kids));
      assert m in [m] && m in [m] + Pre(kids);
      SegHead(h, At(p), At(m), rest, Null);
      SegNonEmpty(h, At(m), h.list[m], kids);
      SegEmpty(h, At(p), h.list[m]);
      var last := h.list[m].id;
      ghost var moved, left := [], kids;
      while true
        invariant SameBut(old(h), h, Pre(kids)) && SameAt(old(h), h, m)
        invariant Seg(h, At(p), h.list[m], moved, At(last)) && Seg(h, At(m), At(last), left, Null)
        invariant moved + left == kids && left != []
        decreases |left|
      {
        ghost var t := left[0];
        ChildMoved(old(h), h, p, m, kids, moved, last, left);
        h := h.(parent := h.parent[last := At(p)]);
        moved, left := moved + [t], left[1..];
        if h.next[last] == Null {
          SegNull(h, At(m), left);
          break;
        }
        SegNonEmpty(h, At(m), h.next[last], left);
        last := h.next[last].id;
      }
      assert moved == kids;
      SegKept(old(h), h, Pre(kids), At(p), h.next[m], after, Null);
      SpliceLinks(old(h), h, p, m, kids, after, last);
      h := h.(next := h.next[last := h.next[m]]);
      h := h.(next := h.next[m := h.list[m]]);
      h := h.(list := h.list[m := Null]);
    }

    // menu_finalize of the entry p, the first of the trees f below par. It
    // may take following entries as children of p; the others are not touched.
    method Finalize(p: nat, ghost par: Ptr, ghost f: Forest) returns (ghost t: Tree, ghost k: nat)
      requires WellFormed(h) && f != [] && f[0].id == p && Seg(h, par, At(p), f, Null) && Distinct(Pre(f))
      modifies this`h, this`log
      ensures 1 <= k <= |f| && t.id == p
      ensures WellFormed(h) && |h.next| == |old(h).next|
      ensures SameBut(old(h), h, Pre(f[..k]))
      ensures Seg(h, par, At(p), [t] + f[k..], Null)
      ensures Pre([t]) == Pre(f[..k])
      ensures log == old(log) + Pre(f[..k])
      ensures Flat(t.kids, shown)
      ensures (t, k) == Finalized(f)
      decreases |Pre(f)|, 1
    {
      hide Seg, Pre, Flat, FlatBelow, Distinct, SameBut, Children, Nested, Flattened;
      PreHead(f);
      ListSplit(p, Pre(f[0].kids), Pre(f[1..]));
      SegHead(h, par, At(p), f, Null);
      ghost var h0 := h;
      log := log + [p];
      ghost var kids, j := [], 0;
      PreEmpty();
      Taken(f, 1, 0);
      PreOne(f[0]);
      assert f[..1] == [f[0]] && f[1..][..0] == [] && f[1..][0..] == f[1..];
      SameButSelf(h, Pre(f[..1]));
      FlatEmpty(shown);
      FlattenedNone();
      if h.list[p].At? {
        SegNonEmpty(h, At(p), h.list[p], f[0].kids);
        kids := FinalizeKids(p, f[0].kids);
        KidsDone(h0, h, p, par, f);
      } else {
        SegNull(h, At(p), f[0].kids);
        SegEmpty(h, At(p), Null);
        if hasSym(p) {
          kids, j := NestSiblings(p, par, f[1..]);
          Taken(f, 1, j);
        }
      }
      ghost var h1 := h;
      PreSplit(f, 1 + j);
      assert Pre(f[..1 + j]) == [p] + Pre(kids);
      DistinctParts([p] + Pre(kids), Pre(f[1 + j..]));
      ghost var out := Flatten(p, kids);
      Assemble(h0, h1, h, p, par, kids, out, f, 1 + j);
      t, k := Node(p, out), 1 + j;
    }

    // menu_finalize of the root and then the walk of conf_write: every entry
    // is finalized once and visited once, both in the order of the input.
    method FinalizeAndWalk(root: nat, ghost f: Forest) returns (visited: seq<nat>, ghost t: Tree)
      requires WellFormed(h) && root < |h.next| && h.next[root] == Null && h.parent[root] == Null
      requires Seg(h, At(root), h.list[root], f, Null) && Distinct([root] + Pre(f)) && log == []
      modifies this`h, this`log
      ensures WellFormed(h) && |h.next| == |old(h).next| && SameBut(old(h), h, [root] + Pre(f))
      ensures Seg(h, Null, At(root), [t], Null) && Flat(t.kids, shown)
      ensures t == Finalized([Node(root, f)]).0
      ensures visited == Pre(f) && log == [root] + Pre(f)
    {
      hide Seg, Pre, Flat, Finalized, SameBut;
      ghost var all := [Node(root, f)];
      PreOne(all[0]);
      SegOne(h, Null, all[0]);
      ghost var k;
      t, k := Finalize(root, Null, all);
      assert all[..k] == all && [t] + all[k..] == [t];
      SegHead(h, Null, At(root), [t], Null);
      SegAtEnd(h, Null, h.next[root], Null);
      PreOne(t);
      visited := Walk(h, root, t.kids);
      assert [root] + Pre(t.kids) == [root] + Pre(f);
      assert visited == ([root] + visited)[1..] == ([root] + Pre(f))[1..];
    }
  }
}
