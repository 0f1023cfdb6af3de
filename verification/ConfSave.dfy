/** Finalizing the menus, writing the configuration file along the finished
    tree, and reading it back. */
module ConfSave {
  import opened Options
  import opened ExprCore
  import opened MenuTree
  import opened ConfText
  import opened ConfRead
  import opened ConfWrite

  // the entries met by the walk, without the hidden ones
  ghost function Met(ids: seq<nat>, hidden: nat -> bool, entry: nat -> Entry): seq<Entry> {
    if ids == [] then []
    else Met(ids[..|ids| - 1], hidden, entry) + if hidden(ids[|ids| - 1]) then [] else [entry(ids[|ids| - 1])]
  }

  lemma {:induction false} MetIs(ids: seq<nat>, hidden: nat -> bool, entry: nat -> Entry, e: Entry)
    ensures e in Met(ids, hidden, entry) <==> exists i | i in ids :: !hidden(i) && entry(i) == e
  {
    if ids != [] {
      var before, last := ids[..|ids| - 1], ids[|ids| - 1];
      MetIs(before, hidden, entry, e);
      assert forall i | i in ids :: i in before || i == last;
      assert last in ids && forall i | i in before :: i in ids;
    }
  }

  method Collect(ids: seq<nat>, hidden: nat -> bool, entry: nat -> Entry) returns (entries: seq<Entry>)
    ensures entries == Met(ids, hidden, entry)
  {
    entries := [];
    var k := 0;
    while k < |ids|
      invariant k <= |ids| && entries == Met(ids[..k], hidden, entry)
    {
      assert ids[..k + 1][..k] == ids[..k];
      if !hidden(ids[k]) {
        entries := entries + [entry(ids[k])];
      }
      k := k + 1;
    }
    assert ids[..k] == ids;
  }

  // what the entries of a forest must be for the file to be readable
  ghost predicate AllReadable(f: Forest, hidden: nat -> bool, entry: nat -> Entry, types: map<string, SymType>, values: map<string, Value>,
      written: set<string>) {
    types.Keys == values.Keys && forall i | i in Pre(f) && !hidden(i) ::
      match entry(i)
      case Title(t) => TitleOk(types, t)
      case Item(n) => n in types && (n in written ==> Printable(types[n], n, values[n]))
  }

  // However menu_finalize nests the entries, every symbol to be written that
  // has an entry anywhere is in the file and gets its value back.
  method SaveMenus(menus: Menus, root: nat, ghost f: Forest, hidden: nat -> bool, entry: nat -> Entry,
      types: map<string, SymType>, values: map<string, Value>, written: set<string>, version: string, stamp: Option<string>)
    returns (reader: Reader)
    requires MenuTree.WellFormed(menus.h) && root < |menus.h.next|
    requires menus.h.next[root] == Null && menus.h.parent[root] == Null
    requires Seg(menus.h, At(root), menus.h.list[root], f, Null) && Distinct([root] + Pre(f)) && menus.log == []
    requires AllReadable(f, hidden, entry, types, values, written)
    requires TitleOk(types, VersionText(version)) && (stamp.Some? ==> TitleOk(types, stamp.value))
    modifies menus`h, menus`log
    ensures reader.types == types && reader.saved.Keys == types.Keys && reader.warnings == 0
    ensures forall n | n in types ::
      if n in written && IsPrinted(types[n]) && exists i | i in Pre(f) :: !hidden(i) && entry(i) == Item(n)
      then Restored(types[n], values[n], reader.saved[n])
      else reader.saved[n] == Saved(0, None, true)
  {
    hide Seg, Pre, Met, Restored, Printable, TitleOk;
    var visited, t := menus.FinalizeAndWalk(root, f);
    var entries := Collect(visited, hidden, entry);
    forall e | e in entries
      ensures exists i | i in Pre(f) :: !hidden(i) && entry(i) == e
    {
      MetIs(visited, hidden, entry, e);
    }
    assert Covered(entries, types, values);
    reader := SaveAndLoad(entries, types, values, written, version, stamp);
    forall n | n in types
      ensures Item(n) in entries <==> exists i | i in Pre(f) :: !hidden(i) && entry(i) == Item(n)
    {
      MetIs(visited, hidden, entry, Item(n));
    }
  }
}
