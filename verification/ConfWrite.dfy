/** Writing the configuration file, and reading it back. */
module ConfWrite {
  import opened Options
  import opened ExprCore
  import opened ConfText
  import opened ConfRead

  // the value of a symbol: its tristate, or its text
  datatype Value = Value(tri: Tristate, text: string)

  // what the walk over the menu meets: a visible entry with a title, or a symbol
  datatype Entry = Title(text: string) | Item(name: string)

  function Printed(stype: SymType, name: string, v: Value): string {
    match stype
    case Boolean => PrintedTristate(name, v.tri)
    case Tristated => PrintedTristate(name, v.tri)
    case String => Assignment(name, "\"" + Escape(v.text) + "\"") + "\n"
    case Int => Assignment(name, v.text) + "\n"
    case Hex => Assignment(name, v.text) + "\n"
    case _ => ""
  }

  function PrintedTristate(name: string, t: Tristate): string {
    if t == 0 then UnsetLine(name) + "\n"
    else if t == 1 then Assignment(name, "m") + "\n"
    else Assignment(name, "y") + "\n"
  }

  function UnsetLine(name: string): string {
    "# " + (Prefix() + (name + (" " + NotSet())))
  }

  function Assignment(name: string, p: string): string {
    Prefix() + (name + ("=" + p))
  }

  // The entries from a position on; pending holds the symbols that have the
  // WRITE flag, which printing takes away.
  ghost function PrintedAll(entries: seq<Entry>, types: map<string, SymType>, values: map<string, Value>, pending: set<string>): string
    requires Covered(entries, types, values)
  {
    if entries == [] then ""
    else
      match entries[0]
      case Title(text) => PrintedTitle(text) + PrintedAll(entries[1..], types, values, pending)
      case Item(n) =>
        if n in pending then Printed(types[n], n, values[n]) + PrintedAll(entries[1..], types, values, pending - {n})
        else PrintedAll(entries[1..], types, values, pending)
  }

  function PrintedTitle(text: string): string {
    "\n#\n# " + text + "\n#\n"
  }

  ghost predicate Covered(entries: seq<Entry>, types: map<string, SymType>, values: map<string, Value>) {
    types.Keys == values.Keys && forall e | e in entries && e.Item? :: e.name in types
  }

  method WriteEntries(entries: seq<Entry>, types: map<string, SymType>, values: map<string, Value>, written: set<string>)
    returns (out: string, pending: set<string>)
    requires Covered(entries, types, values)
    ensures out == PrintedAll(entries, types, values, written)
    ensures pending == written - set e | e in entries && e.Item? :: e.name
  {
    hide Printed, PrintedTitle, PrintedAll;
    out, pending := "", written;
    var i := 0;
    assert entries[0..] == entries;
    while i < |entries|
      invariant i <= |entries| && Covered(entries[i..], types, values)
      invariant out + PrintedAll(entries[i..], types, values, pending) == PrintedAll(entries, types, values, written)
      invariant pending == written - set e | e in entries[..i] && e.Item? :: e.name
    {
      var e := entries[i];
      PrintedStep(entries, i, types, values, pending, out);
      assert entries[..i + 1] == entries[..i] + [e];
      match e {
        case Title(text) => out := out + PrintedTitle(text);
        case Item(n) =>
          if n in pending {
            pending := pending - {n};
            var line := WriteSymbol(types[n], n, values[n]);
            out := out + line;
          }
      }
      i := i + 1;
    }
    assert entries[..i] == entries;
    PrintedNothing(entries[i..], types, values, pending);
  }

  lemma PrintedStep(entries: seq<Entry>, i: nat, types: map<string, SymType>, values: map<string, Value>, pending: set<string>, out: string)
    requires i < |entries| && Covered(entries[i..], types, values)
    ensures Covered(entries[i + 1..], types, values)
    ensures var e := entries[i];
      out + PrintedAll(entries[i..], types, values, pending) ==
        if e.Title? then out + PrintedTitle(e.text) + PrintedAll(entries[i + 1..], types, values, pending)
        else if e.name in pending then
          out + Printed(types[e.name], e.name, values[e.name]) + PrintedAll(entries[i + 1..], types, values, pending - {e.name})
        else out + PrintedAll(entries[i + 1..], types, values, pending)
  {
    hide Printed, PrintedTitle;
    assert entries[i..][1..] == entries[i + 1..] && entries[i..][0] == entries[i] && entries[i] in entries[i..];
  }

  lemma PrintedNothing(entries: seq<Entry>, types: map<string, SymType>, values: map<string, Value>, pending: set<string>)
    requires entries == [] && Covered(entries, types, values)
    ensures PrintedAll(entries, types, values, pending) == []
  {
  }

  // what an entry adds behind others: a title its lines, and a symbol its line
  // if it is to be written and was not met before
  ghost function Added(entries: seq<Entry>, e: Entry, types: map<string, SymType>, values: map<string, Value>, pending: set<string>): string
    requires types.Keys == values.Keys && (e.Item? ==> e.name in types)
  {
    if e.Title? then "\n#\n# " + e.text + "\n#\n"
    else if e.name in pending && e !in entries then Printed(types[e.name], e.name, values[e.name])
    else ""
  }

  lemma {:induction false} PrintedLast(entries: seq<Entry>, e: Entry, types: map<string, SymType>, values: map<string, Value>, pending: set<string>)
    requires Covered(entries + [e], types, values)
    ensures Covered(entries, types, values) && (e.Item? ==> e.name in types)
    ensures PrintedAll(entries + [e], types, values, pending) ==
      PrintedAll(entries, types, values, pending) + Added(entries, e, types, values, pending)
  {
    CoveredParts(entries, e, types, values);
    if entries == [] {
      PrintedOne(e, types, values, pending);
    } else {
      hide PrintedAll, Added, Covered, Left;
      var rest, pending' := entries[1..], Left(entries[0], pending);
      PrintedLast(rest, e, types, values, pending');
      PrintedFirst(entries + [e], types, values, pending);
      PrintedFirst(entries, types, values, pending);
      SameAdded(entries, e, types, values, pending);
      Behind(Added([], entries[0], types, values, pending), PrintedAll(rest, types, values, pending'), Added(entries, e, types, values, pending));
    }
  }

  lemma Behind(a: string, b: string, c: string)
    ensures a + (b + c) == (a + b) + c
  {
  }

  lemma CoveredParts(entries: seq<Entry>, e: Entry, types: map<string, SymType>, values: map<string, Value>)
    requires Covered(entries + [e], types, values)
    ensures Covered(entries, types, values) && (e.Item? ==> e.name in types)
    ensures entries != [] ==>
      (entries + [e])[0] == entries[0] && (entries + [e])[1..] == entries[1..] + [e] && Covered(entries[1..] + [e], types, values)
  {
    var es := entries + [e];
    assert e in es && (forall x | x in entries :: x in es);
    if entries != [] {
      assert es[1..] == entries[1..] + [e];
      assert forall x | x in es[1..] :: x in es;
    }
  }

  lemma SameAdded(entries: seq<Entry>, e: Entry, types: map<string, SymType>, values: map<string, Value>, pending: set<string>)
    requires entries != [] && types.Keys == values.Keys && (e.Item? ==> e.name in types)
    ensures Added(entries[1..], e, types, values, Left(entries[0], pending))
      == Added(entries, e, types, values, pending)
  {
    hide Printed;
    assert e in entries <==> e == entries[0] || e in entries[1..];
  }

  lemma PrintedOne(e: Entry, types: map<string, SymType>, values: map<string, Value>, pending: set<string>)
    requires Covered([] + [e], types, values)
    ensures Covered([], types, values) && (e.Item? ==> e.name in types)
    ensures PrintedAll([] + [e], types, values, pending) == PrintedAll([], types, values, pending) + Added([], e, types, values, pending)
  {
    hide Printed;
    assert [e][1..] == [] && [e][0] == e && [] + [e] == [e] && e in [e];
  }

  // what is to be written after an entry
  ghost function Left(e: Entry, pending: set<string>): set<string> {
    if e.Item? then pending - {e.name} else pending
  }

  // the first entry is printed, and is not pending any more
  lemma PrintedFirst(entries: seq<Entry>, types: map<string, SymType>, values: map<string, Value>, pending: set<string>)
    requires Covered(entries, types, values) && entries != []
    ensures var e := entries[0];
      && Covered(entries[1..], types, values) && (e.Item? ==> e.name in types)
      && PrintedAll(entries, types, values, pending) ==
        Added([], e, types, values, pending) + PrintedAll(entries[1..], types, values, Left(e, pending))
  {
    hide Printed;
    assert entries[0] in entries;
    if entries[0].Item? && entries[0].name !in pending {
      assert pending - {entries[0].name} == pending;
    }
  }

  method WriteSymbol(stype: SymType, name: string, v: Value) returns (out: string)
    ensures out == Printed(stype, name, v)
  {
    match stype {
      case Boolean => out := PrintedTristate(name, v.tri);
      case Tristated => out := PrintedTristate(name, v.tri);
      case String =>
        var text := WriteEscaped(v.text);
        out := Assignment(name, "\"" + text + "\"") + "\n";
      case Hex => out := Assignment(name, v.text) + "\n";
      case Int => out := Assignment(name, v.text) + "\n";
      case _ => out := "";
    }
  }

  // the lines as they stand in the file
  lemma LineTexts(name: string, p: string)
    ensures UnsetLine(name) == "# CONFIG_" + name + " is not set"
    ensures Assignment(name, p) == "CONFIG_" + name + "=" + p
  {
    assert "# " + (Prefix() + (name + (" " + NotSet()))) == ("# " + Prefix()) + name + (" " + NotSet());
    assert "# " + Prefix() == "# CONFIG_" && " " + NotSet() == " is not set";
    assert Prefix() + (name + ("=" + p)) == Prefix() + name + "=" + p;
  }

  // ----- reading it back -----

  // a name as the configuration language has them
  ghost predicate Name(s: string) {
    Free(s, ' ') && Free(s, '=') && Free(s, '\n') && Free(s, NUL)
  }

  // one line of text without its newline
  ghost predicate OneLine(s: string) {
    Free(s, '\n') && Free(s, NUL) && 0 < |s| < LINE
  }

  lemma LiteralsFree()
    ensures Name(Prefix()) && Free(NotSet(), '\n') && Free(NotSet(), NUL)
  {
  }

  // a text of two pieces taken apart again
  lemma Pieces(a: string, b: string)
    ensures (a + b)[|a|..] == b && (a + b)[..|a|] == a
  {
  }

  // fgets takes the line, and the newline too unless the buffer is full
  lemma LineTaken(body: string, rest: string)
    requires OneLine(body)
    ensures var input := body + "\n" + rest;
      LineLength(input) == (if |body| + 1 < LINE then |body| + 1 else |body|)
      && input[..LineLength(input)] == if |body| + 1 < LINE then body + "\n" else body
  {
    var input := body + "\n" + rest;
    assert forall i | 0 <= i < |body| :: input[i] == body[i];
    assert input[|body|] == '\n';
    IndexIs(input, '\n', |body|);
  }

  lemma Terminated(s: string)
    requires Free(s, NUL)
    ensures CStr(s + [NUL], 0) == s
  {
    CStrIs(s + [NUL], 0, |s|);
  }

  lemma EmptyLine(types: map<string, SymType>, rest: string, st: State)
    requires types.Keys == st.saved.Keys
    ensures ReadAll(types, "\n" + rest, st) == ReadAll(types, rest, st)
  {
    hide CStr, Index, ReadAll;
    var input := "\n" + rest;
    IndexIs(input, '\n', 0);
    assert input[0..] == input && input[..1] == "\n" && input[1..] == rest;
    Terminated("\n");
    ReadStep(types, input, 0, st);
  }

  lemma NextLine(types: map<string, SymType>, body: string, rest: string, st: State)
    requires types.Keys == st.saved.Keys && OneLine(body)
    ensures ReadAll(types, body + "\n" + rest, st) == ReadAll(types, rest, ReadLine(types, body, st))
  {
    hide CStr, Index, LineLength, ReadLine;
    var input := body + "\n" + rest;
    LineTaken(body, rest);
    FreeAppend(body, "\n", NUL);
    Terminated(body);
    Terminated(body + "\n");
    NewlineIrrelevant(types, body, st);
    if |body| + 1 < LINE {
      assert input[|body| + 1..] == rest;
    } else {
      assert input[|body|..] == "\n" + rest;
      EmptyLine(types, rest, ReadLine(types, body, st));
    }
  }

  // text without newline and terminator
  ghost predicate Unbroken(s: string) {
    Free(s, '\n') && Free(s, NUL)
  }

  // What fgets makes of a line without newline: pieces of LINE - 1 characters,
  // however long the line is.
  ghost function PiecesOf(body: string): (ls: seq<string>)
    ensures |ls| >= 1 && ls[0] == body[..if |body| < 1024 then |body| else 1023]
    ensures body != [] ==> forall l | l in ls :: 0 < |l| < 1024
    decreases |body|
  {
    if |body| < LINE then [body] else [body[..LINE - 1]] + PiecesOf(body[LINE - 1..])
  }

  ghost function ReadPieces(types: map<string, SymType>, ls: seq<string>, st: State): (r: State)
    requires types.Keys == st.saved.Keys
    ensures r.saved.Keys == st.saved.Keys
  {
    if ls == [] then st else ReadPieces(types, ls[1..], ReadLine(types, ls[0], st))
  }

  lemma {:induction false} LineIsPieces(types: map<string, SymType>, body: string, rest: string, st: State)
    requires types.Keys == st.saved.Keys && Unbroken(body) && body != []
    ensures ReadAll(types, body + "\n" + rest, st) == ReadAll(types, rest, ReadPieces(types, PiecesOf(body), st))
    decreases |body|
  {
    hide CStr, Index, LineLength, ReadLine, ReadAll;
    if |body| < LINE {
      NextLine(types, body, rest, st);
      OnePiece(types, body, st);
    } else {
      var l, more := body[..LINE - 1], body[LINE - 1..];
      assert body == l + more;
      FreeAppend(l, more, '\n');
      FreeAppend(l, more, NUL);
      FirstPiece(types, l, more + "\n" + rest, st);
      assert body + "\n" + rest == l + (more + "\n" + rest);
      LineIsPieces(types, more, rest, ReadLine(types, l, st));
    }
  }

  lemma OnePiece(types: map<string, SymType>, l: string, st: State)
    requires types.Keys == st.saved.Keys
    ensures ReadPieces(types, [l], st) == ReadLine(types, l, st)
  {
    hide ReadLine;
    var ls := [l];
    assert ls[1..] == [];
  }

  // the buffer is full before the newline comes
  lemma FirstPiece(types: map<string, SymType>, l: string, rest: string, st: State)
    requires types.Keys == st.saved.Keys && Unbroken(l) && |l| == LINE - 1
    ensures ReadAll(types, l + rest, st) == ReadAll(types, rest, ReadLine(types, l, st))
  {
    hide CStr, Index, ReadLine, ReadAll;
    var input := l + rest;
    var k := Index(input, '\n');
    assert k >= |l| by {
      assert forall i | 0 <= i < |l| :: input[i] == l[i];
    }
    assert LineLength(input) == |l|;
    Pieces(l, rest);
    assert input[0..] == input;
    Terminated(l);
    ReadStep(types, input, 0, st);
  }

  // a newline at the end makes no difference to the reader
  lemma NewlineIrrelevant(types: map<string, SymType>, body: string, st: State)
    requires types.Keys == st.saved.Keys && Free(body, '\n') && body != []
    ensures ReadLine(types, body + "\n", st) == ReadLine(types, body, st)
  {
    if body[0] == '#' {
      UnsetNewline(types, body, st);
    } else if body[0] == 'C' {
      AssignmentNewline(types, body, st);
    }
  }

  lemma UnsetNewline(types: map<string, SymType>, body: string, st: State)
    requires types.Keys == st.saved.Keys && Free(body, '\n') && body != []
    ensures ReadUnset(types, body + "\n", st) == ReadUnset(types, body, st)
  {
    hide Index, Prefix, NotSet;
    var l := body + "\n";
    LiteralsFree();
    if |body| >= 9 {
      assert l[2..9] == body[2..9];
      var s := body[9..];
      assert l[9..] == s + "\n";
      var k := Index(s, ' ');
      IndexIs(s + "\n", ' ', if k < |s| then k else k + 1);
      if k < |s| {
        assert (s + "\n")[..k] == s[..k];
        assert (s + "\n")[k + 1..] == s[k + 1..] + "\n";
        PrefixNewline(NotSet(), s[k + 1..]);
      }
    } else if |body| == 8 {
      assert l[2..9][6] == '\n';
    }
  }

  lemma PrefixNewline(a: string, s: string)
    requires Free(a, '\n')
    ensures a <= s + "\n" <==> a <= s
  {
    if a <= s + "\n" {
      assert (s + "\n")[|s|] == '\n';
      assert |a| <= |s|;
      assert (s + "\n")[..|a|] == s[..|a|];
    }
  }

  lemma AssignmentNewline(types: map<string, SymType>, body: string, st: State)
    requires types.Keys == st.saved.Keys && Free(body, '\n') && body != []
    ensures ReadAssignment(types, body + "\n", st) == ReadAssignment(types, body, st)
  {
    hide Index, Prefix, Assign;
    var l := body + "\n";
    LiteralsFree();
    PrefixNewline(Prefix(), body);
    if Prefix() <= body {
      var s := body[7..];
      assert l[7..] == s + "\n";
      var k := Index(s, '=');
      IndexIs(s + "\n", '=', if k < |s| then k else k + 1);
      if k < |s| {
        var v := s[k + 1..];
        assert (s + "\n")[..k] == s[..k];
        assert (s + "\n")[k + 1..] == v + "\n";
        assert forall i | 0 <= i < |v| :: v[i] == body[7 + k + 1 + i];
        IndexIs(v, '\n', |v|);
        IndexIs(v + "\n", '\n', |v|);
        assert (v + "\n")[..|v|] == v && v[..|v|] == v;
      }
    }
  }

  predicate IsText(stype: SymType) {
    stype == String || stype == Int || stype == Hex
  }

  predicate IsPrinted(stype: SymType) {
    stype != Unknown && stype != Other
  }

  // Can a line hold the value? A boolean is never m; numbers must look like
  // numbers; a quoted text may not contain a newline.
  ghost predicate Accepted(stype: SymType, v: Value) {
    match stype
    case Boolean => v.tri != 1
    case Tristated => true
    case String => Free(v.text, '\n')
    case _ => ValidText(stype, v.text)
  }

  ghost predicate Restored(stype: SymType, v: Value, s: Saved) {
    !s.isNew && if IsText(stype) then s.text == Some(v.text) else s.tri == v.tri
  }

  // The beginning of an assignment, as far as the buffer and the first newline let it in.
  lemma AssignmentRead(types: map<string, SymType>, name: string, p: string, m: nat, st: State)
    requires types.Keys == st.saved.Keys && name in types && Name(name)
    requires 7 <= m <= 8 + |name| + |p| && m <= 8 + |name| + Index(p, '\n')
    ensures var l := Assignment(name, p)[..m];
      ReadLine(types, l, st) == if m < 8 + |name| then st else Assign(types[name], name, p[..m - 8 - |name|], st)
  {
    hide Index, Assign, ReadLine, Prefix;
    var all := Assignment(name, p);
    var n := |name|;
    if m < 8 + n {
      assert all[..m] == Prefix() + name[..m - 7];
      NoAssignment(types, name[..m - 7], st);
    } else {
      var q := p[..m - 8 - n];
      assert all[..m] == Assignment(name, q);
      assert forall i | 0 <= i < |q| :: q[i] == p[i];
      WholeAssignment(types, name, q, st);
    }
  }

  lemma NoAssignment(types: map<string, SymType>, a: string, st: State)
    requires types.Keys == st.saved.Keys && Free(a, '=')
    ensures ReadLine(types, Prefix() + a, st) == st
  {
    hide Index, Prefix;
    Pieces(Prefix(), a);
    IndexIs(a, '=', |a|);
  }

  lemma WholeAssignment(types: map<string, SymType>, name: string, q: string, st: State)
    requires types.Keys == st.saved.Keys && name in types && Free(name, '=') && Free(q, '\n')
    ensures ReadLine(types, Assignment(name, q), st) == Assign(types[name], name, q, st)
  {
    AssignmentParts(name, q);
    hide Index, Assign, Prefix, Assignment;
    IndexIs(q, '\n', |q|);
    assert q[..|q|] == q;
  }

  lemma AssignmentParts(name: string, q: string)
    requires Free(name, '=')
    ensures var l, n := Assignment(name, q), |name|;
      && l != [] && l[0] == 'C' && Prefix() <= l && 7 + n + 1 <= |l|
      && Index(l[7..], '=') == n && l[7..][..n] == name && l[7..][n + 1..] == q
  {
    hide Index, Prefix;
    var s, n := name + ("=" + q), |name|;
    Pieces(Prefix(), s);
    Pieces(name, "=" + q);
    Pieces("=", q);
    assert s[n] == '=' && s[n + 1..] == s[n..][1..] == q;
    assert forall i | 0 <= i < n :: s[i] == name[i];
    IndexIs(s, '=', n);
  }

  // a comment whose text is a name, a space and t
  lemma UnsetParsed(types: map<string, SymType>, name: string, t: string, st: State)
    requires types.Keys == st.saved.Keys && Free(name, ' ')
    ensures ReadLine(types, "# " + (Prefix() + (name + (" " + t))), st) ==
      if NotSet() <= t && name in types && types[name] in {Boolean, Tristated} then st.SetTri(name, 0) else st
  {
    hide Index, Prefix, NotSet;
    var s, n := name + (" " + t), |name|;
    CommentPieces(s);
    Pieces(name, " " + t);
    Pieces(" ", t);
    assert s[n] == ' ' && s[n + 1..] == s[n..][1..] == t;
    assert forall i | 0 <= i < n :: s[i] == name[i];
    IndexIs(s, ' ', n);
  }

  lemma CommentPieces(s: string)
    ensures var l := "# " + (Prefix() + s);
      l[0] == '#' && |l| == 9 + |s| && l[2..9] == Prefix() && l[9..] == s
  {
    hide Prefix;
    var l := "# " + (Prefix() + s);
    Pieces("# ", Prefix() + s);
    Pieces(Prefix(), s);
    assert l[2..9] == l[2..][..7] && l[9..] == l[2..][7..];
  }

  lemma NoUnset(types: map<string, SymType>, a: string, st: State)
    requires types.Keys == st.saved.Keys && Free(a, ' ')
    ensures ReadLine(types, "# " + (Prefix() + a), st) == st
  {
    hide Index, Prefix, NotSet;
    CommentPieces(a);
    IndexIs(a, ' ', |a|);
  }

  lemma UnsetRead(types: map<string, SymType>, name: string, m: nat, st: State)
    requires types.Keys == st.saved.Keys && name in types && Name(name) && 9 <= m <= 20 + |name|
    ensures ReadLine(types, UnsetLine(name)[..m], st) ==
      if m == 20 + |name| && types[name] in {Boolean, Tristated} then st.SetTri(name, 0) else st
  {
    hide ReadLine, Prefix, NotSet;
    var l, n := UnsetLine(name)[..m], |name|;
    if m <= 9 + n {
      assert l == "# " + (Prefix() + name[..m - 9]);
      NoUnset(types, name[..m - 9], st);
    } else {
      var t := NotSet()[..m - 10 - n];
      assert l == "# " + (Prefix() + (name + (" " + t)));
      assert m == 20 + n ==> t == NotSet();
      UnsetParsed(types, name, t, st);
    }
  }

  lemma ValidFree(stype: SymType, s: string)
    requires (stype == Int || stype == Hex) && ValidText(stype, s)
    ensures Free(s, '\n') && Free(s, NUL)
  {
    var k := if stype == Int then (if s != [] && s[0] == '-' then 1 else 0)
      else if |s| >= 2 && s[0] == '0' && (s[1] == 'x' || s[1] == 'X') then 2 else 0;
    DigitsFree(s, k);
  }

  lemma DigitsFree(s: string, k: nat)
    requires k <= |s| && k <= 2 && forall i | 0 <= i < |s| - k :: HexDigit(s[k..][i])
    requires forall i | 0 <= i < k :: s[i] in {'-', '0', 'x', 'X'}
    ensures Free(s, '\n') && Free(s, NUL)
  {
    assert forall i | k <= i < |s| :: HexDigit(s[k..][i - k]) && s[i] == s[k..][i - k];
  }

  // the value part of an assignment
  ghost function ValuePart(stype: SymType, v: Value): string
    requires IsPrinted(stype) && (IsText(stype) || v.tri != 0)
  {
    if stype == String then "\"" + Escape(v.text) + "\""
    else if IsText(stype) then v.text
    else if v.tri == 1 then "m" else "y"
  }

  // what the reader makes of a part of the value
  lemma AssignPart(stype: SymType, name: string, v: Value, k: nat, st: State)
    requires name in st.saved && IsPrinted(stype) && (IsText(stype) || v.tri != 0)
    requires k <= |ValuePart(stype, v)|
    ensures var st' := Assign(stype, name, ValuePart(stype, v)[..k], st);
      && st'.saved == st.saved[name := st'.saved[name]]
      && (st.saved[name].isNew ==>
        (Restored(stype, v, st'.saved[name]) <==> k == |ValuePart(stype, v)| && (stype == String || Accepted(stype, v))))
      && (k == |ValuePart(stype, v)| && (stype == String || Accepted(stype, v)) ==>
        st'.warnings == st.warnings && Restored(stype, v, st'.saved[name]))
  {
    var p := ValuePart(stype, v);
    assert p[..|p|] == p;
    if stype == String && k > 0 {
      if k == |p| {
        UnescapeUndoesEscape(v.text, []);
        assert p[1..] == Escape(v.text) + ['"'] + [];
      } else {
        EscapeOpen(v.text, k - 1);
        assert p[..k][1..] == Escape(v.text)[..k - 1];
      }
    }
  }

  // For every symbol that is printed and not yet known to the reader: its line
  // restores the value exactly if a line can hold it and the buffer can.
  lemma LineRestores(types: map<string, SymType>, name: string, v: Value, st: State)
    requires types.Keys == st.saved.Keys && name in types && Name(name) && Free(v.text, NUL)
    requires IsPrinted(types[name]) && st.saved[name].isNew
    ensures var line := Printed(types[name], name, v);
      var st' := ReadLine(types, line[..LineLength(line)], st);
      Restored(types[name], v, st'.saved[name]) <==> Accepted(types[name], v) && |line| <= 1024
  {
    hide Index, LineLength, ReadLine, Assign, Prefix, NotSet;
    var stype := types[name];
    var line := Printed(stype, name, v);
    if !IsText(stype) && v.tri == 0 {
      var body := UnsetLine(name);
      assert line == body + "\n";
      UnsetNoNewline(name);
      var m := FirstPart(types, body, st);
      UnsetRead(types, name, m, st);
    } else {
      var p := ValuePart(stype, v);
      var body := Assignment(name, p);
      assert line == body + "\n";
      var m := FirstPart(types, body, st);
      BodyNewline(name, p);
      AssignmentRead(types, name, p, m, st);
      ValueNewline(stype, v);
      if m >= 8 + |name| {
        AssignPart(stype, name, v, m - 8 - |name|, st);
      }
    }
  }

  lemma UnsetNoNewline(name: string)
    requires Name(name)
    ensures Index(UnsetLine(name), '\n') == |UnsetLine(name)|
  {
    hide Index, Prefix, NotSet;
    UnsetFree(name);
    IndexIs(UnsetLine(name), '\n', |UnsetLine(name)|);
  }

  lemma UnsetFree(name: string)
    requires Name(name)
    ensures Free(UnsetLine(name), '\n') && Free(UnsetLine(name), NUL)
  {
    hide Prefix, NotSet, Free;
    LiteralsFree();
    ShortFree();
    forall x | x == '\n' || x == NUL
      ensures Free(UnsetLine(name), x)
    {
      FreeAppend(" ", NotSet(), x);
      FreeAppend(name, " " + NotSet(), x);
      FreeAppend(Prefix(), name + (" " + NotSet()), x);
      FreeAppend("# ", Prefix() + (name + (" " + NotSet())), x);
    }
  }

  lemma ShortFree()
    ensures forall x | x == '\n' || x == NUL :: Free(" ", x) && Free("# ", x) && Free("=", x) && Free("\"", x)
  {
  }

  lemma BodyNewline(name: string, p: string)
    requires Name(name)
    ensures Index(Assignment(name, p), '\n') == 8 + |name| + Index(p, '\n')
  {
    hide Index, Prefix;
    LiteralsFree();
    var body := Assignment(name, p);
    assert forall i | 0 <= i < |name| :: body[7 + i] == name[i];
    assert forall i | 0 <= i < |p| :: body[8 + |name| + i] == p[i];
    assert body[..7] == Prefix() && body[7 + |name|] == '=';
    assert forall i | 0 <= i < 7 :: body[i] == Prefix()[i];
    IndexIs(body, '\n', 8 + |name| + Index(p, '\n'));
  }

  // a newline in the value
  lemma ValueNewline(stype: SymType, v: Value)
    requires IsPrinted(stype) && (IsText(stype) || v.tri != 0)
    ensures Accepted(stype, v) ==> Index(ValuePart(stype, v), '\n') == |ValuePart(stype, v)|
    ensures stype == String && Index(ValuePart(stype, v), '\n') == |ValuePart(stype, v)| ==> Accepted(stype, v)
  {
    hide Index;
    var p := ValuePart(stype, v);
    if stype == String {
      EscapeKeeps(v.text, '\n');
      FreeAppend("\"" + Escape(v.text), "\"", '\n');
      FreeAppend("\"", Escape(v.text), '\n');
    } else if IsText(stype) && Accepted(stype, v) {
      ValidFree(stype, v.text);
    }
    if Free(p, '\n') {
      IndexIs(p, '\n', |p|);
    }
  }

  // what the first fgets leaves of a printed line, without its newline
  ghost function FirstPart(types: map<string, SymType>, body: string, st: State): (m: nat)
    requires types.Keys == st.saved.Keys && body != [] && body[0] != '\n'
    ensures m <= |body| && m == if Index(body, '\n') < LINE then Index(body, '\n') else LINE - 1
    ensures m <= Index(body, '\n')
    ensures var line := body + "\n";
      ReadLine(types, line[..LineLength(line)], st) == ReadLine(types, body[..m], st)
  {
    var line := body + "\n";
    var k := Index(body, '\n');
    IndexIs(line, '\n', k);
    var n := LineLength(line);
    var m := if k < LINE then k else LINE - 1;
    assert line[..m] == body[..m];
    assert Free(body[..m], '\n');
    assert n == m || (n == m + 1 && line[..n] == body[..m] + "\n");
    NewlineIrrelevant(types, body[..m], st);
    m
  }

  // a whole line in front of the rest of the file
  lemma LineRead(types: map<string, SymType>, name: string, v: Value, rest: string, st: State) returns (s: State)
    requires types.Keys == st.saved.Keys && name in types && Printable(types[name], name, v)
    ensures s.saved.Keys == st.saved.Keys && s.warnings == st.warnings && s.saved == st.saved[name := s.saved[name]]
    ensures ReadAll(types, Printed(types[name], name, v) + rest, st) == ReadAll(types, rest, s)
    ensures if IsPrinted(types[name]) then Restored(types[name], v, s.saved[name]) else s == st
  {
    hide Index, ReadLine, Assign, ReadAll, Prefix, NotSet;
    var stype := types[name];
    var line := Printed(stype, name, v);
    if !IsPrinted(stype) {
      assert "" + rest == rest;
      s := st;
      assert st.saved[name := st.saved[name]] == st.saved;
    } else {
      var body := line[..|line| - 1];
      PrintedLine(stype, name, v);
      NextLine(types, body, rest, st);
      s := ReadLine(types, body, st);
      if !IsText(stype) && v.tri == 0 {
        UnsetRead(types, name, |body|, st);
        assert body[..|body|] == body;
      } else {
        var p := ValuePart(stype, v);
        ValueNewline(stype, v);
        AssignmentRead(types, name, p, |body|, st);
        assert body == Assignment(name, p) && body[..|body|] == body && p[..|p|] == p;
        AssignPart(stype, name, v, |p|, st);
      }
    }
  }

  // the symbols whose values fit a line, and those that are not printed at all
  ghost predicate Printable(stype: SymType, name: string, v: Value) {
    Name(name) && Free(v.text, NUL) &&
    (IsPrinted(stype) ==> Accepted(stype, v) && |Printed(stype, name, v)| <= LINE)
  }

  lemma PrintedLine(stype: SymType, name: string, v: Value)
    requires IsPrinted(stype) && Printable(stype, name, v)
    ensures var line := Printed(stype, name, v);
      && |line| > 1 && line == line[..|line| - 1] + "\n" && OneLine(line[..|line| - 1])
      && line[..|line| - 1] == if !IsText(stype) && v.tri == 0 then UnsetLine(name)
        else Assignment(name, ValuePart(stype, v))
  {
    hide Prefix, NotSet, Free, Escape;
    var line := Printed(stype, name, v);
    if !IsText(stype) && v.tri == 0 {
      Pieces(UnsetLine(name), "\n");
      UnsetFree(name);
    } else {
      Pieces(Assignment(name, ValuePart(stype, v)), "\n");
      ValueFree(stype, name, v);
    }
  }

  lemma ValueFree(stype: SymType, name: string, v: Value)
    requires IsPrinted(stype) && Printable(stype, name, v) && (IsText(stype) || v.tri != 0)
    ensures var body := Assignment(name, ValuePart(stype, v)); Free(body, '\n') && Free(body, NUL)
  {
    hide Prefix, Free, Escape;
    var p := ValuePart(stype, v);
    LiteralsFree();
    ShortFree();
    forall x | x == '\n' || x == NUL
      ensures Free(Assignment(name, p), x)
    {
      assert Free(p, x) by {
        if stype == String {
          EscapeKeeps(v.text, x);
          FreeAppend("\"" + Escape(v.text), "\"", x);
          FreeAppend("\"", Escape(v.text), x);
        } else if IsText(stype) {
          ValidFree(stype, v.text);
        } else {
          LetterFree(p, x);
        }
      }
      FreeAppend("=", p, x);
      FreeAppend(name, "=" + p, x);
      FreeAppend(Prefix(), name + ("=" + p), x);
    }
  }

  lemma LetterFree(p: string, x: char)
    requires (p == "m" || p == "y") && (x == '\n' || x == NUL)
    ensures Free(p, x)
  {
  }

  lemma FreeThree(a: string, b: string, c: string)
    ensures forall x: char :: Free(a + b + c, x) <==> Free(a, x) && Free(b, x) && Free(c, x)
  {
    forall x: char
      ensures Free(a + b + c, x) <==> Free(a, x) && Free(b, x) && Free(c, x)
    {
      FreeAppend(a + b, c, x);
      FreeAppend(a, b, x);
    }
  }

  // the comment text says that the bool or tristate name is not set
  ghost predicate Unsets(types: map<string, SymType>, text: string, name: string) {
    name in types && types[name] in {Boolean, Tristated} && Free(name, ' ') && Prefix() + (name + (" " + NotSet())) <= text
  }

  lemma UnsetsRead(types: map<string, SymType>, text: string, name: string, st: State)
    requires types.Keys == st.saved.Keys && Unsets(types, text, name)
    ensures ReadLine(types, "# " + text, st) == st.SetTri(name, 0)
  {
    hide ReadLine, Prefix, NotSet;
    var head := Prefix() + (name + (" " + NotSet()));
    var more := text[|head|..];
    assert text == head + more == Prefix() + (name + (" " + (NotSet() + more)));
    UnsetParsed(types, name, NotSet() + more, st);
  }

  lemma UnsetsNothing(types: map<string, SymType>, text: string, st: State)
    requires types.Keys == st.saved.Keys && forall name :: !Unsets(types, text, name)
    ensures ReadLine(types, "# " + text, st) == st
  {
    hide ReadLine, Unsets;
    CommentUnsets(types, text, st);
  }

  lemma CommentUnsets(types: map<string, SymType>, text: string, st: State)
    requires types.Keys == st.saved.Keys
    ensures ReadLine(types, "# " + text, st) == st || exists name :: Unsets(types, text, name)
  {
    hide Index, Prefix, NotSet, Unsets;
    var l := "# " + text;
    Pieces("# ", text);
    if |l| >= 9 && l[2..9] == Prefix() {
      var s := l[9..];
      assert text == l[2..] == l[2..9] + s;
      var k := Index(s, ' ');
      if k < |s| && NotSet() <= s[k + 1..] && s[..k] in types && types[s[..k]] in {Boolean, Tristated} {
        UnsetsFound(types, text, s, k);
      }
    }
  }

  lemma UnsetsFound(types: map<string, SymType>, text: string, s: string, k: nat)
    requires text == Prefix() + s && k < |s| && s[k] == ' ' && NotSet() <= s[k + 1..] && forall i | 0 <= i < k :: s[i] != ' '
    requires s[..k] in types && types[s[..k]] in {Boolean, Tristated}
    ensures Unsets(types, text, s[..k])
  {
    hide Prefix, NotSet;
    var name, t := s[..k], s[k + 1..];
    assert s == name + (" " + t);
    PrefixOfConcat(" ", NotSet(), t);
    PrefixOfConcat(name, " " + NotSet(), " " + t);
    PrefixOfConcat(Prefix(), name + (" " + NotSet()), s);
  }

  lemma PrefixOfConcat(a: string, b: string, c: string)
    requires b <= c
    ensures a + b <= a + c
  {
    assert c == b + c[|b|..];
    assert a + c == (a + b) + c[|b|..];
  }

  // A piece of a title that the reader passes over in silence: a comment that
  // says of no symbol that it is not set, or an assignment to no symbol of a
  // type that takes it.
  ghost predicate Quiet(types: map<string, SymType>, l: string)
    requires l != []
  {
    if l[0] == '#' then |l| >= 2 ==> forall name :: !Unsets(types, l[2..], name)
    else Prefix() <= l && forall name, p | name in types && Free(name, '=') && l == Assignment(name, p) :: Ignored(types[name], p)
  }

  ghost predicate Ignored(stype: SymType, p: string) {
    !IsPrinted(stype) || (stype == String && (p == [] || p[0] != '"'))
  }

  // what no later line undoes: one more warning, or a symbol that is known
  ghost predicate Disturbed(st: State, st': State) {
    st'.warnings > st.warnings || exists n | n in st'.saved :: !st'.saved[n].isNew
  }

  // A quiet piece changes no state, and every other one disturbs every state.
  lemma QuietExactly(types: map<string, SymType>, l: string, st: State)
    requires types.Keys == st.saved.Keys && l != [] && Free(l, '\n')
    ensures if Quiet(types, l) then ReadLine(types, l, st) == st else Disturbed(st, ReadLine(types, l, st))
  {
    if l[0] == '#' {
      QuietComment(types, l, st);
    } else if Prefix() <= l {
      QuietAssignment(types, l, st);
    }
  }

  lemma QuietComment(types: map<string, SymType>, l: string, st: State)
    requires types.Keys == st.saved.Keys && l != [] && l[0] == '#'
    ensures if Quiet(types, l) then ReadLine(types, l, st) == st else Disturbed(st, ReadLine(types, l, st))
  {
    hide Prefix, NotSet, Unsets, ReadLine;
    if |l| >= 2 {
      SecondIsFree(types, l, st);
      if Quiet(types, l) {
        UnsetsNothing(types, l[2..], st);
      } else {
        var name :| Unsets(types, l[2..], name);
        UnsetsRead(types, l[2..], name, st);
        UnsetsKnown(types, l[2..], name);
        assert !st.SetTri(name, 0).saved[name].isNew;
      }
    } else {
      ShortComment(types, l, st);
    }
  }

  lemma ShortComment(types: map<string, SymType>, l: string, st: State)
    requires types.Keys == st.saved.Keys && l != [] && l[0] == '#' && |l| < 9
    ensures ReadLine(types, l, st) == st
  {
  }

  // the reader does not look at the second character of a comment
  lemma SecondIsFree(types: map<string, SymType>, l: string, st: State)
    requires types.Keys == st.saved.Keys && |l| >= 2 && l[0] == '#'
    ensures ReadLine(types, l, st) == ReadLine(types, "# " + l[2..], st)
  {
    hide Index, Prefix, NotSet;
    var l' := "# " + l[2..];
    if |l| >= 9 {
      assert l'[2..9] == l[2..9] && l'[9..] == l[9..];
    }
  }

  lemma QuietAssignment(types: map<string, SymType>, l: string, st: State)
    requires types.Keys == st.saved.Keys && Prefix() <= l && Free(l, '\n')
    ensures if Quiet(types, l) then ReadLine(types, l, st) == st else Disturbed(st, ReadLine(types, l, st))
  {
    hide Index, Prefix, Assign, ReadLine, Ignored, Unescape;
    var s := l[7..];
    assert l == Prefix() + s;
    var k := Index(s, '=');
    if k == |s| {
      NoAssignment(types, s, st);
    }
    if !Quiet(types, l) {
      var name, p :| name in types && Free(name, '=') && l == Assignment(name, p) && !Ignored(types[name], p);
      AssignmentDisturbs(types, name, p, st);
    } else if k < |s| {
      var name, p := s[..k], s[k + 1..];
      assert s == name + ("=" + p);
      assert Free(name, '=') && l == Assignment(name, p);
      if name in types {
        assert Ignored(types[name], p);
        AssignmentDisturbs(types, name, p, st);
      } else {
        UnknownName(types, name, p, st);
      }
    }
  }

  lemma UnknownName(types: map<string, SymType>, name: string, p: string, st: State)
    requires types.Keys == st.saved.Keys && name !in types && Free(name, '=')
    ensures ReadLine(types, Assignment(name, p), st) == st
  {
    hide Index, Prefix, Assign;
    var s, n := name + ("=" + p), |name|;
    Pieces(Prefix(), s);
    Pieces(name, "=" + p);
    assert s[n] == '=';
    assert forall i | 0 <= i < n :: s[i] == name[i];
    IndexIs(s, '=', n);
  }

  lemma AssignmentDisturbs(types: map<string, SymType>, name: string, p: string, st: State)
    requires types.Keys == st.saved.Keys && name in types && Free(name, '=') && Free(Assignment(name, p), '\n')
    ensures var st' := ReadLine(types, Assignment(name, p), st);
      if Ignored(types[name], p) then st' == st else Disturbed(st, st')
  {
    hide Prefix, ReadLine, Unescape, ValidText;
    assert Free(p, '\n') by {
      FreeAppend(Prefix(), name + ("=" + p), '\n');
      FreeAppend(name, "=" + p, '\n');
      FreeAppend("=", p, '\n');
    }
    WholeAssignment(types, name, p, st);
    var st' := Assign(types[name], name, p, st);
    assert st'.warnings > st.warnings || !st'.saved[name].isNew || st' == st;
  }

  // What an assignment to a known symbol says, type by type: only the first
  // character counts for a bool or tristate, and m is nothing for a bool; a
  // number must look like one; a text is taken up to its closing quote.
  lemma AssignmentMeans(types: map<string, SymType>, name: string, p: string, st: State)
    requires types.Keys == st.saved.Keys && name in types && Free(name, '=') && Free(p, '\n')
    ensures var st', logical := ReadLine(types, Assignment(name, p), st), types[name] == Boolean || types[name] == Tristated;
      && (logical && "y" <= p ==> st' == st.SetTri(name, 2))
      && (logical && "n" <= p ==> st' == st.SetTri(name, 0))
      && (types[name] == Tristated && "m" <= p ==> st' == st.SetTri(name, 1))
      && (logical && !("y" <= p) && !("n" <= p) && !(types[name] == Tristated && "m" <= p) ==> st' == st.Warn())
      && (types[name] == Int || types[name] == Hex ==> st' == if ValidText(types[name], p) then st.SetText(name, p) else st.Warn())
      && (types[name] == String && "\"" <= p ==>
        st' == if Unescape(p[1..]).Some? then st.SetText(name, Unescape(p[1..]).value) else st.Warn())
      && (!IsPrinted(types[name]) || (types[name] == String && !("\"" <= p)) ==> st' == st)
  {
    WholeAssignment(types, name, p, st);
    hide Prefix, ReadLine, Unescape, ValidText;
    FirstCharacter(p, 'y');
    FirstCharacter(p, 'n');
    FirstCharacter(p, 'm');
    FirstCharacter(p, '"');
  }

  lemma FirstCharacter(p: string, c: char)
    ensures [c] <= p <==> p != [] && p[0] == c
  {
  }

  // nothing is ever forgotten
  lemma {:induction false} DisturbedStays(types: map<string, SymType>, ls: seq<string>, st0: State, st: State)
    requires types.Keys == st.saved.Keys && Disturbed(st0, st)
    ensures Disturbed(st0, ReadPieces(types, ls, st))
  {
    hide ReadLine;
    if ls != [] {
      LineAdds(types, ls[0], st);
      DisturbedStays(types, ls[1..], st0, ReadLine(types, ls[0], st));
    }
  }

  lemma LineAdds(types: map<string, SymType>, l: string, st: State)
    requires types.Keys == st.saved.Keys
    ensures var st' := ReadLine(types, l, st);
      st'.warnings >= st.warnings && forall n | n in st.saved && !st.saved[n].isNew :: !st'.saved[n].isNew
  {
    hide Index, Prefix, NotSet, Unescape, ValidText;
  }

  // a title whose pieces are all quiet
  ghost predicate TitleOk(types: map<string, SymType>, text: string) {
    Unbroken(text) && forall l | l in PiecesOf("# " + text) :: Quiet(types, l)
  }

  // pieces that are all quiet change nothing, and others disturb every state
  lemma {:induction false} QuietPieces(types: map<string, SymType>, ls: seq<string>, st: State)
    requires types.Keys == st.saved.Keys && forall l | l in ls :: l != [] && Free(l, '\n')
    ensures if forall l | l in ls :: Quiet(types, l) then ReadPieces(types, ls, st) == st else Disturbed(st, ReadPieces(types, ls, st))
  {
    hide ReadLine, Quiet, Disturbed;
    if ls != [] {
      assert ls[0] in ls && forall l | l in ls :: l == ls[0] || l in ls[1..];
      assert forall l | l in ls[1..] :: l in ls;
      QuietExactly(types, ls[0], st);
      if Quiet(types, ls[0]) {
        QuietPieces(types, ls[1..], st);
      } else {
        DisturbedStays(types, ls[1..], st, ReadLine(types, ls[0], st));
      }
    }
  }

  lemma {:induction false} PiecesUnbroken(body: string)
    requires Free(body, '\n')
    ensures forall l | l in PiecesOf(body) :: Free(l, '\n')
    decreases |body|
  {
    if |body| >= LINE {
      var l, more := body[..LINE - 1], body[LINE - 1..];
      assert body == l + more;
      FreeAppend(l, more, '\n');
      PiecesUnbroken(more);
    }
  }

  lemma CommentIsPieces(types: map<string, SymType>, text: string, rest: string, st: State)
    requires types.Keys == st.saved.Keys && Unbroken(text)
    ensures ReadAll(types, Comment(text) + rest, st) == ReadAll(types, rest, ReadPieces(types, PiecesOf("# " + text), st))
    ensures forall l | l in PiecesOf("# " + text) :: l != [] && Free(l, '\n')
  {
    hide ReadAll, ReadPieces, PiecesOf, Free;
    ShortFree();
    FreeAppend("# ", text, '\n');
    FreeAppend("# ", text, NUL);
    LineIsPieces(types, "# " + text, rest, st);
    PiecesUnbroken("# " + text);
  }

  lemma CommentRead(types: map<string, SymType>, text: string, rest: string, st: State)
    requires types.Keys == st.saved.Keys && TitleOk(types, text)
    ensures ReadAll(types, Comment(text) + rest, st) == ReadAll(types, rest, st)
  {
    hide ReadAll, ReadPieces, PiecesOf, Quiet, Comment;
    CommentIsPieces(types, text, rest, st);
    QuietPieces(types, PiecesOf("# " + text), st);
  }

  lemma HashRead(types: map<string, SymType>, rest: string, st: State)
    requires types.Keys == st.saved.Keys
    ensures ReadAll(types, "#\n" + rest, st) == ReadAll(types, rest, st)
  {
    hide Index, ReadAll;
    NextLine(types, "#", rest, st);
    assert "#" + "\n" + rest == "#\n" + rest;
  }

  // the lines of a title are the pieces of its text, for the reader
  lemma TitleIsPieces(types: map<string, SymType>, text: string, rest: string, st: State)
    requires types.Keys == st.saved.Keys && Unbroken(text)
    ensures ReadAll(types, PrintedTitle(text) + rest, st) == ReadAll(types, rest, ReadPieces(types, PiecesOf("# " + text), st))
  {
    hide Index, ReadAll, ReadLine, ReadPieces, PiecesOf;
    var r3 := "#\n" + rest;
    var r2 := Comment(text) + r3;
    var r1 := "#\n" + r2;
    assert PrintedTitle(text) + rest == "\n" + r1;
    EmptyLine(types, r1, st);
    HashRead(types, r2, st);
    CommentIsPieces(types, text, r3, st);
    HashRead(types, rest, ReadPieces(types, PiecesOf("# " + text), st));
  }

  // A title that reads like a setting is taken for one; what follows in an
  // overlong title is read after that.
  lemma TitleIsTaken(types: map<string, SymType>, text: string, name: string, rest: string, st: State)
    requires types.Keys == st.saved.Keys && Unbroken(text) && Unsets(types, text[..FirstLength(text)], name)
    ensures name in types
    ensures ReadAll(types, PrintedTitle(text) + rest, st) ==
      ReadAll(types, rest, ReadPieces(types, PiecesOf("# " + text)[1..], st.SetTri(name, 0)))
  {
    hide ReadAll, ReadLine, Unsets, PrintedTitle;
    UnsetsKnown(types, text[..FirstLength(text)], name);
    TitleIsPieces(types, text, rest, st);
    assert PiecesOf("# " + text)[0] == "# " + text[..FirstLength(text)];
    UnsetsRead(types, text[..FirstLength(text)], name, st);
  }

  // how much of a title is in its first piece
  function FirstLength(text: string): (n: nat)
    ensures n <= |text|
  {
    if |text| < LINE - 2 then |text| else LINE - 3
  }

  // What stands behind the first LINE - 1 characters of the line is even taken
  // for an assignment.
  lemma TitleTailIsTaken(types: map<string, SymType>, a: string, name: string, rest: string, st: State)
    requires types.Keys == st.saved.Keys && Unbroken(a) && |a| == 1021 && forall n :: !Unsets(types, a, n)
    requires name in types && types[name] in {Boolean, Tristated} && Name(name) && |Assignment(name, "y")| < LINE
    ensures ReadAll(types, PrintedTitle(a + Assignment(name, "y")) + rest, st) == ReadAll(types, rest, st.SetTri(name, 2))
  {
    hide ReadAll, ReadLine, ReadPieces, Unsets, PrintedTitle, Assignment;
    var l := Assignment(name, "y");
    SettingUnbroken(name);
    FreeAppend(a, l, '\n');
    FreeAppend(a, l, NUL);
    TitleIsPieces(types, a + l, rest, st);
    assert "# " + (a + l) == "# " + a + l;
    TwoPieces(types, "# " + a, l, "# " + (a + l), st);
    UnsetsNothing(types, a, st);
    WholeAssignment(types, name, "y", st);
  }

  lemma SettingUnbroken(name: string)
    requires Name(name)
    ensures Unbroken(Assignment(name, "y")) && Assignment(name, "y") != []
  {
    hide Prefix, Free;
    LiteralsFree();
    ShortFree();
    forall x | x == '\n' || x == NUL
      ensures Free(Assignment(name, "y"), x)
    {
      LetterFree("y", x);
      FreeAppend("=", "y", x);
      FreeAppend(name, "=" + "y", x);
      FreeAppend(Prefix(), name + ("=" + "y"), x);
    }
  }

  lemma TwoPieces(types: map<string, SymType>, l: string, l': string, body: string, st: State)
    requires types.Keys == st.saved.Keys && body == l + l' && |l| == LINE - 1 && |l'| < LINE && l' != []
    ensures ReadPieces(types, PiecesOf(body), st) == ReadLine(types, l', ReadLine(types, l, st))
  {
    hide ReadLine;
    Pieces(l, l');
    assert PiecesOf(body) == [l] + [l'];
    OnePiece(types, l', ReadLine(types, l, st));
  }

  // Exactly such titles do harm: a title of any length changes nothing, for
  // every state and every rest of the file, if and only if all its pieces are
  // quiet.
  lemma TitleHarmless(types: map<string, SymType>, text: string)
    requires Unbroken(text)
    ensures TitleOk(types, text) <==>
      forall rest: string, st: State | types.Keys == st.saved.Keys :: ReadAll(types, PrintedTitle(text) + rest, st) == ReadAll(types, rest, st)
  {
    hide ReadAll, ReadLine, Quiet, PrintedTitle, PiecesOf, ReadPieces;
    if TitleOk(types, text) {
      forall rest: string, st: State | types.Keys == st.saved.Keys
        ensures ReadAll(types, PrintedTitle(text) + rest, st) == ReadAll(types, rest, st)
      {
        TitleRead(types, text, rest, st);
      }
    } else {
      var st := State(map n | n in types :: Saved(0, None, true), 0);
      TitleIsPieces(types, text, "", st);
      CommentIsPieces(types, text, "", st);
      QuietPieces(types, PiecesOf("# " + text), st);
      ReadNothing(types, "", st);
      ReadNothing(types, "", ReadPieces(types, PiecesOf("# " + text), st));
    }
  }

  // a title of one line is harmful only if it says that a symbol is not set
  lemma ShortTitleOk(types: map<string, SymType>, text: string)
    requires Unbroken(text) && |"# " + text| < LINE
    ensures TitleOk(types, text) <==> forall name :: !Unsets(types, text, name)
  {
    hide Unsets;
    var l := "# " + text;
    assert PiecesOf(l) == [l];
    Pieces("# ", text);
    assert Quiet(types, l) <==> forall name :: !Unsets(types, text, name);
    assert l in PiecesOf(l);
  }

  lemma UnsetsKnown(types: map<string, SymType>, text: string, name: string)
    requires Unsets(types, text, name)
    ensures name in types
  {
  }

  lemma TitleRead(types: map<string, SymType>, text: string, rest: string, st: State)
    requires types.Keys == st.saved.Keys && TitleOk(types, text)
    ensures ReadAll(types, PrintedTitle(text) + rest, st) == ReadAll(types, rest, st)
  {
    hide ReadAll, ReadPieces, PiecesOf, Quiet, PrintedTitle;
    TitleIsPieces(types, text, rest, st);
    CommentIsPieces(types, text, rest, st);
    QuietPieces(types, PiecesOf("# " + text), st);
  }

  // titles do no harm, and what is printed fits
  ghost predicate Readable(entries: seq<Entry>, types: map<string, SymType>, values: map<string, Value>, pending: set<string>)
    requires Covered(entries, types, values)
  {
    forall e | e in entries ::
      if e.Title? then TitleOk(types, e.text) else e.name in pending ==> Printable(types[e.name], e.name, values[e.name])
  }

  // Reading what was printed restores every printed symbol, leaves every other
  // symbol alone and warns of nothing.
  lemma {:induction false} ReadsBack(entries: seq<Entry>, types: map<string, SymType>, values: map<string, Value>, pending: set<string>, st: State)
    requires Covered(entries, types, values) && Readable(entries, types, values, pending) && types.Keys == st.saved.Keys
    ensures var st' := ReadAll(types, PrintedAll(entries, types, values, pending), st);
      && st'.warnings == st.warnings
      && forall n | n in types ::
        if n in pending && Item(n) in entries && IsPrinted(types[n]) then Restored(types[n], values[n], st'.saved[n])
        else st'.saved[n] == st.saved[n]
  {
    hide ReadAll, Printed, Printable, TitleOk, Restored, PrintedTitle;
    if entries == [] {
      ReadNothing(types, "", st);
    } else {
      var rest := entries[1..];
      assert forall e :: e in entries <==> e == entries[0] || e in rest;
      match entries[0] {
        case Title(text) =>
          TitleRead(types, text, PrintedAll(rest, types, values, pending), st);
          ReadsBack(rest, types, values, pending, st);
        case Item(n) =>
          if n in pending {
            var more := PrintedAll(rest, types, values, pending - {n});
            var s := LineRead(types, n, values[n], more, st);
            ReadsBack(rest, types, values, pending - {n}, s);
          } else {
            ReadsBack(rest, types, values, pending, st);
          }
      }
    }
  }

  // the comment at the top of the file, with the version and, if wanted, the time
  function Header(version: string, stamp: Option<string>): string {
    "#\n" + (Comment(Note()) + (Comment(VersionText(version)) + ((if stamp.Some? then Comment(stamp.value) else "") + "#\n")))
  }

  function Comment(text: string): string {
    "# " + text + "\n"
  }

  lemma HeaderTexts(version: string, stamp: Option<string>)
    ensures Note() == "Automatically generated make config: don't edit"
    ensures var time := if stamp.Some? then "# " + stamp.value + "\n" else "";
      Header(version, stamp) == "#\n" + ("# " + Note() + "\n") + ("# OpenWrt version: " + version + "\n") + time + "#\n"
  {
    HeaderNote();
    VersionLine(version);
    hide Note, VersionText;
    var time := if stamp.Some? then Comment(stamp.value) else "";
    FiveParts("#\n", Comment(Note()), Comment(VersionText(version)), time, "#\n");
  }

  lemma VersionLine(version: string)
    ensures Comment(VersionText(version)) == "# OpenWrt version: " + version + "\n"
  {
    assert "# " + "OpenWrt version: " == "# OpenWrt version: ";
    assert "# " + ("OpenWrt version: " + version) == ("# " + "OpenWrt version: ") + version;
  }

  lemma FiveParts(a: string, b: string, c: string, d: string, e: string)
    ensures a + (b + (c + (d + e))) == a + b + c + d + e
  {
  }

  lemma HeaderNote()
    ensures Note() == "Automatically generated make config: don't edit"
  {
  }

  // in parts, as short literals are easier on the verifier
  function Note(): (s: string)
    ensures s != [] && s[0] == 'A'
  {
    "Automatically " + "generated make" + " config: don't edit"
  }

  function VersionText(version: string): (s: string)
    ensures s != [] && s[0] == 'O'
  {
    "OpenWrt version: " + version
  }

  lemma NoSetting(types: map<string, SymType>, text: string)
    requires text != [] && text[0] != 'C'
    ensures forall name :: !Unsets(types, text, name)
  {
    hide Prefix, NotSet;
  }

  lemma NoteOk(types: map<string, SymType>)
    ensures TitleOk(types, Note())
  {
    NoSetting(types, Note());
    hide Unsets, TitleOk;
    NoteFree();
    ShortTitleOk(types, Note());
  }

  lemma NoteFree()
    ensures Unbroken(Note()) && |"# " + Note()| < LINE
  {
    var a, b, c := "Automatically ", "generated make", " config: don't edit";
    FreeThree(a, b, c);
  }

  lemma HeaderRead(types: map<string, SymType>, version: string, stamp: Option<string>, rest: string, st: State)
    requires types.Keys == st.saved.Keys && TitleOk(types, VersionText(version)) && (stamp.Some? ==> TitleOk(types, stamp.value))
    ensures ReadAll(types, Header(version, stamp) + rest, st) == ReadAll(types, rest, st)
  {
    hide ReadAll, Note, VersionText, TitleOk, Comment;
    var r4 := "#\n" + rest;
    var r3 := if stamp.Some? then Comment(stamp.value) + r4 else r4;
    var r2 := Comment(VersionText(version)) + r3;
    var r1 := Comment(Note()) + r2;
    assert Header(version, stamp) + rest == "#\n" + r1;
    NoteOk(types);
    HashRead(types, r1, st);
    CommentRead(types, Note(), r2, st);
    CommentRead(types, VersionText(version), r3, st);
    if stamp.Some? {
      CommentRead(types, stamp.value, r4, st);
    }
    HashRead(types, rest, st);
  }

  // a version of one line is always good
  lemma VersionOk(types: map<string, SymType>, version: string)
    requires Unbroken(VersionText(version)) && |"# " + VersionText(version)| < LINE
    ensures TitleOk(types, VersionText(version))
  {
    NoSetting(types, VersionText(version));
    hide Unsets, TitleOk;
    ShortTitleOk(types, VersionText(version));
  }

  // Saving and loading: a fresh reader ends with exactly the printed values.
  method SaveAndLoad(entries: seq<Entry>, types: map<string, SymType>, values: map<string, Value>, written: set<string>,
      version: string, stamp: Option<string>)
    returns (reader: Reader)
    requires Covered(entries, types, values) && Readable(entries, types, values, written)
    requires TitleOk(types, VersionText(version)) && (stamp.Some? ==> TitleOk(types, stamp.value))
    ensures reader.types == types && reader.saved.Keys == types.Keys && reader.warnings == 0
    ensures forall n | n in types ::
      if n in written && Item(n) in entries && IsPrinted(types[n]) then Restored(types[n], values[n], reader.saved[n])
      else reader.saved[n] == Saved(0, None, true)
  {
    hide ReadAll, PrintedAll, Readable, Header, Restored;
    var out, pending := WriteEntries(entries, types, values, written);
    reader := new Reader(types);
    ghost var st := reader.Current();
    HeaderRead(types, version, stamp, out, st);
    ReadsBack(entries, types, values, written, st);
    reader.ReadFile(Header(version, stamp) + out);
  }
}
