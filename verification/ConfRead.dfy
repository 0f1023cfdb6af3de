/** Reading the configuration file: conf_read_file, line by line. */
module ConfRead {
  import opened Options
  import opened ExprCore
  import opened ConfText

  // sizeof(line)
  const LINE: nat := 1024

  // what the reader knows of a symbol: user.tri, user.val and the NEW flag
  datatype Saved = Saved(tri: Tristate, text: Option<string>, isNew: bool)

  datatype State = State(saved: map<string, Saved>, warnings: nat) {
    function Warn(): State {
      this.(warnings := warnings + 1)
    }

    function SetTri(name: string, t: Tristate): State
      requires name in saved
    {
      this.(saved := saved[name := saved[name].(tri := t, isNew := false)])
    }

    function SetText(name: string, t: string): State
      requires name in saved
    {
      this.(saved := saved[name := saved[name].(text := Some(t), isNew := false)])
    }
  }

  predicate Digit(c: char) {
    '0' <= c <= '9'
  }

  predicate HexDigit(c: char) {
    Digit(c) || 'a' <= c <= 'f' || 'A' <= c <= 'F'
  }

  ghost predicate Decimal(s: string) {
    s != [] && (s[0] == '0' ==> |s| == 1) && forall i | 0 <= i < |s| :: Digit(s[i])
  }

  ghost predicate Hexadecimal(s: string) {
    s != [] && forall i | 0 <= i < |s| :: HexDigit(s[i])
  }

  // the texts accepted for the type: decimal numbers have no leading zero
  ghost predicate ValidText(stype: SymType, s: string) {
    match stype
    case String => true
    case Int => Decimal(s[if s != [] && s[0] == '-' then 1 else 0..])
    case Hex => Hexadecimal(s[if |s| >= 2 && s[0] == '0' && (s[1] == 'x' || s[1] == 'X') then 2 else 0..])
    case _ => false
  }

  // the decimal text of a number
  function DecimalText(n: nat): (s: string)
    ensures |s| > 0
  {
    if n < 10 then [DigitOf(n)] else DecimalText(n / 10) + [DigitOf(n % 10)]
  }

  function DigitOf(d: nat): (c: char)
    requires d < 10
    ensures Digit(c)
  {
    ['0', '1', '2', '3', '4', '5', '6', '7', '8', '9'][d]
  }

  function ValueOfDigit(c: char): (d: nat)
    requires Digit(c)
    ensures d < 10 && DigitOf(d) == c
  {
    (c as int) - ('0' as int)
  }

  // An int is accepted exactly if it is the decimal text of a number, with a
  // minus in front or not.
  lemma IntTexts(s: string)
    ensures ValidText(Int, s) <==> exists n :: s == DecimalText(n) || s == "-" + DecimalText(n)
  {
    forall n: nat
      ensures ValidText(Int, DecimalText(n)) && ValidText(Int, "-" + DecimalText(n))
    {
      DecimalAccepted(n);
      assert ("-" + DecimalText(n))[1..] == DecimalText(n);
    }
    if ValidText(Int, s) {
      var k := if s != [] && s[0] == '-' then 1 else 0;
      var n := DecimalRead(s[k..]);
      assert k == 1 ==> s == "-" + s[k..];
    }
  }

  lemma {:induction false} DecimalAccepted(n: nat)
    ensures Decimal(DecimalText(n)) && (n > 0 ==> DecimalText(n)[0] != '0')
  {
    if n >= 10 {
      DecimalAccepted(n / 10);
      var t := DecimalText(n / 10);
      assert forall i | 0 <= i < |t| :: DecimalText(n)[i] == t[i];
    }
  }

  lemma {:induction false} DecimalRead(s: string) returns (n: nat)
    requires Decimal(s)
    ensures DecimalText(n) == s && (s[0] != '0' ==> n > 0)
  {
    var d := ValueOfDigit(s[|s| - 1]);
    if |s| == 1 {
      n := d;
    } else {
      var t := s[..|s| - 1];
      var m := DecimalRead(t);
      n := 10 * m + d;
      assert n / 10 == m && n % 10 == d;
      assert s == t + [s[|s| - 1]];
    }
  }

  ghost predicate HexOf(s: string, t: string) {
    t != [] && (forall c | c in t :: HexDigit(c)) && (s == t || s == "0x" + t || s == "0X" + t)
  }

  // A hex is accepted exactly if it is one or more hexadecimal digits, with 0x
  // or 0X in front or not.
  lemma HexTexts(s: string)
    ensures ValidText(Hex, s) <==> exists t :: HexOf(s, t)
  {
    var k := if |s| >= 2 && s[0] == '0' && (s[1] == 'x' || s[1] == 'X') then 2 else 0;
    var t := s[k..];
    assert k == 2 ==> s == [s[0], s[1]] + t;
    assert k == 0 ==> s == t;
    if ValidText(Hex, s) {
      assert HexOf(s, t);
    }
    forall u | HexOf(s, u)
      ensures ValidText(Hex, s)
    {
      if s == u {
        assert |s| >= 2 ==> s[1] in u;
        assert !HexDigit('x') && !HexDigit('X');
        assert s[0..] == s;
      } else {
        assert s[0] == '0' && s[2..] == u;
      }
    }
  }

  ghost function ReadLine(types: map<string, SymType>, l: string, st: State): (r: State)
    requires types.Keys == st.saved.Keys
    ensures r.saved.Keys == st.saved.Keys
  {
    if l == [] then st.Warn()
    else if l[0] == '#' then ReadUnset(types, l, st)
    else if l[0] == 'C' then ReadAssignment(types, l, st)
    else if l[0] == '\n' then st
    else st.Warn()
  }

  function Prefix(): (s: string)
    ensures |s| == 7 && s[0] == 'C'
  {
    "CONFIG_"
  }

  function NotSet(): (s: string)
    ensures |s| == 10
  {
    "is not set"
  }

  // "# CONFIG_X is not set"
  ghost function ReadUnset(types: map<string, SymType>, l: string, st: State): (r: State)
    requires types.Keys == st.saved.Keys
    ensures r.saved.Keys == st.saved.Keys
  {
    if |l| < 9 || l[2..9] != Prefix() then st
    else
      var s := l[9..];
      var k := Index(s, ' ');
      if k == |s| || !(NotSet() <= s[k + 1..]) then st
      else if s[..k] in types && types[s[..k]] in {Boolean, Tristated} then st.SetTri(s[..k], 0)
      else st
  }

  // "CONFIG_X=value"
  ghost function ReadAssignment(types: map<string, SymType>, l: string, st: State): (r: State)
    requires types.Keys == st.saved.Keys
    ensures r.saved.Keys == st.saved.Keys
  {
    if !(Prefix() <= l) then st.Warn()
    else
      var s := l[7..];
      var k := Index(s, '=');
      if k == |s| then st
      else
        var v := s[k + 1..];
        if s[..k] in types then Assign(types[s[..k]], s[..k], v[..Index(v, '\n')], st) else st
  }

  ghost function Assign(stype: SymType, name: string, p: string, st: State): (r: State)
    requires name in st.saved
    ensures r.saved.Keys == st.saved.Keys
  {
    match stype
    case Tristated =>
      if p != [] && p[0] == 'm' then st.SetTri(name, 1) else AssignBoolean(name, p, st)
    case Boolean => AssignBoolean(name, p, st)
    case String =>
      if p == [] || p[0] != '"' then st
      else
        var u := Unescape(p[1..]);
        if u.Some? then st.SetText(name, u.value) else st.Warn()
    case Int => if ValidText(Int, p) then st.SetText(name, p) else st.Warn()
    case Hex => if ValidText(Hex, p) then st.SetText(name, p) else st.Warn()
    case _ => st
  }

  ghost function AssignBoolean(name: string, p: string, st: State): State
    requires name in st.saved
  {
    if p != [] && p[0] == 'y' then st.SetTri(name, 2)
    else if p != [] && p[0] == 'n' then st.SetTri(name, 0)
    else st.Warn()
  }

  // the length of what fgets puts into the buffer
  function LineLength(input: string): (n: nat)
    requires input != []
    ensures 1 <= n <= |input| && n < LINE
  {
    var k := Index(input, '\n');
    var n := if k < |input| then k + 1 else k;
    if n < LINE then n else LINE - 1
  }

  ghost function ReadAll(types: map<string, SymType>, input: string, st: State): (r: State)
    requires types.Keys == st.saved.Keys
    ensures r.saved.Keys == st.saved.Keys
    decreases |input|
  {
    if input == [] then st
    else
      var n := LineLength(input);
      ReadAll(types, input[n..], ReadLine(types, CStr(input[..n] + [NUL], 0), st))
  }

  lemma ReadStep(types: map<string, SymType>, input: string, pos: nat, st: State)
    requires types.Keys == st.saved.Keys && pos < |input|
    ensures var n := LineLength(input[pos..]);
      var st' := ReadLine(types, CStr(input[pos..][..n] + [NUL], 0), st);
      ReadAll(types, input[pos..], st) == ReadAll(types, input[pos + n..], st')
  {
    var n := LineLength(input[pos..]);
    assert input[pos..][n..] == input[pos + n..];
  }

  lemma ReadNothing(types: map<string, SymType>, input: string, st: State)
    requires types.Keys == st.saved.Keys && input == []
    ensures ReadAll(types, input, st) == st
  {
  }

  // isdigit and isxdigit loops of sym_string_valid
  method StringValid(stype: SymType, str: string) returns (ok: bool)
    requires stype == Int || stype == Hex || stype == String
    ensures ok == ValidText(stype, str)
  {
    if stype == String {
      return true;
    }
    var i := 0;
    if stype == Int {
      if |str| > 0 && str[0] == '-' {
        i := 1;
      }
      ghost var d := str[i..];
      if i == |str| || !Digit(str[i]) {
        assert d != [] ==> d[0] == str[i];
        return false;
      }
      if str[i] == '0' && i + 1 < |str| {
        assert d[0] == '0' && |d| > 1;
        return false;
      }
      ghost var start := i;
      i := i + 1;
      while i < |str|
        invariant start < i <= |str| && forall j | start <= j < i :: Digit(str[j])
      {
        if !Digit(str[i]) {
          assert d[i - start] == str[i];
          return false;
        }
        i := i + 1;
      }
      return true;
    }
    if |str| >= 2 && str[0] == '0' && (str[1] == 'x' || str[1] == 'X') {
      i := 2;
    }
    ghost var start, d := i, str[i..];
    var first := true;
    while first || i < |str|
      invariant start <= i <= |str| && (forall j | start <= j < i :: HexDigit(str[j])) && first == (i == start)
      decreases |str| - i, if first then 1 else 0
    {
      if i == |str| || !HexDigit(str[i]) {
        assert if i < |str| then !HexDigit(d[i - start]) else d == [];
        return false;
      }
      i := i + 1;
      first := false;
    }
    return true;
  }

  class Reader {
    const types: map<string, SymType>
    var saved: map<string, Saved>
    var warnings: nat
    const line: array<char>

    ghost predicate Valid()
      reads this, line
    {
      types.Keys == saved.Keys && line.Length == LINE && line[LINE - 1] == NUL
    }

    ghost function Current(): State
      reads this
    {
      State(saved, warnings)
    }

    constructor (types: map<string, SymType>)
      ensures Valid() && fresh(line) && this.types == types && warnings == 0
      ensures forall n | n in types :: saved[n] == Saved(0, None, true)
    {
      this.types := types;
      this.saved := map n | n in types :: Saved(0, None, true);
      warnings := 0;
      this.line := new char[LINE](_ => NUL);
    }

    // fgets
    method GetLine(input: string, pos: nat) returns (n: nat)
      requires Valid() && pos < |input|
      modifies line
      ensures n == LineLength(input[pos..]) && Valid()
      ensures CStr(line[..], 0) == CStr(input[pos..][..n] + [NUL], 0)
    {
      hide CStr;
      n := 0;
      ghost var rest := input[pos..];
      var stop := false;
      while n < LINE - 1 && pos + n < |input| && !stop
        invariant n < LINE && pos + n <= |input| && line[LINE - 1] == NUL
        invariant forall j | 0 <= j < n :: line[j] == rest[j]
        invariant forall j | 0 <= j < n :: rest[j] == '\n' ==> j == n - 1 && stop
        invariant stop ==> n > 0 && rest[n - 1] == '\n'
      {
        line[n] := input[pos + n];
        stop := input[pos + n] == '\n';
        n := n + 1;
      }
      line[n] := NUL;
      assert n == LineLength(rest) by {
        IndexIs(rest, '\n', if stop then n - 1 else Index(rest, '\n'));
      }
      assert line[..n + 1] == rest[..n] + [NUL];
      SamePrefix(line[..], rest[..n] + [NUL]);
    }

    method ReadFile(input: string)
      requires Valid()
      modifies this`saved, this`warnings, line
      ensures Valid() && Current() == ReadAll(types, input, old(Current()))
    {
      hide ReadAll, ReadLine, LineLength, CStr;
      var pos := 0;
      assert input[0..] == input;
      while pos < |input|
        invariant pos <= |input| && Valid()
        invariant ReadAll(types, input[pos..], Current()) == ReadAll(types, input, old(Current()))
      {
        ReadStep(types, input, pos, Current());
        var n := GetLine(input, pos);
        ReadBuffer();
        pos := pos + n;
      }
      ReadNothing(types, input[pos..], Current());
    }

    // the switch on the first character of the line
    method ReadBuffer()
      requires Valid()
      modifies this`saved, this`warnings, line
      ensures Valid() && Current() == ReadLine(types, old(CStr(line[..], 0)), old(Current()))
    {
      CStrEnds(line[..], 0);
      match line[0] {
        case '#' => ReadUnsetLine();
        case 'C' => ReadAssignmentLine();
        case '\n' =>
        case _ => warnings := warnings + 1;
      }
    }

    method ReadUnsetLine()
      requires Valid() && line[0] == '#'
      modifies this`saved, line
      ensures Valid() && Current() == ReadUnset(types, old(CStr(line[..], 0)), old(Current()))
    {
      hide CStr, Index, Prefix, NotSet;
      var l := CStr(line[..], 0);
      if |l| < 9 || l[2..9] != Prefix() {
        return;
      }
      CStrTail(line[..], 0, 9);
      var s := CStr(line[..], 9);
      var k := Index(s, ' ');
      if k == |s| {
        return;
      }
      Store(9, k);
      var p := CStr(line[..], 9 + k + 1);
      if !(NotSet() <= p) {
        return;
      }
      var name := CStr(line[..], 9);
      if name in types && (types[name] == Boolean || types[name] == Tristated) {
        saved := saved[name := saved[name].(tri := 0, isNew := false)];
      }
    }

    method ReadAssignmentLine()
      requires Valid() && line[0] == 'C'
      modifies this`saved, this`warnings, line
      ensures Valid() && Current() == ReadAssignment(types, old(CStr(line[..], 0)), old(Current()))
    {
      hide CStr, Index, Prefix, Assign;
      var l := CStr(line[..], 0);
      if !(Prefix() <= l) {
        warnings := warnings + 1;
        return;
      }
      CStrTail(line[..], 0, 7);
      var s := CStr(line[..], 7);
      var k := Index(s, '=');
      if k == |s| {
        return;
      }
      Store(7, k);
      var p := 7 + k + 1;
      var v := CStr(line[..], p);
      var e := Index(v, '\n');
      assert CStr(line[..], 7) == s[..k];
      if e < |v| {
        Store(p, e);
        assert CStr(line[..], p) == v[..e];
      }
      var name := s[..k];
      assert CStr(line[..], p) == s[k + 1..][..Index(s[k + 1..], '\n')];
      if name in types {
        AssignBuffer(name, p);
      }
    }

    // the switch on the type of the symbol, for the value text at p
    method AssignBuffer(name: string, p: nat)
      requires Valid() && name in types && p < LINE
      modifies this`saved, this`warnings, line
      ensures Valid() && Current() == Assign(types[name], name, old(CStr(line[..], p)), old(Current()))
    {
      hide CStr, Unescape, ValidText;
      var v := CStr(line[..], p);
      CStrEnds(line[..], p);
      var stype := types[name];
      if stype == Tristated && line[p] == 'm' {
        saved := saved[name := saved[name].(tri := 1, isNew := false)];
      } else if stype == Tristated || stype == Boolean {
        if line[p] == 'y' {
          saved := saved[name := saved[name].(tri := 2, isNew := false)];
        } else if line[p] == 'n' {
          saved := saved[name := saved[name].(tri := 0, isNew := false)];
        } else {
          warnings := warnings + 1;
        }
      } else if stype == String {
        AssignText(name, p);
      } else if stype == Int || stype == Hex {
        var ok := StringValid(stype, v);
        if ok {
          saved := saved[name := saved[name].(text := Some(v), isNew := false)];
        } else {
          warnings := warnings + 1;
        }
      }
    }

    // a quoted text at p
    method AssignText(name: string, p: nat)
      requires Valid() && name in types && p < LINE
      modifies this`saved, this`warnings, line
      ensures Valid() && Current() == Assign(String, name, old(CStr(line[..], p)), old(Current()))
    {
      hide CStr, Unescape;
      CStrEnds(line[..], p);
      if line[p] != '"' {
        return;
      }
      CStrTail(line[..], p, 1);
      var ok := UnescapeInPlace(line, p + 1);
      if ok {
        saved := saved[name := saved[name].(text := Some(CStr(line[..], p + 1)), isNew := false)];
      } else {
        warnings := warnings + 1;
      }
    }

    // a terminator at position k of the string at i
    method Store(i: nat, k: nat)
      requires Valid() && i < LINE && k < |CStr(line[..], i)|
      modifies line
      ensures Valid() && i + k + 1 < LINE
      ensures CStr(line[..], i) == old(CStr(line[..], i))[..k]
      ensures CStr(line[..], i + k + 1) == old(CStr(line[..], i))[k + 1..]
      ensures forall j | 0 <= j < i :: line[j] == old(line[j])
    {
      CStrEnds(line[..], i);
      Cut(line[..], i, k);
      ghost var b := line[..];
      line[i + k] := NUL;
      assert line[..] == b[i + k := NUL];
    }
  }
}
