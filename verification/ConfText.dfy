/** Quoted text in the configuration file: the escaping loop of conf_write and
    the in-place unescaping loop of conf_read_file. Strings are C strings
    without their terminator; a buffer holds the terminator. */
module ConfText {
  import opened Options

  const NUL: char := 0 as char

  // the first position of c in s, or |s|
  function Index(s: string, c: char): (k: nat)
    ensures k <= |s| && (forall i | 0 <= i < k :: s[i] != c) && (k < |s| ==> s[k] == c)
  {
    if s == [] || s[0] == c then 0 else 1 + Index(s[1..], c)
  }

  lemma IndexIs(s: string, c: char, k: nat)
    requires k <= |s| && (forall i | 0 <= i < k :: s[i] != c) && (k < |s| ==> s[k] == c)
    ensures Index(s, c) == k
  {
  }

  ghost predicate Free(s: string, c: char) {
    forall i | 0 <= i < |s| :: s[i] != c
  }

  // the C string at position i of a buffer
  function CStr(b: string, i: nat): (s: string)
    requires i <= |b|
  {
    b[i..][..Index(b[i..], NUL)]
  }

  lemma CStrIs(b: string, i: nat, k: nat)
    requires i + k < |b| && b[i + k] == NUL && forall j | i <= j < i + k :: b[j] != NUL
    ensures CStr(b, i) == b[i..i + k]
  {
    IndexIs(b[i..], NUL, k);
  }

  lemma CStrEnds(b: string, i: nat)
    requires i < |b| && b[|b| - 1] == NUL
    ensures i + |CStr(b, i)| < |b| && b[i + |CStr(b, i)|] == NUL
    ensures forall j | i <= j < i + |CStr(b, i)| :: b[j] != NUL && b[j] == CStr(b, i)[j - i]
  {
    assert b[i..][|b| - 1 - i] == NUL;
    forall j | i <= j < i + |CStr(b, i)|
      ensures b[j] != NUL && b[j] == CStr(b, i)[j - i]
    {
      assert b[i..][j - i] == b[j];
    }
  }

  lemma SamePrefix(b: string, a: string)
    requires 0 < |a| <= |b| && b[..|a|] == a && a[|a| - 1] == NUL
    ensures CStr(b, 0) == CStr(a, 0)
  {
    hide CStr;
    CStrEnds(a, 0);
    var k := |CStr(a, 0)|;
    assert forall j | 0 <= j <= k :: b[j] == a[j];
    CStrIs(b, 0, k);
    CStrIs(a, 0, k);
    assert b[0..k] == a[0..k];
  }

  lemma CStrTail(b: string, i: nat, k: nat)
    requires i < |b| && b[|b| - 1] == NUL && k <= |CStr(b, i)|
    ensures i + k < |b| && CStr(b, i + k) == CStr(b, i)[k..]
  {
    CStrEnds(b, i);
    CStrIs(b, i + k, |CStr(b, i)| - k);
  }

  // a terminator stored into a string makes two of it
  lemma Cut(b: string, i: nat, k: nat)
    requires i < |b| && b[|b| - 1] == NUL && k < |CStr(b, i)|
    ensures var b' := b[i + k := NUL];
      b'[|b| - 1] == NUL && CStr(b', i) == CStr(b, i)[..k] && CStr(b', i + k + 1) == CStr(b, i)[k + 1..]
  {
    CStrEnds(b, i);
    var b' := b[i + k := NUL];
    CStrIs(b', i, k);
    CStrIs(b', i + k + 1, |CStr(b, i)| - k - 1);
  }

  // ----- quoting -----

  predicate Special(c: char) {
    c == '"' || c == '\\'
  }

  // a backslash before every quote and backslash
  function Escape(s: string): string {
    if s == [] then []
    else (if Special(s[0]) then ['\\', s[0]] else [s[0]]) + Escape(s[1..])
  }

  // the text up to the first quote that has no backslash before it
  function Unescape(s: string): Option<string> {
    if s == [] then None
    else if s[0] == '"' then Some([])
    else if s[0] == '\\' then
      if |s| == 1 then None else Prepend([s[1]], Unescape(s[2..]))
    else Prepend([s[0]], Unescape(s[1..]))
  }

  function Prepend(a: string, o: Option<string>): Option<string> {
    match o
    case None => None
    case Some(t) => Some(a + t)
  }

  lemma {:induction false} UnescapeUndoesEscape(s: string, rest: string)
    ensures Unescape(Escape(s) + ['"'] + rest) == Some(s)
  {
    var e := Escape(s) + ['"'] + rest;
    if s != [] {
      UnescapeUndoesEscape(s[1..], rest);
      var e' := Escape(s[1..]) + ['"'] + rest;
      if Special(s[0]) {
        assert e == ['\\', s[0]] + e' && e[2..] == e';
      } else {
        assert e == [s[0]] + e' && e[1..] == e';
      }
      assert [s[0]] + s[1..] == s;
    }
  }

  // a text that breaks off before the closing quote is refused
  lemma {:induction false} EscapeOpen(s: string, k: nat)
    requires k <= |Escape(s)|
    ensures Unescape(Escape(s)[..k]) == None
  {
    if s != [] && k > 0 {
      var e := Escape(s)[..k];
      var n := if Special(s[0]) then 2 else 1;
      if k >= n {
        EscapeOpen(s[1..], k - n);
        assert e[n..] == Escape(s[1..])[..k - n];
      }
    }
  }

  lemma {:induction false} EscapeKeeps(s: string, c: char)
    requires !Special(c)
    ensures Free(Escape(s), c) <==> Free(s, c)
  {
    if s != [] {
      EscapeKeeps(s[1..], c);
      var e := Escape(s);
      var n := if Special(s[0]) then 2 else 1;
      assert e[n..] == Escape(s[1..]);
      assert s == [s[0]] + s[1..];
      assert e == e[..n] + e[n..];
      assert Free(e, c) <==> Free(e[..n], c) && Free(e[n..], c) by { FreeAppend(e[..n], e[n..], c); }
      assert Free(s, c) <==> Free([s[0]], c) && Free(s[1..], c) by { FreeAppend([s[0]], s[1..], c); }
      assert e[..n][n - 1] == s[0];
      assert [s[0]][0] == s[0];
    }
  }

  lemma FreeAppend(a: string, b: string, c: char)
    ensures Free(a + b, c) <==> Free(a, c) && Free(b, c)
  {
    if Free(a + b, c) {
      assert forall i | 0 <= i < |a| :: (a + b)[i] == a[i];
      assert forall i | 0 <= i < |b| :: (a + b)[|a| + i] == b[i];
    }
  }

  lemma {:induction false} UnescapePlain(a: string, t: string)
    requires forall i | 0 <= i < |a| :: !Special(a[i])
    ensures Unescape(a + t) == Prepend(a, Unescape(t))
  {
    if a == [] {
      assert a + t == t;
      assert forall u: string :: [] + u == u;
    } else {
      UnescapePlain(a[1..], t);
      assert (a + t)[1..] == a[1..] + t;
      assert forall u: string :: [a[0]] + (a[1..] + u) == a + u;
    }
  }

  lemma PrependTwice(a: string, b: string, o: Option<string>)
    ensures Prepend(a, Prepend(b, o)) == Prepend(a + b, o)
  {
    assert forall u: string :: a + (b + u) == a + b + u;
  }

  // the printing loop of conf_write
  method WriteEscaped(str: string) returns (out: string)
    ensures out == Escape(str)
  {
    hide Escape;
    out := [];
    var i, first := 0, true;
    assert str[0..] == str;
    while first || i < |str|
      invariant i <= |str| && out + Escape(str[i..]) == Escape(str)
      decreases |str| - i, if first then 1 else 0
    {
      var l := 0;
      while i + l < |str| && !Special(str[i + l])
        invariant i + l <= |str| && forall j | i <= j < i + l :: !Special(str[j])
        decreases |str| - l
      {
        l := l + 1;
      }
      EscapePlain(str, i, l, out);
      if l != 0 {
        out := out + str[i..i + l];
      }
      i := i + l;
      while i < |str| && Special(str[i])
        invariant i <= |str| && out + Escape(str[i..]) == Escape(str)
        decreases |str| - i
      {
        EscapeSpecial(str, i, out);
        out := out + ['\\', str[i]];
        i := i + 1;
      }
      first := false;
    }
    EscapeNone(str[i..]);
  }

  lemma EscapeNone(s: string)
    requires s == []
    ensures Escape(s) == []
  {
  }

  lemma {:induction false} EscapePlain(str: string, i: nat, l: nat, out: string)
    requires i + l <= |str| && forall j | i <= j < i + l :: !Special(str[j])
    ensures out + Escape(str[i..]) == out + str[i..i + l] + Escape(str[i + l..])
    ensures l == 0 ==> out + str[i..i + l] == out
    decreases l
  {
    if l > 0 {
      EscapePlain(str, i + 1, l - 1, out + [str[i]]);
      assert str[i..][1..] == str[i + 1..];
      assert out + str[i..i + l] == out + [str[i]] + str[i + 1..i + l];
    }
  }

  lemma EscapeSpecial(str: string, i: nat, out: string)
    requires i < |str| && Special(str[i])
    ensures out + Escape(str[i..]) == out + ['\\', str[i]] + Escape(str[i + 1..])
  {
    assert str[i..][1..] == str[i + 1..];
  }

  // In the buffer b, the text s that started at p is unescaped up to p2.
  ghost predicate Progress(b: string, p: nat, p2: nat, s: string) {
    && p <= p2 < |b| && b[|b| - 1] == NUL
    && Unescape(s) == Prepend(b[p..p2], Unescape(CStr(b, p2)))
    && Free(b[p..p2], NUL)
  }

  lemma StartUnescape(b: string, p: nat)
    requires p < |b| && b[|b| - 1] == NUL
    ensures Progress(b, p, p, CStr(b, p))
  {
    assert b[p..p] == [];
    assert forall u: string :: [] + u == u;
  }

  // k ordinary characters are passed over
  lemma StepPlain(b: string, p: nat, p2: nat, k: nat, s: string)
    requires Progress(b, p, p2, s) && k <= |CStr(b, p2)| && forall j | 0 <= j < k :: !Special(CStr(b, p2)[j])
    ensures p2 + k < |b| && CStr(b, p2 + k) == CStr(b, p2)[k..] && Progress(b, p, p2 + k, s)
  {
    var rest := CStr(b, p2);
    CStrEnds(b, p2);
    CStrTail(b, p2, k);
    UnescapePlain(rest[..k], rest[k..]);
    assert rest[..k] + rest[k..] == rest;
    PrependTwice(b[p..p2], rest[..k], Unescape(rest[k..]));
    assert b[p..p2 + k] == b[p..p2] + rest[..k];
    FreeAppend(b[p..p2], rest[..k], NUL);
  }

  // the closing quote is overwritten
  lemma StepQuote(b: string, p: nat, p2: nat, s: string)
    requires Progress(b, p, p2, s) && CStr(b, p2) != [] && CStr(b, p2)[0] == '"'
    ensures p2 < |b| - 1 && CStr(b[p2 := NUL], p) == b[p..p2] && Unescape(s) == Some(b[p..p2])
  {
    hide Index, CStr;
    CStrEnds(b, p2);
    assert forall j | p <= j < p2 :: b[j] == b[p..p2][j - p];
    CStrIs(b[p2 := NUL], p, p2 - p);
    assert b[p2 := NUL][p..p2] == b[p..p2];
    assert Unescape(CStr(b, p2)) == Some([]);
    assert b[p..p2] + [] == b[p..p2];
  }

  // a backslash is removed and the character after it is passed over
  lemma StepBackslash(b: string, b': string, p: nat, p2: nat, s: string)
    requires Progress(b, p, p2, s) && CStr(b, p2) != [] && CStr(b, p2)[0] == '\\'
    requires Shifted(b, b', p2, |CStr(b, p2)|)
    ensures p2 + 1 < |b|
    ensures if |CStr(b, p2)| == 1 then Unescape(s) == None && CStr(b', p2 + 1) == []
      else Progress(b', p, p2 + 1, s) && |CStr(b', p2 + 1)| < |CStr(b, p2)|
  {
    hide Index, CStr;
    var tail := CStr(b, p2);
    CStrEnds(b, p2);
    ShiftedString(b, b', p2);
    assert b'[p..p2] == b[p..p2];
    if |tail| == 1 {
      CStrIs(b', p2 + 1, 0);
    } else {
      assert b'[p2] == tail[1] && tail[1] != NUL;
      PrependTwice(b[p..p2], [tail[1]], Unescape(tail[2..]));
      assert b'[p..p2 + 1] == b[p..p2] + [tail[1]];
      FreeAppend(b[p..p2], [tail[1]], NUL);
    }
  }

  ghost predicate Shifted(b: string, b': string, at: nat, n: nat) {
    && at + n < |b| == |b'|
    && (forall j | at <= j < at + n :: b'[j] == b[j + 1])
    && (forall j | 0 <= j < at || at + n <= j < |b| :: b'[j] == b[j])
  }

  // The unescaping loop of conf_read_file, in place: the text at p is cut at
  // its closing quote and loses its backslashes.
  method UnescapeInPlace(line: array<char>, p: nat) returns (ok: bool)
    requires p < line.Length && line[line.Length - 1] == NUL
    modifies line
    ensures line[line.Length - 1] == NUL
    ensures var u := old(Unescape(CStr(line[..], p))); ok == u.Some? && (ok ==> CStr(line[..], p) == u.value)
  {
    hide Index, CStr, Unescape, Progress, Shifted;
    ghost var s := CStr(line[..], p);
    var p2 := p;
    ok := false;
    StartUnescape(line[..], p);
    ghost var ended := false;
    while true
      invariant p <= p2 < line.Length && line[line.Length - 1] == NUL
      invariant if ended then Unescape(s) == None && CStr(line[..], p2) == [] else Progress(line[..], p, p2, s)
      decreases if ended then 0 else 1 + |CStr(line[..], p2)|
    {
      var rest := CStr(line[..], p2);
      var k := 0;
      while k < |rest| && !Special(rest[k])
        invariant k <= |rest| && forall j | 0 <= j < k :: !Special(rest[j])
      {
        k := k + 1;
      }
      if !ended {
        StepPlain(line[..], p, p2, k, s);
      }
      if k == |rest| {
        Unclosed(line[..], p, p2 + k, s, ended);
        break;
      }
      p2 := p2 + k;
      CStrEnds(line[..], p2);
      if line[p2] == '"' {
        StepQuote(line[..], p, p2, s);
        ghost var b := line[..];
        line[p2] := NUL;
        assert line[..] == b[p2 := NUL];
        ok := true;
        break;
      }
      ghost var b := line[..];
      Shift(line, p2, |rest| - k);
      StepBackslash(b, line[..], p, p2, s);
      ended := |rest| - k == 1;
      p2 := p2 + 1;
    }
  }

  lemma Unclosed(b: string, p: nat, p2: nat, s: string, ended: bool)
    requires p2 < |b|
    requires if ended then Unescape(s) == None else Progress(b, p, p2, s) && CStr(b, p2) == []
    ensures Unescape(s) == None
  {
  }

  // memmove(at, at + 1, n)
  method Shift(line: array<char>, at: nat, n: nat)
    requires at + n < line.Length
    modifies line
    ensures Shifted(old(line[..]), line[..], at, n) && line[line.Length - 1] == old(line[line.Length - 1])
  {
    forall j | at <= j < at + n {
      line[j] := line[j + 1];
    }
  }

  // a string that lost its first character by memmove
  lemma ShiftedString(b: string, b': string, at: nat)
    requires at < |b| && b[|b| - 1] == NUL && CStr(b, at) != []
    requires Shifted(b, b', at, |CStr(b, at)|)
    ensures b'[|b| - 1] == NUL && CStr(b', at) == CStr(b, at)[1..]
    ensures |CStr(b, at)| > 1 ==> CStr(b', at + 1) == CStr(b, at)[2..]
    ensures at + 1 < |b| && b'[at + |CStr(b, at)|] == NUL
  {
    hide Index, CStr;
    var n := |CStr(b, at)|;
    CStrEnds(b, at);
    assert b'[at + n] == b[at + n];
    assert b'[at + n - 1] == b[at + n];
    assert forall j | at <= j < at + n - 1 :: b'[j] == b[j + 1] && b[j + 1] != NUL;
    CStrIs(b', at, n - 1);
    assert CStr(b', at) == CStr(b, at)[1..];
    if n > 1 {
      CStrTail(b', at, 1);
    }
  }
}
