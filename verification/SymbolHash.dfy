/** Interning of symbols: sym_lookup gives one symbol for one name, so that
    comparing pointers compares names. */
module SymbolHash {
  import opened Options

  // a symbol: the three fixed ones, or a position in the table
  datatype Id = FixedYes | FixedMod | FixedNo | At(index: nat)

  datatype Key = Key(name: Option<string>, isConst: bool)

  const HASHSIZE: nat := 257

  function Fixed(name: string): Option<Id> {
    if name == "y" then Some(FixedYes)
    else if name == "m" then Some(FixedMod)
    else if name == "n" then Some(FixedNo)
    else None
  }

  function Sum(name: string): nat {
    if name == [] then 0 else Sum(name[..|name| - 1]) + name[|name| - 1] as nat
  }

  function Bucket(name: string): (h: nat)
    ensures h < 256
  {
    Sum(name) % 256
  }

  class Table {
    const chains: array<seq<nat>>
    var symbols: seq<Key>

    // Every named symbol is in the chain of its name and only there; no two
    // named symbols have the same name and kind.
    ghost predicate Valid()
      reads this, chains
    {
      && chains.Length == HASHSIZE
      && (forall h, k | 0 <= h < 256 && 0 <= k < |chains[h]| :: InChain(h, chains[h][k]))
      && (forall i | 0 <= i < |symbols| && symbols[i].name.Some? :: i in chains[Bucket(symbols[i].name.value)])
      && Distinct(symbols)
    }

    ghost predicate InChain(h: nat, i: nat)
      reads this
    {
      i < |symbols| && symbols[i].name.Some? && Bucket(symbols[i].name.value) == h && Fixed(symbols[i].name.value).None?
    }

    constructor ()
      ensures Valid() && symbols == [] && fresh(chains)
    {
      chains := new seq<nat>[HASHSIZE](_ => []);
      symbols := [];
    }

    method Hash(name: string) returns (h: nat)
      ensures h == Bucket(name)
    {
      var sum, i := 0, 0;
      while i < |name|
        invariant i <= |name| && sum == Sum(name[..i])
      {
        assert name[..i + 1][..i] == name[..i];
        sum := sum + name[i] as nat;
        i := i + 1;
      }
      assert name[..i] == name;
      h := sum % 256;
    }

    // sym_lookup
    method Lookup(name: Option<string>, isConst: bool) returns (r: Id)
      requires Valid()
      modifies this`symbols, chains
      ensures Valid() && old(symbols) <= symbols
      ensures if name.Some? && Fixed(name.value).Some? then r == Fixed(name.value).value && symbols == old(symbols)
        else r.At? && r.index < |symbols| && symbols[r.index] == Key(name, isConst)
      ensures symbols == if (name.Some? && Fixed(name.value).Some?) || (name.Some? && Key(name, isConst) in old(symbols))
        then old(symbols) else old(symbols) + [Key(name, isConst)]
    {
      var h := 256;
      if name.Some? {
        if Fixed(name.value).Some? {
          return Fixed(name.value).value;
        }
        h := Hash(name.value);
        var k := 0;
        while k < |chains[h]|
          invariant k <= |chains[h]|
          invariant forall j | 0 <= j < k :: symbols[chains[h][j]] != Key(name, isConst)
        {
          assert InChain(h, chains[h][k]);
          var i := chains[h][k];
          if symbols[i].name == name && symbols[i].isConst == isConst {
            return At(i);
          }
          k := k + 1;
        }
        NotInTable(name.value, isConst);
      }
      ghost var before := symbols;
      symbols := symbols + [Key(name, isConst)];
      chains[h] := [|symbols| - 1] + chains[h];
      r := At(|symbols| - 1);
      DistinctMore(before, Key(name, isConst));
    }

    lemma NotInTable(name: string, isConst: bool)
      requires Valid()
      requires forall j | 0 <= j < |chains[Bucket(name)]| :: symbols[chains[Bucket(name)][j]] != Key(Some(name), isConst)
      ensures Key(Some(name), isConst) !in symbols
    {
    }

    // sym_find
    method Find(name: string) returns (r: Option<Id>)
      requires Valid()
      ensures if Fixed(name).Some? then r == Fixed(name)
        else if Key(Some(name), false) in symbols then
          r.Some? && r.value.At? && r.value.index < |symbols| && symbols[r.value.index] == Key(Some(name), false)
        else r == None
    {
      if Fixed(name).Some? {
        return Fixed(name);
      }
      var h := Hash(name);
      var k := 0;
      while k < |chains[h]|
        invariant k <= |chains[h]|
        invariant forall j | 0 <= j < k :: symbols[chains[h][j]] != Key(Some(name), false)
      {
        assert InChain(h, chains[h][k]);
        var i := chains[h][k];
        if symbols[i].name == Some(name) && !symbols[i].isConst {
          return Some(At(i));
        }
        k := k + 1;
      }
      NotInTable(name, false);
      return None;
    }
  }

  ghost predicate Distinct(symbols: seq<Key>) {
    forall i, j | 0 <= i < j < |symbols| && symbols[i].name.Some? :: symbols[i] != symbols[j]
  }

  lemma DistinctMore(symbols: seq<Key>, k: Key)
    requires Distinct(symbols) && (k.name.Some? ==> k !in symbols)
    ensures Distinct(symbols + [k])
  {
  }

  // the symbol a lookup gives in a table
  ghost predicate Gives(symbols: seq<Key>, name: string, isConst: bool, r: Id) {
    if Fixed(name).Some? then r == Fixed(name).value
    else r.At? && r.index < |symbols| && symbols[r.index] == Key(Some(name), isConst)
  }

  // Two lookups at any two times give the same symbol exactly if they ask for
  // the same name of the same kind; y, m and n are constants of either kind.
  lemma SameSymbolSameName(early: seq<Key>, late: seq<Key>, a: string, aConst: bool, b: string, bConst: bool, r: Id, s: Id)
    requires Distinct(late) && early <= late && Gives(early, a, aConst, r) && Gives(late, b, bConst, s)
    ensures r == s <==> a == b && (aConst == bConst || Fixed(a).Some?)
  {
  }
}
