/** The arithmetic of AES: bytes, words, the field of section 4.2 of FIPS 197,
    MixColumns and its inverse, and what the lookup tables contain. */
module AesField {
  import opened AesTables

  // ----- bytes and words -----

  // GETU32 and the bytes PUTU32 writes
  function Word(a: bv8, b: bv8, c: bv8, d: bv8): bv32 {
    ((a as bv32) << 24) ^ ((b as bv32) << 16) ^ ((c as bv32) << 8) ^ (d as bv32)
  }

  function Byte0(w: bv32): bv8 { (w >> 24) as bv8 }
  function Byte1(w: bv32): bv8 { ((w >> 16) & 0xff) as bv8 }
  function Byte2(w: bv32): bv8 { ((w >> 8) & 0xff) as bv8 }
  function Byte3(w: bv32): bv8 { (w & 0xff) as bv8 }

  lemma WordBytes(a: bv8, b: bv8, c: bv8, d: bv8)
    ensures var w := Word(a, b, c, d);
      Byte0(w) == a && Byte1(w) == b && Byte2(w) == c && Byte3(w) == d
  {
  }

  lemma BytesWord(w: bv32)
    ensures Word(Byte0(w), Byte1(w), Byte2(w), Byte3(w)) == w
  {
  }

  // Sums are named, so that a proof can replace equals inside them.
  function Add(v: bv32, w: bv32): bv32 { v ^ w }
  function Sum2(a: bv8, b: bv8): bv8 { a ^ b }
  function Sum3(a: bv8, b: bv8, c: bv8): bv8 { Sum2(Sum2(a, b), c) }
  function Sum4(a: bv8, b: bv8, c: bv8, d: bv8): bv8 { Sum2(Sum2(a, b), Sum2(c, d)) }

  lemma SumRules(a: bv8, b: bv8, c: bv8)
    ensures Sum2(Sum2(a, b), c) == Sum2(a, Sum2(b, c))
    ensures Sum2(a, b) == Sum2(b, a)
  {
  }

  lemma Regroup(a: bv8, a': bv8, b: bv8, b': bv8)
    ensures Sum2(Sum2(a, a'), Sum2(b, b')) == Sum2(Sum2(a, b), Sum2(a', b'))
  {
    hide Sum2;
    SumRules(a, a', Sum2(b, b'));
    SumRules(a', b, b');
    SumRules(b, a', b');
    SumRules(a, b, Sum2(a', b'));
  }

  lemma SumsLinear(a: bv8, b: bv8, c: bv8, d: bv8, a': bv8, b': bv8, c': bv8, d': bv8)
    ensures Sum2(Sum2(a, a'), Sum2(b, b')) == Sum2(Sum2(a, b), Sum2(a', b'))
    ensures Sum3(Sum2(a, a'), Sum2(b, b'), Sum2(c, c')) == Sum2(Sum3(a, b, c), Sum3(a', b', c'))
    ensures Sum4(Sum2(a, a'), Sum2(b, b'), Sum2(c, c'), Sum2(d, d')) == Sum2(Sum4(a, b, c, d), Sum4(a', b', c', d'))
  {
    hide Sum2;
    Regroup(a, a', b, b');
    Regroup(Sum2(a, b), Sum2(a', b'), c, c');
    Regroup(c, c', d, d');
    Regroup(Sum2(a, b), Sum2(a', b'), Sum2(c, d), Sum2(c', d'));
  }

  lemma AddLinear(a: bv8, b: bv8, c: bv8, d: bv8, a': bv8, b': bv8, c': bv8, d': bv8)
    ensures Add(Word(a, b, c, d), Word(a', b', c', d')) == Word(Sum2(a, a'), Sum2(b, b'), Sum2(c, c'), Sum2(d, d'))
  {
  }

  lemma Byte0Linear(v: bv32, w: bv32)
    ensures Byte0(Add(v, w)) == Sum2(Byte0(v), Byte0(w))
  {
  }

  lemma Byte1Linear(v: bv32, w: bv32)
    ensures Byte1(Add(v, w)) == Sum2(Byte1(v), Byte1(w))
  {
  }

  lemma Byte2Linear(v: bv32, w: bv32)
    ensures Byte2(Add(v, w)) == Sum2(Byte2(v), Byte2(w))
  {
  }

  lemma Byte3Linear(v: bv32, w: bv32)
    ensures Byte3(Add(v, w)) == Sum2(Byte3(v), Byte3(w))
  {
  }

  lemma AddTwice(v: bv32, w: bv32)
    ensures Add(Add(v, w), w) == v
  {
  }

  // ----- multiplication in the field -----

  // multiplication by x: the bit shifted out is reduced by the field
  // polynomial, whose low byte is 1b
  function Xtime(x: bv8): bv8 { (x << 1) ^ (x >> 7) ^ ((x >> 7) << 1) ^ ((x >> 7) << 3) ^ ((x >> 7) << 4) }
  function Times4(x: bv8): bv8 { Xtime(Xtime(x)) }
  function Times8(x: bv8): bv8 { Xtime(Times4(x)) }

  function Mul3(x: bv8): bv8 { Sum2(Xtime(x), x) }
  function Mul9(x: bv8): bv8 { Sum2(Times8(x), x) }
  function MulB(x: bv8): bv8 { Sum3(Times8(x), Xtime(x), x) }
  function MulD(x: bv8): bv8 { Sum3(Times8(x), Times4(x), x) }
  function MulE(x: bv8): bv8 { Sum3(Times8(x), Times4(x), Xtime(x)) }

  lemma XtimeLinear(x: bv8, y: bv8)
    ensures Xtime(Sum2(x, y)) == Sum2(Xtime(x), Xtime(y))
  {
  }

  lemma Times4Linear(x: bv8, y: bv8)
    ensures Times4(Sum2(x, y)) == Sum2(Times4(x), Times4(y))
  {
    XtimeLinear(x, y);
    XtimeLinear(Xtime(x), Xtime(y));
  }

  lemma Times8Linear(x: bv8, y: bv8)
    ensures Times8(Sum2(x, y)) == Sum2(Times8(x), Times8(y))
  {
    Times4Linear(x, y);
    XtimeLinear(Times4(x), Times4(y));
  }

  lemma Mul9Linear(x: bv8, y: bv8)
    ensures Mul9(Sum2(x, y)) == Sum2(Mul9(x), Mul9(y))
  {
    Times8Linear(x, y);
    SumsLinear(Times8(x), x, 0, 0, Times8(y), y, 0, 0);
  }

  lemma MulBLinear(x: bv8, y: bv8)
    ensures MulB(Sum2(x, y)) == Sum2(MulB(x), MulB(y))
  {
    Times8Linear(x, y);
    XtimeLinear(x, y);
    SumsLinear(Times8(x), Xtime(x), x, 0, Times8(y), Xtime(y), y, 0);
  }

  lemma MulDLinear(x: bv8, y: bv8)
    ensures MulD(Sum2(x, y)) == Sum2(MulD(x), MulD(y))
  {
    Times8Linear(x, y);
    Times4Linear(x, y);
    SumsLinear(Times8(x), Times4(x), x, 0, Times8(y), Times4(y), y, 0);
  }

  lemma MulELinear(x: bv8, y: bv8)
    ensures MulE(Sum2(x, y)) == Sum2(MulE(x), MulE(y))
  {
    Times8Linear(x, y);
    Times4Linear(x, y);
    XtimeLinear(x, y);
    SumsLinear(Times8(x), Times4(x), Xtime(x), 0, Times8(y), Times4(y), Xtime(y), 0);
  }

  // ----- columns (sections 5.1.3 and 5.3.3 of FIPS 197) -----

  function Mix(a: bv8, b: bv8, c: bv8, d: bv8): bv32 {
    Word(Sum4(Xtime(a), Mul3(b), c, d), Sum4(a, Xtime(b), Mul3(c), d),
         Sum4(a, b, Xtime(c), Mul3(d)), Sum4(Mul3(a), b, c, Xtime(d)))
  }

  function InvMixBytes(a: bv8, b: bv8, c: bv8, d: bv8): bv32 {
    Word(Sum4(MulE(a), MulB(b), MulD(c), Mul9(d)), Sum4(Mul9(a), MulE(b), MulB(c), MulD(d)),
         Sum4(MulD(a), Mul9(b), MulE(c), MulB(d)), Sum4(MulB(a), MulD(b), Mul9(c), MulE(d)))
  }

  function InvMix(w: bv32): bv32 {
    InvMixBytes(Byte0(w), Byte1(w), Byte2(w), Byte3(w))
  }

  lemma MulLinear(x: bv8, y: bv8)
    ensures Mul9(Sum2(x, y)) == Sum2(Mul9(x), Mul9(y)) && MulB(Sum2(x, y)) == Sum2(MulB(x), MulB(y))
    ensures MulD(Sum2(x, y)) == Sum2(MulD(x), MulD(y)) && MulE(Sum2(x, y)) == Sum2(MulE(x), MulE(y))
  {
    Mul9Linear(x, y);
    MulBLinear(x, y);
    MulDLinear(x, y);
    MulELinear(x, y);
  }

  lemma InvMixBytesLinear(a: bv8, b: bv8, c: bv8, d: bv8, a': bv8, b': bv8, c': bv8, d': bv8)
    ensures InvMixBytes(Sum2(a, a'), Sum2(b, b'), Sum2(c, c'), Sum2(d, d'))
         == Add(InvMixBytes(a, b, c, d), InvMixBytes(a', b', c', d'))
  {
    MulLinear(a, a');
    MulLinear(b, b');
    MulLinear(c, c');
    MulLinear(d, d');
    SumsLinear(MulE(a), MulB(b), MulD(c), Mul9(d), MulE(a'), MulB(b'), MulD(c'), Mul9(d'));
    SumsLinear(Mul9(a), MulE(b), MulB(c), MulD(d), Mul9(a'), MulE(b'), MulB(c'), MulD(d'));
    SumsLinear(MulD(a), Mul9(b), MulE(c), MulB(d), MulD(a'), Mul9(b'), MulE(c'), MulB(d'));
    SumsLinear(MulB(a), MulD(b), Mul9(c), MulE(d), MulB(a'), MulD(b'), Mul9(c'), MulE(d'));
    AddLinear(Sum4(MulE(a), MulB(b), MulD(c), Mul9(d)), Sum4(Mul9(a), MulE(b), MulB(c), MulD(d)),
      Sum4(MulD(a), Mul9(b), MulE(c), MulB(d)), Sum4(MulB(a), MulD(b), Mul9(c), MulE(d)),
      Sum4(MulE(a'), MulB(b'), MulD(c'), Mul9(d')), Sum4(Mul9(a'), MulE(b'), MulB(c'), MulD(d')),
      Sum4(MulD(a'), Mul9(b'), MulE(c'), MulB(d')), Sum4(MulB(a'), MulD(b'), Mul9(c'), MulE(d')));
  }

  lemma InvMixLinear(v: bv32, w: bv32)
    ensures InvMix(Add(v, w)) == Add(InvMix(v), InvMix(w))
  {
    Byte0Linear(v, w);
    Byte1Linear(v, w);
    Byte2Linear(v, w);
    Byte3Linear(v, w);
    InvMixBytesLinear(Byte0(v), Byte1(v), Byte2(v), Byte3(v), Byte0(w), Byte1(w), Byte2(w), Byte3(w));
  }

  // the contribution of one byte to its mixed column
  function Col0(x: bv8): bv32 { Word(Xtime(x), x, x, Mul3(x)) }
  function Col1(x: bv8): bv32 { Word(Mul3(x), Xtime(x), x, x) }
  function Col2(x: bv8): bv32 { Word(x, Mul3(x), Xtime(x), x) }
  function Col3(x: bv8): bv32 { Word(x, x, Mul3(x), Xtime(x)) }

  lemma AddColumns(a0: bv8, a1: bv8, a2: bv8, a3: bv8, b0: bv8, b1: bv8, b2: bv8, b3: bv8,
      c0: bv8, c1: bv8, c2: bv8, c3: bv8, d0: bv8, d1: bv8, d2: bv8, d3: bv8)
    ensures Word(Sum4(a0, b0, c0, d0), Sum4(a1, b1, c1, d1), Sum4(a2, b2, c2, d2), Sum4(a3, b3, c3, d3))
         == Add(Add(Word(a0, a1, a2, a3), Word(b0, b1, b2, b3)), Add(Word(c0, c1, c2, c3), Word(d0, d1, d2, d3)))
  {
  }

  lemma MixSplit(a: bv8, b: bv8, c: bv8, d: bv8)
    ensures Mix(a, b, c, d) == Add(Add(Col0(a), Col1(b)), Add(Col2(c), Col3(d)))
  {
    AddColumns(Xtime(a), a, a, Mul3(a), Mul3(b), Xtime(b), b, b, c, Mul3(c), Xtime(c), c, d, d, Mul3(d), Xtime(d));
  }

  lemma UnmixCol0(x: bv8)
    ensures InvMix(Col0(x)) == Word(x, 0, 0, 0)
  {
  }

  lemma UnmixCol1(x: bv8)
    ensures InvMix(Col1(x)) == Word(0, x, 0, 0)
  {
  }

  lemma UnmixCol2(x: bv8)
    ensures InvMix(Col2(x)) == Word(0, 0, x, 0)
  {
  }

  lemma UnmixCol3(x: bv8)
    ensures InvMix(Col3(x)) == Word(0, 0, 0, x)
  {
  }

  lemma AddSingles(a: bv8, b: bv8, c: bv8, d: bv8)
    ensures Add(Add(Word(a, 0, 0, 0), Word(0, b, 0, 0)), Add(Word(0, 0, c, 0), Word(0, 0, 0, d))) == Word(a, b, c, d)
  {
  }

  // InvMixColumns undoes MixColumns.
  lemma InvMixUndoesMix(a: bv8, b: bv8, c: bv8, d: bv8)
    ensures InvMix(Mix(a, b, c, d)) == Word(a, b, c, d)
  {
    MixSplit(a, b, c, d);
    InvMixLinear(Add(Col0(a), Col1(b)), Add(Col2(c), Col3(d)));
    InvMixLinear(Col0(a), Col1(b));
    InvMixLinear(Col2(c), Col3(d));
    UnmixCol0(a);
    UnmixCol1(b);
    UnmixCol2(c);
    UnmixCol3(d);
    AddSingles(a, b, c, d);
  }

  // ----- the word tables -----

  function Rotr8(w: bv32): bv32 { (w >> 8) | (w << 24) }
  function Rotr16(w: bv32): bv32 { (w >> 16) | (w << 16) }
  function Rotr24(w: bv32): bv32 { (w >> 24) | (w << 8) }

  // the contribution of one byte to an inversely mixed column
  function InvCol0(x: bv8): bv32 { Word(MulE(x), Mul9(x), MulD(x), MulB(x)) }
  function InvCol1(x: bv8): bv32 { Word(MulB(x), MulE(x), Mul9(x), MulD(x)) }
  function InvCol2(x: bv8): bv32 { Word(MulD(x), MulB(x), MulE(x), Mul9(x)) }
  function InvCol3(x: bv8): bv32 { Word(Mul9(x), MulD(x), MulB(x), MulE(x)) }

  // Te0[x] = S[x].[02, 01, 01, 03]
  function Te0(x: bv8): bv32 { Col0(S(x)) }

  // Td0[x] = Si[x].[0e, 09, 0d, 0b]
  function Td0(x: bv8): bv32 { InvCol0(Si(x)) }

  lemma WordRotates8(a: bv8, b: bv8, c: bv8, d: bv8)
    ensures Rotr8(Word(a, b, c, d)) == Word(d, a, b, c)
  {
  }

  lemma WordRotates16(a: bv8, b: bv8, c: bv8, d: bv8)
    ensures Rotr16(Word(a, b, c, d)) == Word(c, d, a, b)
  {
  }

  lemma WordRotates24(a: bv8, b: bv8, c: bv8, d: bv8)
    ensures Rotr24(Word(a, b, c, d)) == Word(b, c, d, a)
  {
  }
}
