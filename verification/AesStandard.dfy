/** The definitions of FIPS 197 in its own terms: the S-box from inverses in
    the field, and the transformations row by row and column by column. */
module AesStandard {
  import opened AesTables
  import opened AesField
  import opened Aes

  // ----- the field (section 4.2) -----

  function Times(x: bv8, y: bv8, mask: bv8): bv8 {
    if y & mask == 0 then 0 else x
  }

  // the product of two elements: the sum of the multiples of x by the powers in y
  function Product(x: bv8, y: bv8): bv8 {
    var x1 := Xtime(x);
    var x2 := Xtime(x1);
    var x3 := Xtime(x2);
    var x4 := Xtime(x3);
    var x5 := Xtime(x4);
    var x6 := Xtime(x5);
    var x7 := Xtime(x6);
    Times(x, y, 1) ^ Times(x1, y, 2) ^ Times(x2, y, 4) ^ Times(x3, y, 8) ^
    Times(x4, y, 0x10) ^ Times(x5, y, 0x20) ^ Times(x6, y, 0x40) ^ Times(x7, y, 0x80)
  }

  // what is shifted out is replaced by the rest of the field polynomial
  lemma XtimeReduces(x: bv8)
    ensures Xtime(x) == (x << 1) ^ if x & 0x80 == 0 then 0 else 0x1b
    ensures Xtime(x) == Product(x, 2)
  {
  }

  lemma Multiples(x: bv8)
    ensures x == Product(x, 1) && Mul3(x) == Product(x, 3)
  {
  }

  lemma Multiples9B(x: bv8)
    ensures Mul9(x) == Product(x, 9) && MulB(x) == Product(x, 0xb)
  {
  }

  lemma MultiplesDE(x: bv8)
    ensures MulD(x) == Product(x, 0xd) && MulE(x) == Product(x, 0xe)
  {
  }

  // ----- the S-box (section 5.1.1) -----

  function Rotl(b: bv8, k: bv4): bv8
    requires 0 < k < 8
  {
    (b << k) | (b >> (8 - k))
  }

  // bit i of the result is the sum of the bits i, i+4, i+5, i+6, i+7 of b and bit i of 63
  function Affine(b: bv8): bv8 {
    b ^ Rotl(b, 1) ^ Rotl(b, 2) ^ Rotl(b, 3) ^ Rotl(b, 4) ^ 0x63
  }

  function InvAffine(b: bv8): bv8 {
    Rotl(b, 1) ^ Rotl(b, 3) ^ Rotl(b, 6) ^ 0x05
  }

  lemma AffineUndone(b: bv8)
    ensures InvAffine(Affine(b)) == b && Affine(InvAffine(b)) == b
  {
  }

  // y is the inverse of x, or 0 for 0
  predicate Inverse(x: bv8, y: bv8) {
    if x == 0 then y == 0 else Product(x, y) == 1
  }

  lemma Algebraic00(x: bv8)
    requires x & 0xf0 == 0x00
    ensures Inverse(x, InvAffine(S(x)))
  {
  }

  lemma Algebraic10(x: bv8)
    requires x & 0xf0 == 0x10
    ensures Inverse(x, InvAffine(S(x)))
  {
  }

  lemma Algebraic20(x: bv8)
    requires x & 0xf0 == 0x20
    ensures Inverse(x, InvAffine(S(x)))
  {
  }

  lemma Algebraic30(x: bv8)
    requires x & 0xf0 == 0x30
    ensures Inverse(x, InvAffine(S(x)))
  {
  }

  lemma Algebraic40(x: bv8)
    requires x & 0xf0 == 0x40
    ensures Inverse(x, InvAffine(S(x)))
  {
  }

  lemma Algebraic50(x: bv8)
    requires x & 0xf0 == 0x50
    ensures Inverse(x, InvAffine(S(x)))
  {
  }

  lemma Algebraic60(x: bv8)
    requires x & 0xf0 == 0x60
    ensures Inverse(x, InvAffine(S(x)))
  {
  }

  lemma Algebraic70(x: bv8)
    requires x & 0xf0 == 0x70
    ensures Inverse(x, InvAffine(S(x)))
  {
  }

  lemma Algebraic80(x: bv8)
    requires x & 0xf0 == 0x80
    ensures Inverse(x, InvAffine(S(x)))
  {
  }

  lemma Algebraic90(x: bv8)
    requires x & 0xf0 == 0x90
    ensures Inverse(x, InvAffine(S(x)))
  {
  }

  lemma AlgebraicA0(x: bv8)
    requires x & 0xf0 == 0xa0
    ensures Inverse(x, InvAffine(S(x)))
  {
  }

  lemma AlgebraicB0(x: bv8)
    requires x & 0xf0 == 0xb0
    ensures Inverse(x, InvAffine(S(x)))
  {
  }

  lemma AlgebraicC0(x: bv8)
    requires x & 0xf0 == 0xc0
    ensures Inverse(x, InvAffine(S(x)))
  {
  }

  lemma AlgebraicD0(x: bv8)
    requires x & 0xf0 == 0xd0
    ensures Inverse(x, InvAffine(S(x)))
  {
  }

  lemma AlgebraicE0(x: bv8)
    requires x & 0xf0 == 0xe0
    ensures Inverse(x, InvAffine(S(x)))
  {
  }

  lemma AlgebraicF0(x: bv8)
    requires x & 0xf0 == 0xf0
    ensures Inverse(x, InvAffine(S(x)))
  {
  }

  // The S-box is the inverse in the field followed by the affine map.
  lemma SboxIsAlgebraic(x: bv8)
    ensures Inverse(x, InvAffine(S(x))) && Affine(InvAffine(S(x))) == S(x)
  {
    AffineUndone(S(x));
    hide S, Inverse, Affine, InvAffine;
    if x & 0xf0 == 0x00 {
      Algebraic00(x);
    } else if x & 0xf0 == 0x10 {
      Algebraic10(x);
    } else if x & 0xf0 == 0x20 {
      Algebraic20(x);
    } else if x & 0xf0 == 0x30 {
      Algebraic30(x);
    } else if x & 0xf0 == 0x40 {
      Algebraic40(x);
    } else if x & 0xf0 == 0x50 {
      Algebraic50(x);
    } else if x & 0xf0 == 0x60 {
      Algebraic60(x);
    } else if x & 0xf0 == 0x70 {
      Algebraic70(x);
    } else if x & 0xf0 == 0x80 {
      Algebraic80(x);
    } else if x & 0xf0 == 0x90 {
      Algebraic90(x);
    } else if x & 0xf0 == 0xa0 {
      AlgebraicA0(x);
    } else if x & 0xf0 == 0xb0 {
      AlgebraicB0(x);
    } else if x & 0xf0 == 0xc0 {
      AlgebraicC0(x);
    } else if x & 0xf0 == 0xd0 {
      AlgebraicD0(x);
    } else if x & 0xf0 == 0xe0 {
      AlgebraicE0(x);
    } else if x & 0xf0 == 0xf0 {
      AlgebraicF0(x);
    }
  }

  // ----- the transformations (sections 5.1.2 to 5.1.4, 5.2 and 5.3) -----

  lemma SubWordBytes(w: bv32)
    ensures var v := SubWord(w);
      Byte0(v) == S(Byte0(w)) && Byte1(v) == S(Byte1(w)) && Byte2(v) == S(Byte2(w)) && Byte3(v) == S(Byte3(w))
  {
    hide S, Word, Byte0, Byte1, Byte2, Byte3;
    WordBytes(S(Byte0(w)), S(Byte1(w)), S(Byte2(w)), S(Byte3(w)));
  }

  // row r of the state: the r-th bytes of the columns
  function Row(s: Block, r: nat): seq<bv8>
    requires r < 4
  {
    if r == 0 then [Byte0(s.w0), Byte0(s.w1), Byte0(s.w2), Byte0(s.w3)]
    else if r == 1 then [Byte1(s.w0), Byte1(s.w1), Byte1(s.w2), Byte1(s.w3)]
    else if r == 2 then [Byte2(s.w0), Byte2(s.w1), Byte2(s.w2), Byte2(s.w3)]
    else [Byte3(s.w0), Byte3(s.w1), Byte3(s.w2), Byte3(s.w3)]
  }

  // Row r moves r places to the left.
  lemma ShiftRowsMoves(s: Block, r: nat)
    requires r < 4
    ensures Row(ShiftRows(s), r) == Row(s, r)[r..] + Row(s, r)[..r]
  {
    ShiftedRows(s);
    hide ShiftRows, Byte0, Byte1, Byte2, Byte3;
    if r == 0 {
      Rotated(Byte0(s.w0), Byte0(s.w1), Byte0(s.w2), Byte0(s.w3));
    } else if r == 1 {
      Rotated(Byte1(s.w0), Byte1(s.w1), Byte1(s.w2), Byte1(s.w3));
    } else if r == 2 {
      Rotated(Byte2(s.w0), Byte2(s.w1), Byte2(s.w2), Byte2(s.w3));
    } else {
      Rotated(Byte3(s.w0), Byte3(s.w1), Byte3(s.w2), Byte3(s.w3));
    }
  }

  lemma Rotated<T>(a: T, b: T, c: T, d: T)
    ensures var s := [a, b, c, d];
      s[0..] + s[..0] == s && s[1..] + s[..1] == [b, c, d, a] && s[2..] + s[..2] == [c, d, a, b] && s[3..] + s[..3] == [d, a, b, c]
  {
  }

  lemma ShiftedRows(s: Block)
    ensures var t := ShiftRows(s);
      && Row(t, 0) == [Byte0(s.w0), Byte0(s.w1), Byte0(s.w2), Byte0(s.w3)]
      && Row(t, 1) == [Byte1(s.w1), Byte1(s.w2), Byte1(s.w3), Byte1(s.w0)]
      && Row(t, 2) == [Byte2(s.w2), Byte2(s.w3), Byte2(s.w0), Byte2(s.w1)]
      && Row(t, 3) == [Byte3(s.w3), Byte3(s.w0), Byte3(s.w1), Byte3(s.w2)]
  {
    hide Word, Byte0, Byte1, Byte2, Byte3, Diagonal;
    DiagonalBytes(s.w0, s.w1, s.w2, s.w3);
    DiagonalBytes(s.w1, s.w2, s.w3, s.w0);
    DiagonalBytes(s.w2, s.w3, s.w0, s.w1);
    DiagonalBytes(s.w3, s.w0, s.w1, s.w2);
  }

  // a row of the matrix times a column
  function RowTimes(w: bv32, m0: bv8, m1: bv8, m2: bv8, m3: bv8): bv8 {
    Sum4(Product(Byte0(w), m0), Product(Byte1(w), m1), Product(Byte2(w), m2), Product(Byte3(w), m3))
  }

  lemma MixColumnTimes(w: bv32)
    ensures var v := MixWord(w);
      && Byte0(v) == RowTimes(w, 2, 3, 1, 1) && Byte1(v) == RowTimes(w, 1, 2, 3, 1)
      && Byte2(v) == RowTimes(w, 1, 1, 2, 3) && Byte3(v) == RowTimes(w, 3, 1, 1, 2)
  {
    hide Word, Byte0, Byte1, Byte2, Byte3, Product, Xtime, Mul3, Sum4;
    var a, b, c, d := Byte0(w), Byte1(w), Byte2(w), Byte3(w);
    MixMultiples(a);
    MixMultiples(b);
    MixMultiples(c);
    MixMultiples(d);
    WordBytes(Sum4(Xtime(a), Mul3(b), c, d), Sum4(a, Xtime(b), Mul3(c), d), Sum4(a, b, Xtime(c), Mul3(d)), Sum4(Mul3(a), b, c, Xtime(d)));
  }

  lemma MixMultiples(x: bv8)
    ensures Xtime(x) == Product(x, 2) && Mul3(x) == Product(x, 3) && x == Product(x, 1)
  {
    XtimeReduces(x);
    Multiples(x);
  }

  lemma InvMixColumnTimes(w: bv32)
    ensures var v := InvMix(w);
      && Byte0(v) == RowTimes(w, 0xe, 0xb, 0xd, 9) && Byte1(v) == RowTimes(w, 9, 0xe, 0xb, 0xd)
      && Byte2(v) == RowTimes(w, 0xd, 9, 0xe, 0xb) && Byte3(v) == RowTimes(w, 0xb, 0xd, 9, 0xe)
  {
    hide Word, Byte0, Byte1, Byte2, Byte3, Product, Mul9, MulB, MulD, MulE, Sum4;
    var a, b, c, d := Byte0(w), Byte1(w), Byte2(w), Byte3(w);
    InverseMultiples(a);
    InverseMultiples(b);
    InverseMultiples(c);
    InverseMultiples(d);
    WordBytes(Sum4(MulE(a), MulB(b), MulD(c), Mul9(d)), Sum4(Mul9(a), MulE(b), MulB(c), MulD(d)),
      Sum4(MulD(a), Mul9(b), MulE(c), MulB(d)), Sum4(MulB(a), MulD(b), Mul9(c), MulE(d)));
  }

  lemma InverseMultiples(x: bv8)
    ensures Mul9(x) == Product(x, 9) && MulB(x) == Product(x, 0xb) && MulD(x) == Product(x, 0xd) && MulE(x) == Product(x, 0xe)
  {
    Multiples9B(x);
    MultiplesDE(x);
  }
}
