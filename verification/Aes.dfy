/** The cipher of section 5 of FIPS 197 for 128-bit keys, its equivalent
    inverse (section 5.3.5), and the rijndael routines that compute both in
    place from tables. */
module Aes {
  import opened AesTables
  import opened AesField

  // the cipher state, one word per column
  datatype Block = Block(w0: bv32, w1: bv32, w2: bv32, w3: bv32)

  type Schedule = rk: seq<bv32> | |rk| == 44 witness seq(44, _ => 0)

  // ----- the cipher -----

  function SubWord(w: bv32): bv32 {
    Word(S(Byte0(w)), S(Byte1(w)), S(Byte2(w)), S(Byte3(w)))
  }

  function InvSubWord(w: bv32): bv32 {
    Word(Si(Byte0(w)), Si(Byte1(w)), Si(Byte2(w)), Si(Byte3(w)))
  }

  function SubBytes(s: Block): Block {
    Block(SubWord(s.w0), SubWord(s.w1), SubWord(s.w2), SubWord(s.w3))
  }

  function InvSubBytes(s: Block): Block {
    Block(InvSubWord(s.w0), InvSubWord(s.w1), InvSubWord(s.w2), InvSubWord(s.w3))
  }

  // a word made of the k-th byte of the k-th argument
  function Diagonal(a: bv32, b: bv32, c: bv32, d: bv32): bv32 {
    Word(Byte0(a), Byte1(b), Byte2(c), Byte3(d))
  }

  function ShiftRows(s: Block): Block {
    Block(Diagonal(s.w0, s.w1, s.w2, s.w3), Diagonal(s.w1, s.w2, s.w3, s.w0),
          Diagonal(s.w2, s.w3, s.w0, s.w1), Diagonal(s.w3, s.w0, s.w1, s.w2))
  }

  function InvShiftRows(s: Block): Block {
    Block(Diagonal(s.w0, s.w3, s.w2, s.w1), Diagonal(s.w1, s.w0, s.w3, s.w2),
          Diagonal(s.w2, s.w1, s.w0, s.w3), Diagonal(s.w3, s.w2, s.w1, s.w0))
  }

  function MixWord(w: bv32): bv32 {
    Mix(Byte0(w), Byte1(w), Byte2(w), Byte3(w))
  }

  function MixColumns(s: Block): Block {
    Block(MixWord(s.w0), MixWord(s.w1), MixWord(s.w2), MixWord(s.w3))
  }

  function InvMixColumns(s: Block): Block {
    Block(InvMix(s.w0), InvMix(s.w1), InvMix(s.w2), InvMix(s.w3))
  }

  function AddRoundKey(s: Block, rk: Schedule, n: nat): Block
    requires n <= 10
  {
    Block(Add(s.w0, rk[4 * n]), Add(s.w1, rk[4 * n + 1]), Add(s.w2, rk[4 * n + 2]), Add(s.w3, rk[4 * n + 3]))
  }

  // the state after the first key addition and n full rounds
  function Rounds(rk: Schedule, b: Block, n: nat): Block
    requires n <= 9
  {
    if n == 0 then AddRoundKey(b, rk, 0)
    else AddRoundKey(MixColumns(ShiftRows(SubBytes(Rounds(rk, b, n - 1)))), rk, n)
  }

  function Cipher(rk: Schedule, b: Block): Block {
    AddRoundKey(ShiftRows(SubBytes(Rounds(rk, b, 9))), rk, 10)
  }

  function InvRounds(dk: Schedule, b: Block, n: nat): Block
    requires n <= 9
  {
    if n == 0 then AddRoundKey(b, dk, 0)
    else AddRoundKey(InvMixColumns(InvShiftRows(InvSubBytes(InvRounds(dk, b, n - 1)))), dk, n)
  }

  function EqInvCipher(dk: Schedule, b: Block): Block {
    AddRoundKey(InvShiftRows(InvSubBytes(InvRounds(dk, b, 9))), dk, 10)
  }

  // the same word of the round key on the other side
  function Mirror(c: nat): (m: nat)
    requires c < 44
    ensures m < 44
  {
    40 - c / 4 * 4 + c % 4
  }

  lemma MirrorAt(n: nat, d: nat)
    requires n <= 10 && d < 4
    ensures Mirror(4 * n + d) == 40 - 4 * n + d && Mirror(40 - 4 * n + d) == 4 * n + d
  {
    assert (4 * n + d) / 4 == n && (4 * (10 - n) + d) / 4 == 10 - n;
  }

  // the decryption schedule: round keys in reverse order, the inner ones
  // transformed by InvMixColumns
  function DecKey(rk: Schedule, i: nat): bv32
    requires i < 44
  {
    if i < 4 || i >= 40 then rk[Mirror(i)] else InvMix(rk[Mirror(i)])
  }

  function DecSchedule(rk: Schedule): Schedule {
    seq(44, i requires 0 <= i < 44 => DecKey(rk, i))
  }

  // ----- deciphering undoes enciphering -----

  lemma SubWordUndone(w: bv32)
    ensures InvSubWord(SubWord(w)) == w
  {
    hide S, Si;
    WordBytes(S(Byte0(w)), S(Byte1(w)), S(Byte2(w)), S(Byte3(w)));
    SboxInverse(Byte0(w));
    SboxInverse(Byte1(w));
    SboxInverse(Byte2(w));
    SboxInverse(Byte3(w));
    BytesWord(w);
  }

  lemma DiagonalBytes(a: bv32, b: bv32, c: bv32, d: bv32)
    ensures var w := Diagonal(a, b, c, d);
      Byte0(w) == Byte0(a) && Byte1(w) == Byte1(b) && Byte2(w) == Byte2(c) && Byte3(w) == Byte3(d)
  {
    WordBytes(Byte0(a), Byte1(b), Byte2(c), Byte3(d));
  }

  lemma ShiftRowsUndone(s: Block)
    ensures InvShiftRows(ShiftRows(s)) == s
  {
    hide Word, Byte0, Byte1, Byte2, Byte3;
    DiagonalBytes(s.w0, s.w1, s.w2, s.w3);
    DiagonalBytes(s.w1, s.w2, s.w3, s.w0);
    DiagonalBytes(s.w2, s.w3, s.w0, s.w1);
    DiagonalBytes(s.w3, s.w0, s.w1, s.w2);
    BytesWord(s.w0);
    BytesWord(s.w1);
    BytesWord(s.w2);
    BytesWord(s.w3);
  }

  // InvSubBytes works on single bytes, so it commutes with InvShiftRows
  lemma InvSubShiftCommute(s: Block)
    ensures InvShiftRows(InvSubBytes(s)) == InvSubBytes(InvShiftRows(s))
  {
    hide Word, Byte0, Byte1, Byte2, Byte3, Si;
    InvSubBytesOf(s.w0);
    InvSubBytesOf(s.w1);
    InvSubBytesOf(s.w2);
    InvSubBytesOf(s.w3);
    DiagonalBytes(s.w0, s.w3, s.w2, s.w1);
    DiagonalBytes(s.w1, s.w0, s.w3, s.w2);
    DiagonalBytes(s.w2, s.w1, s.w0, s.w3);
    DiagonalBytes(s.w3, s.w2, s.w1, s.w0);
  }

  lemma InvSubBytesOf(w: bv32)
    ensures var v := InvSubWord(w);
      Byte0(v) == Si(Byte0(w)) && Byte1(v) == Si(Byte1(w)) && Byte2(v) == Si(Byte2(w)) && Byte3(v) == Si(Byte3(w))
  {
    hide Si;
    WordBytes(Si(Byte0(w)), Si(Byte1(w)), Si(Byte2(w)), Si(Byte3(w)));
  }

  lemma SubShiftUndone(s: Block)
    ensures InvShiftRows(InvSubBytes(ShiftRows(SubBytes(s)))) == s
  {
    hide InvSubWord, SubWord, Diagonal;
    InvSubShiftCommute(ShiftRows(SubBytes(s)));
    ShiftRowsUndone(SubBytes(s));
    SubWordUndone(s.w0);
    SubWordUndone(s.w1);
    SubWordUndone(s.w2);
    SubWordUndone(s.w3);
  }

  lemma MixUndone(s: Block)
    ensures InvMixColumns(MixColumns(s)) == s
  {
    hide Mix, InvMix, Word;
    MixWordUndone(s.w0);
    MixWordUndone(s.w1);
    MixWordUndone(s.w2);
    MixWordUndone(s.w3);
  }

  lemma MixWordUndone(w: bv32)
    ensures InvMix(MixWord(w)) == w
  {
    hide Mix, InvMix, Word;
    InvMixUndoesMix(Byte0(w), Byte1(w), Byte2(w), Byte3(w));
    BytesWord(w);
  }

  // InvMixColumns passes through the addition of an inner round key, as the
  // schedule transformed it.
  lemma InvMixThroughKey(s: Block, rk: Schedule, n: nat)
    requires 1 <= n <= 9
    ensures InvMixColumns(AddRoundKey(s, rk, n)) == AddRoundKey(InvMixColumns(s), DecSchedule(rk), 10 - n)
  {
    hide InvMix, Add, DecSchedule;
    InvMixLinear(s.w0, rk[4 * n]);
    InvMixLinear(s.w1, rk[4 * n + 1]);
    InvMixLinear(s.w2, rk[4 * n + 2]);
    InvMixLinear(s.w3, rk[4 * n + 3]);
    var m := 10 - n;
    DecKeyAt(rk, m, 0);
    DecKeyAt(rk, m, 1);
    DecKeyAt(rk, m, 2);
    DecKeyAt(rk, m, 3);
  }

  lemma DecKeyAt(rk: Schedule, m: nat, k: nat)
    requires m <= 10 && k < 4
    ensures DecSchedule(rk)[4 * m + k]
         == if m == 0 || m == 10 then rk[4 * (10 - m) + k] else InvMix(rk[4 * (10 - m) + k])
  {
    hide InvMix;
    assert (4 * m + k) / 4 == m && (4 * m + k) % 4 == k;
  }

  lemma KeyCancels(s: Block, rk: Schedule, n: nat)
    requires n <= 10
    ensures AddRoundKey(AddRoundKey(s, rk, n), rk, n) == s
  {
    hide Add;
    AddTwice(s.w0, rk[4 * n]);
    AddTwice(s.w1, rk[4 * n + 1]);
    AddTwice(s.w2, rk[4 * n + 2]);
    AddTwice(s.w3, rk[4 * n + 3]);
  }

  lemma OuterKeyCancels(s: Block, rk: Schedule, m: nat)
    requires m == 0 || m == 10
    ensures AddRoundKey(AddRoundKey(s, rk, 10 - m), DecSchedule(rk), m) == s
  {
    hide Add, InvMix;
    DecKeyAt(rk, m, 0);
    DecKeyAt(rk, m, 1);
    DecKeyAt(rk, m, 2);
    DecKeyAt(rk, m, 3);
    AddTwice(s.w0, rk[4 * (10 - m)]);
    AddTwice(s.w1, rk[4 * (10 - m) + 1]);
    AddTwice(s.w2, rk[4 * (10 - m) + 2]);
    AddTwice(s.w3, rk[4 * (10 - m) + 3]);
  }

  // After n rounds deciphering has reached the middle of round 10 - n.
  lemma {:induction false} InvRoundsTrace(rk: Schedule, b: Block, n: nat)
    requires n <= 9
    ensures InvRounds(DecSchedule(rk), Cipher(rk, b), n) == ShiftRows(SubBytes(Rounds(rk, b, 9 - n)))
  {
    hide SubBytes, ShiftRows, MixColumns, InvSubBytes, InvShiftRows, InvMixColumns, AddRoundKey, DecSchedule;
    var dk, c := DecSchedule(rk), Cipher(rk, b);
    if n == 0 {
      var last := ShiftRows(SubBytes(Rounds(rk, b, 9)));
      OuterKeyCancels(last, rk, 0);
      assert c == AddRoundKey(last, rk, 10);
      assert InvRounds(dk, c, 0) == AddRoundKey(c, dk, 0);
    } else {
      InvRoundsTrace(rk, b, n - 1);
      var k := 10 - n;
      SubShiftUndone(Rounds(rk, b, k));
      var mid := ShiftRows(SubBytes(Rounds(rk, b, k - 1)));
      InvMixThroughKey(MixColumns(mid), rk, k);
      MixUndone(mid);
      assert Rounds(rk, b, k) == AddRoundKey(MixColumns(mid), rk, k);
      assert 9 - (n - 1) == k && 10 - k == n;
      assert InvRounds(dk, c, n - 1) == ShiftRows(SubBytes(Rounds(rk, b, k)));
      assert InvRounds(dk, c, n) == AddRoundKey(InvMixColumns(Rounds(rk, b, k)), dk, n);
      assert InvMixColumns(Rounds(rk, b, k)) == AddRoundKey(mid, dk, n);
      KeyCancels(mid, dk, n);
    }
  }

  // The equivalent inverse cipher with the transformed schedule undoes the
  // cipher, for every schedule and every block.
  lemma DecryptUndoesEncrypt(rk: Schedule, b: Block)
    ensures EqInvCipher(DecSchedule(rk), Cipher(rk, b)) == b
  {
    hide SubBytes, ShiftRows, MixColumns, InvSubBytes, InvShiftRows, InvMixColumns, AddRoundKey, DecSchedule;
    InvRoundsTrace(rk, b, 9);
    SubShiftUndone(Rounds(rk, b, 0));
    OuterKeyCancels(b, rk, 10);
  }

  // ----- the table-driven routines -----

  function Xor5(p: bv32, q: bv32, r: bv32, s: bv32, k: bv32): bv32 {
    Add(Add(Add(Add(p, q), r), s), k)
  }

  // TE0(a) ^ TE1(b) ^ TE2(c) ^ TE3(d) ^ k
  function EncColumn(a: bv32, b: bv32, c: bv32, d: bv32, k: bv32): bv32 {
    Xor5(Te0(Byte0(a)), Rotr8(Te0(Byte1(b))), Rotr16(Te0(Byte2(c))), Rotr24(Te0(Byte3(d))), k)
  }

  // TD0(a) ^ TD1(b) ^ TD2(c) ^ TD3(d) ^ k
  function DecColumn(a: bv32, b: bv32, c: bv32, d: bv32, k: bv32): bv32 {
    Xor5(Td0(Byte0(a)), Rotr8(Td0(Byte1(b))), Rotr16(Td0(Byte2(c))), Rotr24(Td0(Byte3(d))), k)
  }

  // a byte in one of the four positions of a word
  function At0(b: bv8): bv32 { (b as bv32) << 24 }
  function At1(b: bv8): bv32 { (b as bv32) << 16 }
  function At2(b: bv8): bv32 { (b as bv32) << 8 }
  function At3(b: bv8): bv32 { b as bv32 }

  // the S-box entry cut out of the word table, in one of the four positions
  function Cut0(x: bv8): bv32 { (Te0(x) << 8) & 0xff000000 }
  function Cut1(x: bv8): bv32 { Te0(x) & 0x00ff0000 }
  function Cut2(x: bv8): bv32 { Te0(x) & 0x0000ff00 }
  function Cut3(x: bv8): bv32 { (Te0(x) >> 8) & 0x000000ff }

  // TE41(a) ^ TE42(b) ^ TE43(c) ^ TE44(d) ^ k
  function EncLastColumn(a: bv32, b: bv32, c: bv32, d: bv32, k: bv32): bv32 {
    Xor5(Cut0(Byte0(a)), Cut1(Byte1(b)), Cut2(Byte2(c)), Cut3(Byte3(d)), k)
  }

  // TD41(a) ^ TD42(b) ^ TD43(c) ^ TD44(d) ^ k
  function DecLastColumn(a: bv32, b: bv32, c: bv32, d: bv32, k: bv32): bv32 {
    Xor5(At0(Si(Byte0(a))), At1(Si(Byte1(b))), At2(Si(Byte2(c))), At3(Si(Byte3(d))), k)
  }

  lemma FiveSum(p: bv32, q: bv32, r: bv32, s: bv32, k: bv32)
    ensures Xor5(p, q, r, s, k) == Add(Add(Add(p, q), Add(r, s)), k)
  {
    hide Add;
    AddAssociates(Add(p, q), r, s);
  }

  lemma WordParts(p: bv8, q: bv8, r: bv8, s: bv8)
    ensures Add(Add(Add(At0(p), At1(q)), At2(r)), At3(s)) == Word(p, q, r, s)
  {
  }

  lemma WordSum(p: bv8, q: bv8, r: bv8, s: bv8, k: bv32)
    ensures Xor5(At0(p), At1(q), At2(r), At3(s), k) == Add(Word(p, q, r, s), k)
  {
    hide Add, Word, At0, At1, At2, At3;
    WordParts(p, q, r, s);
  }

  lemma AddAssociates(p: bv32, q: bv32, r: bv32)
    ensures Add(Add(p, q), r) == Add(p, Add(q, r))
  {
  }

  lemma EncColumnIsRound(a: bv32, b: bv32, c: bv32, d: bv32, k: bv32)
    ensures EncColumn(a, b, c, d, k) == Add(MixWord(SubWord(Diagonal(a, b, c, d))), k)
  {
    hide S, Word, Add, Xor5, Mix, Col0, Col1, Col2, Col3, Byte0, Byte1, Byte2, Byte3, Rotr8, Rotr16, Rotr24;
    var x, y, z, w := Byte0(a), Byte1(b), Byte2(c), Byte3(d);
    DiagonalBytes(a, b, c, d);
    WordBytes(S(x), S(y), S(z), S(w));
    MixSplit(S(x), S(y), S(z), S(w));
    ColumnsRotate(S(y));
    ColumnsRotate(S(z));
    ColumnsRotate(S(w));
    FiveSum(Te0(x), Rotr8(Te0(y)), Rotr16(Te0(z)), Rotr24(Te0(w)), k);
  }

  lemma ColumnsRotate(x: bv8)
    ensures Rotr8(Col0(x)) == Col1(x) && Rotr16(Col0(x)) == Col2(x) && Rotr24(Col0(x)) == Col3(x)
    ensures Rotr8(InvCol0(x)) == InvCol1(x) && Rotr16(InvCol0(x)) == InvCol2(x) && Rotr24(InvCol0(x)) == InvCol3(x)
  {
    hide Word, Rotr8, Rotr16, Rotr24, Xtime, Mul3, Mul9, MulB, MulD, MulE;
    WordRotates8(Xtime(x), x, x, Mul3(x));
    WordRotates16(Xtime(x), x, x, Mul3(x));
    WordRotates24(Xtime(x), x, x, Mul3(x));
    WordRotates8(MulE(x), Mul9(x), MulD(x), MulB(x));
    WordRotates16(MulE(x), Mul9(x), MulD(x), MulB(x));
    WordRotates24(MulE(x), Mul9(x), MulD(x), MulB(x));
  }

  lemma InvMixSplit(a: bv8, b: bv8, c: bv8, d: bv8)
    ensures InvMixBytes(a, b, c, d) == Add(Add(InvCol0(a), InvCol1(b)), Add(InvCol2(c), InvCol3(d)))
  {
    hide Word, Add, Sum4, Mul9, MulB, MulD, MulE;
    AddColumns(MulE(a), Mul9(a), MulD(a), MulB(a), MulB(b), MulE(b), Mul9(b), MulD(b),
      MulD(c), MulB(c), MulE(c), Mul9(c), Mul9(d), MulD(d), MulB(d), MulE(d));
  }

  lemma DecColumnIsRound(a: bv32, b: bv32, c: bv32, d: bv32, k: bv32)
    ensures DecColumn(a, b, c, d, k) == Add(InvMix(InvSubWord(Diagonal(a, b, c, d))), k)
  {
    hide Si, Word, Add, Xor5, InvMixBytes, InvCol0, InvCol1, InvCol2, InvCol3, Byte0, Byte1, Byte2, Byte3, Rotr8, Rotr16, Rotr24;
    var x, y, z, w := Byte0(a), Byte1(b), Byte2(c), Byte3(d);
    DiagonalBytes(a, b, c, d);
    WordBytes(Si(x), Si(y), Si(z), Si(w));
    InvMixSplit(Si(x), Si(y), Si(z), Si(w));
    ColumnsRotate(Si(y));
    ColumnsRotate(Si(z));
    ColumnsRotate(Si(w));
    FiveSum(Td0(x), Rotr8(Td0(y)), Rotr16(Td0(z)), Rotr24(Td0(w)), k);
  }

  // the parts of a table entry the last round and the key schedule cut out
  lemma EntryParts(x: bv8)
    ensures Cut0(x) == At0(S(x)) && Cut1(x) == At1(S(x)) && Cut2(x) == At2(S(x)) && Cut3(x) == At3(S(x))
  {
    hide S, Xtime, Mul3;
  }

  lemma EncLastColumnIsRound(a: bv32, b: bv32, c: bv32, d: bv32, k: bv32)
    ensures EncLastColumn(a, b, c, d, k) == Add(SubWord(Diagonal(a, b, c, d)), k)
  {
    hide Te0, S, Word, Add, Xor5, Cut0, Cut1, Cut2, Cut3, At0, At1, At2, At3, Byte0, Byte1, Byte2, Byte3;
    DiagonalBytes(a, b, c, d);
    WordSum(S(Byte0(a)), S(Byte1(b)), S(Byte2(c)), S(Byte3(d)), k);
    EntryParts(Byte0(a));
    EntryParts(Byte1(b));
    EntryParts(Byte2(c));
    EntryParts(Byte3(d));
  }

  lemma DecLastColumnIsRound(a: bv32, b: bv32, c: bv32, d: bv32, k: bv32)
    ensures DecLastColumn(a, b, c, d, k) == Add(InvSubWord(Diagonal(a, b, c, d)), k)
  {
    hide Si, Word, Add, Xor5, At0, At1, At2, At3, Byte0, Byte1, Byte2, Byte3;
    DiagonalBytes(a, b, c, d);
    WordSum(Si(Byte0(a)), Si(Byte1(b)), Si(Byte2(c)), Si(Byte3(d)), k);
  }

  // ----- the key schedule (section 5.2 of FIPS 197) -----

  function RotWord(w: bv32): bv32 {
    Word(Byte1(w), Byte2(w), Byte3(w), Byte0(w))
  }

  // the round constants, as powers of x
  function RconByte(j: nat): bv8 {
    if j == 0 then 1 else Xtime(RconByte(j - 1))
  }

  // the source's table of them
  const RCONS: seq<bv8> := [0x01, 0x02, 0x04, 0x08, 0x10, 0x20, 0x40, 0x80, 0x1b, 0x36]

  lemma RconTable(j: nat)
    requires j < 10
    ensures RCONS[j] == RconByte(j)
  {
    assert RconByte(1) == 2 && RconByte(2) == 4 && RconByte(3) == 8;
    assert RconByte(4) == 0x10 && RconByte(5) == 0x20 && RconByte(6) == 0x40;
    assert RconByte(7) == 0x80 && RconByte(8) == 0x1b && RconByte(9) == 0x36;
  }

  function KeyWord(key: seq<bv8>, i: nat): bv32
    requires |key| == 16
  {
    if i < 4 then GetWord(key, 4 * i)
    else if i % 4 == 0 then
      Add(KeyWord(key, i - 4), Add(SubWord(RotWord(KeyWord(key, i - 1))), Word(RconByte(i / 4 - 1), 0, 0, 0)))
    else Add(KeyWord(key, i - 4), KeyWord(key, i - 1))
  }

  function ExpandKey(key: seq<bv8>): Schedule
    requires |key| == 16
  {
    seq(44, i requires 0 <= i < 44 => KeyWord(key, i))
  }

  // r ^ TE421(t) ^ TE432(t) ^ TE443(t) ^ TE414(t) ^ RCON
  function KeyCore(r: bv32, t: bv32, rcon: bv8): bv32 {
    Add(Xor5(r, Cut0(Byte1(t)), Cut1(Byte2(t)), Cut2(Byte3(t)), Cut3(Byte0(t))), At0(rcon))
  }

  lemma KeyCoreIsSchedule(r: bv32, t: bv32, rcon: bv8)
    ensures KeyCore(r, t, rcon) == Add(r, Add(SubWord(RotWord(t)), Word(rcon, 0, 0, 0)))
  {
    hide S, Word, Add, Byte0, Byte1, Byte2, Byte3, Cut0, Cut1, Cut2, Cut3, At0, At1, At2, At3;
    WordBytes(Byte1(t), Byte2(t), Byte3(t), Byte0(t));
    EntryParts(Byte1(t));
    EntryParts(Byte2(t));
    EntryParts(Byte3(t));
    EntryParts(Byte0(t));
    var p, q, u, v := At0(S(Byte1(t))), At1(S(Byte2(t))), At2(S(Byte3(t))), At3(S(Byte0(t)));
    WordParts(S(Byte1(t)), S(Byte2(t)), S(Byte3(t)), S(Byte0(t)));
    AddAssociates(r, p, q);
    AddAssociates(r, Add(p, q), u);
    AddAssociates(r, Add(Add(p, q), u), v);
    WordTop(rcon);
    AddAssociates(r, SubWord(RotWord(t)), Word(rcon, 0, 0, 0));
  }

  lemma WordTop(x: bv8)
    ensures At0(x) == Word(x, 0, 0, 0)
  {
  }

  // one step of the schedule, four words at a time
  lemma KeyWordStep(key: seq<bv8>, i: nat)
    requires |key| == 16 && i < 10
    ensures var k := 4 * i;
      && KeyWord(key, k + 4) == KeyCore(KeyWord(key, k), KeyWord(key, k + 3), RCONS[i])
      && KeyWord(key, k + 5) == Add(KeyWord(key, k + 1), KeyWord(key, k + 4))
      && KeyWord(key, k + 6) == Add(KeyWord(key, k + 2), KeyWord(key, k + 5))
      && KeyWord(key, k + 7) == Add(KeyWord(key, k + 3), KeyWord(key, k + 6))
  {
    hide KeyCore, KeyWord, Add, Word, SubWord, RotWord;
    var k := 4 * i;
    KeyCoreIsSchedule(KeyWord(key, k), KeyWord(key, k + 3), RCONS[i]);
    RconTable(i);
    KeyWordAt(key, i, 0);
    KeyWordAt(key, i, 1);
    KeyWordAt(key, i, 2);
    KeyWordAt(key, i, 3);
  }

  lemma KeyWordAt(key: seq<bv8>, i: nat, d: nat)
    requires |key| == 16 && d < 4
    ensures var k := 4 * i + 4 + d;
      KeyWord(key, k) == Add(KeyWord(key, 4 * i + d),
        if d == 0 then Add(SubWord(RotWord(KeyWord(key, 4 * i + 3))), Word(RconByte(i), 0, 0, 0)) else KeyWord(key, k - 1))
  {
    hide Add, Word, SubWord, RotWord;
    var k := 4 * i + 4 + d;
    assert k / 4 - 1 == i && k % 4 == d;
  }

  lemma KeyWordFirst(key: seq<bv8>)
    requires |key| == 16
    ensures KeyWord(key, 0) == GetWord(key, 0) && KeyWord(key, 1) == GetWord(key, 4)
    ensures KeyWord(key, 2) == GetWord(key, 8) && KeyWord(key, 3) == GetWord(key, 12)
  {
    hide Word;
  }

  // TE4
  function TE4(x: bv8): bv8 {
    ((Te0(x) >> 8) & 0xff) as bv8
  }

  // TD0_(TE4(b0)) ^ TD1_(TE4(b1)) ^ TD2_(TE4(b2)) ^ TD3_(TE4(b3))
  function InvMixByTables(w: bv32): bv32 {
    Add(Add(Add(Td0(TE4(Byte0(w))), Rotr8(Td0(TE4(Byte1(w))))), Rotr16(Td0(TE4(Byte2(w))))), Rotr24(Td0(TE4(Byte3(w)))))
  }

  lemma InvMixByTablesIsInvMix(w: bv32)
    ensures InvMixByTables(w) == InvMix(w)
  {
    hide S, Si, Te0, Add, Word, InvCol0, InvCol1, InvCol2, InvCol3, InvMixBytes, Byte0, Byte1, Byte2, Byte3, Rotr8, Rotr16, Rotr24, TE4;
    var a, b, c, d := Byte0(w), Byte1(w), Byte2(w), Byte3(w);
    TE4IsSbox(a);
    TE4IsSbox(b);
    TE4IsSbox(c);
    TE4IsSbox(d);
    SboxInverse(a);
    SboxInverse(b);
    SboxInverse(c);
    SboxInverse(d);
    ColumnsRotate(b);
    ColumnsRotate(c);
    ColumnsRotate(d);
    InvMixSplit(a, b, c, d);
    AddAssociates(Add(InvCol0(a), InvCol1(b)), InvCol2(c), InvCol3(d));
  }

  lemma TE4IsSbox(x: bv8)
    ensures TE4(x) == S(x)
  {
    hide S, Te0;
    EntryParts(x);
  }

  // ----- rounds on the four state words -----

  lemma EncRound(s: Block, rk: Schedule, n: nat)
    requires n <= 10
    ensures Block(EncColumn(s.w0, s.w1, s.w2, s.w3, rk[4 * n]), EncColumn(s.w1, s.w2, s.w3, s.w0, rk[4 * n + 1]),
                  EncColumn(s.w2, s.w3, s.w0, s.w1, rk[4 * n + 2]), EncColumn(s.w3, s.w0, s.w1, s.w2, rk[4 * n + 3]))
         == AddRoundKey(MixColumns(ShiftRows(SubBytes(s))), rk, n)
    ensures Block(EncLastColumn(s.w0, s.w1, s.w2, s.w3, rk[4 * n]), EncLastColumn(s.w1, s.w2, s.w3, s.w0, rk[4 * n + 1]),
                  EncLastColumn(s.w2, s.w3, s.w0, s.w1, rk[4 * n + 2]), EncLastColumn(s.w3, s.w0, s.w1, s.w2, rk[4 * n + 3]))
         == AddRoundKey(ShiftRows(SubBytes(s)), rk, n)
  {
    hide EncColumn, EncLastColumn, MixWord, SubWord, Diagonal, Add;
    EncWord(s.w0, s.w1, s.w2, s.w3, rk[4 * n]);
    EncWord(s.w1, s.w2, s.w3, s.w0, rk[4 * n + 1]);
    EncWord(s.w2, s.w3, s.w0, s.w1, rk[4 * n + 2]);
    EncWord(s.w3, s.w0, s.w1, s.w2, rk[4 * n + 3]);
  }

  lemma EncWord(a: bv32, b: bv32, c: bv32, d: bv32, k: bv32)
    ensures EncColumn(a, b, c, d, k) == Add(MixWord(Diagonal(SubWord(a), SubWord(b), SubWord(c), SubWord(d))), k)
    ensures EncLastColumn(a, b, c, d, k) == Add(Diagonal(SubWord(a), SubWord(b), SubWord(c), SubWord(d)), k)
  {
    hide EncColumn, EncLastColumn, MixWord, SubWord, Diagonal, Add;
    EncColumnIsRound(a, b, c, d, k);
    EncLastColumnIsRound(a, b, c, d, k);
    SubDiagonal(a, b, c, d);
  }

  // substitution works on single bytes, so it commutes with picking a diagonal
  lemma SubDiagonal(a: bv32, b: bv32, c: bv32, d: bv32)
    ensures SubWord(Diagonal(a, b, c, d)) == Diagonal(SubWord(a), SubWord(b), SubWord(c), SubWord(d))
    ensures InvSubWord(Diagonal(a, b, c, d)) == Diagonal(InvSubWord(a), InvSubWord(b), InvSubWord(c), InvSubWord(d))
  {
    hide S, Si, Word, Byte0, Byte1, Byte2, Byte3;
    DiagonalBytes(a, b, c, d);
    WordBytes(S(Byte0(a)), S(Byte1(a)), S(Byte2(a)), S(Byte3(a)));
    WordBytes(S(Byte0(b)), S(Byte1(b)), S(Byte2(b)), S(Byte3(b)));
    WordBytes(S(Byte0(c)), S(Byte1(c)), S(Byte2(c)), S(Byte3(c)));
    WordBytes(S(Byte0(d)), S(Byte1(d)), S(Byte2(d)), S(Byte3(d)));
    InvSubBytesOf(a);
    InvSubBytesOf(b);
    InvSubBytesOf(c);
    InvSubBytesOf(d);
  }

  lemma DecRound(s: Block, rk: Schedule, n: nat)
    requires n <= 10
    ensures Block(DecColumn(s.w0, s.w3, s.w2, s.w1, rk[4 * n]), DecColumn(s.w1, s.w0, s.w3, s.w2, rk[4 * n + 1]),
                  DecColumn(s.w2, s.w1, s.w0, s.w3, rk[4 * n + 2]), DecColumn(s.w3, s.w2, s.w1, s.w0, rk[4 * n + 3]))
         == AddRoundKey(InvMixColumns(InvShiftRows(InvSubBytes(s))), rk, n)
    ensures Block(DecLastColumn(s.w0, s.w3, s.w2, s.w1, rk[4 * n]), DecLastColumn(s.w1, s.w0, s.w3, s.w2, rk[4 * n + 1]),
                  DecLastColumn(s.w2, s.w1, s.w0, s.w3, rk[4 * n + 2]), DecLastColumn(s.w3, s.w2, s.w1, s.w0, rk[4 * n + 3]))
         == AddRoundKey(InvShiftRows(InvSubBytes(s)), rk, n)
  {
    hide DecColumn, DecLastColumn, InvMix, InvSubWord, Diagonal, Add;
    DecWord(s.w0, s.w3, s.w2, s.w1, rk[4 * n]);
    DecWord(s.w1, s.w0, s.w3, s.w2, rk[4 * n + 1]);
    DecWord(s.w2, s.w1, s.w0, s.w3, rk[4 * n + 2]);
    DecWord(s.w3, s.w2, s.w1, s.w0, rk[4 * n + 3]);
  }

  lemma DecWord(a: bv32, b: bv32, c: bv32, d: bv32, k: bv32)
    ensures DecColumn(a, b, c, d, k) == Add(InvMix(Diagonal(InvSubWord(a), InvSubWord(b), InvSubWord(c), InvSubWord(d))), k)
    ensures DecLastColumn(a, b, c, d, k) == Add(Diagonal(InvSubWord(a), InvSubWord(b), InvSubWord(c), InvSubWord(d)), k)
  {
    hide DecColumn, DecLastColumn, InvMix, InvSubWord, Diagonal, Add;
    DecColumnIsRound(a, b, c, d, k);
    DecLastColumnIsRound(a, b, c, d, k);
    SubDiagonal(a, b, c, d);
  }

  lemma EncStep(rk: Schedule, b: Block, s: Block, n: nat, m: nat)
    requires 1 <= n <= 9 && m == 4 * n && s == Rounds(rk, b, n - 1)
    ensures Block(EncColumn(s.w0, s.w1, s.w2, s.w3, rk[m]), EncColumn(s.w1, s.w2, s.w3, s.w0, rk[m + 1]), EncColumn(s.w2, s.w3, s.w0, s.w1, rk[m + 2]), EncColumn(s.w3, s.w0, s.w1, s.w2, rk[m + 3]))
         == Rounds(rk, b, n)
  {
    EncRound(s, rk, n);
  }

  lemma EncFinish(rk: Schedule, b: Block, s: Block)
    requires s == Rounds(rk, b, 9)
    ensures var n := 10;
      Block(EncLastColumn(s.w0, s.w1, s.w2, s.w3, rk[4 * n]), EncLastColumn(s.w1, s.w2, s.w3, s.w0, rk[4 * n + 1]), EncLastColumn(s.w2, s.w3, s.w0, s.w1, rk[4 * n + 2]), EncLastColumn(s.w3, s.w0, s.w1, s.w2, rk[4 * n + 3]))
      == Cipher(rk, b)
  {
    EncRound(s, rk, 10);
  }

  lemma DecStep(rk: Schedule, b: Block, s: Block, n: nat, m: nat)
    requires 1 <= n <= 9 && m == 4 * n && s == InvRounds(rk, b, n - 1)
    ensures Block(DecColumn(s.w0, s.w3, s.w2, s.w1, rk[m]), DecColumn(s.w1, s.w0, s.w3, s.w2, rk[m + 1]), DecColumn(s.w2, s.w1, s.w0, s.w3, rk[m + 2]), DecColumn(s.w3, s.w2, s.w1, s.w0, rk[m + 3]))
         == InvRounds(rk, b, n)
  {
    DecRound(s, rk, n);
  }

  lemma DecFinish(rk: Schedule, b: Block, s: Block)
    requires s == InvRounds(rk, b, 9)
    ensures var n := 10;
      Block(DecLastColumn(s.w0, s.w3, s.w2, s.w1, rk[4 * n]), DecLastColumn(s.w1, s.w0, s.w3, s.w2, rk[4 * n + 1]), DecLastColumn(s.w2, s.w1, s.w0, s.w3, rk[4 * n + 2]), DecLastColumn(s.w3, s.w2, s.w1, s.w0, rk[4 * n + 3]))
      == EqInvCipher(rk, b)
  {
    DecRound(s, rk, 10);
  }

  // ----- blocks in byte buffers -----

  function GetWord(p: seq<bv8>, i: nat): bv32
    requires i + 4 <= |p|
  {
    Word(p[i], p[i + 1], p[i + 2], p[i + 3])
  }

  function BlockAt(p: seq<bv8>, o: nat): Block
    requires o + 16 <= |p|
  {
    Block(GetWord(p, o), GetWord(p, o + 4), GetWord(p, o + 8), GetWord(p, o + 12))
  }

  // PUTU32
  method PutWord(p: array<bv8>, i: nat, w: bv32)
    requires i + 4 <= p.Length
    modifies p
    ensures GetWord(p[..], i) == w
    ensures forall k | 0 <= k < p.Length && !(i <= k < i + 4) :: p[k] == old(p[k])
  {
    p[i] := Byte0(w);
    p[i + 1] := Byte1(w);
    p[i + 2] := Byte2(w);
    p[i + 3] := Byte3(w);
    BytesWord(w);
  }

  method PutBlock(p: array<bv8>, o: nat, b: Block)
    requires o + 16 <= p.Length
    modifies p
    ensures BlockAt(p[..], o) == b
    ensures forall k | 0 <= k < p.Length && !(o <= k < o + 16) :: p[k] == old(p[k])
  {
    hide Word;
    PutWord(p, o, b.w0);
    PutWord(p, o + 4, b.w1);
    PutWord(p, o + 8, b.w2);
    PutWord(p, o + 12, b.w3);
  }

  // The nine full rounds of rijndaelEncrypt: two per iteration, from the s words to
  // the t words and back, leaving the loop in the middle of the last one.
  method EncryptRounds(rk: array<bv32>, first: Block, ghost b: Block) returns (last: Block)
    requires rk.Length == 44 && first == Rounds(rk[..], b, 0)
    ensures last == Rounds(rk[..], b, 9)
  {
    hide EncColumn, Rounds, AddRoundKey;
    ghost var keys: Schedule := rk[..];
    var s0, s1, s2, s3 := first.w0, first.w1, first.w2, first.w3;
    var t0, t1, t2, t3;
    var k, r := 0, 5;
    while true
      invariant 1 <= r <= 5 && k == 8 * (5 - r)
      invariant Block(s0, s1, s2, s3) == Rounds(keys, b, 2 * (5 - r))
      decreases r
    {
      EncStep(keys, b, Block(s0, s1, s2, s3), 2 * (5 - r) + 1, k + 4);
      t0 := EncColumn(s0, s1, s2, s3, rk[k + 4]);
      t1 := EncColumn(s1, s2, s3, s0, rk[k + 5]);
      t2 := EncColumn(s2, s3, s0, s1, rk[k + 6]);
      t3 := EncColumn(s3, s0, s1, s2, rk[k + 7]);
      k := k + 8;
      r := r - 1;
      if r == 0 {
        break;
      }
      EncStep(keys, b, Block(t0, t1, t2, t3), 2 * (5 - r), k);
      s0 := EncColumn(t0, t1, t2, t3, rk[k]);
      s1 := EncColumn(t1, t2, t3, t0, rk[k + 1]);
      s2 := EncColumn(t2, t3, t0, t1, rk[k + 2]);
      s3 := EncColumn(t3, t0, t1, t2, rk[k + 3]);
    }
    last := Block(t0, t1, t2, t3);
  }

  // rijndaelEncrypt. The plaintext and the ciphertext may overlap, and may be
  // the same bytes: all of the input is read before anything is written.
  method Encrypt(rk: array<bv32>, pt: array<bv8>, po: nat, ct: array<bv8>, co: nat)
    requires rk.Length == 44 && po + 16 <= pt.Length && co + 16 <= ct.Length
    modifies ct
    ensures BlockAt(ct[..], co) == Cipher(rk[..], old(BlockAt(pt[..], po)))
    ensures forall k | 0 <= k < ct.Length && !(co <= k < co + 16) :: ct[k] == old(ct[k])
  {
    hide EncLastColumn, Word, Add;
    ghost var b := BlockAt(pt[..], po);
    var s0 := Add(GetWord(pt[..], po), rk[0]);
    var s1 := Add(GetWord(pt[..], po + 4), rk[1]);
    var s2 := Add(GetWord(pt[..], po + 8), rk[2]);
    var s3 := Add(GetWord(pt[..], po + 12), rk[3]);
    var t := EncryptRounds(rk, Block(s0, s1, s2, s3), b);
    EncFinish(rk[..], b, t);
    s0 := EncLastColumn(t.w0, t.w1, t.w2, t.w3, rk[40]);
    s1 := EncLastColumn(t.w1, t.w2, t.w3, t.w0, rk[41]);
    s2 := EncLastColumn(t.w2, t.w3, t.w0, t.w1, rk[42]);
    s3 := EncLastColumn(t.w3, t.w0, t.w1, t.w2, rk[43]);
    PutBlock(ct, co, Block(s0, s1, s2, s3));
  }

  // The nine full rounds of rijndaelDecrypt: two per iteration, from the s words to
  // the t words and back, leaving the loop in the middle of the last one.
  method DecryptRounds(rk: array<bv32>, first: Block, ghost b: Block) returns (last: Block)
    requires rk.Length == 44 && first == InvRounds(rk[..], b, 0)
    ensures last == InvRounds(rk[..], b, 9)
  {
    hide DecColumn, InvRounds, AddRoundKey;
    ghost var keys: Schedule := rk[..];
    var s0, s1, s2, s3 := first.w0, first.w1, first.w2, first.w3;
    var t0, t1, t2, t3;
    var k, r := 0, 5;
    while true
      invariant 1 <= r <= 5 && k == 8 * (5 - r)
      invariant Block(s0, s1, s2, s3) == InvRounds(keys, b, 2 * (5 - r))
      decreases r
    {
      DecStep(keys, b, Block(s0, s1, s2, s3), 2 * (5 - r) + 1, k + 4);
      t0 := DecColumn(s0, s3, s2, s1, rk[k + 4]);
      t1 := DecColumn(s1, s0, s3, s2, rk[k + 5]);
      t2 := DecColumn(s2, s1, s0, s3, rk[k + 6]);
      t3 := DecColumn(s3, s2, s1, s0, rk[k + 7]);
      k := k + 8;
      r := r - 1;
      if r == 0 {
        break;
      }
      DecStep(keys, b, Block(t0, t1, t2, t3), 2 * (5 - r), k);
      s0 := DecColumn(t0, t3, t2, t1, rk[k]);
      s1 := DecColumn(t1, t0, t3, t2, rk[k + 1]);
      s2 := DecColumn(t2, t1, t0, t3, rk[k + 2]);
      s3 := DecColumn(t3, t2, t1, t0, rk[k + 3]);
    }
    last := Block(t0, t1, t2, t3);
  }

  // rijndaelDecrypt, with the same freedom of overlap
  method Decrypt(rk: array<bv32>, ct: array<bv8>, co: nat, pt: array<bv8>, po: nat)
    requires rk.Length == 44 && po + 16 <= pt.Length && co + 16 <= ct.Length
    modifies pt
    ensures BlockAt(pt[..], po) == EqInvCipher(rk[..], old(BlockAt(ct[..], co)))
    ensures forall k | 0 <= k < pt.Length && !(po <= k < po + 16) :: pt[k] == old(pt[k])
  {
    hide DecLastColumn, Word, Add;
    ghost var b := BlockAt(ct[..], co);
    var s0 := Add(GetWord(ct[..], co), rk[0]);
    var s1 := Add(GetWord(ct[..], co + 4), rk[1]);
    var s2 := Add(GetWord(ct[..], co + 8), rk[2]);
    var s3 := Add(GetWord(ct[..], co + 12), rk[3]);
    var t := DecryptRounds(rk, Block(s0, s1, s2, s3), b);
    DecFinish(rk[..], b, t);
    s0 := DecLastColumn(t.w0, t.w3, t.w2, t.w1, rk[40]);
    s1 := DecLastColumn(t.w1, t.w0, t.w3, t.w2, rk[41]);
    s2 := DecLastColumn(t.w2, t.w1, t.w0, t.w3, rk[42]);
    s3 := DecLastColumn(t.w3, t.w2, t.w1, t.w0, rk[43]);
    PutBlock(pt, po, Block(s0, s1, s2, s3));
  }

  // ----- rijndaelKeySetupEnc and rijndaelKeySetupDec -----

  method KeySetupEnc(rk: array<bv32>, key: array<bv8>, ko: nat)
    requires rk.Length == 44 && ko + 16 <= key.Length
    modifies rk
    ensures rk[..] == ExpandKey(key[ko..ko + 16])
  {
    hide Word, KeyWord, ExpandKey;
    ghost var ks := key[ko..ko + 16];
    rk[0] := GetWord(key[..], ko);
    rk[1] := GetWord(key[..], ko + 4);
    rk[2] := GetWord(key[..], ko + 8);
    rk[3] := GetWord(key[..], ko + 12);
    KeyWordFirst(ks);
    ExpandLoop(rk, ks);
  }

  // the next four words from the last four
  method ExpandStep(rk: array<bv32>, k: nat, rcon: bv8)
    requires k + 8 <= rk.Length
    modifies rk
    ensures rk[k + 4] == KeyCore(old(rk[k]), old(rk[k + 3]), rcon)
    ensures rk[k + 5] == Add(old(rk[k + 1]), rk[k + 4])
    ensures rk[k + 6] == Add(old(rk[k + 2]), rk[k + 5])
    ensures rk[k + 7] == Add(old(rk[k + 3]), rk[k + 6])
    ensures forall j | 0 <= j < rk.Length && !(k + 4 <= j < k + 8) :: rk[j] == old(rk[j])
  {
    hide Add, KeyCore;
    var temp := rk[k + 3];
    rk[k + 4] := KeyCore(rk[k], temp, rcon);
    rk[k + 5] := Add(rk[k + 1], rk[k + 4]);
    rk[k + 6] := Add(rk[k + 2], rk[k + 5]);
    rk[k + 7] := Add(rk[k + 3], rk[k + 6]);
  }

  method ExpandLoop(rk: array<bv32>, ghost ks: seq<bv8>)
    requires rk.Length == 44 && |ks| == 16
    requires rk[0] == KeyWord(ks, 0) && rk[1] == KeyWord(ks, 1) && rk[2] == KeyWord(ks, 2) && rk[3] == KeyWord(ks, 3)
    modifies rk
    ensures rk[..] == ExpandKey(ks)
  {
    hide Word, Add, KeyCore, KeyWord;
    var i, k := 0, 0;
    while i < 10
      invariant 0 <= i <= 10 && k == 4 * i
      invariant forall j | 0 <= j < k + 4 :: rk[j] == KeyWord(ks, j)
    {
      KeyWordStep(ks, i);
      ExpandStep(rk, k, RCONS[i]);
      k := k + 4;
      i := i + 1;
    }
  }

  // exchange of two round keys
  method SwapKeys(rk: array<bv32>, i: nat, j: nat)
    requires i + 4 <= j && j + 4 <= rk.Length
    modifies rk
    ensures forall c | 0 <= c < rk.Length ::
      rk[c] == if i <= c < i + 4 then old(rk[c + (j - i)]) else if j <= c < j + 4 then old(rk[c - (j - i)]) else old(rk[c])
  {
    var d := 0;
    while d < 4
      invariant 0 <= d <= 4
      invariant forall c | 0 <= c < rk.Length ::
        rk[c] == if i <= c < i + d then old(rk[c + (j - i)]) else if j <= c < j + d then old(rk[c - (j - i)]) else old(rk[c])
    {
      var temp := rk[i + d];
      rk[i + d] := rk[j + d];
      rk[j + d] := temp;
      d := d + 1;
    }
  }

  // reversal of the order of the eleven round keys
  method ReverseKeys(rk: array<bv32>)
    requires rk.Length == 44
    modifies rk
    ensures forall c | 0 <= c < 44 :: rk[c] == old(rk[Mirror(c)])
  {
    hide Mirror;
    ghost var was := rk[..];
    ghost var n := 0;
    var i, j := 0, 40;
    while i < j
      invariant 0 <= n <= 5 && i == 4 * n && j == 40 - i
      invariant forall c | 0 <= c < 44 :: rk[c] == if i <= c < j + 4 then was[c] else was[Mirror(c)]
    {
      ghost var before := rk[..];
      SwapKeys(rk, i, j);
      forall c | 0 <= c < 44
        ensures rk[c] == if i + 4 <= c < j then was[c] else was[Mirror(c)]
      {
        if i <= c < i + 4 {
          MirrorAt(n, c - i);
          assert rk[c] == before[c + (j - i)];
        } else if j <= c < j + 4 {
          MirrorAt(n, c - j);
          assert rk[c] == before[c - (j - i)];
        } else {
          assert rk[c] == before[c];
        }
      }
      n := n + 1;
      i := i + 4;
      j := j - 4;
    }
    MirrorMiddle();
  }

  lemma MirrorMiddle()
    ensures Mirror(20) == 20 && Mirror(21) == 21 && Mirror(22) == 22 && Mirror(23) == 23
  {
  }

  // the inverse MixColumn transform on all round keys but the first and the last
  method TransformKeys(rk: array<bv32>)
    requires rk.Length == 44
    modifies rk
    ensures forall c | 0 <= c < 44 :: rk[c] == if 4 <= c < 40 then InvMix(old(rk[c])) else old(rk[c])
  {
    hide InvMix, InvMixByTables;
    var i := 1;
    while i < 10
      invariant 1 <= i <= 10
      invariant forall c | 0 <= c < 44 :: rk[c] == if 4 <= c < 4 * i then InvMix(old(rk[c])) else old(rk[c])
    {
      var j := 0;
      while j < 4
        invariant 0 <= j <= 4
        invariant forall c | 0 <= c < 44 :: rk[c] == if 4 <= c < 4 * i + j then InvMix(old(rk[c])) else old(rk[c])
      {
        InvMixByTablesIsInvMix(rk[4 * i + j]);
        rk[4 * i + j] := InvMixByTables(rk[4 * i + j]);
        j := j + 1;
      }
      i := i + 1;
    }
  }

  // rijndaelKeySetupDec
  method KeySetupDec(rk: array<bv32>, key: array<bv8>, ko: nat)
    requires rk.Length == 44 && ko + 16 <= key.Length
    modifies rk
    ensures rk[..] == DecSchedule(ExpandKey(key[ko..ko + 16]))
  {
    hide InvMix, ExpandKey, Mirror;
    KeySetupEnc(rk, key, ko);
    ghost var ek: Schedule := rk[..];
    ReverseKeys(rk);
    TransformKeys(rk);
    assert forall c | 0 <= c < 44 :: rk[c] == DecKey(ek, c);
  }

  // For every key and block: enciphering in place under the expanded key and
  // deciphering in place under the decryption schedule restores the bytes.
  method RoundTrip(key: array<bv8>, data: array<bv8>, o: nat)
    requires key.Length >= 16 && o + 16 <= data.Length && key != data
    modifies data
    ensures data[..] == old(data[..])
  {
    hide Cipher, EqInvCipher, DecSchedule, ExpandKey, BlockAt;
    var ek, dk := new bv32[44], new bv32[44];
    KeySetupEnc(ek, key, 0);
    KeySetupDec(dk, key, 0);
    ghost var was := data[..];
    Encrypt(ek, data, o, data, o);
    DecryptUndoesEncrypt(ek[..], BlockAt(was, o));
    Decrypt(dk, data, o, data, o);
    SameBytes(was, data[..], o);
  }

  // a block determines its sixteen bytes
  lemma SameBytes(p: seq<bv8>, q: seq<bv8>, o: nat)
    requires o + 16 <= |p| && o + 16 <= |q| && BlockAt(p, o) == BlockAt(q, o)
    ensures forall k | o <= k < o + 16 :: p[k] == q[k]
  {
    hide Word, Byte0, Byte1, Byte2, Byte3;
    SameWord(p, q, o);
    SameWord(p, q, o + 4);
    SameWord(p, q, o + 8);
    SameWord(p, q, o + 12);
  }

  lemma SameWord(p: seq<bv8>, q: seq<bv8>, i: nat)
    requires i + 4 <= |p| && i + 4 <= |q| && GetWord(p, i) == GetWord(q, i)
    ensures p[i] == q[i] && p[i + 1] == q[i + 1] && p[i + 2] == q[i + 2] && p[i + 3] == q[i + 3]
  {
    hide Word, Byte0, Byte1, Byte2, Byte3;
    WordBytes(p[i], p[i + 1], p[i + 2], p[i + 3]);
    WordBytes(q[i], q[i + 1], q[i + 2], q[i + 3]);
  }
}
