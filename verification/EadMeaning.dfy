/** What the receiver of an encrypted message accepts, and what stands behind
    the bytes: blocks, the hash over them, numbers and steps of the IV. */
module EadMeaning {
  import opened AesField
  import opened Aes
  import opened EadNumbers
  import opened EadCrypt

  // ----- which messages are accepted -----

  // can the message be deciphered at all?
  predicate WholeMessage(len: int) {
    len != 0 && (len > 0 ==> len % 64 == 0)
  }

  // the message deciphered block by block; a negative length leaves it as it is
  function Plain(key: seq<bv8>, data: seq<bv8>, len: int): (p: seq<bv8>)
    requires |key| == 16 && HEADER <= |data| && len <= |data| && WholeMessage(len)
    ensures |p| == |data|
  {
    if len < 0 then data
    else
      assert len % 16 == 0 by { WholeBlocks(len); }
      DecAll(DecSchedule(ExpandKey(key)), data[..len]) + data[len..]
  }

  // the plain message with the field of the hash zero
  function WithoutHash(p: seq<bv8>): (m: seq<bv8>)
    requires |p| >= HEADER
    ensures |m| == |p|
  {
    seq(20, _ => 0) + p[20..]
  }

  // The padding fits a block and the IV is new and not too far ahead.
  predicate FreshMessage(p: seq<bv8>, rx: U32)
    requires |p| >= HEADER
  {
    p[24] < 64 && rx < NumberAt(p, 20) <= (rx + 128) % 0x1_0000_0000
  }

  // the hash that came with the message is that of the message
  predicate Authentic(h: Hash, p: seq<bv8>, len: int)
    requires HEADER <= |p| && len <= |p| && WholeMessage(len)
  {
    p[..20] == DigestBytes(HashOf(h, WithoutHash(p)[..if len < 0 then 0 else len]))
  }

  // A message is accepted if and only if it is whole, its padding and IV are
  // good and its hash is right. The IV moves on whether the hash is right or
  // not, and only then is the field of the hash cleared.
  lemma AcceptedExactly(h: Hash, key: seq<bv8>, data: seq<bv8>, len: int, rx: U32)
    requires |key| == 16 && HEADER <= |data| && len <= |data|
    ensures var o := Decrypted(h, key, data, len, rx);
      if !WholeMessage(len) then o == Opened(data, rx, false, 0)
      else
        var p := Plain(key, data, len);
        if !FreshMessage(p, rx) then o == Opened(p, rx, false, 0)
        else
          && o.rx == NumberAt(p, 20) && o.data == WithoutHash(p)
          && (o.ok <==> Authentic(h, p, len))
          && (o.ok ==> (o.n - (len - p[24] as int - 25)) % 0x1_0000_0000 == 0 && (len >= -0x7fff_ffa8 ==> o.n == len - p[24] as int - 25))
  {
    hide DecAll, DecSchedule, ExpandKey, HashOf, DigestBytes, NumberAt;
    if WholeMessage(len) {
      WholeBlocks(len);
      var p := Plain(key, data, len);
      assert p == Deciphered(key, data, Positive(len)) by {
        NothingDeciphered(key, data);
      }
      hide Deciphered, Plain;
      PadNumber(p[24]);
      CheckedMeans(h, p, len, rx);
    }
  }

  lemma NothingDeciphered(key: seq<bv8>, data: seq<bv8>)
    requires |key| == 16
    ensures Deciphered(key, data, 0) == data
  {
    NoBlocks(DecSchedule(ExpandKey(key)));
    assert data[..0] == [];
  }

  lemma PadNumber(b: bv8)
    ensures b < 64 <==> (b as int) < 64
  {
  }

  lemma CheckedMeans(h: Hash, p: seq<bv8>, len: int, rx: U32)
    requires HEADER <= |p| && len <= |p| && WholeMessage(len) && Positive(len) % 64 == 0
    requires p[24] < 64 <==> (p[24] as int) < 64
    ensures var o := Checked(h, p, len, rx);
      if !FreshMessage(p, rx) then o == Opened(p, rx, false, 0)
      else
        && o.rx == NumberAt(p, 20) && o.data == WithoutHash(p)
        && (o.ok <==> Authentic(h, p, len))
        && (o.ok ==> (o.n - (len - p[24] as int - 25)) % 0x1_0000_0000 == 0 && (len >= -0x7fff_ffa8 ==> o.n == len - p[24] as int - 25))
  {
    hide HashOf, DigestBytes, NumberAt;
    assert Zeros() == seq(20, _ => 0);
  }

  // ----- what stands behind the bytes -----

  // The digest goes through the blocks from the first to the last.
  function Fold(h: Hash, d: Digest, p: seq<bv8>): Digest
    requires |p| % 64 == 0
    decreases |p|
  {
    if p == [] then d else Fold(h, h.step(d, p[..64]), p[64..])
  }

  lemma {:induction false} FoldAppends(h: Hash, d: Digest, p: seq<bv8>, e: seq<bv8>)
    requires |p| % 64 == 0 && |e| == 64
    ensures Fold(h, d, p + e) == h.step(Fold(h, d, p), e)
    decreases |p|
  {
    if p == [] {
      assert p + e == e && e[..64] == e && e[64..] == [];
    } else {
      assert (p + e)[..64] == p[..64] && (p + e)[64..] == p[64..] + e;
      FoldAppends(h, h.step(d, p[..64]), p[64..], e);
    }
  }

  lemma {:induction false} HashIsFold(h: Hash, p: seq<bv8>)
    requires |p| % 64 == 0
    ensures HashOf(h, p) == Fold(h, h.start, p)
  {
    if p != [] {
      var a, e := p[..|p| - 64], p[|p| - 64..];
      assert p == a + e;
      HashIsFold(h, a);
      FoldAppends(h, h.start, a, e);
    }
  }

  // Each block of 16 bytes is enciphered and deciphered by itself.
  lemma {:induction false} BlocksApart(rk: Schedule, p: seq<bv8>, k: nat)
    requires |p| % 16 == 0 && 16 * k + 16 <= |p|
    ensures EncAll(rk, p)[16 * k..16 * k + 16] == BlockBytes(Cipher(rk, BlockAt(p, 16 * k)))
    ensures DecAll(rk, p)[16 * k..16 * k + 16] == BlockBytes(EqInvCipher(rk, BlockAt(p, 16 * k)))
  {
    hide Cipher, EqInvCipher, BlockBytes, BlockAt;
    var a := p[..|p| - 16];
    if 16 * k < |a| {
      BlocksApart(rk, a, k);
      SameBlockBefore(p, 16 * k);
    }
  }

  lemma SameBlockBefore(p: seq<bv8>, o: nat)
    requires |p| >= 16 && o + 16 <= |p| - 16
    ensures BlockAt(p[..|p| - 16], o) == BlockAt(p, o)
  {
    hide Word;
  }

  // the first byte of a number is the highest
  lemma NumberIsBigEndian(p: seq<bv8>, i: nat)
    requires i + 4 <= |p|
    ensures NumberAt(p, i) == 0x100_0000 * (p[i] as int) + 0x1_0000 * (p[i + 1] as int) + 0x100 * (p[i + 2] as int) + (p[i + 3] as int)
  {
  }

  lemma DigestWords(d: Digest)
    ensures var b := DigestBytes(d);
      && GetWord(b, 0) == d.h0 && GetWord(b, 4) == d.h1 && GetWord(b, 8) == d.h2
      && GetWord(b, 12) == d.h3 && GetWord(b, 16) == d.h4
  {
    hide WordToBytes, GetWord;
    var b0, b1, b2, b3, b4 := WordToBytes(d.h0), WordToBytes(d.h1), WordToBytes(d.h2), WordToBytes(d.h3), WordToBytes(d.h4);
    var b := DigestBytes(d);
    assert b == [] + b0 + (b1 + b2 + b3 + b4) && b == b0 + b1 + (b2 + b3 + b4) && b == (b0 + b1) + b2 + (b3 + b4);
    assert b == (b0 + b1 + b2) + b3 + b4 && b == (b0 + b1 + b2 + b3) + b4 + [];
    WordToBytesUndone(d.h0, [], b1 + b2 + b3 + b4);
    WordToBytesUndone(d.h1, b0, b2 + b3 + b4);
    WordToBytesUndone(d.h2, b0 + b1, b3 + b4);
    WordToBytesUndone(d.h3, b0 + b1 + b2, b4);
    WordToBytesUndone(d.h4, b0 + b1 + b2 + b3, []);
  }

  // The step from one IV to the next is one more than two bits of the vector,
  // from its low end on.
  lemma {:induction false} IvStep(vec: U32, idx: nat, tx: U32)
    ensures NextIv(vec, idx, tx) == (tx + 1 + vec / Power4(idx) % 4) % 0x1_0000_0000
  {
    ShiftedIs(vec, idx);
  }

  lemma {:induction false} ShiftedIs(vec: nat, idx: nat)
    ensures ShiftedTwice(vec, idx) == vec / Power4(idx)
  {
    if idx > 0 {
      ShiftedIs(vec / 4, idx - 1);
      QuotientTwice(vec, Power4(idx - 1));
    }
  }

  lemma QuotientTwice(v: nat, k: nat)
    requires k > 0
    ensures v / 4 / k == v / (4 * k)
  {
    var q := v / (4 * k);
    var r := v % (4 * k);
    assert v == 4 * (k * q) + r;
    assert v / 4 == k * q + r / 4 && r / 4 < k;
    assert (k * q + r / 4) / k == q by {
      QuotientOf(k, q, r / 4);
    }
  }

  lemma QuotientOf(k: nat, q: nat, s: nat)
    requires s < k
    ensures (k * q + s) / k == q
  {
    var d := (k * q + s) / k;
    assert k * d <= k * q + s < k * d + k;
    if d < q {
      NextMultiple(k, d, q);
    } else if q < d {
      NextMultiple(k, q, d);
    }
  }

  lemma {:induction false} NextMultiple(k: nat, a: nat, b: nat)
    requires a < b
    ensures k * a + k <= k * b
  {
    assert k * b == k * (b - 1) + k;
    if a < b - 1 {
      NextMultiple(k, a, b - 1);
    }
  }
}
