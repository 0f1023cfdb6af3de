/** The encrypted messages of the ead protocol: padding, hash, block encryption
    and the window of accepted IVs. The hash function is a parameter. */
module EadCrypt {
  import opened AesField
  import opened Aes
  import opened EadNumbers

  // sizeof(struct ead_msg_encrypted): hash, iv and pad
  const HEADER: nat := 25
  const PAD: nat := 64
  const MAX_IV_INCR: nat := 128

  datatype Digest = Digest(h0: bv32, h1: bv32, h2: bv32, h3: bv32, h4: bv32)

  // sha_init and sha_transform
  datatype Hash = Hash(start: Digest, step: (Digest, seq<bv8>) -> Digest)

  function HashOf(h: Hash, p: seq<bv8>): Digest
    requires |p| % 64 == 0
  {
    if p == [] then h.start else h.step(HashOf(h, p[..|p| - 64]), p[|p| - 64..])
  }

  // ----- bytes -----

  function WordToBytes(w: bv32): (b: seq<bv8>)
    ensures |b| == 4
  {
    [Byte0(w), Byte1(w), Byte2(w), Byte3(w)]
  }

  lemma WordToBytesUndone(w: bv32, pre: seq<bv8>, post: seq<bv8>)
    ensures GetWord(pre + WordToBytes(w) + post, |pre|) == w
  {
    BytesWord(w);
    var p := pre + WordToBytes(w) + post;
    assert p[|pre|] == Byte0(w) && p[|pre| + 1] == Byte1(w) && p[|pre| + 2] == Byte2(w) && p[|pre| + 3] == Byte3(w);
  }

  lemma GetWordBytes(p: seq<bv8>, i: nat)
    requires i + 4 <= |p|
    ensures WordToBytes(GetWord(p, i)) == p[i..i + 4]
  {
    WordBytes(p[i], p[i + 1], p[i + 2], p[i + 3]);
  }

  function BlockBytes(b: Block): (s: seq<bv8>)
    ensures |s| == 16
  {
    WordToBytes(b.w0) + WordToBytes(b.w1) + WordToBytes(b.w2) + WordToBytes(b.w3)
  }

  lemma BlockBytesUndone(b: Block)
    ensures BlockAt(BlockBytes(b), 0) == b
  {
    var s := BlockBytes(b);
    var p0, p1, p2, p3 := WordToBytes(b.w0), WordToBytes(b.w1), WordToBytes(b.w2), WordToBytes(b.w3);
    assert s == [] + p0 + (p1 + p2 + p3) && s == p0 + p1 + (p2 + p3) && s == (p0 + p1) + p2 + p3 && s == (p0 + p1 + p2) + p3 + [];
    WordToBytesUndone(b.w0, [], p1 + p2 + p3);
    WordToBytesUndone(b.w1, p0, p2 + p3);
    WordToBytesUndone(b.w2, p0 + p1, p3);
    WordToBytesUndone(b.w3, p0 + p1 + p2, []);
  }

  lemma BlockAtBytes(p: seq<bv8>, o: nat)
    requires o + 16 <= |p|
    ensures BlockBytes(BlockAt(p, o)) == p[o..o + 16]
  {
    hide WordToBytes, GetWord;
    GetWordBytes(p, o);
    GetWordBytes(p, o + 4);
    GetWordBytes(p, o + 8);
    GetWordBytes(p, o + 12);
  }

  // ----- all blocks of a message -----

  function EncAll(rk: Schedule, p: seq<bv8>): (c: seq<bv8>)
    requires |p| % 16 == 0
    ensures |c| == |p|
  {
    if p == [] then []
    else EncAll(rk, p[..|p| - 16]) + BlockBytes(Cipher(rk, BlockAt(p, |p| - 16)))
  }

  function DecAll(dk: Schedule, c: seq<bv8>): (p: seq<bv8>)
    requires |c| % 16 == 0
    ensures |p| == |c|
  {
    if c == [] then []
    else DecAll(dk, c[..|c| - 16]) + BlockBytes(EqInvCipher(dk, BlockAt(c, |c| - 16)))
  }

  lemma AllButLast(rk: Schedule, a: seq<bv8>, e: seq<bv8>)
    requires |a| % 16 == 0 && |e| == 16
    ensures EncAll(rk, a + e) == EncAll(rk, a) + BlockBytes(Cipher(rk, BlockAt(e, 0)))
    ensures DecAll(rk, a + e) == DecAll(rk, a) + BlockBytes(EqInvCipher(rk, BlockAt(e, 0)))
  {
    hide Cipher, EqInvCipher, BlockBytes, BlockAt;
    LastBlock(a, e);
    assert (a + e)[..|a|] == a;
  }

  lemma {:induction false} DecAllUndoesEncAll(rk: Schedule, p: seq<bv8>)
    requires |p| % 16 == 0
    ensures DecAll(DecSchedule(rk), EncAll(rk, p)) == p
  {
    hide Cipher, EqInvCipher, DecSchedule, BlockBytes, BlockAt, EncAll, DecAll;
    if p == [] {
      NoBlocks(rk);
      NoBlocks(DecSchedule(rk));
    } else {
      var a, e := p[..|p| - 16], p[|p| - 16..];
      assert p == a + e;
      DecAllUndoesEncAll(rk, a);
      AllButLast(rk, a, e);
      var c := Cipher(rk, BlockAt(e, 0));
      AllButLast(DecSchedule(rk), EncAll(rk, a), BlockBytes(c));
      BlockBytesUndone(c);
      DecryptUndoesEncrypt(rk, BlockAt(e, 0));
      BlockAtBytes(e, 0);
      assert e[0..16] == e;
    }
  }

  lemma NoBlocks(rk: Schedule)
    ensures EncAll(rk, []) == [] && DecAll(rk, []) == []
  {
  }

  lemma LastBlock(a: seq<bv8>, e: seq<bv8>)
    requires |e| == 16
    ensures BlockAt(a + e, |a|) == BlockAt(e, 0)
  {
    hide Word;
    var p := a + e;
    assert forall i | 0 <= i < 16 :: p[|a| + i] == e[i];
  }

  // ----- one message -----

  // what ead_encrypt_message adds to fill the last block
  function Padding(len: nat): (pad: nat)
    ensures pad < PAD && (len + pad) % PAD == 0
  {
    PaddingFills(len);
    (PAD - len % PAD) % PAD
  }

  function WholeLength(n: nat): (w: nat)
    ensures w % 64 == 0 && w % 16 == 0 && w >= n + HEADER && w == n + HEADER + Padding(n + HEADER)
  {
    var w := n + HEADER + Padding(n + HEADER);
    SixteenDivides(w);
    w
  }

  function DigestBytes(d: Digest): (s: seq<bv8>)
    ensures |s| == 20
  {
    WordToBytes(d.h0) + WordToBytes(d.h1) + WordToBytes(d.h2) + WordToBytes(d.h3) + WordToBytes(d.h4)
  }

  function Zeros(): (s: seq<bv8>)
    ensures |s| == 20
  {
    seq(20, _ => 0)
  }

  // the message with hash field zero
  function Cleared(p: seq<bv8>): (r: seq<bv8>)
    requires |p| >= 20
    ensures |r| == |p|
  {
    Zeros() + p[20..]
  }

  function Stamped(b: seq<bv8>, iv: U32, pad: nat): (r: seq<bv8>)
    requires |b| >= HEADER && pad < PAD
    ensures |r| == |b|
  {
    Zeros() + NumberBytes(iv) + [pad as bv8] + b[HEADER..]
  }

  function Hashed(h: Hash, p: seq<bv8>): (r: seq<bv8>)
    requires |p| % 64 == 0 && |p| >= 20
    ensures |r| == |p|
  {
    DigestBytes(HashOf(h, p)) + p[20..]
  }

  // the plain message for n bytes of payload in the buffer b
  function Sealed(h: Hash, b: seq<bv8>, iv: U32, n: nat): (r: seq<bv8>)
    requires WholeLength(n) <= |b|
    ensures |r| == WholeLength(n)
  {
    Hashed(h, Stamped(b[..WholeLength(n)], iv, Padding(n + HEADER)))
  }

  // the buffer after ead_encrypt_message
  function Encrypted(h: Hash, key: seq<bv8>, b: seq<bv8>, iv: U32, n: nat): (r: seq<bv8>)
    requires |key| == 16 && WholeLength(n) <= |b|
    ensures |r| == |b|
  {
    EncAll(ExpandKey(key), Sealed(h, b, iv, n)) + b[WholeLength(n)..]
  }

  // What ead_decrypt_message leaves: the buffer, the last IV, and whether the
  // message was accepted, with the length of its payload.
  datatype Opened = Opened(data: seq<bv8>, rx: U32, ok: bool, n: int)

  predicate InWindow(rx: U32, iv: U32) {
    iv > rx && iv <= (rx + MAX_IV_INCR) % 0x1_0000_0000
  }

  // the conversion of a difference back to int
  function ToInt32(x: int): int {
    if x < -0x8000_0000 then x + 0x1_0000_0000 else x
  }

  // the length field is read as a signed number; a negative one deciphers nothing
  function Positive(len: int): nat {
    if len > 0 then len else 0
  }

  // the buffer with its first blocks deciphered
  function Deciphered(key: seq<bv8>, data: seq<bv8>, k: nat): (p: seq<bv8>)
    requires |key| == 16 && k <= |data| && k % 16 == 0
    ensures |p| == |data|
  {
    DecAll(DecSchedule(ExpandKey(key)), data[..k]) + data[k..]
  }

  function Decrypted(h: Hash, key: seq<bv8>, data: seq<bv8>, len: int, rx: U32): (r: Opened)
    requires |key| == 16 && HEADER <= |data| && len <= |data|
    ensures |r.data| == |data|
  {
    if len == 0 || (len > 0 && len % PAD > 0) then Opened(data, rx, false, 0)
    else
      WholeBlocks(len);
      Checked(h, Deciphered(key, data, Positive(len)), len, rx)
  }

  lemma WholeBlocks(len: int)
    requires len > 0 ==> len % PAD == 0
    ensures Positive(len) % 16 == 0 && Positive(len) % 64 == 0 && (len > 0 ==> len >= 64)
  {
    SixteenDivides(Positive(len));
  }

  // the checks on the deciphered message: padding, IV, hash
  function Checked(h: Hash, p: seq<bv8>, len: int, rx: U32): (r: Opened)
    requires HEADER <= |p| && len <= |p| && Positive(len) % 64 == 0
    ensures |r.data| == |p|
  {
    var pad := p[24] as int;
    var iv := NumberAt(p, 20);
    if pad >= PAD || !InWindow(rx, iv) then Opened(p, rx, false, 0)
    else if p[..20] != DigestBytes(HashOf(h, Cleared(p)[..Positive(len)])) then Opened(Cleared(p), iv, false, 0)
    else Opened(Cleared(p), iv, true, ToInt32(len - pad - HEADER))
  }

  // A genuine message is accepted exactly if its IV is in the window, and then
  // gives back the payload and its length.
  lemma GenuineMessage(h: Hash, key: seq<bv8>, b: seq<bv8>, iv: U32, n: nat, rx: U32)
    requires |key| == 16 && WholeLength(n) <= |b| < 0x8000_0000
    ensures var o := Decrypted(h, key, Encrypted(h, key, b, iv, n), WholeLength(n), rx);
      if InWindow(rx, iv) then o.ok && o.rx == iv && o.n == n && o.data[HEADER..] == b[HEADER..]
      else !o.ok && o.rx == rx
  {
    hide EncAll, DecAll, ExpandKey, DecSchedule, Checked, Sealed, InWindow, WholeLength;
    var k := WholeLength(n);
    var rk := ExpandKey(key);
    var s := Sealed(h, b, iv, n);
    var c := Encrypted(h, key, b, iv, n);
    assert c[..k] == EncAll(rk, s) && c[k..] == b[k..];
    DecAllUndoesEncAll(rk, s);
    assert Deciphered(key, c, k) == s + b[k..];
    SealedPasses(h, b, iv, n, rx);
  }

  lemma SealedPasses(h: Hash, b: seq<bv8>, iv: U32, n: nat, rx: U32)
    requires WholeLength(n) <= |b| < 0x8000_0000
    ensures var k := WholeLength(n);
      var o := Checked(h, Sealed(h, b, iv, n) + b[k..], k, rx);
      if InWindow(rx, iv) then o.ok && o.rx == iv && o.n == n && o.data[HEADER..] == b[HEADER..]
      else !o.ok && o.rx == rx
  {
    hide DigestBytes, HashOf, NumberBytes, InWindow, NumberAt, Padding, WholeLength, Stamped, Cleared;
    var k := WholeLength(n);
    var pad := Padding(n + HEADER);
    var p := Sealed(h, b, iv, n) + b[k..];
    var m := Stamped(b[..k], iv, pad);
    var d := DigestBytes(HashOf(h, m));
    StampedTail(b[..k], iv, pad);
    ByteNumber(pad);
    SealedParts(d, m, b[k..], iv, pad, b[..k][HEADER..]);
    assert b[..k][HEADER..] + b[k..] == b[HEADER..];
  }

  // the message m with its hash field filled, before the rest of the buffer
  lemma SealedParts(d: seq<bv8>, m: seq<bv8>, rest: seq<bv8>, iv: U32, pad: nat, body: seq<bv8>)
    requires |d| == 20 && |m| >= HEADER && pad < 256 && |body| == |m| - HEADER
    requires m[20..] == NumberBytes(iv) + ([pad as bv8] + body) && m[..20] == Zeros()
    ensures var p := d + m[20..] + rest;
      && p[..20] == d && p[24] == pad as bv8 && NumberAt(p, 20) == iv
      && Cleared(p)[..|m|] == m && Cleared(p)[HEADER..] == body + rest
  {
    hide NumberBytes, NumberAt;
    var p := d + m[20..] + rest;
    NumberUndone(iv, d, [pad as bv8] + body + rest);
    assert p == d + NumberBytes(iv) + ([pad as bv8] + body + rest);
    assert m == Zeros() + m[20..];
  }

  // ----- the sequence of IVs -----

  // the vector shifted right by two bits idx times
  function ShiftedTwice(vec: nat, idx: nat): nat {
    if idx == 0 then vec else ShiftedTwice(vec / 4, idx - 1)
  }

  // the step taken from two bits of the random vector
  function Offset(vec: U32, idx: nat): (ofs: nat)
    ensures 1 <= ofs <= 4
  {
    1 + ShiftedTwice(vec, idx) % 4
  }

  function NextIv(vec: U32, idx: nat, tx: U32): U32 {
    (tx + Offset(vec, idx)) % 0x1_0000_0000
  }

  // a message to send: a buffer with n bytes of payload behind the header
  datatype Message = Message(buf: seq<bv8>, n: nat) {
    predicate Fits() {
      WholeLength(n) <= |buf| < 0x8000_0000
    }
  }

  // the ends of one direction of a channel: the sender's IV and its index into
  // the random vector, and the receiver's IV
  datatype Ends = Ends(tx: U32, idx: nat, rx: U32)

  // what came of a message, and the IV it was sent with
  datatype Outcome = Lost(iv: U32) | Got(iv: U32, result: Opened)

  // messages sent one after the other; some are lost, the others arrive in order
  ghost function Exchange(h: Hash, key: seq<bv8>, vec: U32, e: Ends, sends: seq<Message>, lost: seq<bool>): (r: seq<Outcome>)
    requires |key| == 16 && |sends| == |lost| && forall m | m in sends :: m.Fits()
    ensures |r| == |sends|
    decreases |sends|
  {
    if sends == [] then []
    else
      var iv := NextIv(vec, e.idx, e.tx);
      var idx := (e.idx + 1) % 16;
      var m := sends[0];
      assert m in sends && m.Fits();
      if lost[0] then [Lost(iv)] + Exchange(h, key, vec, Ends(iv, idx, e.rx), sends[1..], lost[1..])
      else
        var o := Decrypted(h, key, Encrypted(h, key, m.buf, iv, m.n), WholeLength(m.n), e.rx);
        [Got(iv, o)] + Exchange(h, key, vec, Ends(iv, idx, o.rx), sends[1..], lost[1..])
  }

  // after gap losses in a row, no more than 31 in a row are lost
  ghost predicate ShortGaps(lost: seq<bool>, gap: nat) {
    lost == [] || if lost[0] then gap < 31 && ShortGaps(lost[1..], gap + 1) else ShortGaps(lost[1..], 0)
  }

  ghost predicate Delivered(m: Message, lost: bool, o: Outcome)
    requires m.Fits()
  {
    if lost then o.Lost?
    else o.Got? && o.result.ok && o.result.n == m.n && |o.result.data| == |m.buf| && o.result.data[HEADER..] == m.buf[HEADER..]
  }

  // The IVs strictly increase, lost messages included, by 1 to 4 from one
  // message to the next: none wraps around.
  ghost predicate IvsIncrease(tx: U32, r: seq<Outcome>) {
    && (forall i | 0 <= i < |r| :: tx + i + 1 <= r[i].iv <= tx + 4 * (i + 1))
    && forall i, j | 0 <= i < j < |r| :: r[i].iv < r[j].iv <= r[i].iv + 4 * (j - i)
  }

  lemma {:induction false} NoIvWraps(h: Hash, key: seq<bv8>, vec: U32, e: Ends, sends: seq<Message>, lost: seq<bool>)
    requires |key| == 16 && |sends| == |lost| && forall m | m in sends :: m.Fits()
    requires e.tx + 4 * |sends| < 0x1_0000_0000
    ensures IvsIncrease(e.tx, Exchange(h, key, vec, e, sends, lost))
    decreases |sends|
  {
    hide Decrypted, Encrypted, Offset;
    if sends != [] {
      var iv, idx, m := NextIv(vec, e.idx, e.tx), (e.idx + 1) % 16, sends[0];
      assert m in sends && m.Fits();
      assert iv == e.tx + Offset(vec, e.idx);
      var rx := if lost[0] then e.rx else Decrypted(h, key, Encrypted(h, key, m.buf, iv, m.n), WholeLength(m.n), e.rx).rx;
      NoIvWraps(h, key, vec, Ends(iv, idx, rx), sends[1..], lost[1..]);
      var rest := Exchange(h, key, vec, Ends(iv, idx, rx), sends[1..], lost[1..]);
      var r := Exchange(h, key, vec, e, sends, lost);
      assert r[0].iv == iv && r[1..] == rest;
      ExtendIvs(e.tx, iv, r, rest);
    }
  }

  lemma ExtendIvs(tx: U32, iv: U32, r: seq<Outcome>, rest: seq<Outcome>)
    requires tx < iv <= tx + 4 && r != [] && r[0].iv == iv && r[1..] == rest && IvsIncrease(iv, rest)
    ensures IvsIncrease(tx, r)
  {
    assert forall i | 0 < i < |r| :: r[i] == rest[i - 1] && iv + i <= rest[i - 1].iv <= iv + 4 * i;
    forall i, j | 0 <= i < j < |r|
      ensures r[i].iv < r[j].iv <= r[i].iv + 4 * (j - i)
    {
      if i > 0 {
        assert rest[i - 1].iv < rest[j - 1].iv;
      }
    }
  }

  // Every message that arrives gives its payload, as long as no more than 31 in
  // a row are lost and the IV is far enough from its maximum.
  lemma {:induction false} ArrivalsAreDelivered(h: Hash, key: seq<bv8>, vec: U32, e: Ends, sends: seq<Message>, lost: seq<bool>, gap: nat)
    requires |key| == 16 && |sends| == |lost| && forall m | m in sends :: m.Fits()
    requires ShortGaps(lost, gap) && gap <= 31 && e.rx <= e.tx <= e.rx + 4 * gap
    requires e.tx + 4 * |sends| + MAX_IV_INCR < 0x1_0000_0000
    ensures var r := Exchange(h, key, vec, e, sends, lost);
      forall i | 0 <= i < |sends| :: Delivered(sends[i], lost[i], r[i])
    decreases |sends|
  {
    hide Decrypted, Encrypted, Offset;
    if sends != [] {
      var iv := NextIv(vec, e.idx, e.tx);
      var m := sends[0];
      assert m in sends;
      assert iv == e.tx + Offset(vec, e.idx);
      assert InWindow(e.rx, iv);
      if lost[0] {
        ArrivalsAreDelivered(h, key, vec, Ends(iv, (e.idx + 1) % 16, e.rx), sends[1..], lost[1..], gap + 1);
      } else {
        GenuineMessage(h, key, m.buf, iv, m.n, e.rx);
        ArrivalsAreDelivered(h, key, vec, Ends(iv, (e.idx + 1) % 16, iv), sends[1..], lost[1..], 0);
      }
    }
  }

  // From the state ead_set_key leaves, this holds for that many messages, and
  // no IV wraps.
  lemma ChannelDelivers(h: Hash, key: seq<bv8>, vec: U32, start: U32, idx: nat, sends: seq<Message>, lost: seq<bool>)
    requires |key| == 16 && |sends| == |lost| && forall m | m in sends :: m.Fits()
    requires start < 0x100_0000 && |sends| <= (0x1_0000_0000 - 0x100_0000 - 128) / 4
    ensures var r := Exchange(h, key, vec, Ends(start, idx, start), sends, lost);
      IvsIncrease(start, r) && (ShortGaps(lost, 0) ==> forall i | 0 <= i < |sends| :: Delivered(sends[i], lost[i], r[i]))
  {
    hide Exchange, IvsIncrease, ShortGaps, Delivered;
    NoIvWraps(h, key, vec, Ends(start, idx, start), sends, lost);
    if ShortGaps(lost, 0) {
      ArrivalsAreDelivered(h, key, vec, Ends(start, idx, start), sends, lost, 0);
    }
  }

  // 32 losses in a row can be too many: if all steps are 4, the message after
  // them is refused.
  lemma ThirtyTwoLossesReject(h: Hash, key: seq<bv8>, start: U32, idx: nat, m: Message)
    requires |key| == 16 && m.Fits() && start < 0x100_0000 && idx < 16
    ensures var sends, lost := seq(33, _ => m), seq(33, i => i < 32);
      var r := Exchange(h, key, 0xffff_ffff, Ends(start, idx, start), sends, lost);
      r[32].Got? && !r[32].result.ok && r[32].iv == start + 132
  {
    hide Decrypted, Encrypted, Exchange;
    LossesInARow(h, key, start, idx, start, m, 32);
    GenuineMessage(h, key, m.buf, start + 132, m.n, start);
  }

  // k lost messages with steps of 4, and one that arrives
  lemma {:induction false} LossesInARow(h: Hash, key: seq<bv8>, tx: U32, idx: nat, rx: U32, m: Message, k: nat)
    requires |key| == 16 && m.Fits() && idx < 16 && tx + 4 * k + 4 < 0x1_0000_0000
    ensures var sends, lost := seq(k + 1, _ => m), seq(k + 1, i => i < k);
      var r := Exchange(h, key, 0xffff_ffff, Ends(tx, idx, rx), sends, lost);
      var iv := tx + 4 * k + 4;
      r[k] == Got(iv, Decrypted(h, key, Encrypted(h, key, m.buf, iv, m.n), WholeLength(m.n), rx))
    decreases k
  {
    hide Decrypted, Encrypted, Offset, WholeLength;
    var sends, lost := seq(k + 1, _ => m), seq(k + 1, i => i < k);
    AllOnes(idx);
    assert sends[0] == m && lost[0] == (0 < k);
    assert NextIv(0xffff_ffff, idx, tx) == tx + 4;
    if k > 0 {
      LossesInARow(h, key, tx + 4, (idx + 1) % 16, rx, m, k - 1);
      assert sends[1..] == seq(k, _ => m) && lost[1..] == seq(k, i => i < k - 1);
    }
  }

  // two bits of a vector of ones
  lemma AllOnes(idx: nat)
    requires idx < 16
    ensures Offset(0xffff_ffff, idx) == 4
  {
    assert Power4(2) == 0x10 && Power4(4) == 0x100 && Power4(6) == 0x1000 && Power4(8) == 0x1_0000;
    assert Power4(10) == 0x10_0000 && Power4(12) == 0x100_0000 && Power4(14) == 0x1000_0000 && Power4(16) == 0x1_0000_0000;
    OnesShifted(16, idx);
  }

  function Power4(k: nat): (r: nat)
    ensures r > 0
  {
    if k == 0 then 1 else 4 * Power4(k - 1)
  }

  lemma {:induction false} OnesShifted(k: nat, idx: nat)
    requires idx < k
    ensures ShiftedTwice(Power4(k) - 1, idx) % 4 == 3
  {
    var v := Power4(k) - 1;
    assert v == 4 * (Power4(k - 1) - 1) + 3;
    if idx > 0 {
      OnesShifted(k - 1, idx - 1);
    }
  }

  // ----- no message is accepted twice -----

  datatype Arrival = Arrival(data: seq<bv8>, len: int) {
    predicate Fits() {
      HEADER <= |data| && len <= |data|
    }
  }

  // any sequence of buffers given to the receiver
  ghost function Receive(h: Hash, key: seq<bv8>, rx: U32, arrivals: seq<Arrival>): (r: seq<Opened>)
    requires |key| == 16 && forall a | a in arrivals :: a.Fits()
    ensures |r| == |arrivals|
    decreases |arrivals|
  {
    if arrivals == [] then []
    else
      assert arrivals[0] in arrivals && arrivals[0].Fits();
      var o := Decrypted(h, key, arrivals[0].data, arrivals[0].len, rx);
      [o] + Receive(h, key, o.rx, arrivals[1..])
  }

  // the IV of a message as the receiver sees it
  ghost function IvOf(key: seq<bv8>, a: Arrival): U32
    requires |key| == 16 && a.Fits() && Positive(a.len) % 16 == 0
  {
    NumberAt(Deciphered(key, a.data, Positive(a.len)), 20)
  }

  lemma WindowAbove(rx: U32)
    ensures forall iv: U32 :: InWindow(rx, iv) ==> iv > rx
  {
  }

  lemma AcceptedRaisesIv(h: Hash, key: seq<bv8>, a: Arrival, rx: U32)
    requires |key| == 16 && a.Fits()
    ensures var o := Decrypted(h, key, a.data, a.len, rx);
      rx <= o.rx && (o.ok ==> Positive(a.len) % 16 == 0 && rx < o.rx == IvOf(key, a))
  {
    hide Deciphered, Checked, NumberAt;
    if a.len < 0 || (a.len > 0 && a.len % PAD == 0) {
      WholeBlocks(a.len);
      CheckedRaisesIv(h, Deciphered(key, a.data, Positive(a.len)), a.len, rx);
    }
  }

  lemma CheckedRaisesIv(h: Hash, p: seq<bv8>, len: int, rx: U32)
    requires HEADER <= |p| && len <= |p| && Positive(len) % 64 == 0
    ensures var o := Checked(h, p, len, rx);
      rx <= o.rx && (o.ok ==> rx < o.rx == NumberAt(p, 20))
  {
    hide NumberAt, DigestBytes, HashOf, InWindow, Cleared;
    WindowAbove(rx);
  }

  // Whatever arrives, the IVs of the accepted messages are strictly increasing.
  lemma {:induction false} AcceptedIvsIncrease(h: Hash, key: seq<bv8>, rx: U32, arrivals: seq<Arrival>, i: nat, j: nat)
    requires |key| == 16 && forall a | a in arrivals :: a.Fits()
    requires i < j < |arrivals|
    requires var r := Receive(h, key, rx, arrivals); r[j].ok && r[i].ok
    ensures Positive(arrivals[i].len) % 16 == 0 && Positive(arrivals[j].len) % 16 == 0
    ensures IvOf(key, arrivals[i]) < IvOf(key, arrivals[j])
    decreases i
  {
    hide Decrypted, IvOf;
    assert arrivals[0] in arrivals;
    var o := Decrypted(h, key, arrivals[0].data, arrivals[0].len, rx);
    AcceptedRaisesIv(h, key, arrivals[0], rx);
    if i == 0 {
      LaterIvIsLarger(h, key, o.rx, arrivals[1..], j - 1);
    } else {
      AcceptedIvsIncrease(h, key, o.rx, arrivals[1..], i - 1, j - 1);
    }
  }

  lemma {:induction false} LaterIvIsLarger(h: Hash, key: seq<bv8>, rx: U32, arrivals: seq<Arrival>, j: nat)
    requires |key| == 16 && forall a | a in arrivals :: a.Fits()
    requires j < |arrivals| && Receive(h, key, rx, arrivals)[j].ok
    ensures Positive(arrivals[j].len) % 16 == 0 && rx < IvOf(key, arrivals[j])
    decreases j
  {
    hide Decrypted, IvOf;
    assert arrivals[0] in arrivals;
    var o := Decrypted(h, key, arrivals[0].data, arrivals[0].len, rx);
    AcceptedRaisesIv(h, key, arrivals[0], rx);
    if j > 0 {
      LaterIvIsLarger(h, key, o.rx, arrivals[1..], j - 1);
    }
  }

  // in particular no message is accepted twice
  lemma NeverTwice(h: Hash, key: seq<bv8>, rx: U32, arrivals: seq<Arrival>, i: nat, j: nat)
    requires |key| == 16 && forall a | a in arrivals :: a.Fits()
    requires i < j < |arrivals| && arrivals[i] == arrivals[j]
    ensures var r := Receive(h, key, rx, arrivals); !(r[i].ok && r[j].ok)
  {
    var r := Receive(h, key, rx, arrivals);
    if r[i].ok && r[j].ok {
      AcceptedIvsIncrease(h, key, rx, arrivals, i, j);
    }
  }

  lemma StampedPrefix(b: seq<bv8>, iv: U32, pad: nat, k: nat)
    requires HEADER <= k <= |b| && pad < PAD
    ensures Stamped(b, iv, pad)[..k] == Stamped(b[..k], iv, pad)
  {
    hide NumberBytes;
    assert b[..k][HEADER..] == b[HEADER..k];
  }

  // what stands where in a stamped buffer
  lemma StampedTail(b: seq<bv8>, iv: U32, pad: nat)
    requires |b| >= HEADER && pad < PAD
    ensures var m := Stamped(b, iv, pad);
      && m[20..] == NumberBytes(iv) + ([pad as bv8] + b[HEADER..])
      && m[24] == pad as bv8 && m[..20] == Zeros() && m[HEADER..] == b[HEADER..]
      && forall k | HEADER <= k <= |b| :: m[k..] == b[k..]
  {
    hide NumberBytes;
    var m := Stamped(b, iv, pad);
    assert m[HEADER..] == b[HEADER..];
    forall k | HEADER <= k <= |b|
      ensures m[k..] == b[k..]
    {
      assert m[k..] == m[HEADER..][k - HEADER..] && b[k..] == b[HEADER..][k - HEADER..];
    }
  }

  // ----- the channel -----

  // the header is filled in place
  lemma SealedInSteps(h: Hash, b: seq<bv8>, iv: U32, n: nat)
    requires WholeLength(n) <= |b|
    ensures var k := WholeLength(n);
      var p := Cleared(Put(b[24 := Padding(n + HEADER) as bv8], 20, NumberBytes(iv)));
      Put(p, 0, DigestBytes(HashOf(h, p[..k]))) == Sealed(h, b, iv, n) + b[k..]
  {
    hide NumberBytes, HashOf, DigestBytes, WholeLength, Padding, Put, Cleared, Stamped;
    var k := WholeLength(n);
    var pad := Padding(n + HEADER);
    var p := Stamped(b, iv, pad);
    HeaderFilled(b, iv, pad);
    StampedPrefix(b, iv, pad, k);
    HashFilled(p, k, DigestBytes(HashOf(h, p[..k])));
    StampedTail(b, iv, pad);
    assert p[k..] == b[k..];
  }

  lemma HeaderFilled(b: seq<bv8>, iv: U32, pad: nat)
    requires |b| >= HEADER && pad < PAD
    ensures Cleared(Put(b[24 := pad as bv8], 20, NumberBytes(iv))) == Stamped(b, iv, pad)
  {
    hide NumberBytes;
    var p1 := b[24 := pad as bv8];
    assert p1[24..] == [pad as bv8] + b[HEADER..];
    assert Put(p1, 20, NumberBytes(iv))[20..] == NumberBytes(iv) + ([pad as bv8] + b[HEADER..]);
  }

  lemma HashFilled(p: seq<bv8>, k: nat, d: seq<bv8>)
    requires 20 <= k <= |p| && |d| == 20
    ensures Put(p, 0, d) == d + p[..k][20..] + p[k..]
  {
  }

  class Channel {
    const hash: Hash
    const bigEndian: bool
    const encKey: array<bv32>
    const decKey: array<bv32>
    ghost var key: seq<bv8>
    var rxIv: U32
    var txIv: U32
    var vec: U32
    var idx: nat

    ghost predicate Valid()
      reads this, encKey, decKey
    {
      && Buffers() && |key| == 16
      && encKey[..] == ExpandKey(key) && decKey[..] == DecSchedule(ExpandKey(key))
    }

    ghost predicate Buffers()
      reads this
    {
      encKey.Length == 44 && decKey.Length == 44 && encKey != decKey && idx < 16
    }

    constructor (hash: Hash, bigEndian: bool)
      ensures Buffers() && fresh(encKey) && fresh(decKey) && idx == 0
      ensures this.hash == hash && this.bigEndian == bigEndian
    {
      this.hash, this.bigEndian := hash, bigEndian;
      encKey := new bv32[44];
      decKey := new bv32[44];
      rxIv, txIv, vec, idx := 0, 0, 0, 0;
    }

    // The index into the random vector is not set back.
    method SetKey(skey: array<bv8>)
      requires Buffers() && skey.Length >= 40
      modifies this`key, this`rxIv, this`txIv, this`vec, encKey, decKey
      ensures Valid() && key == skey[..16]
      ensures rxIv == txIv == NumberAt(skey[..], 32) % 0x100_0000
      ensures vec == NumberAt(if bigEndian then skey[36..40] else [skey[39], skey[38], skey[37], skey[36]], 0)
    {
      hide ExpandKey, DecSchedule, NumberAt, Word;
      KeySetupEnc(encKey, skey, 0);
      KeySetupDec(decKey, skey, 0);
      key := skey[..16];
      assert skey[0..16] == key;
      rxIv := NumberAt(skey[..], 32) % 0x100_0000;
      txIv := rxIv;
      vec := NumberAt(if bigEndian then skey[36..40] else [skey[39], skey[38], skey[37], skey[36]], 0);
    }

    method CheckRxIv(iv: U32) returns (ok: bool)
      modifies this`rxIv
      ensures ok == InWindow(old(rxIv), iv) && rxIv == if ok then iv else old(rxIv)
    {
      if iv <= rxIv {
        return false;
      }
      if iv > (rxIv + MAX_IV_INCR) % 0x1_0000_0000 {
        return false;
      }
      rxIv := iv;
      return true;
    }

    method GetTxIv() returns (iv: U32)
      requires idx < 16
      modifies this`txIv, this`idx
      ensures iv == txIv == NextIv(vec, old(idx), old(txIv)) && idx == (old(idx) + 1) % 16
    {
      var ofs := Offset(vec, idx);
      idx := (idx + 1) % 16;
      txIv := (txIv + ofs) % 0x1_0000_0000;
      return txIv;
    }

    method HashMessage(data: array<bv8>, len: int) returns (d: Digest)
      requires data.Length >= 20 && len <= data.Length && Positive(len) % 64 == 0
      modifies data
      ensures data[..] == Cleared(old(data[..]))
      ensures d == HashOf(hash, data[..Positive(len)])
    {
      hide HashOf, Cleared, Put, Zeros;
      d := hash.start;
      ghost var was := data[..];
      PutBytes(data, 0, Zeros());
      ghost var p := data[..];
      PutZeros(was);
      var left, at := len, 0;
      HashNone(hash, p[..0]);
      while left > 0
        invariant at <= |p| && at % 64 == 0 && at + Positive(left) == Positive(len)
        invariant d == HashOf(hash, p[..at]) && data[..] == p
      {
        HashMore(hash, p, at, left);
        assert data[at..at + 64] == p[at..at + 64];
        d := hash.step(d, data[at..at + 64]);
        left := left - 64;
        at := at + 64;
      }
    }

    method EncryptMessage(data: array<bv8>, n: nat) returns (len: nat)
      requires Valid() && WholeLength(n) <= data.Length
      modifies this`txIv, this`idx, data
      ensures Valid() && txIv == NextIv(vec, old(idx), old(txIv)) && idx == (old(idx) + 1) % 16
      ensures len == WholeLength(n)
      ensures data[..] == Encrypted(hash, key, old(data[..]), txIv, n)
    {
      hide ExpandKey, DecSchedule, EncAll, NumberBytes, HashOf, DigestBytes, NextIv, Put, Cleared, Sealed;
      ghost var was := data[..];
      var pad := Padding(n + HEADER);
      data[24] := pad as bv8;
      len := n + HEADER + pad;
      var iv := GetTxIv();
      PutBytes(data, 20, NumberBytes(iv));
      var d := HashMessage(data, len);
      PutBytes(data, 0, DigestBytes(d));
      SealedInSteps(hash, was, iv, n);
      ghost var s := Sealed(hash, was, iv, n);
      assert (s + was[len..])[..len] == s && (s + was[len..])[len..] == was[len..];
      CryptBlocks(data, len, true);
    }

    // the loops over the blocks, in place
    method CryptBlocks(data: array<bv8>, len: int, encrypt: bool)
      requires Valid() && len <= data.Length && Positive(len) % 16 == 0
      modifies data
      ensures var k := Positive(len);
        data[..] == (if encrypt then EncAll(ExpandKey(key), old(data[..k])) else DecAll(DecSchedule(ExpandKey(key)), old(data[..k])))
          + old(data[k..])
    {
      hide ExpandKey, DecSchedule, EncAll, DecAll, Cipher, EqInvCipher, BlockAt, BlockBytes;
      ghost var was, rk := data[..], ExpandKey(key);
      var left, at := len, 0;
      NoBlocks(rk);
      NoBlocks(DecSchedule(rk));
      while left > 0
        invariant at + Positive(left) == Positive(len) && at % 16 == 0 && Valid()
        invariant data[..at] == if encrypt then EncAll(rk, was[..at]) else DecAll(DecSchedule(rk), was[..at])
        invariant data[at..] == was[at..]
      {
        ghost var before := data[..];
        NextBlock(rk, was, before, at);
        if encrypt {
          Encrypt(encKey, data, at, data, at);
        } else {
          Decrypt(decKey, data, at, data, at);
        }
        BlockAtBytes(data[..], at);
        OneBlock(before, data[..], at);
        left := left - 16;
        at := at + 16;
      }
      assert data[..] == data[..at] + data[at..];
    }

    method DecryptMessage(data: array<bv8>, len: int) returns (ret: int)
      requires Valid() && HEADER <= data.Length && len <= data.Length
      modifies this`rxIv, data
      ensures Valid()
      ensures var r := Decrypted(hash, key, old(data[..]), len, old(rxIv));
        data[..] == r.data && rxIv == r.rx && ret == if r.ok then r.n else 0
    {
      hide ExpandKey, DecSchedule, DecAll, Checked;
      if len == 0 || (len > 0 && len % PAD > 0) {
        return 0;
      }
      WholeBlocks(len);
      CryptBlocks(data, len, false);
      ret := CheckMessage(data, len);
    }

    // the checks after deciphering
    method CheckMessage(data: array<bv8>, len: int) returns (ret: int)
      requires HEADER <= data.Length && len <= data.Length && Positive(len) % 64 == 0
      modifies this`rxIv, data
      ensures var r := Checked(hash, old(data[..]), len, old(rxIv));
        data[..] == r.data && rxIv == r.rx && ret == if r.ok then r.n else 0
    {
      hide NumberAt, HashOf, DigestBytes, InWindow, Cleared;
      var pad := data[24] as int;
      if pad >= PAD {
        return 0;
      }
      var ok := CheckRxIv(NumberAt(data[..], 20));
      if !ok {
        return 0;
      }
      var wanted := data[..20];
      var d := HashMessage(data, len);
      if wanted != DigestBytes(d) {
        return 0;
      }
      return ToInt32(len - pad - HEADER);
    }
  }

  lemma PutZeros(p: seq<bv8>)
    requires |p| >= 20
    ensures Put(p, 0, Zeros()) == Cleared(p)
  {
  }

  lemma HashNone(h: Hash, p: seq<bv8>)
    requires p == []
    ensures HashOf(h, p) == h.start
  {
  }

  lemma HashMore(h: Hash, p: seq<bv8>, at: nat, left: int)
    requires 0 < left && at + left <= |p| && at % 64 == 0 && (at + left) % 64 == 0
    ensures left >= 64 && HashOf(h, p[..at + 64]) == h.step(HashOf(h, p[..at]), p[at..at + 64])
  {
    assert p[..at + 64][..at] == p[..at] && p[..at + 64][at..] == p[at..at + 64];
  }

  // the part that is done grows by one block
  lemma NextBlock(rk: Schedule, was: seq<bv8>, now: seq<bv8>, at: nat)
    requires at + 16 <= |was| == |now| && now[at..] == was[at..] && at % 16 == 0
    ensures EncAll(rk, was[..at + 16]) == EncAll(rk, was[..at]) + BlockBytes(Cipher(rk, BlockAt(now, at)))
    ensures DecAll(DecSchedule(rk), was[..at + 16])
      == DecAll(DecSchedule(rk), was[..at]) + BlockBytes(EqInvCipher(DecSchedule(rk), BlockAt(now, at)))
  {
    hide EncAll, DecAll, DecSchedule, Cipher, EqInvCipher, BlockAt, BlockBytes;
    var e := was[at..at + 16];
    assert was[..at + 16] == was[..at] + e;
    assert e == was[at..][..16] == now[at..at + 16];
    AllButLast(rk, was[..at], e);
    AllButLast(DecSchedule(rk), was[..at], e);
    SameBlock(now, at, e);
  }

  lemma OneBlock(before: seq<bv8>, now: seq<bv8>, at: nat)
    requires at + 16 <= |before| == |now|
    requires forall k | 0 <= k < |now| && !(at <= k < at + 16) :: now[k] == before[k]
    ensures now[..at + 16] == before[..at] + now[at..at + 16] && now[at + 16..] == before[at..][16..]
  {
  }

  lemma SameBlock(p: seq<bv8>, at: nat, e: seq<bv8>)
    requires at + 16 <= |p| && e == p[at..at + 16]
    ensures BlockAt(p, at) == BlockAt(e, 0)
  {
    hide Word;
    assert forall i | 0 <= i < 16 :: e[i] == p[at + i];
  }
}
