/** The Internet checksum of RFC 1071 as chksum computes it, and the headers
    that ead_send_packet_clone fills in with it. */
module EadChecksum {
  import opened EadNumbers

  type U16 = x: int | 0 <= x < 0x1_0000

  // ----- one's complement sums -----

  // the sum of the 16-bit words of RFC 1071, section 1; an odd byte is padded
  function Words(p: seq<bv8>): nat {
    if |p| == 0 then 0
    else if |p| == 1 then 256 * Value(p[0])
    else 256 * Value(p[0]) + Value(p[1]) + Words(p[2..])
  }

  function Value(b: bv8): (n: nat)
    ensures n < 256
  {
    b as int
  }

  // the one's complement number a sum stands for: 0 only for the sum 0
  function Fold(x: nat): U16 {
    if x == 0 then 0 else (x - 1) % 65535 + 1
  }

  // Fold is the representative of the residue modulo 65535 that is 0 only for 0.
  lemma FoldIs(x: nat, r: nat)
    ensures Fold(x) == r <==> r <= 65535 && (r == 0 <==> x == 0) && x % 65535 == r % 65535
  {
    var q := x / 65535;
    if x > 0 {
      if x % 65535 == 0 {
        assert x - 1 == 65535 * (q - 1) + 65534;
        Remainder(x - 1, q - 1, 65534);
      } else {
        assert x - 1 == 65535 * q + (x % 65535 - 1);
        Remainder(x - 1, q, x % 65535 - 1);
      }
    }
  }

  lemma Remainder(x: nat, q: nat, r: nat)
    requires x == 65535 * q + r && r < 65535
    ensures x % 65535 == r
  {
  }

  lemma FoldStep(x: nat, y: nat)
    ensures Fold(Fold(x) + y) == Fold(x + y)
  {
    FoldIs(x, Fold(x));
    var f := Fold(x);
    assert (f + y) % 65535 == (x + y) % 65535 by {
      var a, b := f / 65535, x / 65535;
      assert f - 65535 * a == x - 65535 * b;
      Shift(f + y, x + y, a - b);
    }
    FoldIs(f + y, Fold(x + y));
    FoldIs(x + y, Fold(x + y));
  }

  lemma Shift(x: nat, y: nat, d: int)
    requires x - y == 65535 * d
    ensures x % 65535 == y % 65535
  {
    var q := y / 65535;
    assert x == 65535 * (q + d) + y % 65535;
  }

  // the addition with end-around carry in chksum
  method AddCarry(sum: U16, t: U16) returns (r: U16)
    ensures r == Fold(sum + t)
  {
    r := (sum + t) % 0x1_0000;
    if r < t {
      r := (r + 1) % 0x1_0000;
    }
  }

  lemma {:induction false} WordsAppend(a: seq<bv8>, b: seq<bv8>)
    requires |a| % 2 == 0
    ensures Words(a + b) == Words(a) + Words(b)
  {
    if a == [] {
      assert a + b == b;
    } else {
      WordsAppend(a[2..], b);
      assert (a + b)[2..] == a[2..] + b;
    }
  }

  method Chksum(start: U16, data: array<bv8>, at: nat, len: U16) returns (sum: U16)
    requires at + len <= data.Length
    ensures sum == Fold(start + Words(data[at..at + len]))
  {
    hide Words, Fold;
    sum := start;
    var i := 0;
    ghost var d := data[at..at + len];
    FoldSmall(start);
    WordsNone(d[..0]);
    while i + 1 < len
      invariant 0 <= i <= len && i % 2 == 0
      invariant sum == Fold(start + Words(d[..i]))
    {
      var t := 256 * Value(data[at + i]) + Value(data[at + i + 1]);
      NextPair(d, i);
      FoldStep(start + Words(d[..i]), t);
      sum := AddCarry(sum, t);
      i := i + 2;
    }
    if i + 1 == len {
      var t := 256 * Value(data[at + i]);
      LastByte(d, i);
      FoldStep(start + Words(d[..i]), t);
      sum := AddCarry(sum, t);
    } else {
      assert d[..i] == d;
    }
  }

  lemma NextPair(d: seq<bv8>, i: nat)
    requires i + 1 < |d| && i % 2 == 0
    ensures Words(d[..i + 2]) == Words(d[..i]) + (256 * Value(d[i]) + Value(d[i + 1]))
  {
    assert d[..i + 2] == d[..i] + [d[i], d[i + 1]];
    WordsPair(d[..i], d[i], d[i + 1]);
  }

  lemma LastByte(d: seq<bv8>, i: nat)
    requires i + 1 == |d| && i % 2 == 0
    ensures Words(d) == Words(d[..i]) + 256 * Value(d[i])
  {
    assert d == d[..i] + [d[i]];
    WordsLast(d[..i], d[i]);
  }

  lemma FoldSmall(x: U16)
    ensures Fold(x) == x
  {
  }

  lemma WordsNone(p: seq<bv8>)
    requires p == []
    ensures Words(p) == 0
  {
  }

  lemma WordsPair(p: seq<bv8>, a: bv8, b: bv8)
    requires |p| % 2 == 0
    ensures Words(p + [a, b]) == Words(p) + (256 * Value(a) + Value(b))
  {
    WordsAppend(p, [a, b]);
    assert [a, b][2..] == [];
  }

  lemma WordsLast(p: seq<bv8>, a: bv8)
    requires |p| % 2 == 0
    ensures Words(p + [a]) == Words(p) + 256 * Value(a)
  {
    WordsAppend(p, [a]);
  }

  // The checksum of two pieces can be computed one after the other if the
  // first has an even number of bytes.
  lemma Chains(start: U16, a: seq<bv8>, b: seq<bv8>)
    requires |a| % 2 == 0
    ensures Fold(Fold(start + Words(a)) + Words(b)) == Fold(start + Words(a + b))
  {
    WordsAppend(a, b);
    FoldStep(start + Words(a), Words(b));
  }

  // ----- filling in a checksum -----

  // the two bytes of htons
  function ShortBytes(x: U16): (b: seq<bv8>)
    ensures |b| == 2
  {
    [(x / 256) as bv8, (x % 256) as bv8]
  }

  lemma ShortWords(x: U16)
    ensures Words(ShortBytes(x)) == x
  {
    ByteNumber(x / 256);
    ByteNumber(x % 256);
    var b := ShortBytes(x);
    assert b[2..] == [];
  }

  // what is stored for a sum: its complement, where 0 counts as 0xffff
  function Field(sum: U16): U16 {
    0xffff - (if sum == 0 then 0xffff else sum)
  }

  // The filled data sum to 0xffff exactly if there is anything but zeros in it.
  lemma Filled(total: nat)
    ensures Fold(total + Field(Fold(total))) == 0xffff <==> total != 0
  {
    FoldIs(total, Fold(total));
    var s := Fold(total);
    if total != 0 {
      var q := total / 65535;
      assert total - s == 65535 * (q - s / 65535);
      Shift(total + Field(s), 65535, (total - s) / 65535);
      FoldIs(total + Field(s), 0xffff);
    }
  }

  lemma WordsMiddle(a: seq<bv8>, x: U16, b: seq<bv8>)
    requires |a| % 2 == 0
    ensures Words(a + ShortBytes(x) + b) == Words(a) + x + Words(b)
  {
    hide Words, ShortBytes;
    WordsAppend(a + ShortBytes(x), b);
    WordsAppend(a, ShortBytes(x));
    ShortWords(x);
  }

  // a field of zeros at an even position replaced by a number
  lemma WordsFill(p: seq<bv8>, at: nat, x: U16)
    requires at % 2 == 0 && at + 2 <= |p| && p[at] == 0 && p[at + 1] == 0
    ensures Words(Put(p, at, ShortBytes(x))) == Words(p) + x
  {
    hide Words;
    var a, b := p[..at], p[at + 2..];
    assert p == a + ShortBytes(0) + b;
    WordsMiddle(a, 0, b);
    WordsMiddle(a, x, b);
  }

  // ----- ead_send_packet_clone -----

  const PCAP_MRU: nat := 1600
  const UDP: U16 := 17

  // the pseudo header of RFC 768 for two addresses and the length of a datagram
  function Pseudo(addresses: seq<bv8>, len: U16): seq<bv8> {
    addresses + ShortBytes(UDP) + ShortBytes(len)
  }

  lemma PseudoBytes(addresses: seq<bv8>, len: U16)
    ensures Pseudo(addresses, len) == addresses + [0, 17] + ShortBytes(len)
  {
    assert ShortBytes(17) == [0, 17];
  }

  // the length of the message, from its header behind the packet headers
  function MessageLength(p: seq<bv8>): U32
    requires |p| >= 62
  {
    NumberAt(p, 46)
  }

  lemma IpSum(p: seq<bv8>, len: U16)
    requires |p| == 20 && p[2..4] == ShortBytes(len) && len > 0 && p[10] == 0 && p[11] == 0
    ensures Fold(Words(Put(p, 10, ShortBytes(Field(Fold(Words(p))))))) == 0xffff
  {
    hide Words, Fold, ShortBytes, Field;
    assert p == p[..2] + ShortBytes(len) + p[4..];
    WordsMiddle(p[..2], len, p[4..]);
    WordsFill(p, 10, Field(Fold(Words(p))));
    Filled(Words(p));
  }

  lemma UdpSum(addresses: seq<bv8>, len: U16, p: seq<bv8>, sum: U16)
    requires |addresses| == 8 && |p| >= 8 && p[6] == 0 && p[7] == 0 && len + UDP < 0x1_0000
    requires sum == Fold(Fold(len + UDP + Words(addresses)) + Words(p))
    ensures Fold(Words(Pseudo(addresses, len) + Put(p, 6, ShortBytes(Field(sum))))) == 0xffff
  {
    hide Words, Fold, ShortBytes, Field, Put;
    var total := len + UDP + Words(addresses) + Words(p);
    FoldStep(len + UDP + Words(addresses), Words(p));
    Filled(total);
    WordsFill(p, 6, Field(sum));
    var filled := Put(p, 6, ShortBytes(Field(sum)));
    WordsAppend(Pseudo(addresses, len), filled);
    assert Pseudo(addresses, len) + [] == Pseudo(addresses, len);
    WordsMiddle(addresses + ShortBytes(UDP), len, []);
    WordsMiddle(addresses, UDP, []);
    assert addresses + ShortBytes(UDP) + [] == addresses + ShortBytes(UDP);
    WordsNone([]);
  }

  // the Ethernet and IP headers before the checksum is filled in
  lemma IpHeader(was: seq<bv8>, k: seq<bv8>, mac: seq<bv8>, len: seq<bv8>)
    requires |was| >= 62 && |k| >= 62 && |mac| == 6 && |len| == 2
    ensures var p := Put(Put(Put(was, 0, k[..42]), 6, mac), 0, k[6..12]);
      && p[42..] == was[42..] && p[..14] == k[6..12] + mac + k[12..14] && p[14..42] == k[14..42]
  {
    hide Put;
    PutAt(was, 0, k[..42]);
    var p1 := Put(was, 0, k[..42]);
    PutAt(p1, 6, mac);
    PutAt(Put(p1, 6, mac), 0, k[6..12]);
  }

  lemma PutAt(p: seq<bv8>, at: nat, b: seq<bv8>)
    requires at + |b| <= |p|
    ensures forall i | 0 <= i < |p| :: Put(p, at, b)[i] == if at <= i < at + |b| then b[i - at] else p[i]
  {
  }

  lemma IpAddresses(p: seq<bv8>, k: seq<bv8>, len: seq<bv8>)
    requires |p| >= 62 && |k| >= 62 && |len| == 2 && p[14..42] == k[14..42]
    ensures var r := Put(Put(Put(Put(p, 16, len), 26, k[58..62]), 30, k[26..30]), 24, [0, 0]);
      && r[..14] == p[..14] && r[34..] == p[34..]
      && r[14..34] == k[14..16] + len + k[18..24] + [0, 0] + k[58..62] + k[26..30]
  {
    hide Put;
    assert forall i | 14 <= i < 42 :: p[i] == p[14..42][i - 14] == k[14..42][i - 14] == k[i];
    PutAt(p, 16, len);
    var p1 := Put(p, 16, len);
    PutAt(p1, 26, k[58..62]);
    var p2 := Put(p1, 26, k[58..62]);
    PutAt(p2, 30, k[26..30]);
    var p3 := Put(p2, 30, k[26..30]);
    PutAt(p3, 24, [0, 0]);
  }

  lemma UdpPorts(p: seq<bv8>, k: seq<bv8>, len: seq<bv8>)
    requires |p| >= 62 && |k| >= 62 && |len| == 2
    ensures var r := Put(Put(Put(Put(p, 34, k[36..38]), 36, k[34..36]), 38, len), 40, [0, 0]);
      && r[..34] == p[..34] && r[42..] == p[42..] && r[34..42] == k[36..38] + k[34..36] + len + [0, 0]
  {
    hide Put;
    PutAt(p, 34, k[36..38]);
    var p1 := Put(p, 34, k[36..38]);
    PutAt(p1, 36, k[34..36]);
    var p2 := Put(p1, 36, k[34..36]);
    PutAt(p2, 38, len);
    var p3 := Put(p2, 38, len);
    PutAt(p3, 40, [0, 0]);
  }

  // writing into a part of a buffer
  lemma PutWithin(p: seq<bv8>, from: nat, to: nat, at: nat, b: seq<bv8>)
    requires from <= at && at + |b| <= to <= |p|
    ensures var r := Put(p, at, b);
      r[from..to] == Put(p[from..to], at - from, b) && r[..from] == p[..from] && r[to..] == p[to..]
  {
    hide Put;
    PutAt(p, at, b);
    PutAt(p[from..to], at - from, b);
  }

  lemma ZeroBytes()
    ensures ShortBytes(0) == [0, 0]
  {
  }

  // The headers of the answer, in ead_send_packet_clone.

  // Ethernet and IP header of the answer p to k with n bytes of message: the
  // addresses are exchanged, the sender's come from mac and the message of k,
  // and the header sums to 0xffff.
  ghost predicate IpWritten(p: seq<bv8>, k: seq<bv8>, mac: seq<bv8>, n: U16)
    requires |p| >= 62 && |k| >= 62 && 48 + n < 0x1_0000
  {
    && p[..14] == k[6..12] + mac + k[12..14]
    && (exists sum :: p[14..34] == k[14..16] + ShortBytes(48 + n) + k[18..24] + ShortBytes(sum) + k[58..62] + k[26..30])
    && Fold(Words(p[14..34])) == 0xffff
  }

  // UDP header of the answer: the ports are exchanged, and pseudo header and
  // datagram sum to 0xffff.
  ghost predicate UdpWritten(p: seq<bv8>, k: seq<bv8>, n: U16)
    requires |p| >= 62 + n && |k| >= 62 && 28 + n < 0x1_0000
  {
    && (exists sum :: p[34..42] == k[36..38] + k[34..36] + ShortBytes(28 + n) + ShortBytes(sum))
    && Fold(Words(Pseudo(p[26..34], 28 + n) + p[34..62 + n])) == 0xffff
  }

  lemma IpKept(p: seq<bv8>, q: seq<bv8>, k: seq<bv8>, mac: seq<bv8>, n: U16)
    requires |p| == |q| >= 62 && |k| >= 62 && 48 + n < 0x1_0000 && IpWritten(p, k, mac, n) && q[..34] == p[..34]
    ensures IpWritten(q, k, mac, n)
  {
    hide Words, Fold, ShortBytes;
    assert q[..14] == q[..34][..14] == p[..34][..14] == p[..14];
    assert q[14..34] == q[..34][14..] == p[..34][14..] == p[14..34];
  }

  method SendPacketClone(pktbuf: array<bv8>, pkt: array<bv8>, ethmac: seq<bv8>)
    requires pktbuf.Length == PCAP_MRU && pkt.Length >= 62 && pktbuf != pkt && |ethmac| == 6
    requires 62 + MessageLength(pktbuf[..]) <= PCAP_MRU
    modifies pktbuf
    ensures var n := MessageLength(old(pktbuf[..]));
      IpWritten(pktbuf[..], pkt[..], ethmac, n) && UdpWritten(pktbuf[..], pkt[..], n)
    ensures pktbuf[42..] == old(pktbuf[42..])
  {
    hide IpWritten, UdpWritten, MessageLength;
    ghost var was := pktbuf[..];
    IpPart(pktbuf, pkt, ethmac);
    ghost var p := pktbuf[..];
    SameNumber(p, was);
    UdpPart(pktbuf, pkt);
    IpKept(p, pktbuf[..], pkt[..], ethmac, MessageLength(was));
  }

  lemma SameNumber(p: seq<bv8>, q: seq<bv8>)
    requires |p| == |q| >= 62 && p[42..] == q[42..]
    ensures MessageLength(p) == MessageLength(q)
  {
    hide Digits;
    assert p[46] == p[42..][4] == q[46] && p[47] == p[42..][5] == q[47];
    assert p[48] == p[42..][6] == q[48] && p[49] == p[42..][7] == q[49];
  }

  method IpPart(pktbuf: array<bv8>, pkt: array<bv8>, ethmac: seq<bv8>)
    requires pktbuf.Length == PCAP_MRU && pkt.Length >= 62 && pktbuf != pkt && |ethmac| == 6
    requires 62 + MessageLength(pktbuf[..]) <= PCAP_MRU
    modifies pktbuf
    ensures IpWritten(pktbuf[..], pkt[..], ethmac, MessageLength(old(pktbuf[..])))
    ensures pktbuf[42..] == old(pktbuf[42..])
  {
    hide Words, Fold, ShortBytes, Field, NumberAt, Put;
    ghost var was, k := pktbuf[..], pkt[..];
    PutBytes(pktbuf, 0, pkt[..42]);
    PutBytes(pktbuf, 6, ethmac);
    PutBytes(pktbuf, 0, pkt[6..12]);
    IpHeader(was, k, ethmac, [0, 0]);
    ghost var p1 := pktbuf[..];
    SameNumber(p1, was);
    var len: U16 := 48 + NumberAt(pktbuf[..], 46);
    PutBytes(pktbuf, 16, ShortBytes(len));
    PutBytes(pktbuf, 26, pkt[58..62]);
    PutBytes(pktbuf, 30, pkt[26..30]);
    ZeroBytes();
    PutBytes(pktbuf, 24, ShortBytes(0));
    IpAddresses(p1, k, ShortBytes(len));
    ghost var p2 := pktbuf[..];
    var sum := Chksum(0, pktbuf, 14, 20);
    PutBytes(pktbuf, 24, ShortBytes(Field(sum)));
    PutWithin(p2, 14, 34, 24, ShortBytes(Field(sum)));
    IpSum(p2[14..34], len);
    IpFilled(k, ShortBytes(len), ShortBytes(Field(sum)), p2[14..34]);
    Tails(p1, p2, pktbuf[..], was);
    assert pktbuf[..14] == pktbuf[..][..14];
  }

  lemma IpFilled(k: seq<bv8>, len: seq<bv8>, b: seq<bv8>, p: seq<bv8>)
    requires |k| >= 62 && |len| == 2 && |b| == 2
    requires p == k[14..16] + len + k[18..24] + [0, 0] + k[58..62] + k[26..30]
    ensures Put(p, 10, b) == k[14..16] + len + k[18..24] + b + k[58..62] + k[26..30]
    ensures p[2..4] == len && p[10] == 0 && p[11] == 0
  {
  }

  lemma Tails(p1: seq<bv8>, p2: seq<bv8>, p3: seq<bv8>, was: seq<bv8>)
    requires |p1| == |p2| == |p3| == |was| >= 62 && p1[42..] == was[42..] && p2[34..] == p1[34..] && p3[34..] == p2[34..]
    ensures p3[42..] == was[42..]
  {
    assert p3[42..] == p3[34..][8..] == p1[34..][8..] == p1[42..];
  }

  method UdpPart(pktbuf: array<bv8>, pkt: array<bv8>)
    requires pktbuf.Length == PCAP_MRU && pkt.Length >= 62 && pktbuf != pkt
    requires 62 + MessageLength(pktbuf[..]) <= PCAP_MRU
    modifies pktbuf
    ensures pktbuf[..34] == old(pktbuf[..34]) && pktbuf[42..] == old(pktbuf[42..])
    ensures UdpWritten(pktbuf[..], pkt[..], MessageLength(old(pktbuf[..])))
  {
    hide Words, Fold, ShortBytes, Field, NumberAt, Put, Pseudo;
    ghost var p3, k := pktbuf[..], pkt[..];
    var len: U16 := 28 + NumberAt(pktbuf[..], 46);
    PutBytes(pktbuf, 34, pkt[36..38]);
    PutBytes(pktbuf, 36, pkt[34..36]);
    PutBytes(pktbuf, 38, ShortBytes(len));
    ZeroBytes();
    PutBytes(pktbuf, 40, ShortBytes(0));
    UdpPorts(p3, k, ShortBytes(len));
    ghost var p4 := pktbuf[..];
    var sum: U16 := len + UDP;
    sum := Chksum(sum, pktbuf, 26, 8);
    sum := Chksum(sum, pktbuf, 34, len);
    PutBytes(pktbuf, 40, ShortBytes(Field(sum)));
    ghost var b := ShortBytes(Field(sum));
    PutWithin(p4, 34, 34 + len, 40, b);
    UdpFilled(p4, k, ShortBytes(len), b);
    UdpSum(p4[26..34], len, p4[34..34 + len], sum);
    UdpTail(p3, p4, pktbuf[..]);
  }

  lemma UdpFilled(p: seq<bv8>, k: seq<bv8>, len: seq<bv8>, b: seq<bv8>)
    requires |p| >= 62 && |k| >= 62 && |len| == 2 && |b| == 2
    requires p[34..42] == k[36..38] + k[34..36] + len + [0, 0]
    ensures Put(p, 40, b)[34..42] == k[36..38] + k[34..36] + len + b
    ensures Put(p, 40, b)[42..] == p[42..] && p[40] == 0 && p[41] == 0
  {
    assert p[40] == p[34..42][6] && p[41] == p[34..42][7];
    assert p[34..40] == p[34..42][..6];
  }

  lemma UdpTail(p3: seq<bv8>, p4: seq<bv8>, p5: seq<bv8>)
    requires |p3| == |p4| == |p5| >= 62 && p4[..34] == p3[..34] && p5[..34] == p4[..34]
    ensures p5[26..34] == p4[26..34] == p3[26..34]
  {
    assert p5[26..34] == p5[..34][26..] && p4[26..34] == p4[..34][26..] && p3[26..34] == p3[..34][26..];
  }
}
