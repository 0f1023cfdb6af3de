/** Numbers in network byte order, and writing into a buffer. */
module EadNumbers {

  type U32 = x: int | 0 <= x < 0x1_0000_0000

  // htonl and ntohl of a number in the message
  function NumberBytes(x: U32): (b: seq<bv8>)
    ensures |b| == 4
  {
    [(x / 0x100_0000) as bv8, (x / 0x1_0000 % 256) as bv8, (x / 256 % 256) as bv8, (x % 256) as bv8]
  }

  function NumberAt(p: seq<bv8>, i: nat): U32
    requires i + 4 <= |p|
  {
    Digits(p[i] as int, p[i + 1] as int, p[i + 2] as int, p[i + 3] as int)
  }

  function Digits(a: int, b: int, c: int, d: int): (x: U32)
    requires 0 <= a < 256 && 0 <= b < 256 && 0 <= c < 256 && 0 <= d < 256
  {
    0x100_0000 * a + 0x1_0000 * b + 256 * c + d
  }

  lemma NumberUndone(x: U32, pre: seq<bv8>, post: seq<bv8>)
    ensures NumberAt(pre + NumberBytes(x) + post, |pre|) == x
  {
    hide Digits;
    var p := pre + NumberBytes(x) + post;
    var a, b, c, d := x / 0x100_0000, x / 0x1_0000 % 256, x / 256 % 256, x % 256;
    ByteNumber(a);
    ByteNumber(b);
    ByteNumber(c);
    ByteNumber(d);
    var i := |pre|;
    assert p[i] == a as bv8 && p[i + 1] == b as bv8 && p[i + 2] == c as bv8 && p[i + 3] == d as bv8;
    DigitsOf(x);
  }

  lemma DigitsOf(x: U32)
    ensures Digits(x / 0x100_0000, x / 0x1_0000 % 256, x / 256 % 256, x % 256) == x
  {
    var b, c := x / 0x1_0000, x / 256;
    assert c / 256 == b && b / 256 == x / 0x100_0000;
  }

  lemma ByteNumber(x: nat)
    requires x < 256
    ensures (x as bv8) as int == x
  {
    // smaller ranges are cheaper
    if x < 128 {
      LowByteNumber(x);
    } else {
      if x < 160 {
      } else if x < 192 {
      } else if x < 224 {
      } else {
      }
    }
  }

  lemma LowByteNumber(x: nat)
    requires x < 128
    ensures (x as bv8) as int == x
  {
    if x < 32 {
    } else if x < 64 {
    } else if x < 96 {
    } else {
    }
  }

  // the buffer p with b written at a position
  ghost function Put(p: seq<bv8>, at: nat, b: seq<bv8>): (r: seq<bv8>)
    requires at + |b| <= |p|
    ensures |r| == |p|
  {
    p[..at] + b + p[at + |b|..]
  }

  // memcpy
  method PutBytes(data: array<bv8>, at: nat, b: seq<bv8>)
    requires at + |b| <= data.Length
    modifies data
    ensures data[..] == Put(old(data[..]), at, b)
  {
    forall i | 0 <= i < |b| {
      data[at + i] := b[i];
    }
  }

  lemma PaddingFills(len: nat)
    ensures (len + (64 - len % 64) % 64) % 64 == 0
  {
    if len % 64 == 0 {
      assert (64 - len % 64) % 64 == 0;
    } else {
      assert (64 - len % 64) % 64 == 64 - len % 64;
      assert len + 64 - len % 64 == 64 * (len / 64 + 1);
    }
  }

  lemma SixteenDivides(w: nat)
    requires w % 64 == 0
    ensures w % 16 == 0
  {
    assert w == 16 * (4 * (w / 64));
  }
}
