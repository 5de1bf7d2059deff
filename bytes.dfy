/**
 * Bytes, the bit operations the frame code applies to them, and big-endian reading and
 * writing (the extended payload length of section 5.2 of RFC 6455 is big-endian).
 * A byte is a number in 0..255; the source's `&`, `|` and `^` on bytes are spelled out
 * arithmetically below.
 */
module Bytes {

  newtype byte = b: int | 0 <= b < 256

  function Pow2(n: nat): (r: nat)
    ensures r > 0
  {
    if n == 0 then 1 else 2 * Pow2(n - 1)
  }

  /** Bitwise exclusive or of the low n bits of x and y */
  function XorBits(x: nat, y: nat, n: nat): (r: nat)
    ensures r < Pow2(n)
  {
    if n == 0 then 0 else (x + y) % 2 + 2 * XorBits(x / 2, y / 2, n - 1)
  }

  /** `a ^ b` on bytes */
  function Xor(a: byte, b: byte): byte
  {
    XorBits(a as nat, b as nat, 8) as byte
  }

  /** `b & 0x0f`: the opcode nibble of the first frame byte */
  function LowNibble(b: byte): (r: byte)
    ensures r < 16
  {
    b % 16
  }

  /** `(b & 0x80) != 0`: the FIN bit of byte 0, the MASK bit of byte 1 */
  predicate HighBit(b: byte)
  {
    b >= 0x80
  }

  /** `b & 0x7f` */
  function Low7(b: byte): (r: byte)
    ensures r < 0x80
    ensures b < 0x80 ==> r == b
  {
    b % 0x80
  }

  /** `0x80 | b` for b below 0x80 */
  function SetHighBit(b: byte): (r: byte)
    requires b < 0x80
    ensures HighBit(r) && Low7(r) == b
    ensures b < 16 ==> LowNibble(r) == b
  {
    0x80 + b
  }

  /** The arithmetic of one binary digit of XorBits */
  lemma XorDigit(x: nat, y: nat, h: nat)
    ensures ((x + y) % 2 + 2 * h) % 2 == (x + y) % 2
    ensures ((x + y) % 2 + 2 * h) / 2 == h
    ensures (((x + y) % 2 + 2 * h) + y) % 2 == x % 2
  {
  }

  lemma {:induction false} XorBitsInvolution(x: nat, y: nat, n: nat)
    requires x < Pow2(n)
    ensures XorBits(XorBits(x, y, n), y, n) == x
  {
    if n > 0 {
      XorDigit(x, y, XorBits(x / 2, y / 2, n - 1));
      XorBitsInvolution(x / 2, y / 2, n - 1);
    }
  }

  /** XOR with the same byte twice gives the starting byte back */
  lemma XorInvolution(a: byte, k: byte)
    ensures Xor(Xor(a, k), k) == a
  {
    XorBitsInvolution(a as nat, k as nat, 8);
  }

  /** 256 to the power k: the number of values k bytes can hold */
  function Pow256(k: nat): (r: nat)
    ensures r > 0
  {
    if k == 0 then 1 else 256 * Pow256(k - 1)
  }

  /** The unsigned number whose big-endian representation is s */
  function FromBE(s: seq<byte>): nat
  {
    if s == [] then 0 else FromBE(s[..|s| - 1]) * 256 + s[|s| - 1] as int
  }

  /** Node's writeUInt16BE and Rust's u16::to_be_bytes */
  function BE16(n: nat): (r: seq<byte>)
    requires n < 0x1_0000
    ensures |r| == 2 && FromBE(r) == n
  {
    var r := [(n / 256) as byte, (n % 256) as byte];
    assert r[..1][..0] == [] && r[..1][0] == r[0];
    assert FromBE(r[..1]) == r[0] as int;
    r
  }

  /** Node's writeUInt32BE and Rust's u32::to_be_bytes */
  function BE32(n: nat): (r: seq<byte>)
    requires n < 0x1_0000_0000
    ensures |r| == 4 && FromBE(r) == n
  {
    var r := BE16(n / 0x1_0000) + BE16(n % 0x1_0000);
    FromBEAppend(BE16(n / 0x1_0000), BE16(n % 0x1_0000));
    r
  }

  /** Rust's u64::to_be_bytes */
  function BE64(n: nat): (r: seq<byte>)
    requires n < 0x1_0000_0000_0000_0000
    ensures |r| == 8 && FromBE(r) == n
  {
    var r := BE32(n / 0x1_0000_0000) + BE32(n % 0x1_0000_0000);
    FromBEAppend(BE32(n / 0x1_0000_0000), BE32(n % 0x1_0000_0000));
    r
  }

  /** k bytes hold a number below 256^k */
  lemma {:induction false} FromBEBound(s: seq<byte>)
    ensures FromBE(s) < Pow256(|s|)
  {
    if s != [] {
      FromBEBound(s[..|s| - 1]);
    }
  }

  /** Reading a + b big-endian: a supplies the high digits, b the low ones */
  lemma {:induction false} FromBEAppend(a: seq<byte>, b: seq<byte>)
    ensures FromBE(a + b) == FromBE(a) * Pow256(|b|) + FromBE(b)
    decreases |b|
  {
    if b == [] {
      assert a + b == a;
    } else {
      var b', last := b[..|b| - 1], b[|b| - 1];
      var ab := a + b;
      assert ab[..|ab| - 1] == a + b' && ab[|ab| - 1] == last;
      FromBEAppend(a, b');
      var x, p := FromBE(a), Pow256(|b'|);
      assert FromBE(ab) == (x * p + FromBE(b')) * 256 + last as int;
      assert Pow256(|b|) == 256 * p;
      ShiftDigit(x, p);
    }
  }

  /** Scaling the high part by one more digit */
  lemma ShiftDigit(x: int, p: int)
    ensures x * p * 256 == x * (256 * p)
  {
  }

  /** Of 8 big-endian bytes, the last 4 hold the number modulo 2^32 and the first 4 the rest */
  lemma Halves(s: seq<byte>)
    requires |s| == 8
    ensures FromBE(s[4..]) == FromBE(s) % 0x1_0000_0000
    ensures FromBE(s[..4]) == FromBE(s) / 0x1_0000_0000
  {
    var hi, lo := s[..4], s[4..];
    assert s == hi + lo;
    FromBEAppend(hi, lo);
    FromBEBound(lo);
    assert Pow256(4) == 0x1_0000_0000;
    Split32(FromBE(hi), FromBE(lo));
  }

  /** Quotient and remainder by 2^32 of a number written as a high word and a low word */
  lemma Split32(q: int, r: int)
    requires 0 <= r < 0x1_0000_0000
    ensures (q * 0x1_0000_0000 + r) / 0x1_0000_0000 == q && (q * 0x1_0000_0000 + r) % 0x1_0000_0000 == r
  {
  }

  /** The masking-key byte that lines up with payload byte i: i mod 4, computed by
      counting down in fours */
  function KeyIndex(i: nat): (r: nat)
    ensures r < 4
  {
    if i < 4 then i else KeyIndex(i - 4)
  }

  lemma {:induction false} KeyIndexIsMod(i: nat)
    ensures KeyIndex(i) == i % 4
  {
    if i >= 4 {
      KeyIndexIsMod(i - 4);
    }
  }

  /** Byte j of the four-byte group that starts at 4 * words uses key byte j */
  lemma {:induction false} KeyIndexInWord(words: nat, j: nat)
    requires j < 4
    ensures KeyIndex(4 * words + j) == j
  {
    if words > 0 {
      KeyIndexInWord(words - 1, j);
    }
  }

  /** The payload after XOR with the masking key, key byte i mod 4 for payload byte i
      (section 5.3 of RFC 6455) */
  function Mask(p: seq<byte>, key: seq<byte>): (r: seq<byte>)
    requires |key| == 4
    ensures |r| == |p|
  {
    seq(|p|, i requires 0 <= i < |p| => Xor(p[i], key[KeyIndex(i)]))
  }

  /** Masking is its own inverse: unmasking a masked payload restores it */
  lemma MaskInvolution(p: seq<byte>, key: seq<byte>)
    requires |key| == 4
    ensures Mask(Mask(p, key), key) == p
  {
    forall i | 0 <= i < |p|
      ensures Mask(Mask(p, key), key)[i] == p[i]
    {
      XorInvolution(p[i], key[KeyIndex(i)]);
    }
  }

  /** The second and third of four concatenated sequences sliced back out, and the
      concatenation regrouped after the first */
  lemma Middle<T>(a: seq<T>, b: seq<T>, c: seq<T>, d: seq<T>)
    ensures (a + b + c + d)[|a|..|a| + |b|] == b
    ensures (a + b + c + d)[|a| + |b|..|a| + |b| + |c|] == c
    ensures a + b + c + d == a + (b + c + d)
  {
    var s := a + b + c + d;
    assert s[|a|..|a| + |b|] == b;
    assert s[|a| + |b|..|a| + |b| + |c|] == c;
  }
}
