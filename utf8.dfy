/**
 * UTF-8, as the modelled code uses it through its standard libraries: Node's
 * Buffer.from(s, 'utf-8') and Rust's String::into_bytes / str::as_bytes (Encode),
 * Rust's String::from_utf8 (Decode, which fails on ill-formed input), and Rust's
 * String::from_utf8_lossy and Node's buf.toString('utf-8') (DecodeLossy, which puts
 * one U+FFFD in place of each maximal ill-formed subpart, the practice both follow).
 * Well-formedness is table 3-7 of the Unicode Standard. A Dafny char is a Unicode
 * scalar value.
 */
module Utf8 {
  import opened Bytes
  import opened Wrappers

  const Replacement: char := '\U{FFFD}'

  /** The number of bytes of the UTF-8 form of c */
  function Width(c: char): (w: nat)
    ensures 1 <= w <= 4
  {
    var v := c as int;
    if v < 0x80 then 1 else if v < 0x800 then 2 else if v < 0x1_0000 then 3 else 4
  }

  function EncodeChar(c: char): (r: seq<byte>)
    ensures |r| == Width(c)
  {
    var v := c as int;
    if v < 0x80 then
      [v as byte]
    else if v < 0x800 then
      [(0xC0 + v / 64) as byte, (0x80 + v % 64) as byte]
    else if v < 0x1_0000 then
      [(0xE0 + v / 4096) as byte, (0x80 + v / 64 % 64) as byte, (0x80 + v % 64) as byte]
    else
      [(0xF0 + v / 262144) as byte, (0x80 + v / 4096 % 64) as byte,
       (0x80 + v / 64 % 64) as byte, (0x80 + v % 64) as byte]
  }

  function Encode(s: string): seq<byte>
  {
    if s == [] then [] else EncodeChar(s[0]) + Encode(s[1..])
  }

  predicate IsCont(b: byte)
  {
    0x80 <= b <= 0xBF
  }

  /** The length of the sequence a lead byte starts, 0 for a byte that starts none */
  function LeadWidth(b: byte): (w: nat)
    ensures w <= 4
  {
    if b <= 0x7F then 1
    else if 0xC2 <= b <= 0xDF then 2
    else if 0xE0 <= b <= 0xEF then 3
    else if 0xF0 <= b <= 0xF4 then 4
    else 0
  }

  /** The range table 3-7 allows for the byte after a lead byte */
  predicate SecondOk(lead: byte, b: byte)
  {
    if lead == 0xE0 then 0xA0 <= b <= 0xBF
    else if lead == 0xED then 0x80 <= b <= 0x9F
    else if lead == 0xF0 then 0x90 <= b <= 0xBF
    else if lead == 0xF4 then 0x80 <= b <= 0x8F
    else IsCont(b)
  }

  /** What one decoding step finds at the start of the input: how many bytes it takes,
      and the character when they are well-formed */
  datatype Step = Step(len: nat, ch: Option<char>)

  function Value2(b0: byte, b1: byte): int
  {
    (b0 as int - 0xC0) * 64 + (b1 as int - 0x80)
  }

  function Value3(b0: byte, b1: byte, b2: byte): int
  {
    (b0 as int - 0xE0) * 4096 + (b1 as int - 0x80) * 64 + (b2 as int - 0x80)
  }

  function Value4(b0: byte, b1: byte, b2: byte, b3: byte): int
  {
    (b0 as int - 0xF0) * 262144 + (b1 as int - 0x80) * 4096 + (b2 as int - 0x80) * 64 + (b3 as int - 0x80)
  }

  /** One decoding step. An ill-formed start is replaced as a whole: the lead byte and
      the continuation bytes that can still belong to it (the maximal subpart). */
  function DecodeStep(b: seq<byte>): (r: Step)
    requires |b| > 0
    ensures 1 <= r.len <= |b| && r.len <= 4
  {
    var w := LeadWidth(b[0]);
    if w == 0 then Step(1, None)
    else if w == 1 then Step(1, Some(b[0] as int as char))
    else if |b| < 2 || !SecondOk(b[0], b[1]) then Step(1, None)
    else if w == 2 then Step(2, Some(Value2(b[0], b[1]) as char))
    else if |b| < 3 || !IsCont(b[2]) then Step(2, None)
    else if w == 3 then Step(3, Some(Value3(b[0], b[1], b[2]) as char))
    else if |b| < 4 || !IsCont(b[3]) then Step(3, None)
    else Step(4, Some(Value4(b[0], b[1], b[2], b[3]) as char))
  }

  /** Strict decoding: None on ill-formed input */
  function Decode(b: seq<byte>): Option<string>
    decreases |b|
  {
    if b == [] then Some([])
    else
      var st := DecodeStep(b);
      if st.ch.None? then None
      else match Decode(b[st.len..])
        case None => None
        case Some(s) => Some([st.ch.value] + s)
  }

  /** Lossy decoding: U+FFFD for every maximal ill-formed subpart */
  function DecodeLossy(b: seq<byte>): (r: string)
    ensures |r| <= |b| && (r == [] <==> b == [])
    decreases |b|
  {
    if b == [] then []
    else
      var st := DecodeStep(b);
      [if st.ch.Some? then st.ch.value else Replacement] + DecodeLossy(b[st.len..])
  }

  /** Encoding distributes over concatenation */
  lemma {:induction false} EncodeAppend(a: string, b: string)
    ensures Encode(a + b) == Encode(a) + Encode(b)
  {
    if a == [] {
      assert a + b == b;
    } else {
      assert (a + b)[0] == a[0] && (a + b)[1..] == a[1..] + b;
      EncodeAppend(a[1..], b);
    }
  }

  // The digit arithmetic behind the encoder and the decoder, in base 64.

  lemma Split64(v: int, q: int, r: int)
    requires 0 <= q && 0 <= r < 64 && v == q * 64 + r
    ensures v / 64 == q && v % 64 == r
  {
  }

  lemma Div64Twice(v: int)
    requires 0 <= v
    ensures v / 64 / 64 == v / 4096 && v / 4096 / 64 == v / 262144
  {
  }

  lemma Digits3(v: int)
    requires 0 <= v
    ensures v == (v / 4096) * 4096 + (v / 64 % 64) * 64 + v % 64
  {
    Div64Twice(v);
  }

  lemma Digits4(v: int)
    requires 0 <= v
    ensures v == (v / 262144) * 262144 + (v / 4096 % 64) * 4096 + (v / 64 % 64) * 64 + v % 64
  {
    Div64Twice(v);
  }

  lemma Unique3(v: int, a: int, b: int, c: int)
    requires 0 <= a && 0 <= b < 64 && 0 <= c < 64 && v == a * 4096 + b * 64 + c
    ensures v / 4096 == a && v / 64 % 64 == b && v % 64 == c
  {
    var q := a * 64 + b;
    assert v == q * 64 + c;
    Split64(v, q, c);
    Split64(q, a, b);
    Div64Twice(v);
  }

  lemma Unique4(v: int, a: int, b: int, c: int, d: int)
    requires 0 <= a && 0 <= b < 64 && 0 <= c < 64 && 0 <= d < 64
    requires v == a * 262144 + b * 4096 + c * 64 + d
    ensures v / 262144 == a && v / 4096 % 64 == b && v / 64 % 64 == c && v % 64 == d
  {
    var u := a * 4096 + b * 64 + c;
    Split64(v, u, d);
    Unique3(u, a, b, c);
    Div64Twice(v);
  }

  /** Decoding the UTF-8 form of c, whatever follows it, gives c back */
  lemma DecodeStepEncodeChar(c: char, rest: seq<byte>)
    ensures DecodeStep(EncodeChar(c) + rest) == Step(Width(c), Some(c))
  {
    var v := c as int;
    var b := EncodeChar(c) + rest;
    if v < 0x80 {
    } else if v < 0x800 {
      Split64(v, v / 64, v % 64);
      assert Value2(b[0], b[1]) == v;
    } else if v < 0x1_0000 {
      Digits3(v);
      assert Value3(b[0], b[1], b[2]) == v;
    } else {
      Digits4(v);
      assert Value4(b[0], b[1], b[2], b[3]) == v;
    }
  }

  /** Strict decoding inverts encoding */
  lemma {:induction false} DecodeEncode(s: string)
    ensures Decode(Encode(s)) == Some(s)
  {
    if s != [] {
      var e := EncodeChar(s[0]);
      DecodeStepEncodeChar(s[0], Encode(s[1..]));
      assert (e + Encode(s[1..]))[|e|..] == Encode(s[1..]);
      DecodeEncode(s[1..]);
      assert [s[0]] + s[1..] == s;
    }
  }

  /** A well-formed step is exactly the UTF-8 form of the character it reads */
  lemma EncodeCharDecodeStep(b: seq<byte>)
    requires |b| > 0 && DecodeStep(b).ch.Some?
    ensures EncodeChar(DecodeStep(b).ch.value) == b[..DecodeStep(b).len]
  {
    var st := DecodeStep(b);
    var v := st.ch.value as int;
    if st.len == 2 {
      Split64(v, b[0] as int - 0xC0, b[1] as int - 0x80);
    } else if st.len == 3 {
      Unique3(v, b[0] as int - 0xE0, b[1] as int - 0x80, b[2] as int - 0x80);
    } else if st.len == 4 {
      Unique4(v, b[0] as int - 0xF0, b[1] as int - 0x80, b[2] as int - 0x80, b[3] as int - 0x80);
    }
  }

  /** A successful decode is the first step's character followed by the decode of the
      rest */
  lemma DecodeCons(b: seq<byte>)
    requires b != [] && Decode(b).Some?
    ensures DecodeStep(b).ch.Some? && Decode(b[DecodeStep(b).len..]).Some?
    ensures Decode(b).value == [DecodeStep(b).ch.value] + Decode(b[DecodeStep(b).len..]).value
  {
  }

  /** The strings Decode accepts are exactly the images of Encode */
  lemma {:induction false} EncodeDecode(b: seq<byte>)
    requires Decode(b).Some?
    ensures Encode(Decode(b).value) == b
    decreases |b|
  {
    if b != [] {
      DecodeCons(b);
      var st := DecodeStep(b);
      var head, rest := b[..st.len], b[st.len..];
      var tail := Decode(rest).value;
      EncodeCons(st.ch.value, tail);
      EncodeCharDecodeStep(b);
      EncodeDecode(rest);
      assert b == head + rest;
    }
  }

  /** Encoding a character followed by a string */
  lemma EncodeCons(c: char, t: string)
    ensures Encode([c] + t) == EncodeChar(c) + Encode(t)
  {
    var s := [c] + t;
    assert s[0] == c && s[1..] == t;
  }

  /** Text whose characters are the ASCII bytes b encodes to exactly b, one byte each */
  lemma {:induction false} EncodeAscii(s: string, b: seq<byte>)
    requires |s| == |b| && forall i :: 0 <= i < |b| ==> b[i] < 0x80 && s[i] as int == b[i] as int
    ensures Encode(s) == b
  {
    if b != [] {
      EncodeAscii(s[1..], b[1..]);
      assert b == [b[0]] + b[1..];
    }
  }

  /** On well-formed input the lossy decoder agrees with the strict one */
  lemma {:induction false} LossyAgrees(b: seq<byte>)
    requires Decode(b).Some?
    ensures DecodeLossy(b) == Decode(b).value
    decreases |b|
  {
    if b != [] {
      LossyAgrees(b[DecodeStep(b).len..]);
    }
  }
}
