/**
 * The frame code of the Node server: decoding as handleWebSocketFrame and unmaskPayload
 * do it (server/index.ts), and the text frames Connection.send builds
 * (server/connection.ts). Decode32 is what the Node decoders compute; the WASM decoder
 * (module WasmDecoder) is proved against the same function.
 */
module NodeFrames {
  import opened Bytes
  import opened Wrappers
  import opened Rfc6455

  /** What a Node decoder hands on: the opcode nibble, unvalidated, and the payload */
  datatype Decoded = Decoded(opcode: byte, payload: seq<byte>)

  /** A read past the end of the buffer: Node throws a RangeError, Rust panics */
  datatype DecodeError = OutOfBounds

  const Max32: nat := 0x1_0000_0000

  /** The payload length as the Node decoders read it: the 16-bit field for code 126,
      only the low 32 bits (bytes 6..9) of the 64-bit field for code 127 */
  function Length32(data: seq<byte>): nat
    requires |data| >= 2 && |data| >= KeyStart(data)
  {
    var code := Low7(data[1]);
    if code == 126 then FromBE(data[2..4])
    else if code == 127 then FromBE(data[6..10])
    else code as nat
  }

  /** The buffer holds the whole header and the whole payload it announces */
  predicate Complete32(data: seq<byte>)
  {
    |data| >= 2 && |data| >= PayloadStart(data) && |data| >= PayloadStart(data) + Length32(data)
  }

  /** The payload bytes of a complete frame, unmasked when the MASK bit is set */
  function Payload32(data: seq<byte>): seq<byte>
    requires Complete32(data)
  {
    var start := PayloadStart(data);
    var body := data[start..start + Length32(data)];
    if HighBit(data[1]) then Mask(body, data[KeyStart(data)..start]) else body
  }

  /** The frame at the start of data, as the Node decoders read it: every read past the
      end of the buffer is a failure */
  function Decode32(data: seq<byte>): Result<Decoded, DecodeError>
  {
    if Complete32(data) then Success(Decoded(LowNibble(data[0]), Payload32(data)))
    else Failure(OutOfBounds)
  }

  /** unmaskPayload: XOR in place, four bytes per step, then the remaining bytes one by one */
  method UnmaskPayload(payload: array<byte>, key: seq<byte>)
    requires |key| == 4
    modifies payload
    ensures payload[..] == Mask(old(payload[..]), key)
  {
    ghost var orig := payload[..];
    var len := payload.Length;
    var i := 0;
    ghost var words := 0;
    while i + 3 < len
      invariant 0 <= i <= len && i == 4 * words
      invariant MaskedUpTo(payload[..], orig, key, i)
    {
      XorWord(payload, key, i, orig, words);
      i := i + 4;
      words := words + 1;
    }
    while i < len
      invariant 0 <= i <= len
      invariant MaskedUpTo(payload[..], orig, key, i)
    {
      XorByte(payload, key, i, orig);
      i := i + 1;
    }
    MaskedToEnd(payload[..], orig, key);
  }

  /** The state of the buffer once unmaskPayload has reached index i: the first i bytes
      masked, the rest as they were */
  ghost predicate MaskedUpTo(cur: seq<byte>, orig: seq<byte>, key: seq<byte>, i: nat)
    requires |key| == 4 && i <= |orig|
  {
    cur == Mask(orig[..i], key) + orig[i..]
  }

  lemma MaskedToEnd(cur: seq<byte>, orig: seq<byte>, key: seq<byte>)
    requires |key| == 4 && MaskedUpTo(cur, orig, key, |orig|)
    ensures cur == Mask(orig, key)
  {
    assert orig[..|orig|] == orig;
    assert cur == Mask(orig, key) + [];
  }

  /** The body of the unrolled loop: four bytes XORed with the four key bytes in turn */
  method XorWord(payload: array<byte>, key: seq<byte>, i: nat, ghost orig: seq<byte>, ghost words: nat)
    requires |key| == 4 && i == 4 * words && i + 4 <= payload.Length == |orig|
    requires MaskedUpTo(payload[..], orig, key, i)
    modifies payload
    ensures MaskedUpTo(payload[..], orig, key, i + 4)
  {
    ghost var before := payload[..];
    payload[i] := Xor(payload[i], key[0]);
    payload[i + 1] := Xor(payload[i + 1], key[1]);
    payload[i + 2] := Xor(payload[i + 2], key[2]);
    payload[i + 3] := Xor(payload[i + 3], key[3]);
    MaskWord(orig, key, i, words, before, payload[..]);
  }

  /** The body of the remainder loop */
  method XorByte(payload: array<byte>, key: seq<byte>, i: nat, ghost orig: seq<byte>)
    requires |key| == 4 && i < payload.Length == |orig|
    requires MaskedUpTo(payload[..], orig, key, i)
    modifies payload
    ensures MaskedUpTo(payload[..], orig, key, i + 1)
  {
    ghost var before := payload[..];
    payload[i] := Xor(payload[i], key[i % 4]);
    KeyIndexIsMod(i);
    MaskByte(orig, key, i, before, payload[..]);
  }

  /** One step of the unrolled loop: masking the four bytes from a multiple of four */
  lemma MaskWord(orig: seq<byte>, key: seq<byte>, i: nat, words: nat, before: seq<byte>, after: seq<byte>)
    requires |key| == 4 && i == 4 * words && i + 4 <= |orig|
    requires MaskedUpTo(before, orig, key, i)
    requires after == before[i := Xor(before[i], key[0])][i + 1 := Xor(before[i + 1], key[1])]
      [i + 2 := Xor(before[i + 2], key[2])][i + 3 := Xor(before[i + 3], key[3])]
    ensures MaskedUpTo(after, orig, key, i + 4)
  {
    KeyIndexInWord(words, 0);
    KeyIndexInWord(words, 1);
    KeyIndexInWord(words, 2);
    KeyIndexInWord(words, 3);
    var s1 := before[i := Xor(before[i], key[0])];
    MaskByte(orig, key, i, before, s1);
    var s2 := s1[i + 1 := Xor(s1[i + 1], key[1])];
    MaskByte(orig, key, i + 1, s1, s2);
    var s3 := s2[i + 2 := Xor(s2[i + 2], key[2])];
    MaskByte(orig, key, i + 2, s2, s3);
    MaskByte(orig, key, i + 3, s3, after);
  }

  /** One step of the remainder loop */
  lemma MaskByte(orig: seq<byte>, key: seq<byte>, i: nat, before: seq<byte>, after: seq<byte>)
    requires |key| == 4 && i < |orig|
    requires MaskedUpTo(before, orig, key, i)
    requires after == before[i := Xor(before[i], key[KeyIndex(i)])]
    ensures MaskedUpTo(after, orig, key, i + 1)
  {
    forall k | 0 <= k < |after|
      ensures after[k] == (Mask(orig[..i + 1], key) + orig[i + 1..])[k]
    {
      if k < i {
        assert after[k] == before[k] == Mask(orig[..i], key)[k];
      }
    }
  }

  /** The parsing half of handleWebSocketFrame: the header fields read one after the
      other with a moving offset, then the payload, unmasked in place */
  method DecodeFrame(data: seq<byte>) returns (r: Result<Decoded, DecodeError>)
    ensures r == Decode32(data)
  {
    if |data| < 2 {
      return Failure(OutOfBounds);
    }
    var opcode := LowNibble(data[0]);
    var isMasked := HighBit(data[1]);
    var payloadLength: nat := Low7(data[1]) as nat;
    var offset: nat := 2;
    if payloadLength == 126 {
      if |data| < offset + 2 {
        return Failure(OutOfBounds);
      }
      payloadLength := FromBE(data[offset..offset + 2]);
      offset := offset + 2;
    } else if payloadLength == 127 {
      if |data| < offset + 8 {
        return Failure(OutOfBounds);
      }
      payloadLength := FromBE(data[offset + 4..offset + 8]);
      offset := offset + 8;
    }
    r := DecodeBody(data, opcode, isMasked, offset, payloadLength);
  }

  /** The rest of the parse once the offset has passed the length fields: the masking key
      when the MASK bit is set, then the payload */
  method DecodeBody(data: seq<byte>, opcode: byte, isMasked: bool, offset: nat, payloadLength: nat)
    returns (r: Result<Decoded, DecodeError>)
    requires |data| >= 2 && KeyStart(data) <= |data| && offset == KeyStart(data)
    requires opcode == LowNibble(data[0]) && isMasked == HighBit(data[1]) && payloadLength == Length32(data)
    ensures r == Decode32(data)
  {
    var at := offset;
    var maskingKey: seq<byte> := [];
    if isMasked {
      if |data| < at + 4 {
        return Failure(OutOfBounds);
      }
      maskingKey := data[at..at + 4];
      at := at + 4;
    }
    assert at == PayloadStart(data);
    if |data| < at + payloadLength {
      return Failure(OutOfBounds);
    }
    var payload := new byte[payloadLength](i requires 0 <= i < payloadLength => data[at + i]);
    assert payload[..] == data[at..at + payloadLength];
    if isMasked {
      UnmaskPayload(payload, maskingKey);
    }
    r := Success(Decoded(opcode, payload[..]));
  }

  /** The frame Connection.send writes for a payload: FIN and the text opcode (0x81), the
      length in the smallest of the three tiers (the 64-bit tier written as a zero high
      word and a 32-bit low word), then the payload unmasked */
  function TextFrame(p: seq<byte>): seq<byte>
    requires |p| < Max32
  {
    var n := |p|;
    if n <= 125 then [0x81, n as byte] + p
    else if n <= 0xFFFF then [0x81, 126] + BE16(n) + p
    else [0x81, 127] + BE32(0) + BE32(n) + p
  }

  /** Buffer.copy: src into dst from index at */
  method CopyInto(src: seq<byte>, dst: array<byte>, at: nat)
    requires at + |src| <= dst.Length
    modifies dst
    ensures dst[..] == old(dst[..at]) + src + old(dst[at + |src|..])
  {
    var i := 0;
    while i < |src|
      invariant 0 <= i <= |src|
      invariant forall k :: 0 <= k < at ==> dst[k] == old(dst[k])
      invariant forall k :: 0 <= k < i ==> dst[at + k] == src[k]
      invariant forall k :: at + i <= k < dst.Length ==> dst[k] == old(dst[k])
    {
      dst[at + i] := src[i];
      i := i + 1;
    }
    assert dst[..] == old(dst[..at]) + src + old(dst[at + |src|..]);
  }

  /** writeUInt16BE / writeUInt32BE: the big-endian bytes of a number from index at */
  method WriteBE(dst: array<byte>, bytes: seq<byte>, at: nat)
    requires at + |bytes| <= dst.Length
    modifies dst
    ensures dst[..] == old(dst[..at]) + bytes + old(dst[at + |bytes|..])
  {
    CopyInto(bytes, dst, at);
  }

  /** The frame-building half of Connection.send: a buffer of exactly header plus payload
      bytes, filled in place. None when the length does not fit writeUInt32BE, which
      throws a RangeError before anything is written. */
  method BuildFrame(payload: seq<byte>) returns (frame: Option<seq<byte>>)
    ensures |payload| < Max32 ==> frame == Some(TextFrame(payload))
    ensures |payload| >= Max32 ==> frame == None
  {
    var payloadLength := |payload|;
    if payloadLength <= 125 {
      var buf := new byte[2 + payloadLength];
      buf[0] := 0x81;
      buf[1] := payloadLength as byte;
      CopyInto(payload, buf, 2);
      assert buf[..] == [0x81, payloadLength as byte] + payload;
      return Some(buf[..]);
    }
    if payloadLength <= 0xFFFF {
      var buf := new byte[4 + payloadLength];
      buf[0] := 0x81;
      buf[1] := 126;
      WriteBE(buf, BE16(payloadLength), 2);
      assert buf[..4] == [0x81, 126] + BE16(payloadLength);
      CopyInto(payload, buf, 4);
      assert buf[..] == [0x81, 126] + BE16(payloadLength) + payload;
      return Some(buf[..]);
    }
    if payloadLength >= Max32 {
      return None;
    }
    var buf := new byte[10 + payloadLength];
    buf[0] := 0x81;
    buf[1] := 127;
    WriteBE(buf, BE32(0), 2);
    assert buf[..6] == [0x81, 127] + BE32(0);
    WriteBE(buf, BE32(payloadLength), 6);
    assert buf[..10] == [0x81, 127] + BE32(0) + BE32(payloadLength);
    CopyInto(payload, buf, 10);
    assert buf[..] == [0x81, 127] + BE32(0) + BE32(payloadLength) + payload;
    frame := Some(buf[..]);
  }

  /** The three header tiers of Connection.send: total length, first two bytes, the
      extended length read back as a number, and the payload at the end, unmasked */
  lemma TextFrameLayout(p: seq<byte>)
    requires |p| < Max32
    ensures var f := TextFrame(p); var n := |p|;
      f[0] == 0x81 && !HighBit(f[1]) &&
      (n <= 125 ==> |f| == 2 + n && f[1] as int == n && f[2..] == p) &&
      (126 <= n <= 0xFFFF ==> |f| == 4 + n && f[1] == 126 && FromBE(f[2..4]) == n && f[4..] == p) &&
      (n > 0xFFFF ==>
        |f| == 10 + n && f[1] == 127 && f[2..6] == [0, 0, 0, 0] && FromBE(f[6..10]) == n && f[10..] == p)
  {
    var f := TextFrame(p);
    var n := |p|;
    if 126 <= n <= 0xFFFF {
      assert f[2..4] == BE16(n);
    } else if n > 0xFFFF {
      assert f[2..6] == BE32(0);
      assert f[6..10] == BE32(n);
    }
  }

  /** Connection.send builds exactly the unmasked text frame of RFC 6455 for its payload */
  lemma TextFrameIsServerFrame(p: seq<byte>)
    requires |p| < Max32
    ensures TextFrame(p) == ServerFrame(1, p)
  {
    var n := |p|;
    if n > 0xFFFF {
      assert n / Max32 == 0 && n % Max32 == n;
      assert BE64(n) == BE32(0) + BE32(n);
    }
  }

  /** The length fields of a frame built by ServerFrame or ClientFrame, as Decode32 reads
      them: the 64-bit field contributes its low 32 bits only */
  lemma Length32OfHeader(first: byte, second: byte, n: nat, tail: seq<byte>)
    requires n < MaxPayload && Low7(second) == LengthCode(n)
    ensures var data := [first, second] + ExtendedLength(n) + tail;
      ExtendedBytes(Low7(second)) == |ExtendedLength(n)| &&
      Length32(data) == n % Max32
  {
    var data := [first, second] + ExtendedLength(n) + tail;
    if 126 <= n <= 0xFFFF {
      assert data[2..4] == BE16(n);
    } else if n > 0xFFFF {
      var ext := BE64(n);
      assert data[6..10] == ext[4..];
      Halves(ext);
    }
  }

  /** How Decode32 takes apart a buffer laid out as header bytes, extended length,
      masking key (present exactly when the MASK bit is set) and payload */
  lemma DecodeLayout(data: seq<byte>, first: byte, second: byte, n: nat, key: seq<byte>, body: seq<byte>, rest: seq<byte>)
    requires n < MaxPayload && Low7(second) == LengthCode(n)
    requires |key| == (if HighBit(second) then 4 else 0) && |body| == n % Max32
    requires data == [first, second] + ExtendedLength(n) + key + body + rest
    ensures Decode32(data) == Success(Decoded(LowNibble(first), if HighBit(second) then Mask(body, key) else body))
  {
    var head := [first, second] + ExtendedLength(n);
    Middle(head, key, body, rest);
    Length32OfHeader(first, second, n, key + body + rest);
    assert data[0] == first && data[1] == second;
    assert PayloadStart(data) == |head| + |key|;
    assert Complete32(data);
  }

  /** A server frame with a payload under 2^32 bytes decodes to its opcode and payload,
      whatever follows it in the buffer */
  lemma DecodeServerFrame(opcode: byte, p: seq<byte>, rest: seq<byte>)
    requires opcode < 16 && |p| < Max32
    ensures Decode32(ServerFrame(opcode, p) + rest) == Success(Decoded(opcode, p))
  {
    var n := |p|;
    DecodeLayout(ServerFrame(opcode, p) + rest, SetHighBit(opcode), LengthCode(n), n, [], p, rest);
  }

  /** A masked client frame with a payload under 2^32 bytes decodes to its opcode and the
      original, unmasked payload */
  lemma DecodeClientFrame(opcode: byte, p: seq<byte>, key: seq<byte>, rest: seq<byte>)
    requires opcode < 16 && |p| < Max32 && |key| == 4
    ensures Decode32(ClientFrame(opcode, p, key) + rest) == Success(Decoded(opcode, p))
  {
    var n := |p|;
    DecodeLayout(ClientFrame(opcode, p, key) + rest, SetHighBit(opcode), SetHighBit(LengthCode(n)), n, key, Mask(p, key), rest);
    MaskInvolution(p, key);
  }

  /** A 64-bit length of 2^32 or more is read modulo 2^32: the decoders return only the
      first |p| mod 2^32 payload bytes of such a server frame */
  lemma DecodeKeepsLowWord(opcode: byte, p: seq<byte>, rest: seq<byte>)
    requires opcode < 16 && Max32 <= |p| < MaxPayload
    ensures Decode32(ServerFrame(opcode, p) + rest) == Success(Decoded(opcode, p[..|p| % Max32]))
  {
    var n := |p|;
    var k := n % Max32;
    assert p == p[..k] + p[k..];
    DecodeLayout(ServerFrame(opcode, p) + rest, SetHighBit(opcode), LengthCode(n), n, [], p[..k], p[k..] + rest);
  }

  /** What Connection.send frames reaches the 'message' handler unchanged: decoding the
      frame gives opcode 1 and the message's UTF-8 bytes, which decode back to the message */
  lemma SendThenDecode(m: string)
    requires |Utf8.Encode(m)| < Max32
    ensures Decode32(TextFrame(Utf8.Encode(m))) == Success(Decoded(1, Utf8.Encode(m)))
    ensures Utf8.DecodeLossy(Utf8.Encode(m)) == m
  {
    var p := Utf8.Encode(m);
    TextFrameIsServerFrame(p);
    DecodeServerFrame(1, p, []);
    assert ServerFrame(1, p) + [] == ServerFrame(1, p);
    Utf8.DecodeEncode(m);
    Utf8.LossyAgrees(p);
  }

  /** A buffer cut short of its declared frame fails to decode, whether the frame is
      masked or not: the layouts are the ones DecodeLayout accepts, which include every
      ServerFrame and ClientFrame with a payload under 2^32 bytes */
  lemma TruncatedFrameFails(first: byte, second: byte, n: nat, key: seq<byte>, body: seq<byte>, k: nat)
    requires n < MaxPayload && Low7(second) == LengthCode(n)
    requires |key| == (if HighBit(second) then 4 else 0) && |body| == n % Max32
    requires k < |[first, second] + ExtendedLength(n) + key + body|
    ensures Decode32(([first, second] + ExtendedLength(n) + key + body)[..k]).Failure?
  {
    var head := [first, second] + ExtendedLength(n);
    var f := [first, second] + ExtendedLength(n) + key + body;
    assert f == head + (key + body);
    var data := f[..k];
    if k >= |head| {
      var tail := f[|head|..k];
      assert data == head + tail;
      Length32OfHeader(first, second, n, tail);
      assert data[1] == second;
      assert PayloadStart(data) == |head| + |key|;
      assert Length32(data) == n % Max32;
    } else if k >= 2 {
      assert data[1] == second;
      Length32OfHeader(first, second, n, []);
      assert KeyStart(data) == |head|;
    }
  }

  /** Every proper prefix of a masked client frame fails to decode */
  lemma TruncatedClientFrameFails(opcode: byte, p: seq<byte>, key: seq<byte>, k: nat)
    requires opcode < 16 && |p| < Max32 && |key| == 4 && k < |ClientFrame(opcode, p, key)|
    ensures Decode32(ClientFrame(opcode, p, key)[..k]).Failure?
  {
    TruncatedFrameFails(SetHighBit(opcode), SetHighBit(LengthCode(|p|)), |p|, key, Mask(p, key), k);
  }

  /** Every proper prefix of an unmasked server frame fails to decode */
  lemma TruncatedServerFrameFails(opcode: byte, p: seq<byte>, k: nat)
    requires opcode < 16 && |p| < Max32 && k < |ServerFrame(opcode, p)|
    ensures Decode32(ServerFrame(opcode, p)[..k]).Failure?
  {
    var second := LengthCode(|p|);
    assert !HighBit(second) && Low7(second) == second;
    assert ServerFrame(opcode, p) == [SetHighBit(opcode), second] + ExtendedLength(|p|) + [] + p;
    TruncatedFrameFails(SetHighBit(opcode), second, |p|, [], p, k);
  }
}
