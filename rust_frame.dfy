/**
 * The frame code of the Rust library (source/src/frame.rs): the opcode enum and its
 * checked conversion from a byte, parse_frame reading one frame from a stream with
 * read_exact, and construct_frame writing one with write_all. ParseSpec states what
 * parse_frame computes on the bytes still to come; FrameChunks what construct_frame writes.
 */
module RustFrame {
  import opened Bytes
  import opened Wrappers
  import opened Rfc6455
  import opened Transport
  import RustTypes

  datatype OpCode = Continuation | Text | Binary | Close | Ping | Pong
  {
    /** The discriminant, `opcode as u8` */
    function Value(): (v: byte)
      ensures v < 16
    {
      match this
      case Continuation => 0x0
      case Text => 0x1
      case Binary => 0x2
      case Close => 0x8
      case Ping => 0x9
      case Pong => 0xA
    }
  }

  /** `OpCode::try_from`: exactly the six defined opcodes are accepted */
  function TryFrom(v: byte): (r: Result<OpCode, RustTypes.WebSocketError>)
    ensures r.Success? <==> v in {0x0, 0x1, 0x2, 0x8, 0x9, 0xA}
    ensures r.Success? ==> r.value.Value() == v
    ensures r.Failure? ==> r.error == RustTypes.InvalidFrame
  {
    match v
    case 0x0 => Success(Continuation)
    case 0x1 => Success(Text)
    case 0x2 => Success(Binary)
    case 0x8 => Success(Close)
    case 0x9 => Success(Ping)
    case 0xA => Success(Pong)
    case _ => Failure(RustTypes.InvalidFrame)
  }

  /** Converting an opcode's discriminant back gives the same opcode */
  lemma TryFromValue(op: OpCode)
    ensures TryFrom(op.Value()) == Success(op)
  {
  }

  datatype WebSocketFrame = WebSocketFrame(opcode: OpCode, payload: seq<byte>)

  /** The result of parse_frame and how many bytes of the stream it consumed */
  datatype Parsed = Parsed(result: Result<WebSocketFrame, RustTypes.WebSocketError>, consumed: nat)

  const Eof: RustTypes.WebSocketError := RustTypes.Io(UnexpectedEof)

  /** The payload length parse_frame reads: the 7-bit code, or the whole 16-bit or 64-bit
      big-endian extended length */
  function Length64(s: seq<byte>): nat
    requires |s| >= 2 && |s| >= KeyStart(s)
  {
    var code := Low7(s[1]);
    if code == 126 then FromBE(s[2..4])
    else if code == 127 then FromBE(s[2..10])
    else code as nat
  }

  /** The stream holds the header, the key and the whole payload the header announces */
  predicate Complete64(s: seq<byte>)
  {
    |s| >= 2 && |s| >= PayloadStart(s) && |s| >= PayloadStart(s) + Length64(s)
  }

  /** The payload of a complete frame, unmasked when the MASK bit is set */
  function Payload64(s: seq<byte>): seq<byte>
    requires Complete64(s)
  {
    var start := PayloadStart(s);
    var body := s[start..start + Length64(s)];
    if HighBit(s[1]) then Mask(body, s[KeyStart(s)..start]) else body
  }

  /** What parse_frame does on a stream that will deliver s: an unknown opcode fails once
      the two header bytes are read; a stream that ends early fails with UnexpectedEof,
      having used up everything */
  function ParseSpec(s: seq<byte>): (r: Parsed)
    ensures r.consumed <= |s|
    ensures r.result.Success? ==> |s| >= 2 && r.consumed == PayloadStart(s) + |r.result.value.payload|
  {
    if |s| < 2 then Parsed(Failure(Eof), |s|)
    else if TryFrom(LowNibble(s[0])).Failure? then Parsed(Failure(RustTypes.InvalidFrame), 2)
    else if !Complete64(s) then Parsed(Failure(Eof), |s|)
    else
      Parsed(Success(WebSocketFrame(TryFrom(LowNibble(s[0])).value, Payload64(s))),
             PayloadStart(s) + Length64(s))
  }

  /** `parse_frame`: read exactly the header, extended length, key and payload in turn, then
      XOR the payload in place with the key */
  method ParseFrame(stream: Reader) returns (r: Result<WebSocketFrame, RustTypes.WebSocketError>)
    requires stream.Valid()
    modifies stream
    ensures stream.Valid() && stream.data == old(stream.data)
    ensures r == ParseSpec(old(stream.Remaining())).result
    ensures stream.pos == old(stream.pos) + ParseSpec(old(stream.Remaining())).consumed
  {
    ghost var s := stream.Remaining();
    var header := Take(stream, 2, s, 0);
    if header.Failure? {
      return Failure(RustTypes.Io(header.error));
    }
    var h := header.value;
    var opcode := TryFrom(LowNibble(h[0]));
    if opcode.Failure? {
      return Failure(opcode.error);
    }
    var masked := HighBit(h[1]);
    var length := ReadLength(stream, Low7(h[1]), s);
    if length.Failure? {
      return Failure(RustTypes.Io(length.error));
    }
    r := ReadBody(stream, s, opcode.value, masked, length.value);
  }

  /** The rest of parse_frame once the header and the length are read: the masking key when
      the MASK bit is set, then the payload, unmasked in place */
  method ReadBody(stream: Reader, ghost s: seq<byte>, opcode: OpCode, masked: bool, payloadLen: nat)
    returns (r: Result<WebSocketFrame, RustTypes.WebSocketError>)
    requires stream.Valid() && |s| >= 2 && |s| >= KeyStart(s) && stream.Remaining() == s[KeyStart(s)..]
    requires masked == HighBit(s[1]) && payloadLen == Length64(s)
    modifies stream
    ensures stream.Valid() && stream.data == old(stream.data)
    ensures Complete64(s) ==>
      r == Success(WebSocketFrame(opcode, Payload64(s))) &&
      stream.pos == old(stream.pos) + PayloadStart(s) + Length64(s) - KeyStart(s)
    ensures !Complete64(s) ==> r == Failure(RustTypes.Io(UnexpectedEof)) && stream.pos == |stream.data|
  {
    var maskingKey: Option<seq<byte>> := None;
    if masked {
      var key := Take(stream, 4, s, KeyStart(s));
      if key.Failure? {
        return Failure(RustTypes.Io(key.error));
      }
      maskingKey := Some(key.value);
    }
    var read := Take(stream, payloadLen, s, PayloadStart(s));
    if read.Failure? {
      return Failure(RustTypes.Io(read.error));
    }
    var bytes := read.value;
    var payload := new byte[|bytes|](i requires 0 <= i < |bytes| => bytes[i]);
    assert payload[..] == bytes;
    if maskingKey.Some? {
      UnmaskInPlace(payload, maskingKey.value);
    }
    r := Success(WebSocketFrame(opcode, payload[..]));
  }

  /** read_exact of n bytes from a stream positioned k bytes into s */
  method Take(stream: Reader, n: nat, ghost s: seq<byte>, ghost k: nat) returns (r: Result<seq<byte>, IoError>)
    requires stream.Valid() && k <= |s| && stream.Remaining() == s[k..]
    modifies stream
    ensures stream.Valid() && stream.data == old(stream.data)
    ensures k + n <= |s| ==> r == Success(s[k..k + n]) && stream.pos == old(stream.pos) + n
                             && stream.Remaining() == s[k + n..]
    ensures |s| < k + n ==> r == Failure(UnexpectedEof) && stream.pos == |stream.data|
  {
    r := stream.ReadExact(n);
    if k + n <= |s| {
      assert s[k..][..n] == s[k..k + n];
      assert stream.Remaining() == s[k..][n..];
    }
  }

  /** The payload length: the 7-bit code, or the extended length read after it */
  method ReadLength(stream: Reader, code: byte, ghost s: seq<byte>) returns (r: Result<nat, IoError>)
    requires stream.Valid() && |s| >= 2 && code == Low7(s[1]) && stream.Remaining() == s[2..]
    modifies stream
    ensures stream.Valid() && stream.data == old(stream.data)
    ensures |s| >= KeyStart(s) ==> r == Success(Length64(s)) && stream.Remaining() == s[KeyStart(s)..]
                                   && stream.pos == old(stream.pos) + KeyStart(s) - 2
    ensures |s| < KeyStart(s) ==> r == Failure(UnexpectedEof) && stream.pos == |stream.data|
  {
    if code == 126 {
      var lenBytes := Take(stream, 2, s, 2);
      if lenBytes.Failure? {
        return Failure(lenBytes.error);
      }
      r := Success(FromBE(lenBytes.value));
    } else if code == 127 {
      var lenBytes := Take(stream, 8, s, 2);
      if lenBytes.Failure? {
        return Failure(lenBytes.error);
      }
      r := Success(FromBE(lenBytes.value));
    } else {
      r := Success(code as nat);
    }
  }

  /** The unmasking loop: payload byte i XORed in place with key byte i mod 4 */
  method UnmaskInPlace(payload: array<byte>, key: seq<byte>)
    requires |key| == 4
    modifies payload
    ensures payload[..] == Mask(old(payload[..]), key)
  {
    ghost var orig := payload[..];
    for i := 0 to payload.Length
      invariant forall k :: 0 <= k < i ==> payload[k] == Mask(orig, key)[k]
      invariant forall k :: i <= k < payload.Length ==> payload[k] == orig[k]
    {
      payload[i] := Xor(payload[i], key[i % 4]);
      KeyIndexIsMod(i);
    }
    assert payload[..] == Mask(orig, key);
  }

  /** The buffers construct_frame hands to write_all, in order: the two header bytes, the
      extended length when there is one, and the payload */
  function FrameChunks(f: WebSocketFrame): (r: seq<seq<byte>>)
    requires |f.payload| < MaxPayload
    ensures Flatten(r) == ServerFrame(f.opcode.Value(), f.payload)
  {
    var n := |f.payload|;
    var head := [SetHighBit(f.opcode.Value()), LengthCode(n)];
    var r := if n <= 125 then [head, f.payload] else [head, ExtendedLength(n), f.payload];
    FlattenPair(head, f.payload);
    FlattenTriple(head, ExtendedLength(n), f.payload);
    r
  }

  /** The concatenation of a sequence of buffers */
  function Flatten(cs: seq<seq<byte>>): seq<byte>
  {
    if cs == [] then [] else Flatten(cs[..|cs| - 1]) + cs[|cs| - 1]
  }

  lemma FlattenPair(a: seq<byte>, b: seq<byte>)
    ensures Flatten([a, b]) == a + b
  {
    assert [a, b][..1] == [a] && [a][..0] == [];
    assert Flatten([a]) == a;
  }

  lemma FlattenTriple(a: seq<byte>, b: seq<byte>, c: seq<byte>)
    ensures Flatten([a, b, c]) == a + b + c
  {
    assert [a, b, c][..2] == [a, b];
    FlattenPair(a, b);
  }

  /** The write events of sending each buffer to endpoint `to` */
  function Writes(to: Endpoint, cs: seq<seq<byte>>): (r: seq<Event>)
    ensures |r| == |cs|
  {
    seq(|cs|, i requires 0 <= i < |cs| => Wrote(to, cs[i]))
  }

  /** `construct_frame`: write the header, the extended length and the payload with
      write_all, stopping at the first failing write */
  method ConstructFrame(wire: Wire, to: Endpoint, frame: WebSocketFrame) returns (r: Outcome<RustTypes.WebSocketError>)
    requires |frame.payload| < MaxPayload
    modifies wire
    ensures wire.down == old(wire.down)
    ensures to in wire.down ==> r == Fail(RustTypes.Io(BrokenPipe)) && wire.log == old(wire.log)
    ensures to !in wire.down ==> r == Pass && wire.log == old(wire.log) + Writes(to, FrameChunks(frame))
  {
    var n := |frame.payload|;
    var h0 := SetHighBit(frame.opcode.Value());
    if n <= 125 {
      r := Put(wire, to, [h0, n as byte]);
      if r.Fail? {
        return;
      }
    } else if n <= 65535 {
      r := Put(wire, to, [h0, 126]);
      if r.Fail? {
        return;
      }
      r := Put(wire, to, BE16(n));
      if r.Fail? {
        return;
      }
    } else {
      r := Put(wire, to, [h0, 127]);
      if r.Fail? {
        return;
      }
      r := Put(wire, to, BE64(n));
      if r.Fail? {
        return;
      }
    }
    r := Put(wire, to, frame.payload);
  }

  /** One write_all, its I/O error converted to a WebSocketError as `?` does */
  method Put(wire: Wire, to: Endpoint, bytes: seq<byte>) returns (r: Outcome<RustTypes.WebSocketError>)
    modifies wire
    ensures wire.down == old(wire.down)
    ensures to in wire.down ==> r == Fail(RustTypes.Io(BrokenPipe)) && wire.log == old(wire.log)
    ensures to !in wire.down ==> r == Pass && wire.log == old(wire.log) + [Wrote(to, bytes)]
  {
    var w := wire.WriteAll(to, bytes);
    r := if w.Fail? then Fail(RustTypes.Io(w.error)) else Pass;
  }

  /** Endpoint `to` receives exactly the frame's bytes from construct_frame's writes, and
      no other endpoint receives anything */
  lemma ConstructDelivers(to: Endpoint, f: WebSocketFrame, e: Endpoint)
    requires |f.payload| < MaxPayload
    ensures Received(Writes(to, FrameChunks(f)), e)
         == (if e == to then ServerFrame(f.opcode.Value(), f.payload) else [])
  {
    WritesDeliver(to, FrameChunks(f), e);
  }

  lemma {:induction false} WritesDeliver(to: Endpoint, cs: seq<seq<byte>>, e: Endpoint)
    ensures Received(Writes(to, cs), e) == (if e == to then Flatten(cs) else [])
    decreases |cs|
  {
    if cs != [] {
      var w := Writes(to, cs);
      assert w[..|w| - 1] == Writes(to, cs[..|cs| - 1]);
      WritesDeliver(to, cs[..|cs| - 1], e);
    }
  }

  /** The length fields of a frame laid out as ServerFrame and ClientFrame lay it out, as
      parse_frame reads them: the whole 64-bit length */
  lemma Length64OfHeader(first: byte, second: byte, n: nat, tail: seq<byte>)
    requires n < MaxPayload && Low7(second) == LengthCode(n)
    ensures var data := [first, second] + ExtendedLength(n) + tail;
      ExtendedBytes(Low7(second)) == |ExtendedLength(n)| && Length64(data) == n
  {
    var data := [first, second] + ExtendedLength(n) + tail;
    if 126 <= n <= 0xFFFF {
      assert data[2..4] == BE16(n);
    } else if n > 0xFFFF {
      assert data[2..10] == BE64(n);
    }
  }

  /** How ParseSpec takes apart a stream laid out as header bytes, extended length,
      masking key (present exactly when the MASK bit is set) and payload */
  lemma ParseLayout(s: seq<byte>, first: byte, second: byte, n: nat, key: seq<byte>, body: seq<byte>, rest: seq<byte>)
    requires n < MaxPayload && Low7(second) == LengthCode(n) && TryFrom(LowNibble(first)).Success?
    requires |key| == (if HighBit(second) then 4 else 0) && |body| == n
    requires s == [first, second] + ExtendedLength(n) + key + body + rest
    ensures ParseSpec(s) == Parsed(
      Success(WebSocketFrame(TryFrom(LowNibble(first)).value, if HighBit(second) then Mask(body, key) else body)),
      2 + |ExtendedLength(n)| + |key| + n)
  {
    var head := [first, second] + ExtendedLength(n);
    Middle(head, key, body, rest);
    Length64OfHeader(first, second, n, key + body + rest);
    assert s[0] == first && s[1] == second;
    assert PayloadStart(s) == |head| + |key|;
    assert Complete64(s);
  }

  /** Round trip: parse_frame reads back exactly the frame construct_frame wrote, opcode
      and payload, consuming its bytes and no more, whatever follows on the stream */
  lemma ParseConstructed(f: WebSocketFrame, rest: seq<byte>)
    requires |f.payload| < MaxPayload
    ensures var bytes := Flatten(FrameChunks(f));
      ParseSpec(bytes + rest) == Parsed(Success(f), |bytes|)
  {
    var op := f.opcode.Value();
    var n := |f.payload|;
    TryFromValue(f.opcode);
    ParseLayout(ServerFrame(op, f.payload) + rest, SetHighBit(op), LengthCode(n), n, [], f.payload, rest);
  }

  /** A client's masked frame with a defined opcode parses to that opcode and the original,
      unmasked payload */
  lemma ParseClientFrame(op: OpCode, p: seq<byte>, key: seq<byte>, rest: seq<byte>)
    requires |p| < MaxPayload && |key| == 4
    ensures var bytes := ClientFrame(op.Value(), p, key);
      ParseSpec(bytes + rest) == Parsed(Success(WebSocketFrame(op, p)), |bytes|)
  {
    var v := op.Value();
    var n := |p|;
    TryFromValue(op);
    ParseLayout(ClientFrame(v, p, key) + rest, SetHighBit(v), SetHighBit(LengthCode(n)), n, key, Mask(p, key), rest);
    MaskInvolution(p, key);
  }

  /** An unknown opcode is rejected from the two header bytes alone: nothing after them
      is read */
  lemma ParseStopsAtBadOpcode(header: seq<byte>, rest: seq<byte>)
    requires |header| == 2 && TryFrom(LowNibble(header[0])).Failure?
    ensures ParseSpec(header + rest) == Parsed(Failure(RustTypes.InvalidFrame), 2)
  {
    assert (header + rest)[0] == header[0];
  }

  /** A frame that parses is read from its own bytes only: more bytes after it change
      nothing */
  lemma ParseExtends(s: seq<byte>, t: seq<byte>)
    requires ParseSpec(s).result.Success?
    ensures ParseSpec(s + t) == ParseSpec(s)
  {
    var u := s + t;
    assert Complete64(s);
    var ks, ps := KeyStart(s), PayloadStart(s);
    var end := ps + Length64(s);
    assert u[..end] == s[..end];
    SameHeader(s, u, end);
    assert Complete64(u);
    assert u[ks..ps] == s[ks..ps];
    assert u[ps..end] == s[ps..end];
  }

  /** A stream that ends before the frame it starts is complete gives UnexpectedEof, having
      consumed all of it */
  lemma ParseTruncated(s: seq<byte>, k: nat)
    requires ParseSpec(s).result.Success? && k < ParseSpec(s).consumed
    ensures ParseSpec(s[..k]) == Parsed(Failure(Eof), k)
  {
    var u := s[..k];
    if k >= 2 {
      assert u[0] == s[0] && u[1] == s[1];
      if k >= KeyStart(s) {
        SameHeader(s, u, k);
      }
    }
  }

  /** Two streams that share their first k bytes, k covering the header and the extended
      length of the first, announce the same layout and length */
  lemma SameHeader(s: seq<byte>, u: seq<byte>, k: nat)
    requires |s| >= 2 && KeyStart(s) <= k <= |s| && k <= |u| && u[..k] == s[..k]
    ensures u[0] == s[0] && u[1] == s[1]
    ensures KeyStart(u) == KeyStart(s) && PayloadStart(u) == PayloadStart(s) && Length64(u) == Length64(s)
  {
    assert u[0] == u[..k][0] && u[1] == u[..k][1];
    var code := Low7(s[1]);
    if code == 126 {
      assert u[2..4] == u[..k][2..4] == s[..k][2..4] == s[2..4];
    } else if code == 127 {
      assert u[2..10] == u[..k][2..10] == s[..k][2..10] == s[2..10];
    }
  }
}
