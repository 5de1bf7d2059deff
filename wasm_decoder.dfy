/**
 * The WebAssembly decoder handle_websocket_frame
 * (server/rust/handle_websocket_frame/src/lib.rs). It reads the same fields as the
 * TypeScript decoder and copies the payload into a fresh array, unmasking byte by byte.
 * A read out of bounds panics in Rust; here it is a Failure. The method is proved equal
 * to NodeFrames.Decode32, which makes the two Node-side decoders agree on every buffer.
 */
module WasmDecoder {
  import opened Bytes
  import opened Wrappers
  import opened Rfc6455
  import opened NodeFrames

  /** Bytes read one by one, as the decoder indexes them, form the slice at that offset */
  lemma Indexed(data: seq<byte>, at: nat, k: nat)
    requires at + k <= |data| && (k == 2 || k == 4)
    ensures k == 2 ==> [data[at], data[at + 1]] == data[at..at + 2]
    ensures k == 4 ==> [data[at], data[at + 1], data[at + 2], data[at + 3]] == data[at..at + 4]
  {
  }

  /** The output array filled from the payload slice: each byte XORed with the key byte it
      lines up with, or copied as is when the frame is unmasked */
  method FillPayload(slice: seq<byte>, maskingKey: Option<seq<byte>>) returns (out: seq<byte>)
    requires maskingKey.Some? ==> |maskingKey.value| == 4
    ensures maskingKey.Some? ==> out == Mask(slice, maskingKey.value)
    ensures maskingKey.None? ==> out == slice
  {
    var payload := new byte[|slice|];
    match maskingKey {
      case Some(key) =>
        var i := 0;
        while i < |slice|
          invariant 0 <= i <= |slice|
          invariant forall k :: 0 <= k < i ==> payload[k] == Mask(slice, key)[k]
        {
          payload[i] := Xor(slice[i], key[i % 4]);
          KeyIndexIsMod(i);
          i := i + 1;
        }
        assert payload[..] == Mask(slice, key);
      case None =>
        var i := 0;
        while i < |slice|
          invariant 0 <= i <= |slice|
          invariant forall k :: 0 <= k < i ==> payload[k] == slice[k]
        {
          payload[i] := slice[i];
          i := i + 1;
        }
    }
    out := payload[..];
  }

  method HandleWebSocketFrame(data: seq<byte>) returns (r: Result<Decoded, DecodeError>)
    ensures r == Decode32(data)
  {
    if |data| < 2 {
      return Failure(OutOfBounds);
    }
    var opcode := LowNibble(data[0]);
    var isMasked := HighBit(data[1]);
    var payloadLength: nat := Low7(data[1]) as nat;
    var offset: nat := 2;
    if payloadLength == 126 {
      if |data| < offset + 2 {
        return Failure(OutOfBounds);
      }
      Indexed(data, offset, 2);
      payloadLength := FromBE([data[offset], data[offset + 1]]);
      offset := offset + 2;
    } else if payloadLength == 127 {
      if |data| < offset + 8 {
        return Failure(OutOfBounds);
      }
      Indexed(data, offset + 4, 4);
      payloadLength := FromBE([data[offset + 4], data[offset + 5], data[offset + 6], data[offset + 7]]);
      offset := offset + 8;
    }
    r := DecodeBody(data, opcode, isMasked, offset, payloadLength);
  }

  /** The rest of the parse once the offset has passed the length fields: the masking key
      when the MASK bit is set, then the payload copied out and unmasked */
  method DecodeBody(data: seq<byte>, opcode: byte, isMasked: bool, offset: nat, payloadLength: nat)
    returns (r: Result<Decoded, DecodeError>)
    requires |data| >= 2 && KeyStart(data) <= |data| && offset == KeyStart(data)
    requires opcode == LowNibble(data[0]) && isMasked == HighBit(data[1]) && payloadLength == Length32(data)
    ensures r == Decode32(data)
  {
    var at := offset;
    var maskingKey: Option<seq<byte>> := None;
    if isMasked {
      if |data| < at + 4 {
        return Failure(OutOfBounds);
      }
      Indexed(data, at, 4);
      maskingKey := Some([data[at], data[at + 1], data[at + 2], data[at + 3]]);
      at := at + 4;
    }
    assert at == PayloadStart(data);
    if |data| < at + payloadLength {
      return Failure(OutOfBounds);
    }
    var payload := FillPayload(data[at..at + payloadLength], maskingKey);
    r := Success(Decoded(opcode, payload));
  }
}
