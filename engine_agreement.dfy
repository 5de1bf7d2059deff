/**
 * Where the two engines of the repository do the same job. They compute the same
 * accept key. They read a frame's payload length differently: the Node and WASM
 * decoders (Decode32) keep the low 32 bits of a 64-bit length, the Rust library
 * (ParseSpec) uses all 64. So they agree on every frame the Rust parser accepts whose
 * length fits in 32 bits, and part ways above that.
 */
module EngineAgreement {
  import opened Bytes
  import opened Wrappers
  import opened Rfc6455
  import opened NodeFrames
  import opened RustFrame
  import Utf8
  import NodeServer
  import RustHandshake

  /** generate_accept_key hashes the key's bytes and then the GUID's, generateAcceptKey
      the bytes of the key and GUID joined: the same bytes, so the same accept key */
  lemma AcceptKeysAgree(crypto: Crypto, key: string)
    ensures RustHandshake.GenerateAcceptKey(crypto, key) == NodeServer.GenerateAcceptKey(crypto, key)
  {
    Utf8.EncodeAppend(key, Guid);
  }

  /** Whenever parse_frame succeeds on a frame whose 64-bit length field, if any, has zero
      high bytes, the Node decoders return the same opcode and payload */
  lemma ParseAgreesWithDecode32(s: seq<byte>)
    requires ParseSpec(s).result.Success?
    requires Low7(s[1]) == 127 ==> FromBE(s[2..6]) == 0
    ensures Decode32(s) == Success(Decoded(LowNibble(s[0]), ParseSpec(s).result.value.payload))
  {
    assert Complete64(s);
    if Low7(s[1]) == 127 {
      var ext := s[2..10];
      assert ext[..4] == s[2..6] && ext[4..] == s[6..10];
      Halves(ext);
    }
    assert Length32(s) == Length64(s);
  }

  /** A frame announcing 2^32 payload bytes and carrying none: Node reads length 0 and
      decodes an empty binary message, Rust waits for 2^32 bytes that never come */
  const LongHeader: seq<byte> := [0x82, 127, 0, 0, 0, 1, 0, 0, 0, 0]

  lemma DecodersDisagree()
    ensures Decode32(LongHeader) == Success(Decoded(2, []))
    ensures ParseSpec(LongHeader) == Parsed(Failure(Eof), |LongHeader|)
  {
    var s := LongHeader;
    assert Low7(s[1]) == 127 && !HighBit(s[1]) && LowNibble(s[0]) == 2;
    assert KeyStart(s) == 10 && PayloadStart(s) == 10;
    var high, low := s[2..6], s[6..10];
    assert high == [0, 0, 0, 1] && low == [0, 0, 0, 0];
    FromBE4(0, 0, 0, 1);
    FromBE4(0, 0, 0, 0);
    assert Length32(s) == 0;
    assert Payload32(s) == [];
    assert s[2..10] == high + low;
    FromBEAppend(high, low);
    assert Pow256(4) == 0x1_0000_0000;
    assert Length64(s) == 0x1_0000_0000;
  }

  /** Four big-endian bytes read as a number */
  lemma FromBE4(a: byte, b: byte, c: byte, d: byte)
    ensures FromBE([a, b, c, d]) == ((a as int * 256 + b as int) * 256 + c as int) * 256 + d as int
  {
    assert [a][..0] == [];
    assert FromBE([a]) == a as int;
    assert [a, b][..1] == [a];
    assert FromBE([a, b]) == a as int * 256 + b as int;
    assert [a, b, c][..2] == [a, b];
    assert FromBE([a, b, c]) == (a as int * 256 + b as int) * 256 + c as int;
    assert [a, b, c, d][..3] == [a, b, c];
  }
}
