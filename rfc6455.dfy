/**
 * Reference definitions from RFC 6455 that both server engines implement: the handshake
 * GUID and accept value (section 4.2.2), the shape of the server's opening handshake
 * response, and the frame layout of section 5.2 for frames as a server sends them
 * (unmasked) and as a client sends them (masked, section 5.3).
 */
module Rfc6455 {
  import opened Bytes
  import Utf8

  /** The GUID appended to the client's key (section 1.3 and 4.2.2) */
  const Guid: string := "258EAFA5-E914-47DA-95CA-C5AB0DC85B11"

  const Crlf: string := "\r\n"

  /** SHA-1 and base64 are libraries outside the model; a Crypto value supplies them */
  datatype Crypto = Crypto(sha1: seq<byte> -> seq<byte>, base64: seq<byte> -> string)

  /** Sec-WebSocket-Accept for a key, given the bytes the key is sent as */
  function AcceptValue(crypto: Crypto, keyBytes: seq<byte>): string
  {
    crypto.base64(crypto.sha1(keyBytes + Utf8.Encode(Guid)))
  }

  /** An HTTP message head: each line followed by CRLF, then the empty line */
  function HttpHead(lines: seq<string>): string
  {
    if lines == [] then Crlf else lines[0] + Crlf + HttpHead(lines[1..])
  }

  /** The server's accepting response with the fields both engines send */
  function SwitchingProtocols(accept: string): string
  {
    HttpHead([
      "HTTP/1.1 101 Switching Protocols",
      "Upgrade: websocket",
      "Connection: Upgrade",
      "Sec-WebSocket-Accept: " + accept])
  }

  const MaxPayload: nat := 0x1_0000_0000_0000_0000

  /** The 7-bit "Payload len" field for a payload of n bytes: the smallest encoding */
  function LengthCode(n: nat): (code: byte)
    ensures code < 0x80
  {
    if n <= 125 then n as byte else if n <= 0xFFFF then 126 else 127
  }

  /** The "Extended payload length" bytes that follow the 7-bit field */
  function ExtendedLength(n: nat): (r: seq<byte>)
    requires n < MaxPayload
    ensures |r| == (if n <= 125 then 0 else if n <= 0xFFFF then 2 else 8)
  {
    if n <= 125 then [] else if n <= 0xFFFF then BE16(n) else BE64(n)
  }

  /** The number of extended-length bytes a 7-bit "Payload len" code announces */
  function ExtendedBytes(code: byte): nat
  {
    if code == 126 then 2 else if code == 127 then 8 else 0
  }

  /** Where the masking key starts: after the two header bytes and the extended length */
  function KeyStart(data: seq<byte>): nat
    requires |data| >= 2
  {
    2 + ExtendedBytes(Low7(data[1]))
  }

  /** Where the payload starts: after the masking key when the MASK bit is set */
  function PayloadStart(data: seq<byte>): nat
    requires |data| >= 2
  {
    KeyStart(data) + (if HighBit(data[1]) then 4 else 0)
  }

  /** A final, unmasked frame with the given opcode, as servers send it (section 5.1) */
  function ServerFrame(opcode: byte, payload: seq<byte>): seq<byte>
    requires opcode < 16 && |payload| < MaxPayload
  {
    [SetHighBit(opcode), LengthCode(|payload|)] + ExtendedLength(|payload|) + payload
  }

  /** A final frame masked with the given key, as clients send it (section 5.3) */
  function ClientFrame(opcode: byte, payload: seq<byte>, key: seq<byte>): seq<byte>
    requires opcode < 16 && |payload| < MaxPayload && |key| == 4
  {
    [SetHighBit(opcode), SetHighBit(LengthCode(|payload|))] + ExtendedLength(|payload|)
      + key + Mask(payload, key)
  }
}
