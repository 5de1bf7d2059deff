# arachne.ws WebSocket core in Dafny

This project models the protocol logic of arachne.ws, which contains two hand-written RFC 6455 WebSocket engines, and proves properties of that model.

- **Node/TypeScript server** (`server/index.ts`, `server/connection.ts`) and its WebAssembly frame decoder (`server/rust/handle_websocket_frame/src/lib.rs`).
  - The server answers the opening handshake, keeps a registry of connections and decodes incoming frames.
  - It dispatches close and text frames.
  - A connection sends text frames and broadcasts to the registry.
- **Rust library** (`source/src/*.rs`).
  - Opcode validation, and a stream-based frame parser and writer.
  - The handshake: key extraction, the accept key and the response text.
  - The mapping between frames and messages.
  - A registry of connections that is pruned and broadcast to.

## Modules

| module | file | content |
|---|---|---|
| `Wrappers` | wrappers.dfy | `Option`, `Result`, `Outcome` |
| `Bytes` | bytes.dfy | bytes; XOR; nibble, mask and length-bit extraction; big-endian numbers; the RFC 6455 section 5.3 masking function `Mask` |
| `Utf8` | utf8.dfy | UTF-8 encoding, strict decoding (Rust `String::from_utf8`) and lossy decoding (Rust `from_utf8_lossy`, Node `toString('utf-8')`) |
| `Rfc6455` | rfc6455.dfy | the GUID, the accept-key input, the `101 Switching Protocols` head, the payload-length tiers; reference `ServerFrame`/`ClientFrame` layouts |
| `Transport` | transport.dfy | `Wire`, an output log of socket writes/ends shared by all endpoints; `Reader`, an input byte sequence with a cursor |
| `NodeFrames` | node_frames.dfy | `handleWebSocketFrame`'s decoding, `unmaskPayload` in place, `Connection.send`'s frame building |
| `WasmDecoder` | wasm_decoder.dfy | `handle_websocket_frame` |
| `NodeServer` | node_server.dfy | the Node `Server` (registry, event handlers, upgrade, frame dispatch) and `Connection` (`on`, `send`, `broadcast`) |
| `RustTypes` | rust_types.dfy | `WebSocketMessage`, `WebSocketError`, `HandshakeError` and its `Display` |
| `RustFrame` | rust_frame.dfy | `OpCode::try_from`, `parse_frame` over a `Reader`, `construct_frame` onto a `Wire` |
| `RustHandshake` | rust_handshake.dfy | `extract_websocket_key`, `generate_accept_key`, `perform_handshake` |
| `RustServer` | rust_server.dfy | `WebSocketConnection` with `new`, `read_message`, `send_message` |
| `RustConnectionManager` | rust_connection_manager.dfy | `ConnectionManager` with `new`, `add_connection`, `cleanup_closed_connections`, `broadcast_message` |
| `EngineAgreement` | engine_agreement.dfy | the two engines' accept keys, and the Node/WASM decoders against the Rust parser |

Each decoder and writer is an imperative method proved against a specification function:
- `Decode32` for the Node and WASM decoders;
- `ParseSpec` for `parse_frame`;
- `TextFrame` and `FrameChunks` for the writers.

The lemmas then relate those functions to each other and to the RFC 6455 reference layouts. The main results:
- Decoding a frame written by either engine gives back the opcode and the payload.
- A masked client frame decodes to its clear payload.
- A truncated frame fails to decode.
- `parse_frame` consumes exactly one frame and does not look past it.
- Whenever `parse_frame` succeeds on a frame whose 64-bit length has zero high bytes, the Node and WASM decoders return the same opcode and payload. This follows from `DecodeFrame` and `HandleWebSocketFrame` computing the same `Decode32`, plus `EngineAgreement.ParseAgreesWithDecode32`. The converse does not hold: the Node and WASM decoders also accept the opcodes 0x3-0x7 and 0xB-0xF, which `parse_frame` rejects.
- Both engines compute the same accept key for every key.
- Rust messages survive the trip through their frames.
- Both broadcasts deliver exactly one copy of the frame to each intended member and nothing to anyone else.

Two behaviours of the code are modelled as written, although RFC 6455 asks for something else:
- **Lossy UTF-8 on Node text frames.** The Node server decodes text frames with lossy UTF-8 (`server/index.ts:123`), so invalid bytes become U+FFFD. Section 8.1 of RFC 6455 asks for the connection to be failed instead.
- **32-bit length truncation.** The Node and WASM decoders keep only the low 32 bits of a 64-bit length (`server/index.ts:93`, `server/rust/handle_websocket_frame/src/lib.rs:19-24`). The code's own comments say so: `server/index.ts:92` assumes the length fits in 32 bits, and `server/connection.ts:56` writes the high word as zero. Section 5.2 of RFC 6455 gives the 64-bit length in full.
  - `NodeFrames.DecodeKeepsLowWord` states the result.
  - `EngineAgreement.DecodersDisagree` exhibits a frame on which the Node decoders and the Rust parser part ways.

## Model

| member | source | states |
|---|---|---|
| Bytes.BE16 | source/src/frame.rs:114 | the two bytes `u16::to_be_bytes` gives read back, big-endian, as the length |
| Bytes.BE32 | server/connection.ts:56-57 | the four bytes `writeUInt32BE` writes read back, big-endian, as the value |
| Bytes.BE64 | source/src/frame.rs:119 | the eight bytes `u64::to_be_bytes` gives read back, big-endian, as the length |
| Bytes.Halves | server/index.ts:93 | the last four bytes of an 8-byte big-endian length are its value mod 2^32, the first four its quotient by 2^32 |
| Bytes.KeyIndexIsMod | server/index.ts:147 | the key index used by the masking function is `i % 4` |
| Bytes.XorInvolution | server/index.ts:139-147 | XORing a byte twice with the same key byte restores it |
| Bytes.MaskInvolution | server/index.ts:131-149 | unmasking twice with the same key restores the payload (section 5.3 of RFC 6455) |
| Utf8.DecodeStepEncodeChar | source/src/server.rs:56 | the strict decoder reads the encoding of a character back as exactly that character, whatever follows |
| Utf8.DecodeStep | source/src/server.rs:56 | one decoding step takes one to four bytes, never more than there are |
| Utf8.DecodeLossy | source/src/handshake.rs:14 | the lossy decoder gives at most one character per byte, and gives text exactly when there are bytes |
| Utf8.EncodeAscii | server/index.ts:34 | text made of ASCII characters encodes to their byte values, one byte each |
| Utf8.DecodeEncode | source/src/server.rs:56 | strictly decoding (`Decode`) the UTF-8 encoding (`Encode`, `String::into_bytes`) of any string succeeds and returns that string |
| Utf8.EncodeDecode | source/src/server.rs:81 | every byte sequence the strict decoder `Decode` accepts is the `Encode` encoding of the text it returns |
| Utf8.LossyAgrees | source/src/handshake.rs:14 | on valid UTF-8 the lossy decoder returns exactly what the strict decoder returns |
| Rfc6455.LengthCode | source/src/frame.rs:109-122 | the 7-bit length field is a value below 0x80 |
| Rfc6455.ExtendedLength | source/src/frame.rs:109-122 | the extended length has 0, 2 or 8 bytes for lengths up to 125, up to 65535, and above |
| Transport.Wire.Write | server/connection.ts:37 | a socket write appends exactly one write event for that endpoint to the log |
| Transport.Wire.End | server/index.ts:116 | ending a socket appends exactly one end event to the log |
| Transport.Wire.WriteAll | source/src/frame.rs:111 | `write_all` to a broken endpoint fails with a broken pipe and writes nothing; otherwise it appends one write |
| Transport.Reader.ReadExact | source/src/frame.rs:61 | `read_exact` of n bytes returns the next n bytes and advances by n, or fails with unexpected EOF when fewer remain |
| Transport.Reader.Read | source/src/handshake.rs:13 | one read returns the next `got` bytes and advances past them; `got`, chosen by the peer and the network, is at most the buffer size and the bytes available, and is 0 only at end of input or for an empty buffer |
| Transport.ReceivedAppend | server/connection.ts:63-68 | what an endpoint receives from two logs in sequence is what it receives from each, concatenated |
| NodeFrames.UnmaskPayload | server/index.ts:131-149 | after the four-byte-unrolled loop and the tail loop, the array is the masked payload: byte i XOR key[i mod 4], length unchanged |
| NodeFrames.XorWord | server/index.ts:139-142 | one pass of the unrolled loop extends the masked prefix by the four bytes from a multiple of four |
| NodeFrames.XorByte | server/index.ts:147 | one pass of the remainder loop extends the masked prefix by one byte, XORed with `key[i % 4]` |
| NodeFrames.DecodeFrame | server/index.ts:79-110 | returns exactly `Decode32(data)`: the low nibble as opcode, the MASK bit, the 7/16/64-bit length (low 32 bits), the key, the unmasked payload; a failure when the bytes run short |
| NodeFrames.DecodeBody | server/index.ts:97-110 | reading the key at the current offset and the payload after it completes `Decode32(data)` |
| NodeFrames.BuildFrame | server/connection.ts:28-59 | for a payload under 2^32 bytes the buffer is `TextFrame(payload)`; longer payloads give no frame |
| NodeFrames.CopyInto | server/connection.ts:36 | `Buffer.copy` puts the source bytes at the offset and leaves every other byte of the buffer as it was |
| NodeFrames.WriteBE | server/connection.ts:46-57 | `writeUInt16BE`/`writeUInt32BE` put the big-endian bytes at the offset and leave every other byte as it was |
| NodeFrames.TextFrameLayout | server/connection.ts:32-59 | of `TextFrame`: byte 0 is 0x81 with no MASK bit; for n ≤ 125, ≤ 65535 and above, the frame is 2+n, 4+n or 10+n bytes, with the length in byte 1, in bytes 2..3, or as zero bytes 2..5 and big-endian bytes 6..9; the payload is copied unchanged |
| NodeFrames.TextFrameIsServerFrame | server/connection.ts:26-60 | the frame `send` builds is the RFC 6455 unmasked final text frame of the payload |
| NodeFrames.Length32OfHeader | server/index.ts:88-95 | for a header written with the length tiers, the decoder's length is the written length mod 2^32 and the extension is the size the tier uses |
| NodeFrames.DecodeLayout | server/index.ts:79-110 | the specification `Decode32`: a frame laid out as header, extended length, optional key, body and trailing bytes decodes to the opcode and the body, unmasked when the MASK bit is set |
| NodeFrames.DecodeServerFrame | server/index.ts:79-110 | an unmasked frame with a payload under 2^32 bytes decodes to its opcode and payload, whatever follows it |
| NodeFrames.DecodeClientFrame | server/index.ts:79-110 | a masked client frame decodes to its opcode and the clear payload |
| NodeFrames.DecodeKeepsLowWord | server/index.ts:91-95 | a frame of 2^32 or more payload bytes decodes to only the first `length mod 2^32` bytes |
| NodeFrames.SendThenDecode | server/connection.ts:26-60 | decoding the frame `send(m)` builds gives opcode 1 and exactly m's UTF-8 bytes, and the lossy text decoding gives m back |
| NodeFrames.TruncatedFrameFails | server/index.ts:98-105 | every proper prefix of any frame layout fails to decode: header, extended length for any length tier, a key when the MASK bit is set, and the body |
| NodeFrames.TruncatedClientFrameFails | server/index.ts:98-105 | every proper prefix of a masked client frame fails to decode |
| NodeFrames.TruncatedServerFrameFails | server/index.ts:98-105 | every proper prefix of an unmasked server frame fails to decode |
| WasmDecoder.HandleWebSocketFrame | server/rust/handle_websocket_frame/src/lib.rs:5-57 | returns exactly `Decode32(data)`, the same opcode and payload as the Node decoder, and a failure where the slice would panic |
| WasmDecoder.DecodeBody | server/rust/handle_websocket_frame/src/lib.rs:28-49 | reading the optional key, then copying or unmasking the slice, completes `Decode32(data)` |
| WasmDecoder.FillPayload | server/rust/handle_websocket_frame/src/lib.rs:41-49 | with a key the output is the masked slice, byte i XOR key[i % 4]; without one it is the slice itself |
| NodeServer.Server.constructor | server/index.ts:12-14 | a server starts with no handlers and no connections |
| NodeServer.Server.On | server/index.ts:151-153 | `on` replaces the handler for that event only and changes nothing else |
| NodeServer.Server.HandleUpgrade | server/index.ts:30-58 | without a key (`HasKey` false: missing or empty) it writes exactly `HTTP/1.1 400 Bad Request\r\n\r\n`, ends the socket and adds nothing; with a key it writes the 101 response for the accept key, appends one fresh connection and calls the connection handler if one is registered |
| NodeServer.Server.Accept | server/index.ts:39-58 | the success path of the upgrade: one response write, one new registry entry, one handler call |
| NodeServer.Server.HandleClose | server/index.ts:68-70 | the socket's close event removes the connection from the registry |
| NodeServer.Server.HandleWebSocketFrame | server/index.ts:79-129 | on a frame that fails to decode nothing changes; opcode 8 ends the socket and removes the connection; opcode 1 calls the message handler with the payload text, if one is registered; any other opcode has no effect |
| NodeServer.Connection.constructor | server/connection.ts:16-20 | a connection records its id, socket and server and has no handlers |
| NodeServer.Connection.On | server/connection.ts:22-24 | `on` replaces the handler for that event only |
| NodeServer.Connection.Send | server/connection.ts:26-60 | one socket write carrying `TextFrame` of the message's UTF-8 bytes; a message of 2^32 or more bytes fails with nothing written |
| NodeServer.Connection.Broadcast | server/connection.ts:63-68 | visits the registry in order, skipping itself unless asked to include it, and sends on every other entry |
| NodeServer.RemoveMembers | server/index.ts:69 | after `Set.delete` (`Remove`) the members are exactly the old members other than that connection |
| NodeServer.RemoveKeepsValid | server/index.ts:117 | deleting keeps the registry duplicate-free and owned by the server |
| NodeServer.RemoveAbsent | server/index.ts:69 | deleting a connection that is not a member changes nothing |
| NodeServer.RemoveIdempotent | server/index.ts:117 | deleting twice, once by the close frame and once by the close event, is deleting once |
| NodeServer.AcceptKeyInput | server/index.ts:73-77 | `GenerateAcceptKey` is base64 of SHA-1 of the key followed by the RFC 6455 GUID, the accept value of section 4.2.2 of RFC 6455 |
| NodeServer.BadRequestIsText | server/index.ts:33-34 | the refusal written without a key is the ASCII text `HTTP/1.1 400 Bad Request\r\n\r\n` |
| NodeServer.JoinIsHttpHead | server/index.ts:40-46 | `Join` (`Array.prototype.join`): joining the lines and a final CRLF element with CRLF gives each line ended by CRLF, then an empty line |
| NodeServer.UpgradeResponseIsRfc | server/index.ts:40-46 | `UpgradeResponse`, the response, is, in order, status line, `Upgrade`, `Connection` and `Sec-WebSocket-Accept` lines, each ended by CRLF, then an empty line |
| NodeServer.BroadcastCount | server/connection.ts:63-68 | the number of writes an endpoint gets is the number of visited entries for it that are not skipped |
| NodeServer.BroadcastBytes | server/connection.ts:63-68 | an endpoint receives the frame once per visited entry for it that is not skipped |
| NodeServer.BroadcastToOutsider | server/connection.ts:63-68 | an endpoint with no registry entry receives no write |
| NodeServer.BroadcastToMember | server/connection.ts:63-68 | with one entry per socket, each member gets exactly one write of the frame, except the sender when it is skipped |
| NodeServer.BroadcastSize | server/connection.ts:63-68 | a broadcast writes once per member, less one when the sender is a member and is excluded |
| RustTypes.Display | source/src/handshake.rs:58-65 | `MissingKey` displays as `Missing Sec-WebSocket-Key header`; `InvalidKey(msg)` as the prefix `Invalid Sec-WebSocket-Key: ` followed by exactly msg |
| RustTypes.DisplayInjective | source/src/handshake.rs:58-65 | two handshake errors display the same exactly when they are the same error |
| RustFrame.OpCode.Value | source/src/frame.rs:33-40 | each opcode's discriminant fits in the 4-bit opcode field |
| RustFrame.TryFrom | source/src/frame.rs:42-56 | accepts exactly 0x0, 0x1, 0x2, 0x8, 0x9 and 0xA, as the opcode with that value; every other value gives `InvalidFrame` |
| RustFrame.TryFromValue | source/src/frame.rs:42-56 | every opcode's value converts back to that opcode |
| RustFrame.ParseSpec | source/src/frame.rs:59-100 | never consumes more than the input; a frame is returned only after consuming its whole header, key and payload |
| RustFrame.ParseFrame | source/src/frame.rs:59-100 | returns exactly `ParseSpec` of the unread input and advances the cursor by what it consumes |
| RustFrame.ReadBody | source/src/frame.rs:79-99 | with the rest of the frame present, returns the opcode and the (unmasked) payload and stops right after it; otherwise fails with unexpected EOF at end of input |
| RustFrame.Take | source/src/frame.rs:61 | `read_exact` into a buffer within the frame: the next n frame bytes, or unexpected EOF |
| RustFrame.ReadLength | source/src/frame.rs:66-77 | reads the 2- or 8-byte extended length as a big-endian number, leaving the cursor at the key; fails with unexpected EOF when it is cut short |
| RustFrame.UnmaskInPlace | source/src/frame.rs:93-97 | the loop leaves the payload masked with the key: byte i XOR key[i % 4] |
| RustFrame.FrameChunks | source/src/frame.rs:103-127 | the pieces `construct_frame` writes make up the RFC 6455 unmasked final frame of the opcode and payload |
| RustFrame.ConstructFrame | source/src/frame.rs:103-129 | to a broken endpoint it fails with a broken pipe and writes nothing; otherwise it writes header, extended length and payload in that order |
| RustFrame.ConstructDelivers | source/src/frame.rs:103-129 | the target receives exactly the frame's bytes and every other endpoint nothing |
| RustFrame.Length64OfHeader | source/src/frame.rs:69-77 | for a header written with the length tiers, the parser reads back exactly the written length |
| RustFrame.ParseLayout | source/src/frame.rs:59-100 | a frame laid out as header, extended length, optional key, body and trailing bytes parses to its opcode and body, unmasked when the MASK bit is set, consuming exactly the frame |
| RustFrame.ParseConstructed | source/src/frame.rs:59-129 | parsing what `construct_frame` wrote returns the same frame and consumes exactly its bytes, whatever follows |
| RustFrame.ParseClientFrame | source/src/frame.rs:80-97 | a masked client frame parses to its opcode and clear payload |
| RustFrame.ParseStopsAtBadOpcode | source/src/frame.rs:60-64 | an unknown opcode fails with `InvalidFrame` after reading only the 2-byte header |
| RustFrame.ParseExtends | source/src/frame.rs:59-100 | bytes after a complete frame do not change its parse |
| RustFrame.ParseTruncated | source/src/frame.rs:61-90 | a frame cut anywhere before its end fails with unexpected EOF after consuming all that was there |
| RustHandshake.FirstKeyLine | source/src/handshake.rs:37-38 | finds the first line starting with `Sec-WebSocket-Key:`, and none exactly when no line does |
| RustHandshake.SkipWhitespace | source/src/handshake.rs:39 | drops exactly the leading whitespace |
| RustHandshake.TokenEnd | source/src/handshake.rs:39 | a token runs up to the first whitespace character |
| RustHandshake.SplitWhitespace | source/src/handshake.rs:39 | `split_whitespace` yields non-empty tokens without whitespace |
| RustHandshake.Trim | source/src/handshake.rs:40 | trimming a token without whitespace leaves it unchanged |
| RustHandshake.ExtractWebSocketKey | source/src/handshake.rs:35-41 | an extracted key is non-empty and contains no whitespace |
| RustHandshake.ExtractUsesFirstKeyLine | source/src/handshake.rs:36-40 | only the first key line counts: the key is its second whitespace-separated token, and there is none if it has fewer than two |
| RustHandshake.ExtractWithoutKeyLine | source/src/handshake.rs:36-38 | without a line starting with the case-sensitive header name there is no key |
| RustHandshake.ExtractKeyLine | source/src/handshake.rs:35-41 | a request whose first line is `Sec-WebSocket-Key: <key>` yields that key |
| RustHandshake.NoSpaceAfterColon | source/src/handshake.rs:39 | `Sec-WebSocket-Key:abc`, with no space after the colon, yields no key |
| RustHandshake.NewlineAt | source/src/handshake.rs:37 | the position of the first newline, or the length when there is none |
| RustHandshake.StripCr | source/src/handshake.rs:37 | a line loses at most one trailing CR and nothing else |
| RustHandshake.Lines | source/src/handshake.rs:37 | `str::lines` gives no line for empty text and at least one otherwise, and no line holds a newline |
| RustHandshake.LinesOfHttpHead | source/src/handshake.rs:37 | an HTTP head of CRLF-terminated lines, then an empty line, splits back into those lines and one empty line |
| RustHandshake.SingleLine | source/src/handshake.rs:37 | text without a newline is one line |
| RustHandshake.FirstLine | source/src/handshake.rs:37 | a CRLF-terminated first line is split off without its CR |
| RustHandshake.SplitTwo | source/src/handshake.rs:39 | two tokens separated by a space split into exactly those two |
| RustHandshake.PerformHandshake | source/src/handshake.rs:8-32 | reads once, exactly the `got` bytes the peer delivered into a 1024-byte buffer; without a key among them it fails with `InvalidKey("Missing or invalid Sec-WebSocket-Key")` and writes nothing; otherwise it writes the 101 response for that key in one write, or fails with a broken pipe |
| RustHandshake.Answer | source/src/handshake.rs:14-31 | without a key it fails with `InvalidKey("Missing or invalid Sec-WebSocket-Key")` and writes nothing; otherwise it writes the response in one write, or fails with a broken pipe |
| RustHandshake.WriteResponse | source/src/handshake.rs:30 | `write_all` of the response's UTF-8 bytes: one write to a live endpoint, or a broken pipe wrapped as `Io` and nothing written |
| RustHandshake.ResponseIsRfc | source/src/handshake.rs:22-28 | `Response`, the response text, is exactly the four-line 101 head with CRLFs, the continuation lines' indentation dropped |
| RustHandshake.ReplyIsRfc | source/src/handshake.rs:12-28 | `Reply`: a reply exists exactly when the lossily decoded request has a key, and is then the 101 head for that key's accept value |
| RustServer.FrameToMessage | source/src/server.rs:53-73 | fails, with `InvalidFrame`, exactly on a continuation frame or a text frame that is not valid UTF-8 |
| RustServer.MessageToFrame | source/src/server.rs:78-99 | `send_message` never makes a continuation frame; it makes a close frame, with an empty payload, exactly for `Close`; binary, ping and pong frames carry the message's data |
| RustServer.MessageRoundTrip | source/src/server.rs:52-102 | `read_message` of the frame `send_message(m)` makes returns m |
| RustServer.FrameRoundTrip | source/src/server.rs:52-99 | a frame that reads as a message is the frame of that message, except that a close frame loses its payload |
| RustServer.SendThenRead | source/src/server.rs:52-102 | the bytes `send_message(m)` writes, followed by anything, are read as exactly one frame that reads as m |
| RustServer.WebSocketConnection.New | source/src/server.rs:45-49 | the handshake reads the `got` bytes the peer delivered; a connection exists exactly when the handshake succeeds; otherwise the handshake's error is returned |
| RustServer.WebSocketConnection.ReadMessage | source/src/server.rs:52-74 | parses one frame from the stream and maps it, or returns the parse error |
| RustServer.WebSocketConnection.SendMessage | source/src/server.rs:77-102 | writes the pieces of the message's frame to its endpoint, or fails with a broken pipe and writes nothing |
| RustConnectionManager.Retained | source/src/connection_manager.rs:24 | `retain` never grows the list |
| RustConnectionManager.RetainedMember | source/src/connection_manager.rs:24 | an entry is kept exactly when it was registered and is not closed |
| RustConnectionManager.RetainedAppend | source/src/connection_manager.rs:24 | retaining distributes over concatenation, so kept entries keep their relative order |
| RustConnectionManager.RetainedIdempotent | source/src/connection_manager.rs:23-25 | cleaning up twice with the same closed connections is cleaning up once |
| RustConnectionManager.BroadcastDelivers | source/src/connection_manager.rs:28-39 | an endpoint receives nothing if it is down, and otherwise one copy of the frame per registry entry for it |
| RustConnectionManager.BroadcastReachesEach | source/src/connection_manager.rs:33-38 | with one entry per endpoint, every entry not down receives exactly the message's bytes, however many others fail |
| RustConnectionManager.BroadcastMissesOutsider | source/src/connection_manager.rs:33-38 | an endpoint without an entry receives nothing |
| RustConnectionManager.ConnectionManager.constructor | source/src/connection_manager.rs:11-15 | a new manager has an empty registry |
| RustConnectionManager.ConnectionManager.AddConnection | source/src/connection_manager.rs:18-20 | the new connection goes last and the others stay as they were |
| RustConnectionManager.ConnectionManager.CleanupClosedConnections | source/src/connection_manager.rs:23-25 | the registry becomes the entries that are not closed, in order |
| RustConnectionManager.ConnectionManager.BroadcastMessage | source/src/connection_manager.rs:28-39 | sends once per entry in registry order; a failed send writes nothing and the loop goes on; the registry is unchanged |
| EngineAgreement.ParseAgreesWithDecode32 | source/src/frame.rs:69-77 | whenever `parse_frame` succeeds and its 64-bit length has zero high bytes, the Node decoders return the same opcode and payload |
| EngineAgreement.AcceptKeysAgree | source/src/handshake.rs:44-49 | `generate_accept_key`, which hashes the key's bytes and then the GUID's, gives the same accept key as the Node `generateAcceptKey`, which hashes the bytes of the key and GUID joined |
| EngineAgreement.DecodersDisagree | server/index.ts:91-95 | a header announcing 2^32 bytes decodes in Node as an empty binary message; `parse_frame` fails with unexpected EOF |

## Left out

- SHA-1 and base64 (`crypto.createHash`, and the `sha1` and `base64` crates) are foreign libraries. They enter as the function parameters of `Rfc6455.Crypto`. The model states only that their input is the key followed by the GUID.
- Sockets, streams and the network become `Transport.Reader` (input with a cursor) and `Transport.Wire` (a log of writes and ends; a set of endpoints whose writes fail).
- How many bytes one `read` returns depends on the peer and the network. It is the parameter `got` of `Reader.Read`, `PerformHandshake` and `WebSocketConnection.New`, bounded as `read` bounds it.
- Read errors other than end of input are not modelled, and neither is a `write_all` that fails after writing part of its bytes. An endpoint is either up or down for a whole call.
- `TcpListener::bind` and `incoming` (`source/src/server.rs:11-35`), the `WebSocket` wrapper in `source/src/lib.rs:19-38`, and Node's `http` `upgrade` wiring (`server/index.ts:16-28`) are left out because they are transport glue. The `socket.on('data')` and `socket.on('close')` subscriptions become the methods `HandleWebSocketFrame` and `HandleClose`.
- `generateId` uses the clock and randomness. The connection id is a parameter.
- Locks (`Arc`, `Mutex`) are left out, because the registry is modelled sequentially.
- `is_closed` is not defined in the library. Which connections are closed is a parameter of `CleanupClosedConnections`.
- Logging (`console.log`, `console.time`, `println!`, `eprintln!`) is left out.
- The JS object built with `js_sys::Reflect`, and the `unwrap` on setting its fields, are left out. The WASM decoder returns the opcode and payload as a value.
- NodeFrames.DecodeFrame reads the key and payload relative to the frame bytes. Node's `new Uint8Array(data.buffer, offset, …)` ignores the Buffer's `byteOffset` inside a pooled allocation, so where the frame runs short Node may read unrelated pool bytes instead of throwing. The model returns `OutOfBounds` and changes nothing.
- NodeFrames.DecodeFrame on a chunk of fewer than 2 bytes returns `OutOfBounds`. In Node, `data[1]` is then `undefined`, whose masked bits read as 0, so the frame has no MASK bit and length 0. When the backing buffer holds at least 2 bytes, as a pooled Buffer does, the zero-length payload view succeeds. A one-byte chunk `0x88` then ends the socket and removes the connection, and a one-byte `0x81` calls the message handler with the empty string. The model does neither.
- HandleUpgrade: the `connection` handler (`server/index.ts:55-58`) is application code and its body is not run. The model appends its invocation to `calls`, and the stated post-state (registry, wire log, the new connection's empty `events`) leaves out whatever the handler would do synchronously, such as registering a `message` handler or sending.
- Accept: the same holds for the `connection` handler it invokes. The post-state it states excludes that handler's effects.
- HandleWebSocketFrame: the `message` handler (`server/index.ts:126-127`) is not run. Its invocation with the decoded text is appended to `calls`, and the stated post-state (registry, wire log) excludes the handler's own writes, broadcasts or registrations.
- NodeServer.Connection.Send: JavaScript strings may hold lone surrogates. Dafny strings cannot, so their replacement by U+FFFD during encoding is not modelled.
- NodeServer.Connection.Send models `writeUInt32BE` throwing on a length of 2^32 or more as a failure with nothing written.
- RustFrame.ParseFrame assumes a 64-bit `usize`. Its allocation of the payload buffer before reading is not modelled, so a huge declared length fails with end of input rather than exhausting memory.
- RustFrame.ConstructFrame requires the payload to be shorter than 2^64 bytes. A `Vec` cannot be longer on a 64-bit target.
- The Node registry `Set` is a duplicate-free sequence in insertion order, which is the `Set`'s iteration order.
- The `WebSocketError` variants are named `Io` and `Handshake`, next to the `IoError` and `HandshakeError` data they carry.
- `server/warmup.ts`, `server/options.ts`, `dev/index.ts` and `dev/src/main.rs` are demo and configuration code. They are not part of this model.
