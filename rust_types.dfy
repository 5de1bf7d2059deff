/**
 * The value types the Rust library declares in source/src/lib.rs and handshake.rs:
 * the messages an application exchanges, the library's error type and the handshake
 * error with its Display text.
 */
module RustTypes {
  import opened Bytes
  import Transport

  /** An application-level message (lib.rs WebSocketMessage) */
  datatype WebSocketMessage =
    | Text(text: string)
    | Binary(data: seq<byte>)
    | Ping(data: seq<byte>)
    | Pong(data: seq<byte>)
    | Close

  /** handshake.rs HandshakeError */
  datatype HandshakeError = MissingKey | InvalidKey(msg: string)

  /** lib.rs WebSocketError; its `From` conversions are the constructors Io and Handshake */
  datatype WebSocketError =
    | Io(io: Transport.IoError)
    | Handshake(handshake: HandshakeError)
    | InvalidFrame

  const MissingKeyText: string := "Missing Sec-WebSocket-Key header"
  const InvalidKeyPrefix: string := "Invalid Sec-WebSocket-Key: "

  /** The `Display` text of a handshake error */
  function Display(e: HandshakeError): (r: string)
    ensures e.MissingKey? ==> r == MissingKeyText
    ensures e.InvalidKey? ==>
      |r| == |InvalidKeyPrefix| + |e.msg| && r[..|InvalidKeyPrefix|] == InvalidKeyPrefix && r[|InvalidKeyPrefix|..] == e.msg
  {
    match e
    case MissingKey => MissingKeyText
    case InvalidKey(msg) => InvalidKeyPrefix + msg
  }

  /** The message of an InvalidKey can be read back from its text, and the text of
      MissingKey is the text of no InvalidKey: Display loses nothing */
  lemma DisplayInjective(a: HandshakeError, b: HandshakeError)
    ensures Display(a) == Display(b) <==> a == b
  {
    if a != b {
      if a.InvalidKey? && b.InvalidKey? {
        assert Display(a)[|InvalidKeyPrefix|..] == a.msg;
        assert Display(b)[|InvalidKeyPrefix|..] == b.msg;
      } else if a.InvalidKey? || b.InvalidKey? {
        assert Display(a)[0] != Display(b)[0];
      }
    }
  }
}
