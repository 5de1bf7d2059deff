/**
 * WebSocketConnection of the Rust library (source/src/server.rs): a stream on which the
 * opening handshake has succeeded, reading frames as messages and sending messages as
 * frames. Its stream is modelled as the Reader it reads from and the endpoint of the
 * Wire it writes to.
 */
module RustServer {
  import opened Bytes
  import opened Wrappers
  import opened Rfc6455
  import opened Transport
  import Utf8
  import T = RustTypes
  import F = RustFrame
  import H = RustHandshake

  /** The message read_message makes of a frame: text must be valid UTF-8, a close frame's
      payload is dropped, and a continuation frame is refused */
  function FrameToMessage(f: F.WebSocketFrame): (r: Result<T.WebSocketMessage, T.WebSocketError>)
    ensures r.Failure? <==> f.opcode == F.Continuation || (f.opcode == F.Text && Utf8.Decode(f.payload).None?)
    ensures r.Failure? ==> r.error == T.InvalidFrame
  {
    if f.opcode.Text? then
      match Utf8.Decode(f.payload)
      case None => Failure(T.InvalidFrame)
      case Some(text) => Success(T.Text(text))
    else if f.opcode.Binary? then Success(T.Binary(f.payload))
    else if f.opcode.Ping? then Success(T.Ping(f.payload))
    else if f.opcode.Pong? then Success(T.Pong(f.payload))
    else if f.opcode.Close? then Success(T.Close)
    else Failure(T.InvalidFrame)
  }

  /** The frame send_message makes of a message */
  function MessageToFrame(m: T.WebSocketMessage): (f: F.WebSocketFrame)
    ensures f.opcode != F.Continuation
    ensures m.Close? <==> f.opcode == F.Close
    ensures f.opcode == F.Close ==> f.payload == []
    ensures !m.Text? && !m.Close? ==> f.payload == m.data
  {
    match m
    case Text(text) => F.WebSocketFrame(F.Text, Utf8.Encode(text))
    case Binary(data) => F.WebSocketFrame(F.Binary, data)
    case Ping(data) => F.WebSocketFrame(F.Ping, data)
    case Pong(data) => F.WebSocketFrame(F.Pong, data)
    case Close => F.WebSocketFrame(F.Close, [])
  }

  /** Every message survives the trip through its frame */
  lemma MessageRoundTrip(m: T.WebSocketMessage)
    ensures FrameToMessage(MessageToFrame(m)) == Success(m)
  {
    if m.Text? {
      Utf8.DecodeEncode(m.text);
    }
  }

  /** A frame that reads as a message is the frame of that message, except that a close
      frame loses its payload */
  lemma FrameRoundTrip(f: F.WebSocketFrame)
    requires FrameToMessage(f).Success?
    ensures MessageToFrame(FrameToMessage(f).value)
         == if f.opcode == F.Close then F.WebSocketFrame(F.Close, []) else f
  {
    if f.opcode == F.Text {
      Utf8.EncodeDecode(f.payload);
    }
  }

  /** The pieces send_message writes for a message, in order */
  function MessageChunks(m: T.WebSocketMessage): seq<seq<byte>>
    requires |MessageToFrame(m).payload| < MaxPayload
  {
    F.FrameChunks(MessageToFrame(m))
  }

  /** The bytes send_message puts on the stream for a message */
  function MessageBytes(m: T.WebSocketMessage): seq<byte>
    requires |MessageToFrame(m).payload| < MaxPayload
  {
    F.Flatten(MessageChunks(m))
  }

  /** What one peer sends the other reads back: the message's bytes, followed by anything,
      read as exactly one frame that reads as the same message */
  lemma SendThenRead(m: T.WebSocketMessage, rest: seq<byte>)
    requires |MessageToFrame(m).payload| < MaxPayload
    ensures var p := F.ParseSpec(MessageBytes(m) + rest);
      p.consumed == |MessageBytes(m)| && p.result.Success? && FrameToMessage(p.result.value) == Success(m)
  {
    F.ParseConstructed(MessageToFrame(m), rest);
    MessageRoundTrip(m);
  }

  class WebSocketConnection {
    const stream: Reader
    const wire: Wire
    const id: Endpoint

    constructor (stream: Reader, wire: Wire, id: Endpoint)
      ensures this.stream == stream && this.wire == wire && this.id == id
    {
      this.stream := stream;
      this.wire := wire;
      this.id := id;
    }

    /** WebSocketConnection::new: a connection exactly when the handshake succeeds, its
        error otherwise; got is how many bytes the handshake's one read returns */
    static method New(stream: Reader, wire: Wire, id: Endpoint, crypto: Crypto, got: nat)
      returns (r: Result<WebSocketConnection, T.WebSocketError>)
      requires stream.Valid()
      requires got <= 1024 && got <= |stream.Remaining()| && (got == 0 ==> stream.Remaining() == [])
      modifies stream, wire
      ensures stream.Valid() && stream.data == old(stream.data) && wire.down == old(wire.down)
      ensures stream.pos == old(stream.pos) + got
      ensures var reply := H.Reply(crypto, old(stream.Remaining())[..got]);
        && (reply.None? ==>
              r == Failure(T.Handshake(T.InvalidKey(H.MissingKeyMessage))) && wire.log == old(wire.log))
        && (reply.Some? && id in wire.down ==> r == Failure(T.Io(BrokenPipe)) && wire.log == old(wire.log))
        && (reply.Some? && id !in wire.down ==>
              r.Success? && fresh(r.value) && r.value.stream == stream && r.value.wire == wire && r.value.id == id
              && wire.log == old(wire.log) + [Wrote(id, Utf8.Encode(reply.value))])
    {
      var handshake := H.PerformHandshake(stream, wire, id, crypto, got);
      if handshake.Fail? {
        return Failure(handshake.error);
      }
      var conn := new WebSocketConnection(stream, wire, id);
      r := Success(conn);
    }

    /** read_message: parse one frame, then turn it into a message */
    method ReadMessage() returns (r: Result<T.WebSocketMessage, T.WebSocketError>)
      requires stream.Valid()
      modifies stream
      ensures stream.Valid() && stream.data == old(stream.data)
      ensures var p := F.ParseSpec(old(stream.Remaining()));
        stream.pos == old(stream.pos) + p.consumed &&
        r == if p.result.Success? then FrameToMessage(p.result.value) else Failure(p.result.error)
    {
      var frame := F.ParseFrame(stream);
      if frame.Failure? {
        return Failure(frame.error);
      }
      r := FrameToMessage(frame.value);
    }

    /** send_message: frame the message and write the frame */
    method SendMessage(m: T.WebSocketMessage) returns (r: Outcome<T.WebSocketError>)
      requires |MessageToFrame(m).payload| < MaxPayload
      modifies wire
      ensures wire.down == old(wire.down)
      ensures id in wire.down ==> r == Fail(T.Io(BrokenPipe)) && wire.log == old(wire.log)
      ensures id !in wire.down ==>
        r == Pass && wire.log == old(wire.log) + F.Writes(id, MessageChunks(m))
    {
      var frame := MessageToFrame(m);
      r := F.ConstructFrame(wire, id, frame);
    }
  }
}
