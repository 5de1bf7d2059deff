/**
 * The Node server (server/index.ts) and its Connection objects (server/connection.ts).
 * The server answers upgrade requests, keeps the registry of live connections, decodes
 * each inbound chunk as one frame and dispatches on its opcode. A connection frames and
 * writes text messages and broadcasts them over the registry.
 *
 * Callbacks registered with `on` are application code; a handler is known here by an
 * identity, and each invocation the server makes is appended to the server's `calls`.
 * The registry `Set` is a duplicate-free sequence in insertion order, the order in which
 * a JavaScript Set is iterated.
 */
module NodeServer {
  import opened Bytes
  import opened Wrappers
  import opened Transport
  import opened Rfc6455
  import opened NodeFrames
  import Utf8

  /** The identity of an application callback */
  type Handler = nat

  /** One invocation of an application callback by the server */
  datatype Call = ConnectionCall(handler: Handler, conn: Connection) | MessageCall(handler: Handler, message: string)

  /** The RangeError writeUInt32BE throws for a payload of 2^32 bytes or more */
  datatype SendError = TooLong

  /** What socket.end writes to refuse an upgrade: the ASCII bytes of
      "HTTP/1.1 400 Bad Request" followed by CRLF CRLF */
  const BadRequestBytes: seq<byte> := [0x48, 0x54, 0x54, 0x50, 0x2F, 0x31, 0x2E, 0x31, 0x20, 0x34, 0x30, 0x30, 0x20, 0x42, 0x61, 0x64, 0x20, 0x52, 0x65, 0x71, 0x75, 0x65, 0x73, 0x74, 0x0D, 0x0A, 0x0D, 0x0A]

  /** The refusal is the ASCII text of the 400 response: status line and empty line */
  lemma BadRequestIsText()
    ensures BadRequestBytes == Utf8.Encode("HTTP/1.1 400 Bad Request\r\n\r\n")
  {
    Utf8.EncodeAscii("HTTP/1.1 400 Bad Request\r\n\r\n", BadRequestBytes);
  }

  /** The upgrade request carries a Sec-WebSocket-Key header whose value is not empty
      (the empty string is falsy, like a missing header) */
  predicate HasKey(headers: map<string, string>)
  {
    "sec-websocket-key" in headers && |headers["sec-websocket-key"]| > 0
  }

  /** Array.prototype.join */
  function Join(parts: seq<string>, sep: string): string
  {
    if parts == [] then "" else if |parts| == 1 then parts[0] else parts[0] + sep + Join(parts[1..], sep)
  }

  /** The response handleUpgrade writes: four lines and a final "\r\n", joined by CRLF */
  function UpgradeResponse(acceptKey: string): string
  {
    Join([
      "HTTP/1.1 101 Switching Protocols",
      "Upgrade: websocket",
      "Connection: Upgrade",
      "Sec-WebSocket-Accept: " + acceptKey,
      Crlf], Crlf)
  }

  /** generateAcceptKey: the hash is fed the UTF-8 bytes of the key followed by the GUID */
  function GenerateAcceptKey(crypto: Crypto, key: string): string
  {
    crypto.base64(crypto.sha1(Utf8.Encode(key + Guid)))
  }

  /** Set.prototype.delete on the registry */
  function Remove(s: seq<Connection>, c: Connection): seq<Connection>
  {
    if s == [] then [] else if s[0] == c then Remove(s[1..], c) else [s[0]] + Remove(s[1..], c)
  }

  ghost predicate Distinct(s: seq<Connection>)
  {
    forall i, j :: 0 <= i < j < |s| ==> s[i] != s[j]
  }

  /** Whether a broadcast from self, with includeSelf as given, skips member c */
  predicate Skips(c: Connection, self: Connection, includeSelf: bool)
  {
    !includeSelf && c == self
  }

  /** The writes a broadcast of frame from self makes while visiting the first n members
      of the registry s: one write to each member's socket in registry order, none for self
      unless includeSelf */
  function BroadcastWrites(s: seq<Connection>, n: nat, self: Connection, includeSelf: bool, frame: seq<byte>): seq<Event>
    requires n <= |s|
  {
    if n == 0 then []
    else
      BroadcastWrites(s, n - 1, self, includeSelf, frame) +
        (if Skips(s[n - 1], self, includeSelf) then [] else [Wrote(s[n - 1].socket, frame)])
  }

  /** The first n members of s are all skipped */
  predicate SkipsFirst(s: seq<Connection>, n: nat, self: Connection, includeSelf: bool)
    requires n <= |s|
  {
    forall k :: 0 <= k < n ==> Skips(s[k], self, includeSelf)
  }

  /** Every member of s belongs to server owner */
  ghost predicate Owned(s: seq<Connection>, owner: Server)
  {
    forall i :: 0 <= i < |s| ==> s[i].server == owner
  }

  class Server {
    var events: map<string, Handler>
    var connections: seq<Connection>
    var calls: seq<Call>
    const wire: Wire

    /** The registry holds each connection once, and only this server's connections */
    ghost predicate Valid()
      reads this
    {
      Distinct(connections) && Owned(connections, this)
    }

    constructor (wire: Wire)
      ensures Valid() && this.wire == wire
      ensures events == map[] && connections == [] && calls == []
    {
      this.wire := wire;
      events := map[];
      connections := [];
      calls := [];
    }

    /** Registers callback for event, replacing any earlier one for it */
    method On(event: string, callback: Handler)
      modifies this
      ensures events == old(events)[event := callback]
      ensures connections == old(connections) && calls == old(calls)
    {
      events := events[event := callback];
    }

    /** handleUpgrade. headers maps lower-cased header names to their values; id is the
        value generateId would produce. A missing or empty key is answered with 400 and
        the socket is ended; otherwise the 101 response is written, a new connection joins
        the registry and the 'connection' handler, if any, is called with it. */
    method HandleUpgrade(headers: map<string, string>, socket: Endpoint, id: string, crypto: Crypto)
      returns (conn: Option<Connection>)
      requires Valid()
      modifies this, wire
      ensures Valid() && events == old(events) && wire.down == old(wire.down)
      ensures !HasKey(headers) ==>
        conn.None? && connections == old(connections) && calls == old(calls) &&
        wire.log == old(wire.log) + [Wrote(socket, BadRequestBytes), Ended(socket)]
      ensures HasKey(headers) ==>
        conn.Some? && fresh(conn.value) &&
        conn.value.socket == socket && conn.value.id == id && conn.value.server == this &&
        conn.value.events == map[] &&
        wire.log == old(wire.log) +
          [Wrote(socket, Utf8.Encode(UpgradeResponse(GenerateAcceptKey(crypto, headers["sec-websocket-key"]))))] &&
        connections == old(connections) + [conn.value] &&
        calls == old(calls) + (if "connection" in events then [ConnectionCall(events["connection"], conn.value)] else [])
    {
      if !HasKey(headers) {
        wire.Write(socket, BadRequestBytes);
        wire.End(socket);
        return None;
      }
      var connection := Accept(headers["sec-websocket-key"], socket, id, crypto);
      conn := Some(connection);
    }

    /** The success path of handleUpgrade, for a key that is present */
    method Accept(key: string, socket: Endpoint, id: string, crypto: Crypto) returns (conn: Connection)
      requires Valid()
      modifies this, wire
      ensures Valid() && events == old(events) && wire.down == old(wire.down)
      ensures fresh(conn) && conn.socket == socket && conn.id == id && conn.server == this && conn.events == map[]
      ensures wire.log == old(wire.log) + [Wrote(socket, Utf8.Encode(UpgradeResponse(GenerateAcceptKey(crypto, key))))]
      ensures connections == old(connections) + [conn]
      ensures calls == old(calls) + (if "connection" in events then [ConnectionCall(events["connection"], conn)] else [])
    {
      var acceptKey := GenerateAcceptKey(crypto, key);
      wire.Write(socket, Utf8.Encode(UpgradeResponse(acceptKey)));
      conn := new Connection(id, socket, this);
      connections := connections + [conn];
      if "connection" in events {
        calls := calls + [ConnectionCall(events["connection"], conn)];
      }
    }

    /** The 'close' listener: the connection leaves the registry */
    method HandleClose(conn: Connection)
      requires Valid()
      modifies this
      ensures Valid() && connections == Remove(old(connections), conn)
      ensures events == old(events) && calls == old(calls)
    {
      RemoveKeepsValid(connections, conn, this);
      connections := Remove(connections, conn);
    }

    /** handleWebSocketFrame: the chunk is decoded as one frame. A close frame (0x8) ends
        the socket and removes the connection; a text frame (0x1) calls the connection's
        'message' handler, if any, with the payload decoded as UTF-8; any other opcode does
        nothing. A chunk that does not hold its declared frame throws before anything
        changes. */
    method HandleWebSocketFrame(conn: Connection, data: seq<byte>) returns (r: Outcome<DecodeError>)
      requires Valid()
      modifies this, wire
      ensures Valid() && events == old(events) && wire.down == old(wire.down)
      ensures Decode32(data).Failure? ==>
        r == Fail(OutOfBounds) && connections == old(connections) && calls == old(calls) &&
        wire.log == old(wire.log)
      ensures Decode32(data).Success? && Decode32(data).value.opcode == 8 ==>
        r == Pass && connections == Remove(old(connections), conn) && calls == old(calls) &&
        wire.log == old(wire.log) + [Ended(conn.socket)]
      ensures Decode32(data).Success? && Decode32(data).value.opcode == 1 ==>
        r == Pass && connections == old(connections) && wire.log == old(wire.log) &&
        calls == old(calls) +
          (if "message" in conn.events
           then [MessageCall(conn.events["message"], Utf8.DecodeLossy(Decode32(data).value.payload))]
           else [])
      ensures Decode32(data).Success? && Decode32(data).value.opcode !in {1, 8} ==>
        r == Pass && connections == old(connections) && calls == old(calls) && wire.log == old(wire.log)
    {
      var frame := DecodeFrame(data);
      if frame.Failure? {
        return Fail(frame.error);
      }
      var opcode := frame.value.opcode;
      if opcode == 8 {
        wire.End(conn.socket);
        RemoveKeepsValid(connections, conn, this);
        connections := Remove(connections, conn);
        return Pass;
      }
      if opcode == 1 {
        var message := Utf8.DecodeLossy(frame.value.payload);
        if "message" in conn.events {
          calls := calls + [MessageCall(conn.events["message"], message)];
        }
      }
      r := Pass;
    }
  }

  class Connection {
    const id: string
    const socket: Endpoint
    const server: Server
    var events: map<string, Handler>

    constructor (id: string, socket: Endpoint, server: Server)
      ensures this.id == id && this.socket == socket && this.server == server && events == map[]
    {
      this.id := id;
      this.socket := socket;
      this.server := server;
      events := map[];
    }

    /** Registers callback for event, replacing any earlier one for it */
    method On(event: string, callback: Handler)
      modifies this
      ensures events == old(events)[event := callback]
    {
      events := events[event := callback];
    }

    /** send: one write of the text frame carrying the message's UTF-8 bytes; a message of
        2^32 bytes or more throws before anything is written */
    method Send(message: string) returns (r: Outcome<SendError>)
      modifies server.wire
      ensures server.wire.down == old(server.wire.down)
      ensures |Utf8.Encode(message)| < Max32 ==>
        r == Pass && server.wire.log == old(server.wire.log) + [Wrote(socket, TextFrame(Utf8.Encode(message)))]
      ensures |Utf8.Encode(message)| >= Max32 ==>
        r == Fail(TooLong) && server.wire.log == old(server.wire.log)
    {
      var payload := Utf8.Encode(message);
      var frame := BuildFrame(payload);
      if frame.None? {
        return Fail(TooLong);
      }
      server.wire.Write(socket, frame.value);
      r := Pass;
    }

    /** broadcast: send to every registry member in order, skipping this connection
        unless includeSelf. A send that throws stops the loop; since every send carries
        the same message, that is the first one. */
    method Broadcast(message: string, includeSelf: bool) returns (r: Outcome<SendError>)
      requires Owned(server.connections, server)
      modifies server.wire
      ensures server.wire.down == old(server.wire.down)
      ensures |Utf8.Encode(message)| < Max32 ==>
        r == Pass && server.wire.log == old(server.wire.log) +
          BroadcastWrites(server.connections, |server.connections|, this, includeSelf, TextFrame(Utf8.Encode(message)))
      ensures |Utf8.Encode(message)| >= Max32 ==>
        server.wire.log == old(server.wire.log) &&
        r == (if SkipsFirst(server.connections, |server.connections|, this, includeSelf) then Pass else Fail(TooLong))
    {
      var conns := server.connections;
      ghost var small := |Utf8.Encode(message)| < Max32;
      var i := 0;
      while i < |conns|
        invariant 0 <= i <= |conns| && server.connections == conns
        invariant server.wire.down == old(server.wire.down)
        invariant small ==> server.wire.log == old(server.wire.log) + BroadcastWrites(conns, i, this, includeSelf, TextFrame(Utf8.Encode(message)))
        invariant !small ==> SkipsFirst(conns, i, this, includeSelf) && server.wire.log == old(server.wire.log)
      {
        var connection := conns[i];
        if !includeSelf && connection == this {
          if small {
            ghost var frame := TextFrame(Utf8.Encode(message));
            assert BroadcastWrites(conns, i + 1, this, includeSelf, frame)
                == BroadcastWrites(conns, i, this, includeSelf, frame) + [];
          }
          i := i + 1;
          continue;
        }
        assert connection.server == server;
        ghost var start := old(server.wire.log);
        var sent := connection.Send(message);
        if sent.Fail? {
          assert !Skips(conns[i], this, includeSelf);
          return sent;
        }
        ghost var frame := TextFrame(Utf8.Encode(message));
        ghost var prev := BroadcastWrites(conns, i, this, includeSelf, frame);
        ghost var step := [Wrote(connection.socket, frame)];
        assert BroadcastWrites(conns, i + 1, this, includeSelf, frame) == prev + step;
        assert start + prev + step == start + (prev + step);
        i := i + 1;
      }
      r := Pass;
    }
  }

  /** Deleting c leaves exactly the other members */
  lemma {:induction false} RemoveMembers(s: seq<Connection>, c: Connection)
    ensures forall x :: x in Remove(s, c) <==> x in s && x != c
    decreases |s|
  {
    if s != [] {
      RemoveMembers(s[1..], c);
      assert forall x :: x in s <==> x == s[0] || x in s[1..];
    }
  }

  /** Deleting from the registry keeps it duplicate-free and keeps who owns its members */
  lemma {:induction false} RemoveKeepsValid(s: seq<Connection>, c: Connection, owner: Server)
    requires Distinct(s) && Owned(s, owner)
    ensures Distinct(Remove(s, c)) && Owned(Remove(s, c), owner)
    decreases |s|
  {
    if s != [] {
      RemoveKeepsValid(s[1..], c, owner);
      RemoveMembers(s[1..], c);
      forall j | 0 <= j < |s[1..]|
        ensures s[1..][j] != s[0]
      {
        assert s[1..][j] == s[j + 1];
      }
      if s[0] != c {
        var r := Remove(s[1..], c);
        assert Remove(s, c) == [s[0]] + r;
        forall j | 0 <= j < |r|
          ensures r[j] != s[0]
        {
          assert r[j] in r;
        }
      }
    }
  }


  /** A delete of a connection that is not in the registry changes nothing */
  lemma {:induction false} RemoveAbsent(s: seq<Connection>, c: Connection)
    requires c !in s
    ensures Remove(s, c) == s
    decreases |s|
  {
    if s != [] {
      assert c !in s[1..];
      RemoveAbsent(s[1..], c);
    }
  }

  /** A close frame followed by the socket's 'close' event removes the connection once:
      the second delete is a no-op */
  lemma RemoveIdempotent(s: seq<Connection>, c: Connection)
    ensures Remove(Remove(s, c), c) == Remove(s, c)
  {
    RemoveMembers(s, c);
    RemoveAbsent(Remove(s, c), c);
  }

  /** The handshake hash is fed the key's bytes followed by the GUID's, as RFC 6455 asks */
  lemma AcceptKeyInput(crypto: Crypto, key: string)
    ensures GenerateAcceptKey(crypto, key) == AcceptValue(crypto, Utf8.Encode(key))
  {
    Utf8.EncodeAppend(key, Guid);
  }

  /** Joining lines and a final CRLF with CRLF gives the lines as an HTTP head */
  lemma {:induction false} JoinIsHttpHead(lines: seq<string>)
    ensures Join(lines + [Crlf], Crlf) == HttpHead(lines)
    decreases |lines|
  {
    if lines != [] {
      assert (lines + [Crlf])[1..] == lines[1..] + [Crlf];
      JoinIsHttpHead(lines[1..]);
    }
  }

  /** The joined response lines are the RFC 6455 101 response: four lines each ended by
      CRLF, then the empty line */
  lemma UpgradeResponseIsRfc(acceptKey: string)
    ensures UpgradeResponse(acceptKey) == SwitchingProtocols(acceptKey)
  {
    var lines := [
      "HTTP/1.1 101 Switching Protocols",
      "Upgrade: websocket",
      "Connection: Upgrade",
      "Sec-WebSocket-Accept: " + acceptKey];
    assert lines + [Crlf] == [lines[0], lines[1], lines[2], lines[3], Crlf];
    JoinIsHttpHead(lines);
  }

  /** Distinct members have distinct sockets */
  ghost predicate DistinctSockets(s: seq<Connection>)
  {
    forall i, j :: 0 <= i < j < |s| ==> s[i].socket != s[j].socket
  }

  /** Visiting member n - 1 adds one write to endpoint e exactly when it hits e */
  lemma CountStep(s: seq<Connection>, n: nat, self: Connection, includeSelf: bool, frame: seq<byte>, e: Endpoint)
    requires 0 < n <= |s|
    ensures WriteCount(BroadcastWrites(s, n, self, includeSelf, frame), e)
         == WriteCount(BroadcastWrites(s, n - 1, self, includeSelf, frame), e)
            + (if !Skips(s[n - 1], self, includeSelf) && s[n - 1].socket == e then 1 else 0)
  {
    var last := s[n - 1];
    var w := BroadcastWrites(s, n - 1, self, includeSelf, frame);
    if !Skips(last, self, includeSelf) {
      WriteCountAppend(w, [Wrote(last.socket, frame)], e);
      WriteOne(last.socket, frame, e);
    } else {
      assert w + [] == w;
    }
  }

  /** Visiting member n - 1 adds the frame to what endpoint e receives exactly when it
      hits e */
  lemma BytesStep(s: seq<Connection>, n: nat, self: Connection, includeSelf: bool, frame: seq<byte>, e: Endpoint)
    requires 0 < n <= |s|
    ensures Received(BroadcastWrites(s, n, self, includeSelf, frame), e)
         == Received(BroadcastWrites(s, n - 1, self, includeSelf, frame), e)
            + (if !Skips(s[n - 1], self, includeSelf) && s[n - 1].socket == e then frame else [])
  {
    var last := s[n - 1];
    var w := BroadcastWrites(s, n - 1, self, includeSelf, frame);
    if !Skips(last, self, includeSelf) {
      ReceivedAppend(w, [Wrote(last.socket, frame)], e);
      WriteOne(last.socket, frame, e);
    } else {
      assert w + [] == w;
    }
  }

  /** How many of the first n members a broadcast sends to through endpoint e */
  function Hits(s: seq<Connection>, n: nat, self: Connection, includeSelf: bool, e: Endpoint): nat
    requires n <= |s|
  {
    if n == 0 then 0
    else Hits(s, n - 1, self, includeSelf, e) + (if !Skips(s[n - 1], self, includeSelf) && s[n - 1].socket == e then 1 else 0)
  }

  /** Endpoint e receives one write per member it hits */
  lemma {:induction false} BroadcastCount(s: seq<Connection>, n: nat, self: Connection, includeSelf: bool, frame: seq<byte>, e: Endpoint)
    requires n <= |s|
    ensures WriteCount(BroadcastWrites(s, n, self, includeSelf, frame), e) == Hits(s, n, self, includeSelf, e)
    decreases n
  {
    if n > 0 {
      BroadcastCount(s, n - 1, self, includeSelf, frame, e);
      CountStep(s, n, self, includeSelf, frame, e);
    }
  }

  /** Endpoint e receives one copy of the frame per member it hits */
  lemma {:induction false} BroadcastBytes(s: seq<Connection>, n: nat, self: Connection, includeSelf: bool, frame: seq<byte>, e: Endpoint)
    requires n <= |s|
    ensures Received(BroadcastWrites(s, n, self, includeSelf, frame), e) == Repeat(frame, Hits(s, n, self, includeSelf, e))
    decreases n
  {
    if n > 0 {
      BroadcastBytes(s, n - 1, self, includeSelf, frame, e);
      BytesGrow(s, n, self, includeSelf, frame, e);
    } else {
      assert BroadcastWrites(s, n, self, includeSelf, frame) == [];
      assert Hits(s, n, self, includeSelf, e) == 0;
    }
  }

  /** The inductive step of BroadcastBytes: if the first n - 1 members deliver one frame
      per hit, so do the first n */
  lemma BytesGrow(s: seq<Connection>, n: nat, self: Connection, includeSelf: bool, frame: seq<byte>, e: Endpoint)
    requires 0 < n <= |s|
    requires Received(BroadcastWrites(s, n - 1, self, includeSelf, frame), e) == Repeat(frame, Hits(s, n - 1, self, includeSelf, e))
    ensures Received(BroadcastWrites(s, n, self, includeSelf, frame), e) == Repeat(frame, Hits(s, n, self, includeSelf, e))
  {
    BytesStep(s, n, self, includeSelf, frame, e);
    RepeatStep(frame, Received(BroadcastWrites(s, n - 1, self, includeSelf, frame), e),
      Received(BroadcastWrites(s, n, self, includeSelf, frame), e),
      Hits(s, n - 1, self, includeSelf, e), Hits(s, n, self, includeSelf, e),
      !Skips(s[n - 1], self, includeSelf) && s[n - 1].socket == e);
  }

  lemma {:induction false} HitsOutsider(s: seq<Connection>, n: nat, self: Connection, includeSelf: bool, e: Endpoint)
    requires n <= |s| && forall k :: 0 <= k < n ==> s[k].socket != e
    ensures Hits(s, n, self, includeSelf, e) == 0
    decreases n
  {
    if n > 0 {
      HitsOutsider(s, n - 1, self, includeSelf, e);
    }
  }

  lemma {:induction false} HitsMember(s: seq<Connection>, n: nat, self: Connection, includeSelf: bool, i: nat)
    requires DistinctSockets(s) && i < n <= |s|
    ensures Hits(s, n, self, includeSelf, s[i].socket) == if Skips(s[i], self, includeSelf) then 0 else 1
    decreases n
  {
    var e := s[i].socket;
    if i == n - 1 {
      forall k | 0 <= k < n - 1
        ensures s[k].socket != e
      {
      }
      HitsOutsider(s, n - 1, self, includeSelf, e);
    } else {
      assert s[n - 1].socket != e;
      HitsMember(s, n - 1, self, includeSelf, i);
    }
  }

  /** A broadcast writes nothing to a socket outside the registry */
  lemma BroadcastToOutsider(s: seq<Connection>, n: nat, self: Connection, includeSelf: bool, frame: seq<byte>, e: Endpoint)
    requires n <= |s| && forall k :: 0 <= k < n ==> s[k].socket != e
    ensures WriteCount(BroadcastWrites(s, n, self, includeSelf, frame), e) == 0
    ensures Received(BroadcastWrites(s, n, self, includeSelf, frame), e) == []
  {
    BroadcastCount(s, n, self, includeSelf, frame, e);
    BroadcastBytes(s, n, self, includeSelf, frame, e);
    HitsOutsider(s, n, self, includeSelf, e);
  }

  /** With distinct sockets, a broadcast writes the frame exactly once to each member it
      does not skip, and not at all to the member it skips */
  lemma BroadcastToMember(s: seq<Connection>, n: nat, self: Connection, includeSelf: bool, frame: seq<byte>, i: nat)
    requires DistinctSockets(s) && i < n <= |s|
    ensures WriteCount(BroadcastWrites(s, n, self, includeSelf, frame), s[i].socket)
      == if Skips(s[i], self, includeSelf) then 0 else 1
    ensures Received(BroadcastWrites(s, n, self, includeSelf, frame), s[i].socket)
      == if Skips(s[i], self, includeSelf) then [] else frame
  {
    BroadcastCount(s, n, self, includeSelf, frame, s[i].socket);
    BroadcastBytes(s, n, self, includeSelf, frame, s[i].socket);
    HitsMember(s, n, self, includeSelf, i);
    assert Repeat(frame, 1) == [] + frame == frame;
  }

  /** The number of sends: every member, or every member but self when self is a member
      and includeSelf is false */
  lemma {:induction false} BroadcastSize(s: seq<Connection>, n: nat, self: Connection, includeSelf: bool, frame: seq<byte>)
    requires Distinct(s) && n <= |s|
    ensures |BroadcastWrites(s, n, self, includeSelf, frame)| == if !includeSelf && self in s[..n] then n - 1 else n
    decreases n
  {
    if n > 0 {
      BroadcastSize(s, n - 1, self, includeSelf, frame);
      var init := s[..n - 1];
      assert s[..n] == init + [s[n - 1]];
      forall j | 0 <= j < |init|
        ensures init[j] != s[n - 1]
      {
        assert init[j] == s[j];
      }
    }
  }

}
