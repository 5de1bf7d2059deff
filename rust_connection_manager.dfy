/**
 * ConnectionManager of the Rust library (source/src/connection_manager.rs): a registry
 * of connections in insertion order, pruned of closed connections and broadcast to.
 * The registry is modelled sequentially, without its locks. Which connections are
 * closed is not defined by the library; it is given to cleanup as the set of endpoints
 * whose connection reports itself closed.
 */
module RustConnectionManager {
  import opened Bytes
  import opened Wrappers
  import opened Rfc6455
  import opened Transport
  import T = RustTypes
  import F = RustFrame
  import S = RustServer

  type Connection = S.WebSocketConnection

  /** Vec::retain with the closed test: the entries that are not closed, in order */
  function Retained(s: seq<Connection>, closed: set<Endpoint>): (r: seq<Connection>)
    ensures |r| <= |s|
  {
    if s == [] then []
    else
      var last := s[|s| - 1];
      Retained(s[..|s| - 1], closed) + (if last.id in closed then [] else [last])
  }

  /** An entry is kept exactly when it was registered and is not closed */
  lemma {:induction false} RetainedMember(s: seq<Connection>, closed: set<Endpoint>, c: Connection)
    ensures c in Retained(s, closed) <==> c in s && c.id !in closed
  {
    if s != [] {
      var init := s[..|s| - 1];
      RetainedMember(init, closed, c);
      assert s == init + [s[|s| - 1]];
    }
  }

  /** Retaining works piece by piece, so the kept entries keep their relative order */
  lemma {:induction false} RetainedAppend(s: seq<Connection>, t: seq<Connection>, closed: set<Endpoint>)
    ensures Retained(s + t, closed) == Retained(s, closed) + Retained(t, closed)
    decreases |t|
  {
    if t == [] {
      assert s + t == s;
    } else {
      var init := t[..|t| - 1];
      assert (s + t)[..|s + t| - 1] == s + init;
      RetainedAppend(s, init, closed);
    }
  }

  /** Cleaning up twice with the same closed connections is cleaning up once */
  lemma {:induction false} RetainedIdempotent(s: seq<Connection>, closed: set<Endpoint>)
    ensures Retained(Retained(s, closed), closed) == Retained(s, closed)
  {
    if s != [] {
      var init := s[..|s| - 1];
      var last := s[|s| - 1];
      RetainedIdempotent(init, closed);
      var tail := if last.id in closed then [] else [last];
      RetainedAppend(Retained(init, closed), tail, closed);
      assert Retained(tail, closed) == tail by {
        if tail != [] {
          assert tail[..0] == [];
        }
      }
    }
  }

  /** The writes of one broadcast of a frame written as the pieces cs: each entry in turn
      writes the pieces, and an entry whose endpoint is down contributes nothing, without
      stopping the others */
  function BroadcastLog(s: seq<Connection>, cs: seq<seq<byte>>, down: set<Endpoint>): seq<Event>
  {
    if s == [] then []
    else
      var last := s[|s| - 1];
      BroadcastLog(s[..|s| - 1], cs, down) + (if last.id in down then [] else F.Writes(last.id, cs))
  }

  /** Visiting one more entry extends the broadcast's writes by that entry's writes */
  lemma BroadcastLogStep(s: seq<Connection>, i: nat, cs: seq<seq<byte>>, down: set<Endpoint>)
    requires i < |s|
    ensures BroadcastLog(s[..i + 1], cs, down)
         == BroadcastLog(s[..i], cs, down) + (if s[i].id in down then [] else F.Writes(s[i].id, cs))
  {
    assert s[..i + 1][..i] == s[..i];
  }

  /** The number of entries whose endpoint is e */
  function Entries(s: seq<Connection>, e: Endpoint): nat
  {
    if s == [] then 0 else Entries(s[..|s| - 1], e) + (if s[|s| - 1].id == e then 1 else 0)
  }

  /** What a broadcast delivers to endpoint e: one copy of the frame per entry for e,
      nothing when e is down */
  lemma {:induction false} BroadcastDelivers(s: seq<Connection>, cs: seq<seq<byte>>, down: set<Endpoint>, e: Endpoint)
    ensures Received(BroadcastLog(s, cs, down), e)
         == if e in down then [] else Repeat(F.Flatten(cs), Entries(s, e))
  {
    if s != [] {
      var init := s[..|s| - 1];
      var last := s[|s| - 1];
      var step := if last.id in down then [] else F.Writes(last.id, cs);
      var before := BroadcastLog(init, cs, down);
      assert BroadcastLog(s, cs, down) == before + step;
      BroadcastDelivers(init, cs, down, e);
      ReceivedAppend(before, step, e);
      var hit := last.id == e && e !in down;
      assert Received(step, e) == if hit then F.Flatten(cs) else [] by {
        if last.id !in down {
          F.WritesDeliver(last.id, cs, e);
        }
      }
      assert Entries(s, e) == Entries(init, e) + (if last.id == e then 1 else 0);
      if e !in down {
        RepeatStep(F.Flatten(cs), Received(before, e), Received(BroadcastLog(s, cs, down), e),
          Entries(init, e), Entries(s, e), hit);
      } else {
        assert Received(BroadcastLog(s, cs, down), e) == [] + [];
      }
    } else {
      assert BroadcastLog(s, cs, down) == [];
    }
  }

  /** In a registry with one entry per endpoint, a broadcast delivers the message's frame
      exactly once to each entry that is not down, however many others are down */
  lemma BroadcastReachesEach(s: seq<Connection>, m: T.WebSocketMessage, down: set<Endpoint>, i: nat)
    requires |S.MessageToFrame(m).payload| < MaxPayload
    requires i < |s| && s[i].id !in down
    requires forall j :: 0 <= j < |s| && j != i ==> s[j].id != s[i].id
    ensures Received(BroadcastLog(s, S.MessageChunks(m), down), s[i].id) == S.MessageBytes(m)
  {
    BroadcastDelivers(s, S.MessageChunks(m), down, s[i].id);
    EntriesOfMember(s, i);
    assert Repeat(S.MessageBytes(m), 1) == [] + S.MessageBytes(m);
  }

  /** An endpoint with no entry receives nothing from a broadcast */
  lemma BroadcastMissesOutsider(s: seq<Connection>, cs: seq<seq<byte>>, down: set<Endpoint>, e: Endpoint)
    requires forall j :: 0 <= j < |s| ==> s[j].id != e
    ensures Received(BroadcastLog(s, cs, down), e) == []
  {
    BroadcastDelivers(s, cs, down, e);
    EntriesAbsent(s, e);
  }

  /** An endpoint that exactly one entry has is counted once */
  lemma {:induction false} EntriesOfMember(s: seq<Connection>, i: nat)
    requires i < |s| && forall j :: 0 <= j < |s| && j != i ==> s[j].id != s[i].id
    ensures Entries(s, s[i].id) == 1
    decreases |s|
  {
    var init := s[..|s| - 1];
    if i == |s| - 1 {
      EntriesAbsent(init, s[i].id);
    } else {
      EntriesOfMember(init, i);
    }
  }

  lemma {:induction false} EntriesAbsent(s: seq<Connection>, e: Endpoint)
    requires forall j :: 0 <= j < |s| ==> s[j].id != e
    ensures Entries(s, e) == 0
  {
    if s != [] {
      EntriesAbsent(s[..|s| - 1], e);
    }
  }

  class ConnectionManager {
    var connections: seq<Connection>

    /** ConnectionManager::new: an empty registry */
    constructor ()
      ensures connections == []
    {
      connections := [];
    }

    /** add_connection: the new entry goes last, the others stay as they were */
    method AddConnection(c: Connection)
      modifies this
      ensures connections == old(connections) + [c]
    {
      connections := connections + [c];
    }

    /** cleanup_closed_connections: drop every entry that reports itself closed */
    method CleanupClosedConnections(closed: set<Endpoint>)
      modifies this
      ensures connections == Retained(old(connections), closed)
    {
      var kept: seq<Connection> := [];
      for i := 0 to |connections|
        invariant kept == Retained(connections[..i], closed)
      {
        assert connections[..i + 1][..i] == connections[..i];
        if connections[i].id !in closed {
          kept := kept + [connections[i]];
        }
      }
      assert connections[..|connections|] == connections;
      connections := kept;
    }

    /** broadcast_message: send the message on every entry in registry order; a failed
        send is reported and the loop goes on. The registry itself is left as it is. */
    method BroadcastMessage(m: T.WebSocketMessage, ghost wire: Wire)
      requires |S.MessageToFrame(m).payload| < MaxPayload
      requires forall i :: 0 <= i < |connections| ==> connections[i].wire == wire
      modifies wire
      ensures wire.down == old(wire.down)
      ensures wire.log == old(wire.log) + BroadcastLog(connections, S.MessageChunks(m), wire.down)
    {
      ghost var cs := S.MessageChunks(m);
      for i := 0 to |connections|
        invariant wire.down == old(wire.down)
        invariant wire.log == old(wire.log) + BroadcastLog(connections[..i], cs, wire.down)
      {
        var c := connections[i];
        assert c.wire == wire;
        ghost var start := old(wire.log);
        ghost var prev := BroadcastLog(connections[..i], cs, wire.down);
        ghost var step := if c.id in wire.down then [] else F.Writes(c.id, cs);
        var sent := c.SendMessage(m);
        assert wire.log == start + prev + step;
        BroadcastLogStep(connections, i, cs, wire.down);
        assert start + prev + step == start + (prev + step);
      }
      assert connections[..|connections|] == connections;
    }
  }
}
