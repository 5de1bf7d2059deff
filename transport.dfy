/**
 * The byte streams the servers talk through. Every socket (Node) or TcpStream (Rust) is
 * an endpoint of one Wire, which records, in order, every write and every end performed
 * on any endpoint; writes to an endpoint in `down` fail, as Rust's write_all does on a
 * closed connection. Inbound bytes are a Reader: the bytes still to come and a cursor.
 */
module Transport {
  import opened Bytes
  import opened Wrappers

  type Endpoint = nat

  datatype IoError = UnexpectedEof | BrokenPipe

  datatype Event = Wrote(to: Endpoint, bytes: seq<byte>) | Ended(to: Endpoint)

  class Wire {
    var log: seq<Event>
    var down: set<Endpoint>

    constructor ()
      ensures log == [] && down == {}
    {
      log := [];
      down := {};
    }

    /** Node's socket.write: queued whatever the state of the peer */
    method Write(to: Endpoint, bytes: seq<byte>)
      modifies this
      ensures log == old(log) + [Wrote(to, bytes)] && down == old(down)
    {
      log := log + [Wrote(to, bytes)];
    }

    /** Node's socket.end */
    method End(to: Endpoint)
      modifies this
      ensures log == old(log) + [Ended(to)] && down == old(down)
    {
      log := log + [Ended(to)];
    }

    /** Rust's write_all: fails, writing nothing, on an endpoint that is down */
    method WriteAll(to: Endpoint, bytes: seq<byte>) returns (r: Outcome<IoError>)
      modifies this
      ensures down == old(down)
      ensures to in down ==> r == Fail(BrokenPipe) && log == old(log)
      ensures to !in down ==> r == Pass && log == old(log) + [Wrote(to, bytes)]
    {
      if to in down {
        r := Fail(BrokenPipe);
      } else {
        log := log + [Wrote(to, bytes)];
        r := Pass;
      }
    }
  }

  /** The bytes a log delivers to endpoint e, in order */
  function Received(log: seq<Event>, e: Endpoint): seq<byte>
  {
    if log == [] then []
    else
      var last := log[|log| - 1];
      Received(log[..|log| - 1], e) + (if last.Wrote? && last.to == e then last.bytes else [])
  }

  /** The number of writes a log makes to endpoint e */
  function WriteCount(log: seq<Event>, e: Endpoint): nat
  {
    if log == [] then 0
    else
      var last := log[|log| - 1];
      WriteCount(log[..|log| - 1], e) + (if last.Wrote? && last.to == e then 1 else 0)
  }

  lemma {:induction false} ReceivedAppend(a: seq<Event>, b: seq<Event>, e: Endpoint)
    ensures Received(a + b, e) == Received(a, e) + Received(b, e)
    decreases |b|
  {
    if b == [] {
      assert a + b == a;
    } else {
      var init, last := b[..|b| - 1], b[|b| - 1];
      var extra := if last.Wrote? && last.to == e then last.bytes else [];
      assert (a + b)[..|a + b| - 1] == a + init && (a + b)[|a + b| - 1] == last;
      assert Received(a + b, e) == Received(a + init, e) + extra;
      assert Received(b, e) == Received(init, e) + extra;
      ReceivedAppend(a, init, e);
    }
  }

  lemma {:induction false} WriteCountAppend(a: seq<Event>, b: seq<Event>, e: Endpoint)
    ensures WriteCount(a + b, e) == WriteCount(a, e) + WriteCount(b, e)
    decreases |b|
  {
    if b == [] {
      assert a + b == a;
    } else {
      assert (a + b)[..|a + b| - 1] == a + b[..|b| - 1];
      WriteCountAppend(a, b[..|b| - 1], e);
    }
  }

  lemma WriteOne(to: Endpoint, bytes: seq<byte>, e: Endpoint)
    ensures WriteCount([Wrote(to, bytes)], e) == (if to == e then 1 else 0)
    ensures Received([Wrote(to, bytes)], e) == (if to == e then bytes else [])
  {
    assert [Wrote(to, bytes)][..0] == [];
  }

  /** k copies of a frame, one after the other */
  function Repeat(frame: seq<byte>, k: nat): seq<byte>
  {
    if k == 0 then [] else Repeat(frame, k - 1) + frame
  }

  /** One more step of a delivery: a hit adds a copy of the frame, a miss adds nothing */
  lemma RepeatStep(frame: seq<byte>, before: seq<byte>, after: seq<byte>, k: nat, k': nat, hit: bool)
    requires before == Repeat(frame, k)
    requires after == before + (if hit then frame else [])
    requires k' == k + (if hit then 1 else 0)
    ensures after == Repeat(frame, k')
  {
    if !hit {
      assert before + [] == before;
    }
  }

  /** Inbound bytes with a read cursor */
  class Reader {
    var data: seq<byte>
    var pos: nat

    ghost predicate Valid()
      reads this
    {
      pos <= |data|
    }

    /** The bytes not yet read */
    function Remaining(): seq<byte>
      reads this
      requires Valid()
    {
      data[pos..]
    }

    constructor (data: seq<byte>)
      ensures Valid() && this.data == data && pos == 0
    {
      this.data := data;
      pos := 0;
    }

    /** Rust's read_exact: exactly n bytes, or UnexpectedEof once the input runs out
        (the bytes it had consumed by then are gone) */
    method ReadExact(n: nat) returns (r: Result<seq<byte>, IoError>)
      requires Valid()
      modifies this
      ensures Valid() && data == old(data)
      ensures n <= |old(Remaining())| ==> r == Success(old(Remaining())[..n]) && pos == old(pos) + n
      ensures |old(Remaining())| < n ==> r == Failure(UnexpectedEof) && pos == |data|
    {
      if pos + n <= |data| {
        assert data[pos..pos + n] == data[pos..][..n];
        r := Success(data[pos..pos + n]);
        pos := pos + n;
      } else {
        r := Failure(UnexpectedEof);
        pos := |data|;
      }
    }

    /** Rust's read into a buffer of max bytes. How many bytes one read returns is up to
        the peer and the network, so it is the parameter got: never more than the buffer
        or the bytes still to come, and none only at the end of input or into an empty
        buffer */
    method Read(max: nat, got: nat) returns (chunk: seq<byte>)
      requires Valid()
      requires got <= max && got <= |Remaining()|
      requires got == 0 ==> max == 0 || Remaining() == []
      modifies this
      ensures Valid() && data == old(data)
      ensures chunk == old(Remaining())[..got] && pos == old(pos) + got
    {
      assert data[pos..pos + got] == data[pos..][..got];
      chunk := data[pos..pos + got];
      pos := pos + got;
    }
  }

}
