/**
 * The opening handshake of the Rust library (source/src/handshake.rs): one read of at
 * most 1024 bytes, decoded lossily as UTF-8; the key taken from the first line that starts
 * with "Sec-WebSocket-Key:" as that line's second whitespace-separated token; and the
 * 101 response carrying the accept value. The string functions are those of Rust's str:
 * lines, starts_with, split_whitespace and trim, with char::is_whitespace.
 */
module RustHandshake {
  import opened Bytes
  import opened Wrappers
  import opened Rfc6455
  import opened Transport
  import Utf8
  import RustTypes

  /** char::is_whitespace: the Unicode White_Space property */
  predicate IsWhitespace(c: char)
  {
    ('\t' <= c <= '\r') || c == ' ' || c == '\U{0085}' || c == '\U{00A0}' || c == '\U{1680}'
    || ('\U{2000}' <= c <= '\U{200A}') || c == '\U{2028}' || c == '\U{2029}' || c == '\U{202F}'
    || c == '\U{205F}' || c == '\U{3000}'
  }

  predicate NoWhitespace(s: string)
  {
    forall j :: 0 <= j < |s| ==> !IsWhitespace(s[j])
  }

  /** The position of the first '\n', or |s| when there is none */
  function NewlineAt(s: string): (i: nat)
    ensures i <= |s| && (i < |s| ==> s[i] == '\n')
    ensures forall j :: 0 <= j < i ==> s[j] != '\n'
  {
    if s == [] || s[0] == '\n' then 0 else 1 + NewlineAt(s[1..])
  }

  /** A line ended by "\r\n" loses the '\r' as well */
  function StripCr(line: string): (r: string)
    ensures line == r || line == r + "\r"
    ensures r != [] ==> r[|r| - 1] == line[|r| - 1]
  {
    if line != [] && line[|line| - 1] == '\r' then line[..|line| - 1] else line
  }

  /** str::lines: the text split after each '\n', each line without its "\n" or "\r\n"; a
      last line without '\n' is kept as it is, and a final '\n' starts no empty line */
  function Lines(s: string): (r: seq<string>)
    ensures r == [] <==> s == []
    ensures forall k, j :: 0 <= k < |r| && 0 <= j < |r[k]| ==> r[k][j] != '\n'
    decreases |s|
  {
    if s == [] then []
    else
      var i := NewlineAt(s);
      if i == |s| then [s] else [StripCr(s[..i])] + Lines(s[i + 1..])
  }

  predicate StartsWith(s: string, prefix: string)
  {
    |prefix| <= |s| && s[..|prefix|] == prefix
  }

  const KeyHeader: string := "Sec-WebSocket-Key:"

  /** Iterator::find over the lines: the index of the first line that starts with the
      exact, case-sensitive header name */
  function FirstKeyLine(lines: seq<string>): (r: Option<nat>)
    ensures r.Some? ==> r.value < |lines| && StartsWith(lines[r.value], KeyHeader)
    ensures r.Some? ==> forall j :: 0 <= j < r.value ==> !StartsWith(lines[j], KeyHeader)
    ensures r.None? <==> forall j :: 0 <= j < |lines| ==> !StartsWith(lines[j], KeyHeader)
  {
    if lines == [] then None
    else if StartsWith(lines[0], KeyHeader) then Some(0)
    else
      match FirstKeyLine(lines[1..])
      case None => None
      case Some(i) => Some(i + 1)
  }

  /** The text after the leading whitespace */
  function SkipWhitespace(s: string): (r: string)
    ensures |r| <= |s| && r == s[|s| - |r|..]
    ensures r != [] ==> !IsWhitespace(r[0])
    ensures forall j :: 0 <= j < |s| - |r| ==> IsWhitespace(s[j])
  {
    if s != [] && IsWhitespace(s[0]) then
      var r := SkipWhitespace(s[1..]);
      assert forall j :: 1 <= j < |s| - |r| ==> s[j] == s[1..][j - 1];
      r
    else s
  }

  /** The length of the leading run of non-whitespace characters */
  function TokenEnd(s: string): (n: nat)
    ensures n <= |s| && NoWhitespace(s[..n]) && (n < |s| ==> IsWhitespace(s[n]))
  {
    if s == [] || IsWhitespace(s[0]) then 0
    else
      var n := 1 + TokenEnd(s[1..]);
      assert s[..n] == [s[0]] + s[1..][..n - 1];
      n
  }

  /** str::split_whitespace: the maximal runs of non-whitespace characters, in order */
  function SplitWhitespace(s: string): (r: seq<string>)
    ensures forall i :: 0 <= i < |r| ==> |r[i]| > 0 && NoWhitespace(r[i])
    decreases |s|
  {
    var t := SkipWhitespace(s);
    if t == [] then []
    else
      var n := TokenEnd(t);
      assert n > 0 by {
        assert !IsWhitespace(t[0]);
      }
      var rest := SplitWhitespace(t[n..]);
      [t[..n]] + rest
  }

  function TrimEnd(s: string): (r: string)
    ensures NoWhitespace(s) ==> r == s
  {
    if s != [] && IsWhitespace(s[|s| - 1]) then TrimEnd(s[..|s| - 1]) else s
  }

  /** str::trim: without leading and trailing whitespace */
  function Trim(s: string): (r: string)
    ensures NoWhitespace(s) ==> r == s
  {
    TrimEnd(SkipWhitespace(s))
  }

  /** extract_websocket_key: the second token of the first key line, trimmed; the key
      found is never empty and holds no whitespace */
  function ExtractWebSocketKey(request: string): (r: Option<string>)
    ensures r.Some? ==> |r.value| > 0 && NoWhitespace(r.value)
  {
    var lines := Lines(request);
    match FirstKeyLine(lines)
    case None => None
    case Some(i) =>
      var tokens := SplitWhitespace(lines[i]);
      if |tokens| < 2 then None else Some(Trim(tokens[1]))
  }

  /** generate_accept_key: SHA-1 fed the key's bytes and then the GUID's bytes, base64
      encoded */
  function GenerateAcceptKey(crypto: Crypto, key: string): string
  {
    crypto.base64(crypto.sha1(Utf8.Encode(key) + Utf8.Encode(Guid)))
  }

  /** The response perform_handshake formats: the format string's lines with the "\r\n"
      that ends each, the accept key in the placeholder */
  function Response(acceptKey: string): string
  {
    "HTTP/1.1 101 Switching Protocols" + "\r\n" + "Upgrade: websocket" + "\r\n"
      + "Connection: Upgrade" + "\r\n" + "Sec-WebSocket-Accept: " + acceptKey + "\r\n" + "\r\n"
  }

  /** The text of the error a request without a usable key gives */
  const MissingKeyMessage: string := "Missing or invalid Sec-WebSocket-Key"

  /** What perform_handshake answers to the bytes its one read returned: the 101
      response, or nothing when no key is found */
  function Reply(crypto: Crypto, received: seq<byte>): Option<string>
  {
    match ExtractWebSocketKey(Utf8.DecodeLossy(received))
    case None => None
    case Some(key) => Some(Response(GenerateAcceptKey(crypto, key)))
  }

  /** perform_handshake: read once into a 1024-byte buffer, find the key in the got bytes
      that read returns, and write the response, or fail without writing anything */
  method PerformHandshake(stream: Reader, wire: Wire, to: Endpoint, crypto: Crypto, got: nat)
    returns (r: Outcome<RustTypes.WebSocketError>)
    requires stream.Valid()
    requires got <= 1024 && got <= |stream.Remaining()| && (got == 0 ==> stream.Remaining() == [])
    modifies stream, wire
    ensures stream.Valid() && stream.data == old(stream.data) && wire.down == old(wire.down)
    ensures stream.pos == old(stream.pos) + got
    ensures var reply := Reply(crypto, old(stream.Remaining())[..got]);
      && (reply.None? ==>
            r == Fail(RustTypes.Handshake(RustTypes.InvalidKey(MissingKeyMessage))) && wire.log == old(wire.log))
      && (reply.Some? && to in wire.down ==> r == Fail(RustTypes.Io(BrokenPipe)) && wire.log == old(wire.log))
      && (reply.Some? && to !in wire.down ==>
            r == Pass && wire.log == old(wire.log) + [Wrote(to, Utf8.Encode(reply.value))])
  {
    var received := stream.Read(1024, got);
    r := Answer(wire, to, crypto, received);
  }

  /** What perform_handshake does with the bytes it has read: find the key, then write
      the response, or fail without writing anything */
  method Answer(wire: Wire, to: Endpoint, crypto: Crypto, received: seq<byte>) returns (r: Outcome<RustTypes.WebSocketError>)
    modifies wire
    ensures wire.down == old(wire.down)
    ensures Reply(crypto, received).None? ==>
      r == Fail(RustTypes.Handshake(RustTypes.InvalidKey(MissingKeyMessage))) && wire.log == old(wire.log)
    ensures Reply(crypto, received).Some? && to in wire.down ==>
      r == Fail(RustTypes.Io(BrokenPipe)) && wire.log == old(wire.log)
    ensures Reply(crypto, received).Some? && to !in wire.down ==>
      r == Pass && wire.log == old(wire.log) + [Wrote(to, Utf8.Encode(Reply(crypto, received).value))]
  {
    var request := Utf8.DecodeLossy(received);
    var key := ExtractWebSocketKey(request);
    if key.None? {
      r := Fail(RustTypes.Handshake(RustTypes.InvalidKey(MissingKeyMessage)));
    } else {
      var acceptKey := GenerateAcceptKey(crypto, key.value);
      var response := Response(acceptKey);
      r := WriteResponse(wire, to, response);
    }
  }

  /** write_all of the response's bytes, its I/O error wrapped as a WebSocketError */
  method WriteResponse(wire: Wire, to: Endpoint, response: string) returns (r: Outcome<RustTypes.WebSocketError>)
    modifies wire
    ensures wire.down == old(wire.down)
    ensures to in wire.down ==> r == Fail(RustTypes.Io(BrokenPipe)) && wire.log == old(wire.log)
    ensures to !in wire.down ==> r == Pass && wire.log == old(wire.log) + [Wrote(to, Utf8.Encode(response))]
  {
    var w := wire.WriteAll(to, Utf8.Encode(response));
    r := if w.Fail? then Fail(RustTypes.Io(w.error)) else Pass;
  }

  /** The response is the 101 response of RFC 6455 section 4.2.2: status line, Upgrade,
      Connection and Sec-WebSocket-Accept, each ended by CRLF, then the empty line */
  lemma ResponseIsRfc(acceptKey: string)
    ensures Response(acceptKey) == SwitchingProtocols(acceptKey)
  {
    var l0, l1, l2, p := "HTTP/1.1 101 Switching Protocols", "Upgrade: websocket", "Connection: Upgrade", "Sec-WebSocket-Accept: ";
    HeadOfFour(l0, l1, l2, p + acceptKey);
    Regroup(l0 + Crlf + l1 + Crlf + l2 + Crlf, p, acceptKey, Crlf + Crlf);
  }

  lemma HeadOfFour(a: string, b: string, c: string, d: string)
    ensures HttpHead([a, b, c, d]) == a + Crlf + b + Crlf + c + Crlf + d + Crlf + Crlf
  {
    var lines := [a, b, c, d];
    assert lines[1..] == [b, c, d] && lines[1..][1..] == [c, d] && lines[1..][1..][1..] == [d];
    assert [d][1..] == [];
    assert HttpHead([d]) == d + Crlf + Crlf;
    assert HttpHead([c, d]) == c + Crlf + (d + Crlf + Crlf);
    assert HttpHead([b, c, d]) == b + Crlf + (c + Crlf + (d + Crlf + Crlf));
  }

  lemma Regroup(x: string, p: string, k: string, y: string)
    ensures x + (p + k) + y == x + p + k + y
  {
  }

  /** A reply, when there is one, is the RFC 6455 response for the key's accept value */
  lemma ReplyIsRfc(crypto: Crypto, received: seq<byte>)
    ensures Reply(crypto, received).Some? <==> ExtractWebSocketKey(Utf8.DecodeLossy(received)).Some?
    ensures Reply(crypto, received).Some? ==>
      var key := ExtractWebSocketKey(Utf8.DecodeLossy(received)).value;
      Reply(crypto, received).value == SwitchingProtocols(AcceptValue(crypto, Utf8.Encode(key)))
  {
    var key := ExtractWebSocketKey(Utf8.DecodeLossy(received));
    if key.Some? {
      ResponseIsRfc(GenerateAcceptKey(crypto, key.value));
    }
  }

  /** Only the first line starting with the header name counts: the key is that line's
      second token, or there is none, whatever later lines say */
  lemma ExtractUsesFirstKeyLine(request: string, i: nat)
    requires i < |Lines(request)| && StartsWith(Lines(request)[i], KeyHeader)
    requires forall j :: 0 <= j < i ==> !StartsWith(Lines(request)[j], KeyHeader)
    ensures var tokens := SplitWhitespace(Lines(request)[i]);
      ExtractWebSocketKey(request) == if |tokens| < 2 then None else Some(tokens[1])
  {
    var lines := Lines(request);
    assert FirstKeyLine(lines) == Some(i);
    var tokens := SplitWhitespace(lines[i]);
    if |tokens| >= 2 {
      assert Trim(tokens[1]) == tokens[1];
    }
  }

  /** Without a line starting with the header name there is no key */
  lemma ExtractWithoutKeyLine(request: string)
    requires forall j :: 0 <= j < |Lines(request)| ==> !StartsWith(Lines(request)[j], KeyHeader)
    ensures ExtractWebSocketKey(request) == None
  {
  }

  /** A line holding no line break is a text's only line */
  lemma SingleLine(s: string)
    requires s != [] && forall j :: 0 <= j < |s| ==> s[j] != '\n'
    ensures Lines(s) == [s]
  {
    assert NewlineAt(s) == |s|;
  }

  /** A line ended by CRLF comes first in the lines of the text it starts */
  lemma FirstLine(line: string, rest: string)
    requires forall j :: 0 <= j < |line| ==> line[j] != '\n'
    requires line == [] || line[|line| - 1] != '\r'
    ensures Lines(line + "\r\n" + rest) == [line] + Lines(rest)
  {
    var s := line + "\r\n" + rest;
    assert s[|line|] == '\r' && s[|line| + 1] == '\n';
    assert NewlineAt(s) == |line| + 1;
    assert s[..|line| + 1] == line + "\r";
    assert s[|line| + 2..] == rest;
  }

  /** A line that splitting leaves as it is: no '\n' in it and no '\r' at its end */
  predicate PlainLine(line: string)
  {
    (forall j :: 0 <= j < |line| ==> line[j] != '\n') && (line == [] || line[|line| - 1] != '\r')
  }

  /** Splitting an HTTP head into lines gives back its lines, then the empty line that
      ends it, when every line is plain */
  lemma {:induction false} LinesOfHttpHead(ls: seq<string>)
    requires forall k :: 0 <= k < |ls| ==> PlainLine(ls[k])
    ensures Lines(HttpHead(ls)) == ls + [""]
  {
    if ls == [] {
      FirstLine("", "");
      assert HttpHead(ls) == "" + "\r\n" + "";
    } else {
      assert PlainLine(ls[0]);
      LinesOfHttpHead(ls[1..]);
      FirstLine(ls[0], HttpHead(ls[1..]));
      assert HttpHead(ls) == ls[0] + "\r\n" + HttpHead(ls[1..]);
      assert ls == [ls[0]] + ls[1..];
    }
  }

  /** The header name is one token */
  lemma KeyHeaderIsToken()
    ensures NoWhitespace(KeyHeader) && forall j :: 0 <= j < |KeyHeader| ==> KeyHeader[j] != '\n'
  {
  }

  /** Two tokens separated by one space split into exactly those two */
  lemma SplitTwo(a: string, b: string)
    requires |a| > 0 && NoWhitespace(a) && |b| > 0 && NoWhitespace(b)
    ensures SplitWhitespace(a + " " + b) == [a, b]
  {
    assert a + " " + b == a + (" " + b);
    SplitToken(a, " " + b);
    SpaceThenToken(b);
  }

  /** A space and then a single token split into that token */
  lemma SpaceThenToken(b: string)
    requires |b| > 0 && NoWhitespace(b)
    ensures SplitWhitespace(" " + b) == [b]
  {
    var t := " " + b;
    assert t[1..] == b;
    assert SkipWhitespace(b) == b;
    assert SkipWhitespace(t) == b;
    TokenRun(b, []);
    assert b + [] == b;
    assert b[..|b|] == b && b[|b|..] == [];
  }

  /** A token followed by whitespace, or by nothing, is the first token */
  lemma SplitToken(a: string, rest: string)
    requires |a| > 0 && NoWhitespace(a) && (rest == [] || IsWhitespace(rest[0]))
    ensures SplitWhitespace(a + rest) == [a] + SplitWhitespace(rest)
  {
    var s := a + rest;
    assert s[0] == a[0];
    assert SkipWhitespace(s) == s;
    TokenRun(a, rest);
    assert s[..|a|] == a && s[|a|..] == rest;
  }

  /** A token followed by whitespace, or by nothing, ends where the whitespace starts */
  lemma {:induction false} TokenRun(a: string, rest: string)
    requires NoWhitespace(a) && (rest == [] || IsWhitespace(rest[0]))
    ensures TokenEnd(a + rest) == |a|
    decreases |a|
  {
    if a != [] {
      assert (a + rest)[1..] == a[1..] + rest;
      TokenRun(a[1..], rest);
    } else {
      assert a + rest == rest;
    }
  }

  /** The usual key line: the header name, one space, the key and CRLF; the key comes back
      unchanged whatever the lines after it hold */
  lemma ExtractKeyLine(key: string, rest: string)
    requires |key| > 0 && NoWhitespace(key)
    ensures ExtractWebSocketKey(KeyHeader + " " + key + "\r\n" + rest) == Some(key)
  {
    var line := KeyHeader + " " + key;
    KeyHeaderIsToken();
    assert forall j :: 0 <= j < |line| ==> line[j] != '\n' by {
      forall j | 0 <= j < |line|
        ensures line[j] != '\n'
      {
        if j >= |KeyHeader| + 1 {
          assert line[j] == key[j - |KeyHeader| - 1];
        }
      }
    }
    assert line[|line| - 1] == key[|key| - 1];
    FirstLine(line, rest);
    assert Lines(line + "\r\n" + rest)[0] == line;
    assert StartsWith(line, KeyHeader) by {
      assert line[..|KeyHeader|] == KeyHeader;
    }
    SplitTwo(KeyHeader, key);
    ExtractUsesFirstKeyLine(line + "\r\n" + rest, 0);
  }

  /** Without whitespace after the colon the line is a single token: no key, as for
      "Sec-WebSocket-Key:abc" */
  lemma NoSpaceAfterColon(key: string)
    requires NoWhitespace(key)
    ensures ExtractWebSocketKey(KeyHeader + key) == None
  {
    var line := KeyHeader + key;
    KeyHeaderIsToken();
    assert NoWhitespace(line) by {
      forall j | 0 <= j < |line|
        ensures !IsWhitespace(line[j])
      {
        if j >= |KeyHeader| {
          assert line[j] == key[j - |KeyHeader|];
        }
      }
    }
    assert forall j :: 0 <= j < |line| ==> line[j] != '\n';
    SingleLine(line);
    assert StartsWith(line, KeyHeader) by {
      assert line[..|KeyHeader|] == KeyHeader;
    }
    SplitToken(line, []);
    assert line + [] == line;
    assert SplitWhitespace([]) == [];
    ExtractUsesFirstKeyLine(line, 0);
  }
}
