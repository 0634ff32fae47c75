/**
 * The socket client, the socket server and the event handler they drive, as
 * objects that change. Every way of cutting the stream into reads is covered:
 * Read promises only that it returns between one and the wanted number of bytes.
 */
module SocketUtils {
  import opened Bytes
  import opened Session

  // ---------------------------------------------------------------- event handler

  function Text(s: string): (bytes: seq<byte>)
    ensures |bytes| == |s|
  {
    seq(|s|, i requires 0 <= i < |s| => s[i] as int % 256)
  }

  /** One line of the timestamp list that ends up in the log file. */
  datatype Entry = Entry(text: seq<byte>, time: uint64)

  function EntryOf(m: Message): Entry
  {
    match m
    case Start(time) => Entry(Text("Starting Session..."), time)
    case End(time) => Entry(Text("Ending Session..."), time)
    case Tag(time, name) => Entry(name, time)
  }

  function Entries(ms: seq<Message>): (es: seq<Entry>)
    ensures |es| == |ms|
    ensures forall i :: 0 <= i < |ms| ==> es[i] == EntryOf(ms[i])
  {
    seq(|ms|, i requires 0 <= i < |ms| => EntryOf(ms[i]))
  }

  class EventHandler {
    var timestamps: seq<Entry>
    var measuring: bool

    constructor ()
      ensures timestamps == [] && !measuring
    {
      timestamps, measuring := [], false;
    }

    method StartHandler(time: uint64)
      modifies this
      ensures timestamps == old(timestamps) + Entries([Start(time)]) && measuring
    {
      timestamps := timestamps + [Entry(Text("Starting Session..."), time)];
      measuring := true;
    }

    method TagHandler(time: uint64, tag: seq<byte>)
      modifies this`timestamps
      ensures timestamps == old(timestamps) + Entries([Tag(time, tag)])
    {
      timestamps := timestamps + [Entry(tag, time)];
    }

    method EndHandler(time: uint64)
      modifies this
      ensures timestamps == old(timestamps) + Entries([End(time)]) && !measuring
    {
      timestamps := timestamps + [Entry(Text("Ending Session..."), time)];
      measuring := false;
    }
  }

  // ---------------------------------------------------------------- connection

  /** The server's end of a socket: bytes still to arrive, and bytes written back. */
  class Connection {
    var inbound: seq<byte>
    var outbound: seq<byte>

    constructor (stream: seq<byte>)
      ensures inbound == stream && outbound == []
    {
      inbound, outbound := stream, [];
    }

    /** A read that returns: at least one byte, at most what was asked for. */
    method Read(want: nat) returns (chunk: seq<byte>)
      requires want > 0 && inbound != []
      modifies this`inbound
      ensures 1 <= |chunk| <= want
      ensures old(inbound) == chunk + inbound
    {
      var k: nat :| 1 <= k <= want && k <= |inbound|;
      chunk, inbound := inbound[..k], inbound[k..];
    }

    method Write(bytes: seq<byte>)
      modifies this`outbound
      ensures outbound == old(outbound) + bytes
    {
      outbound := outbound + bytes;
    }
  }

  // ---------------------------------------------------------------- server

  /** Replies the server owes for these handler calls: one per START. */
  function Replies(ms: seq<Message>): (bytes: seq<byte>)
  {
    if ms == [] then []
    else (if ms[0].Start? then [HANDSHAKE_OK] else []) + Replies(ms[1..])
  }

  function Starts(ms: seq<Message>): (n: nat)
  {
    if ms == [] then 0 else (if ms[0].Start? then 1 else 0) + Starts(ms[1..])
  }

  /** Every START, and nothing else, is answered with the handshake byte. */
  lemma {:induction false} RepliesAreHandshakes(ms: seq<Message>)
    ensures Replies(ms) == seq(Starts(ms), _ => 3)
  {
    if ms != [] {
      RepliesAreHandshakes(ms[1..]);
    }
  }

  class SocketServer {
    const handler: EventHandler

    constructor (handler: EventHandler)
      ensures this.handler == handler
    {
      this.handler := handler;
    }

    /**
     * Fills the buffer, however the bytes are cut into reads; the bytes still
     * wanted shrink at every read. Not filled means the stream ran dry.
     */
    method ReadData(conn: Connection, buf: array<byte>) returns (filled: bool)
      modifies conn`inbound, buf
      ensures filled <==> buf.Length <= |old(conn.inbound)|
      ensures filled ==> buf[..] + conn.inbound == old(conn.inbound)
      ensures !filled ==> conn.inbound == []
    {
      var toRead, position := buf.Length, 0;
      while toRead > 0
        invariant 0 <= position <= buf.Length == position + toRead
        invariant buf[..position] + conn.inbound == old(conn.inbound)
        decreases toRead
      {
        if conn.inbound == [] {
          return false;
        }
        var chunk := conn.Read(toRead);
        ghost var before := buf[..position];
        forall i | 0 <= i < |chunk| {
          buf[position + i] := chunk[i];
        }
        assert buf[..position + |chunk|] == before + chunk;
        position, toRead := position + |chunk|, toRead - |chunk|;
      }
      return true;
    }

    method ReadNumber(conn: Connection) returns (filled: bool, value: uint64)
      modifies conn`inbound
      ensures filled <==> 8 <= |old(conn.inbound)|
      ensures filled ==> value == FromLittleEndian(old(conn.inbound)[..8])
      ensures filled ==> conn.inbound == old(conn.inbound)[8..]
      ensures !filled ==> conn.inbound == []
    {
      var buf := new byte[8];
      filled := ReadData(conn, buf);
      Pow256Values();
      value := FromLittleEndian(buf[..]);
    }

    /**
     * Serves one message. It does to the connection and the handler what
     * Receive says of the bytes, whatever the fragmentation.
     */
    method HandleClientConnection(conn: Connection) returns (r: Received)
      modifies conn, handler
      ensures r == Receive(old(conn.inbound))
      ensures r.Starved? ==> conn.inbound == []
      ensures !r.Starved? ==> conn.inbound == r.rest
      ensures handler.timestamps == old(handler.timestamps) + (if r.Call? then Entries([r.message]) else [])
      ensures conn.outbound == old(conn.outbound) + (if r.Call? then Replies([r.message]) else [])
    {
      ghost var stream := conn.inbound;
      var code := new byte[1];
      var filled := ReadData(conn, code);
      if !filled {
        return Starved;
      }
      assert stream == [code[0]] + conn.inbound;
      if code[0] == SESSION_START {
        r := HandleSessionStart(conn);
      } else if code[0] == SESSION_END {
        r := HandleSessionEnd(conn);
      } else if code[0] == SESSION_TAG {
        r := HandleTag(conn, stream);
      } else {
        r := Unknown(code[0], conn.inbound);
      }
    }

    method HandleSessionStart(conn: Connection) returns (r: Received)
      modifies conn, handler
      ensures r == Receive([SESSION_START] + old(conn.inbound))
      ensures conn.inbound == if r.Call? then r.rest else []
      ensures handler.timestamps == old(handler.timestamps) + (if r.Call? then Entries([r.message]) else [])
      ensures conn.outbound == old(conn.outbound) + (if r.Call? then Replies([r.message]) else [])
    {
      ghost var stream := [SESSION_START] + conn.inbound;
      var filled, time := ReadNumber(conn);
      if !filled {
        return Starved;
      }
      assert stream[1..9] == old(conn.inbound)[..8];
      handler.StartHandler(time);
      conn.Write([HANDSHAKE_OK]);
      return Call(Start(time), conn.inbound);
    }

    method HandleSessionEnd(conn: Connection) returns (r: Received)
      modifies conn`inbound, handler
      ensures r == Receive([SESSION_END] + old(conn.inbound))
      ensures conn.inbound == if r.Call? then r.rest else []
      ensures handler.timestamps == old(handler.timestamps) + (if r.Call? then Entries([r.message]) else [])
      ensures r.Call? ==> r.message.End?
    {
      ghost var stream := [SESSION_END] + conn.inbound;
      var filled, time := ReadNumber(conn);
      if !filled {
        return Starved;
      }
      assert stream[1..9] == old(conn.inbound)[..8];
      handler.EndHandler(time);
      return Call(End(time), conn.inbound);
    }

    method HandleTag(conn: Connection, ghost stream: seq<byte>) returns (r: Received)
      requires stream == [SESSION_TAG] + conn.inbound
      modifies conn`inbound, handler`timestamps
      ensures r == Receive(stream)
      ensures r.Starved? ==> conn.inbound == []
      ensures !r.Starved? ==> conn.inbound == r.rest
      ensures r.Call? || r.Starved? || r.Unterminated?
      ensures r.Call? ==> r.message.Tag?
      ensures handler.timestamps == old(handler.timestamps) + (if r.Call? then Entries([r.message]) else [])
    {
      var filled, size := ReadNumber(conn);
      if !filled {
        return Starved;
      }
      assert stream[1..9] == old(conn.inbound)[..8];
      assert stream[9..] == conn.inbound;
      var message := new byte[size];
      filled := ReadData(conn, message);
      if !filled {
        return Starved;
      }
      assert stream[9..9 + size] == message[..];
      assert stream[9 + size..] == conn.inbound;
      ghost var atTime := conn.inbound;
      var time: uint64;
      filled, time := ReadNumber(conn);
      if !filled {
        return Starved;
      }
      assert stream[9 + size..17 + size] == atTime[..8];
      assert stream[17 + size..] == conn.inbound;
      if 0 !in message[..] {
        return Unterminated(conn.inbound);
      }
      handler.TagHandler(time, CString(message[..]));
      return Call(Tag(time, CString(message[..])), conn.inbound);
    }

    /**
     * Serves a whole connection. The outcome is Serve of the bytes alone: no
     * fragmentation of the stream can change it.
     */
    method ListenForClient(conn: Connection) returns (status: Status)
      modifies conn, handler
      ensures var o := Serve(old(conn.inbound));
        && status == o.status
        && conn.inbound == o.rest
        && handler.timestamps == old(handler.timestamps) + Entries(o.calls)
        && conn.outbound == old(conn.outbound) + Replies(o.calls)
    {
      hide Receive, Serve, Entries, Replies, AfterCalls;
      ghost var done: seq<Message> := [];
      ghost var o := Serve(conn.inbound);
      ghost var list, answers := handler.timestamps, conn.outbound;
      NothingYet(o, list, answers);
      while true
        invariant o == AfterCalls(done, Serve(conn.inbound))
        invariant handler.timestamps == list + Entries(done)
        invariant conn.outbound == answers + Replies(done)
        decreases |conn.inbound|
      {
        ghost var stream := conn.inbound;
        var r := HandleClientConnection(conn);
        ServeStep(done, stream);
        assert r.Call? || list + Entries(done) + [] == list + Entries(done);
        assert r.Call? || answers + Replies(done) + [] == answers + Replies(done);
        match r {
          case Starved => return Waiting;
          case Unknown(code, _) => return BadCode(code);
          case Unterminated(_) => return BadTag;
          case Call(m, _) =>
            AppendCall(done, m);
            assert list + Entries(done) + Entries([m]) == list + (Entries(done) + Entries([m]));
            assert answers + Replies(done) + Replies([m]) == answers + (Replies(done) + Replies([m]));
            done := done + [m];
            if m.End? {
              return Finished;
            }
        }
      }
    }
  }

  // ---------------------------------------------------------------- client

  method Memcpy(buffer: array<byte>, position: nat, bytes: seq<byte>)
    requires position + |bytes| <= buffer.Length
    modifies buffer
    ensures buffer[..position + |bytes|] == old(buffer[..position]) + bytes
  {
    forall i | 0 <= i < |bytes| {
      buffer[position + i] := bytes[i];
    }
  }

  class SocketClient {
    /** Everything sent so far. */
    var wire: seq<byte>

    constructor ()
      ensures wire == []
    {
      wire := [];
    }

    /** Sends START and passes on whether the server's answer is the handshake. */
    method SendSessionStart(now: uint64, response: byte) returns (ok: bool)
      modifies this
      ensures wire == old(wire) + Encode(Start(now))
      ensures ok <==> response == HANDSHAKE_OK
    {
      SendStamped(SESSION_START, now);
      ok := response == HANDSHAKE_OK;
    }

    method SendSessionEnd(now: uint64)
      modifies this
      ensures wire == old(wire) + Encode(End(now))
    {
      SendStamped(SESSION_END, now);
    }

    method SendStamped(code: byte, now: uint64)
      modifies this
      ensures wire == old(wire) + [code] + LittleEndian(8, now)
    {
      var buffer := new byte[SEND_BUFFER];
      var position := 0;
      Memcpy(buffer, position, [code]);
      position := position + 1;
      Memcpy(buffer, position, LittleEndian(8, now));
      position := position + 8;
      wire := wire + buffer[..position];
    }

    /**
     * The tag and its framing are copied into the buffer piece by piece. A piece
     * the buffer has no room for, which the code copies all the same, ends the
     * model here: inside says whether every copy stayed in the buffer.
     */
    method SendTag(name: seq<byte>, now: uint64) returns (inside: bool)
      modifies this
      ensures inside <==> Fits(Tag(now, name))
      ensures wire == if inside then old(wire) + Encode(Tag(now, name)) else old(wire)
    {
      hide LittleEndian, Encode, Fits;
      FitsExactly(Tag(now, name));
      TagFrame(name, now);
      var buffer := new byte[SEND_BUFFER];
      var position := 0;
      Memcpy(buffer, position, [SESSION_TAG]);
      position := position + 1;
      Memcpy(buffer, position, LittleEndian(8, |name| + 1));
      position := position + 8;
      if position + |name| + 1 > buffer.Length {
        return false;
      }
      Memcpy(buffer, position, name + [0]);
      position := position + |name| + 1;
      if position + 8 > buffer.Length {
        return false;
      }
      Memcpy(buffer, position, LittleEndian(8, now));
      position := position + 8;
      wire := wire + buffer[..position];
      return true;
    }
  }

  lemma TagFrame(name: seq<byte>, now: uint64)
    ensures Encode(Tag(now, name))
         == [SESSION_TAG] + LittleEndian(8, |name| + 1) + (name + [0]) + LittleEndian(8, now)
  {
    hide LittleEndian;
  }

  /**
   * A whole session, client to timestamp list: the list holds the start, every
   * tag in sending order, and the end, each with the client's time, and no byte
   * is left unread.
   */
  method RunSession(ms: seq<Message>, server: SocketServer) returns (conn: Connection, status: Status)
    requires IsSession(ms)
    modifies server.handler
    ensures status == Finished && conn.inbound == []
    ensures server.handler.timestamps == old(server.handler.timestamps) + Entries(DeliveredAll(ms))
    ensures conn.outbound == seq(Starts(ms), _ => 3)
  {
    hide Encode, Fits, Entries, DeliveredAll, Replies, Serve;
    var client := new SocketClient();
    for i := 0 to |ms|
      invariant fresh(client)
      invariant client.wire == EncodeAll(ms[..i])
      invariant server.handler.timestamps == old(server.handler.timestamps)
    {
      match ms[i] {
        case Start(time) => var _ := client.SendSessionStart(time, HANDSHAKE_OK);
        case Tag(time, name) => var _ := client.SendTag(name, time);
        case End(time) => client.SendSessionEnd(time);
      }
      assert ms[..i + 1] == ms[..i] + [ms[i]];
      EncodeAllAppend(ms[..i], [ms[i]]);
      EncodeAllOne(ms[i]);
    }
    assert ms[..|ms|] == ms;
    conn := new Connection(client.wire);
    SessionRoundTrip(ms, []);
    assert EncodeAll(ms) + [] == EncodeAll(ms);
    status := server.ListenForClient(conn);
    RepliesAreHandshakes(DeliveredAll(ms));
    SameStarts(ms);
    assert [] + Replies(DeliveredAll(ms)) == Replies(DeliveredAll(ms));
  }

  lemma {:induction false} SameStarts(ms: seq<Message>)
    ensures Starts(DeliveredAll(ms)) == Starts(ms)
  {
    if ms != [] {
      SameStarts(ms[1..]);
      assert DeliveredAll(ms)[1..] == DeliveredAll(ms[1..]);
    }
  }

  lemma EncodeAllOne(m: Message)
    ensures EncodeAll([m]) == Encode(m)
  {
    hide Encode;
    assert EncodeAll([m][1..]) == [];
  }

  // ---------------------------------------------------------------- supporting lemmas

  /** The outcome of a stream whose first messages have been served already. */
  function AfterCalls(done: seq<Message>, o: Outcome): Outcome
  {
    Outcome(done + o.calls, o.status, o.rest)
  }

  /** Serving one more message moves its call from the outcome to the calls done. */
  lemma ServeStep(done: seq<Message>, stream: seq<byte>)
    ensures var r := Receive(stream);
      AfterCalls(done, Serve(stream)) ==
      match r
      case Starved => Outcome(done, Waiting, [])
      case Unknown(code, rest) => Outcome(done, BadCode(code), rest)
      case Unterminated(rest) => Outcome(done, BadTag, rest)
      case Call(m, rest) =>
        if m.End? then Outcome(done + [m], Finished, rest) else AfterCalls(done + [m], Serve(rest))
    ensures Receive(stream).Call? ==> |Receive(stream).rest| < |stream|
  {
    var r := Receive(stream);
    if r.Call? && !r.message.End? {
      assert done + ([r.message] + Serve(r.rest).calls) == done + [r.message] + Serve(r.rest).calls;
    }
  }

  lemma NothingYet(o: Outcome, list: seq<Entry>, answers: seq<byte>)
    ensures AfterCalls([], o) == o
    ensures list + Entries([]) == list && answers + Replies([]) == answers
  {
    assert [] + o.calls == o.calls;
  }

  lemma AppendCall(ms: seq<Message>, m: Message)
    ensures Replies(ms + [m]) == Replies(ms) + Replies([m])
    ensures Entries(ms + [m]) == Entries(ms) + Entries([m])
  {
    hide EntryOf, Replies;
    RepliesAppend(ms, m);
  }

  lemma {:induction false} RepliesAppend(ms: seq<Message>, m: Message)
    ensures Replies(ms + [m]) == Replies(ms) + Replies([m])
  {
    if ms == [] {
      assert ms + [m] == [m];
    } else {
      RepliesAppend(ms[1..], m);
      assert (ms + [m])[1..] == ms[1..] + [m];
    }
  }

  /** The text of a list entry, for characters that are bytes. */
  lemma TextIsItsBytes(s: string, i: nat)
    requires i < |s| && s[i] as int < 256
    ensures Text(s)[i] == s[i] as int
  {
  }
}
