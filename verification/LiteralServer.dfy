/**
 * The socket server with the reads it really makes: the loop whose int pointer
 * moves four bytes per byte read, and the single reads of the START and END time
 * stamps. This module says for which fragmentations it serves a connection as
 * Session.Serve says, which SocketUtils does for all of them.
 */
module LiteralServer {
  import opened Basics
  import opened Bytes
  import opened Session
  import opened ShortReads
  import SocketUtils

  /** The reads in which the blocks of one message arrive. */
  datatype Arrival =
    | NoBlocks
    | Stamp(chunk: seq<byte>)
    | TagBlocks(size: seq<seq<byte>>, text: seq<seq<byte>>, time: seq<seq<byte>>)

  /** The first n bytes of memory, when all of them are set. */
  function Values(mem: Memory, n: nat): (bytes: Option<seq<byte>>)
    ensures bytes.Some? <==> forall i: nat :: i < n ==> mem(i).Written?
    ensures bytes.Some? ==> |bytes.value| == n && forall i: nat :: i < n ==> mem(i) == Written(bytes.value[i])
  {
    if n == 0 then Some([])
    else
      match Values(mem, n - 1)
      case None => None
      case Some(front) =>
        match mem(n - 1)
        case Uninitialised => None
        case Written(value) => Some(front + [value])
  }

  lemma ValuesHold(mem: Memory, data: seq<byte>)
    ensures Values(mem, |data|) == Some(data) <==> Holds(mem, 0, data)
  {
    hide Values;
    var bytes := Values(mem, |data|);
    if Holds(mem, 0, data) {
      forall i: nat | i < |data| ensures mem(i) == Written(data[i]) {
        assert mem(0 + i) == Written(data[i]);
      }
      assert forall i: nat :: i < |data| ==> bytes.value[i] == data[i];
      assert bytes.value == data;
    }
  }

  // ---------------------------------------------------------------- one message

  /** Served, or a variable was used that its read did not set; rest is what is left to be read. */
  datatype Handled = Done(received: Received) | Garbled(rest: seq<byte>)

  /** The chunks are data, cut into reads that brought something. */
  predicate Parts(chunks: seq<seq<byte>>, data: seq<byte>)
  {
    Flatten(chunks) == data && forall i :: 0 <= i < |chunks| ==> chunks[i] != []
  }

  predicate IsStamped(stream: seq<byte>)
  {
    stream != [] && (stream[0] == SESSION_START || stream[0] == SESSION_END)
  }

  predicate IsTag(stream: seq<byte>)
  {
    stream != [] && stream[0] == SESSION_TAG
  }

  /** The size a tag is sent with. */
  function SizeOf(stream: seq<byte>): nat
    requires |stream| >= 9
  {
    FromLittleEndian(stream[1..9])
  }

  /** The arrival is one of the ways the stream can be cut into reads. */
  predicate Possible(stream: seq<byte>, a: Arrival)
  {
    && (IsStamped(stream) && |stream| > 1 ==> a.Stamp? && 1 <= |a.chunk| <= 8 && a.chunk <= stream[1..])
    && (IsTag(stream) && |stream| >= 9 ==>
          var n := SizeOf(stream);
          && a.TagBlocks?
          && Parts(a.size, stream[1..9])
          && (|stream| >= 9 + n ==> Parts(a.text, stream[9..9 + n]))
          && (|stream| >= 17 + n ==> Parts(a.time, stream[9 + n..17 + n])))
  }

  /** What a single read of a time stamp on the stack leaves there. */
  function ReadOnce(chunk: seq<byte>): Option<seq<byte>>
  {
    Values(Store(Fresh(), 0, chunk), 8)
  }

  /** What the read loop leaves in a number on the stack. */
  function ReadNumber(chunks: seq<seq<byte>>): Option<seq<byte>>
  {
    Values(Deposit(Fresh(), 0, chunks, INT_POINTER), 8)
  }

  function ReceiveStamped(stream: seq<byte>, chunk: seq<byte>): Handled
    requires IsStamped(stream) && chunk <= stream[1..]
  {
    match ReadOnce(chunk)
    case None => Garbled(stream[1 + |chunk|..])
    case Some(bytes) =>
      Pow256Values();
      var time: uint64 := FromLittleEndian(bytes);
      Done(Call(if stream[0] == SESSION_START then Start(time) else End(time), stream[1 + |chunk|..]))
  }

  function ReceiveTag(stream: seq<byte>, a: Arrival): Handled
    requires IsTag(stream) && |stream| >= 9 && a.TagBlocks?
  {
    match ReadNumber(a.size)
    case None => Garbled(stream[9..])
    case Some(size) =>
      var n := FromLittleEndian(size);
      if |stream| < 17 + n then Done(Starved)
      else
        match ReadNumber(a.time)
        case None => Garbled(stream[17 + n..])
        case Some(time) =>
          Pow256Values();
          match Values(Deposit(Zeroed(), 0, a.text, INT_POINTER), n)
          case None => Garbled(stream[17 + n..])
          case Some(text) =>
            if 0 !in text then Done(Unterminated(stream[17 + n..]))
            else Done(Call(Tag(FromLittleEndian(time), CString(text)), stream[17 + n..]))
  }

  /** What the first message of a stream, arriving so, makes the server do. */
  function ReceiveAsRead(stream: seq<byte>, a: Arrival): Handled
    requires Possible(stream, a)
  {
    if stream == [] then Done(Starved)
    else if IsStamped(stream) then
      if |stream| == 1 then Done(Starved) else ReceiveStamped(stream, a.chunk)
    else if IsTag(stream) then
      if |stream| < 9 then Done(Starved) else ReceiveTag(stream, a)
    else Done(Unknown(stream[0], stream[1..]))
  }

  /**
   * Time stamps and sizes arrive in one read, and the first read of a tag's text
   * brings all in front of its first NUL.
   */
  predicate ArrivesWell(stream: seq<byte>, a: Arrival)
    requires Possible(stream, a)
  {
    && (IsStamped(stream) && |stream| > 1 ==> |a.chunk| == 8)
    && (IsTag(stream) && |stream| >= 9 ==>
          && |a.size| == 1
          && var n := SizeOf(stream);
             |stream| >= 17 + n ==>
               && |a.time| == 1
               && (n > 0 ==> |a.text[0]| >= |CString(stream[9..9 + n])|))
  }

  // ---------------------------------------------------------------- the blocks

  lemma ReadOnceExactly(chunk: seq<byte>)
    requires |chunk| <= 8
    ensures ReadOnce(chunk) == if |chunk| == 8 then Some(chunk) else None
  {
    hide Values;
    var mem := Store(Fresh(), 0, chunk);
    if |chunk| == 8 {
      ValuesHold(mem, chunk);
    } else {
      assert mem(|chunk|).Uninitialised?;
    }
  }

  lemma ReadNumberExactly(chunks: seq<seq<byte>>, data: seq<byte>)
    requires Parts(chunks, data) && |data| == 8
    ensures ReadNumber(chunks) == if |chunks| == 1 then Some(data) else None
  {
    hide Values, Deposit, Landing;
    var mem := Deposit(Fresh(), 0, chunks, INT_POINTER);
    assert Reads(chunks);
    UnsetDeliversExactly(chunks);
    ValuesHold(mem, data);
    if |chunks| > 1 {
      FirstOfMany(chunks);
      GapBehindTheFirst(Fresh(), chunks);
      assert mem(|chunks[0]|).Uninitialised?;
    }
  }

  /** The cell behind the first read stays as it was. */
  lemma GapBehindTheFirst(mem: Memory, chunks: seq<seq<byte>>)
    requires Reads(chunks)
    ensures Deposit(mem, 0, chunks, INT_POINTER)(|chunks[0]|) == mem(|chunks[0]|)
    ensures forall i: nat :: i < |chunks[0]| ==>
      Deposit(mem, 0, chunks, INT_POINTER)(i) == Written(Flatten(chunks)[i])
  {
    hide Deposit;
    DepositLands(mem, 0, chunks, |chunks[0]|);
    forall i: nat | i < |chunks[0]|
      ensures Deposit(mem, 0, chunks, INT_POINTER)(i) == Written(Flatten(chunks)[i])
    {
      DepositLands(mem, 0, chunks, i);
    }
  }

  lemma {:induction false} CStringIs(bytes: seq<byte>, f: nat)
    requires f <= |bytes| && 0 !in bytes[..f] && (f == |bytes| || bytes[f] == 0)
    ensures CString(bytes) == bytes[..f]
  {
    if f > 0 {
      assert bytes[0] == bytes[..f][0];
      assert bytes[1..][..f - 1] == bytes[..f][1..];
      CStringIs(bytes[1..], f - 1);
    }
  }

  lemma {:induction false} CStringEnds(bytes: seq<byte>)
    ensures var f := |CString(bytes)|; f == |bytes| || bytes[f] == 0
  {
    if bytes != [] && bytes[0] != 0 {
      CStringEnds(bytes[1..]);
    }
  }

  /** The text a handler is given, against the text that was sent. */
  lemma TextExactly(chunks: seq<seq<byte>>, data: seq<byte>)
    requires Parts(chunks, data)
    ensures var text := Values(Deposit(Zeroed(), 0, chunks, INT_POINTER), |data|);
      && text.Some?
      && if data == [] || |chunks[0]| >= |CString(data)| then
           CString(text.value) == CString(data) && (0 in text.value <==> 0 in data)
         else 0 in text.value && |CString(text.value)| < |CString(data)|
  {
    hide Values, Deposit, Landing, Flatten;
    var mem := Deposit(Zeroed(), 0, chunks, INT_POINTER);
    forall i: nat | i < |data| ensures mem(i).Written? {
      DepositLands(Zeroed(), 0, chunks, i);
    }
    var text := Values(mem, |data|).value;
    if data != [] {
      NotEmpty(chunks);
      FirstOfMany(chunks);
      GapBehindTheFirst(Zeroed(), chunks);
      var k := |chunks[0]|;
      assert k < |data| ==> mem(k) == Written(0);
      assert text[..k] == data[..k];
      CutText(text, data, k);
    }
  }

  lemma NotEmpty(chunks: seq<seq<byte>>)
    requires Flatten(chunks) != []
    ensures chunks != []
  {
  }

  /** Text that agrees up to k and has a NUL there. */
  lemma CutText(text: seq<byte>, data: seq<byte>, k: nat)
    requires k <= |text| == |data| && text[..k] == data[..k] && (k < |data| ==> text[k] == 0)
    ensures if k >= |CString(data)| then CString(text) == CString(data) && (0 in text <==> 0 in data)
            else 0 in text && |CString(text)| < |CString(data)|
  {
    hide CString;
    var f := |CString(data)|;
    CStringEnds(data);
    if k >= f {
      KeptText(text, data, k, f);
    } else {
      assert data[..k] == CString(data)[..k];
      assert 0 !in text[..k];
      CStringIs(text, k);
    }
  }

  lemma KeptText(text: seq<byte>, data: seq<byte>, k: nat, f: nat)
    requires f <= k <= |text| == |data| && text[..k] == data[..k] && (k < |data| ==> text[k] == 0)
    requires CString(data) == data[..f] && (f == |data| || data[f] == 0)
    ensures CString(text) == CString(data) && (0 in text <==> 0 in data)
  {
    hide CString;
    assert text[..f] == text[..k][..f] == data[..k][..f] == data[..f];
    assert f < k ==> text[f] == text[..k][f] == data[..k][f] == data[f];
    CStringIs(text, f);
    if f == |data| {
      assert text == text[..f] && data == data[..f];
    }
  }

  // ---------------------------------------------------------------- a message, exactly

  /** Either the message is served as the bytes say, or garbled, or its tag reaches the handler cut short. */
  lemma MessageServed(stream: seq<byte>, a: Arrival)
    requires Possible(stream, a)
    ensures var h, r := ReceiveAsRead(stream, a), Receive(stream);
      if ArrivesWell(stream, a) then h == Done(r)
      else h.Garbled? || (h.received.Call? && !(r.Call? && r.message == h.received.message))
  {
    if IsStamped(stream) && |stream| > 1 {
      StampServed(stream, a);
    } else if IsTag(stream) && |stream| >= 9 {
      TagServed(stream, a);
    }
  }

  lemma StampServed(stream: seq<byte>, a: Arrival)
    requires Possible(stream, a) && IsStamped(stream) && |stream| > 1
    ensures if |a.chunk| == 8 then ReceiveAsRead(stream, a) == Done(Receive(stream))
            else ReceiveAsRead(stream, a) == Garbled(stream[1 + |a.chunk|..])
  {
    hide ReadOnce, FromLittleEndian;
    ReadOnceExactly(a.chunk);
    if |a.chunk| == 8 {
      assert a.chunk == stream[1..9];
    }
  }

  lemma TagServed(stream: seq<byte>, a: Arrival)
    requires Possible(stream, a) && IsTag(stream) && |stream| >= 9
    ensures var h, r := ReceiveAsRead(stream, a), Receive(stream);
      if ArrivesWell(stream, a) then h == Done(r)
      else h.Garbled? || (h.received.Call? && !(r.Call? && r.message == h.received.message))
  {
    hide ReadNumber, FromLittleEndian, CString, Values, Parts, Deposit;
    ReadNumberExactly(a.size, stream[1..9]);
    var n := SizeOf(stream);
    if |stream| >= 17 + n {
      ReadNumberExactly(a.time, stream[9 + n..17 + n]);
      TextExactly(a.text, stream[9..9 + n]);
    }
  }

  /** One message is served as its bytes say exactly when its blocks arrive well. */
  lemma MessageExactly(stream: seq<byte>, a: Arrival)
    requires Possible(stream, a)
    ensures ReceiveAsRead(stream, a) == Done(Receive(stream)) <==> ArrivesWell(stream, a)
  {
    hide ReceiveAsRead, Receive, ArrivesWell;
    MessageServed(stream, a);
  }

  /** A short read of a START's time stamp leaves its last bytes for the next message. */
  lemma ShortStampIsNextMessage(time: uint64, k: nat, rest: seq<byte>)
    requires 1 <= k < 8
    ensures var stream := Encode(Start(time)) + rest;
      var chunk := stream[1..1 + k];
      && Possible(stream, Stamp(chunk))
      && ReceiveAsRead(stream, Stamp(chunk)) == Garbled(LittleEndian(8, time)[k..] + rest)
  {
    hide LittleEndian, ReceiveAsRead;
    var stream := Encode(Start(time)) + rest;
    assert stream == [SESSION_START] + LittleEndian(8, time) + rest;
    StampServed(stream, Stamp(stream[1..1 + k]));
    assert stream[1 + k..] == LittleEndian(8, time)[k..] + rest;
  }

  // ---------------------------------------------------------------- a connection

  predicate AllPossible(stream: seq<byte>, arrivals: seq<Arrival>)
    decreases |arrivals|
  {
    && arrivals != []
    && Possible(stream, arrivals[0])
    && match ReceiveAsRead(stream, arrivals[0])
       case Done(Call(m, rest)) => m.End? || AllPossible(rest, arrivals[1..])
       case _ => true
  }

  /** The outcome of a connection; none when a message was garbled. */
  function ServeAsRead(stream: seq<byte>, arrivals: seq<Arrival>): Option<Outcome>
    requires AllPossible(stream, arrivals)
    decreases |arrivals|
  {
    match ReceiveAsRead(stream, arrivals[0])
    case Garbled(_) => None
    case Done(Starved) => Some(Outcome([], Waiting, []))
    case Done(Unknown(code, rest)) => Some(Outcome([], BadCode(code), rest))
    case Done(Unterminated(rest)) => Some(Outcome([], BadTag, rest))
    case Done(Call(m, rest)) =>
      if m.End? then Some(Outcome([m], Finished, rest))
      else
        match ServeAsRead(rest, arrivals[1..])
        case None => None
        case Some(o) => Some(Outcome([m] + o.calls, o.status, o.rest))
  }

  predicate AllArriveWell(stream: seq<byte>, arrivals: seq<Arrival>)
    requires AllPossible(stream, arrivals)
    decreases |arrivals|
  {
    && ArrivesWell(stream, arrivals[0])
    && match ReceiveAsRead(stream, arrivals[0])
       case Done(Call(m, rest)) => m.End? || AllArriveWell(rest, arrivals[1..])
       case _ => true
  }

  /**
   * Whatever the stream and however it is cut into reads, the server as written
   * makes the handler calls, with the status and the bytes left unread, that the
   * bytes say, exactly when the blocks of every message arrive well.
   */
  lemma {:induction false} ServesExactly(stream: seq<byte>, arrivals: seq<Arrival>)
    requires AllPossible(stream, arrivals)
    ensures ServeAsRead(stream, arrivals) == Some(Serve(stream)) <==> AllArriveWell(stream, arrivals)
    decreases |arrivals|
  {
    hide ReceiveAsRead, Receive, ArrivesWell, Possible;
    MessageServed(stream, arrivals[0]);
    var h := ReceiveAsRead(stream, arrivals[0]);
    if ArrivesWell(stream, arrivals[0]) {
      if h.received.Call? && !h.received.message.End? {
        var m, rest := h.received.message, h.received.rest;
        ServesExactly(rest, arrivals[1..]);
        SameCalls(m, ServeAsRead(rest, arrivals[1..]), Serve(rest));
      }
    } else if h.Done? {
      CallsStart(stream);
      CallsStartAsRead(stream, arrivals);
    }
  }

  lemma SameCalls(m: Message, o: Option<Outcome>, p: Outcome)
    ensures o.Some? && o.value != p ==>
      Outcome([m] + o.value.calls, o.value.status, o.value.rest) != Outcome([m] + p.calls, p.status, p.rest)
  {
    if o.Some? && [m] + o.value.calls == [m] + p.calls {
      assert o.value.calls == ([m] + o.value.calls)[1..] == ([m] + p.calls)[1..] == p.calls;
    }
  }

  lemma CallsStart(stream: seq<byte>)
    ensures var r, calls := Receive(stream), Serve(stream).calls;
      calls != [] ==> r.Call? && calls[0] == r.message
  {
    hide Receive;
  }

  lemma CallsStartAsRead(stream: seq<byte>, arrivals: seq<Arrival>)
    requires AllPossible(stream, arrivals)
    ensures var h, o := ReceiveAsRead(stream, arrivals[0]), ServeAsRead(stream, arrivals);
      h.Done? && h.received.Call? && o.Some? ==> o.value.calls != [] && o.value.calls[0] == h.received.message
  {
    hide ReceiveAsRead, Possible;
  }

  // ---------------------------------------------------------------- the server

  class Server {
    /** handleClientConnection up to the handler call, on a connection whose reads bring what they like. */
    method HandleMessage(conn: SocketUtils.Connection) returns (h: Handled, ghost a: Arrival)
      modifies conn`inbound
      ensures Possible(old(conn.inbound), a) && h == ReceiveAsRead(old(conn.inbound), a)
      ensures h.Garbled? ==> conn.inbound == h.rest
      ensures h.Done? && h.received.Call? ==> conn.inbound == h.received.rest
    {
      hide Values, Deposit, Flatten, FromLittleEndian, CString;
      ghost var stream := conn.inbound;
      a := NoBlocks;
      if conn.inbound == [] {
        return Done(Starved), NoBlocks;
      }
      var code := conn.Read(1);
      assert stream == code + conn.inbound && stream[0] == code[0] && conn.inbound == stream[1..];
      if code[0] == SESSION_START || code[0] == SESSION_END {
        if conn.inbound == [] {
          return Done(Starved), NoBlocks;
        }
        var chunk := conn.Read(8);
        a := Stamp(chunk);
        assert conn.inbound == stream[1 + |chunk|..];
        var bytes := ReadOnce(chunk);
        if bytes.None? {
          return Garbled(conn.inbound), a;
        }
        Pow256Values();
        var time: uint64 := FromLittleEndian(bytes.value);
        return Done(Call(if code[0] == SESSION_START then Start(time) else End(time), conn.inbound)), a;
      } else if code[0] == SESSION_TAG {
        h, a := HandleTag(conn, stream);
      } else {
        return Done(Unknown(code[0], conn.inbound)), NoBlocks;
      }
    }

    method HandleTag(conn: SocketUtils.Connection, ghost stream: seq<byte>) returns (h: Handled, ghost a: Arrival)
      requires stream == [SESSION_TAG] + conn.inbound
      modifies conn`inbound
      ensures Possible(stream, a) && h == ReceiveAsRead(stream, a)
      ensures h.Garbled? ==> conn.inbound == h.rest
      ensures h.Done? && h.received.Call? ==> conn.inbound == h.received.rest
    {
      hide Values, Deposit, Flatten, FromLittleEndian, CString, Fresh, Zeroed;
      var filled, mem, sizeChunks := ReadDataAsWritten(conn, Fresh(), 8, INT_POINTER);
      a := TagBlocks(sizeChunks, [], []);
      if !filled {
        return Done(Starved), a;
      }
      assert stream[1..9] == Flatten(sizeChunks) && conn.inbound == stream[9..];
      ReadNumberExactly(sizeChunks, stream[1..9]);
      var size := Values(mem, 8);
      ghost var n := SizeOf(stream);
      if size.None? {
        // the size is not known; the blocks of the tag are then whatever follows
        a := TagBlocks(sizeChunks, Pieces(stream, 9, 9 + n), Pieces(stream, 9 + n, 17 + n));
        return Garbled(conn.inbound), a;
      }
      var length := FromLittleEndian(size.value);
      var textMem: Memory;
      ghost var textChunks: seq<seq<byte>>;
      ghost var timeChunks: seq<seq<byte>>;
      filled, textMem, textChunks := ReadDataAsWritten(conn, Zeroed(), length, INT_POINTER);
      if !filled {
        return Done(Starved), a;
      }
      assert stream[9..9 + n] == Flatten(textChunks) && conn.inbound == stream[9 + n..];
      a := TagBlocks(sizeChunks, textChunks, []);
      filled, mem, timeChunks := ReadDataAsWritten(conn, Fresh(), 8, INT_POINTER);
      if !filled {
        return Done(Starved), a;
      }
      assert stream[9 + n..17 + n] == Flatten(timeChunks) && conn.inbound == stream[17 + n..];
      a := TagBlocks(sizeChunks, textChunks, timeChunks);
      var time, text := Values(mem, 8), Values(textMem, length);
      if time.None? || text.None? {
        return Garbled(conn.inbound), a;
      }
      Pow256Values();
      if 0 !in text.value {
        return Done(Unterminated(conn.inbound)), a;
      }
      return Done(Call(Tag(FromLittleEndian(time.value), CString(text.value)), conn.inbound)), a;
    }
  }

  /** A part of the stream as one read, if it is there and not empty. */
  ghost function Pieces(stream: seq<byte>, from: nat, to: nat): (chunks: seq<seq<byte>>)
    requires from <= to
    ensures to <= |stream| ==> Parts(chunks, stream[from..to])
  {
    if from < to <= |stream| then
      FlattenOne(stream[from..to]);
      [stream[from..to]]
    else []
  }

  // ---------------------------------------------------------------- one read to a block

  /** The arrival in which every block of the first message that is there comes in one read. */
  ghost function OneReadEach(stream: seq<byte>): (a: Arrival)
    ensures Possible(stream, a)
    ensures |stream| >= 9 ==> ArrivesWell(stream, a)
  {
    if IsStamped(stream) && |stream| > 1 then
      Stamp(if |stream| >= 9 then stream[1..9] else stream[1..])
    else if IsTag(stream) && |stream| >= 9 then
      var n := SizeOf(stream);
      TagBlocks(Pieces(stream, 1, 9), Pieces(stream, 9, 9 + n), Pieces(stream, 9 + n, 17 + n))
    else NoBlocks
  }

  /** A client run whose blocks come in one read each is served as it was sent. */
  lemma {:induction false} WholeReadsServe(ms: seq<Message>, rest: seq<byte>) returns (arrivals: seq<Arrival>)
    requires IsSession(ms)
    ensures var stream := EncodeAll(ms) + rest;
      && AllPossible(stream, arrivals)
      && ServeAsRead(stream, arrivals) == Some(Outcome(DeliveredAll(ms), Finished, rest))
  {
    hide Encode, Receive, Fits, ReceiveAsRead, Possible, ArrivesWell, OneReadEach;
    var stream, later := EncodeAll(ms) + rest, EncodeAll(ms[1..]) + rest;
    assert stream == Encode(ms[0]) + later;
    AtLeastNine(ms[0]);
    ReceiveEncoded(ms[0], later);
    var a := OneReadEach(stream);
    MessageServed(stream, a);
    assert ReceiveAsRead(stream, a) == Done(Call(Delivered(ms[0]), later));
    if |ms| > 1 {
      var others := WholeReadsServe(ms[1..], rest);
      arrivals := [a] + others;
      assert arrivals[1..] == others;
      assert DeliveredAll(ms) == [Delivered(ms[0])] + DeliveredAll(ms[1..]);
      assert ms[0] in ms && !ms[0].End? && !Delivered(ms[0]).End?;
      assert ServeAsRead(stream, arrivals) == Some(Outcome([Delivered(ms[0])] + DeliveredAll(ms[1..]), Finished, rest));
    } else {
      arrivals := [a];
      assert Delivered(ms[0]).End?;
      assert DeliveredAll(ms) == [Delivered(ms[0])];
      assert EncodeAll(ms[1..]) + rest == rest;
    }
  }

  lemma AtLeastNine(m: Message)
    ensures |Encode(m)| >= 9
  {
  }
}
