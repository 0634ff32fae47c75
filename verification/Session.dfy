/**
 * The session protocol of the socket utilities: how the client frames its
 * messages as bytes, and what the server makes of a byte stream.
 */
module Session {
  import opened Bytes

  const SESSION_START: byte := 0
  const SESSION_END: byte := 1
  const SESSION_TAG: byte := 2
  const HANDSHAKE_OK: byte := 3

  /** Size of the buffer in which the client builds a message. */
  const SEND_BUFFER := 512

  datatype Message =
    | Start(time: uint64)
    | End(time: uint64)
    | Tag(time: uint64, name: seq<byte>)

  // ---------------------------------------------------------------- client

  function Encode(m: Message): (bytes: seq<byte>)
  {
    match m
    case Start(time) => [SESSION_START] + LittleEndian(8, time)
    case End(time) => [SESSION_END] + LittleEndian(8, time)
    case Tag(time, name) =>
      [SESSION_TAG] + LittleEndian(8, |name| + 1) + name + [0] + LittleEndian(8, time)
  }

  function EncodeAll(ms: seq<Message>): (bytes: seq<byte>)
  {
    if ms == [] then [] else Encode(ms[0]) + EncodeAll(ms[1..])
  }

  /** The longest tag the client can build in its buffer. */
  const LONGEST_TAG := 494

  predicate Fits(m: Message)
  {
    m.Tag? ==> |m.name| <= LONGEST_TAG
  }

  /** START and END always fit the buffer; a tag does exactly up to 494 bytes. */
  lemma FitsExactly(m: Message)
    ensures |Encode(m)| <= SEND_BUFFER <==> Fits(m)
  {
    if m.Tag? {
      assert |Encode(m)| == 1 + 8 + |m.name| + 1 + 8;
    }
  }

  lemma {:induction false} EncodeAllAppend(left: seq<Message>, right: seq<Message>)
    ensures EncodeAll(left + right) == EncodeAll(left) + EncodeAll(right)
  {
    hide Encode;
    if left == [] {
      assert left + right == right;
    } else {
      EncodeAllAppend(left[1..], right);
      assert (left + right)[1..] == left[1..] + right;
      assert Encode(left[0]) + (EncodeAll(left[1..]) + EncodeAll(right))
          == Encode(left[0]) + EncodeAll(left[1..]) + EncodeAll(right);
    }
  }

  // ---------------------------------------------------------------- server

  /** What a C string pointer shows of these bytes: everything before the first NUL. */
  function CString(bytes: seq<byte>): (text: seq<byte>)
    ensures text <= bytes && 0 !in text
    ensures 0 in bytes ==> |text| < |bytes| && bytes[|text|] == 0
  {
    if bytes == [] || bytes[0] == 0 then [] else [bytes[0]] + CString(bytes[1..])
  }

  /** What the first message in a stream makes the server do. */
  datatype Received =
    | Call(message: Message, rest: seq<byte>)
    | Starved
    | Unknown(code: byte, rest: seq<byte>)
    | Unterminated(rest: seq<byte>)

  function Receive(stream: seq<byte>): (r: Received)
  {
    if stream == [] then
      Starved
    else if stream[0] == SESSION_START || stream[0] == SESSION_END then
      if |stream| < 9 then Starved
      else
        Pow256Values();
        var time: uint64 := FromLittleEndian(stream[1..9]);
        Call(if stream[0] == SESSION_START then Start(time) else End(time), stream[9..])
    else if stream[0] == SESSION_TAG then
      if |stream| < 9 then Starved
      else
        var n := FromLittleEndian(stream[1..9]);
        if |stream| < 17 + n then Starved
        else if 0 !in stream[9..9 + n] then Unterminated(stream[17 + n..])
        else
          Pow256Values();
          var time: uint64 := FromLittleEndian(stream[9 + n..17 + n]);
          Call(Tag(time, CString(stream[9..9 + n])), stream[17 + n..])
    else
      Unknown(stream[0], stream[1..])
  }

  datatype Status =
    | Finished               // END was handled
    | Waiting                // the stream stopped short; read never returns
    | BadCode(code: byte)    // the server exits
    | BadTag                 // the tag text has no NUL inside its buffer

  datatype Outcome = Outcome(calls: seq<Message>, status: Status, rest: seq<byte>)

  /** The handler calls a whole stream leads to, and the bytes left unread. */
  function Serve(stream: seq<byte>): (o: Outcome)
    decreases |stream|
  {
    match Receive(stream)
    case Starved => Outcome([], Waiting, [])
    case Unknown(code, rest) => Outcome([], BadCode(code), rest)
    case Unterminated(rest) => Outcome([], BadTag, rest)
    case Call(m, rest) =>
      if m.End? then Outcome([m], Finished, rest)
      else var o := Serve(rest); Outcome([m] + o.calls, o.status, o.rest)
  }

  // ---------------------------------------------------------------- round trip

  /** The message as the handler sees it: a tag is cut at its first NUL. */
  function Delivered(m: Message): (d: Message)
    ensures d == m <==> (m.Tag? ==> 0 !in m.name)
  {
    if m.Tag? then
      CStringExactly(m.name);
      Tag(m.time, CString(m.name + [0]))
    else m
  }

  function DeliveredAll(ms: seq<Message>): (ds: seq<Message>)
    ensures |ds| == |ms|
    ensures forall i :: 0 <= i < |ms| ==> ds[i] == Delivered(ms[i])
  {
    seq(|ms|, i requires 0 <= i < |ms| => Delivered(ms[i]))
  }

  lemma CStringExactly(name: seq<byte>)
    ensures CString(name + [0]) == name <==> 0 !in name
  {
    var text := CString(name + [0]);
    assert (name + [0])[|name|] == 0;
    assert forall i :: 0 <= i < |name| ==> (name + [0])[i] == name[i];
    assert 0 !in name ==> |text| == |name|;
  }

  /** Every framed message is received as itself, whatever follows it. */
  lemma ReceiveEncoded(m: Message, rest: seq<byte>)
    requires Fits(m)
    ensures Receive(Encode(m) + rest) == Call(Delivered(m), rest)
  {
    hide LittleEndian, FromLittleEndian;
    Pow256Values();
    LittleEndianRoundTrip(8, m.time);
    var stream := Encode(m) + rest;
    if m.Tag? {
      var n := |m.name| + 1;
      FitsExactly(m);
      LittleEndianRoundTrip(8, n);
      assert stream[1..9] == LittleEndian(8, n);
      assert stream[9..9 + n] == m.name + [0];
      assert (m.name + [0])[|m.name|] == 0;
      assert stream[9 + n..17 + n] == LittleEndian(8, m.time);
      assert stream[17 + n..] == rest;
    } else {
      assert stream[1..9] == LittleEndian(8, m.time);
      assert stream[9..] == rest;
    }
  }

  /** A client run: any START and TAG messages, then END, each built in the buffer. */
  predicate IsSession(ms: seq<Message>)
  {
    && ms != []
    && (forall m :: m in ms ==> Fits(m))
    && (forall i :: 0 <= i < |ms| ==> (ms[i].End? <==> i == |ms| - 1))
  }

  /**
   * A client run makes the server call the handler with exactly its messages in
   * order, and the server reads no byte beyond END.
   */
  lemma {:induction false} SessionRoundTrip(ms: seq<Message>, rest: seq<byte>)
    requires IsSession(ms)
    ensures Serve(EncodeAll(ms) + rest) == Outcome(DeliveredAll(ms), Finished, rest)
  {
    hide Encode, Receive, Fits;
    ReceiveEncoded(ms[0], EncodeAll(ms[1..]) + rest);
    assert EncodeAll(ms) + rest == Encode(ms[0]) + (EncodeAll(ms[1..]) + rest);
    if |ms| > 1 {
      SessionRoundTrip(ms[1..], rest);
      assert DeliveredAll(ms) == [Delivered(ms[0])] + DeliveredAll(ms[1..]);
    } else {
      assert EncodeAll(ms[1..]) + rest == rest;
    }
  }

  /** A tag with a NUL inside reaches the handler shortened. */
  lemma NulTagIsCut()
    ensures Delivered(Tag(7, [65, 0, 66])) == Tag(7, [65])
  {
    var bytes := [65, 0, 66] + [0];
    assert bytes[1..][0] == 0;
  }

  /** The messages byte by byte: code, little-endian numbers, the tag with its NUL. */
  lemma OnTheWire()
    ensures Encode(Start(7)) == [0, 7, 0, 0, 0, 0, 0, 0, 0]
    ensures Encode(End(0x102)) == [1, 2, 1, 0, 0, 0, 0, 0, 0]
    ensures Encode(Tag(7, [65, 66])) == [2, 3, 0, 0, 0, 0, 0, 0, 0, 65, 66, 0, 7, 0, 0, 0, 0, 0, 0, 0]
  {
    hide LittleEndian;
    Eight(7);
    Eight(0x102);
    Eight(3);
  }

  lemma Eight(x: nat)
    requires x < 0x1_0000
    ensures LittleEndian(8, x) == [x % 256, x / 256, 0, 0, 0, 0, 0, 0]
  {
    assert LittleEndian(3, 0) == [0, 0, 0];
    assert LittleEndian(6, 0) == [0, 0, 0] + LittleEndian(3, 0);
    assert LittleEndian(7, x / 256) == [x / 256] + LittleEndian(6, 0);
  }

  /** A client may send any tags that fit between its START and its END. */
  lemma AnyTagsMakeASession(start: uint64, tags: seq<Message>, end: uint64)
    requires forall i :: 0 <= i < |tags| ==> tags[i].Tag? && |tags[i].name| <= 494
    ensures IsSession([Start(start)] + tags + [End(end)])
  {
    var ms := [Start(start)] + tags + [End(end)];
    forall i | 0 <= i < |ms| ensures Fits(ms[i]) && (ms[i].End? <==> i == |ms| - 1) {
      assert 0 < i < |ms| - 1 ==> ms[i] == tags[i - 1];
    }
  }
}
