/**
 * Client and server as two processes that share nothing but two byte channels.
 * A run is any list of actions of the two, down to single bytes written and read.
 */
module Handshake {
  import opened Basics
  import opened Bytes
  import opened Session
  import SocketUtils

  /** The client program: START, any number of tags, END. */
  predicate IsRun(ms: seq<Message>)
  {
    && |ms| >= 2
    && ms[0].Start?
    && ms[|ms| - 1].End?
    && (forall i :: 0 < i < |ms| - 1 ==> ms[i].Tag?)
    && (forall i :: 0 <= i < |ms| ==> Fits(ms[i]))
  }

  /**
   * next counts the messages begun, outbox holds what send has still to write;
   * waiting is blocked on the reply to START, passed is past it, failed has exited.
   */
  datatype Client = Client(next: nat, outbox: seq<byte>, waiting: bool, passed: bool, failed: bool)

  /** acc holds the bytes read of the message being received. */
  datatype Server = Server(acc: seq<byte>, calls: seq<Message>, owesReply: bool, crashed: bool)

  datatype System = System(client: Client, server: Server, toServer: seq<byte>, toClient: seq<byte>)

  const INITIAL := System(Client(0, [], false, false, false), Server([], [], false, false), [], [])

  datatype Action =
    | Begin            // client: enter the next send call
    | Push(k: nat)     // client: k bytes of the message enter the channel
    | ReadReply        // client: the handshake byte arrives
    | Fetch(k: nat)    // server: one read returns k bytes
    | Dispatch         // server: a complete message is handled
    | Reply            // server: the handshake byte is written

  /** Bytes still wanted by the read in progress; none once the message is complete. */
  function Want(acc: seq<byte>): nat
  {
    if acc == [] then 1
    else if acc[0] == SESSION_TAG then
      if |acc| < 9 then 9 - |acc|
      else
        var n := FromLittleEndian(acc[1..9]);
        if |acc| < 9 + n then 9 + n - |acc|
        else if |acc| < 17 + n then 17 + n - |acc|
        else 0
    else if (acc[0] == SESSION_START || acc[0] == SESSION_END) && |acc| < 9 then 9 - |acc|
    else 0
  }

  predicate Stopped(s: Server)
  {
    s.crashed || (s.calls != [] && s.calls[|s.calls| - 1].End?)
  }

  predicate Enabled(ms: seq<Message>, s: System, a: Action)
  {
    match a
    case Begin => s.client.outbox == [] && !s.client.waiting && !s.client.failed && s.client.next < |ms|
    case Push(k) => 0 < k <= |s.client.outbox|
    case ReadReply => s.client.waiting && s.toClient != []
    case Fetch(k) => !Stopped(s.server) && !s.server.owesReply && 0 < k <= Want(s.server.acc) && k <= |s.toServer|
    case Dispatch => !Stopped(s.server) && !s.server.owesReply && Want(s.server.acc) == 0
    case Reply => s.server.owesReply
  }

  function Step(ms: seq<Message>, s: System, a: Action): System
    requires Enabled(ms, s, a)
    requires s.client.next <= |ms|
  {
    var c, v := s.client, s.server;
    match a
    case Begin => s.(client := c.(next := c.next + 1, outbox := Encode(ms[c.next])))
    case Push(k) =>
      var sent := c.(outbox := c.outbox[k..]);
      s.(toServer := s.toServer + c.outbox[..k],
         client := sent.(waiting := sent.outbox == [] && 0 < c.next && ms[c.next - 1].Start?))
    case ReadReply =>
      var good := s.toClient[0] == HANDSHAKE_OK;
      s.(toClient := s.toClient[1..], client := c.(waiting := false, passed := good, failed := !good))
    case Fetch(k) =>
      s.(toServer := s.toServer[k..], server := v.(acc := v.acc + s.toServer[..k]))
    case Dispatch =>
      var r := Receive(v.acc);
      s.(server := if r.Call? then v.(acc := [], calls := v.calls + [r.message], owesReply := r.message.Start?)
                   else v.(crashed := true))
    case Reply => s.(toClient := s.toClient + [HANDSHAKE_OK], server := v.(owesReply := false))
  }

  /** The state after a list of actions, when each is possible at its turn. */
  function Exec(ms: seq<Message>, s: System, acts: seq<Action>): Option<System>
    decreases |acts|
  {
    if acts == [] then Some(s)
    else if s.client.next <= |ms| && Enabled(ms, s, acts[0]) then Exec(ms, Step(ms, s, acts[0]), acts[1..])
    else None
  }

  // ---------------------------------------------------------------- invariant

  predicate Phase(s: System)
  {
    var c, v, h := s.client, s.server, |s.server.calls|;
    if c.next == 0 then
      !c.waiting && !c.passed && s.toClient == [] && !v.owesReply
    else if !c.passed then
      && c.next == 1
      && (c.waiting <==> c.outbox == [])
      && (h == 0 ==> s.toClient == [] && !v.owesReply)
      && (h == 1 ==> s.toClient == if v.owesReply then [] else [HANDSHAKE_OK])
    else
      !c.waiting && s.toClient == [] && !v.owesReply && h >= 1
  }

  predicate Inv(ms: seq<Message>, s: System)
  {
    var c, v, h := s.client, s.server, |s.server.calls|;
    && !c.failed && !v.crashed
    && h <= c.next <= |ms|
    && v.calls == DeliveredAll(ms[..h])
    && v.acc + s.toServer + c.outbox == EncodeAll(ms[h..c.next])
    && (h < c.next ==> v.acc <= Encode(ms[h]))
    && Phase(s)
  }

  /** The length field of a tag, once it has arrived. */
  lemma LengthField(m: Message, acc: seq<byte>)
    requires Fits(m) && m.Tag? && acc <= Encode(m) && |acc| >= 9
    ensures FromLittleEndian(acc[1..9]) == |m.name| + 1
    ensures acc[0] == SESSION_TAG && |Encode(m)| == 18 + |m.name|
  {
    hide LittleEndian, FromLittleEndian;
    FitsExactly(m);
    Pow256Values();
    LittleEndianRoundTrip(8, |m.name| + 1);
    assert acc[1..9] == Encode(m)[1..9] == LittleEndian(8, |m.name| + 1);
  }

  /** Reading stops at the end of the message and not before. */
  lemma WantIsWhatIsLeft(m: Message, acc: seq<byte>)
    requires Fits(m) && acc <= Encode(m)
    ensures if acc == Encode(m) then Want(acc) == 0 else 1 <= Want(acc) <= |Encode(m)| - |acc|
  {
    hide LittleEndian, FromLittleEndian;
    if m.Tag? && |acc| >= 9 {
      LengthField(m, acc);
    }
  }

  lemma EncodeAllSplit(ms: seq<Message>, h: nat, n: nat)
    requires h < n <= |ms|
    ensures EncodeAll(ms[h..n]) == Encode(ms[h]) + EncodeAll(ms[h + 1..n])
    ensures EncodeAll(ms[h..n]) == EncodeAll(ms[h..n - 1]) + Encode(ms[n - 1])
  {
    hide Encode;
    assert ms[h..n][1..] == ms[h + 1..n];
    assert ms[h..n] == ms[h..n - 1] + [ms[n - 1]];
    EncodeAllAppend(ms[h..n - 1], [ms[n - 1]]);
    SocketUtils.EncodeAllOne(ms[n - 1]);
  }

  lemma InvBegin(ms: seq<Message>, s: System)
    requires IsRun(ms) && Inv(ms, s) && Enabled(ms, s, Begin)
    ensures Inv(ms, Step(ms, s, Begin))
  {
    hide Encode, Fits;
    var t := Step(ms, s, Begin);
    var h := |s.server.calls|;
    EncodeAllSplit(ms, h, t.client.next);
    NonEmpty(ms[s.client.next]);
    assert s.server.acc + s.toServer == s.server.acc + s.toServer + s.client.outbox;
    assert t.server.acc + t.toServer + t.client.outbox == EncodeAll(ms[h..t.client.next]);
    if h == s.client.next {
      assert EncodeAll(ms[h..h]) == [];
    }
  }

  lemma NonEmpty(m: Message)
    ensures |Encode(m)| >= 9
  {
  }

  lemma InvPush(ms: seq<Message>, s: System, k: nat)
    requires IsRun(ms) && Inv(ms, s) && Enabled(ms, s, Push(k))
    ensures Inv(ms, Step(ms, s, Push(k)))
  {
    hide Encode, Fits;
    var t := Step(ms, s, Push(k));
    assert s.client.outbox == s.client.outbox[..k] + t.client.outbox;
    assert t.server.acc + t.toServer + t.client.outbox == s.server.acc + s.toServer + s.client.outbox;
  }

  lemma InvFetch(ms: seq<Message>, s: System, k: nat)
    requires IsRun(ms) && Inv(ms, s) && Enabled(ms, s, Fetch(k))
    ensures Inv(ms, Step(ms, s, Fetch(k)))
  {
    hide Encode, Fits, Want;
    var t := Step(ms, s, Fetch(k));
    var h, n := |s.server.calls|, s.client.next;
    assert s.toServer == s.toServer[..k] + t.toServer;
    assert t.server.acc + t.toServer + t.client.outbox == s.server.acc + s.toServer + s.client.outbox;
    if h < n {
      EncodeAllSplit(ms, h, n);
      WantIsWhatIsLeft(ms[h], s.server.acc);
      assert t.server.acc <= EncodeAll(ms[h..n]);
    }
  }

  /** A complete message is the one the client began next, and it is received whole. */
  lemma DispatchReceives(ms: seq<Message>, s: System)
    requires IsRun(ms) && Inv(ms, s) && Want(s.server.acc) == 0
    ensures var h, n := |s.server.calls|, s.client.next;
      && h < n
      && Receive(s.server.acc) == Call(Delivered(ms[h]), [])
      && s.toServer + s.client.outbox == EncodeAll(ms[h + 1..n])
  {
    hide Encode, Fits, Receive;
    var h, n := |s.server.calls|, s.client.next;
    assert s.server.acc != [];
    if h < n {
      EncodeAllSplit(ms, h, n);
      WantIsWhatIsLeft(ms[h], s.server.acc);
      ReceiveEncoded(ms[h], []);
      assert Encode(ms[h]) + [] == Encode(ms[h]);
      var left := s.toServer + s.client.outbox;
      assert s.server.acc + left == s.server.acc + EncodeAll(ms[h + 1..n]);
      assert left == (s.server.acc + left)[|s.server.acc|..];
    }
  }

  lemma InvDispatch(ms: seq<Message>, s: System)
    requires IsRun(ms) && Inv(ms, s) && Enabled(ms, s, Dispatch)
    ensures Inv(ms, Step(ms, s, Dispatch))
    ensures Step(ms, s, Dispatch).server.calls == DeliveredAll(ms[..|s.server.calls| + 1])
  {
    hide Encode, Fits, Receive, EncodeAll, Want, Delivered;
    var t := Step(ms, s, Dispatch);
    var h, n := |s.server.calls|, s.client.next;
    DispatchReceives(ms, s);
    assert t.server.acc + t.toServer + t.client.outbox == s.toServer + s.client.outbox;
    assert DeliveredAll(ms[..h + 1]) == DeliveredAll(ms[..h]) + [Delivered(ms[h])];
    DeliveredKeepsKind(ms[h]);
  }

  lemma DeliveredKeepsKind(m: Message)
    ensures Delivered(m).Start? == m.Start? && Delivered(m).End? == m.End? && Delivered(m).time == m.time
  {
  }

  lemma InvStep(ms: seq<Message>, s: System, a: Action)
    requires IsRun(ms) && Inv(ms, s) && Enabled(ms, s, a)
    ensures Inv(ms, Step(ms, s, a))
  {
    hide Encode, Fits, Want;
    match a
    case Begin => InvBegin(ms, s);
    case Push(k) => InvPush(ms, s, k);
    case Fetch(k) => InvFetch(ms, s, k);
    case Dispatch => InvDispatch(ms, s);
    case ReadReply =>
    case Reply =>
  }

  // ---------------------------------------------------------------- progress

  /** Both processes have finished. */
  predicate Done(ms: seq<Message>, s: System)
  {
    s.client.next == |ms| && s.client.outbox == [] && !s.client.waiting && |s.server.calls| == |ms|
  }

  /** Some action that is possible as long as the run is not over. */
  function Pick(ms: seq<Message>, s: System): Action
  {
    if s.client.outbox != [] then Push(1)
    else if s.client.next < |ms| && !s.client.waiting then Begin
    else if s.server.owesReply then Reply
    else if s.client.waiting && s.toClient != [] then ReadReply
    else if Want(s.server.acc) == 0 then Dispatch
    else Fetch(1)
  }

  lemma NoDeadlock(ms: seq<Message>, s: System)
    requires IsRun(ms) && Inv(ms, s) && !Done(ms, s)
    ensures Enabled(ms, s, Pick(ms, s))
  {
    hide Encode, Fits, Want, Delivered;
    var h, n := |s.server.calls|, s.client.next;
    if h > 0 {
      DeliveredKeepsKind(ms[h - 1]);
      assert !Stopped(s.server) || h == |ms|;
    }
    if s.client.outbox == [] && h < n && s.toServer == [] {
      EncodeAllSplit(ms, h, n);
      assert s.server.acc + s.toServer + s.client.outbox == s.server.acc;
      assert s.server.acc == Encode(ms[h]);
      WantIsWhatIsLeft(ms[h], s.server.acc);
    }
  }

  /** Work left in the messages not yet begun. */
  function Unbegun(ms: seq<Message>): nat
  {
    if ms == [] then 0 else 2 * |Encode(ms[0])| + 4 + Unbegun(ms[1..])
  }

  /** A bound on the actions still to come. */
  function Measure(ms: seq<Message>, s: System): int
    requires s.client.next <= |ms|
  {
    Unbegun(ms[s.client.next..]) + 2 * |s.client.outbox| + |s.toServer|
    + 3 * (s.client.next - |s.server.calls|) + (if s.server.owesReply then 2 else 0) + |s.toClient|
  }

  lemma StepUsesMeasure(ms: seq<Message>, s: System, a: Action)
    requires IsRun(ms) && Inv(ms, s) && Enabled(ms, s, a)
    requires Step(ms, s, a).client.next <= |ms|
    ensures Measure(ms, Step(ms, s, a)) < Measure(ms, s)
  {
    hide Encode, Fits, Want, Receive, Delivered, EncodeAll;
    var n := s.client.next;
    if a.Begin? {
      assert ms[n..][1..] == ms[n + 1..];
    } else if a.Dispatch? {
      DispatchReceives(ms, s);
    }
  }

  // ---------------------------------------------------------------- every run

  ghost predicate Safe(ms: seq<Message>, s: System)
  {
    var calls := s.server.calls;
    && |calls| <= |ms| && calls == DeliveredAll(ms[..|calls|])
    && (s.client.passed ==> calls != [] && calls[0].Start?)
    && !s.client.failed && !s.server.crashed
    && (forall i :: 0 <= i < |calls| ==> (calls[i].End? <==> i == |ms| - 1))
  }

  lemma InvIsSafe(ms: seq<Message>, s: System)
    requires IsRun(ms) && Inv(ms, s)
    ensures Safe(ms, s)
  {
    hide Encode, Fits, EncodeAll;
    forall i | 0 <= i < |s.server.calls| ensures s.server.calls[i].End? <==> i == |ms| - 1 {
      DeliveredKeepsKind(ms[i]);
    }
  }

  lemma {:induction false} ExecKeepsInv(ms: seq<Message>, s: System, acts: seq<Action>)
    requires IsRun(ms) && Inv(ms, s) && Exec(ms, s, acts).Some?
    ensures var t := Exec(ms, s, acts).value; Inv(ms, t) && |acts| <= Measure(ms, s) - Measure(ms, t)
    decreases |acts|
  {
    hide Inv, IsRun, Enabled, Step, Measure;
    if acts != [] {
      InvNext(ms, s);
      StepInRange(ms, s, acts[0]);
      InvStep(ms, s, acts[0]);
      StepUsesMeasure(ms, s, acts[0]);
      ExecKeepsInv(ms, Step(ms, s, acts[0]), acts[1..]);
    }
    if Exec(ms, s, acts).Some? {
      InvNext(ms, Exec(ms, s, acts).value);
    }
  }

  lemma InvNext(ms: seq<Message>, s: System)
    requires Inv(ms, s)
    ensures s.client.next <= |ms|
  {
  }

  lemma StepInRange(ms: seq<Message>, s: System, a: Action)
    requires s.client.next <= |ms| && Enabled(ms, s, a)
    ensures Step(ms, s, a).client.next <= |ms|
  {
  }

  lemma InitialInv(ms: seq<Message>)
    requires IsRun(ms)
    ensures Inv(ms, INITIAL)
  {
    hide Encode, Fits;
    assert ms[0..0] == [] && ms[..0] == [];
  }

  /**
   * In every interleaving the client is past the handshake only after the start
   * handler ran, the handler calls are the client's messages in order, and the
   * end handler runs at most once and last.
   */
  lemma {:induction false} EveryRunIsSafe(ms: seq<Message>, acts: seq<Action>)
    requires IsRun(ms) && Exec(ms, INITIAL, acts).Some?
    ensures var s := Exec(ms, INITIAL, acts).value;
      var calls := s.server.calls;
      && |calls| <= |ms| && calls == DeliveredAll(ms[..|calls|])
      && (s.client.passed ==> calls != [] && calls[0].Start?)
      && !s.client.failed && !s.server.crashed
      && (forall i :: 0 <= i < |calls| ==> (calls[i].End? <==> i == |ms| - 1))
  {
    hide Inv, IsRun, Enabled, Step, Measure;
    InitialInv(ms);
    ExecKeepsInv(ms, INITIAL, acts);
    InvIsSafe(ms, Exec(ms, INITIAL, acts).value);
  }

  /** In every interleaving the run is either over or some action is possible. */
  lemma {:induction false} EveryRunGoesOn(ms: seq<Message>, acts: seq<Action>)
    requires IsRun(ms) && Exec(ms, INITIAL, acts).Some?
    ensures var s := Exec(ms, INITIAL, acts).value; Done(ms, s) || exists a :: Enabled(ms, s, a)
  {
    hide Inv, IsRun, Enabled, Step, Measure, Done;
    InitialInv(ms);
    ExecKeepsInv(ms, INITIAL, acts);
    var s := Exec(ms, INITIAL, acts).value;
    if !Done(ms, s) {
      NoDeadlock(ms, s);
    }
  }

  /** Every run can be carried on to its end. */
  lemma CanFinish(ms: seq<Message>, s: System) returns (acts: seq<Action>)
    requires IsRun(ms) && Inv(ms, s)
    ensures Exec(ms, s, acts).Some? && Done(ms, Exec(ms, s, acts).value)
    decreases if s.client.next <= |ms| then Measure(ms, s) else 0
  {
    hide Inv, IsRun, Enabled, Step, Measure, Done;
    InvNext(ms, s);
    if Done(ms, s) {
      acts := [];
    } else {
      NoDeadlock(ms, s);
      var a := Pick(ms, s);
      InvStep(ms, s, a);
      StepInRange(ms, s, a);
      StepUsesMeasure(ms, s, a);
      MeasureNotNegative(ms, s);
      var later := CanFinish(ms, Step(ms, s, a));
      acts := [a] + later;
    }
  }

  /** Every run ends: there is a bound on its length that depends on the messages alone. */
  lemma {:induction false} EveryRunEnds(ms: seq<Message>, acts: seq<Action>)
    requires IsRun(ms) && Exec(ms, INITIAL, acts).Some?
    ensures |acts| <= 2 * |EncodeAll(ms)| + 4 * |ms|
  {
    UnbegunIs(ms);
    hide Inv, IsRun, Enabled, Step;
    InitialInv(ms);
    ExecKeepsInv(ms, INITIAL, acts);
    var s := Exec(ms, INITIAL, acts).value;
    MeasureNotNegative(ms, s);
    assert ms[0..] == ms;
  }

  lemma {:induction false} UnbegunIs(ms: seq<Message>)
    ensures Unbegun(ms) == 2 * |EncodeAll(ms)| + 4 * |ms|
  {
    hide Encode;
    if ms != [] {
      UnbegunIs(ms[1..]);
    }
  }

  lemma MeasureNotNegative(ms: seq<Message>, s: System)
    requires Inv(ms, s)
    ensures s.client.next <= |ms| && Measure(ms, s) >= 0
  {
    hide Encode, EncodeAll, DeliveredAll;
  }

  /**
   * A finished run leaves both channels empty and the timestamp list holding the
   * start, the tags in sending order, and the end: the tags plus two.
   */
  lemma {:induction false} FinishedRun(ms: seq<Message>, acts: seq<Action>)
    requires IsRun(ms) && Exec(ms, INITIAL, acts).Some? && Done(ms, Exec(ms, INITIAL, acts).value)
    ensures var s := Exec(ms, INITIAL, acts).value;
      var list := SocketUtils.Entries(s.server.calls);
      && s.toServer == [] && s.toClient == [] && s.server.acc == []
      && |list| == |ms|
      && list[0] == SocketUtils.Entry(SocketUtils.Text("Starting Session..."), ms[0].time)
      && list[|ms| - 1] == SocketUtils.Entry(SocketUtils.Text("Ending Session..."), ms[|ms| - 1].time)
      && forall i :: 0 < i < |ms| - 1 ==> list[i] == SocketUtils.Entry(Delivered(ms[i]).name, ms[i].time)
  {
    hide Encode, Fits, SocketUtils.Text, Exec;
    InitialInv(ms);
    ExecKeepsInv(ms, INITIAL, acts);
    var s := Exec(ms, INITIAL, acts).value;
    assert ms[|ms|..|ms|] == [] && ms[..|ms|] == ms;
    forall i | 0 <= i < |ms| ensures SocketUtils.Entries(s.server.calls)[i] == SocketUtils.EntryOf(Delivered(ms[i])) {
    }
  }

  // ---------------------------------------------------------------- runs, reads and replies

  /** Any tags that fit can be sent between a START and an END. */
  lemma AnyTagsMakeARun(start: uint64, tags: seq<Message>, end: uint64)
    requires forall i :: 0 <= i < |tags| ==> tags[i].Tag? && |tags[i].name| <= 494
    ensures IsRun([Start(start)] + tags + [End(end)])
  {
    var ms := [Start(start)] + tags + [End(end)];
    assert forall i :: 0 < i < |ms| - 1 ==> ms[i] == tags[i - 1];
  }

  /** Where the blocks of a message end that the server reads one by one. */
  function BlockEnds(m: Message): seq<nat>
  {
    if m.Tag? then [1, 9, 10 + |m.name|, 18 + |m.name|] else [1, 9]
  }

  /** Each read asks for what is left of one block: it never reaches into the next. */
  lemma ReadsAskForOneBlock(m: Message, acc: seq<byte>)
    requires Fits(m) && acc < Encode(m)
    ensures |acc| + Want(acc) in BlockEnds(m)
    ensures forall e :: e in BlockEnds(m) ==> e <= |acc| || |acc| + Want(acc) <= e
  {
    hide LittleEndian, FromLittleEndian;
    WantIsWhatIsLeft(m, acc);
    if m.Tag? && |acc| >= 9 {
      LengthField(m, acc);
    }
  }

  /** The client is past the handshake exactly when it reads 3; a server that reads an unknown code stops. */
  lemma RepliesDecide(ms: seq<Message>, s: System)
    requires s.client.next <= |ms|
    ensures Enabled(ms, s, ReadReply) ==>
      var c := Step(ms, s, ReadReply).client;
      (c.passed <==> s.toClient[0] == 3) && (c.failed <==> s.toClient[0] != 3) && !c.waiting
    ensures Enabled(ms, s, Dispatch) && |s.server.acc| == 1 && s.server.acc[0] > 2 ==>
      forall a: Action :: a.Fetch? || a.Dispatch? ==> !Enabled(ms, Step(ms, s, Dispatch), a)
  {
  }
}
