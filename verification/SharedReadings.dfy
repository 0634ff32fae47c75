/**
 * The NI server's readings: one callback thread writes the vector channel by
 * channel, any number of client threads copy it element by element, all under
 * one mutex. A run is any interleaving of their single-element steps.
 */
module SharedReadings {
  import opened Basics
  import opened Bytes
  import Netmeter

  const CHANNELS := Netmeter.CHANNELS

  type Vector = v: seq<uint32> | |v| == Netmeter.CHANNELS witness seq(Netmeter.CHANNELS, _ => 0)

  datatype Holder = Free | ByWriter | ByReader(id: nat)

  /** The callback: converting, ready to publish, or having written the first done channels. */
  datatype Writer = Idle | Ready(vec: Vector) | Writing(vec: Vector, done: nat)

  /** A client thread: inside the copy, or past it with the publication it copied. */
  datatype Reader = Copying(pkg: seq<uint32>) | Copied(pkg: seq<uint32>, version: int)

  /** A packet on its way to a client. */
  datatype Sent = Sent(id: nat, pkg: seq<uint32>, version: int)

  datatype System = System(
    shared: Vector,
    holder: Holder,
    writer: Writer,
    readers: map<nat, Reader>,
    published: seq<Vector>,
    sent: seq<Sent>)

  datatype Action =
    | Convert(vec: Vector)
    | LockWriter
    | WriteOne
    | UnlockWriter
    | LockReader(id: nat)
    | CopyOne(id: nat)
    | UnlockReader(id: nat)
    | Send(id: nat)

  /** The vector starts as zeros, which count as the first publication. */
  function Initial(): System
  {
    var zeros: Vector := seq(CHANNELS, _ => 0);
    System(zeros, Free, Idle, map[], [zeros], [])
  }

  predicate Enabled(s: System, a: Action)
  {
    match a
    case Convert(_) => s.writer.Idle?
    case LockWriter => s.writer.Ready? && s.holder.Free?
    case WriteOne => s.writer.Writing? && s.writer.done < CHANNELS
    case UnlockWriter => s.writer.Writing? && s.writer.done >= CHANNELS
    case LockReader(id) => id !in s.readers && s.holder.Free?
    case CopyOne(id) => id in s.readers && s.readers[id].Copying? && |s.readers[id].pkg| < CHANNELS
    case UnlockReader(id) => id in s.readers && s.readers[id].Copying? && |s.readers[id].pkg| >= CHANNELS
    case Send(id) => id in s.readers && s.readers[id].Copied?
  }

  function Step(s: System, a: Action): System
    requires Enabled(s, a)
  {
    match a
    case Convert(vec) => s.(writer := Ready(vec))
    case LockWriter => s.(holder := ByWriter, writer := Writing(s.writer.vec, 0))
    case WriteOne =>
      var i := s.writer.done;
      s.(shared := s.shared[i := s.writer.vec[i]], writer := Writing(s.writer.vec, i + 1))
    case UnlockWriter => s.(holder := Free, writer := Idle, published := s.published + [s.writer.vec])
    case LockReader(id) => s.(holder := ByReader(id), readers := s.readers[id := Copying([])])
    case CopyOne(id) =>
      var pkg := s.readers[id].pkg;
      s.(readers := s.readers[id := Copying(pkg + [s.shared[|pkg|]])])
    case UnlockReader(id) =>
      s.(holder := Free, readers := s.readers[id := Copied(s.readers[id].pkg, |s.published| - 1)])
    case Send(id) =>
      var r := s.readers[id];
      s.(readers := s.readers - {id}, sent := s.sent + [Sent(id, r.pkg, r.version)])
  }

  function Exec(s: System, acts: seq<Action>): Option<System>
    decreases |acts|
  {
    if acts == [] then Some(s)
    else if Enabled(s, acts[0]) then Exec(Step(s, acts[0]), acts[1..])
    else None
  }

  // ---------------------------------------------------------------- invariant

  /** The vector is the last publication, except for the channels a writer has overwritten. */
  predicate SharedIs(s: System)
  {
    && s.published != []
    && var last := s.published[|s.published| - 1];
      if s.holder.ByWriter? then
        && s.writer.Writing? && s.writer.done <= CHANNELS
        && s.shared == s.writer.vec[..s.writer.done] + last[s.writer.done..]
      else !s.writer.Writing? && s.shared == last
  }

  /** A copy in progress belongs to the holder of the mutex and agrees with the vector so far. */
  ghost predicate ReadersOk(s: System)
  {
    && (s.holder.ByReader? ==> s.holder.id in s.readers && s.readers[s.holder.id].Copying?)
    && forall id :: id in s.readers ==>
      match s.readers[id]
      case Copying(pkg) => s.holder == ByReader(id) && pkg <= s.shared
      case Copied(pkg, version) => IsPublication(s, pkg, version)
  }

  predicate IsPublication(s: System, pkg: seq<uint32>, version: int)
  {
    0 <= version < |s.published| && pkg == s.published[version]
  }

  /** Every packet is one publication, and no client is sent an older one after a newer one. */
  ghost predicate SentOk(s: System)
  {
    && (forall i :: 0 <= i < |s.sent| ==> IsPublication(s, s.sent[i].pkg, s.sent[i].version))
    && (forall i, j :: 0 <= i < j < |s.sent| && s.sent[i].id == s.sent[j].id ==> s.sent[i].version <= s.sent[j].version)
    && (forall i :: 0 <= i < |s.sent| && s.sent[i].id in s.readers && s.readers[s.sent[i].id].Copied? ==>
          s.sent[i].version <= s.readers[s.sent[i].id].version)
  }

  ghost predicate Inv(s: System)
  {
    SharedIs(s) && ReadersOk(s) && SentOk(s)
  }

  lemma SharedStep(s: System, a: Action)
    requires Inv(s) && Enabled(s, a)
    ensures SharedIs(Step(s, a))
  {
    if a.UnlockWriter? {
      assert Step(s, a).shared == s.writer.vec;
    }
  }

  lemma ReadersStep(s: System, a: Action)
    requires Inv(s) && Enabled(s, a)
    ensures ReadersOk(Step(s, a))
  {
    var t := Step(s, a);
    if a.CopyOne? {
      var pkg := s.readers[a.id].pkg;
      assert pkg + [s.shared[|pkg|]] <= t.shared;
    } else if a.UnlockReader? {
      assert s.readers[a.id].pkg == s.shared;
    }
  }

  lemma SentStep(s: System, a: Action)
    requires Inv(s) && Enabled(s, a)
    ensures SentOk(Step(s, a))
  {
    hide SharedIs;
    var t := Step(s, a);
    assert forall pkg, version :: IsPublication(s, pkg, version) ==> IsPublication(t, pkg, version);
    if a.Send? {
      assert t.sent == s.sent + [Sent(a.id, s.readers[a.id].pkg, s.readers[a.id].version)];
    } else {
      assert t.sent == s.sent;
    }
  }

  lemma InvStep(s: System, a: Action)
    requires Inv(s) && Enabled(s, a)
    ensures Inv(Step(s, a))
  {
    hide Step, Enabled, SharedIs, ReadersOk, SentOk;
    SharedStep(s, a);
    ReadersStep(s, a);
    SentStep(s, a);
  }

  lemma {:induction false} ExecKeepsInv(s: System, acts: seq<Action>)
    requires Inv(s) && Exec(s, acts).Some?
    ensures Inv(Exec(s, acts).value)
    decreases |acts|
  {
    hide Inv, Enabled, Step;
    if acts != [] {
      InvStep(s, acts[0]);
      ExecKeepsInv(Step(s, acts[0]), acts[1..]);
    }
  }

  // ---------------------------------------------------------------- from the callback to the client

  /** The powers the callback computed, in order. */
  function Converted(acts: seq<Action>): (vecs: seq<Vector>)
  {
    if acts == [] then [] else (if acts[0].Convert? then [acts[0].vec] else []) + Converted(acts[1..])
  }

  /** The publications, and the vector on its way to be one. */
  function Announced(s: System): seq<Vector>
  {
    s.published + if s.writer.Idle? then [] else [s.writer.vec]
  }

  lemma AnnouncedStep(s: System, a: Action)
    requires Enabled(s, a)
    ensures Announced(Step(s, a)) == Announced(s) + if a.Convert? then [a.vec] else []
  {
  }

  lemma {:induction false} AnnouncedFrom(s: System, acts: seq<Action>)
    requires Exec(s, acts).Some?
    ensures Announced(Exec(s, acts).value) == Announced(s) + Converted(acts)
    decreases |acts|
  {
    hide Step, Enabled, Announced;
    if acts != [] {
      var first := if acts[0].Convert? then [acts[0].vec] else [];
      AnnouncedStep(s, acts[0]);
      AnnouncedFrom(Step(s, acts[0]), acts[1..]);
      assert Announced(s) + first + Converted(acts[1..]) == Announced(s) + (first + Converted(acts[1..]));
    }
  }

  /**
   * In every interleaving the publications are the initial zeros and the vectors
   * the callback computed, in order, the last of them perhaps still to come.
   */
  lemma PublishedAreConverted(acts: seq<Action>)
    requires Exec(Initial(), acts).Some?
    ensures var s := Exec(Initial(), acts).value;
      && s.published <= [seq(16, _ => 0)] + Converted(acts)
      && |s.published| == 1 + |Converted(acts)| - if s.writer.Idle? then 0 else 1
  {
    hide Exec, Converted;
    AnnouncedFrom(Initial(), acts);
    var s := Exec(Initial(), acts).value;
    assert Announced(s) == [seq(16, _ => 0)] + Converted(acts);
    assert s.published <= Announced(s);
  }

  /**
   * In every interleaving each packet carries one whole vector computed by one
   * callback (or the initial zeros), never a mix; each client's packets never go
   * back in time; and the client accepts the packet and decodes that vector.
   */
  lemma EveryPacketIsOnePublication(acts: seq<Action>, i: nat, gap: seq<byte>, tail: seq<byte>, buf: seq<byte>)
    requires Exec(Initial(), acts).Some?
    requires i < |Exec(Initial(), acts).value.sent|
    requires |gap| == 12 && |tail| == 8 && |buf| == Netmeter.BUFFER
    requires Netmeter.Packet(Exec(Initial(), acts).value.sent[i].pkg, gap, tail) <= buf
    ensures var s := Exec(Initial(), acts).value;
      var p := s.sent[i];
      && 0 <= p.version < |s.published| <= 1 + |Converted(acts)|
      && p.pkg == s.published[p.version] == ([seq(16, _ => 0)] + Converted(acts))[p.version]
      && (forall j :: i < j < |s.sent| && s.sent[j].id == p.id ==> p.version <= s.sent[j].version)
      && Netmeter.Receive(|Netmeter.Packet(p.pkg, gap, tail)|, buf) == Netmeter.Accepted(s.published[p.version])
  {
    hide Netmeter.Packet, Netmeter.Receive, Exec;
    assert Inv(Initial());
    ExecKeepsInv(Initial(), acts);
    PublishedAreConverted(acts);
    var s := Exec(Initial(), acts).value;
    assert IsPublication(s, s.sent[i].pkg, s.sent[i].version);
    Netmeter.PacketRoundTrip(s.sent[i].pkg, gap, tail, buf);
  }

  // ---------------------------------------------------------------- a round trip of one vector

  lemma {:induction false} ExecAppend(s: System, left: seq<Action>, right: seq<Action>)
    requires Exec(s, left).Some?
    ensures Exec(s, left + right) == Exec(Exec(s, left).value, right)
    decreases |left|
  {
    hide Enabled, Step;
    if left == [] {
      assert left + right == right;
    } else {
      ExecAppend(Step(s, left[0]), left[1..], right);
      assert (left + right)[1..] == left[1..] + right;
    }
  }

  function Times(n: nat, a: Action): (acts: seq<Action>)
  {
    if n == 0 then [] else [a] + Times(n - 1, a)
  }

  lemma {:induction false} WritesAll(s: System, n: nat)
    requires s.writer.Writing? && s.writer.done + n == 16 && s.shared[..s.writer.done] == s.writer.vec[..s.writer.done]
    ensures Exec(s, Times(n, WriteOne)) == Some(s.(shared := s.writer.vec, writer := Writing(s.writer.vec, 16)))
    decreases n
  {
    if n > 0 {
      WritesAll(Step(s, WriteOne), n - 1);
      assert Times(n, WriteOne)[1..] == Times(n - 1, WriteOne);
    } else {
      assert s.shared == s.shared[..16] == s.writer.vec[..16] == s.writer.vec;
    }
  }

  lemma {:induction false} CopiesAll(s: System, id: nat, n: nat)
    requires id in s.readers && s.readers[id].Copying? && |s.readers[id].pkg| + n == 16 && s.readers[id].pkg <= s.shared
    ensures Exec(s, Times(n, CopyOne(id))) == Some(s.(readers := s.readers[id := Copying(s.shared)]))
    decreases n
  {
    if n > 0 {
      var t := Step(s, CopyOne(id));
      CopiesAll(t, id, n - 1);
      assert t.readers[id := Copying(s.shared)] == s.readers[id := Copying(s.shared)];
      assert Times(n, CopyOne(id))[1..] == Times(n - 1, CopyOne(id));
    } else {
      assert s.readers[id].pkg == s.shared;
      assert s.readers[id := Copying(s.shared)] == s.readers;
    }
  }

  /** The callback's part: conversion, and sixteen stores under the mutex. */
  function Callback(vec: Vector): (acts: seq<Action>)
  {
    [Convert(vec), LockWriter] + Times(16, WriteOne) + [UnlockWriter]
  }

  /** A client's part: sixteen loads under the mutex, and the packet. */
  function Serving(id: nat): (acts: seq<Action>)
  {
    [LockReader(id)] + Times(16, CopyOne(id)) + [UnlockReader(id), Send(id)]
  }

  lemma CallbackPublishes(s: System, vec: Vector)
    requires s.holder.Free? && s.writer.Idle?
    ensures Exec(s, Callback(vec)) == Some(s.(shared := vec, published := s.published + [vec]))
  {
    hide Times;
    var locked := s.(holder := ByWriter, writer := Writing(vec, 0));
    assert Exec(s, [Convert(vec), LockWriter]) == Some(locked) by {
      assert [Convert(vec), LockWriter][1..] == [LockWriter] && [LockWriter][1..] == [];
      assert Exec(Step(s, Convert(vec)), [LockWriter]) == Some(locked);
    }
    WritesAll(locked, 16);
    var written := locked.(shared := vec, writer := Writing(vec, 16));
    ExecAppend(s, [Convert(vec), LockWriter], Times(16, WriteOne));
    ExecAppend(s, [Convert(vec), LockWriter] + Times(16, WriteOne), [UnlockWriter]);
    assert Exec(written, [UnlockWriter]) == Some(Step(written, UnlockWriter));
  }

  lemma ServingSends(s: System, id: nat)
    requires s.holder.Free? && id !in s.readers
    ensures Exec(s, Serving(id)) == Some(s.(sent := s.sent + [Sent(id, s.shared, |s.published| - 1)]))
  {
    hide Times;
    var locked := s.(holder := ByReader(id), readers := s.readers[id := Copying([])]);
    assert Exec(s, [LockReader(id)]) == Some(locked);
    CopiesAll(locked, id, 16);
    var copied := locked.(readers := locked.readers[id := Copying(s.shared)]);
    ExecAppend(s, [LockReader(id)], Times(16, CopyOne(id)));
    ExecAppend(s, [LockReader(id)] + Times(16, CopyOne(id)), [UnlockReader(id), Send(id)]);
    var free := Step(copied, UnlockReader(id));
    assert [UnlockReader(id), Send(id)][1..] == [Send(id)];
    assert Exec(free, [Send(id)]) == Some(Step(free, Send(id)));
    assert Step(free, Send(id)).readers == s.readers;
  }

  /**
   * From every state in which the mutex is free and the callback idle, a vector
   * that is computed and then asked for is sent, as the newest publication, and
   * everything else is as before.
   */
  lemma VectorIsSent(s: System, vec: Vector, id: nat)
    requires s.holder.Free? && s.writer.Idle? && id !in s.readers
    ensures Exec(s, Callback(vec) + Serving(id)) ==
      Some(s.(shared := vec, published := s.published + [vec], sent := s.sent + [Sent(id, vec, |s.published|)]))
  {
    hide Exec, Callback, Serving;
    CallbackPublishes(s, vec);
    ExecAppend(s, Callback(vec), Serving(id));
    ServingSends(s.(shared := vec, published := s.published + [vec]), id);
  }
}
