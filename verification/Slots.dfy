/**
 * The connection table of the meter server: one listener hands out slots, each
 * client thread gives its slot back when it finishes. A slot is free when its
 * sock is zero. A run is any interleaving of the listener and the clients, with
 * the guard the code has or with the one it would need.
 */
module Slots {
  import opened Basics

  const MAXCONNS := 100

  /** A descriptor stored in a short int. */
  function Short(fd: int): (s: int)
    ensures -0x8000 <= s < 0x8000
    ensures -0x8000 <= fd < 0x8000 ==> s == fd
  {
    (fd + 0x8000) % 0x1_0000 - 0x8000
  }

  // ---------------------------------------------------------------- one pass over a table at rest

  /** The first free slot from start on, or the end of the table. */
  function FirstFree(socks: seq<int>, start: nat): (i: nat)
    requires start <= |socks|
    ensures start <= i <= |socks|
    ensures i < |socks| ==> socks[i] == 0
    ensures forall j :: start <= j < i ==> socks[j] != 0
    decreases |socks| - start
  {
    if start == |socks| || socks[start] == 0 then start else FirstFree(socks, start + 1)
  }

  /** The scan loop; at the end of the table the code's guard lets it look one element further. */
  method ScanPass(socks: array<int>, start: nat) returns (i: nat)
    requires start <= socks.Length
    ensures i == FirstFree(socks[..], start)
  {
    i := start;
    while i < socks.Length && socks[i] != 0
      invariant start <= i <= socks.Length
      invariant FirstFree(socks[..], start) == FirstFree(socks[..], i)
    {
      i := i + 1;
    }
  }

  // ---------------------------------------------------------------- every interleaving

  /**
   * Looking for a slot, holding one that looked free, starting the thread for an
   * accepted client, or having looked behind the last slot and found no zero.
   */
  datatype Listener = Scanning(i: nat) | Chosen(i: nat) | Threading(i: nat) | Outside

  /** lost is history: the slots of clients that ended without clearing their sock. */
  datatype System = System(socks: seq<int>, listener: Listener, clients: map<nat, nat>, lost: set<nat>)

  function Initial(): System
  {
    System(seq(MAXCONNS, _ => 0), Scanning(0), map[], {})
  }

  datatype Action =
    | Scan(behind: int)             // listener: look at one slot; behind is what lies behind the last
    | Rescan                        // listener: go on after the look behind the table
    | PollTimeout                   // listener: nobody connected, start over
    | Accept(fd: int)               // listener: accept returns fd
    | Spawn(id: nat, ok: bool)      // listener: pthread_create
    | Finish(id: nat)               // client: clears its sock and ends
    | Abort(id: nat)                // client: getpeername failed, ends without clearing it

  predicate Enabled(s: System, a: Action)
  {
    match a
    case Scan(_) => s.listener.Scanning?
    case Rescan => s.listener.Outside?
    case PollTimeout => s.listener.Chosen?
    case Accept(fd) => s.listener.Chosen?
    case Spawn(id, _) => s.listener.Threading? && id !in s.clients
    case Finish(id) => id in s.clients
    case Abort(id) => id in s.clients
  }

  predicate HasSlot(l: Listener)
  {
    l.Chosen? || l.Threading?
  }

  /** No slot held by a client or about to be written lies outside the table. */
  predicate InRange(s: System)
  {
    && |s.socks| == MAXCONNS
    && (HasSlot(s.listener) ==> s.listener.i < MAXCONNS)
    && (forall id :: id in s.clients ==> s.clients[id] < MAXCONNS)
  }

  /**
   * With the strict guard the scan stops at the end of the table, with the code's
   * guard it looks there once, at memory that is not the table's: a zero is taken
   * for a free slot. Either way the restart at 0 is followed by the loop's increment.
   */
  function Step(s: System, a: Action, strict: bool): System
    requires Enabled(s, a) && InRange(s)
  {
    match a
    case Scan(behind) =>
      var i := s.listener.i;
      if i >= MAXCONNS then
        s.(listener := if strict then Scanning(1) else if behind == 0 then Chosen(i) else Outside)
      else s.(listener := if s.socks[i] == 0 then Chosen(i) else Scanning(i + 1))
    case Rescan => s.(listener := Scanning(1))
    case PollTimeout => s.(listener := Scanning(0))
    case Accept(fd) =>
      var i := s.listener.i;
      if Short(fd) < 0 then s.(socks := s.socks[i := 0], listener := Scanning(0))
      else s.(socks := s.socks[i := Short(fd)], listener := Threading(i))
    case Spawn(id, ok) =>
      var i := s.listener.i;
      if ok then s.(clients := s.clients[id := i], listener := Scanning(0))
      else s.(socks := s.socks[i := 0], listener := Scanning(0))
    case Finish(id) => s.(socks := s.socks[s.clients[id] := 0], clients := s.clients - {id})
    case Abort(id) => s.(clients := s.clients - {id}, lost := s.lost + {s.clients[id]})
  }

  /**
   * A run ends at the latest with the first state that has a slot out of range:
   * what memory the next step would overwrite is not the table's.
   */
  function Exec(s: System, acts: seq<Action>, strict: bool): Option<System>
    decreases |acts|
  {
    if acts == [] then Some(s)
    else if InRange(s) && Enabled(s, acts[0]) then Exec(Step(s, acts[0], strict), acts[1..], strict)
    else None
  }

  // ---------------------------------------------------------------- ownership

  /** Whether the slot of the client being accepted looks free, after one more action. */
  function ZeroAfter(a: Action, zero: bool): bool
  {
    match a
    case Accept(fd) => Short(fd) == 0
    case Spawn(_, _) => false
    case _ => zero
  }

  /** Some accept whose descriptor is stored as 0 is followed by a successful pthread_create. */
  predicate SpawnsOnZero(acts: seq<Action>, zero: bool)
    decreases |acts|
  {
    acts != [] && ((zero && acts[0].Spawn? && acts[0].ok) || SpawnsOnZero(acts[1..], ZeroAfter(acts[0], zero)))
  }

  /** The step looks behind the table and finds a zero there. */
  predicate FindsZero(s: System, a: Action, strict: bool)
  {
    !strict && a.Scan? && s.listener.Scanning? && s.listener.i >= MAXCONNS && a.behind == 0
  }

  /** Some look behind the table finds a zero. */
  predicate FindsZeroBehind(s: System, acts: seq<Action>, strict: bool)
    decreases |acts|
  {
    && acts != [] && Enabled(s, acts[0]) && InRange(s)
    && (FindsZero(s, acts[0], strict) || FindsZeroBehind(Step(s, acts[0], strict), acts[1..], strict))
  }

  ghost predicate Unheld(s: System, slot: nat)
  {
    forall id :: id in s.clients ==> s.clients[id] != slot
  }

  /**
   * Live clients hold pairwise distinct slots inside the table with a non-zero
   * sock, and the slot the listener is about to write is held by none.
   */
  ghost predicate Owned(s: System)
  {
    && InRange(s)
    && (forall id :: id in s.clients ==> s.socks[s.clients[id]] != 0)
    && (forall id, id' :: id in s.clients && id' in s.clients && s.clients[id] == s.clients[id'] ==> id == id')
    && (HasSlot(s.listener) ==> Unheld(s, s.listener.i))
  }

  /** Owned in every state the run goes through. */
  ghost predicate AlwaysOwned(s: System, acts: seq<Action>, strict: bool)
    decreases |acts|
  {
    && Owned(s)
    && (acts != [] && Enabled(s, acts[0]) ==> AlwaysOwned(Step(s, acts[0], strict), acts[1..], strict))
  }

  ghost predicate Inv(s: System, zero: bool)
  {
    && Owned(s)
    && (s.listener.Chosen? ==> s.socks[s.listener.i] == 0)
    && (s.listener.Threading? ==> (s.socks[s.listener.i] == 0 <==> zero))
    && (zero ==> s.listener.Threading?)
  }

  lemma InvStep(s: System, a: Action, strict: bool, zero: bool)
    requires Inv(s, zero) && Enabled(s, a) && !(zero && a.Spawn? && a.ok) && !FindsZero(s, a, strict)
    ensures Inv(Step(s, a, strict), ZeroAfter(a, zero))
  {
    var t := Step(s, a, strict);
    if a.Scan? && t.listener.Chosen? {
      assert forall id :: id in s.clients ==> s.socks[s.clients[id]] != 0;
    }
  }

  lemma SpawnOnZeroIsNotOwned(s: System, a: Action, strict: bool)
    requires Inv(s, true) && Enabled(s, a) && a.Spawn? && a.ok
    ensures !Owned(Step(s, a, strict))
  {
    var t := Step(s, a, strict);
    assert a.id in t.clients && t.socks[t.clients[a.id]] == 0;
  }

  lemma ZeroBehindIsNotOwned(s: System, a: Action, strict: bool)
    requires Owned(s) && Enabled(s, a) && FindsZero(s, a, strict)
    ensures !Owned(Step(s, a, strict))
  {
  }

  lemma {:induction false} OwnedFrom(s: System, acts: seq<Action>, strict: bool, zero: bool)
    requires Inv(s, zero) && Exec(s, acts, strict).Some?
    ensures AlwaysOwned(s, acts, strict) <==> !SpawnsOnZero(acts, zero) && !FindsZeroBehind(s, acts, strict)
    decreases |acts|
  {
    hide Owned, Enabled, Step, ZeroAfter, FindsZero;
    if acts != [] {
      var a := acts[0];
      if zero && a.Spawn? && a.ok {
        SpawnOnZeroIsNotOwned(s, a, strict);
      } else if FindsZero(s, a, strict) {
        ZeroBehindIsNotOwned(s, a, strict);
      } else {
        InvStep(s, a, strict, zero);
        OwnedFrom(Step(s, a, strict), acts[1..], strict, ZeroAfter(a, zero));
      }
    }
  }

  /**
   * With either guard, every state of a run is owned exactly when no accept whose
   * descriptor is stored as 0, the mark of a free slot, is followed by a
   * successful pthread_create, and no look behind the table finds a zero.
   */
  lemma OwnedExactly(acts: seq<Action>, strict: bool)
    requires Exec(Initial(), acts, strict).Some?
    ensures AlwaysOwned(Initial(), acts, strict)
       <==> !SpawnsOnZero(acts, false) && !FindsZeroBehind(Initial(), acts, strict)
  {
    hide Exec, AlwaysOwned, SpawnsOnZero, FindsZeroBehind;
    assert Inv(Initial(), false);
    OwnedFrom(Initial(), acts, strict, false);
  }

  /** A client accepted on descriptor 0 shares its slot with the next, since the slot still looks free. */
  lemma DescriptorZeroSharesASlot(strict: bool, behind: int)
    ensures var acts := [Scan(behind), Accept(0), Spawn(1, true), Scan(behind), Accept(5), Spawn(2, true)];
      Exec(Initial(), acts, strict).Some? && Exec(Initial(), acts, strict).value.clients == map[1 := 0, 2 := 0]
  {
    var s0 := Initial();
    var s1 := Step(s0, Scan(behind), strict);
    var s2 := Step(s1, Accept(0), strict);
    var s3 := Step(s2, Spawn(1, true), strict);
    var s4 := Step(s3, Scan(behind), strict);
    var s5 := Step(s4, Accept(5), strict);
    var s6 := Step(s5, Spawn(2, true), strict);
    assert s6.clients == map[1 := 0, 2 := 0];
    assert Exec(s5, [Spawn(2, true)], strict) == Some(s6);
    assert Exec(s4, [Accept(5), Spawn(2, true)], strict) == Some(s6);
    assert Exec(s3, [Scan(behind), Accept(5), Spawn(2, true)], strict) == Some(s6);
    assert Exec(s2, [Spawn(1, true), Scan(behind), Accept(5), Spawn(2, true)], strict) == Some(s6);
    assert Exec(s1, [Accept(0), Spawn(1, true), Scan(behind), Accept(5), Spawn(2, true)], strict) == Some(s6);
  }

  // ---------------------------------------------------------------- lost slots

  function Aborts(acts: seq<Action>): (n: nat)
  {
    if acts == [] then 0 else (if acts[0].Abort? then 1 else 0) + Aborts(acts[1..])
  }

  ghost predicate Held(s: System, slot: nat)
  {
    !Unheld(s, slot)
  }

  /**
   * The slot is set exactly when a live client holds it or it is lost, never for
   * both reasons; that of the client being accepted is neither held nor lost.
   */
  ghost predicate AccountedAt(s: System, slot: nat)
    requires slot < |s.socks|
  {
    if s.listener.Threading? && s.listener.i == slot then !Held(s, slot) && slot !in s.lost
    else
      && (s.socks[slot] != 0 <==> Held(s, slot) || slot in s.lost)
      && !(Held(s, slot) && slot in s.lost)
  }

  ghost predicate Accounted(s: System)
  {
    && (forall j :: j in s.lost ==> j < |s.socks|)
    && (forall j :: 0 <= j < |s.socks| ==> AccountedAt(s, j))
  }

  lemma HeldAfter(s: System, a: Action, strict: bool, j: nat)
    requires Owned(s) && Enabled(s, a)
    ensures var t := Step(s, a, strict);
      Held(t, j) <==>
        if a.Spawn? && a.ok then Held(s, j) || j == s.listener.i
        else if a.Finish? || a.Abort? then Held(s, j) && j != s.clients[a.id]
        else Held(s, j)
  {
    var t := Step(s, a, strict);
    if a.Spawn? && a.ok {
      assert forall id :: id in t.clients <==> id in s.clients || id == a.id;
      assert a.id in t.clients;
      if Held(s, j) {
        var id :| id in s.clients && s.clients[id] == j;
        assert id in t.clients && t.clients[id] == j;
      }
    } else if a.Finish? || a.Abort? {
      assert forall id :: id in t.clients <==> id in s.clients && id != a.id;
      if Held(s, j) && j != s.clients[a.id] {
        var id :| id in s.clients && s.clients[id] == j;
        assert id in t.clients && t.clients[id] == j;
      }
    }
  }

  lemma AccountedAtStep(s: System, a: Action, strict: bool, zero: bool, slot: nat)
    requires Inv(s, zero) && Enabled(s, a) && !(zero && a.Spawn? && a.ok) && !FindsZero(s, a, strict)
    requires slot < MAXCONNS && AccountedAt(s, slot)
    ensures AccountedAt(Step(s, a, strict), slot)
  {
    HeldAfter(s, a, strict, slot);
    if a.Finish? || a.Abort? {
      assert Held(s, s.clients[a.id]);
    }
    hide Held;
  }

  lemma AccountedStep(s: System, a: Action, strict: bool, zero: bool)
    requires Inv(s, zero) && Accounted(s) && Enabled(s, a)
    requires !(zero && a.Spawn? && a.ok) && !FindsZero(s, a, strict)
    ensures var t := Step(s, a, strict);
      Accounted(t) && |t.lost| == |s.lost| + (if a.Abort? then 1 else 0)
  {
    hide AccountedAt, Unheld;
    var t := Step(s, a, strict);
    forall j | 0 <= j < |t.socks| ensures AccountedAt(t, j) {
      AccountedAtStep(s, a, strict, zero, j);
    }
    if a.Abort? {
      HeldIsNotLost(s, a.id);
    }
  }

  lemma HeldIsNotLost(s: System, id: nat)
    requires id in s.clients && s.clients[id] < |s.socks| && AccountedAt(s, s.clients[id])
    ensures s.clients[id] !in s.lost
  {
    assert Held(s, s.clients[id]);
  }

  lemma {:induction false} AccountedFrom(s: System, acts: seq<Action>, strict: bool, zero: bool)
    requires Inv(s, zero) && Accounted(s) && Exec(s, acts, strict).Some?
    requires !SpawnsOnZero(acts, zero) && !FindsZeroBehind(s, acts, strict)
    ensures var t := Exec(s, acts, strict).value;
      Owned(t) && Accounted(t) && |t.lost| == |s.lost| + Aborts(acts)
    decreases |acts|
  {
    hide Owned, Accounted, Enabled, Step, ZeroAfter, FindsZero;
    if acts != [] {
      InvStep(s, acts[0], strict, zero);
      AccountedStep(s, acts[0], strict, zero);
      AccountedFrom(Step(s, acts[0], strict), acts[1..], strict, ZeroAfter(acts[0], zero));
    }
  }

  lemma {:induction false} BoundedSet(slots: set<nat>, n: nat)
    requires forall j :: j in slots ==> j < n
    ensures |slots| <= n
  {
    if n == 0 {
      assert slots == {};
    } else {
      BoundedSet(slots - {n - 1}, n - 1);
      assert slots <= slots - {n - 1} + {n - 1};
    }
  }

  /**
   * Over every such run, live clients own their slots, and the slots that are set
   * are those of live clients and one more for every aborted client, lost for
   * good: no run sees more aborts than the table has slots.
   */
  lemma SlotsAreOwned(acts: seq<Action>, strict: bool)
    requires Exec(Initial(), acts, strict).Some?
    requires !SpawnsOnZero(acts, false) && !FindsZeroBehind(Initial(), acts, strict)
    ensures var s := Exec(Initial(), acts, strict).value;
      && Owned(s)
      && Accounted(s)
      && |s.lost| == Aborts(acts) <= MAXCONNS
  {
    hide Exec, SpawnsOnZero, FindsZeroBehind;
    assert Inv(Initial(), false) && Accounted(Initial());
    AccountedFrom(Initial(), acts, strict, false);
    BoundedSet(Exec(Initial(), acts, strict).value.lost, MAXCONNS);
  }

  lemma {:induction false} LostForGood(s: System, acts: seq<Action>, strict: bool)
    requires Exec(s, acts, strict).Some?
    ensures s.lost <= Exec(s, acts, strict).value.lost
    decreases |acts|
  {
    if acts != [] {
      LostForGood(Step(s, acts[0], strict), acts[1..], strict);
    }
  }

  // ---------------------------------------------------------------- passes over a changing table

  /** The listener has looked behind the table, whatever it found there. */
  predicate PastEnd(l: Listener)
  {
    l.Outside? || (l.Chosen? && l.i >= MAXCONNS)
  }

  predicate AllSetFrom(socks: seq<int>, start: nat)
  {
    forall j :: start <= j < |socks| ==> socks[j] != 0
  }

  /** Some client cleared a slot the scan had not looked at yet. */
  predicate FreedAhead(s: System, acts: seq<Action>, strict: bool)
    decreases |acts|
  {
    && acts != [] && Enabled(s, acts[0]) && InRange(s)
    && (|| (acts[0].Finish? && s.listener.Scanning? && s.clients[acts[0].id] >= s.listener.i)
        || FreedAhead(Step(s, acts[0], strict), acts[1..], strict))
  }

  function Scans(acts: seq<Action>): (n: nat)
  {
    if acts == [] then 0 else (if acts[0].Scan? then 1 else 0) + Scans(acts[1..])
  }

  /** A listener that is done scanning waits for something that is not part of a pass. */
  lemma {:induction false} PassIsOver(s: System, acts: seq<Action>, strict: bool)
    requires Exec(s, acts, strict).Some? && !s.listener.Scanning?
    requires forall k :: 0 <= k < |acts| ==> acts[k].Scan? || acts[k].Finish? || acts[k].Abort?
    ensures Exec(s, acts, strict).value.listener == s.listener
    ensures !FreedAhead(s, acts, strict) && !FindsZeroBehind(s, acts, strict)
    decreases |acts|
  {
    if acts != [] {
      PassIsOver(Step(s, acts[0], strict), acts[1..], strict);
    }
  }

  /**
   * With the code's guard, a pass that has ended left the table exactly when
   * every slot from its start on was set when it began and no client cleared one
   * ahead of it, whatever else the clients did; it then takes what lies behind
   * for a slot exactly when it found a zero there.
   */
  lemma {:induction false} PassExactly(s: System, acts: seq<Action>)
    requires Exec(s, acts, false).Some? && InRange(s)
    requires s.listener.Scanning? && s.listener.i <= MAXCONNS
    requires forall k :: 0 <= k < |acts| ==> acts[k].Scan? || acts[k].Finish? || acts[k].Abort?
    requires !Exec(s, acts, false).value.listener.Scanning?
    ensures var l := Exec(s, acts, false).value.listener;
      && (PastEnd(l) <==> AllSetFrom(s.socks, s.listener.i) && !FreedAhead(s, acts, false))
      && (PastEnd(l) && l.Chosen? <==> FindsZeroBehind(s, acts, false))
    decreases |acts|
  {
    var a := acts[0];
    var t := Step(s, a, false);
    if t.listener.Scanning? {
      StepKeepsRange(s, a, false);
      PassExactly(t, acts[1..]);
      SetAfter(s, a);
    } else {
      PassIsOver(t, acts[1..], false);
    }
  }

  lemma StepKeepsRange(s: System, a: Action, strict: bool)
    requires InRange(s) && Enabled(s, a) && !FindsZero(s, a, strict)
    ensures InRange(Step(s, a, strict))
  {
  }

  lemma SetAfter(s: System, a: Action)
    requires InRange(s) && Enabled(s, a) && (a.Scan? || a.Finish? || a.Abort?)
    requires s.listener.Scanning? && Step(s, a, false).listener.Scanning?
    ensures var t := Step(s, a, false);
      AllSetFrom(t.socks, t.listener.i) <==>
        AllSetFrom(s.socks, s.listener.i) && !(a.Finish? && s.clients[a.id] >= s.listener.i)
  {
    var t := Step(s, a, false);
    if a.Finish? {
      assert t.socks[s.clients[a.id]] == 0;
      assert forall j :: 0 <= j < |t.socks| && j != s.clients[a.id] ==> t.socks[j] == s.socks[j];
    }
  }

  /** A pass that has not ended has moved one slot further with every look, so every pass ends. */
  lemma {:induction false} PassMovesOn(s: System, acts: seq<Action>)
    requires Exec(s, acts, false).Some? && s.listener.Scanning? && s.listener.i <= MAXCONNS
    requires forall k :: 0 <= k < |acts| ==> acts[k].Scan? || acts[k].Finish? || acts[k].Abort?
    requires Exec(s, acts, false).value.listener.Scanning?
    ensures Exec(s, acts, false).value.listener.i == s.listener.i + Scans(acts) <= MAXCONNS
    decreases |acts|
  {
    if acts != [] {
      var t := Step(s, acts[0], false);
      if t.listener.Scanning? {
        PassMovesOn(t, acts[1..]);
      } else {
        PassIsOver(t, acts[1..], false);
      }
    }
  }

  /** With the stricter guard no run ever leaves the table. */
  lemma {:induction false} StrictStaysInside(s: System, acts: seq<Action>)
    requires Exec(s, acts, true).Some? && !PastEnd(s.listener)
    ensures !PastEnd(Exec(s, acts, true).value.listener) && !FindsZeroBehind(s, acts, true)
    decreases |acts|
  {
    if acts != [] {
      StrictStaysInside(Step(s, acts[0], true), acts[1..]);
    }
  }

  function Looks(n: nat, behind: int): (acts: seq<Action>)
    ensures |acts| == n && forall k :: 0 <= k < n ==> acts[k] == Scan(behind)
  {
    seq(n, _ => Scan(behind))
  }

  /** Without clients, the steps of a pass take the listener where the scan loop ends. */
  lemma {:induction false} LooksFindFirstFree(s: System, behind: int)
    requires InRange(s) && s.listener.Scanning? && s.listener.i <= MAXCONNS
    ensures var i := FirstFree(s.socks, s.listener.i);
      Exec(s, Looks(i + 1 - s.listener.i, behind), false)
        == Some(s.(listener := if i < MAXCONNS || behind == 0 then Chosen(i) else Outside))
    decreases MAXCONNS - s.listener.i
  {
    var i := FirstFree(s.socks, s.listener.i);
    var acts := Looks(i + 1 - s.listener.i, behind);
    var t := Step(s, Scan(behind), false);
    assert acts[0] == Scan(behind) && acts[1..] == Looks(i - s.listener.i, behind);
    if i > s.listener.i {
      LooksFindFirstFree(t, behind);
    }
  }

  /**
   * For a table at rest and a pass from any slot, the code's guard, i > MAXCONNS,
   * keeps the scan inside the table exactly when some slot from there on is free.
   */
  lemma GuardExactly(s: System, behind: int)
    requires InRange(s) && s.listener.Scanning? && s.listener.i <= MAXCONNS
    ensures var start := s.listener.i;
      var after := Exec(s, Looks(FirstFree(s.socks, start) + 1 - start, behind), false);
      after.Some? && (PastEnd(after.value.listener) <==> 0 !in s.socks[start..])
  {
    hide Exec;
    LooksFindFirstFree(s, behind);
    var start, i := s.listener.i, FirstFree(s.socks, s.listener.i);
    if i < MAXCONNS {
      assert s.socks[start..][i - start] == 0;
    }
  }

  /**
   * A poll that timed out, an accept that failed or a pthread_create ends the
   * handling of a connection: the next pass starts at slot 0, so it finds
   * the first of all free slots.
   */
  lemma NextPassFindsFirstFree(s: System, a: Action, behind: int)
    requires InRange(s) && Enabled(s, a) && 0 in Step(s, a, false).socks
    requires a.PollTimeout? || a.Spawn? || (a.Accept? && Short(a.fd) < 0)
    ensures var socks := Step(s, a, false).socks;
      var i := FirstFree(socks, 0);
      var t := Exec(s, [a] + Looks(i + 1, behind), false);
      && i < MAXCONNS && t.Some? && t.value.listener == Chosen(i) && t.value.socks == socks
  {
    var t := Step(s, a, false);
    var i := FirstFree(t.socks, 0);
    var k :| 0 <= k < |t.socks| && t.socks[k] == 0;
    LooksFindFirstFree(t, behind);
    assert ([a] + Looks(i + 1, behind))[1..] == Looks(i + 1, behind);
  }

  /** The pass that goes on after a full table starts at slot 1, with either guard. */
  lemma FullScanGoesOnAtOne(s: System, behind: int)
    requires InRange(s) && 0 in s.socks[1..]
    ensures var i := FirstFree(s.socks, 1);
      && i < 100
      && (s.listener.Outside? ==>
            Exec(s, [Rescan] + Looks(i, behind), false) == Some(s.(listener := Chosen(i))))
      && (s.listener == Scanning(100) ==> Step(s, Scan(behind), true) == s.(listener := Scanning(1)))
  {
    var i := FirstFree(s.socks, 1);
    var k :| 0 <= k < |s.socks[1..]| && s.socks[1..][k] == 0;
    assert s.socks[k + 1] == 0;
    if s.listener.Outside? {
      LooksFindFirstFree(Step(s, Rescan, false), behind);
      assert ([Rescan] + Looks(i, behind))[1..] == Looks(i, behind);
    }
  }

  lemma {:induction false} ExecAppend(s: System, left: seq<Action>, right: seq<Action>, strict: bool)
    requires Exec(s, left, strict).Some?
    ensures Exec(s, left + right, strict) == Exec(Exec(s, left, strict).value, right, strict)
    decreases |left|
  {
    hide Enabled, Step, InRange;
    if left == [] {
      assert left + right == right;
    } else {
      ExecAppend(Step(s, left[0], strict), left[1..], right, strict);
      assert (left + right)[1..] == left[1..] + right;
    }
  }

  /** A run that accepts n clients, one after the other. */
  function Accepting(n: nat, behind: int): (acts: seq<Action>)
  {
    if n == 0 then [] else Accepting(n - 1, behind) + (Looks(n, behind) + [Accept(5), Spawn(n - 1, true)])
  }

  function FirstClients(n: nat): (clients: map<nat, nat>)
    ensures forall id: nat :: id in clients <==> id < n
    ensures forall id :: id in clients ==> clients[id] == id
  {
    if n == 0 then map[] else FirstClients(n - 1)[n - 1 := n - 1]
  }

  function Filled(n: nat): System
  {
    System(seq(MAXCONNS, j => if j < n then 5 else 0), Scanning(0), FirstClients(n), {})
  }

  lemma {:induction false} FillsTable(n: nat, behind: int)
    requires n <= MAXCONNS
    ensures Exec(Initial(), Accepting(n, behind), false) == Some(Filled(n))
  {
    if n == 0 {
      assert Filled(0).clients == map[] && Filled(0).socks == Initial().socks;
    } else {
      hide Exec, Looks;
      FillsTable(n - 1, behind);
      AcceptsOne(n - 1, behind);
      ExecAppend(Initial(), Accepting(n - 1, behind), Looks(n, behind) + [Accept(5), Spawn(n - 1, true)], false);
    }
  }

  lemma {:induction false} FirstFreeIs(socks: seq<int>, start: nat, n: nat)
    requires start <= n <= |socks| && (n < |socks| ==> socks[n] == 0)
    requires forall j :: start <= j < n ==> socks[j] != 0
    ensures FirstFree(socks, start) == n
    decreases n - start
  {
    if start < n {
      FirstFreeIs(socks, start + 1, n);
    }
  }

  lemma AcceptsOne(n: nat, behind: int)
    requires n < MAXCONNS
    ensures Exec(Filled(n), Looks(n + 1, behind) + [Accept(5), Spawn(n, true)], false) == Some(Filled(n + 1))
  {
    hide Looks;
    var s := Filled(n);
    FirstFreeIs(s.socks, 0, n);
    LooksFindFirstFree(s, behind);
    ExecAppend(s, Looks(n + 1, behind), [Accept(5), Spawn(n, true)], false);
    var chosen := s.(listener := Chosen(n));
    var threading := Step(chosen, Accept(5), false);
    var t := Step(threading, Spawn(n, true), false);
    assert Exec(threading, [Spawn(n, true)], false) == Some(t);
    assert [Accept(5), Spawn(n, true)][1..] == [Spawn(n, true)];
    assert t.socks == Filled(n + 1).socks && t.clients == Filled(n + 1).clients;
  }

  /**
   * A run in which no descriptor is stored as 0, and yet the listener takes what
   * lies behind a full table for a free slot: a hundred clients are accepted, and
   * the next look finds a zero there.
   */
  lemma FullTableIsLeft()
    ensures var acts := Accepting(100, 0) + Looks(101, 0);
      Exec(Initial(), acts, false) == Some(Filled(100).(listener := Chosen(100)))
  {
    hide Exec, Looks, Accepting;
    FillsTable(MAXCONNS, 0);
    FirstFreeIs(Filled(MAXCONNS).socks, 0, MAXCONNS);
    ExecAppend(Initial(), Accepting(MAXCONNS, 0), Looks(MAXCONNS + 1, 0), false);
    LooksFindFirstFree(Filled(MAXCONNS), 0);
  }

  /**
   * A scan that has moved past slot 0 never looks at it again, with either guard,
   * however often it finds the table full and whatever the clients do meanwhile.
   */
  lemma {:induction false} FullScanSkipsSlotZero(s: System, acts: seq<Action>, strict: bool)
    requires s.listener != Scanning(0) && s.listener != Chosen(0) && !s.listener.Threading?
    requires forall k :: 0 <= k < |acts| ==> acts[k].Scan? || acts[k].Rescan? || acts[k].Finish? || acts[k].Abort?
    requires Exec(s, acts, strict).Some?
    ensures var l := Exec(s, acts, strict).value.listener;
      l != Scanning(0) && l != Chosen(0) && !l.Threading?
    decreases |acts|
  {
    if acts != [] {
      FullScanSkipsSlotZero(Step(s, acts[0], strict), acts[1..], strict);
    }
  }
}
