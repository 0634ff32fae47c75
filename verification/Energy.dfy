/**
 * Rectangular energy integration of the meter logger: each positive reading is
 * charged for the time since the reading integrated last, and the running total,
 * an unsigned int, is cut to a whole number after every addition. The addition
 * loads the total and stores it without a lock, and a client's RESET, a store of
 * 0 by another thread, can fall anywhere, also between the two.
 */
module Energy {
  import opened Basics
  import opened Bytes
  import opened Reals

  /** One integrated interval. */
  datatype Span = Span(from: int, to: int, power: real)

  function Interval(s: Span): real
  {
    (s.to - s.from) as real / 1000000.0
  }

  function EnergyOf(s: Span): real
  {
    s.power * Interval(s)
  }

  /** An addition under way: what was loaded; whether a RESET has come since is history. */
  datatype Update = Update(loaded: uint32, span: Span, loadedFrom: nat, resetSince: bool)

  /**
   * lastTv, total and power as in the logger. History: the spans integrated, how
   * many there were at the last RESET, and from which on they are in the total.
   */
  datatype State = State(lastTv: int, total: uint32, power: real, update: Option<Update>,
                         spans: seq<Span>, resetAt: nat, countedFrom: nat)

  function Initial(start: int): State
  {
    State(start, 0, 0.0, None, [], 0, 0)
  }

  datatype Action =
    | Load(value: real, inWatts: bool, now: int)   // monitor: a reading, now in microseconds; the total is loaded
    | Store                                        // monitor: the sum is converted and stored
    | Reset                                        // client: the total is set to 0

  function PowerOf(value: real, inWatts: bool, volts: real): real
  {
    if inWatts then value else value * volts
  }

  predicate Enabled(s: State, a: Action)
  {
    match a
    case Load(_, _, _) => s.update.None?
    case Store => s.update.Some? && ToUnsigned(s.update.value.loaded as real + EnergyOf(s.update.value.span)).Some?
    case Reset => true
  }

  function Step(s: State, a: Action, volts: real): State
    requires Enabled(s, a)
  {
    match a
    case Load(value, inWatts, now) =>
      if value > 0.0 then
        var span := Span(s.lastTv, now, PowerOf(value, inWatts, volts));
        s.(power := span.power, update := Some(Update(s.total, span, s.countedFrom, false)))
      else s
    case Store =>
      var u := s.update.value;
      s.(lastTv := u.span.to, total := ToUnsigned(u.loaded as real + EnergyOf(u.span)).value, update := None,
         spans := s.spans + [u.span], countedFrom := u.loadedFrom)
    case Reset =>
      s.(total := 0, resetAt := |s.spans|, countedFrom := |s.spans|,
         update := if s.update.Some? then Some(s.update.value.(resetSince := true)) else None)
  }

  /** No result when some step is not possible, or its conversion is undefined. */
  function Exec(s: State, acts: seq<Action>, volts: real): Option<State>
    decreases |acts|
  {
    if acts == [] then Some(s)
    else
      match Exec(s, acts[..|acts| - 1], volts)
      case None => None
      case Some(t) =>
        var a := acts[|acts| - 1];
        if Enabled(t, a) then Some(Step(t, a, volts)) else None
  }

  lemma {:induction false} ExecAppend(s: State, left: seq<Action>, right: seq<Action>, volts: real)
    ensures Exec(s, left + right, volts) ==
      match Exec(s, left, volts) case None => None case Some(t) => Exec(t, right, volts)
    decreases |right|
  {
    hide Enabled, Step;
    if right == [] {
      assert left + right == left;
    } else {
      ExecAppend(s, left, right[..|right| - 1], volts);
      assert (left + right)[..|left + right| - 1] == left + right[..|right| - 1];
    }
  }

  // ---------------------------------------------------------------- the logger

  /** One turn of the monitor loop, with or without a RESET during it, or a RESET between two turns. */
  datatype Turn =
    | Reading(value: real, inWatts: bool, now: int, resetInside: bool)
    | ResetBetween

  predicate Integrated(t: Turn)
  {
    t.Reading? && t.value > 0.0
  }

  function ActsOf(t: Turn): (acts: seq<Action>)
  {
    match t
    case ResetBetween => [Reset]
    case Reading(value, inWatts, now, resetInside) =>
      [Load(value, inWatts, now)] + (if resetInside then [Reset] else []) + (if value > 0.0 then [Store] else [])
  }

  function ActsOfAll(turns: seq<Turn>): (acts: seq<Action>)
  {
    if turns == [] then [] else ActsOfAll(turns[..|turns| - 1]) + ActsOf(turns[|turns| - 1])
  }

  /** The number of readings integrated. */
  function Positive(turns: seq<Turn>): (n: nat)
  {
    if turns == [] then 0
    else Positive(turns[..|turns| - 1]) + if Integrated(turns[|turns| - 1]) then 1 else 0
  }

  lemma TurnRun(s: State, t: Turn, volts: real)
    requires s.update.None? && t.Reading?
    ensures var loaded := Step(s, Load(t.value, t.inWatts, t.now), volts);
      var held := if t.resetInside then Step(loaded, Reset, volts) else loaded;
      Exec(s, ActsOf(t), volts) ==
        if !Integrated(t) then Some(held)
        else if Enabled(held, Store) then Some(Step(held, Store, volts)) else None
  {
    hide EnergyOf;
    var load := [Load(t.value, t.inWatts, t.now)];
    assert load[..0] == [] && Exec(s, [], volts) == Some(s);
    assert Exec(s, load, volts) == Some(Step(s, load[0], volts));
    var held := if t.resetInside then load + [Reset] else load;
    assert held[..1] == load;
    assert Exec(s, held, volts).Some?;
    if Integrated(t) {
      assert ActsOf(t) == held + [Store];
      assert (held + [Store])[..|held|] == held;
    } else {
      assert ActsOf(t) == held;
    }
  }

  class Logger {
    var power: real
    var cumulativeEnergy: uint32
    var lastTv: int
    ghost var spans: seq<Span>
    ghost var resetAt: nat
    ghost var countedFrom: nat

    /** Between two turns no addition is under way. */
    ghost function Now(): State
      reads this
    {
      State(lastTv, cumulativeEnergy, power, None, spans, resetAt, countedFrom)
    }

    constructor (beginTv: int)
      ensures Now() == Initial(beginTv)
      ensures lastTv == beginTv && cumulativeEnergy == 0 && power == 0.0
    {
      power, cumulativeEnergy, lastTv, spans, resetAt, countedFrom := 0.0, 0, beginTv, [], 0, 0;
    }

    /** What another thread does on a RESET. */
    method ClientReset()
      modifies this`cumulativeEnergy, this`resetAt, this`countedFrom
      ensures Now() == Step(old(Now()), Reset, 0.0)
    {
      cumulativeEnergy := 0;
      resetAt, countedFrom := |spans|, |spans|;
    }

    /** The sum is added up from the total as loaded; the caller moves lastTv on. */
    method Integrate(t: Turn, volts: real) returns (defined: bool)
      requires Integrated(t)
      modifies this`power, this`cumulativeEnergy, this`spans, this`resetAt, this`countedFrom
      ensures Exec(old(Now()), ActsOf(t), volts) == if defined then Some(Now().(lastTv := t.now)) else None
    {
      hide EnergyOf, Exec, ToUnsigned, ActsOf;
      ghost var loadedState := Step(Now(), Load(t.value, t.inWatts, t.now), volts);
      ghost var held := if t.resetInside then Step(loadedState, Reset, volts) else loadedState;
      TurnRun(Now(), t, volts);
      if !t.inWatts {
        power := t.value * volts;
      } else {
        power := t.value;
      }
      var span := Span(lastTv, t.now, power);
      var energy := EnergyOf(span);
      var loaded := cumulativeEnergy;
      ghost var from := countedFrom;
      if t.resetInside {
        ClientReset();
      }
      var sum := ToUnsigned(loaded as real + energy);
      if sum.None? {
        return false;
      }
      cumulativeEnergy := sum.value;
      spans, countedFrom := spans + [span], from;
      assert Now().(lastTv := t.now) == Step(held, Store, volts);
      return true;
    }

    /** One turn of the monitor loop, and what the clients do meanwhile. */
    method TakeTurn(t: Turn, volts: real) returns (defined: bool)
      modifies this
      ensures Exec(old(Now()), ActsOf(t), volts) == if defined then Some(Now()) else None
      ensures !Integrated(t) ==> defined
    {
      hide Exec, ActsOf;
      BetweenTurns(Now(), t, volts);
      defined := true;
      if t.ResetBetween? {
        ClientReset();
      } else if t.value > 0.0 {
        defined := Integrate(t, volts);
        if defined {
          lastTv := t.now;
        }
      } else if t.resetInside {
        ClientReset();
      }
    }

    /**
     * The monitor loop. With a count it stops after that many positive readings,
     * without one it goes on to the end. Not defined means the turn at used made
     * a sum that has no unsigned value.
     */
    method Monitor(turns: seq<Turn>, count: nat, volts: real) returns (used: nat, defined: bool)
      modifies this
      ensures used <= |turns|
      ensures defined ==> Exec(old(Now()), ActsOfAll(turns[..used]), volts) == Some(Now())
      ensures !defined ==> used < |turns| && Exec(old(Now()), ActsOfAll(turns[..used + 1]), volts) == None
      ensures count > 0 ==> Positive(turns[..used]) <= count
      ensures defined && used < |turns| ==> count > 0 && Positive(turns[..used]) == count
    {
      var loops: int := if count > 0 then count - 1 else 0;
      used := 0;
      while used < |turns| && loops >= 0
        invariant used <= |turns|
        invariant Exec(old(Now()), ActsOfAll(turns[..used]), volts) == Some(Now())
        invariant if count > 0 then loops == count - 1 - Positive(turns[..used]) && loops >= -1 else loops == 0
      {
        hide ActsOf, ActsOfAll, Positive, Exec;
        NextTurn(old(Now()), turns, used, volts);
        defined := TakeTurn(turns[used], volts);
        if !defined {
          return;
        }
        if count > 0 && Integrated(turns[used]) {
          loops := loops - 1;
        }
        used := used + 1;
      }
      return used, true;
    }
  }

  lemma NextTurn(s: State, turns: seq<Turn>, used: nat, volts: real)
    requires used < |turns|
    ensures Exec(s, ActsOfAll(turns[..used + 1]), volts) ==
      match Exec(s, ActsOfAll(turns[..used]), volts)
      case None => None
      case Some(t) => Exec(t, ActsOf(turns[used]), volts)
    ensures Positive(turns[..used + 1]) == Positive(turns[..used]) + if Integrated(turns[used]) then 1 else 0
  {
    hide Exec, ActsOf;
    assert turns[..used + 1][..used] == turns[..used];
    ExecAppend(s, ActsOfAll(turns[..used]), ActsOf(turns[used]), volts);
  }

  /** A turn that integrates nothing does what its RESET does. */
  lemma BetweenTurns(s: State, t: Turn, volts: real)
    requires s.update.None?
    ensures !Integrated(t) ==>
      Exec(s, ActsOf(t), volts) == Some(if t.ResetBetween? || t.resetInside then Step(s, Reset, 0.0) else s)
  {
    if t.Reading? {
      TurnRun(s, t, volts);
    } else {
      assert ActsOf(t)[..0] == [] && Exec(s, [], volts) == Some(s);
    }
  }

  // ---------------------------------------------------------------- tiling

  /** The spans run from start to end without gap or overlap. */
  predicate Tiles(spans: seq<Span>, start: int, end: int)
  {
    && (spans == [] ==> start == end)
    && (spans != [] ==> spans[0].from == start && spans[|spans| - 1].to == end)
    && (forall k :: 0 < k < |spans| ==> spans[k - 1].to == spans[k].from)
  }

  function Stores(acts: seq<Action>): (n: nat)
  {
    if acts == [] then 0 else Stores(acts[..|acts| - 1]) + if acts[|acts| - 1].Store? then 1 else 0
  }

  /**
   * Over any run the integrated intervals tile the time from the start to the
   * reading integrated last, one for each positive reading; neither skipped
   * readings nor resets leave a gap.
   */
  lemma {:induction false} SpansTile(start: int, acts: seq<Action>, volts: real)
    requires Exec(Initial(start), acts, volts).Some?
    ensures var s := Exec(Initial(start), acts, volts).value;
      && Tiles(s.spans, start, s.lastTv)
      && |s.spans| == Stores(acts)
      && s.resetAt <= |s.spans| && s.countedFrom <= |s.spans|
      && (s.update.Some? ==> s.update.value.span.from == s.lastTv && s.update.value.loadedFrom <= |s.spans|)
    decreases |acts|
  {
    if acts != [] {
      hide EnergyOf, PowerOf, ToUnsigned;
      SpansTile(start, acts[..|acts| - 1], volts);
    }
  }

  function TotalTime(spans: seq<Span>): real
  {
    if spans == [] then 0.0 else TotalTime(spans[..|spans| - 1]) + Interval(spans[|spans| - 1])
  }

  /** The time charged is the time that passed. */
  lemma {:induction false} TimeIsConserved(spans: seq<Span>, start: int, end: int)
    requires Tiles(spans, start, end)
    ensures TotalTime(spans) == (end - start) as real / 1000000.0
  {
    if spans != [] {
      var rest, last := spans[..|spans| - 1], spans[|spans| - 1];
      TimeIsConserved(rest, start, last.from);
    }
  }

  // ---------------------------------------------------------------- truncation

  /** The exact energy of the spans. */
  function Exact(spans: seq<Span>): real
  {
    if spans == [] then 0.0 else Exact(spans[..|spans| - 1]) + EnergyOf(spans[|spans| - 1])
  }

  lemma ExactNext(spans: seq<Span>, span: Span)
    ensures Exact(spans + [span]) == Exact(spans) + EnergyOf(span)
    ensures Exact([]) == 0.0
  {
    hide EnergyOf;
    assert (spans + [span])[..|spans|] == spans;
  }

  /** The total is off by less than one per span. */
  predicate Bounded(total: int, spans: seq<Span>)
  {
    var exact, n := Exact(spans), |spans| as real;
    if n == 0.0 then total == 0 else exact - n < total as real < exact + n
  }

  /** The total is at most the exact energy, and short of it by less than one per span. */
  predicate OnlyLoses(total: int, spans: seq<Span>)
  {
    var exact, n := Exact(spans), |spans| as real;
    && 0 <= total
    && total as real <= exact <= total as real + n
    && (n > 0.0 ==> exact - n < total as real)
  }

  lemma NothingCounted()
    ensures Bounded(0, []) && OnlyLoses(0, [])
  {
    assert Exact([]) == 0.0;
  }

  lemma OneMoreSpan(total: uint32, spans: seq<Span>, span: Span)
    requires ToUnsigned(total as real + EnergyOf(span)).Some?
    ensures var sum := ToUnsigned(total as real + EnergyOf(span)).value;
      && (Bounded(total, spans) ==> Bounded(sum, spans + [span]))
      && (OnlyLoses(total, spans) && EnergyOf(span) >= 0.0 ==> OnlyLoses(sum, spans + [span]))
  {
    hide EnergyOf, Exact;
    ExactNext(spans, span);
  }

  /** The spans in the total. */
  function Counted(s: State): seq<Span>
  {
    if s.countedFrom <= |s.spans| then s.spans[s.countedFrom..] else []
  }

  /** The spans in what an addition has loaded. */
  function Loaded(s: State): seq<Span>
    requires s.update.Some?
  {
    if s.update.value.loadedFrom <= |s.spans| then s.spans[s.update.value.loadedFrom..] else []
  }

  /** How a step changes the spans in the total and in what is loaded. */
  lemma CountedStep(s: State, a: Action, volts: real)
    requires Enabled(s, a)
    requires s.countedFrom <= |s.spans| && (s.update.Some? ==> s.update.value.loadedFrom <= |s.spans|)
    ensures var t := Step(s, a, volts);
      match a
      case Load(value, _, _) =>
        && t.total == s.total && Counted(t) == Counted(s)
        && (value > 0.0 <==> t.update.Some?)
        && (t.update.Some? ==> t.update.value.loaded == s.total && Loaded(t) == Counted(s))
      case Store => t.update.None? && Counted(t) == Loaded(s) + [s.update.value.span]
      case Reset =>
        && t.total == 0 && Counted(t) == []
        && (t.update.Some? <==> s.update.Some?)
        && (t.update.Some? ==>
              && t.update.value.loaded == s.update.value.loaded && t.update.value.span == s.update.value.span
              && Loaded(t) == Loaded(s))
  {
    hide EnergyOf, ToUnsigned, PowerOf;
    if a.Store? {
      var u := s.update.value;
      assert (s.spans + [u.span])[u.loadedFrom..] == s.spans[u.loadedFrom..] + [u.span];
    }
  }

  predicate BoundedState(s: State)
  {
    && Bounded(s.total, Counted(s))
    && (s.update.Some? ==> Bounded(s.update.value.loaded, Loaded(s)))
  }

  lemma {:induction false} StaysBounded(start: int, acts: seq<Action>, volts: real)
    requires Exec(Initial(start), acts, volts).Some?
    ensures BoundedState(Exec(Initial(start), acts, volts).value)
    decreases |acts|
  {
    NothingCounted();
    hide Bounded;
    if acts != [] {
      var before, a := acts[..|acts| - 1], acts[|acts| - 1];
      StaysBounded(start, before, volts);
      SpansTile(start, before, volts);
      BoundedStep(Exec(Initial(start), before, volts).value, a, volts);
    }
  }

  /**
   * Over any run for which every sum has an unsigned value, wherever the resets
   * fall, the total is off by less than one per span counted in it, whatever the
   * signs of the energies.
   */
  lemma TruncationIsBounded(start: int, acts: seq<Action>, volts: real)
    requires Exec(Initial(start), acts, volts).Some?
    ensures var s := Exec(Initial(start), acts, volts).value;
      && s.countedFrom <= |s.spans|
      && var counted := s.spans[s.countedFrom..];
         var off := s.total as real - Exact(counted);
         if counted == [] then s.total == 0 else -1.0 * |counted| as real < off < |counted| as real
  {
    hide Exec;
    StaysBounded(start, acts, volts);
    SpansTile(start, acts, volts);
  }

  lemma BoundedStep(s: State, a: Action, volts: real)
    requires BoundedState(s) && Enabled(s, a)
    requires s.countedFrom <= |s.spans| && (s.update.Some? ==> s.update.value.loadedFrom <= |s.spans|)
    ensures BoundedState(Step(s, a, volts))
  {
    hide EnergyOf, ToUnsigned, Bounded, Counted, Loaded, PowerOf;
    NothingCounted();
    CountedStep(s, a, volts);
    if a.Store? {
      OneMoreSpan(s.update.value.loaded, Loaded(s), s.update.value.span);
    }
  }

  /** The clock does not run backwards and the assumed voltage is not negative. */
  predicate Forward(start: int, acts: seq<Action>, volts: real)
  {
    && volts >= 0.0
    && (forall i :: 0 <= i < |acts| && acts[i].Load? ==> start <= acts[i].now)
    && (forall i, j :: 0 <= i < j < |acts| && acts[i].Load? && acts[j].Load? ==> acts[i].now <= acts[j].now)
  }

  lemma {:induction false} LastIntegratedIsPast(start: int, acts: seq<Action>, volts: real, bound: int)
    requires start <= bound && forall i :: 0 <= i < |acts| && acts[i].Load? ==> acts[i].now <= bound
    requires Exec(Initial(start), acts, volts).Some?
    ensures var s := Exec(Initial(start), acts, volts).value;
      s.lastTv <= bound && (s.update.Some? ==> s.update.value.span.to <= bound)
    decreases |acts|
  {
    hide PowerOf, EnergyOf, ToUnsigned;
    if acts != [] {
      LastIntegratedIsPast(start, acts[..|acts| - 1], volts, bound);
    }
  }

  predicate LosingState(s: State)
  {
    && OnlyLoses(s.total, Counted(s))
    && (s.update.Some? ==> OnlyLoses(s.update.value.loaded, Loaded(s)) && EnergyOf(s.update.value.span) >= 0.0)
  }

  lemma {:induction false} StaysLosing(start: int, acts: seq<Action>, volts: real)
    requires Forward(start, acts, volts) && Exec(Initial(start), acts, volts).Some?
    ensures LosingState(Exec(Initial(start), acts, volts).value)
    decreases |acts|
  {
    NothingCounted();
    hide OnlyLoses, EnergyOf;
    if acts != [] {
      var before, a := acts[..|acts| - 1], acts[|acts| - 1];
      StaysLosing(start, before, volts);
      SpansTile(start, before, volts);
      var s := Exec(Initial(start), before, volts).value;
      if a.Load? {
        LastIntegratedIsPast(start, before, volts, a.now);
        EnergyNotNegative(s.lastTv, a, volts);
      }
      LosingStep(s, a, volts);
    }
  }

  /**
   * With a clock that does not run backwards and a voltage that is not negative,
   * wherever the resets fall, the total never exceeds the exact energy of the
   * spans counted in it, and falls short of it by less than one per span.
   */
  lemma TruncationOnlyLoses(start: int, acts: seq<Action>, volts: real)
    requires Exec(Initial(start), acts, volts).Some? && volts >= 0.0
    requires forall i :: 0 <= i < |acts| && acts[i].Load? ==> start <= acts[i].now
    requires forall i, j :: 0 <= i < j < |acts| && acts[i].Load? && acts[j].Load? ==> acts[i].now <= acts[j].now
    ensures var s := Exec(Initial(start), acts, volts).value;
      && s.countedFrom <= |s.spans|
      && var counted := s.spans[s.countedFrom..];
         var lost := Exact(counted) - s.total as real;
         if counted == [] then s.total == 0 else 0.0 <= lost < |counted| as real
  {
    hide Exec;
    assert Forward(start, acts, volts);
    StaysLosing(start, acts, volts);
    SpansTile(start, acts, volts);
    assert Exact([]) == 0.0 by { NothingIsZero(); }
  }

  lemma NothingIsZero()
    ensures Exact([]) == 0.0
  {
  }

  lemma LosingStep(s: State, a: Action, volts: real)
    requires LosingState(s) && Enabled(s, a)
    requires s.countedFrom <= |s.spans| && (s.update.Some? ==> s.update.value.loadedFrom <= |s.spans|)
    requires a.Load? && a.value > 0.0 ==> EnergyOf(Span(s.lastTv, a.now, PowerOf(a.value, a.inWatts, volts))) >= 0.0
    ensures LosingState(Step(s, a, volts))
  {
    hide EnergyOf, ToUnsigned, OnlyLoses, Counted, Loaded, PowerOf;
    NothingCounted();
    CountedStep(s, a, volts);
    if a.Store? {
      OneMoreSpan(s.update.value.loaded, Loaded(s), s.update.value.span);
    }
  }

  lemma EnergyNotNegative(from: int, a: Action, volts: real)
    requires a.Load? && volts >= 0.0 && from <= a.now
    ensures a.value > 0.0 ==> EnergyOf(Span(from, a.now, PowerOf(a.value, a.inWatts, volts))) >= 0.0
  {
    if a.value > 0.0 {
      TimesNotNegative(a.value, volts);
      TimesNotNegative(PowerOf(a.value, a.inWatts, volts), Interval(Span(from, a.now, 0.0)));
    }
  }

  /** While the exact energy counted fits the counter, every sum has an unsigned value. */
  lemma SumIsDefined(start: int, acts: seq<Action>, volts: real)
    requires Exec(Initial(start), acts, volts).Some? && volts >= 0.0
    requires forall i :: 0 <= i < |acts| && acts[i].Load? ==> start <= acts[i].now
    requires forall i, j :: 0 <= i < j < |acts| && acts[i].Load? && acts[j].Load? ==> acts[i].now <= acts[j].now
    ensures var s := Exec(Initial(start), acts, volts).value;
      s.update.Some? && Exact(Loaded(s) + [s.update.value.span]) < 4294967296.0 ==> Enabled(s, Store)
  {
    var s := Exec(Initial(start), acts, volts).value;
    hide EnergyOf, Exec, Exact, Loaded, Counted;
    assert Forward(start, acts, volts);
    StaysLosing(start, acts, volts);
    if s.update.Some? {
      ExactNext(Loaded(s), s.update.value.span);
    }
  }

  // ---------------------------------------------------------------- resets that are lost

  /** The spans integrated since the last RESET. */
  function SinceReset(s: State): seq<Span>
  {
    if s.resetAt <= |s.spans| then s.spans[s.resetAt..] else []
  }

  /** In every state of the run the total is that of the spans since the last RESET. */
  predicate AlwaysSinceReset(start: int, acts: seq<Action>, volts: real)
    requires Exec(Initial(start), acts, volts).Some?
    decreases |acts|
  {
    var s := Exec(Initial(start), acts, volts).value;
    && OnlyLoses(s.total, SinceReset(s))
    && (acts != [] ==> AlwaysSinceReset(start, acts[..|acts| - 1], volts))
  }

  /** The addition under way has loaded a total that a RESET has cleared since. */
  predicate AboutToUndo(s: State)
  {
    s.update.Some? && s.update.value.resetSince && s.update.value.loaded > 0
  }

  /** Some addition is stored over a RESET that came after it had loaded a total above zero. */
  predicate LosesReset(start: int, acts: seq<Action>, volts: real)
    requires Exec(Initial(start), acts, volts).Some?
    decreases |acts|
  {
    acts != [] &&
    var before := acts[..|acts| - 1];
    || LosesReset(start, before, volts)
    || (acts[|acts| - 1].Store? && AboutToUndo(Exec(Initial(start), before, volts).value))
  }

  predicate ResetInv(s: State)
  {
    && s.resetAt <= |s.spans|
    && OnlyLoses(s.total, SinceReset(s))
    && (s.update.Some? ==>
          var u := s.update.value;
          && EnergyOf(u.span) >= 0.0
          && if u.resetSince then s.total == 0 && s.resetAt == |s.spans| else u.loaded == s.total)
  }

  lemma ResetInvStep(s: State, a: Action, volts: real)
    requires ResetInv(s) && Enabled(s, a)
    requires a.Load? && a.value > 0.0 ==> EnergyOf(Span(s.lastTv, a.now, PowerOf(a.value, a.inWatts, volts))) >= 0.0
    ensures var t := Step(s, a, volts);
      if a.Store? && AboutToUndo(s) then !OnlyLoses(t.total, SinceReset(t)) else ResetInv(t)
  {
    hide EnergyOf, Exact, OnlyLoses, ToUnsigned, PowerOf;
    NothingCounted();
    if a.Reset? {
      assert s.spans[|s.spans|..] == [];
    }
    if a.Store? {
      var u := s.update.value;
      assert (s.spans + [u.span])[s.resetAt..] == s.spans[s.resetAt..] + [u.span];
      if u.resetSince {
        assert s.spans[s.resetAt..] == [];
        StoredOverReset(u.loaded, u.span);
      } else {
        OneMoreSpan(u.loaded, SinceReset(s), u.span);
      }
    }
  }

  lemma StoredOverReset(loaded: uint32, span: Span)
    requires EnergyOf(span) >= 0.0 && ToUnsigned(loaded as real + EnergyOf(span)).Some?
    ensures OnlyLoses(ToUnsigned(loaded as real + EnergyOf(span)).value, [] + [span]) <==> loaded == 0
  {
    hide EnergyOf, Exact;
    ExactNext([], span);
  }

  lemma {:induction false} KeptExactly(start: int, acts: seq<Action>, volts: real)
    requires Forward(start, acts, volts) && Exec(Initial(start), acts, volts).Some?
    ensures AlwaysSinceReset(start, acts, volts) <==> !LosesReset(start, acts, volts)
    ensures !LosesReset(start, acts, volts) ==> ResetInv(Exec(Initial(start), acts, volts).value)
    decreases |acts|
  {
    NothingCounted();
    hide OnlyLoses, EnergyOf, ToUnsigned;
    if acts != [] {
      var before, a := acts[..|acts| - 1], acts[|acts| - 1];
      KeptExactly(start, before, volts);
      if !LosesReset(start, before, volts) {
        var s := Exec(Initial(start), before, volts).value;
        if a.Load? {
          LastIntegratedIsPast(start, before, volts, a.now);
          EnergyNotNegative(s.lastTv, a, volts);
        }
        ResetInvStep(s, a, volts);
      }
    }
  }

  /**
   * With such a clock the total is that of the spans since the last RESET, in
   * every state of a run, exactly when no addition is stored over a RESET that
   * came after it had loaded a total above zero.
   */
  lemma SinceResetExactly(start: int, acts: seq<Action>, volts: real)
    requires Exec(Initial(start), acts, volts).Some? && volts >= 0.0
    requires forall i :: 0 <= i < |acts| && acts[i].Load? ==> start <= acts[i].now
    requires forall i, j :: 0 <= i < j < |acts| && acts[i].Load? && acts[j].Load? ==> acts[i].now <= acts[j].now
    ensures AlwaysSinceReset(start, acts, volts) <==> !LosesReset(start, acts, volts)
    ensures AlwaysSinceReset(start, acts, volts) ==>
      var s := Exec(Initial(start), acts, volts).value;
      && s.resetAt <= |s.spans|
      && var since := s.spans[s.resetAt..];
         var lost := Exact(since) - s.total as real;
         if since == [] then s.total == 0 else 0.0 <= lost < |since| as real
  {
    hide Exec, AlwaysSinceReset, LosesReset;
    assert Forward(start, acts, volts);
    KeptExactly(start, acts, volts);
    NothingIsZero();
  }

  /** A RESET inside the second addition: the total goes on as if there had been none. */
  lemma ResetIsLost()
    ensures var turns := [Reading(5.0, true, 1000000, false), Reading(2.0, true, 2000000, true)];
      var after := Exec(Initial(0), ActsOfAll(turns), 0.0);
      after.Some? && after.value.total == 7 && Exact(SinceReset(after.value)) == 2.0
  {
    var first, second := Reading(5.0, true, 1000000, false), Reading(2.0, true, 2000000, true);
    var turns := [first, second];
    assert turns[..1] == [first] && [first][..0] == [];
    assert ActsOfAll([first]) == ActsOf(first);
    TurnRun(Initial(0), first, 0.0);
    ExecAppend(Initial(0), ActsOf(first), ActsOf(second), 0.0);
    var mid := Exec(Initial(0), ActsOf(first), 0.0).value;
    assert mid.total == 5 && mid.lastTv == 1000000;
    TurnRun(mid, second, 0.0);
    var after := Exec(mid, ActsOf(second), 0.0).value;
    var span := Span(1000000, 2000000, 2.0);
    assert SinceReset(after) == [] + [span];
    ExactNext([], span);
  }

  // ---------------------------------------------------------------- energy is power times time

  /** A span of microseconds: a million times its energy is its power times its length. */
  lemma EnergyExactly(s: Span)
    ensures EnergyOf(s) * 1000000.0 == s.power * (s.to - s.from) as real
  {
    var length := (s.to - s.from) as real;
    assert Interval(s) * 1000000.0 == length;
    assert s.power * Interval(s) * 1000000.0 == s.power * (Interval(s) * 1000000.0);
  }

  /** Over intervals that tile the time with one power, the exact energy is that power times the time. */
  lemma {:induction false} ConstantPower(spans: seq<Span>, start: int, end: int, power: real)
    requires Tiles(spans, start, end) && forall k :: 0 <= k < |spans| ==> spans[k].power == power
    ensures Exact(spans) * 1000000.0 == Times(power, (end - start) as real)
  {
    hide EnergyOf, Times;
    if spans == [] {
      TimesZero(power);
    } else {
      var rest, last := spans[..|spans| - 1], spans[|spans| - 1];
      ConstantPower(rest, start, last.from, power);
      EnergyExactly(last);
      TimesSum(power, (last.from - start) as real, (last.to - last.from) as real);
      TimesIs(power, (last.to - last.from) as real);
    }
  }

  lemma TimesIs(x: real, y: real)
    ensures Times(x, y) == x * y
  {
  }

  /**
   * One reading without a RESET inside: with a sum that is not negative, the total
   * grows by the watts, or the value times the volts, times the seconds since the
   * reading integrated last, cut to a whole number; and that reading is now the last.
   */
  lemma OneReading(s: State, value: real, inWatts: bool, now: int, volts: real)
    requires s.update.None? && value > 0.0
    requires Exec(s, [Load(value, inWatts, now), Store], volts).Some?
    ensures var t := Exec(s, [Load(value, inWatts, now), Store], volts).value;
      var watts := if inWatts then value else value * volts;
      var exact := s.total as real + watts * ((now - s.lastTv) as real / 1000000.0);
      && t.lastTv == now && t.power == watts && t.update.None?
      && (exact >= 0.0 ==> t.total as real <= exact < t.total as real + 1.0)
      && (exact < 0.0 ==> t.total == 0)
  {
    var acts := [Load(value, inWatts, now), Store];
    assert acts[..1] == [acts[0]] && acts[..1][..0] == [];
    assert Exec(s, [], volts) == Some(s);
    assert Exec(s, acts[..1], volts) == Some(Step(s, acts[0], volts));
  }

  /** The turns integrate as many readings as they store sums. */
  lemma {:induction false} StoresAreReadings(turns: seq<Turn>)
    ensures Stores(ActsOfAll(turns)) == Positive(turns) <= |turns|
  {
    if turns != [] {
      var before, last := ActsOfAll(turns[..|turns| - 1]), ActsOf(turns[|turns| - 1]);
      StoresAreReadings(turns[..|turns| - 1]);
      StoresAppend(before, last);
      StoresOfTurn(turns[|turns| - 1]);
    }
  }

  lemma {:induction false} StoresAppend(left: seq<Action>, right: seq<Action>)
    ensures Stores(left + right) == Stores(left) + Stores(right)
  {
    if right == [] {
      assert left + right == left;
    } else {
      StoresAppend(left, right[..|right| - 1]);
      assert (left + right)[..|left + right| - 1] == left + right[..|right| - 1];
    }
  }

  lemma StoresOfTurn(t: Turn)
    ensures Stores(ActsOf(t)) == if Integrated(t) then 1 else 0
  {
    assert Stores([]) == 0;
    forall a ensures Stores([a]) == if a.Store? then 1 else 0 {
      assert [a][..0] == [];
    }
    if t.Reading? {
      var load: seq<Action> := [Load(t.value, t.inWatts, t.now)];
      var reset: seq<Action> := if t.resetInside then [Reset] else [];
      StoresAppend(load, reset);
      StoresAppend(load + reset, [Store]);
      assert load + reset + [] == load + reset;
    }
  }
}
