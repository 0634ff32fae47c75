/**
 * Energy counters of the processor: each read turns three counters into energies,
 * takes the differences to the previous read, and converts them to milliwatts
 * when time has passed.
 */
module Rapl {
  import opened Basics
  import opened Bytes
  import opened Reals

  /** Package, power plane 0 and DRAM. */
  const DOMAINS := 3

  /** The status counters are 32 bits wide and wrap. */
  const COUNTER := 0x1_0000_0000

  function PowerOfTwo(n: nat): (p: nat)
    ensures p > 0
  {
    if n == 0 then 1 else 2 * PowerOfTwo(n - 1)
  }

  /** The energy status unit: bits 12 to 8 of the unit register. */
  function Esu(register: nat): (esu: nat)
    ensures esu < 32
  {
    register / 256 % 32
  }

  /** One counter step is 1 / 2^ESU joules. */
  function EnergyUnit(register: nat): (unit: real)
    ensures unit > 0.0
    ensures unit * PowerOfTwo(Esu(register)) as real == 1.0
  {
    1.0 / PowerOfTwo(Esu(register)) as real
  }

  /** The unit is a half for every one counted by the five bits from bit 8 on, whatever the others are. */
  lemma {:induction false} UnitOfRegister(above: nat, esu: nat, below: nat)
    requires esu < 32 && below < 256
    ensures EnergyUnit((above * 32 + esu) * 256 + below) == Halved(esu)
  {
    var register := (above * 32 + esu) * 256 + below;
    assert register / 256 == above * 32 + esu;
    assert Esu(register) == esu;
    HalvedExactly(esu);
  }

  function Halved(n: nat): real
  {
    if n == 0 then 1.0 else Halved(n - 1) / 2.0
  }

  lemma {:induction false} HalvedExactly(n: nat)
    ensures Halved(n) == 1.0 / PowerOfTwo(n) as real
  {
    if n > 0 {
      HalvedExactly(n - 1);
      var p := PowerOfTwo(n - 1) as real;
      assert 1.0 / p / 2.0 == 1.0 / (2.0 * p);
    }
  }

  type Energies = e: seq<real> | |e| == DOMAINS witness [0.0, 0.0, 0.0]

  type Powers = p: seq<uint32> | |p| == DOMAINS witness [0, 0, 0]

  type Counters = c: seq<nat> | |c| == DOMAINS witness [0, 0, 0]

  /** One read: the three raw counters and the time. */
  datatype Sample = Sample(raw: Counters, ts: real)

  function Energy(x: Sample, d: nat, unit: real): real
    requires d < DOMAINS
  {
    Times(x.raw[d] as real, unit)
  }

  /** Energy over time in milliwatts, before the conversion to unsigned. */
  function Watts(used: real, dt: real): real
    requires dt > 0.0
  {
    used / dt * 1000.0
  }

  /** What is kept between reads, the energies used since the read before, and the powers clients are sent. */
  datatype Meter = Meter(last: Energies, lastTs: real, used: Energies, milliPowers: Powers)

  function Start(): Meter
  {
    Meter([0.0, 0.0, 0.0], 0.0, [0.0, 0.0, 0.0], [0, 0, 0])
  }

  function Used(last: Energies, x: Sample, d: nat, unit: real): real
    requires d < DOMAINS
  {
    Energy(x, d, unit) - last[d]
  }

  /** When time has passed, each of the three powers must have an unsigned value. */
  predicate Defined(m: Meter, x: Sample, unit: real)
  {
    var dt := x.ts - m.lastTs;
    dt > 0.0 ==> forall d :: 0 <= d < DOMAINS ==> ToUnsigned(Watts(Used(m.last, x, d, unit), dt)).Some?
  }

  function Step(m: Meter, x: Sample, unit: real): Meter
    requires Defined(m, x, unit)
  {
    var dt := x.ts - m.lastTs;
    Meter(seq(DOMAINS, d requires 0 <= d < DOMAINS => Energy(x, d, unit)),
          x.ts,
          seq(DOMAINS, d requires 0 <= d < DOMAINS => Used(m.last, x, d, unit)),
          if dt > 0.0 then
            seq(DOMAINS, d requires 0 <= d < DOMAINS => ToUnsigned(Watts(Used(m.last, x, d, unit), dt)).value)
          else m.milliPowers)
  }

  /** The meter after a run of reads; no result when a power has no unsigned value, which C leaves undefined. */
  function Exec(m: Meter, samples: seq<Sample>, unit: real): Option<Meter>
    decreases |samples|
  {
    if samples == [] then Some(m)
    else
      match Exec(m, samples[..|samples| - 1], unit)
      case None => None
      case Some(t) =>
        var x := samples[|samples| - 1];
        if Defined(t, x, unit) then Some(Step(t, x, unit)) else None
  }

  class RaplMeter {
    const unit: real
    var last: Energies
    var lastTs: real
    /** mm[0..2]: the energy used since the read before. */
    var used: Energies
    var milliPowers: Powers

    ghost function Now(): Meter
      reads this
    {
      Meter(last, lastTs, used, milliPowers)
    }

    constructor (register: nat)
      ensures unit == EnergyUnit(register)
      ensures Now() == Start()
      ensures last == used == [0.0, 0.0, 0.0] && lastTs == 0.0 && milliPowers == [0, 0, 0]
    {
      unit := EnergyUnit(register);
      last, lastTs, used, milliPowers := [0.0, 0.0, 0.0], 0.0, [0.0, 0.0, 0.0], [0, 0, 0];
    }

    method Read(x: Sample) returns (defined: bool)
      modifies this
      ensures defined <==> Defined(old(Now()), x, unit)
      ensures defined ==> Now() == Step(old(Now()), x, unit)
    {
      hide Energy, Watts, ToUnsigned;
      ghost var before := Now();
      var package := Energy(x, 0, unit);
      used := used[0 := package - last[0]];
      last := last[0 := package];
      var pp0 := Energy(x, 1, unit);
      used := used[1 := pp0 - last[1]];
      last := last[1 := pp0];
      var dram := Energy(x, 2, unit);
      used := used[2 := dram - last[2]];
      last := last[2 := dram];
      assert forall d :: 0 <= d < DOMAINS ==> used[d] == Used(before.last, x, d, unit);
      defined := true;
      if x.ts - lastTs > 0.0 {
        defined := Convert(x.ts - lastTs);
      }
      lastTs := x.ts;
      if defined {
        ghost var next := Step(before, x, unit);
        assert last == next.last && used == next.used;
        assert milliPowers == next.milliPowers;
      }
    }

    /** The three conversions to unsigned. */
    method Convert(dt: real) returns (defined: bool)
      requires dt > 0.0
      modifies this`milliPowers
      ensures defined <==> forall d :: 0 <= d < DOMAINS ==> ToUnsigned(Watts(used[d], dt)).Some?
      ensures defined ==> forall d :: 0 <= d < DOMAINS ==> milliPowers[d] == ToUnsigned(Watts(used[d], dt)).value
    {
      hide Watts, ToUnsigned;
      var package := ToUnsigned(Watts(used[0], dt));
      var pp0 := ToUnsigned(Watts(used[1], dt));
      var dram := ToUnsigned(Watts(used[2], dt));
      defined := package.Some? && pp0.Some? && dram.Some?;
      if defined {
        milliPowers := [package.value, pp0.value, dram.value];
      }
    }

    /** The monitor loop: one read after the other, as long as their powers have a value. */
    method Monitor(samples: seq<Sample>) returns (done: nat)
      modifies this
      ensures done <= |samples|
      ensures done == |samples| ==> Exec(old(Now()), samples, unit) == Some(Now())
      ensures done < |samples| ==> Exec(old(Now()), samples[..done + 1], unit) == None
    {
      for i := 0 to |samples|
        invariant Exec(old(Now()), samples[..i], unit) == Some(Now())
      {
        hide Step, Defined;
        assert samples[..i + 1][..i] == samples[..i];
        var defined := Read(samples[i]);
        if !defined {
          return i;
        }
      }
      assert samples[..|samples|] == samples;
      return |samples|;
    }
  }

  // ---------------------------------------------------------------- whole runs

  /** What a meter that remembers m remembers after the samples: the last reading and its time. */
  function Remembered(m: Meter, samples: seq<Sample>, unit: real): (Energies, real)
  {
    if samples == [] then (m.last, m.lastTs)
    else
      var x := samples[|samples| - 1];
      (seq(DOMAINS, d requires 0 <= d < DOMAINS => Energy(x, d, unit)), x.ts)
  }

  lemma RemembersLast(m: Meter, samples: seq<Sample>, unit: real)
    requires Exec(m, samples, unit).Some?
    ensures var t := Exec(m, samples, unit).value;
      (t.last, t.lastTs) == Remembered(m, samples, unit)
  {
    hide Energy, Defined, Watts, ToUnsigned;
  }

  /** Later than what is remembered, the energy used lies above -1 and below 2^32 milliwatts for that time. */
  predicate Fits(kept: (Energies, real), x: Sample, unit: real)
  {
    var dt := x.ts - kept.1;
    dt > 0.0 ==> forall d :: 0 <= d < DOMAINS ==>
      0.0 - dt < 1000.0 * Used(kept.0, x, d, unit) < Times(4294967296.0, dt)
  }

  predicate AllFit(m: Meter, samples: seq<Sample>, unit: real)
    decreases |samples|
  {
    samples != [] ==>
      var before := samples[..|samples| - 1];
      AllFit(m, before, unit) && Fits(Remembered(m, before, unit), samples[|samples| - 1], unit)
  }

  /** Every power of a run has an unsigned value exactly when each read fits what the read before left. */
  lemma {:induction false} DefinedExactly(m: Meter, samples: seq<Sample>, unit: real)
    ensures Exec(m, samples, unit).Some? <==> AllFit(m, samples, unit)
    decreases |samples|
  {
    hide Defined, Fits, Remembered, Step;
    if samples != [] {
      var before := samples[..|samples| - 1];
      DefinedExactly(m, before, unit);
      if Exec(m, before, unit).Some? {
        RemembersLast(m, before, unit);
        FitsExactly(Exec(m, before, unit).value, samples[|samples| - 1], unit);
      }
    }
  }

  lemma FitsExactly(m: Meter, x: Sample, unit: real)
    ensures Defined(m, x, unit) <==> Fits((m.last, m.lastTs), x, unit)
  {
    hide Energy, Watts, ToUnsigned, Times;
    var dt := x.ts - m.lastTs;
    if dt > 0.0 {
      forall d | 0 <= d < DOMAINS
        ensures ToUnsigned(Watts(Used(m.last, x, d, unit), dt)).Some?
           <==> 0.0 - dt < 1000.0 * Used(m.last, x, d, unit) < Times(4294967296.0, dt)
      {
        ConversionExactly(Used(m.last, x, d, unit), dt);
      }
    }
  }

  lemma ConversionExactly(used: real, dt: real)
    requires dt > 0.0
    ensures ToUnsigned(Watts(used, dt)).Some? <==> 0.0 - dt < 1000.0 * used < Times(4294967296.0, dt)
  {
    hide Watts, ToUnsigned, Times;
    var w := Watts(used, dt);
    WattsTimesSeconds(used, dt);
    SameOrder(-1.0, w, dt);
    SameOrder(w, 4294967296.0, dt);
    MinusOne(dt);
  }

  lemma MinusOne(x: real)
    ensures Times(-1.0, x) == 0.0 - x
  {
  }

  lemma SameOrder(x: real, y: real, dt: real)
    requires dt > 0.0
    ensures x < y <==> Times(x, dt) < Times(y, dt)
  {
    hide Times;
    if x < y {
      TimesSum(dt, x, y - x);
      TimesPositive(y - x, dt);
    } else {
      TimesSum(dt, y, x - y);
      TimesNotNegative(x - y, dt);
    }
  }

  /** The energies the meter reported in domain d over a run, added up. */
  function TotalUsed(m: Meter, samples: seq<Sample>, d: nat, unit: real): real
    requires d < DOMAINS && Exec(m, samples, unit).Some?
    decreases |samples|
  {
    if samples == [] then 0.0
    else TotalUsed(m, samples[..|samples| - 1], d, unit) + Exec(m, samples, unit).value.used[d]
  }

  /** Over any run the reported energies add up to the last reading minus what the meter remembered. */
  lemma {:induction false} DeltasTelescope(m: Meter, samples: seq<Sample>, d: nat, unit: real)
    requires d < DOMAINS && Exec(m, samples, unit).Some?
    ensures TotalUsed(m, samples, d, unit) == Exec(m, samples, unit).value.last[d] - m.last[d]
    ensures samples != [] ==> Exec(m, samples, unit).value.last[d] == Energy(samples[|samples| - 1], d, unit)
    decreases |samples|
  {
    if samples != [] {
      hide Defined, Energy;
      DeltasTelescope(m, samples[..|samples| - 1], d, unit);
    }
  }

  /**
   * A meter that has just been started remembers zero, so its first read reports
   * the whole counter, with a power that spreads it over all the time since the
   * epoch. Over any run it reports that much more than a meter that already
   * remembers the first read.
   */
  lemma FirstReadIsWholeCounter(first: Sample, samples: seq<Sample>, d: nat, unit: real)
    requires d < DOMAINS && Defined(Start(), first, unit)
    requires Exec(Step(Start(), first, unit), samples, unit).Some?
    ensures var t, held := Step(Start(), first, unit), Energy(first, d, unit);
      && t.used[d] == held
      && (first.ts > 0.0 ==> Some(t.milliPowers[d]) == ToUnsigned(Watts(held, first.ts)))
      && Exec(Start(), [first] + samples, unit) == Exec(t, samples, unit)
      && TotalUsed(Start(), [first] + samples, d, unit) == held + TotalUsed(t, samples, d, unit)
  {
    var t := Step(Start(), first, unit);
    assert first.ts - Start().lastTs == first.ts;
    assert Used(Start().last, first, d, unit) == Energy(first, d, unit);
    hide Watts, Energy, TotalUsed, Step, Defined, ToUnsigned;
    StepFirst(Start(), first, samples, unit);
    DeltasTelescope(Start(), [first] + samples, d, unit);
    DeltasTelescope(t, samples, d, unit);
    RemembersFirst(first, d, unit);
  }

  lemma RemembersFirst(first: Sample, d: nat, unit: real)
    requires d < DOMAINS && Defined(Start(), first, unit)
    ensures Step(Start(), first, unit).last[d] == Energy(first, d, unit) && Start().last[d] == 0.0
  {
    hide Watts, Energy, ToUnsigned;
  }

  lemma {:induction false} StepFirst(m: Meter, first: Sample, samples: seq<Sample>, unit: real)
    requires Defined(m, first, unit)
    ensures Exec(m, [first] + samples, unit) == Exec(Step(m, first, unit), samples, unit)
    decreases |samples|
  {
    hide Defined, Step;
    if samples == [] {
      assert [first] + samples == [first];
      assert [first][..0] == [] && Exec(m, [], unit) == Some(m);
    } else {
      var n := |samples| - 1;
      StepFirst(m, first, samples[..n], unit);
      assert ([first] + samples)[..n + 1] == [first] + samples[..n];
    }
  }

  // ---------------------------------------------------------------- power against energy

  /** Seconds and milliwatt-seconds over the reads that computed a power, and energy of the others. */
  datatype Account = Account(elapsed: real, reported: real, converted: real, skipped: real)

  /** Added up from the energies and milliwatts the meter reports; a reader holds each power for its interval. */
  function Accounted(m: Meter, samples: seq<Sample>, d: nat, unit: real): Account
    requires d < DOMAINS && Exec(m, samples, unit).Some?
    decreases |samples|
  {
    if samples == [] then Account(0.0, 0.0, 0.0, 0.0)
    else
      var rest := samples[..|samples| - 1];
      var before, after := Exec(m, rest, unit).value, Exec(m, samples, unit).value;
      var a := Accounted(m, rest, d, unit);
      var dt := after.lastTs - before.lastTs;
      if dt > 0.0 then
        a.(elapsed := a.elapsed + dt,
           reported := a.reported + Times(after.milliPowers[d] as real, dt),
           converted := a.converted + after.used[d])
      else a.(skipped := a.skipped + after.used[d])
  }

  /** No read that computes a power finds the counter lower than the read before. */
  predicate NeverFalls(m: Meter, samples: seq<Sample>, d: nat, unit: real)
    requires d < DOMAINS
    decreases |samples|
  {
    samples != [] ==>
      var before, x := samples[..|samples| - 1], samples[|samples| - 1];
      var kept := Remembered(m, before, unit);
      NeverFalls(m, before, d, unit) && (x.ts - kept.1 > 0.0 ==> kept.0[d] <= Energy(x, d, unit))
  }

  /** Over the run, no power held for its interval exceeds the energy of that interval. */
  predicate NeverExceeds(m: Meter, samples: seq<Sample>, d: nat, unit: real)
    requires d < DOMAINS && Exec(m, samples, unit).Some?
    decreases |samples|
  {
    samples != [] ==>
      var rest := samples[..|samples| - 1];
      var before, after := Exec(m, rest, unit).value, Exec(m, samples, unit).value;
      var dt := after.lastTs - before.lastTs;
      NeverExceeds(m, rest, d, unit)
      && (dt > 0.0 ==> Times(after.milliPowers[d] as real, dt) <= 1000.0 * after.used[d])
  }

  /**
   * Over any run whose powers have a value, the reported milliwatts, each held
   * for its interval, differ from a thousand times the energy reported for those
   * intervals by less than the time elapsed, and do not exceed it when the counter
   * never falls. Energy of reads without elapsed time is in no power.
   */
  lemma {:induction false} ReportedPowerBounds(m: Meter, samples: seq<Sample>, d: nat, unit: real)
    requires d < DOMAINS && Exec(m, samples, unit).Some?
    ensures var a := Accounted(m, samples, d, unit);
      && a.converted + a.skipped == TotalUsed(m, samples, d, unit)
      && a.elapsed >= 0.0
      && (a.elapsed == 0.0 ==> a.reported == 1000.0 * a.converted)
      && (a.elapsed > 0.0 ==> a.reported - a.elapsed < 1000.0 * a.converted < a.reported + a.elapsed)
      && (NeverFalls(m, samples, d, unit) ==> a.reported <= 1000.0 * a.converted)
    decreases |samples|
  {
    if samples != [] {
      hide Step, Defined, Times, Remembered, Energy, Exec, NeverFalls;
      ReportedPowerBounds(m, samples[..|samples| - 1], d, unit);
      AccountNext(m, samples, d, unit);
    }
  }

  /** What one more read adds to the account. */
  lemma AccountNext(m: Meter, samples: seq<Sample>, d: nat, unit: real)
    requires d < DOMAINS && samples != [] && Exec(m, samples, unit).Some?
    ensures Exec(m, samples[..|samples| - 1], unit).Some?
    ensures var rest := samples[..|samples| - 1];
      var t, used := Exec(m, samples, unit).value, Exec(m, samples, unit).value.used[d];
      var a, b := Accounted(m, rest, d, unit), Accounted(m, samples, d, unit);
      && TotalUsed(m, samples, d, unit) == TotalUsed(m, rest, d, unit) + used
      && b.converted + b.skipped == a.converted + a.skipped + used
      && a.elapsed <= b.elapsed
      && (b.elapsed == a.elapsed ==> b.reported == a.reported && b.converted == a.converted)
      && var dt, more, charge := b.elapsed - a.elapsed, b.converted - a.converted, b.reported - a.reported;
         (dt > 0.0 ==> charge - dt < 1000.0 * more < charge + dt)
         && (NeverFalls(m, samples, d, unit) ==> NeverFalls(m, rest, d, unit) && charge <= 1000.0 * more)
  {
    var rest, x := samples[..|samples| - 1], samples[|samples| - 1];
    var before := Exec(m, rest, unit).value;
    PowerOfRead(before, x, d, unit);
    RemembersLast(m, rest, unit);
    assert Exec(m, samples, unit) == Some(Step(before, x, unit));
    hide Step, Exec, Times, Remembered, Energy;
  }

  /** The powers stay below the energy at every read exactly when the counter never falls. */
  lemma {:induction false} ExceedsExactly(m: Meter, samples: seq<Sample>, d: nat, unit: real)
    requires d < DOMAINS && Exec(m, samples, unit).Some?
    ensures NeverExceeds(m, samples, d, unit) <==> NeverFalls(m, samples, d, unit)
    decreases |samples|
  {
    if samples != [] {
      var rest, x := samples[..|samples| - 1], samples[|samples| - 1];
      var before := Exec(m, rest, unit).value;
      ExceedsExactly(m, rest, d, unit);
      PowerOfRead(before, x, d, unit);
      RemembersLast(m, rest, unit);
      assert Exec(m, samples, unit) == Some(Step(before, x, unit));
      hide Step, Exec, Times, Remembered, Energy;
    }
  }

  /** One read: the milliwatts come from the energy it reports and the time since the read before. */
  lemma PowerOfRead(m: Meter, x: Sample, d: nat, unit: real)
    requires d < DOMAINS && Defined(m, x, unit)
    ensures var t := Step(m, x, unit);
      var dt := t.lastTs - m.lastTs;
      && dt == x.ts - m.lastTs
      && t.used[d] == Energy(x, d, unit) - m.last[d]
      && (dt > 0.0 ==>
            var charge := Times(t.milliPowers[d] as real, dt);
            && charge - dt < 1000.0 * t.used[d] < charge + dt
            && (charge <= 1000.0 * t.used[d] <==> t.used[d] >= 0.0))
      && (dt <= 0.0 ==> t.milliPowers == m.milliPowers)
  {
    hide Watts, Times, Energy, ToUnsigned;
    if x.ts - m.lastTs > 0.0 {
      StepBounds(Used(m.last, x, d, unit), x.ts - m.lastTs);
    }
  }

  lemma StepBounds(used: real, dt: real)
    requires dt > 0.0 && ToUnsigned(Watts(used, dt)).Some?
    ensures var charge := Times(ToUnsigned(Watts(used, dt)).value as real, dt);
      && charge - dt < 1000.0 * used < charge + dt
      && (charge <= 1000.0 * used <==> used >= 0.0)
  {
    var w := Watts(used, dt);
    var mw := ToUnsigned(w).value as real;
    assert used < 0.0 ==> -1.0 < w && mw == 0.0;
    hide Times, Watts, ToUnsigned;
    WattsTimesSeconds(used, dt);
    SameOrder(mw - 1.0, w, dt);
    SameOrder(w, mw + 1.0, dt);
    SameOrder(w, mw, dt);
    SameOrder(0.0, w, dt);
    SameOrder(w, 0.0, dt);
    TimesSum(dt, mw - 1.0, 1.0);
    TimesSum(dt, mw, 1.0);
    TimesZero(dt);
  }

  lemma WattsTimesSeconds(used: real, dt: real)
    requires dt > 0.0
    ensures Times(Watts(used, dt), dt) == 1000.0 * used
  {
    var q := used / dt;
    assert q * dt == used;
    assert (q * 1000.0) * dt == 1000.0 * (q * dt);
  }

  /** Every read is later than the one before, the first later than the one remembered. */
  predicate ClockAdvances(m: Meter, samples: seq<Sample>)
  {
    && (samples != [] ==> m.lastTs < samples[0].ts)
    && (forall i :: 0 < i < |samples| ==> samples[i - 1].ts < samples[i].ts)
  }

  /** When time advances at every read, all of the energy is covered. */
  lemma {:induction false} NothingSkipped(m: Meter, samples: seq<Sample>, d: nat, unit: real)
    requires d < DOMAINS && ClockAdvances(m, samples) && Exec(m, samples, unit).Some?
    ensures Accounted(m, samples, d, unit).skipped == 0.0
    ensures Accounted(m, samples, d, unit).elapsed == Exec(m, samples, unit).value.lastTs - m.lastTs
    ensures samples != [] ==> Exec(m, samples, unit).value.lastTs > m.lastTs
    decreases |samples|
  {
    if samples != [] {
      hide Step, Defined, Times, Energy;
      var rest := samples[..|samples| - 1];
      NothingSkipped(m, rest, d, unit);
      RemembersLast(m, rest, unit);
      RemembersLast(m, samples, unit);
    }
  }

  /** With an advancing clock: reported milliwatts times seconds against the energy used since the read remembered. */
  lemma PowerMatchesEnergy(m: Meter, samples: seq<Sample>, d: nat, unit: real)
    requires d < DOMAINS && samples != [] && Exec(m, samples, unit).Some?
    requires m.lastTs < samples[0].ts && forall i :: 0 < i < |samples| ==> samples[i - 1].ts < samples[i].ts
    ensures var a := Accounted(m, samples, d, unit);
      var last := samples[|samples| - 1];
      var energy := Energy(last, d, unit) - m.last[d];
      && a.reported - (last.ts - m.lastTs) < 1000.0 * energy < a.reported + (last.ts - m.lastTs)
      && (NeverFalls(m, samples, d, unit) ==> a.reported <= 1000.0 * energy)
  {
    assert ClockAdvances(m, samples);
    hide Accounted, Energy, Exec, TotalUsed, NeverFalls, NeverExceeds;
    ReportedPowerBounds(m, samples, d, unit);
    NothingSkipped(m, samples, d, unit);
    DeltasTelescope(m, samples, d, unit);
    RemembersLast(m, samples, unit);
  }

  // ---------------------------------------------------------------- wrapping counters

  /** The counter shows the true count modulo its width. */
  function Shown(count: nat): (raw: nat)
    ensures raw < COUNTER
  {
    count % COUNTER
  }

  /** A delta is the true energy exactly when the counter did not wrap between the reads. */
  lemma DeltaExactly(before: nat, after: nat, unit: real)
    requires unit > 0.0
    ensures Times(Shown(after) as real, unit) - Times(Shown(before) as real, unit)
         == Times((after - before) as real, unit)
       <==> after / COUNTER == before / COUNTER
  {
    var wraps := after / COUNTER - before / COUNTER;
    assert after - before == Shown(after) - Shown(before) + wraps * COUNTER;
    var lost := (wraps * COUNTER) as real;
    assert (after - before) as real == Shown(after) as real - Shown(before) as real + lost;
    Split(Shown(after) as real, Shown(before) as real, lost, unit);
    hide Times;
    if wraps > 0 {
      TimesPositive(lost, unit);
    } else if wraps < 0 {
      TimesPositive(0.0 - lost, unit);
      TimesSum(unit, lost, 0.0 - lost);
      TimesZero(unit);
    } else {
      TimesZero(unit);
    }
  }

  lemma Split(x: real, y: real, z: real, unit: real)
    ensures Times(x - y + z, unit) == Times(x, unit) - Times(y, unit) + Times(z, unit)
  {
  }

  /**
   * Over a whole run, whatever happens between, the reported energies add up to
   * the true energy exactly when the counter stands in the same wrap at the last
   * read as at the read remembered.
   */
  lemma WholeRunExactly(m: Meter, samples: seq<Sample>, before: nat, after: nat, d: nat, unit: real)
    requires d < DOMAINS && unit > 0.0 && samples != [] && Exec(m, samples, unit).Some?
    requires m.last[d] == Times(Shown(before) as real, unit) && samples[|samples| - 1].raw[d] == Shown(after)
    ensures TotalUsed(m, samples, d, unit) == Times((after - before) as real, unit)
       <==> after / COUNTER == before / COUNTER
  {
    hide Exec, TotalUsed, Shown, Times;
    DeltasTelescope(m, samples, d, unit);
    DeltaExactly(before, after, unit);
  }
}
