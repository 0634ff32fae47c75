/**
 * The accumulate-and-reset averager: component readings are summed channel by
 * channel in unsigned 32-bit counters, and each system reading takes the
 * averages out and starts a new window.
 */
module WindowAverage {
  import opened Bytes
  import opened Basics

  const WORD := 0x1_0000_0000

  /** Channels the accumulator can hold, and channels a reset takes out. */
  const ACCUMULATORS := 64
  const OUTPUTS := 32

  /** One reading; channels beyond its length count as zero. */
  type Sample = s: seq<uint32> | |s| <= OUTPUTS

  type Averages = a: seq<uint32> | |a| == OUTPUTS witness seq(OUTPUTS, _ => 0)

  function Channel(s: Sample, i: nat): uint32
  {
    if i < |s| then s[i] else 0
  }

  /** The static variables of the averager. */
  datatype Acc = Acc(pwr: seq<uint32>, samples: uint32)

  predicate Valid(a: Acc)
  {
    |a.pwr| == ACCUMULATORS
  }

  function Added(a: Acc, s: Sample): (b: Acc)
    requires Valid(a)
    ensures Valid(b)
  {
    Acc(seq(ACCUMULATORS, i requires 0 <= i < ACCUMULATORS => (a.pwr[i] + Channel(s, i)) % WORD),
        (a.samples + 1) % WORD)
  }

  /** Unsigned division. */
  function Quotient(x: uint32, n: uint32): uint32
    requires n > 0
  {
    x / n
  }

  function Taken(a: Acc): Averages
    requires Valid(a) && a.samples > 0
  {
    seq(OUTPUTS, i requires 0 <= i < OUTPUTS => Quotient(a.pwr[i], a.samples))
  }

  function Cleared(a: Acc): (b: Acc)
    requires Valid(a)
    ensures Valid(b)
  {
    Acc(seq(ACCUMULATORS, i requires 0 <= i < ACCUMULATORS => if i < OUTPUTS then 0 else a.pwr[i]), 0)
  }

  class Statistic {
    const pwr: array<uint32>
    var samples: uint32

    ghost predicate Ready()
      reads this
    {
      pwr.Length == ACCUMULATORS
    }

    ghost function State(): Acc
      reads this, pwr
    {
      Acc(pwr[..], samples)
    }

    constructor ()
      ensures Ready() && fresh(pwr) && State() == Acc(seq(ACCUMULATORS, _ => 0), 0)
    {
      pwr := new uint32[ACCUMULATORS](_ => 0);
      samples := 0;
    }

    /** statistic_nidaq_power with reset clear: adds one reading of numChs channels. */
    method Add(nidaqPwr: array<uint32>, numChs: nat)
      requires Ready() && nidaqPwr != pwr && numChs <= nidaqPwr.Length && numChs <= OUTPUTS
      modifies this`samples, pwr
      ensures State() == Added(old(State()), nidaqPwr[..numChs])
    {
      for i := 0 to numChs
        invariant samples == old(samples)
        invariant nidaqPwr[..] == old(nidaqPwr[..])
        invariant forall j :: 0 <= j < i ==> pwr[j] == (old(pwr[j]) + nidaqPwr[j]) % WORD
        invariant forall j :: i <= j < ACCUMULATORS ==> pwr[j] == old(pwr[j])
      {
        pwr[i] := (pwr[i] + nidaqPwr[i]) % WORD;
      }
      samples := (samples + 1) % WORD;
      assert pwr[..] == Added(old(State()), nidaqPwr[..numChs]).pwr;
    }

    /** statistic_nidaq_power with reset set, as the system meter's monitor calls it. */
    method Reset(nidaqPwr: array<uint32>)
      requires Ready() && nidaqPwr != pwr && nidaqPwr.Length == OUTPUTS
      modifies this`samples, pwr, nidaqPwr
      ensures old(samples) == 0 ==> State() == old(State()) && nidaqPwr[..] == old(nidaqPwr[..])
      ensures old(samples) > 0 ==> State() == Cleared(old(State())) && nidaqPwr[..] == Taken(old(State()))
      ensures old(samples) > 0 ==> samples == 0
      ensures old(samples) > 0 ==> forall i :: 0 <= i < 64 ==> pwr[i] == if i < 32 then 0 else old(pwr[i])
    {
      if samples <= 0 {
        return;
      }
      for i := 0 to OUTPUTS
        invariant samples == old(samples) && pwr[..] == old(pwr[..])
        invariant forall j :: 0 <= j < i ==> nidaqPwr[j] == Quotient(pwr[j], samples)
      {
        nidaqPwr[i] := Quotient(pwr[i], samples);
      }
      for i := 0 to OUTPUTS
        invariant samples == old(samples) && nidaqPwr[..] == Taken(old(State()))
        invariant forall j :: 0 <= j < i ==> pwr[j] == 0
        invariant forall j :: i <= j < ACCUMULATORS ==> pwr[j] == old(pwr[j])
      {
        pwr[i] := 0;
      }
      samples := 0;
      assert pwr[..] == Cleared(old(State())).pwr;
    }
  }

  // ---------------------------------------------------------------- every run

  datatype Event = Add(sample: Sample) | Reset

  /** history: the windows closed so far, the averages each gave, and the samples since. */
  datatype System = System(acc: Acc, output: Averages, closed: seq<seq<Sample>>, outputs: seq<Averages>,
                           pending: seq<Sample>)

  function Initial(output: Averages): System
  {
    System(Acc(seq(ACCUMULATORS, _ => 0), 0), output, [], [], [])
  }

  function Step(s: System, e: Event): (t: System)
    requires Valid(s.acc)
    ensures Valid(t.acc)
  {
    match e
    case Add(sample) => s.(acc := Added(s.acc, sample), pending := s.pending + [sample])
    case Reset =>
      if s.acc.samples == 0 then s
      else
        var avg := Taken(s.acc);
        System(Cleared(s.acc), avg, s.closed + [s.pending], s.outputs + [avg], [])
  }

  function Exec(s: System, events: seq<Event>): (t: System)
    requires Valid(s.acc)
    ensures Valid(t.acc)
    decreases |events|
  {
    if events == [] then s else Exec(Step(s, events[0]), events[1..])
  }

  function Samples(events: seq<Event>): (all: seq<Sample>)
  {
    if events == [] then []
    else (if events[0].Add? then [events[0].sample] else []) + Samples(events[1..])
  }

  /** The exact sum of one channel over a window. */
  function Sum(w: seq<Sample>, i: nat): (sum: nat)
  {
    if w == [] then 0 else Sum(w[..|w| - 1], i) + Channel(w[|w| - 1], i)
  }

  /** What the counters hold after a window: sums and count, both modulo 2^32. */
  ghost predicate Accumulates(a: Acc, w: seq<Sample>)
  {
    && Valid(a)
    && a.samples == |w| % WORD
    && forall i :: 0 <= i < ACCUMULATORS ==> a.pwr[i] == Sum(w, i) % WORD
  }

  /** The averages a window gives, in the counters' arithmetic. */
  ghost predicate IsOutputOf(avg: Averages, w: seq<Sample>)
  {
    && |w| % WORD > 0
    && forall i :: 0 <= i < OUTPUTS ==> avg[i] == (Sum(w, i) % WORD) / (|w| % WORD)
  }

  /** The output is the last averages given, or what it held before any. */
  ghost predicate Inv(s: System, initial: Averages)
  {
    && Accumulates(s.acc, s.pending)
    && |s.outputs| == |s.closed|
    && (forall k :: 0 <= k < |s.closed| ==> IsOutputOf(s.outputs[k], s.closed[k]))
    && s.output == if s.outputs == [] then initial else s.outputs[|s.outputs| - 1]
  }

  lemma AddAccumulates(a: Acc, w: seq<Sample>, s: Sample)
    requires Accumulates(a, w)
    ensures Accumulates(Added(a, s), w + [s])
  {
    assert (w + [s])[..|w|] == w;
    forall i | 0 <= i < ACCUMULATORS ensures Added(a, s).pwr[i] == Sum(w + [s], i) % WORD {
      ModAdd(Sum(w, i), Channel(s, i));
    }
    ModAdd(|w|, 1);
  }

  lemma ModAdd(x: nat, y: nat)
    ensures (x % WORD + y) % WORD == (x + y) % WORD
  {
    assert x == x / WORD * WORD + x % WORD;
    assert x + y == x / WORD * WORD + (x % WORD + y);
  }

  lemma {:induction false} SumBeyondSamples(w: seq<Sample>, i: nat)
    requires i >= OUTPUTS
    ensures Sum(w, i) == 0
  {
    if w != [] {
      SumBeyondSamples(w[..|w| - 1], i);
    }
  }

  lemma InvStep(s: System, initial: Averages, e: Event)
    requires Inv(s, initial)
    ensures Inv(Step(s, e), initial)
  {
    hide Taken, Added, Cleared;
    if e.Add? {
      AddAccumulates(s.acc, s.pending, e.sample);
    } else if s.acc.samples > 0 {
      TakenIsOutput(s.acc, s.pending);
    }
  }

  lemma TakenIsOutput(a: Acc, w: seq<Sample>)
    requires Accumulates(a, w) && a.samples > 0
    ensures IsOutputOf(Taken(a), w) && Accumulates(Cleared(a), [])
  {
    forall i | OUTPUTS <= i < ACCUMULATORS ensures Sum(w, i) == 0 {
      SumBeyondSamples(w, i);
    }
  }

  /** Every sample so far, window by window. */
  function Seen(s: System): seq<Sample>
  {
    Flatten(s.closed) + s.pending
  }

  lemma {:induction false} ExecKeepsInv(s: System, initial: Averages, events: seq<Event>)
    requires Inv(s, initial)
    ensures Inv(Exec(s, events), initial) && Seen(Exec(s, events)) == Seen(s) + Samples(events)
    decreases |events|
  {
    hide Inv, Step, Seen;
    InvValid(s, initial);
    if events != [] {
      var t, first := Step(s, events[0]), if events[0].Add? then [events[0].sample] else [];
      InvStep(s, initial, events[0]);
      StepKeepsSamples(s, events[0]);
      ExecKeepsInv(t, initial, events[1..]);
      assert Seen(s) + first + Samples(events[1..]) == Seen(s) + (first + Samples(events[1..]));
    }
  }

  lemma InvValid(s: System, initial: Averages)
    requires Inv(s, initial)
    ensures Valid(s.acc)
  {
  }

  lemma StepKeepsSamples(s: System, e: Event)
    requires Valid(s.acc)
    ensures Seen(Step(s, e)) == Seen(s) + if e.Add? then [e.sample] else []
  {
    hide Taken, Added, Cleared;
    if e.Reset? && s.acc.samples > 0 {
      FlattenAppend(s.closed, [s.pending]);
      assert Flatten([s.pending][1..]) == [];
    }
  }

  /**
   * For every interleaving of adds and resets, each sample falls in exactly one
   * window, in order, and the averages given are those of the closed windows; the
   * output holds the last of them. A reset of an empty window changes nothing.
   */
  lemma EverySampleInOneWindow(initial: Averages, events: seq<Event>)
    ensures var s := Exec(Initial(initial), events);
      && Flatten(s.closed) + s.pending == Samples(events)
      && |s.outputs| == |s.closed|
      && (forall k :: 0 <= k < |s.closed| ==> s.closed[k] != [] && IsOutputOf(s.outputs[k], s.closed[k]))
      && s.output == (if s.outputs == [] then initial else s.outputs[|s.outputs| - 1])
      && (s.pending == [] ==> Step(s, Reset) == s)
  {
    hide Exec;
    assert Accumulates(Initial(initial).acc, []);
    ExecKeepsInv(Initial(initial), initial, events);
    assert [] + Samples(events) == Samples(events);
  }

  /**
   * The average of a window is the truncated mean exactly when the sum fits the
   * 32-bit counter.
   */
  lemma AverageExactly(avg: Averages, w: seq<Sample>, i: nat)
    requires IsOutputOf(avg, w) && i < OUTPUTS && |w| < WORD
    ensures avg[i] * |w| <= Sum(w, i) < (avg[i] + 1) * |w| <==> Sum(w, i) < WORD
  {
    hide Sum;
    WrappedQuotient(Sum(w, i), |w|);
  }

  lemma WrappedQuotient(sum: nat, n: nat)
    requires 0 < n < WORD
    ensures var q := (sum % WORD) / n;
      q * n <= sum < (q + 1) * n <==> sum < WORD
  {
    DivisionBounds(sum % WORD, n);
    assert sum == sum / WORD * WORD + sum % WORD;
  }

  lemma DivisionBounds(x: nat, n: nat)
    requires n > 0
    ensures (x / n) * n <= x < (x / n + 1) * n <= x + n
  {
    var q := x / n;
    assert x == n * q + x % n;
    assert (q + 1) * n == q * n + n;
  }

  /** While the sum fits, the average lies between the least and the greatest reading. */
  lemma AverageBetween(avg: Averages, w: seq<Sample>, i: nat, low: nat, high: nat)
    requires IsOutputOf(avg, w) && i < OUTPUTS && |w| < WORD && Sum(w, i) < WORD
    requires forall k :: 0 <= k < |w| ==> low <= Channel(w[k], i) <= high
    ensures low <= avg[i] <= high
  {
    AverageExactly(avg, w, i);
    SumBetween(w, i, low, high);
    QuotientBetween(avg[i], |w|, Sum(w, i), low, high);
  }

  lemma QuotientBetween(q: nat, n: nat, sum: nat, low: nat, high: nat)
    requires q * n <= sum < (q + 1) * n
    requires low * n <= sum <= high * n
    ensures low <= q <= high
  {
    assert (high + 1) * n == high * n + n;
    if q < low {
      MulMonotone(q + 1, low, n);
    } else if q > high {
      MulMonotone(high + 1, q, n);
    }
  }

  lemma MulMonotone(x: nat, y: nat, n: nat)
    requires x <= y
    ensures x * n <= y * n
  {
  }

  lemma {:induction false} SumBetween(w: seq<Sample>, i: nat, low: nat, high: nat)
    requires forall k :: 0 <= k < |w| ==> low <= Channel(w[k], i) <= high
    ensures low * |w| <= Sum(w, i) <= high * |w|
  {
    if w != [] {
      hide Channel;
      var n := |w| - 1;
      SumBetween(w[..n], i, low, high);
      MulNext(low, n);
      MulNext(high, n);
    }
  }

  lemma MulNext(x: nat, n: nat)
    ensures x * (n + 1) == x * n + x
  {
  }

  /** The averages of a window of one reading are that reading, channel by channel. */
  lemma OneReadingIsItsAverage(initial: Averages, s: Sample)
    ensures var t := Exec(Initial(initial), [Add(s), Reset]);
      t.output == s + seq(32 - |s|, _ => 0)
  {
    hide Taken, Added, Cleared;
    var acc := Initial(initial).acc;
    assert Accumulates(acc, []);
    AddAccumulates(acc, [], s);
    assert [] + [s] == [s] && [s][..0] == [];
    TakenIsOutput(Added(acc, s), [s]);
    var output := Taken(Added(acc, s));
    forall i | 0 <= i < OUTPUTS ensures output[i] == Channel(s, i) {
      assert Sum([s], i) == Channel(s, i);
    }
    assert Exec(Initial(initial), [Add(s), Reset]) == Exec(Step(Initial(initial), Add(s)), [Reset]);
    assert [Add(s), Reset][1..] == [Reset];
    assert output == s + seq(32 - |s|, _ => 0);
  }
}
