/**
 * From raw samples to power: the acquisition buffer groups the samples by
 * channel; a callback averages each channel and converts the average to power.
 */
module Averaging {
  import opened Bytes
  import opened Matrix
  import opened Basics
  import opened Reals

  const RESISTOR := 0.003

  function Sum(s: seq<real>): real
  {
    if s == [] then 0.0 else Sum(s[..|s| - 1]) + s[|s| - 1]
  }

  function Mean(s: seq<real>): real
    requires s != []
  {
    Sum(s) / |s| as real
  }

  /** The samples of one channel. */
  function Slice(data: seq<real>, i: nat, n: nat): (slice: seq<real>)
    requires Line(i + 1, n) <= |data|
    ensures |slice| == n
  {
    LinesFollow(i, i + 1, n);
    data[Line(i, n)..Line(i, n) + n]
  }

  /** v is the average of channel i. */
  predicate IsAverage(data: seq<real>, i: nat, n: nat, v: real)
    requires n > 0
  {
    Line(i + 1, n) <= |data| && v == Mean(Slice(data, i, n))
  }

  // ---------------------------------------------------------------- the callback's loops

  /** The inner loop: one channel's samples are added up in place and divided. */
  method AverageChannel(data: array<real>, channels: array<real>, i: nat, samplesRead: nat)
    requires samplesRead > 0 && Line(i + 1, samplesRead) <= data.Length
    requires i < channels.Length && channels != data
    modifies channels
    ensures IsAverage(data[..], i, samplesRead, channels[i])
    ensures forall k :: 0 <= k < channels.Length && k != i ==> channels[k] == old(channels[k])
  {
    hide Sum;
    LinesFollow(i, i + 1, samplesRead);
    ghost var slice := Slice(data[..], i, samplesRead);
    SumStart(slice);
    channels[i] := 0.0;
    for j := 0 to samplesRead
      invariant data[..] == old(data[..])
      invariant forall k :: 0 <= k < channels.Length && k != i ==> channels[k] == old(channels[k])
      invariant channels[i] == Sum(slice[..j])
    {
      SumNext(slice, j);
      var index := j + i * samplesRead;
      assert index == Line(i, samplesRead) + j && data[index] == slice[j];
      channels[i] := channels[i] + data[index];
    }
    assert slice[..samplesRead] == slice;
    channels[i] := channels[i] / samplesRead as real;
  }

  /** Every channel is averaged; each index j + i * samplesRead lies in the buffer. */
  method AverageChannels(data: array<real>, channels: array<real>, samplesRead: nat)
    requires samplesRead > 0 && Line(channels.Length, samplesRead) <= data.Length && channels != data
    modifies channels
    ensures data[..] == old(data[..])
    ensures forall i :: 0 <= i < channels.Length ==>
      && Line(i, samplesRead) + samplesRead <= data.Length
      && channels[i] == Sum(data[..][Line(i, samplesRead)..Line(i, samplesRead) + samplesRead]) / samplesRead as real
  {
    hide Mean, Slice, IsAverage, Sum;
    ghost var samples := data[..];
    for i := 0 to channels.Length
      invariant data[..] == samples
      invariant forall k :: 0 <= k < i ==> IsAverage(samples, k, samplesRead, channels[k])
    {
      if i + 1 < channels.Length {
        LinesFollow(i + 1, channels.Length, samplesRead);
      }
      AverageChannel(data, channels, i, samplesRead);
      assert data[..] == samples;
    }
    forall i | 0 <= i < channels.Length
      ensures var from := Line(i, samplesRead);
        && from + samplesRead <= data.Length
        && channels[i] == Sum(samples[from..from + samplesRead]) / samplesRead as real
    {
      assert IsAverage(samples, i, samplesRead, channels[i]);
      AverageIs(samples, i, samplesRead, channels[i]);
    }
  }

  lemma AverageIs(data: seq<real>, i: nat, n: nat, v: real)
    requires n > 0 && IsAverage(data, i, n, v)
    ensures Line(i, n) + n <= |data| && v == Sum(data[Line(i, n)..Line(i, n) + n]) / n as real
  {
    hide Sum;
    LinesFollow(i, i + 1, n);
  }

  lemma SumStart(s: seq<real>)
    ensures Sum(s[..0]) == 0.0
  {
  }

  lemma SumNext(s: seq<real>, j: nat)
    requires j < |s|
    ensures Sum(s[..j + 1]) == Sum(s[..j]) + s[j]
  {
    assert s[..j + 1][..j] == s[..j];
  }

  /** The power drawn on a cable of the given voltage, from the drop over the resistor. */
  function Power(reading: real, voltage: real): real
  {
    (reading / RESISTOR) * (voltage - reading)
  }

  method NidaqDiffVoltToPower(result: array<real>, readings: array<real>, voltages: array<real>)
    requires result.Length == readings.Length <= voltages.Length && result != readings && result != voltages
    modifies result
    ensures forall i :: 0 <= i < result.Length ==> result[i] == Power(readings[i], voltages[i])
  {
    for i := 0 to result.Length
      invariant forall k :: 0 <= k < i ==> result[k] == Power(readings[k], voltages[k])
    {
      result[i] := (readings[i] / RESISTOR) * (voltages[i] - readings[i]);
    }
  }

  function Clamped(average: real): real
  {
    if average < 0.0 then 0.0 else average
  }

  /** The milliwatts before they are cut to a whole number. */
  function MilliPower(reading: real, voltage: real): real
  {
    Power(Clamped(reading), voltage) * 1000.0
  }

  /**
   * The NI server's variant: negative averages count as zero, powers are whole
   * milliwatts. A power without an unsigned value, which C leaves undefined, is
   * None: for a drop so far above the voltage that it costs a milliwatt or more,
   * or a power of 2^32 milliwatts.
   */
  method DiffVoltToMilliPower(readings: array<real>, voltages: array<real>) returns (milli: seq<Option<uint32>>)
    requires readings.Length <= voltages.Length
    ensures |milli| == readings.Length
    ensures forall i :: 0 <= i < |milli| ==>
      (milli[i].Some? <==> -1.0 < MilliPower(readings[i], voltages[i]) < 4294967296.0)
    ensures forall i :: 0 <= i < |milli| && milli[i].Some? ==>
      if readings[i] <= 0.0 || readings[i] <= voltages[i] then
        milli[i].value as real <= MilliPower(readings[i], voltages[i]) < milli[i].value as real + 1.0
      else milli[i].value == 0
  {
    hide Power;
    milli := [];
    for i := 0 to readings.Length
      invariant |milli| == i
      invariant forall k :: 0 <= k < i ==> milli[k] == ToUnsigned(MilliPower(readings[k], voltages[k]))
      invariant forall k :: 0 <= k < i ==>
        (MilliPower(readings[k], voltages[k]) >= 0.0 <==> readings[k] <= 0.0 || readings[k] <= voltages[k])
    {
      ClampedPowerExactly(Clamped(readings[i]), voltages[i]);
      var value := Power(Clamped(readings[i]), voltages[i]) * 1000.0;
      milli := milli + [ToUnsigned(value)];
    }
  }

  /** A clamped reading can be stored as an unsigned power exactly when it does not exceed the voltage. */
  lemma ClampedPowerExactly(reading: real, voltage: real)
    requires reading >= 0.0
    ensures Power(reading, voltage) >= 0.0 <==> reading == 0.0 || reading <= voltage
  {
    var x, y := reading / RESISTOR, voltage - reading;
    if reading > 0.0 {
      assert x > 0.0;
      if y < 0.0 {
        assert x * y < 0.0;
      } else {
        assert x * y >= 0.0;
      }
    }
  }

  // ---------------------------------------------------------------- partition

  function Slices(data: seq<real>, channels: nat, n: nat): (slices: seq<seq<real>>)
    requires Line(channels, n) <= |data|
    ensures |slices| == channels
  {
    if channels == 0 then []
    else
      LinesFollow(channels - 1, channels, n);
      Slices(data, channels - 1, n) + [Slice(data, channels - 1, n)]
  }

  /** The channel slices, one after the other, are the filled region of the buffer. */
  lemma {:induction false} SlicesPartition(data: seq<real>, channels: nat, n: nat)
    requires Line(channels, n) <= |data|
    ensures Flatten(Slices(data, channels, n)) == data[..Line(channels, n)]
  {
    if channels > 0 {
      LinesFollow(channels - 1, channels, n);
      assert channels * n == (channels - 1) * n + n;
      SlicesPartition(data, channels - 1, n);
      var last := Slice(data, channels - 1, n);
      FlattenAppend(Slices(data, channels - 1, n), [last]);
      assert Flatten([last]) == last + Flatten([last][1..]) == last;
    }
  }

  lemma {:induction false} SumAppend(s: seq<real>, t: seq<real>)
    ensures Sum(s + t) == Sum(s) + Sum(t)
  {
    if t == [] {
      assert s + t == s;
    } else {
      assert (s + t)[..|s + t| - 1] == s + t[..|t| - 1];
      SumAppend(s, t[..|t| - 1]);
    }
  }

  /** The sum of the channel averages. */
  function SumOfMeans(data: seq<real>, channels: nat, n: nat): real
    requires n > 0 && Line(channels, n) <= |data|
  {
    if channels == 0 then 0.0
    else
      LinesFollow(channels - 1, channels, n);
      SumOfMeans(data, channels - 1, n) + Mean(Slice(data, channels - 1, n))
  }

  /** n times the sum of the averages is the sum of everything read. */
  lemma {:induction false} MeansCountEverything(data: seq<real>, channels: nat, n: nat)
    requires n > 0 && Line(channels, n) <= |data|
    ensures Times(n as real, SumOfMeans(data, channels, n)) == Sum(data[..Line(channels, n)])
  {
    hide Times, Slice, Mean, Sum;
    if channels > 0 {
      MeansCountEverything(data, channels - 1, n) by { LinesFollow(channels - 1, channels, n); }
      NextMean(data, channels, n);
      TimesSum(n as real, SumOfMeans(data, channels - 1, n), Mean(Slice(data, channels - 1, n)));
    } else {
      TimesZero(n as real);
      SumStart(data);
    }
  }

  lemma NextMean(data: seq<real>, channels: nat, n: nat)
    requires n > 0 && channels > 0 && Line(channels, n) <= |data|
    ensures Line(channels - 1, n) <= |data|
    ensures var mean := Mean(Slice(data, channels - 1, n));
      && SumOfMeans(data, channels, n) == SumOfMeans(data, channels - 1, n) + mean
      && Sum(data[..Line(channels, n)]) == Sum(data[..Line(channels - 1, n)]) + Times(n as real, mean)
  {
    hide Sum;
    LinesFollow(channels - 1, channels, n);
    assert channels * n == (channels - 1) * n + n;
    var slice, before := Slice(data, channels - 1, n), data[..Line(channels - 1, n)];
    SumAppend(before, slice);
    assert before + slice == data[..Line(channels, n)];
    DivideBack(Sum(slice), n as real);
  }

  /** An average lies between the least and the greatest sample of its channel. */
  lemma {:induction false} MeanBetween(s: seq<real>, low: real, high: real)
    requires s != [] && forall i :: 0 <= i < |s| ==> low <= s[i] <= high
    ensures low <= Mean(s) <= high
  {
    SumBetween(s, low, high);
    QuotientBetween(Sum(s), |s| as real, low, high);
  }

  lemma QuotientBetween(x: real, n: real, low: real, high: real)
    requires n > 0.0 && Times(low, n) <= x <= Times(high, n)
    ensures low <= x / n <= high
  {
  }

  lemma {:induction false} SumBetween(s: seq<real>, low: real, high: real)
    requires forall i :: 0 <= i < |s| ==> low <= s[i] <= high
    ensures Times(low, |s| as real) <= Sum(s) <= Times(high, |s| as real)
  {
    hide Times;
    if s == [] {
      TimesZero(low);
      TimesZero(high);
    } else {
      var n := |s| - 1;
      SumBetween(s[..n], low, high);
      TimesSum(low, n as real, 1.0);
      TimesSum(high, n as real, 1.0);
    }
  }

  // ---------------------------------------------------------------- variance

  function SumOfPowers(s: seq<real>, voltage: real): real
  {
    if s == [] then 0.0 else SumOfPowers(s[..|s| - 1], voltage) + Power(s[|s| - 1], voltage)
  }

  function Square(x: real): (y: real)
    ensures y >= 0.0
  {
    x * x
  }

  function SumOfSquares(s: seq<real>): real
  {
    if s == [] then 0.0 else SumOfSquares(s[..|s| - 1]) + Square(s[|s| - 1])
  }

  function SquaredDeviations(s: seq<real>, m: real): (d: real)
    ensures d >= 0.0
  {
    if s == [] then 0.0 else SquaredDeviations(s[..|s| - 1], m) + Square(s[|s| - 1] - m)
  }

  /** The mean of the powers of the single samples. */
  function MeanPower(s: seq<real>, voltage: real): real
    requires s != []
  {
    SumOfPowers(s, voltage) / |s| as real
  }

  /** The population variance. */
  function Variance(s: seq<real>): (v: real)
    requires s != []
    ensures v >= 0.0
  {
    var d := SquaredDeviations(s, Mean(s));
    d / |s| as real
  }

  lemma {:induction false} SumOfPowersExpanded(s: seq<real>, voltage: real)
    ensures RESISTOR * SumOfPowers(s, voltage) == Times(voltage, Sum(s)) - SumOfSquares(s)
  {
    hide Times, Square;
    if s == [] {
      TimesZero(voltage);
    } else {
      var x, rest := s[|s| - 1], s[..|s| - 1];
      SumOfPowersExpanded(rest, voltage);
      PowerExpanded(x, voltage);
      TimesSum(voltage, Sum(rest), x);
    }
  }

  lemma PowerExpanded(x: real, voltage: real)
    ensures RESISTOR * Power(x, voltage) == Times(voltage, x) - Square(x)
  {
    assert RESISTOR * (x / RESISTOR) == x;
    assert RESISTOR * ((x / RESISTOR) * (voltage - x)) == (RESISTOR * (x / RESISTOR)) * (voltage - x);
  }

  lemma {:induction false} DeviationsExpanded(s: seq<real>, m: real)
    ensures SquaredDeviations(s, m) == SumOfSquares(s) - 2.0 * Times(m, Sum(s)) + Times(|s| as real, Square(m))
  {
    hide Times, Square;
    if s == [] {
      TimesZero(m);
      TimesZero(Square(m));
    } else {
      var x, rest := s[|s| - 1], s[..|s| - 1];
      DeviationsExpanded(rest, m);
      NextDeviation(s, m);
      TimesSum(m, Sum(rest), x);
      SquareOfDifference(x, m);
      TimesSum(Square(m), |rest| as real, 1.0);
    }
  }

  lemma NextDeviation(s: seq<real>, m: real)
    requires s != []
    ensures var x, rest := s[|s| - 1], s[..|s| - 1];
      && SquaredDeviations(s, m) == SquaredDeviations(rest, m) + Square(x - m)
      && SumOfSquares(s) == SumOfSquares(rest) + Square(x)
      && Sum(s) == Sum(rest) + x
      && |s| as real == |rest| as real + 1.0
  {
  }

  lemma SquareOfDifference(x: real, m: real)
    ensures Square(x - m) == Square(x) - 2.0 * Times(m, x) + Square(m)
  {
  }

  /**
   * Averaging first and converting then reports the mean of the sample powers
   * plus the variance over the resistance, so never less than that mean.
   */
  lemma AveragingAddsTheVariance(s: seq<real>, voltage: real)
    requires s != []
    ensures Power(Mean(s), voltage) == MeanPower(s, voltage) + Variance(s) / RESISTOR
    ensures Power(Mean(s), voltage) >= MeanPower(s, voltage)
  {
    hide Sum, SumOfPowers, SumOfSquares, SquaredDeviations, Power, Square, Times;
    var n, m := |s| as real, Mean(s);
    SumOfPowersExpanded(s, voltage);
    DeviationsExpanded(s, m);
    PowerExpanded(m, voltage);
    VarianceAlgebra(n, m, Sum(s), SumOfSquares(s), voltage, SumOfPowers(s, voltage),
                    SquaredDeviations(s, m), Power(m, voltage));
  }

  lemma VarianceAlgebra(n: real, m: real, sum: real, squares: real, voltage: real, powers: real, deviations: real,
                        p: real)
    requires n > 0.0 && m == sum / n
    requires RESISTOR * powers == Times(voltage, sum) - squares
    requires deviations == squares - 2.0 * Times(m, sum) + Times(n, Square(m))
    requires RESISTOR * p == Times(voltage, m) - Square(m)
    ensures p == powers / n + (deviations / n) / RESISTOR
  {
    assert sum == n * m;
    assert m * sum == n * (m * m);
    assert voltage * sum == n * (voltage * m);
    assert RESISTOR * (n * p) == RESISTOR * powers + deviations by {
      assert n * (RESISTOR * p) == n * (voltage * m) - n * (m * m);
    }
    assert n * p == powers + deviations / RESISTOR;
    assert p == (n * p) / n == (powers + deviations / RESISTOR) / n;
  }

  // ---------------------------------------------------------------- units

  /** Volts over a resistor of three milliohms make amperes; power and milliwatts without dividing. */
  lemma PowerExactly(reading: real, voltage: real)
    ensures 0.003 * Power(reading, voltage) == reading * (voltage - reading)
    ensures reading >= 0.0 ==> 0.003 * MilliPower(reading, voltage) == 1000.0 * (reading * (voltage - reading))
    ensures reading < 0.0 ==> MilliPower(reading, voltage) == 0.0
  {
    PowerExpanded(reading, voltage);
    assert reading < 0.0 ==> Power(0.0, voltage) == 0.0;
  }
}
