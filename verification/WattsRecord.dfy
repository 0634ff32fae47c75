/** Parsing a Watts Up record: comma-separated fields, four of which are measurements. */
module WattsRecord {
  import opened Basics

  const MUNITS_AMPS := 0x000004
  const MUNITS_VOLTS := 0x000008
  const MUNITS_WATTS := 0x000400
  const MUNITS_POWERFACTOR := 0x000800

  /** Measurements the meter allocates. */
  const MEASUREMENTS := 4

  datatype Measurement = Measurement(value: real, units: int)

  // ---------------------------------------------------------------- library functions

  /** strstr(s, "#"). */
  function FindHash(s: string): (p: Option<string>)
    ensures p.Some? ==> p.value != [] && p.value[0] == '#'
  {
    if s == [] then None else if s[0] == '#' then Some(s) else FindHash(s[1..])
  }

  /** strtok with ",": commas are skipped, so a token is never empty. */
  function Strtok(s: string): (r: Option<(string, string)>)
    ensures r.Some? ==> r.value.0 != [] && |r.value.1| < |s|
  {
    if s == [] then None
    else if s[0] == ',' then Strtok(s[1..])
    else
      var n := Find(s, ',');
      Some((s[..n], s[n..]))
  }

  function Tokens(s: string): (tokens: seq<string>)
    decreases |s|
  {
    match Strtok(s)
    case None => []
    case Some((token, rest)) => [token] + Tokens(rest)
  }

  predicate IsDigit(c: char)
  {
    '0' <= c <= '9'
  }

  predicate IsSpace(c: char)
  {
    c == ' ' || 9 as char <= c <= 13 as char
  }

  /** The number continued by the digits a string starts with. */
  function DigitsFrom(s: string, n: nat): (value: nat)
    decreases |s|
  {
    if s != [] && IsDigit(s[0]) then DigitsFrom(s[1..], 10 * n + (s[0] - '0') as nat) else n
  }

  function Atoi(s: string): (value: int)
  {
    if s == [] then 0
    else if IsSpace(s[0]) then Atoi(s[1..])
    else if s[0] == '-' then 0 - DigitsFrom(s[1..], 0)
    else if s[0] == '+' then DigitsFrom(s[1..], 0)
    else DigitsFrom(s, 0)
  }

  // ---------------------------------------------------------------- the parser

  /** Divisor and units of the fields that are measurements. */
  function Field(i: nat): Option<(real, int)>
  {
    if i == 3 then Some((10.0, MUNITS_WATTS))
    else if i == 4 then Some((10.0, MUNITS_VOLTS))
    else if i == 5 then Some((1000.0, MUNITS_AMPS))
    else if i == 16 then Some((100.0, MUNITS_POWERFACTOR))
    else None
  }

  /** Measurement fields before field i. */
  function FieldsBefore(i: nat): (n: nat)
    ensures n <= MEASUREMENTS
  {
    if i <= 3 then 0 else if i == 4 then 1 else if i == 5 then 2 else if i <= 16 then 3 else 4
  }

  lemma NextField(i: nat)
    ensures FieldsBefore(i + 1) == FieldsBefore(i) + if Field(i).Some? then 1 else 0
  {
  }

  /** What one token does. */
  function Stored(mm: seq<Measurement>, token: string, i: nat, pos: nat): (out: (seq<Measurement>, nat))
    requires MEASUREMENTS <= |mm| && pos <= FieldsBefore(i)
    ensures |out.0| == |mm| && out.0[MEASUREMENTS..] == mm[MEASUREMENTS..] && out.1 <= FieldsBefore(i + 1)
  {
    NextField(i);
    match Field(i)
    case None => (mm, pos)
    case Some((divisor, units)) =>
      var value := Atoi(token) as real / divisor;
      if value > -1.0 then (mm[pos := Measurement(value, units)], pos + 1)
      else (mm[pos := mm[pos].(units := units)], pos)
  }

  /** The measurements after the tokens from number i on, the next free one being pos. */
  function Fill(mm: seq<Measurement>, tokens: seq<string>, i: nat, pos: nat): (out: seq<Measurement>)
    requires MEASUREMENTS <= |mm| && pos <= FieldsBefore(i)
    ensures |out| == |mm| && out[MEASUREMENTS..] == mm[MEASUREMENTS..]
    decreases |tokens|
  {
    if tokens == [] then mm
    else
      var (after, next) := Stored(mm, tokens[0], i, pos);
      Fill(after, tokens[1..], i + 1, next)
  }

  predicate IsRecord(p: string)
  {
    |p| >= 3 && p[..3] == "#d,"
  }

  /**
   * Parses into the allocated measurements. For every input no index beyond the
   * four is written.
   */
  method WattsUpParse(buf: string, mm: array<Measurement>) returns (rc: int)
    requires mm.Length >= MEASUREMENTS
    modifies mm
    ensures rc == 0 <==> FindHash(buf).Some? && IsRecord(FindHash(buf).value)
    ensures rc == 0 || rc == -1
    ensures rc == -1 ==> mm[..] == old(mm[..])
    ensures rc == 0 ==> mm[..] == Fill(old(mm[..]), Tokens(FindHash(buf).value), 0, 0)
    ensures mm[MEASUREMENTS..] == old(mm[MEASUREMENTS..])
  {
    var p := FindHash(buf);
    if p.None? || !IsRecord(p.value) {
      return -1;
    }
    var i, pos := 0, 0;
    var next := Strtok(p.value);
    ghost var left := p.value;
    while next.Some?
      invariant pos <= FieldsBefore(i)
      invariant next == Strtok(left)
      invariant Fill(mm[..], Tokens(left), i, pos) == Fill(old(mm[..]), Tokens(p.value), 0, 0)
      decreases |left|
    {
      hide Atoi, Strtok;
      var (token, rest) := next.value;
      assert Tokens(left) == [token] + Tokens(rest);
      assert Tokens(left)[1..] == Tokens(rest);
      ghost var stored := Stored(mm[..], token, i, pos);
      NextField(i);
      var value := -2.0;
      match Field(i) {
        case None =>
        case Some((divisor, units)) =>
          value := Atoi(token) as real / divisor;
          mm[pos] := mm[pos].(units := units);
      }
      if value > -1.0 {
        mm[pos] := mm[pos].(value := value);
        pos := pos + 1;
      }
      assert mm[..] == stored.0 && pos == stored.1;
      i := i + 1;
      left := rest;
      next := Strtok(rest);
    }
    return 0;
  }

  // ---------------------------------------------------------------- printing

  function Decimal(n: nat): (s: string)
    ensures s != [] && forall c :: c in s ==> IsDigit(c)
  {
    var digit := ['0' + (n % 10) as char];
    if n < 10 then digit else Decimal(n / 10) + digit
  }

  /** Fields with commas between them. */
  function Joined(fields: seq<string>): (s: string)
  {
    if fields == [] then "" else if |fields| == 1 then fields[0] else fields[0] + "," + Joined(fields[1..])
  }

  lemma {:induction false} DecimalRead(n: nat, rest: string)
    ensures DigitsFrom(Decimal(n) + rest, 0) == DigitsFrom(rest, n)
  {
    var digit := ['0' + (n % 10) as char];
    assert digit + rest == [digit[0]] + rest;
    assert (digit + rest)[1..] == rest;
    if n >= 10 {
      DecimalRead(n / 10, digit + rest);
      assert Decimal(n) + rest == Decimal(n / 10) + (digit + rest);
    }
  }

  lemma AtoiDecimal(n: nat)
    ensures Atoi(Decimal(n)) == n
  {
    DecimalRead(n, []);
    assert Decimal(n) + [] == Decimal(n);
    assert IsDigit(Decimal(n)[0]);
  }

  lemma {:induction false} FindComma(f: string, rest: string)
    requires ',' !in f && (rest == [] || rest[0] == ',')
    ensures Find(f + rest, ',') == |f|
  {
    if f != [] {
      assert (f + rest)[1..] == f[1..] + rest;
      FindComma(f[1..], rest);
    } else {
      assert f + rest == rest;
    }
  }

  /** Splitting joined fields gives the fields back. */
  lemma {:induction false} TokensJoined(fields: seq<string>)
    requires forall i :: 0 <= i < |fields| ==> fields[i] != "" && ',' !in fields[i]
    ensures Tokens(Joined(fields)) == fields
    decreases |fields|
  {
    if fields != [] {
      var f := fields[0];
      var rest := if |fields| == 1 then "" else "," + Joined(fields[1..]);
      assert Joined(fields) == f + rest;
      FindComma(f, rest);
      assert f == (f + rest)[..|f|] && rest == (f + rest)[|f|..];
      TokensJoined(fields[1..]);
      if |fields| > 1 {
        assert rest[1..] == Joined(fields[1..]);
        assert Strtok(rest) == Strtok(rest[1..]);
      }
    }
  }

  lemma {:induction false} FindHashAfter(pre: string, s: string)
    requires '#' !in pre && s != [] && s[0] == '#'
    ensures FindHash(pre + s) == Some(s)
  {
    if pre == [] {
      assert pre + s == s;
    } else {
      assert (pre + s)[1..] == pre[1..] + s;
      FindHashAfter(pre[1..], s);
    }
  }

  function ValueOf(fields: seq<string>, i: nat): real
    requires i < |fields| && Field(i).Some?
  {
    Atoi(fields[i]) as real / Field(i).value.0
  }

  /** Every measurement in its own place. */
  function Measured(fields: seq<string>): seq<Measurement>
    requires |fields| >= 17
  {
    [Measurement(ValueOf(fields, 3), MUNITS_WATTS),
     Measurement(ValueOf(fields, 4), MUNITS_VOLTS),
     Measurement(ValueOf(fields, 5), MUNITS_AMPS),
     Measurement(ValueOf(fields, 16), MUNITS_POWERFACTOR)]
  }

  lemma {:induction false} FillSkips(mm: seq<Measurement>, tokens: seq<string>, i: nat, n: nat, pos: nat)
    requires MEASUREMENTS <= |mm| && pos <= FieldsBefore(i) && n <= |tokens|
    requires forall k :: i <= k < i + n ==> Field(k).None?
    ensures pos <= FieldsBefore(i + n)
    ensures Fill(mm, tokens, i, pos) == Fill(mm, tokens[n..], i + n, pos)
    decreases n
  {
    hide Atoi;
    if n == 0 {
      assert tokens[0..] == tokens;
    } else {
      NextField(i);
      FillSkips(mm, tokens[1..], i + 1, n - 1, pos);
      assert tokens[1..][n - 1..] == tokens[n..];
    }
  }

  lemma FillOne(mm: seq<Measurement>, tokens: seq<string>, i: nat, pos: nat)
    requires MEASUREMENTS <= |mm| && pos <= FieldsBefore(i) && tokens != []
    ensures var (after, next) := Stored(mm, tokens[0], i, pos);
      Fill(mm, tokens, i, pos) == Fill(after, tokens[1..], i + 1, next)
  {
  }

  lemma FillNothing(mm: seq<Measurement>, tokens: seq<string>, i: nat, pos: nat)
    requires MEASUREMENTS <= |mm| && pos <= FieldsBefore(i) && tokens == []
    ensures Fill(mm, tokens, i, pos) == mm
  {
  }

  /** The measurements after the watts, the volts and the amperes, and the next free one. */
  function FrontFilled(mm: seq<Measurement>, fields: seq<string>): (out: (seq<Measurement>, nat))
    requires MEASUREMENTS <= |mm| && |fields| >= 17
    ensures |out.0| == |mm| && out.0[MEASUREMENTS..] == mm[MEASUREMENTS..] && out.1 <= 3
  {
    var (m1, p1) := Stored(mm, fields[3], 3, 0);
    var (m2, p2) := Stored(m1, fields[4], 4, p1);
    Stored(m2, fields[5], 5, p2)
  }

  lemma FillFront(mm: seq<Measurement>, fields: seq<string>)
    requires MEASUREMENTS <= |mm| && |fields| >= 17
    ensures var (m3, p3) := FrontFilled(mm, fields);
      Fill(mm, fields, 0, 0) == Fill(m3, fields[6..], 6, p3)
  {
    hide Fill, Stored;
    FillSkips(mm, fields, 0, 3, 0);
    var (m1, p1) := Stored(mm, fields[3], 3, 0);
    FillOne(mm, fields[3..], 3, 0);
    assert fields[3..][1..] == fields[4..];
    var (m2, p2) := Stored(m1, fields[4], 4, p1);
    FillOne(m1, fields[4..], 4, p1);
    assert fields[4..][1..] == fields[5..];
    FillOne(m2, fields[5..], 5, p2);
    assert fields[5..][1..] == fields[6..];
  }

  lemma FillAll(mm: seq<Measurement>, fields: seq<string>)
    requires MEASUREMENTS <= |mm| && |fields| >= 17
    ensures var (m3, p3) := FrontFilled(mm, fields);
      Fill(mm, fields, 0, 0) == Stored(m3, fields[16], 16, p3).0
  {
    hide Fill, Stored, FrontFilled;
    FillFront(mm, fields);
    var (m3, p3) := FrontFilled(mm, fields);
    FillSkips(m3, fields[6..], 6, 10, p3);
    assert fields[6..][10..] == fields[16..];
    FillOne(m3, fields[16..], 16, p3);
    assert fields[16..][1..] == fields[17..];
    var (m4, p4) := Stored(m3, fields[16], 16, p3);
    FillSkips(m4, fields[17..], 17, |fields| - 17, p4);
    FillNothing(m4, fields[17..][|fields| - 17..], |fields|, p4);
  }

  /** The first three values that advance the place are needed for the power factor to find the fourth. */
  lemma FrontExactly(mm: seq<Measurement>, fields: seq<string>)
    requires MEASUREMENTS <= |mm| && |fields| >= 17
    ensures var (m3, p3) := FrontFilled(mm, fields);
      if ValueOf(fields, 3) > -1.0 && ValueOf(fields, 4) > -1.0 && ValueOf(fields, 5) > -1.0 then
        m3 == Measured(fields)[..3] + mm[3..] && p3 == 3
      else
        || m3[0].units in {MUNITS_VOLTS, MUNITS_AMPS}
        || m3[1].units == MUNITS_AMPS
        || p3 == 2
  {
    hide Atoi;
    var (m3, p3) := FrontFilled(mm, fields);
    if ValueOf(fields, 3) > -1.0 && ValueOf(fields, 4) > -1.0 && ValueOf(fields, 5) > -1.0 {
      assert m3 == Measured(fields)[..3] + mm[3..];
    }
  }

  /**
   * A record, with any text without '#' before it, gives the four measurements
   * each in its own place exactly when watts, volts and amperes are above -1 and
   * the power factor is too, or is what was there before.
   */
  lemma ParsedExactly(mm: seq<Measurement>, pre: string, fields: seq<string>)
    requires 4 <= |mm| && '#' !in pre && |fields| >= 17 && fields[0] == "#d"
    requires forall i :: 0 <= i < |fields| ==> fields[i] != "" && ',' !in fields[i]
    ensures var p := FindHash(pre + Joined(fields));
      && p.Some? && IsRecord(p.value)
      && (Fill(mm, Tokens(p.value), 0, 0) == Measured(fields) + mm[MEASUREMENTS..] <==>
            && ValueOf(fields, 3) > -1.0 && ValueOf(fields, 4) > -1.0 && ValueOf(fields, 5) > -1.0
            && (ValueOf(fields, 16) > -1.0 || mm[3].value == ValueOf(fields, 16)))
  {
    hide Fill, Tokens, ValueOf, FindHash;
    var s := Joined(fields);
    assert s == fields[0] + "," + Joined(fields[1..]);
    assert s[..3] == "#d,";
    FindHashAfter(pre, s);
    TokensJoined(fields);
    FilledExactly(mm, fields);
  }

  lemma FilledExactly(mm: seq<Measurement>, fields: seq<string>)
    requires MEASUREMENTS <= |mm| && |fields| >= 17
    ensures Fill(mm, fields, 0, 0) == Measured(fields) + mm[MEASUREMENTS..] <==>
      && ValueOf(fields, 3) > -1.0 && ValueOf(fields, 4) > -1.0 && ValueOf(fields, 5) > -1.0
      && (ValueOf(fields, 16) > -1.0 || mm[3].value == ValueOf(fields, 16))
  {
    hide Fill, FrontFilled, Atoi;
    FillAll(mm, fields);
    FrontExactly(mm, fields);
    var (m3, p3) := FrontFilled(mm, fields);
    var out := Stored(m3, fields[16], 16, p3).0;
    var all := Measured(fields);
    if ValueOf(fields, 3) > -1.0 && ValueOf(fields, 4) > -1.0 && ValueOf(fields, 5) > -1.0 {
      assert out[..3] == all[..3] && out[4..] == mm[4..];
      assert out == out[..3] + [out[3]] + out[4..];
      assert all + mm[4..] == all[..3] + [all[3]] + mm[4..];
      assert m3[3] == mm[3];
      assert out == all + mm[4..] <==> out[3] == all[3];
    } else {
      assert (all + mm[4..])[0] == all[0] && (all + mm[4..])[1] == all[1] && (all + mm[4..])[2] == all[2];
    }
  }

  function Printed(watts: nat, volts: nat, amps: nat, pf: nat): seq<Measurement>
  {
    [Measurement(watts as real / 10.0, 0x000400),
     Measurement(volts as real / 10.0, 0x000008),
     Measurement(amps as real / 1000.0, 0x000004),
     Measurement(pf as real / 100.0, 0x000800)]
  }

  lemma DecimalsMeasured(fields: seq<string>, watts: nat, volts: nat, amps: nat, pf: nat)
    requires |fields| >= 17
    requires fields[3] == Decimal(watts) && fields[4] == Decimal(volts)
    requires fields[5] == Decimal(amps) && fields[16] == Decimal(pf)
    ensures Measured(fields) == Printed(watts, volts, amps, pf)
    ensures ValueOf(fields, 3) >= 0.0 && ValueOf(fields, 4) >= 0.0
    ensures ValueOf(fields, 5) >= 0.0 && ValueOf(fields, 16) >= 0.0
  {
    hide Decimal, Atoi;
    AtoiDecimal(watts);
    AtoiDecimal(volts);
    AtoiDecimal(amps);
    AtoiDecimal(pf);
  }

  /**
   * Round trip: whatever non-negative numbers are printed, they are parsed into
   * watts/10, volts/10, amps/1000 and pf/100, in that order.
   */
  lemma RecordRoundTrip(mm: seq<Measurement>, pre: string, fields: seq<string>,
                        watts: nat, volts: nat, amps: nat, pf: nat)
    requires 4 <= |mm| && '#' !in pre && |fields| >= 17 && fields[0] == "#d"
    requires forall i :: 0 <= i < |fields| ==> fields[i] != "" && ',' !in fields[i]
    requires fields[3] == Decimal(watts) && fields[4] == Decimal(volts)
    requires fields[5] == Decimal(amps) && fields[16] == Decimal(pf)
    ensures var p := FindHash(pre + Joined(fields));
      && p.Some? && IsRecord(p.value)
      && Fill(mm, Tokens(p.value), 0, 0) == Printed(watts, volts, amps, pf) + mm[MEASUREMENTS..]
  {
    hide Fill, Tokens, FindHash, Joined, IsRecord, Decimal, ValueOf, Measured, Printed;
    ParsedExactly(mm, pre, fields);
    DecimalsMeasured(fields, watts, volts, amps, pf);
  }

  // ---------------------------------------------------------------- what is refused, and what a number is

  /** A reply is parsed exactly when its first '#' begins "#d,". */
  lemma AcceptedExactly(pre: string, s: string)
    requires '#' !in pre
    ensures var p := FindHash(pre + "#" + s);
      p.Some? && (IsRecord(p.value) <==> |s| >= 2 && s[0] == 'd' && s[1] == ',')
    ensures FindHash(pre) == None
  {
    FindHashAfter(pre, "#" + s);
    assert pre + "#" + s == pre + ("#" + s);
    assert |s| >= 2 ==> ("#" + s)[..3] == ['#', s[0], s[1]];
    NoHash(pre);
  }

  lemma {:induction false} NoHash(s: string)
    requires '#' !in s
    ensures FindHash(s) == None
  {
    if s != [] {
      assert s[0] in s;
      NoHash(s[1..]);
    }
  }

  function Digit(n: nat): char
    requires n < 10
  {
    ['0', '1', '2', '3', '4', '5', '6', '7', '8', '9'][n]
  }

  /** Decimal, digit by digit. */
  lemma DecimalDigits(n: nat)
    ensures Decimal(n) == if n < 10 then [Digit(n)] else Decimal(n / 10) + [Digit(n % 10)]
  {
  }

  /** atoi: blanks, at most one sign, digits, and whatever follows. */
  lemma {:induction false} AtoiExactly(blanks: string, sign: string, n: nat, rest: string)
    requires forall c :: c in blanks ==> c in " \t\n\r" || c as int in {11, 12}
    requires sign == "" || sign == "+" || sign == "-"
    requires rest == "" || !('0' <= rest[0] <= '9')
    ensures Atoi(blanks + sign + Decimal(n) + rest) == if sign == "-" then -(n as int) else n
  {
    if blanks != "" {
      var s := blanks + sign + Decimal(n) + rest;
      assert blanks[0] in blanks && s[0] == blanks[0];
      assert s[1..] == blanks[1..] + sign + Decimal(n) + rest;
      AtoiExactly(blanks[1..], sign, n, rest);
    } else {
      AtoiSigned(sign, n, rest);
      assert "" + sign + Decimal(n) + rest == sign + Decimal(n) + rest;
    }
  }

  lemma AtoiSigned(sign: string, n: nat, rest: string)
    requires sign == "" || sign == "+" || sign == "-"
    requires rest == "" || !('0' <= rest[0] <= '9')
    ensures Atoi(sign + Decimal(n) + rest) == if sign == "-" then -(n as int) else n
  {
    hide Decimal, Atoi, DigitsFrom;
    DecimalRead(n, rest);
    NoMoreDigits(rest, n);
    var s, digits := sign + Decimal(n) + rest, Decimal(n) + rest;
    assert IsDigit(Decimal(n)[0]) && digits[0] == Decimal(n)[0];
    AtoiStart(digits);
    AtoiStart(s);
    if sign == "" {
      assert s == digits;
    } else {
      assert s[0] == sign[0] && s[1..] == digits;
    }
  }

  lemma NoMoreDigits(s: string, n: nat)
    requires s == "" || !('0' <= s[0] <= '9')
    ensures DigitsFrom(s, n) == n
  {
  }

  lemma AtoiStart(s: string)
    requires s != []
    ensures IsDigit(s[0]) ==> Atoi(s) == DigitsFrom(s, 0)
    ensures s[0] == '+' ==> Atoi(s) == DigitsFrom(s[1..], 0)
    ensures s[0] == '-' ==> Atoi(s) == -(DigitsFrom(s[1..], 0) as int)
  {
  }

  /** A text that begins with none of these is no number, and counts as 0. */
  lemma AtoiOfNothing(s: string)
    requires s == "" || (s[0] !in " \t\n\r+-" && s[0] as int !in {11, 12} && !('0' <= s[0] <= '9'))
    ensures Atoi(s) == 0
  {
  }
}
