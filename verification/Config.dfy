/** The key=value configuration file. Every error ends the program, shown here as None. */
module Config {
  import opened Basics

  type Settings = map<string, string>

  const DELIMITER := '='

  /** findPair: the line is cut at the first delimiter; neither part may be empty. */
  function FindPair(line: string, delimiter: char): (pair: Option<(string, string)>)
    ensures pair.Some? ==> line == pair.value.0 + [delimiter] + pair.value.1
    ensures pair.Some? ==> pair.value.0 != [] && delimiter !in pair.value.0 && pair.value.1 != []
  {
    var position := Find(line, delimiter);
    if position == |line| then None
    else
      var key, value := line[..position], line[position + 1..];
      if key == [] || value == [] then None else Some((key, value))
  }

  /** Lines that are read as a pair. */
  predicate Significant(line: string)
  {
    line != [] && line[0] != '#'
  }

  /** Takes one line into the map read so far. */
  function Added(settings: Option<Settings>, line: string): Option<Settings>
  {
    if settings.None? || !Significant(line) then settings
    else
      match FindPair(line, DELIMITER)
      case None => None
      case Some((key, value)) =>
        if key in settings.value then None else Some(settings.value[key := value])
  }

  function AddedAll(settings: Option<Settings>, lines: seq<string>): Option<Settings>
    decreases |lines|
  {
    if lines == [] then settings else AddedAll(Added(settings, lines[0]), lines[1..])
  }

  /** The lines getline gives until the end of the file; after a final newline one more, empty. */
  function Lines(text: string): (lines: seq<string>)
    ensures lines != []
    decreases |text|
  {
    var n := Find(text, '\n');
    if n == |text| then [text] else [text[..n]] + Lines(text[n + 1..])
  }

  /** createConfigurationMap, on the contents of the file. */
  method CreateConfigurationMap(text: string) returns (settings: Option<Settings>)
    ensures settings == AddedAll(Some(map[]), Lines(text))
  {
    var configuration: Settings := map[];
    var rest, eof := text, false;
    while !eof
      invariant AddedAll(Some(map[]), Lines(text)) == AddedAll(Some(configuration), if eof then [] else Lines(rest))
      decreases !eof, |rest|
    {
      hide FindPair;
      ghost var before := configuration;
      var n := Find(rest, '\n');
      var line := rest[..n];
      ghost var others := if n == |rest| then [] else Lines(rest[n + 1..]);
      assert rest[..|rest|] == rest;
      assert Lines(rest) == [line] + others;
      if n == |rest| {
        eof := true;
      } else {
        rest := rest[n + 1..];
      }
      if line != [] && line[0] != '#' {
        var pair := FindPair(line, DELIMITER);
        if pair.None? || pair.value.0 in configuration {
          FailureStays(others);
          return None;
        }
        configuration := configuration[pair.value.0 := pair.value.1];
      }
      assert Added(Some(before), line) == Some(configuration);
      assert ([line] + others)[1..] == others;
    }
    return Some(configuration);
  }

  lemma {:induction false} FailureStays(lines: seq<string>)
    ensures AddedAll(None, lines) == None
    decreases |lines|
  {
    if lines != [] {
      FailureStays(lines[1..]);
    }
  }

  // ---------------------------------------------------------------- when it succeeds

  /** A delimiter with something on both sides of the first one. */
  predicate WellFormed(line: string)
  {
    var n := Find(line, DELIMITER);
    0 < n < |line| - 1
  }

  lemma PairExactly(line: string)
    ensures FindPair(line, DELIMITER).Some? <==> WellFormed(line)
  {
  }

  function Key(line: string): string
    requires WellFormed(line)
  {
    PairExactly(line);
    FindPair(line, DELIMITER).value.0
  }

  predicate AllWellFormed(lines: seq<string>)
  {
    forall i :: 0 <= i < |lines| && Significant(lines[i]) ==> WellFormed(lines[i])
  }

  predicate NoKeyRepeats(lines: seq<string>)
    requires AllWellFormed(lines)
  {
    forall i, j :: 0 <= i < j < |lines| && Significant(lines[i]) && Significant(lines[j]) ==>
      Key(lines[i]) != Key(lines[j])
  }

  predicate NoKeyIn(lines: seq<string>, settings: Settings)
    requires AllWellFormed(lines)
  {
    forall i :: 0 <= i < |lines| && Significant(lines[i]) ==> Key(lines[i]) !in settings
  }

  lemma {:induction false} AddedAllExactly(settings: Settings, lines: seq<string>)
    ensures AddedAll(Some(settings), lines).Some?
       <==> AllWellFormed(lines) && NoKeyRepeats(lines) && NoKeyIn(lines, settings)
    decreases |lines|
  {
    hide FindPair;
    if lines != [] {
      var line, rest := lines[0], lines[1..];
      PairExactly(line);
      assert forall i :: 0 <= i < |rest| ==> rest[i] == lines[i + 1];
      assert AllWellFormed(lines) <==> (Significant(line) ==> WellFormed(line)) && AllWellFormed(rest);
      match Added(Some(settings), line) {
        case None => FailureStays(rest);
        case Some(next) =>
          AddedAllExactly(next, rest);
          if AllWellFormed(lines) {
            KeysStep(settings, lines);
          }
      }
    }
  }

  lemma KeysStep(settings: Settings, lines: seq<string>)
    requires lines != [] && AllWellFormed(lines) && AllWellFormed(lines[1..])
    requires Added(Some(settings), lines[0]).Some?
    ensures NoKeyRepeats(lines) && NoKeyIn(lines, settings)
       <==> NoKeyRepeats(lines[1..]) && NoKeyIn(lines[1..], Added(Some(settings), lines[0]).value)
  {
    hide FindPair;
    PairExactly(lines[0]);
    var rest, next := lines[1..], Added(Some(settings), lines[0]).value;
    assert forall i :: 0 <= i < |rest| ==> rest[i] == lines[i + 1];
    if NoKeyRepeats(rest) && NoKeyIn(rest, next) {
      forall i, j | 0 <= i < j < |lines| && Significant(lines[i]) && Significant(lines[j])
        ensures Key(lines[i]) != Key(lines[j])
      {
        assert lines[j] == rest[j - 1];
      }
      forall i | 0 <= i < |lines| && Significant(lines[i]) ensures Key(lines[i]) !in settings {
        assert i > 0 ==> lines[i] == rest[i - 1];
      }
    }
  }

  /** A line "key=value" that is no comment; the key has no '=', neither part is empty. */
  predicate Assigns(line: string, key: string)
  {
    && key != "" && key[0] != '#' && '=' !in key
    && |line| > |key| + 1 && line[..|key| + 1] == key + "="
  }

  lemma AssignsExactly(line: string, key: string)
    ensures Assigns(line, key) <==> Significant(line) && WellFormed(line) && Key(line) == key
  {
    if Assigns(line, key) {
      var rest := line[|key| + 1..];
      assert line == key + ['='] + rest;
      FindFirst(key, '=', rest);
      assert line[0] == key[0];
    }
    if WellFormed(line) && Key(line) == key {
      assert line[..|key| + 1] == key + "=";
      assert key[0] == line[0];
    }
  }

  /**
   * Reading succeeds exactly when every line that is neither empty nor a comment
   * assigns something to a key, and no two lines assign to the same one.
   */
  lemma SucceedsExactly(text: string)
    ensures AddedAll(Some(map[]), Lines(text)).Some? <==>
      && (forall line :: line in Lines(text) && line != "" && line[0] != '#' ==> exists key :: Assigns(line, key))
      && (forall i, j, key :: 0 <= i < j < |Lines(text)| && Assigns(Lines(text)[i], key) ==>
            !Assigns(Lines(text)[j], key))
  {
    hide FindPair, Lines, Assigns, WellFormed;
    var lines := Lines(text);
    AddedAllExactly(map[], lines);
    forall line, key ensures Assigns(line, key) <==> Significant(line) && WellFormed(line) && Key(line) == key {
      AssignsExactly(line, key);
    }
    if AllWellFormed(lines) {
      forall line | line in lines && line != "" && line[0] != '#' ensures exists key :: Assigns(line, key) {
        assert Significant(line);
        assert Assigns(line, Key(line));
      }
    }
    if forall line :: line in lines && line != "" && line[0] != '#' ==> exists key :: Assigns(line, key) {
      forall i | 0 <= i < |lines| && Significant(lines[i]) ensures WellFormed(lines[i]) {
        var key :| Assigns(lines[i], key);
      }
      assert AllWellFormed(lines);
    }
  }

  /** A line that is empty or a comment can be left out, wherever it stands. */
  lemma CommentsAreSkipped(settings: Option<Settings>, before: seq<string>, line: string, after: seq<string>)
    requires line == "" || line[0] == '#'
    ensures AddedAll(settings, before + [line] + after) == AddedAll(settings, before + after)
  {
    AddedFirst(settings, before, line, after);
  }

  /** What has been read: what was there, and what the lines assign. */
  lemma {:induction false} HoldsWhatLinesAssign(settings: Settings, lines: seq<string>, key: string, value: string)
    requires AddedAll(Some(settings), lines).Some?
    ensures var m := AddedAll(Some(settings), lines).value;
      key in m && m[key] == value <==>
        || (key in settings && settings[key] == value)
        || (Assigns(key + "=" + value, key) && key + "=" + value in lines)
    decreases |lines|
  {
    if lines != [] {
      hide FindPair, Assigns;
      var line, all := lines[0], key + "=" + value;
      assert all in lines <==> all == line || all in lines[1..];
      OneLine(settings, line, key, value);
      if Added(Some(settings), line).None? {
        FailureStays(lines[1..]);
      } else {
        HoldsWhatLinesAssign(Added(Some(settings), line).value, lines[1..], key, value);
      }
    }
  }

  lemma OneLine(settings: Settings, line: string, key: string, value: string)
    ensures var next := Added(Some(settings), line);
      next.Some? ==>
        (key in next.value && next.value[key] == value <==>
          || (key in settings && settings[key] == value)
          || (Assigns(line, key) && line == key + "=" + value))
  {
    hide Assigns;
    AssignsExactly(line, key);
    PairExactly(line);
    if Significant(line) && WellFormed(line) {
      var p := FindPair(line, DELIMITER).value;
      assert line == p.0 + "=" + p.1;
      if p.0 == key {
        assert line[|key| + 1..] == p.1;
        assert line == key + "=" + value ==> value == line[|key| + 1..];
      }
    }
  }

  /** A map that is read holds exactly what the lines of the file assign. */
  lemma MapExactly(text: string, m: Settings)
    requires AddedAll(Some(map[]), Lines(text)) == Some(m)
    ensures forall key, value ::
      key in m && m[key] == value <==> Assigns(key + "=" + value, key) && key + "=" + value in Lines(text)
  {
    hide Lines, AddedAll, Assigns;
    forall key, value
      ensures key in m && m[key] == value <==> Assigns(key + "=" + value, key) && key + "=" + value in Lines(text)
    {
      HoldsWhatLinesAssign(map[], Lines(text), key, value);
    }
  }

  function JoinedLines(lines: seq<string>): (text: string)
  {
    if lines == [] then "" else if |lines| == 1 then lines[0] else lines[0] + "\n" + JoinedLines(lines[1..])
  }

  /** The lines are the text cut at its newlines. */
  lemma {:induction false} LinesExactly(text: string)
    ensures JoinedLines(Lines(text)) == text && forall line :: line in Lines(text) ==> '\n' !in line
    decreases |text|
  {
    var n := Find(text, '\n');
    if n < |text| {
      LinesExactly(text[n + 1..]);
      assert Lines(text) == [text[..n]] + Lines(text[n + 1..]);
      assert text == text[..n] + "\n" + text[n + 1..];
    }
  }

  // ---------------------------------------------------------------- order of lines

  lemma AddedCommutes(settings: Option<Settings>, x: string, y: string)
    ensures Added(Added(settings, x), y) == Added(Added(settings, y), x)
  {
    hide FindPair;
    if settings.Some? && Significant(x) && Significant(y) {
      var p, q := FindPair(x, DELIMITER), FindPair(y, DELIMITER);
      if p.Some? && q.Some? && p.value.0 != q.value.0 {
        var m := settings.value;
        assert m[p.value.0 := p.value.1][q.value.0 := q.value.1] == m[q.value.0 := q.value.1][p.value.0 := p.value.1];
      }
    }
  }

  /** A line counts the same wherever it stands. */
  lemma {:induction false} AddedFirst(settings: Option<Settings>, before: seq<string>, line: string, after: seq<string>)
    ensures AddedAll(settings, before + [line] + after) == AddedAll(Added(settings, line), before + after)
    decreases |before|
  {
    hide Added;
    var all := before + [line] + after;
    if before == [] {
      assert all == [line] + after && all[1..] == after && before + after == after;
    } else {
      assert all[1..] == before[1..] + [line] + after;
      assert (before + after)[1..] == before[1..] + after;
      AddedCommutes(settings, line, before[0]);
      AddedFirst(Added(settings, before[0]), before[1..], line, after);
    }
  }

  /** The result does not depend on the order of the lines. */
  lemma {:induction false} OrderDoesNotMatter(settings: Option<Settings>, lines: seq<string>, lines': seq<string>)
    requires multiset(lines) == multiset(lines')
    ensures AddedAll(settings, lines) == AddedAll(settings, lines')
    decreases |lines|
  {
    hide Added;
    assert |lines| == |multiset(lines)| == |lines'|;
    if lines != [] {
      var line := lines[0];
      assert line in multiset(lines');
      var k :| 0 <= k < |lines'| && lines'[k] == line;
      var before, after := lines'[..k], lines'[k + 1..];
      assert lines' == before + [line] + after;
      assert lines == [line] + lines[1..];
      assert multiset(lines[1..]) == multiset(lines) - multiset{line};
      assert multiset(before + after) == multiset(before) + multiset(after) == multiset(lines') - multiset{line};
      AddedFirst(settings, before, line, after);
      OrderDoesNotMatter(Added(settings, line), lines[1..], before + after);
    }
  }

  // ---------------------------------------------------------------- round trip

  /** Settings that can be written down: '=' is allowed inside values. */
  predicate Printable(m: Settings)
  {
    forall k :: k in m ==>
      && k != [] && k[0] != '#' && DELIMITER !in k && '\n' !in k
      && m[k] != [] && '\n' !in m[k]
  }

  function PairLine(m: Settings, k: string): string
    requires k in m
  {
    k + [DELIMITER] + m[k]
  }

  /** The file for the keys in the order given. */
  function Print(m: Settings, keys: seq<string>): (text: string)
    requires forall k :: k in keys ==> k in m
  {
    if keys == [] then "" else PairLine(m, keys[0]) + "\n" + Print(m, keys[1..])
  }

  predicate NoRepeats(keys: seq<string>)
  {
    forall i, j :: 0 <= i < j < |keys| ==> keys[i] != keys[j]
  }

  lemma {:induction false} FindFirst(s: string, c: char, rest: string)
    requires c !in s
    ensures Find(s + [c] + rest, c) == |s|
  {
    var all := s + [c] + rest;
    if s == [] {
      assert all[0] == c;
    } else {
      assert all[1..] == s[1..] + [c] + rest;
      FindFirst(s[1..], c, rest);
    }
  }

  lemma PairRead(m: Settings, k: string)
    requires Printable(m) && k in m
    ensures FindPair(PairLine(m, k), DELIMITER) == Some((k, m[k])) && Significant(PairLine(m, k))
    ensures '\n' !in PairLine(m, k)
  {
    var line := PairLine(m, k);
    FindFirst(k, DELIMITER, m[k]);
    assert line[..|k|] == k && line[|k| + 1..] == m[k];
    assert line[0] == k[0];
  }

  lemma LinesOfPrint(m: Settings, keys: seq<string>)
    requires Printable(m) && keys != [] && forall k :: k in keys ==> k in m
    ensures Lines(Print(m, keys)) == [PairLine(m, keys[0])] + Lines(Print(m, keys[1..]))
  {
    hide FindPair;
    assert keys[0] in keys;
    PairRead(m, keys[0]);
    var line, rest := PairLine(m, keys[0]), Print(m, keys[1..]);
    var text := line + ['\n'] + rest;
    FindFirst(line, '\n', rest);
    assert text == Print(m, keys);
    assert text[..|line|] == line && text[|line| + 1..] == rest;
  }

  /** Settings with those of m for the given keys put in. */
  function Including(settings: Settings, m: Settings, keys: seq<string>): Settings
    requires forall k :: k in keys ==> k in m
  {
    settings + map k | k in keys :: m[k]
  }

  lemma IncludingNext(settings: Settings, m: Settings, keys: seq<string>)
    requires keys != [] && forall k :: k in keys ==> k in m
    ensures keys[0] in m
    ensures Including(settings, m, keys) == Including(settings[keys[0] := m[keys[0]]], m, keys[1..])
  {
    assert keys == [keys[0]] + keys[1..];
    assert forall k :: k in keys <==> k == keys[0] || k in keys[1..];
  }

  lemma {:induction false} PrintRead(m: Settings, keys: seq<string>, settings: Settings)
    requires Printable(m) && NoRepeats(keys)
    requires forall k :: k in keys ==> k in m && k !in settings
    ensures AddedAll(Some(settings), Lines(Print(m, keys))) == Some(Including(settings, m, keys))
    decreases |keys|
  {
    hide FindPair, PairLine, Lines, Print, Added, Including, Printable;
    if keys == [] {
      NothingPrinted(m, settings);
    } else {
      var k := keys[0];
      assert k in keys;
      var next := settings[k := m[k]];
      LinesOfPrint(m, keys);
      LineRead(m, k, settings);
      var rest := Lines(Print(m, keys[1..]));
      assert ([PairLine(m, k)] + rest)[1..] == rest;
      PrintRead(m, keys[1..], next);
      IncludingNext(settings, m, keys);
    }
  }

  lemma NothingPrinted(m: Settings, settings: Settings)
    ensures AddedAll(Some(settings), Lines(Print(m, []))) == Some(settings)
    ensures Including(settings, m, []) == settings
  {
    assert Lines("") == [""] && [""][1..] == [];
  }

  lemma LineRead(m: Settings, k: string, settings: Settings)
    requires Printable(m) && k in m && k !in settings
    ensures Added(Some(settings), PairLine(m, k)) == Some(settings[k := m[k]])
  {
    hide FindPair, PairLine, Significant;
    PairRead(m, k);
  }

  /** Writing a map down, its keys in any order, and reading the file gives the map back. */
  lemma ConfigurationRoundTrip(m: Settings, keys: seq<string>)
    requires forall k :: k in m ==>
      && k != "" && k[0] != '#' && '=' !in k && '\n' !in k
      && m[k] != "" && '\n' !in m[k]
    requires (forall k :: k in keys <==> k in m) && forall i, j :: 0 <= i < j < |keys| ==> keys[i] != keys[j]
    ensures AddedAll(Some(map[]), Lines(Print(m, keys))) == Some(m)
  {
    assert Printable(m);
    hide Lines, Print, AddedAll, Printable, Including;
    PrintRead(m, keys, map[]);
    IncludingAll(m, keys);
  }

  lemma IncludingAll(m: Settings, keys: seq<string>)
    requires forall k :: k in keys <==> k in m
    ensures Including(map[], m, keys) == m
  {
    assert map[] + (map k | k in keys :: m[k]) == m;
  }
}
