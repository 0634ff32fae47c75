/**
 * The Watts Up driver: a thread that reads records from the meter and leaves the
 * newest one in a one-slot mailbox, and a reader that empties it.
 */
module Mailbox {
  import opened Basics

  /** The mailbox counter is set back to COUNTER_RESET when it passes COUNTER_LIMIT. */
  const COUNTER_LIMIT := 100000
  const COUNTER_RESET := 100

  /** What the buffers hold before the first record. */
  const BLANKS := "                                            "

  const NUL: char := '\0'

  /** What strchr and strcpy see of the text: everything before its first NUL. */
  function Shown(text: string): (shown: string)
    ensures NUL !in shown && shown <= text
    ensures shown == text || text[|shown|] == '\0'
  {
    text[..Find(text, NUL)]
  }

  predicate Complete(text: string)
  {
    ';' in Shown(text)
  }

  lemma ShownTwice(text: string)
    ensures Shown(Shown(text)) == Shown(text)
  {
    FindNothing(Shown(text), NUL);
  }

  /** The shared area: the record left last, and how many were left since it was emptied. */
  datatype Slot = Slot(asyncBuffer: string, asyncValid: nat)

  function Put(m: Slot, record: string): Slot
  {
    var count := m.asyncValid + 1;
    Slot(record, if count > COUNTER_LIMIT then COUNTER_RESET else count)
  }

  function Emptied(m: Slot): Slot
  {
    m.(asyncValid := 0)
  }

  // ---------------------------------------------------------------- the two threads

  class WattsUp {
    var sBuffer: string
    var asyncBuffer: string
    var asyncValid: nat
    var localBuffer: string

    function Shared(): Slot
      reads this
    {
      Slot(asyncBuffer, asyncValid)
    }

    constructor ()
      ensures Shared() == Slot(BLANKS, 0)
    {
      sBuffer, asyncBuffer, asyncValid, localBuffer := BLANKS, BLANKS, 0, BLANKS;
    }

    /**
     * Reads from the serial line until the text shows a semicolon. The record is
     * the shortest run of reads that does; without one the thread keeps waiting.
     * A read that failed is an empty one. Each read clears eight characters before it stores its own and a NUL; reach
     * is the end of everything written.
     */
    method ReadRecord(serial: seq<string>) returns (used: nat, complete: bool, ghost reach: nat)
      modifies this`sBuffer
      ensures used <= |serial| && sBuffer == Flatten(serial[..used])
      ensures reach == Reach(serial[..used])
      ensures complete <==> Complete(sBuffer)
      ensures !complete ==> used == |serial|
      ensures forall k :: 0 < k < used ==> !Complete(Flatten(serial[..k]))
    {
      sBuffer, used, complete, reach := "", 0, false, 0;
      while !complete && used < |serial|
        invariant used <= |serial| && sBuffer == Flatten(serial[..used])
        invariant reach == Reach(serial[..used])
        invariant complete <==> Complete(sBuffer)
        invariant forall k :: 0 < k < used ==> !Complete(Flatten(serial[..k]))
        invariant used > 0 && !complete ==> !Complete(Flatten(serial[..used]))
      {
        FlattenNext(serial, used);
        assert serial[..used + 1][..used] == serial[..used];
        var offset := |sBuffer|;
        reach := Max(reach, Max(offset + CLEARED, offset + |serial[used]| + 1));
        sBuffer := sBuffer + serial[used];
        used := used + 1;
        complete := ';' in Shown(sBuffer);
      }
    }

    /** The producer's locked section. */
    method Publish()
      modifies this`asyncBuffer, this`asyncValid
      ensures Shared() == Put(old(Shared()), Shown(sBuffer))
    {
      asyncBuffer := Shown(sBuffer);
      asyncValid := asyncValid + 1;
      if asyncValid > COUNTER_LIMIT {
        asyncValid := COUNTER_RESET;
      }
    }

    /** The consumer's locked section; a count of zero means there was nothing. */
    method Take() returns (count: nat)
      modifies this`asyncValid, this`localBuffer
      ensures count == old(asyncValid)
      ensures Shared() == Emptied(old(Shared()))
      ensures localBuffer == if count == 0 then old(localBuffer) else old(asyncBuffer)
    {
      count := asyncValid;
      if asyncValid != 0 {
        localBuffer := asyncBuffer;
        asyncValid := 0;
      }
    }
  }

  // ---------------------------------------------------------------- the buffers

  const BUFFER := 128

  /** memset(buffer, 0, sizeof(buffer)) with a parameter for buffer: the size of a pointer. */
  const CLEARED := 8

  function Max(x: nat, y: nat): nat
  {
    if x > y then x else y
  }

  /** The end of what a run of reads writes, each starting where the text so far ends. */
  function Reach(chunks: seq<string>): (end: nat)
  {
    if chunks == [] then 0
    else
      var before, last := chunks[..|chunks| - 1], chunks[|chunks| - 1];
      var offset := |Flatten(before)|;
      Max(Reach(before), Max(offset + CLEARED, offset + |last| + 1))
  }

  /**
   * The record and its NUL are copied on into buffers of the same size. A run of
   * reads stays inside them exactly when its text has at most 127 characters and
   * its last read starts at most at character 120.
   */
  lemma {:induction false} StaysInsideExactly(chunks: seq<string>)
    requires chunks != []
    ensures Reach(chunks) <= BUFFER
       <==> |Flatten(chunks)| <= 127 && |Flatten(chunks[..|chunks| - 1])| <= 120
    decreases |chunks|
  {
    var n := |chunks| - 1;
    assert chunks[..n + 1] == chunks;
    FlattenNext(chunks, n);
    if n > 0 {
      StaysInsideExactly(chunks[..n]);
      FlattenNext(chunks, n - 1);
      assert chunks[..n][..n - 1] == chunks[..n - 1];
    }
  }

  // ---------------------------------------------------------------- every interleaving

  /** A record taken: which publication it was, and the count taken with it. */
  datatype Taken = Taken(index: int, record: string, count: nat)

  /** building is the record being read; published and resets are the history. */
  datatype System = System(
    building: string,
    shared: Slot,
    published: seq<string>,
    resets: nat,
    taken: seq<Taken>)

  const INITIAL := System("", Slot(BLANKS, 0), [], 0, [])

  datatype Action =
    | Read(chunk: string)   // producer: one read of the serial line returns
    | Publish               // producer: locked section, then the buffer is cleared
    | Take                  // consumer: locked section

  predicate Enabled(s: System, a: Action)
  {
    match a
    case Read(_) => !Complete(s.building)
    case Publish => Complete(s.building)
    case Take => true
  }

  function Step(s: System, a: Action): System
    requires Enabled(s, a)
  {
    match a
    case Read(chunk) => s.(building := s.building + chunk)
    case Publish =>
      s.(building := "",
         shared := Put(s.shared, Shown(s.building)),
         published := s.published + [Shown(s.building)],
         resets := s.resets + if s.shared.asyncValid + 1 > COUNTER_LIMIT then 1 else 0)
    case Take =>
      if s.shared.asyncValid == 0 then s
      else s.(shared := Emptied(s.shared),
              taken := s.taken + [Taken(|s.published| - 1, s.shared.asyncBuffer, s.shared.asyncValid)])
  }

  function Exec(s: System, acts: seq<Action>): Option<System>
    decreases |acts|
  {
    if acts == [] then Some(s)
    else if Enabled(s, acts[0]) then Exec(Step(s, acts[0]), acts[1..])
    else None
  }

  function Counted(taken: seq<Taken>): (n: nat)
  {
    if taken == [] then 0 else Counted(taken[..|taken| - 1]) + taken[|taken| - 1].count
  }

  /**
   * Nothing published is lost from the books; the counter stays in range; the
   * slot holds the newest record; what was taken is complete and strictly newer
   * each time.
   */
  ghost predicate Inv(s: System)
  {
    && |s.published| == Counted(s.taken) + s.shared.asyncValid + (COUNTER_LIMIT + 1 - COUNTER_RESET) * s.resets
    && s.shared.asyncValid <= COUNTER_LIMIT
    && (s.shared.asyncValid > 0 ==>
          s.published != [] && s.shared.asyncBuffer == s.published[|s.published| - 1])
    && (forall i :: 0 <= i < |s.published| ==> Complete(s.published[i]))
    && (forall i :: 0 <= i < |s.taken| ==>
          && 0 <= s.taken[i].index < |s.published|
          && s.taken[i].record == s.published[s.taken[i].index]
          && s.taken[i].count > 0)
    && (forall i, j :: 0 <= i < j < |s.taken| ==> s.taken[i].index < s.taken[j].index)
    && (s.taken != [] && s.shared.asyncValid > 0 ==> s.taken[|s.taken| - 1].index < |s.published| - 1)
  }

  lemma InvPublish(s: System)
    requires Inv(s) && Enabled(s, Publish)
    ensures Inv(Step(s, Publish))
  {
    hide Counted, Shown;
    ShownTwice(s.building);
  }

  lemma InvTake(s: System)
    requires Inv(s)
    ensures Inv(Step(s, Take))
  {
    hide Complete, Counted;
    if s.shared.asyncValid > 0 {
      CountedNext(s.taken, Taken(|s.published| - 1, s.shared.asyncBuffer, s.shared.asyncValid));
    }
  }

  lemma CountedNext(taken: seq<Taken>, t: Taken)
    ensures Counted(taken + [t]) == Counted(taken) + t.count
  {
    assert (taken + [t])[..|taken|] == taken;
  }

  lemma InvStep(s: System, a: Action)
    requires Inv(s) && Enabled(s, a)
    ensures Inv(Step(s, a))
  {
    match a
    case Read(_) =>
    case Publish => InvPublish(s);
    case Take => InvTake(s);
  }

  lemma {:induction false} ExecKeepsInv(s: System, acts: seq<Action>)
    requires Inv(s) && Exec(s, acts).Some?
    ensures Inv(Exec(s, acts).value)
    decreases |acts|
  {
    hide Inv, Enabled, Step;
    if acts != [] {
      InvStep(s, acts[0]);
      ExecKeepsInv(Step(s, acts[0]), acts[1..]);
    }
  }

  /**
   * Conservation over every run: the records published are those counted out,
   * plus the count in the slot, plus 99901 for each reset of the counter.
   */
  lemma NothingIsLost(acts: seq<Action>)
    requires Exec(INITIAL, acts).Some?
    ensures var s := Exec(INITIAL, acts).value;
      && |s.published| == Counted(s.taken) + s.shared.asyncValid + 99901 * s.resets
      && s.shared.asyncValid <= COUNTER_LIMIT
  {
    hide Exec;
    ExecKeepsInv(INITIAL, acts);
  }

  /**
   * The consumer sees complete records only, in strictly increasing order of
   * publication.
   */
  lemma TakenInOrder(acts: seq<Action>)
    requires Exec(INITIAL, acts).Some?
    ensures var s := Exec(INITIAL, acts).value;
      && (forall i, j :: 0 <= i < j < |s.taken| ==> s.taken[i].index < s.taken[j].index)
      && (forall i :: 0 <= i < |s.taken| ==>
            && 0 <= s.taken[i].index < |s.published|
            && s.taken[i].record == s.published[s.taken[i].index]
            && ';' in s.taken[i].record)
  {
    hide Exec;
    ExecKeepsInv(INITIAL, acts);
  }

  /** Whatever has happened, a take that finds something gets the newest record. */
  lemma TakeGetsTheNewest(acts: seq<Action>)
    requires Exec(INITIAL, acts).Some?
    ensures var s := Exec(INITIAL, acts).value;
      s.shared.asyncValid > 0 ==>
        s.published != [] && Step(s, Take).taken
          == s.taken + [Taken(|s.published| - 1, s.published[|s.published| - 1], s.shared.asyncValid)]
  {
    hide Exec;
    ExecKeepsInv(INITIAL, acts);
  }

  // ---------------------------------------------------------------- from the line to the consumer

  /** What the serial line brought, read by read. */
  function Chunks(acts: seq<Action>): (chunks: seq<string>)
  {
    if acts == [] then [] else (if acts[0].Read? then [acts[0].chunk] else []) + Chunks(acts[1..])
  }

  /** The records are those texts, up to their first NUL. */
  predicate AreShown(records: seq<string>, texts: seq<string>)
  {
    && |records| == |texts|
    && forall i :: 0 <= i < |records| ==> records[i] == Shown(texts[i])
  }

  lemma OneCut(s: System, a: Action, texts: seq<string>) returns (now: seq<string>)
    requires Enabled(s, a) && AreShown(s.published, texts)
    ensures var t := Step(s, a);
      && AreShown(t.published, now) && texts <= now
      && Flatten(now) + t.building == Flatten(texts) + s.building + if a.Read? then a.chunk else ""
  {
    hide Put, Shown, Enabled, Flatten;
    now := texts;
    if a.Publish? {
      now := texts + [s.building];
      FlattenAppend(texts, [s.building]);
      FlattenOne(s.building);
    }
  }

  lemma ChunksNext(acts: seq<Action>)
    requires acts != []
    ensures Flatten(Chunks(acts)) == (if acts[0].Read? then acts[0].chunk else "") + Flatten(Chunks(acts[1..]))
  {
    hide Flatten;
    if acts[0].Read? {
      FlattenAppend([acts[0].chunk], Chunks(acts[1..]));
      FlattenOne(acts[0].chunk);
    } else {
      assert Chunks(acts) == Chunks(acts[1..]);
      assert "" + Flatten(Chunks(acts)) == Flatten(Chunks(acts));
    }
  }

  lemma {:induction false} LineIsCutUp(s: System, acts: seq<Action>, texts: seq<string>) returns (later: seq<string>)
    requires Exec(s, acts).Some? && AreShown(s.published, texts)
    ensures var t := Exec(s, acts).value;
      && AreShown(t.published, later) && texts <= later
      && Flatten(later) + t.building == Flatten(texts) + s.building + Flatten(Chunks(acts))
    decreases |acts|
  {
    hide Step, Enabled, AreShown;
    later := texts;
    if acts != [] {
      hide Flatten, Chunks;
      var now := OneCut(s, acts[0], texts);
      later := LineIsCutUp(Step(s, acts[0]), acts[1..], now);
      var first, rest := if acts[0].Read? then acts[0].chunk else "", Flatten(Chunks(acts[1..]));
      ChunksNext(acts);
      assert Flatten(texts) + s.building + first + rest == Flatten(texts) + s.building + (first + rest);
    }
  }

  /**
   * Over every run the text the line brought is cut, without loss and in order,
   * into the texts of the records published and the one being read; each record
   * is its text up to the first NUL, and so all of it when the line brings none.
   */
  lemma RecordsAreTheLine(acts: seq<Action>) returns (texts: seq<string>)
    requires Exec(INITIAL, acts).Some?
    ensures var s := Exec(INITIAL, acts).value;
      && Flatten(texts) + s.building == Flatten(Chunks(acts))
      && AreShown(s.published, texts)
      && ('\0' !in Flatten(Chunks(acts)) ==> s.published == texts)
  {
    hide Exec, Chunks;
    texts := LineIsCutUp(INITIAL, acts, []);
    var s, line := Exec(INITIAL, acts).value, Flatten(Chunks(acts));
    assert Flatten<char>([]) + INITIAL.building + line == line;
    if '\0' !in line {
      forall i | 0 <= i < |texts| ensures s.published[i] == texts[i] {
        PartOfFlatten(texts, i);
        assert forall c :: c in texts[i] ==> c in Flatten(texts) + s.building;
      }
    }
  }

  lemma {:induction false} PartOfFlatten(texts: seq<string>, i: nat)
    requires i < |texts|
    ensures forall c :: c in texts[i] ==> c in Flatten(texts)
  {
    if i > 0 {
      PartOfFlatten(texts[1..], i - 1);
    }
  }

  function Reads(chunks: seq<string>): (acts: seq<Action>)
    ensures |acts| == |chunks|
  {
    if chunks == [] then [] else [Read(chunks[0])] + Reads(chunks[1..])
  }

  lemma {:induction false} ExecReads(s: System, chunks: seq<string>, acts: seq<Action>)
    requires chunks != [] && ';' !in Shown(s.building)
    requires forall k :: 0 < k < |chunks| ==> ';' !in Shown(s.building + Flatten(chunks[..k]))
    ensures Exec(s, Reads(chunks) + acts) == Exec(s.(building := s.building + Flatten(chunks)), acts)
    decreases |chunks|
  {
    hide Shown;
    var all := Reads(chunks) + acts;
    var t := Step(s, Read(chunks[0]));
    assert all[0] == Read(chunks[0]) && all[1..] == Reads(chunks[1..]) + acts;
    assert Exec(s, all) == Exec(t, all[1..]);
    NextText(s.building, chunks, |chunks|);
    if |chunks| == 1 {
      assert t.building + Flatten(chunks[1..]) == t.building;
      assert all[1..] == acts;
    } else {
      hide Flatten, Exec;
      NextText(s.building, chunks, 1);
      forall k | 0 < k < |chunks| - 1 ensures ';' !in Shown(t.building + Flatten(chunks[1..][..k])) {
        NextText(s.building, chunks, k + 1);
      }
      ExecReads(t, chunks[1..], acts);
    }
  }

  /** The text of some reads starts with that of the first. */
  lemma NextText(text: string, chunks: seq<string>, k: nat)
    requires 0 < k <= |chunks|
    ensures text + Flatten(chunks[..k]) == text + chunks[0] + Flatten(chunks[1..][..k - 1])
    ensures k == 1 ==> text + Flatten(chunks[..k]) == text + chunks[0]
    ensures k == |chunks| ==> text + Flatten(chunks) == text + chunks[0] + Flatten(chunks[1..])
  {
    hide Flatten;
    assert chunks[..k] == [chunks[0]] + chunks[1..][..k - 1];
    FlattenAppend([chunks[0]], chunks[1..][..k - 1]);
    FlattenOne(chunks[0]);
    assert text + (chunks[0] + Flatten(chunks[1..][..k - 1])) == text + chunks[0] + Flatten(chunks[1..][..k - 1]);
    if k == |chunks| {
      assert chunks[..k] == chunks && chunks[1..][..k - 1] == chunks[1..];
    }
    if k == 1 {
      assert chunks[..1] == [chunks[0]];
    }
  }

  /**
   * Whatever has happened before, a text whose first semicolon comes with its
   * last read is a record that the consumer, asking next, is given.
   */
  lemma RecordIsTaken(s: System, chunks: seq<string>)
    requires s.building == "" && chunks != [] && s.shared.asyncValid == 0
    requires ';' in Shown(Flatten(chunks)) && forall k :: 0 < k < |chunks| ==> ';' !in Shown(Flatten(chunks[..k]))
    ensures var t := Exec(s, Reads(chunks) + [Publish, Take]);
      && t.Some? && t.value.building == "" && t.value.shared.asyncValid == 0
      && t.value.published == s.published + [Shown(Flatten(chunks))]
      && t.value.taken == s.taken + [Taken(|s.published|, Shown(Flatten(chunks)), 1)]
  {
    hide Shown, Flatten;
    forall k | 0 < k < |chunks| ensures ';' !in Shown(s.building + Flatten(chunks[..k])) {
      assert "" + Flatten(chunks[..k]) == Flatten(chunks[..k]);
    }
    assert ';' !in Shown("") by { assert |Shown("")| <= 0; }
    ExecReads(s, chunks, [Publish, Take]);
    assert "" + Flatten(chunks) == Flatten(chunks);
    var read := s.(building := Flatten(chunks));
    var put := Step(read, Publish);
    assert [Publish, Take][1..] == [Take] && [Take][1..] == [];
    assert Exec(put, [Take]) == Some(Step(put, Take));
  }
}
