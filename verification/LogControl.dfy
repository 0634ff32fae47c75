/**
 * Log files of the meter servers: control messages open, mark and close them,
 * and the monitor writes its samples into whichever is open.
 */
module LogControl {
  import opened Basics

  const NEW_LOG_FILE := 20
  const NEW_SESSION := 21
  const END_LOG_FILE := 22
  const END_SESSION := 23

  /** A line of a log file; start is the time the sending client connected. */
  datatype Line =
    | BeginLog(start: real, name: string)
    | BeginSession(start: real, name: string)
    | EndSession(start: real, name: string)
    | Reading(text: string)

  /** A stream that fopen gave: the file it writes, and what was written through it. */
  datatype LogFile = LogFile(path: string, lines: seq<Line>, closed: bool)

  /**
   * A control message as received, with the file an fopen of its text would give,
   * which depends on the working directory; or a sample.
   */
  datatype Input =
    | Control(cmd: int, msg: string, start: real, file: Option<string>)
    | Sample(text: string)

  type Disk = map<string, seq<Line>>

  /** logging and fplog as in the server; files are all streams ever opened, in order; disk is what the files hold. */
  datatype State = State(logging: bool, fplog: Option<nat>, files: seq<LogFile>, disk: Disk)

  const INITIAL := State(false, None, [], map[])

  predicate Valid(s: State)
  {
    s.fplog.Some? ==> s.fplog.value < |s.files| && s.files[s.fplog.value].path in s.disk
  }

  function Written(s: State, line: Line): State
    requires Valid(s) && s.fplog.Some?
  {
    var k := s.fplog.value;
    var path := s.files[k].path;
    s.(files := s.files[k := s.files[k].(lines := s.files[k].lines + [line])],
       disk := s.disk[path := s.disk[path] + [line]])
  }

  function Closed(s: State): State
    requires Valid(s)
  {
    var files :=
      if s.fplog.None? then s.files else s.files[s.fplog.value := s.files[s.fplog.value].(closed := true)];
    State(false, None, files, s.disk)
  }

  /** fopen with "w+" empties the file; the BEGIN_LOG line is written at once. */
  function Opened(s: State, path: string, line: Line): State
  {
    State(true, Some(|s.files|), s.files + [LogFile(path, [line], false)], s.disk[path := [line]])
  }

  function Step(s: State, input: Input): (t: State)
    requires Valid(s)
    ensures Valid(t)
  {
    match input
    case Sample(text) => if s.logging && s.fplog.Some? then Written(s, Reading(text)) else s
    case Control(cmd, msg, start, file) =>
      if cmd == NEW_LOG_FILE then
        if file.Some? then Opened(Closed(s), file.value, BeginLog(start, msg)) else Closed(s)
      else if cmd == END_LOG_FILE then
        Closed(s)
      else if cmd == NEW_SESSION || cmd == END_SESSION then
        if s.fplog.None? then s.(logging := false)
        else Written(s, if cmd == NEW_SESSION then BeginSession(start, msg) else EndSession(start, msg))
      else s
  }

  // ---------------------------------------------------------------- telling messages apart

  /** Size of a request; a control message fills the read buffer. */
  const REQUEST := 32
  const MSG_BUF_SIZE := 64

  datatype Kind = Request | ControlMessage | Unexpected

  /** What a read of this size is taken for. */
  function KindOf(size: nat): Kind
  {
    if size == REQUEST then Request else if size > 2 then ControlMessage else Unexpected
  }

  /** The multimeter server's listener first cuts several requests down to one. */
  function KindAfterModulo(size: nat): Kind
  {
    KindOf(if size != 0 && size % REQUEST == 0 then REQUEST else size)
  }

  /** That cut takes a control message for a request exactly when the message fills the buffer. */
  lemma ModuloSwallowsExactly(size: nat)
    requires size <= MSG_BUF_SIZE
    ensures KindAfterModulo(size) == KindOf(size) <==> size != MSG_BUF_SIZE
    ensures KindAfterModulo(size).Request? <==> size == 32 || size == 64
    ensures KindOf(size).Request? <==> size == 32
    ensures KindOf(size).Unexpected? <==> size <= 2
    ensures KindAfterModulo(size).Unexpected? <==> size <= 2
  {
  }

  // ---------------------------------------------------------------- the server's globals

  class LogServer {
    var logging: bool
    var fplog: Option<nat>
    var files: seq<LogFile>
    var disk: Disk

    function Globals(): State
      reads this
    {
      State(logging, fplog, files, disk)
    }

    constructor ()
      ensures Globals() == INITIAL
    {
      logging, fplog, files, disk := false, None, [], map[];
    }

    method Fopen(path: string)
      modifies this`fplog, this`files, this`disk
      ensures fplog == Some(|old(files)|) && files == old(files) + [LogFile(path, [], false)]
      ensures disk == old(disk)[path := []]
    {
      fplog := Some(|files|);
      files := files + [LogFile(path, [], false)];
      disk := disk[path := []];
    }

    method Fclose()
      requires Valid(Globals()) && fplog.Some?
      modifies this`files
      ensures files == old(files)[fplog.value := old(files)[fplog.value].(closed := true)]
    {
      files := files[fplog.value := files[fplog.value].(closed := true)];
    }

    method Fprintf(line: Line)
      requires Valid(Globals()) && fplog.Some?
      modifies this`files, this`disk
      ensures Globals() == Written(old(Globals()), line)
    {
      var path := files[fplog.value].path;
      files := files[fplog.value := files[fplog.value].(lines := files[fplog.value].lines + [line])];
      disk := disk[path := disk[path] + [line]];
    }

    /** The switch over control messages. */
    method ClientRequest(cmd: int, msg: string, start: real, file: Option<string>)
      requires Valid(Globals())
      modifies this
      ensures Globals() == Step(old(Globals()), Control(cmd, msg, start, file))
    {
      if cmd == NEW_LOG_FILE {
        if fplog.Some? {
          logging := false;
          Fclose();
          fplog := None;
        }
        if file.Some? {
          ghost var before := Globals();
          Fopen(file.value);
          Fprintf(BeginLog(start, msg));
          assert [] + [BeginLog(start, msg)] == [BeginLog(start, msg)];
          assert files == Opened(before, file.value, BeginLog(start, msg)).files;
          logging := true;
        } else {
          logging, fplog := false, None;
        }
      } else if cmd == END_LOG_FILE {
        logging := false;
        if fplog.Some? {
          Fclose();
        }
        fplog := None;
      } else if cmd == NEW_SESSION || cmd == END_SESSION {
        if fplog.Some? {
          Fprintf(if cmd == NEW_SESSION then BeginSession(start, msg) else EndSession(start, msg));
        } else {
          logging, fplog := false, None;
        }
      }
    }

    /** The monitor's write of one sample. */
    method LogSample(text: string)
      requires Valid(Globals())
      modifies this
      ensures Globals() == Step(old(Globals()), Sample(text))
    {
      if logging && fplog.Some? {
        Fprintf(Reading(text));
      }
    }
  }

  // ---------------------------------------------------------------- every run

  function Exec(s: State, trace: seq<Input>): (t: State)
    requires Valid(s)
    ensures Valid(t)
    decreases |trace|
  {
    if trace == [] then s else Exec(Step(s, trace[0]), trace[1..])
  }

  predicate Opens(input: Input)
  {
    input.Control? && input.cmd == NEW_LOG_FILE && input.file.Some?
  }

  predicate Closes(input: Input)
  {
    input.Control? && (input.cmd == NEW_LOG_FILE || input.cmd == END_LOG_FILE)
  }

  /** How many inputs arrive before the first that closes a log file. */
  function UntilClose(trace: seq<Input>): (n: nat)
    ensures n <= |trace|
    ensures forall i :: 0 <= i < n ==> !Closes(trace[i])
    ensures n < |trace| ==> Closes(trace[n])
  {
    if trace == [] || Closes(trace[0]) then 0 else 1 + UntilClose(trace[1..])
  }

  /** The session markers and samples among the inputs, in order. */
  function Lines(trace: seq<Input>): (lines: seq<Line>)
  {
    if trace == [] then []
    else
      (match trace[0]
       case Sample(text) => [Reading(text)]
       case Control(cmd, msg, start, _) =>
         if cmd == NEW_SESSION then [BeginSession(start, msg)]
         else if cmd == END_SESSION then [EndSession(start, msg)]
         else [])
      + Lines(trace[1..])
  }

  /**
   * The streams a trace must open, told without any state: one for each message
   * that opens one, holding its BEGIN_LOG line and what arrived before the next
   * message that closes it.
   */
  function FilesOf(trace: seq<Input>): (files: seq<LogFile>)
    decreases |trace|
  {
    if trace == [] then []
    else if Opens(trace[0]) then
      var rest := trace[1..];
      var n := UntilClose(rest);
      [LogFile(trace[0].file.value, [BeginLog(trace[0].start, trace[0].msg)] + Lines(rest[..n]), n < |rest|)]
      + FilesOf(rest)
    else FilesOf(trace[1..])
  }

  /** logging tells whether a file is open; only the newest file can be open. */
  predicate Inv(s: State)
  {
    && Valid(s)
    && (s.logging <==> s.fplog.Some?)
    && (s.fplog.Some? ==> s.fplog.value == |s.files| - 1)
    && (forall i :: 0 <= i < |s.files| ==> (s.files[i].closed <==> s.fplog != Some(i)))
    && s.disk == DiskOf(s.files)
  }

  /** What each file holds when every stream was done with before the next was opened: the last one's lines. */
  function DiskOf(files: seq<LogFile>): (disk: Disk)
    ensures forall f :: f in files ==> f.path in disk
  {
    if files == [] then map[]
    else
      var last := files[|files| - 1];
      DiskOf(files[..|files| - 1])[last.path := last.lines]
  }

  /** The newest stream is the one to be looked at for its file's contents. */
  lemma DiskOfNewest(files: seq<LogFile>, f: LogFile)
    requires files != []
    ensures var older, last := files[..|files| - 1], files[|files| - 1];
      && DiskOf(files)[last.path] == last.lines
      && (f.path == last.path ==> DiskOf(files[|files| - 1 := f]) == DiskOf(files)[f.path := f.lines])
  {
    assert files[|files| - 1 := f][..|files| - 1] == files[..|files| - 1];
  }

  lemma DiskOfMore(files: seq<LogFile>, f: LogFile)
    ensures DiskOf(files + [f]) == DiskOf(files)[f.path := f.lines]
  {
    assert (files + [f])[..|files|] == files;
  }

  lemma InvStep(s: State, input: Input)
    requires Inv(s)
    ensures Inv(Step(s, input))
  {
    hide DiskOf;
    InvClosed(s);
    if s.fplog.Some? {
      if input.Sample? {
        InvWritten(s, Reading(input.text));
      } else if input.cmd == NEW_SESSION {
        InvWritten(s, BeginSession(input.start, input.msg));
      } else if input.cmd == END_SESSION {
        InvWritten(s, EndSession(input.start, input.msg));
      }
    }
    if Opens(input) {
      DiskOfMore(Closed(s).files, LogFile(input.file.value, [BeginLog(input.start, input.msg)], false));
    }
  }

  lemma InvClosed(s: State)
    requires Inv(s)
    ensures Inv(Closed(s))
  {
    hide DiskOf;
    if s.fplog.Some? {
      var f := s.files[s.fplog.value];
      DiskOfNewest(s.files, f.(closed := true));
      assert s.disk[f.path := f.lines] == s.disk;
    }
  }

  lemma InvWritten(s: State, line: Line)
    requires Inv(s) && s.fplog.Some?
    ensures Inv(Written(s, line))
  {
    hide DiskOf;
    var f := s.files[s.fplog.value];
    DiskOfNewest(s.files, f.(lines := f.lines + [line]));
  }

  lemma {:induction false} ExecKeepsInv(s: State, trace: seq<Input>)
    requires Inv(s)
    ensures Inv(Exec(s, trace))
    decreases |trace|
  {
    hide Inv, Step;
    InvValid(s);
    if trace != [] {
      InvStep(s, trace[0]);
      ExecKeepsInv(Step(s, trace[0]), trace[1..]);
    }
  }

  lemma InvValid(s: State)
    requires Inv(s)
    ensures Valid(s)
  {
  }

  /**
   * Over every run logging holds exactly when a file is open, at most one file is
   * open, and it is the newest: every other was closed before the next opened.
   */
  lemma LoggingMeansOpen(trace: seq<Input>)
    ensures var s := Exec(INITIAL, trace);
      && (s.logging <==> s.fplog.Some?)
      && (s.fplog.Some? ==> s.fplog.value == |s.files| - 1)
      && forall i :: 0 <= i < |s.files| ==> (s.files[i].closed <==> s.fplog != Some(i))
  {
    ExecKeepsInv(INITIAL, trace);
  }

  /** What a trace adds to the file that is open when it starts. */
  function Continued(f: LogFile, trace: seq<Input>): LogFile
  {
    var n := UntilClose(trace);
    LogFile(f.path, f.lines + Lines(trace[..n]), n < |trace|)
  }

  lemma ContinuedStep(f: LogFile, trace: seq<Input>)
    requires trace != []
    ensures if Closes(trace[0]) then Continued(f, trace) == f.(closed := true)
            else Continued(f, trace) == Continued(f.(lines := f.lines + Lines([trace[0]])), trace[1..])
  {
    var n := UntilClose(trace);
    if Closes(trace[0]) {
      assert Lines(trace[..0]) == [] && f.lines + [] == f.lines;
    } else {
      assert trace[..n][1..] == trace[1..][..n - 1];
      assert Lines([trace[0]]) + Lines([]) == Lines([trace[0]]);
      var more := Lines(trace[..n][1..]);
      assert f.lines + (Lines([trace[0]]) + more) == f.lines + Lines([trace[0]]) + more;
    }
  }

  /** The files at the end, from any state. */
  function Expected(s: State, trace: seq<Input>): seq<LogFile>
    requires Inv(s)
  {
    if s.fplog.None? then s.files + FilesOf(trace)
    else s.files[..|s.files| - 1] + [Continued(s.files[|s.files| - 1], trace)] + FilesOf(trace)
  }

  lemma {:induction false} ExecFiles(s: State, trace: seq<Input>)
    requires Inv(s)
    ensures Exec(s, trace).files == Expected(s, trace)
    decreases |trace|
  {
    if trace == [] {
      ExpectedNothing(s);
    } else {
      hide Inv, Step, Expected;
      InvValid(s);
      InvStep(s, trace[0]);
      ExpectedStep(s, trace);
      ExecFiles(Step(s, trace[0]), trace[1..]);
    }
  }

  lemma ExpectedNothing(s: State)
    requires Inv(s)
    ensures Expected(s, []) == s.files
  {
    assert forall f: LogFile :: Continued(f, []).lines == f.lines + [] == f.lines;
  }

  lemma ExpectedStep(s: State, trace: seq<Input>)
    requires Inv(s) && trace != []
    ensures Inv(Step(s, trace[0])) && Expected(Step(s, trace[0]), trace[1..]) == Expected(s, trace)
  {
    InvStep(s, trace[0]);
    if Opens(trace[0]) {
      ExpectedOpened(s, trace);
    } else if Closes(trace[0]) {
      ExpectedClosed(s, trace);
    } else if s.fplog.Some? {
      ExpectedWritten(s, trace);
    } else {
      hide DiskOf;
    }
  }

  /** A message that closes leaves the streams that are there as Continued says. */
  lemma ClosedFiles(s: State, trace: seq<Input>)
    requires Inv(s) && trace != [] && Closes(trace[0])
    ensures Expected(s, trace) == Closed(s).files + FilesOf(trace)
  {
    hide DiskOf, FilesOf, Continued;
    if s.fplog.Some? {
      ContinuedStep(s.files[|s.files| - 1], trace);
      assert Closed(s).files == s.files[..|s.files| - 1] + [Continued(s.files[|s.files| - 1], trace)];
    }
  }

  lemma ExpectedOpened(s: State, trace: seq<Input>)
    requires Inv(s) && trace != [] && Opens(trace[0]) && Inv(Step(s, trace[0]))
    ensures Expected(Step(s, trace[0]), trace[1..]) == Expected(s, trace)
  {
    hide DiskOf, FilesOf, Continued;
    ClosedFiles(s, trace);
    OpenedFile(trace);
    var t := Step(s, trace[0]);
    assert t.files[..|t.files| - 1] == Closed(s).files;
  }

  lemma ExpectedClosed(s: State, trace: seq<Input>)
    requires Inv(s) && trace != [] && Closes(trace[0]) && !Opens(trace[0]) && Inv(Step(s, trace[0]))
    ensures Expected(Step(s, trace[0]), trace[1..]) == Expected(s, trace)
  {
    hide DiskOf, Continued;
    ClosedFiles(s, trace);
    assert Step(s, trace[0]) == Closed(s);
  }

  lemma ExpectedWritten(s: State, trace: seq<Input>)
    requires Inv(s) && trace != [] && !Closes(trace[0]) && s.fplog.Some? && Inv(Step(s, trace[0]))
    ensures Expected(Step(s, trace[0]), trace[1..]) == Expected(s, trace)
  {
    hide DiskOf, Continued;
    var t, n := Step(s, trace[0]), |s.files| - 1;
    var f := s.files[n];
    ContinuedStep(f, trace);
    assert f.lines + [] == f.lines && Lines([trace[0]][1..]) == [];
    assert t.files[n] == f.(lines := f.lines + Lines([trace[0]]));
    assert t.files[..n] == s.files[..n];
  }

  lemma OpenedFile(trace: seq<Input>)
    requires trace != [] && Opens(trace[0])
    ensures FilesOf(trace)
      == [Continued(LogFile(trace[0].file.value, [BeginLog(trace[0].start, trace[0].msg)], false), trace[1..])]
      + FilesOf(trace[1..])
  {
  }

  /**
   * Over every sequence of control messages, fopen outcomes and samples, every
   * stream has been given exactly BEGIN_LOG and the markers and samples that
   * arrived while it was open, in order, and every file holds what was given to
   * the stream that was opened on it last.
   */
  lemma LogFilesHoldWhatArrived(trace: seq<Input>)
    ensures var s := Exec(INITIAL, trace);
      s.files == FilesOf(trace) && s.disk == DiskOf(FilesOf(trace))
  {
    ExecFiles(INITIAL, trace);
    ExecKeepsInv(INITIAL, trace);
  }

  /** DiskOf, file by file: a name that was opened holds the lines of the last stream opened on it. */
  lemma {:induction false} LastOpenedCounts(files: seq<LogFile>, k: nat)
    requires k < |files| && forall j :: k < j < |files| ==> files[j].path != files[k].path
    ensures files[k].path in DiskOf(files) && DiskOf(files)[files[k].path] == files[k].lines
    decreases |files|
  {
    if k < |files| - 1 {
      LastOpenedCounts(files[..|files| - 1], k);
    }
  }

  /** And no file comes to be that was not opened. */
  lemma {:induction false} OnlyOpenedFiles(files: seq<LogFile>, path: string) returns (k: nat)
    requires path in DiskOf(files)
    ensures k < |files| && files[k].path == path && forall j :: k < j < |files| ==> files[j].path != path
    decreases |files|
  {
    k := |files| - 1;
    if files[k].path != path {
      k := OnlyOpenedFiles(files[..k], path);
    }
  }

  /** One stream is open and has been given these lines. */
  function While(path: string, lines: seq<Line>): (s: State)
    ensures Valid(s) && s.fplog.Some?
  {
    State(true, Some(0), [LogFile(path, lines, false)], map[path := lines])
  }

  /** Code 20 opens a log on the file that fopen gives, or leaves everything closed. */
  lemma OpeningCode(log: string, path: string, t: real)
    ensures Step(INITIAL, Control(20, log, t, Some(path))) == While(path, [BeginLog(t, log)])
    ensures Step(INITIAL, Control(20, log, t, None)) == INITIAL
  {
  }

  /** With a log open, 21 and 23 mark a session, 22 closes the log; other codes write nothing. */
  lemma CodesExactly(path: string, lines: seq<Line>, session: string, t: real, text: string, other: int)
    requires !(20 <= other <= 23)
    ensures var s := While(path, lines);
      && Step(s, Control(21, session, t, None)) == While(path, lines + [BeginSession(t, session)])
      && Step(s, Control(23, session, t, None)) == While(path, lines + [EndSession(t, session)])
      && Step(s, Sample(text)) == While(path, lines + [Reading(text)])
      && Step(s, Control(other, session, t, Some(session))) == s
      && Step(s, Control(22, session, t, None)) == State(false, None, [LogFile(path, lines, true)], map[path := lines])
  {
    WhileWritten(path, lines, BeginSession(t, session));
    WhileWritten(path, lines, EndSession(t, session));
    WhileWritten(path, lines, Reading(text));
    hide Written, Opened;
  }

  lemma WhileWritten(path: string, lines: seq<Line>, line: Line)
    ensures Written(While(path, lines), line) == While(path, lines + [line])
  {
  }
}
