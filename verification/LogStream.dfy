/**
 The runner container's log on its way to the reporter: CommandProcessor (pkg/reporter/commands.go)
 and the loop of streamLogs (pkg/k8s/watcher.go).
 */
module LogStream {
  import opened Wrappers
  import opened Text
  import opened Masking
  import opened Reporting
  import opened StatePipeline

  class CommandProcessor {
    const reporter: Reporter
    const debugEnabled: bool
    var stopToken: string

    constructor (reporter: Reporter, debugEnabled: bool)
      ensures this.reporter == reporter && this.debugEnabled == debugEnabled && stopToken == ""
    {
      this.reporter, this.debugEnabled, this.stopToken := reporter, debugEnabled, "";
    }

    ghost function Value(): Proc
      reads this, reporter
    {
      Proc(stopToken, reporter.secrets)
    }

    /** Handles one line; of the reporter only the masks change. */
    method ProcessLine(line: string) returns (emit: Option<string>)
      modifies this, reporter
      ensures (Value(), emit) == Process(old(Value()), debugEnabled, line)
      ensures reporter.Value() == old(reporter.Value()).(secrets := reporter.secrets)
    {
      hide ParseCommand, Lower;
      if stopToken != "" {
        if line == "::" + stopToken + "::" {
          stopToken := "";
          return None;
        }
        return Some(line);
      }
      var matches := ParseCommand(line);
      if matches.None? {
        return Some(line);
      }
      var command, value := Lower(matches.value.name), matches.value.value;
      if command == "add-mask" {
        reporter.AddMask(value);
        return None;
      } else if command == "debug" {
        if debugEnabled {
          return Some(line);
        }
        return None;
      } else if command == "stop-commands" {
        if value != "" {
          stopToken := value;
        }
        return None;
      }
      return Some(line);
    }
  }

  /** Whether workflow commands are handled, and then the processor's own state. */
  datatype Commands = Ignored | Handled(stopToken: string, debug: bool)

  ghost function CommandsOf(proc: CommandProcessor?): Commands
    reads proc
  {
    if proc == null then Ignored else Handled(proc.stopToken, proc.debugEnabled)
  }

  /** The reporter and the processor after one line. */
  function Fed(r: Rep, cmd: Commands, line: string): (Rep, Commands) {
    match cmd
    case Ignored => (Logged(r, line), cmd)
    case Handled(stop, debug) =>
      var (p, emit) := Process(Proc(stop, r.secrets), debug, line);
      var masked := r.(secrets := p.secrets);
      (if emit.Some? then Logged(masked, emit.value) else masked, Handled(p.stopToken, debug))
  }

  function FedAll(r: Rep, cmd: Commands, lines: seq<string>): (Rep, Commands)
    decreases |lines|
  {
    if lines == [] then (r, cmd)
    else
      var (r', cmd') := Fed(r, cmd, lines[0]);
      FedAll(r', cmd', lines[1..])
  }

  /** The lines ReadString yields, the last one even without a newline, with their ends trimmed. */
  function LogLines(stream: string): seq<string>
    decreases |stream|
  {
    if stream == "" then []
    else
      var k := Index(stream, "\n");
      if k < 0 then [TrimNewline(stream)] else [TrimNewline(stream[..k + 1])] + LogLines(stream[k + 1..])
  }

  lemma {:induction false} LogLinesUnfold(stream: string)
    requires stream != ""
    ensures
      var k := Index(stream, "\n");
      && k < |stream|
      && LogLines(stream) ==
         if k < 0 then [TrimNewline(stream)] else [TrimNewline(stream[..k + 1])] + LogLines(stream[k + 1..])
  {
  }

  /** A line that a log can hold: no newline in it, and no carriage return at its end. */
  predicate IsLogLine(l: string) {
    '\n' !in l && (l == "" || l[|l| - 1] != '\r')
  }

  function Returns(n: nat): string {
    seq(n, _ => '\r')
  }

  function Terminate(lines: seq<string>, crs: nat): string {
    if lines == [] then "" else lines[0] + Returns(crs) + "\n" + Terminate(lines[1..], crs)
  }

  lemma {:induction false} TrimsOne(s: string, c: char)
    requires c == '\n' || c == '\r'
    ensures TrimNewline(s + [c]) == TrimNewline(s)
  {
    assert (s + [c])[..|s|] == s;
  }

  lemma {:induction false} TrimsNothing(l: string)
    requires IsLogLine(l)
    ensures TrimNewline(l) == l
  {
    assert l != "" ==> l[|l| - 1] in l;
  }

  lemma {:induction false} TrimsEnd(l: string, crs: nat)
    requires IsLogLine(l)
    ensures TrimNewline(l + Returns(crs)) == l && TrimNewline(l + Returns(crs) + "\n") == l
    decreases crs
  {
    hide TrimNewline, IsLogLine;
    if crs > 0 {
      TrimsEnd(l, crs - 1);
      assert Returns(crs) == Returns(crs - 1) + ['\r'];
      assert l + Returns(crs) == l + Returns(crs - 1) + ['\r'];
      TrimsOne(l + Returns(crs - 1), '\r');
    } else {
      TrimsNothing(l);
      assert l + Returns(0) == l;
    }
    TrimsOne(l + Returns(crs), '\n');
  }

  lemma {:induction false} FirstLogLine(l: string, crs: nat, more: string)
    requires IsLogLine(l)
    ensures LogLines(l + Returns(crs) + "\n" + more) == [l] + LogLines(more)
  {
    hide Index, TrimNewline, LogLines;
    var head := l + Returns(crs);
    var s := head + "\n" + more;
    IndexAfter(head, "\n", more);
    LogLinesUnfold(s);
    assert s[..|head| + 1] == head + "\n" && s[|head| + 1..] == more;
    TrimsEnd(l, crs);
  }

  /** The lines of a log, ended by newlines with or without carriage returns, and a last one without. */
  lemma {:induction false} LogLinesExactly(lines: seq<string>, crs: nat, last: string)
    requires IsLogLine(last) && forall l <- lines :: IsLogLine(l)
    ensures LogLines(Terminate(lines, crs) + last) == lines + (if last == "" then [] else [last])
    decreases |lines|
  {
    hide LogLines, IsLogLine;
    var end := if last == "" then [] else [last];
    if lines == [] {
      LastLogLine(last);
      assert "" + last == last && [] + end == end;
    } else {
      var l, more := lines[0], Terminate(lines[1..], crs) + last;
      assert l in lines;
      assert Terminate(lines, crs) + last == l + Returns(crs) + "\n" + more;
      FirstLogLine(l, crs, more);
      LogLinesExactly(lines[1..], crs, last);
      assert [l] + (lines[1..] + end) == lines + end;
    }
  }

  lemma {:induction false} LastLogLine(last: string)
    requires IsLogLine(last)
    ensures LogLines(last) == if last == "" then [] else [last]
  {
    if last != "" {
      TrimsNothing(last);
      if Index(last, "\n") >= 0 {
        AtStart(last, "\n", Index(last, "\n"));
      }
    }
  }

  lemma {:induction false} FeedNext(r: Rep, cmd: Commands, line: string, more: seq<string>)
    ensures FedAll(r, cmd, [line] + more) == FedAll(Fed(r, cmd, line).0, Fed(r, cmd, line).1, more)
  {
    hide Fed;
    assert ([line] + more)[1..] == more;
  }

  lemma {:induction false} NoLogLines()
    ensures LogLines("") == []
  {
  }

  /** streamLogs, until the stream ends, with or without a command processor. */
  method StreamLogs(stream: string, rep: Reporter, proc: CommandProcessor?)
    requires proc != null ==> proc.reporter == rep
    modifies rep, proc
    ensures (rep.Value(), CommandsOf(proc)) == FedAll(old(rep.Value()), old(CommandsOf(proc)), LogLines(stream))
  {
    hide Index, TrimNewline, Process, Logged, LogLines;
    var rest := stream;
    ghost var goal := FedAll(rep.Value(), CommandsOf(proc), LogLines(stream));
    while rest != ""
      invariant goal == FedAll(rep.Value(), CommandsOf(proc), LogLines(rest))
      decreases |rest|
    {
      var k := Index(rest, "\n");
      LogLinesUnfold(rest);
      var end := if k < 0 then |rest| else k + 1;
      var line := TrimNewline(rest[..end]);
      ghost var more := if k < 0 then [] else LogLines(rest[k + 1..]);
      assert rest[..|rest|] == rest && [line] + more == LogLines(rest);
      FeedNext(rep.Value(), CommandsOf(proc), line, more);
      if proc != null {
        var processed := proc.ProcessLine(line);
        if processed.Some? {
          rep.AddLog(processed.value);
        }
      } else {
        rep.AddLog(line);
      }
      assert LogLines("") == [] by { NoLogLines(); }
      rest := rest[end..];
    }
    NoLogLines();
  }

  // ---------------------------------------------------------------- the rows

  /** Every line as it is, masked with the secrets registered once and for all. */
  function MaskAll(secrets: seq<string>, lines: seq<string>): seq<string> {
    if lines == [] then [] else [Mask(secrets, lines[0])] + MaskAll(secrets, lines[1..])
  }

  /** The rows a log leaves behind, and the masks and stop token it ends with. */
  function Stored(secrets: seq<string>, cmd: Commands, lines: seq<string>): (seq<string>, Commands, seq<string>) {
    match cmd
    case Ignored => (MaskAll(secrets, lines), cmd, secrets)
    case Handled(stop, debug) =>
      var (p, rows) := StoreAll(Proc(stop, secrets), debug, lines);
      (rows, Handled(p.stopToken, debug), p.secrets)
  }

  lemma {:induction false} LoggedKeeps(r: Rep, content: string)
    ensures
      var r' := Logged(r, content);
      && r'.buf == Buffer(r.buf.rows + [Mask(r.secrets, content)], r.buf.offset) && r'.secrets == r.secrets
      && r'.current == r.current && r'.result == r.result && Results(r') == Results(r)
  {
    hide Mask;
  }

  ghost predicate Grown(r: Rep, r': Rep, rows: seq<string>) {
    && r'.buf == Buffer(r.buf.rows + rows, r.buf.offset)
    && r'.current == r.current && r'.result == r.result && Results(r') == Results(r)
  }

  lemma {:induction false} FedRowIsStored(r: Rep, cmd: Commands, line: string)
    ensures
      var (r', cmd') := Fed(r, cmd, line);
      match cmd
      case Ignored => Grown(r, r', [Mask(r.secrets, line)]) && cmd' == cmd && r'.secrets == r.secrets
      case Handled(stop, debug) =>
        var (p, emit) := Process(Proc(stop, r.secrets), debug, line);
        && Grown(r, r', if emit.Some? then [Mask(p.secrets, emit.value)] else [])
        && cmd' == Handled(p.stopToken, debug) && r'.secrets == p.secrets
  {
    hide Process, Mask, Logged, Results;
    match cmd
    case Ignored => LoggedKeeps(r, line);
    case Handled(stop, debug) =>
      var (p, emit) := Process(Proc(stop, r.secrets), debug, line);
      var masked := r.(secrets := p.secrets);
      SameResults(r, masked);
      if emit.Some? {
        LoggedKeeps(masked, emit.value);
      } else {
        assert r.buf.rows + [] == r.buf.rows;
      }
  }

  lemma {:induction false} SameResults(r: Rep, r': Rep)
    requires r'.steps == r.steps
    ensures Results(r') == Results(r)
  {
  }

  lemma {:induction false} GrownTwice(a: Rep, b: Rep, c: Rep, rows: seq<string>, more: seq<string>)
    requires Grown(a, b, rows) && Grown(b, c, more)
    ensures Grown(a, c, rows + more)
  {
    hide Results;
    assert a.buf.rows + rows + more == a.buf.rows + (rows + more);
  }

  /** The stream adds exactly the emitted lines, each masked with what was registered by then. */
  lemma {:induction false} FedRowsAreStored(r: Rep, cmd: Commands, lines: seq<string>)
    ensures
      var (r', cmd') := FedAll(r, cmd, lines);
      var (rows, after, secrets) := Stored(r.secrets, cmd, lines);
      Grown(r, r', rows) && cmd' == after && r'.secrets == secrets
    decreases |lines|
  {
    hide Process, Mask, Fed, Results, Grown;
    if lines == [] {
      NothingGrown(r);
    } else {
      FedRowIsStored(r, cmd, lines[0]);
      var (m, cmd') := Fed(r, cmd, lines[0]);
      FedRowsAreStored(m, cmd', lines[1..]);
      var more := Stored(m.secrets, cmd', lines[1..]).0;
      var first :=
        match cmd
        case Ignored => [Mask(r.secrets, lines[0])]
        case Handled(stop, debug) =>
          var (p, emit) := Process(Proc(stop, r.secrets), debug, lines[0]);
          if emit.Some? then [Mask(p.secrets, emit.value)] else [];
      GrownTwice(r, m, FedAll(m, cmd', lines[1..]).0, first, more);
    }
  }

  lemma {:induction false} NothingGrown(r: Rep)
    ensures Grown(r, r, [])
  {
    assert r.buf.rows + [] == r.buf.rows;
  }

  /** With or without commands, no row stored after a hideable secret was registered contains it. */
  lemma {:induction false} StreamedRowsHideSecrets(r: Rep, cmd: Commands, lines: seq<string>, x: string)
    requires AllLong(r.secrets) && x in r.secrets && Hideable(x)
    ensures
      var r' := FedAll(r, cmd, lines).0;
      r.buf.rows <= r'.buf.rows && forall i :: |r.buf.rows| <= i < |r'.buf.rows| ==> !Occurs(x, r'.buf.rows[i])
  {
    hide FedAll, StoreAll, Occurs, Hideable, Mask, Results;
    FedRowsAreStored(r, cmd, lines);
    match cmd
    case Ignored => MaskAllHides(r.secrets, lines, x);
    case Handled(stop, debug) => StoredRowsHideSecrets(Proc(stop, r.secrets), debug, lines, x);
  }

  lemma {:induction false} MaskAllHides(secrets: seq<string>, lines: seq<string>, x: string)
    requires AllLong(secrets) && x in secrets && Hideable(x)
    ensures forall row <- MaskAll(secrets, lines) :: !Occurs(x, row)
    decreases |lines|
  {
    hide Occurs, Hideable, Mask;
    if lines != [] {
      MaskHides(secrets, lines[0], x);
      MaskAllHides(secrets, lines[1..], x);
    }
  }
}
