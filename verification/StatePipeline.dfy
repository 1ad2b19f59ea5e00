/**
 From the state file to the reporter: the tail that re-emits whole lines (cmd/entrypoint/tail.go),
 the watcher that decodes and routes them (pkg/k8s/watcher.go), and the results the reporter ends
 up with.  The JSON encoding is any encoding that decodes back and puts no newline in a line.
 */
module StatePipeline {
  import opened Wrappers
  import opened Text
  import opened Entrypoint
  import opened Reporting

  // ---------------------------------------------------------------- lines

  /** The newline-terminated lines of s, each with its newline. */
  function Lines(s: string): seq<string>
    decreases |s|
  {
    var k := Index(s, "\n");
    if k < 0 then [] else [s[..k + 1]] + Lines(s[k + 1..])
  }

  /** What follows the last newline of s. */
  function Remainder(s: string): (r: string)
    ensures Index(r, "\n") < 0
    decreases |s|
  {
    var k := Index(s, "\n");
    if k < 0 then s else Remainder(s[k + 1..])
  }

  lemma {:induction false} IndexInPrefix(a: string, b: string)
    requires Index(a, "\n") >= 0
    ensures Index(a + b, "\n") == Index(a, "\n") < |a|
  {
    var k := Index(a, "\n");
    assert (a + b)[k..k + 1] == a[k..k + 1];
    assert At(a + b, "\n", k);
    forall j | 0 <= j < k ensures !At(a + b, "\n", j) {
      assert (a + b)[j..j + 1] == a[j..j + 1];
      assert !At(a, "\n", j);
    }
  }

  lemma {:induction false} LinesUnfold(s: string)
    ensures
      var k := Index(s, "\n");
      if k < 0 then Lines(s) == [] && Remainder(s) == s
      else k < |s| && Lines(s) == [s[..k + 1]] + Lines(s[k + 1..]) && Remainder(s) == Remainder(s[k + 1..])
  {
  }

  /** Lines can be found piecewise, carrying the partial line over. */
  lemma {:induction false} LinesConcat(a: string, b: string)
    ensures Lines(a + b) == Lines(a) + Lines(Remainder(a) + b)
    ensures Remainder(a + b) == Remainder(Remainder(a) + b)
    decreases |a|
  {
    hide Index, At, Lines, Remainder;
    var k := Index(a, "\n");
    LinesUnfold(a);
    LinesUnfold(a + b);
    if k < 0 {
      assert [] + Lines(a + b) == Lines(a + b);
    } else {
      IndexInPrefix(a, b);
      assert (a + b)[..k + 1] == a[..k + 1];
      assert (a + b)[k + 1..] == a[k + 1..] + b;
      LinesConcat(a[k + 1..], b);
      assert [a[..k + 1]] + (Lines(a[k + 1..]) + Lines(Remainder(a) + b)) == Lines(a) + Lines(Remainder(a) + b);
    }
  }

  /** A line: a newline at its end and nowhere else. */
  predicate IsLine(s: string) {
    s != "" && Index(s, "\n") == |s| - 1
  }

  lemma {:induction false} AtConcat(a: string, b: string, j: int)
    ensures At(a + b, "\n", j) <==> At(a, "\n", j) || At(b, "\n", j - |a|)
  {
    var s := a + b;
    if 0 <= j < |a| {
      assert s[j..j + 1] == a[j..j + 1];
    } else if |a| <= j < |s| {
      assert s[j..j + 1] == b[j - |a|..j - |a| + 1];
    }
  }

  lemma {:induction false} IndexOfConcat(a: string, b: string)
    requires Index(a, "\n") < 0
    ensures Index(a + b, "\n") == if Index(b, "\n") < 0 then -1 else |a| + Index(b, "\n")
  {
    hide At;
    var k := Index(b, "\n");
    forall j ensures At(a + b, "\n", j) <==> At(b, "\n", j - |a|) {
      AtConcat(a, b, j);
      assert !At(a, "\n", j);
    }
    AtInRange(a + b);
    AtInRange(b);
    if k >= 0 {
      assert At(a + b, "\n", |a| + k);
    }
  }

  lemma {:induction false} AtInRange(s: string)
    ensures forall j :: At(s, "\n", j) ==> 0 <= j < |s|
  {
  }

  lemma {:induction false} PartialThenLine(p: string, line: string)
    requires Index(p, "\n") < 0 && IsLine(line)
    ensures Lines(p + line) == [p + line] && Remainder(p + line) == "" && IsLine(p + line)
  {
    hide Lines, Remainder, Index, At;
    var s := p + line;
    LinesUnfold(s);
    IndexOfConcat(p, line);
    assert s[..|s|] == s && s[|s|..] == "";
    EmptyHasNoLines();
  }

  lemma {:induction false} EmptyHasNoLines()
    ensures Lines("") == [] && Remainder("") == ""
  {
  }

  lemma {:induction false} FirstLine(s: string)
    requires Index(s, "\n") >= 0
    ensures Index(s, "\n") < |s| && IsLine(s[..Index(s, "\n") + 1])
  {
    var k := Index(s, "\n");
    var line := s[..k + 1];
    assert line[k..k + 1] == s[k..k + 1];
    assert At(line, "\n", k);
    forall j | 0 <= j < k ensures !At(line, "\n", j) {
      assert line[j..j + 1] == s[j..j + 1];
      assert !At(s, "\n", j);
    }
  }

  lemma {:induction false} NoNewlineAdds(a: string, b: string)
    requires Index(b, "\n") < 0
    ensures Lines(a + b) == Lines(a) && Remainder(a + b) == Remainder(a) + b
  {
    hide Lines, Remainder, Index, At;
    LinesConcat(a, b);
    LinesUnfold(Remainder(a) + b);
    IndexOfConcat(Remainder(a), b);
  }

  // ---------------------------------------------------------------- the tail

  function Drop(lines: seq<string>, n: nat): seq<string> {
    if n < |lines| then lines[n..] else []
  }

  /** The tail's output for the bytes it has read. */
  function TailOf(read: string, skip: nat): string {
    Concat(Drop(Lines(read), skip))
  }

  lemma {:induction false} TailGrows(read: string, skip: nat, more: string, line: string)
    requires Lines(read + more) == Lines(read) + [line]
    ensures TailOf(read + more, skip) == if |Lines(read)| < skip then "" else TailOf(read, skip) + line
  {
    var ls := Lines(read);
    if |ls| >= skip {
      assert Drop(ls + [line], skip) == Drop(ls, skip) + [line];
      ConcatConcat(Drop(ls, skip), [line]);
      assert [line][1..] == [] && line + "" == line;
    }
  }

  /** One full line read. */
  lemma {:induction false} ReadLine(read: string, rest: string, line: string, after: string, skip: nat)
    requires 0 <= Index(rest, "\n") < |rest|
    requires line == rest[..Index(rest, "\n") + 1] && after == rest[Index(rest, "\n") + 1..]
    ensures |Lines(read + line)| == |Lines(read)| + 1
    ensures Remainder(read + line) == ""
    ensures (read + line) + after == read + rest
    ensures |Lines(read)| < skip ==> TailOf(read + line, skip) == TailOf(read, skip) == ""
    ensures |Lines(read)| >= skip ==> TailOf(read + line, skip) == TailOf(read, skip) + (Remainder(read) + line)
  {
    hide Lines, Remainder, Index, At, IsLine;
    FirstLine(rest);
    LinesConcat(read, line);
    PartialThenLine(Remainder(read), line);
    TailGrows(read, skip, line, Remainder(read) + line);
    assert rest == line + after;
    assert (read + line) + after == read + (line + after);
  }

  /** End of file: the partial line is carried over. */
  lemma {:induction false} ReadPartial(read: string, rest: string, skip: nat)
    requires Index(rest, "\n") < 0
    ensures Lines(read + rest) == Lines(read) && Remainder(read + rest) == Remainder(read) + rest
    ensures TailOf(read + rest, skip) == TailOf(read, skip)
  {
    NoNewlineAdds(read, rest);
  }

  /** The loop invariant of the tail, where `read` is every byte consumed so far. */
  ghost predicate TailState(read: string, pending: string, skipped: nat, out: string, skip: nat) {
    && pending == Remainder(read)
    && skipped == (if |Lines(read)| < skip then |Lines(read)| else skip)
    && out == TailOf(read, skip)
  }

  /** read and rest together are the first i + 1 pieces. */
  ghost predicate ReadUpTo(pieces: seq<string>, i: nat, read: string, rest: string)
    requires i < |pieces|
  {
    read + rest == Concat(pieces[..i + 1])
  }

  lemma {:induction false} NothingRead(pieces: seq<string>, skip: nat)
    requires pieces != []
    ensures TailState("", "", 0, "", skip) && ReadUpTo(pieces, 0, "", pieces[0])
  {
    EmptyHasNoLines();
    assert pieces[..1] == [] + [pieces[0]];
    ConcatOne([], pieces[0]);
  }

  lemma {:induction false} AfterLine(
    pieces: seq<string>, i: nat, read: string, rest: string, pending: string, skipped: nat, out: string, skip: nat)
    requires i < |pieces| && ReadUpTo(pieces, i, read, rest) && TailState(read, pending, skipped, out, skip)
    requires 0 <= Index(rest, "\n") < |rest|
    ensures
      var line, after := rest[..Index(rest, "\n") + 1], rest[Index(rest, "\n") + 1..];
      && ReadUpTo(pieces, i, read + line, after)
      && (if skipped < skip then TailState(read + line, "", skipped + 1, out, skip)
          else TailState(read + line, "", skipped, out + (pending + line), skip))
  {
    hide Index, At, Lines, Remainder, TailOf, Concat;
    ReadLine(read, rest, rest[..Index(rest, "\n") + 1], rest[Index(rest, "\n") + 1..], skip);
  }

  lemma {:induction false} AfterEof(read: string, rest: string, pending: string, skipped: nat, out: string, skip: nat)
    requires Index(rest, "\n") < 0 && TailState(read, pending, skipped, out, skip)
    ensures TailState(read + rest, pending + rest, skipped, out, skip)
  {
    hide Index, At, Lines, Remainder, TailOf;
    ReadPartial(read, rest, skip);
  }

  /** What the tail has to read. */
  function Readable(pieces: seq<string>, once: bool): string
    requires pieces != []
  {
    if once then pieces[0] else Concat(pieces)
  }

  /** The output is the tail of some part of it, read from the start. */
  ghost predicate IsTailOfRead(pieces: seq<string>, once: bool, skip: nat, read: string, out: string)
    requires pieces != []
  {
    read <= (if once then pieces[0] else Concat(pieces)) && out == TailOf(read, skip)
  }

  lemma {:induction false} ConcatOne(a: seq<string>, x: string)
    ensures Concat(a + [x]) == Concat(a) + x
  {
    ConcatConcat(a, [x]);
    assert [x][1..] == [] && x + "" == x;
  }

  lemma {:induction false} NextPiece(pieces: seq<string>, i: nat, read: string, rest: string)
    requires i + 1 < |pieces| && ReadUpTo(pieces, i, read, rest)
    ensures ReadUpTo(pieces, i + 1, read + rest, pieces[i + 1])
  {
    assert pieces[..i + 2] == pieces[..i + 1] + [pieces[i + 1]];
    ConcatOne(pieces[..i + 1], pieces[i + 1]);
  }

  lemma {:induction false} WholeReads(
    pieces: seq<string>, i: nat, once: bool, read: string, rest: string,
    pending: string, skipped: nat, out: string, skip: nat)
    requires i < |pieces| && (once ==> i == 0) && (once || i + 1 == |pieces|)
    requires ReadUpTo(pieces, i, read, rest) && TailState(read + rest, pending, skipped, out, skip)
    ensures out == TailOf(Readable(pieces, once), skip)
  {
    hide TailOf, Lines, Remainder;
    if once {
      assert pieces[..i + 1] == [] + [pieces[0]];
      ConcatOne([], pieces[0]);
      assert Concat([]) + pieces[0] == pieces[0];
    } else {
      assert pieces[..i + 1] == pieces;
    }
  }

  lemma {:induction false} LinesOfPrefix(p: string, s: string)
    requires p <= s
    ensures Lines(p) <= Lines(s)
  {
    assert s == p + s[|p|..];
    LinesConcat(p, s[|p|..]);
  }

  lemma {:induction false} TailOfPrefix(read: string, all: string, skip: nat)
    requires read <= all
    ensures TailOf(read, skip) <= TailOf(all, skip)
  {
    hide Lines;
    LinesOfPrefix(read, all);
    var a, b := Drop(Lines(read), skip), Drop(Lines(all), skip);
    assert b == a + b[|a|..];
    ConcatConcat(a, b[|a|..]);
  }

  lemma {:induction false} ReadSoFar(pieces: seq<string>, i: nat, once: bool, read: string, rest: string)
    requires i < |pieces| && (once ==> i == 0) && ReadUpTo(pieces, i, read, rest)
    ensures read + rest <= Readable(pieces, once)
  {
    if once {
      assert pieces[..1] == [] + [pieces[0]];
      ConcatOne([], pieces[0]);
    } else {
      assert pieces == pieces[..i + 1] + pieces[i + 1..];
      ConcatConcat(pieces[..i + 1], pieces[i + 1..]);
    }
  }

  /** A write that fails has written no more than the line. */
  lemma {:induction false} BrokenWrite(
    pieces: seq<string>, i: nat, once: bool, read: string, rest: string,
    pending: string, skipped: nat, out: string, skip: nat, n: nat)
    requires i < |pieces| && (once ==> i == 0) && ReadUpTo(pieces, i, read, rest)
    requires TailState(read, pending, skipped, out, skip) && skipped >= skip
    requires 0 <= Index(rest, "\n") < |rest| && n <= |pending + rest[..Index(rest, "\n") + 1]|
    ensures out + (pending + rest[..Index(rest, "\n") + 1])[..n] <= TailOf(Readable(pieces, once), skip)
  {
    hide TailOf, Index, Lines, Remainder, Readable, ReadUpTo;
    var k := Index(rest, "\n");
    var line := rest[..k + 1];
    var full := pending + line;
    AfterLine(pieces, i, read, rest, pending, skipped, out, skip);
    ReadSoFar(pieces, i, once, read + line, rest[k + 1..]);
    assert read + line <= (read + line) + rest[k + 1..];
    TailOfPrefix(read + line, Readable(pieces, once), skip);
    assert out + full[..n] <= out + full;
  }

  /** A call that stops between two lines has emitted the tail of what it has read. */
  lemma {:induction false} StopsHere(
    pieces: seq<string>, i: nat, once: bool, read: string, rest: string,
    pending: string, skipped: nat, out: string, skip: nat)
    requires i < |pieces| && (once ==> i == 0) && ReadUpTo(pieces, i, read, rest)
    requires TailState(read, pending, skipped, out, skip)
    ensures IsTailOfRead(pieces, once, skip, read, out) && out <= TailOf(Readable(pieces, once), skip)
  {
    hide TailOf, Lines, Remainder, ReadUpTo, Concat;
    ReadSoFar(pieces, i, once, read, rest);
    assert read <= read + rest;
    TailOfPrefix(read, Readable(pieces, once), skip);
  }

  datatype TailEnd = AtEnd | Interrupted | WriteFailed

  /** What cuts a tail short: the context found done after so many rounds; a write failing after so many bytes. */
  datatype Trouble = Trouble(rounds: Option<nat>, write: Option<nat>, bytes: nat)

  /**
   runTail.  `pieces` is what the file has to give between one end-of-file and the next; in follow
   mode there can be any number of them.  At its end the output is the complete lines after the
   skipped ones, wherever the reads were cut; a partial last line is never emitted.  A cancelled call
   has emitted that of what it has read, and a failed write leaves a prefix.
   */
  method RunTail(pieces: seq<string>, once: bool, skip: nat, trouble: Trouble) returns (out: string, end: TailEnd)
    requires pieces != []
    ensures out <= TailOf(if once then pieces[0] else Concat(pieces), skip)
    ensures end.AtEnd? ==> out == TailOf(if once then pieces[0] else Concat(pieces), skip)
    ensures end.Interrupted? ==> trouble.rounds.Some? && exists read :: IsTailOfRead(pieces, once, skip, read, out)
    ensures end.WriteFailed? ==> trouble.write.Some?
  {
    hide Index, At, TailState, ReadUpTo, TailOf, IsTailOfRead, Concat;
    var i, rest := 0, pieces[0];
    var pending, skipped := "", 0;
    var rounds, writes := 0, 0;
    ghost var read := "";
    out := "";
    NothingRead(pieces, skip);
    while true
      invariant 0 <= i < |pieces| && (once ==> i == 0)
      invariant ReadUpTo(pieces, i, read, rest)
      invariant TailState(read, pending, skipped, out, skip)
      decreases |pieces| - i, |rest|
    {
      if trouble.rounds == Some(rounds) {
        StopsHere(pieces, i, once, read, rest, pending, skipped, out, skip);
        return out, Interrupted;
      }
      rounds := rounds + 1;
      var k := Index(rest, "\n");
      if k >= 0 {
        FirstLine(rest);
        AfterLine(pieces, i, read, rest, pending, skipped, out, skip);
        var line := rest[..k + 1];
        var full := pending + line;
        if skipped < skip {
          skipped := skipped + 1;
        } else {
          if trouble.write == Some(writes) {
            var n := if trouble.bytes < |full| then trouble.bytes else |full|;
            BrokenWrite(pieces, i, once, read, rest, pending, skipped, out, skip, n);
            return out + full[..n], WriteFailed;
          }
          out := out + full;
          writes := writes + 1;
        }
        rest, pending, read := rest[k + 1..], "", read + line;
        continue;
      }
      AfterEof(read, rest, pending, skipped, out, skip);
      pending := pending + rest;
      if once || i + 1 == |pieces| {
        WholeReads(pieces, i, once, read, rest, pending, skipped, out, skip);
        return out, AtEnd;
      }
      NextPiece(pieces, i, read, rest);
      read := read + rest;
      i := i + 1;
      rest := pieces[i];
    }
  }

  // ---------------------------------------------------------------- the watcher

  /** json.Marshal and json.Unmarshal of a state event. */
  datatype Codec = Codec(enc: StateEvent -> string, dec: string -> Option<StateEvent>)

  function TrimNewline(s: string): string {
    if s != "" && (s[|s| - 1] == '\n' || s[|s| - 1] == '\r') then TrimNewline(s[..|s| - 1]) else s
  }

  /** An encoded event has no newline and does not end in a carriage return; it decodes back. */
  ghost predicate Faithful(c: Codec) {
    forall e ::
      && c.dec(c.enc(e)) == Some(e)
      && c.enc(e) != "" && Index(c.enc(e), "\n") < 0 && TrimNewline(c.enc(e)) == c.enc(e)
  }

  // A codec that is faithful, in unary.

  function Ones(n: nat): string {
    seq(n, _ => '1')
  }

  function UnaryEncode(e: StateEvent): string {
    match e
    case Start(i) => "s" + Ones(i)
    case Skip(i) => "k" + Ones(i)
    case End(i, x) => (if x < 0 then "n" else "e") + Ones(i) + "," + Ones(if x < 0 then -x else x)
  }

  function UnaryDecode(s: string): Option<StateEvent> {
    var k := Index(s, ",");
    if s == "" then None
    else if s[0] == 's' then Some(Start(|s| - 1))
    else if s[0] == 'k' then Some(Skip(|s| - 1))
    else if 0 < k < |s| then Some(End(k - 1, if s[0] == 'n' then -(|s| - k - 1) else |s| - k - 1))
    else None
  }

  lemma {:induction false} UnaryRoundTrip(e: StateEvent)
    ensures UnaryDecode(UnaryEncode(e)) == Some(e)
  {
    hide Index;
    if e.End? {
      var x := if e.exitCode < 0 then -e.exitCode else e.exitCode;
      IndexAfter((if e.exitCode < 0 then "n" else "e") + Ones(e.step), ",", Ones(x));
    }
  }

  lemma {:induction false} NoNewlineIndex(s: string)
    requires s != "" && forall i :: 0 <= i < |s| ==> s[i] != '\n' && s[i] != '\r'
    ensures Index(s, "\n") < 0 && TrimNewline(s) == s
  {
    hide Index;
    forall j ensures !At(s, "\n", j) {
      if 0 <= j < |s| {
        assert s[j..j + 1] == [s[j]];
      }
    }
  }

  lemma {:induction false} FaithfulCodecExists() returns (c: Codec)
    ensures Faithful(c)
  {
    hide Index, TrimNewline, UnaryDecode;
    c := Codec(UnaryEncode, UnaryDecode);
    forall e: StateEvent
      ensures c.dec(c.enc(e)) == Some(e) && c.enc(e) != ""
      ensures Index(c.enc(e), "\n") < 0 && TrimNewline(c.enc(e)) == c.enc(e)
    {
      UnaryRoundTrip(e);
      NoNewlineIndex(UnaryEncode(e));
    }
  }

  /** The event on one line; blank and malformed lines carry none. */
  function EventOn(c: Codec, line: string): Option<StateEvent> {
    var trimmed := TrimNewline(line);
    if trimmed == "" then None else c.dec(trimmed)
  }

  function EventsOn(c: Codec, lines: seq<string>): seq<StateEvent> {
    if lines == [] then []
    else (if EventOn(c, lines[0]).Some? then [EventOn(c, lines[0]).value] else []) + EventsOn(c, lines[1..])
  }

  /** streamStateFileWith on what it gets to read before end of file or cancellation. */
  function Routed(c: Codec, stream: string): seq<StateEvent> {
    EventsOn(c, Lines(stream))
  }

  /** writeState: one line per event. */
  function StateLines(c: Codec, es: seq<StateEvent>): seq<string> {
    seq(|es|, i requires 0 <= i < |es| => c.enc(es[i]) + "\n")
  }

  function StateFile(c: Codec, es: seq<StateEvent>): string {
    Concat(StateLines(c, es))
  }

  lemma {:induction false} LinesOfLines(ls: seq<string>)
    requires forall l <- ls :: IsLine(l)
    ensures Lines(Concat(ls)) == ls && Remainder(Concat(ls)) == ""
    decreases |ls|
  {
    hide IsLine, Lines, Remainder;
    if ls == [] {
      EmptyHasNoLines();
    } else {
      var l := ls[0];
      assert l in ls;
      LinesOfLines(ls[1..]);
      NoNewlineInEmpty();
      PartialThenLine("", l);
      assert "" + l == l;
      LinesConcat(l, Concat(ls[1..]));
      assert "" + Concat(ls[1..]) == Concat(ls[1..]);
      assert [l] + ls[1..] == ls;
    }
  }

  lemma {:induction false} NoNewlineInEmpty()
    ensures Index("", "\n") < 0
  {
  }

  lemma {:induction false} EveryPieceIsLine(s: string)
    ensures forall l <- Lines(s) :: IsLine(l)
    decreases |s|
  {
    var k := Index(s, "\n");
    if k >= 0 {
      FirstLine(s);
      EveryPieceIsLine(s[k + 1..]);
    }
  }

  lemma {:induction false} StateLineDecodes(c: Codec, e: StateEvent)
    requires Faithful(c)
    ensures IsLine(c.enc(e) + "\n") && EventOn(c, c.enc(e) + "\n") == Some(e)
  {
    var s := c.enc(e) + "\n";
    assert c.dec(c.enc(e)) == Some(e);
    assert s[..|s| - 1] == c.enc(e);
    NewlineIsLine();
    PartialThenLine(c.enc(e), "\n");
  }

  lemma {:induction false} NewlineIsLine()
    ensures IsLine("\n")
  {
    assert "\n"[0..1] == "\n";
    assert At("\n", "\n", 0);
  }

  lemma {:induction false} EventsOnStateLines(c: Codec, es: seq<StateEvent>)
    requires Faithful(c)
    ensures (forall l <- StateLines(c, es) :: IsLine(l)) && EventsOn(c, StateLines(c, es)) == es
    decreases |es|
  {
    hide IsLine, EventOn, Faithful;
    forall l <- StateLines(c, es) ensures IsLine(l) {
      var i :| 0 <= i < |es| && StateLines(c, es)[i] == l;
      StateLineDecodes(c, es[i]);
    }
    if es != [] {
      StateLineDecodes(c, es[0]);
      EventsOnStateLines(c, es[1..]);
      assert StateLines(c, es)[1..] == StateLines(c, es[1..]);
      assert [es[0]] + es[1..] == es;
    }
  }

  function Dropped(es: seq<StateEvent>, n: nat): seq<StateEvent> {
    if n < |es| then es[n..] else []
  }

  lemma {:induction false} DroppedLines(c: Codec, es: seq<StateEvent>, skip: nat)
    ensures Drop(StateLines(c, es), skip) == StateLines(c, Dropped(es, skip))
  {
  }

  /** The lines that get through a tail and a stream, each cut off anywhere. */
  lemma {:induction false} EmittedLines(ls: seq<string>, read: string, skip: nat, stream: string)
    requires forall l <- ls :: IsLine(l)
    requires read <= Concat(ls) && stream <= TailOf(read, skip)
    ensures Lines(stream) <= Drop(ls, skip)
    ensures read == Concat(ls) && stream == TailOf(read, skip) ==> Lines(stream) == Drop(ls, skip)
  {
    hide Lines, IsLine, Concat;
    LinesOfLines(ls);
    LinesOfPrefix(read, Concat(ls));
    var emitted := Drop(Lines(read), skip);
    EveryPieceIsLine(read);
    LinesOfLines(emitted);
    LinesOfPrefix(stream, TailOf(read, skip));
    assert emitted <= Drop(ls, skip);
  }

  /**
   However the state file grew and was read, and wherever the watcher's stream was cut off, the
   routed events are a prefix, in order, of the events written after the skipped ones; they are
   all of them when everything was read.
   */
  lemma {:induction false} RoutedEventsArePrefix(c: Codec, es: seq<StateEvent>, read: string, skip: nat, stream: string)
    requires Faithful(c)
    requires read <= StateFile(c, es) && stream <= TailOf(read, skip)
    ensures Routed(c, stream) <= Dropped(es, skip)
    ensures read == StateFile(c, es) && stream == TailOf(read, skip) ==> Routed(c, stream) == Dropped(es, skip)
  {
    hide Faithful, Lines, IsLine, EventsOn, Concat, TailOf;
    EventsOnStateLines(c, es);
    EmittedLines(StateLines(c, es), read, skip, stream);
    var seen, rest := Lines(stream), Dropped(es, skip);
    DroppedLines(c, es, skip);
    assert seen == StateLines(c, rest)[..|seen|] == StateLines(c, rest[..|seen|]);
    EventsOnStateLines(c, rest[..|seen|]);
    if read == StateFile(c, es) && stream == TailOf(read, skip) {
      assert rest[..|seen|] == rest;
    }
  }

  // ---------------------------------------------------------------- results

  /** routeStateEvent. */
  function OpOf(e: StateEvent): Op {
    match e
    case Start(i) => Begin(i)
    case End(i, exitCode) => Finish(i, if exitCode == 0 then Success else Failure)
    case Skip(i) => Finish(i, Skipped)
  }

  function OpsOf(es: seq<StateEvent>): seq<Op> {
    seq(|es|, i requires 0 <= i < |es| => OpOf(es[i]))
  }

  method RouteStateEvent(event: StateEvent, rep: Reporter)
    modifies rep
    ensures rep.Value() == Apply(old(rep.Value()), OpOf(event))
  {
    match event
    case Start(i) => rep.StartStep(i);
    case End(i, exitCode) =>
      var result := Success;
      if exitCode != 0 {
        result := Failure;
      }
      rep.FinishStep(i, result);
    case Skip(i) => rep.FinishStep(i, Skipped);
  }

  lemma {:induction false} RoutedNext(c: Codec, s: string)
    requires Index(s, "\n") >= 0
    ensures
      var k := Index(s, "\n");
      && k < |s| && |Lines(s)| == 1 + |Lines(s[k + 1..])|
      && var e := EventOn(c, s[..k + 1]);
         Routed(c, s) == (if e.Some? then [e.value] else []) + Routed(c, s[k + 1..])
  {
    hide Index, At, EventOn, Lines;
    LinesUnfold(s);
    var k, ls := Index(s, "\n"), Lines(s);
    assert ls[0] == s[..k + 1] && ls[1..] == Lines(s[k + 1..]);
  }

  lemma {:induction false} ApplyCons(r: Rep, e: StateEvent, es: seq<StateEvent>)
    ensures ApplyAll(r, OpsOf([e] + es)) == ApplyAll(Apply(r, OpOf(e)), OpsOf(es))
  {
    hide Apply, OpOf;
    var ops := OpsOf([e] + es);
    assert ops[0] == OpOf(e) && ops[1..] == OpsOf(es);
  }

  lemma {:induction false} ApplyNext(r: Rep, c: Codec, s: string)
    requires Index(s, "\n") >= 0
    ensures
      var k := Index(s, "\n");
      && k < |s| && |Lines(s)| == 1 + |Lines(s[k + 1..])|
      && ApplyAll(r, OpsOf(Routed(c, s))) ==
         var e := EventOn(c, s[..k + 1]);
         ApplyAll(if e.Some? then Apply(r, OpOf(e.value)) else r, OpsOf(Routed(c, s[k + 1..])))
  {
    hide Index, At, Apply, ApplyAll, OpOf, OpsOf, EventOn, Lines, Routed;
    RoutedNext(c, s);
    var k := Index(s, "\n");
    var e, more := EventOn(c, s[..k + 1]), Routed(c, s[k + 1..]);
    if e.Some? {
      ApplyCons(r, e.value, more);
    } else {
      assert [] + more == more;
    }
  }

  /** streamStateFileWith: routes the event of every whole line it reads and counts the lines. */
  method StreamStateFile(c: Codec, stream: string, rep: Reporter) returns (lastOffset: nat)
    modifies rep
    ensures rep.Value() == ApplyAll(old(rep.Value()), OpsOf(Routed(c, stream)))
    ensures lastOffset == |Lines(stream)|
  {
    hide Index, At, Lines, Apply, Routed, OpOf;
    lastOffset := 0;
    var rest := stream;
    ghost var goal := ApplyAll(rep.Value(), OpsOf(Routed(c, stream)));
    while Index(rest, "\n") >= 0
      invariant goal == ApplyAll(rep.Value(), OpsOf(Routed(c, rest)))
      invariant lastOffset + |Lines(rest)| == |Lines(stream)|
      decreases |rest|
    {
      ApplyNext(rep.Value(), c, rest);
      var k := Index(rest, "\n");
      var trimmed := TrimNewline(rest[..k + 1]);
      rest := rest[k + 1..];
      lastOffset := lastOffset + 1;
      if trimmed == "" {
        continue;
      }
      var ev := c.dec(trimmed);
      if ev.Some? {
        RouteStateEvent(ev.value, rep);
      }
    }
    NothingLeft(rep.Value(), c, rest);
  }

  lemma {:induction false} NothingLeft(r: Rep, c: Codec, s: string)
    requires Index(s, "\n") < 0
    ensures Lines(s) == [] && ApplyAll(r, OpsOf(Routed(c, s))) == r
  {
    LinesUnfold(s);
  }

  /** The events behind a reporter's operations; log lines, masks and acks come from elsewhere. */
  ghost predicate Carries(ops: seq<Op>, es: seq<StateEvent>)
    decreases |ops|
  {
    if ops == [] then es == []
    else if ops[0].Begin? || ops[0].Finish? then es != [] && ops[0] == OpOf(es[0]) && Carries(ops[1..], es[1..])
    else Carries(ops[1..], es)
  }

  function Results(r: Rep): seq<Outcome> {
    seq(|r.steps|, i requires 0 <= i < |r.steps| => r.steps[i].result)
  }

  function ResultsAfter(rs: seq<Outcome>, es: seq<StateEvent>): seq<Outcome>
    decreases |es|
  {
    if es == [] then rs
    else
      var op := OpOf(es[0]);
      ResultsAfter(if op.Finish? && 0 <= op.step < |rs| then rs[op.step := op.result] else rs, es[1..])
  }

  lemma {:induction false} ResultsStep(r: Rep, op: Op)
    ensures Results(Apply(r, op)) ==
            if op.Finish? && 0 <= op.step < |Results(r)| then Results(r)[op.step := op.result] else Results(r)
  {
  }

  /** Only the routed events set results, whatever log traffic is interleaved with them. */
  lemma {:induction false} ResultsFollowEvents(r: Rep, ops: seq<Op>, es: seq<StateEvent>)
    requires Carries(ops, es)
    ensures Results(ApplyAll(r, ops)) == ResultsAfter(Results(r), es)
    decreases |ops|
  {
    hide Apply, Results;
    if ops != [] {
      ResultsStep(r, ops[0]);
      ResultsFollowEvents(Apply(r, ops[0]), ops[1..], if ops[0].Begin? || ops[0].Finish? then es[1..] else es);
    }
  }

  lemma {:induction false} ResultsAfterSnoc(rs: seq<Outcome>, a: seq<StateEvent>, b: seq<StateEvent>)
    ensures ResultsAfter(rs, a + b) == ResultsAfter(ResultsAfter(rs, a), b)
    decreases |a|
  {
    if a == [] {
      assert a + b == b;
    } else {
      assert (a + b)[0] == a[0] && (a + b)[1..] == a[1..] + b;
      var op := OpOf(a[0]);
      ResultsAfterSnoc(if op.Finish? && 0 <= op.step < |rs| then rs[op.step := op.result] else rs, a[1..], b);
    }
  }

  lemma {:induction false} ResultsAfterNone(rs: seq<Outcome>)
    ensures ResultsAfter(rs, []) == rs
  {
  }

  /** What step i of a run of n steps ends up as. */
  function Expected(m: Manifest, answers: seq<Answer>, n: nat, i: nat): Outcome
    requires n <= |m.steps| == |answers| && i < |m.steps|
  {
    if i >= n then Unspecified
    else if !Runs(m, i, answers[i], RunSteps(m, answers, i).hadFailure) then Skipped
    else if answers[i].exitCode == 0 then Success
    else Failure
  }

  lemma {:induction false} OneGroup(rs: seq<Outcome>, i: nat, exitCode: int)
    requires i < |rs|
    ensures ResultsAfter(rs, [Start(i)] + [End(i, exitCode)]) == rs[i := if exitCode == 0 then Success else Failure]
    ensures ResultsAfter(rs, [Skip(i)]) == rs[i := Skipped]
  {
    var es := [Start(i)] + [End(i, exitCode)];
    var done := rs[i := if exitCode == 0 then Success else Failure];
    assert es[1..] == [End(i, exitCode)] && [End(i, exitCode)][1..] == [] && [Skip(i)][1..] == [];
    assert ResultsAfter(rs, [End(i, exitCode)]) == ResultsAfter(done, []) == done;
  }

  lemma {:induction false} RunResults(m: Manifest, answers: seq<Answer>, n: nat)
    requires n <= |m.steps| == |answers|
    ensures
      var rs := ResultsAfter(seq(|m.steps|, _ => Unspecified), RunSteps(m, answers, n).events);
      |rs| == |m.steps| && forall i :: 0 <= i < |rs| ==> rs[i] == Expected(m, answers, n, i)
    decreases n
  {
    hide Runs, ResultsAfter;
    var init := seq(|m.steps|, _ => Unspecified);
    if n == 0 {
      ResultsAfterNone(init);
    } else {
      RunResults(m, answers, n - 1);
      var before := RunSteps(m, answers, n - 1);
      var a := answers[n - 1];
      var group :=
        if Runs(m, n - 1, a, before.hadFailure) then [Start(n - 1)] + [End(n - 1, a.exitCode)] else [Skip(n - 1)];
      assert RunSteps(m, answers, n).events == before.events + group;
      ResultsAfterSnoc(init, before.events, group);
      OneGroup(ResultsAfter(init, before.events), n - 1, a.exitCode);
    }
  }

  /**
   When the watcher has read everything, the reporter's step results are the emitted exit codes and
   skips, and Close changes only the steps that have neither.
   */
  lemma {:induction false} ReportedResultsMatchRun(
    c: Codec, m: Manifest, answers: seq<Answer>, n: nat, ops: seq<Op>, jobResult: Outcome, i: nat)
    requires Faithful(c) && n <= |m.steps| == |answers| && i < |m.steps|
    requires Carries(ops, Routed(c, TailOf(StateFile(c, RunSteps(m, answers, n).events), 0)))
    ensures
      var r := ApplyAll(NewRep(|m.steps|), ops);
      && |r.steps| == |m.steps| == |Closed(r, jobResult).steps|
      && r.steps[i].result == Expected(m, answers, n, i)
      && Closed(r, jobResult).steps[i].result ==
         if i < n then Expected(m, answers, n, i) else if jobResult.Skipped? then Skipped else Cancelled
  {
    hide ApplyAll, RunSteps, Runs, Carries, Faithful, Routed, TailOf, StateFile;
    var file := StateFile(c, RunSteps(m, answers, n).events);
    RoutedEventsArePrefix(c, RunSteps(m, answers, n).events, file, 0, TailOf(file, 0));
    var r := ApplyAll(NewRep(|m.steps|), ops);
    assert Results(NewRep(|m.steps|)) == seq(|m.steps|, _ => Unspecified);
    ResultsFollowEvents(NewRep(|m.steps|), ops, RunSteps(m, answers, n).events);
    RunResults(m, answers, n);
    assert Results(r)[i] == r.steps[i].result;
  }

  lemma {:induction false} ResultsFromEvents(rs: seq<Outcome>, es: seq<StateEvent>, i: nat)
    requires i < |rs|
    ensures |ResultsAfter(rs, es)| == |rs|
    ensures ResultsAfter(rs, es)[i] == rs[i] || exists e :: e in es && OpOf(e) == Finish(i, ResultsAfter(rs, es)[i])
    decreases |es|
  {
    if es != [] {
      var op := OpOf(es[0]);
      var next := if op.Finish? && 0 <= op.step < |rs| then rs[op.step := op.result] else rs;
      ResultsFromEvents(next, es[1..], i);
      assert es[0] in es && forall e :: e in es[1..] ==> e in es;
    }
  }

  /**
   When the stream is cut off early, so that only some of the events were routed, no step has a
   wrong result: it has the run's own, or none until Close settles it.
   */
  lemma {:induction false} CutOffNeverMisreports(
    c: Codec, m: Manifest, answers: seq<Answer>, n: nat, read: string, stream: string, ops: seq<Op>, i: nat)
    requires Faithful(c) && n <= |m.steps| == |answers| && i < |m.steps|
    requires read <= StateFile(c, RunSteps(m, answers, n).events) && stream <= TailOf(read, 0)
    requires Carries(ops, Routed(c, stream))
    ensures
      var r := ApplyAll(NewRep(|m.steps|), ops);
      && |r.steps| == |m.steps|
      && (r.steps[i].result == Unspecified || r.steps[i].result == Expected(m, answers, n, i))
  {
    hide ApplyAll, RunSteps, Runs, Carries, ResultsAfter, Faithful, Routed, TailOf, StateFile;
    var routed := Routed(c, stream);
    RoutedEventsArePrefix(c, RunSteps(m, answers, n).events, read, 0, stream);
    var r := ApplyAll(NewRep(|m.steps|), ops);
    var init := Results(NewRep(|m.steps|));
    ResultsFollowEvents(NewRep(|m.steps|), ops, routed);
    ResultsFromEvents(init, routed, i);
    assert Results(r)[i] == r.steps[i].result;
    if r.steps[i].result != Unspecified {
      var e :| e in routed && OpOf(e) == Finish(i, r.steps[i].result);
      EventsExactly(m, answers, n, e);
    }
  }

  // ---------------------------------------------------------------- what is shipped

  predicate Ends(e: StateEvent, i: nat) {
    !e.Start? && e.step == i
  }

  /** Of one step a file has one kind of end. */
  ghost predicate Consistent(es: seq<StateEvent>) {
    forall e, f :: e in es && f in es && !e.Start? && !f.Start? && e.step == f.step ==> e == f
  }

  /** A step that ended has the result of one of its ends. */
  lemma {:induction false} ResultIsOfEnd(rs: seq<Outcome>, es: seq<StateEvent>, e: StateEvent, i: nat)
    returns (f: StateEvent)
    requires i < |rs| && e in es && Ends(e, i)
    ensures |ResultsAfter(rs, es)| == |rs|
    ensures f in es && Ends(f, i) && OpOf(f) == Finish(i, ResultsAfter(rs, es)[i])
    decreases |es|
  {
    var op := OpOf(es[0]);
    var next := if op.Finish? && 0 <= op.step < |rs| then rs[op.step := op.result] else rs;
    assert es[0] in es && forall x :: x in es[1..] ==> x in es;
    if g :| g in es[1..] && Ends(g, i) {
      f := ResultIsOfEnd(next, es[1..], g, i);
    } else {
      assert es == [es[0]] + es[1..];
      ResultsFromEvents(next, es[1..], i);
      f := es[0];
      assert e == f;
      assert forall g <- es[1..] :: OpOf(g).Finish? && OpOf(g).step == i ==> Ends(g, i);
    }
  }

  /** What the reporter has for step i after events that are consistent. */
  lemma {:induction false} ResultsExactly(n: nat, ops: seq<Op>, es: seq<StateEvent>, i: nat)
    requires Carries(ops, es) && Consistent(es) && i < n
    ensures
      var r := ApplyAll(NewRep(n), ops);
      && |r.steps| == n
      && (forall x :: End(i, x) in es ==> r.steps[i].result == if x == 0 then Success else Failure)
      && (Skip(i) in es ==> r.steps[i].result == Skipped)
      && ((forall e <- es :: !Ends(e, i)) ==> r.steps[i].result == Unspecified)
  {
    hide ApplyAll, Carries, ResultsAfter;
    var r, init := ApplyAll(NewRep(n), ops), Results(NewRep(n));
    ResultsFollowEvents(NewRep(n), ops, es);
    ResultsFromEvents(init, es, i);
    assert Results(r)[i] == r.steps[i].result;
    if e :| e in es && Ends(e, i) {
      var f := ResultIsOfEnd(init, es, e, i);
      assert e == f;
      assert forall x :: End(i, x) in es ==> Ends(End(i, x), i) && End(i, x) == f;
      assert Skip(i) in es ==> Ends(Skip(i), i) && Skip(i) == f;
    } else {
      assert forall x :: End(i, x) in es ==> Ends(End(i, x), i);
      assert Ends(Skip(i), i);
    }
  }

  lemma {:induction false} RunIsConsistent(m: Manifest, answers: seq<Answer>, n: nat, es: seq<StateEvent>)
    requires n <= |m.steps| == |answers| && es <= RunSteps(m, answers, n).events
    ensures Consistent(es)
  {
    hide RunSteps, Runs;
    forall e, f | e in es && f in es && !e.Start? && !f.Start? && e.step == f.step ensures e == f {
      EventsExactly(m, answers, n, e);
      EventsExactly(m, answers, n, f);
    }
  }

  lemma {:induction false} LaterKeepsResults(r: Rep, ops: seq<Op>)
    requires forall op <- ops :: !op.Finish?
    ensures ApplyAll(r, ops).result == r.result && |ApplyAll(r, ops).steps| == |r.steps|
    ensures forall i :: 0 <= i < |r.steps| ==> ApplyAll(r, ops).steps[i].result == r.steps[i].result
    decreases |ops|
  {
    if ops != [] {
      assert ops[0] in ops;
      LaterKeepsResults(Apply(r, ops[0]), ops[1..]);
    }
  }

  /**
   What the forge is told of step i, for every run of the entrypoint, however much of its state file
   was routed: in every payload the step's own result, if its end or its skip was routed; otherwise
   nothing in an interim payload, and in the terminal one skipped or cancelled, as the job's result
   decides.  Only the terminal payload carries the job's result.
   */
  lemma {:induction false} ShippedResultsMatchFile(
    c: Codec, m: Manifest, answers: seq<Answer>, n: nat, read: string, stream: string,
    ops: seq<Op>, jobResult: Outcome, after: seq<Op>, i: nat)
    requires Faithful(c) && n <= |m.steps| == |answers| && i < |m.steps|
    requires read <= StateFile(c, RunSteps(m, answers, n).events) && stream <= TailOf(read, 0)
    requires Carries(ops, Routed(c, stream)) && forall op <- after :: !op.Finish?
    ensures
      var es, r := Routed(c, stream), ApplyAll(NewRep(|m.steps|), ops);
      var interim, terminal := Payload(r, false), Payload(ApplyAll(Closed(r, jobResult), after), true);
      && interim.result == Unspecified && terminal.result == jobResult
      && |interim.steps| == |terminal.steps| == |m.steps|
      && (forall x :: End(i, x) in es ==>
            interim.steps[i] == terminal.steps[i] == if x == 0 then Success else Failure)
      && (Skip(i) in es ==> interim.steps[i] == terminal.steps[i] == Skipped)
      && ((forall e <- es :: !Ends(e, i)) ==>
            && interim.steps[i] == Unspecified
            && terminal.steps[i] == if jobResult.Skipped? then Skipped else Cancelled)
  {
    hide ApplyAll, RunSteps, Carries, Faithful, Routed, TailOf, StateFile, Consistent;
    var es, r := Routed(c, stream), ApplyAll(NewRep(|m.steps|), ops);
    RoutedEventsArePrefix(c, RunSteps(m, answers, n).events, read, 0, stream);
    assert Dropped(RunSteps(m, answers, n).events, 0) <= RunSteps(m, answers, n).events;
    RunIsConsistent(m, answers, n, es);
    ResultsExactly(|m.steps|, ops, es, i);
    LaterKeepsResults(Closed(r, jobResult), after);
  }

  // ---------------------------------------------------------------- lines that carry no event

  /** A line that is blank or does not decode is passed over, and nothing else. */
  lemma {:induction false} BadLineSkipped(c: Codec, a: seq<string>, line: string, b: seq<string>)
    requires EventOn(c, line).None?
    ensures EventsOn(c, a + [line] + b) == EventsOn(c, a) + EventsOn(c, b)
    decreases |a|
  {
    hide EventOn;
    var all := a + [line] + b;
    if a == [] {
      assert all[0] == line && all[1..] == b;
    } else {
      assert all[0] == a[0] && all[1..] == a[1..] + [line] + b;
      BadLineSkipped(c, a[1..], line, b);
    }
  }

  // ---------------------------------------------------------------- the order of starts

  /** No operation goes back to an earlier step than the current one. */
  ghost predicate StartsForward(r: Rep, ops: seq<Op>)
    decreases |ops|
  {
    ops == [] ||
    (&& (ops[0].Begin? && InRange(r, ops[0].step) ==> r.current <= ops[0].step)
     && StartsForward(Apply(r, ops[0]), ops[1..]))
  }

  ghost predicate Increasing(es: seq<StateEvent>) {
    forall a, b :: 0 <= a < b < |es| && es[b].Start? ==> es[a].step < es[b].step
  }

  lemma {:induction false} IncreasingForward(r: Rep, ops: seq<Op>, es: seq<StateEvent>)
    requires Carries(ops, es) && Increasing(es)
    requires forall e <- es :: e.Start? ==> r.current < e.step
    ensures StartsForward(r, ops)
    decreases |ops|
  {
    if ops != [] {
      var event := ops[0].Begin? || ops[0].Finish?;
      var rest := if event then es[1..] else es;
      if event {
        assert forall i :: 0 <= i < |rest| ==> rest[i] == es[i + 1];
      }
      assert Apply(r, ops[0]).current == if ops[0].Begin? && InRange(r, ops[0].step) then ops[0].step else r.current;
      forall e <- rest | e.Start? ensures Apply(r, ops[0]).current < e.step {
        var i :| 0 <= i < |rest| && rest[i] == e;
        assert e in es;
      }
      hide Apply;
      IncreasingForward(Apply(r, ops[0]), ops[1..], rest);
    }
  }

  /**
   Whatever part of the run's state file reaches the watcher, the reporter's steps start in order:
   what the exactness of the log ranges rests on.
   */
  lemma {:induction false} RoutedStartsAreOrdered(
    c: Codec, m: Manifest, answers: seq<Answer>, n: nat, read: string, stream: string, ops: seq<Op>)
    requires Faithful(c) && n <= |m.steps| == |answers|
    requires read <= StateFile(c, RunSteps(m, answers, n).events) && stream <= TailOf(read, 0)
    requires Carries(ops, Routed(c, stream))
    ensures StartsForward(NewRep(|m.steps|), ops)
  {
    hide Faithful, Routed, TailOf, StateFile, RunSteps, Carries, StartsForward;
    var es := RunSteps(m, answers, n).events;
    var routed := Routed(c, stream);
    RoutedEventsArePrefix(c, es, read, 0, stream);
    forall a, b | 0 <= a < b < |routed| && routed[b].Start? ensures routed[a].step < routed[b].step {
      StartsIncrease(m, answers, n, a, b);
    }
    IncreasingForward(NewRep(|m.steps|), ops, routed);
  }
}
