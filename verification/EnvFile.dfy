/**
 The parser of GITHUB_ENV and GITHUB_OUTPUT files (cmd/entrypoint/envfile.go): KEY=VALUE lines and
 KEY<<DELIMITER heredocs.
 */
module EnvFile {
  import opened Wrappers
  import opened Text

  type Vars = map<string, string>

  datatype Error = NoError | Unclosed | LineTooLong

  datatype Parsed = Parsed(vars: Vars, error: Error)

  /** The longest line a bufio.Scanner with a buffer of one mebibyte returns. */
  const MAX_LINE: nat := 0x10_0000 - 1

  // ---------------------------------------------------------------- scanning

  /** The text between newlines; the last piece only if it is not empty. */
  function RawLines(s: string): seq<string>
    decreases |s|
  {
    if s == "" then []
    else
      var k := Index(s, "\n");
      if k < 0 then [s] else [s[..k]] + RawLines(s[k + 1..])
  }

  function DropCR(line: string): string {
    if line != "" && line[|line| - 1] == '\r' then line[..|line| - 1] else line
  }

  /** The lines the scanner yields before it meets one that is too long. */
  function Scanned(raw: seq<string>): seq<string> {
    if raw == [] || |raw[0]| > MAX_LINE then [] else [DropCR(raw[0])] + Scanned(raw[1..])
  }

  predicate Overflows(raw: seq<string>) {
    exists i :: 0 <= i < |raw| && |raw[i]| > MAX_LINE
  }

  // ---------------------------------------------------------------- parsing

  predicate IsHeader(line: string) {
    var here, eq := Index(line, "<<"), Index(line, "=");
    here > 0 && (eq < 0 || here < eq)
  }

  /** The value of a heredoc and the lines after it, or None if it is not closed. */
  function Heredoc(lines: seq<string>, delim: string, value: string): (r: Option<(string, seq<string>)>)
    ensures r.Some? ==> |r.value.1| < |lines|
  {
    if lines == [] then None
    else if lines[0] == delim then Some((value, lines[1..]))
    else Heredoc(lines[1..], delim, (if |value| > 0 then value + "\n" else value) + lines[0])
  }

  function ParseLines(lines: seq<string>, vars: Vars): Option<Vars>
    decreases |lines|
  {
    if lines == [] then Some(vars)
    else
      var line, rest := lines[0], lines[1..];
      var here, eq := Index(line, "<<"), Index(line, "=");
      if IsHeader(line) then
        match Heredoc(rest, line[here + 2..], "")
        case None => None
        case Some((value, after)) => ParseLines(after, vars[line[..here] := value])
      else if eq > 0 then ParseLines(rest, vars[line[..eq] := line[eq + 1..]])
      else ParseLines(rest, vars)
  }

  /** What parseEnvFile returns; None stands for a file that does not exist. */
  function ParsedFile(content: Option<string>): Parsed {
    if content.None? then Parsed(map[], NoError)
    else
      var raw := RawLines(content.value);
      match ParseLines(Scanned(raw), map[])
      case None => Parsed(map[], Unclosed)
      case Some(vars) => Parsed(vars, if Overflows(raw) then LineTooLong else NoError)
  }

  /** The inner loop: consumes lines from the i-th on up to the delimiter. */
  method ReadHeredoc(lines: seq<string>, start: nat, delim: string) returns (value: string, found: bool, i: nat)
    requires start <= |lines|
    ensures start <= i <= |lines|
    ensures Heredoc(lines[start..], delim, "") == if found then Some((value, lines[i..])) else None
    ensures found ==> start < i
  {
    value, found, i := "", false, start;
    while i < |lines|
      invariant start <= i <= |lines|
      invariant Heredoc(lines[start..], delim, "") == Heredoc(lines[i..], delim, value)
    {
      var heredocLine := lines[i];
      assert lines[i..][0] == heredocLine && lines[i..][1..] == lines[i + 1..];
      i := i + 1;
      if heredocLine == delim {
        found := true;
        return;
      }
      if |value| > 0 {
        value := value + "\n";
      }
      value := value + heredocLine;
    }
  }

  method AnyTooLong(raw: seq<string>) returns (tooLong: bool)
    ensures tooLong == Overflows(raw)
  {
    tooLong := false;
    var j := 0;
    while j < |raw|
      invariant 0 <= j <= |raw|
      invariant tooLong <==> exists k :: 0 <= k < j && |raw[k]| > MAX_LINE
    {
      if |raw[j]| > MAX_LINE {
        tooLong := true;
      }
      j := j + 1;
    }
  }

  method ParseEnvFile(content: Option<string>) returns (p: Parsed)
    ensures p == ParsedFile(content)
  {
    if content.None? {
      return Parsed(map[], NoError);
    }
    hide Index, Scanned, RawLines, Overflows, Heredoc;
    var raw := RawLines(content.value);
    var lines := Scanned(raw);
    var result: Vars := map[];
    var i := 0;
    assert lines[0..] == lines;
    while i < |lines|
      invariant 0 <= i <= |lines|
      invariant ParseLines(lines, map[]) == ParseLines(lines[i..], result)
    {
      var line := lines[i];
      assert lines[i..][0] == line && lines[i..][1..] == lines[i + 1..];
      i := i + 1;
      var eqIdx, hereIdx := Index(line, "="), Index(line, "<<");
      if hereIdx > 0 && (eqIdx < 0 || hereIdx < eqIdx) {
        var key, delim := line[..hereIdx], line[hereIdx + 2..];
        var value, found, next := ReadHeredoc(lines, i, delim);
        if !found {
          return Parsed(map[], Unclosed);
        }
        result := result[key := value];
        i := next;
        continue;
      }
      if eqIdx > 0 {
        result := result[line[..eqIdx] := line[eqIdx + 1..]];
      }
    }
    var tooLong := AnyTooLong(raw);
    return Parsed(result, if tooLong then LineTooLong else NoError);
  }

  // ---------------------------------------------------------------- heredocs

  lemma {:induction false} HeredocClosedIff(lines: seq<string>, delim: string, value: string)
    ensures Heredoc(lines, delim, value).Some? <==> delim in lines
    decreases |lines|
  {
    if lines != [] && lines[0] != delim {
      HeredocClosedIff(lines[1..], delim, (if |value| > 0 then value + "\n" else value) + lines[0]);
      assert lines == [lines[0]] + lines[1..];
    }
  }

  /** The value a heredoc body stands for in the parser: blank lines before the first text vanish. */
  function BodyValue(lines: seq<string>): string {
    if lines == [] then "" else if lines[0] == "" then BodyValue(lines[1..]) else Join(lines, "\n")
  }

  function Continued(value: string, lines: seq<string>): string
    decreases |lines|
  {
    if lines == [] then value else Continued(value + "\n" + lines[0], lines[1..])
  }

  lemma {:induction false} ContinuedJoin(value: string, lines: seq<string>)
    ensures Continued(value, lines) == Join([value] + lines, "\n")
    decreases |lines|
  {
    if lines == [] {
      assert [value] + lines == [value];
    } else {
      var joined := value + "\n" + lines[0];
      ContinuedJoin(joined, lines[1..]);
      assert ([value] + lines)[1..] == lines && ([joined] + lines[1..])[1..] == lines[1..];
      if |lines| > 1 {
        assert joined + "\n" + Join(lines[1..], "\n") == value + "\n" + (lines[0] + "\n" + Join(lines[1..], "\n"));
      } else {
        assert [joined] + lines[1..] == [joined];
      }
    }
  }

  lemma {:induction false} HeredocContinues(body: seq<string>, delim: string, value: string, rest: seq<string>)
    requires delim !in body && value != ""
    ensures Heredoc(body + [delim] + rest, delim, value) == Some((Continued(value, body), rest))
    decreases |body|
  {
    var lines := body + [delim] + rest;
    if body == [] {
      assert lines[1..] == rest;
    } else {
      assert lines[0] == body[0] && lines[1..] == body[1..] + [delim] + rest;
      HeredocContinues(body[1..], delim, value + "\n" + body[0], rest);
    }
  }

  lemma {:induction false} HeredocOf(body: seq<string>, delim: string, rest: seq<string>)
    requires delim !in body
    ensures Heredoc(body + [delim] + rest, delim, "") == Some((BodyValue(body), rest))
    decreases |body|
  {
    var lines := body + [delim] + rest;
    if body == [] {
      assert lines[1..] == rest;
    } else {
      assert lines[0] == body[0] && lines[1..] == body[1..] + [delim] + rest;
      assert "" + body[0] == body[0];
      if body[0] == "" {
        HeredocOf(body[1..], delim, rest);
      } else {
        HeredocContinues(body[1..], delim, body[0], rest);
        ContinuedJoin(body[0], body[1..]);
        assert [body[0]] + body[1..] == body;
      }
    }
  }

  lemma {:induction false} BodyValueNoLonger(lines: seq<string>)
    ensures |BodyValue(lines)| <= |Join(lines, "\n")|
    decreases |lines|
  {
    if lines != [] && lines[0] == "" {
      BodyValueNoLonger(lines[1..]);
      if |lines| == 1 {
        assert lines[1..] == [];
      }
    }
  }

  /** A multi-line value comes back exactly when it does not start with a blank line. */
  lemma {:induction false} BlankStartIsLost(lines: seq<string>)
    ensures BodyValue(lines) == Join(lines, "\n") <==> |lines| <= 1 || lines[0] != ""
  {
    if lines != [] && lines[0] == "" {
      BodyValueNoLonger(lines[1..]);
      if |lines| == 1 {
        assert lines[1..] == [];
      }
    }
  }

  // ---------------------------------------------------------------- the round trip

  datatype Entry =
    | Simple(key: string, value: string)
    | Here(key: string, delim: string, body: seq<string>)
    | Junk(line: string)  // a line that carries nothing

  predicate GoodKey(key: string) {
    key != "" && '=' !in key && '\n' !in key
  }

  /** A key that KEY=VALUE carries: "<<" is a heredoc only from the second byte on. */
  predicate SimpleKey(key: string) {
    GoodKey(key) && Index(key, "<<") <= 0
  }

  /** A key that KEY<<DELIMITER carries: the first "<<" of the line is the one after it. */
  predicate HereKey(key: string) {
    GoodKey(key) && !Contains(key, "<<") && key[|key| - 1] != '<'
  }

  /** A line that scans as itself. */
  predicate CleanLine(line: string) {
    '\n' !in line && |line| <= MAX_LINE && DropCR(line) == line
  }

  /** A line without a key: no '=' and no heredoc in it, or one that starts with '='. */
  predicate IsJunk(line: string) {
    (Index(line, "=") < 0 && Index(line, "<<") <= 0) || "=" <= line
  }

  predicate GoodEntry(e: Entry) {
    && (match e
        case Simple(key, _) => SimpleKey(key)
        case Here(key, delim, body) => HereKey(key) && delim !in body
        case Junk(line) => IsJunk(line))
    && (forall l <- LinesOf(e) :: CleanLine(l))
  }

  function LinesOf(e: Entry): seq<string> {
    match e
    case Simple(key, value) => [key + "=" + value]
    case Here(key, delim, body) => [key + "<<" + delim] + body + [delim]
    case Junk(line) => [line]
  }

  function PrintLines(es: seq<Entry>): seq<string> {
    if es == [] then [] else LinesOf(es[0]) + PrintLines(es[1..])
  }

  function Terminated(lines: seq<string>): string {
    if lines == [] then "" else lines[0] + "\n" + Terminated(lines[1..])
  }

  function Print(es: seq<Entry>): string {
    Terminated(PrintLines(es))
  }

  /** What one entry does. */
  function Assigned(e: Entry, vars: Vars): Vars {
    match e
    case Simple(key, value) => vars[key := value]
    case Here(key, _, body) => vars[key := BodyValue(body)]
    case Junk(_) => vars
  }

  /** Every entry in order, the last write to a key winning. */
  function Meaning(es: seq<Entry>, vars: Vars): Vars
    decreases |es|
  {
    if es == [] then vars
    else Meaning(es[1..], Assigned(es[0], vars))
  }

  lemma {:induction false} NotBefore(key: string, p: string, rest: string)
    requires p != "" && p[0] !in key
    ensures Index(key + rest, p) < 0 || Index(key + rest, p) >= |key|
  {
    forall j | 0 <= j < |key| ensures !At(key + rest, p, j) {
      NotAtKey(key, p, rest, j);
    }
  }

  /** A "<<" that starts inside the key, when what follows the key cannot complete one. */
  lemma {:induction false} InsideKey(key: string, rest: string, j: nat)
    requires j < |key| && (rest == "" || rest[0] != '<' || key[|key| - 1] != '<')
    ensures At(key + rest, "<<", j) <==> At(key, "<<", j)
  {
    var s := key + rest;
    if j + 1 < |key| {
      assert s[j..j + 2] == key[j..j + 2];
    } else if j + 1 < |s| {
      assert s[j..j + 2] == [key[j], rest[0]];
    }
  }

  lemma {:induction false} SimpleLine(key: string, value: string)
    requires SimpleKey(key)
    ensures
      var line := key + "=" + value;
      Index(line, "=") == |key| && !IsHeader(line) && line[..|key|] == key && line[|key| + 1..] == value
  {
    hide Index;
    IndexAfter(key, "=", value);
    var line := key + "=" + value;
    assert line == key + ("=" + value);
    forall j: nat | j < |key| ensures At(line, "<<", j) <==> At(key, "<<", j) {
      InsideKey(key, "=" + value, j);
    }
    assert forall j :: 0 < j < |key| && Index(key, "<<") < 0 ==> !At(line, "<<", j);
  }

  lemma {:induction false} HeaderLine(key: string, delim: string)
    requires HereKey(key)
    ensures
      var line := key + "<<" + delim;
      Index(line, "<<") == |key| && IsHeader(line) && line[..|key|] == key && line[|key| + 2..] == delim
  {
    hide Index;
    var line := key + "<<" + delim;
    assert line == key + ("<<" + delim);
    assert line[|key|..|key| + 2] == "<<";
    assert At(line, "<<", |key|);
    forall j: nat | j < |key| ensures !At(line, "<<", j) {
      InsideKey(key, "<<" + delim, j);
    }
    NotBefore(key, "=", "<<" + delim);
    assert Index(line, "=") != |key| by {
      assert line[|key|..|key| + 1][0] == '<';
    }
  }

  /** A "<<" that is complete before the key's end is found there. */
  lemma {:induction false} FoundEarlier(line: string, k: nat, n: nat)
    requires At(line, "<<", k) && k < n
    ensures 0 <= Index(line, "<<") < n
  {
    hide Index;
  }

  /** Which line a heredoc header with a good key reads as: the key itself exactly when it is a heredoc key. */
  lemma {:induction false} HeaderKeyExactly(key: string, delim: string)
    requires GoodKey(key)
    ensures
      var line := key + "<<" + delim;
      (IsHeader(line) && line[..Index(line, "<<")] == key) <==> HereKey(key)
  {
    hide Index;
    var line := key + "<<" + delim;
    if HereKey(key) {
      HeaderLine(key, delim);
    } else {
      var k := Index(key, "<<");
      if k >= 0 {
        assert line[k..k + 2] == key[k..k + 2];
        FoundEarlier(line, k, |key|);
      } else {
        assert line[|key| - 1..|key| + 1] == "<<";
        FoundEarlier(line, |key| - 1, |key|);
      }
    }
  }

  /** Which line KEY=VALUE with a good key reads as: the pair exactly when it is a simple key. */
  lemma {:induction false} SimpleKeyExactly(key: string, value: string)
    requires GoodKey(key)
    ensures !IsHeader(key + "=" + value) <==> SimpleKey(key)
  {
    if SimpleKey(key) {
      SimpleLine(key, value);
    } else {
      hide Index;
      var line, k := key + "=" + value, Index(key, "<<");
      IndexAfter(key, "=", value);
      assert line[k..k + 2] == key[k..k + 2];
      assert At(line, "<<", k);
      assert line == key + ("=" + value);
      InsideKey(key, "=" + value, 0);
      assert !At(key, "<<", 0) && !At(line, "<<", 0);
      assert 0 < Index(line, "<<") <= k < |key|;
    }
  }

  lemma {:induction false} ParseEntry(e: Entry, rest: seq<string>, vars: Vars)
    requires GoodEntry(e)
    ensures ParseLines(LinesOf(e) + rest, vars) ==
            ParseLines(rest, Assigned(e, vars))
  {
    hide Index, IsHeader, Heredoc, BodyValue, CleanLine, HereKey;
    var lines := LinesOf(e) + rest;
    match e
    case Simple(key, value) =>
      SimpleLine(key, value);
      assert lines[1..] == rest;
    case Here(key, delim, body) =>
      HeaderLine(key, delim);
      assert lines[1..] == body + [delim] + rest;
      HeredocOf(body, delim, rest);
    case Junk(line) =>
      JunkLine(line);
      assert lines[0] == line && lines[1..] == rest;
  }

  lemma {:induction false} JunkLine(line: string)
    ensures IsJunk(line) <==> !IsHeader(line) && Index(line, "=") <= 0
  {
    assert "=" <= line <==> Index(line, "=") == 0;
  }

  lemma {:induction false} ParsePrinted(es: seq<Entry>, rest: seq<string>, vars: Vars)
    requires forall e <- es :: GoodEntry(e)
    ensures ParseLines(PrintLines(es) + rest, vars) == ParseLines(rest, Meaning(es, vars))
    decreases |es|
  {
    hide GoodEntry, LinesOf, ParseLines, BodyValue;
    if es == [] {
      assert [] + rest == rest;
    } else {
      var e := es[0];
      assert e in es;
      var more := PrintLines(es[1..]) + rest;
      assert PrintLines(es) + rest == LinesOf(e) + more;
      ParseEntry(e, more, vars);
      ParsePrinted(es[1..], rest, Assigned(e, vars));
    }
  }

  lemma {:induction false} ScanClean(lines: seq<string>)
    requires forall l <- lines :: CleanLine(l)
    ensures Scanned(lines) == lines && !Overflows(lines)
    decreases |lines|
  {
    if lines != [] {
      assert lines[0] in lines;
      ScanClean(lines[1..]);
      assert lines == [lines[0]] + lines[1..];
    }
    forall i | 0 <= i < |lines| ensures |lines[i]| <= MAX_LINE {
      assert lines[i] in lines;
    }
  }

  lemma {:induction false} ScanTerminated(lines: seq<string>)
    requires forall l <- lines :: CleanLine(l)
    ensures RawLines(Terminated(lines)) == lines
    decreases |lines|
  {
    if lines != [] {
      hide Index, RawLines;
      var l, rest := lines[0], lines[1..];
      assert l in lines;
      ScanTerminated(rest);
      var tail := Terminated(rest);
      IndexAfter(l, "\n", tail);
      FirstRawLine(l, tail);
      assert lines == [l] + rest;
    }
  }

  lemma {:induction false} FirstRawLine(l: string, tail: string)
    requires Index(l + "\n" + tail, "\n") == |l|
    ensures RawLines(l + "\n" + tail) == [l] + RawLines(tail)
  {
    var s := l + "\n" + tail;
    assert s[..|l|] == l && s[|l| + 1..] == tail;
  }

  lemma {:induction false} PrintedAreClean(es: seq<Entry>)
    requires forall e <- es :: GoodEntry(e)
    ensures forall l <- PrintLines(es) :: CleanLine(l)
    decreases |es|
  {
    hide CleanLine, LinesOf;
    if es != [] {
      assert es[0] in es;
      PrintedAreClean(es[1..]);
    }
  }

  /** Printing a list of entries and parsing the file gives the map with the last write winning. */
  lemma {:induction false} EnvFileRoundTrip(es: seq<Entry>)
    requires forall e <- es :: GoodEntry(e)
    ensures ParsedFile(Some(Print(es))) == Parsed(Meaning(es, map[]), NoError)
  {
    hide GoodEntry, CleanLine, RawLines, Scanned, Overflows, ParseLines;
    PrintedAreClean(es);
    ScanTerminated(PrintLines(es));
    ScanClean(PrintLines(es));
    ParsePrinted(es, [], map[]);
    assert PrintLines(es) + [] == PrintLines(es);
    ParseNothing(Meaning(es, map[]));
  }

  lemma {:induction false} ParseNothing(vars: Vars)
    ensures ParseLines([], vars) == Some(vars)
  {
  }

  /** A heredoc that is opened after well-formed entries and never closed always makes the file an error. */
  lemma {:induction false} UnclosedAlwaysErrs(es: seq<Entry>, key: string, delim: string, body: seq<string>)
    requires forall e <- es :: GoodEntry(e)
    requires HereKey(key) && delim !in body
    requires CleanLine(key + "<<" + delim) && forall l <- body :: CleanLine(l)
    ensures ParsedFile(Some(Terminated(PrintLines(es) + ([key + "<<" + delim] + body)))) == Parsed(map[], Unclosed)
  {
    hide GoodEntry, CleanLine, RawLines, Scanned, Overflows, Heredoc, Index, IsHeader, HereKey;
    var header := key + "<<" + delim;
    var lines := PrintLines(es) + ([header] + body);
    PrintedAreClean(es);
    ScanTerminated(lines);
    ScanClean(lines);
    ParsePrinted(es, [header] + body, map[]);
    HeaderLine(key, delim);
    assert ([header] + body)[1..] == body;
    HeredocClosedIff(body, delim, "");
  }

  // ---------------------------------------------------------------- every file

  lemma {:induction false} NotInPrefix(s: string, c: char, n: nat)
    requires n <= |s| && (Index(s, [c]) < 0 || n <= Index(s, [c]))
    ensures c !in s[..n]
  {
    hide Index;
    forall i | 0 <= i < n ensures s[i] != c {
      assert s[i..i + 1] == [s[i]];
      assert !At(s, [c], i);
    }
  }

  /** The first "<<" of a line's prefix is the line's own. */
  lemma {:induction false} IndexInPrefix(s: string, n: nat)
    requires n <= |s| && Index(s[..n], "<<") >= 0
    ensures Index(s, "<<") == Index(s[..n], "<<") < n
  {
    hide Index;
    var k := Index(s[..n], "<<");
    assert s[k..k + 2] == s[..n][k..k + 2];
    assert At(s, "<<", k);
    forall j | 0 <= j < k ensures !At(s, "<<", j) {
      assert !At(s[..n], "<<", j);
      assert s[j..j + 2] == s[..n][j..j + 2];
    }
  }

  lemma {:induction false} HeaderRead(line: string) returns (key: string, delim: string)
    requires IsHeader(line) && '\n' !in line
    ensures HereKey(key) && line == key + "<<" + delim
    ensures key == line[..Index(line, "<<")] && delim == line[Index(line, "<<") + 2..]
  {
    hide Index;
    var k := Index(line, "<<");
    key, delim := line[..k], line[k + 2..];
    NotInPrefix(line, '=', k);
    if Contains(key, "<<") {
      IndexInPrefix(line, k);
    }
    assert line[k..k + 2] == "<<";
    assert !At(line, "<<", k - 1);
    assert line[k] == line[k..k + 2][0] == '<';
    assert line[k - 1..k + 1] == [line[k - 1], line[k]];
  }

  lemma {:induction false} SimpleRead(line: string) returns (key: string, value: string)
    requires !IsHeader(line) && Index(line, "=") > 0 && '\n' !in line
    ensures SimpleKey(key) && line == key + "=" + value
    ensures key == line[..Index(line, "=")] && value == line[Index(line, "=") + 1..]
  {
    hide Index;
    var k := Index(line, "=");
    key, value := line[..k], line[k + 1..];
    NotInPrefix(line, '=', k);
    if Contains(key, "<<") {
      IndexInPrefix(line, k);
    }
    assert line[k..k + 1] == "=";
  }

  lemma {:induction false} ClosedBody(lines: seq<string>, delim: string) returns (body: seq<string>, rest: seq<string>)
    requires delim in lines
    ensures delim !in body && lines == body + [delim] + rest
    decreases |lines|
  {
    if lines[0] == delim {
      body, rest := [], lines[1..];
    } else {
      assert lines == [lines[0]] + lines[1..];
      body, rest := ClosedBody(lines[1..], delim);
      body := [lines[0]] + body;
    }
  }

  ghost predicate AreRead(es: seq<Entry>, lines: seq<string>) {
    (forall i :: 0 <= i < |es| ==> GoodEntry(es[i])) && PrintLines(es) == lines
  }

  lemma {:induction false} ConsEntry(e: Entry, es: seq<Entry>, rest: seq<string>)
    requires GoodEntry(e) && AreRead(es, rest)
    ensures AreRead([e] + es, LinesOf(e) + rest)
  {
    hide GoodEntry, LinesOf;
    assert ([e] + es)[1..] == es;
  }

  /** A file that starts with a heredoc header, and parses: the entry and what follows it. */
  lemma {:induction false} HereFirst(lines: seq<string>, vars: Vars) returns (e: Entry, after: seq<string>)
    requires lines != [] && (forall l <- lines :: CleanLine(l)) && IsHeader(lines[0]) && ParseLines(lines, vars).Some?
    ensures GoodEntry(e) && lines == LinesOf(e) + after && |after| < |lines|
    ensures ParseLines(after, Assigned(e, vars)).Some?
  {
    hide Index, IsHeader, Heredoc, BodyValue, HereKey, CleanLine;
    var line, rest := lines[0], lines[1..];
    assert line in lines && lines == [line] + rest;
    NoNewline(line);
    var key, delim := HeaderRead(line);
    HeredocClosedIff(rest, delim, "");
    var body, tail := ClosedBody(rest, delim);
    HeredocOf(body, delim, tail);
    e, after := Here(key, delim, body), tail;
    assert lines == LinesOf(e) + after;
    assert forall l <- LinesOf(e) :: l in lines;
  }

  lemma {:induction false} NoNewline(line: string)
    requires CleanLine(line)
    ensures '\n' !in line
  {
  }

  /** A file that starts with any other line. */
  lemma {:induction false} LineFirst(lines: seq<string>, vars: Vars) returns (e: Entry)
    requires lines != [] && (forall l <- lines :: CleanLine(l)) && !IsHeader(lines[0]) && ParseLines(lines, vars).Some?
    ensures GoodEntry(e) && lines == LinesOf(e) + lines[1..] && ParseLines(lines[1..], Assigned(e, vars)).Some?
  {
    hide Index, IsHeader, SimpleKey, IsJunk, CleanLine;
    var line := lines[0];
    assert line in lines && lines == [line] + lines[1..];
    NoNewline(line);
    if Index(line, "=") > 0 {
      var key, value := SimpleRead(line);
      e := Simple(key, value);
    } else {
      JunkLine(line);
      e := Junk(line);
    }
  }

  /**
   Every file of clean lines that parses is a list of entries - assignments, closed heredocs and lines
   that carry nothing - so that the round trip says what the parser makes of it.
   */
  lemma {:induction false} EveryFileIsRead(lines: seq<string>, vars: Vars) returns (es: seq<Entry>)
    requires (forall l <- lines :: CleanLine(l)) && ParseLines(lines, vars).Some?
    ensures AreRead(es, lines)
    decreases |lines|
  {
    if lines == [] {
      es := [];
    } else {
      hide ParseLines, IsHeader, CleanLine, GoodEntry, LinesOf, Assigned;
      var e, after;
      if IsHeader(lines[0]) {
        e, after := HereFirst(lines, vars);
      } else {
        e := LineFirst(lines, vars);
        after := lines[1..];
      }
      assert forall l <- after :: l in lines;
      es := EveryFileIsRead(after, Assigned(e, vars));
      ConsEntry(e, es, after);
      es := [e] + es;
    }
  }

  function TerminatedCrLf(lines: seq<string>): string {
    if lines == [] then "" else lines[0] + "\r" + "\n" + TerminatedCrLf(lines[1..])
  }

  lemma {:induction false} ScanCons(raw: string, rest: seq<string>)
    requires |raw| <= MAX_LINE && !Overflows(rest)
    ensures Scanned([raw] + rest) == [DropCR(raw)] + Scanned(rest) && !Overflows([raw] + rest)
  {
    hide DropCR;
    assert ([raw] + rest)[1..] == rest;
  }

  lemma {:induction false} ScanCrLf(lines: seq<string>)
    requires forall l <- lines :: CleanLine(l) && |l| < MAX_LINE
    ensures Scanned(RawLines(TerminatedCrLf(lines))) == lines && !Overflows(RawLines(TerminatedCrLf(lines)))
    decreases |lines|
  {
    if lines != [] {
      hide Index, RawLines, Scanned, Overflows;
      var l, tail := lines[0], TerminatedCrLf(lines[1..]);
      assert l in lines && lines == [l] + lines[1..];
      ScanCrLf(lines[1..]);
      IndexAfter(l + "\r", "\n", tail);
      FirstRawLine(l + "\r", tail);
      ScanCons(l + "\r", RawLines(tail));
      assert (l + "\r")[..|l|] == l;
      assert TerminatedCrLf(lines) == l + "\r" + "\n" + tail;
    }
  }

  /** A file with carriage returns before its newlines means the same as without. */
  lemma {:induction false} CrLfIsLf(lines: seq<string>)
    requires forall l <- lines :: CleanLine(l) && |l| < MAX_LINE
    ensures ParsedFile(Some(TerminatedCrLf(lines))) == ParsedFile(Some(Terminated(lines)))
  {
    hide RawLines, Scanned, Overflows, ParseLines, CleanLine;
    ScanCrLf(lines);
    ScanTerminated(lines);
    ScanClean(lines);
  }

  lemma {:induction false} ScanLast(lines: seq<string>, last: string)
    requires CleanLine(last) && last != "" && forall l <- lines :: CleanLine(l)
    ensures RawLines(Terminated(lines) + last) == lines + [last]
    decreases |lines|
  {
    hide Index, RawLines;
    if lines == [] {
      LastRawLine(last);
      assert "" + last == last;
    } else {
      var l, tail := lines[0], Terminated(lines[1..]) + last;
      assert l in lines && lines == [l] + lines[1..];
      ScanLast(lines[1..], last);
      assert Terminated(lines) + last == l + "\n" + tail;
      IndexAfter(l, "\n", tail);
      FirstRawLine(l, tail);
    }
  }

  lemma {:induction false} LastRawLine(last: string)
    requires last != "" && '\n' !in last
    ensures RawLines(last) == [last]
  {
    if Index(last, "\n") >= 0 {
      AtStart(last, "\n", Index(last, "\n"));
    }
  }

  /** A last line without a newline counts as one with. */
  lemma {:induction false} FinalNewlineOptional(lines: seq<string>, last: string)
    requires CleanLine(last) && last != "" && forall l <- lines :: CleanLine(l)
    ensures ParsedFile(Some(Terminated(lines) + last)) == ParsedFile(Some(Terminated(lines + [last])))
  {
    hide RawLines, ParseLines, CleanLine;
    ScanLast(lines, last);
    ScanTerminated(lines + [last]);
  }

  /** A file with a line of a mebibyte or more is always an error; a file that is not there is empty. */
  lemma {:induction false} TooLongAlwaysErrs(content: string, i: nat)
    requires i < |RawLines(content)| && |RawLines(content)[i]| >= 0x10_0000
    ensures ParsedFile(Some(content)).error != NoError
    ensures ParsedFile(None) == Parsed(map[], NoError)
  {
    hide RawLines, ParseLines, Scanned;
  }
}
