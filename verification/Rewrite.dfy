/**
 rewriteSubExpression (pkg/expressions/rewrite.go): a compiler from text with embedded ${{ }}
 expressions to one format('...', ...) call.
 */
module Rewrite {
  import opened Wrappers
  import opened Text

  // ---------------------------------------------------------------- the scanner

  /** escapeFormatString. */
  function Escaped(s: string): string {
    Doubled(Doubled(s, '{'), '}')
  }

  /**
   The end of the first match of (?:''|[^'])*' in t, or -1: the match stops at the first quote that
   is not half of a '' pair; when there is none it backtracks to the first half of the last pair.
   */
  function StringEnd(t: string): (n: int)
    ensures -1 <= n <= |t| && n != 0
  {
    if t == "" then -1
    else if t[0] != '\'' then
      var n := StringEnd(t[1..]);
      if n < 0 then -1 else n + 1
    else if |t| >= 2 && t[1] == '\'' then
      var n := StringEnd(t[2..]);
      if n < 0 then 1 else n + 2
    else 1
  }

  /** The loop's variables; inString stands for strStart > -1. */
  datatype Scan = Scan(pos: nat, exprStart: int, inString: bool, results: seq<string>, formatOut: string)

  predicate Sensible(s: string, sc: Scan) {
    sc.exprStart <= sc.pos <= |s| && -1 <= sc.exprStart
  }

  /** One iteration; None where the code gives up and returns its input. */
  function Advance(s: string, sc: Scan): (r: Option<Scan>)
    requires Sensible(s, sc) && sc.pos < |s|
    ensures r.Some? ==> Sensible(s, r.value) && sc.pos < r.value.pos
  {
    var rest := s[sc.pos..];
    if sc.inString then
      var n := StringEnd(rest);
      if n < 0 then None else Some(sc.(inString := false, pos := sc.pos + n))
    else if sc.exprStart > -1 then
      var close, quote := Index(rest, "}}"), Index(rest, "'");
      if close > -1 && !(-1 < quote <= close) then
        Some(Scan(sc.pos + close + 2, -1, false,
                  sc.results + [Trim(s[sc.exprStart..sc.pos + close])],
                  sc.formatOut + "{" + Decimal(|sc.results|) + "}"))
      else if quote > -1 then Some(sc.(inString := true, pos := sc.pos + quote + 1))
      else None
    else
      var open := Index(rest, "${{");
      if open > -1 then
        Some(sc.(formatOut := sc.formatOut + Escaped(rest[..open]),
                 exprStart := sc.pos + open + 3, pos := sc.pos + open + 3))
      else
        Some(sc.(formatOut := sc.formatOut + Escaped(rest), pos := |s|))
  }

  function ScanFrom(s: string, sc: Scan): (r: Option<Scan>)
    requires Sensible(s, sc)
    ensures r.Some? ==> r.value.pos == |s|
    decreases |s| - sc.pos
  {
    if sc.pos >= |s| then Some(sc)
    else
      match Advance(s, sc)
      case None => None
      case Some(next) => ScanFrom(s, next)
  }

  const INITIAL: Scan := Scan(0, -1, false, [], "")

  /** The call built from the scanner's results. */
  function FormatCall(formatOut: string, results: seq<string>): string {
    "format('" + Doubled(formatOut, '\'') + "', " + Join(results, ", ") + ")"
  }

  /** What rewriteSubExpression returns. */
  function Rewritten(s: string, forceFormat: bool): string {
    if !Contains(s, "${{") || !Contains(s, "}}") then s
    else
      match ScanFrom(s, INITIAL)
      case None => s
      case Some(sc) =>
        if |sc.results| == 1 && sc.formatOut == "{0}" && !forceFormat then s
        else FormatCall(sc.formatOut, sc.results)
  }

  predicate Agrees(r: Option<Scan>, pos: int, exprStart: int, strStart: int, results: seq<string>, formatOut: string) {
    && r.Some?
    && r.value.pos == pos && r.value.exprStart == exprStart && r.value.inString == (strStart > -1)
    && r.value.results == results && r.value.formatOut == formatOut
  }

  method RewriteSubExpression(s: string, forceFormat: bool) returns (out: string)
    ensures out == Rewritten(s, forceFormat)
  {
    hide Index, At, StringEnd, Trim, Decimal, Escaped, Contains, FormatCall;
    if !Contains(s, "${{") || !Contains(s, "}}") {
      return s;
    }
    var pos, exprStart, strStart := 0, -1, -1;
    var results: seq<string> := [];
    var formatOut := "";
    while pos < |s|
      invariant 0 <= pos <= |s| && -1 <= exprStart <= pos && -1 <= strStart
      invariant ScanFrom(s, INITIAL) == ScanFrom(s, Scan(pos, exprStart, strStart > -1, results, formatOut))
    {
      var rest := s[pos..];
      ghost var next := Advance(s, Scan(pos, exprStart, strStart > -1, results, formatOut));
      if strStart > -1 {
        var end := StringEnd(rest);
        if end < 0 {
          return s;
        }
        strStart := -1;
        pos := pos + end;
        assert Agrees(next, pos, exprStart, strStart, results, formatOut);
      } else if exprStart > -1 {
        var exprEnd := Index(rest, "}}");
        strStart := Index(rest, "'");
        if exprEnd > -1 && strStart > -1 {
          if exprEnd < strStart {
            strStart := -1;
          } else {
            exprEnd := -1;
          }
        }
        if exprEnd > -1 {
          formatOut := formatOut + "{" + Decimal(|results|) + "}";
          var expr := Trim(s[exprStart..pos + exprEnd]);
          assert next.Some? && next.value.results == results + [expr];
          results := results + [expr];
          pos := pos + exprEnd + 2;
          exprStart := -1;
          assert Agrees(next, pos, exprStart, strStart, results, formatOut);
        } else if strStart > -1 {
          pos := pos + strStart + 1;
          assert Agrees(next, pos, exprStart, strStart, results, formatOut);
        } else {
          assert next == None;
          return s;
        }
      } else {
        exprStart := Index(rest, "${{");
        if exprStart != -1 {
          formatOut := formatOut + Escaped(rest[..exprStart]);
          exprStart := pos + exprStart + 3;
          pos := exprStart;
          assert Agrees(next, pos, exprStart, strStart, results, formatOut);
        } else {
          formatOut := formatOut + Escaped(rest);
          pos := |s|;
          assert Agrees(next, pos, exprStart, strStart, results, formatOut);
        }
      }
    }
    if |results| == 1 && formatOut == "{0}" && !forceFormat {
      return s;
    }
    return FormatCall(formatOut, results);
  }
}
