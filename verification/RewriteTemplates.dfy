/**
 Templates, and the format call that Rewrite builds from the text of every well-formed one.
 */
module RewriteTemplates {
  import opened Wrappers
  import opened Text
  import opened Rewrite

  // ---------------------------------------------------------------- templates

  datatype Part = Part(lit: string, expr: string)

  /** Literal text and expressions in turn, then a last literal. */
  datatype Template = Template(parts: seq<Part>, tail: string)

  function RenderParts(parts: seq<Part>): string {
    if parts == [] then "" else parts[0].lit + "${{" + parts[0].expr + "}}" + RenderParts(parts[1..])
  }

  function Render(t: Template): string {
    RenderParts(t.parts) + t.tail
  }

  /** The length of a string literal's text up to and including its closing quote; '' is a quote in it. */
  function QuotedEnd(t: string): (r: Option<nat>)
    ensures r.Some? ==> 0 < r.value <= |t|
  {
    if t == "" then None
    else if t[0] != '\'' then
      var r := QuotedEnd(t[1..]);
      if r.None? then None else Some(r.value + 1)
    else if |t| >= 2 && t[1] == '\'' then
      var r := QuotedEnd(t[2..]);
      if r.None? then None else Some(r.value + 2)
    else Some(1)
  }

  lemma {:induction false} QuotedEndPrefix(t: string, m: nat)
    requires QuotedEnd(t).Some? && QuotedEnd(t).value <= m <= |t|
    ensures QuotedEnd(t[..m]) == QuotedEnd(t)
    ensures t[QuotedEnd(t).value - 1] == '\''
    decreases |t|
  {
    var u := t[..m];
    assert u[0] == t[0] && (m > 1 ==> u[1] == t[1]);
    if t[0] != '\'' {
      assert u[1..] == t[1..][..m - 1];
      QuotedEndPrefix(t[1..], m - 1);
    } else if |t| >= 2 && t[1] == '\'' {
      assert u[2..] == t[2..][..m - 2];
      QuotedEndPrefix(t[2..], m - 2);
    } else {
      assert QuotedEnd(t) == Some(1) && QuotedEnd(u) == Some(1);
    }
  }

  /** Quotes balance, and outside them the first "}}" of the expression is the one that closes it. */
  predicate IsClosed(e: string)
    decreases |e|
  {
    if e == "" then true
    else if e[0] == '\'' then QuotedEnd(e[1..]).Some? && IsClosed(e[1 + QuotedEnd(e[1..]).value..])
    else !(e[0] == '}' && (|e| == 1 || e[1] == '}')) && IsClosed(e[1..])
  }

  ghost predicate WellFormedParts(parts: seq<Part>) {
    forall i :: 0 <= i < |parts| ==> !Contains(parts[i].lit, "${{") && IsClosed(parts[i].expr)
  }

  ghost predicate WellFormed(t: Template) {
    WellFormedParts(t.parts) && !Contains(t.tail, "${{")
  }

  function Exprs(parts: seq<Part>): seq<string> {
    if parts == [] then [] else [Trim(parts[0].expr)] + Exprs(parts[1..])
  }

  /** The format string of the parts when the first expression is argument n. */
  function FormatParts(parts: seq<Part>, n: nat): string {
    if parts == [] then ""
    else Escaped(parts[0].lit) + "{" + Decimal(n) + "}" + FormatParts(parts[1..], n + 1)
  }

  function FormatOf(t: Template): string {
    FormatParts(t.parts, 0) + Escaped(t.tail)
  }

  // ---------------------------------------------------------------- the scanner finds the parts

  lemma {:induction false} IndexOfOpen(lit: string, rest: string)
    requires !Contains(lit, "${{")
    ensures Index(lit + "${{" + rest, "${{") == |lit|
  {
    var s := lit + "${{" + rest;
    assert At(s, "${{", |lit|);
    forall j | 0 <= j < |lit| ensures !At(s, "${{", j) {
      if j + 3 <= |lit| {
        assert s[j..j + 3] == lit[j..j + 3];
        assert !At(lit, "${{", j);
      } else {
        assert s[j..j + 3][|lit| - j] == s[|lit|] == '$';
      }
    }
  }

  ghost predicate NoCloseBefore(s: string, k: int) {
    forall j :: 0 <= j < k ==> !At(s, "}}", j)
  }

  /** Up to its first quote, or its end, a closed expression shows no "}}". */
  lemma {:induction false} PlainPrefix(e: string, post: string)
    requires IsClosed(e)
    ensures
      var q := Index(e, "'");
      && NoCloseBefore(e + "}}" + post, if q < 0 then |e| else q)
      && (q >= 0 ==> q < |e| && QuotedEnd(e[q + 1..]).Some? && IsClosed(e[q + 1..][QuotedEnd(e[q + 1..]).value..]))
    decreases |e|
  {
    var s, q := e + "}}" + post, Index(e, "'");
    if e != "" && e[0] == '\'' {
      assert At(e, "'", 0);
      assert e[1..][QuotedEnd(e[1..]).value..] == e[1 + QuotedEnd(e[1..]).value..];
    } else if e != "" {
      PlainPrefix(e[1..], post);
      var s', q' := e[1..] + "}}" + post, Index(e[1..], "'");
      assert s[1..] == s';
      assert e[..1] != "'" by {
        assert e[..1][0] == e[0];
      }
      assert q == if q' < 0 then -1 else q' + 1;
      assert q >= 0 ==> e[q + 1..] == e[1..][q' + 1..];
      assert !At(s, "}}", 0) by {
        assert s[0] == e[0] && (|e| > 1 ==> s[1] == e[1]) && s[0..2] == [s[0], s[1]];
      }
      AtShift(s, "}}");
      forall j | 0 < j < (if q < 0 then |e| else q) ensures !At(s, "}}", j) {
        assert !At(s', "}}", j - 1);
      }
    }
  }

  lemma {:induction false} StringEndIs(t: string, post: string)
    requires QuotedEnd(t).Some?
    requires post != "" && post[0] != '\''
    ensures StringEnd(t + post) == QuotedEnd(t).value
    decreases |t|
  {
    var s := t + post;
    if t[0] != '\'' {
      assert s[1..] == t[1..] + post;
      StringEndIs(t[1..], post);
    } else if |t| >= 2 && t[1] == '\'' {
      assert s[2..] == t[2..] + post;
      StringEndIs(t[2..], post);
    }
  }

  /** Indices of the next "}}" and of the next quote in what follows an expression's first part. */
  lemma {:induction false} NextTokens(e: string, post: string)
    requires IsClosed(e)
    ensures
      var s, q := e + "}}" + post, Index(e, "'");
      var close, quote := Index(s, "}}"), Index(s, "'");
      if q < 0 then close == |e| && (quote < 0 || quote > close)
      else quote == q && close > quote
  {
    hide Index, IsClosed;
    var s, q := e + "}}" + post, Index(e, "'");
    var close, quote := Index(s, "}}"), Index(s, "'");
    PlainPrefix(e, post);
    assert At(s, "}}", |e|);
    forall j | 0 <= j < |e| ensures At(s, "'", j) <==> At(e, "'", j) {
      assert s[j..j + 1] == e[j..j + 1];
    }
    if q < 0 {
      forall j | 0 <= j < |e| + 2 ensures !At(s, "'", j) {
        if j < |e| {
          assert !At(e, "'", j);
        } else {
          assert s[j..j + 1][0] == '}';
        }
      }
    } else {
      assert At(s, "'", q);
      assert !At(s, "}}", q) by {
        assert s[q..q + 1][0] == s[q..q + 2][0];
      }
    }
  }

  /** An opening quote: the next two iterations skip the string literal. */
  lemma {:induction false} SkipString(s: string, sc: Scan, e: string, post: string) returns (after: Scan)
    requires Sensible(s, sc) && sc.exprStart > -1 && !sc.inString
    requires s[sc.pos..] == e + "}}" + post && IsClosed(e) && Index(e, "'") >= 0
    ensures
      var t := e[Index(e, "'") + 1..];
      && QuotedEnd(t).Some?
      && after == sc.(pos := sc.pos + Index(e, "'") + 1 + QuotedEnd(t).value)
      && Sensible(s, after)
      && s[after.pos..] == t[QuotedEnd(t).value..] + "}}" + post
      && ScanFrom(s, sc) == ScanFrom(s, after)
  {
    hide IsClosed, Index, At, StringEnd, Trim, Decimal, Escaped, QuotedEnd;
    var q := Index(e, "'");
    NextTokens(e, post);
    PlainPrefix(e, post);
    var t := e[q + 1..];
    var n := QuotedEnd(t).value;
    var inString := sc.(inString := true, pos := sc.pos + q + 1);
    assert Advance(s, sc) == Some(inString);
    assert s[inString.pos..] == s[sc.pos..][q + 1..] == t + ("}}" + post);
    StringEndIs(t, "}}" + post);
    after := sc.(pos := sc.pos + q + 1 + n);
    assert Advance(s, inString) == Some(after);
    assert s[after.pos..] == s[inString.pos..][n..];
  }

  function AfterExpr(s: string, sc: Scan, end: nat): Scan
    requires 0 <= sc.exprStart <= end <= |s|
  {
    Scan(end + 2, -1, false, sc.results + [Trim(s[sc.exprStart..end])],
         sc.formatOut + "{" + Decimal(|sc.results|) + "}")
  }

  lemma {:induction false} CloseExpr(s: string, sc: Scan, e: string, post: string)
    requires Sensible(s, sc) && sc.exprStart > -1 && !sc.inString
    requires s[sc.pos..] == e + "}}" + post && IsClosed(e) && Index(e, "'") < 0
    ensures ScanFrom(s, sc) == ScanFrom(s, AfterExpr(s, sc, sc.pos + |e|))
  {
    hide IsClosed, Index, At, StringEnd, Trim, Decimal, Escaped;
    NextTokens(e, post);
    var r := Advance(s, sc);
    var next := AfterExpr(s, sc, sc.pos + |e|);
    assert r.Some? && r.value.results == next.results && r.value.formatOut == next.formatOut;
  }

  /** From inside an expression, the scanner reaches its end and records it. */
  lemma {:induction false} ScanExpr(s: string, sc: Scan, e: string, post: string)
    requires Sensible(s, sc) && sc.exprStart > -1 && !sc.inString
    requires s[sc.pos..] == e + "}}" + post && IsClosed(e)
    ensures ScanFrom(s, sc) == ScanFrom(s, AfterExpr(s, sc, sc.pos + |e|))
    decreases |e|
  {
    hide ScanFrom, Decimal, Trim, IsClosed, Index;
    if Index(e, "'") < 0 {
      CloseExpr(s, sc, e, post);
    } else {
      var t := e[Index(e, "'") + 1..];
      PlainPrefix(e, post);
      var after := SkipString(s, sc, e, post);
      ScanExpr(s, after, t[QuotedEnd(t).value..], post);
    }
  }

  /** The state after one literal and one expression. */
  function AfterPart(sc: Scan, p: Part): Scan {
    Scan(sc.pos + |p.lit| + 3 + |p.expr| + 2, -1, false, sc.results + [Trim(p.expr)],
         sc.formatOut + Escaped(p.lit) + "{" + Decimal(|sc.results|) + "}")
  }

  lemma {:induction false} ScanLiteral(s: string, sc: Scan, lit: string, more: string) returns (inside: Scan)
    requires Sensible(s, sc) && sc.exprStart == -1 && !sc.inString
    requires s[sc.pos..] == lit + "${{" + more && !Contains(lit, "${{")
    ensures inside == Scan(sc.pos + |lit| + 3, sc.pos + |lit| + 3, false, sc.results, sc.formatOut + Escaped(lit))
    ensures Sensible(s, inside) && s[inside.pos..] == more
    ensures ScanFrom(s, sc) == ScanFrom(s, inside)
  {
    IndexOfOpen(lit, more);
    assert s[sc.pos..][..|lit|] == lit;
    inside := Scan(sc.pos + |lit| + 3, sc.pos + |lit| + 3, false, sc.results, sc.formatOut + Escaped(lit));
    assert Advance(s, sc) == Some(inside);
    assert s[inside.pos..] == s[sc.pos..][|lit| + 3..] == more;
  }

  lemma {:induction false} ScanPart(s: string, sc: Scan, p: Part, post: string)
    requires Sensible(s, sc) && sc.exprStart == -1 && !sc.inString
    requires s[sc.pos..] == p.lit + "${{" + p.expr + "}}" + post
    requires !Contains(p.lit, "${{") && IsClosed(p.expr)
    ensures
      var next := AfterPart(sc, p);
      Sensible(s, next) && s[next.pos..] == post && ScanFrom(s, sc) == ScanFrom(s, next)
  {
    hide ScanFrom, Escaped, Decimal, Trim, IsClosed, Contains;
    var more := p.expr + "}}" + post;
    assert s[sc.pos..] == p.lit + "${{" + more;
    var inside := ScanLiteral(s, sc, p.lit, more);
    ScanExpr(s, inside, p.expr, post);
    var end := inside.pos + |p.expr|;
    assert s[inside.pos..end] == s[inside.pos..][..|p.expr|] == p.expr;
    assert AfterExpr(s, inside, end) == AfterPart(sc, p);
    assert s[end + 2..] == s[inside.pos..][|p.expr| + 2..] == post;
  }

  lemma {:induction false} FormatFirst(out: string, parts: seq<Part>, n: nat)
    requires parts != []
    ensures out + Escaped(parts[0].lit) + "{" + Decimal(n) + "}" + FormatParts(parts[1..], n + 1) ==
            out + FormatParts(parts, n)
  {
    hide Escaped, Decimal;
    var a, d, f := Escaped(parts[0].lit), Decimal(n), FormatParts(parts[1..], n + 1);
    assert out + a + "{" + d + "}" + f == out + (a + "{" + d + "}" + f);
  }

  lemma {:induction false} ExprsFirst(results: seq<string>, parts: seq<Part>)
    requires parts != []
    ensures results + [Trim(parts[0].expr)] + Exprs(parts[1..]) == results + Exprs(parts)
  {
    hide Trim;
  }

  lemma {:induction false} RenderFirst(parts: seq<Part>, post: string)
    requires parts != [] && WellFormedParts(parts)
    ensures
      var p := parts[0];
      && RenderParts(parts) + post == p.lit + "${{" + p.expr + "}}" + (RenderParts(parts[1..]) + post)
      && !Contains(p.lit, "${{") && IsClosed(p.expr) && WellFormedParts(parts[1..])
  {
    hide Contains, IsClosed;
  }

  /** From between parts, the scanner records every part and stands before what follows them. */
  lemma {:induction false} ScanParts(s: string, sc: Scan, parts: seq<Part>, post: string) returns (next: Scan)
    requires Sensible(s, sc) && sc.exprStart == -1 && !sc.inString
    requires s[sc.pos..] == RenderParts(parts) + post && WellFormedParts(parts)
    ensures next ==
            Scan(next.pos, -1, false, sc.results + Exprs(parts), sc.formatOut + FormatParts(parts, |sc.results|))
    ensures Sensible(s, next) && s[next.pos..] == post && ScanFrom(s, sc) == ScanFrom(s, next)
    decreases |parts|
  {
    hide ScanFrom, Escaped, Decimal, Trim, IsClosed, Contains, WellFormedParts;
    if parts == [] {
      next := sc;
      assert sc.results + [] == sc.results && sc.formatOut + "" == sc.formatOut && "" + post == post;
    } else {
      ExprsFirst(sc.results, parts);
      hide RenderParts, Exprs, FormatParts;
      var p := parts[0];
      RenderFirst(parts, post);
      ScanPart(s, sc, p, RenderParts(parts[1..]) + post);
      next := ScanParts(s, AfterPart(sc, p), parts[1..], post);
      FormatFirst(sc.formatOut, parts, |sc.results|);
    }
  }

  lemma {:induction false} HasDelimiters(parts: seq<Part>, post: string)
    requires parts != []
    ensures Contains(RenderParts(parts) + post, "${{") && Contains(RenderParts(parts) + post, "}}")
  {
    var p, s := parts[0], RenderParts(parts) + post;
    assert At(s, "${{", |p.lit|);
    assert At(s, "}}", |p.lit| + 3 + |p.expr|);
  }

  /** The scanner gets through every well-formed template with an expression, and finds its parts. */
  lemma {:induction false} ScanTemplate(t: Template) returns (sc: Scan)
    requires WellFormed(t) && t.parts != []
    ensures Contains(Render(t), "${{") && Contains(Render(t), "}}") && ScanFrom(Render(t), INITIAL) == Some(sc)
    ensures sc.results == Exprs(t.parts) && sc.formatOut == FormatOf(t)
  {
    var s := Render(t);
    HasDelimiters(t.parts, t.tail);
    assert s[0..] == s;
    sc := ScanParts(s, INITIAL, t.parts, t.tail);
    assert [] + Exprs(t.parts) == Exprs(t.parts) && "" + FormatParts(t.parts, 0) == FormatParts(t.parts, 0);
    if t.tail == "" {
      assert FormatParts(t.parts, 0) + "" == FormatParts(t.parts, 0);
    } else {
      var next := sc.(formatOut := sc.formatOut + Escaped(t.tail), pos := |s|);
      assert Advance(s, sc) == Some(next);
      sc := next;
    }
  }

  /** The compiler's output for every well-formed template with an expression. */
  lemma {:induction false} RewriteOfTemplate(t: Template)
    requires WellFormed(t) && t.parts != []
    ensures Rewritten(Render(t), true) == FormatCall(FormatOf(t), Exprs(t.parts))
  {
    hide FormatCall, Contains, ScanFrom;
    var sc := ScanTemplate(t);
  }

  /** A template that is one expression and nothing else. */
  predicate IsPure(t: Template) {
    |t.parts| == 1 && t.parts[0].lit == "" && t.tail == ""
  }

  lemma {:induction false} EscapedNoShorter(s: string)
    ensures |Escaped(s)| >= |s| && (s == "" ==> Escaped(s) == "")
  {
    DoubledNoShorter(s, '{');
    DoubledNoShorter(Doubled(s, '{'), '}');
  }

  lemma {:induction false} DoubledNoShorter(s: string, c: char)
    ensures |Doubled(s, c)| >= |s| && (s == "" ==> Doubled(s, c) == "")
    decreases |s|
  {
    if s != "" {
      DoubledNoShorter(s[1..], c);
    }
  }

  lemma {:induction false} PureFormat(t: Template)
    requires |t.parts| == 1
    ensures FormatOf(t) == "{0}" <==> IsPure(t)
  {
    hide Escaped;
    var p := t.parts[0];
    EscapedNoShorter(p.lit);
    EscapedNoShorter(t.tail);
    assert Decimal(0) == "0";
    assert t.parts[1..] == [];
    assert FormatParts(t.parts[1..], 1) == "";
    assert FormatParts(t.parts, 0) == Escaped(p.lit) + "{" + "0" + "}" + "" == Escaped(p.lit) + "{0}";
    var f := Escaped(p.lit) + "{0}" + Escaped(t.tail);
    assert FormatOf(t) == f;
    assert IsPure(t) ==> f == "" + "{0}" + "";
    assert f == "{0}" ==> |f| == 3;
  }

  lemma {:induction false} ExprsAt(parts: seq<Part>, i: nat)
    ensures |Exprs(parts)| == |parts| && (i < |parts| ==> Exprs(parts)[i] == Trim(parts[i].expr))
    decreases |parts|
  {
    hide Trim;
    if parts != [] {
      ExprsAt(parts[1..], if i == 0 then 0 else i - 1);
    }
  }

  /** Without forceFormat a pure expression comes back unchanged, and everything else as with it. */
  lemma {:induction false} OnlyPureIsUnchanged(t: Template)
    requires WellFormed(t) && t.parts != []
    ensures Rewritten(Render(t), false) == if IsPure(t) then Render(t) else Rewritten(Render(t), true)
  {
    hide FormatCall, Contains, ScanFrom, FormatOf, WellFormed;
    var sc := ScanTemplate(t);
    ExprsAt(t.parts, 0);
    if |t.parts| == 1 {
      PureFormat(t);
    }
  }

  lemma {:induction false} ScanDone(s: string, sc: Scan)
    requires Sensible(s, sc) && sc.pos == |s|
    ensures ScanFrom(s, sc) == Some(sc)
  {
  }
}
