/**
 What rewriteSubExpression (pkg/expressions/rewrite.go) does with an expression that is opened after
 a well-formed template and never closed: it gives up and returns its input, unless the scanner
 happens to stand at the end of the text between two tokens, in which case the expression is dropped.
 */
module RewriteUnclosed {
  import opened Wrappers
  import opened Text
  import opened Rewrite
  import opened RewriteTemplates

  /** Outside string literals there is no "}}"; a literal without an end takes up the rest. */
  predicate Unclosed(e: string)
    decreases |e|
  {
    if e == "" then true
    else if e[0] == '\'' then QuotedEnd(e[1..]).None? || Unclosed(e[1 + QuotedEnd(e[1..]).value..])
    else !("}}" <= e) && Unclosed(e[1..])
  }

  /** The scanner reaches the end of the text without being in the middle of anything it must finish. */
  predicate EndsAtToken(e: string) {
    e == "" || e[|e| - 1] == '\''
  }

  predicate NoQuote(t: string) {
    forall i :: 0 <= i < |t| ==> t[i] != '\''
  }

  lemma {:induction false} QuoteIndex(e: string)
    ensures
      var q := Index(e, "'");
      if q < 0 then NoQuote(e) else q < |e| && e[q] == '\'' && forall i :: 0 <= i < q ==> e[i] != '\''
  {
    hide Index;
    var q := Index(e, "'");
    forall i | 0 <= i < |e| ensures At(e, "'", i) <==> e[i] == '\'' {
      assert e[i..i + 1] == [e[i]];
    }
  }

  /** Up to its first quote an unclosed expression shows no "}}". */
  lemma {:induction false} UnclosedPrefix(e: string)
    requires Unclosed(e)
    ensures
      var q, close := Index(e, "'"), Index(e, "}}");
      && (q < 0 ==> close < 0) && (q >= 0 && close >= 0 ==> q <= close)
      && (q >= 0 ==> q < |e| && (QuotedEnd(e[q + 1..]).None? || Unclosed(e[q + 1..][QuotedEnd(e[q + 1..]).value..])))
    decreases |e|
  {
    if e != "" && e[0] == '\'' {
      assert e[..1] == "'";
      assert QuotedEnd(e[1..]).Some? ==> e[1..][QuotedEnd(e[1..]).value..] == e[1 + QuotedEnd(e[1..]).value..];
    } else if e != "" {
      UnclosedPrefix(e[1..]);
      var q, q' := Index(e, "'"), Index(e[1..], "'");
      assert e[..1][0] == e[0];
      assert q == if q' < 0 then -1 else q' + 1;
      assert q >= 0 ==> e[q + 1..] == e[1..][q' + 1..];
    }
  }

  lemma {:induction false} NoQuoteNoString(t: string)
    requires NoQuote(t)
    ensures StringEnd(t) == -1
    decreases |t|
  {
    if t != "" {
      NoQuoteNoString(t[1..]);
    }
  }

  /** A literal that ends: the scanner's expression matches up to its closing quote. */
  lemma {:induction false} TerminatedString(t: string)
    requires QuotedEnd(t).Some?
    ensures StringEnd(t) == QuotedEnd(t).value && t[QuotedEnd(t).value - 1] == '\''
    decreases |t|
  {
    if t[0] != '\'' {
      TerminatedString(t[1..]);
    } else if |t| >= 2 && t[1] == '\'' {
      TerminatedString(t[2..]);
    }
  }

  /** Where the scanner's expression matches in a literal without an end: it backtracks into the last pair of quotes. */
  ghost predicate Backtracks(t: string, m: int) {
    0 < m < |t| && t[m] == '\'' && NoQuote(t[m + 1..])
  }

  lemma {:induction false} UnterminatedString(t: string)
    requires QuotedEnd(t).None?
    ensures if StringEnd(t) < 0 then NoQuote(t) else Backtracks(t, StringEnd(t))
    decreases |t|
  {
    if t != "" && t[0] != '\'' {
      UnterminatedString(t[1..]);
      var n := StringEnd(t[1..]);
      assert n >= 0 ==> t[n + 1 + 1..] == t[1..][n + 1..];
    } else if t != "" {
      UnterminatedString(t[2..]);
      var n := StringEnd(t[2..]);
      assert n >= 0 ==> t[n + 2 + 1..] == t[2..][n + 1..];
    }
  }

  /** The scan's outcome when what is left is an unclosed expression. */
  ghost predicate EndsWell(sc: Scan, r: Option<Scan>, e: string) {
    if EndsAtToken(e) then r.Some? && r.value.results == sc.results && r.value.formatOut == sc.formatOut
    else r.None?
  }

  /** In an expression, at an opening quote at distance q, where t follows it. */
  lemma {:induction false} EnterString(s: string, sc: Scan, e: string, q: nat) returns (inside: Scan)
    requires Sensible(s, sc) && sc.exprStart > -1 && !sc.inString && s[sc.pos..] == e
    requires q < |e| && Index(e, "'") == q && (Index(e, "}}") >= 0 ==> q <= Index(e, "}}"))
    ensures inside == sc.(inString := true, pos := sc.pos + q + 1) && Sensible(s, inside)
    ensures s[inside.pos..] == e[q + 1..] && ScanFrom(s, sc) == ScanFrom(s, inside)
  {
    hide Index, Trim, Decimal, Escaped, StringEnd;
    inside := sc.(inString := true, pos := sc.pos + q + 1);
    assert Advance(s, sc) == Some(inside);
    assert s[inside.pos..] == s[sc.pos..][q + 1..];
  }

  /** In a string that runs out of quotes: the end of the text ends the scan, anything else is given up. */
  lemma {:induction false} StringRunsOut(s: string, inside: Scan, t: string)
    requires Sensible(s, inside) && inside.inString && s[inside.pos..] == t && NoQuote(t)
    ensures ScanFrom(s, inside) == if t == "" then Some(inside) else None
  {
    hide Trim, Decimal, Escaped, Index, StringEnd;
    NoQuoteNoString(t);
  }

  /** In a string whose end, real or found by backtracking, is at n. */
  lemma {:induction false} LeaveString(s: string, inside: Scan, t: string, n: nat) returns (after: Scan)
    requires Sensible(s, inside) && inside.inString && s[inside.pos..] == t && StringEnd(t) == n
    ensures 0 < n <= |t| && after == inside.(inString := false, pos := inside.pos + n) && Sensible(s, after)
    ensures s[after.pos..] == t[n..] && ScanFrom(s, inside) == ScanFrom(s, after)
  {
    hide Trim, Decimal, Escaped, Index;
    after := inside.(inString := false, pos := inside.pos + n);
    assert Advance(s, inside) == Some(after);
    assert s[after.pos..] == s[inside.pos..][n..];
  }

  /** A literal without an end. */
  lemma {:induction false} ScanUnterminated(s: string, inside: Scan, t: string)
    requires Sensible(s, inside) && inside.exprStart > -1 && inside.inString
    requires s[inside.pos..] == t && QuotedEnd(t).None?
    ensures EndsWell(inside, ScanFrom(s, inside), t)
  {
    hide ScanFrom, Index, QuotedEnd;
    UnterminatedString(t);
    if StringEnd(t) < 0 {
      StringRunsOut(s, inside, t);
    } else {
      var n := StringEnd(t);
      var after := LeaveString(s, inside, t, n);
      var u := t[n..];
      QuoteIndex(u);
      assert Index(u, "'") == 0;
      var again := EnterString(s, after, u, 0);
      assert u[1..] == t[n + 1..];
      StringRunsOut(s, again, u[1..]);
    }
  }

  /** How an expression ends shows in what is left of it. */
  lemma {:induction false} EndsLikeRest(e: string, k: nat)
    requires 0 < k <= |e| && (k < |e| || e[k - 1] == '\'')
    ensures EndsAtToken(e) <==> EndsAtToken(e[k..])
  {
  }

  lemma {:induction false} EndsWellAlike(sc: Scan, sc': Scan, r: Option<Scan>, e: string, e': string)
    requires EndsWell(sc', r, e') && sc'.results == sc.results && sc'.formatOut == sc.formatOut
    requires EndsAtToken(e) <==> EndsAtToken(e')
    ensures EndsWell(sc, r, e)
  {
    hide EndsAtToken;
  }

  lemma {:induction false} NoQuoteAtEnd(e: string)
    requires e != "" && NoQuote(e)
    ensures !EndsAtToken(e)
  {
  }

  /** At a quote of the expression: the literal it opens, and then the rest. */
  lemma {:induction false} ScanFromQuote(s: string, sc: Scan, e: string, q: nat)
    requires Sensible(s, sc) && sc.exprStart > -1 && !sc.inString && s[sc.pos..] == e && Unclosed(e)
    requires q < |e| && Index(e, "'") == q && e[q] == '\''
    ensures EndsWell(sc, ScanFrom(s, sc), e)
    decreases |e|, 0
  {
    hide ScanFrom, Index, At, Unclosed, QuotedEnd, StringEnd, EndsAtToken, EndsWell, Sensible;
    UnclosedPrefix(e);
    var inside := EnterString(s, sc, e, q);
    var t, r := e[q + 1..], ScanFrom(s, inside);
    EndsLikeRest(e, q + 1);
    if QuotedEnd(t).None? {
      ScanUnterminated(s, inside, t);
    } else {
      TerminatedString(t);
      var n := QuotedEnd(t).value;
      var after := LeaveString(s, inside, t, n);
      EndsLikeRest(t, n);
      ScanUnclosed(s, after, t[n..]);
      EndsWellAlike(inside, after, r, t, t[n..]);
    }
    EndsWellAlike(sc, inside, r, e, t);
  }

  /** From inside an expression that is never closed. */
  lemma {:induction false} ScanUnclosed(s: string, sc: Scan, e: string)
    requires Sensible(s, sc) && sc.exprStart > -1 && !sc.inString
    requires s[sc.pos..] == e && Unclosed(e)
    ensures EndsWell(sc, ScanFrom(s, sc), e)
    decreases |e|, 1
  {
    hide ScanFrom, Index, Unclosed, Advance;
    if e == "" {
      ScanDone(s, sc);
    } else {
      QuoteIndex(e);
      if Index(e, "'") < 0 {
        UnclosedPrefix(e);
        NoQuoteAtEnd(e);
        GivesUp(s, sc, e);
      } else {
        ScanFromQuote(s, sc, e, Index(e, "'"));
      }
    }
  }

  lemma {:induction false} GivesUp(s: string, sc: Scan, e: string)
    requires Sensible(s, sc) && sc.exprStart > -1 && !sc.inString && s[sc.pos..] == e && e != ""
    requires Index(e, "'") < 0 && Index(e, "}}") < 0
    ensures ScanFrom(s, sc) == None
  {
    hide Index, Trim, Decimal, Escaped, StringEnd;
  }

  /**
   A well-formed template followed by an expression that is never closed: the expression is dropped
   without a trace exactly when the text has a "}}" somewhere and the expression is empty or ends in a
   quote; otherwise the input comes back unchanged.
   */
  lemma {:induction false} UnclosedIsDroppedExactly(t: Template, e: string, forceFormat: bool)
    requires WellFormed(t) && Unclosed(e)
    ensures
      var s := Render(t) + "${{" + e;
      var dropped := Contains(s, "}}") && EndsAtToken(e) && (forceFormat || !IsPure(t));
      Rewritten(s, forceFormat) == if dropped then FormatCall(FormatOf(t), Exprs(t.parts)) else s
  {
    hide ScanFrom, FormatCall, Escaped, WellFormedParts, RenderParts, Unclosed, EndsAtToken, IsPure, Exprs, Contains;
    var post := t.tail + "${{" + e;
    var s := Render(t) + "${{" + e;
    assert s == RenderParts(t.parts) + post;
    HasOpen(Render(t), e);
    assert s[0..] == s;
    var next := ScanParts(s, INITIAL, t.parts, post);
    assert [] + Exprs(t.parts) == Exprs(t.parts) && "" + FormatParts(t.parts, 0) == FormatParts(t.parts, 0);
    var inside := ScanLiteral(s, next, t.tail, e);
    ScanUnclosed(s, inside, e);
    ExprsAt(t.parts, 0);
    if |t.parts| == 1 {
      PureFormat(t);
    } else {
      NotPure(t);
    }
  }

  lemma {:induction false} NotPure(t: Template)
    requires |t.parts| != 1
    ensures !IsPure(t)
  {
  }

  lemma {:induction false} HasOpen(a: string, b: string)
    ensures Contains(a + "${{" + b, "${{")
  {
    assert At(a + "${{" + b, "${{", |a|);
  }

  /** With an expression before it, the dropped one leaves exactly what the template alone gives. */
  lemma {:induction false} TrailingOpenIsDropped(t: Template, e: string)
    requires WellFormed(t) && t.parts != [] && Unclosed(e)
    ensures Rewritten(Render(t) + "${{" + e, true) ==
            if EndsAtToken(e) then Rewritten(Render(t), true) else Render(t) + "${{" + e
  {
    hide Rewritten, WellFormed, Unclosed, FormatCall, Contains, EndsAtToken, RenderParts, FormatOf, Exprs, IsPure;
    UnclosedIsDroppedExactly(t, e, true);
    RewriteOfTemplate(t);
    HasDelimiters(t.parts, t.tail + "${{" + e);
    assert Render(t) + "${{" + e == RenderParts(t.parts) + (t.tail + "${{" + e);
  }

  // ---------------------------------------------------------------- every input

  /** Where the first "}}" outside string literals is, if there is one. */
  function FindClose(e: string): (m: Option<nat>)
    ensures m.Some? ==> m.value + 2 <= |e|
    decreases |e|
  {
    if e == "" then None
    else if e[0] == '\'' then
      match QuotedEnd(e[1..])
      case None => None
      case Some(n) =>
        var m := FindClose(e[1 + n..]);
        if m.None? then None else Some(1 + n + m.value)
    else if "}}" <= e then Some(0)
    else
      var m := FindClose(e[1..]);
      if m.None? then None else Some(m.value + 1)
  }

  lemma {:induction false} NoCloseIsUnclosed(e: string)
    requires FindClose(e).None?
    ensures Unclosed(e)
    decreases |e|
  {
    if e != "" && e[0] == '\'' {
      if QuotedEnd(e[1..]).Some? {
        NoCloseIsUnclosed(e[1 + QuotedEnd(e[1..]).value..]);
      }
    } else if e != "" {
      NoCloseIsUnclosed(e[1..]);
    }
  }

  lemma {:induction false} CloseAfterString(e: string, n: nat, m: nat)
    requires e != "" && e[0] == '\'' && QuotedEnd(e[1..]) == Some(n) && 1 + n + m <= |e|
    requires IsClosed(e[1 + n..][..m])
    ensures IsClosed(e[..1 + n + m])
  {
    hide QuotedEnd;
    var x := e[..1 + n + m];
    QuotedEndPrefix(e[1..], n + m);
    assert x[1..] == e[1..][..n + m];
    assert x[1 + n..] == e[1 + n..][..m];
  }

  /** What comes before the first "}}" is a closed expression. */
  lemma {:induction false} ClosesThere(e: string)
    requires FindClose(e).Some?
    ensures IsClosed(e[..FindClose(e).value]) && "}}" <= e[FindClose(e).value..]
    decreases |e|
  {
    var m := FindClose(e).value;
    if e[0] == '\'' {
      var n := QuotedEnd(e[1..]).value;
      ClosesThere(e[1 + n..]);
      CloseAfterString(e, n, m - (1 + n));
      assert e[m..] == e[1 + n..][m - (1 + n)..];
    } else if !("}}" <= e) {
      ClosesThere(e[1..]);
      assert e[m..] == e[1..][m - 1..];
      var x := e[..m];
      assert x[1..] == e[1..][..m - 1];
      assert e[1] == '}' ==> e[0] != '}';
      if m == 1 {
        assert e[1..][0..][0] == '}';
      }
    }
  }

  lemma {:induction false} NoOpenBefore(s: string)
    requires Index(s, "${{") >= 0
    ensures Index(s, "${{") + 3 <= |s| && !Contains(s[..Index(s, "${{")], "${{")
    ensures s == s[..Index(s, "${{")] + "${{" + s[Index(s, "${{") + 3..]
  {
    hide Index;
    var k := Index(s, "${{");
    var lit := s[..k];
    forall j ensures !At(lit, "${{", j) {
      if 0 <= j <= |lit| - 3 {
        assert lit[j..j + 3] == s[j..j + 3];
        assert !At(s, "${{", j);
      }
    }
  }

  lemma {:induction false} ConsPart(p: Part, t: Template)
    requires !Contains(p.lit, "${{") && IsClosed(p.expr) && WellFormed(t)
    ensures
      var t' := Template([p] + t.parts, t.tail);
      WellFormed(t') && Render(t') == p.lit + "${{" + p.expr + "}}" + Render(t)
  {
    hide Contains, IsClosed;
    assert ([p] + t.parts)[1..] == t.parts;
  }

  /** A text as a template and what is left open at its end. */
  ghost predicate IsRead(s: string, t: Template, open: Option<string>) {
    && WellFormed(t)
    && (open.Some? ==> Unclosed(open.value))
    && s == if open.None? then Render(t) else Render(t) + "${{" + open.value
  }

  lemma {:induction false} PlainRead(lit: string)
    requires !Contains(lit, "${{")
    ensures IsRead(lit, Template([], lit), None)
    ensures forall e :: Unclosed(e) ==> IsRead(lit + "${{" + e, Template([], lit), Some(e))
  {
    hide Contains, Unclosed;
    assert Render(Template([], lit)) == "" + lit == lit;
  }

  lemma {:induction false} ConsRead(p: Part, rest: string, t: Template, open: Option<string>)
    requires !Contains(p.lit, "${{") && IsClosed(p.expr) && IsRead(rest, t, open)
    ensures IsRead(p.lit + "${{" + p.expr + "}}" + rest, Template([p] + t.parts, t.tail), open)
  {
    hide Contains, IsClosed, Unclosed, WellFormed, Render;
    ConsPart(p, t);
    if open.Some? {
      var head := p.lit + "${{" + p.expr + "}}";
      assert head + (Render(t) + "${{" + open.value) == head + Render(t) + "${{" + open.value;
    }
  }

  lemma {:induction false} SplitClose(s: string, lit: string, e: string, m: nat)
    requires s == lit + "${{" + e && m <= |e| && "}}" <= e[m..]
    ensures m + 2 <= |e| && s == lit + "${{" + e[..m] + "}}" + e[m + 2..]
  {
    assert e[m..] == "}}" + e[m..][2..] && e[m..][2..] == e[m + 2..];
    assert e == e[..m] + e[m..];
  }

  /** Every text is a well-formed template, or one followed by an expression that is never closed. */
  lemma {:induction false} EveryTextIsRead(s: string) returns (t: Template, open: Option<string>)
    ensures IsRead(s, t, open)
    decreases |s|
  {
    hide Index, IsClosed, Unclosed, FindClose, IsRead;
    var k := Index(s, "${{");
    if k < 0 {
      PlainRead(s);
      t, open := Template([], s), None;
    } else {
      NoOpenBefore(s);
      var lit, e := s[..k], s[k + 3..];
      if FindClose(e).None? {
        NoCloseIsUnclosed(e);
        PlainRead(lit);
        t, open := Template([], lit), Some(e);
      } else {
        ClosesThere(e);
        var m := FindClose(e).value;
        SplitClose(s, lit, e, m);
        t, open := EveryTextIsRead(e[m + 2..]);
        ConsRead(Part(lit, e[..m]), e[m + 2..], t, open);
        t := Template([Part(lit, e[..m])] + t.parts, t.tail);
      }
    }
  }

  /** Whether a text read this way comes back as it is. */
  predicate ComesBack(s: string, t: Template, open: Option<string>, forceFormat: bool) {
    || (IsPure(t) && !forceFormat)
    || (open.None? && t.parts == [])
    || (open.Some? && !(Contains(s, "}}") && EndsAtToken(open.value)))
  }

  /** What the compiler makes of a text read this way. */
  function Specified(s: string, t: Template, open: Option<string>, forceFormat: bool): string {
    if ComesBack(s, t, open, forceFormat) then s else FormatCall(FormatOf(t), Exprs(t.parts))
  }

  lemma {:induction false} PlainUnchanged(t: Template, forceFormat: bool)
    requires WellFormed(t) && t.parts == []
    ensures Rewritten(Render(t), forceFormat) == Render(t)
  {
    hide Index;
    assert Render(t) == t.tail;
  }

  /** The compiler's output on every input: the text can be read this way, and that decides the result. */
  lemma {:induction false} RewriteExactly(s: string, forceFormat: bool) returns (t: Template, open: Option<string>)
    ensures IsRead(s, t, open) && Rewritten(s, forceFormat) == Specified(s, t, open, forceFormat)
  {
    hide Rewritten, WellFormed, Unclosed, FormatCall, Contains, EndsAtToken, Render, FormatOf, Exprs, IsPure;
    t, open := EveryTextIsRead(s);
    if open.Some? {
      UnclosedIsDroppedExactly(t, open.value, forceFormat);
    } else if t.parts == [] {
      PlainUnchanged(t, forceFormat);
    } else {
      OnlyPureIsUnchanged(t);
      RewriteOfTemplate(t);
    }
  }
}
