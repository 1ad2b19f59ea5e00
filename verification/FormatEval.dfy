/**
 The meaning of a format('...', ...) call of the expression language, read from its text: string
 literals write a quote as '', arguments are separated by commas outside quotes and brackets, and
 the format string has {n} for an argument, {{ and }} for braces.
 */
module FormatEval {
  import opened Wrappers
  import opened Text
  import opened Rewrite
  import opened RewriteTemplates

  // ---------------------------------------------------------------- format strings

  datatype FState = Pass | BracketOpen(index: string) | BracketClose

  function Prepend(s: string, r: Option<string>): Option<string> {
    if r.None? then None else Some(s + r.value)
  }

  function Format(f: string, st: FState, args: seq<string>): Option<string>
    decreases |f|
  {
    if f == "" then (if st.Pass? then Some("") else None)
    else
      var c, rest := f[0], f[1..];
      match st
      case Pass =>
        if c == '{' then Format(rest, BracketOpen(""), args)
        else if c == '}' then Format(rest, BracketClose, args)
        else Prepend([c], Format(rest, Pass, args))
      case BracketOpen(i) =>
        if c == '{' then Prepend("{", Format(rest, Pass, args))
        else if c != '}' then Format(rest, BracketOpen(i + [c]), args)
        else if i != "" && AllDigits(i) && DigitsValue(i) < |args|
        then Prepend(args[DigitsValue(i)], Format(rest, Pass, args))
        else None
      case BracketClose =>
        if c == '}' then Prepend("}", Format(rest, Pass, args)) else None
  }

  function EscapedChar(c: char): string {
    if c == '{' || c == '}' then [c, c] else [c]
  }

  lemma {:induction false} EscapedHead(s: string)
    requires s != ""
    ensures Escaped(s) == EscapedChar(s[0]) + Escaped(s[1..])
  {
    var c := s[0];
    var first := if c == '{' then "{{" else [c];
    assert Doubled(s, '{') == first + Doubled(s[1..], '{');
    DoubledConcat(first, Doubled(s[1..], '{'), '}');
    assert [c][1..] == "" && "{{"[1..] == "{" && "{"[1..] == "";
    assert Doubled([c], '}') == if c == '}' then "}}" else [c];
    assert Doubled("{{", '}') == "{{";
  }

  lemma {:induction false} FormatEscapedChar(c: char, tail: string, args: seq<string>)
    ensures Format(EscapedChar(c) + tail, Pass, args) == Prepend([c], Format(tail, Pass, args))
  {
    var f := EscapedChar(c) + tail;
    if c == '{' || c == '}' {
      assert f[1..] == [c] + tail;
      assert f[1..][1..] == tail;
    } else {
      assert f[1..] == tail;
    }
  }

  lemma {:induction false} EscapedEmpty()
    ensures Escaped("") == ""
  {
  }

  /** Escaped text evaluates to the text. */
  lemma {:induction false} FormatEscaped(lit: string, rest: string, args: seq<string>)
    ensures Format(Escaped(lit) + rest, Pass, args) == Prepend(lit, Format(rest, Pass, args))
    decreases |lit|
  {
    hide Format, EscapedChar, Escaped;
    var value := Format(rest, Pass, args);
    if lit == "" {
      EscapedEmpty();
      assert "" + rest == rest;
      assert value.Some? ==> "" + value.value == value.value;
    } else {
      var c, tail := lit[0], Escaped(lit[1..]) + rest;
      EscapedHead(lit);
      assert Escaped(lit) + rest == EscapedChar(c) + tail;
      FormatEscapedChar(c, tail, args);
      FormatEscaped(lit[1..], rest, args);
      assert value.Some? ==> [c] + (lit[1..] + value.value) == lit + value.value;
    }
  }

  lemma {:induction false} FormatDigits(digits: string, i: string, rest: string, args: seq<string>)
    requires AllDigits(digits)
    ensures Format(digits + rest, BracketOpen(i), args) == Format(rest, BracketOpen(i + digits), args)
    decreases |digits|
  {
    if digits == "" {
      assert digits + rest == rest && i + digits == i;
    } else {
      assert (digits + rest)[1..] == digits[1..] + rest;
      FormatDigits(digits[1..], i + [digits[0]], rest, args);
      assert i + [digits[0]] + digits[1..] == i + digits;
    }
  }

  /** A placeholder, of any number of digits, evaluates to its argument. */
  lemma {:induction false} FormatPlaceholder(n: nat, rest: string, args: seq<string>)
    requires n < |args|
    ensures Format("{" + Decimal(n) + "}" + rest, Pass, args) == Prepend(args[n], Format(rest, Pass, args))
  {
    var f := "{" + Decimal(n) + "}" + rest;
    assert f[1..] == Decimal(n) + ("}" + rest);
    FormatDigits(Decimal(n), "", "}" + rest, args);
    assert "" + Decimal(n) == Decimal(n);
    DecimalValue(n);
    assert ("}" + rest)[1..] == rest;
  }

  // ---------------------------------------------------------------- calls

  /** The text of a string literal after its opening quote, and what follows the literal. */
  function Unquote(t: string): Option<(string, string)> {
    if t == "" then None
    else if t[0] != '\'' then
      match Unquote(t[1..])
      case None => None
      case Some((x, rest)) => Some(([t[0]] + x, rest))
    else if |t| >= 2 && t[1] == '\'' then
      match Unquote(t[2..])
      case None => None
      case Some((x, rest)) => Some(("'" + x, rest))
    else Some(("", t[1..]))
  }

  lemma {:induction false} UnquoteDoubled(x: string, rest: string)
    requires rest != "" && rest[0] != '\''
    ensures Unquote(Doubled(x, '\'') + "'" + rest) == Some((x, rest))
    decreases |x|
  {
    var t := Doubled(x, '\'') + "'" + rest;
    if x == "" {
      assert t == "'" + rest;
    } else {
      UnquoteDoubled(x[1..], rest);
      var t' := Doubled(x[1..], '\'') + "'" + rest;
      assert [x[0]] + x[1..] == x;
      if x[0] == '\'' {
        assert t == "''" + t';
        assert t[2..] == t';
      } else {
        assert t == [x[0]] + t';
      }
    }
  }

  /** The arguments of a call, up to the parenthesis that ends the text. */
  function SplitArgs(s: string, depth: nat, cur: string): Option<seq<string>>
    decreases |s|
  {
    if s == "" then None
    else
      var c, rest := s[0], s[1..];
      if c == '\'' then
        match QuotedEnd(rest)
        case None => None
        case Some(n) => SplitArgs(rest[n..], depth, cur + s[..1 + n])
      else if c == ',' && depth == 0 then
        match SplitArgs(rest, 0, "")
        case None => None
        case Some(more) => Some([Trim(cur)] + more)
      else if c == ')' && depth == 0 then (if rest == "" then Some([Trim(cur)]) else None)
      else if c == ')' || c == ']' then (if depth == 0 then None else SplitArgs(rest, depth - 1, cur + [c]))
      else SplitArgs(rest, if c == '(' || c == '[' then depth + 1 else depth, cur + [c])
  }

  /** Quotes and brackets balance, from the given depth down to none, and no comma stands outside them. */
  predicate Balanced(e: string, depth: nat)
    decreases |e|
  {
    if e == "" then depth == 0
    else
      var c, rest := e[0], e[1..];
      if c == '\'' then QuotedEnd(rest).Some? && Balanced(rest[QuotedEnd(rest).value..], depth)
      else if c == ',' then depth > 0 && Balanced(rest, depth)
      else if c == ')' || c == ']' then depth > 0 && Balanced(rest, depth - 1)
      else Balanced(rest, if c == '(' || c == '[' then depth + 1 else depth)
  }

  /** One argument of a call: a text that is not blank, in which quotes and brackets balance, with no bare comma. */
  predicate IsArgument(e: string) {
    e != "" && Balanced(e, 0)
  }

  /** Trimmed texts that each read as one argument. */
  ghost predicate AreArguments(es: seq<string>) {
    forall i :: 0 <= i < |es| ==> IsArgument(es[i]) && Trimmed(es[i])
  }

  lemma {:induction false} QuotedEndExtends(t: string, post: string)
    requires QuotedEnd(t).Some? && (post == "" || post[0] != '\'')
    ensures QuotedEnd(t + post) == QuotedEnd(t)
    decreases |t|
  {
    if t[0] != '\'' {
      assert (t + post)[1..] == t[1..] + post;
      QuotedEndExtends(t[1..], post);
    } else if |t| >= 2 && t[1] == '\'' {
      assert (t + post)[2..] == t[2..] + post;
      QuotedEndExtends(t[2..], post);
    }
  }

  /** The bracket depth after a character outside quotes. */
  function DepthAfter(c: char, depth: nat): int {
    if c == ')' || c == ']' then depth - 1 else if c == '(' || c == '[' then depth + 1 else depth
  }

  lemma {:induction false} ArgumentChar(e: string, depth: nat)
    requires e != "" && e[0] != '\''
    ensures Balanced(e, depth) <==>
            DepthAfter(e[0], depth) >= 0 && !(e[0] == ',' && depth == 0) && Balanced(e[1..], DepthAfter(e[0], depth))
  {
  }

  lemma {:induction false} ArgumentQuote(e: string, depth: nat)
    requires e != "" && e[0] == '\''
    ensures Balanced(e, depth) <==>
            QuotedEnd(e[1..]).Some? && Balanced(e[1..][QuotedEnd(e[1..]).value..], depth)
  {
  }

  lemma {:induction false} SplitArgsChar(s: string, depth: nat, cur: string)
    requires s != "" && s[0] != '\'' && DepthAfter(s[0], depth) >= 0 && !((s[0] == ',' || s[0] == ')') && depth == 0)
    ensures SplitArgs(s, depth, cur) == SplitArgs(s[1..], DepthAfter(s[0], depth), cur + [s[0]])
  {
  }

  lemma {:induction false} SplitArgsQuote(s: string, depth: nat, cur: string, n: nat)
    requires s != "" && s[0] == '\'' && QuotedEnd(s[1..]) == Some(n)
    ensures SplitArgs(s, depth, cur) == SplitArgs(s[1..][n..], depth, cur + s[..1 + n])
  {
  }

  lemma {:induction false} SplitOne(e: string, depth: nat, cur: string, post: string)
    requires Balanced(e, depth) && post != "" && post[0] != '\''
    ensures SplitArgs(e + post, depth, cur) == SplitArgs(post, 0, cur + e)
    decreases |e|
  {
    hide SplitArgs, QuotedEnd;
    if e == "" {
      assert e + post == post && cur + e == cur;
    } else {
      hide Balanced;
      var s, c, rest := e + post, e[0], e[1..];
      assert s[0] == c && s[1..] == rest + post;
      if c == '\'' {
        ArgumentQuote(e, depth);
        var n := QuotedEnd(rest).value;
        QuotedEndExtends(rest, post);
        SplitArgsQuote(s, depth, cur, n);
        assert (rest + post)[n..] == rest[n..] + post;
        assert s[..1 + n] == e[..1 + n];
        SplitOne(rest[n..], depth, cur + e[..1 + n], post);
        assert cur + e[..1 + n] + rest[n..] == cur + e;
      } else {
        ArgumentChar(e, depth);
        SplitArgsChar(s, depth, cur);
        SplitOne(rest, DepthAfter(c, depth), cur + [c], post);
        assert cur + [c] + rest == cur + e;
      }
    }
  }

  lemma {:induction false} SplitSpace(t: string)
    ensures SplitArgs(" " + t, 0, "") == SplitArgs(t, 0, " ")
  {
    assert (" " + t)[1..] == t;
    assert "" + " " == " ";
  }

  lemma {:induction false} SplitComma(rest: string, cur: string, more: seq<string>)
    requires SplitArgs(rest, 0, "") == Some(more)
    ensures SplitArgs("," + rest, 0, cur) == Some([Trim(cur)] + more)
  {
    assert ("," + rest)[1..] == rest;
  }

  lemma {:induction false} SplitEnd(cur: string)
    ensures SplitArgs(")", 0, cur) == Some([Trim(cur)])
  {
  }

  lemma {:induction false} SplitJoined(es: seq<string>)
    requires es != [] && AreArguments(es)
    ensures SplitArgs(" " + Join(es, ", ") + ")", 0, "") == Some(es)
    decreases |es|
  {
    hide SplitArgs, Balanced, Trim, Trimmed;
    var e := es[0];
    assert e in es;
    TrimLeadingSpace(e);
    if |es| == 1 {
      assert " " + Join(es, ", ") + ")" == " " + (e + ")");
      SplitSpace(e + ")");
      SplitOne(e, 0, " ", ")");
      SplitEnd(" " + e);
      assert es == [e];
    } else {
      var rest := " " + Join(es[1..], ", ") + ")";
      SplitJoined(es[1..]);
      assert " " + Join(es, ", ") + ")" == " " + (e + ("," + rest));
      SplitSpace(e + ("," + rest));
      SplitOne(e, 0, " ", "," + rest);
      SplitComma(rest, " " + e, es[1..]);
      assert [e] + es[1..] == es;
    }
  }

  /** Format string and argument texts of a call. */
  function ReadCall(out: string): Option<(string, seq<string>)> {
    if !("format('" <= out) then None
    else
      match Unquote(out[8..])
      case None => None
      case Some((f, rest)) =>
        if rest == "" || rest[0] != ',' then None
        else
          match SplitArgs(rest[1..], 0, "")
          case None => None
          case Some(args) => if "" in args then None else Some((f, args))
  }

  lemma {:induction false} ReadFormatCall(f: string, es: seq<string>)
    requires es != [] && AreArguments(es)
    ensures ReadCall(FormatCall(f, es)) == Some((f, es))
  {
    hide SplitArgs, Unquote, Join, Balanced, Trimmed, Doubled;
    var out := FormatCall(f, es);
    var rest := ", " + Join(es, ", ") + ")";
    assert out == "format('" + (Doubled(f, '\'') + "'" + rest);
    assert out[8..] == Doubled(f, '\'') + "'" + rest;
    UnquoteDoubled(f, rest);
    assert rest[1..] == " " + Join(es, ", ") + ")";
    SplitJoined(es);
  }

  /** The value of a call, given the value of each argument's text. */
  function Evaluate(out: string, val: string -> string): Option<string> {
    match ReadCall(out)
    case None => None
    case Some((f, args)) => Format(f, Pass, seq(|args|, i requires 0 <= i < |args| => val(args[i])))
  }

  // ---------------------------------------------------------------- the theorem

  function MeaningOfParts(parts: seq<Part>, val: string -> string): string {
    if parts == [] then ""
    else parts[0].lit + val(Trim(parts[0].expr)) + MeaningOfParts(parts[1..], val)
  }

  /** What a template stands for: its literals with the expressions' values in between. */
  function Meaning(t: Template, val: string -> string): string {
    MeaningOfParts(t.parts, val) + t.tail
  }

  /** Every expression of the template reads as one argument. */
  ghost predicate ReadAsArguments(t: Template) {
    forall i :: 0 <= i < |t.parts| ==> IsArgument(Trim(t.parts[i].expr))
  }

  lemma {:induction false} FormatOfParts(
    parts: seq<Part>, n: nat, args: seq<string>, rest: string, val: string -> string)
    requires n + |parts| <= |args|
    requires forall i :: 0 <= i < |parts| ==> args[n + i] == val(Trim(parts[i].expr))
    ensures Format(FormatParts(parts, n) + rest, Pass, args) ==
            Prepend(MeaningOfParts(parts, val), Format(rest, Pass, args))
    decreases |parts|
  {
    hide Format, Escaped, Decimal, Trim;
    if parts == [] {
      assert "" + rest == rest;
      if Format(rest, Pass, args).Some? {
        assert "" + Format(rest, Pass, args).value == Format(rest, Pass, args).value;
      }
    } else {
      var p := parts[0];
      var more := FormatParts(parts[1..], n + 1) + rest;
      var placeholder := "{" + Decimal(n) + "}" + more;
      FormatOfParts(parts[1..], n + 1, args, rest, val);
      FormatPlaceholder(n, more, args);
      FormatEscaped(p.lit, placeholder, args);
      assert FormatParts(parts, n) + rest == Escaped(p.lit) + placeholder;
      assert args[n + 0] == val(Trim(p.expr));
      var value := Format(rest, Pass, args);
      if value.Some? {
        var m := MeaningOfParts(parts[1..], val);
        assert p.lit + (args[n] + (m + value.value)) == p.lit + args[n] + m + value.value;
      }
    }
  }

  /**
   For every well-formed template with at least one expression, reading back and evaluating the
   call that rewriteSubExpression builds gives the literals joined with the expressions' values.
   */
  lemma {:induction false} RewritePreservesMeaning(t: Template, val: string -> string)
    requires WellFormed(t) && t.parts != []
    requires ReadAsArguments(t)
    ensures Evaluate(Rewritten(Render(t), true), val) == Some(Meaning(t, val))
  {
    hide Rewritten, Format, IsArgument, Trim, FormatCall, ReadCall, Escaped, WellFormed;
    var es := Exprs(t.parts);
    RewriteOfTemplate(t);
    ExprsAt(t.parts, 0);
    forall i | 0 <= i < |es| ensures IsArgument(es[i]) && Trimmed(es[i]) {
      ExprsAt(t.parts, i);
    }
    ReadFormatCall(FormatOf(t), es);
    var args := seq(|es|, i requires 0 <= i < |es| => val(es[i]));
    forall i | 0 <= i < |t.parts| ensures args[0 + i] == val(Trim(t.parts[i].expr)) {
      ExprsAt(t.parts, i);
    }
    FormatOfParts(t.parts, 0, args, Escaped(t.tail), val);
    FormatTail(t.tail, args);
  }

  lemma {:induction false} FormatEmpty(args: seq<string>)
    ensures Format("", Pass, args) == Some("")
  {
  }

  // ---------------------------------------------------------------- exactly when

  lemma {:induction false} DropLastSpace(e: string, depth: nat)
    requires e != "" && IsSpace(e[|e| - 1]) && Balanced(e, depth)
    ensures Balanced(e[..|e| - 1], depth)
    decreases |e|
  {
    hide Balanced, QuotedEnd;
    var rest, x := e[1..], e[..|e| - 1];
    if e[0] == '\'' {
      ArgumentQuote(e, depth);
      var n := QuotedEnd(rest).value;
      QuotedEndPrefix(rest, |rest|);
      assert rest[|rest| - 1] == e[|e| - 1];
      QuotedEndPrefix(rest, |rest| - 1);
      assert x[1..] == rest[..|rest| - 1];
      assert rest[n..][..|rest[n..]| - 1] == x[1..][n..];
      DropLastSpace(rest[n..], depth);
      ArgumentQuote(x, depth);
    } else {
      ArgumentChar(e, depth);
      if |e| == 1 {
        assert rest == x;
      } else {
        assert x[1..] == rest[..|rest| - 1];
        DropLastSpace(rest, DepthAfter(e[0], depth));
        ArgumentChar(x, depth);
      }
    }
  }

  lemma {:induction false} TrimRightKeepsArgument(e: string)
    requires Balanced(e, 0)
    ensures Balanced(TrimRight(e), 0)
    decreases |e|
  {
    hide Balanced;
    if e != "" && IsSpace(e[|e| - 1]) {
      DropLastSpace(e, 0);
      TrimRightKeepsArgument(e[..|e| - 1]);
    }
  }

  lemma {:induction false} TrimKeepsArgument(e: string)
    requires Balanced(e, 0)
    ensures Balanced(Trim(e), 0)
    decreases |e|
  {
    if e != "" && IsSpace(e[0]) {
      TrimKeepsArgument(e[1..]);
    } else {
      TrimRightKeepsArgument(e);
    }
  }

  ghost predicate SplitsAt(s: string, depth: nat, cur: string, k: nat, args: seq<string>) {
    && args != [] && k <= |s| && Balanced(s[..k], depth) && args[0] == Trim(cur + s[..k])
    && RestAreArguments(args)
  }

  ghost predicate RestAreArguments(args: seq<string>) {
    forall i :: 1 <= i < |args| ==> Balanced(args[i], 0)
  }

  lemma {:induction false} ArgumentAfterQuote(s: string, depth: nat, n: nat, k: nat)
    requires s != "" && s[0] == '\'' && QuotedEnd(s[1..]) == Some(n) && 1 + n + k <= |s|
    requires Balanced(s[1..][n..][..k], depth)
    ensures Balanced(s[..1 + n + k], depth)
  {
    hide Balanced, QuotedEnd;
    var rest := s[1..];
    QuotedEndPrefix(rest, n + k);
    assert s[..1 + n + k][1..] == rest[..n + k];
    assert rest[..n + k][n..] == rest[n..][..k];
    ArgumentQuote(s[..1 + n + k], depth);
  }

  lemma {:induction false} SplitsChar(s: string, depth: nat, cur: string, k: nat, args: seq<string>)
    requires s != "" && s[0] != '\'' && DepthAfter(s[0], depth) >= 0 && !(s[0] == ',' && depth == 0)
    requires SplitsAt(s[1..], DepthAfter(s[0], depth), cur + [s[0]], k, args)
    ensures SplitsAt(s, depth, cur, 1 + k, args)
  {
    hide Trim, Balanced;
    assert s[..1 + k][0] == s[0] && s[..1 + k][1..] == s[1..][..k];
    ArgumentChar(s[..1 + k], depth);
    assert cur + [s[0]] + s[1..][..k] == cur + s[..1 + k];
  }

  /** Splitting yields arguments: the first one reaches up to some k. */
  lemma {:induction false} SplitsIntoArguments(s: string, depth: nat, cur: string) returns (k: nat)
    requires SplitArgs(s, depth, cur).Some?
    ensures SplitsAt(s, depth, cur, k, SplitArgs(s, depth, cur).value)
    decreases |s|
  {
    hide Trim, QuotedEnd;
    var c, rest, args := s[0], s[1..], SplitArgs(s, depth, cur).value;
    if c == '\'' {
      hide Balanced, RestAreArguments;
      var n := QuotedEnd(rest).value;
      k := SplitsIntoArguments(rest[n..], depth, cur + s[..1 + n]);
      ArgumentAfterQuote(s, depth, n, k);
      assert cur + s[..1 + n] + rest[n..][..k] == cur + s[..1 + n + k];
      k := 1 + n + k;
    } else if (c == ',' || c == ')') && depth == 0 {
      k := 0;
      assert cur + s[..0] == cur;
      if c == ',' {
        var k' := SplitsIntoArguments(rest, 0, "");
        assert "" + rest[..k'] == rest[..k'];
        TrimKeepsArgument(rest[..k']);
      }
    } else {
      hide Balanced, SplitsAt;
      k := SplitsIntoArguments(rest, DepthAfter(c, depth), cur + [c]);
      SplitsChar(s, depth, cur, k, args);
      k := 1 + k;
    }
  }

  /** Every argument text read from a call is one argument. */
  lemma {:induction false} ReadsArguments(out: string)
    requires ReadCall(out).Some?
    ensures forall i :: 0 <= i < |ReadCall(out).value.1| ==> IsArgument(ReadCall(out).value.1[i])
  {
    hide SplitArgs, Balanced, Trim;
    var s := Unquote(out[8..]).value.1[1..];
    var k := SplitsIntoArguments(s, 0, "");
    assert "" + s[..k] == s[..k];
    TrimKeepsArgument(s[..k]);
  }

  /** The format string of a call reads back whatever its arguments look like. */
  lemma {:induction false} ReadsFormat(f: string, es: seq<string>)
    ensures ReadCall(FormatCall(f, es)).Some? ==> ReadCall(FormatCall(f, es)).value.0 == f
  {
    hide SplitArgs, Unquote, Join, Doubled;
    var rest := ", " + Join(es, ", ") + ")";
    assert FormatCall(f, es) == "format('" + (Doubled(f, '\'') + "'" + rest);
    assert FormatCall(f, es)[8..] == Doubled(f, '\'') + "'" + rest;
    UnquoteDoubled(f, rest);
  }

  lemma {:induction false} MissingArgument(n: nat, rest: string, args: seq<string>)
    requires n >= |args|
    ensures Format("{" + Decimal(n) + "}" + rest, Pass, args) == None
  {
    var f := "{" + Decimal(n) + "}" + rest;
    assert f[1..] == Decimal(n) + ("}" + rest);
    FormatDigits(Decimal(n), "", "}" + rest, args);
    assert "" + Decimal(n) == Decimal(n);
    DecimalValue(n);
  }

  lemma {:induction false} TooFewArguments(parts: seq<Part>, n: nat, args: seq<string>, rest: string)
    requires n + |parts| > |args| && n <= |args|
    ensures Format(FormatParts(parts, n) + rest, Pass, args) == None
    decreases |parts|
  {
    hide Format, Escaped, Decimal;
    var p := parts[0];
    var more := FormatParts(parts[1..], n + 1) + rest;
    var placeholder := "{" + Decimal(n) + "}" + more;
    assert FormatParts(parts, n) + rest == Escaped(p.lit) + placeholder;
    FormatEscaped(p.lit, placeholder, args);
    if n == |args| {
      MissingArgument(n, more, args);
    } else {
      FormatPlaceholder(n, more, args);
      TooFewArguments(parts[1..], n + 1, args, rest);
    }
  }

  /** The valuation that tells one expression from all others. */
  function Mark(e: string): string -> string {
    (x: string) => if x == e then "1" else ""
  }

  lemma {:induction false} MarkShows(parts: seq<Part>, e: string, i: nat)
    requires i <= |parts| && (i < |parts| ==> Trim(parts[i].expr) == e)
    ensures |MeaningOfParts(parts, Mark(e))| >= |MeaningOfParts(parts, _ => "")| + if i < |parts| then 1 else 0
    decreases |parts|
  {
    hide Trim;
    if parts != [] {
      MarkShows(parts[1..], e, if 0 < i then i - 1 else |parts| - 1);
    }
  }

  lemma {:induction false} MarkHides(e: string, x: string)
    requires IsArgument(x) && !IsArgument(e)
    ensures Mark(e)(x) == ""
  {
    hide IsArgument;
    assert x != e;
  }

  /** When an expression is not one argument, the valuation that marks it tells call and template apart. */
  lemma {:induction false} BadArgumentShows(t: Template, i: nat)
    requires WellFormed(t) && i < |t.parts| && !IsArgument(Trim(t.parts[i].expr))
    ensures
      var val := Mark(Trim(t.parts[i].expr));
      Evaluate(Rewritten(Render(t), true), val) != Some(Meaning(t, val))
  {
    hide Rewritten, Format, IsArgument, Trim, FormatCall, ReadCall, Escaped, WellFormed;
    var e := Trim(t.parts[i].expr);
    RewriteOfTemplate(t);
    var out := FormatCall(FormatOf(t), Exprs(t.parts));
    if ReadCall(out).Some? {
      ReadsFormat(FormatOf(t), Exprs(t.parts));
      ReadsArguments(out);
      var texts := ReadCall(out).value.1;
      var args := seq(|texts|, k requires 0 <= k < |texts| => Mark(e)(texts[k]));
      forall k | 0 <= k < |texts| ensures args[k] == "" {
        MarkHides(e, texts[k]);
      }
      if |args| < |t.parts| {
        TooFewArguments(t.parts, 0, args, Escaped(t.tail));
      } else {
        FormatOfParts(t.parts, 0, args, Escaped(t.tail), _ => "");
        FormatTail(t.tail, args);
        MarkShows(t.parts, e, i);
        assert Evaluate(out, Mark(e)) == Some(MeaningOfParts(t.parts, _ => "") + t.tail);
      }
    }
  }

  lemma {:induction false} FormatTail(tail: string, args: seq<string>)
    ensures Format(Escaped(tail), Pass, args) == Some(tail)
  {
    hide Escaped, Format;
    FormatEscaped(tail, "", args);
    assert Escaped(tail) + "" == Escaped(tail);
    FormatEmpty(args);
    assert tail + "" == tail;
  }

  /**
   A well-formed template keeps its meaning under every valuation exactly when each of its
   expressions reads as one argument: not blank, brackets balanced and no comma outside them.
   */
  lemma {:induction false} MeaningPreservedExactly(t: Template)
    requires WellFormed(t) && t.parts != []
    ensures (forall val: string -> string :: Evaluate(Rewritten(Render(t), true), val) == Some(Meaning(t, val)))
            <==> ReadAsArguments(t)
  {
    hide Rewritten, Evaluate, Meaning, IsArgument, Trim, WellFormed, Render;
    if i :| 0 <= i < |t.parts| && !IsArgument(Trim(t.parts[i].expr)) {
      BadArgumentShows(t, i);
      var val := Mark(Trim(t.parts[i].expr));
      assert Evaluate(Rewritten(Render(t), true), val) != Some(Meaning(t, val));
    } else {
      forall val: string -> string ensures Evaluate(Rewritten(Render(t), true), val) == Some(Meaning(t, val)) {
        RewritePreservesMeaning(t, val);
      }
    }
  }
}
