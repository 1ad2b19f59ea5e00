/**
 Secret masking: logMasker (pkg/reporter/reporter.go) and the workflow commands that feed it
 (pkg/reporter/commands.go).  Strings are sequences of bytes.
 */
module Masking {
  import opened Wrappers
  import opened Text

  const STARS: string := "***"

  /** The first secret, in registration order, that matches at the front of s. */
  function FirstMatch(secrets: seq<string>, s: string): (m: Option<string>)
    ensures m.Some? ==> m.value in secrets && m.value <= s
    ensures m.None? ==> forall x <- secrets :: !(x <= s)
  {
    if secrets == [] then None
    else if secrets[0] <= s then Some(secrets[0])
    else
      assert secrets == [secrets[0]] + secrets[1..];
      FirstMatch(secrets[1..], s)
  }

  /**
   strings.Replacer with every secret mapped to "***": scan left to right, and at each position
   replace the first registered secret that matches there.  Empty secrets are never registered.
   */
  function Mask(secrets: seq<string>, s: string): string {
    if s == [] then []
    else
      var m := FirstMatch(secrets, s);
      if m.Some? && m.value != "" then STARS + Mask(secrets, s[|m.value|..])
      else [s[0]] + Mask(secrets, s[1..])
  }

  ghost predicate OccursAt(x: string, s: string, k: nat) {
    k <= |s| && x <= s[k..]
  }

  ghost predicate Occurs(x: string, s: string) {
    exists k: nat :: OccursAt(x, s, k)
  }

  /** Registration: values of at most three bytes are ignored. */
  function Register(secrets: seq<string>, value: string): seq<string> {
    if |value| > 3 then secrets + [value] else secrets
  }

  /** newLogMasker: the values long enough to be masked, in order. */
  function LongOnly(values: seq<string>): seq<string> {
    if values == [] then []
    else (if |values[0]| > 3 then [values[0]] else []) + LongOnly(values[1..])
  }

  lemma {:induction false} LongOnlyExactly(values: seq<string>)
    ensures AllLong(LongOnly(values))
    ensures forall x :: x in LongOnly(values) <==> x in values && |x| > 3
    decreases |values|
  {
    if values != [] {
      LongOnlyExactly(values[1..]);
      assert values == [values[0]] + values[1..];
    }
  }

  /** Registration keeps the order of the values. */
  lemma {:induction false} LongOnlyInOrder(a: seq<string>, x: string, b: seq<string>)
    ensures LongOnly(a + [x] + b) == LongOnly(a) + (if |x| > 3 then [x] else []) + LongOnly(b)
    decreases |a|
  {
    var values := a + [x] + b;
    if a == [] {
      assert values[0] == x && values[1..] == b;
    } else {
      assert values[0] == a[0] && values[1..] == a[1..] + [x] + b;
      LongOnlyInOrder(a[1..], x, b);
    }
  }

  predicate AllLong(secrets: seq<string>) {
    forall x <- secrets :: |x| > 3
  }

  /** A secret that no masked text can contain: no star at either end and no "***" inside. */
  ghost predicate Hideable(x: string) {
    x != "" && x[0] != '*' && x[|x| - 1] != '*' && !Occurs(STARS, x)
  }

  lemma {:induction false} NoStarsInTail(x: string)
    requires x != "" && !Occurs(STARS, x)
    ensures !Occurs(STARS, x[1..]) && !(STARS <= x)
  {
    OccursShift(STARS, x);
  }

  /** A string that stays clear of the stars and is in front of the masked text was in front of the text. */
  lemma {:induction false} StarFreePrefix(secrets: seq<string>, s: string, x: string)
    requires AllLong(secrets)
    requires !Occurs(STARS, x) && (x == "" || x[|x| - 1] != '*') && x <= Mask(secrets, s)
    ensures x <= s
    decreases |s|
  {
    hide Occurs;
    if x != [] {
      NoStarsInTail(x);
      var m := FirstMatch(secrets, s);
      var out := Mask(secrets, s);
      assert s != [];
      assert m.Some? ==> STARS <= out;
      assert m.None?;
      assert out == [s[0]] + Mask(secrets, s[1..]);
      assert x[1..] <= Mask(secrets, s[1..]) by {
        assert out[1..] == Mask(secrets, s[1..]);
      }
      StarFreePrefix(secrets, s[1..], x[1..]);
      assert x == [x[0]] + x[1..] && s == [s[0]] + s[1..];
    }
  }

  /** Refutation: a registered hideable secret does not occur in the masked text. */
  lemma {:induction false} MaskHidesAt(secrets: seq<string>, s: string, x: string, k: nat)
    requires AllLong(secrets) && x in secrets && Hideable(x)
    requires OccursAt(x, Mask(secrets, s), k)
    ensures false
    decreases |s|
  {
    hide Occurs;
    var out := Mask(secrets, s);
    assert out != [];
    var m := FirstMatch(secrets, s);
    assert x[0] == out[k];
    if m.Some? {
      assert out[..3] == STARS;
      assert out[k..] == Mask(secrets, s[|m.value|..])[k - 3..];
      MaskHidesAt(secrets, s[|m.value|..], x, k - 3);
    } else if k == 0 {
      assert out[0..] == out;
      StarFreePrefix(secrets, s, x);
    } else {
      assert out[k..] == Mask(secrets, s[1..])[k - 1..];
      MaskHidesAt(secrets, s[1..], x, k - 1);
    }
  }

  /** No masked text contains a registered hideable secret. */
  lemma {:induction false} MaskHides(secrets: seq<string>, s: string, x: string)
    requires AllLong(secrets) && x in secrets && Hideable(x)
    ensures !Occurs(x, Mask(secrets, s))
  {
    forall k: nat | OccursAt(x, Mask(secrets, s), k) ensures false {
      MaskHidesAt(secrets, s, x, k);
    }
  }

  lemma {:induction false} OccursShift(x: string, s: string)
    requires s != []
    ensures x <= s ==> Occurs(x, s)
    ensures Occurs(x, s[1..]) ==> Occurs(x, s)
  {
    assert s[0..] == s;
    assert x <= s ==> OccursAt(x, s, 0);
    forall k: nat | OccursAt(x, s[1..], k) ensures Occurs(x, s) {
      assert s[1..][k..] == s[k + 1..];
      assert OccursAt(x, s, k + 1);
    }
  }

  lemma {:induction false} FirstMatchIs(secrets: seq<string>, s: string, k: nat)
    requires k < |secrets| && secrets[k] <= s && forall j :: 0 <= j < k ==> !(secrets[j] <= s)
    ensures FirstMatch(secrets, s) == Some(secrets[k])
    decreases k
  {
    if k > 0 {
      FirstMatchIs(secrets[1..], s, k - 1);
    }
  }

  /**
   What masking does, from left to right: up to the first place where a secret matches the text is
   unchanged; there the secret registered first among those that match becomes three stars, and
   masking goes on behind it.
   */
  lemma {:induction false} MaskFirst(secrets: seq<string>, u: string, k: nat, v: string)
    requires k < |secrets| && secrets[k] != ""
    requires forall j :: 0 <= j < k ==> !(secrets[j] <= secrets[k] + v)
    requires forall i, x :: 0 <= i < |u| && x in secrets ==> !(x <= (u + secrets[k] + v)[i..])
    ensures Mask(secrets, u + secrets[k] + v) == u + "***" + Mask(secrets, v)
    decreases |u|
  {
    var s := u + secrets[k] + v;
    if u == "" {
      assert s == secrets[k] + v && s[|secrets[k]|..] == v;
      FirstMatchIs(secrets, s, k);
    } else {
      assert s[0..] == s;
      assert forall x <- secrets :: !(x <= s[0..]);
      assert FirstMatch(secrets, s).None?;
      assert s[1..] == u[1..] + secrets[k] + v;
      forall i, x | 0 <= i < |u[1..]| && x in secrets ensures !(x <= (u[1..] + secrets[k] + v)[i..]) {
        assert s[1..][i..] == s[i + 1..];
      }
      MaskFirst(secrets, u[1..], k, v);
    }
  }

  /** Text without a secret in it is left alone. */
  lemma {:induction false} MaskKeeps(secrets: seq<string>, s: string)
    requires forall x <- secrets :: !Occurs(x, s)
    ensures Mask(secrets, s) == s
    decreases |s|
  {
    hide Occurs;
    if s != [] {
      forall x <- secrets ensures !(x <= s) && !Occurs(x, s[1..]) {
        OccursShift(x, s);
      }
      MaskKeeps(secrets, s[1..]);
    }
  }

  lemma {:induction false} MaskIdempotent(secrets: seq<string>, s: string)
    requires AllLong(secrets) && forall x <- secrets :: Hideable(x)
    ensures Mask(secrets, Mask(secrets, s)) == Mask(secrets, s)
  {
    forall x <- secrets ensures !Occurs(x, Mask(secrets, s)) {
      MaskHides(secrets, s, x);
    }
    MaskKeeps(secrets, Mask(secrets, s));
  }

  // ---------------------------------------------------------------- exactly the hideable secrets

  lemma {:induction false} MaskOne(x: string, s: string)
    requires x != "" && s != ""
    ensures Mask([x], s) == if x <= s then STARS + Mask([x], s[|x|..]) else [s[0]] + Mask([x], s[1..])
  {
    assert [x][0] == x && [x][1..] == [];
  }

  /** With one secret, what precedes its first occurrence is left alone. */
  lemma {:induction false} MaskUpTo(x: string, s: string, k: nat)
    requires x != "" && OccursAt(x, s, k) && forall j: nat :: j < k ==> !OccursAt(x, s, j)
    ensures k + |x| <= |s| && Mask([x], s) == s[..k] + STARS + Mask([x], s[k + |x|..])
    decreases k
  {
    hide Mask;
    assert s[0..] == s;
    MaskOne(x, s);
    if k == 0 {
      assert s[..0] == [];
    } else {
      assert !OccursAt(x, s, 0);
      assert s[1..][k - 1..] == s[k..];
      forall j: nat | j < k - 1 ensures !OccursAt(x, s[1..], j) {
        assert s[1..][j..] == s[j + 1..];
        assert !OccursAt(x, s, j + 1);
      }
      MaskUpTo(x, s[1..], k - 1);
      assert s[1..][k - 1 + |x|..] == s[k + |x|..];
      assert s[..k] == [s[0]] + s[1..][..k - 1];
    }
  }

  lemma {:induction false} ShortKeeps(x: string, s: string)
    requires |s| < |x|
    ensures Mask([x], s) == s
  {
    MaskKeeps([x], s);
  }

  /** x occurs in x[..k] + x + tail before position k only if it repeats with period k - j. */
  lemma {:induction false} EarlierMatchRepeats(x: string, k: nat, tail: string, j: nat)
    requires j < k < |x| && OccursAt(x, x[..k] + x + tail, j)
    ensures x[0] == x[j] && forall i :: k - j <= i < |x| ==> x[i] == x[i - (k - j)]
  {
    var s, d := x[..k] + x + tail, k - j;
    assert forall i :: 0 <= i < |x| ==> s[j..][i] == s[j + i] == x[i];
    forall i | d <= i < |x| ensures x[i] == x[i - d] {
      assert s[j + i] == x[j + i - k];
    }
  }

  /** The text x[..k] + x + tail comes out as x[..k] + "***" + tail, unless x repeats itself too early. */
  lemma {:induction false} MaskInside(x: string, k: nat, tail: string)
    requires k < |x| && |tail| < |x|
    requires forall j: nat :: j < k ==> !OccursAt(x, x[..k] + x + tail, j)
    ensures Mask([x], x[..k] + x + tail) == x[..k] + STARS + tail
  {
    var s := x[..k] + x + tail;
    assert s[k..] == x + tail && s[k + |x|..] == tail && s[..k] == x[..k];
    MaskUpTo(x, s, k);
    ShortKeeps(x, tail);
  }

  lemma {:induction false} FirstOccurrence(p: string, s: string) returns (k: nat)
    requires Occurs(p, s)
    ensures OccursAt(p, s, k) && forall j: nat :: j < k ==> !OccursAt(p, s, j)
  {
    var n: nat :| OccursAt(p, s, n);
    k := 0;
    while !OccursAt(p, s, k)
      invariant k <= n && forall j: nat :: j < k ==> !OccursAt(p, s, j)
      decreases n - k
    {
      k := k + 1;
    }
  }

  lemma {:induction false} StarsRepeat(x: string, k: nat, tail: string, j: nat)
    requires j < k < |x| && OccursAt(STARS, x, k) && OccursAt(x, x[..k] + x + tail, j)
    ensures OccursAt(STARS, x, j)
  {
    EarlierMatchRepeats(x, k, tail, j);
    var d := k - j;
    assert x[k..][0] == x[k] == x[k - d];
    assert x[k..][1] == x[k + 1] == x[k + 1 - d];
    assert x[k..][2] == x[k + 2] == x[k + 2 - d];
  }

  lemma {:induction false} TripleStarReappears(x: string) returns (s: string)
    requires Occurs(STARS, x) && |x| > 3
    ensures Mask([x], s) == x
  {
    hide Mask;
    var k := FirstOccurrence(STARS, x);
    var tail := x[k + 3..];
    s := x[..k] + x + tail;
    forall j: nat | j < k ensures !OccursAt(x, s, j) {
      if OccursAt(x, s, j) {
        StarsRepeat(x, k, tail, j);
      }
    }
    MaskInside(x, k, tail);
    assert x[k..] == STARS + tail;
  }

  /** Every other secret shows up in the masked form of some text, even as the only one registered. */
  lemma {:induction false} StarredSecretReappears(x: string) returns (s: string)
    requires |x| > 3 && !Hideable(x)
    ensures Occurs(x, Mask([x], s))
  {
    hide Mask;
    var n := |x|;
    if Occurs(STARS, x) {
      s := TripleStarReappears(x);
      assert x[0..] == x && OccursAt(x, Mask([x], s), 0);
    } else if x[0] == '*' {
      s := x[..0] + x + x[1..];
      MaskInside(x, 0, x[1..]);
      var out := Mask([x], s);
      assert out == STARS + x[1..];
      assert out[2..] == x && OccursAt(x, out, 2);
    } else {
      s := x[..n - 1] + x + "";
      forall j: nat | j < n - 1 ensures !OccursAt(x, s, j) {
        if OccursAt(x, s, j) {
          EarlierMatchRepeats(x, n - 1, "", j);
        }
      }
      MaskInside(x, n - 1, "");
      var out := Mask([x], s);
      assert out[0..] == out && out[..n] == x;
      assert OccursAt(x, out, 0);
    }
  }

  /** Registered among others, x is in the masked form of s. */
  ghost predicate Shows(secrets: seq<string>, s: string, x: string) {
    AllLong(secrets) && x in secrets && Occurs(x, Mask(secrets, s))
  }

  /** A long secret never shows in masked text, whatever else is registered, exactly when it is hideable. */
  lemma {:induction false} MaskHidesExactly(x: string)
    requires |x| > 3
    ensures (forall secrets, s :: !Shows(secrets, s, x)) <==> Hideable(x)
  {
    if Hideable(x) {
      forall secrets, s ensures !Shows(secrets, s, x) {
        if Shows(secrets, s, x) {
          MaskHides(secrets, s, x);
        }
      }
    } else {
      var s := StarredSecretReappears(x);
      assert Shows([x], s, x);
    }
  }

  lemma {:induction false} MaskShortens(x: string, s: string)
    requires |x| > 3
    ensures |Mask([x], s)| <= |s| && (Occurs(x, s) ==> |Mask([x], s)| < |s|)
    decreases |s|
  {
    if Occurs(x, s) {
      var k := FirstOccurrence(x, s);
      MaskUpTo(x, s, k);
      MaskShortens(x, s[k + |x|..]);
    } else {
      MaskKeeps([x], s);
    }
  }

  /** Masking one secret is idempotent exactly when the secret is hideable. */
  lemma {:induction false} MaskIdempotentExactly(x: string)
    requires |x| > 3
    ensures (forall s :: Mask([x], Mask([x], s)) == Mask([x], s)) <==> Hideable(x)
  {
    hide Occurs;
    if Hideable(x) {
      forall s ensures Mask([x], Mask([x], s)) == Mask([x], s) {
        MaskIdempotent([x], s);
      }
    } else {
      var s := StarredSecretReappears(x);
      MaskShortens(x, Mask([x], s));
      assert Mask([x], Mask([x], s)) != Mask([x], s);
    }
  }

  // ---------------------------------------------------------------- workflow commands

  datatype Command = Command(name: string, value: string)

  /** The length of the longest prefix of s free of ' ' and ':'. */
  function NameLength(s: string): (n: nat)
    ensures n <= |s| && (forall i :: 0 <= i < n ==> s[i] != ' ' && s[i] != ':')
    ensures n < |s| ==> s[n] == ' ' || s[n] == ':'
  {
    if s == [] || s[0] == ' ' || s[0] == ':' then 0 else 1 + NameLength(s[1..])
  }

  /** What follows the last "::" of s, if there is one. */
  function AfterLastColons(s: string): Option<string> {
    if s == [] then None
    else
      var r := AfterLastColons(s[1..]);
      if r.Some? then r else if "::" <= s then Some(s[2..]) else None
  }

  /**
   The match of ^::([^ :]+)( .*)?::(.*)$ and its first and third groups.  The name ends at its
   first space or colon; properties are greedy, so the value then starts after the last "::".
   The dot does not match a newline.
   */
  function ParseCommand(line: string): Option<Command> {
    if !("::" <= line) then None
    else
      var body := line[2..];
      var n := NameLength(body);
      if n == 0 then None else ParseRest(body[..n], body[n..])
  }

  /** What follows the name. */
  function ParseRest(name: string, rest: string): Option<Command> {
    if '\n' in rest then None
    else if "::" <= rest then Some(Command(name, rest[2..]))
    else if " " <= rest then
      var v := AfterLastColons(rest[1..]);
      if v.Some? then Some(Command(name, v.value)) else None
    else None
  }

  /** The regular expression's language, with its groups. */
  predicate Matches(line: string, name: string, props: string, value: string) {
    && line == "::" + name + props + "::" + value
    && name != "" && ' ' !in name && ':' !in name
    && (props == "" || props[0] == ' ')
    && '\n' !in props && '\n' !in value
  }

  lemma {:induction false} LastColonsSplit(s: string)
    ensures AfterLastColons(s).Some? ==>
              var v := AfterLastColons(s).value;
              |v| + 2 <= |s| && s == s[..|s| - |v| - 2] + "::" + v
    decreases |s|
  {
    if s != [] {
      LastColonsSplit(s[1..]);
      var r := AfterLastColons(s[1..]);
      if r.Some? {
        assert s == [s[0]] + s[1..];
      } else if "::" <= s {
        assert s == s[..0] + "::" + s[2..];
      }
    }
  }

  lemma {:induction false} LastColonsFound(a: string, v: string)
    ensures AfterLastColons(a + "::" + v).Some? && |AfterLastColons(a + "::" + v).value| <= |v|
    decreases |a|
  {
    var s := a + "::" + v;
    LastColonsSplit(s[1..]);
    if a == [] {
      assert "::" <= s && s[2..] == v;
      var r := AfterLastColons(s[1..]);
      assert r.Some? ==> |r.value| + 2 <= |v| + 1;
    } else {
      assert s[1..] == a[1..] + "::" + v;
      LastColonsFound(a[1..], v);
    }
  }

  lemma {:induction false} NameLengthOf(name: string, rest: string)
    requires ' ' !in name && ':' !in name
    requires rest != "" && (rest[0] == ' ' || rest[0] == ':')
    ensures NameLength(name + rest) == |name|
  {
    assert (name + rest)[|name|] == rest[0];
    assert forall i :: 0 <= i < |name| ==> (name + rest)[i] == name[i] && name[i] in name;
  }

  /** A line parses exactly when the expression matches it, with the groups of the greedy match. */
  lemma {:induction false} ParseCommandComplete(line: string, name: string, props: string, value: string)
    requires Matches(line, name, props, value)
    ensures ParseCommand(line).Some?
    ensures ParseCommand(line).value.name == name && |ParseCommand(line).value.value| <= |value|
  {
    hide NameLength, ParseRest;
    var rest := props + "::" + value;
    assert line[2..] == name + rest;
    NameLengthOf(name, rest);
    assert (name + rest)[..|name|] == name && (name + rest)[|name|..] == rest;
    ParseRestComplete(name, props, value);
  }

  lemma {:induction false} ParseRestComplete(name: string, props: string, value: string)
    requires props == "" || props[0] == ' '
    requires '\n' !in props && '\n' !in value
    ensures
      var r := ParseRest(name, props + "::" + value);
      r.Some? && r.value.name == name && |r.value.value| <= |value|
  {
    hide AfterLastColons;
    var rest := props + "::" + value;
    if props == "" {
      assert rest[2..] == value;
    } else {
      assert rest[1..] == props[1..] + "::" + value;
      LastColonsFound(props[1..], value);
      assert rest[0] == ' ' && " " <= rest;
    }
  }

  lemma {:induction false} ParseRestSound(name: string, rest: string) returns (props: string)
    requires ParseRest(name, rest).Some?
    ensures ParseRest(name, rest).value.name == name && '\n' !in rest
    ensures rest == props + "::" + ParseRest(name, rest).value.value && (props == "" || props[0] == ' ')
  {
    hide AfterLastColons;
    var value := ParseRest(name, rest).value.value;
    if "::" <= rest {
      props := "";
      assert rest == rest[..2] + rest[2..];
    } else {
      LastColonsSplit(rest[1..]);
      var tail := rest[1..];
      props := [' '] + tail[..|tail| - |value| - 2];
      assert rest == [' '] + tail;
    }
  }

  lemma {:induction false} ParseCommandSound(line: string)
    requires ParseCommand(line).Some?
    ensures exists props :: Matches(line, ParseCommand(line).value.name, props, ParseCommand(line).value.value)
  {
    hide NameLength, Matches, ParseRest;
    var body := line[2..];
    var n := NameLength(body);
    var name, rest := body[..n], body[n..];
    var props := ParseRestSound(name, rest);
    var value := ParseRest(name, rest).value.value;
    assert line == "::" + body && body == name + rest;
    GroupsMatch(line, name, props, value);
  }

  lemma {:induction false} GroupsMatch(line: string, name: string, props: string, value: string)
    requires line == "::" + (name + (props + "::" + value))
    requires name != "" && (forall i :: 0 <= i < |name| ==> name[i] != ' ' && name[i] != ':')
    requires props == "" || props[0] == ' '
    requires '\n' !in props + "::" + value
    ensures Matches(line, name, props, value)
  {
    assert line == "::" + name + props + "::" + value;
    var rest := props + "::" + value;
    assert forall i :: 0 <= i < |props| ==> rest[i] == props[i];
    assert forall i :: 0 <= i < |value| ==> rest[|props| + 2 + i] == value[i];
  }

  /** The processor's state: the stop token (empty: commands enabled) and the registered masks. */
  datatype Proc = Proc(stopToken: string, secrets: seq<string>)

  function ResumeLine(token: string): string {
    "::" + token + "::"
  }

  /** ProcessLine: the next state and the line to emit, if any. */
  function Process(p: Proc, debug: bool, line: string): (Proc, Option<string>) {
    if p.stopToken != "" then
      if line == ResumeLine(p.stopToken) then (p.(stopToken := ""), None) else (p, Some(line))
    else
      match ParseCommand(line)
      case None => (p, Some(line))
      case Some(Command(name, value)) =>
        if Lower(name) == "add-mask" then (p.(secrets := Register(p.secrets, value)), None)
        else if Lower(name) == "debug" then (p, if debug then Some(line) else None)
        else if Lower(name) == "stop-commands" then (p.(stopToken := value), None)
        else (p, Some(line))
  }

  // ---------------------------------------------------------------- what each line does

  /** name is cmd, written in lower case, with any of its letters in upper case. */
  predicate IsNamed(name: string, cmd: string) {
    && |name| == |cmd|
    && forall i :: 0 <= i < |cmd| ==> name[i] == cmd[i] || ('a' <= cmd[i] <= 'z' && name[i] == cmd[i] - 'a' + 'A')
  }

  /** The expression matches the line, and of all its matches the greedy one has this name and value. */
  ghost predicate Reads(line: string, name: string, value: string) {
    && (exists props :: Matches(line, name, props, value))
    && (forall n, p, v :: Matches(line, n, p, v) ==> |value| <= |v|)
  }

  ghost predicate IsCommand(line: string, cmd: string, value: string) {
    exists name :: Reads(line, name, value) && IsNamed(name, cmd)
  }

  lemma {:induction false} SuffixesEqual(s: string, a: string, x: string, b: string, y: string)
    requires s == a + x && s == b + y && |x| == |y|
    ensures x == y
  {
    assert x == s[|a|..] && y == s[|b|..];
  }

  /** Parsing is the greedy match. */
  lemma {:induction false} ReadsIsParse(line: string, name: string, value: string)
    ensures Reads(line, name, value) <==> ParseCommand(line) == Some(Command(name, value))
  {
    hide ParseCommand;
    if Reads(line, name, value) {
      var props :| Matches(line, name, props, value);
      ParseCommandComplete(line, name, props, value);
      ParseCommandSound(line);
      var v := ParseCommand(line).value.value;
      var p :| Matches(line, name, p, v);
      assert line == ("::" + name + props + "::") + value && line == ("::" + name + p + "::") + v;
      SuffixesEqual(line, "::" + name + props + "::", value, "::" + name + p + "::", v);
    }
    if ParseCommand(line) == Some(Command(name, value)) {
      ParseCommandSound(line);
      forall n, p, v | Matches(line, n, p, v) ensures |value| <= |v| {
        ParseCommandComplete(line, n, p, v);
      }
    }
  }

  lemma {:induction false} NamedIsLower(name: string, cmd: string)
    requires forall i :: 0 <= i < |cmd| ==> !('A' <= cmd[i] <= 'Z')
    ensures IsNamed(name, cmd) <==> Lower(name) == cmd
  {
    assert |Lower(name)| == |name|;
    assert forall i :: 0 <= i < |name| ==> Lower(name)[i] == LowerChar(name[i]);
    if IsNamed(name, cmd) {
      assert Lower(name) == cmd;
    }
    if Lower(name) == cmd {
      forall i | 0 <= i < |cmd| ensures name[i] == cmd[i] || ('a' <= cmd[i] <= 'z' && name[i] == cmd[i] - 'a' + 'A') {
        assert cmd[i] == LowerChar(name[i]);
      }
    }
  }

  lemma {:induction false} CommandIsParsed(line: string, cmd: string, value: string)
    requires forall i :: 0 <= i < |cmd| ==> !('A' <= cmd[i] <= 'Z')
    ensures IsCommand(line, cmd, value) <==>
            var r := ParseCommand(line);
            r.Some? && Lower(r.value.name) == cmd && r.value.value == value
  {
    hide ParseCommand, Reads, Lower, IsNamed;
    var r := ParseCommand(line);
    if IsCommand(line, cmd, value) {
      var name :| Reads(line, name, value) && IsNamed(name, cmd);
      ReadsIsParse(line, name, value);
      NamedIsLower(name, cmd);
    }
    if r.Some? && Lower(r.value.name) == cmd && r.value.value == value {
      ReadsIsParse(line, r.value.name, value);
      NamedIsLower(r.value.name, cmd);
    }
  }

  /** While commands are stopped, a line comes out unchanged unless it is the token's, which starts them again. */
  lemma {:induction false} StoppedLine(p: Proc, debug: bool, line: string)
    requires p.stopToken != ""
    ensures Process(p, debug, line) ==
            if line == "::" + p.stopToken + "::" then (Proc("", p.secrets), None) else (p, Some(line))
  {
  }

  /** An add-mask line is not emitted, and registers its value if that is longer than three bytes. */
  lemma {:induction false} AddMaskLine(p: Proc, debug: bool, line: string, v: string)
    requires p.stopToken == "" && IsCommand(line, "add-mask", v)
    ensures Process(p, debug, line) == (Proc("", if |v| > 3 then p.secrets + [v] else p.secrets), None)
  {
    hide ParseCommand, Lower, IsCommand;
    CommandIsParsed(line, "add-mask", v);
  }

  /** A debug line comes out unchanged exactly when debugging is enabled, and changes nothing. */
  lemma {:induction false} DebugLine(p: Proc, debug: bool, line: string, v: string)
    requires p.stopToken == "" && IsCommand(line, "debug", v)
    ensures Process(p, debug, line) == (p, if debug then Some(line) else None)
  {
    hide ParseCommand, Lower, IsCommand;
    CommandIsParsed(line, "debug", v);
  }

  /** A stop-commands line is not emitted, and stops commands exactly when its value is not empty. */
  lemma {:induction false} StopLine(p: Proc, debug: bool, line: string, v: string)
    requires p.stopToken == "" && IsCommand(line, "stop-commands", v)
    ensures Process(p, debug, line) == (Proc(v, p.secrets), None)
  {
    hide ParseCommand, Lower, IsCommand;
    CommandIsParsed(line, "stop-commands", v);
  }

  /** Every other command, and every line that is none, comes out unchanged and changes nothing. */
  lemma {:induction false} OtherLine(p: Proc, debug: bool, line: string)
    requires p.stopToken == ""
    requires forall v :: !IsCommand(line, "add-mask", v) && !IsCommand(line, "debug", v)
    requires forall v :: !IsCommand(line, "stop-commands", v)
    ensures Process(p, debug, line) == (p, Some(line))
  {
    hide ParseCommand, Lower, IsCommand;
    if ParseCommand(line).Some? {
      var v := ParseCommand(line).value.value;
      CommandIsParsed(line, "add-mask", v);
      CommandIsParsed(line, "debug", v);
      CommandIsParsed(line, "stop-commands", v);
      assert !IsCommand(line, "add-mask", v) && !IsCommand(line, "stop-commands", v);
    }
  }

  /** A whole log: the final state and the emitted lines in order. */
  function ProcessAll(p: Proc, debug: bool, lines: seq<string>): (Proc, seq<string>)
    decreases |lines|
  {
    if lines == [] then (p, [])
    else
      var (q, e) := Process(p, debug, lines[0]);
      var (r, es) := ProcessAll(q, debug, lines[1..]);
      (r, (if e.Some? then [e.value] else []) + es)
  }

  lemma {:induction false} ProcessConcat(p: Proc, debug: bool, a: seq<string>, b: seq<string>)
    ensures
      var (q, ea) := ProcessAll(p, debug, a);
      var (r, eb) := ProcessAll(q, debug, b);
      ProcessAll(p, debug, a + b) == (r, ea + eb)
    decreases |a|
  {
    hide Process;
    if a == [] {
      var (_, eb) := ProcessAll(p, debug, b);
      assert a + b == b && [] + eb == eb;
    } else {
      var (q, e) := Process(p, debug, a[0]);
      var emitted := if e.Some? then [e.value] else [];
      var (m, ea) := ProcessAll(q, debug, a[1..]);
      var (_, eb) := ProcessAll(m, debug, b);
      assert (a + b)[0] == a[0] && (a + b)[1..] == a[1..] + b;
      ProcessConcat(q, debug, a[1..], b);
      assert emitted + (ea + eb) == emitted + ea + eb;
    }
  }

  lemma {:induction false} StoppedBlock(p: Proc, debug: bool, block: seq<string>)
    requires p.stopToken != "" && ResumeLine(p.stopToken) !in block
    ensures ProcessAll(p, debug, block) == (p, block)
    decreases |block|
  {
    if block != [] {
      StoppedBlock(p, debug, block[1..]);
      assert [block[0]] + block[1..] == block;
    }
  }

  /** A stop-commands line and the block it protects, up to the resume line. */
  ghost predicate IsStopBlock(stop: string, token: string, block: seq<string>)
    requires ParseCommand(stop).Some?
  {
    && ParseCommand(stop).value.value == token
    && Lower(ParseCommand(stop).value.name) == "stop-commands"
    && token != ""
    && ResumeLine(token) !in block
  }

  lemma {:induction false} StopBlock(p: Proc, debug: bool, stop: string, token: string, block: seq<string>)
    requires p.stopToken == "" && ParseCommand(stop).Some? && IsStopBlock(stop, token, block)
    ensures ProcessAll(p, debug, [stop] + block + [ResumeLine(token)]) == (p, block)
  {
    var stopped := p.(stopToken := token);
    assert ProcessAll(p, debug, [stop]) == (stopped, []) by {
      assert [stop][1..] == [];
    }
    StoppedBlock(stopped, debug, block);
    assert ProcessAll(stopped, debug, [ResumeLine(token)]) == (p, []) by {
      assert [ResumeLine(token)][1..] == [];
    }
    ProcessConcat(p, debug, [stop], block);
    ProcessConcat(p, debug, [stop] + block, [ResumeLine(token)]);
    assert [] + block + [] == block;
  }

  /**
   Wherever a log holds a stop-commands line, a block of lines and the matching resume line, the
   block comes out unchanged and registers no mask: the log behaves as if the block were absent,
   except that the block itself is emitted.
   */
  lemma {:induction false} StopCommandsBlock(
    p: Proc, debug: bool, before: seq<string>, stop: string, token: string, block: seq<string>, after: seq<string>)
    requires ProcessAll(p, debug, before).0.stopToken == ""
    requires ParseCommand(stop).Some? && IsStopBlock(stop, token, block)
    ensures
      var (q, emitted) := ProcessAll(p, debug, before);
      var (r, rest) := ProcessAll(q, debug, after);
      && ProcessAll(p, debug, before + ([stop] + block + [ResumeLine(token)]) + after) == (r, emitted + block + rest)
      && ProcessAll(p, debug, before + after) == (r, emitted + rest)
  {
    var middle := [stop] + block + [ResumeLine(token)];
    StopBlock(ProcessAll(p, debug, before).0, debug, stop, token, block);
    ProcessConcat(p, debug, before, middle);
    ProcessConcat(p, debug, before + middle, after);
    ProcessConcat(p, debug, before, after);
  }

  lemma {:induction false} StepKeepsMasks(p: Proc, debug: bool, line: string)
    requires AllLong(p.secrets)
    ensures p.secrets <= Process(p, debug, line).0.secrets && AllLong(Process(p, debug, line).0.secrets)
  {
    hide ParseCommand, Lower;
  }

  /** Registered masks stay registered and stay long over any log. */
  lemma {:induction false} MasksOnlyGrow(p: Proc, debug: bool, lines: seq<string>)
    requires AllLong(p.secrets)
    ensures p.secrets <= ProcessAll(p, debug, lines).0.secrets && AllLong(ProcessAll(p, debug, lines).0.secrets)
    decreases |lines|
  {
    hide Process, AllLong;
    if lines != [] {
      StepKeepsMasks(p, debug, lines[0]);
      MasksOnlyGrow(Process(p, debug, lines[0]).0, debug, lines[1..]);
    }
  }

  // ---------------------------------------------------------------- from the pod's log to the stored rows

  /** streamLogs: every emitted line is stored masked with the secrets registered at that moment. */
  function StoreAll(p: Proc, debug: bool, lines: seq<string>): (Proc, seq<string>)
    decreases |lines|
  {
    if lines == [] then (p, [])
    else
      var (q, e) := Process(p, debug, lines[0]);
      var (r, rows) := StoreAll(q, debug, lines[1..]);
      (r, (if e.Some? then [Mask(q.secrets, e.value)] else []) + rows)
  }

  /** No row stored after a secret was registered contains it, whatever the log. */
  lemma {:induction false} StoredRowsHideSecrets(p: Proc, debug: bool, lines: seq<string>, x: string)
    requires AllLong(p.secrets) && x in p.secrets && Hideable(x)
    ensures forall row <- StoreAll(p, debug, lines).1 :: !Occurs(x, row)
    decreases |lines|
  {
    hide Process, AllLong, Occurs, Mask, Hideable;
    if lines != [] {
      var (q, e) := Process(p, debug, lines[0]);
      StepKeepsMasks(p, debug, lines[0]);
      StoredRowsHideSecrets(q, debug, lines[1..], x);
      if e.Some? {
        MaskHides(q.secrets, e.value, x);
      }
    }
  }

  lemma {:induction false} StoreConcat(p: Proc, debug: bool, a: seq<string>, b: seq<string>)
    ensures
      var (q, ra) := StoreAll(p, debug, a);
      var (r, rb) := StoreAll(q, debug, b);
      StoreAll(p, debug, a + b) == (r, ra + rb)
    decreases |a|
  {
    hide Process, Mask;
    if a == [] {
      var (_, rb) := StoreAll(p, debug, b);
      assert a + b == b && [] + rb == rb;
    } else {
      var (q, e) := Process(p, debug, a[0]);
      var row := if e.Some? then [Mask(q.secrets, e.value)] else [];
      var (m, ra) := StoreAll(q, debug, a[1..]);
      var (_, rb) := StoreAll(m, debug, b);
      assert (a + b)[0] == a[0] && (a + b)[1..] == a[1..] + b;
      StoreConcat(q, debug, a[1..], b);
      assert row + (ra + rb) == row + ra + rb;
    }
  }

  lemma {:induction false} StoreSilent(p: Proc, debug: bool, line: string, after: seq<string>)
    requires Process(p, debug, line).1.None?
    ensures StoreAll(p, debug, [line] + after) == StoreAll(Process(p, debug, line).0, debug, after)
  {
    hide Process, Mask;
    var all, rest := [line] + after, StoreAll(Process(p, debug, line).0, debug, after);
    assert all[0] == line && all[1..] == after;
    assert [] + rest.1 == rest.1;
  }

  lemma {:induction false} StoreKeepsLong(p: Proc, debug: bool, lines: seq<string>)
    requires AllLong(p.secrets)
    ensures AllLong(StoreAll(p, debug, lines).0.secrets)
    decreases |lines|
  {
    hide Process, Mask, AllLong;
    if lines != [] {
      StepKeepsMasks(p, debug, lines[0]);
      StoreKeepsLong(Process(p, debug, lines[0]).0, debug, lines[1..]);
    }
  }

  /**
   Wherever a log has an add-mask line while commands are enabled, with a value longer than three
   bytes: the line itself stores nothing, the value is registered from then on, and if it is hideable
   no row stored after it contains it.
   */
  lemma {:induction false} AddMaskHides(
    p: Proc, debug: bool, before: seq<string>, line: string, v: string, after: seq<string>)
    requires AllLong(p.secrets) && StoreAll(p, debug, before).0.stopToken == ""
    requires IsCommand(line, "add-mask", v) && |v| > 3
    ensures
      var (q, rows) := StoreAll(p, debug, before);
      var (r, more) := StoreAll(Proc("", q.secrets + [v]), debug, after);
      && StoreAll(p, debug, before + [line] + after) == (r, rows + more)
      && (Hideable(v) ==> forall row <- more :: !Occurs(v, row))
  {
    hide Process, Mask, Hideable, Occurs, IsCommand;
    var (q, rows) := StoreAll(p, debug, before);
    var registered := Proc("", q.secrets + [v]);
    AddMaskLine(q, debug, line, v);
    StoreSilent(q, debug, line, after);
    StoreConcat(p, debug, before, [line] + after);
    assert before + [line] + after == before + ([line] + after);
    if Hideable(v) {
      StoreKeepsLong(p, debug, before);
      assert v in registered.secrets;
      StoredRowsHideSecrets(registered, debug, after, v);
    }
  }
}
