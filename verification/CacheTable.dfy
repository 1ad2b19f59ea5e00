/**
 The cache index (pkg/cache/db.go): a table of entries, the lookup that tries each key exactly and
 then as a prefix through SQL LIKE, and the query behind duplicate removal.
 */
module CacheTable {
  import opened Wrappers
  import opened Text

  datatype Row = Row(key: string, version: string, size: int, complete: bool, usedAt: int, createdAt: int)

  type Table = map<nat, Row>

  // ---------------------------------------------------------------- LIKE

  /** `text LIKE pattern ESCAPE '\'`: ASCII letters match in either case. */
  predicate Like(pattern: string, text: string)
    decreases |pattern| + |text|
  {
    if pattern == "" then text == ""
    else if pattern[0] == '%' then
      Like(pattern[1..], text) || (text != "" && Like(pattern, text[1..]))
    else if pattern[0] == '_' then text != "" && Like(pattern[1..], text[1..])
    else if pattern[0] == '\\' then
      |pattern| > 1 && text != "" && LowerChar(pattern[1]) == LowerChar(text[0]) && Like(pattern[2..], text[1..])
    else text != "" && LowerChar(pattern[0]) == LowerChar(text[0]) && Like(pattern[1..], text[1..])
  }

  function LikeEscapedChar(c: char): string {
    if c == '\\' || c == '%' || c == '_' then ['\\', c] else [c]
  }

  /** likeEscaper. */
  function LikeEscaped(s: string): string {
    if s == "" then ""
    else LikeEscapedChar(s[0]) + LikeEscaped(s[1..])
  }

  predicate NoUpper(s: string) {
    forall i :: 0 <= i < |s| ==> !('A' <= s[i] <= 'Z')
  }

  lemma {:induction false} PercentMatchesAll(text: string)
    ensures Like("%", text)
    decreases |text|
  {
    assert "%"[1..] == "";
    if text != "" {
      PercentMatchesAll(text[1..]);
    }
  }

  lemma {:induction false} LikeChar(c: char, rest: string, key: string)
    ensures Like(LikeEscapedChar(c) + rest, key) <==>
            key != "" && LowerChar(c) == LowerChar(key[0]) && Like(rest, key[1..])
  {
    var pattern := LikeEscapedChar(c) + rest;
    if c == '\\' || c == '%' || c == '_' {
      assert pattern[2..] == rest;
    } else {
      assert pattern[1..] == rest;
    }
  }

  /** On lower-case strings the escaped prefix pattern matches exactly the strings with that prefix. */
  lemma {:induction false} LikeIsPrefix(prefix: string, key: string)
    requires NoUpper(prefix) && NoUpper(key)
    ensures Like(LikeEscaped(prefix) + "%", key) <==> prefix <= key
    decreases |prefix|
  {
    hide Like, LikeEscapedChar;
    if prefix == "" {
      assert "" + "%" == "%";
      PercentMatchesAll(key);
    } else {
      var c, rest := prefix[0], LikeEscaped(prefix[1..]) + "%";
      assert LikeEscaped(prefix) + "%" == LikeEscapedChar(c) + rest;
      LikeChar(c, rest, key);
      if key != "" {
        LikeIsPrefix(prefix[1..], key[1..]);
        assert prefix == [c] + prefix[1..] && key == [key[0]] + key[1..];
      }
    }
  }

  // ---------------------------------------------------------------- lookup

  predicate IsExact(r: Row, key: string, version: string) {
    r.key == key && r.version == version && r.complete
  }

  predicate IsLike(r: Row, prefix: string, version: string) {
    Like(LikeEscaped(prefix) + "%", r.key) && r.version == version && r.complete
  }

  predicate IsPrefixed(r: Row, prefix: string, version: string) {
    r.complete && r.version == version && prefix <= r.key
  }

  function Exact(t: Table, key: string, version: string): set<nat> {
    set id | id in t && IsExact(t[id], key, version)
  }

  function Prefixed(t: Table, prefix: string, version: string): set<nat> {
    set id | id in t && IsLike(t[id], prefix, version)
  }

  /** ORDER BY created_at DESC LIMIT 1 may return any newest row. */
  predicate Newest(t: Table, s: set<nat>, id: nat)
    requires s <= t.Keys
  {
    id in s && forall j <- s :: t[j].createdAt <= t[id].createdAt
  }

  /** What FindCache may return. */
  ghost predicate MayFind(t: Table, keys: seq<string>, version: string, r: Option<nat>)
    decreases |keys|
  {
    if keys == [] then r == None
    else if Exact(t, keys[0], version) != {} then r.Some? && Newest(t, Exact(t, keys[0], version), r.value)
    else if Prefixed(t, keys[0], version) != {} then r.Some? && Newest(t, Prefixed(t, keys[0], version), r.value)
    else MayFind(t, keys[1..], version, r)
  }

  method QueryOne(t: Table, s: set<nat>) returns (r: Option<nat>)
    requires s <= t.Keys
    ensures if s == {} then r == None else r.Some? && Newest(t, s, r.value)
  {
    if s == {} {
      return None;
    }
    var best :| best in s;
    var todo := s - {best};
    while todo != {}
      invariant best in s && todo <= s
      invariant forall j <- s - todo :: t[j].createdAt <= t[best].createdAt
      decreases todo
    {
      var j :| j in todo;
      if t[j].createdAt > t[best].createdAt {
        best := j;
      }
      todo := todo - {j};
    }
    return Some(best);
  }

  method FindCache(t: Table, keys: seq<string>, version: string) returns (r: Option<nat>)
    ensures MayFind(t, keys, version, r)
  {
    var i := 0;
    while i < |keys|
      invariant 0 <= i <= |keys|
      invariant forall x :: MayFind(t, keys[i..], version, x) ==> MayFind(t, keys, version, x)
    {
      assert keys[i..][0] == keys[i] && keys[i..][1..] == keys[i + 1..];
      var c := QueryOne(t, Exact(t, keys[i], version));
      if c.Some? {
        return c;
      }
      c := QueryOne(t, Prefixed(t, keys[i], version));
      if c.Some? {
        return c;
      }
      i := i + 1;
    }
    return None;
  }

  /** Whether row r stands against the hit `found`: only exact matches stand against an exact one. */
  predicate Competes(r: Row, found: Row, key: string, version: string) {
    r.complete && r.version == version && key <= r.key && (found.key == key ==> r.key == key)
  }

  /** The lookup in plain words, for the k-th key: nothing for the keys before it, and then newest wins. */
  ghost predicate HitAt(t: Table, keys: seq<string>, version: string, k: nat, id: nat)
    requires k < |keys| && id in t
  {
    && t[id].complete && t[id].version == version && keys[k] <= t[id].key
    && (forall j <- t, i :: 0 <= i < k && t[j].complete && t[j].version == version ==> !(keys[i] <= t[j].key))
    && (forall j <- t :: IsExact(t[j], keys[k], version) ==> t[id].key == keys[k])
    && (forall j <- t :: Competes(t[j], t[id], keys[k], version) ==> t[j].createdAt <= t[id].createdAt)
  }

  ghost predicate Misses(t: Table, keys: seq<string>, version: string) {
    forall j <- t, i :: 0 <= i < |keys| && t[j].complete && t[j].version == version ==> !(keys[i] <= t[j].key)
  }

  ghost predicate LowerCase(t: Table, keys: seq<string>) {
    (forall j <- t :: NoUpper(t[j].key)) && forall i :: 0 <= i < |keys| ==> NoUpper(keys[i])
  }

  ghost predicate HitSomewhere(t: Table, keys: seq<string>, version: string, id: nat)
    requires id in t
  {
    exists k: nat :: k < |keys| && HitAt(t, keys, version, k, id)
  }

  lemma {:induction false} PrefixedIs(t: Table, prefix: string, version: string, id: nat)
    requires id in t && NoUpper(t[id].key) && NoUpper(prefix)
    ensures id in Prefixed(t, prefix, version) <==> IsPrefixed(t[id], prefix, version)
  {
    LikeIsPrefix(prefix, t[id].key);
  }

  /** How the plain specification looks past a key that nothing matches. */
  lemma {:induction false} HitShift(t: Table, keys: seq<string>, version: string, id: nat)
    requires keys != [] && id in t
    requires forall j <- t :: t[j].complete && t[j].version == version ==> !(keys[0] <= t[j].key)
    ensures HitSomewhere(t, keys, version, id) <==> HitSomewhere(t, keys[1..], version, id)
  {
    if HitSomewhere(t, keys, version, id) {
      var k: nat :| k < |keys| && HitAt(t, keys, version, k, id);
      assert k > 0;
      assert keys[1..][k - 1] == keys[k];
      forall j <- t, i | 0 <= i < k - 1 && t[j].complete && t[j].version == version
        ensures !(keys[1..][i] <= t[j].key)
      {
        assert keys[1..][i] == keys[i + 1];
      }
      assert HitAt(t, keys[1..], version, k - 1, id);
    }
    if HitSomewhere(t, keys[1..], version, id) {
      var k: nat :| k < |keys[1..]| && HitAt(t, keys[1..], version, k, id);
      forall j <- t, i | 0 <= i < k + 1 && t[j].complete && t[j].version == version ensures !(keys[i] <= t[j].key) {
        if i > 0 {
          assert keys[1..][i - 1] == keys[i];
        }
      }
      assert keys[k + 1] == keys[1..][k];
      assert HitAt(t, keys, version, k + 1, id);
    }
  }

  /** When the first key matches a row, the plain specification is about that key. */
  lemma {:induction false} HitFirst(t: Table, keys: seq<string>, version: string, id: nat, w: nat)
    requires keys != [] && id in t && w in t
    requires t[w].complete && t[w].version == version && keys[0] <= t[w].key
    ensures HitSomewhere(t, keys, version, id) <==> HitAt(t, keys, version, 0, id)
  {
    if HitSomewhere(t, keys, version, id) {
      var k: nat :| k < |keys| && HitAt(t, keys, version, k, id);
      assert k == 0;
    }
  }

  /**
   On lower-case keys FindCache is the plain specification: the first key that prefixes some
   complete entry of the version decides; its exact matches come first; the newest wins.
   */
  lemma {:induction false} FindRefinesPlainLookup(t: Table, keys: seq<string>, version: string, r: Option<nat>)
    requires LowerCase(t, keys)
    ensures MayFind(t, keys, version, r) <==>
            match r
            case None => Misses(t, keys, version)
            case Some(id) => id in t && HitSomewhere(t, keys, version, id)
    decreases |keys|
  {
    if keys != [] {
      hide LikeEscaped, Like, NoUpper, HitAt;
      var k := keys[0];
      forall id <- t ensures id in Prefixed(t, k, version) <==> IsPrefixed(t[id], k, version) {
        PrefixedIs(t, k, version, id);
      }
      if Prefixed(t, k, version) == {} {
        FindPast(t, keys, version, r);
        FindRefinesPlainLookup(t, keys[1..], version, r);
      } else {
        var w :| w in Prefixed(t, k, version);
        assert !Misses(t, keys, version) by { assert keys[0] <= t[w].key; }
        if r.Some? && r.value in t {
          HitFirst(t, keys, version, r.value, w);
          FindFirst(t, keys, version, r.value);
        }
      }
    }
  }

  lemma {:induction false} FindPast(t: Table, keys: seq<string>, version: string, r: Option<nat>)
    requires keys != [] && LowerCase(t, keys)
    requires Prefixed(t, keys[0], version) == {}
    requires forall id <- t :: id in Prefixed(t, keys[0], version) <==> IsPrefixed(t[id], keys[0], version)
    ensures LowerCase(t, keys[1..])
    ensures MayFind(t, keys, version, r) <==> MayFind(t, keys[1..], version, r)
    ensures Misses(t, keys, version) <==> Misses(t, keys[1..], version)
    ensures r.Some? && r.value in t ==>
              (HitSomewhere(t, keys, version, r.value) <==> HitSomewhere(t, keys[1..], version, r.value))
  {
    hide LikeEscaped, Like, NoUpper, HitAt, IsLike;
    assert Exact(t, keys[0], version) == {} by {
      forall id <- t ensures !IsExact(t[id], keys[0], version) {
        assert id !in Prefixed(t, keys[0], version);
      }
    }
    if r.Some? && r.value in t {
      HitShift(t, keys, version, r.value);
    }
    assert Misses(t, keys[1..], version) ==> Misses(t, keys, version) by {
      if Misses(t, keys[1..], version) {
        forall j <- t, i | 0 <= i < |keys| && t[j].complete && t[j].version == version
          ensures !(keys[i] <= t[j].key)
        {
          if i > 0 {
            assert keys[1..][i - 1] == keys[i];
          } else {
            assert j !in Prefixed(t, keys[0], version);
          }
        }
      }
    }
    assert Misses(t, keys, version) ==> Misses(t, keys[1..], version) by {
      assert forall i :: 0 <= i < |keys[1..]| ==> keys[1..][i] == keys[i + 1];
    }
  }

  lemma {:induction false} FindFirst(t: Table, keys: seq<string>, version: string, id: nat)
    requires keys != [] && id in t && Prefixed(t, keys[0], version) != {}
    requires forall j <- t :: j in Prefixed(t, keys[0], version) <==> IsPrefixed(t[j], keys[0], version)
    ensures MayFind(t, keys, version, Some(id)) <==> HitAt(t, keys, version, 0, id)
  {
    hide LikeEscaped, Like, IsLike;
    var e, p := Exact(t, keys[0], version), Prefixed(t, keys[0], version);
    assert forall j <- t :: j in e <==> IsExact(t[j], keys[0], version);
    if e != {} {
      var w :| w in e;
      assert IsExact(t[w], keys[0], version);
    }
  }

  /** A hit is a complete entry of the version whose key some requested key prefixes. */
  lemma {:induction false} FindReturnsComplete(t: Table, keys: seq<string>, version: string, id: nat)
    requires MayFind(t, keys, version, Some(id))
    ensures id in t && t[id].complete && t[id].version == version
    decreases |keys|
  {
    if keys != [] && Exact(t, keys[0], version) == {} && Prefixed(t, keys[0], version) == {} {
      FindReturnsComplete(t, keys[1..], version, id);
    }
  }

  // ---------------------------------------------------------------- duplicates

  predicate Sibling(a: Row, b: Row) {
    a.complete && b.complete && a.key == b.key && a.version == b.version
  }

  /** FindDuplicates: complete entries older than the newest of their key and version, not used lately. */
  function Duplicates(t: Table, cutoff: int): set<nat> {
    set id | id in t && t[id].usedAt < cutoff &&
      exists j <- t :: Sibling(t[id], t[j]) && t[id].createdAt < t[j].createdAt
  }

  lemma {:induction false} NewestExists(t: Table, s: set<nat>) returns (m: nat)
    requires s <= t.Keys && s != {}
    ensures Newest(t, s, m)
    decreases |s|
  {
    m :| m in s;
    if s != {m} {
      var m' := NewestExists(t, s - {m});
      if t[m'].createdAt > t[m].createdAt {
        m := m';
      }
    }
  }

  /** A selection that takes an entry with all its siblings loses no newest entry to the pass. */
  lemma {:induction false} NewestSurvives(t: Table, s: set<nat>, cutoff: int, id: nat)
    requires s <= t.Keys
    requires forall i <- s, j <- t :: Sibling(t[i], t[j]) ==> j in s
    ensures
      var t' := t - Duplicates(t, cutoff);
      var s' := s - Duplicates(t, cutoff);
      && s' <= t'.Keys
      && (s == {} <==> s' == {})
      && (Newest(t, s, id) <==> Newest(t', s', id))
  {
    var d := Duplicates(t, cutoff);
    var t', s' := t - d, s - d;
    if s != {} {
      var m := NewestExists(t, s);
      assert m !in d;
      assert m in s';
      if Newest(t, s, id) {
        assert id !in d;
      }
      if Newest(t', s', id) {
        assert t[m].createdAt <= t[id].createdAt;
      }
    }
  }

  /** Duplicate removal changes nothing FindCache may return, for any table, keys and version. */
  lemma {:induction false} DuplicateRemovalInvisible(
    t: Table, cutoff: int, keys: seq<string>, version: string, r: Option<nat>)
    ensures MayFind(t, keys, version, r) <==> MayFind(t - Duplicates(t, cutoff), keys, version, r)
    decreases |keys|
  {
    hide Like, LikeEscaped;
    if keys != [] {
      var d := Duplicates(t, cutoff);
      var t' := t - d;
      var id := if r.Some? then r.value else 0;
      assert Exact(t', keys[0], version) == Exact(t, keys[0], version) - d;
      assert Prefixed(t', keys[0], version) == Prefixed(t, keys[0], version) - d;
      NewestSurvives(t, Exact(t, keys[0], version), cutoff, id);
      NewestSurvives(t, Prefixed(t, keys[0], version), cutoff, id);
      hide Duplicates, Newest;
      DuplicateRemovalInvisible(t, cutoff, keys[1..], version, r);
    }
  }

  // ---------------------------------------------------------------- an entry under its own key

  /** A complete entry is found by a list that starts with its key: a newest one with exactly that key. */
  lemma {:induction false} OwnKeyIsFound(t: Table, keys: seq<string>, version: string, id: nat, r: Option<nat>)
    requires id in t && t[id].complete && t[id].version == version
    requires keys != [] && keys[0] == t[id].key && MayFind(t, keys, version, r)
    ensures r.Some? && r.value in t && t[r.value].complete && t[r.value].version == version
    ensures t[r.value].key == t[id].key && t[r.value].createdAt >= t[id].createdAt
  {
    assert id in Exact(t, keys[0], version);
  }
}
