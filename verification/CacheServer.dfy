/**
 The artifact cache as a whole (pkg/cache/handler.go): the request handlers and the garbage
 collector over the index and the blob store, each atomic and without storage errors.
 */
module CacheServer {
  import opened Wrappers
  import opened Text
  import opened CacheStorage
  import opened CacheTable

  // ---------------------------------------------------------------- Content-Range

  /** strings.Cut at a single byte. */
  function Cut(s: string, sep: char): (r: (string, string))
    ensures sep !in r.0
    ensures s == r.0 + (if sep in s then [sep] + r.1 else "")
    ensures sep !in s ==> r.1 == ""
  {
    if s == "" then ("", "")
    else if s[0] == sep then ("", s[1..])
    else
      var (a, b) := Cut(s[1..], sep);
      ([s[0]] + a, b)
  }

  /** strconv.ParseInt(s, 10, 64). */
  function ParseInt(s: string): Option<int> {
    var digits := if s != "" && (s[0] == '+' || s[0] == '-') then s[1..] else s;
    if digits == "" || !AllDigits(digits) then None
    else
      var n: int := DigitsValue(digits);
      var v := if s[0] == '-' then -n else n;
      if -INT64_LIMIT <= v < INT64_LIMIT then Some(v) else None
  }

  function WithoutUnit(header: string): string {
    if "bytes " <= header then header[6..] else header
  }

  function ParseContentRange(header: string): Result<(int, int)> {
    var range := Cut(WithoutUnit(header), '/').0;
    var (s1, s2) := Cut(range, '-');
    var start, stop := ParseInt(s1), ParseInt(s2);
    if start.None? || stop.None? then Err else Ok((start.value, stop.value))
  }

  /** A parsed start is never negative: the minus sign is the separator. */
  lemma {:induction false} RangeStartInBounds(header: string)
    ensures ParseContentRange(header).Ok? ==> 0 <= ParseContentRange(header).value.0 < INT64_LIMIT
  {
    hide Cut, DigitsValue, WithoutUnit;
    var range := Cut(WithoutUnit(header), '/').0;
    var s1 := Cut(range, '-').0;
    if s1 != "" {
      assert s1[0] in s1;
    }
  }

  lemma {:induction false} CutConcat(a: string, b: string, sep: char)
    requires sep !in a
    ensures Cut(a + [sep] + b, sep) == (a, b)
    decreases |a|
  {
    var s := a + [sep] + b;
    if a == "" {
      assert s[1..] == b;
    } else {
      assert s[1..] == a[1..] + [sep] + b;
      CutConcat(a[1..], b, sep);
      assert [s[0]] + a[1..] == a;
    }
  }

  lemma {:induction false} ParseDecimal(n: nat)
    requires n < INT64_LIMIT
    ensures ParseInt(Decimal(n)) == Some(n)
    ensures '/' !in Decimal(n) && '-' !in Decimal(n)
  {
    DecimalValue(n);
    var s := Decimal(n);
    assert forall i :: 0 <= i < |s| ==> s[i] != '/' && s[i] != '-';
  }

  /** A range as section 14.4 of RFC 9110 writes it parses to its bounds. */
  lemma {:induction false} ContentRangeRoundTrip(start: nat, stop: nat, total: string)
    requires start < INT64_LIMIT && stop < INT64_LIMIT
    ensures ParseContentRange("bytes " + Decimal(start) + "-" + Decimal(stop) + "/" + total) == Ok((start, stop))
  {
    hide Decimal, ParseInt, Cut;
    var range := Decimal(start) + "-" + Decimal(stop);
    var header := "bytes " + Decimal(start) + "-" + Decimal(stop) + "/" + total;
    assert header == "bytes " + (range + "/" + total);
    assert header[6..] == range + ['/'] + total;
    ParseDecimal(start);
    ParseDecimal(stop);
    CutConcat(range, total, '/');
    assert range == Decimal(start) + ['-'] + Decimal(stop);
    CutConcat(Decimal(start), Decimal(stop), '-');
  }

  /** The header, without its unit, is two numbers around the first dash, and from a slash on anything. */
  ghost predicate IsRange(header: string, s1: string, s2: string, rest: string) {
    && WithoutUnit(header) == s1 + "-" + s2 + rest
    && '-' !in s1 && '/' !in s1 && '/' !in s2 && (rest == "" || rest[0] == '/')
  }

  lemma {:induction false} CutNothing(s: string, sep: char)
    requires sep !in s
    ensures Cut(s, sep) == (s, "")
    decreases |s|
  {
    if s != "" {
      CutNothing(s[1..], sep);
      assert [s[0]] + s[1..] == s;
    }
  }

  lemma {:induction false} CutAt(a: string, rest: string, sep: char)
    requires sep !in a && (rest == "" || rest[0] == sep)
    ensures Cut(a + rest, sep).0 == a
  {
    if rest == "" {
      assert a + rest == a;
      CutNothing(a, sep);
    } else {
      assert a + rest == a + [sep] + rest[1..];
      CutConcat(a, rest[1..], sep);
    }
  }

  /** What a cut leaves, and what follows it from the separator on. */
  lemma {:induction false} CutLeaves(s: string, sep: char) returns (rest: string)
    ensures s == Cut(s, sep).0 + rest && (rest == "" || rest[0] == sep) && sep !in Cut(s, sep).0
    ensures sep in s ==> rest == [sep] + Cut(s, sep).1
    ensures sep !in s ==> Cut(s, sep) == (s, "")
  {
    hide Cut;
    rest := if sep in s then [sep] + Cut(s, sep).1 else "";
    if sep !in s {
      CutNothing(s, sep);
    }
  }

  lemma {:induction false} PartsLack(s: string, a: string, b: string, c: char)
    requires s == a + "-" + b && c !in s
    ensures c !in a && c !in b
  {
    assert forall i :: 0 <= i < |a| ==> s[i] == a[i];
    assert forall i :: 0 <= i < |b| ==> s[|a| + 1 + i] == b[i];
  }

  lemma {:induction false} AcceptedIsRange(header: string) returns (s1: string, s2: string, rest: string)
    requires ParseContentRange(header).Ok?
    ensures IsRange(header, s1, s2, rest) && ParseInt(s1).Some? && ParseInt(s2).Some?
    ensures ParseContentRange(header).value == (ParseInt(s1).value, ParseInt(s2).value)
  {
    hide ParseInt, Cut, WithoutUnit;
    var h := WithoutUnit(header);
    var range := Cut(h, '/').0;
    rest := CutLeaves(h, '/');
    var tail := CutLeaves(range, '-');
    s1, s2 := Cut(range, '-').0, Cut(range, '-').1;
    NoNumber();
    assert tail == ['-'] + s2 == "-" + s2;
    assert range == s1 + "-" + s2;
    PartsLack(range, s1, s2, '/');
  }

  lemma {:induction false} RangeIsAccepted(header: string, s1: string, s2: string, rest: string)
    requires IsRange(header, s1, s2, rest) && ParseInt(s1).Some? && ParseInt(s2).Some?
    ensures ParseContentRange(header) == Ok((ParseInt(s1).value, ParseInt(s2).value))
  {
    hide ParseInt, Cut, WithoutUnit;
    assert WithoutUnit(header) == (s1 + "-" + s2) + rest;
    CutAt(s1 + "-" + s2, rest, '/');
    assert s1 + "-" + s2 == s1 + ['-'] + s2;
    CutConcat(s1, s2, '-');
  }

  /** A header is accepted, with these bounds, exactly when it is a range of two numbers that parse to them. */
  lemma {:induction false} ContentRangeExactly(header: string, start: int, stop: int)
    ensures ParseContentRange(header) == Ok((start, stop)) <==>
            exists s1, s2, rest ::
              IsRange(header, s1, s2, rest) && ParseInt(s1) == Some(start) && ParseInt(s2) == Some(stop)
  {
    hide ParseInt, ParseContentRange, IsRange;
    if ParseContentRange(header) == Ok((start, stop)) {
      var s1, s2, rest := AcceptedIsRange(header);
    }
    if s1, s2, rest :| IsRange(header, s1, s2, rest) && ParseInt(s1) == Some(start) && ParseInt(s2) == Some(stop) {
      RangeIsAccepted(header, s1, s2, rest);
    }
  }

  lemma {:induction false} NoNumber()
    ensures ParseInt("") == None
  {
  }

  // ---------------------------------------------------------------- the handlers

  datatype Cache = Cache(rows: Table, nextId: nat, store: Store)

  datatype Op =
    | Reserve(key: string, version: string, size: int, now: int)
    | Upload(id: nat, range: string, body: string, now: int)
    | Commit(id: nat)
    | Find(keys: seq<string>, version: string)
    | Get(id: nat, now: int)
    | Collect(id: nat)  // the collector removes one entry that it found, whatever came in between

  function Touched(c: Cache, id: nat, now: int): Cache {
    if id in c.rows then c.(rows := c.rows[id := c.rows[id].(usedAt := now)]) else c
  }

  predicate Reserved(c: Cache, id: nat) {
    id in c.rows && !c.rows[id].complete
  }

  function LowerAll(keys: seq<string>): seq<string> {
    seq(|keys|, i requires 0 <= i < |keys| => Lower(keys[i]))
  }

  /** storage.Remove and DeleteCache for a set of entries. */
  function Purged(c: Cache, ids: set<nat>): Cache {
    Cache(c.rows - ids, c.nextId,
          Store(c.store.blobs - set id | id in ids :: FileName(id), c.store.temp - set id | id in ids :: TempDir(id)))
  }

  const KEEP_USED: int := 30 * 24 * 3600
  const KEEP_UNUSED: int := 7 * 24 * 3600
  const KEEP_TEMP: int := 5 * 60
  const KEEP_OLD: int := 5 * 60
  const HOUR: int := 3_600_000_000_000  // nanoseconds

  /** What the i-th pass of gcCache removes. */
  function Garbage(t: Table, pass: nat, now: int): set<nat> {
    if pass == 0 then set id | id in t && t[id].usedAt < now - KEEP_TEMP && !t[id].complete
    else if pass == 1 then set id | id in t && t[id].usedAt < now - KEEP_UNUSED
    else if pass == 2 then set id | id in t && t[id].createdAt < now - KEEP_USED
    else Duplicates(t, now - KEEP_OLD)
  }

  function Collected(c: Cache, now: seq<int>, pass: nat): Cache
    requires |now| == 4 && pass <= 4
    decreases 4 - pass
  {
    if pass == 4 then c else Collected(Purged(c, Garbage(c.rows, pass, now[pass])), now, pass + 1)
  }

  /** CompleteCache when the store has committed, with the length of the blob. */
  function Committed(c: Cache, id: nat, store: Store, r: Result<nat>): Cache
    requires id in c.rows
  {
    c.(store := store,
       rows := if r.Ok? then c.rows[id := c.rows[id].(complete := true, size := r.value)] else c.rows)
  }

  ghost predicate CommitNext(c: Cache, id: nat, c': Cache)
    requires Reserved(c, id)
  {
    exists store, r :: Commits(c.store, id, c.rows[id].size, store, r) && c' == Committed(c, id, store, r)
  }

  ghost predicate FindNext(c: Cache, keys: seq<string>, version: string, found: Option<nat>, c': Cache) {
    MayFind(c.rows, LowerAll(keys), version, found) &&
    c' == if found.Some? && FileName(found.value) !in c.store.blobs then c.(rows := c.rows - {found.value}) else c
  }

  ghost predicate Next(c: Cache, op: Op, c': Cache) {
    match op
    case Reserve(key, version, size, now) =>
      c' == c.(rows := c.rows[c.nextId := Row(Lower(key), version, if size == 0 then -1 else size, false, now, now)],
               nextId := c.nextId + 1)
    case Upload(id, range, body, now) =>
      var r := ParseContentRange(range);
      if Reserved(c, id) && r.Ok? && r.value.0 >= 0
      then c' == Touched(c.(store := Written(c.store, id, r.value.0, body)), id, now)
      else c' == c
    case Commit(id) => if Reserved(c, id) then CommitNext(c, id, c') else c' == c
    case Find(keys, version) => exists found :: FindNext(c, keys, version, found, c')
    case Get(id, now) => c' == Touched(c, id, now)
    case Collect(id) => c' == Purged(c, {id})
  }

  ghost predicate IsRun(cs: seq<Cache>, ops: seq<Op>) {
    |cs| == |ops| + 1 && forall i :: 0 <= i < |ops| ==> Next(cs[i], ops[i], cs[i + 1])
  }

  const EMPTY: Cache := Cache(map[], 1, Store(map[], map[]))

  // ---------------------------------------------------------------- what every step keeps

  ghost predicate Owned(c: Cache, p: (string, string)) {
    exists id :: id in c.rows && c.rows[id].complete && p == FileName(id)
  }

  ghost predicate TempOwned(c: Cache, d: string) {
    exists id :: id in c.rows && !c.rows[id].complete && d == TempDir(id)
  }

  ghost predicate Stored(c: Cache, id: nat)
    requires id in c.rows
  {
    FileName(id) in c.store.blobs && |c.store.blobs[FileName(id)]| == c.rows[id].size
  }

  ghost predicate Inv(c: Cache) {
    && (forall id <- c.rows :: id < c.nextId && NoUpper(c.rows[id].key))
    && (forall id <- c.rows :: c.rows[id].complete ==> Stored(c, id))
    && (forall p <- c.store.blobs :: Owned(c, p))
    && (forall d <- c.store.temp :: TempOwned(c, d))
  }

  ghost predicate SameBlob(c: Cache, c': Cache, id: nat)
    requires id in c.rows && id in c'.rows
  {
    Stored(c, id) && Stored(c', id) && c'.store.blobs[FileName(id)] == c.store.blobs[FileName(id)]
  }

  /** An entry keeps its identity; a complete one keeps everything but its use time; ids are never reused. */
  ghost predicate Keeps(c: Cache, c': Cache, id: nat) {
    if id !in c.rows then id !in c'.rows
    else id in c'.rows ==>
      var r, r' := c.rows[id], c'.rows[id];
      && r'.key == r.key && r'.version == r.version && r'.createdAt == r.createdAt
      && (r.complete ==> r' == r.(usedAt := r'.usedAt) && SameBlob(c, c', id))
  }

  ghost predicate Evolves(c: Cache, c': Cache) {
    c.nextId <= c'.nextId && forall id: nat :: id < c.nextId ==> Keeps(c, c', id)
  }

  lemma {:induction false} LowerHasNoUpper(s: string)
    ensures NoUpper(Lower(s))
  {
  }

  /** Steps that only touch entries or add reservations. */
  lemma {:induction false} SameStoreStep(c: Cache, c': Cache)
    requires Inv(c) && c'.store == c.store && c.nextId <= c'.nextId
    requires forall id <- c.rows :: id in c'.rows && c'.rows[id] == c.rows[id].(usedAt := c'.rows[id].usedAt)
    requires forall id <- c'.rows ::
               id in c.rows || (c.nextId <= id < c'.nextId && !c'.rows[id].complete && NoUpper(c'.rows[id].key))
    ensures Inv(c') && Evolves(c, c')
  {
    hide FileName, TempDir, NoUpper;
    forall p <- c'.store.blobs ensures Owned(c', p) {
      assert Owned(c, p);
      var i :| i in c.rows && c.rows[i].complete && p == FileName(i);
      assert i in c'.rows && c'.rows[i].complete;
    }
    forall d <- c'.store.temp ensures TempOwned(c', d) {
      assert TempOwned(c, d);
      var i :| i in c.rows && !c.rows[i].complete && d == TempDir(i);
      assert i in c'.rows && !c'.rows[i].complete;
    }
    forall i <- c.rows | c.rows[i].complete ensures SameBlob(c, c', i) {
      assert Stored(c, i);
    }
  }

  lemma {:induction false} TouchStep(c: Cache, id: nat, now: int)
    requires Inv(c)
    ensures Inv(Touched(c, id, now)) && Evolves(c, Touched(c, id, now))
  {
    SameStoreStep(c, Touched(c, id, now));
  }

  lemma {:induction false} ReserveStep(c: Cache, key: string, version: string, size: int, now: int, c': Cache)
    requires Inv(c) && Next(c, Reserve(key, version, size, now), c')
    ensures Inv(c') && Evolves(c, c')
  {
    hide Lower, NoUpper;
    LowerHasNoUpper(key);
    assert c.nextId !in c.rows;
    SameStoreStep(c, c');
  }

  lemma {:induction false} WriteStep(c: Cache, id: nat, offset: nat, body: string)
    requires Inv(c) && Reserved(c, id)
    ensures
      var c' := c.(store := Written(c.store, id, offset, body));
      Inv(c') && Evolves(c, c')
  {
    hide FileName, TempDir, ChunkName, NoUpper;
    var c' := c.(store := Written(c.store, id, offset, body));
    forall p <- c'.store.blobs ensures Owned(c', p) {
      assert Owned(c, p);
    }
    forall d <- c'.store.temp ensures TempOwned(c', d) {
      assert d != TempDir(id) ==> TempOwned(c, d);
    }
    assert forall i <- c.rows :: c.rows[i].complete ==> Stored(c, i) && Stored(c', i);
  }

  /** No blob of a complete entry lies at the path of another id. */
  lemma {:induction false} BlobsApart(c: Cache, id: nat)
    requires Inv(c)
    ensures FileName(id) in c.store.blobs ==> id in c.rows && c.rows[id].complete
    ensures TempDir(id) in c.store.temp ==> id in c.rows && !c.rows[id].complete
  {
    if FileName(id) in c.store.blobs {
      assert Owned(c, FileName(id));
      var i :| i in c.rows && c.rows[i].complete && FileName(id) == FileName(i);
      PathsNeverShared(i, id);
    }
    if TempDir(id) in c.store.temp {
      assert TempOwned(c, TempDir(id));
      var i :| i in c.rows && !c.rows[i].complete && TempDir(id) == TempDir(i);
      PathsNeverShared(i, id);
    }
  }

  /** Dropping the chunks of an open reservation. */
  lemma {:induction false} DropChunksStep(c: Cache, id: nat)
    requires Inv(c) && Reserved(c, id)
    ensures
      var c' := c.(store := c.store.(temp := c.store.temp - {TempDir(id)}));
      Inv(c') && Evolves(c, c')
  {
    hide NoUpper, FileName, TempDir;
    var c' := c.(store := c.store.(temp := c.store.temp - {TempDir(id)}));
    forall p <- c'.store.blobs ensures Owned(c', p) {
      assert Owned(c, p);
    }
    forall d <- c'.store.temp ensures TempOwned(c', d) {
      assert TempOwned(c, d);
    }
    assert forall i <- c.rows :: c.rows[i].complete ==> Stored(c, i) && Stored(c', i);
  }

  lemma {:induction false} CompleteOwned(c: Cache, id: nat, content: string, c': Cache)
    requires Inv(c) && Reserved(c, id) && TempDir(id) !in c.store.temp
    requires c' == Committed(c, id, c.store.(blobs := c.store.blobs[FileName(id) := content]), Ok(|content|))
    ensures forall p <- c'.store.blobs :: Owned(c', p)
    ensures forall d <- c'.store.temp :: TempOwned(c', d)
  {
    hide NoUpper, FileName, TempDir, Stored;
    forall p <- c'.store.blobs ensures Owned(c', p) {
      if p == FileName(id) {
        assert id in c'.rows && c'.rows[id].complete;
      } else {
        assert Owned(c, p);
        var i :| i in c.rows && c.rows[i].complete && p == FileName(i);
        assert i in c'.rows && c'.rows[i].complete;
      }
    }
    forall d <- c'.store.temp ensures TempOwned(c', d) {
      assert TempOwned(c, d);
      var i :| i in c.rows && !c.rows[i].complete && d == TempDir(i);
      assert i in c'.rows && !c'.rows[i].complete;
    }
  }

  /** Completing a reservation without chunks whose blob has been put in place. */
  lemma {:induction false} CompleteStep(c: Cache, id: nat, content: string)
    requires Inv(c) && Reserved(c, id) && TempDir(id) !in c.store.temp && FileName(id) !in c.store.blobs
    ensures
      var store := c.store.(blobs := c.store.blobs[FileName(id) := content]);
      var c' := Committed(c, id, store, Ok(|content|));
      Inv(c') && Evolves(c, c')
  {
    hide NoUpper, FileName, TempDir;
    var store := c.store.(blobs := c.store.blobs[FileName(id) := content]);
    var c' := Committed(c, id, store, Ok(|content|));
    CompleteOwned(c, id, content, c');
    hide Owned, TempOwned;
    forall i <- c.rows | c.rows[i].complete ensures SameBlob(c, c', i) {
      assert Stored(c, i);
    }
  }

  lemma {:induction false} CommitStep(c: Cache, id: nat, c': Cache)
    requires Inv(c) && Reserved(c, id) && CommitNext(c, id, c')
    ensures Inv(c') && Evolves(c, c')
  {
    hide IsAssembled, Chunks, FileName, TempDir, Inv, Evolves;
    var store, r :| Commits(c.store, id, c.rows[id].size, store, r) && c' == Committed(c, id, store, r);
    BlobsApart(c, id);
    assert FileName(id) !in c.store.blobs;
    var m := c.(store := c.store.(temp := c.store.temp - {TempDir(id)}));
    DropChunksStep(c, id);
    if r.Ok? {
      var content := store.blobs[FileName(id)];
      CompleteStep(m, id, content);
      assert c' == Committed(m, id, m.store.(blobs := m.store.blobs[FileName(id) := content]), Ok(|content|));
      EvolvesTransitive(c, m, c');
    } else {
      assert store.blobs == c.store.blobs;
      assert c' == m;
    }
  }

  lemma {:induction false} PurgeStep(c: Cache, ids: set<nat>)
    requires Inv(c)
    ensures Inv(Purged(c, ids)) && Evolves(c, Purged(c, ids))
  {
    hide FileName, TempDir, NoUpper;
    var c' := Purged(c, ids);
    forall i: nat, j: nat ensures (FileName(i) == FileName(j) <==> i == j) && (TempDir(i) == TempDir(j) <==> i == j) {
      PathsNeverShared(i, j);
    }
    forall i <- c'.rows | c'.rows[i].complete ensures Stored(c, i) && Stored(c', i) {
      assert FileName(i) !in set id | id in ids :: FileName(id);
    }
    forall p <- c'.store.blobs ensures Owned(c', p) {
      assert Owned(c, p);
      var i :| i in c.rows && c.rows[i].complete && p == FileName(i);
      assert i !in ids;
      assert i in c'.rows && c'.rows[i].complete;
    }
    forall d <- c'.store.temp ensures TempOwned(c', d) {
      assert TempOwned(c, d);
      var i :| i in c.rows && !c.rows[i].complete && d == TempDir(i);
      assert i !in ids;
      assert i in c'.rows && !c'.rows[i].complete;
    }
  }

  lemma {:induction false} EvolvesTransitive(a: Cache, b: Cache, c: Cache)
    requires Evolves(a, b) && Evolves(b, c)
    ensures Evolves(a, c)
  {
    hide FileName, Stored;
    forall id: nat | id < a.nextId ensures Keeps(a, c, id) {
      assert Keeps(a, b, id) && Keeps(b, c, id);
    }
  }

  lemma {:induction false} EvolvesReflexive(c: Cache)
    requires Inv(c)
    ensures Evolves(c, c)
  {
  }

  /** In a reachable state find answers only with entries that are complete, match and exist, and deletes nothing. */
  lemma {:induction false} FindHitsExist(c: Cache, keys: seq<string>, version: string, found: Option<nat>, c': Cache)
    requires Inv(c) && FindNext(c, keys, version, found, c')
    ensures c' == c
    ensures found.Some? ==>
              && found.value in c.rows && c.rows[found.value].complete && c.rows[found.value].version == version
              && Stored(c, found.value)
  {
    if found.Some? {
      FindReturnsComplete(c.rows, LowerAll(keys), version, found.value);
    }
  }

  /** In any state, reachable or not, find deletes the row of a hit whose blob is missing, and only that. */
  lemma {:induction false} FindDropsMissing(c: Cache, keys: seq<string>, version: string, found: Option<nat>, c': Cache)
    requires FindNext(c, keys, version, found, c')
    ensures c'.store == c.store && c'.nextId == c.nextId
    ensures found.Some? ==>
              found.value in c.rows && (found.value in c'.rows <==> FileName(found.value) in c.store.blobs)
    ensures forall id :: id in c.rows && found != Some(id) ==> id in c'.rows && c'.rows[id] == c.rows[id]
    ensures c'.rows.Keys <= c.rows.Keys
  {
    hide FileName;
    if found.Some? {
      FindReturnsComplete(c.rows, LowerAll(keys), version, found.value);
    }
  }

  lemma {:induction false} Step(c: Cache, op: Op, c': Cache)
    requires Inv(c) && Next(c, op, c')
    ensures Inv(c') && Evolves(c, c')
  {
    hide Inv, Evolves, Touched, Written, Purged, Reserved, ParseContentRange, CommitNext, FindNext, LowerAll;
    EvolvesReflexive(c);
    match op
    case Reserve(key, version, size, now) => ReserveStep(c, key, version, size, now, c');
    case Upload(id, range, body, now) =>
      var r := ParseContentRange(range);
      if Reserved(c, id) && r.Ok? && r.value.0 >= 0 {
        WriteStep(c, id, r.value.0, body);
        var m := c.(store := Written(c.store, id, r.value.0, body));
        TouchStep(m, id, now);
        EvolvesTransitive(c, m, c');
      }
    case Commit(id) =>
      if Reserved(c, id) {
        CommitStep(c, id, c');
      }
    case Find(keys, version) =>
      var found :| FindNext(c, keys, version, found, c');
      FindHitsExist(c, keys, version, found, c');
    case Get(id, now) => TouchStep(c, id, now);
    case Collect(id) => PurgeStep(c, {id});
  }

  /**
   Over every run of requests and collections: a complete entry's blob has the entry's size, and
   from any moment on it keeps its bytes, size, key and version until the entry is gone for good.
   */
  lemma {:induction false} CompletedEntriesNeverChange(cs: seq<Cache>, ops: seq<Op>, i: nat, j: nat)
    requires IsRun(cs, ops) && cs[0] == EMPTY && i <= j < |cs|
    ensures Inv(cs[i]) && Inv(cs[j]) && Evolves(cs[i], cs[j])
    decreases j
  {
    hide Inv, Evolves, Next;
    if j == 0 {
      EmptyIsValid();
      EvolvesReflexive(cs[0]);
    } else {
      CompletedEntriesNeverChange(cs, ops, if i < j then i else j - 1, j - 1);
      Step(cs[j - 1], ops[j - 1], cs[j]);
      EvolvesReflexive(cs[j]);
      if i < j {
        EvolvesTransitive(cs[i], cs[j - 1], cs[j]);
      }
    }
  }

  lemma {:induction false} EmptyIsValid()
    ensures Inv(EMPTY)
  {
  }

  // ---------------------------------------------------------------- what a collection removes

  /** Used and created recently enough for the first three passes, in seconds. */
  predicate Outlives(r: Row, now: seq<int>)
    requires |now| == 4
  {
    && (r.complete || r.usedAt >= now[0] - 300)
    && r.usedAt >= now[1] - 604_800
    && r.createdAt >= now[2] - 2_592_000
  }

  function Survivors(t: Table, now: seq<int>): Table
    requires |now| == 4
  {
    map id | id in t && Outlives(t[id], now) :: t[id]
  }

  /** r was not used in the last five minutes, and j is a newer complete entry with the same key and version. */
  predicate IsSuperseded(r: Row, j: Row, now: int) {
    && r.complete && j.complete && r.key == j.key && r.version == j.version
    && r.createdAt < j.createdAt && r.usedAt < now - 300
  }

  lemma {:induction false} CollectedTable(c: Cache, now: seq<int>)
    requires |now| == 4
    ensures
      var t := Survivors(c.rows, now);
      Collected(c, now, 0).rows == t - Duplicates(t, now[3] - 300)
  {
    hide Duplicates;
    var t1 := c.rows - Garbage(c.rows, 0, now[0]);
    var t2 := t1 - Garbage(t1, 1, now[1]);
    var t3 := t2 - Garbage(t2, 2, now[2]);
    assert t3 == Survivors(c.rows, now);
    var c1 := Purged(c, Garbage(c.rows, 0, now[0]));
    var c2 := Purged(c1, Garbage(t1, 1, now[1]));
    var c3 := Purged(c2, Garbage(t2, 2, now[2]));
    assert Collected(c, now, 0) == Collected(c1, now, 1) == Collected(c2, now, 2) == Collected(c3, now, 3);
    var c4 := Purged(c3, Garbage(t3, 3, now[3]));
    assert Collected(c3, now, 3) == Collected(c4, now, 4);
  }

  /**
   A collection leaves exactly the entries within their time limits, without those that another of
   them supersedes, and leaves them as they were.
   */
  lemma {:induction false} CollectedExactly(c: Cache, now: seq<int>, id: nat)
    requires |now| == 4
    ensures
      var rows := Collected(c, now, 0).rows;
      && (id in rows <==>
            && id in c.rows && Outlives(c.rows[id], now)
            && !exists j :: j in c.rows && Outlives(c.rows[j], now) && IsSuperseded(c.rows[id], c.rows[j], now[3]))
      && (id in rows ==> rows[id] == c.rows[id])
  {
    hide Collected;
    CollectedTable(c, now);
    var t := Survivors(c.rows, now);
    if id in t {
      if id in Duplicates(t, now[3] - 300) {
        var j :| j in t && Sibling(t[id], t[j]) && t[id].createdAt < t[j].createdAt;
        assert j in c.rows && Outlives(c.rows[j], now) && IsSuperseded(c.rows[id], c.rows[j], now[3]);
      }
      if j :| j in c.rows && Outlives(c.rows[j], now) && IsSuperseded(c.rows[id], c.rows[j], now[3]) {
        assert j in t && Sibling(t[id], t[j]);
      }
    }
  }

  /** An entry used in the last five minutes and created in the last thirty days survives every collection. */
  lemma {:induction false} RecentlyUsedSurvives(c: Cache, now: seq<int>, id: nat)
    requires |now| == 4 && id in c.rows && c.rows[id].createdAt >= now[2] - 2_592_000
    requires forall i :: 0 <= i < 4 ==> c.rows[id].usedAt >= now[i] - 300
    ensures id in Collected(c, now, 0).rows && Collected(c, now, 0).rows[id] == c.rows[id]
  {
    hide Collected;
    CollectedExactly(c, now, id);
    assert c.rows[id].usedAt >= now[3] - 300;
  }

  /** The entry that a request uses: an upload that is accepted, or a download. */
  predicate Uses(c: Cache, op: Op, id: nat) {
    || (op.Upload? && op.id == id && Reserved(c, id) && ParseContentRange(op.range).Ok?)
    || (op.Get? && op.id == id && id in c.rows)
  }

  /**
   A request that uses an entry sets its use time to the clock and nothing else of it, so that for the
   next five minutes no collection removes it, unless it is over thirty days old.
   */
  lemma {:induction false} UseProtects(c: Cache, op: Op, c': Cache, id: nat, now: seq<int>)
    requires Uses(c, op, id) && Next(c, op, c') && |now| == 4
    ensures id in c'.rows && c'.rows[id] == c.rows[id].(usedAt := op.now)
    ensures (forall i :: 0 <= i < 4 ==> now[i] <= op.now + 300) && c.rows[id].createdAt >= now[2] - 2_592_000 ==>
              id in Collected(c', now, 0).rows
  {
    hide ParseContentRange, Collected, Written;
    if op.Upload? {
      RangeStartInBounds(op.range);
    }
    if (forall i :: 0 <= i < 4 ==> now[i] <= op.now + 300) && c.rows[id].createdAt >= now[2] - 2_592_000 {
      RecentlyUsedSurvives(c', now, id);
    }
  }

  lemma {:induction false} PurgeOneMore(c: Cache, ids: set<nat>, id: nat)
    ensures
      var m := Purged(c, ids);
      Purged(c, ids + {id}) == Cache(m.rows - {id}, m.nextId, Removed(m.store, id))
  {
    hide FileName, TempDir;
    var a, b := Purged(c, ids + {id}), Cache(Purged(c, ids).rows - {id}, c.nextId, Removed(Purged(c, ids).store, id));
    assert (set i | i in ids + {id} :: FileName(i)) == (set i | i in ids :: FileName(i)) + {FileName(id)};
    assert (set i | i in ids + {id} :: TempDir(i)) == (set i | i in ids :: TempDir(i)) + {TempDir(id)};
    assert a.rows == b.rows && a.store.blobs == b.store.blobs && a.store.temp == b.store.temp;
  }

  lemma {:induction false} SnocRun(cs: seq<Cache>, ops: seq<Op>, op: Op, c: Cache)
    requires IsRun(cs, ops) && Next(cs[|ops|], op, c)
    ensures IsRun(cs + [c], ops + [op]) && (cs + [c])[0] == cs[0]
  {
    hide Next;
    var cs', ops' := cs + [c], ops + [op];
    forall i | 0 <= i < |ops'| ensures Next(cs'[i], ops'[i], cs'[i + 1]) {
      if i < |ops| {
        assert cs'[i] == cs[i] && ops'[i] == ops[i] && cs'[i + 1] == cs[i + 1];
      }
    }
  }

  ghost predicate OnlyCollects(ops: seq<Op>) {
    forall i :: 0 <= i < |ops| ==> ops[i].Collect?
  }

  lemma {:induction false} PurgeNothing(c: Cache)
    ensures Purged(c, {}) == c
  {
  }

  /** Removing a set of entries is removing them one by one, after any run. */
  lemma {:induction false} PurgeIsRun(cs: seq<Cache>, ops: seq<Op>, ids: set<nat>)
    returns (cs': seq<Cache>, ops': seq<Op>)
    requires IsRun(cs, ops) && OnlyCollects(ops)
    ensures IsRun(cs', ops') && OnlyCollects(ops') && cs'[0] == cs[0] && cs'[|ops'|] == Purged(cs[|ops|], ids)
    decreases |ids|
  {
    hide IsRun, Purged;
    RunLength(cs, ops);
    if ids == {} {
      PurgeNothing(cs[|ops|]);
      cs', ops' := cs, ops;
    } else {
      var id :| id in ids;
      cs', ops' := PurgeIsRun(cs, ops, ids - {id});
      var m := Purged(cs[|ops|], ids - {id});
      RunLength(cs', ops');
      PurgeTwo(cs[|ops|], ids - {id}, id);
      assert ids - {id} + {id} == ids;
      SnocRun(cs', ops', Collect(id), Purged(m, {id}));
      cs', ops' := cs' + [Purged(m, {id})], ops' + [Collect(id)];
    }
  }

  lemma {:induction false} RunLength(cs: seq<Cache>, ops: seq<Op>)
    requires IsRun(cs, ops)
    ensures |cs| == |ops| + 1
  {
  }

  lemma {:induction false} PurgeTwo(c: Cache, ids: set<nat>, id: nat)
    ensures Purged(Purged(c, ids), {id}) == Purged(c, ids + {id})
  {
    PurgeOneMore(c, ids, id);
    PurgeOneMore(Purged(c, ids), {}, id);
    PurgeNothing(Purged(c, ids));
    assert {} + {id} == {id};
  }

  /** A whole collection is a run of single removals, so requests can fall anywhere between them. */
  lemma {:induction false} CollectionIsRun(cs: seq<Cache>, ops: seq<Op>, now: seq<int>, pass: nat)
    returns (cs': seq<Cache>, ops': seq<Op>)
    requires IsRun(cs, ops) && OnlyCollects(ops) && |now| == 4 && pass <= 4
    ensures IsRun(cs', ops') && OnlyCollects(ops')
    ensures cs'[0] == cs[0] && cs'[|ops'|] == Collected(cs[|ops|], now, pass)
    decreases 4 - pass
  {
    hide IsRun, Garbage, Purged;
    RunLength(cs, ops);
    if pass == 4 {
      cs', ops' := cs, ops;
    } else {
      cs', ops' := PurgeIsRun(cs, ops, Garbage(cs[|ops|].rows, pass, now[pass]));
      cs', ops' := CollectionIsRun(cs', ops', now, pass + 1);
    }
  }

  // ---------------------------------------------------------------- reserve, upload, commit

  /** The chunks that a run's accepted uploads to one entry carry, in order. */
  function ChunksOf(ops: seq<Op>, id: nat): seq<Chunk> {
    if ops == [] then []
    else
      var op := ops[0];
      (if op.Upload? && op.id == id && ParseContentRange(op.range).Ok? && ParseContentRange(op.range).value.0 >= 0
       then [Chunk(ParseContentRange(op.range).value.0, op.body)] else [])
      + ChunksOf(ops[1..], id)
  }

  lemma {:induction false} UploadedConcat(dir: map<string, string>, a: seq<Chunk>, b: seq<Chunk>)
    ensures Uploaded(dir, a + b) == Uploaded(Uploaded(dir, a), b)
    decreases |a|
  {
    if a == [] {
      assert a + b == b;
    } else {
      assert (a + b)[1..] == a[1..] + b;
      UploadedConcat(dir[ChunkName(a[0].offset) := a[0].body], a[1..], b);
    }
  }

  /** A step other than its own commit leaves an open reservation's directory to its uploads. */
  lemma {:induction false} StepKeepsChunks(c: Cache, op: Op, c': Cache, id: nat)
    requires Inv(c) && Next(c, op, c') && Reserved(c, id) && id in c'.rows && op != Commit(id)
    ensures Reserved(c', id) && c'.rows[id].size == c.rows[id].size
    ensures Chunks(c'.store, id) == Uploaded(Chunks(c.store, id), ChunksOf([op], id))
  {
    hide Inv, Decimal, Hex, ChunkName, ParseContentRange, NoUpper, FileName, TempDir, Lower, MayFind;
    forall i: nat | i != id ensures TempDir(i) != TempDir(id) {
      PathsNeverShared(i, id);
    }
    assert [op][1..] == [];
    assert forall x: seq<Chunk> {:trigger x + []} :: x + [] == x;
    match op
    case Reserve(_, _, _, _) => assert c.nextId != id by { ReservedBelow(c, id); }
    case Upload(i, range, body, now) =>
    case Commit(i) =>
      if Reserved(c, i) {
        var store, r :| Commits(c.store, i, c.rows[i].size, store, r) && c' == Committed(c, i, store, r);
        assert store.temp == c.store.temp - {TempDir(i)};
      }
    case Find(keys, version) =>
      var found :| FindNext(c, keys, version, found, c');
      FindHitsExist(c, keys, version, found, c');
    case Get(_, _) =>
    case Collect(i) =>
      assert (set k | k in {i} :: TempDir(k)) == {TempDir(i)};
  }

  lemma {:induction false} ReservedBelow(c: Cache, id: nat)
    requires Inv(c) && id in c.rows
    ensures id < c.nextId
  {
  }

  lemma {:induction false} RunKeepsChunks(cs: seq<Cache>, ops: seq<Op>, id: nat)
    requires IsRun(cs, ops) && Inv(cs[0])
    requires Reserved(cs[0], id) && id in cs[|ops|].rows && Commit(id) !in ops
    ensures Inv(cs[|ops|]) && Reserved(cs[|ops|], id) && cs[|ops|].rows[id].size == cs[0].rows[id].size
    ensures Chunks(cs[|ops|].store, id) == Uploaded(Chunks(cs[0].store, id), ChunksOf(ops, id))
    decreases |ops|
  {
    hide Inv, Next, Chunks, Decimal, Hex, ParseContentRange, FileName, TempDir;
    if ops != [] {
      var op, rest := ops[0], ops[1..];
      Step(cs[0], op, cs[1]);
      ReservedBelow(cs[0], id);
      StillThere(cs, ops, id);
      StepKeepsChunks(cs[0], op, cs[1], id);
      assert cs[1..][0] == cs[1] && cs[1..][|rest|] == cs[|ops|];
      RunKeepsChunks(cs[1..], rest, id);
      UploadedConcat(Chunks(cs[0].store, id), ChunksOf([op], id), ChunksOf(rest, id));
      assert [op][1..] == [] && ChunksOf([op], id) + [] == ChunksOf([op], id);
      assert ChunksOf(ops, id) == ChunksOf([op], id) + ChunksOf(rest, id);
    }
  }

  /** An id that is present at the end of a run was present after its first step. */
  lemma {:induction false} StillThere(cs: seq<Cache>, ops: seq<Op>, id: nat)
    requires IsRun(cs, ops) && ops != [] && Inv(cs[0])
    requires id < cs[0].nextId && id in cs[|ops|].rows
    ensures id in cs[1].rows
  {
    hide Inv, Next;
    Step(cs[0], ops[0], cs[1]);
    RunEvolves(cs[1..], ops[1..]);
    assert cs[1..][|ops| - 1] == cs[|ops|];
    assert Keeps(cs[1], cs[|ops|], id);
  }

  lemma {:induction false} RunEvolves(cs: seq<Cache>, ops: seq<Op>)
    requires IsRun(cs, ops) && Inv(cs[0])
    ensures Inv(cs[|ops|]) && Evolves(cs[0], cs[|ops|])
    decreases |ops|
  {
    hide Inv, Next, Evolves;
    if ops == [] {
      EvolvesReflexive(cs[0]);
    } else {
      Step(cs[0], ops[0], cs[1]);
      RunEvolves(cs[1..], ops[1..]);
      assert cs[1..][|ops| - 1] == cs[|ops|];
      EvolvesTransitive(cs[0], cs[1], cs[|ops|]);
    }
  }

  lemma {:induction false} FreshId(c: Cache)
    requires Inv(c)
    ensures c.nextId !in c.rows && Chunks(c.store, c.nextId) == map[]
  {
    BlobsApart(c, c.nextId);
  }

  /**
   An entry is reserved, then any requests and collections run, among which the uploads to the entry
   leave the slices of a content at the given ranges behind, in any order and with repeats, the last
   upload at an offset counting; the reservation is still there and is committed.
   */
  ghost predicate IsSession(
    cs: seq<Cache>, ops: seq<Op>, final: Cache, size: int, content: string, spans: seq<Span>)
  {
    && IsRun(cs, ops) && Inv(cs[0])
    && ops != [] && ops[0].Reserve? && ops[0].size == size
    && Commit(cs[0].nextId) !in ops && cs[0].nextId in cs[|ops|].rows
    && AreSlices(content, spans, ChunksOf(ops[1..], cs[0].nextId))
    && Next(cs[|ops|], Commit(cs[0].nextId), final)
  }

  /** The reservation when it comes to the commit. */
  lemma {:induction false} BeforeCommit(cs: seq<Cache>, ops: seq<Op>, id: nat)
    requires IsRun(cs, ops) && Inv(cs[0]) && id == cs[0].nextId
    requires ops != [] && ops[0].Reserve? && Commit(id) !in ops && id in cs[|ops|].rows
    ensures Reserved(cs[|ops|], id) && Inv(cs[|ops|])
    ensures cs[|ops|].rows[id].size == if ops[0].size == 0 then -1 else ops[0].size
    ensures Chunks(cs[|ops|].store, id) == Uploaded(map[], ChunksOf(ops[1..], id))
  {
    hide Inv, ChunksOf, Chunks, Lower, Uploaded;
    FreshId(cs[0]);
    assert Reserved(cs[1], id) && cs[1].store == cs[0].store;
    Step(cs[0], ops[0], cs[1]);
    assert cs[1..][|ops| - 1] == cs[|ops|];
    RunKeepsChunks(cs[1..], ops[1..], id);
  }

  /** A session stores the slices in offset order, unless a declared size refuses them. */
  lemma {:induction false} SessionStoresSlices(
    cs: seq<Cache>, ops: seq<Op>, final: Cache, size: int, content: string, spans: seq<Span>)
    requires IsSession(cs, ops, final, size, content, spans)
    ensures
      var id := cs[0].nextId;
      && id in final.rows && final.rows[id].complete == !(size > 0 && TotalLength(spans) != size)
      && (final.rows[id].complete ==>
            && final.rows[id].size == TotalLength(spans) && FileName(id) in final.store.blobs
            && final.store.blobs[FileName(id)] == Gathered(content, spans))
  {
    hide Inv, AreSlices, ChunksOf, FileName, Chunks, Uploaded, Gathered, TotalLength;
    var id := cs[0].nextId;
    BeforeCommit(cs, ops, id);
    var c := cs[|ops|];
    var store, r :| Commits(c.store, id, c.rows[id].size, store, r) && final == Committed(c, id, store, r);
    CommitStoresSlices(c.store, id, c.rows[id].size, content, spans, ChunksOf(ops[1..], id), store, r);
  }

  /**
   The cache round trip.  With uploads that tile the content, and its size or no size declared, a
   session completes the entry with exactly that content.
   */
  lemma {:induction false} UploadedContentIsStored(
    cs: seq<Cache>, ops: seq<Op>, final: Cache, size: int, content: string, spans: seq<Span>)
    requires IsSession(cs, ops, final, size, content, spans)
    requires Contiguous(spans) && TotalLength(spans) == |content|
    requires size <= 0 || size == |content|
    ensures
      var id := cs[0].nextId;
      && id in final.rows && final.rows[id].complete && final.rows[id].size == |content|
      && FileName(id) in final.store.blobs && final.store.blobs[FileName(id)] == content
  {
    hide Inv, ChunksOf, FileName, Contiguous, Gathered, TotalLength, IsRun, Next, LastAt, IsOffset;
    SessionStoresSlices(cs, ops, final, size, content, spans);
    ContiguousGathers(content, spans);
    assert content[..|content|] == content;
  }

  /** The entry of a session keeps the key, in lower case, the version and the creation time it was reserved with. */
  lemma {:induction false} SessionKeepsKey(
    cs: seq<Cache>, ops: seq<Op>, final: Cache, size: int, content: string, spans: seq<Span>)
    requires IsSession(cs, ops, final, size, content, spans)
    ensures
      var id, op := cs[0].nextId, ops[0];
      && id in final.rows
      && final.rows[id].key == Lower(op.key) && final.rows[id].version == op.version
      && final.rows[id].createdAt == op.now
      && Inv(final)
  {
    hide Inv, AreSlices, ChunksOf, Lower, Evolves, CommitNext, Reserved;
    var id := cs[0].nextId;
    SessionStoresSlices(cs, ops, final, size, content, spans);
    FreshId(cs[0]);
    Step(cs[0], ops[0], cs[1]);
    RunEvolves(cs[1..], ops[1..]);
    assert cs[1..][|ops| - 1] == cs[|ops|];
    Step(cs[|ops|], Commit(id), final);
    EvolvesTransitive(cs[1], cs[|ops|], final);
    KeepsKey(cs[1], final, id);
  }

  lemma {:induction false} KeepsKey(c: Cache, c': Cache, id: nat)
    requires Evolves(c, c') && id < c.nextId && id in c.rows && id in c'.rows
    ensures c'.rows[id].key == c.rows[id].key && c'.rows[id].version == c.rows[id].version
    ensures c'.rows[id].createdAt == c.rows[id].createdAt
  {
    hide Stored;
    assert Keeps(c, c', id);
  }

  /**
   What was cached is found: after a session that completes its entry, find with the entry's key
   first, in any case, and its version answers with a complete entry that has exactly that key, at
   least as new, whose blob is there.
   */
  lemma {:induction false} StoredIsFound(
    cs: seq<Cache>, ops: seq<Op>, final: Cache, size: int, content: string, spans: seq<Span>,
    keys: seq<string>, found: Option<nat>, after: Cache)
    requires IsSession(cs, ops, final, size, content, spans) && !(size > 0 && TotalLength(spans) != size)
    requires keys != [] && Lower(keys[0]) == Lower(ops[0].key) && FindNext(final, keys, ops[0].version, found, after)
    ensures after == final && found.Some? && found.value in final.rows && Stored(final, found.value)
    ensures final.rows[found.value].complete && final.rows[found.value].version == ops[0].version
    ensures final.rows[found.value].key == Lower(ops[0].key) && final.rows[found.value].createdAt >= ops[0].now
  {
    hide Inv, AreSlices, ChunksOf, Lower, Next, MayFind, Gathered, TotalLength;
    SessionKeepsKey(cs, ops, final, size, content, spans);
    SessionStoresSlices(cs, ops, final, size, content, spans);
    assert LowerAll(keys)[0] == Lower(keys[0]);
    OwnKeyIsFound(final.rows, LowerAll(keys), ops[0].version, cs[0].nextId, found);
    FindHitsExist(final, keys, ops[0].version, found, after);
  }

  // ---------------------------------------------------------------- exactly when the stored content is right

  function SliceSeq(content: string, spans: seq<Span>): (chunks: seq<Chunk>)
    requires IsLayout(spans, |content|)
    ensures |chunks| == |spans| && forall i :: 0 <= i < |spans| ==> chunks[i] == Slice(content, spans[i])
  {
    seq(|spans|, i requires 0 <= i < |spans| => Slice(content, spans[i]))
  }

  lemma {:induction false} LastOfSlices(content: string, spans: seq<Span>, i: nat)
    requires IsLayout(spans, |content|) && i < |spans|
    ensures LastAt(SliceSeq(content, spans), spans[i].offset) == Some(Slice(content, spans[i]))
    decreases |spans|
  {
    var n := |spans| - 1;
    var chunks := SliceSeq(content, spans);
    assert chunks[n] == Slice(content, spans[n]);
    if i < n {
      var front := spans[..n];
      assert IsLayout(front, |content|) && front[i] == spans[i];
      LastOfSlices(content, front, i);
      hide IsLayout;
      assert chunks[..n] == SliceSeq(content, front);
    }
  }

  lemma {:induction false} SliceSeqAreSlices(content: string, spans: seq<Span>)
    requires spans != [] && IsLayout(spans, |content|)
    ensures AreSlices(content, spans, SliceSeq(content, spans))
  {
    hide LastAt;
    var chunks := SliceSeq(content, spans);
    forall c <- chunks ensures IsOffset(spans, c.offset) {
      var i :| 0 <= i < |chunks| && chunks[i] == c;
      assert spans[i].offset == c.offset;
    }
    forall i | 0 <= i < |spans| ensures LastAt(chunks, spans[i].offset) == Some(Slice(content, spans[i])) {
      LastOfSlices(content, spans, i);
    }
  }

  /** The Content-Range header a client sends with a chunk. */
  function RangeOf(c: Chunk): string {
    "bytes " + Decimal(c.offset) + "-" + Decimal(if c.body == "" then c.offset else c.offset + |c.body| - 1) + "/*"
  }

  lemma {:induction false} RangeOfParses(c: Chunk)
    requires c.offset + |c.body| < INT64_LIMIT
    ensures ParseContentRange(RangeOf(c)).Ok? && ParseContentRange(RangeOf(c)).value.0 == c.offset
  {
    hide ParseContentRange, Decimal;
    var stop := if c.body == "" then c.offset else c.offset + |c.body| - 1;
    ContentRangeRoundTrip(c.offset, stop, "*");
    assert RangeOf(c) == "bytes " + Decimal(c.offset) + "-" + Decimal(stop) + "/" + "*";
  }

  lemma {:induction false} ConsRun(c: Cache, op: Op, cs: seq<Cache>, ops: seq<Op>)
    requires IsRun(cs, ops) && Next(c, op, cs[0])
    ensures IsRun([c] + cs, [op] + ops) && ([c] + cs)[|ops| + 1] == cs[|ops|] && ([op] + ops)[1..] == ops
  {
    hide Next;
    var cs', ops' := [c] + cs, [op] + ops;
    forall i | 0 <= i < |ops'| ensures Next(cs'[i], ops'[i], cs'[i + 1]) {
      if i > 0 {
        assert cs'[i] == cs[i - 1] && ops'[i] == ops[i - 1] && cs'[i + 1] == cs[i];
      }
    }
  }

  /** The chunks of a list can be uploaded one after the other. */
  lemma {:induction false} UploadAll(c: Cache, id: nat, chunks: seq<Chunk>) returns (cs: seq<Cache>, ops: seq<Op>)
    requires Reserved(c, id) && forall ch <- chunks :: ch.offset + |ch.body| < INT64_LIMIT
    ensures IsRun(cs, ops) && cs[0] == c && id in cs[|ops|].rows
    ensures Commit(id) !in ops && ChunksOf(ops, id) == chunks
    decreases |chunks|
  {
    hide ParseContentRange, RangeOf, TempDir, ChunkName;
    if chunks == [] {
      cs, ops := [c], [];
    } else {
      var ch := chunks[0];
      assert ch in chunks;
      RangeOfParses(ch);
      var op := Upload(id, RangeOf(ch), ch.body, 0);
      var next := Touched(c.(store := Written(c.store, id, ch.offset, ch.body)), id, 0);
      assert Next(c, op, next);
      hide Next;
      cs, ops := UploadAll(next, id, chunks[1..]);
      ConsRun(c, op, cs, ops);
      cs, ops := [c] + cs, [op] + ops;
    }
  }

  lemma {:induction false} CommitExists(c: Cache, id: nat, content: string) returns (final: Cache)
    requires Reserved(c, id) && Chunks(c.store, id) != map[] && IsAssembled(Chunks(c.store, id), content)
    ensures Next(c, Commit(id), final)
  {
    hide Chunks, IsAssembled, FileName, TempDir;
    var size := c.rows[id].size;
    var store, r := Removed(c.store, id), Result<nat>.Err;
    if size < 0 || |content| == size {
      store := Store(c.store.blobs[FileName(id) := content], c.store.temp - {TempDir(id)});
      r := Ok(|content|);
    }
    assert Commits(c.store, id, size, store, r);
    final := Committed(c, id, store, r);
  }

  lemma {:induction false} FirstReservation(size: int) returns (op: Op, c: Cache)
    ensures Next(EMPTY, op, c) && op.Reserve? && op.size == size && Reserved(c, 1)
  {
    hide Lower;
    op := Reserve("key", "version", size, 0);
    var row := Row(Lower("key"), "version", if size == 0 then -1 else size, false, 0, 0);
    c := EMPTY.(rows := EMPTY.rows[1 := row], nextId := 2);
  }

  /** Whatever the content and the ranges, a server that starts empty can receive this session. */
  lemma {:induction false} SessionExists(size: int, content: string, spans: seq<Span>)
    returns (cs: seq<Cache>, ops: seq<Op>, final: Cache)
    requires spans != [] && IsLayout(spans, |content|)
    ensures IsSession(cs, ops, final, size, content, spans) && cs != [] && cs[0] == EMPTY
  {
    hide Inv, Chunks, AreSlices, IsAssembled, Gathered, Uploaded, ChunksOf, Next;
    EmptyIsValid();
    var chunks := SliceSeq(content, spans);
    var op, first := FirstReservation(size);
    cs, ops := UploadAll(first, 1, chunks);
    ConsRun(EMPTY, op, cs, ops);
    cs, ops := [EMPTY] + cs, [op] + ops;
    BeforeCommit(cs, ops, 1);
    SliceSeqAreSlices(content, spans);
    SlicesAssemble(content, spans, chunks);
    final := CommitExists(cs[|ops|], 1, Gathered(content, spans));
  }

  /** A session that completes its entry with something other than the content. */
  ghost predicate Misstores(
    cs: seq<Cache>, ops: seq<Op>, final: Cache, size: int, content: string, spans: seq<Span>)
  {
    && IsSession(cs, ops, final, size, content, spans)
    && var id := cs[0].nextId;
       id in final.rows && final.rows[id].complete &&
       !(FileName(id) in final.store.blobs && final.store.blobs[FileName(id)] == content)
  }

  /** Ranges that let no content be stored wrongly: refused by the declared size, or end to end. */
  ghost predicate SafeRanges(size: int, spans: seq<Span>, n: nat) {
    (size > 0 && TotalLength(spans) != size) || (Contiguous(spans) && TotalLength(spans) == n)
  }

  /** Ranges that are not safe are accepted by the server for some content, and the entry is wrong. */
  lemma {:induction false} SizeCheckMissesOverlap(size: int, spans: seq<Span>, n: nat)
    returns (cs: seq<Cache>, ops: seq<Op>, final: Cache, content: string)
    requires spans != [] && IsLayout(spans, n) && !SafeRanges(size, spans, n)
    ensures |content| == n && cs != [] && cs[0] == EMPTY && Misstores(cs, ops, final, size, content, spans)
  {
    hide Inv, IsRun, Next, ChunksOf, AreSlices, Gathered, TotalLength, Contiguous, FileName;
    if TotalLength(spans) == n {
      content := MisplacedShows(spans, n);
    } else {
      content := Marked(n, 0);
      GatheredLength(content, spans);
    }
    cs, ops, final := SessionExists(size, content, spans);
    SessionStoresSlices(cs, ops, final, size, content, spans);
  }

  lemma {:induction false} SafeSession(
    cs: seq<Cache>, ops: seq<Op>, final: Cache, size: int, content: string, spans: seq<Span>)
    requires IsSession(cs, ops, final, size, content, spans)
    requires IsLayout(spans, |content|) && SafeRanges(size, spans, |content|)
    ensures !Misstores(cs, ops, final, size, content, spans)
  {
    hide Inv, IsRun, Next, ChunksOf, AreSlices, Gathered, TotalLength, Contiguous, FileName;
    SessionStoresSlices(cs, ops, final, size, content, spans);
    if Contiguous(spans) && TotalLength(spans) == |content| {
      ContiguousGathers(content, spans);
      assert content[..|content|] == content;
    }
  }

  /**
   For every declared size and every list of ranges: no session that uploads a content of length n at
   those ranges stores anything but the content, exactly when the ranges are safe.
   */
  lemma {:induction false} StoredContentExactly(size: int, spans: seq<Span>, n: nat)
    requires spans != [] && IsLayout(spans, n)
    ensures (forall cs, ops, final, content :: |content| == n ==> !Misstores(cs, ops, final, size, content, spans))
            <==> SafeRanges(size, spans, n)
  {
    hide IsSession, SafeRanges;
    if SafeRanges(size, spans, n) {
      forall cs, ops, final, content | |content| == n ensures !Misstores(cs, ops, final, size, content, spans) {
        if IsSession(cs, ops, final, size, content, spans) {
          SafeSession(cs, ops, final, size, content, spans);
        }
      }
    } else {
      var cs, ops, final, content := SizeCheckMissesOverlap(size, spans, n);
      assert |content| == n && Misstores(cs, ops, final, size, content, spans);
    }
  }

  // ---------------------------------------------------------------- the handler object

  class Handler {
    var rows: Table
    var nextId: nat
    const storage: Storage
    var gcing: bool
    var gcAt: Option<int>  // when the last collection began, in nanoseconds

    ghost function Value(): Cache
      reads this, storage
    {
      Cache(rows, nextId, storage.Value())
    }

    constructor ()
      ensures Value() == EMPTY && fresh(storage) && !gcing && gcAt == None
    {
      rows, nextId, gcing, gcAt := map[], 1, false, None;
      storage := new Storage();
    }

    method Reserve(key: string, version: string, size: int, now: int) returns (id: nat)
      modifies this
      ensures Next(old(Value()), Op.Reserve(key, version, size, now), Value()) && id == old(nextId)
    {
      var stored := size;
      if stored == 0 {
        stored := -1;
      }
      id := nextId;
      rows := rows[id := Row(Lower(key), version, stored, false, now, now)];
      nextId := nextId + 1;
    }

    method Touch(id: nat, now: int)
      modifies this`rows
      ensures Value() == Touched(old(Value()), id, now)
    {
      if id in rows {
        rows := rows[id := rows[id].(usedAt := now)];
      }
    }

    method Upload(id: nat, range: string, body: string, now: int) returns (status: int)
      modifies this`rows, storage
      ensures Next(old(Value()), Op.Upload(id, range, body, now), Value())
      ensures status == 200 <==> Reserved(old(Value()), id) && ParseContentRange(range).Ok?
    {
      if id !in rows || rows[id].complete {
        return 400;
      }
      var r := ParseContentRange(range);
      if r.Err? {
        return 400;
      }
      RangeStartInBounds(range);
      storage.Write(id, r.value.0, body);
      Touch(id, now);
      return 200;
    }

    method Commit(id: nat) returns (status: int)
      modifies this`rows, storage
      ensures Next(old(Value()), Op.Commit(id), Value())
      ensures status == 200 <==> Reserved(old(Value()), id) && id in rows && rows[id].complete
    {
      if id !in rows || rows[id].complete {
        return 400;
      }
      ghost var before := Value();
      var r := storage.Commit(id, rows[id].size);
      assert Commits(before.store, id, before.rows[id].size, storage.Value(), r);
      if r.Err? {
        return 500;
      }
      rows := rows[id := rows[id].(complete := true, size := r.value)];
      return 200;
    }

    method Find(keys: seq<string>, version: string) returns (hit: Option<nat>)
      modifies this`rows
      ensures exists found :: FindNext(old(Value()), keys, version, found, Value()) &&
                hit == if found.Some? && FileName(found.value) in storage.blobs then found else None
    {
      var lowered := LowerAll(keys);
      var found := FindCache(rows, lowered, version);
      hit := found;
      if found.Some? {
        var ok := storage.Exist(found.value);
        if !ok {
          rows := rows - {found.value};
          hit := None;
        }
      }
      assert FindNext(old(Value()), keys, version, found, Value());
    }

    /** One pass of the collector over the entries it found. */
    method RemoveAll(ids: set<nat>)
      modifies this`rows, storage
      ensures Value() == Purged(old(Value()), ids)
    {
      var todo := ids;
      assert Purged(Value(), {}) == Value();
      while todo != {}
        invariant todo <= ids
        invariant Value() == Purged(old(Value()), ids - todo)
        decreases todo
      {
        var id :| id in todo;
        PurgeOneMore(old(Value()), ids - todo, id);
        assert ids - (todo - {id}) == ids - todo + {id};
        storage.Remove(id);
        rows := rows - {id};
        todo := todo - {id};
      }
      assert ids - todo == ids;
    }

    /** Returns at once while a collection is under way, or within an hour of the start of the last one. */
    method GcCache(now: int, clock: seq<int>)
      requires |clock| == 4
      modifies this`rows, this`gcing, this`gcAt, storage
      ensures gcing == old(gcing)
      ensures
        if old(gcing) || (old(gcAt).Some? && now - old(gcAt).value < 3_600_000_000_000)
        then Value() == old(Value()) && gcAt == old(gcAt)
        else Value() == Collected(old(Value()), clock, 0) && gcAt == Some(now)
    {
      if gcing {
        return;
      }
      gcing := true;
      if gcAt.Some? && now - gcAt.value < HOUR {
        gcing := false;
        return;
      }
      gcAt := Some(now);
      var pass := 0;
      while pass < 4
        invariant 0 <= pass <= 4 && gcAt == Some(now)
        invariant Collected(old(Value()), clock, 0) == Collected(Value(), clock, pass)
      {
        RemoveAll(Garbage(rows, pass, clock[pass]));
        pass := pass + 1;
      }
      gcing := false;
    }
  }

  /**
   A client that reserves an entry, uploads the slices of a content at the given ranges and commits.
   The server accepts them whenever the declared size is their total length, and serves the slices in
   offset order: with an overlap that makes up for a gap, not the content.
   */
  method UploadSlices(h: Handler, size: int, content: string, spans: seq<Span>) returns (id: nat, status: int)
    requires Inv(h.Value()) && spans != [] && IsLayout(spans, |content|)
    modifies h, h.storage
    ensures status == 200 <==> !(size > 0 && TotalLength(spans) != size)
    ensures status == 200 ==>
              && id in h.rows && h.rows[id].complete && FileName(id) in h.storage.blobs
              && h.storage.blobs[FileName(id)] == Gathered(content, spans)
  {
    hide Inv, Chunks, Uploaded, ChunksOf, FileName, TempDir, ChunkName, ParseContentRange, RangeOf, Lower;
    ghost var start := h.Value();
    FreshId(start);
    id := h.Reserve("key", "version", size, 0);
    ReserveStep(start, "key", "version", size, 0, h.Value());
    var chunks := SliceSeq(content, spans);
    NothingUploaded();
    assert chunks[..0] == [];
    var i := 0;
    while i < |chunks|
      invariant 0 <= i <= |chunks|
      invariant Inv(h.Value()) && Reserved(h.Value(), id)
      invariant h.rows[id].size == if size == 0 then -1 else size
      invariant Chunks(h.Value().store, id) == Uploaded(map[], chunks[..i])
    {
      ghost var before := h.Value();
      RangeOfParses(chunks[i]);
      status := h.Upload(id, RangeOf(chunks[i]), chunks[i].body, 0);
      ghost var op := Upload(id, RangeOf(chunks[i]), chunks[i].body, 0);
      Step(before, op, h.Value());
      StepKeepsChunks(before, op, h.Value(), id);
      OneChunk(op, id, chunks[i]);
      UploadedConcat(map[], chunks[..i], [chunks[i]]);
      assert chunks[..i + 1] == chunks[..i] + [chunks[i]];
      i := i + 1;
    }
    assert chunks[..i] == chunks;
    ghost var c := h.Value();
    status := h.Commit(id);
    ghost var store, r :| Commits(c.store, id, c.rows[id].size, store, r) && h.Value() == Committed(c, id, store, r);
    SliceSeqAreSlices(content, spans);
    hide AreSlices, Commits, Gathered, TotalLength;
    CommitStoresSlices(c.store, id, c.rows[id].size, content, spans, chunks, store, r);
  }

  lemma {:induction false} NothingUploaded()
    ensures Uploaded(map[], []) == map[]
  {
  }

  lemma {:induction false} OneChunk(op: Op, id: nat, ch: Chunk)
    requires op.Upload? && op.id == id && op.body == ch.body
    requires ParseContentRange(op.range).Ok? && ParseContentRange(op.range).value.0 == ch.offset
    ensures ChunksOf([op], id) == [ch]
  {
    hide ParseContentRange;
    assert [op][1..] == [];
  }
}
