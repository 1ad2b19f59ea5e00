/**
 The blob store of the artifact cache (pkg/cache/storage.go): chunks of a reservation live under
 tmp/<id>/ in files named by the 16-digit hexadecimal offset, and Commit concatenates them in the
 order os.ReadDir lists them, which is the byte order of the names.
 */
module CacheStorage {
  import opened Wrappers
  import opened Text

  const INT64_LIMIT: int := 0x8000_0000_0000_0000

  // ---------------------------------------------------------------- names

  function HexChar(d: nat): char
    requires d < 16
  {
    if d < 10 then '0' + d as char else 'a' + (d - 10) as char
  }

  /** The low `width` hexadecimal digits of n. */
  function Hex(n: nat, width: nat): (s: string)
    ensures |s| == width
  {
    if width == 0 then "" else Hex(n / 16, width - 1) + [HexChar(n % 16)]
  }

  function Pow16(w: nat): nat {
    if w == 0 then 1 else 16 * Pow16(w - 1)
  }

  /** The name of a chunk: %016x of its offset. */
  function ChunkName(offset: nat): string {
    Hex(offset, 16)
  }

  /** The blob's path below the root, %02x/%d, and the name of the reservation's directory in tmp. */
  function FileName(id: nat): (string, string) {
    (Hex(id % 256, 2), Decimal(id))
  }

  function TempDir(id: nat): string {
    Decimal(id)
  }

  /** Byte order of strings. */
  predicate Less(a: string, b: string)
    decreases |a|
  {
    b != "" && (a == "" || a[0] < b[0] || (a[0] == b[0] && Less(a[1..], b[1..])))
  }

  lemma {:induction false} LessSnoc(a: string, b: string, x: char, y: char)
    requires |a| == |b|
    requires Less(a, b) || (a == b && x < y)
    ensures Less(a + [x], b + [y])
    decreases |a|
  {
    if a != "" {
      assert (a + [x])[1..] == a[1..] + [x] && (b + [y])[1..] == b[1..] + [y];
      if a[0] == b[0] {
        LessSnoc(a[1..], b[1..], x, y);
      }
    }
  }

  lemma {:induction false} LessTotal(a: string, b: string)
    ensures a == b || Less(a, b) || Less(b, a)
    decreases |a|
  {
    if a != "" && b != "" && a[0] == b[0] {
      LessTotal(a[1..], b[1..]);
      assert a == [a[0]] + a[1..] && b == [b[0]] + b[1..];
    }
  }

  lemma {:induction false} LessTransitive(a: string, b: string, c: string)
    requires Less(a, b) && Less(b, c)
    ensures Less(a, c)
    decreases |a|
  {
    if a != "" && a[0] == b[0] == c[0] {
      LessTransitive(a[1..], b[1..], c[1..]);
    }
  }

  lemma {:induction false} LessIrreflexive(a: string)
    ensures !Less(a, a)
    decreases |a|
  {
    if a != "" {
      LessIrreflexive(a[1..]);
    }
  }

  lemma {:induction false} HexOrder(m: nat, n: nat, w: nat)
    requires m < n < Pow16(w)
    ensures Less(Hex(m, w), Hex(n, w))
    decreases w
  {
    if w > 0 {
      if m / 16 < n / 16 {
        HexOrder(m / 16, n / 16, w - 1);
      }
      LessSnoc(Hex(m / 16, w - 1), Hex(n / 16, w - 1), HexChar(m % 16), HexChar(n % 16));
    }
  }

  lemma {:induction false} OffsetsFit()
    ensures INT64_LIMIT <= Pow16(16)
  {
    assert Pow16(4) == 0x1_0000 by { assert Pow16(2) == 256; }
    assert Pow16(8) == 0x1_0000_0000 by { assert Pow16(6) == 0x100_0000; }
    assert Pow16(12) == 0x1_0000_0000_0000 by { assert Pow16(10) == 0x100_0000_0000; }
    assert Pow16(14) == 0x100_0000_0000_0000;
  }

  /** The byte order of chunk names is the numeric order of their offsets. */
  lemma {:induction false} ChunkNameOrder(m: nat, n: nat)
    requires m < INT64_LIMIT && n < INT64_LIMIT
    ensures m < n <==> Less(ChunkName(m), ChunkName(n))
    ensures m == n <==> ChunkName(m) == ChunkName(n)
  {
    hide Pow16;
    OffsetsFit();
    LessIrreflexive(ChunkName(m));
    if m < n {
      HexOrder(m, n, 16);
    } else if n < m {
      HexOrder(n, m, 16);
      if Less(ChunkName(m), ChunkName(n)) {
        LessTransitive(ChunkName(m), ChunkName(n), ChunkName(m));
      }
    }
  }

  /** Different ids have different blob paths and chunk directories, and no blob path is below tmp. */
  lemma {:induction false} PathsNeverShared(a: nat, b: nat)
    ensures FileName(a) == FileName(b) <==> a == b
    ensures TempDir(a) == TempDir(b) <==> a == b
    ensures FileName(a).0 != "tmp"
  {
    if Decimal(a) == Decimal(b) {
      DecimalInjective(a, b);
    }
    assert |FileName(a).0| == 2;
  }

  // ---------------------------------------------------------------- directory listings

  predicate Sorted(names: seq<string>) {
    forall i, j :: 0 <= i < j < |names| ==> Less(names[i], names[j])
  }

  /** names lists exactly the set, in byte order. */
  ghost predicate IsListing(names: seq<string>, s: set<string>) {
    Sorted(names) && forall x :: x in names <==> x in s
  }

  function Insert(x: string, names: seq<string>): seq<string> {
    if names == [] || Less(x, names[0]) then [x] + names
    else [names[0]] + Insert(x, names[1..])
  }

  lemma {:induction false} InsertLists(x: string, names: seq<string>)
    requires Sorted(names) && x !in names
    ensures Sorted(Insert(x, names))
    ensures forall y :: y in Insert(x, names) <==> y == x || y in names
    decreases |names|
  {
    if names != [] {
      if Less(x, names[0]) {
        forall j | 0 <= j < |names| ensures Less(x, names[j]) {
          if j > 0 {
            LessTransitive(x, names[0], names[j]);
          }
        }
      } else {
        var rest := names[1..];
        assert names == [names[0]] + rest;
        InsertLists(x, rest);
        LessTotal(x, names[0]);
        assert names[0] in names;
        forall y | y in Insert(x, rest) ensures Less(names[0], y) {
          if y in rest {
            var k :| 0 <= k < |rest| && rest[k] == y;
            assert names[k + 1] == y;
          }
        }
      }
    }
  }

  /** os.ReadDir. */
  method ReadDir(dir: map<string, string>) returns (names: seq<string>)
    ensures IsListing(names, dir.Keys)
  {
    names := [];
    var todo := dir.Keys;
    while todo != {}
      invariant todo <= dir.Keys
      invariant IsListing(names, dir.Keys - todo)
      decreases todo
    {
      var x :| x in todo;
      InsertLists(x, names);
      names := Insert(x, names);
      todo := todo - {x};
    }
  }

  lemma {:induction false} ListingUnique(a: seq<string>, b: seq<string>, s: set<string>)
    requires IsListing(a, s) && IsListing(b, s)
    ensures a == b
    decreases |a|
  {
    ListingEmpty(a, s);
    ListingEmpty(b, s);
    if a != [] {
      assert a[0] in a && b[0] in b;
      assert a[0] in b && b[0] in a;
      FirstIsLeast(a, b[0]);
      FirstIsLeast(b, a[0]);
      if a[0] != b[0] {
        LessTransitive(a[0], b[0], a[0]);
        LessIrreflexive(a[0]);
      }
      TailLists(a, s);
      TailLists(b, s);
      ListingUnique(a[1..], b[1..], s - {a[0]});
      assert a == [a[0]] + a[1..] && b == [b[0]] + b[1..];
    }
  }

  lemma {:induction false} ListingEmpty(a: seq<string>, s: set<string>)
    requires IsListing(a, s)
    ensures a == [] <==> s == {}
  {
    if a != [] {
      assert a[0] in s;
    }
  }

  lemma {:induction false} FirstIsLeast(a: seq<string>, x: string)
    requires Sorted(a) && x in a
    ensures x == a[0] || Less(a[0], x)
  {
    var k :| 0 <= k < |a| && a[k] == x;
  }

  lemma {:induction false} TailLists(a: seq<string>, s: set<string>)
    requires IsListing(a, s) && a != []
    ensures IsListing(a[1..], s - {a[0]})
  {
    forall x ensures x in a[1..] <==> x in s - {a[0]} {
      if x in a[1..] {
        var k :| 0 <= k < |a[1..]| && a[1..][k] == x;
        assert a[k + 1] == x && Less(a[0], x);
        LessIrreflexive(x);
      }
      if x in s - {a[0]} {
        var k :| 0 <= k < |a| && a[k] == x;
        assert a[1..][k - 1] == x;
      }
    }
  }

  // ---------------------------------------------------------------- the store

  /** Blobs by path and, for each directory below tmp, its chunk files. */
  datatype Store = Store(blobs: map<(string, string), string>, temp: map<string, map<string, string>>)

  function Chunks(st: Store, id: nat): map<string, string> {
    if TempDir(id) in st.temp then st.temp[TempDir(id)] else map[]
  }

  function Written(st: Store, id: nat, offset: nat, body: string): Store {
    st.(temp := st.temp[TempDir(id) := Chunks(st, id)[ChunkName(offset) := body]])
  }

  function Removed(st: Store, id: nat): Store {
    Store(st.blobs - {FileName(id)}, st.temp - {TempDir(id)})
  }

  function Assemble(dir: map<string, string>, names: seq<string>): string
    requires forall x <- names :: x in dir
  {
    if names == [] then "" else dir[names[0]] + Assemble(dir, names[1..])
  }

  /** The content Commit builds from a directory. */
  ghost predicate IsAssembled(dir: map<string, string>, content: string) {
    exists names :: IsListing(names, dir.Keys) && content == Assemble(dir, names)
  }

  lemma {:induction false} AssembledUnique(dir: map<string, string>, a: string, b: string)
    requires IsAssembled(dir, a) && IsAssembled(dir, b)
    ensures a == b
  {
    var m :| IsListing(m, dir.Keys) && a == Assemble(dir, m);
    var n :| IsListing(n, dir.Keys) && b == Assemble(dir, n);
    ListingUnique(m, n, dir.Keys);
  }

  lemma {:induction false} AssembleSnoc(dir: map<string, string>, names: seq<string>, x: string)
    requires x in dir && forall y <- names :: y in dir
    ensures Assemble(dir, names + [x]) == Assemble(dir, names) + dir[x]
    decreases |names|
  {
    if names == [] {
      assert (names + [x])[1..] == [];
    } else {
      assert (names + [x])[1..] == names[1..] + [x];
      AssembleSnoc(dir, names[1..], x);
    }
  }

  /** The outcome of Commit; an existing directory always holds a chunk. */
  ghost predicate Commits(st: Store, id: nat, size: int, st': Store, r: Result<nat>) {
    var dir := Chunks(st, id);
    if dir == map[] then r == Err && st' == st.(temp := st.temp - {TempDir(id)})
    else
      exists content :: IsAssembled(dir, content) &&
        if size >= 0 && |content| != size then r == Err && st' == Removed(st, id)
        else r == Ok(|content|) && st' == Store(st.blobs[FileName(id) := content], st.temp - {TempDir(id)})
  }

  class Storage {
    var blobs: map<(string, string), string>
    var temp: map<string, map<string, string>>

    ghost function Value(): Store
      reads this
    {
      Store(blobs, temp)
    }

    constructor ()
      ensures Value() == Store(map[], map[])
    {
      blobs, temp := map[], map[];
    }

    method Exist(id: nat) returns (ok: bool)
      ensures ok <==> FileName(id) in blobs
    {
      ok := FileName(id) in blobs;
    }

    method Write(id: nat, offset: nat, body: string)
      modifies this
      ensures Value() == Written(old(Value()), id, offset, body)
    {
      var dir: map<string, string> := map[];
      if TempDir(id) in temp {
        dir := temp[TempDir(id)];
      }
      temp := temp[TempDir(id) := dir[ChunkName(offset) := body]];
    }

    /** The copy loop of Commit. */
    static method CopyChunks(dir: map<string, string>) returns (file: string)
      ensures IsAssembled(dir, file)
    {
      var names := ReadDir(dir);
      file := "";
      var i := 0;
      while i < |names|
        invariant 0 <= i <= |names|
        invariant forall x <- names[..i] :: x in dir
        invariant file == Assemble(dir, names[..i])
      {
        assert names[i] in names;
        assert names[..i + 1] == names[..i] + [names[i]];
        AssembleSnoc(dir, names[..i], names[i]);
        file := file + dir[names[i]];
        i := i + 1;
      }
      assert names[..i] == names;
    }

    method Commit(id: nat, size: int) returns (r: Result<nat>)
      modifies this
      ensures Commits(old(Value()), id, size, Value(), r)
    {
      hide IsAssembled, Decimal, Hex;
      if TempDir(id) !in temp || temp[TempDir(id)] == map[] {
        temp := temp - {TempDir(id)};
        return Err;
      }
      var dir := temp[TempDir(id)];
      var file := CopyChunks(dir);
      temp := temp - {TempDir(id)};
      if size >= 0 && |file| != size {
        blobs := blobs - {FileName(id)};
        assert Value() == Removed(old(Value()), id);
        return Err;
      }
      blobs := blobs[FileName(id) := file];
      return Ok(|file|);
    }

    method Remove(id: nat)
      modifies this
      ensures Value() == Removed(old(Value()), id)
    {
      blobs := blobs - {FileName(id)};
      temp := temp - {TempDir(id)};
    }
  }

  /** However a commit ends, the chunks of its id are gone, and nothing of another id has changed. */
  lemma {:induction false} CommitTouchesOnlyItsId(st: Store, id: nat, size: int, st': Store, r: Result<nat>, other: nat)
    requires Commits(st, id, size, st', r) && other != id
    ensures Chunks(st', id) == map[] && Chunks(st', other) == Chunks(st, other)
    ensures FileName(other) in st'.blobs <==> FileName(other) in st.blobs
    ensures FileName(other) in st.blobs ==> st'.blobs[FileName(other)] == st.blobs[FileName(other)]
    ensures r.Ok? <==> Chunks(st, id) != map[] && FileName(id) in st'.blobs &&
                       IsAssembled(Chunks(st, id), st'.blobs[FileName(id)]) &&
                       (size < 0 || |st'.blobs[FileName(id)]| == size)
  {
    hide FileName, TempDir, IsAssembled;
    PathsNeverShared(id, other);
  }

  // ---------------------------------------------------------------- any order, with repeats

  datatype Chunk = Chunk(offset: nat, body: string)

  /** The directory after a sequence of uploads. */
  function Uploaded(dir: map<string, string>, chunks: seq<Chunk>): map<string, string>
    decreases |chunks|
  {
    if chunks == [] then dir
    else Uploaded(dir[ChunkName(chunks[0].offset) := chunks[0].body], chunks[1..])
  }

  /** A range of bytes that a client uploads as one chunk. */
  datatype Span = Span(offset: nat, length: nat)

  /** Ranges of a content of length n, by increasing offset. */
  ghost predicate IsLayout(spans: seq<Span>, n: nat) {
    && n < INT64_LIMIT
    && (forall i :: 0 <= i < |spans| ==> spans[i].offset + spans[i].length <= n)
    && (forall i, j :: 0 <= i < j < |spans| ==> spans[i].offset < spans[j].offset)
  }

  function Slice(content: string, sp: Span): Chunk
    requires sp.offset + sp.length <= |content|
  {
    Chunk(sp.offset, content[sp.offset..sp.offset + sp.length])
  }

  /** The last upload at an offset, which is the one that counts. */
  function LastAt(chunks: seq<Chunk>, offset: nat): Option<Chunk> {
    if chunks == [] then None
    else
      var n := |chunks| - 1;
      if chunks[n].offset == offset then Some(chunks[n]) else LastAt(chunks[..n], offset)
  }

  predicate IsOffset(spans: seq<Span>, offset: nat) {
    exists i :: 0 <= i < |spans| && spans[i].offset == offset
  }

  /**
   The uploads leave the content's slices at these ranges behind: in any order, with repeats, and with
   anything at all in a chunk that is uploaded again at its offset.
   */
  ghost predicate AreSlices(content: string, spans: seq<Span>, chunks: seq<Chunk>) {
    && spans != [] && IsLayout(spans, |content|)
    && (forall c <- chunks :: IsOffset(spans, c.offset))
    && (forall i :: 0 <= i < |spans| ==> LastAt(chunks, spans[i].offset) == Some(Slice(content, spans[i])))
  }

  function TotalLength(spans: seq<Span>): nat {
    if spans == [] then 0 else TotalLength(spans[..|spans| - 1]) + spans[|spans| - 1].length
  }

  /** Every range that is not empty starts where those before it end. */
  ghost predicate Contiguous(spans: seq<Span>) {
    forall i :: 0 <= i < |spans| && spans[i].length > 0 ==> spans[i].offset == TotalLength(spans[..i])
  }

  /** The ranges are the content from end to end, without gap or overlap. */
  ghost predicate Tiles(content: string, spans: seq<Span>, chunks: seq<Chunk>) {
    AreSlices(content, spans, chunks) && Contiguous(spans) && TotalLength(spans) == |content|
  }

  /** The file at an offset holds the last upload there; nothing else is in the directory. */
  lemma {:induction false} UploadedLast(chunks: seq<Chunk>, offset: nat)
    requires offset < INT64_LIMIT && forall c <- chunks :: c.offset < INT64_LIMIT
    ensures
      var dir, last := Uploaded(map[], chunks), LastAt(chunks, offset);
      && (ChunkName(offset) in dir <==> last.Some?)
      && (last.Some? ==> dir[ChunkName(offset)] == last.value.body)
    decreases |chunks|
  {
    hide Hex, Less;
    if chunks != [] {
      var n := |chunks| - 1;
      UploadedSnoc(map[], chunks[..n], chunks[n]);
      assert chunks == chunks[..n] + [chunks[n]];
      assert chunks[n] in chunks;
      ChunkNameOrder(offset, chunks[n].offset);
      UploadedLast(chunks[..n], offset);
    }
  }

  lemma {:induction false} UploadedSnoc(dir: map<string, string>, chunks: seq<Chunk>, c: Chunk)
    ensures Uploaded(dir, chunks + [c]) == Uploaded(dir, chunks)[ChunkName(c.offset) := c.body]
    decreases |chunks|
  {
    hide Hex;
    if chunks == [] {
      assert (chunks + [c])[1..] == [];
    } else {
      assert (chunks + [c])[0] == chunks[0] && (chunks + [c])[1..] == chunks[1..] + [c];
      UploadedSnoc(dir[ChunkName(chunks[0].offset) := chunks[0].body], chunks[1..], c);
    }
  }

  lemma {:induction false} UploadedNames(dir: map<string, string>, chunks: seq<Chunk>, name: string)
    requires name in Uploaded(dir, chunks)
    ensures name in dir || exists c <- chunks :: name == ChunkName(c.offset)
    decreases |chunks|
  {
    hide Hex;
    if chunks != [] {
      UploadedNames(dir[ChunkName(chunks[0].offset) := chunks[0].body], chunks[1..], name);
      assert chunks[0] in chunks;
    }
  }

  ghost function SliceNames(spans: seq<Span>): (names: seq<string>)
    ensures |names| == |spans| && forall i :: 0 <= i < |spans| ==> names[i] == ChunkName(spans[i].offset)
  {
    seq(|spans|, i requires 0 <= i < |spans| => ChunkName(spans[i].offset))
  }

  lemma {:induction false} SliceNamesSorted(n: nat, spans: seq<Span>)
    requires IsLayout(spans, n)
    ensures Sorted(SliceNames(spans))
  {
    hide Hex, Less;
    forall i, j | 0 <= i < j < |spans| ensures Less(SliceNames(spans)[i], SliceNames(spans)[j]) {
      ChunkNameOrder(spans[i].offset, spans[j].offset);
    }
  }

  /** The slices one after the other. */
  function Gathered(content: string, spans: seq<Span>): string
    requires forall i :: 0 <= i < |spans| ==> spans[i].offset + spans[i].length <= |content|
  {
    if spans == [] then ""
    else
      var n := |spans| - 1;
      Gathered(content, spans[..n]) + Slice(content, spans[n]).body
  }

  /** The directory has the content's slices at these ranges. */
  ghost predicate HoldsSlices(content: string, spans: seq<Span>, dir: map<string, string>)
    requires IsLayout(spans, |content|)
  {
    forall i :: 0 <= i < |spans| ==>
      && ChunkName(spans[i].offset) in dir
      && dir[ChunkName(spans[i].offset)] == Slice(content, spans[i]).body
  }

  lemma {:induction false} AssembleSlices(content: string, spans: seq<Span>, dir: map<string, string>, n: nat)
    requires IsLayout(spans, |content|) && HoldsSlices(content, spans, dir) && n <= |spans|
    ensures forall x <- SliceNames(spans)[..n] :: x in dir
    ensures Assemble(dir, SliceNames(spans)[..n]) == Gathered(content, spans[..n])
    decreases n
  {
    hide Hex, Less, Assemble;
    if n == 0 {
      AssembleNone(dir);
      assert SliceNames(spans)[..0] == [];
    } else {
      AssembleSlices(content, spans, dir, n - 1);
      assert SliceNames(spans)[..n] == SliceNames(spans)[..n - 1] + [SliceNames(spans)[n - 1]];
      AssembleSnoc(dir, SliceNames(spans)[..n - 1], SliceNames(spans)[n - 1]);
      assert spans[..n][..n - 1] == spans[..n - 1];
    }
  }

  lemma {:induction false} AssembleNone(dir: map<string, string>)
    ensures Assemble(dir, []) == ""
  {
  }

  lemma {:induction false} SlicesHeld(content: string, spans: seq<Span>, chunks: seq<Chunk>)
    requires AreSlices(content, spans, chunks)
    ensures HoldsSlices(content, spans, Uploaded(map[], chunks))
    ensures forall c <- chunks :: c.offset < INT64_LIMIT
  {
    hide ChunkName, Uploaded, LastAt;
    forall c <- chunks ensures c.offset < INT64_LIMIT {
      assert IsOffset(spans, c.offset);
    }
    forall i | 0 <= i < |spans| ensures LastAt(chunks, spans[i].offset) == Some(Slice(content, spans[i])) {
    }
    forall i | 0 <= i < |spans|
      ensures ChunkName(spans[i].offset) in Uploaded(map[], chunks)
      ensures Uploaded(map[], chunks)[ChunkName(spans[i].offset)] == Slice(content, spans[i]).body
    {
      UploadedLast(chunks, spans[i].offset);
    }
  }

  /** After uploads of slices, the directory lists exactly their names. */
  lemma {:induction false} SlicesListed(content: string, spans: seq<Span>, chunks: seq<Chunk>)
    requires AreSlices(content, spans, chunks)
    ensures IsListing(SliceNames(spans), Uploaded(map[], chunks).Keys)
  {
    hide ChunkName, Less, Uploaded, Sorted, LastAt;
    var dir, names := Uploaded(map[], chunks), SliceNames(spans);
    SlicesHeld(content, spans, chunks);
    forall x ensures x in names <==> x in dir.Keys {
      if x in names {
        var i :| 0 <= i < |names| && names[i] == x;
        assert ChunkName(spans[i].offset) in dir;
      }
      if x in dir {
        UploadedNames(map[], chunks, x);
        var c :| c in chunks && x == ChunkName(c.offset);
        assert IsOffset(spans, c.offset);
        var i :| 0 <= i < |spans| && spans[i].offset == c.offset;
        assert names[i] == x;
      }
    }
    SliceNamesSorted(|content|, spans);
  }

  /** Uploads that leave slices behind assemble to the slices in offset order. */
  lemma {:induction false} SlicesAssemble(content: string, spans: seq<Span>, chunks: seq<Chunk>)
    requires AreSlices(content, spans, chunks)
    ensures Uploaded(map[], chunks) != map[]
    ensures IsAssembled(Uploaded(map[], chunks), Gathered(content, spans))
  {
    hide ChunkName, Less, Uploaded, Assemble, Sorted, LastAt, IsOffset;
    var dir := Uploaded(map[], chunks);
    SlicesHeld(content, spans, chunks);
    SlicesListed(content, spans, chunks);
    var names := SliceNames(spans);
    AssembleSlices(content, spans, dir, |spans|);
    assert names[..|spans|] == names && spans[..|spans|] == spans;
    assert ChunkName(spans[0].offset) in dir;
  }

  lemma {:induction false} GatheredLength(content: string, spans: seq<Span>)
    requires forall i :: 0 <= i < |spans| ==> spans[i].offset + spans[i].length <= |content|
    ensures |Gathered(content, spans)| == TotalLength(spans)
    decreases |spans|
  {
    if spans != [] {
      GatheredLength(content, spans[..|spans| - 1]);
    }
  }

  /** Position TotalLength(spans[..i]) of the assembly is the first byte of the i-th slice. */
  lemma {:induction false} GatheredAt(content: string, spans: seq<Span>, i: nat)
    requires forall k :: 0 <= k < |spans| ==> spans[k].offset + spans[k].length <= |content|
    requires i < |spans| && spans[i].length > 0
    ensures TotalLength(spans[..i]) < |Gathered(content, spans)|
    ensures Gathered(content, spans)[TotalLength(spans[..i])] == content[spans[i].offset]
    decreases |spans|
  {
    var n := |spans| - 1;
    GatheredLength(content, spans[..n]);
    if i < n {
      GatheredAt(content, spans[..n], i);
      assert spans[..n][..i] == spans[..i];
    }
  }

  lemma {:induction false} ContiguousFront(spans: seq<Span>, n: nat)
    requires n <= |spans| && Contiguous(spans)
    ensures Contiguous(spans[..n])
  {
    hide TotalLength;
    forall i | 0 <= i < n && spans[..n][i].length > 0 ensures spans[..n][i].offset == TotalLength(spans[..n][..i]) {
      assert spans[..n][..i] == spans[..i];
    }
  }

  lemma {:induction false} ContiguousLast(spans: seq<Span>)
    requires spans != [] && Contiguous(spans)
    ensures
      var n := |spans| - 1;
      && Contiguous(spans[..n]) && TotalLength(spans) == TotalLength(spans[..n]) + spans[n].length
      && (spans[n].length > 0 ==> spans[n].offset == TotalLength(spans[..n]))
  {
    ContiguousFront(spans, |spans| - 1);
  }

  lemma {:induction false} GatherLast(content: string, spans: seq<Span>, t: nat)
    requires spans != [] && forall i :: 0 <= i < |spans| ==> spans[i].offset + spans[i].length <= |content|
    requires t <= |content| && Gathered(content, spans[..|spans| - 1]) == content[..t]
    requires spans[|spans| - 1].length > 0 ==> spans[|spans| - 1].offset == t
    ensures t + spans[|spans| - 1].length <= |content|
    ensures Gathered(content, spans) == content[..t + spans[|spans| - 1].length]
  {
    var l := spans[|spans| - 1].length;
    if l > 0 {
      assert content[..t + l] == content[..t] + content[t..t + l];
    } else {
      assert content[..t] + "" == content[..t];
    }
  }

  lemma {:induction false} ContiguousGathers(content: string, spans: seq<Span>)
    requires IsLayout(spans, |content|) && Contiguous(spans)
    ensures TotalLength(spans) <= |content| && Gathered(content, spans) == content[..TotalLength(spans)]
    decreases |spans|
  {
    if spans != [] {
      hide Gathered, TotalLength, Contiguous;
      var n := |spans| - 1;
      ContiguousLast(spans);
      ContiguousGathers(content, spans[..n]);
      GatherLast(content, spans, TotalLength(spans[..n]));
    }
  }

  /** A content with one marked byte. */
  function Marked(n: nat, k: nat): string {
    seq(n, i => if i == k then '1' else '0')
  }

  ghost predicate GathersRightly(spans: seq<Span>, content: string)
    requires IsLayout(spans, |content|)
  {
    Gathered(content, spans) == content
  }

  /** Where a range starts too early or too late, some content shows it. */
  lemma {:induction false} MisplacedShows(spans: seq<Span>, n: nat) returns (content: string)
    requires IsLayout(spans, n) && TotalLength(spans) == n && !Contiguous(spans)
    ensures |content| == n && Gathered(content, spans) != content
  {
    var i :| 0 <= i < |spans| && spans[i].length > 0 && spans[i].offset != TotalLength(spans[..i]);
    content := Marked(n, spans[i].offset);
    GatheredAt(content, spans, i);
  }

  /** Ranges gather to the content, whatever it is, exactly when they are contiguous and as long as it. */
  lemma {:induction false} GatheredExactly(spans: seq<Span>, n: nat)
    requires IsLayout(spans, n)
    ensures (forall content: string :: |content| == n ==> GathersRightly(spans, content))
            <==> Contiguous(spans) && TotalLength(spans) == n
  {
    if Contiguous(spans) && TotalLength(spans) == n {
      forall content: string | |content| == n ensures GathersRightly(spans, content) {
        ContiguousGathers(content, spans);
      }
    } else if TotalLength(spans) == n {
      var content := MisplacedShows(spans, n);
      assert !GathersRightly(spans, content);
    } else {
      var content := Marked(n, 0);
      GatheredLength(content, spans);
      assert !GathersRightly(spans, content);
    }
  }

  /** Chunks that tile a content assemble to exactly that content, whatever their order. */
  lemma {:induction false} TilesAssemble(content: string, spans: seq<Span>, chunks: seq<Chunk>)
    requires Tiles(content, spans, chunks)
    ensures Uploaded(map[], chunks) != map[]
    ensures IsAssembled(Uploaded(map[], chunks), content)
  {
    hide Uploaded, IsAssembled, LastAt, IsOffset;
    SlicesAssemble(content, spans, chunks);
    ContiguousGathers(content, spans);
    assert content[..|content|] == content;
  }

  /** After uploads of slices Commit stores the slices in offset order, unless the size check refuses them. */
  lemma {:induction false} CommitStoresSlices(
    st: Store, id: nat, size: int, content: string, spans: seq<Span>, chunks: seq<Chunk>, st': Store, r: Result<nat>)
    requires AreSlices(content, spans, chunks) && Chunks(st, id) == Uploaded(map[], chunks)
    requires Commits(st, id, size, st', r)
    ensures
      if size >= 0 && TotalLength(spans) != size then r == Err && FileName(id) !in st'.blobs
      else
        && r == Ok(TotalLength(spans)) && FileName(id) in st'.blobs
        && st'.blobs[FileName(id)] == Gathered(content, spans)
  {
    hide IsAssembled, LastAt, IsOffset, Uploaded;
    SlicesAssemble(content, spans, chunks);
    GatheredLength(content, spans);
    forall c | IsAssembled(Chunks(st, id), c) ensures c == Gathered(content, spans) {
      AssembledUnique(Chunks(st, id), c, Gathered(content, spans));
    }
  }

  /**
   The cache round trip at the store: uploads that tile a content, in any order and with repeats,
   followed by Commit with that size or an unknown one, leave exactly that content in the blob.
   */
  lemma {:induction false} CommitRestoresContent(
    st: Store, id: nat, size: int, content: string, spans: seq<Span>, chunks: seq<Chunk>, st': Store, r: Result<nat>)
    requires Tiles(content, spans, chunks) && Chunks(st, id) == Uploaded(map[], chunks)
    requires size < 0 || size == |content|
    requires Commits(st, id, size, st', r)
    ensures r == Ok(|content|) && FileName(id) in st'.blobs && st'.blobs[FileName(id)] == content
  {
    hide Commits, Uploaded, LastAt, IsOffset;
    CommitStoresSlices(st, id, size, content, spans, chunks, st', r);
    ContiguousGathers(content, spans);
    assert content[..|content|] == content;
  }
}
