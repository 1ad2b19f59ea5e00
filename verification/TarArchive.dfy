/**
 Action archives: tarDir (pkg/cache/tar.go) prints a directory tree as tar entries, and untarInto
 (cmd/entrypoint/setup.go) rebuilds a tree from entries.  The tar format itself is lossless.
 */
module TarArchive {
  import opened Wrappers
  import opened Text

  // ---------------------------------------------------------------- trees and entries

  datatype Node = File(bytes: string) | Link(target: string) | Dir(children: seq<Child>)

  /** A directory entry, in the order WalkDir visits them. */
  datatype Child = Child(name: string, node: Node)

  datatype Kind = TypeDir | TypeReg | TypeSymlink | Other

  datatype Entry = Entry(name: string, kind: Kind, body: string, linkname: string)

  type Path = seq<string>

  predicate GoodName(name: string) {
    name != "" && name != "." && name != ".." && '/' !in name
  }

  predicate DistinctNames(children: seq<Child>) {
    forall i, j :: 0 <= i < j < |children| ==> children[i].name != children[j].name
  }

  /** A tree that can exist on disk. */
  predicate GoodChildren(children: seq<Child>) {
    DistinctNames(children) && AllGood(children)
  }

  predicate AllGood(children: seq<Child>)
    decreases children
  {
    children == [] ||
    (&& GoodName(children[0].name)
     && (children[0].node.Dir? ==> DistinctNames(children[0].node.children) && AllGood(children[0].node.children))
     && (children[0].node.Link? ==> children[0].node.target != "")
     && AllGood(children[1..]))
  }

  function TarNode(node: Node, p: Path): seq<Entry>
    decreases node
  {
    match node
    case File(bytes) => [Entry(Join(p, "/"), TypeReg, bytes, "")]
    case Link(target) => [Entry(Join(p, "/"), TypeSymlink, "", target)]
    case Dir(children) => [Entry(Join(p, "/") + "/", TypeDir, "", "")] + TarChildren(children, p)
  }

  function TarChildren(children: seq<Child>, p: Path): seq<Entry>
    decreases children
  {
    if children == [] then []
    else TarNode(children[0].node, p + [children[0].name]) + TarChildren(children[1..], p)
  }

  /** The top level without the excluded entries. */
  function Kept(children: seq<Child>, excludes: set<string>): seq<Child> {
    if children == [] then []
    else (if children[0].name in excludes then [] else [children[0]]) + Kept(children[1..], excludes)
  }

  /** tarDir: excludes are matched against the top-level component only. */
  function TarDir(children: seq<Child>, excludes: set<string>): seq<Entry>
    decreases children
  {
    if children == [] then []
    else
      (if children[0].name in excludes then [] else TarNode(children[0].node, [children[0].name]))
      + TarDir(children[1..], excludes)
  }

  /** What the callback writes for one path and everything below it. */
  function Visited(node: Node, p: Path, excludes: set<string>): seq<Entry>
    requires p != []
  {
    if p[0] in excludes then [] else TarNode(node, p)
  }

  /** What the walk writes below the directory at p. */
  function Walked(children: seq<Child>, p: Path, excludes: set<string>): seq<Entry> {
    if p == [] then TarDir(children, excludes) else if p[0] in excludes then [] else TarChildren(children, p)
  }

  lemma {:induction false} WalkedFirst(children: seq<Child>, p: Path, excludes: set<string>)
    requires children != []
    ensures Walked(children, p, excludes) ==
            Visited(children[0].node, p + [children[0].name], excludes) + Walked(children[1..], p, excludes)
  {
    hide TarNode;
    var at := p + [children[0].name];
    if p == [] {
      assert at == [children[0].name];
    } else {
      assert at[0] == p[0];
    }
  }

  /** The archive that the walk's callback writes, header by header. */
  class TarWriter {
    const excludes: set<string>
    var entries: seq<Entry>

    constructor (excludes: set<string>)
      ensures entries == [] && this.excludes == excludes
    {
      this.excludes, entries := excludes, [];
    }

    /** The callback on one path, and the walk below it: an excluded top level is skipped with its contents. */
    method Visit(node: Node, p: Path)
      requires p != []
      modifies this`entries
      ensures entries == old(entries) + Visited(node, p, excludes)
      decreases node, 1
    {
      if p[0] in excludes {
        return;
      }
      hide Join, TarDir, TarChildren;
      var name := Join(p, "/");
      match node
      case File(bytes) => entries := entries + [Entry(name, TypeReg, bytes, "")];
      case Link(target) => entries := entries + [Entry(name, TypeSymlink, "", target)];
      case Dir(children) =>
        ghost var before := entries;
        var header := Entry(name + "/", TypeDir, "", "");
        entries := entries + [header];
        Walk(children, p);
        assert entries == before + ([header] + TarChildren(children, p));
    }

    /** filepath.WalkDir over the entries of the directory at p. */
    method Walk(children: seq<Child>, p: Path)
      modifies this`entries
      ensures entries == old(entries) + Walked(children, p, excludes)
      decreases children, 0
    {
      if children == [] {
        return;
      }
      hide Walked, Visited;
      WalkedFirst(children, p, excludes);
      ghost var before := entries;
      var at := p + [children[0].name];
      Visit(children[0].node, at);
      Walk(children[1..], p);
      assert entries == before + (Visited(children[0].node, at, excludes) + Walked(children[1..], p, excludes));
    }
  }

  // ---------------------------------------------------------------- extraction

  /** The target directory: what is at each path below it. */
  datatype Item = AFile(bytes: string) | ALink(target: string) | ADir

  type Files = map<Path, Item>

  /** strings.Split at slashes. */
  function Split(s: string): (parts: seq<string>)
    ensures parts != []
    decreases |s|
  {
    var k := Index(s, "/");
    if k < 0 then [s] else [s[..k]] + Split(s[k + 1..])
  }

  /** filepath.Clean of an anchored name without "..". */
  function Cleaned(parts: seq<string>): Path {
    if parts == [] then []
    else (if parts[0] == "" || parts[0] == "." then [] else [parts[0]]) + Cleaned(parts[1..])
  }

  /** How many symlinks a path resolution follows before it fails. */
  const MAX_LINKS: nat := 40

  /** Where a path leads: to something in the target, to nothing, or out of the target. */
  datatype Place = Inside(path: Path) | Missing | Outside

  /**
   os.Stat: where the rest of a path leads from the directory at cur, following symlinks, whose
   targets are taken from the directory that holds the link.  A ".." at the top and an absolute link
   lead out.  Missing: nothing there, a file on the way, or too many links.
   */
  function Stat(fs: Files, cur: Path, rest: seq<string>, links: nat): Place
    decreases links, |rest|
  {
    if rest == [] then Inside(cur)
    else if rest[0] == "" || rest[0] == "." then Stat(fs, cur, rest[1..], links)
    else if rest[0] == ".." then (if cur == [] then Outside else Stat(fs, cur[..|cur| - 1], rest[1..], links))
    else
      var p := cur + [rest[0]];
      if p !in fs then Missing
      else
        match fs[p]
        case ADir => Stat(fs, p, rest[1..], links)
        case AFile(_) => if rest[1..] == [] then Inside(p) else Missing
        case ALink(target) =>
          if links == 0 then Missing
          else if "/" <= target then Outside
          else Stat(fs, cur, Split(target) + rest[1..], links - 1)
  }

  predicate IsDir(fs: Files, p: Path) {
    p == [] || (p in fs && fs[p].ADir?)
  }

  /** The directory that a path leads to, if it leads to one. */
  function DirAt(fs: Files, p: Path): Place {
    var r := Stat(fs, [], p, MAX_LINKS);
    if r.Inside? && !IsDir(fs, r.path) then Missing else r
  }

  /** What becomes of the target: an error, or an operation that would act outside of it. */
  datatype Outcome = Done(files: Files) | Failed | Escaped

  /** os.MkdirAll: nothing to do for a path that leads to a directory, otherwise its parent comes first. */
  function MkdirAll(fs: Files, p: Path): Outcome
    decreases |p|
  {
    match Stat(fs, [], p, MAX_LINKS)
    case Outside => Escaped
    case Inside(q) => if IsDir(fs, q) then Done(fs) else Failed
    case Missing =>
      if p == [] then Failed
      else
        match MkdirAll(fs, p[..|p| - 1])
        case Failed => Failed
        case Escaped => Escaped
        case Done(f) => Create(f, p, ADir)
  }

  /**
   A new directory, file or link at the end of a path whose parent is there: os.Mkdir with the check
   MkdirAll makes when it fails, os.OpenFile with O_CREATE, O_TRUNC and O_NOFOLLOW, os.Symlink.
   */
  function Create(fs: Files, p: Path, item: Item): Outcome
    requires p != []
  {
    match DirAt(fs, p[..|p| - 1])
    case Outside => Escaped
    case Missing => Failed
    case Inside(dir) =>
      var q := dir + [p[|p| - 1]];
      if item == ALink("") then Failed
      else if q !in fs then Done(fs[q := item])
      else
        match item
        case ADir => if fs[q].ADir? then Done(fs) else Failed
        case AFile(_) => if fs[q].AFile? then Done(fs[q := item]) else Failed
        case ALink(_) => Failed
  }

  predicate SafeTarget(target: string) {
    !("/" <= target) && !Contains(target, "..")
  }

  function Extract(fs: Files, e: Entry): Outcome {
    var parts := Split(e.name);
    var dest := Cleaned(parts);
    if ".." in parts then Failed
    else if e.kind.Other? then Done(fs)
    else if e.kind.TypeDir? then MkdirAll(fs, dest)
    else if dest == [] then Failed
    else
      match MkdirAll(fs, dest[..|dest| - 1])
      case Failed => Failed
      case Escaped => Escaped
      case Done(f) =>
        if e.kind.TypeReg? then Create(f, dest, AFile(e.body))
        else if !SafeTarget(e.linkname) then Failed
        else Create(f, dest, ALink(e.linkname))
  }

  function ExtractAll(fs: Files, es: seq<Entry>): Outcome
    decreases |es|
  {
    if es == [] then Done(fs)
    else
      var r := Extract(fs, es[0]);
      if r.Done? then ExtractAll(r.files, es[1..]) else r
  }

  /** untarInto an empty target. */
  method UntarInto(es: seq<Entry>) returns (r: Outcome)
    ensures r == ExtractAll(map[], es)
  {
    var fs: Files := map[];
    var i := 0;
    assert es[0..] == es;
    while i < |es|
      invariant 0 <= i <= |es|
      invariant ExtractAll(map[], es) == ExtractAll(fs, es[i..])
    {
      hide Extract;
      assert es[i..][0] == es[i] && es[i..][1..] == es[i + 1..];
      var next := Extract(fs, es[i]);
      if !next.Done? {
        return next;
      }
      fs := next.files;
      i := i + 1;
    }
    return Done(fs);
  }

  lemma {:induction false} ExtractConcat(fs: Files, a: seq<Entry>, b: seq<Entry>)
    ensures ExtractAll(fs, a + b) ==
            if ExtractAll(fs, a).Done? then ExtractAll(ExtractAll(fs, a).files, b) else ExtractAll(fs, a)
    decreases |a|
  {
    hide Extract;
    if a == [] {
      assert a + b == b;
    } else {
      assert (a + b)[0] == a[0] && (a + b)[1..] == a[1..] + b;
      if Extract(fs, a[0]).Done? {
        ExtractConcat(Extract(fs, a[0]).files, a[1..], b);
      }
    }
  }

  // ---------------------------------------------------------------- nothing escapes

  /** Every link in the target has been checked. */
  ghost predicate SafeLinks(fs: Files) {
    forall p <- fs :: fs[p].ALink? ==> SafeTarget(fs[p].target)
  }

  lemma {:induction false} SplitHasNoDots(s: string)
    requires !Contains(s, "..")
    ensures ".." !in Split(s)
    decreases |s|
  {
    hide Index;
    assert s != "..";
    var k := Index(s, "/");
    if k >= 0 {
      var tail := s[k + 1..];
      forall j ensures !At(tail, "..", j) {
        if 0 <= j <= |tail| - 2 {
          assert tail[j..j + 2] == s[k + 1 + j..k + 1 + j + 2];
          assert !At(s, "..", k + 1 + j);
        }
      }
      SplitHasNoDots(tail);
      assert s[..k] != ".." by {
        assert !At(s, "..", 0);
        assert k >= 2 ==> s[0..2] == s[..k][..2];
      }
    } else {
      assert !At(s, "..", 0);
      assert s[0..|s|] == s;
    }
  }

  lemma {:induction false} StatStaysInside(fs: Files, cur: Path, rest: seq<string>, links: nat)
    requires SafeLinks(fs) && ".." !in rest
    ensures !Stat(fs, cur, rest, links).Outside?
    decreases links, |rest|
  {
    hide SafeTarget, Split;
    if rest != [] {
      assert rest[0] in rest;
      var p := cur + [rest[0]];
      if rest[0] == "" || rest[0] == "." {
        StatStaysInside(fs, cur, rest[1..], links);
      } else if p in fs && fs[p].ADir? {
        StatStaysInside(fs, p, rest[1..], links);
      } else if p in fs && fs[p].ALink? && links > 0 {
        LinkStaysInside(fs[p].target);
        StatStaysInside(fs, cur, Split(fs[p].target) + rest[1..], links - 1);
      }
    }
  }

  lemma {:induction false} LinkStaysInside(target: string)
    requires SafeTarget(target)
    ensures !("/" <= target) && ".." !in Split(target)
  {
    SplitHasNoDots(target);
  }

  lemma {:induction false} CreateStaysInside(fs: Files, p: Path, item: Item)
    requires SafeLinks(fs) && p != [] && ".." !in p && (item.ALink? ==> SafeTarget(item.target))
    ensures Create(fs, p, item).Failed? || (Create(fs, p, item).Done? && SafeLinks(Create(fs, p, item).files))
  {
    hide Stat, SafeTarget;
    StatStaysInside(fs, [], p[..|p| - 1], MAX_LINKS);
  }

  lemma {:induction false} MkdirStaysInside(fs: Files, p: Path)
    requires SafeLinks(fs) && ".." !in p
    ensures MkdirAll(fs, p).Failed? || (MkdirAll(fs, p).Done? && SafeLinks(MkdirAll(fs, p).files))
    decreases |p|
  {
    hide Stat, Create, SafeTarget;
    StatStaysInside(fs, [], p, MAX_LINKS);
    if p != [] {
      MkdirStaysInside(fs, p[..|p| - 1]);
      var r := MkdirAll(fs, p[..|p| - 1]);
      if r.Done? {
        CreateStaysInside(r.files, p, ADir);
      }
    }
  }

  lemma {:induction false} CleanedHasNoDots(parts: seq<string>)
    requires ".." !in parts
    ensures ".." !in Cleaned(parts)
    decreases |parts|
  {
    if parts != [] {
      CleanedHasNoDots(parts[1..]);
    }
  }

  lemma {:induction false} EntryStaysInside(fs: Files, e: Entry)
    requires SafeLinks(fs)
    ensures Extract(fs, e).Failed? || (Extract(fs, e).Done? && SafeLinks(Extract(fs, e).files))
  {
    hide MkdirAll, Create, SafeTarget, Cleaned, SafeLinks, Split;
    var parts := Split(e.name);
    var dest := Cleaned(parts);
    if ".." !in parts {
      CleanedHasNoDots(parts);
      MkdirStaysInside(fs, dest);
      if dest != [] {
        MkdirStaysInside(fs, dest[..|dest| - 1]);
        var r := MkdirAll(fs, dest[..|dest| - 1]);
        if r.Done? {
          CreateStaysInside(r.files, dest, AFile(e.body));
          if SafeTarget(e.linkname) {
            CreateStaysInside(r.files, dest, ALink(e.linkname));
          }
        }
      }
    }
  }

  /** No list of entries, hostile or not, makes extraction act outside of a target that holds checked links only. */
  lemma {:induction false} NothingEscapes(fs: Files, es: seq<Entry>)
    requires SafeLinks(fs)
    ensures !ExtractAll(fs, es).Escaped?
    decreases |es|
  {
    hide Extract, SafeLinks;
    if es != [] {
      EntryStaysInside(fs, es[0]);
      if Extract(fs, es[0]).Done? {
        NothingEscapes(Extract(fs, es[0]).files, es[1..]);
      }
    }
  }

  // ---------------------------------------------------------------- what a tree holds

  function FlatNode(node: Node, p: Path): Files
    decreases node
  {
    match node
    case File(bytes) => map[p := AFile(bytes)]
    case Link(target) => map[p := ALink(target)]
    case Dir(children) => map[p := ADir] + FlatChildren(children, p)
  }

  /** Every path of the tree with its file bytes or link target. */
  function FlatChildren(children: seq<Child>, p: Path): Files
    decreases children
  {
    if children == [] then map[]
    else FlatNode(children[0].node, p + [children[0].name]) + FlatChildren(children[1..], p)
  }

  predicate SafeNode(node: Node)
    decreases node
  {
    match node
    case File(_) => true
    case Link(target) => SafeTarget(target)
    case Dir(children) => SafeChildren(children)
  }

  /** Every link target is relative and free of "..". */
  predicate SafeChildren(children: seq<Child>)
    decreases children
  {
    children == [] || (SafeNode(children[0].node) && SafeChildren(children[1..]))
  }

  // ---------------------------------------------------------------- names

  predicate GoodPath(p: Path) {
    forall i :: 0 <= i < |p| ==> GoodName(p[i])
  }

  lemma {:induction false} NoSlash(s: string)
    requires '/' !in s
    ensures Index(s, "/") < 0 && Split(s) == [s]
  {
    assert forall i :: 0 <= i < |s| ==> s[i] in s;
    if Index(s, "/") >= 0 {
      AtStart(s, "/", Index(s, "/"));
    }
  }

  lemma {:induction false} SplitFirst(a: string, rest: string)
    requires '/' !in a
    ensures Split(a + "/" + rest) == [a] + Split(rest)
  {
    var s := a + "/" + rest;
    assert s[|a|..|a| + 1] == "/";
    assert At(s, "/", |a|);
    forall j | 0 <= j < |a| ensures !At(s, "/", j) {
      assert s[j] == a[j] && a[j] in a;
      if At(s, "/", j) {
        AtStart(s, "/", j);
      }
    }
    assert s[..|a|] == a && s[|a| + 1..] == rest;
  }

  lemma {:induction false} SplitJoined(p: Path)
    requires p != [] && GoodPath(p)
    ensures Split(Join(p, "/")) == p && Split(Join(p, "/") + "/") == p + [""]
    decreases |p|
  {
    hide Split;
    assert '/' !in p[0];
    if |p| == 1 {
      NoSlash(p[0]);
      assert p[0] + "/" == p[0] + "/" + "";
      SplitFirst(p[0], "");
      NoSlash("");
      assert p == [p[0]];
    } else {
      var rest := Join(p[1..], "/");
      SplitJoined(p[1..]);
      SplitFirst(p[0], rest);
      assert Join(p, "/") + "/" == p[0] + "/" + (rest + "/");
      SplitFirst(p[0], rest + "/");
      assert [p[0]] + p[1..] == p;
      assert [p[0]] + (p[1..] + [""]) == p + [""];
    }
  }

  lemma {:induction false} CleanedGood(p: Path)
    requires GoodPath(p)
    ensures Cleaned(p) == p && Cleaned(p + [""]) == p
    decreases |p|
  {
    if p == [] {
      assert (p + [""])[1..] == [];
    } else {
      CleanedGood(p[1..]);
      assert (p + [""])[1..] == p[1..] + [""];
      assert [p[0]] + p[1..] == p;
    }
  }

  /** An entry name decodes to the path it was made of, and is never refused. */
  lemma {:induction false} NameRoundTrip(p: Path)
    requires p != [] && GoodPath(p)
    ensures
      var name, dir := Join(p, "/"), Join(p, "/") + "/";
      && ".." !in Split(name) && Cleaned(Split(name)) == p
      && ".." !in Split(dir) && Cleaned(Split(dir)) == p
  {
    SplitJoined(p);
    CleanedGood(p);
    assert forall i :: 0 <= i < |p| ==> p[i] != "..";
    assert forall x :: x in p + [""] ==> x in p || x == "";
  }

  /** The check is needed: where a path leads out, an entry below it acts outside. */
  lemma {:induction false} LeadingOutEscapes(fs: Files, p: Path, name: string, body: string)
    requires GoodPath(p + [name]) && Stat(fs, [], p, MAX_LINKS).Outside?
    ensures Extract(fs, Entry(Join(p + [name], "/"), TypeReg, body, "")).Escaped?
  {
    hide Split, Cleaned, Join, Stat;
    NameRoundTrip(p + [name]);
    assert (p + [name])[..|p|] == p;
  }

  // ---------------------------------------------------------------- one entry at a time

  /** Every directory on the way to p, and p itself, is there. */
  ghost predicate HasDirs(fs: Files, p: Path) {
    forall n :: 0 < n <= |p| ==> p[..n] in fs && fs[p[..n]].ADir?
  }

  /** Nothing is at p or below it. */
  ghost predicate FreeAt(fs: Files, p: Path) {
    forall q <- fs :: !(p <= q)
  }

  /** Where every component is a directory, a path leads to itself. */
  lemma {:induction false} StatDirs(fs: Files, cur: Path, rest: Path)
    requires HasDirs(fs, cur + rest) && GoodPath(rest)
    ensures Stat(fs, cur, rest, MAX_LINKS) == Inside(cur + rest)
    decreases |rest|
  {
    if rest == [] {
      assert cur + rest == cur;
    } else {
      var p := cur + [rest[0]];
      assert p + rest[1..] == cur + rest;
      assert (cur + rest)[..|p|] == p;
      StatDirs(fs, p, rest[1..]);
    }
  }

  lemma {:induction false} MkdirExisting(fs: Files, p: Path)
    requires HasDirs(fs, p) && GoodPath(p)
    ensures MkdirAll(fs, p) == Done(fs) && DirAt(fs, p) == Inside(p)
  {
    hide Stat;
    StatDirs(fs, [], p);
    assert [] + p == p && p[..|p|] == p;
  }

  /** A directory is made where its parent exists and nothing is in its place. */
  lemma {:induction false} MkdirFresh(fs: Files, p: Path)
    requires p != [] && GoodPath(p) && HasDirs(fs, p[..|p| - 1]) && FreeAt(fs, p)
    ensures MkdirAll(fs, p) == Done(fs[p := ADir])
  {
    var parent := p[..|p| - 1];
    MkdirExisting(fs, parent);
    assert p !in fs && [] + p == p;
    StatMissing(fs, [], p);
    assert parent + [p[|p| - 1]] == p;
  }

  lemma {:induction false} StatMissing(fs: Files, cur: Path, rest: Path)
    requires rest != [] && GoodPath(rest) && HasDirs(fs, (cur + rest)[..|cur + rest| - 1]) && cur + rest !in fs
    ensures Stat(fs, cur, rest, MAX_LINKS) == Missing
    decreases |rest|
  {
    var p, all := cur + [rest[0]], cur + rest;
    if |rest| == 1 {
      assert all == p;
    } else {
      assert p + rest[1..] == all && |p| <= |all| - 1;
      assert all[..|all| - 1][..|p|] == p;
      StatMissing(fs, p, rest[1..]);
    }
  }

  /** An entry of a printed tree, extracted where its parent exists and its own path is free. */
  lemma {:induction false} ExtractOne(fs: Files, p: Path, kind: Kind, body: string, linkname: string)
    requires p != [] && GoodPath(p) && HasDirs(fs, p[..|p| - 1]) && FreeAt(fs, p)
    requires kind.TypeSymlink? ==> linkname != ""
    ensures
      var name := if kind.TypeDir? then Join(p, "/") + "/" else Join(p, "/");
      Extract(fs, Entry(name, kind, body, linkname)) ==
      match kind
      case TypeDir => Done(fs[p := ADir])
      case TypeReg => Done(fs[p := AFile(body)])
      case TypeSymlink => if SafeTarget(linkname) then Done(fs[p := ALink(linkname)]) else Failed
      case Other => Done(fs)
  {
    hide Split, Cleaned, Join, SafeTarget, Stat, MkdirAll, DirAt;
    NameRoundTrip(p);
    MkdirExisting(fs, p[..|p| - 1]);
    MkdirFresh(fs, p);
    assert p[..|p| - 1] + [p[|p| - 1]] == p;
    assert p !in fs;
  }

  /** Where the path is taken, a file takes the place of a file, and nothing else fits. */
  lemma {:induction false} ExtractOver(fs: Files, p: Path, kind: Kind, body: string, linkname: string)
    requires p != [] && GoodPath(p) && HasDirs(fs, p[..|p| - 1]) && p in fs && (kind.TypeReg? || kind.TypeSymlink?)
    ensures Extract(fs, Entry(Join(p, "/"), kind, body, linkname)) ==
            if kind.TypeReg? && fs[p].AFile? then Done(fs[p := AFile(body)]) else Failed
  {
    hide Split, Cleaned, Join, SafeTarget, Stat, MkdirAll, DirAt;
    NameRoundTrip(p);
    MkdirExisting(fs, p[..|p| - 1]);
    assert p[..|p| - 1] + [p[|p| - 1]] == p;
  }

  /** The directories on the way to p, and p. */
  function DirsTo(p: Path): Files {
    if p == [] then map[] else DirsTo(p[..|p| - 1])[p := ADir]
  }

  lemma {:induction false} DirsToHas(p: Path)
    ensures HasDirs(DirsTo(p), p) && forall q <- DirsTo(p) :: |q| <= |p|
    decreases |p|
  {
    if p != [] {
      var parent := p[..|p| - 1];
      DirsToHas(parent);
      forall n | 0 < n <= |p| ensures p[..n] in DirsTo(p) && DirsTo(p)[p[..n]].ADir? {
        if n < |p| {
          assert p[..n] == parent[..n];
        } else {
          assert p[..n] == p;
        }
      }
    }
  }

  lemma {:induction false} MkdirFromNothing(p: Path)
    requires GoodPath(p)
    ensures MkdirAll(map[], p) == Done(DirsTo(p))
    decreases |p|
  {
    if p != [] {
      var parent := p[..|p| - 1];
      MkdirFromNothing(parent);
      DirsToHas(parent);
      assert !(p in DirsTo(parent));
      assert GoodName(p[0]);
      assert Stat(map[], [], p, MAX_LINKS) == Missing;
      MkdirExisting(DirsTo(parent), parent);
      assert parent + [p[|p| - 1]] == p;
    }
  }

  /** An entry whose parents are not listed gets them made. */
  lemma {:induction false} MissingParentsMade(p: Path, body: string)
    requires p != [] && GoodPath(p)
    ensures Extract(map[], Entry(Join(p, "/"), TypeReg, body, "")) == Done(DirsTo(p[..|p| - 1])[p := AFile(body)])
  {
    hide Split, Cleaned, Join, Stat, MkdirAll, DirAt;
    var parent := p[..|p| - 1];
    NameRoundTrip(p);
    MkdirFromNothing(parent);
    DirsToHas(parent);
    MkdirExisting(DirsTo(parent), parent);
    assert parent + [p[|p| - 1]] == p && p !in DirsTo(parent);
  }

  // ---------------------------------------------------------------- the round trip

  lemma {:induction false} FlatBelow(node: Node, p: Path)
    ensures forall q <- FlatNode(node, p) :: p <= q
    decreases node
  {
    if node.Dir? {
      FlatChildrenBelow(node.children, p);
    }
  }

  lemma {:induction false} FlatChildrenBelow(children: seq<Child>, p: Path)
    ensures forall q <- FlatChildren(children, p) :: p <= q
    decreases children
  {
    if children != [] {
      var at := p + [children[0].name];
      FlatBelow(children[0].node, at);
      FlatChildrenBelow(children[1..], p);
      forall q <- FlatNode(children[0].node, at) ensures p <= q {
        assert at <= q && at[..|p|] == p;
      }
    }
  }

  lemma {:induction false} MergeMaps(a: Files, b: Files, c: Files)
    ensures (a + b) + c == a + (b + c)
  {
  }

  lemma {:induction false} NodeRoundTrip(fs: Files, node: Node, p: Path)
    requires p != [] && GoodPath(p) && HasDirs(fs, p[..|p| - 1]) && FreeAt(fs, p)
    requires (node.Dir? ==> GoodChildren(node.children)) && (node.Link? ==> node.target != "")
    ensures ExtractAll(fs, TarNode(node, p)) == if SafeNode(node) then Done(fs + FlatNode(node, p)) else Failed
    decreases node, 1
  {
    hide Extract, Join, SafeTarget, FreeAt;
    match node
    case File(bytes) =>
      ExtractOne(fs, p, TypeReg, bytes, "");
      ExtractSingle(fs, TarNode(node, p)[0]);
      assert fs[p := AFile(bytes)] == fs + map[p := AFile(bytes)];
    case Link(target) =>
      ExtractOne(fs, p, TypeSymlink, "", target);
      ExtractSingle(fs, TarNode(node, p)[0]);
      assert fs[p := ALink(target)] == fs + map[p := ALink(target)];
    case Dir(children) =>
      ExtractOne(fs, p, TypeDir, "", "");
      var made := fs[p := ADir];
      MadeDir(fs, p);
      var first := [Entry(Join(p, "/") + "/", TypeDir, "", "")];
      ExtractSingle(fs, first[0]);
      ExtractConcat(fs, first, TarChildren(children, p));
      ChildrenRoundTrip(made, children, p);
      assert made == fs + map[p := ADir];
      MergeMaps(fs, map[p := ADir], FlatChildren(children, p));
  }

  lemma {:induction false} ExtractSingle(fs: Files, e: Entry)
    ensures ExtractAll(fs, [e]) == Extract(fs, e)
  {
    assert [e][1..] == [];
  }

  /** After making p, its directories are there and every name below it is free. */
  lemma {:induction false} MadeDir(fs: Files, p: Path)
    requires p != [] && HasDirs(fs, p[..|p| - 1]) && FreeAt(fs, p)
    ensures HasDirs(fs[p := ADir], p)
    ensures forall name :: FreeAt(fs[p := ADir], p + [name])
  {
    var made := fs[p := ADir];
    forall n | 0 < n <= |p| ensures p[..n] in made && made[p[..n]].ADir? {
      if n < |p| {
        assert p[..n] == p[..|p| - 1][..n];
      } else {
        assert p[..n] == p;
      }
    }
    forall name, q | q in made ensures !(p + [name] <= q) {
      assert (p + [name])[..|p|] == p;
      assert q != p ==> !(p <= q);
    }
  }

  /** Adding what lies below one name keeps the directories above and the other names free. */
  lemma {:induction false} OtherNamesStayFree(fs: Files, added: Files, p: Path, name: string, other: string)
    requires HasDirs(fs, p) && FreeAt(fs, p + [other]) && other != name
    requires forall q <- added :: p + [name] <= q
    ensures FreeAt(fs + added, p + [other])
  {
    forall q <- fs + added ensures !(p + [other] <= q) {
      if q in added {
        assert q[|p|] == (p + [name])[|p|] == name;
        assert (p + [other])[|p|] == other;
      }
    }
  }

  lemma {:induction false} DirsStay(fs: Files, added: Files, p: Path, name: string)
    requires HasDirs(fs, p)
    requires forall q <- added :: p + [name] <= q
    ensures HasDirs(fs + added, p)
  {
    forall n | 0 < n <= |p| ensures p[..n] in fs + added && (fs + added)[p[..n]].ADir? {
      assert p[..n] !in added;
    }
  }

  lemma {:induction false} GoodPathSnoc(p: Path, name: string)
    requires GoodPath(p) && GoodName(name)
    ensures GoodPath(p + [name]) && (p + [name])[..|p + [name]| - 1] == p
  {
  }

  lemma {:induction false} ChildrenRoundTrip(fs: Files, children: seq<Child>, p: Path)
    requires GoodPath(p) && HasDirs(fs, p) && GoodChildren(children)
    requires forall c <- children :: FreeAt(fs, p + [c.name])
    ensures ExtractAll(fs, TarChildren(children, p)) ==
            if SafeChildren(children) then Done(fs + FlatChildren(children, p)) else Failed
    decreases children, 0
  {
    if children == [] {
      assert fs + map[] == fs;
    } else {
      hide FreeAt, HasDirs, GoodName, GoodPath, ExtractAll, TarNode, FlatNode;
      var c, rest := children[0], children[1..];
      var at := p + [c.name];
      assert c in children;
      GoodPathSnoc(p, c.name);
      NodeRoundTrip(fs, c.node, at);
      ExtractConcat(fs, TarNode(c.node, at), TarChildren(rest, p));
      if SafeNode(c.node) {
        var added := FlatNode(c.node, at);
        FlatBelow(c.node, at);
        DirsStay(fs, added, p, c.name);
        forall d <- rest ensures FreeAt(fs + added, p + [d.name]) {
          var i :| 0 <= i < |rest| && rest[i] == d;
          assert children[i + 1] == d && d in children;
          OtherNamesStayFree(fs, added, p, c.name, d.name);
        }
        ChildrenRoundTrip(fs + added, rest, p);
        MergeMaps(fs, added, FlatChildren(rest, p));
      }
    }
  }

  lemma {:induction false} TarDirKeeps(children: seq<Child>, excludes: set<string>)
    ensures TarDir(children, excludes) == TarChildren(Kept(children, excludes), [])
    decreases |children|
  {
    if children != [] {
      TarDirKeeps(children[1..], excludes);
      var c, rest := children[0], Kept(children[1..], excludes);
      if c.name in excludes {
        assert [] + TarDir(children[1..], excludes) == TarDir(children[1..], excludes);
        assert [] + rest == rest;
      } else {
        assert ([c] + rest)[1..] == rest;
        assert [] + [c.name] == [c.name];
      }
    }
  }

  lemma {:induction false} KeptSubset(children: seq<Child>, excludes: set<string>)
    ensures forall c <- Kept(children, excludes) :: c in children && c.name !in excludes
    decreases |children|
  {
    if children != [] {
      KeptSubset(children[1..], excludes);
    }
  }

  lemma {:induction false} GoodCons(c: Child, kept: seq<Child>)
    requires AllGood([c]) && GoodChildren(kept)
    requires forall k <- kept :: k.name != c.name
    ensures GoodChildren([c] + kept)
  {
    hide GoodName;
    assert ([c] + kept)[1..] == kept;
  }

  lemma {:induction false} GoodHead(children: seq<Child>)
    requires children != [] && AllGood(children)
    ensures AllGood([children[0]]) && AllGood(children[1..])
  {
    hide GoodName, DistinctNames;
    assert [children[0]][1..] == [];
  }

  lemma {:induction false} KeptGood(children: seq<Child>, excludes: set<string>)
    requires GoodChildren(children)
    ensures GoodChildren(Kept(children, excludes))
    decreases |children|
  {
    hide AllGood;
    if children != [] {
      var c, rest := children[0], children[1..];
      GoodHead(children);
      KeptGood(rest, excludes);
      KeptSubset(rest, excludes);
      var kept := Kept(rest, excludes);
      if c.name in excludes {
        assert [] + kept == kept;
      } else {
        forall k <- kept ensures k.name != c.name {
          var i :| 0 <= i < |rest| && rest[i] == k;
          assert children[i + 1] == k;
        }
        GoodCons(c, kept);
      }
    }
  }

  /**
   Extracting what tarDir writes rebuilds the tree without its excluded top-level entries, with
   every file's bytes and every link's target, exactly when each link that is kept has a relative
   target free of ".."; otherwise extraction fails.
   */
  lemma {:induction false} ArchiveRoundTrip(children: seq<Child>, excludes: set<string>)
    requires GoodChildren(children)
    ensures ExtractAll(map[], TarDir(children, excludes)) ==
            if SafeChildren(Kept(children, excludes)) then Done(FlatChildren(Kept(children, excludes), [])) else Failed
  {
    hide GoodChildren, SafeChildren, Kept, ExtractAll;
    var kept := Kept(children, excludes);
    TarDirKeeps(children, excludes);
    KeptGood(children, excludes);
    ChildrenRoundTrip(map[], kept, []);
    assert map[] + FlatChildren(kept, []) == FlatChildren(kept, []);
  }
}
