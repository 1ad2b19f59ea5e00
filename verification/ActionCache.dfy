/**
 The cache of cloned actions (pkg/actions/loader.go, pkg/actions/resolve.go): LoadAction clones a
 repository into a directory named after org, repo and ref, and reads actions from the clone that is
 there.  Neither the directory nor the key of a reference has the URL in it.
 */
module ActionCache {
  import opened Wrappers
  import opened Text
  import opened Composite

  datatype ActionRef = ActionRef(org: string, repo: string, path: string, gitRef: string, url: string)

  /** What ParseActionRef yields: the first '@' ends the path, and org and repo end at slashes. */
  predicate IsParsed(r: ActionRef) {
    '/' !in r.org && '/' !in r.repo && '@' !in r.org && '@' !in r.repo && '@' !in r.path
  }

  /** ActionRef.String. */
  function KeyOf(r: ActionRef): string {
    r.org + "/" + r.repo + (if r.path != "" then "/" + r.path else "") + "@" + r.gitRef
  }

  /** What ActionDir is made of. */
  datatype Repo = Repo(org: string, name: string, gitRef: string)

  function RepoOf(r: ActionRef): Repo {
    Repo(r.org, r.repo, r.gitRef)
  }

  function TrimSlashes(s: string): string {
    if s != "" && s[|s| - 1] == '/' then TrimSlashes(s[..|s| - 1]) else s
  }

  /** CloneURL. */
  function CloneUrl(r: ActionRef, defaultUrl: string): string {
    TrimSlashes(if r.url != "" then r.url else defaultUrl) + "/" + r.org + "/" + r.repo + ".git"
  }

  /** A clone: the usable action definitions in it, by path. */
  type Clone = map<string, Action>

  /** The world around a cache: directory names, the default URL, and what git clone of a URL and a ref gives. */
  datatype World = World(dirOf: Repo -> string, defaultUrl: string, remote: (string, string) -> Option<Clone>)

  predicate IsMagic(r: ActionRef) {
    r.org == "drawbar" && r.repo == "cache"
  }

  const MAGIC: Action := Leaf([Magic])

  function ReadAction(clone: Clone, path: string): Result<Action> {
    if path in clone then Ok(clone[path]) else Err
  }

  function RemoteOf(w: World, r: ActionRef): Option<Clone> {
    w.remote(CloneUrl(r, w.defaultUrl), r.gitRef)
  }

  /** LoadAction: the result and the clones afterwards. */
  function Loaded(w: World, clones: map<string, Clone>, r: ActionRef): (Result<Action>, map<string, Clone>) {
    if IsMagic(r) then (Ok(MAGIC), clones)
    else
      var dir := w.dirOf(RepoOf(r));
      if dir in clones then (ReadAction(clones[dir], r.path), clones)
      else
        match RemoteOf(w, r)
        case None => (Err, clones)
        case Some(clone) => (ReadAction(clone, r.path), clones[dir := clone])
  }

  class Cache {
    const world: World
    var clones: map<string, Clone>

    constructor (world: World)
      ensures this.world == world && clones == map[]
    {
      this.world, clones := world, map[];
    }

    method LoadAction(r: ActionRef) returns (action: Result<Action>)
      modifies this
      ensures (action, clones) == Loaded(world, old(clones), r)
    {
      if IsMagic(r) {
        return Ok(MAGIC);
      }
      var dir := world.dirOf(RepoOf(r));
      if dir !in clones {
        var clone := RemoteOf(world, r);
        if clone.None? {
          return Err;
        }
        clones := clones[dir := clone.value];
      }
      return ReadAction(clones[dir], r.path);
    }
  }

  // ---------------------------------------------------------------- keys

  lemma {:induction false} SplitAt(a: string, b: string, x: string, y: string, c: char)
    requires c !in a && c !in b && a + [c] + x == b + [c] + y
    ensures a == b && x == y
  {
    hide Index;
    var s := a + [c] + x;
    IndexAfter(a, [c], x);
    IndexAfter(b, [c], y);
    assert a == s[..|a|] && b == s[..|b|];
    assert x == s[|a| + 1..] && y == s[|b| + 1..];
  }

  /** A key stands for everything of a reference but its URL. */
  lemma {:induction false} KeyDetermines(a: ActionRef, b: ActionRef)
    requires IsParsed(a) && IsParsed(b)
    ensures KeyOf(a) == KeyOf(b) <==> RepoOf(a) == RepoOf(b) && a.path == b.path
  {
    if KeyOf(a) == KeyOf(b) {
      SameKeyParts(a, b);
    }
  }

  lemma {:induction false} SameKeyParts(a: ActionRef, b: ActionRef)
    requires IsParsed(a) && IsParsed(b) && KeyOf(a) == KeyOf(b)
    ensures RepoOf(a) == RepoOf(b) && a.path == b.path
  {
    var pa, pb := PathPart(a), PathPart(b);
    NoAtInName(a);
    NoAtInName(b);
    assert KeyOf(a) == (a.org + "/" + a.repo + pa) + ['@'] + a.gitRef;
    assert KeyOf(b) == (b.org + "/" + b.repo + pb) + ['@'] + b.gitRef;
    SplitAt(a.org + "/" + a.repo + pa, b.org + "/" + b.repo + pb, a.gitRef, b.gitRef, '@');
    assert a.org + "/" + a.repo + pa == a.org + ['/'] + (a.repo + pa);
    assert b.org + "/" + b.repo + pb == b.org + ['/'] + (b.repo + pb);
    SplitAt(a.org, b.org, a.repo + pa, b.repo + pb, '/');
    SameRepoPath(a.repo, a.path, b.repo, b.path);
  }

  function PathPart(r: ActionRef): string {
    if r.path != "" then "/" + r.path else ""
  }

  lemma {:induction false} NoAtInName(r: ActionRef)
    requires IsParsed(r)
    ensures '@' !in r.org + "/" + r.repo + PathPart(r)
  {
  }

  lemma {:induction false} SlashShowsPath(a: string, p: string)
    requires '/' !in a
    ensures '/' in a + (if p != "" then "/" + p else "") <==> p != ""
  {
    if p != "" {
      assert (a + ("/" + p))[|a|] == '/';
    } else {
      assert a + "" == a;
    }
  }

  lemma {:induction false} SameRepoPath(a: string, p: string, b: string, q: string)
    requires '/' !in a && '/' !in b
    requires a + (if p != "" then "/" + p else "") == b + (if q != "" then "/" + q else "")
    ensures a == b && p == q
  {
    SlashShowsPath(a, p);
    SlashShowsPath(b, q);
    if p != "" {
      assert a + ("/" + p) == a + ['/'] + p && b + ("/" + q) == b + ['/'] + q;
      SplitAt(a, b, p, q, '/');
    } else {
      assert a + "" == a && b + "" == b;
    }
  }

  function Slashes(n: nat): string {
    seq(n, _ => '/')
  }

  lemma {:induction false} TrimsSlashes(base: string, n: nat)
    requires base == "" || base[|base| - 1] != '/'
    ensures TrimSlashes(base + Slashes(n)) == base
    decreases n
  {
    var s := base + Slashes(n);
    if n > 0 {
      assert s[|s| - 1] == '/' && s[..|s| - 1] == base + Slashes(n - 1);
      TrimsSlashes(base, n - 1);
    } else {
      assert s == base;
    }
  }

  /** The clone URL is under the reference's own URL, or the default one, without the slashes that ends in. */
  lemma {:induction false} CloneUrlExactly(r: ActionRef, defaultUrl: string, base: string, n: nat)
    requires base == "" || base[|base| - 1] != '/'
    requires (if r.url == "" then defaultUrl else r.url) == base + Slashes(n)
    ensures CloneUrl(r, defaultUrl) == base + "/" + r.org + "/" + r.repo + ".git"
  {
    TrimsSlashes(base, n);
  }

  /** The magic cache action is never cloned, and no clone gets in its way. */
  lemma {:induction false} MagicNeedsNoClone(w: World, clones: map<string, Clone>, r: ActionRef)
    requires r.org == "drawbar" && r.repo == "cache"
    ensures Loaded(w, clones, r) == (Ok(Leaf([Magic])), clones)
  {
  }

  // ---------------------------------------------------------------- any sequence of loads

  function ClonesAfter(w: World, clones: map<string, Clone>, rs: seq<ActionRef>): map<string, Clone>
    decreases |rs|
  {
    if rs == [] then clones else ClonesAfter(w, Loaded(w, clones, rs[0]).1, rs[1..])
  }

  lemma {:induction false} ClonesStay(w: World, clones: map<string, Clone>, rs: seq<ActionRef>, dir: string)
    requires dir in clones
    ensures dir in ClonesAfter(w, clones, rs) && ClonesAfter(w, clones, rs)[dir] == clones[dir]
    decreases |rs|
  {
    if rs != [] {
      ClonesStay(w, Loaded(w, clones, rs[0]).1, rs[1..], dir);
    }
  }

  /**
   Once a key has been loaded, every later load under that key, whatever its URL and whatever was
   loaded in between, returns the same action: an expansion sees actions by key.
   */
  lemma {:induction false} SameKeySameAction(
    w: World, clones: map<string, Clone>, a: ActionRef, between: seq<ActionRef>, b: ActionRef)
    requires IsParsed(a) && IsParsed(b) && KeyOf(a) == KeyOf(b)
    requires Loaded(w, clones, a).0.Ok?
    ensures Loaded(w, ClonesAfter(w, Loaded(w, clones, a).1, between), b).0 == Loaded(w, clones, a).0
  {
    KeyDetermines(a, b);
    if !IsMagic(a) {
      ClonesStay(w, Loaded(w, clones, a).1, between, w.dirOf(RepoOf(a)));
    }
  }

  /** What a reference names on its own: the action under its own URL. */
  function Own(w: World, r: ActionRef): Result<Action> {
    Loaded(w, map[], r).0
  }

  /** r, loaded after a reference that was cloned into the same directory, gets its own action. */
  ghost predicate GetsOwn(w: World, a: ActionRef, between: seq<ActionRef>, r: ActionRef) {
    Loaded(w, ClonesAfter(w, Loaded(w, map[], a).1, between), r).0 == Own(w, r)
  }

  /** The clone that is made first serves every reference to its directory. */
  lemma {:induction false} FirstCloneWins(w: World, a: ActionRef, between: seq<ActionRef>, r: ActionRef)
    requires !IsMagic(a) && !IsMagic(r) && w.dirOf(RepoOf(a)) == w.dirOf(RepoOf(r)) && RemoteOf(w, a).Some?
    ensures Loaded(w, ClonesAfter(w, Loaded(w, map[], a).1, between), r).0 == ReadAction(RemoteOf(w, a).value, r.path)
  {
    ClonesStay(w, Loaded(w, map[], a).1, between, w.dirOf(RepoOf(a)));
  }

  /** A world in which one source has an action at every path the other lacks. */
  function Telling(dirOf: Repo -> string, defaultUrl: string, url: string, gitRef: string, path: string): World {
    World(dirOf, defaultUrl, (u, g) => Some(if u == url && g == gitRef then map[path := MAGIC] else map[]))
  }

  /** Whatever the forges hold, as long as a can be cloned. */
  ghost predicate AlwaysOwn(
    dirOf: Repo -> string, defaultUrl: string, a: ActionRef, between: seq<ActionRef>, r: ActionRef)
  {
    forall remote :: RemoteOf(World(dirOf, defaultUrl, remote), a).Some? ==>
      GetsOwn(World(dirOf, defaultUrl, remote), a, between, r)
  }

  /**
   After a reference a has been cloned into r's directory, r gets the action under its own URL,
   whatever the forges hold, exactly when both are clones of one URL at one ref: another URL for the
   same org, repo and ref gets the action that was cloned first.
   */
  lemma {:induction false} OwnActionExactly(
    dirOf: Repo -> string, defaultUrl: string, a: ActionRef, between: seq<ActionRef>, r: ActionRef)
    requires !IsMagic(a) && !IsMagic(r) && dirOf(RepoOf(a)) == dirOf(RepoOf(r))
    ensures AlwaysOwn(dirOf, defaultUrl, a, between, r) <==>
            CloneUrl(a, defaultUrl) == CloneUrl(r, defaultUrl) && a.gitRef == r.gitRef
  {
    hide CloneUrl, ClonesAfter;
    if CloneUrl(a, defaultUrl) == CloneUrl(r, defaultUrl) && a.gitRef == r.gitRef {
      forall remote | RemoteOf(World(dirOf, defaultUrl, remote), a).Some?
        ensures GetsOwn(World(dirOf, defaultUrl, remote), a, between, r)
      {
        FirstCloneWins(World(dirOf, defaultUrl, remote), a, between, r);
      }
    } else {
      var w := Telling(dirOf, defaultUrl, CloneUrl(r, defaultUrl), r.gitRef, r.path);
      FirstCloneWins(w, a, between, r);
      assert RemoteOf(w, a) == Some(map[]) && Own(w, r) == Ok(MAGIC);
      assert !GetsOwn(w, a, between, r);
      assert w == World(dirOf, defaultUrl, w.remote);
    }
  }
}
