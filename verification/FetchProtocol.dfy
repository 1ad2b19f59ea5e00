/**
 The runner's FetchTask protocol (pkg/server/poller.go) against a forge.

 The runner sends a version cursor and an idempotency key.  The forge keeps a FIFO queue and a
 version that every enqueue bumps; it picks a task only when the request's cursor differs from
 its version.  Requests and replies may be lost, and a request that the runner gave up on may reach
 the forge late.  The forge comes in two variants: one that replays the task assigned under a request
 key it has seen, and one that ignores the key.
 */
module FetchProtocol {
  import opened Wrappers

  type Key = nat

  datatype Task = Task(id: int)

  /** What one FetchTask call returns to the poller. */
  datatype Outcome =
    | Cancelled         // an error while the polling context is done
    | DeadlineExceeded  // the long poll's "no work" error
    | Failed            // any other error
    | Response(version: int, task: Option<Task>)

  /** The value of the poller's workerState. */
  datatype Worker = Worker(tasksVersion: int, requestKey: Key, consecutiveEmpty: nat, consecutiveErrors: nat)

  /** The task a call hands to the poll loop; an id of zero counts as no task. */
  function Received(o: Outcome): Option<Task> {
    if o.Response? && o.task.Some? && o.task.value.id != 0 then o.task else None
  }

  /** The worker state after one call, with `newKey` as the key drawn on success. */
  function AfterFetch(w: Worker, o: Outcome, newKey: Key): Worker {
    match o
    case Cancelled => w
    case DeadlineExceeded => w.(consecutiveEmpty := w.consecutiveEmpty + 1)
    case Failed => w.(consecutiveErrors := w.consecutiveErrors + 1)
    case Response(v, _) =>
      var advanced := if v > w.tasksVersion then v else w.tasksVersion;
      if Received(o).None?
      then Worker(advanced, newKey, w.consecutiveEmpty + 1, 0)
      else Worker(0, newKey, w.consecutiveEmpty, 0)
  }

  /** A whole round of Run: a task resets the backoff counters. */
  function AfterRound(w: Worker, o: Outcome, newKey: Key): Worker {
    var next := AfterFetch(w, o, newKey);
    if Received(o).Some? then next.(consecutiveEmpty := 0, consecutiveErrors := 0) else next
  }

  const BACKOFF_MAX: int := 60_000_000_000  // nanoseconds

  function Pow2(n: nat): nat {
    if n == 0 then 1 else 2 * Pow2(n - 1)
  }

  /** How long waitBackoff sleeps when the larger counter is n. */
  function Delay(base: int, n: nat): int {
    if n <= 1 then base
    else
      var d := base * Pow2(if n - 1 > 5 then 5 else n - 1);
      if d > BACKOFF_MAX then BACKOFF_MAX else d
  }

  /** workerState, updated in place by fetchTask and Run. */
  class WorkerState {
    var tasksVersion: int
    var requestKey: Key
    var consecutiveEmpty: nat
    var consecutiveErrors: nat

    constructor (key: Key)
      ensures Value() == Worker(0, key, 0, 0)
    {
      tasksVersion, requestKey, consecutiveEmpty, consecutiveErrors := 0, key, 0, 0;
    }

    ghost function Value(): Worker
      reads this
    {
      Worker(tasksVersion, requestKey, consecutiveEmpty, consecutiveErrors)
    }

    method ResetBackoff()
      modifies this
      ensures Value() == old(Value()).(consecutiveEmpty := 0, consecutiveErrors := 0)
    {
      consecutiveEmpty := 0;
      consecutiveErrors := 0;
    }

    /** The duration waitBackoff computes. */
    method BackoffDelay(base: int) returns (d: int)
      ensures d == Delay(base, if consecutiveEmpty > consecutiveErrors then consecutiveEmpty else consecutiveErrors)
    {
      var n := consecutiveErrors;
      if consecutiveEmpty > n {
        n := consecutiveEmpty;
      }
      d := base;
      if n > 1 {
        var shift := n - 1;
        if shift > 5 {
          shift := 5;
        }
        d := base * Pow2(shift);
        if d > BACKOFF_MAX {
          d := BACKOFF_MAX;
        }
      }
    }

    method FetchTask(resp: Outcome, newKey: Key) returns (task: Option<Task>)
      modifies this
      ensures Value() == AfterFetch(old(Value()), resp, newKey)
      ensures task == if resp.Response? && resp.task.Some? && resp.task.value.id != 0 then resp.task else None
    {
      if !resp.Response? {
        if resp.DeadlineExceeded? {
          consecutiveEmpty := consecutiveEmpty + 1;
        } else if resp.Failed? {
          consecutiveErrors := consecutiveErrors + 1;
        }
        return None;
      }
      consecutiveErrors := 0;
      requestKey := newKey;
      if resp.version > tasksVersion {
        tasksVersion := resp.version;
      }
      if resp.task.None? || resp.task.value.id == 0 {
        consecutiveEmpty := consecutiveEmpty + 1;
        return None;
      }
      tasksVersion := 0;
      return resp.task;
    }
  }

  // ---------------------------------------------------------------- backoff

  datatype Round = Round(outcome: Outcome, newKey: Key)

  function AfterRounds(w: Worker, rs: seq<Round>): Worker
    decreases |rs|
  {
    if rs == [] then w else AfterRounds(AfterRound(w, rs[0].outcome, rs[0].newKey), rs[1..])
  }

  predicate IsEmpty(o: Outcome) {
    o.DeadlineExceeded? || (o.Response? && Received(o).None?)
  }

  function CountEmpty(rs: seq<Round>): nat {
    if rs == [] then 0 else (if IsEmpty(rs[0].outcome) then 1 else 0) + CountEmpty(rs[1..])
  }

  function CountFailed(rs: seq<Round>): nat {
    if rs == [] then 0 else (if rs[0].outcome.Failed? then 1 else 0) + CountFailed(rs[1..])
  }

  lemma {:induction false} RoundsConcat(w: Worker, a: seq<Round>, b: seq<Round>)
    ensures AfterRounds(w, a + b) == AfterRounds(AfterRounds(w, a), b)
    decreases |a|
  {
    hide AfterRound;
    if a == [] {
      assert a + b == b;
    } else {
      assert (a + b)[0] == a[0] && (a + b)[1..] == a[1..] + b;
      RoundsConcat(AfterRound(w, a[0].outcome, a[0].newKey), a[1..], b);
    }
  }

  lemma {:induction false} EmptiesAdd(w: Worker, rs: seq<Round>)
    requires forall r <- rs :: Received(r.outcome).None?
    ensures AfterRounds(w, rs).consecutiveEmpty == w.consecutiveEmpty + CountEmpty(rs)
    decreases |rs|
  {
    if rs != [] {
      assert rs[0] in rs;
      EmptiesAdd(AfterRound(w, rs[0].outcome, rs[0].newKey), rs[1..]);
    }
  }

  lemma {:induction false} ErrorsAdd(w: Worker, rs: seq<Round>)
    requires forall r <- rs :: !r.outcome.Response?
    ensures AfterRounds(w, rs).consecutiveErrors == w.consecutiveErrors + CountFailed(rs)
    decreases |rs|
  {
    if rs != [] {
      assert rs[0] in rs;
      ErrorsAdd(AfterRound(w, rs[0].outcome, rs[0].newKey), rs[1..]);
    }
  }

  /** The rounds up to the k-th, of which the last settles a counter, and the rest. */
  lemma {:induction false} SplitRounds(w: Worker, rs: seq<Round>, k: nat)
    requires 0 < k <= |rs|
    ensures
      var before := AfterRounds(w, rs[..k - 1]);
      AfterRounds(w, rs) == AfterRounds(AfterRound(before, rs[k - 1].outcome, rs[k - 1].newKey), rs[k..])
  {
    assert rs == rs[..k - 1] + rs[k - 1..];
    RoundsConcat(w, rs[..k - 1], rs[k - 1..]);
    assert rs[k - 1..][0] == rs[k - 1] && rs[k - 1..][1..] == rs[k..];
  }

  /** consecutiveEmpty counts the empty rounds since the last task, whatever errors lie between. */
  lemma {:induction false} EmptyCounterMeans(key: Key, rs: seq<Round>, k: nat)
    requires k <= |rs| && (k > 0 ==> Received(rs[k - 1].outcome).Some?)
    requires forall r <- rs[k..] :: Received(r.outcome).None?
    ensures AfterRounds(Worker(0, key, 0, 0), rs).consecutiveEmpty == CountEmpty(rs[k..])
  {
    var w := Worker(0, key, 0, 0);
    if k == 0 {
      assert rs[0..] == rs;
      EmptiesAdd(w, rs);
    } else {
      SplitRounds(w, rs, k);
      EmptiesAdd(AfterRound(AfterRounds(w, rs[..k - 1]), rs[k - 1].outcome, rs[k - 1].newKey), rs[k..]);
    }
  }

  /** consecutiveErrors counts the failed calls since the last response, empty or not. */
  lemma {:induction false} ErrorCounterMeans(key: Key, rs: seq<Round>, k: nat)
    requires k <= |rs| && (k > 0 ==> rs[k - 1].outcome.Response?)
    requires forall r <- rs[k..] :: !r.outcome.Response?
    ensures AfterRounds(Worker(0, key, 0, 0), rs).consecutiveErrors == CountFailed(rs[k..])
  {
    var w := Worker(0, key, 0, 0);
    if k == 0 {
      assert rs[0..] == rs;
      ErrorsAdd(w, rs);
    } else {
      SplitRounds(w, rs, k);
      ErrorsAdd(AfterRound(AfterRounds(w, rs[..k - 1]), rs[k - 1].outcome, rs[k - 1].newKey), rs[k..]);
    }
  }

  /** c is the largest version among the responses of the rounds, or w if none exceeds it. */
  ghost predicate IsLargestVersion(rs: seq<Round>, w: int, c: int) {
    && c >= w
    && (forall r <- rs :: r.outcome.Response? ==> r.outcome.version <= c)
    && (c == w || exists r <- rs :: r.outcome.Response? && r.outcome.version == c)
  }

  lemma {:induction false} CursorAdvances(w: Worker, rs: seq<Round>)
    requires forall r <- rs :: Received(r.outcome).None?
    ensures IsLargestVersion(rs, w.tasksVersion, AfterRounds(w, rs).tasksVersion)
    decreases |rs|
  {
    if rs != [] {
      assert rs == [rs[0]] + rs[1..];
      assert rs[0] in rs;
      var next := AfterRound(w, rs[0].outcome, rs[0].newKey);
      CursorAdvances(next, rs[1..]);
      var c := AfterRounds(w, rs).tasksVersion;
      assert next.tasksVersion >= w.tasksVersion;
      if c != w.tasksVersion && c != next.tasksVersion {
        var r :| r in rs[1..] && r.outcome.Response? && r.outcome.version == c;
        assert r in rs;
      }
    }
  }

  /** The cursor is the largest version among the responses since the last task, and zero if there was none. */
  lemma {:induction false} CursorMeans(key: Key, rs: seq<Round>, k: nat)
    requires k <= |rs| && (k > 0 ==> Received(rs[k - 1].outcome).Some?)
    requires forall r <- rs[k..] :: Received(r.outcome).None?
    ensures IsLargestVersion(rs[k..], 0, AfterRounds(Worker(0, key, 0, 0), rs).tasksVersion)
  {
    hide IsLargestVersion;
    var w := Worker(0, key, 0, 0);
    if k == 0 {
      assert rs[0..] == rs;
      CursorAdvances(w, rs);
    } else {
      SplitRounds(w, rs, k);
      CursorAdvances(AfterRound(AfterRounds(w, rs[..k - 1]), rs[k - 1].outcome, rs[k - 1].newKey), rs[k..]);
    }
  }

  lemma {:induction false} KeyStays(w: Worker, rs: seq<Round>)
    requires forall r <- rs :: !r.outcome.Response?
    ensures AfterRounds(w, rs).requestKey == w.requestKey
    decreases |rs|
  {
    if rs != [] {
      assert rs[0] in rs;
      KeyStays(AfterRound(w, rs[0].outcome, rs[0].newKey), rs[1..]);
    }
  }

  /** The key is the one drawn at the last response, and the first one if there was none: errors retain it. */
  lemma {:induction false} KeyMeans(key: Key, rs: seq<Round>, k: nat)
    requires k <= |rs| && (k > 0 ==> rs[k - 1].outcome.Response?)
    requires forall r <- rs[k..] :: !r.outcome.Response?
    ensures AfterRounds(Worker(0, key, 0, 0), rs).requestKey == if k == 0 then key else rs[k - 1].newKey
  {
    var w := Worker(0, key, 0, 0);
    if k == 0 {
      assert rs[0..] == rs;
      KeyStays(w, rs);
    } else {
      SplitRounds(w, rs, k);
      KeyStays(AfterRound(AfterRounds(w, rs[..k - 1]), rs[k - 1].outcome, rs[k - 1].newKey), rs[k..]);
    }
  }

  lemma {:induction false} Pow2Values()
    ensures Pow2(1) == 2 && Pow2(2) == 4 && Pow2(3) == 8 && Pow2(4) == 16 && Pow2(5) == 32
  {
  }

  lemma {:induction false} DelaySteps(base: int, m: nat, n: nat)
    requires 0 <= base <= BACKOFF_MAX && m <= n
    ensures Delay(base, m) <= Delay(base, n) <= BACKOFF_MAX
  {
    hide Pow2;
    Pow2Values();
  }

  /** The first round waits for the interval; each one after that doubles the wait, up to the cap, five times. */
  lemma {:induction false} BackoffDoubles(base: int, n: nat)
    requires 0 <= base <= BACKOFF_MAX
    ensures n <= 1 ==> Delay(base, n) == base
    ensures 1 <= n < 6 ==>
              Delay(base, n + 1) == if 2 * Delay(base, n) > 60_000_000_000 then 60_000_000_000 else 2 * Delay(base, n)
    ensures n >= 6 ==> Delay(base, n) == Delay(base, 6)
  {
    hide Pow2;
    Pow2Values();
  }

  /** More empty rounds or errors never shorten the wait, exactly when the interval is within the cap. */
  lemma {:induction false} BackoffNeverShortens(base: int)
    requires base >= 0
    ensures (forall m: nat, n: nat :: m <= n ==> Delay(base, m) <= Delay(base, n)) <==> base <= BACKOFF_MAX
  {
    if base <= BACKOFF_MAX {
      forall m: nat, n: nat | m <= n ensures Delay(base, m) <= Delay(base, n) {
        DelaySteps(base, m, n);
      }
    } else {
      Pow2Values();
      assert Delay(base, 1) > Delay(base, 2);
    }
  }

  // ---------------------------------------------------------------- runner, forge and network

  datatype Forge = Forge(replays: bool, queue: seq<Task>, version: nat, assignments: map<Key, Task>)

  /** The task that a request makes the forge take off its queue. */
  function Picked(f: Forge, key: Key, cursor: int): Option<Task> {
    if !(f.replays && key in f.assignments) && cursor != f.version && f.queue != [] then Some(f.queue[0]) else None
  }

  /** The forge's FetchTask handler. */
  function Serve(f: Forge, key: Key, cursor: int): (Forge, Outcome) {
    var t := Picked(f, key, cursor);
    if f.replays && key in f.assignments then (f, Response(f.version, Some(f.assignments[key])))
    else if t.None? then (f, Response(f.version, None))
    else
      var assignments := if f.replays then f.assignments[key := t.value] else f.assignments;
      (f.(queue := f.queue[1..], assignments := assignments), Response(f.version, t))
  }

  datatype Request = Request(key: Key, cursor: int)

  /** Runner, forge, the reply in flight, requests given up on but still on their way, and three histories. */
  datatype Sys = Sys(
    worker: Worker,
    forge: Forge,
    reply: Option<Outcome>,
    late: seq<Request>,
    used: set<Key>,
    enqueued: seq<Task>,
    delivered: seq<Task>,
    stranded: seq<Task>)

  datatype Event =
    | Enqueue(task: Task)            // new work at the forge, at any moment
    | RequestLost(error: Outcome)    // the call fails and the forge never sees it
    | RequestDelayed(error: Outcome) // the call fails, and the forge may see it later
    | RequestServed                  // the forge handles the request, its reply is in flight
    | ReplyLost(error: Outcome)      // the forge handled the request, the runner sees an error
    | ReplyArrives(newKey: Key)
    | LateServed(i: nat)             // the forge handles a request that the runner gave up on

  /** Task ids are row ids, never zero; keys are fresh UUIDs. */
  predicate Enabled(s: Sys, e: Event) {
    match e
    case Enqueue(t) => t.id != 0
    case RequestLost(err) => s.reply.None? && !err.Response?
    case RequestDelayed(err) => s.reply.None? && !err.Response?
    case RequestServed => s.reply.None?
    case ReplyLost(err) => s.reply.Some? && !err.Response?
    case ReplyArrives(newKey) => s.reply.Some? && newKey !in s.used
    case LateServed(i) => i < |s.late|
  }

  /** The task that the reply in flight carries, if any. */
  function InFlight(s: Sys): seq<Task> {
    if s.reply.Some? && Received(s.reply.value).Some? then [Received(s.reply.value).value] else []
  }

  /** The task recorded under a key. */
  function AssignedTo(f: Forge, key: Key): seq<Task> {
    if key in f.assignments then [f.assignments[key]] else []
  }

  /**
   The task that a step puts out of reach.  At a forge without replay: the task of a lost reply, or of
   a late request.  At a replaying forge: the task of a late request under a key that the runner has
   replaced, or one recorded under the current key when an empty reply replaces that key.
   */
  function StrandedBy(s: Sys, e: Event): seq<Task>
    requires Enabled(s, e)
  {
    match e
    case ReplyLost(_) => if s.forge.replays then [] else InFlight(s)
    case ReplyArrives(_) =>
      if s.forge.replays && InFlight(s) == [] then AssignedTo(s.forge, s.worker.requestKey) else []
    case LateServed(i) =>
      var t := Picked(s.forge, s.late[i].key, s.late[i].cursor);
      if t.Some? && !(s.forge.replays && s.late[i].key == s.worker.requestKey) then [t.value] else []
    case _ => []
  }

  function Step(s: Sys, e: Event): Sys
    requires Enabled(s, e)
  {
    var next := s.(stranded := s.stranded + StrandedBy(s, e));
    match e
    case Enqueue(t) =>
      next.(forge := s.forge.(queue := s.forge.queue + [t], version := s.forge.version + 1),
            enqueued := s.enqueued + [t])
    case RequestLost(err) => next.(worker := AfterRound(s.worker, err, s.worker.requestKey))
    case RequestDelayed(err) =>
      next.(worker := AfterRound(s.worker, err, s.worker.requestKey),
            late := s.late + [Request(s.worker.requestKey, s.worker.tasksVersion)])
    case RequestServed =>
      var (f, r) := Serve(s.forge, s.worker.requestKey, s.worker.tasksVersion);
      next.(forge := f, reply := Some(r))
    case ReplyLost(err) =>
      next.(worker := AfterRound(s.worker, err, s.worker.requestKey), reply := None)
    case ReplyArrives(newKey) =>
      next.(worker := AfterRound(s.worker, s.reply.value, newKey), reply := None, used := s.used + {newKey},
            delivered := s.delivered + InFlight(s))
    case LateServed(i) =>
      next.(forge := Serve(s.forge, s.late[i].key, s.late[i].cursor).0, late := s.late[..i] + s.late[i + 1..])
  }

  ghost predicate IsRun(s: Sys, es: seq<Event>)
    decreases |es|
  {
    es == [] || (Enabled(s, es[0]) && IsRun(Step(s, es[0]), es[1..]))
  }

  ghost function Exec(s: Sys, es: seq<Event>): Sys
    requires IsRun(s, es)
    decreases |es|
  {
    if es == [] then s else Exec(Step(s, es[0]), es[1..])
  }

  /** A fresh Run against a forge that may already hold work. */
  predicate Init(s: Sys) {
    && s.worker == Worker(0, s.worker.requestKey, 0, 0)
    && s.used == {s.worker.requestKey}
    && s.reply == None && s.late == []
    && s.forge.assignments == map[]
    && s.enqueued == s.forge.queue
    && (s.forge.queue != [] ==> s.forge.version > 0)
    && (forall t <- s.forge.queue :: t.id != 0)
    && s.delivered == [] && s.stranded == []
  }

  // ---------------------------------------------------------------- the cursor never latches

  /** Holds of both forge variants and of runs with any losses and delays. */
  ghost predicate CursorInv(s: Sys) {
    && 0 <= s.worker.tasksVersion <= s.forge.version
    && (s.worker.tasksVersion == s.forge.version ==> s.forge.queue == [])
    && (s.forge.version == 0 ==> s.enqueued == [] && s.forge.queue == [] && s.forge.assignments == map[])
    && (forall t <- s.forge.queue :: t.id != 0)
    && (forall k <- s.forge.assignments :: s.forge.assignments[k].id != 0)
    && (s.reply.Some? ==>
          var r := s.reply.value;
          && r.Response?
          && s.worker.tasksVersion <= r.version <= s.forge.version
          && (r.task.Some? ==> r.task.value.id != 0 && s.forge.version > 0)
          && (r.task.None? && r.version == s.forge.version ==> s.forge.queue == []))
  }

  lemma {:induction false} CursorStep(s: Sys, e: Event)
    requires CursorInv(s) && Enabled(s, e)
    ensures CursorInv(Step(s, e))
  {
  }

  lemma {:induction false} CursorRun(s: Sys, es: seq<Event>)
    requires CursorInv(s) && IsRun(s, es)
    ensures CursorInv(Exec(s, es))
    decreases |es|
  {
    hide CursorInv;
    if es != [] {
      CursorStep(s, es[0]);
      CursorRun(Step(s, es[0]), es[1..]);
    }
  }

  /** In every reachable state, a cursor equal to the forge's version means an empty queue. */
  lemma {:induction false} CursorNeverLatches(s: Sys, es: seq<Event>)
    requires Init(s) && IsRun(s, es)
    ensures
      var s' := Exec(s, es);
      s'.worker.tasksVersion == s'.forge.version ==> s'.forge.queue == []
  {
    CursorRun(s, es);
  }

  /** An empty reply served at the forge's current version brings the cursor up to it. */
  lemma {:induction false} CursorCatchesUp(s: Sys, es: seq<Event>, newKey: Key)
    requires Init(s) && IsRun(s, es) && Enabled(Exec(s, es), ReplyArrives(newKey))
    requires Exec(s, es).reply.value.Response? && InFlight(Exec(s, es)) == []
    requires Exec(s, es).reply.value.version == Exec(s, es).forge.version
    ensures
      var s' := Step(Exec(s, es), ReplyArrives(newKey));
      s'.worker.tasksVersion == s'.forge.version && s'.worker.requestKey == newKey
  {
    CursorRun(s, es);
  }

  // ---------------------------------------------------------------- subsequences

  /** a is a subsequence of b. */
  predicate IsSubsequence(a: seq<Task>, b: seq<Task>)
    decreases |b|
  {
    if a == [] then true
    else if b == [] then false
    else
      var i, j := |a| - 1, |b| - 1;
      (a[i] == b[j] && IsSubsequence(a[..i], b[..j])) || IsSubsequence(a, b[..j])
  }

  lemma {:induction false} SubsequenceSnoc(a: seq<Task>, b: seq<Task>, t: Task)
    requires IsSubsequence(a, b)
    ensures IsSubsequence(a, b + [t]) && IsSubsequence(a + [t], b + [t])
  {
    assert (b + [t])[..|b|] == b && (a + [t])[..|a|] == a;
  }

  lemma {:induction false} SubsequenceCases(a: seq<Task>, b: seq<Task>)
    requires a != [] && IsSubsequence(a, b)
    ensures b != []
    ensures
      var i, j := |a| - 1, |b| - 1;
      (a[i] == b[j] && IsSubsequence(a[..i], b[..j])) || IsSubsequence(a, b[..j])
  {
  }

  lemma {:induction false} SubsequencePrefix(a: seq<Task>, b: seq<Task>)
    requires a != [] && IsSubsequence(a, b)
    ensures IsSubsequence(a[..|a| - 1], b)
    decreases |b|
  {
    hide IsSubsequence;
    SubsequenceCases(a, b);
    var i, j := |a| - 1, |b| - 1;
    if IsSubsequence(a, b[..j]) {
      SubsequencePrefix(a, b[..j]);
    }
    SubsequenceSnoc(a[..i], b[..j], b[j]);
    assert b[..j] + [b[j]] == b;
  }

  lemma {:induction false} SubsequenceIn(a: seq<Task>, b: seq<Task>, t: Task)
    requires IsSubsequence(a, b) && t in a
    ensures t in b
    decreases |b|
  {
    var i, j := |a| - 1, |b| - 1;
    if IsSubsequence(a, b[..j]) {
      SubsequenceIn(a, b[..j], t);
    } else if t != a[i] {
      assert a == a[..i] + [a[i]];
      SubsequenceIn(a[..i], b[..j], t);
    }
  }

  ghost predicate Distinct(ts: seq<Task>) {
    forall i, j :: 0 <= i < j < |ts| ==> ts[i] != ts[j]
  }

  lemma {:induction false} SubsequenceDistinct(a: seq<Task>, b: seq<Task>)
    requires IsSubsequence(a, b) && Distinct(b)
    ensures Distinct(a)
    decreases |b|
  {
    if a != [] {
      var i, j := |a| - 1, |b| - 1;
      if IsSubsequence(a, b[..j]) {
        SubsequenceDistinct(a, b[..j]);
      } else {
        SubsequenceDistinct(a[..i], b[..j]);
        forall k | 0 <= k < i ensures a[k] != a[i] {
          assert a[k] == a[..i][k];
          SubsequenceIn(a[..i], b[..j], a[k]);
        }
      }
    }
  }

  lemma {:induction false} SubsequenceWhole(a: seq<Task>, b: seq<Task>)
    requires IsSubsequence(a, b)
    ensures |a| <= |b| && (|a| == |b| ==> a == b)
    decreases |b|
  {
    if a != [] {
      var i, j := |a| - 1, |b| - 1;
      if IsSubsequence(a, b[..j]) {
        SubsequenceWhole(a, b[..j]);
      } else {
        SubsequenceWhole(a[..i], b[..j]);
        assert a == a[..i] + [a[i]] && b == b[..j] + [b[j]];
      }
    }
  }

  // ---------------------------------------------------------------- where every task is

  /** The tasks that have left the forge's queue. */
  ghost function HandedOut(s: Sys): seq<Task>
    requires |s.forge.queue| <= |s.enqueued|
  {
    s.enqueued[..|s.enqueued| - |s.forge.queue|]
  }

  /** The task handed out that the runner will get next: recorded under its key, or in the reply in flight. */
  ghost function Undelivered(s: Sys): (u: seq<Task>)
    ensures |u| <= 1
  {
    if s.forge.replays then AssignedTo(s.forge, s.worker.requestKey) else InFlight(s)
  }

  ghost predicate KeysInv(s: Sys) {
    && s.worker.requestKey in s.used
    && (forall r <- s.late :: r.key in s.used)
    && s.forge.assignments.Keys <= s.used
    && (!s.forge.replays ==> s.forge.assignments == map[])
    && (s.reply.Some? ==> InFlight(s) == [] || InFlight(s) == Undelivered(s))
  }

  /** What left the queue is what the runner got or will get, in queue order, and what is stranded. */
  ghost predicate Account(h: seq<Task>, got: seq<Task>, stranded: seq<Task>) {
    IsSubsequence(got, h) && multiset(h) == multiset(got) + multiset(stranded)
  }

  /** Every task handed out is delivered, about to be, or stranded; the first two in queue order. */
  ghost predicate AccountInv(s: Sys) {
    && |s.forge.queue| <= |s.enqueued|
    && s.enqueued == HandedOut(s) + s.forge.queue
    && Account(HandedOut(s), s.delivered + Undelivered(s), s.stranded)
  }

  ghost predicate DeliveryInv(s: Sys) {
    KeysInv(s) && AccountInv(s)
  }

  lemma {:induction false} KeysStep(s: Sys, e: Event)
    requires CursorInv(s) && KeysInv(s) && Enabled(s, e)
    ensures KeysInv(Step(s, e))
  {
    var s' := Step(s, e);
    forall r <- s'.late ensures r.key in s'.used {
      assert r in s.late || r.key == s.worker.requestKey;
    }
  }

  /** What the runner has got or will get next. */
  ghost function Got(s: Sys): seq<Task> {
    s.delivered + Undelivered(s)
  }

  /** How a step moves tasks: nothing, a new task, one off the queue, or one from reach to its end. */
  ghost predicate Moves(s: Sys, s': Sys, picked: seq<Task>) {
    && |picked| <= |s.forge.queue| && |picked| <= 1 && picked == s.forge.queue[..|picked|]
    && s'.forge.queue == s.forge.queue[|picked|..] && s'.enqueued == s.enqueued
    && (|| (Got(s') == Got(s) + picked && s'.stranded == s.stranded)
        || (Got(s') == Got(s) && s'.stranded == s.stranded + picked)
        || (picked == [] && Got(s') == s.delivered && s'.stranded == s.stranded + Undelivered(s)))
  }

  lemma {:induction false} ServedMoves(s: Sys)
    requires CursorInv(s) && KeysInv(s) && s.reply.None?
    ensures
      var t := Picked(s.forge, s.worker.requestKey, s.worker.tasksVersion);
      Moves(s, Step(s, RequestServed), if t.Some? then [t.value] else [])
  {
  }

  lemma {:induction false} LateMoves(s: Sys, i: nat)
    requires CursorInv(s) && KeysInv(s) && i < |s.late|
    ensures
      var t := Picked(s.forge, s.late[i].key, s.late[i].cursor);
      Moves(s, Step(s, LateServed(i)), if t.Some? then [t.value] else [])
  {
  }

  lemma {:induction false} ReplyMoves(s: Sys, e: Event)
    requires CursorInv(s) && KeysInv(s) && Enabled(s, e) && (e.ReplyArrives? || e.ReplyLost?)
    ensures Moves(s, Step(s, e), [])
  {
    var s' := Step(s, e);
    if e.ReplyArrives? {
      assert Undelivered(s') == [];
      assert s'.delivered + [] == s.delivered + InFlight(s);
    }
  }

  lemma {:induction false} LeaveQueue(all: seq<Task>, q: seq<Task>, n: nat)
    requires q != [] && n + |q| == |all| && all == all[..n] + q
    ensures all[..n + 1] == all[..n] + [q[0]] && all == all[..n + 1] + q[1..]
  {
    assert all[n] == q[0];
  }

  lemma {:induction false} AccountPicked(h: seq<Task>, got: seq<Task>, stranded: seq<Task>, t: Task)
    requires Account(h, got, stranded)
    ensures Account(h + [t], got + [t], stranded) && Account(h + [t], got, stranded + [t])
  {
    hide IsSubsequence;
    SubsequenceSnoc(got, h, t);
  }

  lemma {:induction false} AccountStranded(h: seq<Task>, d: seq<Task>, u: seq<Task>, stranded: seq<Task>)
    requires Account(h, d + u, stranded) && |u| <= 1
    ensures Account(h, d, stranded + u)
  {
    hide IsSubsequence;
    if u == [] {
      assert d + u == d && stranded + u == stranded;
    } else {
      SubsequencePrefix(d + u, h);
      assert (d + u)[..|d + u| - 1] == d;
    }
  }

  lemma {:induction false} MovesKeepAccount(s: Sys, s': Sys, picked: seq<Task>)
    requires AccountInv(s) && Moves(s, s', picked)
    ensures AccountInv(s')
  {
    hide Account, Undelivered;
    var h := HandedOut(s);
    if picked != [] {
      LeaveQueue(s.enqueued, s.forge.queue, |h|);
      assert picked == [s.forge.queue[0]] && HandedOut(s') == h + picked;
      AccountPicked(h, Got(s), s.stranded, picked[0]);
    } else {
      assert HandedOut(s') == h;
      assert Got(s) + [] == Got(s) && s.stranded + [] == s.stranded;
      AccountStranded(h, s.delivered, Undelivered(s), s.stranded);
    }
  }

  /** Every step, with any losses and delays and either kind of forge, keeps account of every task. */
  lemma {:induction false} DeliveryStep(s: Sys, e: Event)
    requires CursorInv(s) && DeliveryInv(s) && Enabled(s, e)
    ensures DeliveryInv(Step(s, e))
  {
    KeysStep(s, e);
    AccountStep(s, e);
    hide KeysInv, AccountInv;
  }

  lemma {:induction false} AccountStep(s: Sys, e: Event)
    requires CursorInv(s) && KeysInv(s) && AccountInv(s) && Enabled(s, e)
    ensures AccountInv(Step(s, e))
  {
    hide AccountInv, Moves;
    var s' := Step(s, e);
    match e
    case Enqueue(t) => EnqueueAccount(s, t);
    case RequestLost(_) => SameAccount(s, s');
    case RequestDelayed(_) => SameAccount(s, s');
    case RequestServed =>
      var t := Picked(s.forge, s.worker.requestKey, s.worker.tasksVersion);
      ServedMoves(s);
      MovesKeepAccount(s, s', if t.Some? then [t.value] else []);
    case LateServed(i) =>
      var t := Picked(s.forge, s.late[i].key, s.late[i].cursor);
      LateMoves(s, i);
      MovesKeepAccount(s, s', if t.Some? then [t.value] else []);
    case ReplyLost(_) =>
      ReplyMoves(s, e);
      MovesKeepAccount(s, s', []);
    case ReplyArrives(_) =>
      ReplyMoves(s, e);
      MovesKeepAccount(s, s', []);
  }

  lemma {:induction false} EnqueueAccount(s: Sys, t: Task)
    requires AccountInv(s) && t.id != 0
    ensures AccountInv(Step(s, Enqueue(t)))
  {
    hide Account;
    var s' := Step(s, Enqueue(t));
    assert HandedOut(s') == HandedOut(s) && Undelivered(s') == Undelivered(s);
    assert s'.enqueued == HandedOut(s) + (s.forge.queue + [t]);
    assert s'.stranded == s.stranded + [] == s.stranded;
  }

  lemma {:induction false} SameAccount(s: Sys, s': Sys)
    requires AccountInv(s) && s'.forge == s.forge && s'.enqueued == s.enqueued && s'.delivered == s.delivered
    requires s'.stranded == s.stranded && Undelivered(s') == Undelivered(s)
    ensures AccountInv(s')
  {
    hide Account, Undelivered;
  }

  lemma {:induction false} DeliveryRun(s: Sys, es: seq<Event>)
    requires CursorInv(s) && DeliveryInv(s) && IsRun(s, es)
    ensures CursorInv(Exec(s, es)) && DeliveryInv(Exec(s, es)) && Exec(s, es).forge.replays == s.forge.replays
    decreases |es|
  {
    hide CursorInv, DeliveryInv;
    if es != [] {
      CursorStep(s, es[0]);
      DeliveryStep(s, es[0]);
      assert Step(s, es[0]).forge.replays == s.forge.replays;
      DeliveryRun(Step(s, es[0]), es[1..]);
    }
  }

  lemma {:induction false} InitInv(s: Sys)
    requires Init(s)
    ensures CursorInv(s) && DeliveryInv(s)
  {
  }

  lemma {:induction false} Reachable(s: Sys, es: seq<Event>)
    requires Init(s) && IsRun(s, es)
    ensures CursorInv(Exec(s, es)) && DeliveryInv(Exec(s, es)) && Exec(s, es).forge.replays == s.forge.replays
  {
    hide CursorInv, DeliveryInv, Exec, IsRun;
    InitInv(s);
    DeliveryRun(s, es);
  }

  // ---------------------------------------------------------------- the results

  /**
   In every run, with either kind of forge and any losses and delays: the queue is a suffix of what
   was enqueued; of the rest, the delivered tasks and the one about to be are a subsequence, and
   everything else is stranded.
   */
  lemma {:induction false} DeliveredInOrder(s: Sys, es: seq<Event>)
    requires Init(s) && IsRun(s, es)
    ensures AccountInv(Exec(s, es))
  {
    Reachable(s, es);
  }

  /** While nothing is stranded, the tasks enqueued are the delivered ones, at most one about to be, and the queue. */
  lemma {:induction false} DeliveredExactlyOnceInOrder(s: Sys, es: seq<Event>)
    requires Init(s) && IsRun(s, es) && Exec(s, es).stranded == []
    ensures
      var s' := Exec(s, es);
      s'.enqueued == s'.delivered + Undelivered(s') + s'.forge.queue
  {
    hide IsRun, Exec, IsSubsequence;
    Reachable(s, es);
    var s' := Exec(s, es);
    var got, h := s'.delivered + Undelivered(s'), HandedOut(s');
    SubsequenceWhole(got, h);
    assert |multiset(got)| == |got| && |multiset(h)| == |h|;
  }

  /** In every run, with either kind of forge and any losses and delays, distinct tasks are delivered at most once. */
  lemma {:induction false} DeliveredAtMostOnce(s: Sys, es: seq<Event>)
    requires Init(s) && IsRun(s, es) && Distinct(Exec(s, es).enqueued)
    ensures Distinct(Exec(s, es).delivered)
  {
    hide Exec, IsRun, IsSubsequence, Undelivered;
    Reachable(s, es);
    var s' := Exec(s, es);
    var got := s'.delivered + Undelivered(s');
    SubsequenceDistinct(got, HandedOut(s'));
    assert forall i :: 0 <= i < |s'.delivered| ==> s'.delivered[i] == got[i];
  }

  /**
   In every reachable state, with any losses and delays, a served request gets the head of the queue,
   and gets nothing exactly when the queue is empty - unless a replaying forge has a task under its
   key, which then comes first.
   */
  lemma {:induction false} ServedRequestGetsHead(s: Sys, es: seq<Event>)
    requires Init(s) && IsRun(s, es)
    ensures
      var s' := Exec(s, es);
      s'.reply.None? ==>
        Received(Serve(s'.forge, s'.worker.requestKey, s'.worker.tasksVersion).1) ==
        if Undelivered(s') != [] then Some(Undelivered(s')[0])
        else if s'.forge.queue != [] then Some(s'.forge.queue[0])
        else None
  {
    Reachable(s, es);
  }

  /** While nothing is stranded, that is the oldest undelivered task, and nothing exactly when all are delivered. */
  lemma {:induction false} ServedRequestGetsOldest(s: Sys, es: seq<Event>)
    requires Init(s) && IsRun(s, es) && Exec(s, es).stranded == []
    ensures
      var s' := Exec(s, es);
      s'.reply.None? ==>
        && |s'.delivered| <= |s'.enqueued|
        && Received(Serve(s'.forge, s'.worker.requestKey, s'.worker.tasksVersion).1)
           == if |s'.delivered| == |s'.enqueued| then None else Some(s'.enqueued[|s'.delivered|])
  {
    hide IsRun, Exec;
    ServedRequestGetsHead(s, es);
    DeliveredExactlyOnceInOrder(s, es);
  }

  // ---------------------------------------------------------------- stranded tasks

  lemma {:induction false} StrandedStays(s: Sys, es: seq<Event>)
    requires IsRun(s, es)
    ensures s.stranded <= Exec(s, es).stranded
    decreases |es|
  {
    if es != [] {
      StrandedStays(Step(s, es[0]), es[1..]);
    }
  }

  /** With distinct tasks, none is both stranded and delivered. */
  lemma {:induction false} StrandedApart(s: Sys, t: Task)
    requires AccountInv(s) && Distinct(s.enqueued) && t in s.stranded
    ensures t !in s.delivered && t !in Undelivered(s) && t in HandedOut(s)
  {
    hide IsSubsequence, Undelivered;
    var got, h := s.delivered + Undelivered(s), HandedOut(s);
    OnceEach(s.enqueued, |h|, t);
    assert multiset(h)[t] == multiset(got)[t] + multiset(s.stranded)[t];
    assert t in multiset(s.stranded);
    assert t in got <==> t in multiset(got);
    assert t in s.delivered ==> t in got;
    assert t in Undelivered(s) ==> t in got;
    assert t in h <==> t in multiset(h);
  }

  lemma {:induction false} OnceEach(ts: seq<Task>, n: nat, t: Task)
    requires Distinct(ts) && n <= |ts|
    ensures multiset(ts[..n])[t] <= 1
    decreases n
  {
    if n > 0 {
      OnceEach(ts, n - 1, t);
      assert ts[..n] == ts[..n - 1] + [ts[n - 1]];
      if t == ts[n - 1] {
        assert forall i :: 0 <= i < n - 1 ==> ts[..n - 1][i] == ts[i] != t;
        assert t !in ts[..n - 1];
        assert t !in multiset(ts[..n - 1]);
      }
    }
  }

  /** A continuation in which the runner gets t, without the forge enqueueing anything twice. */
  ghost predicate Delivers(s: Sys, later: seq<Event>, t: Task) {
    IsRun(s, later) && Distinct(Exec(s, later).enqueued) && t in Exec(s, later).delivered
  }

  lemma {:induction false} StrandedNeverDelivered(s: Sys, later: seq<Event>, t: Task)
    requires CursorInv(s) && DeliveryInv(s) && t in s.stranded
    ensures !Delivers(s, later, t)
  {
    hide CursorInv, Distinct, AccountInv, KeysInv;
    if IsRun(s, later) && Distinct(Exec(s, later).enqueued) {
      StrandedStays(s, later);
      DeliveryRun(s, later);
      StrandedApart(Exec(s, later), t);
    }
  }

  lemma {:induction false} UnusedKey(used: set<Key>) returns (k: Key)
    ensures forall u <- used :: u < k
    decreases |used|
  {
    if used == {} {
      k := 0;
    } else {
      var u :| u in used;
      var least := UnusedKey(used - {u});
      k := if least <= u then u + 1 else least;
      forall v <- used ensures v < k {
        assert v == u || v in used - {u};
      }
    }
  }

  lemma {:induction false} Chain(s: Sys, e: Event, es: seq<Event>)
    requires Enabled(s, e) && IsRun(Step(s, e), es)
    ensures IsRun(s, [e] + es) && Exec(s, [e] + es) == Exec(Step(s, e), es)
  {
    assert ([e] + es)[1..] == es;
  }

  lemma {:induction false} NoEvents(s: Sys)
    ensures IsRun(s, []) && Exec(s, []) == s
  {
  }

  /** The reply in flight carries the task: it only has to arrive. */
  lemma {:induction false} ArrivalDelivers(s: Sys, t: Task) returns (later: seq<Event>)
    requires InFlight(s) == [t] && Distinct(s.enqueued)
    ensures Delivers(s, later, t) && forall e <- later :: !e.Enqueue?
  {
    var k := UnusedKey(s.used);
    var s' := Step(s, ReplyArrives(k));
    NoEvents(s');
    Chain(s, ReplyArrives(k), []);
    later := [ReplyArrives(k)] + [];
    assert s'.delivered[|s.delivered|] == t;
  }

  /** A task about to be delivered can be: the request is made again if need be, and its reply arrives. */
  lemma {:induction false} UndeliveredReachable(s: Sys, t: Task) returns (later: seq<Event>)
    requires CursorInv(s) && KeysInv(s) && Distinct(s.enqueued) && Undelivered(s) == [t]
    ensures Delivers(s, later, t)
  {
    if InFlight(s) != [] {
      later := ArrivalDelivers(s, t);
    } else if s.reply.None? {
      var m := Step(s, RequestServed);
      later := ArrivalDelivers(m, t);
      Chain(s, RequestServed, later);
      later := [RequestServed] + later;
    } else {
      var l := Step(s, ReplyLost(Failed));
      var m := Step(l, RequestServed);
      later := ArrivalDelivers(m, t);
      Chain(l, RequestServed, later);
      Chain(s, ReplyLost(Failed), [RequestServed] + later);
      later := [ReplyLost(Failed)] + ([RequestServed] + later);
    }
  }

  lemma {:induction false} NotStrandedIsThere(s: Sys, t: Task)
    requires AccountInv(s) && t in HandedOut(s) && t !in s.stranded
    ensures t in s.delivered || Undelivered(s) == [t]
  {
    hide IsSubsequence, Undelivered;
    var got, h := s.delivered + Undelivered(s), HandedOut(s);
    assert t in multiset(h);
    assert t !in multiset(s.stranded);
    assert t in multiset(got) && t in got;
  }

  /**
   In every reachable state, a task that has left the queue can still reach the runner, or has,
   exactly when it is not stranded.
   */
  lemma {:induction false} StrandedExactly(s: Sys, es: seq<Event>, t: Task)
    requires Init(s) && IsRun(s, es) && Distinct(Exec(s, es).enqueued)
    requires t in Exec(s, es).enqueued && t !in Exec(s, es).forge.queue
    ensures (exists later :: Delivers(Exec(s, es), later, t)) <==> t !in Exec(s, es).stranded
  {
    hide IsRun, Exec, CursorInv, KeysInv, Distinct;
    Reachable(s, es);
    var m := Exec(s, es);
    if t in m.stranded {
      forall later ensures !Delivers(m, later, t) {
        StrandedNeverDelivered(m, later, t);
      }
    } else {
      NotStrandedIsThere(m, t);
      if t in m.delivered {
        NoEvents(m);
        assert Delivers(m, [], t);
      } else {
        var later := UndeliveredReachable(m, t);
      }
    }
  }

  /** Without late requests a replaying forge strands nothing, whatever is lost. */
  lemma {:induction false} ReplayNeverStrands(s: Sys, es: seq<Event>)
    requires CursorInv(s) && KeysInv(s) && IsRun(s, es) && s.forge.replays
    requires s.late == [] && s.stranded == [] && (s.reply.Some? && InFlight(s) == [] ==> Undelivered(s) == [])
    requires forall e <- es :: !e.RequestDelayed?
    ensures Exec(s, es).stranded == []
    decreases |es|
  {
    if es != [] {
      assert es[0] in es;
      CursorStep(s, es[0]);
      KeysStep(s, es[0]);
      ReplayStep(s, es[0]);
      hide CursorInv, KeysInv, InFlight, Undelivered, Step;
      ReplayNeverStrands(Step(s, es[0]), es[1..]);
    }
  }

  lemma {:induction false} ReplayStep(s: Sys, e: Event)
    requires CursorInv(s) && KeysInv(s) && Enabled(s, e) && s.forge.replays && !e.RequestDelayed?
    requires s.late == [] && s.stranded == [] && (s.reply.Some? && InFlight(s) == [] ==> Undelivered(s) == [])
    ensures
      var s' := Step(s, e);
      && s'.forge.replays && s'.late == [] && s'.stranded == []
      && (s'.reply.Some? && InFlight(s') == [] ==> Undelivered(s') == [])
  {
  }

  /** Against a forge that replays by key, with any losses and no late request: exactly once, in order. */
  lemma {:induction false} ReplayDeliversAll(s: Sys, es: seq<Event>)
    requires Init(s) && IsRun(s, es) && s.forge.replays && forall e <- es :: !e.RequestDelayed?
    ensures
      var s' := Exec(s, es);
      s'.stranded == [] && s'.enqueued == s'.delivered + Undelivered(s') + s'.forge.queue
  {
    InitInv(s);
    ReplayNeverStrands(s, es);
    DeliveredExactlyOnceInOrder(s, es);
  }

  /**
   Without replay, every lost reply loses its task for good, however many were lost before: whatever
   happens afterwards, short of the forge enqueueing it again, the runner never receives it.
   */
  lemma {:induction false} LostReplyLosesTask(s: Sys, es: seq<Event>, error: Outcome, later: seq<Event>, t: Task)
    requires Init(s) && IsRun(s, es) && !s.forge.replays
    requires Enabled(Exec(s, es), ReplyLost(error)) && InFlight(Exec(s, es)) == [t]
    ensures t in Exec(s, es).enqueued && !Delivers(Step(Exec(s, es), ReplyLost(error)), later, t)
  {
    hide IsRun, Exec, CursorInv, IsSubsequence;
    Reachable(s, es);
    var m := Exec(s, es);
    var m' := Step(m, ReplyLost(error));
    CursorStep(m, ReplyLost(error));
    DeliveryStep(m, ReplyLost(error));
    assert m'.stranded[|m.stranded|] == t;
    SubsequenceIn(m.delivered + Undelivered(m), HandedOut(m), t);
    StrandedNeverDelivered(m', later, t);
  }

  /** A late request under a replaced key strands a task even at a forge that replays. */
  lemma {:induction false} LateRequestStrands(s: Sys, t: Task) returns (es: seq<Event>)
    requires Init(s) && s.forge.replays && s.forge.queue == [] && t.id != 0
    ensures IsRun(s, es) && Exec(s, es).stranded == [t]
  {
    var k := UnusedKey(s.used);
    var s1 := Step(s, RequestDelayed(Failed));
    var s2 := Step(s1, RequestServed);
    var s3 := Step(s2, ReplyArrives(k));
    var s4 := Step(s3, Enqueue(t));
    var s5 := Step(s4, LateServed(0));
    assert s4.late == [Request(s.worker.requestKey, 0)] && s4.worker.requestKey == k;
    assert s5.stranded == [t];
    NoEvents(s5);
    Chain(s4, LateServed(0), []);
    Chain(s3, Enqueue(t), [LateServed(0)] + []);
    es := [Enqueue(t)] + ([LateServed(0)] + []);
    Chain(s2, ReplyArrives(k), es);
    es := [ReplyArrives(k)] + es;
    Chain(s1, RequestServed, es);
    es := [RequestServed] + es;
    Chain(s, RequestDelayed(Failed), es);
    es := [RequestDelayed(Failed)] + es;
  }
}
