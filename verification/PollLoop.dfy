/**
 The concurrency of Poller.Run and Poller.Shutdown (pkg/server/poller.go): the poll loop, the
 handler goroutines, the waiter goroutine of Shutdown and the contexts, as steps that each do one
 shared action (a semaphore, wait-group, counter or context operation) and interleave freely.
 */
module PollLoop {
  import opened Wrappers

  /** Tasks stand by their ids. */
  type Task = int

  datatype Config = Config(
    capacity: nat,
    ephemeral: bool,
    // whether a FetchTask call begun under a cancelled context always returns an error
    cancelledFetchErrs: bool)

  /** Where the goroutine of Run stands. */
  datatype Loop =
    | Acquiring
    | Holding
    | Fetching(doomed: bool)  // doomed: the polling context was done when the call began
    | Releasing
    | BackingOff
    | Adding(task: Task)         // before wg.Add(1)
    | Counting(task: Task)       // before inFlight.Add(1)
    | Spawning(task: Task)       // before the go statement
    | Dispatched
    | Returned
  {
    predicate HoldsSlot() {
      Holding? || Fetching? || Releasing? || Adding? || Counting? || Spawning?
    }

    function Pending(): seq<Task> {
      if Adding? || Counting? || Spawning? then [task] else []
    }
  }

  /**
   A handler goroutine.  Its stage: 0 before the body, 1 in the body, 2 before `<-p.sem`, 3 before
   `inFlight.Add(-1)`, 4 before `wg.Done()`, 5 gone.  `runs` counts body starts.
   */
  datatype Handler = Handler(task: Task, stage: nat, runs: nat)

  datatype Shutdown = NotCalled | Waiting | Forced | ReturnedNil | ReturnedErr

  /** The channel's occupancy, the wait group and the atomic counter. */
  datatype Counters = Counters(sem: int, wg: int, inFlight: int)

  datatype Contexts = Contexts(
    parentDone: bool,    // Run's context
    pollDone: bool,      // its child that stopPoll cancels
    jobsDone: bool,      // its child that stopJobs cancels
    interrupted: bool)   // jobsDone became true while some body had not finished

  datatype Draining = Draining(
    phase: Shutdown,
    afterRun: bool,      // Shutdown was called after Run returned
    seenZero: bool)      // the waiter saw the wait group at zero and closed `done`

  datatype Sys = Sys(
    loop: Loop,
    handlers: seq<Handler>,
    received: seq<Task>, // every task FetchTask returned, in order
    n: Counters,
    ctx: Contexts,
    shut: Draining)

  /** A step of the goroutine of Run. */
  datatype LoopEvent =
    | Acquire
    | StopAtAcquire
    | FetchBegin
    | FetchReturn(task: Option<Task>)
    | Release
    | BackoffElapsed
    | StopAtBackoff
    | WgAdd
    | InFlightAdd
    | Spawn
    | NextRound

  /** A step of Shutdown, of its waiter goroutine, or of the owner of Run's context. */
  datatype ControlEvent =
    | CancelParent
    | CallShutdown
    | WaiterSeesZero
    | DrainObserved
    | DrainExpires
    | ForcedReturn

  datatype Event =
    | Poll(l: LoopEvent)
    | Advance(handler: nat)  // a handler goroutine takes its next step
    | Control(k: ControlEvent)

  predicate LoopEnabled(c: Config, s: Sys, e: LoopEvent) {
    match e
    case Acquire => s.loop.Acquiring? && s.n.sem < c.capacity
    case StopAtAcquire => s.loop.Acquiring? && s.ctx.pollDone
    case FetchBegin => s.loop.Holding?
    case FetchReturn(t) => s.loop.Fetching? && (c.cancelledFetchErrs && s.loop.doomed ==> t.None?)
    case Release => s.loop.Releasing?
    case BackoffElapsed => s.loop.BackingOff?
    case StopAtBackoff => s.loop.BackingOff? && s.ctx.pollDone
    case WgAdd => s.loop.Adding?
    case InFlightAdd => s.loop.Counting?
    case Spawn => s.loop.Spawning?
    case NextRound => s.loop.Dispatched?
  }

  predicate ControlEnabled(s: Sys, e: ControlEvent) {
    match e
    case CancelParent => true
    case CallShutdown => s.shut.phase.NotCalled?
    case WaiterSeesZero => !s.shut.phase.NotCalled? && s.n.wg == 0
    case DrainObserved => s.shut.phase.Waiting? && s.shut.seenZero
    case DrainExpires => s.shut.phase.Waiting? && !s.shut.seenZero
    case ForcedReturn => s.shut.phase.Forced? && s.shut.seenZero
  }

  predicate Enabled(c: Config, s: Sys, e: Event) {
    match e
    case Poll(l) => LoopEnabled(c, s, l)
    case Advance(i) => i < |s.handlers| && s.handlers[i].stage < 5
    case Control(k) => ControlEnabled(s, k)
  }

  predicate BodyPending(hs: seq<Handler>) {
    exists h <- hs :: h.stage < 2
  }

  function CancelJobs(s: Sys): Contexts {
    s.ctx.(jobsDone := true, interrupted := s.ctx.interrupted || (!s.ctx.jobsDone && BodyPending(s.handlers)))
  }

  /** One step of a handler goroutine: begin, end, then the three deferred calls, last first. */
  function AdvanceHandler(s: Sys, i: nat): Sys
    requires i < |s.handlers|
  {
    var h := s.handlers[i];
    var h' := h.(stage := h.stage + 1, runs := if h.stage == 0 then h.runs + 1 else h.runs);
    var n' :=
      if h.stage == 2 then s.n.(sem := s.n.sem - 1)
      else if h.stage == 3 then s.n.(inFlight := s.n.inFlight - 1)
      else if h.stage == 4 then s.n.(wg := s.n.wg - 1)
      else s.n;
    s.(handlers := s.handlers[i := h'], n := n')
  }

  function LoopStep(c: Config, s: Sys, e: LoopEvent): Sys
    requires LoopEnabled(c, s, e)
  {
    match e
    case Acquire => s.(loop := Holding, n := s.n.(sem := s.n.sem + 1))
    case StopAtAcquire => s.(loop := Returned, ctx := s.ctx.(pollDone := true))
    case FetchBegin => s.(loop := Fetching(s.ctx.pollDone))
    case FetchReturn(t) =>
      if t.Some? then s.(loop := Adding(t.value), received := s.received + [t.value]) else s.(loop := Releasing)
    case Release => s.(loop := BackingOff, n := s.n.(sem := s.n.sem - 1))
    case BackoffElapsed => s.(loop := Acquiring)
    case StopAtBackoff => s.(loop := Returned, ctx := s.ctx.(pollDone := true))
    case WgAdd => s.(loop := Counting(s.loop.task), n := s.n.(wg := s.n.wg + 1))
    case InFlightAdd => s.(loop := Spawning(s.loop.task), n := s.n.(inFlight := s.n.inFlight + 1))
    case Spawn => s.(loop := Dispatched, handlers := s.handlers + [Handler(s.loop.task, 0, 0)])
    case NextRound => s.(loop := Acquiring, ctx := s.ctx.(pollDone := s.ctx.pollDone || c.ephemeral))
  }

  function ControlStep(s: Sys, e: ControlEvent): Sys
    requires ControlEnabled(s, e)
  {
    match e
    case CancelParent => s.(ctx := CancelJobs(s).(parentDone := true, pollDone := true))
    case CallShutdown =>
      s.(ctx := s.ctx.(pollDone := true), shut := s.shut.(phase := Waiting, afterRun := s.loop.Returned?))
    case WaiterSeesZero => s.(shut := s.shut.(seenZero := true))
    case DrainObserved => s.(ctx := CancelJobs(s), shut := s.shut.(phase := ReturnedNil))
    case DrainExpires => s.(ctx := CancelJobs(s), shut := s.shut.(phase := Forced))
    case ForcedReturn => s.(ctx := CancelJobs(s), shut := s.shut.(phase := ReturnedErr))
  }

  function Step(c: Config, s: Sys, e: Event): Sys
    requires Enabled(c, s, e)
  {
    match e
    case Poll(l) => LoopStep(c, s, l)
    case Advance(i) => AdvanceHandler(s, i)
    case Control(k) => ControlStep(s, k)
  }

  ghost predicate IsRun(c: Config, s: Sys, es: seq<Event>)
    decreases |es|
  {
    es == [] || (Enabled(c, s, es[0]) && IsRun(c, Step(c, s, es[0]), es[1..]))
  }

  ghost function Exec(c: Config, s: Sys, es: seq<Event>): Sys
    requires IsRun(c, s, es)
    decreases |es|
  {
    if es == [] then s else Exec(c, Step(c, s, es[0]), es[1..])
  }

  function Start(): Sys {
    Sys(Acquiring, [], [], Counters(0, 0, 0), Contexts(false, false, false, false), Draining(NotCalled, false, false))
  }

  // ---------------------------------------------------------------- counting handlers

  /** How many handlers have not reached stage k. */
  function Below(hs: seq<Handler>, k: nat): nat {
    if hs == [] then 0
    else Below(hs[..|hs| - 1], k) + (if hs[|hs| - 1].stage < k then 1 else 0)
  }

  /** How many handler bodies are executing. */
  function Running(hs: seq<Handler>): nat {
    if hs == [] then 0
    else Running(hs[..|hs| - 1]) + (if hs[|hs| - 1].stage == 1 then 1 else 0)
  }

  lemma {:induction false} BelowUpdate(hs: seq<Handler>, i: nat, h: Handler, k: nat)
    requires i < |hs|
    ensures Below(hs[i := h], k) - (if h.stage < k then 1 else 0) == Below(hs, k) - (if hs[i].stage < k then 1 else 0)
    decreases |hs|
  {
    var n := |hs| - 1;
    if i == n {
      assert hs[i := h][..n] == hs[..n];
    } else {
      assert hs[i := h][..n] == hs[..n][i := h];
      BelowUpdate(hs[..n], i, h, k);
    }
  }

  lemma {:induction false} RunningBound(hs: seq<Handler>)
    ensures Running(hs) <= Below(hs, 3) <= Below(hs, 4) <= Below(hs, 5)
  {
    if hs != [] {
      RunningBound(hs[..|hs| - 1]);
    }
  }

  lemma {:induction false} BelowZero(hs: seq<Handler>, i: nat, k: nat)
    requires Below(hs, k) == 0 && i < |hs|
    ensures hs[i].stage >= k
  {
    if i < |hs| - 1 {
      BelowZero(hs[..|hs| - 1], i, k);
    }
  }

  // ---------------------------------------------------------------- slots and counters

  ghost predicate CountInv(c: Config, s: Sys) {
    && s.n.sem == Below(s.handlers, 3) + (if s.loop.HoldsSlot() then 1 else 0)
    && s.n.sem <= c.capacity
    && s.n.inFlight == Below(s.handlers, 4) + (if s.loop.Spawning? then 1 else 0)
    && s.n.wg == Below(s.handlers, 5) + (if s.loop.Counting? || s.loop.Spawning? then 1 else 0)
  }

  lemma {:induction false} CountAdvance(c: Config, s: Sys, i: nat)
    requires CountInv(c, s) && Enabled(c, s, Advance(i))
    ensures CountInv(c, AdvanceHandler(s, i))
  {
    var h' := AdvanceHandler(s, i).handlers[i];
    BelowUpdate(s.handlers, i, h', 3);
    BelowUpdate(s.handlers, i, h', 4);
    BelowUpdate(s.handlers, i, h', 5);
  }

  lemma {:induction false} CountLoop(c: Config, s: Sys, e: LoopEvent)
    requires CountInv(c, s) && LoopEnabled(c, s, e)
    ensures CountInv(c, LoopStep(c, s, e))
  {
    var s' := LoopStep(c, s, e);
    if e.Spawn? {
      assert s'.handlers[..|s'.handlers| - 1] == s.handlers;
    }
  }

  lemma {:induction false} CountStep(c: Config, s: Sys, e: Event)
    requires CountInv(c, s) && Enabled(c, s, e)
    ensures CountInv(c, Step(c, s, e))
  {
    match e
    case Poll(l) => CountLoop(c, s, l);
    case Advance(i) => CountAdvance(c, s, i);
    case Control(_) =>
  }

  // ---------------------------------------------------------------- dispatch and shutdown

  function Tasks(hs: seq<Handler>): (ts: seq<Task>)
    ensures |ts| == |hs| && forall i :: 0 <= i < |hs| ==> ts[i] == hs[i].task
  {
    seq(|hs|, i requires 0 <= i < |hs| => hs[i].task)
  }

  /** The body has started once, unless the goroutine has yet to start it. */
  predicate RanOnce(h: Handler) {
    h.stage <= 5 && h.runs == if h.stage == 0 then 0 else 1
  }

  ghost predicate DispatchInv(c: Config, s: Sys) {
    && s.received == Tasks(s.handlers) + s.loop.Pending()
    && (forall i :: 0 <= i < |s.handlers| ==> RanOnce(s.handlers[i]))
    && (c.ephemeral && c.cancelledFetchErrs ==>
          && |s.received| <= 1
          && (s.loop == Fetching(false) ==> s.received == [])
          && (s.received != [] && s.loop.Pending() == [] && !s.loop.Dispatched? ==> s.ctx.pollDone))
  }

  lemma {:induction false} DispatchLoop(c: Config, s: Sys, e: LoopEvent)
    requires DispatchInv(c, s) && LoopEnabled(c, s, e)
    ensures DispatchInv(c, LoopStep(c, s, e))
  {
    var s' := LoopStep(c, s, e);
    if e.Spawn? {
      assert Tasks(s'.handlers) == Tasks(s.handlers) + [s.loop.task];
    }
  }

  lemma {:induction false} DispatchStep(c: Config, s: Sys, e: Event)
    requires DispatchInv(c, s) && Enabled(c, s, e)
    ensures DispatchInv(c, Step(c, s, e))
  {
    match e
    case Poll(l) => DispatchLoop(c, s, l);
    case Advance(i) => assert Tasks(AdvanceHandler(s, i).handlers) == Tasks(s.handlers);
    case Control(_) =>
  }

  ghost predicate ShutdownInv(s: Sys) {
    && (s.shut.afterRun ==> s.loop.Returned? && !s.shut.phase.NotCalled?)
    && (s.shut.afterRun && s.shut.seenZero ==> Below(s.handlers, 5) == 0)
    && (s.shut.seenZero ==> !s.shut.phase.NotCalled?)
    && (s.shut.phase.ReturnedNil? || s.shut.phase.ReturnedErr? ==> s.shut.seenZero)
    && (s.ctx.jobsDone ==>
          s.ctx.parentDone || s.shut.phase.Forced? || s.shut.phase.ReturnedNil? || s.shut.phase.ReturnedErr?)
    && (s.ctx.interrupted && s.shut.afterRun ==> s.ctx.parentDone || s.shut.phase.Forced? || s.shut.phase.ReturnedErr?)
    && (s.ctx.interrupted && s.shut.phase.NotCalled? ==> s.ctx.parentDone)
    && (s.ctx.interrupted && s.shut.phase.Waiting? ==> s.ctx.parentDone)
  }

  lemma {:induction false} ShutdownAdvance(s: Sys, i: nat)
    requires ShutdownInv(s) && i < |s.handlers| && s.handlers[i].stage < 5
    ensures ShutdownInv(AdvanceHandler(s, i))
  {
    BelowUpdate(s.handlers, i, AdvanceHandler(s, i).handlers[i], 5);
    if Below(s.handlers, 5) == 0 {
      BelowZero(s.handlers, i, 5);
    }
  }

  lemma {:induction false} ShutdownControl(c: Config, s: Sys, e: ControlEvent)
    requires CountInv(c, s) && ShutdownInv(s) && ControlEnabled(s, e)
    ensures ShutdownInv(ControlStep(s, e))
  {
    if e.DrainObserved? && s.shut.afterRun {
      forall i | 0 <= i < |s.handlers| ensures s.handlers[i].stage >= 5 {
        BelowZero(s.handlers, i, 5);
      }
    }
  }

  lemma {:induction false} ShutdownStep(c: Config, s: Sys, e: Event)
    requires CountInv(c, s) && ShutdownInv(s) && Enabled(c, s, e)
    ensures ShutdownInv(Step(c, s, e))
  {
    match e
    case Poll(_) =>
    case Advance(i) => ShutdownAdvance(s, i);
    case Control(k) => ShutdownControl(c, s, k);
  }

  lemma {:induction false} RunInvariants(c: Config, s: Sys, es: seq<Event>)
    requires CountInv(c, s) && DispatchInv(c, s) && ShutdownInv(s) && IsRun(c, s, es)
    ensures CountInv(c, Exec(c, s, es)) && DispatchInv(c, Exec(c, s, es)) && ShutdownInv(Exec(c, s, es))
    decreases |es|
  {
    if es != [] {
      CountStep(c, s, es[0]);
      DispatchStep(c, s, es[0]);
      ShutdownStep(c, s, es[0]);
      RunInvariants(c, Step(c, s, es[0]), es[1..]);
    }
  }

  // ---------------------------------------------------------------- the results

  /**
   In every run the semaphore holds exactly the handlers' slots and the loop's, within capacity;
   the wait group bounds inFlight, which bounds the running bodies, which capacity bounds.
   */
  lemma {:induction false} CapacityRespected(c: Config, es: seq<Event>)
    requires IsRun(c, Start(), es)
    ensures
      var s := Exec(c, Start(), es);
      && s.n.sem == Below(s.handlers, 3) + (if s.loop.HoldsSlot() then 1 else 0) <= c.capacity
      && s.n.wg >= s.n.inFlight >= Running(s.handlers)
      && Running(s.handlers) <= c.capacity
  {
    RunInvariants(c, Start(), es);
    RunningBound(Exec(c, Start(), es).handlers);
  }

  /** Every received task gets one handler, in order, whose body starts at most once. */
  lemma {:induction false} EveryTaskHandledOnce(c: Config, es: seq<Event>)
    requires IsRun(c, Start(), es)
    ensures
      var s := Exec(c, Start(), es);
      && |s.received| == |s.handlers| + |s.loop.Pending()|
      && (forall i :: 0 <= i < |s.handlers| ==>
            s.handlers[i].task == s.received[i] && RanOnce(s.handlers[i]))
  {
    RunInvariants(c, Start(), es);
  }

  /** Ephemeral mode dispatches at most one task. */
  lemma {:induction false} EphemeralDispatchesOnce(c: Config, es: seq<Event>)
    requires c.ephemeral && c.cancelledFetchErrs
    requires IsRun(c, Start(), es)
    ensures |Exec(c, Start(), es).handlers| <= |Exec(c, Start(), es).received| <= 1
  {
    RunInvariants(c, Start(), es);
  }

  /**
   Shutdown called after Run returned comes back only when every received task's handler has run
   once and is gone.  Coming back with nil, it interrupted no body that Run's own context did not.
   */
  lemma {:induction false} ShutdownDrains(c: Config, es: seq<Event>)
    requires IsRun(c, Start(), es)
    requires Exec(c, Start(), es).shut.afterRun
    requires Exec(c, Start(), es).shut.phase in {ReturnedNil, ReturnedErr}
    ensures
      var s := Exec(c, Start(), es);
      && s.n.sem == 0 && s.n.inFlight == 0 && s.n.wg == 0
      && |s.handlers| == |s.received|
      && (forall i :: 0 <= i < |s.handlers| ==> s.handlers[i] == Handler(s.received[i], 5, 1))
      && (s.shut.phase.ReturnedNil? && s.ctx.interrupted ==> s.ctx.parentDone)
  {
    RunInvariants(c, Start(), es);
    var s := Exec(c, Start(), es);
    RunningBound(s.handlers);
    forall i | 0 <= i < |s.handlers| ensures s.handlers[i].stage == 5 {
      BelowZero(s.handlers, i, 5);
    }
  }

  /** Once Shutdown is called polling stops; once its wait is over, in whatever way, the handlers are cancelled. */
  ghost predicate CancelInv(s: Sys) {
    && (!s.shut.phase.NotCalled? ==> s.ctx.pollDone)
    && (s.shut.phase.Forced? || s.shut.phase.ReturnedNil? || s.shut.phase.ReturnedErr? ==> s.ctx.jobsDone)
    && (s.ctx.parentDone ==> s.ctx.pollDone && s.ctx.jobsDone)
  }

  lemma {:induction false} CancelRun(c: Config, s: Sys, es: seq<Event>)
    requires CancelInv(s) && IsRun(c, s, es)
    ensures CancelInv(Exec(c, s, es))
    decreases |es|
  {
    if es != [] {
      CancelRun(c, Step(c, s, es[0]), es[1..]);
    }
  }

  /**
   In every run: Shutdown stops polling; when its deadline passes before the handlers are done their
   context is cancelled, and it is always released by the time Shutdown comes back; and before that
   only the owner of Run's context cancels it.
   */
  lemma {:induction false} ShutdownCancels(c: Config, es: seq<Event>)
    requires IsRun(c, Start(), es)
    ensures
      var s := Exec(c, Start(), es);
      && (!s.shut.phase.NotCalled? ==> s.ctx.pollDone)
      && (s.shut.phase.Forced? || s.shut.phase.ReturnedNil? || s.shut.phase.ReturnedErr? ==> s.ctx.jobsDone)
      && (s.ctx.jobsDone && (s.shut.phase.NotCalled? || s.shut.phase.Waiting?) ==> s.ctx.parentDone)
  {
    CancelRun(c, Start(), es);
    RunInvariants(c, Start(), es);
  }

  /** Someone asked Run to stop: the owner of its context, Shutdown, or ephemeral mode after a task. */
  predicate ToldToStop(c: Config, s: Sys) {
    s.ctx.parentDone || !s.shut.phase.NotCalled? || (c.ephemeral && s.handlers != [])
  }

  ghost predicate StopInv(c: Config, s: Sys) {
    s.ctx.pollDone || s.loop.Returned? || (c.ephemeral && s.loop.Dispatched?) ==> ToldToStop(c, s)
  }

  lemma {:induction false} ToldStep(c: Config, s: Sys, e: Event)
    requires StopInv(c, s) && Enabled(c, s, e)
    ensures StopInv(c, Step(c, s, e))
  {
    hide BodyPending;
  }

  lemma {:induction false} ToldRun(c: Config, s: Sys, es: seq<Event>)
    requires StopInv(c, s) && IsRun(c, s, es)
    ensures StopInv(c, Exec(c, s, es))
    decreases |es|
  {
    if es != [] {
      ToldStep(c, s, es[0]);
      ToldRun(c, Step(c, s, es[0]), es[1..]);
    }
  }

  /** In every run, Run returns only when it was told to stop: no error and no empty reply makes it give up. */
  lemma {:induction false} StopsOnlyWhenTold(c: Config, es: seq<Event>)
    requires IsRun(c, Start(), es) && Exec(c, Start(), es).loop.Returned?
    ensures
      var s := Exec(c, Start(), es);
      s.ctx.parentDone || !s.shut.phase.NotCalled? || (c.ephemeral && s.handlers != [])
  {
    ToldRun(c, Start(), es);
  }

  // ---------------------------------------------------------------- building runs

  /** A run grows at its end. */
  lemma {:induction false} Extend(c: Config, s: Sys, es: seq<Event>, e: Event) returns (r: seq<Event>)
    requires IsRun(c, s, es) && Enabled(c, Exec(c, s, es), e)
    ensures IsRun(c, s, r) && r == es + [e] && Exec(c, s, r) == Step(c, Exec(c, s, es), e)
    decreases |es|
  {
    r := es + [e];
    if es == [] {
      assert r[1..] == [];
    } else {
      var r' := Extend(c, Step(c, s, es[0]), es[1..], e);
      assert r[1..] == r';
    }
  }

  /** Two runs follow each other. */
  lemma {:induction false} Append(c: Config, s: Sys, a: seq<Event>, b: seq<Event>) returns (r: seq<Event>)
    requires IsRun(c, s, a) && IsRun(c, Exec(c, s, a), b)
    ensures IsRun(c, s, r) && r == a + b && Exec(c, s, r) == Exec(c, Exec(c, s, a), b)
    decreases |a|
  {
    r := a + b;
    if a == [] {
      assert r == b;
    } else {
      var r' := Append(c, Step(c, s, a[0]), a[1..], b);
      assert r[0] == a[0] && r[1..] == r';
    }
  }

  lemma {:induction false} EmptyRun(c: Config, s: Sys)
    ensures IsRun(c, s, []) && Exec(c, s, []) == s
  {
  }

  /** A state reached by handler steps alone. */
  ghost predicate SameButHandlers(s: Sys, s': Sys) {
    && s'.loop == s.loop && s'.received == s.received && s'.ctx == s.ctx && s'.shut == s.shut
    && |s'.handlers| == |s.handlers|
  }

  /** Handler i can always run to its end. */
  lemma {:induction false} FinishHandler(c: Config, s: Sys, i: nat) returns (es: seq<Event>)
    requires i < |s.handlers| && s.handlers[i].stage <= 5
    ensures IsRun(c, s, es)
    ensures
      var s' := Exec(c, s, es);
      && SameButHandlers(s, s') && s'.handlers[i].stage == 5
      && forall j :: 0 <= j < |s.handlers| && j != i ==> s'.handlers[j] == s.handlers[j]
    decreases 5 - s.handlers[i].stage
  {
    if s.handlers[i].stage == 5 {
      es := [];
      EmptyRun(c, s);
    } else {
      var rest := FinishHandler(c, AdvanceHandler(s, i), i);
      es := [Advance(i)] + rest;
      assert es[1..] == rest;
    }
  }

  /** All handlers can run to their ends, whatever else stands still. */
  lemma {:induction false} FinishHandlers(c: Config, s: Sys, n: nat) returns (es: seq<Event>)
    requires n <= |s.handlers| && forall i :: 0 <= i < |s.handlers| ==> s.handlers[i].stage <= 5
    ensures IsRun(c, s, es)
    ensures
      var s' := Exec(c, s, es);
      && SameButHandlers(s, s')
      && (forall i :: 0 <= i < n ==> s'.handlers[i].stage == 5)
      && (forall i :: n <= i < |s.handlers| ==> s'.handlers[i] == s.handlers[i])
    decreases n
  {
    hide IsRun, Exec;
    if n == 0 {
      es := [];
      EmptyRun(c, s);
    } else {
      var a := FinishHandlers(c, s, n - 1);
      var b := FinishHandler(c, Exec(c, s, a), n - 1);
      es := Append(c, s, a, b);
    }
  }

  lemma {:induction false} AllGone(hs: seq<Handler>, k: nat)
    requires forall i :: 0 <= i < |hs| ==> hs[i].stage >= k
    ensures Below(hs, k) == 0
  {
    if hs != [] {
      AllGone(hs[..|hs| - 1], k);
    }
  }

  /** Without a slot to take, nothing is ever fetched. */
  lemma {:induction false} NoCapacityNoTask(c: Config, s: Sys, es: seq<Event>)
    requires c.capacity == 0 && CountInv(c, s) && s.received == [] && IsRun(c, s, es)
    ensures Exec(c, s, es).received == []
    decreases |es|
  {
    if es != [] {
      assert !s.loop.HoldsSlot();
      CountStep(c, s, es[0]);
      NoCapacityNoTask(c, Step(c, s, es[0]), es[1..]);
    }
  }

  // ---------------------------------------------------------------- exactly when Shutdown drains

  ghost predicate Inv(c: Config, s: Sys) {
    CountInv(c, s) && DispatchInv(c, s) && ShutdownInv(s)
  }

  lemma {:induction false} Reachable(c: Config, es: seq<Event>)
    requires IsRun(c, Start(), es)
    ensures Inv(c, Exec(c, Start(), es))
  {
    RunInvariants(c, Start(), es);
  }

  /** Every received task has a handler, and all handlers are gone. */
  predicate Drained(s: Sys) {
    |s.handlers| == |s.received| && forall i :: 0 <= i < |s.handlers| ==> s.handlers[i].stage == 5
  }

  predicate HasReturned(s: Sys) {
    s.shut.phase.ReturnedNil? || s.shut.phase.ReturnedErr?
  }

  /** The goroutine of Shutdown stops polling and starts to wait. */
  function Called(s: Sys): Sys
    requires s.shut.phase.NotCalled?
  {
    ControlStep(s, CallShutdown)
  }

  ghost predicate IsDrainedAfter(c: Config, s: Sys, es: seq<Event>)
    requires IsRun(c, s, es)
  {
    HasReturned(Exec(c, s, es)) ==> Drained(Exec(c, s, es))
  }

  /** Called in s, Shutdown comes back only when everything received has been handled, and stays so. */
  ghost predicate Drains(c: Config, s: Sys)
    requires s.shut.phase.NotCalled?
  {
    forall es :: IsRun(c, Called(s), es) ==> IsDrainedAfter(c, Called(s), es)
  }

  /** Where the loop can be so that no task is picked up any more, except one already counted. */
  predicate Harmless(c: Config, l: Loop) {
    l.Returned? || (c.cancelledFetchErrs && l != Fetching(false) && !l.Adding?)
  }

  ghost predicate SafeInv(c: Config, s: Sys) {
    && Harmless(c, s.loop) && s.ctx.pollDone && !s.shut.phase.NotCalled?
    && (s.shut.seenZero ==> Below(s.handlers, 5) == 0 && s.loop.Pending() == [])
    && (HasReturned(s) ==> s.shut.seenZero)
  }

  lemma {:induction false} SafeLoop(c: Config, s: Sys, e: LoopEvent)
    requires SafeInv(c, s) && LoopEnabled(c, s, e)
    ensures SafeInv(c, LoopStep(c, s, e))
  {
    hide Below;
  }

  lemma {:induction false} SafeAdvance(c: Config, s: Sys, i: nat)
    requires SafeInv(c, s) && i < |s.handlers| && s.handlers[i].stage < 5
    ensures SafeInv(c, AdvanceHandler(s, i))
  {
    BelowUpdate(s.handlers, i, AdvanceHandler(s, i).handlers[i], 5);
    if Below(s.handlers, 5) == 0 {
      BelowZero(s.handlers, i, 5);
    }
  }

  lemma {:induction false} SafeControl(c: Config, s: Sys, e: ControlEvent)
    requires CountInv(c, s) && SafeInv(c, s) && ControlEnabled(s, e)
    ensures SafeInv(c, ControlStep(s, e))
  {
    hide Below, BodyPending;
  }

  lemma {:induction false} SafeStep(c: Config, s: Sys, e: Event)
    requires CountInv(c, s) && SafeInv(c, s) && Enabled(c, s, e)
    ensures SafeInv(c, Step(c, s, e))
  {
    hide SafeInv, CountInv;
    match e
    case Poll(l) => SafeLoop(c, s, l);
    case Advance(i) => SafeAdvance(c, s, i);
    case Control(k) => SafeControl(c, s, k);
  }

  lemma {:induction false} SafeRun(c: Config, s: Sys, es: seq<Event>)
    requires Inv(c, s) && SafeInv(c, s) && IsRun(c, s, es)
    ensures Inv(c, Exec(c, s, es)) && SafeInv(c, Exec(c, s, es))
    decreases |es|
  {
    if es != [] {
      SafeStep(c, s, es[0]);
      CountStep(c, s, es[0]);
      DispatchStep(c, s, es[0]);
      ShutdownStep(c, s, es[0]);
      hide CountInv, DispatchInv, ShutdownInv, SafeInv;
      SafeRun(c, Step(c, s, es[0]), es[1..]);
    }
  }

  lemma {:induction false} SafeIsDrained(c: Config, s: Sys)
    requires Inv(c, s) && SafeInv(c, s) && HasReturned(s)
    ensures Drained(s)
  {
    forall i | 0 <= i < |s.handlers| ensures s.handlers[i].stage == 5 {
      BelowZero(s.handlers, i, 5);
    }
  }

  lemma {:induction false} CalledInv(c: Config, s: Sys)
    requires Inv(c, s) && s.shut.phase.NotCalled?
    ensures Inv(c, Called(s))
  {
  }

  lemma {:induction false} SafePositionDrains(c: Config, s: Sys)
    requires Inv(c, s) && s.shut.phase.NotCalled? && Harmless(c, s.loop)
    ensures Drains(c, s)
  {
    CalledInv(c, s);
    forall es | IsRun(c, Called(s), es) ensures IsDrainedAfter(c, Called(s), es) {
      SafeRun(c, Called(s), es);
      if HasReturned(Exec(c, Called(s), es)) {
        SafeIsDrained(c, Exec(c, Called(s), es));
      }
    }
  }

  /** The loop is before wg.Add, or nowhere near it, so the wait group counts finished goroutines only. */
  predicate Uncounted(l: Loop) {
    !l.Counting? && !l.Spawning?
  }

  /** With all handlers run to their ends, Shutdown sees a wait group at zero and comes back with nil. */
  lemma {:induction false} ShutdownComesBack(c: Config, s: Sys) returns (es: seq<Event>)
    requires Inv(c, s) && s.shut.phase.Waiting? && Uncounted(s.loop)
    ensures IsRun(c, s, es)
    ensures
      var s' := Exec(c, s, es);
      && s'.loop == s.loop && s'.received == s.received && s'.shut.phase.ReturnedNil?
      && |s'.handlers| == |s.handlers| && Below(s'.handlers, 3) == 0
  {
    hide IsRun, Exec, ShutdownInv;
    es := FinishHandlers(c, s, |s.handlers|);
    var m := Exec(c, s, es);
    AllGone(m.handlers, 5);
    AllGone(m.handlers, 3);
    KeepsInv(c, s, es);
    es := Extend(c, s, es, Control(WaiterSeesZero));
    es := Extend(c, s, es, Control(DrainObserved));
  }

  lemma {:induction false} KeepsInv(c: Config, s: Sys, es: seq<Event>)
    requires Inv(c, s) && IsRun(c, s, es)
    ensures Inv(c, Exec(c, s, es))
  {
    RunInvariants(c, s, es);
  }

  /** From a task in hand, its handler's body starts. */
  lemma {:induction false} StartsBody(c: Config, s: Sys) returns (es: seq<Event>)
    requires s.loop.Adding?
    ensures IsRun(c, s, es)
    ensures
      var s' := Exec(c, s, es);
      && s'.shut == s.shut && |s'.handlers| == |s.handlers| + 1
      && s'.handlers[|s.handlers|] == Handler(s.loop.task, 1, 1)
  {
    es := [];
    EmptyRun(c, s);
    hide IsRun, Exec;
    es := Extend(c, s, es, Poll(WgAdd));
    es := Extend(c, s, es, Poll(InFlightAdd));
    es := Extend(c, s, es, Poll(Spawn));
    es := Extend(c, s, es, Advance(|s.handlers|));
  }

  /**
   Called in any reachable state whose loop waits for a fetch that may still succeed, or holds a task
   it has not added to the wait group, Shutdown can return nil and a body start after it - whatever
   other handlers are running at the call.
   */
  lemma {:induction false} EarlyShutdownMissesHandler(c: Config, s: Sys, t: Task) returns (es: seq<Event>)
    requires Inv(c, s) && s.shut.phase.NotCalled?
    requires s.loop.Adding? || (s.loop.Fetching? && (s.loop.doomed ==> !c.cancelledFetchErrs))
    ensures IsRun(c, Called(s), es)
    ensures
      var s' := Exec(c, Called(s), es);
      && s'.shut.phase.ReturnedNil? && |s'.handlers| == |s.handlers| + 1
      && s'.handlers[|s.handlers|] == Handler(if s.loop.Adding? then s.loop.task else t, 1, 1)
  {
    hide IsRun, Exec, Inv;
    CalledInv(c, s);
    es := ShutdownComesBack(c, Called(s));
    if s.loop.Fetching? {
      es := Extend(c, Called(s), es, Poll(FetchReturn(Some(t))));
    }
    var rest := StartsBody(c, Exec(c, Called(s), es));
    es := Append(c, Called(s), es, rest);
  }

  /** A task counted by the wait group gets its handler. */
  lemma {:induction false} FinishSpawning(c: Config, s: Sys) returns (es: seq<Event>)
    requires !s.loop.Adding?
    ensures IsRun(c, s, es)
    ensures
      var s' := Exec(c, s, es);
      && s'.shut == s.shut && Uncounted(s'.loop) && !s'.loop.Adding?
      && (s'.loop.Returned? ==> s.loop.Returned?)
  {
    es := [];
    EmptyRun(c, s);
    hide IsRun, Exec;
    if s.loop.Counting? {
      es := Extend(c, s, es, Poll(InFlightAdd));
    }
    if Exec(c, s, es).loop.Spawning? {
      es := Extend(c, s, es, Poll(Spawn));
    }
  }

  /** With every slot free the loop can go round to its next fetch, cancelled or not. */
  lemma {:induction false} GoToFetch(c: Config, s: Sys) returns (es: seq<Event>)
    requires CountInv(c, s) && Below(s.handlers, 3) == 0 && c.capacity > 0
    requires Uncounted(s.loop) && !s.loop.Adding? && !s.loop.Returned?
    ensures IsRun(c, s, es)
    ensures
      var s' := Exec(c, s, es);
      s'.loop.Fetching? && s'.shut == s.shut && s'.handlers == s.handlers
  {
    es := [];
    EmptyRun(c, s);
    hide IsRun, Exec, Below;
    if s.loop.Dispatched? {
      es := Extend(c, s, es, Poll(NextRound));
    } else if s.loop.Releasing? {
      es := Extend(c, s, es, Poll(Release));
      es := Extend(c, s, es, Poll(BackoffElapsed));
    } else if s.loop.BackingOff? {
      es := Extend(c, s, es, Poll(BackoffElapsed));
    }
    if Exec(c, s, es).loop.Acquiring? {
      es := Extend(c, s, es, Poll(Acquire));
    }
    if Exec(c, s, es).loop.Holding? {
      es := Extend(c, s, es, Poll(FetchBegin));
    }
  }

  /** A client that ignores cancellation can pick up a task after Shutdown has come back, from any position. */
  lemma {:induction false} StubbornFetchMissesHandler(c: Config, s: Sys) returns (es: seq<Event>)
    requires Inv(c, s) && s.shut.phase.NotCalled?
    requires !c.cancelledFetchErrs && c.capacity > 0 && !s.loop.Adding? && !s.loop.Returned?
    ensures IsRun(c, Called(s), es) && !IsDrainedAfter(c, Called(s), es)
  {
    hide IsRun, Exec, CountInv, DispatchInv, ShutdownInv;
    var s1 := Called(s);
    CalledInv(c, s);
    es := FinishSpawning(c, s1);
    KeepsInv(c, s1, es);
    var back := ShutdownComesBack(c, Exec(c, s1, es));
    es := Append(c, s1, es, back);
    KeepsInv(c, s1, es);
    var on := GoToFetch(c, Exec(c, s1, es));
    es := Append(c, s1, es, on);
    es := Extend(c, s1, es, Poll(FetchReturn(Some(0))));
    var body := StartsBody(c, Exec(c, s1, es));
    es := Append(c, s1, es, body);
  }

  lemma {:induction false} NoCapacityDrains(c: Config, s: Sys)
    requires Inv(c, s) && s.shut.phase.NotCalled? && c.capacity == 0 && s.received == []
    ensures Drains(c, s)
  {
    CalledInv(c, s);
    forall es | IsRun(c, Called(s), es) ensures IsDrainedAfter(c, Called(s), es) {
      NoCapacityNoTask(c, Called(s), es);
      KeepsInv(c, Called(s), es);
      assert |Tasks(Exec(c, Called(s), es).handlers)| == 0;
    }
  }

  /**
   For every reachable state in which Shutdown has not been called: called there it comes back only
   when everything received has been handled, exactly when the loop is not in a fetch begun before
   the call and does not hold a task that it has yet to add to the wait group - provided that a fetch
   begun under a cancelled context errs.  With a client that ignores cancellation, only a loop that
   has returned, or one without capacity, is safe.
   */
  lemma {:induction false} ShutdownDrainsExactly(c: Config, run: seq<Event>)
    requires IsRun(c, Start(), run) && Exec(c, Start(), run).shut.phase.NotCalled?
    ensures
      var s := Exec(c, Start(), run);
      Drains(c, s) <==>
      if c.cancelledFetchErrs then s.loop != Fetching(false) && !s.loop.Adding?
      else s.loop.Returned? || c.capacity == 0
  {
    var s := Exec(c, Start(), run);
    Reachable(c, run);
    if c.capacity == 0 {
      NoCapacityNoTask(c, Start(), run);
      NoCapacityDrains(c, s);
      assert !s.loop.HoldsSlot();
    } else if Harmless(c, s.loop) {
      SafePositionDrains(c, s);
    } else {
      hide IsRun, Exec, Inv;
      var es: seq<Event>;
      if s.loop.Adding? || s.loop == Fetching(false) {
        es := EarlyShutdownMissesHandler(c, s, 0);
      } else {
        es := StubbornFetchMissesHandler(c, s);
      }
      assert IsRun(c, Called(s), es) && !IsDrainedAfter(c, Called(s), es);
    }
  }

  /** With a client that ignores cancellation, ephemeral mode can receive a second task. */
  lemma {:induction false} EphemeralNeedsCancellableFetch(c: Config, t: Task, u: Task) returns (es: seq<Event>)
    requires c.ephemeral && !c.cancelledFetchErrs && c.capacity > 0
    ensures IsRun(c, Start(), es) && Exec(c, Start(), es).received == [t, u]
  {
    var s := Start();
    es := [];
    assert IsRun(c, s, es) && Exec(c, s, es) == s;
    hide IsRun, Exec;
    es := Extend(c, s, es, Poll(Acquire));
    es := Extend(c, s, es, Poll(FetchBegin));
    es := Extend(c, s, es, Poll(FetchReturn(Some(t))));
    es := Extend(c, s, es, Poll(WgAdd));
    es := Extend(c, s, es, Poll(InFlightAdd));
    es := Extend(c, s, es, Poll(Spawn));
    es := Extend(c, s, es, Advance(0));
    es := Extend(c, s, es, Advance(0));
    es := Extend(c, s, es, Advance(0));
    es := Extend(c, s, es, Poll(NextRound));
    es := Extend(c, s, es, Poll(Acquire));
    es := Extend(c, s, es, Poll(FetchBegin));
    es := Extend(c, s, es, Poll(FetchReturn(Some(u))));
  }

  /**
   Ephemeral mode receives at most one task in every run exactly when a fetch begun under a
   cancelled context errs (or the poller has no capacity at all).
   */
  lemma {:induction false} EphemeralExactly(c: Config)
    requires c.ephemeral
    ensures (forall es :: IsRun(c, Start(), es) ==> |Exec(c, Start(), es).received| <= 1)
            <==> c.cancelledFetchErrs || c.capacity == 0
  {
    hide IsRun, Exec;
    if c.cancelledFetchErrs {
      forall es | IsRun(c, Start(), es) ensures |Exec(c, Start(), es).received| <= 1 {
        EphemeralDispatchesOnce(c, es);
      }
    } else if c.capacity == 0 {
      forall es | IsRun(c, Start(), es) ensures |Exec(c, Start(), es).received| <= 1 {
        NoCapacityNoTask(c, Start(), es);
      }
    } else {
      var es := EphemeralNeedsCancellableFetch(c, 1, 2);
    }
  }
}
