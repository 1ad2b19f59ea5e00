/**
 The step machine of the entrypoint (cmd/entrypoint/main.go) and the status bookkeeping it drives
 (pkg/expressions/eval.go): which steps run, what is written to the state file, and the verdict.
 Step files, environments and outputs are left out; condition results and exit codes are inputs.
 */
module Entrypoint {
  import opened Wrappers

  datatype StepDef = StepDef(id: string, condition: string, continueOnError: bool)

  /** `evaluates`: the manifest carries an evaluation context. */
  datatype Manifest = Manifest(steps: seq<StepDef>, evaluates: bool)

  /** What the world answers at each step: the cache mirror, the condition, the step files, the exit code. */
  datatype Answer = Answer(mirrorOk: bool, condition: Option<bool>, filesOk: bool, exitCode: int)

  datatype StateEvent = Start(step: nat) | End(step: nat, exitCode: int) | Skip(step: nat)

  datatype Status = StatusSuccess | StatusFailure

  datatype StepResult = StepResult(outcome: Status, conclusion: Status)

  /** The evaluator's job status and step results, as later conditions see them. */
  datatype Eval = Eval(job: Status, steps: map<string, StepResult>)

  /** SetStepResult for the two outcomes the entrypoint passes. */
  function ResultOf(failed: bool, continueOnError: bool): StepResult {
    StepResult(if failed then StatusFailure else StatusSuccess,
               if failed && !continueOnError then StatusFailure else StatusSuccess)
  }

  /** What an executed step does to the evaluator. */
  function Evaluated(e: Eval, step: StepDef, exitCode: int): Eval {
    Eval(if exitCode != 0 && !step.continueOnError then StatusFailure else e.job,
         e.steps[step.id := ResultOf(exitCode != 0, step.continueOnError)])
  }

  /** The loop's variables. */
  datatype Run = Run(events: seq<StateEvent>, hadFailure: bool, eval: Eval)

  const FRESH: Run := Run([], false, Eval(StatusSuccess, map[]))

  /** Whether step i runs, given a previous failure. */
  predicate Runs(m: Manifest, i: nat, a: Answer, hadFailure: bool)
    requires i < |m.steps|
  {
    if m.steps[i].condition != "" then !m.evaluates || a.condition == Some(true)
    else !hadFailure
  }

  predicate Fails(step: StepDef, exitCode: int) {
    exitCode != 0 && !step.continueOnError
  }

  /** One iteration when the step's files can be created. */
  function AfterStep(m: Manifest, r: Run, i: nat, a: Answer): Run
    requires i < |m.steps|
  {
    var step := m.steps[i];
    if !Runs(m, i, a, r.hadFailure) then r.(events := r.events + [Skip(i)])
    else
      Run(r.events + [Start(i)] + [End(i, a.exitCode)],
          r.hadFailure || Fails(step, a.exitCode),
          if m.evaluates then Evaluated(r.eval, step, a.exitCode) else r.eval)
  }

  predicate HasConditions(m: Manifest) {
    exists step <- m.steps :: step.condition != ""
  }

  /** Steps i to n - 1, with no break and no file error. */
  function RunSteps(m: Manifest, answers: seq<Answer>, n: nat): Run
    requires n <= |m.steps| == |answers|
  {
    if n == 0 then FRESH else AfterStep(m, RunSteps(m, answers, n - 1), n - 1, answers[n - 1])
  }

  /** The cache mirror works before each of the first n steps, and the files of those that run can be created. */
  ghost predicate FilesOk(m: Manifest, answers: seq<Answer>, n: nat)
    requires n <= |m.steps| == |answers|
  {
    n == 0 || (FilesOk(m, answers, n - 1) && StepOk(m, answers, n - 1))
  }

  ghost predicate StepOk(m: Manifest, answers: seq<Answer>, i: nat)
    requires i < |m.steps| == |answers|
  {
    answers[i].mirrorOk && (Runs(m, i, answers[i], RunSteps(m, answers, i).hadFailure) ==> answers[i].filesOk)
  }

  /** No step before the k-th made the loop break. */
  ghost predicate NotStopped(m: Manifest, answers: seq<Answer>, k: nat)
    requires k <= |m.steps| == |answers|
  {
    k == 0 || (NotStopped(m, answers, k - 1) && (HasConditions(m) || !RunSteps(m, answers, k - 1).hadFailure))
  }

  /** How many steps the loop handles: it breaks after the first failure of a manifest without conditions. */
  ghost predicate StopsAt(m: Manifest, answers: seq<Answer>, n: nat)
    requires n <= |m.steps| == |answers|
  {
    && (n == |m.steps| || (!HasConditions(m) && RunSteps(m, answers, n).hadFailure))
    && NotStopped(m, answers, n)
  }

  lemma {:induction false} NextStep(m: Manifest, answers: seq<Answer>, i: nat)
    requires i < |m.steps| == |answers|
    ensures RunSteps(m, answers, i + 1) == AfterStep(m, RunSteps(m, answers, i), i, answers[i])
    ensures NotStopped(m, answers, i + 1) <==>
            NotStopped(m, answers, i) && (HasConditions(m) || !RunSteps(m, answers, i).hadFailure)
    ensures FilesOk(m, answers, i + 1) <==>
            FilesOk(m, answers, i) && StepOk(m, answers, i)
  {
  }

  /** Whether some step has a runtime condition. */
  method AnyCondition(m: Manifest) returns (any: bool)
    ensures any == HasConditions(m)
  {
    var k := 0;
    while k < |m.steps|
      invariant 0 <= k <= |m.steps|
      invariant forall j :: 0 <= j < k ==> m.steps[j].condition == ""
    {
      if m.steps[k].condition != "" {
        assert m.steps[k] in m.steps;
        return true;
      }
      k := k + 1;
    }
    return false;
  }

  /** The calls to SetJobStatus and SetStepResult after a step. */
  method UpdateEvaluator(e: Eval, step: StepDef, exitCode: int) returns (r: Eval)
    ensures r == Evaluated(e, step, exitCode)
  {
    r := e;
    var outcome, conclusion := StatusSuccess, StatusSuccess;
    if exitCode != 0 {
      outcome := StatusFailure;
      if !step.continueOnError {
        r := r.(job := StatusFailure);
        conclusion := StatusFailure;
      }
    }
    r := r.(steps := r.steps[step.id := StepResult(outcome, conclusion)]);
  }

  /** A run that reached its end, or its early break, after n steps. */
  ghost predicate Finishes(m: Manifest, answers: seq<Answer>, n: nat, ok: bool, final: Run)
    requires |answers| == |m.steps|
  {
    && n <= |m.steps| && FilesOk(m, answers, n) && StopsAt(m, answers, n)
    && final == RunSteps(m, answers, n) && ok == !final.hadFailure
  }

  /** A run that exits before step n because the cache mirror failed. */
  ghost predicate ExitsBefore(m: Manifest, answers: seq<Answer>, n: nat, ok: bool, final: Run)
    requires |answers| == |m.steps|
  {
    && n < |m.steps| && FilesOk(m, answers, n) && NotStopped(m, answers, n) && !answers[n].mirrorOk && !ok
    && final == RunSteps(m, answers, n)
  }

  /** A run that ended in step n because a step file could not be created. */
  ghost predicate DiesIn(m: Manifest, answers: seq<Answer>, n: nat, ok: bool, final: Run)
    requires |answers| == |m.steps|
  {
    && n < |m.steps| && FilesOk(m, answers, n) && NotStopped(m, answers, n)
    && answers[n].mirrorOk && !answers[n].filesOk && !ok
    && Runs(m, n, answers[n], RunSteps(m, answers, n).hadFailure)
    && final == RunSteps(m, answers, n).(events := RunSteps(m, answers, n).events + [Start(n)])
  }

  ghost predicate Ends(m: Manifest, answers: seq<Answer>, n: nat, ok: bool, final: Run)
    requires |answers| == |m.steps|
  {
    || Finishes(m, answers, n, ok, final)
    || ExitsBefore(m, answers, n, ok, final)
    || DiesIn(m, answers, n, ok, final)
  }

  /**
   runEntrypoint.  Without mirror or file errors it is RunSteps up to the break; a mirror error ends
   the process between two steps, a file error ends the run with a started step that never ends.  The
   verdict is true exactly when it got through without a failure.
   */
  method RunEntrypoint(m: Manifest, answers: seq<Answer>) returns (ok: bool, final: Run)
    requires |answers| == |m.steps|
    ensures exists n: nat :: Ends(m, answers, n, ok, final)
  {
    var hasRuntimeConditions := AnyCondition(m);
    var events: seq<StateEvent> := [];
    var eval := Eval(StatusSuccess, map[]);
    var overallSuccess, hadFailure := true, false;
    var i := 0;
    assert RunSteps(m, answers, 0) == FRESH && FilesOk(m, answers, 0) && NotStopped(m, answers, 0);
    hide RunSteps, HasConditions, FilesOk, NotStopped, Evaluated;
    while i < |m.steps|
      invariant 0 <= i <= |m.steps|
      invariant events == RunSteps(m, answers, i).events
      invariant hadFailure == RunSteps(m, answers, i).hadFailure
      invariant eval == RunSteps(m, answers, i).eval
      invariant overallSuccess == !hadFailure
      invariant FilesOk(m, answers, i)
      invariant NotStopped(m, answers, i)
      invariant hasRuntimeConditions || !hadFailure
    {
      var step, a := m.steps[i], answers[i];
      NextStep(m, answers, i);
      if !a.mirrorOk {
        assert Ends(m, answers, i, false, Run(events, hadFailure, eval));
        return false, Run(events, hadFailure, eval);
      }
      if step.condition != "" && m.evaluates {
        var shouldRun := a.condition.Some? && a.condition.value;
        if !shouldRun {
          events := events + [Skip(i)];
          i := i + 1;
          continue;
        }
      }
      if hadFailure && step.condition == "" {
        events := events + [Skip(i)];
        i := i + 1;
        continue;
      }
      events := events + [Start(i)];
      if !a.filesOk {
        assert Ends(m, answers, i, false, Run(events, hadFailure, eval));
        return false, Run(events, hadFailure, eval);
      }
      if m.evaluates {
        eval := UpdateEvaluator(eval, step, a.exitCode);
      }
      events := events + [End(i, a.exitCode)];
      i := i + 1;
      if a.exitCode != 0 && !step.continueOnError {
        hadFailure := true;
        overallSuccess := false;
        if !hasRuntimeConditions {
          assert Ends(m, answers, i, overallSuccess, Run(events, hadFailure, eval));
          return overallSuccess, Run(events, hadFailure, eval);
        }
      }
    }
    assert Ends(m, answers, i, overallSuccess, Run(events, hadFailure, eval));
    return overallSuccess, Run(events, hadFailure, eval);
  }

  /** What held of the first n steps held of the first k, and of the step after them. */
  lemma {:induction false} Earlier(m: Manifest, answers: seq<Answer>, k: nat, n: nat)
    requires k < n <= |m.steps| == |answers|
    ensures NotStopped(m, answers, n) ==>
              NotStopped(m, answers, k) && (HasConditions(m) || !RunSteps(m, answers, k).hadFailure)
    ensures FilesOk(m, answers, n) ==>
              FilesOk(m, answers, k) && StepOk(m, answers, k)
    decreases n
  {
    hide RunSteps, HasConditions, Runs;
    if k < n - 1 {
      Earlier(m, answers, k, n - 1);
    }
  }

  /** A run ends in one way only: the answers determine verdict, state file and evaluator. */
  lemma {:induction false} OutcomeUnique(
    m: Manifest, answers: seq<Answer>, k: nat, ok: bool, final: Run, n: nat, ok': bool, final': Run)
    requires |answers| == |m.steps| && k <= n
    requires Ends(m, answers, k, ok, final) && Ends(m, answers, n, ok', final')
    ensures k == n && ok == ok' && final == final'
  {
    hide RunSteps, FilesOk, NotStopped;
    if k < n {
      Earlier(m, answers, k, n);
    } else if k < |m.steps| {
      assert m.steps[k] in m.steps;
    }
  }

  // ---------------------------------------------------------------- what the run emits

  /** The events of step i: a skip, or a start and an end. */
  ghost predicate StepEvents(es: seq<StateEvent>, i: nat) {
    es == [Skip(i)] || (|es| == 2 && es[0] == Start(i) && es[1].End? && es[1].step == i)
  }

  /** The events of steps 0 to n - 1, in order, one group per step. */
  ghost predicate InOrder(es: seq<StateEvent>, n: nat)
    decreases n
  {
    if n == 0 then es == []
    else exists k: nat :: k <= |es| && InOrder(es[..k], n - 1) && StepEvents(es[k..], n - 1)
  }

  lemma {:induction false} EventsInOrder(m: Manifest, answers: seq<Answer>, n: nat)
    requires n <= |m.steps| == |answers|
    ensures InOrder(RunSteps(m, answers, n).events, n)
    decreases n
  {
    if n > 0 {
      hide Runs;
      EventsInOrder(m, answers, n - 1);
      var before, es := RunSteps(m, answers, n - 1).events, RunSteps(m, answers, n).events;
      var k := |before|;
      assert es[..k] == before;
      assert es[k..] == (if Runs(m, n - 1, answers[n - 1], RunSteps(m, answers, n - 1).hadFailure)
                         then [Start(n - 1), End(n - 1, answers[n - 1].exitCode)] else [Skip(n - 1)]);
      assert StepEvents(es[k..], n - 1);
    }
  }

  /** Event numbers never go back, and no step starts twice: starts are strictly increasing. */
  lemma {:induction false} StartsIncrease(m: Manifest, answers: seq<Answer>, n: nat, a: nat, b: nat)
    requires n <= |m.steps| == |answers|
    requires a < b < |RunSteps(m, answers, n).events|
    ensures
      var es := RunSteps(m, answers, n).events;
      es[a].step <= es[b].step < n && (es[b].Start? ==> es[a].step < es[b].step)
    decreases n
  {
    hide Runs;
    if n > 0 {
      var before, es := RunSteps(m, answers, n - 1).events, RunSteps(m, answers, n).events;
      assert es[..|before|] == before;
      if b < |before| {
        StartsIncrease(m, answers, n - 1, a, b);
        assert es[a] == before[a] && es[b] == before[b];
      } else if a < |before| {
        EventsExactly(m, answers, n - 1, before[a]);
        assert es[a] == before[a];
      }
    }
  }

  /** What each event in the state file says about its step. */
  predicate Accounts(m: Manifest, answers: seq<Answer>, e: StateEvent)
    requires e.step < |m.steps| == |answers|
  {
    var i := e.step;
    var runs := Runs(m, i, answers[i], RunSteps(m, answers, i).hadFailure);
    match e
    case Start(_) => runs
    case End(_, exitCode) => runs && exitCode == answers[i].exitCode
    case Skip(_) => !runs
  }

  /** Of every step handled, the file holds the start and its end, or the skip, and nothing else. */
  lemma {:induction false} EventsExactly(m: Manifest, answers: seq<Answer>, n: nat, e: StateEvent)
    requires n <= |m.steps| == |answers|
    ensures e in RunSteps(m, answers, n).events <==> e.step < n && Accounts(m, answers, e)
    decreases n
  {
    if n > 0 {
      hide Runs;
      EventsExactly(m, answers, n - 1, e);
      var before, r := RunSteps(m, answers, n - 1), RunSteps(m, answers, n);
      var added := if Runs(m, n - 1, answers[n - 1], before.hadFailure)
                 then [Start(n - 1), End(n - 1, answers[n - 1].exitCode)] else [Skip(n - 1)];
      assert r.events == before.events + added;
      assert e in r.events <==> e in before.events || e in added;
    }
  }

  predicate FailedStep(m: Manifest, answers: seq<Answer>, i: nat)
    requires i < |m.steps| == |answers|
  {
    Runs(m, i, answers[i], RunSteps(m, answers, i).hadFailure) && Fails(m.steps[i], answers[i].exitCode)
  }

  lemma {:induction false} FailureComesFromStep(m: Manifest, answers: seq<Answer>, n: nat)
    requires n <= |m.steps| == |answers|
    ensures RunSteps(m, answers, n).hadFailure <==> exists i :: 0 <= i < n && FailedStep(m, answers, i)
    decreases n
  {
    if n > 0 {
      hide Runs, Fails;
      FailureComesFromStep(m, answers, n - 1);
      assert RunSteps(m, answers, n).hadFailure <==>
             RunSteps(m, answers, n - 1).hadFailure || FailedStep(m, answers, n - 1);
    }
  }

  /** The run has failed exactly when a step it started failed without continue-on-error. */
  lemma {:induction false} FailureExactly(m: Manifest, answers: seq<Answer>, n: nat)
    requires n <= |m.steps| == |answers|
    ensures RunSteps(m, answers, n).hadFailure <==>
            exists i :: 0 <= i < n && Start(i) in RunSteps(m, answers, n).events &&
              Fails(m.steps[i], answers[i].exitCode)
  {
    hide RunSteps, Runs, Fails;
    FailureComesFromStep(m, answers, n);
    forall i | 0 <= i < n
      ensures FailedStep(m, answers, i) <==>
              Start(i) in RunSteps(m, answers, n).events && Fails(m.steps[i], answers[i].exitCode)
    {
      EventsExactly(m, answers, n, Start(i));
    }
  }

  /** The job status that conditions see is the failure flag, after every step. */
  lemma {:induction false} JobStatusIsFailureFlag(m: Manifest, answers: seq<Answer>, n: nat)
    requires n <= |m.steps| == |answers| && m.evaluates
    ensures RunSteps(m, answers, n).eval.job ==
            if RunSteps(m, answers, n).hadFailure then StatusFailure else StatusSuccess
    decreases n
  {
    if n > 0 {
      JobStatusIsFailureFlag(m, answers, n - 1);
    }
  }

  ghost predicate DistinctIds(m: Manifest) {
    forall i, j :: 0 <= i < j < |m.steps| ==> m.steps[i].id != m.steps[j].id
  }

  /** With distinct step ids, the job has failed exactly when some recorded conclusion is a failure. */
  lemma {:induction false} ConclusionsExplainFailure(m: Manifest, answers: seq<Answer>, n: nat)
    requires n <= |m.steps| == |answers| && m.evaluates && DistinctIds(m)
    ensures
      var r := RunSteps(m, answers, n);
      && r.hadFailure <==> exists id :: id in r.eval.steps && r.eval.steps[id].conclusion.StatusFailure?
    ensures forall id <- RunSteps(m, answers, n).eval.steps :: exists i :: 0 <= i < n && m.steps[i].id == id
    decreases n
  {
    if n > 0 {
      ConclusionsExplainFailure(m, answers, n - 1);
      var before, r := RunSteps(m, answers, n - 1), RunSteps(m, answers, n);
      var id := m.steps[n - 1].id;
      assert id !in before.eval.steps;
      if Runs(m, n - 1, answers[n - 1], before.hadFailure) {
        assert id in r.eval.steps;
        if before.hadFailure {
          var x :| x in before.eval.steps && before.eval.steps[x].conclusion.StatusFailure?;
          assert x in r.eval.steps && r.eval.steps[x] == before.eval.steps[x];
        }
      }
    }
  }

  /** A run of skips. */
  function Skips(lo: nat, hi: nat): seq<StateEvent>
    requires lo <= hi
    decreases hi - lo
  {
    if lo == hi then [] else Skips(lo, hi - 1) + [Skip(hi - 1)]
  }

  /**
   The early break executes the same steps as carrying on would: carrying on only adds a skip for
   every remaining step, and reaches the same verdict and the same evaluator.
   */
  lemma {:induction false} BreakOnlyDropsSkips(m: Manifest, answers: seq<Answer>, n: nat, hi: nat)
    requires n <= hi <= |m.steps| == |answers|
    requires !HasConditions(m) && RunSteps(m, answers, n).hadFailure
    ensures
      RunSteps(m, answers, hi)
      == RunSteps(m, answers, n).(events := RunSteps(m, answers, n).events + Skips(n, hi))
    decreases hi - n
  {
    var stopped := RunSteps(m, answers, n);
    if n == hi {
      assert stopped.events + [] == stopped.events;
    } else {
      BreakOnlyDropsSkips(m, answers, n, hi - 1);
      assert m.steps[hi - 1] in m.steps;
      assert stopped.events + Skips(n, hi - 1) + [Skip(hi - 1)] == stopped.events + Skips(n, hi);
    }
  }

  // ---------------------------------------------------------------- which steps run

  /** Step k was started, failed and was not allowed to. */
  ghost predicate Broke(m: Manifest, answers: seq<Answer>, events: seq<StateEvent>, k: nat)
    requires k < |m.steps| == |answers|
  {
    Start(k) in events && answers[k].exitCode != 0 && !m.steps[k].continueOnError
  }

  /** What the manifest asks for at step i, given what the state file says of the steps before it. */
  ghost predicate ShouldRun(m: Manifest, answers: seq<Answer>, events: seq<StateEvent>, i: nat)
    requires i < |m.steps| == |answers|
  {
    if m.steps[i].condition != "" then !m.evaluates || answers[i].condition == Some(true)
    else forall k :: 0 <= k < i ==> !Broke(m, answers, events, k)
  }

  /** Whatever has been handled, later steps add no start to an earlier one. */
  lemma {:induction false} StartsSettled(m: Manifest, answers: seq<Answer>, i: nat, n: nat, k: nat)
    requires k < i <= n <= |m.steps| == |answers|
    ensures Start(k) in RunSteps(m, answers, i).events <==> Start(k) in RunSteps(m, answers, n).events
  {
    hide Accounts, RunSteps;
    EventsExactly(m, answers, i, Start(k));
    EventsExactly(m, answers, n, Start(k));
  }

  lemma {:induction false} FailedMeans(m: Manifest, answers: seq<Answer>, i: nat, n: nat)
    requires i <= n <= |m.steps| == |answers|
    ensures RunSteps(m, answers, i).hadFailure <==>
            exists k :: 0 <= k < i && Broke(m, answers, RunSteps(m, answers, n).events, k)
  {
    hide RunSteps;
    FailureExactly(m, answers, i);
    forall k | 0 <= k < i
      ensures Broke(m, answers, RunSteps(m, answers, n).events, k) <==>
              Start(k) in RunSteps(m, answers, i).events && Fails(m.steps[k], answers[k].exitCode)
    {
      StartsSettled(m, answers, i, n, k);
    }
  }

  /**
   For every step handled: it is started exactly when its condition came out true or cannot be
   evaluated for want of a context, or when it has none and no started step before it broke the run;
   it ends with the code it exited with; and otherwise, also when its condition could not be
   evaluated, it is skipped.
   */
  lemma {:induction false} StepRunsExactly(m: Manifest, answers: seq<Answer>, n: nat, i: nat)
    requires i < n <= |m.steps| == |answers|
    ensures
      var events := RunSteps(m, answers, n).events;
      && (Start(i) in events <==> ShouldRun(m, answers, events, i))
      && (Skip(i) in events <==> !ShouldRun(m, answers, events, i))
      && (forall x :: End(i, x) in events <==> ShouldRun(m, answers, events, i) && x == answers[i].exitCode)
  {
    FailedMeans(m, answers, i, n);
    EventsExactly(m, answers, n, Start(i));
    EventsExactly(m, answers, n, Skip(i));
    forall x ensures End(i, x) in RunSteps(m, answers, n).events <==> Accounts(m, answers, End(i, x)) {
      EventsExactly(m, answers, n, End(i, x));
    }
    hide RunSteps;
  }

  /**
   A run that got through: with some condition in the manifest every step is handled; without one the
   run ends behind the first step that broke it, if any.  Its verdict is that no step broke it.
   */
  lemma {:induction false} RunExactly(m: Manifest, answers: seq<Answer>, n: nat, ok: bool, final: Run)
    requires |answers| == |m.steps| && Finishes(m, answers, n, ok, final)
    ensures
      && n <= |m.steps|
      && (ok <==> forall k :: 0 <= k < n ==> !Broke(m, answers, final.events, k))
      && (n < |m.steps| ==>
            && (forall k :: 0 <= k < |m.steps| ==> m.steps[k].condition == "")
            && n > 0 && Broke(m, answers, final.events, n - 1))
      && (forall k :: 0 <= k < n - 1 && Broke(m, answers, final.events, k) ==>
            exists j :: 0 <= j < |m.steps| && m.steps[j].condition != "")
  {
    hide RunSteps, FilesOk;
    FailedMeans(m, answers, n, n);
    if !HasConditions(m) {
      forall k | 0 <= k < |m.steps| ensures m.steps[k].condition == "" {
        assert m.steps[k] in m.steps;
      }
      if n > 0 {
        FailedMeans(m, answers, n - 1, n);
      } else {
        NothingFailed(m, answers);
      }
    } else {
      var step :| step in m.steps && step.condition != "";
      var j :| 0 <= j < |m.steps| && m.steps[j] == step;
    }
  }

  lemma {:induction false} NothingFailed(m: Manifest, answers: seq<Answer>)
    requires |m.steps| == |answers|
    ensures !RunSteps(m, answers, 0).hadFailure
  {
  }

  /**
   With distinct ids, the evaluator has a result for exactly the steps that were started: the outcome
   is the exit status, and continue-on-error turns only the conclusion of a failure into a success.
   */
  lemma {:induction false} OutcomesExactly(m: Manifest, answers: seq<Answer>, n: nat, i: nat)
    requires i < n <= |m.steps| == |answers| && m.evaluates && DistinctIds(m)
    ensures
      var r := RunSteps(m, answers, n);
      && (m.steps[i].id in r.eval.steps <==> Start(i) in r.events)
      && (Start(i) in r.events ==>
            var res := r.eval.steps[m.steps[i].id];
            && (res.outcome.StatusFailure? <==> answers[i].exitCode != 0)
            && (res.conclusion.StatusFailure? <==> answers[i].exitCode != 0 && !m.steps[i].continueOnError))
    decreases n
  {
    hide Runs;
    var before, r := RunSteps(m, answers, n - 1), RunSteps(m, answers, n);
    EventsExactly(m, answers, n, Start(i));
    ConclusionsExplainFailure(m, answers, n - 1);
    if i < n - 1 {
      OutcomesExactly(m, answers, n - 1, i);
      EventsExactly(m, answers, n - 1, Start(i));
      assert m.steps[i].id != m.steps[n - 1].id;
    } else {
      assert m.steps[i].id !in before.eval.steps;
    }
  }
}
