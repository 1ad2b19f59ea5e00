/**
 The reporter (pkg/reporter/reporter.go): a buffer of log rows with an offset, per-step log ranges
 and results, and the calls that ship them.  Timestamps are left out.
 */
module Reporting {
  import opened Masking

  datatype Outcome = Unspecified | Success | Failure | Cancelled | Skipped

  datatype StepState = StepState(logIndex: int, logLength: nat, result: Outcome)

  /** logRows and logOffset. */
  datatype Buffer = Buffer(rows: seq<string>, offset: nat)

  /** The value of a Reporter. */
  datatype Rep = Rep(buf: Buffer, current: int, steps: seq<StepState>, result: Outcome, secrets: seq<string>)

  function NewRep(numSteps: nat): Rep {
    Rep(Buffer([], 0), -1, seq(numSteps, _ => StepState(0, 0, Unspecified)), Unspecified, [])
  }

  predicate InRange(r: Rep, i: int) {
    0 <= i < |r.steps|
  }

  function Logged(r: Rep, content: string): Rep {
    var rows := r.buf.rows + [Mask(r.secrets, content)];
    var steps :=
      if InRange(r, r.current) then
        var st := r.steps[r.current];
        var index := if st.logLength == 0 then r.buf.offset + |rows| - 1 else st.logIndex;
        r.steps[r.current := st.(logIndex := index, logLength := st.logLength + 1)]
      else r.steps;
    r.(buf := r.buf.(rows := rows), steps := steps)
  }

  function Started(r: Rep, i: int): Rep {
    if InRange(r, i) then r.(current := i) else r
  }

  function Finished(r: Rep, i: int, result: Outcome): Rep {
    if InRange(r, i) then r.(steps := r.steps[i := r.steps[i].(result := result)]) else r
  }

  function MaskAdded(r: Rep, value: string): Rep {
    r.(secrets := Register(r.secrets, value))
  }

  function SecretsSet(r: Rep, values: seq<string>): Rep {
    r.(secrets := LongOnly(values))
  }

  /** The second critical section of flushLogs. */
  function AckTrimmed(b: Buffer, ack: int): Buffer {
    if ack >= b.offset then
      var trimmed := if ack - b.offset > |b.rows| then |b.rows| else ack - b.offset;
      Buffer(b.rows[trimmed..], ack)
    else b
  }

  /** What Close makes of one step. */
  function Settle(st: StepState, jobResult: Outcome): StepState {
    if st.result.Unspecified? then st.(result := if jobResult.Skipped? then Skipped else Cancelled) else st
  }

  /** Close's critical section. */
  function Closed(r: Rep, jobResult: Outcome): Rep {
    r.(result := jobResult, steps := seq(|r.steps|, i requires 0 <= i < |r.steps| => Settle(r.steps[i], jobResult)))
  }

  /** The job-level and per-step results of an UpdateTask request. */
  datatype TaskUpdate = TaskUpdate(result: Outcome, steps: seq<Outcome>)

  /** The payload flushState ships: an interim one never carries a job result. */
  function Payload(r: Rep, final: bool): TaskUpdate {
    TaskUpdate(if final then r.result else Unspecified,
               seq(|r.steps|, i requires 0 <= i < |r.steps| => r.steps[i].result))
  }

  /** An honest forge appends (some of) the rows it has not seen; it acks the length of its log. */
  function Accept(log: seq<string>, index: nat, rows: seq<string>, take: nat): seq<string> {
    if index > |log| || index + |rows| <= |log| then log
    else
      var unseen := rows[|log| - index..];
      log + (if take < |unseen| then unseen[..take] else unseen)
  }

  class LogServer {
    var log: seq<string>

    constructor ()
      ensures log == []
    {
      log := [];
    }

    method UpdateLog(index: nat, rows: seq<string>, take: nat) returns (ack: nat)
      modifies this
      ensures log == Accept(old(log), index, rows, take) && ack == |log|
    {
      log := Accept(log, index, rows, take);
      ack := |log|;
    }
  }

  /** What happens to one UpdateLog call. */
  datatype Fate = RequestLost | ReplyLost(take: nat) | Served(take: nat)

  /** One round of Close's retry loop. */
  datatype Attempt = Attempt(fate: Fate, stateSent: bool, interrupted: bool)

  /** The buffer continues the forge's log, overlapping it by the rows not yet acked. */
  ghost predicate Synced(b: Buffer, log: seq<string>) {
    b.offset <= |log| && log[b.offset..] <= b.rows
  }

  /** Every row ever added, given a buffer in sync with the forge. */
  ghost function FullLog(b: Buffer, log: seq<string>): seq<string>
    requires Synced(b, log)
  {
    log[..b.offset] + b.rows
  }

  lemma {:induction false} AcceptKeepsSync(b: Buffer, log: seq<string>, take: nat)
    requires Synced(b, log)
    ensures
      var log' := Accept(log, b.offset, b.rows, take);
      && Synced(b, log') && FullLog(b, log') == FullLog(b, log)
      && (take >= |b.rows| ==> log' == FullLog(b, log))
  {
    var log' := Accept(log, b.offset, b.rows, take);
    var k := |log| - b.offset;
    assert b.rows == log[b.offset..] + b.rows[k..];
    assert log' == log + log'[|log|..];
    assert log'[b.offset..] == log[b.offset..] + log'[|log|..];
    assert log == log[..b.offset] + log[b.offset..];
    assert log'[..b.offset] == log[..b.offset];
  }

  lemma {:induction false} TrimKeepsSync(b: Buffer, log: seq<string>)
    requires Synced(b, log)
    ensures Synced(AckTrimmed(b, |log|), log) && FullLog(AckTrimmed(b, |log|), log) == FullLog(b, log)
  {
    var k := |log| - b.offset;
    assert b.rows == log[b.offset..] + b.rows[k..];
    assert log[..|log|] == log[..b.offset] + log[b.offset..];
  }

  /** Whether Close returns nil, given what happens to each of its ten attempts from the i-th on. */
  predicate CloseSucceeds(script: seq<Attempt>, i: nat)
    requires |script| == 10
    decreases 10 - i
  {
    i < 10 &&
    ((script[i].fate.Served? && script[i].stateSent) || (!script[i].interrupted && CloseSucceeds(script, i + 1)))
  }

  /** An attempt that gets the log and the state through. */
  predicate GetsThrough(a: Attempt) {
    a.fate.Served? && a.stateSent
  }

  /** Close returns nil exactly when one of ten attempts gets through and no wait before it was interrupted. */
  lemma {:induction false} CloseSucceedsExactly(script: seq<Attempt>, i: nat)
    requires |script| == 10
    ensures CloseSucceeds(script, i) <==>
            exists k :: i <= k < 10 && GetsThrough(script[k]) &&
              forall j :: i <= j < k ==> !script[j].interrupted && !GetsThrough(script[j])
    decreases if i <= 10 then 10 - i else 0
  {
    if i < 10 {
      CloseSucceedsExactly(script, i + 1);
      if CloseSucceeds(script, i) && !GetsThrough(script[i]) {
        var k :| i + 1 <= k < 10 && GetsThrough(script[k]) &&
          forall j :: i + 1 <= j < k ==> !script[j].interrupted && !GetsThrough(script[j]);
        assert forall j :: i <= j < k ==> !script[j].interrupted && !GetsThrough(script[j]);
      }
    }
  }

  predicate AcceptsWhole(fate: Fate, n: nat) {
    match fate
    case RequestLost => true
    case ReplyLost(take) => take >= n
    case Served(take) => take >= n
  }

  lemma {:induction false} LongOnlySnoc(values: seq<string>, x: string)
    ensures LongOnly(values + [x]) == LongOnly(values) + (if |x| > 3 then [x] else [])
    decreases |values|
  {
    if values == [] {
      assert (values + [x])[1..] == [];
    } else {
      assert (values + [x])[0] == values[0] && (values + [x])[1..] == values[1..] + [x];
      LongOnlySnoc(values[1..], x);
    }
  }

  class Reporter {
    var logRows: seq<string>
    var logOffset: nat
    var currentStep: int
    var steps: seq<StepState>
    var result: Outcome
    var secrets: seq<string>

    ghost function Value(): Rep
      reads this
    {
      Rep(Buffer(logRows, logOffset), currentStep, steps, result, secrets)
    }

    constructor (numSteps: nat)
      ensures Value() == NewRep(numSteps)
    {
      logRows, logOffset, currentStep := [], 0, -1;
      steps := seq(numSteps, _ => StepState(0, 0, Unspecified));
      result, secrets := Unspecified, [];
    }

    method SetSecrets(values: seq<string>)
      modifies this
      ensures Value() == SecretsSet(old(Value()), values)
      ensures secrets == LongOnly(values)
    {
      var pairs: seq<string> := [];
      var i := 0;
      assert values[..0] == [];
      while i < |values|
        invariant 0 <= i <= |values|
        invariant pairs == LongOnly(values[..i])
        invariant Value() == old(Value())
      {
        LongOnlySnoc(values[..i], values[i]);
        assert values[..i + 1] == values[..i] + [values[i]];
        if |values[i]| > 3 {
          pairs := pairs + [values[i]];
        }
        i := i + 1;
      }
      assert values[..i] == values;
      secrets := pairs;
    }

    method AddMask(value: string)
      modifies this
      ensures Value() == MaskAdded(old(Value()), value)
    {
      if |value| <= 3 {
        return;
      }
      secrets := secrets + [value];
    }

    method AddLog(content: string)
      modifies this
      ensures Value() == Logged(old(Value()), content)
    {
      logRows := logRows + [Mask(secrets, content)];
      if 0 <= currentStep < |steps| {
        var step := steps[currentStep];
        if step.logLength == 0 {
          step := step.(logIndex := logOffset + |logRows| - 1);
        }
        step := step.(logLength := step.logLength + 1);
        steps := steps[currentStep := step];
      }
    }

    method StartStep(stepIdx: int)
      modifies this
      ensures Value() == Started(old(Value()), stepIdx)
    {
      if stepIdx < 0 || stepIdx >= |steps| {
        return;
      }
      currentStep := stepIdx;
    }

    method FinishStep(stepIdx: int, res: Outcome)
      modifies this
      ensures Value() == Finished(old(Value()), stepIdx, res)
    {
      if stepIdx < 0 || stepIdx >= |steps| {
        return;
      }
      steps := steps[stepIdx := steps[stepIdx].(result := res)];
    }

    /** flushLogs with no other goroutine in between. */
    method FlushLogs(noMore: bool, server: LogServer, fate: Fate) returns (ok: bool)
      modifies this, server
      ensures
        var b, log := old(Value()).buf, old(server.log);
        if b.rows == [] && !noMore then ok && Value() == old(Value()) && server.log == log
        else
          && ok == fate.Served?
          && server.log == (if fate.RequestLost? then log else Accept(log, b.offset, b.rows, fate.take))
          && Value() == old(Value()).(buf := if ok then AckTrimmed(b, |server.log|) else b)
    {
      var rows, offset := logRows, logOffset;
      if |rows| == 0 && !noMore {
        return true;
      }
      if fate.RequestLost? {
        return false;
      }
      var ack := server.UpdateLog(offset, rows, fate.take);
      if fate.ReplyLost? {
        return false;
      }
      if ack >= logOffset {
        var trimmed := ack - logOffset;
        if trimmed > |logRows| {
          trimmed := |logRows|;
        }
        logRows := logRows[trimmed..];
        logOffset := ack;
      }
      return true;
    }

    method MarkClosed(jobResult: Outcome)
      modifies this
      ensures Value() == Closed(old(Value()), jobResult)
    {
      result := jobResult;
      ghost var was := steps;
      var i := 0;
      while i < |steps|
        invariant 0 <= i <= |steps| == |was|
        invariant forall j :: 0 <= j < |was| ==> steps[j] == if j < i then Settle(was[j], jobResult) else was[j]
        invariant Value() == old(Value()).(result := jobResult, steps := steps)
      {
        if steps[i].result.Unspecified? {
          var settled := Cancelled;
          if jobResult.Skipped? {
            settled := Skipped;
          }
          steps := steps[i := steps[i].(result := settled)];
        }
        i := i + 1;
      }
    }

    /**
     Close against an honest forge, with no other goroutine in between.  When it returns nil and
     the forge accepts whole requests, the forge holds every row.
     */
    method Close(server: LogServer, jobResult: Outcome, script: seq<Attempt>) returns (ok: bool)
      requires |script| == 10
      requires Synced(Value().buf, server.log)
      modifies this, server
      ensures ok == CloseSucceeds(script, 0)
      ensures Synced(Value().buf, server.log)
      ensures FullLog(Value().buf, server.log) == old(FullLog(Value().buf, server.log))
      ensures Value() == Closed(old(Value()), jobResult).(buf := Value().buf)
      ensures ok && (forall a <- script :: AcceptsWhole(a.fate, old(|logRows|))) ==>
                server.log == old(FullLog(Value().buf, server.log))
    {
      MarkClosed(jobResult);
      var attempt := 0;
      while attempt < 10
        invariant 0 <= attempt <= 10
        invariant CloseSucceeds(script, 0) == CloseSucceeds(script, attempt)
        invariant Synced(Value().buf, server.log)
        invariant FullLog(Value().buf, server.log) == old(FullLog(Value().buf, server.log))
        invariant |logRows| <= old(|logRows|)
        invariant Value() == Closed(old(Value()), jobResult).(buf := Value().buf)
      {
        var a := script[attempt];
        assert a in script;
        if !a.fate.RequestLost? {
          AcceptKeepsSync(Value().buf, server.log, a.fate.take);
          TrimKeepsSync(Value().buf, Accept(server.log, logOffset, logRows, a.fate.take));
        }
        var flushed := FlushLogs(true, server, a.fate);
        if !flushed {
          if a.interrupted {
            return false;
          }
          attempt := attempt + 1;
          continue;
        }
        if !a.stateSent {
          if a.interrupted {
            return false;
          }
          attempt := attempt + 1;
          continue;
        }
        return true;
      }
      return false;
    }
  }

  // ---------------------------------------------------------------- results shipped

  /** What the watcher and the log stream do to a reporter. */
  datatype Op =
    | Log(content: string)
    | Begin(step: int)
    | Finish(step: int, result: Outcome)
    | Masked(value: string)
    | Secrets(values: seq<string>)
    | Acked(ack: int)

  /** Finish carries the result of an event, never Unspecified. */
  predicate HasResult(op: Op) {
    op.Finish? ==> !op.result.Unspecified?
  }

  function Apply(r: Rep, op: Op): Rep {
    match op
    case Log(c) => Logged(r, c)
    case Begin(i) => Started(r, i)
    case Finish(i, res) => Finished(r, i, res)
    case Masked(v) => MaskAdded(r, v)
    case Secrets(vs) => SecretsSet(r, vs)
    case Acked(a) => r.(buf := AckTrimmed(r.buf, a))
  }

  function ApplyAll(r: Rep, ops: seq<Op>): Rep
    decreases |ops|
  {
    if ops == [] then r else ApplyAll(Apply(r, ops[0]), ops[1..])
  }

  lemma {:induction false} SettledStays(r: Rep, ops: seq<Op>)
    requires forall op <- ops :: HasResult(op)
    requires forall st <- r.steps :: !st.result.Unspecified?
    ensures forall st <- ApplyAll(r, ops).steps :: !st.result.Unspecified?
    ensures ApplyAll(r, ops).result == r.result && |ApplyAll(r, ops).steps| == |r.steps|
    decreases |ops|
  {
    if ops != [] {
      assert HasResult(ops[0]);
      SettledStays(Apply(r, ops[0]), ops[1..]);
    }
  }

  /**
   A payload with a job result is only ever shipped by Close, and then with the job's result and
   a result for every step, whatever else reaches the reporter in between.
   */
  lemma {:induction false} TerminalPayloadIsComplete(r: Rep, ops: seq<Op>, jobResult: Outcome, after: seq<Op>)
    requires forall op <- after :: HasResult(op)
    ensures Payload(ApplyAll(r, ops), false).result == Unspecified
    ensures
      var p := Payload(ApplyAll(Closed(ApplyAll(r, ops), jobResult), after), true);
      && p.result == jobResult
      && |p.steps| == |ApplyAll(r, ops).steps|
      && forall res <- p.steps :: !res.Unspecified?
  {
    SettledStays(Closed(ApplyAll(r, ops), jobResult), after);
  }
}
