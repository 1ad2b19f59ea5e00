/**
 The log of a whole job: the entrypoint's step machine, the tail, the watcher and the reporter put
 together, under every interleaving of log rows, state events, flushes and Close.
 */
module JobLog {
  import opened Entrypoint
  import opened Reporting
  import opened StatePipeline
  import Shipping = LogShipping

  /** The calls that the watcher and the log stream make in a run of the reporter. */
  function Calls(es: seq<Shipping.Event>): seq<Op> {
    if es == [] then [] else (if es[0].Local? then [es[0].op] else []) + Calls(es[1..])
  }

  /** Whether steps start in order depends on the current step and the number of steps only. */
  lemma {:induction false} ForwardFramed(r: Rep, r': Rep, ops: seq<Op>)
    requires StartsForward(r, ops) && r'.current == r.current && |r'.steps| == |r.steps|
    ensures StartsForward(r', ops)
    decreases |ops|
  {
    if ops != [] {
      ForwardFramed(Apply(r, ops[0]), Apply(r', ops[0]), ops[1..]);
    }
  }

  /** A run whose calls start steps in order is a run of the ordered configuration. */
  lemma {:induction false} OrderedRun(whole: bool, s: Shipping.Sys, es: seq<Shipping.Event>)
    requires Shipping.IsRun(Shipping.Config(whole, false), s, es) && StartsForward(s.rep, Calls(es))
    ensures Shipping.IsRun(Shipping.Config(whole, true), s, es)
    ensures Shipping.Exec(Shipping.Config(whole, true), s, es) == Shipping.Exec(Shipping.Config(whole, false), s, es)
    decreases |es|
  {
    if es != [] {
      var c, d := Shipping.Config(whole, false), Shipping.Config(whole, true);
      var e, s' := es[0], Shipping.Step(c, s, es[0]);
      if e.Local? {
        assert Calls(es)[0] == e.op && Calls(es)[1..] == Calls(es[1..]);
      } else {
        assert Calls(es) == Calls(es[1..]);
        ForwardFramed(s.rep, s'.rep, Calls(es[1..]));
      }
      OrderedRun(whole, s', es[1..]);
      assert Shipping.Enabled(d, s, e) && Shipping.Step(d, s, e) == s';
    }
  }

  /**
   For every manifest, every outcome of its steps, however much of the state file got through, and
   however log rows, flushes, lost replies and Close interleave with the routed events: the range
   the reporter records for a step is exactly the rows added after that step started and before the
   next one did, and the ranges follow each other in step order.
   */
  lemma {:induction false} JobLogRangesExact(
    whole: bool, c: Codec, m: Manifest, answers: seq<Answer>, n: nat, read: string, stream: string,
    es: seq<Shipping.Event>)
    requires Faithful(c) && n <= |m.steps| == |answers|
    requires read <= StateFile(c, RunSteps(m, answers, n).events) && stream <= TailOf(read, 0)
    requires Shipping.IsRun(Shipping.Config(whole, false), Shipping.Start(|m.steps|), es)
    requires Carries(Calls(es), StatePipeline.Routed(c, stream))
    ensures
      var s := Shipping.Exec(Shipping.Config(whole, false), Shipping.Start(|m.steps|), es);
      && |s.h.owners| == |s.h.added| && s.forge <= s.h.added
      && s.h.owners == Shipping.OwnersOf(|m.steps|, -1, es)
      && (forall i :: 0 <= i < |s.rep.steps| ==> Shipping.Exact(s, i))
      && (forall i, k :: 0 <= i < k < |s.rep.steps| && s.rep.steps[i].logLength > 0 && s.rep.steps[k].logLength > 0 ==>
            s.rep.steps[i].logIndex + s.rep.steps[i].logLength <= s.rep.steps[k].logIndex)
  {
    hide Faithful, StateFile, TailOf, StatePipeline.Routed, RunSteps, Carries, Shipping.Exec, Shipping.IsRun;
    RoutedStartsAreOrdered(c, m, answers, n, read, stream, Calls(es));
    OrderedRun(whole, Shipping.Start(|m.steps|), es);
    Shipping.StepRangesExact(Shipping.Config(whole, true), |m.steps|, es);
    Shipping.NothingLostOrReordered(Shipping.Config(whole, true), |m.steps|, es);
    Shipping.RowsBelongToLastStart(Shipping.Config(whole, true), |m.steps|, es);
  }
}
