/**
 Expansion of composite actions (pkg/actions/loader.go): a recursive flattening of `uses:` steps
 with a set of references being expanded, that turns a cycle into an error.
 */
module Composite {
  import opened Wrappers

  type Env = map<string, string>

  /** A parsed reference by its key, ActionRef.String(): the key alone decides what is loaded (ActionCache). */
  type Ref = string

  datatype Step =
    | Run(name: string, shell: string, script: string, env: Env)
    | Uses(ref: Option<Ref>, inputs: Env, env: Env)  // None: not a remote reference
    | Neither

  /** The single steps a non-composite action becomes. */
  datatype Piece = Pre | Main | Post | Docker | Go | Magic

  datatype Action =
    | Leaf(pieces: seq<Piece>)
    | Broken                       // an unsupported type, or no usable entry point
    | Composite(steps: seq<Step>)

  /** A step of the job.  The environment of a leaf is a function of its action, inputs and env. */
  datatype Spec =
    | Script(name: string, shell: string, script: string, env: Env)
    | LeafSpec(ref: Ref, piece: Piece, inputs: Env, env: Env)

  /** What LoadAction returns; it fails on references outside the map. */
  type Graph = map<Ref, Action>

  /** The mutable part of an ExpandCtx. */
  datatype Ctx = Ctx(visited: set<string>, nested: seq<Ref>)

  function LeafSpecs(r: Ref, pieces: seq<Piece>, inputs: Env, env: Env): seq<Spec> {
    seq(|pieces|, i requires 0 <= i < |pieces| => LeafSpec(r, pieces[i], inputs, env))
  }

  /** ToStepSpecs on a loaded action. */
  function ExpandAction(g: Graph, r: Ref, a: Action, inputs: Env, env: Env, ctx: Ctx): (out: (Result<seq<Spec>>, Ctx))
    ensures out.0.Ok? ==> out.1.visited == ctx.visited
    decreases g.Keys - ctx.visited, 1, 0
  {
    match a
    case Leaf(pieces) => (Ok(LeafSpecs(r, pieces, inputs, env)), ctx)
    case Broken => (Err, ctx)
    case Composite(steps) => ExpandSteps(g, steps, env, ctx)
  }

  /** compositeStepSpecs: terminates on every finite graph, cyclic or not, and on success restores `visited`. */
  function ExpandSteps(g: Graph, steps: seq<Step>, env: Env, ctx: Ctx): (out: (Result<seq<Spec>>, Ctx))
    ensures out.0.Ok? ==> out.1.visited == ctx.visited
    decreases g.Keys - ctx.visited, 0, |steps|
  {
    if steps == [] then (Ok([]), ctx)
    else
      var step, rest := steps[0], steps[1..];
      match step
      case Run(name, shell, script, stepEnv) =>
        var (more, ctx') := ExpandSteps(g, rest, env, ctx);
        (Prepend([Script(name, shell, script, env + stepEnv)], more), ctx')
      case Neither => ExpandSteps(g, rest, env, ctx)
      case Uses(None, _, _) => ExpandSteps(g, rest, env, ctx)
      case Uses(Some(r), inputs, stepEnv) =>
        if r in ctx.visited then (Err, ctx)
        else if r !in g then (Err, ctx.(visited := ctx.visited + {r}))
        else
          assert g.Keys - (ctx.visited + {r}) < g.Keys - ctx.visited by {
            assert r in g.Keys - ctx.visited;
          }
          var (inner, ctx1) := ExpandAction(g, r, g[r], inputs, stepEnv, ctx.(visited := ctx.visited + {r}));
          var ctx2 := ctx1.(visited := ctx1.visited - {r});
          if inner.Err? then (Err, ctx2)
          else
            assert ctx2.visited == ctx.visited;
            var (more, ctx3) := ExpandSteps(g, rest, env, ctx2.(nested := ctx2.nested + [r]));
            (Prepend(inner.value, more), ctx3)
  }

  function Prepend(first: seq<Spec>, more: Result<seq<Spec>>): Result<seq<Spec>> {
    if more.Err? then Err else Ok(first + more.value)
  }

  /** ExpandCtx, with the two functions that mutate it. */
  class ExpandCtx {
    const actions: Graph
    var visited: set<string>
    var nested: seq<Ref>

    constructor (actions: Graph)
      ensures Value() == Ctx({}, []) && this.actions == actions
    {
      this.actions, visited, nested := actions, {}, [];
    }

    ghost function Value(): Ctx
      reads this
    {
      Ctx(visited, nested)
    }

    method ToStepSpecs(r: Ref, a: Action, inputs: Env, env: Env) returns (specs: Result<seq<Spec>>)
      modifies this
      ensures (specs, Value()) == ExpandAction(actions, r, a, inputs, env, old(Value()))
      decreases actions.Keys - visited, 1
    {
      match a
      case Leaf(pieces) => return Ok(LeafSpecs(r, pieces, inputs, env));
      case Broken => return Err;
      case Composite(steps) => specs := CompositeStepSpecs(steps, env);
    }

    method CompositeStepSpecs(steps: seq<Step>, env: Env) returns (r: Result<seq<Spec>>)
      modifies this
      ensures (r, Value()) == ExpandSteps(actions, steps, env, old(Value()))
      decreases actions.Keys - visited, 0
    {
      var specs: seq<Spec> := [];
      var i := 0;
      assert steps[0..] == steps;
      PrependNothing(ExpandSteps(actions, steps, env, Value()).0);
      while i < |steps|
        invariant 0 <= i <= |steps|
        invariant visited == old(visited)
        invariant
          var (more, ctx) := ExpandSteps(actions, steps[i..], env, Value());
          ExpandSteps(actions, steps, env, old(Value())) == (Prepend(specs, more), ctx)
      {
        var step := steps[i];
        assert steps[i..][0] == step && steps[i..][1..] == steps[i + 1..];
        i := i + 1;
        if step.Run? {
          var script := Script(step.name, step.shell, step.script, env + step.env);
          PrependTwice(specs, [script], ExpandSteps(actions, steps[i..], env, Value()).0);
          specs := specs + [script];
        } else if step.Uses? {
          if step.ref.None? {
            continue;
          }
          var ref := step.ref.value;
          if ref in visited {
            return Err;
          }
          ghost var before := Value();
          visited := visited + {ref};
          if ref !in actions {
            return Err;
          }
          assert ref in actions.Keys;
          var inner := ToStepSpecs(ref, actions[ref], step.inputs, step.env);
          visited := visited - {ref};
          if inner.Err? {
            return Err;
          }
          nested := nested + [ref];
          assert visited == before.visited;
          PrependTwice(specs, inner.value, ExpandSteps(actions, steps[i..], env, Value()).0);
          specs := specs + inner.value;
        }
      }
      assert steps[i..] == [] && specs + [] == specs;
      return Ok(specs);
    }
  }

  lemma {:induction false} PrependNothing(more: Result<seq<Spec>>)
    ensures Prepend([], more) == more
  {
    if more.Ok? {
      assert [] + more.value == more.value;
    }
  }

  lemma {:induction false} PrependTwice(a: seq<Spec>, b: seq<Spec>, more: Result<seq<Spec>>)
    ensures Prepend(a, Prepend(b, more)) == Prepend(a + b, more)
  {
    if more.Ok? {
      assert a + (b + more.value) == a + b + more.value;
    }
  }

  // ---------------------------------------------------------------- the flattening

  predicate UsesRef(step: Step, r: Ref) {
    step.Uses? && step.ref == Some(r)
  }

  /** Following `uses:` ends within d levels, and everything met loads and has entry points. */
  predicate Bounded(g: Graph, steps: seq<Step>, d: nat)
    decreases d, |steps|
  {
    if steps == [] then true
    else
      && (steps[0].Uses? && steps[0].ref.Some? ==>
            var r := steps[0].ref.value;
            d > 0 && r in g && !g[r].Broken? && (g[r].Composite? ==> Bounded(g, g[r].steps, d - 1)))
      && Bounded(g, steps[1..], d)
  }

  /** The plain in-order flattening: no set of visited references, just the nesting. */
  function Flatten(g: Graph, steps: seq<Step>, env: Env, d: nat): seq<Spec>
    requires Bounded(g, steps, d)
    decreases d, |steps|
  {
    if steps == [] then []
    else
      var first :=
        match steps[0]
        case Run(name, shell, script, stepEnv) => [Script(name, shell, script, env + stepEnv)]
        case Uses(Some(r), inputs, stepEnv) =>
          if g[r].Leaf? then LeafSpecs(r, g[r].pieces, inputs, stepEnv) else Flatten(g, g[r].steps, stepEnv, d - 1)
        case _ => [];
      first + Flatten(g, steps[1..], env, d)
  }

  /** The references met by the flattening, each after those that its own expansion meets. */
  function MetRefs(g: Graph, steps: seq<Step>, d: nat): seq<Ref>
    requires Bounded(g, steps, d)
    decreases d, |steps|
  {
    if steps == [] then []
    else
      var first :=
        match steps[0]
        case Uses(Some(r), _, _) => (if g[r].Composite? then MetRefs(g, g[r].steps, d - 1) else []) + [r]
        case _ => [];
      first + MetRefs(g, steps[1..], d)
  }

  lemma {:induction false} LeafSpecsExactly(r: Ref, pieces: seq<Piece>, inputs: Env, env: Env)
    ensures |LeafSpecs(r, pieces, inputs, env)| == |pieces|
    ensures forall i :: 0 <= i < |pieces| ==>
              LeafSpecs(r, pieces, inputs, env)[i] == LeafSpec(r, pieces[i], inputs, env)
  {
  }

  /** Every action that a step of the flattening comes from is among the references met. */
  lemma {:induction false} LeavesAreMet(g: Graph, steps: seq<Step>, env: Env, d: nat, spec: Spec)
    requires Bounded(g, steps, d) && spec in Flatten(g, steps, env, d) && spec.LeafSpec?
    ensures spec.ref in MetRefs(g, steps, d)
    decreases d, |steps|
  {
    var rest := Flatten(g, steps[1..], env, d);
    if spec in rest {
      LeavesAreMet(g, steps[1..], env, d, spec);
    } else if steps[0].Uses? && steps[0].ref.Some? {
      var r := steps[0].ref.value;
      if g[r].Composite? {
        LeavesAreMet(g, g[r].steps, steps[0].env, d - 1, spec);
      }
    }
  }

  lemma {:induction false} BoundedAt(g: Graph, steps: seq<Step>, d: nat, i: nat, r: Ref)
    requires Bounded(g, steps, d) && i < |steps| && UsesRef(steps[i], r)
    ensures d > 0 && r in g && !g[r].Broken? && (g[r].Composite? ==> Bounded(g, g[r].steps, d - 1))
    decreases i
  {
    if i > 0 {
      BoundedAt(g, steps[1..], d, i - 1, r);
    }
  }

  /** Chains of references that `uses:` steps lead to. */
  ghost predicate IsWalk(g: Graph, steps: seq<Step>, w: seq<Ref>)
    decreases |w|
  {
    w == [] ||
    (&& (exists i :: 0 <= i < |steps| && UsesRef(steps[i], w[0]))
     && (|w| > 1 ==> w[0] in g && g[w[0]].Composite? && IsWalk(g, g[w[0]].steps, w[1..])))
  }

  /** A chain that comes back to a key: one being expanded, or one met earlier on the chain. */
  ghost predicate Returns(g: Graph, steps: seq<Step>, visited: set<string>, w: seq<Ref>) {
    && w != [] && IsWalk(g, steps, w)
    && (w[|w| - 1] in visited || exists i :: 0 <= i < |w| - 1 && w[i] == w[|w| - 1])
  }

  ghost predicate HasCycle(g: Graph, steps: seq<Step>, visited: set<string>) {
    exists w: seq<Ref> :: Returns(g, steps, visited, w)
  }

  lemma {:induction false} CycleInTail(g: Graph, steps: seq<Step>, visited: set<string>)
    requires steps != []
    ensures HasCycle(g, steps[1..], visited) ==> HasCycle(g, steps, visited)
  {
    if HasCycle(g, steps[1..], visited) {
      var w: seq<Ref> :| Returns(g, steps[1..], visited, w);
      var i :| 0 <= i < |steps[1..]| && UsesRef(steps[1..][i], w[0]);
      assert UsesRef(steps[i + 1], w[0]);
      assert Returns(g, steps, visited, w);
    }
  }

  lemma {:induction false} CycleHere(g: Graph, steps: seq<Step>, visited: set<string>, r: Ref)
    requires steps != [] && UsesRef(steps[0], r)
    ensures r in visited ==> HasCycle(g, steps, visited)
    ensures r in g && g[r].Composite? && HasCycle(g, g[r].steps, visited + {r}) ==> HasCycle(g, steps, visited)
  {
    if r in visited {
      assert Returns(g, steps, visited, [r]);
    }
    if r in g && g[r].Composite? && HasCycle(g, g[r].steps, visited + {r}) {
      var w: seq<Ref> :| Returns(g, g[r].steps, visited + {r}, w);
      var w' := [r] + w;
      assert w'[1..] == w && w'[|w'| - 1] == w[|w| - 1];
      var last := w[|w| - 1];
      if last !in visited {
        if last == r {
          assert w'[0] == last;
        } else {
          var i :| 0 <= i < |w| - 1 && w[i] == last;
          assert w'[i + 1] == last;
        }
      }
      assert Returns(g, steps, visited, w');
    }
  }

  /** Where a cycle starts: in a later step, or in this one. */
  lemma {:induction false} CycleFrom(g: Graph, steps: seq<Step>, visited: set<string>)
    requires steps != [] && HasCycle(g, steps, visited)
    ensures HasCycle(g, steps[1..], visited) || exists r :: UsesRef(steps[0], r) && CycleVia(g, visited, r)
  {
    var w: seq<Ref> :| Returns(g, steps, visited, w);
    var i :| 0 <= i < |steps| && UsesRef(steps[i], w[0]);
    if i > 0 {
      assert UsesRef(steps[1..][i - 1], w[0]);
      assert Returns(g, steps[1..], visited, w);
    } else {
      var r := w[0];
      if |w| > 1 && r !in visited {
        var w' := w[1..];
        var last := w[|w| - 1];
        assert w'[|w'| - 1] == last;
        if last !in visited + {r} {
          var k :| 0 <= k < |w| - 1 && w[k] == last;
          assert w'[k - 1] == last;
        }
        assert Returns(g, g[r].steps, visited + {r}, w');
      }
      assert CycleVia(g, visited, r);
    }
  }

  ghost predicate CycleVia(g: Graph, visited: set<string>, r: Ref) {
    r in visited || (r in g && g[r].Composite? && HasCycle(g, g[r].steps, visited + {r}))
  }

  // ---------------------------------------------------------------- success is the flattening

  /** How a successful expansion starts: the specs of its first step, and a success for the rest. */
  lemma {:induction false} SuccessUnfold(g: Graph, steps: seq<Step>, env: Env, ctx: Ctx)
    returns (first: seq<Spec>, next: Ctx)
    requires steps != [] && ExpandSteps(g, steps, env, ctx).0.Ok?
    ensures next.visited == ctx.visited && ExpandSteps(g, steps[1..], env, next).0.Ok?
    ensures ExpandSteps(g, steps, env, ctx).0.value == first + ExpandSteps(g, steps[1..], env, next).0.value
    ensures ExpandSteps(g, steps, env, ctx).1 == ExpandSteps(g, steps[1..], env, next).1
    ensures
      match steps[0]
      case Run(name, shell, script, stepEnv) =>
        first == [Script(name, shell, script, env + stepEnv)] && next.nested == ctx.nested
      case Uses(Some(r), inputs, stepEnv) =>
        && r !in ctx.visited && r in g
        && var (inner, after) := ExpandAction(g, r, g[r], inputs, stepEnv, ctx.(visited := ctx.visited + {r}));
           inner == Ok(first) && next.nested == after.nested + [r]
      case _ => first == [] && next.nested == ctx.nested
  {
    var step, rest := steps[0], steps[1..];
    first, next := [], ctx;
    match step
    case Run(name, shell, script, stepEnv) => first := [Script(name, shell, script, env + stepEnv)];
    case Uses(Some(r), inputs, stepEnv) =>
      var (inner, ctx1) := ExpandAction(g, r, g[r], inputs, stepEnv, ctx.(visited := ctx.visited + {r}));
      first := inner.value;
      next := ctx1.(visited := ctx1.visited - {r}, nested := ctx1.nested + [r]);
      assert next.visited == ctx.visited;
    case _ =>
      PrependNothing(ExpandSteps(g, rest, env, ctx).0);
  }

  /** What a success says, with no hypothesis: nesting is bounded and the specs are the flattening. */
  lemma {:induction false} SuccessFlattens(g: Graph, steps: seq<Step>, env: Env, ctx: Ctx)
    requires ExpandSteps(g, steps, env, ctx).0.Ok?
    ensures
      var d := |g.Keys - ctx.visited|;
      Bounded(g, steps, d) && ExpandSteps(g, steps, env, ctx).0.value == Flatten(g, steps, env, d)
    decreases g.Keys - ctx.visited, |steps|
  {
    var d := |g.Keys - ctx.visited|;
    if steps != [] {
      hide ExpandSteps;
      var first, next := SuccessUnfold(g, steps, env, ctx);
      SuccessFlattens(g, steps[1..], env, next);
      if steps[0].Uses? && steps[0].ref.Some? {
        var r := steps[0].ref.value;
        var inside := ctx.(visited := ctx.visited + {r});
        assert r in g.Keys;
        assert g.Keys - ctx.visited == (g.Keys - inside.visited) + {r};
        assert |g.Keys - inside.visited| == d - 1;
        if g[r].Composite? {
          SuccessFlattens(g, g[r].steps, steps[0].env, inside);
        }
      }
    }
  }

  /** The references of the first step, and those of the rest. */
  lemma {:induction false} MetFirst(g: Graph, steps: seq<Step>, d: nat)
    requires steps != [] && Bounded(g, steps, d)
    ensures Bounded(g, steps[1..], d)
    ensures
      match steps[0]
      case Uses(Some(r), _, _) =>
        && d > 0 && r in g && (g[r].Composite? ==> Bounded(g, g[r].steps, d - 1))
        && MetRefs(g, steps, d) ==
           (if g[r].Composite? then MetRefs(g, g[r].steps, d - 1) else []) + [r] + MetRefs(g, steps[1..], d)
      case _ => MetRefs(g, steps, d) == MetRefs(g, steps[1..], d)
  {
  }

  lemma {:induction false} Regroup(a: seq<Ref>, b: seq<Ref>, c: seq<Ref>, d: seq<Ref>)
    ensures a + b + c + d == a + (b + c + d)
  {
  }

  /** One action, expanded with its own reference visited. */
  lemma {:induction false} ActionMeets(g: Graph, r: Ref, inputs: Env, env: Env, ctx: Ctx, d: nat)
    requires r in g && r !in ctx.visited && d == |g.Keys - ctx.visited|
    requires ExpandAction(g, r, g[r], inputs, env, ctx.(visited := ctx.visited + {r})).0.Ok?
    ensures d > 0 && (g[r].Composite? ==> Bounded(g, g[r].steps, d - 1))
    ensures ExpandAction(g, r, g[r], inputs, env, ctx.(visited := ctx.visited + {r})).1.nested ==
            ctx.nested + (if g[r].Composite? then MetRefs(g, g[r].steps, d - 1) else [])
    decreases g.Keys - ctx.visited, 0
  {
    hide ExpandSteps, MetRefs, Bounded;
    var inside := ctx.(visited := ctx.visited + {r});
    assert r in g.Keys - ctx.visited;
    assert g.Keys - ctx.visited == (g.Keys - inside.visited) + {r};
    assert |g.Keys - inside.visited| == d - 1;
    if g[r].Composite? {
      SuccessMeets(g, g[r].steps, env, inside);
    } else {
      assert ctx.nested + [] == ctx.nested;
    }
  }

  /** On success the nested list grows by the references met, inner ones before the one that uses them. */
  lemma {:induction false} SuccessMeets(g: Graph, steps: seq<Step>, env: Env, ctx: Ctx)
    requires ExpandSteps(g, steps, env, ctx).0.Ok?
    ensures
      var d := |g.Keys - ctx.visited|;
      Bounded(g, steps, d) && ExpandSteps(g, steps, env, ctx).1.nested == ctx.nested + MetRefs(g, steps, d)
    decreases g.Keys - ctx.visited, 1 + |steps|
  {
    var d := |g.Keys - ctx.visited|;
    SuccessFlattens(g, steps, env, ctx);
    if steps == [] {
      assert ctx.nested + [] == ctx.nested;
    } else {
      hide ExpandSteps, ExpandAction, Flatten, MetRefs, Bounded;
      var first, next := SuccessUnfold(g, steps, env, ctx);
      MetFirst(g, steps, d);
      SuccessMeets(g, steps[1..], env, next);
      var met, rest := MetRefs(g, steps, d), MetRefs(g, steps[1..], d);
      assert ExpandSteps(g, steps, env, ctx).1.nested == next.nested + rest;
      if steps[0].Uses? && steps[0].ref.Some? {
        var r := steps[0].ref.value;
        ActionMeets(g, r, steps[0].inputs, steps[0].env, ctx, d);
        var inside := ctx.(visited := ctx.visited + {r});
        var after := ExpandAction(g, r, g[r], steps[0].inputs, steps[0].env, inside).1.nested;
        var inner := if g[r].Composite? then MetRefs(g, g[r].steps, d - 1) else [];
        assert next.nested == after + [r];
        assert after == ctx.nested + inner;
        assert met == inner + [r] + rest;
        Regroup(ctx.nested, inner, [r], rest);
      } else {
        assert met == rest;
        assert next.nested == ctx.nested;
      }
    }
  }

  // ---------------------------------------------------------------- errors are cycles

  /** Everything a chain of references reaches loads and has entry points. */
  ghost predicate Healthy(g: Graph, steps: seq<Step>) {
    forall w :: w != [] && IsWalk(g, steps, w) ==> w[|w| - 1] in g && !g[w[|w| - 1]].Broken?
  }

  lemma {:induction false} HealthyBelow(g: Graph, steps: seq<Step>, r: Ref)
    requires Healthy(g, steps) && steps != []
    ensures Healthy(g, steps[1..])
    ensures UsesRef(steps[0], r) ==> r in g && !g[r].Broken? && (g[r].Composite? ==> Healthy(g, g[r].steps))
  {
    forall w: seq<Ref> | w != [] && IsWalk(g, steps[1..], w) ensures w[|w| - 1] in g && !g[w[|w| - 1]].Broken? {
      var i :| 0 <= i < |steps[1..]| && UsesRef(steps[1..][i], w[0]);
      assert UsesRef(steps[i + 1], w[0]);
      assert IsWalk(g, steps, w);
    }
    if UsesRef(steps[0], r) {
      assert IsWalk(g, steps, [r]);
      assert [r][|[r]| - 1] == r;
      if g[r].Composite? {
        forall w: seq<Ref> | w != [] && IsWalk(g, g[r].steps, w) ensures w[|w| - 1] in g && !g[w[|w| - 1]].Broken? {
          var w' := [r] + w;
          assert w'[1..] == w && w'[|w'| - 1] == w[|w| - 1];
          assert IsWalk(g, steps, w');
        }
      }
    }
  }

  /** When loads and leaves succeed, expansion fails exactly when a chain of references comes back to a key. */
  lemma {:induction false} ErrorIsCycle(g: Graph, steps: seq<Step>, env: Env, ctx: Ctx)
    requires Healthy(g, steps)
    ensures ExpandSteps(g, steps, env, ctx).0.Err? <==> HasCycle(g, steps, ctx.visited)
    decreases g.Keys - ctx.visited, |steps|
  {
    hide Healthy, HasCycle;
    if steps == [] {
      NoStepsNoCycle(g, ctx.visited);
    } else {
      var step, rest := steps[0], steps[1..];
      CycleInTail(g, steps, ctx.visited);
      if HasCycle(g, steps, ctx.visited) {
        CycleFrom(g, steps, ctx.visited);
      }
      if step.Uses? && step.ref.Some? {
        var r := step.ref.value;
        HealthyBelow(g, steps, r);
        CycleHere(g, steps, ctx.visited, r);
        if r !in ctx.visited {
          var inside := ctx.(visited := ctx.visited + {r});
          assert r in g.Keys;
          if g[r].Composite? {
            ErrorIsCycle(g, g[r].steps, step.env, inside);
          }
          var (inner, ctx1) := ExpandAction(g, r, g[r], step.inputs, step.env, inside);
          if inner.Ok? {
            var ctx2 := ctx1.(visited := ctx1.visited - {r}, nested := ctx1.nested + [r]);
            assert ctx2.visited == ctx.visited;
            ErrorIsCycle(g, rest, env, ctx2);
          }
        }
      } else {
        HealthyBelow(g, steps, "");
        ErrorIsCycle(g, rest, env, ctx);
      }
    }
  }

  lemma {:induction false} NoStepsNoCycle(g: Graph, visited: set<string>)
    ensures !HasCycle(g, [], visited)
  {
  }

  // ---------------------------------------------------------------- both directions

  /** Along a chain the bound shrinks by a level per reference. */
  lemma {:induction false} BoundedAlong(g: Graph, steps: seq<Step>, d: nat, w: seq<Ref>)
    requires Bounded(g, steps, d) && IsWalk(g, steps, w) && w != []
    ensures |w| <= d && w[|w| - 1] in g && !g[w[|w| - 1]].Broken?
    ensures g[w[|w| - 1]].Composite? ==> Bounded(g, g[w[|w| - 1]].steps, d - |w|)
    decreases |w|
  {
    var i :| 0 <= i < |steps| && UsesRef(steps[i], w[0]);
    BoundedAt(g, steps, d, i, w[0]);
    if |w| > 1 {
      BoundedAlong(g, g[w[0]].steps, d - 1, w[1..]);
    }
  }

  lemma {:induction false} WalkTail(g: Graph, steps: seq<Step>, w: seq<Ref>, i: nat)
    requires IsWalk(g, steps, w) && i + 1 < |w|
    ensures w[i] in g && g[w[i]].Composite? && IsWalk(g, g[w[i]].steps, w[i + 1..])
    decreases i
  {
    if i > 0 {
      WalkTail(g, g[w[0]].steps, w[1..], i - 1);
      assert w[1..][i - 1 + 1..] == w[i + 1..];
    }
  }

  lemma {:induction false} WalkHead(g: Graph, steps: seq<Step>, w: seq<Ref>, n: nat)
    requires IsWalk(g, steps, w) && n <= |w|
    ensures IsWalk(g, steps, w[..n])
    decreases n
  {
    if n > 1 {
      WalkHead(g, g[w[0]].steps, w[1..], n - 1);
      assert w[..n][1..] == w[1..][..n - 1];
    }
  }

  /** An action that leads back to itself has no bounded unfolding. */
  lemma {:induction false} SelfReachingUnbounded(g: Graph, a: Action, d: nat, w: seq<Ref>)
    requires a.Composite? && w != [] && IsWalk(g, a.steps, w)
    requires w[|w| - 1] in g && g[w[|w| - 1]] == a
    ensures !Bounded(g, a.steps, d)
    decreases d
  {
    if Bounded(g, a.steps, d) {
      BoundedAlong(g, a.steps, d, w);
      SelfReachingUnbounded(g, a, d - |w|, w);
    }
  }

  lemma {:induction false} BoundedHasNoCycle(g: Graph, steps: seq<Step>, d: nat)
    requires Bounded(g, steps, d)
    ensures Healthy(g, steps) && !HasCycle(g, steps, {})
  {
    hide Bounded, IsWalk;
    forall w: seq<Ref> | w != [] && IsWalk(g, steps, w) ensures w[|w| - 1] in g && !g[w[|w| - 1]].Broken? {
      BoundedAlong(g, steps, d, w);
    }
    forall w: seq<Ref> ensures !Returns(g, steps, {}, w) {
      if Returns(g, steps, {}, w) {
        BoundedAlong(g, steps, d, w);
        ReturningUnbounded(g, steps, d, w);
      }
    }
  }

  /** A chain that comes back rules out every bound. */
  lemma {:induction false} ReturningUnbounded(g: Graph, steps: seq<Step>, d: nat, w: seq<Ref>)
    requires Returns(g, steps, {}, w) && w[|w| - 1] in g
    ensures !Bounded(g, steps, d)
  {
    hide Bounded, IsWalk;
    var last := w[|w| - 1];
    var i :| 0 <= i < |w| - 1 && w[i] == last;
    WalkHead(g, steps, w, i + 1);
    WalkTail(g, steps, w, i);
    assert w[..i + 1][i] == w[i];
    assert w[i + 1..][|w[i + 1..]| - 1] == last;
    if Bounded(g, steps, d) {
      BoundedAlong(g, steps, d, w[..i + 1]);
      SelfReachingUnbounded(g, g[w[i]], d - (i + 1), w[i + 1..]);
    }
  }

  /** The flattening does not depend on how deep one is willing to look. */
  lemma {:induction false} FlattenDepth(g: Graph, steps: seq<Step>, env: Env, d: nat, e: nat)
    requires Bounded(g, steps, d) && Bounded(g, steps, e)
    ensures Flatten(g, steps, env, d) == Flatten(g, steps, env, e) && MetRefs(g, steps, d) == MetRefs(g, steps, e)
    decreases d, |steps|
  {
    if steps != [] {
      FlattenDepth(g, steps[1..], env, d, e);
      if steps[0].Uses? && steps[0].ref.Some? {
        var r := steps[0].ref.value;
        assert UsesRef(steps[0], r);
        if g[r].Composite? {
          FlattenDepth(g, g[r].steps, steps[0].env, d - 1, e - 1);
        }
      }
    }
  }

  /**
   With a fresh context, expansion succeeds exactly when following `uses:` ends, which is when
   everything reached loads and no chain of references comes back to a key; it then returns the
   in-order flattening and lists the references met, which include the action of every leaf step.
   */
  lemma {:induction false} ExpansionIsFlattening(g: Graph, steps: seq<Step>, env: Env)
    ensures ExpandSteps(g, steps, env, Ctx({}, [])).0.Ok? <==> exists d :: Bounded(g, steps, d)
    ensures ExpandSteps(g, steps, env, Ctx({}, [])).0.Ok? <==> Healthy(g, steps) && !HasCycle(g, steps, {})
    ensures forall d :: Bounded(g, steps, d) ==>
              && ExpandSteps(g, steps, env, Ctx({}, [])).0 == Ok(Flatten(g, steps, env, d))
              && ExpandSteps(g, steps, env, Ctx({}, [])).1.nested == MetRefs(g, steps, d)
  {
    hide Flatten, Bounded, ExpandSteps, Healthy, HasCycle, MetRefs;
    var out := ExpandSteps(g, steps, env, Ctx({}, []));
    if out.0.Ok? {
      SuccessFlattens(g, steps, env, Ctx({}, []));
      assert Bounded(g, steps, |g.Keys - Ctx({}, []).visited|);
      BoundedHasNoCycle(g, steps, |g.Keys - Ctx({}, []).visited|);
    }
    if Healthy(g, steps) {
      ErrorIsCycle(g, steps, env, Ctx({}, []));
    }
    forall d | Bounded(g, steps, d)
      ensures out.0 == Ok(Flatten(g, steps, env, d)) && out.1.nested == MetRefs(g, steps, d)
    {
      BoundedHasNoCycle(g, steps, d);
      SuccessFlattens(g, steps, env, Ctx({}, []));
      SuccessMeets(g, steps, env, Ctx({}, []));
      FlattenDepth(g, steps, env, |g.Keys - Ctx({}, []).visited|, d);
      var met := MetRefs(g, steps, |g.Keys - Ctx({}, []).visited|);
      assert [] + met == met;
    }
  }
}
