/**
 The reporter under every interleaving: rows being added, steps starting, any number of flushLogs
 calls at once and Close (pkg/reporter/reporter.go), against an honest forge and a network that
 loses requests and replies.  Each critical section and each RPC is one step.
 */
module LogShipping {
  import opened Masking
  import opened Reporting

  datatype Config = Config(
    whole: bool,    // the forge accepts whole requests
    ordered: bool)  // steps start in order, as the entrypoint emits them

  /** A flushLogs call after its snapshot, or after its reply. */
  datatype Flight = Sent(offset: nat, rows: seq<string>) | Replied(ack: nat)

  /** Where Close stands; `before` is how many rows had been added when it was called. */
  datatype Closing =
    | Open
    | Retrying(before: nat)
    | Shipping(before: nat, id: nat)
    | Shipped(before: nat)
    | Done(before: nat)

  /** What was added, and at each row which step was current and which secrets were registered. */
  datatype History = History(added: seq<string>, owners: seq<int>, secrets: seq<seq<string>>)

  datatype Sys = Sys(rep: Rep, forge: seq<string>, flights: map<nat, Flight>, closing: Closing, h: History)

  datatype Event =
    | Local(op: Op)
    | Snapshot(id: nat)
    | Serve(id: nat, take: nat)
    | LoseRequest(id: nat)
    | LoseReply(id: nat, take: nat)
    | ApplyAck(id: nat)
    | CallClose(jobResult: Outcome)
    | CloseSnapshot(id: nat)
    | CloseLogsSent
    | CloseLogsFailed
    | CloseStateSent
    | CloseStateFailed

  predicate IsSent(s: Sys, id: nat) {
    id in s.flights && s.flights[id].Sent?
  }

  predicate IsReplied(s: Sys, id: nat) {
    id in s.flights && s.flights[id].Replied?
  }

  predicate Enabled(c: Config, s: Sys, e: Event) {
    match e
    case Local(op) =>
      !op.Acked? && HasResult(op) && (c.ordered && op.Begin? && InRange(s.rep, op.step) ==> s.rep.current <= op.step)
    case Snapshot(id) => id !in s.flights && !(s.closing.Shipping? && s.closing.id == id)
    case Serve(id, take) => IsSent(s, id) && (c.whole ==> take >= |s.flights[id].rows|)
    case LoseRequest(id) => IsSent(s, id)
    case LoseReply(id, take) => IsSent(s, id) && (c.whole ==> take >= |s.flights[id].rows|)
    case ApplyAck(id) => IsReplied(s, id) && !(s.closing.Shipping? && s.closing.id == id)
    case CallClose(_) => s.closing.Open?
    case CloseSnapshot(id) => s.closing.Retrying? && id !in s.flights
    case CloseLogsSent => s.closing.Shipping? && IsReplied(s, s.closing.id)
    case CloseLogsFailed => s.closing.Shipping? && s.closing.id !in s.flights
    case CloseStateSent => s.closing.Shipped?
    case CloseStateFailed => s.closing.Shipped?
  }

  function Record(h: History, r: Rep, op: Op): History {
    if op.Log? then
      History(h.added + [Mask(r.secrets, op.content)], h.owners + [r.current], h.secrets + [r.secrets])
    else h
  }

  function Received(s: Sys, id: nat, take: nat): seq<string>
    requires IsSent(s, id)
  {
    Accept(s.forge, s.flights[id].offset, s.flights[id].rows, take)
  }

  function Acknowledge(s: Sys, id: nat): Sys
    requires IsReplied(s, id)
  {
    s.(rep := s.rep.(buf := AckTrimmed(s.rep.buf, s.flights[id].ack)), flights := s.flights - {id})
  }

  function TakeSnapshot(s: Sys, id: nat): map<nat, Flight> {
    s.flights[id := Sent(s.rep.buf.offset, s.rep.buf.rows)]
  }

  function Step(c: Config, s: Sys, e: Event): Sys
    requires Enabled(c, s, e)
  {
    match e
    case Local(op) => s.(rep := Apply(s.rep, op), h := Record(s.h, s.rep, op))
    case Snapshot(id) => s.(flights := TakeSnapshot(s, id))
    case Serve(id, take) =>
      var log := Received(s, id, take);
      s.(forge := log, flights := s.flights[id := Replied(|log|)])
    case LoseRequest(id) => s.(flights := s.flights - {id})
    case LoseReply(id, take) => s.(forge := Received(s, id, take), flights := s.flights - {id})
    case ApplyAck(id) => Acknowledge(s, id)
    case CallClose(jobResult) => s.(rep := Closed(s.rep, jobResult), closing := Retrying(|s.h.added|))
    case CloseSnapshot(id) => s.(flights := TakeSnapshot(s, id), closing := Shipping(s.closing.before, id))
    case CloseLogsSent => Acknowledge(s, s.closing.id).(closing := Shipped(s.closing.before))
    case CloseLogsFailed => s.(closing := Retrying(s.closing.before))
    case CloseStateSent => s.(closing := Done(s.closing.before))
    case CloseStateFailed => s.(closing := Retrying(s.closing.before))
  }

  ghost predicate IsRun(c: Config, s: Sys, es: seq<Event>)
    decreases |es|
  {
    es == [] || (Enabled(c, s, es[0]) && IsRun(c, Step(c, s, es[0]), es[1..]))
  }

  ghost function Exec(c: Config, s: Sys, es: seq<Event>): Sys
    requires IsRun(c, s, es)
    decreases |es|
  {
    if es == [] then s else Exec(c, Step(c, s, es[0]), es[1..])
  }

  function Start(numSteps: nat): Sys {
    Sys(NewRep(numSteps), [], map[], Open, History([], [], []))
  }

  // ---------------------------------------------------------------- no loss, duplicate or reorder

  /** A request in flight holds a slice of the log that begins within what the forge has. */
  ghost predicate FlightOk(s: Sys, id: nat)
    requires id in s.flights
  {
    match s.flights[id]
    case Sent(offset, rows) =>
      offset <= |s.forge| && offset + |rows| <= |s.h.added| && rows == s.h.added[offset..offset + |rows|]
    case Replied(ack) => ack <= |s.forge|
  }

  ghost predicate ShipInv(s: Sys) {
    && s.rep.buf.offset <= |s.forge| <= |s.h.added|
    && s.forge == s.h.added[..|s.forge|]
    && s.rep.buf.rows == s.h.added[s.rep.buf.offset..]
    && (forall id <- s.flights :: FlightOk(s, id))
  }

  lemma {:induction false} ShipLocal(s: Sys, op: Op)
    requires ShipInv(s) && !op.Acked?
    ensures ShipInv(s.(rep := Apply(s.rep, op), h := Record(s.h, s.rep, op)))
  {
    var s' := s.(rep := Apply(s.rep, op), h := Record(s.h, s.rep, op));
    assert s.h.added <= s'.h.added;
    forall id <- s'.flights ensures FlightOk(s', id) {
      assert FlightOk(s, id);
    }
  }

  lemma {:induction false} ShipServe(s: Sys, id: nat, take: nat)
    requires ShipInv(s) && IsSent(s, id)
    ensures
      var log := Received(s, id, take);
      && |s.forge| <= |log| <= |s.h.added| && log == s.h.added[..|log|]
      && (take >= |s.flights[id].rows| ==> |log| >= s.flights[id].offset + |s.flights[id].rows|)
  {
    var f := s.flights[id];
    assert FlightOk(s, id);
    var log := Received(s, id, take);
    if f.offset + |f.rows| > |s.forge| {
      var unseen := f.rows[|s.forge| - f.offset..];
      assert unseen == s.h.added[|s.forge|..f.offset + |f.rows|];
      var taken := if take < |unseen| then unseen[..take] else unseen;
      assert log == s.forge + taken;
      assert taken == s.h.added[|s.forge|..|s.forge| + |taken|];
    } else {
      assert log == s.forge;
    }
  }

  /** Steps that add no row: the forge's log grows by whole prefixes and the rest is checked part by part. */
  lemma {:induction false} ShipRemote(s: Sys, s': Sys)
    requires ShipInv(s) && s'.h == s.h
    requires |s.forge| <= |s'.forge| <= |s.h.added| && s'.forge == s.h.added[..|s'.forge|]
    requires s'.rep.buf.offset <= |s'.forge| && s'.rep.buf.rows == s.h.added[s'.rep.buf.offset..]
    requires forall id <- s'.flights ::
               || (id in s.flights && s'.flights[id] == s.flights[id])
               || s'.flights[id] == Sent(s.rep.buf.offset, s.rep.buf.rows)
               || s'.flights[id] == Replied(|s'.forge|)
    ensures ShipInv(s')
  {
    forall id <- s'.flights ensures FlightOk(s', id) {
      assert id in s.flights ==> FlightOk(s, id);
    }
  }

  lemma {:induction false} ShipStep(c: Config, s: Sys, e: Event)
    requires ShipInv(s) && Enabled(c, s, e)
    ensures ShipInv(Step(c, s, e))
  {
    match e {
      case Local(op) => ShipLocal(s, op);
      case Serve(id, take) => ShipServe(s, id, take);
      case LoseReply(id, take) => ShipServe(s, id, take);
      case ApplyAck(id) => assert FlightOk(s, id);
      case CloseLogsSent => assert FlightOk(s, s.closing.id);
      case _ =>
    }
    if !e.Local? {
      ShipRemote(s, Step(c, s, e));
    }
  }

  // ---------------------------------------------------------------- Close

  ghost predicate CloseInv(c: Config, s: Sys) {
    && (!s.closing.Open? ==> s.closing.before <= |s.h.added|)
    && (s.closing.Shipping? && IsSent(s, s.closing.id) ==>
          s.flights[s.closing.id].offset + |s.flights[s.closing.id].rows| >= s.closing.before)
    && (c.whole && s.closing.Shipping? && IsReplied(s, s.closing.id) ==> |s.forge| >= s.closing.before)
    && (c.whole && (s.closing.Shipped? || s.closing.Done?) ==> |s.forge| >= s.closing.before)
  }

  lemma {:induction false} CloseStep(c: Config, s: Sys, e: Event)
    requires ShipInv(s) && CloseInv(c, s) && Enabled(c, s, e)
    ensures CloseInv(c, Step(c, s, e))
  {
    match e
    case Serve(id, take) => ShipServe(s, id, take);
    case LoseReply(id, take) => ShipServe(s, id, take);
    case _ =>
  }

  // ---------------------------------------------------------------- step ranges

  /** Row j belongs to step i's recorded range. */
  predicate InStep(st: StepState, j: int) {
    st.logIndex <= j < st.logIndex + st.logLength
  }

  /** How many rows were added while step i was current. */
  function CountOf(owners: seq<int>, i: int): nat {
    if owners == [] then 0
    else CountOf(owners[..|owners| - 1], i) + (if owners[|owners| - 1] == i then 1 else 0)
  }

  /** k is the first row of step i. */
  predicate IsFirst(owners: seq<int>, i: int, k: int) {
    0 <= k < |owners| && owners[k] == i && forall j :: 0 <= j < k ==> owners[j] != i
  }

  /** What a step records: how many rows it has, and where the first one is. */
  ghost predicate Recorded(owners: seq<int>, st: StepState, i: int) {
    st.logLength == CountOf(owners, i) && (st.logLength > 0 ==> IsFirst(owners, i, st.logIndex))
  }

  ghost predicate OwnersInv(s: Sys) {
    && |s.h.owners| == |s.h.added|
    && -1 <= s.rep.current < |s.rep.steps|
    && (forall j :: 0 <= j < |s.h.owners| ==> -1 <= s.h.owners[j] < |s.rep.steps|)
    && (forall i :: 0 <= i < |s.rep.steps| ==> Recorded(s.h.owners, s.rep.steps[i], i))
  }

  lemma {:induction false} NoneCounted(owners: seq<int>, i: int)
    ensures CountOf(owners, i) == 0 <==> i !in owners
    decreases |owners|
  {
    if owners != [] {
      var n := |owners| - 1;
      NoneCounted(owners[..n], i);
      assert owners == owners[..n] + [owners[n]];
    }
  }

  /** A step that gets a row counts it, and a first row sets the index; the other steps see nothing. */
  lemma {:induction false} RecordedSnoc(owners: seq<int>, st: StepState, i: int, owner: int)
    requires Recorded(owners, st, i)
    ensures owner != i ==> Recorded(owners + [owner], st, i)
    ensures owner == i ==>
              var index := if st.logLength == 0 then |owners| else st.logIndex;
              Recorded(owners + [owner], st.(logIndex := index, logLength := st.logLength + 1), i)
  {
    var next := owners + [owner];
    assert next[..|next| - 1] == owners;
    NoneCounted(owners, i);
    assert forall j :: 0 <= j < |owners| ==> next[j] == owners[j] && owners[j] in owners;
  }

  lemma {:induction false} OwnersLog(s: Sys, content: string)
    requires ShipInv(s) && OwnersInv(s)
    ensures OwnersInv(s.(rep := Logged(s.rep, content), h := Record(s.h, s.rep, Log(content))))
  {
    hide CountOf, Recorded, Mask;
    var s' := s.(rep := Logged(s.rep, content), h := Record(s.h, s.rep, Log(content)));
    forall i | 0 <= i < |s'.rep.steps| ensures Recorded(s'.h.owners, s'.rep.steps[i], i) {
      RecordedSnoc(s.h.owners, s.rep.steps[i], i, s.rep.current);
    }
  }

  lemma {:induction false} OwnersFramed(s: Sys, s': Sys)
    requires OwnersInv(s) && s'.h == s.h && -1 <= s'.rep.current < |s.rep.steps| == |s'.rep.steps|
    requires forall i :: 0 <= i < |s.rep.steps| ==>
               && s'.rep.steps[i].logIndex == s.rep.steps[i].logIndex
               && s'.rep.steps[i].logLength == s.rep.steps[i].logLength
    ensures OwnersInv(s')
  {
    forall i | 0 <= i < |s'.rep.steps| ensures Recorded(s'.h.owners, s'.rep.steps[i], i) {
      assert Recorded(s.h.owners, s.rep.steps[i], i);
    }
  }

  /** Steps started in order, as far as the rows show it. */
  ghost predicate OrderInv(s: Sys) {
    && (forall j, k :: 0 <= j <= k < |s.h.owners| ==> s.h.owners[j] <= s.h.owners[k])
    && (forall j :: 0 <= j < |s.h.owners| ==> s.h.owners[j] <= s.rep.current)
  }

  lemma {:induction false} OrderStep(c: Config, s: Sys, e: Event)
    requires (c.ordered || |s.rep.steps| <= 1) && OwnersInv(s) && OrderInv(s) && Enabled(c, s, e)
    ensures OrderInv(Step(c, s, e))
  {
    hide Recorded;
  }

  // ---------------------------------------------------------------- exactly when ranges are exact

  /** Step i's recorded range is exactly the rows added while it was current. */
  ghost predicate Exact(s: Sys, i: nat)
    requires i < |s.rep.steps|
  {
    forall j :: 0 <= j < |s.h.owners| ==> (s.h.owners[j] == i <==> InStep(s.rep.steps[i], j))
  }

  /** Between two rows of step i there are only rows of step i. */
  predicate Contiguous(owners: seq<int>, i: int) {
    forall a, b, c :: 0 <= a < b < c < |owners| && owners[a] == i && owners[c] == i ==> owners[b] == i
  }

  lemma {:induction false} BlockCount(owners: seq<int>, i: int, f: nat)
    requires f <= |owners| && forall j :: 0 <= j < |owners| ==> (owners[j] == i <==> f <= j)
    ensures CountOf(owners, i) == |owners| - f
    decreases |owners|
  {
    var n := |owners| - 1;
    if f <= n {
      BlockCount(owners[..n], i, f);
    } else {
      NoneCounted(owners, i);
    }
  }

  lemma {:induction false} ContiguousIsRange(owners: seq<int>, i: int, f: nat, j: nat)
    requires Contiguous(owners, i) && IsFirst(owners, i, f) && j < |owners|
    ensures owners[j] == i <==> f <= j < f + CountOf(owners, i)
    decreases |owners|
  {
    var n := |owners| - 1;
    if owners[n] == i {
      assert forall k :: 0 <= k < |owners| ==> (owners[k] == i <==> f <= k);
      BlockCount(owners, i, f);
    } else {
      var front := owners[..n];
      assert forall k :: 0 <= k < n ==> front[k] == owners[k];
      ContiguousIsRange(front, i, f, if j < n then j else f);
      RangeEnds(front, i, f);
    }
  }

  /** The rows counted from the first one on do not go past the end. */
  lemma {:induction false} RangeEnds(owners: seq<int>, i: int, f: nat)
    requires IsFirst(owners, i, f)
    ensures f + CountOf(owners, i) <= |owners|
    decreases |owners|
  {
    var n := |owners| - 1;
    if f < n {
      RangeEnds(owners[..n], i, f);
    } else {
      NoneCounted(owners[..n], i);
    }
  }

  lemma {:induction false} ExactIffContiguous(s: Sys, i: nat)
    requires OwnersInv(s) && i < |s.rep.steps|
    ensures Exact(s, i) <==> Contiguous(s.h.owners, i)
  {
    var owners, st := s.h.owners, s.rep.steps[i];
    assert Recorded(owners, st, i);
    NoneCounted(owners, i);
    if Contiguous(owners, i) && st.logLength > 0 {
      forall j | 0 <= j < |owners| ensures owners[j] == i <==> InStep(st, j) {
        ContiguousIsRange(owners, i, st.logIndex, j);
      }
    }
    assert st.logLength == 0 ==> forall j :: 0 <= j < |owners| ==> owners[j] in owners && owners[j] != i;
  }

  // ---------------------------------------------------------------- masking

  ghost predicate Hidden(row: string, secrets: seq<string>) {
    forall x <- secrets :: Hideable(x) ==> !Occurs(x, row)
  }

  ghost predicate MaskInv(s: Sys) {
    && AllLong(s.rep.secrets)
    && |s.h.secrets| == |s.h.added|
    && (forall j :: 0 <= j < |s.h.added| ==> Hidden(s.h.added[j], s.h.secrets[j]))
  }

  lemma {:induction false} MaskStep(c: Config, s: Sys, e: Event)
    requires MaskInv(s) && Enabled(c, s, e)
    ensures MaskInv(Step(c, s, e))
  {
    if e.Local? && e.op.Log? {
      forall x <- s.rep.secrets | Hideable(x) ensures !Occurs(x, Mask(s.rep.secrets, e.op.content)) {
        MaskHides(s.rep.secrets, e.op.content, x);
      }
    }
    if e.Local? && e.op.Secrets? {
      LongOnlyExactly(e.op.values);
    }
  }

  // ---------------------------------------------------------------- the results

  ghost predicate Inv(c: Config, s: Sys) {
    && ShipInv(s) && CloseInv(c, s) && MaskInv(s) && OwnersInv(s)
    && (c.ordered || |s.rep.steps| <= 1 ==> OrderInv(s))
  }

  lemma {:induction false} InvStep(c: Config, s: Sys, e: Event)
    requires Inv(c, s) && Enabled(c, s, e)
    ensures Inv(c, Step(c, s, e)) && |Step(c, s, e).rep.steps| == |s.rep.steps|
  {
    ShipStep(c, s, e);
    CloseStep(c, s, e);
    MaskStep(c, s, e);
    if e.Local? && e.op.Log? {
      OwnersLog(s, e.op.content);
    } else {
      OwnersFramed(s, Step(c, s, e));
    }
    if c.ordered || |s.rep.steps| <= 1 {
      OrderStep(c, s, e);
    }
    hide ShipInv, CloseInv, MaskInv, OwnersInv, OrderInv;
  }

  lemma {:induction false} RunInvariants(c: Config, s: Sys, es: seq<Event>)
    requires Inv(c, s) && IsRun(c, s, es)
    ensures Inv(c, Exec(c, s, es)) && |Exec(c, s, es).rep.steps| == |s.rep.steps|
    decreases |es|
  {
    hide Inv;
    if es != [] {
      InvStep(c, s, es[0]);
      RunInvariants(c, Step(c, s, es[0]), es[1..]);
    }
  }

  lemma {:induction false} Reachable(c: Config, numSteps: nat, es: seq<Event>)
    requires IsRun(c, Start(numSteps), es)
    ensures Inv(c, Exec(c, Start(numSteps), es)) && |Exec(c, Start(numSteps), es).rep.steps| == numSteps
  {
    RunInvariants(c, Start(numSteps), es);
  }

  /** The forge's log is a prefix of the rows added; the buffer is exactly the suffix from logOffset. */
  lemma {:induction false} NothingLostOrReordered(c: Config, numSteps: nat, es: seq<Event>)
    requires IsRun(c, Start(numSteps), es)
    ensures
      var s := Exec(c, Start(numSteps), es);
      && s.forge <= s.h.added
      && s.rep.buf.offset <= |s.forge|
      && s.h.added == s.h.added[..s.rep.buf.offset] + s.rep.buf.rows
  {
    Reachable(c, numSteps, es);
  }

  /** When Close returns nil, a forge that accepts whole requests has every row added before it. */
  lemma {:induction false} CloseShipsEverything(c: Config, numSteps: nat, es: seq<Event>)
    requires c.whole && IsRun(c, Start(numSteps), es)
    requires Exec(c, Start(numSteps), es).closing.Done?
    ensures
      var s := Exec(c, Start(numSteps), es);
      s.closing.before <= |s.h.added| && s.h.added[..s.closing.before] <= s.forge
  {
    RunInvariants(c, Start(numSteps), es);
  }

  /** In every run, a step's range is exactly the rows added while it was current iff those rows are contiguous. */
  lemma {:induction false} RangeExactIffContiguous(c: Config, numSteps: nat, es: seq<Event>, i: nat)
    requires IsRun(c, Start(numSteps), es) && i < numSteps
    ensures
      var s := Exec(c, Start(numSteps), es);
      |s.rep.steps| == numSteps && |s.h.owners| == |s.h.added| && (Exact(s, i) <==> Contiguous(s.h.owners, i))
  {
    hide Exec, IsRun;
    Reachable(c, numSteps, es);
    ExactIffContiguous(Exec(c, Start(numSteps), es), i);
  }

  /**
   With steps started in order, every step's range is exact, every row after the first start is in
   one, and non-empty ranges of different steps are disjoint and in order.
   */
  lemma {:induction false} StepRangesExact(c: Config, numSteps: nat, es: seq<Event>)
    requires (c.ordered || numSteps <= 1) && IsRun(c, Start(numSteps), es)
    ensures
      var s := Exec(c, Start(numSteps), es);
      && |s.rep.steps| == numSteps && |s.h.owners| == |s.h.added|
      && (forall i :: 0 <= i < numSteps ==> Exact(s, i))
      && (forall j :: 0 <= j < |s.h.added| ==> -1 <= s.h.owners[j] < numSteps)
      && (forall j, k :: 0 <= j <= k < |s.h.added| ==> s.h.owners[j] <= s.h.owners[k])
      && (forall i, k :: 0 <= i < k < numSteps && s.rep.steps[i].logLength > 0 && s.rep.steps[k].logLength > 0 ==>
            s.rep.steps[i].logIndex + s.rep.steps[i].logLength <= s.rep.steps[k].logIndex)
  {
    hide Exec, IsRun;
    Reachable(c, numSteps, es);
    var s := Exec(c, Start(numSteps), es);
    forall i: nat | i < numSteps ensures Exact(s, i) {
      ExactIffContiguous(s, i);
    }
    forall i, k | 0 <= i < k < numSteps && s.rep.steps[i].logLength > 0 && s.rep.steps[k].logLength > 0
      ensures s.rep.steps[i].logIndex + s.rep.steps[i].logLength <= s.rep.steps[k].logIndex
    {
      RangesApart(s, i, k);
    }
  }

  lemma {:induction false} RangesApart(s: Sys, i: nat, k: nat)
    requires OwnersInv(s) && OrderInv(s) && i < k < |s.rep.steps| && Exact(s, i)
    requires s.rep.steps[i].logLength > 0 && s.rep.steps[k].logLength > 0
    ensures s.rep.steps[i].logIndex + s.rep.steps[i].logLength <= s.rep.steps[k].logIndex
  {
    var a, b := s.rep.steps[i], s.rep.steps[k];
    assert Recorded(s.h.owners, a, i) && Recorded(s.h.owners, b, k);
    RangeEnds(s.h.owners, i, a.logIndex);
    var last := a.logIndex + a.logLength - 1;
    assert InStep(a, last) && s.h.owners[last] == i && s.h.owners[b.logIndex] == k;
  }

  /** The step that each row is added under: the one that started last, in range, before the row; -1 before any. */
  function OwnersOf(numSteps: nat, current: int, es: seq<Event>): seq<int>
    decreases |es|
  {
    if es == [] then []
    else
      match es[0]
      case Local(Begin(i)) => OwnersOf(numSteps, if 0 <= i < numSteps then i else current, es[1..])
      case Local(Log(_)) => [current] + OwnersOf(numSteps, current, es[1..])
      case _ => OwnersOf(numSteps, current, es[1..])
  }

  lemma {:induction false} OwnerStep(c: Config, s: Sys, e: Event)
    requires Enabled(c, s, e)
    ensures
      var s' := Step(c, s, e);
      && |s'.rep.steps| == |s.rep.steps|
      && s'.rep.current == (match e
                            case Local(Begin(i)) => if 0 <= i < |s.rep.steps| then i else s.rep.current
                            case _ => s.rep.current)
      && s'.h.owners == s.h.owners + (if e.Local? && e.op.Log? then [s.rep.current] else [])
  {
    hide Mask, Accept, LongOnly;
  }

  lemma {:induction false} OwnersFollow(c: Config, s: Sys, es: seq<Event>)
    requires IsRun(c, s, es)
    ensures Exec(c, s, es).h.owners == s.h.owners + OwnersOf(|s.rep.steps|, s.rep.current, es)
    decreases |es|
  {
    if es == [] {
      assert s.h.owners + [] == s.h.owners;
    } else {
      hide Enabled, Step;
      var s' := Step(c, s, es[0]);
      OwnerStep(c, s, es[0]);
      OwnersFollow(c, s', es[1..]);
      var row := if es[0].Local? && es[0].op.Log? then [s.rep.current] else [];
      var rest := OwnersOf(|s.rep.steps|, s'.rep.current, es[1..]);
      assert s.h.owners + row + rest == s.h.owners + (row + rest);
      assert OwnersOf(|s.rep.steps|, s.rep.current, es) == row + rest;
    }
  }

  /** In every run a row's step is the one that started last before it. */
  lemma {:induction false} RowsBelongToLastStart(c: Config, numSteps: nat, es: seq<Event>)
    requires IsRun(c, Start(numSteps), es)
    ensures Exec(c, Start(numSteps), es).h.owners == OwnersOf(numSteps, -1, es)
  {
    hide Exec, IsRun, OwnersOf;
    OwnersFollow(c, Start(numSteps), es);
    assert [] + OwnersOf(numSteps, -1, es) == OwnersOf(numSteps, -1, es);
  }

  /** No row of the forge's log contains a hideable secret registered when the row was added. */
  lemma {:induction false} ForgeNeverSeesSecrets(c: Config, numSteps: nat, es: seq<Event>, j: nat)
    requires IsRun(c, Start(numSteps), es)
    requires j < |Exec(c, Start(numSteps), es).forge|
    ensures
      var s := Exec(c, Start(numSteps), es);
      |s.h.secrets| == |s.h.added| && |s.forge| <= |s.h.added| && Hidden(s.forge[j], s.h.secrets[j])
  {
    RunInvariants(c, Start(numSteps), es);
  }

  // ---------------------------------------------------------------- where the hypotheses matter

  /** A run grows at its end. */
  lemma {:induction false} Extend(c: Config, s: Sys, es: seq<Event>, e: Event) returns (r: seq<Event>)
    requires IsRun(c, s, es) && Enabled(c, Exec(c, s, es), e)
    ensures IsRun(c, s, r) && r == es + [e] && Exec(c, s, r) == Step(c, Exec(c, s, es), e)
    decreases |es|
  {
    r := es + [e];
    if es == [] {
      assert r[1..] == [];
    } else {
      var r' := Extend(c, Step(c, s, es[0]), es[1..], e);
      assert r[1..] == r';
    }
  }

  /** One row is added, Close is called and its request is on the way. */
  lemma {:induction false} CloseWithOneRow(c: Config, numSteps: nat, row: string) returns (es: seq<Event>)
    ensures IsRun(c, Start(numSteps), es)
    ensures
      var s := Exec(c, Start(numSteps), es);
      && s.closing == Shipping(1, 0) && s.h.added == [row] && s.forge == []
      && s.flights == map[0 := Sent(0, [row])]
  {
    var s := Start(numSteps);
    assert FirstMatch([], row).None?;
    MaskKeeps([], row);
    es := [];
    assert IsRun(c, s, es) && Exec(c, s, es) == s;
    hide IsRun, Exec, Mask, Settle;
    es := Extend(c, s, es, Local(Log(row)));
    es := Extend(c, s, es, CallClose(Success));
    es := Extend(c, s, es, CloseSnapshot(0));
  }

  /** Close can return nil while a forge that accepts only part of a request lacks a row. */
  lemma {:induction false} PartialAckLosesRows(c: Config, numSteps: nat, row: string) returns (es: seq<Event>)
    requires !c.whole
    ensures IsRun(c, Start(numSteps), es)
    ensures
      var s := Exec(c, Start(numSteps), es);
      s.closing == Done(1) && s.h.added == [row] && s.forge == []
  {
    hide IsRun, Exec, Mask;
    var s := Start(numSteps);
    es := CloseWithOneRow(c, numSteps, row);
    es := Extend(c, s, es, Serve(0, 0));
    es := Extend(c, s, es, CloseLogsSent);
    es := Extend(c, s, es, CloseStateSent);
  }

  /** After a run in which Close returned nil, the forge has every row added before the call. */
  ghost predicate ShipsAll(c: Config, numSteps: nat, es: seq<Event>)
    requires IsRun(c, Start(numSteps), es)
  {
    var s := Exec(c, Start(numSteps), es);
    s.closing.Done? ==> s.closing.before <= |s.h.added| && s.h.added[..s.closing.before] <= s.forge
  }

  /** For every number of steps, Close keeps its promise in all runs exactly when the forge takes whole requests. */
  lemma {:induction false} CloseShipsExactly(c: Config, numSteps: nat)
    ensures (forall es :: IsRun(c, Start(numSteps), es) ==> ShipsAll(c, numSteps, es)) <==> c.whole
  {
    hide IsRun, Exec;
    if c.whole {
      forall es | IsRun(c, Start(numSteps), es) ensures ShipsAll(c, numSteps, es) {
        if Exec(c, Start(numSteps), es).closing.Done? {
          CloseShipsEverything(c, numSteps, es);
        }
      }
    } else {
      var es := PartialAckLosesRows(c, numSteps, "row");
      assert !ShipsAll(c, numSteps, es);
    }
  }

  /** Begin a step and add a row to it. */
  lemma {:induction false} BeginAndLog(c: Config, s: Sys, es: seq<Event>, i: nat, row: string) returns (r: seq<Event>)
    requires IsRun(c, s, es) && i < |Exec(c, s, es).rep.steps|
    requires !c.ordered
    ensures IsRun(c, s, r)
    ensures Exec(c, s, r).h.owners == Exec(c, s, es).h.owners + [i]
    ensures |Exec(c, s, r).rep.steps| == |Exec(c, s, es).rep.steps|
  {
    hide IsRun, Exec, Mask;
    r := Extend(c, s, es, Local(Begin(i)));
    r := Extend(c, s, r, Local(Log(row)));
  }

  /** Returning to an earlier step after another step's row makes the first step's range wrong. */
  lemma {:induction false} OutOfOrderStartsMisattribute(c: Config, numSteps: nat, row: string) returns (es: seq<Event>)
    requires !c.ordered && numSteps > 1
    ensures IsRun(c, Start(numSteps), es)
    ensures
      var s := Exec(c, Start(numSteps), es);
      s.h.owners == [0, 1, 0] && |s.rep.steps| == numSteps && !Exact(s, 0)
  {
    var s := Start(numSteps);
    es := [];
    assert IsRun(c, s, es) && Exec(c, s, es) == s;
    hide IsRun, Exec, Exact;
    es := BeginAndLog(c, s, es, 0, row);
    es := BeginAndLog(c, s, es, 1, row);
    es := BeginAndLog(c, s, es, 0, row);
    RangeExactIffContiguous(c, numSteps, es, 0);
    var owners := [0, 1, 0];
    assert owners[0] == 0 && owners[1] == 1 && owners[2] == 0;
    assert !Contiguous(owners, 0);
  }

  /** After a run, every step's range is exact. */
  ghost predicate AllExact(c: Config, numSteps: nat, es: seq<Event>)
    requires IsRun(c, Start(numSteps), es)
  {
    var s := Exec(c, Start(numSteps), es);
    forall i :: 0 <= i < |s.rep.steps| ==> Exact(s, i)
  }

  /** Ranges are exact in all runs exactly when steps start in order or there is at most one. */
  lemma {:induction false} RangesExactly(c: Config, numSteps: nat)
    ensures (forall es :: IsRun(c, Start(numSteps), es) ==> AllExact(c, numSteps, es)) <==> c.ordered || numSteps <= 1
  {
    hide IsRun, Exec, Exact;
    if c.ordered || numSteps <= 1 {
      forall es | IsRun(c, Start(numSteps), es) ensures AllExact(c, numSteps, es) {
        StepRangesExact(c, numSteps, es);
      }
    } else {
      var es := OutOfOrderStartsMisattribute(c, numSteps, "row");
      assert !AllExact(c, numSteps, es);
    }
  }
}
