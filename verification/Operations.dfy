/** Redis operations under admission control: `execute_operation` for any number of concurrent callers, cut at
    every atomic effect, with cancellation possible at every await. */
module Operations {
  import opened Prelude
  import opened Counting
  import opened Metrics

  datatype Phase =
    | Waiting                               // awaiting a permit
    | Connecting                            // permit held, awaiting a connection
    | Running                               // permit held, the connection in use
    | Releasing(result: Option<Outcome>)    // the inner future is done, or dropped with its caller; the permit is next
    | Completing(outcome: Outcome)          // the guard's success, error or timeout is next
    | Dropping                              // the guard's drop begins: its test of `completed` is next
    | Lowering                              // the guard's drop ends: the in-flight gauge is next
    | Closed

  /** An operation: its phase and the `completed` flag of its guard, the event that ended its inner future, and a log
      of every total bumped on its behalf. */
  datatype Operation =
    Operation(kind: Kind, phase: Phase, completed: bool, ending: Option<Event>, recorded: seq<Outcome>)

  datatype System = System(limit: nat, free: int, counters: Counters, operations: seq<Operation>)

  datatype Event =
    | Begin(kind: Kind)
    | Acquire(op: nat)
    | AcquireTimeout(op: nat)
    | ConnectionReady(op: nat)
    | ConnectionFailed(op: nat)
    | Finish(op: nat, ok: bool)
    | RequestTimeout(op: nat)
    | Cancel(op: nat)
    | Settle(op: nat)

  function Init(limit: nat): System {
    System(limit, limit, Counters(map[], map[]), [])
  }

  /** The operation holds a permit. */
  predicate Holds(op: Operation) {
    op.phase.Connecting? || op.phase.Running? || op.phase.Releasing?
  }

  /** The operation is using a Redis connection. */
  predicate Uses(op: Operation) {
    op.phase.Running?
  }

  /** The operation is suspended at an await, where it can be timed out or dropped. */
  predicate Suspended(op: Operation) {
    op.phase.Waiting? || op.phase.Connecting? || op.phase.Running?
  }

  predicate Accepts(op: Operation, event: Event) {
    match event
    case Begin(_) => false
    case Acquire(_) => op.phase.Waiting?
    case AcquireTimeout(_) => op.phase.Waiting?
    case ConnectionReady(_) => op.phase.Connecting?
    case ConnectionFailed(_) => op.phase.Connecting?
    case Finish(_, _) => op.phase.Running?
    case RequestTimeout(_) => Suspended(op)
    case Cancel(_) => Suspended(op)
    case Settle(_) => !Suspended(op) && !op.phase.Closed?
  }

  predicate Enabled(s: System, event: Event) {
    event.Begin?
    || (event.op < |s.operations| && Accepts(s.operations[event.op], event) && (event.Acquire? ==> s.free > 0))
  }

  /** Once the inner future and its permit are gone: the guard is consumed with the result, or dropped without one. */
  function Guarded(result: Option<Outcome>): Phase {
    match result
    case Some(outcome) => Completing(outcome)
    case None => Dropping
  }

  /** The inner future ends: through the permit's drop if it holds one. */
  function Ended(op: Operation, event: Event, result: Option<Outcome>): Operation {
    op.(phase := if Holds(op) then Releasing(result) else Guarded(result), ending := Some(event))
  }

  /** The total the next step of the guard bumps, if any. `Drop` looks at the flag and nothing else. */
  function Bumps(op: Operation): Option<Outcome> {
    match op.phase
    case Completing(outcome) => Some(outcome)
    case Dropping => if op.completed then None else Some(Cancelled)
    case _ => None
  }

  /** The clean-up after the inner future, one effect at a time. */
  function Settled(op: Operation): Operation {
    var logged := if Bumps(op).Some? then op.(recorded := op.recorded + [Bumps(op).value]) else op;
    match op.phase
    case Releasing(result) => op.(phase := Guarded(result))
    case Completing(_) => logged.(phase := Dropping, completed := true)
    case Dropping => logged.(phase := Lowering)
    case Lowering => op.(phase := Closed)
    case _ => op
  }

  /** The event ends the inner future. */
  predicate Ends(event: Event) {
    event.AcquireTimeout? || event.ConnectionFailed? || event.Finish? || event.RequestTimeout? || event.Cancel?
  }

  /** What the inner future leaves to the guard: a result, or nothing when the caller left. */
  function ResultOf(event: Event): Option<Outcome>
    requires Ends(event)
  {
    match event
    case Finish(_, ok) => Some(if ok then Succeeded else Failed)
    case RequestTimeout(_) => Some(TimedOut)
    case Cancel(_) => None
    case _ => Some(Failed)
  }

  /** The operation's own part of a step. */
  function Moves(op: Operation, event: Event): Operation {
    if Ends(event) then Ended(op, event, ResultOf(event))
    else
      match event
      case Acquire(_) => op.(phase := Connecting)
      case ConnectionReady(_) => op.(phase := Running)
      case Settle(_) => Settled(op)
      case _ => op
  }

  function NewOperation(kind: Kind): Operation {
    Operation(kind, Waiting, false, None, [])
  }

  /** What a clean-up step does to the metrics. */
  function SettledCounters(counters: Counters, op: Operation): Counters {
    if Bumps(op).Some? then counters.Recorded(op.kind, Bumps(op).value)
    else if op.phase.Lowering? then counters.Dropped(op.kind)
    else counters
  }

  function Next(s: System, event: Event): System
    requires Enabled(s, event)
  {
    if event.Begin? then
      s.(counters := s.counters.Begun(event.kind), operations := s.operations + [NewOperation(event.kind)])
    else
      var op := s.operations[event.op];
      s.(free := if event.Acquire? then s.free - 1
                 else if event.Settle? && op.phase.Releasing? then s.free + 1 else s.free,
         counters := if event.Settle? then SettledCounters(s.counters, op) else s.counters,
         operations := s.operations[event.op := Moves(op, event)])
  }

  ghost predicate Run(s: System, events: seq<Event>, t: System)
    decreases |events|
  {
    if events == [] then t == s
    else Enabled(s, events[0]) && Run(Next(s, events[0]), events[1..], t)
  }

  /** Operations of a kind not yet closed. */
  function LiveOf(kind: Kind): Operation -> bool {
    (op: Operation) => op.kind == kind && !op.phase.Closed?
  }

  /** Operations of a kind recorded with an outcome. */
  function RecordedOf(kind: Kind, outcome: Outcome): Operation -> bool {
    (op: Operation) => op.kind == kind && outcome in op.recorded
  }

  /** What the guard's flag secures: at most one total was bumped, exactly one once the drop is past its test, and
      until then one iff the flag is set. */
  ghost predicate LoggedOnce(op: Operation) {
    match op.phase
    case Dropping => |op.recorded| == if op.completed then 1 else 0
    case Lowering => |op.recorded| == 1
    case Closed => |op.recorded| == 1
    case _ => !op.completed && op.recorded == []
  }

  /** The outcome that tells how an inner future ended: by an answer, a failure, the request deadline or the
      caller's departure. */
  predicate Fits(ending: Event, outcome: Outcome) {
    && (outcome == Succeeded <==> ending.Finish? && ending.ok)
    && (outcome == TimedOut <==> ending.RequestTimeout?)
    && (outcome == Cancelled <==> ending.Cancel?)
  }

  /** The outcome an operation is about to have recorded, given by the result in hand or by the flag. */
  function Pending(op: Operation): Option<Outcome> {
    if op.phase.Releasing? then Some(if op.phase.result.Some? then op.phase.result.value else Cancelled) else Bumps(op)
  }

  ghost predicate OutcomeFits(op: Operation) {
    if Suspended(op) then op.ending == None
    else
      && op.ending.Some?
      && (forall outcome :: outcome in op.recorded ==> Fits(op.ending.value, outcome))
      && (Pending(op).Some? ==> Fits(op.ending.value, Pending(op).value))
  }

  ghost predicate PermitsBalance(s: System) {
    0 <= s.free && s.free + Count(s.operations, Holds) == s.limit
  }

  ghost predicate GaugeAgrees(s: System, kind: Kind) {
    Reading(s.counters.inflight, kind) == Count(s.operations, LiveOf(kind))
  }

  ghost predicate TotalAgrees(s: System, kind: Kind, outcome: Outcome) {
    Reading(s.counters.totals, (kind, outcome)) == Count(s.operations, RecordedOf(kind, outcome))
  }

  ghost predicate Inv(s: System) {
    && PermitsBalance(s)
    && (forall kind :: GaugeAgrees(s, kind))
    && (forall kind, outcome :: TotalAgrees(s, kind, outcome))
    && (forall i :: 0 <= i < |s.operations| ==> LoggedOnce(s.operations[i]) && OutcomeFits(s.operations[i]))
  }

  lemma BeginKeepsInv(s: System, kind: Kind)
    requires Inv(s)
    ensures Inv(Next(s, Begin(kind)))
  {
    var t := Next(s, Begin(kind));
    var op := NewOperation(kind);
    CountSnoc(s.operations, op, Holds);
    forall k
      ensures GaugeAgrees(t, k)
    {
      assert GaugeAgrees(s, k);
      CountSnoc(s.operations, op, LiveOf(k));
    }
    forall k, o
      ensures TotalAgrees(t, k, o)
    {
      assert TotalAgrees(s, k, o);
      CountSnoc(s.operations, op, RecordedOf(k, o));
    }
  }

  /** The effect of a step on the flags the permits and the metrics count. */
  lemma MovesEffects(op: Operation, event: Event)
    requires Accepts(op, event)
    ensures var next := Moves(op, event);
            && next.kind == op.kind
            && Holds(next) == (event.Acquire? || (Holds(op) && !(event.Settle? && op.phase.Releasing?)))
            && (event.Acquire? ==> !Holds(op))
            && (next.phase.Closed? <==> event.Settle? && op.phase.Lowering?) && !op.phase.Closed?
            && next.recorded ==
               if event.Settle? && Bumps(op).Some? then op.recorded + [Bumps(op).value] else op.recorded
  {
  }

  lemma NextKeepsPermits(s: System, event: Event)
    requires PermitsBalance(s) && Enabled(s, event) && !event.Begin?
    ensures PermitsBalance(Next(s, event))
  {
    MovesEffects(s.operations[event.op], event);
    CountUpdate(s.operations, event.op, Moves(s.operations[event.op], event), Holds);
  }

  lemma NextKeepsGauge(s: System, event: Event, kind: Kind)
    requires GaugeAgrees(s, kind) && Enabled(s, event) && !event.Begin?
    ensures GaugeAgrees(Next(s, event), kind)
  {
    MovesEffects(s.operations[event.op], event);
    CountUpdate(s.operations, event.op, Moves(s.operations[event.op], event), LiveOf(kind));
  }

  lemma NextKeepsTotals(s: System, event: Event, kind: Kind, outcome: Outcome)
    requires TotalAgrees(s, kind, outcome) && Enabled(s, event) && !event.Begin?
    requires LoggedOnce(s.operations[event.op])
    ensures TotalAgrees(Next(s, event), kind, outcome)
  {
    MovesEffects(s.operations[event.op], event);
    CountUpdate(s.operations, event.op, Moves(s.operations[event.op], event), RecordedOf(kind, outcome));
  }

  lemma MovesKeepsLog(op: Operation, event: Event)
    requires Accepts(op, event) && LoggedOnce(op) && OutcomeFits(op)
    ensures LoggedOnce(Moves(op, event)) && OutcomeFits(Moves(op, event))
  {
  }

  lemma NextKeepsInv(s: System, event: Event)
    requires Inv(s) && Enabled(s, event)
    ensures Inv(Next(s, event))
  {
    if event.Begin? {
      BeginKeepsInv(s, event.kind);
    } else {
      var t := Next(s, event);
      NextKeepsPermits(s, event);
      forall k
        ensures GaugeAgrees(t, k)
      {
        NextKeepsGauge(s, event, k);
      }
      forall k, o
        ensures TotalAgrees(t, k, o)
      {
        NextKeepsTotals(s, event, k, o);
      }
      MovesKeepsLog(s.operations[event.op], event);
    }
  }

  lemma {:induction false} RunKeepsInv(s: System, events: seq<Event>, t: System)
    requires Inv(s) && Run(s, events, t)
    ensures Inv(t) && t.limit == s.limit
    decreases |events|
  {
    if events != [] {
      NextKeepsInv(s, events[0]);
      RunKeepsInv(Next(s, events[0]), events[1..], t);
    }
  }

  function OfKind(kind: Kind): Operation -> bool {
    (op: Operation) => op.kind == kind
  }

  function Unrecorded(kind: Kind): Operation -> bool {
    (op: Operation) => op.kind == kind && op.recorded == []
  }

  function HoldsOf(kind: Kind): Operation -> bool {
    (op: Operation) => op.kind == kind && Holds(op)
  }

  function TotalOf(s: System, kind: Kind): int {
    Reading(s.counters.totals, (kind, Succeeded)) + Reading(s.counters.totals, (kind, Failed))
    + Reading(s.counters.totals, (kind, TimedOut)) + Reading(s.counters.totals, (kind, Cancelled))
  }

  function Bit(b: bool): nat {
    if b then 1 else 0
  }

  lemma OutcomeIsOne(op: Operation, kind: Kind)
    requires |op.recorded| <= 1
    ensures Bit(OfKind(kind)(op)) ==
            Bit(Unrecorded(kind)(op)) + Bit(RecordedOf(kind, Succeeded)(op)) + Bit(RecordedOf(kind, Failed)(op))
            + Bit(RecordedOf(kind, TimedOut)(op)) + Bit(RecordedOf(kind, Cancelled)(op))
  {
    if op.recorded != [] {
      var outcome := op.recorded[0];
      assert outcome == Succeeded || outcome == Failed || outcome == TimedOut || outcome == Cancelled;
    }
  }

  /** The recorded operations of a kind are the begun ones less those still unrecorded. */
  lemma {:induction false} OutcomesPartition(ops: seq<Operation>, kind: Kind)
    requires forall i :: 0 <= i < |ops| ==> |ops[i].recorded| <= 1
    ensures Count(ops, OfKind(kind)) ==
            Count(ops, Unrecorded(kind)) + Count(ops, RecordedOf(kind, Succeeded))
            + Count(ops, RecordedOf(kind, Failed)) + Count(ops, RecordedOf(kind, TimedOut))
            + Count(ops, RecordedOf(kind, Cancelled))
  {
    hide OfKind, Unrecorded, RecordedOf;
    if ops != [] {
      OutcomesPartition(ops[1..], kind);
      OutcomeIsOne(ops[0], kind);
    }
  }

  /** Operation conservation: in every state reachable by any number of operations of all three kinds, cancelled,
      timed out or failed at any await, free permits plus holders is the limit, every connection in use belongs to
      a permit holder, and holders of a kind never exceed its in-flight gauge. Every begun operation is recorded at
      most once and, once closed, exactly once, with the outcome that fits how it ended; the totals of a kind are
      its begun operations less the unrecorded ones. */
  lemma OperationConservation(limit: nat, events: seq<Event>, s: System)
    requires Run(Init(limit), events, s)
    ensures s.free >= 0 && s.free + Count(s.operations, Holds) == limit
    ensures Count(s.operations, Uses) <= Count(s.operations, Holds) <= limit
    ensures forall kind :: Count(s.operations, HoldsOf(kind)) <= Reading(s.counters.inflight, kind)
    ensures forall kind :: TotalOf(s, kind) + Count(s.operations, Unrecorded(kind)) == Count(s.operations, OfKind(kind))
    ensures forall i :: 0 <= i < |s.operations| ==>
              && |s.operations[i].recorded| <= 1
              && (s.operations[i].phase.Closed? ==> |s.operations[i].recorded| == 1)
              && (s.operations[i].recorded != [] ==>
                    s.operations[i].ending.Some? && Fits(s.operations[i].ending.value, s.operations[i].recorded[0]))
  {
    assert Inv(Init(limit));
    RunKeepsInv(Init(limit), events, s);
    hide Run;
    CountImplies(s.operations, Uses, Holds);
    assert forall i :: 0 <= i < |s.operations| ==> LoggedOnce(s.operations[i]) && OutcomeFits(s.operations[i]);
    forall kind
      ensures Count(s.operations, HoldsOf(kind)) <= Reading(s.counters.inflight, kind)
      ensures TotalOf(s, kind) + Count(s.operations, Unrecorded(kind)) == Count(s.operations, OfKind(kind))
    {
      assert GaugeAgrees(s, kind);
      CountImplies(s.operations, HoldsOf(kind), LiveOf(kind));
      assert TotalAgrees(s, kind, Succeeded) && TotalAgrees(s, kind, Failed);
      assert TotalAgrees(s, kind, TimedOut) && TotalAgrees(s, kind, Cancelled);
      OutcomesPartition(s.operations, kind);
    }
  }

  /** When everything begun has closed, every permit is back, the gauges read zero, and the totals of each kind add
      up to the operations begun. */
  lemma DrainedBalances(limit: nat, events: seq<Event>, s: System)
    requires Run(Init(limit), events, s)
    requires forall i :: 0 <= i < |s.operations| ==> s.operations[i].phase.Closed?
    ensures s.free == limit
    ensures forall kind :: Reading(s.counters.inflight, kind) == 0
    ensures forall kind :: TotalOf(s, kind) == Count(s.operations, OfKind(kind))
  {
    OperationConservation(limit, events, s);
    assert Inv(Init(limit));
    RunKeepsInv(Init(limit), events, s);
    NoneCounted(s.operations, Holds);
    forall kind
      ensures Reading(s.counters.inflight, kind) == 0
      ensures TotalOf(s, kind) == Count(s.operations, OfKind(kind))
    {
      assert GaugeAgrees(s, kind);
      NoneCounted(s.operations, LiveOf(kind));
      NoneCounted(s.operations, Unrecorded(kind));
    }
  }
}
