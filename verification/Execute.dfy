/** `execute_operation` over the shared limiter and metrics, tied to the transition system. */
module Execute {
  import opened Prelude
  import opened Metrics
  import opened Operations

  class Semaphore {
    const limit: nat
    var free: nat

    constructor (limit: nat)
      ensures this.limit == limit && free == limit
    {
      this.limit := limit;
      free := limit;
    }
  }

  /** The limiter and the metrics hold what a state of the transition system says. */
  ghost predicate Shared(limiter: Semaphore, metrics: Registry, s: System)
    reads limiter, metrics
  {
    limiter.limit == s.limit && limiter.free == s.free && metrics.Read() == s.counters
  }

  lemma Prepend(s: System, event: Event, events: seq<Event>, t: System)
    requires Enabled(s, event) && Run(Next(s, event), events, t)
    ensures Run(s, [event] + events, t)
  {
    assert ([event] + events)[1..] == events;
  }

  /** From `s` to `t` an operation went from an await to its end by `event`: the permit it held is back, its gauge is
      down, and one total, that of the outcome, is up by one. */
  ghost predicate Closes(s: System, op: nat, event: Event, outcome: Outcome, t: System)
    requires op < |s.operations|
  {
    var was := s.operations[op];
    && Fits(event, outcome)
    && t.limit == s.limit && t.free == s.free + (if Holds(was) then 1 else 0)
    && t.counters == s.counters.Recorded(was.kind, outcome).Dropped(was.kind)
    && t.operations == s.operations[op := Operation(was.kind, Closed, outcome != Cancelled, Some(event), [outcome])]
  }

  /** How the timed inner future ends, if its caller stays. */
  datatype InnerResult = Answered | Errored | Elapsed

  /** The event is an end of the inner future with that result. */
  predicate Yields(event: Event, result: InnerResult) {
    match event
    case AcquireTimeout(_) => result.Errored?
    case ConnectionFailed(_) => result.Errored?
    case Finish(_, ok) => result == if ok then Answered else Errored
    case RequestTimeout(_) => result.Elapsed?
    case _ => false
  }

  /** From `s` to `t` one operation changed, and with it the counters. */
  ghost predicate OnlyMoves(s: System, op: nat, counters: Counters, next: Operation, t: System)
    requires op < |s.operations|
  {
    t == s.(counters := counters, operations := s.operations[op := next])
  }

  /** The guard's drop: two steps, the first of which bumps the cancelled total iff the guard was not completed. */
  lemma DropSettles(s: System, op: nat) returns (events: seq<Event>, t: System)
    requires op < |s.operations| && s.operations[op].phase.Dropping?
    ensures Run(s, events, t) && |events| == 2
    ensures var was := s.operations[op];
            OnlyMoves(s, op,
                      if was.completed then s.counters.Dropped(was.kind)
                      else s.counters.Recorded(was.kind, Cancelled).Dropped(was.kind),
                      was.(phase := Closed, recorded := was.recorded + (if was.completed then [] else [Cancelled])), t)
  {
    var tested := Next(s, Settle(op));
    t := Next(tested, Settle(op));
    assert Run(t, [], t);
    Prepend(tested, Settle(op), [], t);
    Prepend(s, Settle(op), [Settle(op)], t);
    events := [Settle(op)] + [Settle(op)];
    var was := s.operations[op];
    assert was.completed ==> was.recorded + [] == was.recorded;
    assert t.operations == s.operations[op := t.operations[op]];
  }

  /** The guard consumed by a result: its total, then its drop. */
  lemma CompleteSettles(s: System, op: nat) returns (events: seq<Event>, t: System)
    requires op < |s.operations| && s.operations[op].phase.Completing? && s.operations[op].recorded == []
    ensures Run(s, events, t) && |events| == 3
    ensures var was := s.operations[op];
            OnlyMoves(s, op, s.counters.Recorded(was.kind, was.phase.outcome).Dropped(was.kind),
                      was.(phase := Closed, completed := true, recorded := [was.phase.outcome]), t)
  {
    var completed := Next(s, Settle(op));
    events, t := DropSettles(completed, op);
    Prepend(s, Settle(op), events, t);
    events := [Settle(op)] + events;
    assert t.operations[op].recorded == [s.operations[op].phase.outcome];
    assert t.operations == s.operations[op := t.operations[op]];
  }

  /** The inner future ends, and the permit it held is given back. */
  lemma InnerEnds(s: System, op: nat, event: Event) returns (t: System)
    requires op < |s.operations| && Ends(event) && event.op == op && Enabled(s, event)
    ensures var was := s.operations[op];
            && t == s.(free := s.free + (if Holds(was) then 1 else 0),
                       operations := s.operations[op := was.(phase := Guarded(ResultOf(event)), ending := Some(event))])
            && forall events, u :: Run(t, events, u) ==>
                 Run(s, [event] + ((if Holds(was) then [Settle(op)] else []) + events), u)
  {
    var ended := Next(s, event);
    t := if Holds(s.operations[op]) then Next(ended, Settle(op)) else ended;
    forall events, u | Run(t, events, u)
      ensures Run(s, [event] + ((if Holds(s.operations[op]) then [Settle(op)] else []) + events), u)
    {
      if Holds(s.operations[op]) {
        Prepend(ended, Settle(op), events, u);
        Prepend(s, event, [Settle(op)] + events, u);
      } else {
        Prepend(s, event, events, u);
        assert [] + events == events;
      }
    }
    assert t.operations == s.operations[op := t.operations[op]];
  }

  /** Left alone once it has ended, an operation closes in at most four clean-up steps. */
  lemma CleanUp(s: System, op: nat, event: Event) returns (events: seq<Event>, outcome: Outcome, t: System)
    requires op < |s.operations| && LoggedOnce(s.operations[op])
    requires Ends(event) && event.op == op && Enabled(s, event)
    ensures Run(s, events, t) && |events| <= 5 && Closes(s, op, event, outcome, t)
  {
    var released := InnerEnds(s, op, event);
    hide Run, Next;
    if event.Cancel? {
      outcome := Cancelled;
      events, t := DropSettles(released, op);
    } else {
      outcome := ResultOf(event).value;
      events, t := CompleteSettles(released, op);
    }
    events := [event] + ((if Holds(s.operations[op]) then [Settle(op)] else []) + events);
    assert t.operations[op].recorded == [outcome];
    assert t.operations == s.operations[op := t.operations[op]];
  }

  /** A call of `execute_operation` as it is kept between awaits. Each method is what one resumption does, from
      whatever state the other calls have brought about meanwhile. */
  class Execution {
    const limiter: Semaphore
    const metrics: Registry
    const guard: Guard
    var permit: bool
    ghost const op: nat

    ghost predicate Shows(s: System)
      reads this, limiter, metrics, guard
    {
      && Shared(limiter, metrics, s)
      && op < |s.operations| && LoggedOnce(s.operations[op])
      && guard.metrics == metrics && guard.kind == s.operations[op].kind
      && guard.completed == s.operations[op].completed && permit == Holds(s.operations[op])
    }

    /** Up to the first await: the operation is begun. */
    constructor (limiter: Semaphore, metrics: Registry, kind: Kind, ghost s: System)
      requires Shared(limiter, metrics, s)
      modifies metrics`inflight
      ensures fresh(guard) && op == |s.operations| && this.limiter == limiter && this.metrics == metrics
      ensures Shows(Next(s, Begin(kind)))
    {
      this.limiter, this.metrics, permit, op := limiter, metrics, false, |s.operations|;
      var begun := metrics.BeginOperation(kind);
      guard := begun;
    }

    /** The permit is granted. */
    method Acquired(ghost s: System)
      requires Shows(s) && s.operations[op].phase.Waiting? && limiter.free > 0
      modifies this`permit, limiter
      ensures Shows(Next(s, Acquire(op)))
    {
      limiter.free := limiter.free - 1;
      permit := true;
    }

    /** The connection is handed over. */
    method Connected(ghost s: System)
      requires Shows(s) && s.operations[op].phase.Connecting?
      ensures Shows(Next(s, ConnectionReady(op)))
    {
    }

    /** The inner future goes away, and the permit with it. */
    method Release()
      modifies this`permit, limiter
      ensures !permit && limiter.free == old(limiter.free) + (if old(permit) then 1 else 0)
    {
      if permit {
        limiter.free := limiter.free + 1;
        permit := false;
      }
    }

    /** The inner future ends or the deadline passes: the guard is consumed by what came out. */
    method Return(result: InnerResult, ghost event: Event, ghost s: System)
      returns (ghost events: seq<Event>, ghost outcome: Outcome, ghost t: System)
      requires Shows(s) && Yields(event, result) && event.op == op && Enabled(s, event)
      modifies this`permit, limiter, guard, metrics`inflight, metrics`totals
      ensures Run(s, events, t) && Shows(t) && Closes(s, op, event, outcome, t)
    {
      events, outcome, t := CleanUp(s, op, event);
      Release();
      match result {
        case Answered => guard.Complete(Succeeded);
        case Errored => guard.Complete(Failed);
        case Elapsed => guard.Complete(TimedOut);
      }
    }

    /** The caller drops the call at an await. */
    method Drop(ghost s: System) returns (ghost events: seq<Event>, ghost outcome: Outcome, ghost t: System)
      requires Shows(s) && Suspended(s.operations[op])
      modifies this`permit, limiter, metrics`inflight, metrics`totals
      ensures Run(s, events, t) && Shows(t) && Closes(s, op, Event.Cancel(op), outcome, t)
    {
      events, outcome, t := CleanUp(s, op, Event.Cancel(op));
      Release();
      guard.Drop();
    }
  }

  /** The await at which a call ends. */
  datatype Stage = AtPermit | AtConnection | AtAnswer

  /** Where and how a call ends; no result when its caller leaves. Only Redis answers. */
  datatype Fate = Fate(stage: Stage, result: Option<InnerResult>) {
    predicate Possible() {
      result == Some(Answered) ==> stage.AtAnswer?
    }

    function Ending(op: nat): Event {
      match result
      case None => Event.Cancel(op)
      case Some(Elapsed) => RequestTimeout(op)
      case Some(Answered) => Finish(op, true)
      case Some(Errored) =>
        match stage
        case AtPermit => AcquireTimeout(op)
        case AtConnection => ConnectionFailed(op)
        case AtAnswer => Finish(op, false)
    }
  }

  /** The state in which a call begun in `s`, on its own, reaches an await. */
  ghost function Reached(s: System, kind: Kind, stage: Stage): System
    requires stage.AtPermit? || s.free > 0
  {
    var op, begun := |s.operations|, Next(s, Begin(kind));
    match stage
    case AtPermit => begun
    case AtConnection => Next(begun, Acquire(op))
    case AtAnswer => Next(Next(begun, Acquire(op)), ConnectionReady(op))
  }

  /** There the call can end as fated. */
  lemma ReachedIs(s: System, kind: Kind, fate: Fate)
    requires (fate.stage.AtPermit? || s.free > 0) && fate.Possible()
    ensures var op, t := |s.operations|, Reached(s, kind, fate.stage);
            && t.limit == s.limit && t.free == s.free - (if fate.stage.AtPermit? then 0 else 1)
            && t.counters == s.counters.Begun(kind)
            && t.operations == s.operations + [NewOperation(kind).(phase := StagePhase(fate.stage))]
            && Enabled(t, fate.Ending(op)) && (fate.result.Some? ==> Yields(fate.Ending(op), fate.result.value))
  {
  }

  function StagePhase(stage: Stage): Phase {
    match stage
    case AtPermit => Waiting
    case AtConnection => Connecting
    case AtAnswer => Running
  }

  lemma ReachedThen(s: System, kind: Kind, stage: Stage, rest: seq<Event>, t: System) returns (events: seq<Event>)
    requires (stage.AtPermit? || s.free > 0) && Run(Reached(s, kind, stage), rest, t)
    ensures Run(s, events, t)
  {
    var op, begun := |s.operations|, Next(s, Begin(kind));
    events := rest;
    if stage.AtAnswer? {
      Prepend(Next(begun, Acquire(op)), ConnectionReady(op), events, t);
      events := [ConnectionReady(op)] + events;
    }
    if !stage.AtPermit? {
      Prepend(begun, Acquire(op), events, t);
      events := [Acquire(op)] + events;
    }
    Prepend(s, Begin(kind), events, t);
    events := [Begin(kind)] + events;
  }

  /** From `s` to `t` a call came and went, with the given end and outcome. */
  ghost predicate CameAndWent(s: System, kind: Kind, ending: Event, outcome: Outcome, t: System) {
    && Fits(ending, outcome) && t.limit == s.limit && t.free == s.free
    && t.operations == s.operations + [Operation(kind, Closed, outcome != Cancelled, Some(ending), [outcome])]
    && (forall k :: Reading(t.counters.inflight, k) == Reading(s.counters.inflight, k))
    && (forall k, o :: Reading(t.counters.totals, (k, o)) ==
                       Reading(s.counters.totals, (k, o)) + (if (k, o) == (kind, outcome) then 1 else 0))
  }

  lemma ReachedCloses(s: System, kind: Kind, fate: Fate, outcome: Outcome, t: System)
    requires (fate.stage.AtPermit? || s.free > 0) && fate.Possible()
    requires |s.operations| < |Reached(s, kind, fate.stage).operations|
    requires Closes(Reached(s, kind, fate.stage), |s.operations|, fate.Ending(|s.operations|), outcome, t)
    ensures CameAndWent(s, kind, fate.Ending(|s.operations|), outcome, t)
  {
    ReachedIs(s, kind, fate);
    GuardBalances(s.counters, kind, outcome);
    hide Reached, Reading;
  }

  /** A whole call on its own is a run of the transition system that adds one closed operation, ended as fated. So its
      permit is back, the gauges are as before, and exactly one total moved, by one, under the fitting outcome. */
  method ExecuteOperation(limiter: Semaphore, metrics: Registry, kind: Kind, fate: Fate, ghost s: System)
    returns (ghost events: seq<Event>, ghost outcome: Outcome, ghost t: System)
    requires Shared(limiter, metrics, s) && fate.Possible()
    requires fate.stage.AtPermit? || limiter.free > 0
    modifies limiter, metrics`inflight, metrics`totals
    ensures Run(s, events, t) && Shared(limiter, metrics, t)
    ensures CameAndWent(s, kind, fate.Ending(|s.operations|), outcome, t)
  {
    ReachedIs(s, kind, fate);
    ReachedIs(s, kind, Fate(AtPermit, None));
    if !fate.stage.AtPermit? {
      ReachedIs(s, kind, Fate(AtConnection, None));
    }
    hide Next, Run, Enabled, Yields, CameAndWent;
    var call := new Execution(limiter, metrics, kind, s);
    if !fate.stage.AtPermit? {
      call.Acquired(Reached(s, kind, AtPermit));
    }
    if fate.stage.AtAnswer? {
      call.Connected(Reached(s, kind, AtConnection));
    }
    ghost var reached := Reached(s, kind, fate.stage);
    if fate.result.Some? {
      events, outcome, t := call.Return(fate.result.value, fate.Ending(call.op), reached);
    } else {
      events, outcome, t := call.Drop(reached);
    }
    ReachedCloses(s, kind, fate, outcome, t);
    events := ReachedThen(s, kind, fate.stage, events, t);
  }
}
