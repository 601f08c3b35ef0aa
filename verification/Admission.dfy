/** Operations and the target they run on, together: an admitted operation calls `connection()`, and uses what the call
    returns. */
module Admission {
  import opened Prelude
  import opened Counting
  import Operations
  import Shards = ShardProtocol
  import ShardWorker
  import RoundRobin

  /** `calls` gives the request of an operation once it is admitted, `callers` the operation of a request. */
  datatype System = System(
    operations: Operations.System,
    target: Shards.System,
    calls: seq<Option<nat>>,
    callers: seq<nat>
  )

  datatype Event =
    | Operate(event: Operations.Event)                // a step of an operation outside `connection()`
    | Work(shard: nat, input: ShardWorker.Input)      // a step of a supervisor
    | Advance(op: nat)                                // a step of an operation inside `connection()`

  function Init(limit: nat, shards: nat): System {
    System(Operations.Init(limit), Shards.Init(shards), [], [])
  }

  predicate IsConnecting(op: Operations.Operation) {
    op.phase.Connecting?
  }

  /** The request is inside `connection()`. */
  predicate IsInside(request: Shards.Request) {
    !request.Returned? && !request.Cancelled?
  }

  /** The request sleeps until the revision changes. */
  predicate IsAsleep(request: Shards.Request) {
    request.Blocked?
  }

  /** The operation's request, valid from its admission on. */
  predicate Called(s: System, op: nat) {
    op < |s.calls| && s.calls[op].Some? && s.calls[op].value < |s.target.requests|
  }

  /** The event ends an operation inside `connection()`, dropping the call. */
  predicate Leaves(s: System, event: Operations.Event) {
    (event.ConnectionFailed? || event.RequestTimeout? || event.Cancel?)
    && event.op < |s.operations.operations| && IsConnecting(s.operations.operations[event.op])
  }

  /** Only the request's return makes a connection ready; any other step of an operation is free. */
  predicate Enabled(s: System, event: Event) {
    match event
    case Operate(e) =>
      && Operations.Enabled(s.operations, e) && !e.ConnectionReady?
      && (e.Acquire? ==> e.op < |s.calls|)
      && (Leaves(s, e) ==> Called(s, e.op) && Shards.Enabled(s.target, Shards.Cancel(s.calls[e.op].value)))
    case Work(shard, input) => Shards.Enabled(s.target, Shards.Work(shard, input))
    case Advance(op) =>
      && Called(s, op) && Shards.Enabled(s.target, Shards.Advance(s.calls[op].value))
      && Operations.Enabled(s.operations, Operations.ConnectionReady(op))
  }

  function Next(s: System, event: Event): System
    requires Enabled(s, event)
  {
    match event
    case Operate(e) =>
      var operations := Operations.Next(s.operations, e);
      if e.Begin? then s.(operations := operations, calls := s.calls + [None])
      else if e.Acquire? then
        System(operations, Shards.Next(s.target, Shards.Arrive),
               s.calls[e.op := Some(|s.target.requests|)], s.callers + [e.op])
      else if Leaves(s, e) then
        s.(operations := operations, target := Shards.Next(s.target, Shards.Cancel(s.calls[e.op].value)))
      else s.(operations := operations)
    case Work(shard, input) => s.(target := Shards.Next(s.target, Shards.Work(shard, input)))
    case Advance(op) =>
      var target := Shards.Next(s.target, Shards.Advance(s.calls[op].value));
      if target.requests[s.calls[op].value].Returned? then
        s.(target := target, operations := Operations.Next(s.operations, Operations.ConnectionReady(op)))
      else s.(target := target)
  }

  ghost predicate Run(s: System, events: seq<Event>, t: System)
    decreases |events|
  {
    if events == [] then t == s
    else Enabled(s, events[0]) && Run(Next(s, events[0]), events[1..], t)
  }

  /** Operations and requests are paired, one request per admitted operation. */
  ghost predicate Paired(s: System) {
    && |s.calls| == |s.operations.operations| && |s.callers| == |s.target.requests|
    && (forall op :: 0 <= op < |s.calls| && s.calls[op].Some? ==>
          s.calls[op].value < |s.callers| && s.callers[s.calls[op].value] == op)
    && (forall r :: 0 <= r < |s.callers| ==> s.callers[r] < |s.calls| && s.calls[s.callers[r]] == Some(r))
  }

  /** Where an operation stands tells where its request stands. */
  ghost predicate InStep(s: System, op: nat)
    requires Paired(s) && op < |s.calls|
  {
    var phase := s.operations.operations[op].phase;
    && (phase.Waiting? ==> s.calls[op].None?)
    && (phase.Connecting? <==> s.calls[op].Some? && IsInside(s.target.requests[s.calls[op].value]))
    && (phase.Running? ==> s.calls[op].Some? && s.target.requests[s.calls[op].value].Returned?)
  }

  ghost predicate Linked(s: System) {
    && Paired(s)
    && (forall op :: 0 <= op < |s.calls| ==> InStep(s, op))
    && Count(s.target.requests, IsInside) == Count(s.operations.operations, IsConnecting)
  }

  /** Pairing costs nothing: whatever an operation could do by itself, short of being handed a connection, it can do
      here, and its call can take every step the target allows. */
  lemma NothingBlocked(s: System, e: Operations.Event, op: nat)
    requires Linked(s)
    ensures Operations.Enabled(s.operations, e) && !e.ConnectionReady? ==> Enabled(s, Operate(e))
    ensures op < |s.calls| && s.calls[op].Some? && Shards.Enabled(s.target, Shards.Advance(s.calls[op].value)) ==>
              Enabled(s, Advance(op))
  {
    if Operations.Enabled(s.operations, e) && !e.Begin? {
      assert InStep(s, e.op);
    }
    if op < |s.calls| {
      assert InStep(s, op);
    }
  }

  lemma BeginKeepsLinked(s: System, e: Operations.Event)
    requires Linked(s) && e.Begin? && Enabled(s, Operate(e))
    ensures Linked(Next(s, Operate(e)))
  {
    var t := Next(s, Operate(e));
    CountSnoc(s.operations.operations, Operations.NewOperation(e.kind), IsConnecting);
    forall op | 0 <= op < |t.calls| ensures InStep(t, op) {
      assert op < |s.calls| ==> InStep(s, op);
    }
  }

  /** A step of one operation and its request leaves the others in step. */
  lemma OthersInStep(s: System, t: System, op: nat, r: nat)
    requires Linked(s) && Paired(t) && op < |s.calls| == |t.calls| && |s.callers| <= |t.callers|
    requires r < |t.callers| ==> t.callers[r] == op
    requires forall o :: 0 <= o < |s.calls| && o != op ==>
               t.calls[o] == s.calls[o] && t.operations.operations[o] == s.operations.operations[o]
    requires forall q :: 0 <= q < |s.callers| && q != r ==> t.target.requests[q] == s.target.requests[q]
    requires InStep(t, op)
    ensures forall o :: 0 <= o < |t.calls| ==> InStep(t, o)
  {
    forall o | 0 <= o < |t.calls| ensures InStep(t, o) {
      assert InStep(s, o);
    }
  }

  lemma AcquireKeepsLinked(s: System, e: Operations.Event)
    requires Linked(s) && e.Acquire? && Enabled(s, Operate(e))
    ensures Linked(Next(s, Operate(e)))
  {
    var t := Next(s, Operate(e));
    assert InStep(s, e.op);
    CountUpdate(s.operations.operations, e.op, t.operations.operations[e.op], IsConnecting);
    CountSnoc(s.target.requests, Shards.Subscribed, IsInside);
    assert Paired(t);
    OthersInStep(s, t, e.op, |s.target.requests|);
  }

  lemma LeavingKeepsLinked(s: System, e: Operations.Event)
    requires Linked(s) && Leaves(s, e) && Enabled(s, Operate(e))
    ensures Linked(Next(s, Operate(e)))
  {
    var t := Next(s, Operate(e));
    assert InStep(s, e.op);
    CountUpdate(s.operations.operations, e.op, t.operations.operations[e.op], IsConnecting);
    CountUpdate(s.target.requests, s.calls[e.op].value, Shards.Cancelled, IsInside);
    assert Paired(t);
    OthersInStep(s, t, e.op, s.calls[e.op].value);
  }

  lemma OutsideKeepsLinked(s: System, e: Operations.Event)
    requires Linked(s) && !e.Begin? && !e.Acquire? && !Leaves(s, e) && Enabled(s, Operate(e))
    ensures Linked(Next(s, Operate(e)))
  {
    var t := Next(s, Operate(e));
    assert InStep(s, e.op);
    assert !Operations.Suspended(t.operations.operations[e.op]);
    hide Operations.Moves;
    CountUpdate(s.operations.operations, e.op, t.operations.operations[e.op], IsConnecting);
    assert Paired(t);
    OthersInStep(s, t, e.op, |s.callers|);
  }

  lemma AdvanceKeepsLinked(s: System, op: nat)
    requires Linked(s) && Enabled(s, Advance(op))
    ensures Linked(Next(s, Advance(op)))
  {
    var t := Next(s, Advance(op));
    var r := s.calls[op].value;
    assert InStep(s, op);
    CountUpdate(s.target.requests, r, t.target.requests[r], IsInside);
    if t.target.requests[r].Returned? {
      CountUpdate(s.operations.operations, op, t.operations.operations[op], IsConnecting);
    }
    assert Paired(t);
    hide Shards.AfterAdvance;
    OthersInStep(s, t, op, r);
  }

  lemma NextKeepsLinked(s: System, event: Event)
    requires Linked(s) && Enabled(s, event)
    ensures Linked(Next(s, event))
  {
    match event
    case Operate(e) =>
      if e.Begin? {
        BeginKeepsLinked(s, e);
      } else if e.Acquire? {
        AcquireKeepsLinked(s, e);
      } else if Leaves(s, e) {
        LeavingKeepsLinked(s, e);
      } else {
        OutsideKeepsLinked(s, e);
      }
    case Work(_, _) =>
      var t := Next(s, event);
      forall op | 0 <= op < |t.calls| ensures InStep(t, op) {
        assert InStep(s, op);
      }
    case Advance(op) => AdvanceKeepsLinked(s, op);
  }

  /** The operation's part of a step, and the target's: each none or one step of its own system. */
  function OperationPart(s: System, event: Event): seq<Operations.Event>
    requires Enabled(s, event)
  {
    match event
    case Operate(e) => [e]
    case Work(_, _) => []
    case Advance(op) =>
      var r := s.calls[op].value;
      if Shards.Next(s.target, Shards.Advance(r)).requests[r].Returned? then [Operations.ConnectionReady(op)] else []
  }

  function TargetPart(s: System, event: Event): seq<Shards.Event>
    requires Enabled(s, event)
  {
    match event
    case Operate(e) =>
      if e.Begin? then [] else if e.Acquire? then [Shards.Arrive]
      else if Leaves(s, e) then [Shards.Cancel(s.calls[e.op].value)] else []
    case Work(shard, input) => [Shards.Work(shard, input)]
    case Advance(op) => [Shards.Advance(s.calls[op].value)]
  }

  lemma StepProjects(s: System, event: Event)
    requires Enabled(s, event)
    ensures var o, u := OperationPart(s, event), Next(s, event).operations;
            if o == [] then u == s.operations
            else |o| == 1 && Operations.Enabled(s.operations, o[0]) && u == Operations.Next(s.operations, o[0])
    ensures var r, u := TargetPart(s, event), Next(s, event).target;
            if r == [] then u == s.target
            else |r| == 1 && Shards.Enabled(s.target, r[0]) && u == Shards.Next(s.target, r[0])
  {
  }

  /** Every run of the two together is a run of each: all that holds of either alone holds here. */
  lemma {:induction false} RunProjects(s: System, events: seq<Event>, t: System)
    returns (operations: seq<Operations.Event>, target: seq<Shards.Event>)
    requires Linked(s) && Run(s, events, t)
    ensures Linked(t)
    ensures Operations.Run(s.operations, operations, t.operations) && Shards.Run(s.target, target, t.target)
    decreases |events|
  {
    hide Linked, Enabled, Next, OperationPart, TargetPart;
    if events == [] {
      operations, target := [], [];
    } else {
      var u := Next(s, events[0]);
      StepProjects(s, events[0]);
      NextKeepsLinked(s, events[0]);
      operations, target := RunProjects(u, events[1..], t);
      var o, r := OperationPart(s, events[0]), TargetPart(s, events[0]);
      assert (o + operations)[|o|..] == operations && (r + target)[|r|..] == target;
      assert o == [] ==> o + operations == operations;
      assert r == [] ==> r + target == target;
      operations, target := o + operations, r + target;
    }
  }

  lemma InitLinked(limit: nat, shards: nat)
    ensures Linked(Init(limit, shards))
  {
  }

  /** The connection a request returned. */
  ghost predicate UsesInstalled(target: Shards.System, request: Shards.Request) {
    && request.Returned? && request.index < |target.shards|
    && Shards.WasInstalled(target.shards[request.index], request.generation, request.conn)
  }

  /** Admission guards the target: in every reachable state the requests inside `connection()` are exactly the calls of
      the operations awaiting a connection, one each; so with those in use they are at most `limit`, and no more
      ever sleep. Every operation that runs, runs on a connection its own request got, installed in a shard of the
      target under that generation. */
  lemma AdmissionGuardsTarget(limit: nat, shards: nat, events: seq<Event>, s: System)
    requires shards > 0 && Run(Init(limit, shards), events, s)
    ensures Paired(s)
    ensures forall r :: 0 <= r < |s.callers| ==>
              (IsInside(s.target.requests[r]) <==> IsConnecting(s.operations.operations[s.callers[r]]))
    ensures Count(s.target.requests, IsInside) == Count(s.operations.operations, IsConnecting)
    ensures Count(s.target.requests, IsAsleep) <= Count(s.target.requests, IsInside)
    ensures Count(s.target.requests, IsInside) + Count(s.operations.operations, Operations.Uses) + s.operations.free
            <= limit
    ensures forall op :: 0 <= op < |s.calls| && Operations.Uses(s.operations.operations[op]) ==>
              s.calls[op].Some? && UsesInstalled(s.target, s.target.requests[s.calls[op].value])
  {
    InitLinked(limit, shards);
    var operations, target := RunProjects(Init(limit, shards), events, s);
    Operations.OperationConservation(limit, operations, s.operations);
    CountImplies(s.target.requests, IsAsleep, IsInside);
    CountBoth(s.operations.operations);
    forall r | 0 <= r < |s.callers|
      ensures IsInside(s.target.requests[r]) <==> IsConnecting(s.operations.operations[s.callers[r]])
    {
      assert InStep(s, s.callers[r]);
    }
    Shards.InitInv(shards);
    Shards.RunKeepsInv(Shards.Init(shards), target, s.target);
    forall op | 0 <= op < |s.calls| && Operations.Uses(s.operations.operations[op])
      ensures s.calls[op].Some? && UsesInstalled(s.target, s.target.requests[s.calls[op].value])
    {
      assert InStep(s, op);
      assert Shards.RequestConsistent(s.target, s.target.requests[s.calls[op].value]);
    }
  }

  lemma {:induction false} CountBoth(operations: seq<Operations.Operation>)
    ensures Count(operations, IsConnecting) + Count(operations, Operations.Uses) <= Count(operations, Operations.Holds)
  {
    if operations != [] {
      CountBoth(operations[1..]);
    }
  }

  /** `count` steps of one operation inside `connection()` with nobody else moving. */
  function Solo(op: nat, count: nat): seq<Event> {
    seq(count, _ => Advance(op))
  }

  /** A request served by its own steps puts its operation to work. */
  lemma {:induction false} LiftSolo(s: System, op: nat, count: nat, target: Shards.System) returns (t: System)
    requires Linked(s) && op < |s.calls| && IsConnecting(s.operations.operations[op])
    requires Called(s, op) && Shards.Run(s.target, Shards.Solo(s.calls[op].value, count), target)
    requires s.calls[op].value < |target.requests| && target.requests[s.calls[op].value].Returned?
    ensures Run(s, Solo(op, count), t) && t.target == target
    ensures op < |t.operations.operations| && t.operations.operations[op].phase.Running?
    decreases count
  {
    var r := s.calls[op].value;
    assert InStep(s, op);
    var u := Next(s, Advance(op));
    assert Shards.Solo(r, count)[1..] == Shards.Solo(r, count - 1);
    assert Solo(op, count)[1..] == Solo(op, count - 1);
    if u.target.requests[r].Returned? {
      t := u;
      assert count == 1;
      assert Run(t, Solo(op, 0), t);
    } else {
      NextKeepsLinked(s, Advance(op));
      t := LiftSolo(u, op, count - 1, target);
    }
  }

  /** The promise to an admitted caller: once the workers are settled and some shard is connected, an operation asleep
      in `connection()`, left alone, goes on to run on the connection its ticket selects. */
  lemma AdmittedOperationServed(limit: nat, shards: nat, events: seq<Event>, s: System, op: nat)
    requires shards > 0 && Run(Init(limit, shards), events, s)
    requires Called(s, op) && IsAsleep(s.target.requests[s.calls[op].value])
    requires forall i :: 0 <= i < |s.target.shards| ==> !s.target.shards[i].Owes()
    requires exists i :: 0 <= i < |s.target.shards| && s.target.shards[i].Filled()
    ensures var r := s.calls[op].value;
            var picked := RoundRobin.SelectReadyShard(s.target.requests[r].start, Shards.ReadyFlags(s.target));
            exists count, t ::
              && Run(s, Solo(op, count), t)
              && op < |t.operations.operations| && t.operations.operations[op].phase.Running?
              && |t.target.requests| > r && t.target.requests[r].Returned? && Some(t.target.requests[r].index) == picked
  {
    InitLinked(limit, shards);
    var _, target := RunProjects(Init(limit, shards), events, s);
    var r := s.calls[op].value;
    assert InStep(s, op);
    Shards.SleeperServed(shards, target, s.target, r);
    var start := s.target.requests[r].start;
    var picked := RoundRobin.SelectReadyShard(start, Shards.ReadyFlags(s.target)).value;
    var count :| Shards.Run(s.target, Shards.Solo(r, count), Shards.Served(s.target, r, start, picked));
    var t := LiftSolo(s, op, count, Shards.Served(s.target, r, start, picked));
  }
}
