/** A Redis target as an interleaved transition system: one worker per shard, any number of requests in
    `connection()`, every atomic operation one step. */
module ShardProtocol {
  import opened Prelude
  import opened Slots
  import opened ShardWorker
  import opened RoundRobin
  import opened Arithmetic

  /** A call of `connection()`, by the operation it does next. */
  datatype Request =
    | Subscribed                                              // next_connection.fetch_add
    | Marking(start: nat)                                     // borrow_and_update of the revision
    | Scanning(start: nat, seen: nat, offset: nat)            // borrow of the slot at this offset
    | Rereading(start: nat, seen: nat, index: nat)            // clone of the selected slot
    | Blocked(start: nat, seen: nat)                          // changed().await
    | Returned(start: nat, index: nat, generation: nat, conn: Conn)
    | Cancelled

  datatype System = System(
    shards: seq<Shard>,
    available: int,      // available_shards
    gauge: int,          // redis_connected_shards
    version: nat,        // version of the connection_changed channel
    revision: nat,       // the u64 it carries
    next: nat,           // next_connection
    requests: seq<Request>
  )

  datatype Event = Work(shard: nat, input: Input) | Arrive | Advance(request: nat) | Cancel(request: nat)

  function Init(shards: nat): System {
    System(seq(shards, _ => NEW_SHARD), 0, 0, 0, 0, 0, [])
  }

  predicate Enabled(s: System, event: Event) {
    match event
    case Work(i, input) => i < |s.shards| && Accepts(s.shards[i], input)
    case Arrive => true
    case Advance(r) =>
      && r < |s.requests|
      && !s.requests[r].Returned? && !s.requests[r].Cancelled?
      && (s.requests[r].Blocked? ==> s.requests[r].seen != s.version)
      && (s.requests[r].Scanning? ==> |s.shards| > 0)
      && (s.requests[r].Rereading? ==> s.requests[r].index < |s.shards|)
    case Cancel(r) => r < |s.requests| && !s.requests[r].Returned?
  }

  function AfterWork(s: System, i: nat, input: Input): System
    requires Enabled(s, Work(i, input))
  {
    var shard := s.shards[i];
    s.(shards := s.shards[i := Step(shard, input)],
       available := s.available + (if shard.worker.pc.InstallCount? then 1
                                   else if shard.worker.pc.RetireCount? then -1 else 0),
       gauge := s.gauge + (if shard.worker.pc.InstallGauge? then 1
                           else if shard.worker.pc.RetireGauge? then -1 else 0),
       version := s.version + (if shard.Bumps() then 1 else 0),
       revision := if shard.Bumps() then (s.revision + 1) % WORD else s.revision)
  }

  function AfterAdvance(s: System, request: Request): Request
    requires request.Blocked? ==> request.seen != s.version
    requires request.Scanning? ==> |s.shards| > 0
    requires request.Rereading? ==> request.index < |s.shards|
  {
    match request
    case Subscribed => Marking(s.next)
    case Marking(start) => if |s.shards| == 0 then Blocked(start, s.version) else Scanning(start, s.version, 0)
    case Scanning(start, seen, offset) =>
      var index := CyclicIndex(start, |s.shards|, offset);
      if s.shards[index].Filled() then Rereading(start, seen, index)
      else if offset + 1 < |s.shards| then Scanning(start, seen, offset + 1)
      else Blocked(start, seen)
    case Rereading(start, seen, index) =>
      var slot := s.shards[index].slot;
      if slot.connection.Some? then Returned(start, index, slot.generation, slot.connection.value)
      else Blocked(start, seen)
    case Blocked(start, seen) => Marking(start)
    case _ => request
  }

  function Next(s: System, event: Event): System
    requires Enabled(s, event)
  {
    match event
    case Work(i, input) => AfterWork(s, i, input)
    case Arrive => s.(requests := s.requests + [Subscribed])
    case Advance(r) =>
      s.(requests := s.requests[r := AfterAdvance(s, s.requests[r])],
         next := if s.requests[r].Subscribed? then (s.next + 1) % WORD else s.next)
    case Cancel(r) => s.(requests := s.requests[r := Cancelled])
  }

  /** `events` is a run from `s` to `t`. */
  ghost predicate Run(s: System, events: seq<Event>, t: System)
    decreases |events|
  {
    if events == [] then t == s
    else Enabled(s, events[0]) && Run(Next(s, events[0]), events[1..], t)
  }

  /** Nobody could be served, or a wake-up is on its way. */
  ghost predicate NoneReadyOrOwed(s: System) {
    (forall i :: 0 <= i < |s.shards| ==> !s.shards[i].Filled())
    || (exists i :: 0 <= i < |s.shards| && s.shards[i].Owes())
  }

  /** A slot already scanned under the current revision is empty, or its change is still to be announced. */
  ghost predicate RequestConsistent(s: System, request: Request) {
    match request
    case Scanning(start, seen, offset) =>
      && offset < |s.shards| && seen <= s.version
      && (seen == s.version ==>
            forall k :: 0 <= k < offset ==>
              var shard := s.shards[CyclicIndex(start, |s.shards|, k)]; !shard.Filled() || shard.Owes())
    case Rereading(start, seen, index) =>
      && index < |s.shards| && seen <= s.version
      && (seen == s.version ==> s.shards[index].Filled() || s.shards[index].Owes())
    case Blocked(start, seen) =>
      seen <= s.version && (seen == s.version ==> NoneReadyOrOwed(s))
    case Returned(start, index, generation, conn) =>
      index < |s.shards| && WasInstalled(s.shards[index], generation, conn)
    case _ => true
  }

  /** The connection was installed in this shard under this generation. */
  ghost predicate WasInstalled(shard: Shard, generation: nat, conn: Conn) {
    exists k: nat :: k < |shard.history.installed| && shard.history.installed[k] == conn
                     && generation == GenerationOf(k + 1)
  }

  ghost function CountedShards(s: System): set<int> {
    set i | 0 <= i < |s.shards| && s.shards[i].Counted()
  }

  ghost function GaugedShards(s: System): set<int> {
    set i | 0 <= i < |s.shards| && s.shards[i].Gauged()
  }

  ghost predicate ShardsConsistent(s: System) {
    forall i :: 0 <= i < |s.shards| ==> Consistent(s.shards[i])
  }

  ghost predicate CountersAgree(s: System) {
    s.available == |CountedShards(s)| && s.gauge == |GaugedShards(s)|
  }

  ghost predicate RequestsConsistent(s: System) {
    forall r :: 0 <= r < |s.requests| ==> RequestConsistent(s, s.requests[r])
  }

  ghost predicate Inv(s: System) {
    |s.shards| > 0 && ShardsConsistent(s) && CountersAgree(s) && RequestsConsistent(s)
    && RevisionAgrees(s)
  }

  /** The channel carries its own version, modulo the word. */
  ghost predicate RevisionAgrees(s: System) {
    s.revision == s.version % WORD
  }

  lemma InitInv(shards: nat)
    requires shards > 0
    ensures Inv(Init(shards))
  {
  }

  lemma CountedAfter(s: System, t: System, i: nat)
    requires i < |s.shards| == |t.shards| && t.shards == s.shards[i := t.shards[i]]
    ensures |CountedShards(t)| - |CountedShards(s)| ==
            (if t.shards[i].Counted() then 1 else 0) - (if s.shards[i].Counted() then 1 else 0)
  {
    var others := CountedShards(s) - {i};
    assert CountedShards(s) == if s.shards[i].Counted() then others + {i} else others;
    assert CountedShards(t) == if t.shards[i].Counted() then others + {i} else others;
  }

  lemma GaugedAfter(s: System, t: System, i: nat)
    requires i < |s.shards| == |t.shards| && t.shards == s.shards[i := t.shards[i]]
    ensures |GaugedShards(t)| - |GaugedShards(s)| ==
            (if t.shards[i].Gauged() then 1 else 0) - (if s.shards[i].Gauged() then 1 else 0)
  {
    var others := GaugedShards(s) - {i};
    assert GaugedShards(s) == if s.shards[i].Gauged() then others + {i} else others;
    assert GaugedShards(t) == if t.shards[i].Gauged() then others + {i} else others;
  }

  lemma WorkKeepsCounters(s: System, i: nat, input: Input)
    requires Inv(s) && Enabled(s, Work(i, input))
    ensures CountersAgree(AfterWork(s, i, input))
  {
    var t := AfterWork(s, i, input);
    StepEffects(s.shards[i], input);
    CountedAfter(s, t, i);
    GaugedAfter(s, t, i);
  }

  lemma WorkKeepsNoneReady(s: System, i: nat, input: Input)
    requires Inv(s) && Enabled(s, Work(i, input)) && !s.shards[i].Bumps() && NoneReadyOrOwed(s)
    ensures NoneReadyOrOwed(AfterWork(s, i, input))
  {
    var t := AfterWork(s, i, input);
    StepEffects(s.shards[i], input);
    if j :| 0 <= j < |s.shards| && s.shards[j].Owes() {
      assert t.shards[j].Owes();
    } else if t.shards[i].Filled() {
      assert t.shards[i].Owes();
    }
  }

  lemma StillInstalled(shard: Shard, next: Shard, generation: nat, conn: Conn)
    requires WasInstalled(shard, generation, conn) && shard.history.installed <= next.history.installed
    ensures WasInstalled(next, generation, conn)
  {
  }

  lemma WorkKeepsRequest(s: System, i: nat, input: Input, request: Request)
    requires Inv(s) && Enabled(s, Work(i, input)) && RequestConsistent(s, request)
    ensures RequestConsistent(AfterWork(s, i, input), request)
  {
    hide Step, Consistent, WasInstalled;
    var t := AfterWork(s, i, input);
    StepEffects(s.shards[i], input);
    match request
    case Blocked(_, _) =>
      if !s.shards[i].Bumps() && request.seen == s.version {
        WorkKeepsNoneReady(s, i, input);
      }
    case Returned(_, index, generation, conn) =>
      StillInstalled(s.shards[index], t.shards[index], generation, conn);
    case _ =>
  }

  lemma ScanCoversAll(s: System, start: nat)
    requires |s.shards| > 0
    requires forall k :: 0 <= k < |s.shards| ==>
               var shard := s.shards[CyclicIndex(start, |s.shards|, k)]; !shard.Filled() || shard.Owes()
    ensures NoneReadyOrOwed(s)
  {
    forall i | 0 <= i < |s.shards|
      ensures !s.shards[i].Filled() || s.shards[i].Owes()
    {
      assert CyclicIndex(start, |s.shards|, OffsetOf(start, |s.shards|, i)) == i;
    }
  }

  lemma ReturnedWasInstalled(shard: Shard)
    requires Consistent(shard) && shard.Filled()
    ensures WasInstalled(shard, shard.slot.generation, shard.slot.connection.value)
  {
    assert shard.history.installed[|shard.history.installed| - 1] == shard.slot.connection.value;
  }

  lemma AdvanceKeepsRequest(s: System, request: Request)
    requires Inv(s) && RequestConsistent(s, request)
    requires request.Blocked? ==> request.seen != s.version
    ensures RequestConsistent(s, AfterAdvance(s, request))
  {
    hide CyclicIndex, Consistent, WasInstalled, NoneReadyOrOwed, CountersAgree, RevisionAgrees;
    match request
    case Scanning(start, seen, offset) =>
      if AfterAdvance(s, request).Blocked? && seen == s.version {
        ScanCoversAll(s, start);
      }
    case Rereading(start, seen, index) =>
      if s.shards[index].Filled() {
        ReturnedWasInstalled(s.shards[index]);
      } else if seen == s.version {
        assert s.shards[index].Owes();
        SomeOwed(s, index);
      }
    case _ =>
  }

  lemma SomeOwed(s: System, i: nat)
    requires i < |s.shards| && s.shards[i].Owes()
    ensures NoneReadyOrOwed(s)
  {
  }

  lemma WorkKeepsRevision(s: System, i: nat, input: Input)
    requires RevisionAgrees(s) && Enabled(s, Work(i, input))
    ensures RevisionAgrees(AfterWork(s, i, input))
  {
    WrapsAgain(s.version);
    hide Step;
  }

  lemma WrapsAgain(n: nat)
    ensures (n % WORD + 1) % WORD == (n + 1) % WORD
  {
  }

  lemma WorkKeepsInv(s: System, i: nat, input: Input)
    requires Inv(s) && Enabled(s, Work(i, input))
    ensures Inv(Next(s, Work(i, input)))
  {
    StepKeepsConsistent(s.shards[i], input);
    WorkKeepsCounters(s, i, input);
    WorkKeepsRevision(s, i, input);
    hide RevisionAgrees;
    forall r | 0 <= r < |s.requests|
      ensures RequestConsistent(AfterWork(s, i, input), s.requests[r])
    {
      WorkKeepsRequest(s, i, input, s.requests[r]);
    }
    hide Consistent, Step, RequestConsistent, CountersAgree;
  }

  lemma NextKeepsInv(s: System, event: Event)
    requires Inv(s) && Enabled(s, event)
    ensures Inv(Next(s, event))
  {
    match event
    case Work(i, input) => WorkKeepsInv(s, i, input);
    case Advance(r) =>
      AdvanceKeepsRequest(s, s.requests[r]);
      SameShardsKeepInv(s, Next(s, event));
    case _ =>
      SameShardsKeepInv(s, Next(s, event));
  }

  /** Requests read the shards and write nothing they share but the ticket counter. */
  lemma SameShardsKeepInv(s: System, t: System)
    requires Inv(s)
    requires t.shards == s.shards && t.available == s.available && t.gauge == s.gauge
    requires t.version == s.version && t.revision == s.revision
    requires forall r :: 0 <= r < |t.requests| ==> RequestConsistent(s, t.requests[r])
    ensures Inv(t)
  {
  }

  lemma {:induction false} RunKeepsInv(s: System, events: seq<Event>, t: System)
    requires Inv(s) && Run(s, events, t)
    ensures Inv(t) && |t.shards| == |s.shards|
    decreases |events|
  {
    if events != [] {
      NextKeepsInv(s, events[0]);
      RunKeepsInv(Next(s, events[0]), events[1..], t);
    }
  }

  /** No lost wakeup: in every interleaving, a request asleep on the current revision has nothing to miss: every
      slot is empty, or some worker still owes the bump that will wake it. */
  lemma NoLostWakeup(shards: nat, events: seq<Event>, s: System, r: nat)
    requires shards > 0 && Run(Init(shards), events, s)
    requires r < |s.requests| && s.requests[r].Blocked? && !Enabled(s, Advance(r))
    ensures (forall i :: 0 <= i < |s.shards| ==> !s.shards[i].Filled())
            || (exists i :: 0 <= i < |s.shards| && s.shards[i].Owes())
  {
    InitInv(shards);
    RunKeepsInv(Init(shards), events, s);
    assert RequestConsistent(s, s.requests[r]);
  }

  ghost function FilledShards(s: System): set<int> {
    set i | 0 <= i < |s.shards| && s.shards[i].Filled()
  }

  ghost function FilledNotCountedShards(s: System): set<int> {
    set i | 0 <= i < |s.shards| && s.shards[i].FilledNotCounted()
  }

  ghost function ClearedNotUncountedShards(s: System): set<int> {
    set i | 0 <= i < |s.shards| && s.shards[i].ClearedNotUncounted()
  }

  lemma SubsetOfRange(members: set<int>, n: nat)
    requires forall i :: i in members ==> 0 <= i < n
    ensures |members| <= n
  {
    var range := Interval(0, n);
    assert range == members + (range - members);
  }

  lemma CountedDecomposed(s: System)
    ensures |CountedShards(s)| ==
            |FilledShards(s)| - |FilledNotCountedShards(s)| + |ClearedNotUncountedShards(s)|
  {
    var filled, early, late := FilledShards(s), FilledNotCountedShards(s), ClearedNotUncountedShards(s);
    var counted := filled - early;
    assert filled == counted + early;
    assert CountedShards(s) == counted + late;
  }

  lemma SettledSets(s: System)
    requires forall i :: 0 <= i < |s.shards| ==> !s.shards[i].Owes()
    ensures CountedShards(s) == FilledShards(s) && GaugedShards(s) == FilledShards(s)
  {
  }

  /** Shard accounting: in every reachable state the counter is the filled slots, less those filled but not yet
      counted, plus those cleared but not yet uncounted. So it stays within 0..=shards, no fetch_sub meets zero,
      and with no update in flight it is the number of filled slots. */
  lemma ShardAccounting(shards: nat, events: seq<Event>, s: System)
    requires shards > 0 && Run(Init(shards), events, s)
    ensures s.available ==
            |FilledShards(s)| - |FilledNotCountedShards(s)| + |ClearedNotUncountedShards(s)|
    ensures 0 <= s.available <= shards && 0 <= s.gauge <= shards
    ensures forall i :: 0 <= i < |s.shards| && s.shards[i].worker.pc.RetireCount? ==> s.available >= 1
    ensures (forall i :: 0 <= i < |s.shards| ==> !s.shards[i].Owes()) ==>
              s.available == |FilledShards(s)| && s.gauge == |FilledShards(s)|
  {
    InitInv(shards);
    RunKeepsInv(Init(shards), events, s);
    CountedDecomposed(s);
    SubsetOfRange(CountedShards(s), shards);
    SubsetOfRange(GaugedShards(s), shards);
    forall i | 0 <= i < |s.shards| && s.shards[i].worker.pc.RetireCount?
      ensures s.available >= 1
    {
      assert Consistent(s.shards[i]);
      assert i in CountedShards(s);
    }
    if forall i :: 0 <= i < |s.shards| ==> !s.shards[i].Owes() {
      SettledSets(s);
    }
  }

  /** Readiness of a list of targets, as `targets_ready` reads their counters. */
  predicate TargetsReady(targets: seq<System>) {
    targets != [] && forall i :: 0 <= i < |targets| ==> targets[i].available > 0
  }

  /** With no update in flight anywhere, the bridge reports ready exactly when it has targets and each of them
      has a connection. */
  lemma ReadyMeansConnected(targets: seq<System>)
    requires forall t :: t in targets ==>
               exists shards: nat, events :: shards > 0 && Run(Init(shards), events, t)
    requires forall t, i :: t in targets && 0 <= i < |t.shards| ==> !t.shards[i].Owes()
    ensures TargetsReady(targets) <==>
            targets != [] && forall t :: t in targets ==> exists i :: 0 <= i < |t.shards| && t.shards[i].Filled()
  {
    forall t | t in targets
      ensures t.available > 0 <==> exists i :: 0 <= i < |t.shards| && t.shards[i].Filled()
    {
      var shards: nat, events :| shards > 0 && Run(Init(shards), events, t);
      ShardAccounting(shards, events, t);
      if i :| 0 <= i < |t.shards| && t.shards[i].Filled() {
        assert i in FilledShards(t);
      } else {
        assert FilledShards(t) == {};
      }
    }
  }

  /** Every connection a request returns was installed in that shard under that generation. The `disconnected` calls
      that answered true were one for each connection ever installed but the one in the slot, in the order and
      under the generations of their installation, and no call answered false. */
  lemma ConnectionsAccounted(shards: nat, events: seq<Event>, s: System, i: nat)
    requires shards > 0 && Run(Init(shards), events, s) && i < |s.shards|
    ensures forall r :: 0 <= r < |s.requests| && s.requests[r].Returned? && s.requests[r].index == i ==>
              WasInstalled(s.shards[i], s.requests[r].generation, s.requests[r].conn)
    ensures var h := s.shards[i].history;
            && |h.installed| == |h.retired| + (if s.shards[i].Filled() then 1 else 0)
            && (forall k :: 0 <= k < |h.retired| ==> h.retired[k] == GenerationOf(k + 1))
            && (s.shards[i].Filled() ==> s.shards[i].slot.generation == GenerationOf(|h.installed|))
            && h.refused == 0
  {
    InitInv(shards);
    RunKeepsInv(Init(shards), events, s);
    assert Consistent(s.shards[i]);
    forall r | 0 <= r < |s.requests| && s.requests[r].Returned? && s.requests[r].index == i
      ensures WasInstalled(s.shards[i], s.requests[r].generation, s.requests[r].conn)
    {
      assert RequestConsistent(s, s.requests[r]);
    }
  }

  /** Supervisor runs: in every reachable state, at every shard, a worker about to retire has just seen the first
      pair of failed probes in the life of the connection in its slot, what it clears is that connection, and the
      delays slept since the last successful connect are min(250 * 2^k, 5000) for k = 0, 1, 2, ... */
  lemma SupervisorRuns(shards: nat, events: seq<Event>, s: System, i: nat)
    requires shards > 0 && Run(Init(shards), events, s) && i < |s.shards|
    ensures forall k :: 0 <= k < |s.shards[i].history.sleeps| ==>
              s.shards[i].history.sleeps[k] == Min(250 * Pow2(k), 5000)
    ensures s.shards[i].worker.pc.RetireSlot? ==>
              var h := s.shards[i].history;
              && |h.probes| >= 2 && !h.probes[|h.probes| - 1] && !h.probes[|h.probes| - 2]
              && NoEarlierPair(h.probes)
              && h.installed != [] && s.shards[i].slot.connection == Some(Last(h.installed))
              && !Next(s, Work(i, Tick)).shards[i].Filled()
    ensures !(s.shards[i].worker.pc.Probing? && Accepts(s.shards[i], SlotChanged))
  {
    InitInv(shards);
    RunKeepsInv(Init(shards), events, s);
    assert Consistent(s.shards[i]);
    SlotChangeNeverFires(s.shards[i]);
    if s.shards[i].worker.pc.RetireSlot? {
      RetirementIsExact(s.shards[i]);
    }
  }

  /** The steps of one request along a run. */
  function Advances(events: seq<Event>, r: nat): nat {
    if events == [] then 0 else (if events[0] == Advance(r) then 1 else 0) + Advances(events[1..], r)
  }

  /** What a request can still do before a further bump: the rest of its loop, and one more loop if the revision it
      saw is already out of date. */
  ghost function StepsLeft(s: System, request: Request): int {
    var loop := |s.shards| + 3;
    match request
    case Subscribed => loop
    case Marking(_) => loop - 1
    case Scanning(_, seen, offset) => |s.shards| - offset + 1 + (if seen < s.version then loop else 0)
    case Rereading(_, seen, _) => 1 + (if seen < s.version then loop else 0)
    case Blocked(_, seen) => if seen < s.version then loop else 0
    case _ => 0
  }

  lemma AdvanceSpends(s: System, request: Request)
    requires |s.shards| > 0 && RequestConsistent(s, request) && !request.Returned? && !request.Cancelled?
    requires request.Blocked? ==> request.seen != s.version
    ensures StepsLeft(s, AfterAdvance(s, request)) + 1 <= StepsLeft(s, request)
  {
    hide NoneReadyOrOwed, WasInstalled;
  }

  /** The steps a bump on the way from `s` to `t` grants every request: a loop's worth. */
  ghost function Granted(s: System, t: System): int {
    if t.version > s.version then |s.shards| + 3 else 0
  }

  lemma BumpGrants(s: System, t: System, request: Request)
    requires |t.shards| == |s.shards| && s.version <= t.version && RequestConsistent(s, request)
    ensures StepsLeft(t, request) <= StepsLeft(s, request) + Granted(s, t)
  {
    hide NoneReadyOrOwed, WasInstalled;
  }

  /** A step never shrinks the target, and bumps the version by one at most. */
  lemma StepShape(s: System, event: Event, r: nat)
    requires Enabled(s, event) && r < |s.requests|
    ensures var t := Next(s, event);
            && s.version <= t.version <= s.version + 1 && |t.shards| == |s.shards| && r < |t.requests|
            && t.requests[r] == (if event == Advance(r) then AfterAdvance(s, s.requests[r])
                                 else if event == Cancel(r) then Cancelled else s.requests[r])
            && (event == Advance(r) ==> t.version == s.version)
  {
    hide AfterAdvance, Step;
  }

  /** A step spends one of the request's own, and only a bump grants new ones. */
  lemma StepSpends(s: System, event: Event, r: nat)
    requires Inv(s) && Enabled(s, event) && r < |s.requests|
    ensures var t := Next(s, event);
            && s.version <= t.version <= s.version + 1 && |t.shards| == |s.shards| && r < |t.requests|
            && StepsLeft(t, t.requests[r]) + (if event == Advance(r) then 1 else 0) <=
               StepsLeft(s, s.requests[r]) + Granted(s, t)
  {
    var t := Next(s, event);
    var request := s.requests[r];
    assert RequestConsistent(s, request);
    StepShape(s, event, r);
    StepsLeftIsNat(s, r);
    if event == Advance(r) {
      AdvanceSpends(s, request);
    } else {
      BumpGrants(s, t, request);
    }
    hide Inv, RequestConsistent, Next, AfterAdvance;
  }

  lemma {:induction false} RunSpends(s: System, events: seq<Event>, t: System, r: nat)
    requires Inv(s) && Run(s, events, t) && r < |s.requests|
    ensures r < |t.requests| && t.version >= s.version && |t.shards| == |s.shards|
    ensures Advances(events, r) + StepsLeft(t, t.requests[r]) <=
            StepsLeft(s, s.requests[r]) + (|s.shards| + 3) * (t.version - s.version)
    decreases |events|
  {
    hide Inv, StepsLeft, Next, Enabled;
    if events != [] {
      var u := Next(s, events[0]);
      StepSpends(s, events[0], r);
      NextKeepsInv(s, events[0]);
      RunSpends(u, events[1..], t, r);
      Distribute(|s.shards| + 3, u.version - s.version, t.version - u.version);
    }
  }

  lemma StepsLeftIsNat(s: System, r: nat)
    requires Inv(s) && r < |s.requests|
    ensures StepsLeft(s, s.requests[r]) >= 0
  {
    assert RequestConsistent(s, s.requests[r]);
  }

  /** Bounded work: whatever the workers and the other requests do meanwhile, a request takes at most |shards| + 3
      steps for itself and as many again for each revision bump since it arrived. */
  lemma RequestStepsBounded(shards: nat, before: seq<Event>, s: System, events: seq<Event>, t: System, r: nat)
    requires shards > 0 && Run(Init(shards), before, s) && Run(s, events, t)
    requires r < |s.requests| && s.requests[r].Subscribed?
    ensures t.version >= s.version
    ensures Advances(events, r) <= (shards + 3) * (1 + t.version - s.version)
  {
    hide Run, Inv;
    InitInv(shards);
    RunKeepsInv(Init(shards), before, s);
    RunKeepsInv(s, events, t);
    RunSpends(s, events, t, r);
    StepsLeftIsNat(t, r);
    Distribute(shards + 3, 1, t.version - s.version);
  }

  ghost function ReadyFlags(s: System): seq<bool> {
    seq(|s.shards|, i requires 0 <= i < |s.shards| => s.shards[i].Filled())
  }

  /** `count` steps of one request with nobody else moving. */
  function Solo(r: nat, count: nat): seq<Event> {
    seq(count, _ => Advance(r))
  }

  /** The system in which request `r` has returned the connection found at `index`, and nothing else changed. */
  ghost function Served(s: System, r: nat, start: nat, index: nat): System
    requires r < |s.requests| && index < |s.shards| && s.shards[index].Filled()
  {
    var slot := s.shards[index].slot;
    s.(requests := s.requests[r := Returned(start, index, slot.generation, slot.connection.value)])
  }

  /** A step of request `r` that only moves that request. */
  lemma SoloStep(s: System, r: nat, start: nat, index: nat, count: nat)
    requires r < |s.requests| && Enabled(s, Advance(r)) && !s.requests[r].Subscribed?
    requires index < |s.shards| && s.shards[index].Filled()
    requires var t := Next(s, Advance(r)); Run(t, Solo(r, count), Served(t, r, start, index))
    ensures Run(s, Solo(r, count + 1), Served(s, r, start, index))
  {
    var t := Next(s, Advance(r));
    assert Solo(r, count + 1)[1..] == Solo(r, count);
    assert Served(t, r, start, index) == Served(s, r, start, index) by {
      assert Served(t, r, start, index).requests == Served(s, r, start, index).requests;
    }
  }

  lemma {:induction false} SoloScan(s: System, r: nat, offset: nat, first: nat)
    requires |s.shards| > 0 && r < |s.requests| && s.requests[r].Scanning? && s.requests[r].offset == offset
    requires FirstReadyAt(s.requests[r].start, ReadyFlags(s), first) && offset <= first
    ensures var index := CyclicIndex(s.requests[r].start, |s.shards|, first);
            s.shards[index].Filled()
            && Run(s, Solo(r, first - offset + 2), Served(s, r, s.requests[r].start, index))
    decreases first - offset
  {
    var start := s.requests[r].start;
    var index := CyclicIndex(start, |s.shards|, first);
    assert ReadyFlags(s)[index];
    var t := Next(s, Advance(r));
    if offset < first {
      assert !ReadyFlags(s)[CyclicIndex(start, |s.shards|, offset)];
      assert ReadyFlags(t) == ReadyFlags(s);
      SoloScan(t, r, offset + 1, first);
    } else {
      assert t.requests[r] == Rereading(start, s.requests[r].seen, index);
      var u := Next(t, Advance(r));
      assert u.requests == Served(u, r, start, index).requests;
      assert Run(u, Solo(r, 0), Served(u, r, start, index));
      SoloStep(t, r, start, index, 0);
    }
    SoloStep(s, r, start, index, first - offset + 1);
  }

  lemma SoloFromMarking(s: System, r: nat, first: nat)
    requires |s.shards| > 0 && r < |s.requests| && s.requests[r].Marking?
    requires FirstReadyAt(s.requests[r].start, ReadyFlags(s), first)
    ensures var index := CyclicIndex(s.requests[r].start, |s.shards|, first);
            s.shards[index].Filled()
            && Run(s, Solo(r, first + 3), Served(s, r, s.requests[r].start, index))
  {
    var t := Next(s, Advance(r));
    assert ReadyFlags(t) == ReadyFlags(s);
    SoloScan(t, r, 0, first);
    SoloStep(s, r, s.requests[r].start, CyclicIndex(s.requests[r].start, |s.shards|, first), first + 2);
  }

  /** Whenever some slot is filled, a request that is about to look, left alone, returns the connection of the
      shard `select_ready_shard` picks for its ticket: the slot-by-slot scan refines the function. */
  lemma SoloRequestServed(s: System, r: nat)
    requires r < |s.requests| && s.requests[r].Marking?
    requires exists i :: 0 <= i < |s.shards| && s.shards[i].Filled()
    ensures var start := s.requests[r].start;
            var picked := SelectReadyShard(start, ReadyFlags(s));
            && picked.Some? && picked.value < |s.shards| && s.shards[picked.value].Filled()
            && exists count :: Run(s, Solo(r, count), Served(s, r, start, picked.value))
  {
    var start := s.requests[r].start;
    var flags := ReadyFlags(s);
    var i :| 0 <= i < |s.shards| && s.shards[i].Filled();
    assert flags[i];
    var first := LeastReady(start, flags, OffsetOf(start, |flags|, i));
    FindReadyFirst(start, flags, 0, first);
    SoloFromMarking(s, r, first);
  }

  /** The promise behind the protocol: once the workers are settled and some shard is connected, any sleeping
      request can be woken, and left alone it returns the connection its ticket selects. */
  lemma SleeperServed(shards: nat, events: seq<Event>, s: System, r: nat)
    requires shards > 0 && Run(Init(shards), events, s)
    requires r < |s.requests| && s.requests[r].Blocked?
    requires forall i :: 0 <= i < |s.shards| ==> !s.shards[i].Owes()
    requires exists i :: 0 <= i < |s.shards| && s.shards[i].Filled()
    ensures var start := s.requests[r].start;
            var picked := SelectReadyShard(start, ReadyFlags(s));
            && picked.Some? && picked.value < |s.shards| && s.shards[picked.value].Filled()
            && exists count :: Run(s, Solo(r, count), Served(s, r, start, picked.value))
  {
    if !Enabled(s, Advance(r)) {
      NoLostWakeup(shards, events, s, r);
      assert false;
    }
    var start := s.requests[r].start;
    var t := Next(s, Advance(r));
    assert ReadyFlags(t) == ReadyFlags(s);
    var i :| 0 <= i < |s.shards| && s.shards[i].Filled();
    assert t.shards[i].Filled();
    SoloRequestServed(t, r);
    var index := SelectReadyShard(start, ReadyFlags(t)).value;
    var count :| Run(t, Solo(r, count), Served(t, r, start, index));
    SoloStep(s, r, start, index, count);
  }
}
