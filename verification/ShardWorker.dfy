/** One shard and the worker that supervises it: `maintain_connection` cut at every atomic operation. */
module ShardWorker {
  import opened Prelude
  import opened Slots
  import Backoff

  const MAX_FAILED_PROBES: nat := 2

  /** Where the worker stands; each constructor but the waiting ones names the atomic operation it does next. */
  datatype Pc =
    | Starting                       // the staggered first sleep
    | LoopTop                        // borrow_and_update of the slot
    | Probing(seen: Slot)            // select between a slot change and the next PING
    | RetireSlot(seen: Slot)         // send_if_modified in disconnected
    | RetireGauge                    // redis_connected_shards.dec
    | RetireCount                    // available_shards.fetch_sub
    | RetireRevision                 // connection_changed.send_modify
    | Connecting                     // waiting for a connection manager
    | InstallSlot(conn: Conn)        // send_modify in connected
    | InstallGauge                   // redis_connected_shards.inc
    | InstallCount                   // available_shards.fetch_add
    | InstallRevision                // connection_changed.send_modify
    | Sleeping                       // sleep(backoff)

  datatype Worker = Worker(pc: Pc, backoff: nat, failures: nat, failedProbes: nat)

  /** What has happened at the shard, as an observer would log it. */
  datatype History = History(
    installed: seq<Conn>,   // every connection installed, in order
    retired: seq<nat>,      // the generations of the disconnected calls that answered true, in order
    refused: nat,           // disconnected calls that answered false
    probes: seq<bool>,      // PING outcomes of the connection installed last
    sleeps: seq<nat>        // delays slept since the last successful connect
  )

  datatype Shard = Shard(slot: Slot, worker: Worker, history: History) {
    predicate Filled() {
      slot.Filled()
    }

    /** The slot changed and the revision bump announcing it is still to come. */
    predicate Owes() {
      worker.pc.RetireGauge? || worker.pc.RetireCount? || worker.pc.RetireRevision?
      || worker.pc.InstallGauge? || worker.pc.InstallCount? || worker.pc.InstallRevision?
    }

    /** The next step bumps the revision. */
    predicate Bumps() {
      worker.pc.RetireRevision? || worker.pc.InstallRevision?
    }

    predicate FilledNotCounted() {
      slot.Filled() && (worker.pc.InstallGauge? || worker.pc.InstallCount?)
    }

    predicate ClearedNotUncounted() {
      !slot.Filled() && (worker.pc.RetireGauge? || worker.pc.RetireCount?)
    }

    /** The shard is included in available_shards. */
    predicate Counted() {
      (slot.Filled() && !FilledNotCounted()) || ClearedNotUncounted()
    }

    /** The shard is included in the redis_connected_shards gauge. */
    predicate Gauged() {
      (slot.Filled() && !worker.pc.InstallGauge?) || (!slot.Filled() && worker.pc.RetireGauge?)
    }
  }

  const NEW_SHARD :=
    Shard(FRESH, Worker(Starting, Backoff.INITIAL, 0, 0), History([], [], 0, [], []))

  /** What the environment hands the worker; `Tick` where it needs nothing. */
  datatype Input = Tick | SlotChanged | ProbeAnswered | ProbeFailed | ConnectSucceeded(conn: Conn) | ConnectFailed

  predicate Accepts(shard: Shard, input: Input) {
    match shard.worker.pc
    case Probing(seen) =>
      input.ProbeAnswered? || input.ProbeFailed? || (input.SlotChanged? && shard.slot.version != seen.version)
    case Connecting => input.ConnectSucceeded? || input.ConnectFailed?
    case _ => input.Tick?
  }

  /** The worker's and the slot's part of one step. */
  function Step(shard: Shard, input: Input): Shard
    requires Accepts(shard, input)
  {
    var Shard(slot, w, h) := shard;
    match w.pc
    case Starting => shard.(worker := w.(pc := LoopTop))
    case LoopTop => shard.(worker := w.(pc := if slot.Filled() then Probing(slot) else Connecting))
    case Probing(seen) => (
      match input
      case ProbeAnswered =>
        shard.(worker := w.(pc := LoopTop, failedProbes := 0), history := h.(probes := h.probes + [true]))
      case ProbeFailed =>
        var failed := Min(w.failedProbes + 1, 255);
        shard.(worker := w.(pc := if failed >= MAX_FAILED_PROBES then RetireSlot(seen) else LoopTop,
                            failedProbes := failed),
               history := h.(probes := h.probes + [false]))
      case _ => shard.(worker := w.(pc := LoopTop))
    )
    case RetireSlot(seen) =>
      if slot.Retires(seen.generation) then
        Shard(slot.Retire(seen.generation), w.(pc := RetireGauge), h.(retired := h.retired + [seen.generation]))
      else
        Shard(slot, w.(pc := LoopTop, failedProbes := 0), h.(refused := h.refused + 1))
    case RetireGauge => shard.(worker := w.(pc := RetireCount))
    case RetireCount => shard.(worker := w.(pc := RetireRevision))
    case RetireRevision => shard.(worker := w.(pc := LoopTop, failedProbes := 0))
    case Connecting => (
      match input
      case ConnectSucceeded(conn) => shard.(worker := w.(pc := InstallSlot(conn)))
      case _ =>
        shard.(worker := w.(pc := Sleeping, failures := Min(w.failures + 1, WORD - 1)),
               history := h.(sleeps := h.sleeps + [w.backoff]))
    )
    case InstallSlot(conn) =>
      Shard(slot.Install(conn), w.(pc := InstallGauge), h.(installed := h.installed + [conn], probes := []))
    case InstallGauge => shard.(worker := w.(pc := InstallCount))
    case InstallCount => shard.(worker := w.(pc := InstallRevision))
    case InstallRevision => shard.(worker := Worker(LoopTop, Backoff.INITIAL, 0, 0), history := h.(sleeps := []))
    case Sleeping => shard.(worker := w.(pc := LoopTop, backoff := Backoff.Doubled(w.backoff)))
  }

  /** Failed probes at the end of a log. */
  function Trailing(probes: seq<bool>): nat {
    if probes == [] || Last(probes) then 0 else 1 + Trailing(probes[..|probes| - 1])
  }

  /** No two probes in a row failed before the log's last entry. */
  ghost predicate NoEarlierPair(probes: seq<bool>) {
    forall j :: 0 <= j < |probes| - 2 ==> probes[j] || probes[j + 1]
  }

  /** The slot and the log agree with where the worker stands. */
  ghost predicate SlotAgrees(shard: Shard) {
    var pc := shard.worker.pc;
    && (pc.Probing? || pc.RetireSlot? ==> shard.slot == pc.seen && shard.Filled())
    && (pc.InstallGauge? || pc.InstallCount? || pc.InstallRevision? ==> shard.Filled())
    && (pc.RetireGauge? || pc.RetireCount? || pc.RetireRevision? ==> !shard.Filled())
    && (pc.Starting? || pc.Connecting? || pc.InstallSlot? || pc.Sleeping? ==> !shard.Filled())
  }

  /** The log accounts for the slot: generations count installations, every installed connection but the one in the
      slot was retired by exactly one call, and the slot's channel announced each change. */
  ghost predicate LogAgrees(shard: Shard) {
    var h := shard.history;
    && shard.slot.generation == GenerationOf(|h.installed|)
    && (shard.Filled() ==> h.installed != [] && shard.slot.connection == Some(Last(h.installed)))
    && |h.installed| == |h.retired| + (if shard.Filled() then 1 else 0)
    && (forall k :: 0 <= k < |h.retired| ==> h.retired[k] == GenerationOf(k + 1))
    && h.refused == 0
    && shard.slot.version == |h.installed| + |h.retired|
  }

  /** A connection lives while no two of its probes in a row failed, and is retired at the first such pair. */
  ghost predicate ProbesAgree(shard: Shard) {
    var w, probes := shard.worker, shard.history.probes;
    && NoEarlierPair(probes)
    && (shard.Filled() && !w.pc.RetireSlot? ==> Trailing(probes) < MAX_FAILED_PROBES)
    && (w.pc.RetireSlot? ==> Trailing(probes) == MAX_FAILED_PROBES)
    && (shard.Filled() && (w.pc.LoopTop? || w.pc.Probing?) ==> w.failedProbes == Trailing(probes))
    && (w.pc.InstallGauge? || w.pc.InstallCount? || w.pc.InstallRevision? ==> probes == [])
    && (!shard.Filled() && shard.history.installed != [] ==> Trailing(probes) == MAX_FAILED_PROBES)
  }

  /** Consecutive connect failures are spaced by the closed-form delays. */
  ghost predicate BackoffAgrees(shard: Shard) {
    var w, sleeps := shard.worker, shard.history.sleeps;
    && (forall k :: 0 <= k < |sleeps| ==> sleeps[k] == Backoff.Delay(k))
    && (w.pc.Sleeping? ==> sleeps != [] && w.backoff == Last(sleeps))
    && (!w.pc.Sleeping? ==> w.backoff == Backoff.Delay(|sleeps|))
    && w.failures == Min(|sleeps|, WORD - 1)
    && (shard.Filled() && (w.pc.LoopTop? || w.pc.Probing? || w.pc.RetireSlot?) ==> sleeps == [])
    && (w.pc.RetireGauge? || w.pc.RetireCount? || w.pc.RetireRevision? ==> sleeps == [])
  }

  ghost predicate Consistent(shard: Shard) {
    SlotAgrees(shard) && LogAgrees(shard) && ProbesAgree(shard) && BackoffAgrees(shard)
  }

  lemma StepKeepsSlot(shard: Shard, input: Input)
    requires Accepts(shard, input) && Consistent(shard)
    ensures SlotAgrees(Step(shard, input))
  {
    hide ProbesAgree, BackoffAgrees, NextGeneration, Backoff.Doubled;
  }

  lemma StepKeepsLog(shard: Shard, input: Input)
    requires Accepts(shard, input) && Consistent(shard)
    ensures LogAgrees(Step(shard, input))
  {
    NextGenerationOf(|shard.history.installed|);
    hide ProbesAgree, BackoffAgrees, NextGeneration, GenerationOf, Backoff.Doubled;
  }

  lemma TrailingSnoc(probes: seq<bool>, answered: bool)
    ensures Trailing(probes + [answered]) == if answered then 0 else 1 + Trailing(probes)
  {
  }

  lemma PairAtEnd(probes: seq<bool>)
    requires Trailing(probes) < 2 && NoEarlierPair(probes)
    ensures forall j :: 0 <= j < |probes| - 1 ==> probes[j] || probes[j + 1]
  {
  }

  lemma StepKeepsProbes(shard: Shard, input: Input)
    requires Accepts(shard, input) && Consistent(shard)
    ensures ProbesAgree(Step(shard, input))
  {
    var probes := shard.history.probes;
    TrailingSnoc(probes, input.ProbeAnswered?);
    if shard.worker.pc.Probing? {
      PairAtEnd(probes);
    }
  }

  lemma StepKeepsBackoff(shard: Shard, input: Input)
    requires Accepts(shard, input) && Consistent(shard)
    ensures BackoffAgrees(Step(shard, input))
  {
    hide LogAgrees, ProbesAgree, Backoff.Delay, Backoff.Doubled;
    var sleeps := shard.history.sleeps;
    Backoff.DelayIsDoubled(|sleeps|);
    if sleeps != [] {
      Backoff.DelayIsDoubled(|sleeps| - 1);
    }
  }

  lemma StepKeepsConsistent(shard: Shard, input: Input)
    requires Accepts(shard, input) && Consistent(shard)
    ensures Consistent(Step(shard, input))
  {
    StepKeepsSlot(shard, input);
    StepKeepsLog(shard, input);
    StepKeepsProbes(shard, input);
    StepKeepsBackoff(shard, input);
  }

  /** How one step moves the flags the requesters and the counters depend on. */
  lemma StepEffects(shard: Shard, input: Input)
    requires Accepts(shard, input) && Consistent(shard)
    ensures var next := Step(shard, input);
            && (!shard.Bumps() && shard.Owes() ==> next.Owes())
            && (shard.Filled() != next.Filled() ==> !shard.Bumps() && next.Owes())
            && (next.Counted() == if shard.worker.pc.InstallCount? then true
                                  else if shard.worker.pc.RetireCount? then false else shard.Counted())
            && (shard.worker.pc.InstallCount? ==> !shard.Counted())
            && (shard.worker.pc.RetireCount? ==> shard.Counted())
            && (next.Gauged() == if shard.worker.pc.InstallGauge? then true
                                 else if shard.worker.pc.RetireGauge? then false else shard.Gauged())
            && (shard.worker.pc.InstallGauge? ==> !shard.Gauged())
            && (shard.worker.pc.RetireGauge? ==> shard.Gauged())
            && shard.history.installed <= next.history.installed
  {
  }

  /** While a connection sits in the slot its supervisor is the only one to write there: the `changed` branch of
      its select never fires. */
  lemma SlotChangeNeverFires(shard: Shard)
    requires Consistent(shard)
    ensures !(shard.worker.pc.Probing? && Accepts(shard, SlotChanged))
  {
  }

  /** Retirement is exact: a connection is taken out only by the second of two failed probes in a row, that pair
      is the first one in its life, the call never answers false, and what it clears is the connection that was
      probed. */
  lemma RetirementIsExact(shard: Shard)
    requires Consistent(shard) && shard.worker.pc.RetireSlot?
    ensures var h, next := shard.history, Step(shard, Tick);
            && |h.probes| >= 2 && !h.probes[|h.probes| - 1] && !h.probes[|h.probes| - 2]
            && NoEarlierPair(h.probes)
            && shard.slot.Retires(shard.worker.pc.seen.generation)
            && shard.slot.connection == Some(Last(h.installed))
            && !next.Filled() && next.history == h.(retired := h.retired + [shard.slot.generation])
  {
    var probes := shard.history.probes;
    var init := probes[..|probes| - 1];
    assert Trailing(probes) == 1 + Trailing(init);
    assert Last(init) == probes[|probes| - 2];
  }
}
