/** The operation and realtime metrics, and the guards that settle them. */
module Metrics {
  datatype Kind = Command | Pipeline | MultiExec

  datatype Outcome = Succeeded | Failed | TimedOut | Cancelled

  /** One labelled metric; an unseen label reads 0. */
  function Reading<K>(m: map<K, int>, series: K): int {
    if series in m then m[series] else 0
  }

  function Moved<K>(m: map<K, int>, series: K, delta: int): map<K, int> {
    m[series := Reading(m, series) + delta]
  }

  /** redis_operations_inflight and redis_operations_total. */
  datatype Counters = Counters(inflight: map<Kind, int>, totals: map<(Kind, Outcome), int>) {
    function Begun(kind: Kind): Counters {
      this.(inflight := Moved(inflight, kind, 1))
    }

    function Recorded(kind: Kind, outcome: Outcome): Counters {
      this.(totals := Moved(totals, (kind, outcome), 1))
    }

    function Dropped(kind: Kind): Counters {
      this.(inflight := Moved(inflight, kind, -1))
    }
  }

  /** One life of a guard, begun and settled: the gauges are back where they were and one total moved, by one. */
  lemma GuardBalances(before: Counters, kind: Kind, outcome: Outcome)
    ensures var after := before.Begun(kind).Recorded(kind, outcome).Dropped(kind);
            && (forall k :: Reading(after.inflight, k) == Reading(before.inflight, k))
            && forall k, o :: Reading(after.totals, (k, o)) ==
                              Reading(before.totals, (k, o)) + (if (k, o) == (kind, outcome) then 1 else 0)
  {
  }

  class Registry {
    var inflight: map<Kind, int>
    var totals: map<(Kind, Outcome), int>
    var realtimeTotal: int
    var realtimeInflight: int

    constructor ()
      ensures Read() == Counters(map[], map[]) && realtimeTotal == 0 && realtimeInflight == 0
    {
      inflight, totals := map[], map[];
      realtimeTotal, realtimeInflight := 0, 0;
    }

    function Read(): Counters
      reads this
    {
      Counters(inflight, totals)
    }

    /** `realtime_connection`: the total only grows, the gauge stays up as long as the guard lives. */
    method RealtimeConnection() returns (guard: ConnectionGuard)
      modifies this`realtimeTotal, this`realtimeInflight
      ensures realtimeTotal == old(realtimeTotal) + 1 && realtimeInflight == old(realtimeInflight) + 1
      ensures fresh(guard) && guard.metrics == this
    {
      realtimeTotal := realtimeTotal + 1;
      realtimeInflight := realtimeInflight + 1;
      guard := new ConnectionGuard(this);
    }

    method BeginOperation(kind: Kind) returns (guard: Guard)
      modifies this`inflight
      ensures Read() == old(Read()).Begun(kind)
      ensures fresh(guard) && guard.metrics == this && guard.kind == kind && !guard.completed
    {
      inflight := Moved(inflight, kind, 1);
      guard := new Guard(this, kind);
    }
  }

  class ConnectionGuard {
    const metrics: Registry

    constructor (metrics: Registry)
      ensures this.metrics == metrics
    {
      this.metrics := metrics;
    }

    method Drop()
      modifies metrics`realtimeInflight
      ensures metrics.realtimeInflight == old(metrics.realtimeInflight) - 1
    {
      metrics.realtimeInflight := metrics.realtimeInflight - 1;
    }
  }

  class Guard {
    const metrics: Registry
    const kind: Kind
    var completed: bool

    constructor (metrics: Registry, kind: Kind)
      ensures this.metrics == metrics && this.kind == kind && !completed
    {
      this.metrics := metrics;
      this.kind := kind;
      completed := false;
    }

    /** A guard dropped before it was completed is a cancelled operation; either way the gauge comes down. */
    method Drop()
      modifies metrics`inflight, metrics`totals
      ensures metrics.Read() ==
              (if completed then old(metrics.Read()) else old(metrics.Read()).Recorded(kind, Cancelled)).Dropped(kind)
    {
      if !completed {
        metrics.totals := Moved(metrics.totals, (kind, Cancelled), 1);
      }
      metrics.inflight := Moved(metrics.inflight, kind, -1);
    }

    /** `success`, `error` and `timeout` consume the guard: they record their own outcome, and the drop at their
        end adds no other. */
    method Complete(outcome: Outcome)
      requires !outcome.Cancelled?
      modifies this, metrics`inflight, metrics`totals
      ensures completed && metrics.Read() == old(metrics.Read()).Recorded(kind, outcome).Dropped(kind)
    {
      completed := true;
      metrics.totals := Moved(metrics.totals, (kind, outcome), 1);
      Drop();
    }
  }
}
