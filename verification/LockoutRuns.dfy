/** Whole runs of the lockout table, and its refinement of a table that never cleans. */
module LockoutRuns {
  import opened Lockout

  datatype Event = Failed(ip: Ip, now: nat) | Succeeded(ip: Ip) | Snapshot(now: nat)

  datatype Answer = Outcome(failure: AuthFailure) | Cleared | Counts(tracked: nat, locked: nat)

  datatype Logged = Logged(event: Event, answer: Answer)

  function Apply(cfg: Config, entries: Table, event: Event): (Table, Answer) {
    match event
    case Failed(ip, now) => var (t, failure) := Failure(cfg, entries, ip, now); (t, Outcome(failure))
    case Succeeded(ip) => (Success(cfg, entries, ip), Cleared)
    case Snapshot(now) =>
      if !cfg.Enabled() then (entries, Counts(0, 0))
      else
        var t := Retained(entries, now, cfg.failureWindow);
        (t, Counts(|t|, |LockedIps(t, now)|))
  }

  /** The final table and the log of a run. */
  function Run(cfg: Config, entries: Table, events: seq<Event>): (r: (Table, seq<Logged>))
    ensures |r.1| == |events|
    decreases |events|
  {
    if events == [] then (entries, [])
    else
      var (t, answer) := Apply(cfg, entries, events[0]);
      var (final, log) := Run(cfg, t, events[1..]);
      (final, [Logged(events[0], answer)] + log)
  }

  /** The clock once an event has been handled. */
  function Clock(event: Event, clock: nat): nat {
    if event.Succeeded? then clock else event.now
  }

  /** Event times do not decrease. The code reads the clock before it takes the mutex, so this is an assumption
      on the order in which concurrent callers get the lock. */
  predicate Timely(events: seq<Event>, clock: nat)
    decreases |events|
  {
    events == [] ||
    (Clock(events[0], clock) >= clock && Timely(events[1..], Clock(events[0], clock)))
  }

  /** Reference semantics: an unbounded table that never cleans. Its snapshots count what is still alive. */
  function ReferenceApply(cfg: Config, entries: Table, event: Event): (Table, Answer) {
    match event
    case Failed(ip, now) =>
      if !cfg.Enabled() then (entries, Outcome(Disabled))
      else
        var (state, failure) := Touched(cfg, EntryOr(entries, ip, now), now);
        (entries[ip := state], Outcome(failure))
    case Succeeded(ip) => (Success(cfg, entries, ip), Cleared)
    case Snapshot(now) =>
      if !cfg.Enabled() then (entries, Counts(0, 0))
      else (entries, Counts(|Retained(entries, now, cfg.failureWindow)|, |LockedIps(entries, now)|))
  }

  function ReferenceRun(cfg: Config, entries: Table, events: seq<Event>): (log: seq<Logged>)
    ensures |log| == |events|
    decreases |events|
  {
    if events == [] then []
    else
      var (t, answer) := ReferenceApply(cfg, entries, events[0]);
      [Logged(events[0], answer)] + ReferenceRun(cfg, t, events[1..])
  }

  /** A log without the failures the full table turned away. */
  function Admitted(log: seq<Logged>): seq<Logged> {
    if log == [] then []
    else (if log[0].answer == Outcome(EntryLimitReached) then [] else [log[0]]) + Admitted(log[1..])
  }

  function Events(log: seq<Logged>): seq<Event> {
    seq(|log|, i requires 0 <= i < |log| => log[i].event)
  }

  /** Apart from failures turned away, the table from `entries` answers the events as the reference table does. */
  ghost predicate Agrees(cfg: Config, entries: Table, reference: Table, events: seq<Event>) {
    var log := Admitted(Run(cfg, entries, events).1);
    ReferenceRun(cfg, reference, Events(log)) == log
  }

  /** The reference table after an event, which it does not see if the table turns it away. */
  function ReferenceNext(cfg: Config, entries: Table, reference: Table, event: Event): Table {
    if Apply(cfg, entries, event).1 == Outcome(EntryLimitReached) then reference
    else ReferenceApply(cfg, reference, event).0
  }

  predicate SameAnswer(cfg: Config, entries: Table, reference: Table, event: Event) {
    var answer := Apply(cfg, entries, event).1;
    answer == Outcome(EntryLimitReached) || answer == ReferenceApply(cfg, reference, event).1
  }

  /** Agreement, one event at a time. */
  lemma AgreesCons(cfg: Config, entries: Table, reference: Table, events: seq<Event>)
    ensures Agrees(cfg, entries, reference, [])
    ensures events != [] ==>
              (Agrees(cfg, entries, reference, events) <==>
               && SameAnswer(cfg, entries, reference, events[0])
               && Agrees(cfg, Apply(cfg, entries, events[0]).0, ReferenceNext(cfg, entries, reference, events[0]),
                         events[1..]))
  {
    hide Apply, ReferenceApply;
    assert Events([]) == [];
    if events != [] {
      var (t, answer) := Apply(cfg, entries, events[0]);
      var log, rest := Run(cfg, entries, events).1, Run(cfg, t, events[1..]).1;
      assert log[1..] == rest;
      if answer == Outcome(EntryLimitReached) {
        assert Admitted(log) == Admitted(rest);
      } else {
        assert Admitted(log) == [log[0]] + Admitted(rest);
        assert Events(Admitted(log))[1..] == Events(Admitted(rest));
        var expected := ReferenceRun(cfg, reference, Events(Admitted(log)));
        assert Agrees(cfg, entries, reference, events) <==>
               expected[0] == log[0] && expected[1..] == Admitted(log)[1..];
      }
    }
  }

  /** The table holds some of the reference table's entries, as they are there. */
  ghost predicate Within(entries: Table, reference: Table) {
    forall ip :: ip in entries ==> ip in reference && entries[ip] == reference[ip]
  }

  /** The lock has expired or, with no lock, the window has elapsed: reset looks at `window_started_at`. */
  predicate ActsFresh(cfg: Config, state: AuthState, now: nat) {
    match state.lockedUntil
    case Some(until) => until <= now
    case None => Since(now, state.windowStartedAt) >= cfg.failureWindow
  }

  /** Open entries hold at least one failure and fewer than the limit. */
  ghost predicate OpenEntries(cfg: Config, entries: Table) {
    forall ip :: ip in entries && entries[ip].lockedUntil.None? ==> 1 <= entries[ip].failures < cfg.maxFailures
  }

  /** A failure cannot tell an entry of a run from none at all exactly when the entry's time is up. */
  lemma ActsFreshIff(cfg: Config, state: AuthState, now: nat)
    requires state.lockedUntil.None? ==> 1 <= state.failures < cfg.maxFailures
    ensures Touched(cfg, state, now) == Touched(cfg, Fresh(now), now) <==> ActsFresh(cfg, state, now)
  {
  }

  /** The heart of the refinement: cleanup looks at `last_seen_at`, reset at `window_started_at`, yet with times in
      order what cleanup takes away acts as fresh. */
  lemma StaleActsFresh(cfg: Config, state: AuthState, now: nat)
    requires state.windowStartedAt <= state.lastSeenAt && state.IsStale(now, cfg.failureWindow)
    ensures ActsFresh(cfg, state, now) && Touched(cfg, state, now) == Touched(cfg, Fresh(now), now)
  {
  }

  /** What an event needs of the entries cleaned away: a failure admitted for one of them finds its time up, a
      snapshot finds them all stale. */
  ghost predicate Harmless(cfg: Config, entries: Table, reference: Table, event: Event) {
    cfg.Enabled() ==>
      match event
      case Failed(ip, now) =>
        ip in reference && ip !in entries && !Refuses(cfg, entries, ip, now) ==> ActsFresh(cfg, reference[ip], now)
      case Succeeded(_) => true
      case Snapshot(now) =>
        forall ip :: ip in reference && ip !in entries ==> reference[ip].IsStale(now, cfg.failureWindow)
  }

  /** Every event of a run finds the entries cleaned away before it harmless. */
  ghost predicate EvictedActFresh(cfg: Config, entries: Table, reference: Table, events: seq<Event>)
    decreases |events|
  {
    events == [] ||
    (&& Harmless(cfg, entries, reference, events[0])
     && EvictedActFresh(cfg, Apply(cfg, entries, events[0]).0, ReferenceNext(cfg, entries, reference, events[0]),
                        events[1..]))
  }

  lemma FailureWithin(cfg: Config, entries: Table, reference: Table, ip: Ip, now: nat)
    requires cfg.Enabled() && Within(entries, reference) && Harmless(cfg, entries, reference, Failed(ip, now))
    ensures var (t, failure) := Failure(cfg, entries, ip, now);
            if failure == EntryLimitReached then Within(t, reference)
            else
              var (r, answer) := ReferenceApply(cfg, reference, Failed(ip, now));
              Within(t, r) && answer == Outcome(failure)
  {
    if ip in reference && ip !in entries && !Refuses(cfg, entries, ip, now) {
      assert Touched(cfg, reference[ip], now) == Touched(cfg, Fresh(now), now);
    }
    assert Touched(cfg, EntryOr(reference, ip, now), now).1 != EntryLimitReached;
    hide Touched, ActsFresh;
    assert Within(Admitting(cfg, entries, ip, now), reference);
  }

  lemma RetainedWithin(cfg: Config, entries: Table, reference: Table, now: nat)
    requires cfg.Enabled() && Within(entries, reference) && Harmless(cfg, entries, reference, Snapshot(now))
    ensures Retained(entries, now, cfg.failureWindow) == Retained(reference, now, cfg.failureWindow)
    ensures LockedIps(Retained(entries, now, cfg.failureWindow), now) == LockedIps(reference, now)
  {
  }

  /** A harmless event is answered alike and leaves the one table within the other. */
  lemma HarmlessStep(cfg: Config, entries: Table, reference: Table, event: Event)
    requires Within(entries, reference) && Harmless(cfg, entries, reference, event)
    ensures SameAnswer(cfg, entries, reference, event)
    ensures Within(Apply(cfg, entries, event).0, ReferenceNext(cfg, entries, reference, event))
  {
    if cfg.Enabled() {
      hide Failure, Touched;
      match event
      case Failed(ip, now) => FailureWithin(cfg, entries, reference, ip, now);
      case Succeeded(ip) =>
      case Snapshot(now) => RetainedWithin(cfg, entries, reference, now);
    }
  }

  /** Cleanup is invisible on every run, in whatever order its times come, on which the entries cleaned away are found
      harmless. */
  lemma {:induction false} RunAgrees(cfg: Config, entries: Table, reference: Table, events: seq<Event>)
    requires Within(entries, reference) && EvictedActFresh(cfg, entries, reference, events)
    ensures Agrees(cfg, entries, reference, events)
    decreases |events|
  {
    hide Apply, ReferenceNext, Harmless, SameAnswer, Agrees;
    AgreesCons(cfg, entries, reference, events);
    if events != [] {
      HarmlessStep(cfg, entries, reference, events[0]);
      RunAgrees(cfg, Apply(cfg, entries, events[0]).0, ReferenceNext(cfg, entries, reference, events[0]), events[1..]);
    }
  }

  /** Entries never claim to be younger than the clock, nor their window younger than their last failure. */
  ghost predicate Dated(entries: Table, clock: nat) {
    forall ip :: ip in entries ==> entries[ip].windowStartedAt <= entries[ip].lastSeenAt <= clock
  }

  /** The cleaned table is the reference table less entries that are stale by now. */
  ghost predicate Simulates(cfg: Config, entries: Table, reference: Table, clock: nat) {
    && Dated(reference, clock) && Within(entries, reference)
    && (forall ip :: ip in reference && ip !in entries ==> reference[ip].IsStale(clock, cfg.failureWindow))
  }

  /** With the clock behind it, every event is harmless. */
  lemma SimulatesHarmless(cfg: Config, entries: Table, reference: Table, clock: nat, event: Event)
    requires Simulates(cfg, entries, reference, clock) && Clock(event, clock) >= clock
    ensures Harmless(cfg, entries, reference, event)
    ensures Simulates(cfg, entries, reference, Clock(event, clock))
  {
  }

  lemma TouchedDated(cfg: Config, state: AuthState, now: nat)
    requires state.windowStartedAt <= state.lastSeenAt <= now
    ensures var next := Touched(cfg, state, now).0; next.windowStartedAt <= next.lastSeenAt <= now
  {
  }

  lemma FailureSimulates(cfg: Config, entries: Table, reference: Table, ip: Ip, now: nat)
    requires cfg.Enabled() && Simulates(cfg, entries, reference, now)
    ensures Simulates(cfg, Apply(cfg, entries, Failed(ip, now)).0,
                      ReferenceNext(cfg, entries, reference, Failed(ip, now)), now)
  {
    SimulatesHarmless(cfg, entries, reference, now, Failed(ip, now));
    HarmlessStep(cfg, entries, reference, Failed(ip, now));
    TouchedDated(cfg, EntryOr(reference, ip, now), now);
    hide Touched;
  }

  lemma ApplySimulates(cfg: Config, entries: Table, reference: Table, clock: nat, event: Event)
    requires Simulates(cfg, entries, reference, clock) && Clock(event, clock) >= clock
    ensures Simulates(cfg, Apply(cfg, entries, event).0, ReferenceNext(cfg, entries, reference, event),
                      Clock(event, clock))
  {
    SimulatesHarmless(cfg, entries, reference, clock, event);
    if event.Failed? && cfg.Enabled() {
      FailureSimulates(cfg, entries, reference, event.ip, event.now);
    }
  }

  /** With times in order the entries cleaned away are always found harmless. */
  lemma {:induction false} TimelyActsFresh(cfg: Config, entries: Table, reference: Table, clock: nat,
                                           events: seq<Event>)
    requires Simulates(cfg, entries, reference, clock) && Timely(events, clock)
    ensures EvictedActFresh(cfg, entries, reference, events)
    decreases |events|
  {
    hide Apply, ReferenceNext, Harmless, Simulates;
    if events != [] {
      SimulatesHarmless(cfg, entries, reference, clock, events[0]);
      ApplySimulates(cfg, entries, reference, clock, events[0]);
      TimelyActsFresh(cfg, Apply(cfg, entries, events[0]).0, ReferenceNext(cfg, entries, reference, events[0]),
                      Clock(events[0], clock), events[1..]);
    }
  }

  /** Cleanup is invisible: for every run with non-decreasing times, once the failures turned away by a full
      table are dropped, the bounded table that cleans itself answers every failure, success and snapshot as the
      unbounded table that never cleans. */
  lemma CleanupIsInvisible(cfg: Config, events: seq<Event>, clock: nat)
    requires Timely(events, clock)
    ensures var log := Admitted(Run(cfg, map[], events).1);
            ReferenceRun(cfg, map[], Events(log)) == log
  {
    TimelyActsFresh(cfg, map[], map[], clock, events);
    RunAgrees(cfg, map[], map[], events);
  }

  lemma ApplyKeepsBound(cfg: Config, entries: Table, event: Event)
    requires |entries| <= cfg.maxEntries
    ensures |Apply(cfg, entries, event).0| <= cfg.maxEntries
  {
    match event
    case Failed(ip, now) => FailureKeepsBound(cfg, entries, ip, now);
    case Succeeded(ip) => assert entries.Keys == (entries - {ip}).Keys + (entries.Keys * {ip});
    case Snapshot(now) => RetainedShrinks(entries, now, cfg.failureWindow);
  }

  /** The table never exceeds its bound. */
  lemma {:induction false} RunKeepsBound(cfg: Config, entries: Table, events: seq<Event>)
    requires |entries| <= cfg.maxEntries
    ensures |Run(cfg, entries, events).0| <= cfg.maxEntries
    decreases |events|
  {
    hide Apply;
    if events != [] {
      ApplyKeepsBound(cfg, entries, events[0]);
      RunKeepsBound(cfg, Apply(cfg, entries, events[0]).0, events[1..]);
    }
  }

  /** The addresses that fail in a run. */
  function Addresses(events: seq<Event>): set<Ip> {
    set e | e in events && e.Failed? :: e.ip
  }

  /** Only addresses that failed are in the table. */
  lemma ApplyWithinAddresses(cfg: Config, entries: Table, event: Event, known: set<Ip>)
    requires entries.Keys <= known && (event.Failed? ==> event.ip in known)
    ensures Apply(cfg, entries, event).0.Keys <= known
  {
  }

  lemma NewcomerFits(cfg: Config, entries: Table, ip: Ip, now: nat, known: set<Ip>)
    requires entries.Keys <= known && ip in known && |known| <= cfg.maxEntries
    ensures Failure(cfg, entries, ip, now).1 != EntryLimitReached
  {
    var others := known - entries.Keys;
    assert known == entries.Keys + others;
    assert |entries| == |entries.Keys|;
    if ip !in entries {
      assert ip in others;
    }
    RetainedShrinks(entries, now, cfg.failureWindow);
    RefusedIff(cfg, entries, ip, now);
    RetainedKeys(entries, now, cfg.failureWindow);
    assert |CurrentIps(entries, now, cfg.failureWindow)| == |Retained(entries, now, cfg.failureWindow)|;
  }

  lemma {:induction false} NoRefusals(cfg: Config, entries: Table, events: seq<Event>, known: set<Ip>)
    requires entries.Keys <= known && Addresses(events) <= known && |known| <= cfg.maxEntries
    ensures Admitted(Run(cfg, entries, events).1) == Run(cfg, entries, events).1
    decreases |events|
  {
    hide Apply;
    var log := Run(cfg, entries, events).1;
    if events != [] {
      var (t, answer) := Apply(cfg, entries, events[0]);
      assert events[0].Failed? ==> events[0].ip in Addresses(events);
      ApplyWithinAddresses(cfg, entries, events[0], known);
      NotRefused(cfg, entries, events[0], known);
      assert forall e :: e in events[1..] ==> e in events;
      assert Addresses(events[1..]) <= Addresses(events);
      NoRefusals(cfg, t, events[1..], known);
      assert log[1..] == Run(cfg, t, events[1..]).1;
    }
  }

  lemma NotRefused(cfg: Config, entries: Table, event: Event, known: set<Ip>)
    requires entries.Keys <= known && (event.Failed? ==> event.ip in known) && |known| <= cfg.maxEntries
    ensures Apply(cfg, entries, event).1 != Outcome(EntryLimitReached)
  {
    hide Failure;
    if event.Failed? {
      NewcomerFits(cfg, entries, event.ip, event.now, known);
    }
  }

  /** With no more addresses than entries, nobody is turned away: over every timely run the table answers everything as
      an unbounded one that never cleans. */
  lemma RoomForAll(cfg: Config, events: seq<Event>, clock: nat)
    requires Timely(events, clock) && |Addresses(events)| <= cfg.maxEntries
    ensures Run(cfg, map[], events).1 == ReferenceRun(cfg, map[], events)
  {
    CleanupIsInvisible(cfg, events, clock);
    NoRefusals(cfg, map[], events, Addresses(events));
    LogKeepsEvents(cfg, map[], events);
  }

  lemma {:induction false} LogKeepsEvents(cfg: Config, entries: Table, events: seq<Event>)
    ensures Events(Run(cfg, entries, events).1) == events
    decreases |events|
  {
    hide Apply;
    if events != [] {
      LogKeepsEvents(cfg, Apply(cfg, entries, events[0]).0, events[1..]);
    }
  }
}
