/** What the lockout table guarantees about the failures of one address, and of all of them together. */
module LockoutBounds {
  import opened Prelude
  import opened Arithmetic
  import opened Lockout
  import opened LockoutRuns

  /** `ip` got this answer to a failure. */
  predicate Answered(logged: Logged, ip: Ip, failure: AuthFailure) {
    logged.event.Failed? && logged.event.ip == ip && logged.answer == Outcome(failure)
  }

  /** The count of `ip` starts over. */
  predicate Settles(logged: Logged, ip: Ip) {
    logged.event == Succeeded(ip) || Answered(logged, ip, Locked)
  }

  /** The times of the failures of `ip` counted since its last success or lock. */
  function CountedTimes(log: seq<Logged>, ip: Ip): seq<nat> {
    if log == [] || Settles(Last(log), ip) then []
    else
      var earlier := CountedTimes(log[..|log| - 1], ip);
      if Answered(Last(log), ip, Tracked) then earlier + [Last(log).event.now] else earlier
  }

  lemma CountedTimesSnoc(log: seq<Logged>, logged: Logged, ip: Ip)
    ensures CountedTimes(log + [logged], ip) ==
            if Settles(logged, ip) then []
            else if Answered(logged, ip, Tracked) then CountedTimes(log, ip) + [logged.event.now]
            else CountedTimes(log, ip)
  {
  }

  ghost predicate Sorted(times: seq<nat>, clock: nat) {
    && (forall i, j :: 0 <= i < j < |times| ==> times[i] <= times[j])
    && (forall i :: 0 <= i < |times| ==> times[i] <= clock)
  }

  /** An open entry counts exactly the latest of the counted failures: those since its window started. */
  ghost predicate EntryMatches(cfg: Config, state: AuthState, times: seq<nat>) {
    state.lockedUntil.None? ==>
      && 1 <= state.failures < cfg.maxFailures && state.failures <= |times|
      && times[|times| - state.failures] == state.windowStartedAt
      && Last(times) == state.lastSeenAt
  }

  ghost predicate HistoryMatches(cfg: Config, entries: Table, log: seq<Logged>, clock: nat) {
    && (forall ip :: Sorted(CountedTimes(log, ip), clock))
    && (forall ip :: ip in entries ==> EntryMatches(cfg, entries[ip], CountedTimes(log, ip)))
  }

  /** Events of other addresses leave an entry alone or evict it. */
  lemma OthersLeaveEntry(cfg: Config, entries: Table, event: Event, ip: Ip)
    requires event.Failed? ==> event.ip != ip
    ensures var t := Apply(cfg, entries, event).0;
            ip in t ==> ip in entries && t[ip] == entries[ip]
  {
  }

  lemma FailureMatches(cfg: Config, entries: Table, times: seq<nat>, ip: Ip, now: nat)
    requires cfg.Enabled() && (ip in entries ==> EntryMatches(cfg, entries[ip], times))
    ensures var (t, failure) := Failure(cfg, entries, ip, now);
            ip in t ==> EntryMatches(cfg, t[ip], if failure == Locked then []
                                                 else if failure == Tracked then times + [now] else times)
  {
  }

  lemma ApplyKeepsHistory(cfg: Config, entries: Table, log: seq<Logged>, clock: nat, event: Event)
    requires cfg.Enabled() && HistoryMatches(cfg, entries, log, clock) && Clock(event, clock) >= clock
    ensures var (t, answer) := Apply(cfg, entries, event);
            HistoryMatches(cfg, t, log + [Logged(event, answer)], Clock(event, clock))
  {
    var (t, answer) := Apply(cfg, entries, event);
    var logged := Logged(event, answer);
    forall ip
      ensures Sorted(CountedTimes(log + [logged], ip), Clock(event, clock))
      ensures ip in t ==> EntryMatches(cfg, t[ip], CountedTimes(log + [logged], ip))
    {
      CountedTimesSnoc(log, logged, ip);
      assert Sorted(CountedTimes(log, ip), clock);
      if event.Failed? && event.ip == ip {
        FailureMatches(cfg, entries, CountedTimes(log, ip), ip, event.now);
      } else {
        OthersLeaveEntry(cfg, entries, event, ip);
      }
    }
  }

  /** Every entry of a run's log is the answer of some table that matches the log before it. */
  lemma {:induction false} RunKeepsHistory(cfg: Config, entries: Table, log: seq<Logged>, clock: nat,
                                           events: seq<Event>, k: nat) returns (table: Table, at: nat)
    requires cfg.Enabled() && HistoryMatches(cfg, entries, log, clock) && Timely(events, clock)
    requires k < |Run(cfg, entries, events).1|
    ensures var added := Run(cfg, entries, events).1;
            && HistoryMatches(cfg, table, log + added[..k], at)
            && added[k].answer == Apply(cfg, table, added[k].event).1
            && Clock(added[k].event, at) >= at
    decreases |events|
  {
    hide Apply, HistoryMatches;
    var (t, answer) := Apply(cfg, entries, events[0]);
    var logged := Logged(events[0], answer);
    var added := Run(cfg, entries, events).1;
    if k == 0 {
      assert log + added[..0] == log;
      return entries, clock;
    }
    ApplyKeepsHistory(cfg, entries, log, clock, events[0]);
    table, at := RunKeepsHistory(cfg, t, log + [logged], Clock(events[0], clock), events[1..], k - 1);
    var rest := Run(cfg, t, events[1..]).1;
    assert added == [logged] + rest;
    assert log + added[..k] == log + [logged] + rest[..k - 1];
  }

  /** A table that matches the log answers `Locked` only to the max_failures-th failure in a short span. */
  lemma LockedMeans(cfg: Config, entries: Table, times: seq<nat>, at: nat, ip: Ip, now: nat)
    requires cfg.Enabled() && (ip in entries ==> EntryMatches(cfg, entries[ip], times))
    requires Failure(cfg, entries, ip, now).1 == Locked && Sorted(times, at) && at <= now
    ensures |times| >= cfg.maxFailures - 1 && Sorted(times, now)
    ensures cfg.maxFailures >= 2 ==> now - times[|times| - (cfg.maxFailures - 1)] < cfg.failureWindow
  {
  }

  /** Lock soundness: `Locked` is answered only to a failure that, with the counted failures of the same address
      since its last success or lock, makes the max_failures-th within a span shorter than the window. */
  lemma LockSoundness(cfg: Config, events: seq<Event>, clock: nat, k: nat)
    requires cfg.Enabled() && Timely(events, clock)
    requires var log := Run(cfg, map[], events).1;
             k < |log| && log[k].event.Failed? && log[k].answer == Outcome(Locked)
    ensures var log := Run(cfg, map[], events).1;
            var times := CountedTimes(log[..k], log[k].event.ip);
            && |times| >= cfg.maxFailures - 1
            && Sorted(times, log[k].event.now)
            && (cfg.maxFailures >= 2 ==>
                  log[k].event.now - times[|times| - (cfg.maxFailures - 1)] < cfg.failureWindow)
  {
    hide Run, Failure, EntryMatches;
    var log := Run(cfg, map[], events).1;
    assert HistoryMatches(cfg, map[], [], clock);
    var table, at := RunKeepsHistory(cfg, map[], [], clock, events, k);
    assert [] + log[..k] == log[..k];
    var ip := log[k].event.ip;
    assert Sorted(CountedTimes(log[..k], ip), at);
    LockedMeans(cfg, table, CountedTimes(log[..k], ip), at, ip, log[k].event.now);
  }

  /** Nothing in the segment happens at or after `until`, and `ip` does not succeed in it. */
  predicate QuietUntil(events: seq<Event>, ip: Ip, until: nat) {
    forall i :: 0 <= i < |events| ==>
      events[i] != Succeeded(ip) && (events[i].Succeeded? || events[i].now < until)
  }

  lemma {:induction false} LockHolds(cfg: Config, entries: Table, events: seq<Event>, ip: Ip, until: nat)
    requires cfg.Enabled() && ip in entries && entries[ip].lockedUntil == Some(until)
    requires QuietUntil(events, ip, until)
    ensures var (t, log) := Run(cfg, entries, events);
            && ip in t && t[ip] == entries[ip]
            && forall i :: 0 <= i < |log| && log[i].event.Failed? && log[i].event.ip == ip ==>
                 log[i].answer == Outcome(AlreadyLocked)
    decreases |events|
  {
    if events != [] {
      var (t, answer) := Apply(cfg, entries, events[0]);
      assert events[0] != Succeeded(ip);
      assert ip in t && t[ip] == entries[ip];
      assert QuietUntil(events[1..], ip, until);
      LockHolds(cfg, t, events[1..], ip, until);
      var log := Run(cfg, entries, events).1;
      assert log[0] == Logged(events[0], answer);
    }
  }

  /** Lock persistence: after `Locked`, and until the release time fixed then, whatever the others do, absent a
      success every failure of the address is `AlreadyLocked`, its entry is neither evicted nor changed, and the
      first failure at or after the release time is counted afresh. */
  lemma LockPersists(cfg: Config, entries: Table, ip: Ip, now: nat, events: seq<Event>, later: nat)
    requires cfg.Enabled() && Apply(cfg, entries, Failed(ip, now)).1 == Outcome(Locked)
    requires QuietUntil(events, ip, now + cfg.lockoutDuration) && later >= now + cfg.lockoutDuration
    ensures var locked := Apply(cfg, entries, Failed(ip, now)).0;
            var (t, log) := Run(cfg, locked, events);
            && ip in locked && locked[ip].lockedUntil == Some(now + cfg.lockoutDuration)
            && ip in t && t[ip] == locked[ip]
            && (forall i :: 0 <= i < |log| && log[i].event.Failed? && log[i].event.ip == ip ==>
                  log[i].answer == Outcome(AlreadyLocked))
            && Apply(cfg, t, Failed(ip, later)).1 ==
               Outcome(if cfg.maxFailures == 1 then Locked else Tracked)
  {
    var locked := Apply(cfg, entries, Failed(ip, now)).0;
    LockHolds(cfg, locked, events, ip, now + cfg.lockoutDuration);
  }

  /** How many times `ip` got the given answer. */
  function CountFor(log: seq<Logged>, ip: Ip, failure: AuthFailure): nat {
    if log == [] then 0
    else
      (if Answered(log[0], ip, failure) then 1 else 0)
      + CountFor(log[1..], ip, failure)
  }

  /** How many more failures of `ip` can be Tracked before time `from + window` without a lock. */
  ghost function Budget(cfg: Config, entries: Table, ip: Ip, from: nat): int {
    if ip !in entries || entries[ip].lockedUntil.Some? then cfg.maxFailures - 1
    else if entries[ip].windowStartedAt >= from then cfg.maxFailures - 1 - entries[ip].failures
    else 2 * (cfg.maxFailures - 1) - entries[ip].failures
  }

  /** All times of the segment lie in [from, from + window) and `ip` does not succeed in it. */
  predicate WithinWindow(cfg: Config, events: seq<Event>, ip: Ip, from: nat) {
    forall i :: 0 <= i < |events| ==>
      events[i] != Succeeded(ip)
      && (events[i].Succeeded? || from <= events[i].now < from + cfg.failureWindow)
  }

  lemma FailureKeepsOpen(cfg: Config, entries: Table, clock: nat, ip: Ip, now: nat)
    requires cfg.Enabled() && OpenEntries(cfg, entries)
    ensures OpenEntries(cfg, Failure(cfg, entries, ip, now).0)
    ensures Dated(entries, clock) && now >= clock ==> Dated(Failure(cfg, entries, ip, now).0, now)
  {
  }

  lemma ApplyKeepsOpen(cfg: Config, entries: Table, clock: nat, event: Event)
    requires cfg.Enabled() && OpenEntries(cfg, entries)
    ensures OpenEntries(cfg, Apply(cfg, entries, event).0)
    ensures Dated(entries, clock) && Clock(event, clock) >= clock ==>
              Dated(Apply(cfg, entries, event).0, Clock(event, clock))
  {
    hide Failure;
    if event.Failed? {
      FailureKeepsOpen(cfg, entries, clock, event.ip, event.now);
    }
  }

  /** A failure of the address spends what it is Tracked for. */
  lemma FailureSpendsBudget(cfg: Config, entries: Table, ip: Ip, now: nat, from: nat)
    requires cfg.Enabled() && OpenEntries(cfg, entries) && from <= now < from + cfg.failureWindow
    requires ip in entries ==> entries[ip].windowStartedAt <= now
    requires Failure(cfg, entries, ip, now).1 != Locked
    ensures var (t, failure) := Failure(cfg, entries, ip, now);
            Budget(cfg, t, ip, from) <= Budget(cfg, entries, ip, from) - (if failure == Tracked then 1 else 0)
  {
  }

  /** An entry whose window started in the interval is not cleaned away within it. */
  lemma CleanupKeepsBudget(cfg: Config, entries: Table, ip: Ip, now: nat, from: nat)
    requires cfg.Enabled() && OpenEntries(cfg, entries) && from <= now < from + cfg.failureWindow
    requires ip in entries ==> entries[ip].windowStartedAt <= entries[ip].lastSeenAt
    ensures Budget(cfg, Retained(entries, now, cfg.failureWindow), ip, from) <= Budget(cfg, entries, ip, from)
  {
  }

  /** Events of others leave the budget alone. */
  lemma OthersKeepBudget(cfg: Config, entries: Table, event: Event, ip: Ip, from: nat)
    requires cfg.Enabled() && OpenEntries(cfg, entries) && event != Succeeded(ip)
    requires event.Succeeded? || from <= event.now < from + cfg.failureWindow
    requires event.Failed? ==> event.ip != ip
    requires ip in entries ==> entries[ip].windowStartedAt <= entries[ip].lastSeenAt
    ensures Budget(cfg, Apply(cfg, entries, event).0, ip, from) <= Budget(cfg, entries, ip, from)
  {
    if !event.Succeeded? {
      CleanupKeepsBudget(cfg, entries, ip, event.now, from);
    }
    hide Retained, Touched;
  }

  lemma ApplySpendsBudget(cfg: Config, entries: Table, clock: nat, event: Event, ip: Ip, from: nat)
    requires cfg.Enabled() && OpenEntries(cfg, entries) && Dated(entries, clock) && Clock(event, clock) >= clock
    requires WithinWindow(cfg, [event], ip, from)
    requires event.Failed? && event.ip == ip ==> Apply(cfg, entries, event).1 != Outcome(Locked)
    ensures var (t, answer) := Apply(cfg, entries, event);
            Budget(cfg, t, ip, from) <=
            Budget(cfg, entries, ip, from) - CountFor([Logged(event, answer)], ip, Tracked)
  {
    hide Failure, Budget;
    assert [event][0] == event;
    assert CountFor([Logged(event, Apply(cfg, entries, event).1)][1..], ip, Tracked) == 0;
    if event.Failed? && event.ip == ip {
      FailureSpendsBudget(cfg, entries, ip, event.now, from);
    } else {
      OthersKeepBudget(cfg, entries, event, ip, from);
    }
  }

  lemma {:induction false} SegmentWithinBudget(cfg: Config, entries: Table, clock: nat, events: seq<Event>,
                                               ip: Ip, from: nat)
    requires cfg.Enabled() && OpenEntries(cfg, entries) && Dated(entries, clock) && Timely(events, clock)
    requires WithinWindow(cfg, events, ip, from)
    requires CountFor(Run(cfg, entries, events).1, ip, Locked) == 0
    ensures CountFor(Run(cfg, entries, events).1, ip, Tracked) <= Budget(cfg, entries, ip, from)
    decreases |events|
  {
    if events != [] {
      var (t, answer) := Apply(cfg, entries, events[0]);
      var log := Run(cfg, entries, events).1;
      assert log[1..] == Run(cfg, t, events[1..]).1;
      assert events[0] != Succeeded(ip);
      ApplyKeepsOpen(cfg, entries, clock, events[0]);
      ApplySpendsBudget(cfg, entries, clock, events[0], ip, from);
      assert CountFor([Logged(events[0], answer)][1..], ip, Tracked) == 0;
      SegmentWithinBudget(cfg, t, Clock(events[0], clock), events[1..], ip, from);
    }
  }

  lemma {:induction false} RunKeepsOpen(cfg: Config, entries: Table, clock: nat, events: seq<Event>, rest: seq<Event>)
    returns (at: nat)
    requires cfg.Enabled() && OpenEntries(cfg, entries) && Dated(entries, clock) && Timely(events + rest, clock)
    ensures OpenEntries(cfg, Run(cfg, entries, events).0) && Dated(Run(cfg, entries, events).0, at)
    ensures Timely(rest, at)
    decreases |events|
  {
    if events == [] {
      assert events + rest == rest;
      at := clock;
    } else {
      assert (events + rest)[1..] == events[1..] + rest;
      ApplyKeepsOpen(cfg, entries, clock, events[0]);
      at := RunKeepsOpen(cfg, Apply(cfg, entries, events[0]).0, Clock(events[0], clock), events[1..], rest);
    }
  }

  /** Fixed-window bound: in any stretch of a run lying in [from, from + window) in which an address neither
      succeeds nor is locked, it gets at most 2 * max_failures - 3 Tracked answers, none if the limit is 1; in
      particular at most 2 * (max_failures - 1). */
  lemma FixedWindowBound(cfg: Config, before: seq<Event>, events: seq<Event>, clock: nat, ip: Ip, from: nat)
    requires cfg.Enabled() && Timely(before + events, clock)
    requires WithinWindow(cfg, events, ip, from)
    requires CountFor(Run(cfg, Run(cfg, map[], before).0, events).1, ip, Locked) == 0
    ensures var tracked := CountFor(Run(cfg, Run(cfg, map[], before).0, events).1, ip, Tracked);
            && tracked <= 2 * (cfg.maxFailures - 1)
            && (cfg.maxFailures >= 2 ==> tracked <= 2 * cfg.maxFailures - 3)
  {
    var at := RunKeepsOpen(cfg, map[], clock, before, events);
    SegmentWithinBudget(cfg, Run(cfg, map[], before).0, at, events, ip, from);
  }

  /** `count` failures of one address at one instant, and what follows. */
  function Burst(ip: Ip, now: nat, count: nat, rest: seq<Event>): seq<Event> {
    if count == 0 then rest else [Failed(ip, now)] + Burst(ip, now, count - 1, rest)
  }

  /** The answers `ip` gets, of one kind, from a table holding its entry alone. */
  function Tally(cfg: Config, ip: Ip, state: AuthState, events: seq<Event>, failure: AuthFailure): nat {
    CountFor(Run(cfg, map[ip := state], events).1, ip, failure)
  }

  lemma TrackedStep(cfg: Config, ip: Ip, state: AuthState, now: nat, rest: seq<Event>)
    requires cfg.Enabled() && Touched(cfg, state, now).1 == Tracked
    ensures var next := Touched(cfg, state, now).0;
            && Tally(cfg, ip, state, [Failed(ip, now)] + rest, Tracked) == 1 + Tally(cfg, ip, next, rest, Tracked)
            && Tally(cfg, ip, state, [Failed(ip, now)] + rest, Locked) == Tally(cfg, ip, next, rest, Locked)
  {
    var next := Touched(cfg, state, now).0;
    var events := [Failed(ip, now)] + rest;
    assert events[1..] == rest;
    assert map[ip := state][ip := next] == map[ip := next];
    assert Run(cfg, map[ip := state], events).1[1..] == Run(cfg, map[ip := next], rest).1;
  }

  lemma {:induction false} BurstIsTracked(cfg: Config, ip: Ip, state: AuthState, now: nat, count: nat,
                                          rest: seq<Event>) returns (after: AuthState)
    requires state.lockedUntil.None? && Since(now, state.windowStartedAt) < cfg.failureWindow
    requires state.failures + count < cfg.maxFailures
    ensures after.lockedUntil.None? && after.windowStartedAt == state.windowStartedAt
    ensures Tally(cfg, ip, state, Burst(ip, now, count, rest), Tracked) ==
            count + Tally(cfg, ip, after, rest, Tracked)
    ensures Tally(cfg, ip, state, Burst(ip, now, count, rest), Locked) == Tally(cfg, ip, after, rest, Locked)
    decreases count
  {
    hide Tally;
    if count == 0 {
      after := state;
    } else {
      TrackedStep(cfg, ip, state, now, Burst(ip, now, count - 1, rest));
      after := BurstIsTracked(cfg, ip, Touched(cfg, state, now).0, now, count - 1, rest);
    }
  }

  lemma {:induction false} BurstIsTimely(cfg: Config, ip: Ip, now: nat, count: nat, rest: seq<Event>, clock: nat,
                                         from: nat)
    requires clock <= now && Timely(rest, now) && WithinWindow(cfg, rest, ip, from)
    requires from <= now < from + cfg.failureWindow
    ensures Timely(Burst(ip, now, count, rest), clock) || count == 0
    ensures Timely(Burst(ip, now, count, rest), now)
    ensures WithinWindow(cfg, Burst(ip, now, count, rest), ip, from)
    decreases count
  {
    if count > 0 {
      BurstIsTimely(cfg, ip, now, count - 1, rest, clock, from);
      var events := Burst(ip, now, count, rest);
      assert events[1..] == Burst(ip, now, count - 1, rest);
      assert forall i :: 1 <= i < |events| ==> events[i] == events[1..][i - 1];
    }
  }

  lemma AttainingRun(cfg: Config, ip: Ip)
    requires cfg.maxFailures >= 2 && cfg.failureWindow >= 2
    ensures var w, n := cfg.failureWindow, cfg.maxFailures - 2;
            var events := Burst(ip, w - 1, n, Burst(ip, w, n + 1, []));
            && WithinWindow(cfg, events, ip, w - 1) && Timely(events, 0)
            && Tally(cfg, ip, AuthState(1, 0, 0, None), events, Tracked) == 2 * cfg.maxFailures - 3
            && Tally(cfg, ip, AuthState(1, 0, 0, None), events, Locked) == 0
  {
    var w, n := cfg.failureWindow, cfg.maxFailures - 2;
    var late := Burst(ip, w, n + 1, []);
    BurstIsTimely(cfg, ip, w, n + 1, [], w - 1, w - 1);
    BurstIsTimely(cfg, ip, w, n + 1, [], 0, w - 1);
    BurstIsTimely(cfg, ip, w - 1, n, late, 0, w - 1);
    var full := BurstIsTracked(cfg, ip, AuthState(1, 0, 0, None), w - 1, n, late);
    TrackedStep(cfg, ip, full, w, Burst(ip, w, n, []));
    var last := BurstIsTracked(cfg, ip, Touched(cfg, full, w).0, w, n, []);
  }

  /** The bound is attained: one failure opens a window, max_failures - 2 more come in at its end, and
      max_failures - 1 just after it. */
  lemma FixedWindowBoundAttained(cfg: Config, ip: Ip)
    requires cfg.maxFailures >= 2 && cfg.failureWindow >= 2 && cfg.maxEntries >= 1
    ensures exists before, events, from ::
              && Timely(before + events, 0) && WithinWindow(cfg, events, ip, from)
              && CountFor(Run(cfg, Run(cfg, map[], before).0, events).1, ip, Locked) == 0
              && CountFor(Run(cfg, Run(cfg, map[], before).0, events).1, ip, Tracked) == 2 * cfg.maxFailures - 3
  {
    var w, n := cfg.failureWindow, cfg.maxFailures - 2;
    var events := Burst(ip, w - 1, n, Burst(ip, w, n + 1, []));
    var before := [Failed(ip, 0)];
    AttainingRun(cfg, ip);
    assert (before + events)[1..] == events;
    assert before[1..] == [];
    assert Apply(cfg, map[], before[0]).0 == map[ip := AuthState(1, 0, 0, None)];
    assert Run(cfg, map[], before).0 == map[ip := AuthState(1, 0, 0, None)];
  }

  /** What an entry has counted towards a lock it has not reached. */
  function Pending(state: AuthState): nat {
    if state.lockedUntil.None? then state.failures else 0
  }

  ghost function TotalPending(entries: Table): nat
    decreases |entries|
  {
    if entries == map[] then 0
    else
      var ip :| ip in entries;
      assert (entries - {ip}).Keys == entries.Keys - {ip};
      Pending(entries[ip]) + TotalPending(entries - {ip})
  }

  lemma {:induction false} TotalPendingSplit(entries: Table, ip: Ip)
    requires ip in entries
    ensures TotalPending(entries) == Pending(entries[ip]) + TotalPending(entries - {ip})
    decreases |entries|
  {
    var first :| first in entries
                 && TotalPending(entries) == Pending(entries[first]) + TotalPending(entries - {first});
    if first != ip {
      assert (entries - {first}).Keys == entries.Keys - {first};
      assert (entries - {ip}).Keys == entries.Keys - {ip};
      TotalPendingSplit(entries - {first}, ip);
      TotalPendingSplit(entries - {ip}, first);
      assert entries - {first} - {ip} == entries - {ip} - {first};
    }
  }

  lemma {:induction false} TotalPendingShrinks(entries: Table, kept: Table)
    requires forall ip :: ip in kept ==> ip in entries && kept[ip] == entries[ip]
    ensures TotalPending(kept) <= TotalPending(entries)
    decreases |kept|
  {
    if kept != map[] {
      var ip :| ip in kept;
      TotalPendingSplit(kept, ip);
      TotalPendingSplit(entries, ip);
      assert (kept - {ip}).Keys == kept.Keys - {ip};
      TotalPendingShrinks(entries - {ip}, kept - {ip});
    }
  }

  lemma TotalPendingUpdated(entries: Table, ip: Ip, state: AuthState)
    ensures TotalPending(entries[ip := state]) + (if ip in entries then Pending(entries[ip]) else 0) ==
            TotalPending(entries) + Pending(state)
  {
    TotalPendingSplit(entries[ip := state], ip);
    assert entries[ip := state] - {ip} == entries - {ip};
    if ip in entries {
      TotalPendingSplit(entries, ip);
    } else {
      assert entries - {ip} == entries;
    }
  }

  function Count(log: seq<Logged>, failure: AuthFailure): nat {
    if log == [] then 0
    else (if log[0].answer == Outcome(failure) then 1 else 0) + Count(log[1..], failure)
  }

  lemma ApplyPays(cfg: Config, entries: Table, event: Event)
    requires cfg.Enabled() && OpenEntries(cfg, entries)
    ensures var (t, answer) := Apply(cfg, entries, event);
            cfg.maxFailures * (if answer == Outcome(Locked) then 1 else 0) + TotalPending(t) <=
            TotalPending(entries) + (if answer == Outcome(Locked) || answer == Outcome(Tracked) then 1 else 0)
  {
    hide TotalPending;
    match event
    case Failed(ip, now) =>
      var admitting := Admitting(cfg, entries, ip, now);
      TotalPendingShrinks(entries, admitting);
      if !Refuses(cfg, entries, ip, now) {
        var state := Touched(cfg, EntryOr(entries, ip, now), now).0;
        TotalPendingUpdated(admitting, ip, state);
      }
    case Succeeded(ip) =>
      TotalPendingShrinks(entries, entries - {ip});
    case Snapshot(now) =>
      TotalPendingShrinks(entries, Retained(entries, now, cfg.failureWindow));
  }

  lemma {:induction false} LocksArePaid(cfg: Config, entries: Table, events: seq<Event>)
    requires cfg.Enabled() && OpenEntries(cfg, entries)
    ensures var log := Run(cfg, entries, events).1;
            cfg.maxFailures * Count(log, Locked) <=
            TotalPending(entries) + Count(log, Tracked) + Count(log, Locked)
    decreases |events|
  {
    hide Apply, OpenEntries, TotalPending;
    if events != [] {
      var (t, answer) := Apply(cfg, entries, events[0]);
      var log := Run(cfg, entries, events).1;
      assert log[1..] == Run(cfg, t, events[1..]).1;
      ApplyPays(cfg, entries, events[0]);
      ApplyKeepsOpen(cfg, entries, 0, events[0]);
      LocksArePaid(cfg, t, events[1..]);
      Distribute(cfg.maxFailures, if answer == Outcome(Locked) then 1 else 0, Count(log[1..], Locked));
    }
  }

  /** Amortised lockouts: over every run, in any order of times, each lock is paid for by max_failures counted
      failures of its own. */
  lemma AmortisedLockouts(cfg: Config, events: seq<Event>)
    requires cfg.Enabled()
    ensures var log := Run(cfg, map[], events).1;
            cfg.maxFailures * Count(log, Locked) <= Count(log, Tracked) + Count(log, Locked)
  {
    LocksArePaid(cfg, map[], events);
  }
}
