/** Exactly when cleaning the lockout table goes unseen, whatever the order of times. */
module LockoutOrder {
  import opened Prelude
  import opened Lockout
  import opened LockoutRuns

  /** The first `n` events, the last of them handled `more` times over: concurrent callers that read the clock alike. */
  function Repeated(events: seq<Event>, n: nat, more: nat): seq<Event>
    requires 1 <= n <= |events|
  {
    events[..n] + seq(more, _ => events[n - 1])
  }

  lemma RetainedTwice(entries: Table, now: nat, window: nat)
    ensures Retained(Retained(entries, now, window), now, window) == Retained(entries, now, window)
  {
  }

  /** A table that turned a failure away does so again. */
  lemma RefusedAgain(cfg: Config, entries: Table, ip: Ip, now: nat)
    requires cfg.Enabled() && Refuses(cfg, entries, ip, now)
    ensures Refuses(cfg, Failure(cfg, entries, ip, now).0, ip, now)
  {
    RetainedTwice(entries, now, cfg.failureWindow);
  }

  /** What was harmless once is harmless when repeated. */
  lemma HarmlessAgain(cfg: Config, entries: Table, reference: Table, event: Event)
    requires Within(entries, reference) && Harmless(cfg, entries, reference, event)
    ensures Harmless(cfg, Apply(cfg, entries, event).0, ReferenceNext(cfg, entries, reference, event), event)
  {
    if event.Failed? && cfg.Enabled() && Refuses(cfg, entries, event.ip, event.now) {
      RefusedAgain(cfg, entries, event.ip, event.now);
    }
  }

  lemma {:induction false} RepeatsHarmless(cfg: Config, entries: Table, reference: Table, event: Event, more: nat)
    requires Within(entries, reference) && Harmless(cfg, entries, reference, event)
    ensures EvictedActFresh(cfg, entries, reference, seq(more, _ => event))
    decreases more
  {
    hide Apply, ReferenceNext, Harmless;
    if more > 0 {
      HarmlessStep(cfg, entries, reference, event);
      HarmlessAgain(cfg, entries, reference, event);
      var t, r := Apply(cfg, entries, event).0, ReferenceNext(cfg, entries, reference, event);
      RepeatsHarmless(cfg, t, r, event, more - 1);
      assert seq(more, _ => event)[1..] == seq(more - 1, _ => event);
    }
  }

  lemma RepeatedRest(events: seq<Event>, n: nat, more: nat)
    requires 1 <= n <= |events|
    ensures Repeated(events, n, more)[0] == events[0]
    ensures Repeated(events, n, more)[1..] ==
            if n == 1 then seq(more, _ => events[0]) else Repeated(events[1..], n - 1, more)
  {
  }

  lemma {:induction false} RepeatedActsFresh(cfg: Config, entries: Table, reference: Table, events: seq<Event>, n: nat,
                                             more: nat)
    requires Within(entries, reference) && EvictedActFresh(cfg, entries, reference, events) && 1 <= n <= |events|
    ensures EvictedActFresh(cfg, entries, reference, Repeated(events, n, more))
    decreases n
  {
    hide Apply, ReferenceNext, Harmless;
    var t, r := Apply(cfg, entries, events[0]).0, ReferenceNext(cfg, entries, reference, events[0]);
    RepeatedRest(events, n, more);
    HarmlessStep(cfg, entries, reference, events[0]);
    if n == 1 {
      HarmlessAgain(cfg, entries, reference, events[0]);
      RepeatsHarmless(cfg, t, r, events[0], more);
    } else {
      RepeatedActsFresh(cfg, t, r, events[1..], n - 1, more);
    }
  }

  /** Two counts of one address that both are open and within their window, the table's behind the reference's: failures
      at one clock reading bring out the difference when the reference locks. */
  lemma {:induction false} BurstShows(cfg: Config, entries: Table, reference: Table, ip: Ip, now: nat)
    returns (more: nat)
    requires cfg.Enabled() && !Refuses(cfg, entries, ip, now) && ip in reference
    requires var behind, ahead := EntryOr(entries, ip, now), reference[ip];
             && behind.lockedUntil.None? && ahead.lockedUntil.None?
             && behind.failures < ahead.failures < cfg.maxFailures
             && Since(now, behind.windowStartedAt) < cfg.failureWindow
             && Since(now, ahead.windowStartedAt) < cfg.failureWindow
    ensures !Agrees(cfg, entries, reference, seq(1 + more, _ => Failed(ip, now)))
    decreases cfg.maxFailures - reference[ip].failures
  {
    hide Agrees;
    var event := Failed(ip, now);
    var t, r := Apply(cfg, entries, event).0, ReferenceNext(cfg, entries, reference, event);
    if reference[ip].failures + 1 >= cfg.maxFailures {
      more := 0;
    } else {
      var rest := BurstShows(cfg, t, r, ip, now);
      more := rest + 1;
      assert seq(1 + more, _ => event)[1..] == seq(1 + rest, _ => event);
    }
    AgreesCons(cfg, entries, reference, seq(1 + more, _ => event));
  }

  lemma FewerRetained(cfg: Config, entries: Table, reference: Table, ip: Ip, now: nat)
    requires Within(entries, reference) && ip in reference && ip !in entries
    requires !reference[ip].IsStale(now, cfg.failureWindow)
    ensures |Retained(entries, now, cfg.failureWindow)| < |Retained(reference, now, cfg.failureWindow)|
  {
    var fewer := Retained(entries, now, cfg.failureWindow).Keys;
    var all := Retained(reference, now, cfg.failureWindow).Keys;
    assert all == fewer + (all - fewer) && ip in all - fewer;
  }

  /** A snapshot that finds a live entry cleaned away counts one less. */
  lemma SnapshotShows(cfg: Config, entries: Table, reference: Table, now: nat)
    requires Within(entries, reference) && !Harmless(cfg, entries, reference, Snapshot(now))
    ensures !SameAnswer(cfg, entries, reference, Snapshot(now))
  {
    var ip :| ip in reference && ip !in entries && !reference[ip].IsStale(now, cfg.failureWindow);
    FewerRetained(cfg, entries, reference, ip, now);
  }

  /** A failure that finds a running lock cleaned away is counted where it should have been turned down. */
  lemma LockShows(cfg: Config, entries: Table, reference: Table, ip: Ip, now: nat)
    requires cfg.Enabled() && !Refuses(cfg, entries, ip, now)
    requires ip in reference && ip !in entries && reference[ip].LockedAt(now)
    ensures !SameAnswer(cfg, entries, reference, Failed(ip, now))
  {
  }

  /** An event that is not harmless shows, at once or repeated. */
  lemma HarmShows(cfg: Config, entries: Table, reference: Table, event: Event) returns (more: nat)
    requires Within(entries, reference) && OpenEntries(cfg, reference) && !Harmless(cfg, entries, reference, event)
    ensures !Agrees(cfg, entries, reference, seq(1 + more, _ => event))
  {
    hide Agrees, Apply, SameAnswer, Refuses;
    if event.Failed? && reference[event.ip].lockedUntil.None? {
      more := BurstShows(cfg, entries, reference, event.ip, event.now);
    } else {
      more := 0;
      if event.Failed? {
        LockShows(cfg, entries, reference, event.ip, event.now);
      } else {
        SnapshotShows(cfg, entries, reference, event.now);
      }
      AgreesCons(cfg, entries, reference, seq(1, _ => event));
    }
  }

  lemma ReferenceKeepsOpen(cfg: Config, entries: Table, reference: Table, event: Event)
    requires OpenEntries(cfg, reference)
    ensures OpenEntries(cfg, ReferenceNext(cfg, entries, reference, event))
  {
  }

  lemma {:induction false} SomeRepeatShows(cfg: Config, entries: Table, reference: Table, events: seq<Event>)
    returns (n: nat, more: nat)
    requires Within(entries, reference) && OpenEntries(cfg, reference)
    requires !EvictedActFresh(cfg, entries, reference, events)
    ensures 1 <= n <= |events| && !Agrees(cfg, entries, reference, Repeated(events, n, more))
    decreases |events|
  {
    hide Apply, ReferenceNext, Harmless, Agrees, SameAnswer;
    if !Harmless(cfg, entries, reference, events[0]) {
      n := 1;
      more := HarmShows(cfg, entries, reference, events[0]);
      assert Repeated(events, 1, more) == seq(1 + more, _ => events[0]);
    } else {
      HarmlessStep(cfg, entries, reference, events[0]);
      ReferenceKeepsOpen(cfg, entries, reference, events[0]);
      n, more := SomeRepeatShows(cfg, Apply(cfg, entries, events[0]).0,
                                 ReferenceNext(cfg, entries, reference, events[0]), events[1..]);
      n := n + 1;
      RepeatedRest(events, n, more);
      AgreesCons(cfg, entries, reference, Repeated(events, n, more));
    }
  }

  /** Exactly when cleanup is invisible: over a run in whatever order of times, and every repetition of the last event
      of any of its prefixes, the answers are those of a table that never cleans iff every admitted failure that
      finds its entry cleaned away comes when the entry's lock has expired or its window elapsed, and every snapshot
      finds all that was cleaned away stale. */
  lemma InvisibleIff(cfg: Config, events: seq<Event>)
    ensures (forall n, more: nat | 1 <= n <= |events| :: Agrees(cfg, map[], map[], Repeated(events, n, more))) <==>
            EvictedActFresh(cfg, map[], map[], events)
  {
    if EvictedActFresh(cfg, map[], map[], events) {
      forall n, more: nat | 1 <= n <= |events|
        ensures Agrees(cfg, map[], map[], Repeated(events, n, more))
      {
        RepeatedActsFresh(cfg, map[], map[], events, n, more);
        RunAgrees(cfg, map[], map[], Repeated(events, n, more));
      }
    } else {
      var n, more := SomeRepeatShows(cfg, map[], map[], events);
      assert !Agrees(cfg, map[], map[], Repeated(events, n, more));
    }
  }

  /** Any step back in time can show: a failure at t0, its eviction at t1 and a failure stamped before t1 are answered
      otherwise than without cleaning, in some configuration startup accepts. */
  lemma OutOfOrderTimesShow(ip: Ip, t0: nat, t1: nat, t2: nat) returns (cfg: Config)
    requires t0 < t1 && t2 < t1
    ensures cfg.maxFailures > 0 && cfg.failureWindow > 0 && cfg.lockoutDuration > 0 && cfg.maxEntries > 0
    ensures var events := [Failed(ip, t0), Snapshot(t1), Failed(ip, t2)];
            var log, expected := Run(cfg, map[], events).1, ReferenceRun(cfg, map[], events);
            && !Timely(events, t0) && !EvictedActFresh(cfg, map[], map[], events)
            && |log| == |expected| == 3
            && log[2].answer == Outcome(Tracked) && expected[2].answer == Outcome(Locked)
  {
    cfg := Config(2, t1 - t0, 1, 1);
    var first, clean, late := Failed(ip, t0), Snapshot(t1), Failed(ip, t2);
    var events := [first, clean, late];
    assert events[1..] == [clean, late] && [clean, late][1..] == [late] && [late][1..] == [];
    var table: Table := map[ip := AuthState(1, t0, t0, None)];
    assert Apply(cfg, map[], first) == (table, Outcome(Tracked));
    assert ReferenceApply(cfg, map[], first) == (table, Outcome(Tracked));
    assert Apply(cfg, table, clean).0 == map[] && ReferenceApply(cfg, table, clean).0 == table;
    assert Apply(cfg, map[], late).1 == Outcome(Tracked) && ReferenceApply(cfg, table, late).1 == Outcome(Locked);
    assert !Harmless(cfg, map[], table, late);
    assert Run(cfg, map[], [late]).1[0].answer == Run(cfg, table, [clean, late]).1[1].answer;
    assert ReferenceRun(cfg, table, [late])[0].answer == ReferenceRun(cfg, table, [clean, late])[1].answer;
    assert !Timely([clean, late], t0);
    assert !EvictedActFresh(cfg, map[], table, [late]) && !EvictedActFresh(cfg, table, table, [clean, late]);
  }
}
