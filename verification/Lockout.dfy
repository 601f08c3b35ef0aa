/** The authentication lockout table: fixed-window counters with timed locks. Times and durations are counted in
    one unit from a common origin. */
module Lockout {
  import opened Prelude

  /** A client address; only equality matters here. */
  type Ip = nat

  /** `duration_since`, which saturates at zero. */
  function Since(now: nat, earlier: nat): nat {
    if now >= earlier then now - earlier else 0
  }

  datatype AuthState = AuthState(failures: nat, windowStartedAt: nat, lastSeenAt: nat, lockedUntil: Option<nat>) {
    predicate IsStale(now: nat, window: nat) {
      match lockedUntil
      case Some(until) => until <= now
      case None => Since(now, lastSeenAt) >= window
    }

    predicate LockedAt(now: nat) {
      lockedUntil.Some? && lockedUntil.value > now
    }
  }

  /** `AuthState::new`, and what `reset_window` leaves behind. */
  function Fresh(now: nat): AuthState {
    AuthState(0, now, now, None)
  }

  datatype AuthFailure = Disabled | Tracked | Locked | AlreadyLocked | EntryLimitReached

  datatype Config = Config(maxFailures: nat, failureWindow: nat, lockoutDuration: nat, maxEntries: nat) {
    predicate Enabled() {
      maxFailures > 0
    }
  }

  type Table = map<Ip, AuthState>

  /** `cleanup_stale_entries`. */
  function Retained(entries: Table, now: nat, window: nat): Table {
    map ip | ip in entries && !entries[ip].IsStale(now, window) :: entries[ip]
  }

  /** The entry once an expired lock or an elapsed window has been reset. */
  function Reopened(cfg: Config, state: AuthState, now: nat): AuthState {
    if state.lockedUntil.Some? || Since(now, state.windowStartedAt) >= cfg.failureWindow then Fresh(now) else state
  }

  /** One failure counted against an entry. */
  function Touched(cfg: Config, state: AuthState, now: nat): (AuthState, AuthFailure) {
    if state.LockedAt(now) then (state, AlreadyLocked)
    else
      var open := Reopened(cfg, state, now);
      if open.failures + 1 >= cfg.maxFailures then
        (AuthState(open.failures + 1, open.windowStartedAt, now, Some(now + cfg.lockoutDuration)), Locked)
      else
        (AuthState(open.failures + 1, open.windowStartedAt, now, None), Tracked)
  }

  /** The table a failure meets once a full table has been cleaned for a newcomer. */
  function Admitting(cfg: Config, entries: Table, ip: Ip, now: nat): Table {
    if |entries| >= cfg.maxEntries && ip !in entries then Retained(entries, now, cfg.failureWindow) else entries
  }

  predicate Refuses(cfg: Config, entries: Table, ip: Ip, now: nat) {
    ip !in entries && |Admitting(cfg, entries, ip, now)| >= cfg.maxEntries
  }

  function EntryOr(entries: Table, ip: Ip, now: nat): AuthState {
    if ip in entries then entries[ip] else Fresh(now)
  }

  /** A recorded failure: the new table and the answer. */
  function Failure(cfg: Config, entries: Table, ip: Ip, now: nat): (Table, AuthFailure) {
    if !cfg.Enabled() then (entries, Disabled)
    else
      var admitting := Admitting(cfg, entries, ip, now);
      if Refuses(cfg, entries, ip, now) then (admitting, EntryLimitReached)
      else
        var (state, answer) := Touched(cfg, EntryOr(entries, ip, now), now);
        (admitting[ip := state], answer)
  }

  /** A recorded success. */
  function Success(cfg: Config, entries: Table, ip: Ip): Table {
    if cfg.Enabled() then entries - {ip} else entries
  }

  /** The addresses whose lock is still running. */
  function LockedIps(entries: Table, now: nat): set<Ip> {
    set ip | ip in entries && entries[ip].LockedAt(now)
  }

  /** The addresses whose entry carries a lock, running or not. */
  function LockCarriers(entries: Table): set<Ip> {
    set ip | ip in entries && entries[ip].lockedUntil.Some?
  }

  /** Cleaning for a newcomer leaves room for it, so the bound is kept. */
  lemma FailureKeepsBound(cfg: Config, entries: Table, ip: Ip, now: nat)
    requires |entries| <= cfg.maxEntries
    ensures |Failure(cfg, entries, ip, now).0| <= cfg.maxEntries
  {
    RetainedShrinks(entries, now, cfg.failureWindow);
    InsertGrows(Admitting(cfg, entries, ip, now), ip, Touched(cfg, EntryOr(entries, ip, now), now).0);
  }

  lemma InsertGrows(entries: Table, ip: Ip, state: AuthState)
    ensures |entries[ip := state]| == |entries| + (if ip in entries then 0 else 1)
  {
  }

  lemma RetainedShrinks(entries: Table, now: nat, window: nat)
    ensures |Retained(entries, now, window)| <= |entries|
  {
    var kept := Retained(entries, now, window).Keys;
    assert entries.Keys == kept + (entries.Keys - kept);
  }

  /** An entry worth keeping: its lock is running or, with no lock, its last failure is less than a window old. */
  predicate IsCurrent(state: AuthState, now: nat, window: nat) {
    match state.lockedUntil
    case Some(until) => now < until
    case None => window > 0 && now < state.lastSeenAt + window
  }

  function CurrentIps(entries: Table, now: nat, window: nat): set<Ip> {
    set ip | ip in entries && IsCurrent(entries[ip], now, window)
  }

  lemma RetainedKeys(entries: Table, now: nat, window: nat)
    ensures Retained(entries, now, window).Keys == CurrentIps(entries, now, window)
  {
  }

  /** When a failure is not counted: the lockout is off iff no failures are allowed for, and an address is turned away
      iff it is new and as many entries as the table may hold are current. */
  lemma RefusedIff(cfg: Config, entries: Table, ip: Ip, now: nat)
    requires |entries| <= cfg.maxEntries
    ensures Failure(cfg, entries, ip, now).1 == Disabled <==> cfg.maxFailures == 0
    ensures Failure(cfg, entries, ip, now).1 == EntryLimitReached <==>
            && cfg.maxFailures > 0 && ip !in entries
            && |CurrentIps(entries, now, cfg.failureWindow)| >= cfg.maxEntries
  {
    RetainedKeys(entries, now, cfg.failureWindow);
    RetainedShrinks(entries, now, cfg.failureWindow);
    assert |Retained(entries, now, cfg.failureWindow)| == |Retained(entries, now, cfg.failureWindow).Keys|;
    hide Retained, CurrentIps;
  }

  class AuthLockout {
    const cfg: Config
    var entries: Table

    constructor (cfg: Config)
      ensures this.cfg == cfg && entries == map[]
    {
      this.cfg := cfg;
      entries := map[];
    }

    method CleanupStaleEntries(now: nat)
      modifies this
      ensures entries == Retained(old(entries), now, cfg.failureWindow)
    {
      var kept: Table, pending := map[], entries.Keys;
      while pending != {}
        invariant pending <= entries.Keys && entries == old(entries)
        invariant kept == map ip | ip in entries.Keys - pending
                                   && !entries[ip].IsStale(now, cfg.failureWindow) :: entries[ip]
        decreases pending
      {
        var ip :| ip in pending;
        if !entries[ip].IsStale(now, cfg.failureWindow) {
          kept := kept[ip := entries[ip]];
        }
        pending := pending - {ip};
      }
      entries := kept;
    }

    method RecordFailureAt(ip: Ip, now: nat) returns (answer: AuthFailure)
      modifies this
      ensures (entries, answer) == Failure(cfg, old(entries), ip, now)
    {
      if !cfg.Enabled() {
        return Disabled;
      }
      if |entries| >= cfg.maxEntries && ip !in entries {
        CleanupStaleEntries(now);
        if |entries| >= cfg.maxEntries {
          return EntryLimitReached;
        }
      }
      var state := if ip in entries then entries[ip] else Fresh(now);
      if state.lockedUntil.Some? {
        if state.lockedUntil.value > now {
          entries := entries[ip := state];
          return AlreadyLocked;
        }
        state := Fresh(now);
      }
      if Since(now, state.windowStartedAt) >= cfg.failureWindow {
        state := Fresh(now);
      }
      state := state.(failures := state.failures + 1, lastSeenAt := now);
      if state.failures >= cfg.maxFailures {
        state := state.(lockedUntil := Some(now + cfg.lockoutDuration));
        entries := entries[ip := state];
        return Locked;
      }
      entries := entries[ip := state];
      return Tracked;
    }

    method RecordSuccess(ip: Ip)
      modifies this
      ensures entries == Success(cfg, old(entries), ip)
    {
      if cfg.Enabled() {
        entries := entries - {ip};
      }
    }

    /** After a snapshot every lock in the table is running, and the two numbers count the table. */
    method SnapshotAt(now: nat) returns (trackedIps: nat, lockedIps: nat)
      modifies this
      ensures cfg.Enabled() ==> entries == Retained(old(entries), now, cfg.failureWindow)
      ensures cfg.Enabled() ==> trackedIps == |entries| && lockedIps == |LockCarriers(entries)|
      ensures cfg.Enabled() ==> lockedIps == |LockedIps(old(entries), now)|
      ensures !cfg.Enabled() ==> entries == old(entries) && trackedIps == 0 && lockedIps == 0
    {
      if !cfg.Enabled() {
        return 0, 0;
      }
      CleanupStaleEntries(now);
      assert LockedIps(entries, now) == LockCarriers(entries);
      assert LockedIps(entries, now) == LockedIps(old(entries), now);
      return |entries|, |LockedIps(entries, now)|;
    }
  }
}
