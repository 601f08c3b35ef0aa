/** Realtime subscriptions: the permit and the connection guard of every stream, through setup, reconnects and
    drop, for any number of concurrent clients. */
module Realtime {
  import opened Prelude
  import opened Counting
  import Backoff

  datatype Phase =
    | SettingUp        // permit held, awaiting the first Pub/Sub connection
    | CountingTotal    // realtime_total.inc is next
    | CountingLive     // realtime_inflight.inc is next, and the guard with it
    | Listening        // waiting for a message
    | Reconnecting     // awaiting a new Pub/Sub connection
    | Sleeping         // sleep(backoff)
    | Leaving          // being dropped: permit and guard go in either order

  /** A subscription, and what an observer has logged of it. */
  datatype Stream = Stream(
    phase: Phase,
    permit: bool,
    guard: bool,
    backoff: nat,
    permitsReturned: nat,
    guardsDropped: nat,
    accepted: bool,
    sleeps: seq<nat>       // delays slept since the last successful reconnect
  )

  datatype System = System(limit: nat, free: int, total: int, inflight: int, streams: seq<Stream>)

  datatype Event =
    | Subscribe                  // try_acquire: refused when no permit is free
    | SetupSucceeded(stream: nat)
    | SetupFailed(stream: nat)
    | Tally(stream: nat)
    | Message(stream: nat)
    | ConnectionLost(stream: nat)
    | Reconnected(stream: nat)
    | ReconnectFailed(stream: nat)
    | Wake(stream: nat)
    | Drop(stream: nat)
    | ReturnPermit(stream: nat)
    | DropGuard(stream: nat)

  function Init(limit: nat): System {
    System(limit, limit, 0, 0, [])
  }

  /** The stream has been handed to the client. */
  predicate IsLive(stream: Stream) {
    stream.phase.Listening? || stream.phase.Reconnecting? || stream.phase.Sleeping?
  }

  predicate Accepts(stream: Stream, event: Event) {
    match event
    case SetupSucceeded(_) => stream.phase.SettingUp?
    case SetupFailed(_) => stream.phase.SettingUp?
    case Tally(_) => stream.phase.CountingTotal? || stream.phase.CountingLive?
    case Message(_) => stream.phase.Listening?
    case ConnectionLost(_) => stream.phase.Listening?
    case Reconnected(_) => stream.phase.Reconnecting?
    case ReconnectFailed(_) => stream.phase.Reconnecting?
    case Wake(_) => stream.phase.Sleeping?
    case Drop(_) => stream.phase.SettingUp? || IsLive(stream)
    case ReturnPermit(_) => stream.phase.Leaving? && stream.permit
    case DropGuard(_) => stream.phase.Leaving? && stream.guard
    case Subscribe => false
  }

  predicate Enabled(s: System, event: Event) {
    event.Subscribe? || (event.stream < |s.streams| && Accepts(s.streams[event.stream], event))
  }

  /** The stream's own part of a step. */
  function Moves(st: Stream, event: Event): Stream {
    match event
    case SetupSucceeded(_) => st.(phase := CountingTotal)
    case SetupFailed(_) => st.(phase := Leaving)
    case Tally(_) =>
      if st.phase.CountingTotal? then st.(phase := CountingLive)
      else st.(phase := Listening, guard := true, accepted := true)
    case Message(_) => st
    case ConnectionLost(_) => st.(phase := Reconnecting)
    case Reconnected(_) => st.(phase := Listening, backoff := Backoff.INITIAL, sleeps := [])
    case ReconnectFailed(_) => st.(phase := Sleeping, sleeps := st.sleeps + [st.backoff])
    case Wake(_) => st.(phase := Reconnecting, backoff := Backoff.Doubled(st.backoff))
    case Drop(_) => st.(phase := Leaving)
    case ReturnPermit(_) => st.(permit := false, permitsReturned := st.permitsReturned + 1)
    case DropGuard(_) => st.(guard := false, guardsDropped := st.guardsDropped + 1)
    case Subscribe => st
  }

  const NEW_STREAM := Stream(SettingUp, true, false, Backoff.INITIAL, 0, 0, false, [])

  function Next(s: System, event: Event): System
    requires Enabled(s, event)
  {
    if event.Subscribe? then
      if s.free > 0 then s.(free := s.free - 1, streams := s.streams + [NEW_STREAM]) else s
    else
      var st := s.streams[event.stream];
      s.(free := if event.ReturnPermit? then s.free + 1 else s.free,
         total := if event.Tally? && st.phase.CountingTotal? then s.total + 1 else s.total,
         inflight := if event.Tally? && st.phase.CountingLive? then s.inflight + 1
                     else if event.DropGuard? then s.inflight - 1 else s.inflight,
         streams := s.streams[event.stream := Moves(st, event)])
  }

  ghost predicate Run(s: System, events: seq<Event>, t: System)
    decreases |events|
  {
    if events == [] then t == s
    else Enabled(s, events[0]) && Run(Next(s, events[0]), events[1..], t)
  }

  predicate HoldsPermit(stream: Stream) {
    stream.permit
  }

  predicate HoldsGuard(stream: Stream) {
    stream.guard
  }

  predicate CountedInTotal(stream: Stream) {
    stream.phase.CountingLive? || stream.accepted
  }

  /** One permit and, once accepted, one guard: each held or returned exactly once. */
  ghost predicate Owned(st: Stream) {
    && st.permitsReturned + (if st.permit then 1 else 0) == 1
    && st.guardsDropped + (if st.guard then 1 else 0) == (if st.accepted then 1 else 0)
    && (!st.phase.Leaving? ==> st.permit)
    && (IsLive(st) ==> st.accepted && st.guard)
    && (st.phase.SettingUp? || st.phase.CountingTotal? || st.phase.CountingLive? ==> !st.accepted)
  }

  ghost predicate BackoffAgrees(st: Stream) {
    && (forall k :: 0 <= k < |st.sleeps| ==> st.sleeps[k] == Backoff.Delay(k))
    && (st.phase.Sleeping? ==> st.sleeps != [] && st.backoff == Last(st.sleeps))
    && (!st.phase.Sleeping? && !st.phase.Leaving? ==> st.backoff == Backoff.Delay(|st.sleeps|))
    && (!st.phase.Reconnecting? && !st.phase.Sleeping? && !st.phase.Leaving? ==> st.sleeps == [])
  }

  ghost predicate Inv(s: System) {
    && 0 <= s.free
    && s.free + Count(s.streams, HoldsPermit) == s.limit
    && s.inflight == Count(s.streams, HoldsGuard)
    && s.total == Count(s.streams, CountedInTotal)
    && forall i :: 0 <= i < |s.streams| ==> Owned(s.streams[i]) && BackoffAgrees(s.streams[i])
  }

  lemma MovesKeepsOwned(st: Stream, event: Event)
    requires Owned(st) && BackoffAgrees(st) && Accepts(st, event)
    ensures Owned(Moves(st, event)) && BackoffAgrees(Moves(st, event))
  {
  }

  lemma SubscribeKeepsInv(s: System)
    requires Inv(s)
    ensures Inv(Next(s, Subscribe))
  {
    Backoff.DelayIsDoubled(0);
    CountSnoc(s.streams, NEW_STREAM, HoldsPermit);
    CountSnoc(s.streams, NEW_STREAM, HoldsGuard);
    CountSnoc(s.streams, NEW_STREAM, CountedInTotal);
  }

  /** The effect of a step on the flags the counters count. */
  lemma MovesEffects(st: Stream, event: Event)
    requires Owned(st) && Accepts(st, event)
    ensures var next := Moves(st, event);
            && next.permit == (st.permit && !event.ReturnPermit?) && (event.ReturnPermit? ==> st.permit)
            && (event.Tally? && st.phase.CountingLive? ==> !st.guard && next.guard)
            && (event.DropGuard? ==> st.guard && !next.guard)
            && (!(event.Tally? && st.phase.CountingLive?) && !event.DropGuard? ==> next.guard == st.guard)
            && (event.Tally? && st.phase.CountingTotal? ==> !CountedInTotal(st) && CountedInTotal(next))
            && (!(event.Tally? && st.phase.CountingTotal?) ==> CountedInTotal(next) == CountedInTotal(st))
  {
  }

  /** The three counts after a step of one stream. */
  lemma NextCounts(s: System, event: Event)
    requires Inv(s) && Enabled(s, event) && !event.Subscribe?
    ensures var t := Next(s, event);
            && 0 <= t.free && t.free + Count(t.streams, HoldsPermit) == t.limit
            && t.inflight == Count(t.streams, HoldsGuard)
            && t.total == Count(t.streams, CountedInTotal)
  {
    var st := s.streams[event.stream];
    assert Owned(st);
    MovesEffects(st, event);
    hide Moves, Accepts, Owned, BackoffAgrees, Count;
    CountUpdate(s.streams, event.stream, Moves(st, event), HoldsPermit);
    CountUpdate(s.streams, event.stream, Moves(st, event), HoldsGuard);
    CountUpdate(s.streams, event.stream, Moves(st, event), CountedInTotal);
  }

  lemma NextKeepsInv(s: System, event: Event)
    requires Inv(s) && Enabled(s, event)
    ensures Inv(Next(s, event))
  {
    if event.Subscribe? {
      SubscribeKeepsInv(s);
    } else {
      NextCounts(s, event);
      var t, moved := Next(s, event), Moves(s.streams[event.stream], event);
      MovesKeepsOwned(s.streams[event.stream], event);
      assert t.streams == s.streams[event.stream := moved];
      hide Moves, Accepts, Owned, BackoffAgrees, Count, Next;
    }
  }

  lemma {:induction false} RunKeepsInv(s: System, events: seq<Event>, t: System)
    requires Inv(s) && Run(s, events, t)
    ensures Inv(t) && t.limit == s.limit
    decreases |events|
  {
    if events != [] {
      NextKeepsInv(s, events[0]);
      RunKeepsInv(Next(s, events[0]), events[1..], t);
    }
  }

  lemma ReachableInv(limit: nat, events: seq<Event>, s: System)
    requires Run(Init(limit), events, s)
    ensures Inv(s) && s.limit == limit
  {
    assert Inv(Init(limit));
    RunKeepsInv(Init(limit), events, s);
  }

  /** Realtime ownership: in every reachable state each live stream holds its permit and its guard, through any
      number of reconnects; each is given back exactly once; live streams never exceed the limit; and with no drop
      in progress the in-flight gauge is the number of live streams. The delays between failed reconnects are
      min(250 * 2^k, 5000). */
  lemma RealtimeOwnership(limit: nat, events: seq<Event>, s: System)
    requires Run(Init(limit), events, s)
    ensures s.free >= 0 && s.free + Count(s.streams, HoldsPermit) == limit
    ensures Count(s.streams, IsLive) <= limit
    ensures forall i :: 0 <= i < |s.streams| && IsLive(s.streams[i]) ==> s.streams[i].permit && s.streams[i].guard
    ensures forall i :: 0 <= i < |s.streams| && !s.streams[i].permit ==> s.streams[i].permitsReturned == 1
    ensures forall i :: 0 <= i < |s.streams| && !s.streams[i].guard ==>
              s.streams[i].guardsDropped == if s.streams[i].accepted then 1 else 0
    ensures Count(s.streams, IsLive) <= s.inflight
    ensures (forall i :: 0 <= i < |s.streams| ==> !s.streams[i].phase.Leaving? || !s.streams[i].guard) ==>
              s.inflight == Count(s.streams, IsLive)
    ensures forall i, k :: 0 <= i < |s.streams| && 0 <= k < |s.streams[i].sleeps| ==>
              s.streams[i].sleeps[k] == Min(250 * Pow2(k), 5000)
  {
    ReachableInv(limit, events, s);
    assert forall i :: 0 <= i < |s.streams| ==> Owned(s.streams[i]) && BackoffAgrees(s.streams[i]);
    CountImplies(s.streams, IsLive, HoldsPermit);
    CountImplies(s.streams, IsLive, HoldsGuard);
    if forall i :: 0 <= i < |s.streams| ==> !s.streams[i].phase.Leaving? || !s.streams[i].guard {
      CountImplies(s.streams, HoldsGuard, IsLive);
    }
  }

  lemma Prepend(s: System, event: Event, events: seq<Event>, t: System)
    requires Enabled(s, event) && Run(Next(s, event), events, t)
    ensures Run(s, [event] + events, t)
  {
    assert ([event] + events)[1..] == events;
  }

  /** From `s` to `t` stream `i` gave back its permit and, if it had one, its guard, and nothing else happened. */
  ghost predicate Released(s: System, i: nat, t: System)
    requires i < |s.streams|
  {
    var was := s.streams[i];
    && t.limit == s.limit && t.total == s.total
    && t.free == s.free + 1 && t.inflight == s.inflight - (if was.accepted then 1 else 0)
    && |t.streams| == |s.streams| && t.streams == s.streams[i := t.streams[i]]
    && HasLeft(t.streams[i]) && t.streams[i].accepted == was.accepted
    && t.streams[i].permitsReturned == 1 && t.streams[i].guardsDropped == (if was.accepted then 1 else 0)
  }

  /** The stream is gone, and holds nothing. */
  predicate HasLeft(stream: Stream) {
    stream.phase.Leaving? && !stream.permit && !stream.guard
  }

  /** The events that end a stream: its client leaves, or its setup fails. */
  predicate EndsStream(event: Event) {
    event.Drop? || event.SetupFailed?
  }

  /** The steps that follow, in either order of the two fields. */
  function Releases(i: nat, accepted: bool, guardFirst: bool): seq<Event> {
    if !accepted then [ReturnPermit(i)]
    else if guardFirst then [DropGuard(i)] + [ReturnPermit(i)]
    else [ReturnPermit(i)] + [DropGuard(i)]
  }

  lemma LeavingReleases(s: System, i: nat, guardFirst: bool) returns (t: System)
    requires Inv(s) && i < |s.streams| && s.streams[i].phase.Leaving? && s.streams[i].permit
    requires s.streams[i].guard == s.streams[i].accepted
    ensures Run(s, Releases(i, s.streams[i].accepted, guardFirst), t) && Released(s, i, t)
  {
    assert Owned(s.streams[i]);
    var first := if s.streams[i].accepted && guardFirst then DropGuard(i) else ReturnPermit(i);
    var second := if guardFirst then ReturnPermit(i) else DropGuard(i);
    var u := Next(s, first);
    t := if s.streams[i].accepted then Next(u, second) else u;
    assert Run(t, [], t);
    if s.streams[i].accepted {
      Prepend(u, second, [], t);
      assert [second] + [] == [second];
      Prepend(s, first, [second], t);
    } else {
      Prepend(s, first, [], t);
      assert [first] + [] == [first];
    }
    assert t.streams == s.streams[i := t.streams[i]];
  }

  /** Release happens: from every reachable state the end of a stream, by its client leaving at any moment or by a
      failed setup, is followed by one or two steps of that stream, in either order, that give back its permit and
      its guard. */
  lemma EndedStreamReleases(limit: nat, before: seq<Event>, s: System, event: Event, guardFirst: bool)
    returns (t: System)
    requires Run(Init(limit), before, s) && EndsStream(event) && event.stream < |s.streams|
    requires s.streams[event.stream].phase.SettingUp? || (event.Drop? && IsLive(s.streams[event.stream]))
    ensures var i := event.stream;
            Run(s, [event] + Releases(i, s.streams[i].accepted, guardFirst), t) && Released(s, i, t)
  {
    ReachableInv(limit, before, s);
    NextKeepsInv(s, event);
    var i := event.stream;
    assert Owned(s.streams[i]);
    var u := Next(s, event);
    t := LeavingReleases(u, i, guardFirst);
    Prepend(s, event, Releases(i, s.streams[i].accepted, guardFirst), t);
    assert t.streams == s.streams[i := t.streams[i]];
  }

  /** When every stream has left, all permits are back and the gauge reads zero. */
  lemma DrainedBalances(limit: nat, events: seq<Event>, s: System)
    requires Run(Init(limit), events, s)
    requires forall i :: 0 <= i < |s.streams| ==> HasLeft(s.streams[i])
    ensures s.free == limit && s.inflight == 0
  {
    ReachableInv(limit, events, s);
    NoneCounted(s.streams, HoldsPermit);
    NoneCounted(s.streams, HoldsGuard);
  }

  /** A client is turned away exactly when all permits are held; otherwise its stream starts with one of them. */
  lemma SubscribeIff(limit: nat, events: seq<Event>, s: System)
    requires Run(Init(limit), events, s)
    ensures var t := Next(s, Subscribe);
            if Count(s.streams, HoldsPermit) == limit then t == s
            else
              && |t.streams| == |s.streams| + 1 && t.streams[..|s.streams|] == s.streams
              && Last(t.streams) == Stream(SettingUp, true, false, 250, 0, 0, false, [])
              && t.free == s.free - 1 && t.inflight == s.inflight && t.total == s.total
  {
    ReachableInv(limit, events, s);
  }

  /** A successful setup makes a live stream with a guard, counted once in the total and once in the gauge. */
  lemma SetupAccepts(s: System, i: nat) returns (t: System)
    requires i < |s.streams| && s.streams[i].phase.SettingUp?
    ensures Run(s, [SetupSucceeded(i)] + ([Tally(i)] + [Tally(i)]), t)
    ensures t == s.(total := s.total + 1, inflight := s.inflight + 1,
                    streams := s.streams[i := s.streams[i].(phase := Listening, guard := true, accepted := true)])
  {
    var u := Next(s, SetupSucceeded(i));
    var v := Next(u, Tally(i));
    t := Next(v, Tally(i));
    assert Run(t, [], t);
    Prepend(v, Tally(i), [], t);
    assert [Tally(i)] + [] == [Tally(i)];
    Prepend(u, Tally(i), [Tally(i)], t);
    Prepend(s, SetupSucceeded(i), [Tally(i)] + [Tally(i)], t);
    assert t.streams == s.streams[i := t.streams[i]];
  }

  /** `count` failed attempts to reconnect, each slept off, and the one that succeeds. */
  function Attempts(i: nat, count: nat): seq<Event> {
    if count == 0 then [Reconnected(i)] else [ReconnectFailed(i)] + ([Wake(i)] + Attempts(i, count - 1))
  }

  lemma {:induction false} AttemptsReconnect(s: System, i: nat, count: nat) returns (t: System)
    requires i < |s.streams| && s.streams[i].phase.Reconnecting?
    ensures Run(s, Attempts(i, count), t)
    ensures t == s.(streams := s.streams[i := s.streams[i].(phase := Listening, backoff := Backoff.INITIAL,
                                                            sleeps := [])])
    decreases count
  {
    if count == 0 {
      t := Next(s, Reconnected(i));
      assert Run(t, [], t);
      Prepend(s, Reconnected(i), [], t);
      assert [Reconnected(i)] + [] == [Reconnected(i)];
    } else {
      var u := Next(s, ReconnectFailed(i));
      var v := Next(u, Wake(i));
      t := AttemptsReconnect(v, i, count - 1);
      Prepend(u, Wake(i), Attempts(i, count - 1), t);
      Prepend(s, ReconnectFailed(i), [Wake(i)] + Attempts(i, count - 1), t);
    }
    assert t.streams == s.streams[i := t.streams[i]];
  }

  /** A lost Pub/Sub connection is invisible once it is back: from every reachable state, after any number of failed
      attempts, a listening stream listens again and nothing at all has changed. */
  lemma ReconnectIsInvisible(limit: nat, before: seq<Event>, s: System, i: nat, count: nat)
    requires Run(Init(limit), before, s) && i < |s.streams| && s.streams[i].phase.Listening?
    ensures Run(s, [ConnectionLost(i)] + Attempts(i, count), s)
  {
    ReachableInv(limit, before, s);
    assert BackoffAgrees(s.streams[i]);
    var u := Next(s, ConnectionLost(i));
    var t := AttemptsReconnect(u, i, count);
    assert t.streams == s.streams;
    Prepend(s, ConnectionLost(i), Attempts(i, count), t);
  }

  /** A live stream stays live, with the same permit and guard, until its client leaves. */
  lemma LiveUntilDropped(st: Stream, event: Event)
    requires IsLive(st) && Accepts(st, event)
    ensures var next := Moves(st, event);
            && (IsLive(next) <==> !event.Drop?)
            && next.permit == st.permit && next.guard == st.guard && next.accepted == st.accepted
  {
  }
}
