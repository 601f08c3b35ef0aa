/** Whole runs of a target, seen from outside: what its supervisors make of their environment's answers, and how its
    requests share the shards. */
module TargetRuns {
  import opened Prelude
  import opened Slots
  import opened ShardWorker
  import opened ShardProtocol
  import opened RoundRobin
  import opened Supervisor
  import RedisTarget

  /** What the environment handed one worker along a run. */
  function Inputs(events: seq<Event>, i: nat): seq<Input> {
    if events == [] then []
    else
      Inputs(Front(events), i)
      + (if Last(events).Work? && Last(events).shard == i then [Last(events).input] else [])
  }

  /** A run up to its last event. */
  lemma {:induction false} RunFront(s: System, events: seq<Event>, t: System) returns (u: System)
    requires Run(s, events, t) && events != []
    ensures Run(s, Front(events), u) && Enabled(u, Last(events)) && t == Next(u, Last(events))
    decreases |events|
  {
    if |events| == 1 {
      u := s;
    } else {
      u := RunFront(Next(s, events[0]), events[1..], t);
      assert Front(events)[1..] == Front(events[1..]);
    }
  }

  /** A shard of a target is what its own inputs make of it. */
  lemma {:induction false} ShardIsPlayed(shards: nat, events: seq<Event>, s: System, i: nat)
    requires Run(Init(shards), events, s) && i < shards
    ensures |s.shards| == shards && Playable(Inputs(events, i)) && Played(Inputs(events, i)) == s.shards[i]
    decreases |events|
  {
    if events != [] {
      var u := RunFront(Init(shards), events, s);
      ShardIsPlayed(shards, Front(events), u, i);
      var last := Last(events);
      if last.Work? && last.shard == i {
        var inputs := Inputs(events, i);
        assert Front(inputs) == Inputs(Front(events), i) && Last(inputs) == last.input;
      } else {
        assert Inputs(events, i) == Inputs(Front(events), i);
      }
    }
  }

  /** In every interleaving each supervisor does what its environment's answers call for: the connections it made are
      the ones it installed, in order, and the one in hand; it is up or down as the answers say, and has slept once for
      every failed connect since the last made. */
  lemma SupervisorFollows(shards: nat, events: seq<Event>, s: System, i: nat)
    requires Run(Init(shards), events, s) && i < shards
    ensures |s.shards| == shards
    ensures var shard, inputs := s.shards[i], Inputs(events, i);
            && LogIsInputs(shard, inputs) && LinkOf(shard) == Reacted(inputs)
  {
    ShardIsPlayed(shards, events, s, i);
    PlayedLog(Inputs(events, i));
    PlayedReacts(Inputs(events, i));
  }

  /** A connection made is a connection installed: the answer and four more steps of the worker put it into the slot,
      count the shard and announce the change, and touch nothing else. */
  lemma ConnectInstalls(s: System, i: nat, conn: Conn) returns (t: System)
    requires i < |s.shards| && s.shards[i].worker.pc.Connecting?
    ensures Run(s, [Work(i, ConnectSucceeded(conn))] + RedisTarget.Ticks(i, 4), t)
    ensures |t.shards| == |s.shards| && t.shards == s.shards[i := t.shards[i]]
    ensures t.shards[i].slot.connection == Some(conn) && t.shards[i].Counted() && !t.shards[i].Owes()
    ensures t == s.(shards := t.shards, available := s.available + 1, gauge := s.gauge + 1,
                    version := s.version + 1, revision := (s.revision + 1) % WORD)
  {
    var made := Next(s, Work(i, ConnectSucceeded(conn)));
    t := RedisTarget.InstallRun(made, i, conn);
    assert ([Work(i, ConnectSucceeded(conn))] + RedisTarget.Ticks(i, 4))[1..] == RedisTarget.Ticks(i, 4);
    assert t.shards == s.shards[i := t.shards[i]];
  }

  /** The tickets taken along a run, in order: the place at which each request starts to look. */
  ghost function Tickets(s: System, events: seq<Event>): seq<nat>
    decreases |events|
  {
    if events == [] || !Enabled(s, events[0]) then []
    else
      var t := Next(s, events[0]);
      (if events[0].Advance? && s.requests[events[0].request].Subscribed?
       then [t.requests[events[0].request].start] else [])
      + Tickets(t, events[1..])
  }

  /** The ticket `k` places after `n`. */
  function TicketAfter(n: nat, k: nat): nat {
    (n + k) % WORD
  }

  lemma TicketAfterNext(n: nat, k: nat)
    requires n < WORD
    ensures TicketAfter(TicketAfter(n, 1), k) == TicketAfter(n, k + 1) && TicketAfter(n, 0) == n
  {
  }

  /** What one event does to the counter. */
  lemma TicketStep(s: System, event: Event)
    requires Enabled(s, event)
    ensures var t := Next(s, event);
            if event.Advance? && s.requests[event.request].Subscribed? then
              t.next == TicketAfter(s.next, 1) && t.requests[event.request] == Marking(s.next)
            else t.next == s.next
  {
  }

  /** Tickets are handed out one by one: the k-th since a state is its counter plus k, modulo the word. */
  lemma {:induction false} TicketsFollow(s: System, events: seq<Event>, t: System)
    requires Run(s, events, t) && s.next < WORD
    ensures t.next == TicketAfter(s.next, |Tickets(s, events)|)
    ensures forall k :: 0 <= k < |Tickets(s, events)| ==> Tickets(s, events)[k] == TicketAfter(s.next, k)
    decreases |events|
  {
    TicketAfterNext(s.next, 0);
    if events != [] {
      TicketStep(s, events[0]);
      var u, tickets := Next(s, events[0]), Tickets(s, events);
      var rest := Tickets(u, events[1..]);
      TicketsFollow(u, events[1..], t);
      if events[0].Advance? && s.requests[events[0].request].Subscribed? {
        assert tickets == [s.next] + rest;
        hide TicketAfter, Tickets, Next, Enabled;
        TicketAfterNext(s.next, |rest|);
        forall k | 1 <= k < |tickets| ensures tickets[k] == TicketAfter(s.next, k) {
          TicketAfterNext(s.next, k - 1);
          assert tickets[k] == rest[k - 1];
        }
      }
    }
  }

  /** The k-th ticket ever taken is k, modulo the word. */
  lemma TicketsInOrder(shards: nat, events: seq<Event>, s: System)
    requires Run(Init(shards), events, s)
    ensures forall k :: 0 <= k < |Tickets(Init(shards), events)| ==> Tickets(Init(shards), events)[k] == k % WORD
    ensures s.next == |Tickets(Init(shards), events)| % WORD
  {
    TicketsFollow(Init(shards), events, s);
  }

  /** A request keeps its ticket until it is served or given up. */
  lemma TicketKept(s: System, event: Event, r: nat)
    requires Enabled(s, event) && r < |s.requests| && !s.requests[r].Subscribed? && !s.requests[r].Cancelled?
    ensures var next := Next(s, event).requests[r]; next.Cancelled? || next.start == s.requests[r].start
  {
  }

  /** The supervisors do not move along the run, so the ready shards stay the same. */
  predicate OnlyRequests(events: seq<Event>) {
    forall i :: 0 <= i < |events| ==> !events[i].Work?
  }

  /** The request is looking for the shard its ticket selects, or has it. */
  ghost predicate FollowsTicket(ready: seq<bool>, request: Request) {
    match request
    case Scanning(start, _, offset) =>
      offset < |ready| && forall k :: 0 <= k < offset ==> !ready[CyclicIndex(start, |ready|, k)]
    case Rereading(start, _, index) => SelectReadyShard(start, ready) == Some(index)
    case Returned(start, index, _, _) => SelectReadyShard(start, ready) == Some(index)
    case _ => true
  }

  lemma AdvanceFollowsTicket(s: System, request: Request)
    requires |s.shards| > 0 && FollowsTicket(ReadyFlags(s), request)
    requires request.Blocked? ==> request.seen != s.version
    requires request.Rereading? ==> request.index < |s.shards|
    ensures FollowsTicket(ReadyFlags(s), AfterAdvance(s, request))
  {
    if request.Scanning? {
      var ready, index := ReadyFlags(s), CyclicIndex(request.start, |s.shards|, request.offset);
      assert ready[index] == s.shards[index].Filled();
      if ready[index] {
        FindReadyFirst(request.start, ready, 0, request.offset);
      }
    }
  }

  lemma {:induction false} RequestsFollowTickets(s: System, events: seq<Event>, t: System, r: nat)
    requires |s.shards| > 0 && Run(s, events, t) && OnlyRequests(events)
    requires r < |s.requests| ==> FollowsTicket(ReadyFlags(s), s.requests[r])
    ensures t.shards == s.shards
    ensures r < |t.requests| ==> FollowsTicket(ReadyFlags(s), t.requests[r])
    decreases |events|
  {
    if events != [] {
      var u := Next(s, events[0]);
      assert u.shards == s.shards && ReadyFlags(u) == ReadyFlags(s);
      if events[0] == Advance(r) {
        AdvanceFollowsTicket(s, s.requests[r]);
      }
      hide FollowsTicket, AfterAdvance;
      RequestsFollowTickets(u, events[1..], t, r);
    }
  }

  /** Whoever is served along such a run gets the shard its ticket selects. */
  lemma ServedByTicket(s: System, events: seq<Event>, t: System, r: nat)
    requires |s.shards| > 0 && Run(s, events, t) && OnlyRequests(events)
    requires |s.requests| <= r < |t.requests| && t.requests[r].Returned?
    ensures SelectReadyShard(t.requests[r].start, ReadyFlags(s)) == Some(t.requests[r].index)
  {
    RequestsFollowTickets(s, events, t, r);
  }

  /** The places of a list at which it holds `x`. */
  ghost function PlacesOf(xs: seq<nat>, x: nat): set<int> {
    set k | 0 <= k < |xs| && xs[k] == x
  }

  lemma PlacesAreWinners(start: nat, ready: seq<bool>, indices: seq<nat>, index: nat)
    requires index < |ready| && ready[index] && |indices| == |ready|
    requires forall k :: 0 <= k < |indices| ==> SelectReadyShard(start + k, ready) == Some(indices[k])
    ensures |PlacesOf(indices, index)| == Gap(ready, index)
  {
    RoundRobinShare(start, ready, index);
    hide SelectReadyShard, Gap;
    assert PlacesOf(indices, index) == Winners(start, ready, index);
  }

  /** Round-robin over a run: while the ready shards stay the same, and however the requests interleave, the served
      requests of one turn of consecutive tickets get each ready shard exactly as often as its distance back to the
      previous ready one. */
  lemma TurnIsShared(s: System, events: seq<Event>, t: System, turn: seq<nat>, start: nat, indices: seq<nat>,
                     index: nat)
    requires |s.shards| > 0 && Run(s, events, t) && OnlyRequests(events)
    requires |turn| == |indices| == |s.shards|
    requires forall k :: 0 <= k < |turn| ==>
               |s.requests| <= turn[k] < |t.requests| && t.requests[turn[k]].Returned?
               && t.requests[turn[k]].start == start + k && t.requests[turn[k]].index == indices[k]
    requires index < |s.shards| && s.shards[index].Filled()
    ensures |PlacesOf(indices, index)| == Gap(ReadyFlags(s), index)
  {
    var ready := ReadyFlags(s);
    assert ready[index] && |ready| == |s.shards|;
    forall k | 0 <= k < |turn|
      ensures SelectReadyShard(start + k, ready) == Some(indices[k])
    {
      ServedByTicket(s, events, t, turn[k]);
    }
    hide Run, OnlyRequests, ReadyFlags;
    PlacesAreWinners(start, ready, indices, index);
  }
}
