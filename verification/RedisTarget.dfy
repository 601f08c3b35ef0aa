/** `connected` and `disconnected` as the methods of a target, tied to the transition system. */
module RedisTarget {
  import opened Prelude
  import opened Slots
  import opened ShardWorker
  import opened ShardProtocol

  /** `count` steps of one worker in a row. */
  function Ticks(shard: nat, count: nat): seq<Event> {
    seq(count, _ => Work(shard, Tick))
  }

  lemma FourTicks(s: System, shard: nat, s1: System, s2: System, s3: System, s4: System)
    requires Enabled(s, Work(shard, Tick)) && s1 == Next(s, Work(shard, Tick))
    requires Enabled(s1, Work(shard, Tick)) && s2 == Next(s1, Work(shard, Tick))
    requires Enabled(s2, Work(shard, Tick)) && s3 == Next(s2, Work(shard, Tick))
    requires Enabled(s3, Work(shard, Tick)) && s4 == Next(s3, Work(shard, Tick))
    ensures Run(s, Ticks(shard, 4), s4)
  {
    assert Run(s4, [], s4);
    assert Ticks(shard, 1)[1..] == [];
    assert Run(s3, Ticks(shard, 1), s4);
    assert Ticks(shard, 2)[1..] == Ticks(shard, 1);
    assert Run(s2, Ticks(shard, 2), s4);
    assert Ticks(shard, 3)[1..] == Ticks(shard, 2);
    assert Run(s1, Ticks(shard, 3), s4);
    assert Ticks(shard, 4)[1..] == Ticks(shard, 3);
  }

  /** What four uninterrupted steps of an installing worker come to. */
  lemma InstallRun(s: System, shard: nat, conn: Conn) returns (t: System)
    requires shard < |s.shards| && s.shards[shard].worker.pc == InstallSlot(conn)
    ensures |t.shards| == |s.shards| && t.shards == s.shards[shard := t.shards[shard]]
    ensures t.shards[shard].slot == s.shards[shard].slot.Install(conn) && t.shards[shard].worker.pc.LoopTop?
    ensures t == s.(shards := t.shards, available := s.available + 1, gauge := s.gauge + 1,
                    version := s.version + 1, revision := (s.revision + 1) % WORD)
    ensures Run(s, Ticks(shard, 4), t)
  {
    var s1 := Next(s, Work(shard, Tick));
    var s2 := Next(s1, Work(shard, Tick));
    var s3 := Next(s2, Work(shard, Tick));
    t := Next(s3, Work(shard, Tick));
    FourTicks(s, shard, s1, s2, s3, t);
  }

  /** What four uninterrupted steps of a retiring worker come to. */
  lemma RetireRun(s: System, shard: nat) returns (t: System)
    requires shard < |s.shards| && s.shards[shard].worker.pc.RetireSlot?
    requires s.shards[shard].slot.Retires(s.shards[shard].worker.pc.seen.generation)
    ensures |t.shards| == |s.shards| && t.shards == s.shards[shard := t.shards[shard]]
    ensures t.shards[shard].slot == s.shards[shard].slot.Retire(s.shards[shard].worker.pc.seen.generation)
    ensures t.shards[shard].worker.pc.LoopTop?
    ensures t == s.(shards := t.shards, available := s.available - 1, gauge := s.gauge - 1,
                    version := s.version + 1, revision := (s.revision + 1) % WORD)
    ensures Run(s, Ticks(shard, 4), t)
  {
    var s1 := Next(s, Work(shard, Tick));
    var s2 := Next(s1, Work(shard, Tick));
    var s3 := Next(s2, Work(shard, Tick));
    t := Next(s3, Work(shard, Tick));
    FourTicks(s, shard, s1, s2, s3, t);
  }

  class Target {
    var connections: seq<Slot>
    var availableShards: int
    var connectedGauge: int
    var changeVersion: nat
    var revision: nat

    constructor (shards: nat)
      ensures Shows(Init(shards))
    {
      connections := seq(shards, _ => FRESH);
      availableShards, connectedGauge, changeVersion, revision := 0, 0, 0, 0;
    }

    /** The object holds the shared part of a state of the transition system. */
    ghost predicate Shows(s: System)
      reads this
    {
      && |connections| == |s.shards|
      && (forall i :: 0 <= i < |s.shards| ==> connections[i] == s.shards[i].slot)
      && availableShards == s.available && connectedGauge == s.gauge
      && changeVersion == s.version && revision == s.revision
    }

    /** A worker's uninterrupted call of `connected` is four steps of the transition system. */
    method Connected(shard: nat, conn: Conn, ghost s: System) returns (ghost t: System)
      requires Shows(s) && shard < |connections|
      requires s.shards[shard].worker.pc == InstallSlot(conn)
      modifies this
      ensures Shows(t) && Run(s, Ticks(shard, 4), t)
      ensures shard < |t.shards| && t.shards[shard].worker.pc.LoopTop?
      ensures connections == old(connections)[shard := old(connections)[shard].Install(conn)]
      ensures availableShards == old(availableShards) + 1 && connectedGauge == old(connectedGauge) + 1
      ensures changeVersion == old(changeVersion) + 1
    {
      t := InstallRun(s, shard, conn);
      connections := connections[shard := connections[shard].Install(conn)];
      connectedGauge := connectedGauge + 1;
      availableShards := availableShards + 1;
      changeVersion, revision := changeVersion + 1, (revision + 1) % WORD;
    }

    /** A worker's uninterrupted call of `disconnected` is four steps when it invalidates the slot, and otherwise
        one step that changes nothing shared. */
    method Disconnected(shard: nat, generation: nat, ghost s: System) returns (invalidated: bool, ghost t: System)
      requires Shows(s) && shard < |connections|
      requires s.shards[shard].worker.pc.RetireSlot?
      requires s.shards[shard].worker.pc.seen.generation == generation
      modifies this
      ensures Shows(t) && Run(s, Ticks(shard, if invalidated then 4 else 1), t)
      ensures shard < |t.shards| && t.shards[shard].worker.pc.LoopTop?
      ensures invalidated <==> old(connections)[shard].Retires(generation)
      ensures connections == old(connections)[shard := old(connections)[shard].Retire(generation)]
      ensures availableShards == old(availableShards) - (if invalidated then 1 else 0)
      ensures changeVersion == old(changeVersion) + (if invalidated then 1 else 0)
    {
      invalidated := connections[shard].generation == generation && connections[shard].connection.Some?;
      if invalidated {
        t := RetireRun(s, shard);
        connections := connections[shard := connections[shard].(connection := None,
                                                                version := connections[shard].version + 1)];
        connectedGauge := connectedGauge - 1;
        availableShards := availableShards - 1;
        changeVersion, revision := changeVersion + 1, (revision + 1) % WORD;
      } else {
        t := Next(s, Work(shard, Tick));
        assert Run(t, [], t);
        assert Ticks(shard, 1)[1..] == [];
      }
    }
  }
}
