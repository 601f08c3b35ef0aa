/** The generation-stamped slot of one connection shard. */
module Slots {
  import opened Prelude

  /** The identity of a connection manager. */
  type Conn = nat

  /** A slot and the version of the watch channel that carries it. */
  datatype Slot = Slot(generation: nat, connection: Option<Conn>, version: nat) {
    predicate Filled() {
      connection.Some?
    }

    /** `send_modify` in `connected`. */
    function Install(conn: Conn): Slot {
      Slot(NextGeneration(generation), Some(conn), version + 1)
    }

    /** The test inside `send_if_modified` in `disconnected`. */
    predicate Retires(seen: nat) {
      generation == seen && connection.Some?
    }

    /** `send_if_modified` in `disconnected`. */
    function Retire(seen: nat): Slot {
      if Retires(seen) then Slot(generation, None, version + 1) else this
    }
  }

  const FRESH := Slot(0, None, 0)

  /** `generation.wrapping_add(1).max(1)` on `u64`. */
  function NextGeneration(generation: nat): nat {
    var wrapped := (generation + 1) % WORD;
    if wrapped < 1 then 1 else wrapped
  }

  /** The generation stamped by the k-th installation; 0 before the first one. */
  function GenerationOf(k: nat): nat {
    if k == 0 then 0 else (k - 1) % (WORD - 1) + 1
  }

  lemma NextGenerationOf(k: nat)
    ensures NextGeneration(GenerationOf(k)) == GenerationOf(k + 1)
  {
  }

  /** A caller still holding the generation of an older installation clears a newer one exactly when the number of
      installations in between is a multiple of 2^64 - 1. */
  lemma StaleGenerationClearsIff(older: nat, newer: nat, slot: Slot)
    requires 1 <= older <= newer
    requires slot.Filled() && slot.generation == GenerationOf(newer)
    ensures slot.Retires(GenerationOf(older)) <==> (newer - older) % (WORD - 1) == 0
  {
    var m, a, b := WORD - 1, older - 1, newer - 1;
    assert a == m * (a / m) + a % m && b == m * (b / m) + b % m;
    var q := b / m - a / m;
    assert b - a == m * q + (b % m - a % m);
  }

  /** Any caller's operation on a slot. */
  datatype SlotOp = Connect(conn: Conn) | Disconnect(seen: nat)

  function Apply(slot: Slot, op: SlotOp): Slot {
    match op
    case Connect(conn) => slot.Install(conn)
    case Disconnect(seen) => slot.Retire(seen)
  }

  /** How many `Disconnect(generation)` calls answer true along a run. */
  function Retirements(slot: Slot, ops: seq<SlotOp>, generation: nat): nat
    decreases |ops|
  {
    if ops == [] then 0
    else
      (if ops[0] == Disconnect(generation) && slot.Retires(generation) then 1 else 0)
      + Retirements(Apply(slot, ops[0]), ops[1..], generation)
  }

  /** Whoever calls, and in whatever order, each generation is retired at most once before the counter wraps,
      and never when the slot had already moved past it. */
  lemma {:induction false} RetiredAtMostOnce(slot: Slot, ops: seq<SlotOp>, generation: nat)
    requires slot.generation + |ops| < WORD
    ensures Retirements(slot, ops, generation) <= 1
    ensures generation < slot.generation ==> Retirements(slot, ops, generation) == 0
    ensures generation == slot.generation && !slot.Filled() ==> Retirements(slot, ops, generation) == 0
    decreases |ops|
  {
    if ops != [] {
      RetiredAtMostOnce(Apply(slot, ops[0]), ops[1..], generation);
    }
  }
}
