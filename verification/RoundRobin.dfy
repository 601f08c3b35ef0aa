/** `select_ready_shard`: the first ready shard in cyclic order, and how evenly it spreads the load. */
module RoundRobin {
  import opened Prelude
  import opened Arithmetic

  /** The shard examined `offset` places after the starting ticket. */
  function CyclicIndex(start: nat, len: nat, offset: nat): (index: nat)
    requires 0 < len
    ensures index < len
  {
    (start % len + offset) % len
  }

  function FindReady(start: nat, ready: seq<bool>, offset: nat): Option<nat>
    decreases |ready| - offset
  {
    if offset >= |ready| then None
    else
      var index := CyclicIndex(start, |ready|, offset);
      if ready[index] then Some(index) else FindReady(start, ready, offset + 1)
  }

  function SelectReadyShard(start: nat, ready: seq<bool>): Option<nat> {
    FindReady(start, ready, 0)
  }

  /** `offset` is the distance from the ticket to the first ready shard. */
  ghost predicate FirstReadyAt(start: nat, ready: seq<bool>, offset: nat) {
    && offset < |ready|
    && ready[CyclicIndex(start, |ready|, offset)]
    && forall e :: 0 <= e < offset ==> !ready[CyclicIndex(start, |ready|, e)]
  }

  lemma ModOnce(x: nat, len: nat)
    requires 0 < len && x < 2 * len
    ensures x % len == if x < len then x else x - len
  {
  }

  /** Cyclic indices are the residues, each met once in a turn. */
  lemma CyclicIndexIs(start: nat, len: nat, offset: nat)
    requires 0 < len && offset < len
    ensures start % len < len
    ensures CyclicIndex(start, len, offset) ==
            if start % len + offset < len then start % len + offset else start % len + offset - len
    ensures start % len + offset < 2 * len
  {
    ModOnce(start % len + offset, len);
  }

  /** The scan offset at which a given shard is met. */
  function OffsetOf(start: nat, len: nat, index: nat): (offset: nat)
    requires 0 < len && index < len
    ensures offset < len
    ensures CyclicIndex(start, len, offset) == index
  {
    var s := start % len;
    var offset := if s <= index then index - s else index + len - s;
    CyclicIndexIs(start, len, offset);
    offset
  }

  lemma {:induction false} FindReadyFirst(start: nat, ready: seq<bool>, offset: nat, first: nat)
    requires FirstReadyAt(start, ready, first) && offset <= first
    ensures FindReady(start, ready, offset) == Some(CyclicIndex(start, |ready|, first))
    decreases first - offset
  {
    if offset < first {
      FindReadyFirst(start, ready, offset + 1, first);
    }
  }

  lemma {:induction false} FindReadySound(start: nat, ready: seq<bool>, offset: nat) returns (first: nat)
    requires FindReady(start, ready, offset).Some?
    requires forall e :: 0 <= e < offset && e < |ready| ==> !ready[CyclicIndex(start, |ready|, e)]
    ensures FirstReadyAt(start, ready, first)
    ensures FindReady(start, ready, offset) == Some(CyclicIndex(start, |ready|, first))
    decreases |ready| - offset
  {
    if ready[CyclicIndex(start, |ready|, offset)] {
      first := offset;
    } else {
      first := FindReadySound(start, ready, offset + 1);
    }
  }

  /** A shard is selected exactly when it is the first ready one in cyclic order, and none exactly when none is
      ready. */
  lemma SelectIsFirstReady(start: nat, ready: seq<bool>)
    ensures SelectReadyShard(start, ready) == None <==> forall i :: 0 <= i < |ready| ==> !ready[i]
    ensures forall i: nat :: SelectReadyShard(start, ready) == Some(i) <==>
              i < |ready| && FirstReadyAt(start, ready, OffsetOf(start, |ready|, i))
  {
    match SelectReadyShard(start, ready) {
      case None =>
        if i :| 0 <= i < |ready| && ready[i] {
          var first := LeastReady(start, ready, OffsetOf(start, |ready|, i));
          FindReadyFirst(start, ready, 0, first);
          assert false;
        }
      case Some(index) =>
        var first := FindReadySound(start, ready, 0);
        forall i: nat | i < |ready| && FirstReadyAt(start, ready, OffsetOf(start, |ready|, i))
          ensures i == index
        {
          FindReadyFirst(start, ready, 0, OffsetOf(start, |ready|, i));
        }
        OffsetUnique(start, |ready|, first);
    }
  }

  lemma OffsetUnique(start: nat, len: nat, offset: nat)
    requires offset < len
    ensures OffsetOf(start, len, CyclicIndex(start, len, offset)) == offset
  {
    CyclicIndexIs(start, len, offset);
  }

  lemma {:induction false} LeastReady(start: nat, ready: seq<bool>, offset: nat) returns (first: nat)
    requires offset < |ready| && ready[CyclicIndex(start, |ready|, offset)]
    ensures FirstReadyAt(start, ready, first)
  {
    if e :| 0 <= e < offset && ready[CyclicIndex(start, |ready|, e)] {
      first := LeastReady(start, ready, e);
    } else {
      first := offset;
    }
  }

  /** The shard `back` places before `index`. */
  function Before(index: nat, len: nat, back: nat): (before: nat)
    requires index < len && back <= len
    ensures before < len
  {
    if back <= index then index - back else index + len - back
  }

  /** The cyclic distance from `index` back to the previous ready shard; `len` when it is the only one. */
  function Gap(ready: seq<bool>, index: nat, from: nat := 1): (gap: nat)
    requires index < |ready| && ready[index] && 1 <= from <= |ready|
    ensures from <= gap <= |ready|
    ensures ready[Before(index, |ready|, gap)]
    ensures forall back :: from <= back < gap ==> !ready[Before(index, |ready|, back)]
    decreases |ready| - from
  {
    if ready[Before(index, |ready|, from)] then from else Gap(ready, index, from + 1)
  }

  /** A ticket selects a ready shard exactly when it falls in the gap in front of it. */
  lemma SelectedWithinGap(start: nat, ready: seq<bool>, index: nat)
    requires index < |ready| && ready[index]
    ensures SelectReadyShard(start, ready) == Some(index) <==>
            OffsetOf(start, |ready|, index) < Gap(ready, index)
  {
    var len := |ready|;
    var b := OffsetOf(start, len, index);
    var gap := Gap(ready, index);
    SelectIsFirstReady(start, ready);
    forall e | 0 <= e < b
      ensures CyclicIndex(start, len, e) == Before(index, len, b - e)
    {
      CyclicIndexIs(start, len, e);
      CyclicIndexIs(start, len, b);
    }
    if b < gap {
      assert FirstReadyAt(start, ready, b);
    } else {
      assert ready[CyclicIndex(start, len, b - gap)];
    }
  }

  /** Ticket number `start + k` selects `index`. */
  ghost predicate Wins(start: nat, k: int, ready: seq<bool>, index: nat) {
    0 <= k && SelectReadyShard(start + k, ready) == Some(index)
  }

  /** The tickets of one turn that select `index`. */
  ghost function Winners(start: nat, ready: seq<bool>, index: nat): set<int> {
    set k | 0 <= k < |ready| && Wins(start, k, ready, index)
  }

  ghost function Interval(lo: int, hi: int): (s: set<int>)
    requires lo <= hi
    ensures forall k :: k in s <==> lo <= k < hi
    ensures |s| == hi - lo
    decreases hi - lo
  {
    if lo == hi then {} else Interval(lo, hi - 1) + {hi - 1}
  }

  lemma ShiftedResidue(start: nat, len: nat, k: nat)
    requires k < len
    ensures (start + k) % len == CyclicIndex(start, len, k)
  {
    CyclicIndexIs(start, len, k);
    var q := start / len;
    var r := start % len;
    assert start == q * len + r;
    if r + k < len {
      QuotientRemainder(start + k, len, q, r + k);
    } else {
      assert (q + 1) * len == q * len + len;
      QuotientRemainder(start + k, len, q + 1, r + k - len);
    }
  }

  /** Later tickets are nearer to a shard, until they pass it. */
  lemma OffsetOfLaterTicket(start: nat, len: nat, index: nat, k: nat)
    requires index < len && k < len
    ensures var c := OffsetOf(start, len, index);
            OffsetOf(start + k, len, index) == if k <= c then c - k else c - k + len
  {
    ShiftedResidue(start, len, k);
    CyclicIndexIs(start, len, k);
  }

  /** The tickets of a turn that win a shard with the given gap, `c` places ahead of the first ticket. */
  ghost predicate InGap(k: int, c: nat, gap: nat, len: nat) {
    0 <= k < len && (if k <= c then c - k else c - k + len) < gap
  }

  lemma GapSize(c: nat, gap: nat, len: nat, winners: set<int>)
    requires c < len && 1 <= gap <= len
    requires forall k :: k in winners <==> InGap(k, c, gap, len)
    ensures |winners| == gap
  {
    var lo := if c < gap then 0 else c - gap + 1;
    var hi := if c + 1 < gap then len + c + 1 - gap else len;
    var near, far := Interval(lo, c + 1), Interval(hi, len);
    assert forall k :: InGap(k, c, gap, len) <==> lo <= k < c + 1 || hi <= k < len;
    assert winners == near + far;
  }

  lemma WinsInGap(start: nat, ready: seq<bool>, index: nat, k: nat)
    requires index < |ready| && ready[index] && k < |ready|
    ensures Wins(start, k, ready, index) <==>
            InGap(k, OffsetOf(start, |ready|, index), Gap(ready, index), |ready|)
  {
    SelectedWithinGap(start + k, ready, index);
    OffsetOfLaterTicket(start, |ready|, index, k);
  }

  /** Round-robin share: over one turn of consecutive tickets, with a fixed ready set, a ready shard is selected
      exactly as often as its distance back to the previous ready shard. */
  lemma RoundRobinShare(start: nat, ready: seq<bool>, index: nat)
    requires index < |ready| && ready[index]
    ensures |Winners(start, ready, index)| == Gap(ready, index)
  {
    forall k: nat | k < |ready|
      ensures Wins(start, k, ready, index) <==>
              InGap(k, OffsetOf(start, |ready|, index), Gap(ready, index), |ready|)
    {
      WinsInGap(start, ready, index, k);
    }
    GapSize(OffsetOf(start, |ready|, index), Gap(ready, index), |ready|, Winners(start, ready, index));
  }

  /** The index arithmetic stays within `usize` for any vector the bridge can hold. */
  lemma IndexFitsWord(start: nat, len: nat, offset: nat)
    requires start < WORD && 0 < len <= WORD / 2 && offset < len
    ensures start % len + offset < WORD
  {
  }
}
