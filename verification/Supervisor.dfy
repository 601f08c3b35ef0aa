/** The supervising worker against what its environment tells it: every run of `maintain_connection` refines a
    two-state automaton over connect and probe results. */
module Supervisor {
  import opened Prelude
  import opened Slots
  import opened ShardWorker
  import Backoff

  /** The inputs can be fed to a new shard one after the other. */
  ghost predicate Playable(inputs: seq<Input>)
    decreases |inputs|, 0
  {
    inputs == [] || (Playable(Front(inputs)) && Accepts(Played(Front(inputs)), Last(inputs)))
  }

  function Front<T>(s: seq<T>): seq<T>
    requires s != []
  {
    s[..|s| - 1]
  }

  /** The shard they lead to. */
  ghost function Played(inputs: seq<Input>): Shard
    requires Playable(inputs)
    decreases |inputs|, 1
  {
    if inputs == [] then NEW_SHARD else Step(Played(Front(inputs)), Last(inputs))
  }

  /** The connections made, in order. */
  function Connections(inputs: seq<Input>): seq<Conn> {
    if inputs == [] then []
    else Connections(Front(inputs)) + (if Last(inputs).ConnectSucceeded? then [Last(inputs).conn] else [])
  }

  /** The probe results since the last connection was made. */
  function ProbesSince(inputs: seq<Input>): seq<bool> {
    if inputs == [] || Last(inputs).ConnectSucceeded? then []
    else
      ProbesSince(Front(inputs))
      + (if Last(inputs).ProbeAnswered? then [true] else if Last(inputs).ProbeFailed? then [false] else [])
  }

  /** The failed connects since the last connection was made. */
  function FailuresSince(inputs: seq<Input>): nat {
    if inputs == [] || Last(inputs).ConnectSucceeded? then 0
    else FailuresSince(Front(inputs)) + (if Last(inputs).ConnectFailed? then 1 else 0)
  }

  /** The worker has a connection in hand or is announcing it. */
  predicate Installing(pc: Pc) {
    pc.InstallSlot? || pc.InstallGauge? || pc.InstallCount? || pc.InstallRevision?
  }

  /** The shard's own log is what the environment said. */
  ghost predicate LogIsInputs(shard: Shard, inputs: seq<Input>) {
    var pc, h := shard.worker.pc, shard.history;
    && Connections(inputs) == h.installed + (if pc.InstallSlot? then [pc.conn] else [])
    && ProbesSince(inputs) == (if pc.InstallSlot? then [] else h.probes)
    && FailuresSince(inputs) == (if Installing(pc) then 0 else |h.sleeps|)
  }

  /** What one step adds to the log. */
  lemma StepLogs(shard: Shard, input: Input)
    requires Consistent(shard) && Accepts(shard, input)
    ensures var next := Step(shard, input);
            var pc, h, pc', h' := shard.worker.pc, shard.history, next.worker.pc, next.history;
            && (h'.installed, pc'.InstallSlot?) ==
               (if pc.InstallSlot? then (h.installed + [pc.conn], false) else (h.installed, input.ConnectSucceeded?))
            && (input.ConnectSucceeded? ==> !pc.InstallSlot? && pc' == InstallSlot(input.conn))
            && h'.probes == (if pc.InstallSlot? then [] else if input.ProbeAnswered? then h.probes + [true]
                             else if input.ProbeFailed? then h.probes + [false] else h.probes)
            && (pc.InstallSlot? ==> input.Tick?)
            && (Installing(pc') ==> Installing(pc) || input.ConnectSucceeded?)
            && (if pc.InstallRevision? then h'.sleeps == []
                else |h'.sleeps| == |h.sleeps| + (if input.ConnectFailed? then 1 else 0))
            && (Installing(pc) ==> input.Tick? && (Installing(pc') || pc.InstallRevision?))
  {
    hide Consistent;
  }

  /** What one input adds to the lists of inputs. */
  lemma InputAppended(inputs: seq<Input>, input: Input)
    ensures var all := inputs + [input];
            && Connections(all) == Connections(inputs) + (if input.ConnectSucceeded? then [input.conn] else [])
            && ProbesSince(all) == (if input.ConnectSucceeded? then []
                                    else if input.ProbeAnswered? then ProbesSince(inputs) + [true]
                                    else if input.ProbeFailed? then ProbesSince(inputs) + [false]
                                    else ProbesSince(inputs))
            && FailuresSince(all) == (if input.ConnectSucceeded? then 0
                                      else FailuresSince(inputs) + (if input.ConnectFailed? then 1 else 0))
  {
    var all := inputs + [input];
    assert Front(all) == inputs && Last(all) == input;
    assert ProbesSince(inputs) + [] == ProbesSince(inputs);
  }

  lemma StepLogsInput(shard: Shard, inputs: seq<Input>, input: Input)
    requires Consistent(shard) && Accepts(shard, input) && LogIsInputs(shard, inputs)
    ensures LogIsInputs(Step(shard, input), inputs + [input])
  {
    StepLogs(shard, input);
    InputAppended(inputs, input);
    hide Consistent, Step, Accepts, Connections, ProbesSince, FailuresSince;
  }

  /** Over every run the log of a shard is the list of its environment's answers: the connections made are those
      installed, and the one in hand; the probe log and the sleeps are those since the last one. */
  lemma {:induction false} PlayedLog(inputs: seq<Input>)
    requires Playable(inputs)
    ensures Consistent(Played(inputs)) && LogIsInputs(Played(inputs), inputs)
  {
    if inputs != [] {
      hide Consistent, LogIsInputs, Step, Accepts;
      var front, last := Front(inputs), Last(inputs);
      PlayedLog(front);
      StepKeepsConsistent(Played(front), last);
      StepLogsInput(Played(front), front, last);
      assert front + [last] == inputs;
    }
  }

  /** What the supervisor does, without its steps: down, after so many failed connects in a row, or up on a connection
      whose last probe failed or not. */
  datatype Link = Down(failures: nat) | Up(conn: Conn, wavering: bool)

  /** The second failed probe in a row takes a connection down, a connect brings one up. */
  function React(link: Link, input: Input): Link {
    match (link, input)
    case (Down(_), ConnectSucceeded(conn)) => Up(conn, false)
    case (Down(failures), ConnectFailed) => Down(failures + 1)
    case (Up(conn, _), ProbeAnswered) => Up(conn, false)
    case (Up(conn, wavering), ProbeFailed) => if wavering then Down(0) else Up(conn, true)
    case _ => link
  }

  function Reacted(inputs: seq<Input>): Link {
    if inputs == [] then Down(0) else React(Reacted(Front(inputs)), Last(inputs))
  }

  /** The link a shard maintains, between steps as well. */
  function LinkOf(shard: Shard): Link {
    var pc, h := shard.worker.pc, shard.history;
    if pc.InstallSlot? then Up(pc.conn, false)
    else if shard.slot.connection.Some? && !pc.RetireSlot? then
      Up(shard.slot.connection.value, h.probes != [] && !Last(h.probes))
    else if pc.RetireSlot? then Down(0)
    else Down(|h.sleeps|)
  }

  lemma StepReacts(shard: Shard, input: Input)
    requires Consistent(shard) && Accepts(shard, input)
    ensures LinkOf(Step(shard, input)) == React(LinkOf(shard), input)
  {
  }

  /** Refinement: over every run, at every step, the shard maintains the link its environment's answers call for. */
  lemma {:induction false} PlayedReacts(inputs: seq<Input>)
    requires Playable(inputs)
    ensures LinkOf(Played(inputs)) == Reacted(inputs)
  {
    if inputs != [] {
      PlayedReacts(Front(inputs));
      PlayedLog(Front(inputs));
      StepReacts(Played(Front(inputs)), Last(inputs));
    }
  }

  /** The worker waits for its environment. */
  predicate Waits(shard: Shard) {
    shard.worker.pc.Probing? || shard.worker.pc.Connecting?
  }

  /** `count` steps that need nothing from outside. */
  function Ticked(shard: Shard, count: nat): Shard
    requires Ticks(shard, count)
    decreases count, 1
  {
    if count == 0 then shard else Ticked(Step(shard, Tick), count - 1)
  }

  predicate Ticks(shard: Shard, count: nat)
    decreases count, 0
  {
    count == 0 || (Accepts(shard, Tick) && Ticks(Step(shard, Tick), count - 1))
  }

  /** The steps until the worker waits. */
  function StepsToWait(pc: Pc): nat {
    match pc
    case Probing(_) => 0
    case Connecting => 0
    case LoopTop => 1
    case Starting => 2
    case Sleeping => 2
    case RetireRevision => 2
    case InstallRevision => 2
    case RetireCount => 3
    case InstallCount => 3
    case RetireGauge => 4
    case InstallGauge => 4
    case RetireSlot(_) => 5
    case InstallSlot(_) => 5
  }

  /** The answers a link can get. */
  predicate Answers(link: Link, input: Input) {
    match link
    case Up(_, _) => input.ProbeAnswered? || input.ProbeFailed?
    case Down(_) => input.ConnectSucceeded? || input.ConnectFailed?
  }

  /** Between answers the worker is never stuck: within five steps of its own it waits again, with the link in place:
      up means that very connection in the slot, counted and announced, and the next probe coming; down means an
      empty slot, counted and announced, and the next connect coming; and any answer is taken. */
  lemma {:induction false} WorkerSettles(shard: Shard)
    requires Consistent(shard)
    ensures var n := StepsToWait(shard.worker.pc);
            && Ticks(shard, n)
            && var settled := Ticked(shard, n);
               && Waits(settled) && Consistent(settled) && !settled.Owes() && LinkOf(settled) == LinkOf(shard)
               && (forall input :: Answers(LinkOf(shard), input) ==> Accepts(settled, input))
               && (match LinkOf(shard)
                   case Up(conn, _) =>
                     settled.worker.pc == Probing(settled.slot) && settled.slot.connection == Some(conn)
                   case Down(_) => settled.worker.pc.Connecting? && !settled.Filled())
    decreases StepsToWait(shard.worker.pc)
  {
    if !Waits(shard) {
      StepKeepsConsistent(shard, Tick);
      StepReacts(shard, Tick);
      assert StepsToWait(Step(shard, Tick).worker.pc) == StepsToWait(shard.worker.pc) - 1;
      WorkerSettles(Step(shard, Tick));
    }
  }
}
