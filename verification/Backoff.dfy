/** The retry delay shared by the connection supervisors and the realtime streams, in milliseconds. */
module Backoff {
  import opened Prelude

  const INITIAL: nat := 250
  const MAX: nat := 5000

  /** One doubling, as both retry loops perform it after sleeping. */
  function Doubled(backoff: nat): nat {
    Min(2 * backoff, MAX)
  }

  /** The closed form: the delay slept after the k-th failure in a row, counting from 0. */
  function Delay(k: nat): nat {
    Min(INITIAL * Pow2(k), MAX)
  }

  lemma DelayIsDoubled(k: nat)
    ensures Delay(0) == INITIAL
    ensures Doubled(Delay(k)) == Delay(k + 1)
  {
  }
}
