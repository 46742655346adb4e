/** Iterating a turn function: what a run has become after any number of turns. */
module Runs {
  /** `Crashed` is undefined behaviour of the source. */
  datatype Outcome<+S> = Running(s: S) | Finished(success: bool, s: S) | Crashed

  /** The outcome after `count` more turns, the next being turn number `k`. */
  function Iterate<S>(turn: (S, nat) -> Outcome<S>, o: Outcome<S>, k: nat, count: nat): Outcome<S>
    decreases count
  {
    if count == 0 || !o.Running? then o else Iterate(turn, turn(o.s, k), k + 1, count - 1)
  }

  function TurnAt<S>(turn: (S, nat) -> Outcome<S>, s: S, k: nat): Outcome<S>
  {
    turn(s, k)
  }

  ghost predicate Halts<S>(turn: (S, nat) -> Outcome<S>, s: S, k: nat)
  {
    exists n: nat :: !Iterate(turn, Running(s), k, n).Running?
  }

  /** Once finished, a run stays finished with the same outcome. */
  lemma {:induction false} IterateStable<S>(turn: (S, nat) -> Outcome<S>, o: Outcome<S>, k: nat, m: nat, n: nat)
    requires m <= n && !Iterate(turn, o, k, m).Running?
    ensures Iterate(turn, o, k, n) == Iterate(turn, o, k, m)
    decreases m
  {
    if o.Running? && m > 0 {
      IterateStable(turn, turn(o.s, k), k + 1, m - 1, n - 1);
    }
  }

  /** The last turn of a run can be split off. */
  lemma {:induction false} IterateLast<S>(turn: (S, nat) -> Outcome<S>, o: Outcome<S>, k: nat, n: nat)
    requires Iterate(turn, o, k, n).Running?
    ensures Iterate(turn, o, k, n + 1) == turn(Iterate(turn, o, k, n).s, k + n)
    decreases n
  {
    if n > 0 {
      IterateLast(turn, turn(o.s, k), k + 1, n - 1);
    } else {
      assert Iterate(turn, turn(o.s, k), k + 1, 0) == turn(o.s, k);
    }
  }

  /** A run of some turns and then some more. */
  lemma {:induction false} IterateSplits<S>(turn: (S, nat) -> Outcome<S>, o: Outcome<S>, k: nat, m: nat, n: nat)
    ensures Iterate(turn, o, k, m + n) == Iterate(turn, Iterate(turn, o, k, m), k + m, n)
    decreases m
  {
    if o.Running? && m > 0 {
      IterateSplits(turn, turn(o.s, k), k + 1, m - 1, n);
    }
  }

  lemma HaltsAfterTurn<S>(turn: (S, nat) -> Outcome<S>, s: S, k: nat)
    requires turn(s, k).Running? ==> Halts(turn, turn(s, k).s, k + 1)
    ensures Halts(turn, s, k)
  {
    var o := turn(s, k);
    if o.Running? {
      var n: nat :| !Iterate(turn, Running(o.s), k + 1, n).Running?;
      assert !Iterate(turn, Running(s), k, n + 1).Running?;
    } else {
      assert Iterate(turn, Running(s), k, 1) == Iterate(turn, o, k + 1, 0);
    }
  }

  /** A run that does not halt after its first turn does not halt. */
  lemma SpinsAfterTurn<S>(turn: (S, nat) -> Outcome<S>, s: S, k: nat, t: S)
    requires turn(s, k) == Running(t) && !Halts(turn, t, k + 1)
    ensures !Halts(turn, s, k)
  {
    if n: nat :| !Iterate(turn, Running(s), k, n).Running? {
      assert !Iterate(turn, Running(t), k + 1, n - 1).Running?;
    }
  }

  /** Where `inv` holds, a turn runs on and keeps it. */
  ghost predicate KeepsRunning<S(!new)>(turn: (S, nat) -> Outcome<S>, inv: S -> bool)
  {
    forall s, k: nat | inv(s) :: turn(s, k).Running? && inv(turn(s, k).s)
  }

  lemma {:induction false} RunsOn<S(!new)>(turn: (S, nat) -> Outcome<S>, inv: S -> bool, s: S, k: nat, n: nat)
    requires KeepsRunning(turn, inv) && inv(s)
    ensures Iterate(turn, Running(s), k, n).Running?
    decreases n
  {
    if n > 0 {
      RunsOn(turn, inv, turn(s, k).s, k + 1, n - 1);
    }
  }

  lemma NeverHalts<S(!new)>(turn: (S, nat) -> Outcome<S>, inv: S -> bool, s: S, k: nat)
    requires KeepsRunning(turn, inv) && inv(s)
    ensures !Halts(turn, s, k)
  {
    forall n: nat ensures Iterate(turn, Running(s), k, n).Running? {
      RunsOn(turn, inv, s, k, n);
    }
  }
}
