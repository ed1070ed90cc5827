/**
 * The state the toss, wipe and restore engines act on, and the shape of one
 * step: the state afterwards and how the step ended.
 */
module State {
  import opened Results
  import opened FileSystem
  import Journal

  datatype System = System(fs: Fs, journal: Journal.Journal)

  datatype Transition = Transition(sys: System, outcome: Outcome)

  predicate Valid(sys: System) {
    Journal.Valid(sys.journal)
  }

  /** A loop over the steps `from` to `to` that stops at the first failing
      step: `step(sys, i)` is what step `i` does in state `sys`. */
  function Run(step: (System, nat) -> Transition, sys: System, from: nat, to: nat): Transition
    requires from <= to
    decreases (to as int) - from
  {
    if from == to then Transition(sys, Pass)
    else
      var t := step(sys, from);
      if t.outcome.Fail? then t else Run(step, t.sys, from + 1, to)
  }

  /** Running to `to` is running to `k`, and then on from `k` only when every
      step so far passed. */
  lemma {:induction false} RunSplit(step: (System, nat) -> Transition, sys: System, from: nat, k: nat, to: nat)
    requires from <= k <= to
    ensures Run(step, sys, from, to) ==
      var t := Run(step, sys, from, k);
      if t.outcome.Fail? then t else Run(step, t.sys, k, to)
    decreases (k as int) - from
  {
    if from < k {
      var t := step(sys, from);
      if t.outcome.Pass? {
        RunSplit(step, t.sys, from + 1, k, to);
      }
    }
  }

  /** A loop depends on its own steps only. */
  lemma {:induction false} RunAgrees(step: (System, nat) -> Transition, step': (System, nat) -> Transition,
                                     sys: System, from: nat, to: nat)
    requires from <= to
    requires forall s, i :: from <= i < to ==> step(s, i) == step'(s, i)
    ensures Run(step, sys, from, to) == Run(step', sys, from, to)
    decreases (to as int) - from
  {
    if from < to {
      assert step(sys, from) == step'(sys, from);
      var t := step(sys, from);
      if t.outcome.Pass? {
        RunAgrees(step, step', t.sys, from + 1, to);
      }
    }
  }
}
