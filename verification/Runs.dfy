/** Runs of a state machine and the one induction over them. */
module Runs {

  ghost predicate Run<S(!new), E(!new)>(step: (S, E, S) -> bool, states: seq<S>, events: seq<E>)
  {
    && |states| == |events| + 1
    && forall i :: 0 <= i < |events| ==> step(states[i], events[i], states[i + 1])
  }

  /** A property that holds at the start and that every step keeps holds at
      every state of every run. */
  lemma {:induction false} Invariant<S(!new), E(!new)>(
    inv: S -> bool, step: (S, E, S) -> bool, states: seq<S>, events: seq<E>, n: nat)
    requires Run(step, states, events) && inv(states[0]) && n <= |events|
    requires forall s, e, t :: inv(s) && step(s, e, t) ==> inv(t)
    ensures forall i :: 0 <= i <= n ==> inv(states[i])
  {
    if n > 0 {
      Invariant(inv, step, states, events, n - 1);
      assert step(states[n - 1], events[n - 1], states[n]);
    }
  }
}
