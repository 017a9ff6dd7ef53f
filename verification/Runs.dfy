/** Runs of a deterministic state machine. */
module Runs {
  /** The state after feeding `ins` to `next`, starting from `s`. */
  function Run<S, I>(next: (S, I) -> S, s: S, ins: seq<I>): S {
    if ins == [] then s else next(Run(next, s, ins[..|ins| - 1]), ins[|ins| - 1])
  }

  lemma RunStep<S, I>(next: (S, I) -> S, s: S, ins: seq<I>, i: nat)
    requires i < |ins|
    ensures Run(next, s, ins[..i + 1]) == next(Run(next, s, ins[..i]), ins[i])
  {
    assert ins[..i + 1][..i] == ins[..i];
  }

  ghost predicate Inductive<S(!new), I(!new)>(next: (S, I) -> S, inv: S -> bool) {
    forall s, i :: inv(s) ==> inv(next(s, i))
  }

  /** What every step keeps holds at every point of every run. */
  lemma {:induction false} Invariant<S(!new), I(!new)>(next: (S, I) -> S, inv: S -> bool, s: S, ins: seq<I>)
    requires inv(s) && Inductive(next, inv)
    ensures inv(Run(next, s, ins))
  {
    if ins != [] {
      Invariant(next, inv, s, ins[..|ins| - 1]);
    }
  }
}
