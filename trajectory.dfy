/** Driving a generator with a sequence of forcing values, one step per
    value, for any step function that may fail (a step fails where the
    source would overflow). This is the fold of Oscillator::many_steps in
    src/osc.rs, and the loop an external driver runs around every
    generator's step. */
module Trajectory {
  import opened Int32

  /** Every step of the run from s over xs succeeds. */
  predicate Runs<S>(step: (S, i32) -> Option<S>, s: S, xs: seq<i32>)
    decreases |xs|
  {
    xs == [] || (step(s, xs[0]).Some? && Runs(step, step(s, xs[0]).value, xs[1..]))
  }

  /** The states visited from s over xs, in order; s itself is not included. */
  function Run<S>(step: (S, i32) -> Option<S>, s: S, xs: seq<i32>): (r: seq<S>)
    requires Runs(step, s, xs)
    ensures |r| == |xs|
    decreases |xs|
  {
    if xs == [] then [] else var next := step(s, xs[0]).value; [next] + Run(step, next, xs[1..])
  }

  /** The first step of a run, and the run from there. */
  lemma RunUnfold<S>(step: (S, i32) -> Option<S>, s: S, xs: seq<i32>)
    requires Runs(step, s, xs) && xs != []
    ensures step(s, xs[0]).Some? && Runs(step, step(s, xs[0]).value, xs[1..])
    ensures Run(step, s, xs) == [step(s, xs[0]).value] + Run(step, step(s, xs[0]).value, xs[1..])
  {
  }

  /** Element i of a run is one step from element i-1, or from s when i = 0. */
  lemma {:induction false} RunAt<S>(step: (S, i32) -> Option<S>, s: S, xs: seq<i32>, i: nat)
    requires Runs(step, s, xs) && i < |xs|
    ensures var prev := if i == 0 then s else Run(step, s, xs)[i - 1];
      step(prev, xs[i]).Some? && Run(step, s, xs)[i] == step(prev, xs[i]).value
    decreases i
  {
    if i > 0 {
      RunAt(step, step(s, xs[0]).value, xs[1..], i - 1);
      assert xs[1..][i - 1] == xs[i];
    }
  }

  /** A run split after its first i states: the prefix computed so far, and
      the run from the state reached. */
  lemma RunAdvance<S>(step: (S, i32) -> Option<S>, s: S, xs: seq<i32>, i: nat, done: seq<S>, state: S)
    requires Runs(step, s, xs) && i < |xs| && Runs(step, state, xs[i..])
    requires Run(step, s, xs) == done + Run(step, state, xs[i..])
    ensures step(state, xs[i]).Some? && Runs(step, step(state, xs[i]).value, xs[i + 1..])
    ensures Run(step, s, xs)
      == (done + [step(state, xs[i]).value]) + Run(step, step(state, xs[i]).value, xs[i + 1..])
  {
    RunUnfold(step, state, xs[i..]);
    assert xs[i..][1..] == xs[i + 1..];
  }

  /** If every step of f from a state related to one of g can be matched by a
      step of g that keeps the relation, then a run of f is matched
      element by element by a run of g. */
  lemma {:induction false} Simulation<S, T>(f: (S, i32) -> Option<S>, g: (T, i32) -> Option<T>,
                                          related: (S, T) -> bool, s: S, t: T, xs: seq<i32>)
    requires related(s, t)
    requires forall a, b, x :: related(a, b) && f(a, x).Some? ==>
      g(b, x).Some? && related(f(a, x).value, g(b, x).value)
    requires Runs(f, s, xs)
    ensures Runs(g, t, xs)
    ensures forall i :: 0 <= i < |xs| ==> related(Run(f, s, xs)[i], Run(g, t, xs)[i])
    decreases |xs|
  {
    if xs != [] {
      var s', t' := f(s, xs[0]).value, g(t, xs[0]).value;
      Simulation(f, g, related, s', t', xs[1..]);
      forall i | 0 <= i < |xs|
        ensures related(Run(f, s, xs)[i], Run(g, t, xs)[i])
      {
        if i > 0 {
          assert Run(f, s, xs)[i] == Run(f, s', xs[1..])[i - 1];
          assert Run(g, t, xs)[i] == Run(g, t', xs[1..])[i - 1];
        }
      }
    }
  }

  /** A property that every step from the run's forcing values keeps holds
      of every state of the run, and no step fails. */
  lemma {:induction false} RunKeeps<S>(step: (S, i32) -> Option<S>, inv: S -> bool, s: S, xs: seq<i32>)
    requires inv(s)
    requires forall a, i :: 0 <= i < |xs| && inv(a) ==> step(a, xs[i]).Some? && inv(step(a, xs[i]).value)
    ensures Runs(step, s, xs)
    ensures forall i :: 0 <= i < |xs| ==> inv(Run(step, s, xs)[i])
    decreases |xs|
  {
    if xs != [] {
      var next := step(s, xs[0]).value;
      forall a, i | 0 <= i < |xs[1..]| && inv(a)
        ensures step(a, xs[1..][i]).Some? && inv(step(a, xs[1..][i]).value)
      {
        assert xs[1..][i] == xs[i + 1];
      }
      RunKeeps(step, inv, next, xs[1..]);
      forall i | 0 <= i < |xs|
        ensures inv(Run(step, s, xs)[i])
      {
        if i > 0 {
          assert Run(step, s, xs)[i] == Run(step, next, xs[1..])[i - 1];
        }
      }
    }
  }
}
