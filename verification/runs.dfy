/** Runs of a state machine given by its step relation. */
module Runs {
  ghost predicate Run<S(!new)>(next: (S, S) -> bool, trace: seq<S>) {
    trace != [] && forall i | 0 <= i < |trace| - 1 :: next(trace[i], trace[i + 1])
  }

  /** A run that leads from one state to another. */
  ghost predicate Leads<S(!new)>(next: (S, S) -> bool, trace: seq<S>, before: S, after: S) {
    Run(next, trace) && trace[0] == before && trace[|trace| - 1] == after
  }

  /** The run behind one more step. */
  ghost function Extend<S(!new)>(next: (S, S) -> bool, trace: seq<S>, s: S): (longer: seq<S>)
    requires Run(next, trace) && next(trace[|trace| - 1], s)
    ensures Leads(next, longer, trace[0], s) && |longer| == |trace| + 1 && longer[|trace| - 1] == trace[|trace| - 1]
  {
    ExtendIsRun(next, trace, s);
    trace + [s]
  }

  lemma ExtendIsRun<S(!new)>(next: (S, S) -> bool, trace: seq<S>, s: S)
    requires Run(next, trace) && next(trace[|trace| - 1], s)
    ensures Run(next, trace + [s])
  {
    var longer := trace + [s];
    forall i | 0 <= i < |longer| - 1 ensures next(longer[i], longer[i + 1]) {
      if i < |trace| - 1 {
        assert next(trace[i], trace[i + 1]);
      }
    }
  }

  /** What every step keeps holds all along a run. */
  ghost predicate Invariant<S(!new)>(next: (S, S) -> bool, inv: S -> bool) {
    forall s, t :: inv(s) && next(s, t) ==> inv(t)
  }

  lemma {:induction false} HoldsAlong<S(!new)>(next: (S, S) -> bool, inv: S -> bool, trace: seq<S>, i: nat)
    requires Run(next, trace) && Invariant(next, inv) && inv(trace[0]) && i < |trace|
    ensures inv(trace[i])
  {
    if i > 0 {
      HoldsAlong(next, inv, trace, i - 1);
      assert next(trace[i - 1], trace[i - 1 + 1]);
    }
  }

  /** A reflexive and transitive relation that every step from a state of the invariant satisfies. */
  ghost predicate Progress<S(!new)>(next: (S, S) -> bool, inv: S -> bool, rel: (S, S) -> bool) {
    && (forall s, t :: inv(s) && next(s, t) ==> rel(s, t))
    && (forall s :: rel(s, s))
    && (forall s, t, u :: rel(s, t) && rel(t, u) ==> rel(s, u))
  }

  lemma {:induction false} RelatesAlong<S(!new)>(next: (S, S) -> bool, inv: S -> bool, rel: (S, S) -> bool,
                                                 trace: seq<S>, i: nat, j: nat)
    requires Run(next, trace) && Invariant(next, inv) && inv(trace[0]) && Progress(next, inv, rel) && i <= j < |trace|
    ensures rel(trace[i], trace[j])
    decreases j - i
  {
    if i < j {
      HoldsAlong(next, inv, trace, i);
      assert next(trace[i], trace[i + 1]);
      RelatesAlong(next, inv, rel, trace, i + 1, j);
    }
  }
}
