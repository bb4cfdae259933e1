/** Runs of a deterministic machine, and the induction over them. */
module StateMachine {

  /** A run: each state is the step of the one before. */
  ghost predicate IsRun<S(!new)>(step: S -> S, run: seq<S>) {
    run != [] && forall i :: 0 <= i < |run| - 1 ==> run[i + 1] == step(run[i])
  }

  /** What every allowed step keeps holds along every run whose steps are allowed. */
  lemma {:induction false} HoldsAlong<S(!new)>(step: S -> S, allowed: S -> bool, inv: S -> bool, run: seq<S>)
    requires IsRun(step, run) && inv(run[0])
    requires forall i :: 0 <= i < |run| - 1 ==> allowed(run[i])
    requires forall s :: inv(s) && allowed(s) ==> inv(step(s))
    ensures forall i :: 0 <= i < |run| ==> inv(run[i])
  {
    var n := |run| - 1;
    if n > 0 {
      HoldsAlong(step, allowed, inv, run[..n]);
      assert inv(run[..n][n - 1]) && run[n] == step(run[n - 1]);
    }
  }

  /** A machine whose allowed steps use up a measure until it is done gets done within that many steps. */
  lemma {:induction false} GetsDone<S(!new)>(step: S -> S, inv: S -> bool, done: S -> bool, measure: S -> int,
                                             run: seq<S>)
    returns (full: seq<S>)
    requires IsRun(step, run) && inv(run[|run| - 1])
    requires forall s :: inv(s) && !done(s) ==> inv(step(s)) && 0 <= measure(step(s)) < measure(s)
    requires 0 <= measure(run[|run| - 1])
    ensures IsRun(step, full) && run <= full && |full| <= |run| + measure(run[|run| - 1])
    ensures done(full[|full| - 1]) && inv(full[|full| - 1])
    decreases measure(run[|run| - 1])
  {
    var s := run[|run| - 1];
    if done(s) {
      full := run;
    } else {
      full := GetsDone(step, inv, done, measure, run + [step(s)]);
    }
  }

  ghost predicate Reaches<S(!new)>(step: S -> S, s: S, t: S) {
    exists run :: IsRun(step, run) && run[0] == s && run[|run| - 1] == t
  }

  lemma ReachesItself<S(!new)>(step: S -> S, s: S)
    ensures Reaches(step, s, s)
  {
    assert IsRun(step, [s]);
  }

  lemma ReachesNext<S(!new)>(step: S -> S, s: S, t: S)
    requires Reaches(step, s, t)
    ensures Reaches(step, s, step(t))
  {
    var run :| IsRun(step, run) && run[0] == s && run[|run| - 1] == t;
    assert IsRun(step, run + [step(t)]);
  }
}
