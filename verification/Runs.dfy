/** Runs of a transition system, given by the steps it may take. */
module Runs {

  ghost predicate IsRun<S(!new), T(!new)>(moves: (S, T, S) -> bool, ss: seq<S>, steps: seq<T>) {
    |ss| == |steps| + 1 && forall k :: 0 <= k < |steps| ==> moves(ss[k], steps[k], ss[k + 1])
  }

  ghost predicate Reachable<S(!new), T(!new)>(moves: (S, T, S) -> bool, s: S, t: S) {
    exists ss, steps :: IsRun(moves, ss, steps) && ss[0] == s && ss[|steps|] == t
  }

  ghost predicate Inductive<S(!new), T(!new)>(moves: (S, T, S) -> bool, inv: S -> bool) {
    forall s, step, t :: inv(s) && moves(s, step, t) ==> inv(t)
  }

  /** What every step keeps holds throughout a run that starts with it. */
  lemma {:induction false} RunKeeps<S(!new), T(!new)>(moves: (S, T, S) -> bool, inv: S -> bool, ss: seq<S>,
                                                     steps: seq<T>, k: nat)
    requires Inductive(moves, inv) && IsRun(moves, ss, steps) && inv(ss[0]) && k < |ss|
    ensures inv(ss[k])
  {
    if k > 0 {
      RunKeeps(moves, inv, ss, steps, k - 1);
      assert moves(ss[k - 1], steps[k - 1], ss[k]);
    }
  }

  lemma ReachableKeeps<S(!new), T(!new)>(moves: (S, T, S) -> bool, inv: S -> bool, s: S, t: S)
    requires Inductive(moves, inv) && Reachable(moves, s, t) && inv(s)
    ensures inv(t)
  {
    var ss, steps :| IsRun(moves, ss, steps) && ss[0] == s && ss[|steps|] == t;
    RunKeeps(moves, inv, ss, steps, |steps|);
  }

  lemma ReachableStart<S(!new), T(!new)>(moves: (S, T, S) -> bool, s: S)
    ensures Reachable(moves, s, s)
  {
    var steps: seq<T> := [];
    assert IsRun(moves, [s], steps);
  }

  lemma ReachableNext<S(!new), T(!new)>(moves: (S, T, S) -> bool, s: S, t: S, step: T, u: S)
    requires Reachable(moves, s, t) && moves(t, step, u)
    ensures Reachable(moves, s, u)
  {
    var ss, steps :| IsRun(moves, ss, steps) && ss[0] == s && ss[|steps|] == t;
    var tt, more := ss + [u], steps + [step];
    forall k | 0 <= k < |more| ensures moves(tt[k], more[k], tt[k + 1]) {
      if k < |steps| {
        assert tt[k] == ss[k] && tt[k + 1] == ss[k + 1] && more[k] == steps[k];
      }
    }
    assert IsRun(moves, tt, more) && tt[|more|] == u;
  }

  lemma {:induction false} ReachableRun<S(!new), T(!new)>(moves: (S, T, S) -> bool, s: S, ss: seq<S>, steps: seq<T>)
    requires |ss| > 0 && Reachable(moves, s, ss[0]) && IsRun(moves, ss, steps)
    ensures Reachable(moves, s, ss[|steps|])
    decreases |steps|
  {
    if steps != [] {
      var n := |steps| - 1;
      assert IsRun(moves, ss[..n + 1], steps[..n]);
      ReachableRun(moves, s, ss[..n + 1], steps[..n]);
      ReachableNext(moves, s, ss[n], steps[n], ss[n + 1]);
    }
  }

  lemma ReachableChain<S(!new), T(!new)>(moves: (S, T, S) -> bool, s: S, t: S, u: S)
    requires Reachable(moves, s, t) && Reachable(moves, t, u)
    ensures Reachable(moves, s, u)
  {
    var ss, steps :| IsRun(moves, ss, steps) && ss[0] == t && ss[|steps|] == u;
    ReachableRun(moves, s, ss, steps);
  }

  /** With more steps allowed no less is reached. */
  lemma ReachableMore<S(!new), T(!new)>(few: (S, T, S) -> bool, moves: (S, T, S) -> bool, s: S, t: S)
    requires Reachable(few, s, t) && forall u, step, v :: few(u, step, v) ==> moves(u, step, v)
    ensures Reachable(moves, s, t)
  {
    var ss, steps :| IsRun(few, ss, steps) && ss[0] == s && ss[|steps|] == t;
    assert IsRun(moves, ss, steps);
  }
}
