/** When the thread manager ends threads and when the loop adds some, from what they see of the queue. */
module ThreadManager {
  import opened Runs
  import opened Workers

  /** Quiet looks less busy ones. */
  function Balance(looks: seq<bool>): int {
    if looks == [] then 0 else Balance(looks[..|looks| - 1]) + if looks[|looks| - 1] then 1 else -1
  }

  /** In some stretch up to the last look, quiet looks are ahead of busy ones by more than 20. */
  predicate LongQuiet(looks: seq<bool>) {
    exists i :: 0 <= i <= |looks| && Balance(looks[i..]) > 20
  }

  /** The manager's looks since it last decided to end threads: was the queue short of five items a thread? */
  function Looks(ss: seq<State>, steps: seq<Step>, k: nat): seq<bool>
    requires k <= |steps| <= |ss|
  {
    if k == 0 then []
    else if !steps[k - 1].Check? then Looks(ss, steps, k - 1)
    else
      var looks := Looks(ss, steps, k - 1) + [|ss[k - 1].queue| < 5 * ss[k - 1].count];
      if LongQuiet(looks) then [] else looks
  }

  /** The largest balance of a stretch up to the last look. */
  ghost predicate Best(looks: seq<bool>, n: nat) {
    && (forall i :: 0 <= i <= |looks| ==> Balance(looks[i..]) <= n)
    && exists i :: 0 <= i <= |looks| && Balance(looks[i..]) == n
  }

  lemma BalanceNext(looks: seq<bool>, quiet: bool, i: nat)
    requires i <= |looks|
    ensures Balance((looks + [quiet])[i..]) == Balance(looks[i..]) + if quiet then 1 else -1
  {
    assert (looks + [quiet])[i..][..|looks| - i] == looks[i..];
  }

  lemma BalanceOfNone(looks: seq<bool>)
    ensures Balance(looks[|looks|..]) == 0
  {
  }

  /** A quiet look adds one, a busy one takes one away, down to none. */
  lemma BestNext(looks: seq<bool>, n: nat, quiet: bool)
    requires Best(looks, n)
    ensures Best(looks + [quiet], if quiet then n + 1 else if n == 0 then 0 else n - 1)
  {
    var more := looks + [quiet];
    var m := if quiet then n + 1 else if n == 0 then 0 else n - 1;
    BalanceOfNone(more);
    forall i | 0 <= i <= |more| ensures Balance(more[i..]) <= m {
      if i <= |looks| {
        BalanceNext(looks, quiet, i);
      }
    }
    var j :| 0 <= j <= |looks| && Balance(looks[j..]) == n;
    BalanceNext(looks, quiet, j);
    assert Balance(more[if !quiet && n == 0 then |more| else j..]) == m;
  }

  lemma BestIsLong(looks: seq<bool>, n: nat)
    requires Best(looks, n)
    ensures LongQuiet(looks) <==> n > 20
  {
    if n > 20 {
      var i :| 0 <= i <= |looks| && Balance(looks[i..]) == n;
      assert LongQuiet(looks);
    }
  }

  lemma NoLooks()
    ensures Best([], 0)
  {
    var none: seq<bool> := [];
    assert none[0..] == [] && Balance(none) == 0;
  }

  /** One more look at the queue, with the counter at `n`. */
  lemma OneMoreLook(looks: seq<bool>, n: nat, quiet: bool)
    requires Best(looks, n) && n <= 20
    ensures LongQuiet(looks + [quiet]) <==> quiet && n == 20
    ensures !LongQuiet(looks + [quiet]) ==>
              Best(looks + [quiet], if quiet then n + 1 else if n == 0 then 0 else n - 1)
  {
    BestNext(looks, n, quiet);
    BestIsLong(looks + [quiet], if quiet then n + 1 else if n == 0 then 0 else n - 1);
  }

  lemma LookStep(s: State, t: State, looks: seq<bool>)
    requires Moves(s, Check, t) && Best(looks, s.quiet) && s.quiet <= 20
    ensures var now := looks + [|s.queue| < 5 * s.count];
            && t == s.(quiet := t.quiet, shrinkLeft := t.shrinkLeft)
            && t.shrinkLeft == (if LongQuiet(now) then Half(s.count - s.serviceThreads) else 0)
            && t.quiet <= 20 && Best(if LongQuiet(now) then [] else now, t.quiet)
  {
    OneMoreLook(looks, s.quiet, |s.queue| < 5 * s.count);
    NoLooks();
  }

  /** The counter is the largest balance since the last decision. */
  lemma {:induction false} CounterIsBest(ss: seq<State>, steps: seq<Step>, k: nat)
    requires IsRun(Moves, ss, steps) && k < |ss| && ss[0].quiet == 0
    ensures Best(Looks(ss, steps, k), ss[k].quiet) && ss[k].quiet <= 20
  {
    if k == 0 {
      NoLooks();
    } else {
      var s, step, t := ss[k - 1], steps[k - 1], ss[k];
      var looks := Looks(ss, steps, k - 1);
      CounterIsBest(ss, steps, k - 1);
      assert Moves(s, step, t);
      if step.Check? {
        LookStep(s, t, looks);
      } else {
        OnlyLooksCount(s, step, t);
      }
    }
  }

  lemma OnlyLooksCount(s: State, step: Step, t: State)
    requires Moves(s, step, t) && !step.Check?
    ensures t.quiet == s.quiet && t.shrinkLeft <= s.shrinkLeft
  {
  }

  /**
   * The manager decides to end threads at exactly those looks with which, since it last decided so, quiet looks
   * have come to be ahead of busy ones by more than 20 over some stretch; it then ends half of those beyond the
   * configured number.
   */
  lemma TrimsAfterLongQuiet(ss: seq<State>, steps: seq<Step>, k: nat, serviceThreads: nat, maxThreads: nat)
    requires IsRun(Moves, ss, steps) && ss[0] == Init(serviceThreads, maxThreads) && k < |steps| && steps[k].Check?
    ensures var s := ss[k];
            && s.count >= serviceThreads
            && ss[k + 1].shrinkLeft == if LongQuiet(Looks(ss, steps, k) + [|s.queue| < 5 * s.count])
                                       then (s.count - serviceThreads) / 2 else 0
    ensures ss[k + 1].queue == ss[k].queue && ss[k + 1].count == ss[k].count && ss[k + 1].workers == ss[k].workers
  {
    CounterIsBest(ss, steps, k);
    assert Moves(ss[k], steps[k], ss[k + 1]);
    LookStep(ss[k], ss[k + 1], Looks(ss, steps, k));
    ReachedByRun(ss, steps, k);
    ReachableInv(serviceThreads, maxThreads, ss[k]);
  }

  lemma ReachedByRun(ss: seq<State>, steps: seq<Step>, k: nat)
    requires IsRun(Moves, ss, steps) && k < |ss|
    ensures Reachable(Moves, ss[0], ss[k])
  {
    assert IsRun(Moves, ss[..k + 1], steps[..k]);
  }

  lemma {:induction false} AllQuiet(n: nat)
    ensures Balance(seq(n, _ => true)) == n
  {
    if n > 0 {
      assert seq(n, _ => true)[..n - 1] == seq(n - 1, _ => true);
      AllQuiet(n - 1);
    }
  }

  lemma {:induction false} BalanceAtMost(looks: seq<bool>)
    ensures Balance(looks) <= |looks|
  {
    if looks != [] {
      BalanceAtMost(looks[..|looks| - 1]);
    }
  }

  /** Of quiet looks only, the 21st decides, and none before it. */
  lemma TwentyFirstDecides(n: nat)
    ensures LongQuiet(seq(n, _ => true)) <==> n >= 21
  {
    var looks := seq(n, _ => true);
    if n >= 21 {
      AllQuiet(n);
      assert looks[0..] == looks;
    } else {
      forall i | 0 <= i <= n ensures Balance(looks[i..]) <= 20 {
        BalanceAtMost(looks[i..]);
      }
    }
  }

  /** The loop adds threads exactly when more are queued than there are, over half are active, and there may be more. */
  lemma AddsWhenBusy(s: State)
    requires Inv(s)
    ensures (exists t :: Moves(s, SpawnBegin, t))
            <==> && s.phase.Running? && s.spawnLeft == 0 && s.count < s.maxThreads && |s.queue| > s.count
                 && s.active > 0 && s.count < 2 * s.active
    ensures forall t :: Moves(s, SpawnBegin, t) ==> t == s.(spawnLeft := s.count / 2)
  {
    if s.active > 0 {
      assert s.count / s.active < 2 <==> s.count < 2 * s.active by {
        QuotientBelowTwo(s.count, s.active);
      }
    }
    if Enabled(s, SpawnBegin) {
      assert Moves(s, SpawnBegin, Apply(s, SpawnBegin));
    }
  }

  lemma QuotientBelowTwo(n: nat, d: int)
    requires d > 0
    ensures n / d < 2 <==> n < 2 * d
  {
    var q, r := n / d, n % d;
    assert n == q * d + r && 0 <= r < d;
    if q >= 2 {
      assert (q - 2) * d >= 0;
    }
  }
}
