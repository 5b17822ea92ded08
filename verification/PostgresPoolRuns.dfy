/**
 * The Postgres pool under any number of threads and the connection manager, freely interleaved. Connections
 * are opened and prepared outside the lock, and their failures are counted in sections of their own.
 */
module PostgresPoolRuns {
  import ConnectionManager
  import opened Pools
  import opened PostgresPool
  import opened Runs

  /**
   * `Unprepared`: the statements could not be prepared, and the place has been counted off once. `Answered`:
   * the statement has a result, good or not, and the status of the connection has been looked at.
   */
  datatype Thread = Away | Waiting | Opening | Unprepared | Using(conn: Conn) | Answered(conn: Conn, ok: bool)

  datatype State = State(
    pool: Pool<Conn>,
    min: nat,
    counter: nat,            // quiet cycles of the manager in a row
    threads: seq<Thread>,
    failures: nat)           // connections whose statements could not be prepared

  datatype Step =
    | Take(t: nat)
    | Wait(t: nat)
    | Begin(t: nat)
    | Opened(t: nat)
    | ConnectFails(t: nat)
    | PrepareFails(t: nat)
    | CountAgain(t: nat)
    | Execute(t: nat, ok: bool, good: bool)
    | Release(t: nat)
    | Drop(t: nat)
    | Cycle

  predicate Enabled(s: State, step: Step) {
    if step.Cycle? then true
    else
      && step.t < |s.threads|
      && var me := s.threads[step.t];
         match step
         case Take(_) => (me.Away? || me.Waiting?) && s.pool.idle != []
         case Wait(_) => me.Away? && s.pool.idle == [] && !MayGrow(s.pool)
         case Begin(_) => me.Away? && MayGrow(s.pool)
         case Opened(_) => me.Opening?
         case ConnectFails(_) => me.Opening?
         case PrepareFails(_) => me.Opening?
         case CountAgain(_) => me.Unprepared?
         case Execute(_, ok, good) => me.Using? && (ok || good ==> me.conn.good)
         case Release(_) => me.Answered? && (me.ok || me.conn.good)
         case Drop(_) => me.Answered? && !me.ok && !me.conn.good
  }

  function Apply(s: State, step: Step): State
    requires Enabled(s, step)
  {
    match step
    case Take(t) => s.(pool := Popped(s.pool), threads := s.threads[t := Using(LastIdle(s.pool))])
    case Wait(t) => s.(threads := s.threads[t := Waiting])
    case Begin(t) => s.(pool := Grown(s.pool), threads := s.threads[t := Opening])
    case Opened(t) => s.(threads := s.threads[t := Using(Conn(true))])
    case ConnectFails(t) => s.(pool := CountedOff(s.pool), threads := s.threads[t := Away])
    case PrepareFails(t) =>
      s.(pool := CountedOff(s.pool), threads := s.threads[t := Unprepared], failures := s.failures + 1)
    case CountAgain(t) => s.(pool := CountedOff(s.pool), threads := s.threads[t := Away])
    case Execute(t, ok, good) => s.(threads := s.threads[t := Answered(Conn(good), ok)])
    case Release(t) => s.(pool := Returned(s.pool, s.threads[t].conn), threads := s.threads[t := Away])
    case Drop(t) => s.(pool := CountedOff(s.pool), threads := s.threads[t := Away])
    case Cycle =>
      var idle, current := |s.pool.idle|, s.pool.current;
      s.(pool := Trimmed(s.pool, ConnectionManager.Closing(idle, current, s.min, s.counter)),
         counter := ConnectionManager.Counted(idle, current, s.min, s.counter))
  }

  /** `made` connections could be opened and prepared at the start. */
  function Init(min: nat, max: int, made: nat, threads: nat): State {
    State(Pool(seq(made, _ => Conn(true)), made, max), min, 0, seq(threads, _ => Away), 0)
  }

  ghost predicate Moves(s: State, step: Step, t: State) {
    Enabled(s, step) && t == Apply(s, step)
  }

  // ---- The law ----

  function Bit(b: bool): nat {
    if b then 1 else 0
  }

  /** The thread has a connection or is opening one. */
  predicate Has(t: Thread) {
    t.Opening? || t.Using? || t.Answered?
  }

  function Holders(ts: seq<Thread>): nat {
    if ts == [] then 0 else Holders(ts[..|ts| - 1]) + Bit(Has(ts[|ts| - 1]))
  }

  function Unpreparers(ts: seq<Thread>): nat {
    if ts == [] then 0 else Unpreparers(ts[..|ts| - 1]) + Bit(ts[|ts| - 1].Unprepared?)
  }

  lemma {:induction false} CountsUpdate(ts: seq<Thread>, t: nat, x: Thread)
    requires t < |ts|
    ensures Holders(ts[t := x]) == Holders(ts) - Bit(Has(ts[t])) + Bit(Has(x))
    ensures Unpreparers(ts[t := x]) == Unpreparers(ts) - Bit(ts[t].Unprepared?) + Bit(x.Unprepared?)
  {
    var last := |ts| - 1;
    if t < last {
      assert ts[t := x][..last] == ts[..last][t := x];
      CountsUpdate(ts[..last], t, x);
    } else {
      assert ts[t := x][..last] == ts[..last];
    }
  }

  lemma {:induction false} AllAway(n: nat)
    ensures Holders(seq(n, _ => Away)) == 0 && Unpreparers(seq(n, _ => Away)) == 0
  {
    if n > 0 {
      assert seq(n, _ => Away)[..n - 1] == seq(n - 1, _ => Away);
      AllAway(n - 1);
    }
  }

  /**
   * The count and the failed preparations so far are the connections idle, in use and being opened, and the
   * failures counted off only once yet; the count stays within the maximum.
   */
  ghost predicate Law(s: State) {
    && s.pool.current + s.failures == |s.pool.idle| + Holders(s.threads) + Unpreparers(s.threads)
    && s.pool.current <= s.pool.max
    && Unpreparers(s.threads) <= s.failures
  }

  lemma StepKeeps(s: State, step: Step)
    requires Law(s) && Enabled(s, step)
    ensures Law(Apply(s, step)) && Apply(s, step).pool.max == s.pool.max
  {
    if !step.Cycle? {
      CountsUpdate(s.threads, step.t, Apply(s, step).threads[step.t]);
    }
  }

  /** Connections open or being opened. */
  function Open(s: State): nat {
    |s.pool.idle| + Holders(s.threads)
  }

  /**
   * In every reachable state the law holds, and no more connections are open or being opened than the maximum
   * and one for every failed preparation so far.
   */
  lemma PoolConserved(min: nat, max: int, made: nat, threads: nat, s: State)
    requires made <= min <= max && Reachable(Moves, Init(min, max, made, threads), s)
    ensures Law(s)
    ensures Open(s) <= max + s.failures
    ensures s.failures == 0 ==> Open(s) == s.pool.current <= max
  {
    var init := Init(min, max, made, threads);
    var law := (t: State) => Law(t) && t.pool.max == max;
    AllAway(threads);
    forall t, step, u | law(t) && Moves(t, step, u) ensures law(u) {
      StepKeeps(t, step);
    }
    ReachableKeeps(Moves, law, init, s);
  }

  /**
   * A connection is opened only when none is idle and fewer are counted than the maximum, and closed only when it
   * cannot be opened or prepared, when it is broken, or idle and trimmed.
   */
  lemma OpenedWhenNeeded(s: State, step: Step, t: State)
    requires Moves(s, step, t)
    ensures Open(t) > Open(s) ==> s.pool.idle == [] && s.pool.current < s.pool.max && Open(t) == Open(s) + 1
    ensures Open(t) < Open(s) ==>
              || step.Cycle? || step.ConnectFails? || step.PrepareFails?
              || (step.Drop? && !s.threads[step.t].conn.good)
  {
    if !step.Cycle? {
      CountsUpdate(s.threads, step.t, t.threads[step.t]);
    }
  }

  // ---- The connection manager ----

  /** A cycle closes the idle connections given back last, as many as the quiet cycles and the excess tell. */
  lemma ManagerTrims(s: State, t: State)
    requires Moves(s, Cycle, t)
    ensures var idle, current := |s.pool.idle|, s.pool.current;
            var closed := if current > s.min && 5 * (current - idle) <= current && s.counter >= 1
                          then if current - s.min <= 2 then current - s.min else 2 * (current - s.min) / 5
                          else 0;
            && closed <= idle && t.pool == Pool(s.pool.idle[..idle - closed], current - closed, s.pool.max)
            && t.threads == s.threads
  {
    ConnectionManager.ClosingExact(|s.pool.idle|, s.pool.current, s.min, s.counter);
  }

  function AsHeld(s: State): ConnectionManager.Held {
    ConnectionManager.Held(|s.pool.idle|, s.pool.current, s.counter)
  }

  /** While only the manager moves, the pool is what its cycles make of a pool of constant use. */
  lemma {:induction false} CyclesAlone(ss: seq<State>, steps: seq<Step>)
    requires IsRun(Moves, ss, steps) && forall i :: 0 <= i < |steps| ==> steps[i].Cycle?
    ensures AsHeld(ss[|steps|]) == ConnectionManager.After(|steps|, AsHeld(ss[0]), ss[0].min)
    decreases |steps|
  {
    if steps != [] {
      var tt, more := ss[1..], steps[1..];
      forall k | 0 <= k < |more| ensures Moves(tt[k], more[k], tt[k + 1]) {
        assert Moves(ss[k + 1], steps[k + 1], ss[k + 2]);
      }
      CyclesAlone(tt, more);
      assert Moves(ss[0], steps[0], ss[1]);
    }
  }

  // ---- The bound is met ----

  /** Thread 0 fails to prepare its statements `n` times. */
  lemma {:induction false} FailSome(s: State, n: nat)
    requires s.threads != [] && s.threads[0].Away? && s.pool.idle == [] && s.pool.current < s.pool.max
    ensures Reachable(Moves, s, s.(pool := s.pool.(current := s.pool.current - n), failures := s.failures + n))
  {
    if n == 0 {
      ReachableStart(Moves, s);
      assert s.(pool := s.pool.(current := s.pool.current - 0), failures := s.failures + 0) == s;
    } else {
      FailSome(s, n - 1);
      var last := s.(pool := s.pool.(current := s.pool.current - (n - 1)), failures := s.failures + n - 1);
      FailOnce(s, last);
      assert s.pool.current - (n - 1) - 1 == s.pool.current - n;
    }
  }

  lemma FailOnce(init: State, s: State)
    requires Reachable(Moves, init, s) && s.threads != [] && s.threads[0].Away? && MayGrow(s.pool)
    ensures Reachable(Moves, init, s.(pool := s.pool.(current := s.pool.current - 1), failures := s.failures + 1))
  {
    ReachableNext(Moves, init, s, Begin(0), Apply(s, Begin(0)));
    var s1 := Apply(s, Begin(0));
    ReachableNext(Moves, init, s1, PrepareFails(0), Apply(s1, PrepareFails(0)));
    var s2 := Apply(s1, PrepareFails(0));
    ReachableNext(Moves, init, s2, CountAgain(0), Apply(s2, CountAgain(0)));
    assert Apply(s2, CountAgain(0)).threads == s.threads;
  }

  /** The first `k` threads begin to open a connection each. */
  lemma {:induction false} BeginSome(init: State, s: State, k: nat) returns (t: State)
    requires Reachable(Moves, init, s) && k <= |s.threads| && s.pool.idle == [] && s.pool.current + k <= s.pool.max
    requires (forall i :: 0 <= i < |s.threads| ==> s.threads[i].Away?) && Holders(s.threads) == 0
    ensures Reachable(Moves, init, t) && t.pool == s.pool.(current := s.pool.current + k) && t.failures == s.failures
    ensures |t.threads| == |s.threads| && forall i :: k <= i < |t.threads| ==> t.threads[i].Away?
    ensures Holders(t.threads) == k && forall i :: 0 <= i < k ==> t.threads[i].Opening?
  {
    if k == 0 {
      t := s;
    } else {
      var last := BeginSome(init, s, k - 1);
      ReachableNext(Moves, init, last, Begin(k - 1), Apply(last, Begin(k - 1)));
      t := Apply(last, Begin(k - 1));
      CountsUpdate(last.threads, k - 1, t.threads[k - 1]);
    }
  }

  /** The bound is the least one: after `n` failed preparations that many more than the maximum can be open. */
  lemma BoundIsMet(max: nat, n: nat)
    requires max > 0
    ensures exists s :: Reachable(Moves, Init(0, max, 0, max + n), s) && s.failures == n && Open(s) == max + n
  {
    var init := Init(0, max, 0, max + n);
    FailSome(init, n);
    var s := init.(pool := init.pool.(current := init.pool.current - n), failures := init.failures + n);
    AllAway(max + n);
    var t := BeginSome(init, s, max + n);
    assert Open(t) == max + n;
  }

  // ---- Waiting: when nobody else asks for a connection ----

  /** The step asks for a connection, as a thread other than `t`. */
  predicate Asks(step: Step, t: nat) {
    (step.Take? || step.Wait? || step.Begin?) && step.t != t
  }

  /** Thread `t` may ask; the others only go on with what they have. */
  ghost function QuietFor(t: nat): (State, Step, State) -> bool {
    (s, step, u) => Moves(s, step, u) && !Asks(step, t)
  }

  ghost predicate Serves(moves: (State, Step, State) -> bool, s: State, t: nat) {
    exists u :: Reachable(moves, s, u) && t < |u.threads| && u.threads[t].Using?
  }

  /** The thread may yet give a connection back to the idle ones. */
  predicate Gives(t: Thread) {
    t.Opening? || (t.Using? && t.conn.good) || (t.Answered? && (t.ok || t.conn.good))
  }

  ghost predicate SomeGives(ts: seq<Thread>) {
    exists v :: 0 <= v < |ts| && Gives(ts[v])
  }

  /** Thread `t` waits, nothing is idle, and nobody has anything to give back. */
  ghost predicate Stranded(s: State, t: nat) {
    t < |s.threads| && s.threads[t].Waiting? && s.pool.idle == [] && !SomeGives(s.threads)
  }

  lemma StrandedStays(s: State, step: Step, u: State, t: nat)
    requires Stranded(s, t) && QuietFor(t)(s, step, u)
    ensures Stranded(u, t)
  {
  }

  lemma GiveBack(s: State, v: nat, t: nat) returns (u: State)
    requires v < |s.threads| && Gives(s.threads[v])
    ensures Reachable(QuietFor(t), s, u) && u.pool.idle != [] && u.threads == s.threads[v := Away]
  {
    ReachableStart(QuietFor(t), s);
    var s1 := s;
    if s.threads[v].Opening? {
      s1 := Apply(s, Opened(v));
      QuietStep(s, Opened(v), t);
      ReachableNext(QuietFor(t), s, s, Opened(v), s1);
    }
    var s2 := s1;
    if s1.threads[v].Using? {
      s2 := Apply(s1, Execute(v, true, true));
      QuietStep(s1, Execute(v, true, true), t);
      ReachableNext(QuietFor(t), s, s1, Execute(v, true, true), s2);
    }
    u := Apply(s2, Release(v));
    QuietStep(s2, Release(v), t);
    ReachableNext(QuietFor(t), s, s2, Release(v), u);
  }

  lemma QuietStep(s: State, step: Step, t: nat)
    requires Enabled(s, step) && !Asks(step, t)
    ensures QuietFor(t)(s, step, Apply(s, step))
  {
  }

  /**
   * Exactly when a waiting thread can get a connection without any other thread asking for one: some
   * connection is idle, or some thread has one to give back or is opening one.
   */
  lemma ServedIffSomeGives(s: State, t: nat)
    requires t < |s.threads| && s.threads[t].Waiting?
    ensures Serves(QuietFor(t), s, t) <==> s.pool.idle != [] || SomeGives(s.threads)
  {
    if s.pool.idle != [] || SomeGives(s.threads) {
      var u := s;
      ReachableStart(QuietFor(t), s);
      if s.pool.idle == [] {
        var v: nat :| v < |s.threads| && Gives(s.threads[v]);
        u := GiveBack(s, v, t);
      }
      ReachableNext(QuietFor(t), s, u, Take(t), Apply(u, Take(t)));
    } else {
      forall u | Reachable(QuietFor(t), s, u) ensures Stranded(u, t) {
        forall x, step, y | Stranded(x, t) && QuietFor(t)(x, step, y) ensures Stranded(y, t) {
          StrandedStays(x, step, y, t);
        }
        ReachableKeeps(QuietFor(t), x => Stranded(x, t), s, u);
      }
    }
  }

  /** The first `k` threads, opening, cannot connect. */
  lemma {:induction false} FailToConnect(init: State, s: State, k: nat) returns (t: State)
    requires Reachable(Moves, init, s) && k <= |s.threads| && s.pool.idle == []
    requires forall i :: 0 <= i < k ==> s.threads[i].Opening?
    ensures Reachable(Moves, init, t) && t.pool == s.pool.(current := s.pool.current - k)
    ensures |t.threads| == |s.threads| && forall i :: 0 <= i < k ==> t.threads[i].Away?
    ensures forall i :: k <= i < |t.threads| ==> t.threads[i] == s.threads[i]
  {
    if k == 0 {
      t := s;
    } else {
      var last := FailToConnect(init, s, k - 1);
      assert last.threads[k - 1].Opening?;
      t := Apply(last, ConnectFails(k - 1));
      ReachableNext(Moves, init, last, ConnectFails(k - 1), t);
    }
  }

  /**
   * A thread waits for idle connections only. For every maximum there is a run in which no connection can be
   * opened while one more thread waits: the pool may grow to its maximum again, no other thread has anything,
   * and the waiting one gets nothing unless another thread comes to ask.
   */
  lemma FailedConnectionStrandsWaiter(max: nat)
    requires max > 0
    ensures exists s :: Reachable(Moves, Init(0, max, 0, max + 1), s) && |s.threads| == max + 1
                        && s.threads[max].Waiting? && s.pool == Pool([], 0, max) && !Serves(QuietFor(max), s, max)
  {
    var init := Init(0, max, 0, max + 1);
    ReachableStart(Moves, init);
    AllAway(max + 1);
    var full := BeginSome(init, init, max);
    var waiting := Apply(full, Wait(max));
    ReachableNext(Moves, init, full, Wait(max), waiting);
    var s := FailToConnect(init, waiting, max);
    assert s.threads[max] == waiting.threads[max];
    ServedIffSomeGives(s, max);
  }

  // ---- Waiting: when others may come ----

  ghost predicate AllWaiting(ts: seq<Thread>) {
    forall v :: 0 <= v < |ts| ==> ts[v].Waiting?
  }

  lemma {:induction false} NobodyHas(ts: seq<Thread>)
    requires forall v :: 0 <= v < |ts| ==> !Has(ts[v]) && !ts[v].Unprepared?
    ensures Holders(ts) == 0 && Unpreparers(ts) == 0
  {
    if ts != [] {
      NobodyHas(ts[..|ts| - 1]);
    }
  }

  /** The last thread does not wait: then nothing would be in use, and it could open a connection. */
  ghost predicate SomeoneUp(s: State, max: int) {
    Law(s) && s.pool.max == max && !AllWaiting(s.threads)
  }

  lemma SomeoneStaysUp(s: State, step: Step, max: int)
    requires SomeoneUp(s, max) && max > 0 && Enabled(s, step)
    ensures SomeoneUp(Apply(s, step), max)
  {
    var t := Apply(s, step);
    StepKeeps(s, step);
    if step.Wait? {
      if AllWaiting(t.threads) {
        NobodyHas(t.threads);
      }
    } else if !step.Cycle? {
      assert !t.threads[step.t].Waiting?;
    }
  }

  lemma NotAllWait(min: nat, max: int, made: nat, threads: nat, s: State)
    requires made <= min <= max && max > 0 && threads > 0 && Reachable(Moves, Init(min, max, made, threads), s)
    ensures SomeoneUp(s, max)
  {
    var init := Init(min, max, made, threads);
    var up := (t: State) => SomeoneUp(t, max);
    AllAway(threads);
    assert init.threads[0].Away?;
    forall t, step, u | up(t) && Moves(t, step, u) ensures up(u) {
      SomeoneStaysUp(t, step, max);
    }
    ReachableKeeps(Moves, up, init, s);
  }

  /** A thread with nothing to give back lets go of what it has, and there is room for it to ask again. */
  lemma BecomeAway(s: State, v: nat) returns (u: State)
    requires Law(s) && v < |s.threads| && s.pool.idle == [] && !SomeGives(s.threads)
    requires Has(s.threads[v]) || s.threads[v].Unprepared?
    ensures Reachable(Moves, s, u) && u.threads == s.threads[v := Away] && MayGrow(u.pool)
  {
    assert !Gives(s.threads[v]);
    ReachableStart(Moves, s);
    var s1 := s;
    if s.threads[v].Using? {
      s1 := Apply(s, Execute(v, false, false));
      ReachableNext(Moves, s, s, Execute(v, false, false), s1);
    }
    var step := if s1.threads[v].Answered? then Drop(v) else CountAgain(v);
    u := Apply(s1, step);
    ReachableNext(Moves, s, s1, step, u);
  }

  /** Some thread that does not wait can begin to open a connection. */
  lemma BeginOne(s: State) returns (u: State, v: nat)
    requires SomeoneUp(s, s.pool.max) && s.pool.max > 0 && s.pool.idle == [] && !SomeGives(s.threads)
    ensures Reachable(Moves, s, u) && v < |s.threads| && !s.threads[v].Waiting?
    ensures u.threads == s.threads[v := Opening]
  {
    v :| v < |s.threads| && !s.threads[v].Waiting?;
    if w: nat :| w < |s.threads| && (Has(s.threads[w]) || s.threads[w].Unprepared?) {
      v := w;
      var s1 := BecomeAway(s, v);
      u := Apply(s1, Begin(v));
      ReachableNext(Moves, s, s1, Begin(v), u);
    } else {
      NobodyHas(s.threads);
      ReachableStart(Moves, s);
      u := Apply(s, Begin(v));
      ReachableNext(Moves, s, s, Begin(v), u);
    }
  }

  /** No deadlock: from every reachable state some run gives a waiting thread a connection. */
  lemma WaiterCanBeServed(min: nat, max: int, made: nat, threads: nat, s: State, t: nat)
    requires made <= min <= max && max > 0 && Reachable(Moves, Init(min, max, made, threads), s)
    requires t < |s.threads| && s.threads[t].Waiting? && threads > 0
    ensures Serves(Moves, s, t)
  {
    NotAllWait(min, max, made, threads, s);
    var s1 := s;
    ReachableStart(Moves, s);
    if s.pool.idle == [] && !SomeGives(s.threads) {
      var v;
      s1, v := BeginOne(s);
      assert Gives(s1.threads[v]) && s1.threads[t].Waiting?;
    }
    ServedIffSomeGives(s1, t);
    var u :| Reachable(QuietFor(t), s1, u) && t < |u.threads| && u.threads[t].Using?;
    ReachableMore(QuietFor(t), Moves, s1, u);
    ReachableChain(Moves, s, s1, u);
  }
}
