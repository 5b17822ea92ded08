/**
 * The Redis pool under any number of threads and the connection manager, freely interleaved. A step is a
 * section under the pool's lock, or a thread's work on the connection it has.
 */
module RedisPoolRuns {
  import ConnectionManager
  import opened Keyspace
  import opened Pools
  import opened RedisStore
  import opened Runs

  /** A thread has no connection, waits for one, uses one, or has had the exception and not yet released. */
  datatype Thread = Away | Waiting | Using(conn: Conn) | Threw

  datatype State = State(
    pool: Pool<Conn>,
    min: nat,
    counter: nat,            // quiet cycles of the manager in a row
    threads: seq<Thread>,
    throws: nat)             // calls of getConnection that threw

  datatype Step =
    | Take(t: nat)
    | Wait(t: nat)
    | Create(t: nat)
    | Throw(t: nat)
    | Send(t: nat, cs: seq<Command>)
    | Receive(t: nat)
    | Break(t: nat)
    | Release(t: nat)
    | ReleaseNone(t: nat)
    | Cycle

  predicate Enabled(s: State, step: Step) {
    if step.Cycle? then true
    else
      && step.t < |s.threads|
      && var me := s.threads[step.t];
         match step
         case Take(_) => (me.Away? || me.Waiting?) && s.pool.idle != []
         case Wait(_) => me.Away? && s.pool.idle == [] && !MayGrow(s.pool)
         case Create(_) => me.Away? && MayGrow(s.pool)
         case Throw(_) => me.Away? && MayGrow(s.pool)
         case Send(_, _) => me.Using?
         case Receive(_) => me.Using? && !me.conn.err && me.conn.pending != []
         case Break(_) => me.Using? && me.conn.pending != []
         case Release(_) => me.Using? && (me.conn.err || me.conn.pending == [])
         case ReleaseNone(_) => me.Threw?
  }

  function Apply(s: State, step: Step): State
    requires Enabled(s, step)
  {
    match step
    case Take(t) => s.(pool := Popped(s.pool), threads := s.threads[t := Using(LastIdle(s.pool))])
    case Wait(t) => s.(threads := s.threads[t := Waiting])
    case Create(t) => s.(pool := Grown(s.pool), threads := s.threads[t := Using(Conn([], false))])
    case Throw(t) => s.(threads := s.threads[t := Threw], throws := s.throws + 1)
    case Send(t, cs) => s.(threads := s.threads[t := Using(Append(s.threads[t].conn, cs))])
    case Receive(t) => s.(threads := s.threads[t := Using(Conn(s.threads[t].conn.pending[1..], false))])
    case Break(t) => s.(threads := s.threads[t := Using(s.threads[t].conn.(err := true))])
    case Release(t) =>
      var c := s.threads[t].conn;
      s.(pool := if c.err then CountedOff(s.pool) else Returned(s.pool, c), threads := s.threads[t := Away])
    case ReleaseNone(t) => s.(pool := CountedOff(s.pool), threads := s.threads[t := Away])
    case Cycle =>
      var idle, current := |s.pool.idle|, s.pool.current;
      s.(pool := Trimmed(s.pool, ConnectionManager.Closing(idle, current, s.min, s.counter)),
         counter := ConnectionManager.Counted(idle, current, s.min, s.counter))
  }

  /** `made` connections could be opened at the start. */
  function Init(min: nat, max: int, made: nat, threads: nat): State {
    State(Pool(seq(made, _ => Conn([], false)), made, max), min, 0, seq(threads, _ => Away), 0)
  }

  ghost predicate Moves(s: State, step: Step, t: State) {
    Enabled(s, step) && t == Apply(s, step)
  }

  // ---- The law ----

  function Bit(b: bool): nat {
    if b then 1 else 0
  }

  function Users(ts: seq<Thread>): nat {
    if ts == [] then 0 else Users(ts[..|ts| - 1]) + Bit(ts[|ts| - 1].Using?)
  }

  function Throwers(ts: seq<Thread>): nat {
    if ts == [] then 0 else Throwers(ts[..|ts| - 1]) + Bit(ts[|ts| - 1].Threw?)
  }

  lemma {:induction false} CountsUpdate(ts: seq<Thread>, t: nat, x: Thread)
    requires t < |ts|
    ensures Users(ts[t := x]) == Users(ts) - Bit(ts[t].Using?) + Bit(x.Using?)
    ensures Throwers(ts[t := x]) == Throwers(ts) - Bit(ts[t].Threw?) + Bit(x.Threw?)
  {
    var last := |ts| - 1;
    if t < last {
      assert ts[t := x][..last] == ts[..last][t := x];
      CountsUpdate(ts[..last], t, x);
    } else {
      assert ts[t := x][..last] == ts[..last];
    }
  }

  lemma {:induction false} AllAway(n: nat)
    ensures Users(seq(n, _ => Away)) == 0 && Throwers(seq(n, _ => Away)) == 0
  {
    if n > 0 {
      assert seq(n, _ => Away)[..n - 1] == seq(n - 1, _ => Away);
      AllAway(n - 1);
    }
  }

  /**
   * The count and the throws so far are the connections idle and in use, and the throws not yet released;
   * the count stays within the maximum, and idle connections have no reply outstanding.
   */
  ghost predicate Law(s: State) {
    && s.pool.current + s.throws == |s.pool.idle| + Users(s.threads) + Throwers(s.threads)
    && s.pool.current <= s.pool.max && Throwers(s.threads) <= s.throws
    && forall i :: 0 <= i < |s.pool.idle| ==> Clean(s.pool.idle[i])
  }

  lemma StepKeeps(s: State, step: Step)
    requires Law(s) && Enabled(s, step)
    ensures Law(Apply(s, step)) && Apply(s, step).pool.max == s.pool.max
  {
    if !step.Cycle? {
      CountsUpdate(s.threads, step.t, Apply(s, step).threads[step.t]);
    }
  }

  function Open(s: State): nat {
    |s.pool.idle| + Users(s.threads)
  }

  /**
   * In every reachable state the law holds; so every connection given out has no reply outstanding, and no
   * more connections are open than the maximum and one for every throw so far.
   */
  lemma PoolConserved(min: nat, max: int, made: nat, threads: nat, s: State)
    requires made <= min <= max && Reachable(Moves, Init(min, max, made, threads), s)
    ensures Law(s)
    ensures forall t :: Enabled(s, Take(t)) ==> Clean(LastIdle(s.pool))
    ensures Open(s) <= max + s.throws
    ensures s.throws == 0 ==> Open(s) == s.pool.current <= max
  {
    var init := Init(min, max, made, threads);
    var law := (t: State) => Law(t) && t.pool.max == max;
    AllAway(threads);
    forall t, step, u | law(t) && Moves(t, step, u) ensures law(u) {
      StepKeeps(t, step);
    }
    ReachableKeeps(Moves, law, init, s);
  }

  /**
   * A connection is opened only when none is idle and fewer are counted than the maximum, and closed only when it
   * is broken, or idle and trimmed.
   */
  lemma OpenedWhenNeeded(s: State, step: Step, t: State)
    requires Moves(s, step, t)
    ensures Open(t) > Open(s) ==> s.pool.idle == [] && s.pool.current < s.pool.max && Open(t) == Open(s) + 1
    ensures Open(t) < Open(s) ==> step.Cycle? || (step.Release? && s.threads[step.t].conn.err)
  {
    if !step.Cycle? {
      CountsUpdate(s.threads, step.t, t.threads[step.t]);
    }
  }

  // ---- The connection manager ----

  /** A cycle closes the idle connections given back last, as many as the quiet cycles and the excess tell. */
  lemma ManagerTrims(s: State, t: State)
    requires Moves(s, Cycle, t)
    ensures var idle, current := |s.pool.idle|, s.pool.current;
            var closed := if current > s.min && 5 * (current - idle) <= current && s.counter >= 1
                          then if current - s.min <= 2 then current - s.min else 2 * (current - s.min) / 5
                          else 0;
            && closed <= idle && t.pool == Pool(s.pool.idle[..idle - closed], current - closed, s.pool.max)
            && t.threads == s.threads
  {
    ConnectionManager.ClosingExact(|s.pool.idle|, s.pool.current, s.min, s.counter);
  }

  function AsHeld(s: State): ConnectionManager.Held {
    ConnectionManager.Held(|s.pool.idle|, s.pool.current, s.counter)
  }

  /** While only the manager moves, the pool is what its cycles make of a pool of constant use. */
  lemma {:induction false} CyclesAlone(ss: seq<State>, steps: seq<Step>)
    requires IsRun(Moves, ss, steps) && forall i :: 0 <= i < |steps| ==> steps[i].Cycle?
    ensures AsHeld(ss[|steps|]) == ConnectionManager.After(|steps|, AsHeld(ss[0]), ss[0].min)
    decreases |steps|
  {
    if steps != [] {
      var tt, more := ss[1..], steps[1..];
      forall k | 0 <= k < |more| ensures Moves(tt[k], more[k], tt[k + 1]) {
        assert Moves(ss[k + 1], steps[k + 1], ss[k + 2]);
      }
      CyclesAlone(tt, more);
      assert Moves(ss[0], steps[0], ss[1]);
    }
  }

  // ---- The bound is met ----

  /** Thread 0 fails to get a connection `n` times. */
  lemma {:induction false} ThrowSome(s: State, n: nat)
    requires s.threads != [] && s.threads[0].Away? && s.pool.idle == [] && s.pool.current < s.pool.max
    ensures Reachable(Moves, s, s.(pool := s.pool.(current := s.pool.current - n), throws := s.throws + n))
  {
    if n == 0 {
      ReachableStart(Moves, s);
      assert s.(pool := s.pool.(current := s.pool.current - 0), throws := s.throws + 0) == s;
    } else {
      ThrowSome(s, n - 1);
      var last := s.(pool := s.pool.(current := s.pool.current - (n - 1)), throws := s.throws + n - 1);
      ReachableNext(Moves, s, last, Throw(0), Apply(last, Throw(0)));
      var thrown := Apply(last, Throw(0));
      ReachableNext(Moves, s, thrown, ReleaseNone(0), Apply(thrown, ReleaseNone(0)));
      assert Apply(thrown, ReleaseNone(0)).threads == s.threads;
    }
  }

  /** The first `k` threads open a connection each. */
  lemma {:induction false} CreateSome(init: State, s: State, k: nat) returns (t: State)
    requires Reachable(Moves, init, s) && k <= |s.threads| && s.pool.idle == [] && s.pool.current + k <= s.pool.max
    requires (forall i :: 0 <= i < |s.threads| ==> s.threads[i].Away?) && Users(s.threads) == 0
    ensures Reachable(Moves, init, t) && t.pool == s.pool.(current := s.pool.current + k) && t.throws == s.throws
    ensures |t.threads| == |s.threads| && forall i :: k <= i < |t.threads| ==> t.threads[i].Away?
    ensures Users(t.threads) == k && forall i :: 0 <= i < k ==> t.threads[i] == Using(Conn([], false))
  {
    if k == 0 {
      t := s;
    } else {
      var last := CreateSome(init, s, k - 1);
      ReachableNext(Moves, init, last, Create(k - 1), Apply(last, Create(k - 1)));
      t := Apply(last, Create(k - 1));
      CountsUpdate(last.threads, k - 1, t.threads[k - 1]);
    }
  }

  /** The bound on open connections is the least one: after `n` throws that many more than the maximum can be open. */
  lemma BoundIsMet(max: nat, n: nat)
    requires max > 0
    ensures exists s :: Reachable(Moves, Init(0, max, 0, max + n), s) && s.throws == n && Open(s) == max + n
  {
    var init := Init(0, max, 0, max + n);
    ThrowSome(init, n);
    var s := init.(pool := init.pool.(current := init.pool.current - n), throws := init.throws + n);
    AllAway(max + n);
    var t := CreateSome(init, s, max + n);
    assert Open(t) == max + n;
  }

  // ---- Waiting: when nobody else asks for a connection ----

  /** The step asks for a connection, as a thread other than `t`. */
  predicate Asks(step: Step, t: nat) {
    (step.Take? || step.Wait? || step.Create? || step.Throw?) && step.t != t
  }

  /** Thread `t` may ask; the others only use and give back what they have. */
  ghost function QuietFor(t: nat): (State, Step, State) -> bool {
    (s, step, u) => Moves(s, step, u) && !Asks(step, t)
  }

  ghost predicate Serves(moves: (State, Step, State) -> bool, s: State, t: nat) {
    exists u :: Reachable(moves, s, u) && t < |u.threads| && u.threads[t].Using?
  }

  /** Some connection in use is not broken. */
  ghost predicate SomeGood(ts: seq<Thread>) {
    exists v :: 0 <= v < |ts| && ts[v].Using? && !ts[v].conn.err
  }

  /** Thread `t` waits, and there is neither an idle connection nor a good one in use. */
  ghost predicate Stranded(s: State, t: nat) {
    t < |s.threads| && s.threads[t].Waiting? && s.pool.idle == [] && !SomeGood(s.threads)
  }

  lemma StrandedStays(s: State, step: Step, u: State, t: nat)
    requires Stranded(s, t) && QuietFor(t)(s, step, u)
    ensures Stranded(u, t)
  {
  }

  /** A thread with a good connection reads its replies and gives it back. */
  lemma {:induction false} GiveBack(s: State, v: nat, t: nat) returns (u: State)
    requires v < |s.threads| && s.threads[v].Using? && !s.threads[v].conn.err
    ensures Reachable(QuietFor(t), s, u) && u.pool.idle != [] && u.threads == s.threads[v := Away]
    decreases |s.threads[v].conn.pending|
  {
    ReachableStart(QuietFor(t), s);
    if s.threads[v].conn.pending == [] {
      u := Apply(s, Release(v));
      ReachableNext(QuietFor(t), s, s, Release(v), u);
    } else {
      var s1 := Apply(s, Receive(v));
      ReachableNext(QuietFor(t), s, s, Receive(v), s1);
      u := GiveBack(s1, v, t);
      ReachableChain(QuietFor(t), s, s1, u);
    }
  }

  /**
   * Exactly when a waiting thread can get a connection without any other thread asking for one: some
   * connection is idle, or some connection in use is not broken.
   */
  lemma ServedIffSomeGood(s: State, t: nat)
    requires t < |s.threads| && s.threads[t].Waiting?
    ensures Serves(QuietFor(t), s, t) <==> s.pool.idle != [] || SomeGood(s.threads)
  {
    if s.pool.idle != [] || SomeGood(s.threads) {
      var u := s;
      ReachableStart(QuietFor(t), s);
      if s.pool.idle == [] {
        var v: nat :| v < |s.threads| && s.threads[v].Using? && !s.threads[v].conn.err;
        u := GiveBack(s, v, t);
      }
      ReachableNext(QuietFor(t), s, u, Take(t), Apply(u, Take(t)));
    } else {
      forall u | Reachable(QuietFor(t), s, u) ensures Stranded(u, t) {
        forall x, step, y | Stranded(x, t) && QuietFor(t)(x, step, y) ensures Stranded(y, t) {
          StrandedStays(x, step, y, t);
        }
        ReachableKeeps(QuietFor(t), x => Stranded(x, t), s, u);
      }
    }
  }

  /** Every connection in use breaks, and is counted off. */
  lemma {:induction false} BreakAll(init: State, s: State, k: nat) returns (t: State)
    requires Reachable(Moves, init, s) && k <= |s.threads| && s.pool.idle == []
    requires forall i :: 0 <= i < k ==> s.threads[i] == Using(Conn([], false))
    ensures Reachable(Moves, init, t) && t.pool == s.pool.(current := s.pool.current - k)
    ensures |t.threads| == |s.threads| && forall i :: 0 <= i < k ==> t.threads[i].Away?
    ensures forall i :: k <= i < |t.threads| ==> t.threads[i] == s.threads[i]
  {
    if k == 0 {
      t := s;
    } else {
      var last := BreakAll(init, s, k - 1);
      assert last.threads[k - 1] == Using(Conn([], false));
      t := BreakOne(init, last, k - 1);
    }
  }

  lemma BreakOne(init: State, s: State, v: nat) returns (t: State)
    requires Reachable(Moves, init, s) && v < |s.threads| && s.threads[v] == Using(Conn([], false))
    ensures Reachable(Moves, init, t)
    ensures t == s.(pool := CountedOff(s.pool), threads := s.threads[v := Away])
  {
    var s1 := Apply(s, Send(v, [Ping]));
    ReachableNext(Moves, init, s, Send(v, [Ping]), s1);
    var s2 := Apply(s1, Break(v));
    ReachableNext(Moves, init, s1, Break(v), s2);
    t := Apply(s2, Release(v));
    ReachableNext(Moves, init, s2, Release(v), t);
  }

  /**
   * A thread waits for idle connections only. For every maximum there is a run in which all connections turn
   * out broken while one more thread waits: the pool may grow to its maximum again, no other thread has
   * anything, and the waiting one gets nothing unless another thread comes to ask.
   */
  lemma BrokenConnectionStrandsWaiter(max: nat)
    requires max > 0
    ensures exists s :: Reachable(Moves, Init(0, max, 0, max + 1), s) && |s.threads| == max + 1
                        && s.threads[max].Waiting? && s.pool == Pool([], 0, max) && !Serves(QuietFor(max), s, max)
  {
    var init := Init(0, max, 0, max + 1);
    ReachableStart(Moves, init);
    AllAway(max + 1);
    var full := CreateSome(init, init, max);
    var waiting := Apply(full, Wait(max));
    ReachableNext(Moves, init, full, Wait(max), waiting);
    var s := BreakAll(init, waiting, max);
    assert s.threads[max] == waiting.threads[max];
    ServedIffSomeGood(s, max);
  }

  // ---- Waiting: when others may come ----

  ghost predicate AllWaiting(ts: seq<Thread>) {
    forall v :: 0 <= v < |ts| ==> ts[v].Waiting?
  }

  lemma {:induction false} NobodyHas(ts: seq<Thread>)
    requires forall v :: 0 <= v < |ts| ==> !ts[v].Using? && !ts[v].Threw?
    ensures Users(ts) == 0 && Throwers(ts) == 0
  {
    if ts != [] {
      NobodyHas(ts[..|ts| - 1]);
    }
  }

  /** The last thread does not wait: then nothing would be in use, and it could open a connection. */
  ghost predicate SomeoneUp(s: State, max: int) {
    Law(s) && s.pool.max == max && !AllWaiting(s.threads)
  }

  lemma SomeoneStaysUp(s: State, step: Step, max: int)
    requires SomeoneUp(s, max) && max > 0 && Enabled(s, step)
    ensures SomeoneUp(Apply(s, step), max)
  {
    var t := Apply(s, step);
    StepKeeps(s, step);
    if step.Wait? {
      if AllWaiting(t.threads) {
        NobodyHas(t.threads);
      }
    } else if !step.Cycle? {
      assert !t.threads[step.t].Waiting?;
    }
  }

  lemma NotAllWait(min: nat, max: int, made: nat, threads: nat, s: State)
    requires made <= min <= max && max > 0 && threads > 0 && Reachable(Moves, Init(min, max, made, threads), s)
    ensures SomeoneUp(s, max)
  {
    var init := Init(min, max, made, threads);
    var up := (t: State) => SomeoneUp(t, max);
    AllAway(threads);
    assert init.threads[0].Away?;
    forall t, step, u | up(t) && Moves(t, step, u) ensures up(u) {
      SomeoneStaysUp(t, step, max);
    }
    ReachableKeeps(Moves, up, init, s);
  }

  /** A thread that does not wait gives back what it has; if that is nothing good, there is room for it to ask again. */
  lemma BecomeAway(s: State, v: nat) returns (u: State)
    requires Law(s) && v < |s.threads| && s.pool.idle == [] && !SomeGood(s.threads)
    requires s.threads[v].Using? || s.threads[v].Threw?
    ensures Reachable(Moves, s, u) && u.threads == s.threads[v := Away] && MayGrow(u.pool)
  {
    ReachableStart(Moves, s);
    var step := if s.threads[v].Using? then Release(v) else ReleaseNone(v);
    assert s.threads[v].Using? ==> s.threads[v].conn.err;
    u := Apply(s, step);
    ReachableNext(Moves, s, s, step, u);
  }

  /** Some thread that does not wait can open a connection. */
  lemma OpenOne(s: State) returns (u: State, v: nat)
    requires SomeoneUp(s, s.pool.max) && s.pool.max > 0 && s.pool.idle == [] && !SomeGood(s.threads)
    ensures Reachable(Moves, s, u) && v < |s.threads| && !s.threads[v].Waiting?
    ensures u.threads == s.threads[v := Using(Conn([], false))] && u.pool.idle == []
  {
    v :| v < |s.threads| && !s.threads[v].Waiting?;
    if w: nat :| w < |s.threads| && (s.threads[w].Using? || s.threads[w].Threw?) {
      v := w;
      var s1 := BecomeAway(s, v);
      u := Apply(s1, Create(v));
      ReachableNext(Moves, s, s1, Create(v), u);
    } else {
      NobodyHas(s.threads);
      ReachableStart(Moves, s);
      u := Apply(s, Create(v));
      ReachableNext(Moves, s, s, Create(v), u);
    }
  }

  /** No deadlock: from every reachable state some run gives a waiting thread a connection. */
  lemma WaiterCanBeServed(min: nat, max: int, made: nat, threads: nat, s: State, t: nat)
    requires made <= min <= max && max > 0 && Reachable(Moves, Init(min, max, made, threads), s)
    requires t < |s.threads| && s.threads[t].Waiting? && threads > 0
    ensures Serves(Moves, s, t)
  {
    NotAllWait(min, max, made, threads, s);
    var s1 := s;
    ReachableStart(Moves, s);
    if s.pool.idle == [] && !SomeGood(s.threads) {
      var v;
      s1, v := OpenOne(s);
      assert s1.threads[v].Using? && s1.threads[t].Waiting?;
    }
    ServedIffSomeGood(s1, t);
    var u :| Reachable(QuietFor(t), s1, u) && t < |u.threads| && u.threads[t].Using?;
    ReachableMore(QuietFor(t), Moves, s1, u);
    ReachableChain(Moves, s, s1, u);
  }

  // ---- A thread that waits for itself ----

  /** Thread `v` has the only connection the maximum allows. */
  ghost predicate Alone(s: State, v: nat) {
    && v < |s.threads| && s.threads[v].Using? && Users(s.threads) == 1 && Throwers(s.threads) == 0
    && s.pool.idle == [] && s.pool.current >= s.pool.max
  }

  lemma {:induction false} OnlyUser(ts: seq<Thread>, v: nat, u: nat)
    requires v < |ts| && u < |ts| && ts[v].Using? && ts[u].Using? && Users(ts) == 1
    ensures u == v
  {
    CountsUpdate(ts, v, Away);
    if u != v {
      CountsUpdate(ts[v := Away], u, Away);
    }
  }

  lemma {:induction false} NoThrower(ts: seq<Thread>, u: nat)
    requires u < |ts| && Throwers(ts) == 0
    ensures !ts[u].Threw?
  {
    CountsUpdate(ts, u, Away);
  }

  lemma AloneStays(s: State, step: Step, v: nat)
    requires Alone(s, v) && Enabled(s, step) && (step.Cycle? || step.t != v)
    ensures Alone(Apply(s, step), v)
  {
    if !step.Cycle? {
      if s.threads[step.t].Using? {
        OnlyUser(s.threads, v, step.t);
      }
      NoThrower(s.threads, step.t);
      CountsUpdate(s.threads, step.t, Apply(s, step).threads[step.t]);
    }
  }

  ghost function Without(v: nat): (State, Step, State) -> bool {
    (s, step, u) => Moves(s, step, u) && (step.Cycle? || step.t != v)
  }

  /**
   * The data cleaner asks for a second connection while it holds one, and does nothing with the first until
   * it has the second. When the first is all the maximum allows, it never gets it.
   */
  lemma HolderWaitsForItself(s: State, v: nat, t: nat)
    requires Alone(s, v) && t < |s.threads| && t != v
    ensures !Serves(Without(v), s, t)
  {
    var alone := (x: State) => Alone(x, v);
    forall x, step, y | alone(x) && Without(v)(x, step, y) ensures alone(y) {
      AloneStays(x, step, v);
    }
    forall u | Reachable(Without(v), s, u) ensures !(t < |u.threads| && u.threads[t].Using?) {
      ReachableKeeps(Without(v), alone, s, u);
      if t < |u.threads| && u.threads[t].Using? {
        OnlyUser(u.threads, v, t);
      }
    }
  }
}
