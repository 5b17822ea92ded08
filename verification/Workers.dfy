/**
 * Worker threads, the service queue, the thread manager and shutdown as one interleaved transition system.
 * Increments and decrements of the thread count are steps of their own.
 */
module Workers {
  import opened Runs

  /** A queued client, or the item that ends the worker taking it. */
  datatype Item = Client(id: int) | EndIt

  datatype Worker = Waiting | Busy(id: int) | Exited

  /**
   * How far shutdown is: not begun, queueing its ends, waiting for the queue to empty, or past that, where it
   * deletes the store and keeps the queue's lock. `pushed` counts the ends it has queued.
   */
  datatype Phase = Running | Ending(pushed: nat) | Draining(pushed: nat) | Done(pushed: nat)

  datatype State = State(
    serviceThreads: nat,
    maxThreads: nat,
    count: int,             // current_thread_count
    active: int,            // active_threads
    quiet: nat,             // thread_check_counter
    spawnLeft: nat,         // threads the loop has decided to start and not yet started
    shrinkLeft: nat,        // threads the manager has decided to end and not yet counted off
    owed: bool,             // the manager has counted a thread off and not yet queued its end
    phase: Phase,
    queue: seq<Item>,
    workers: seq<Worker>,
    pushed: seq<int>,       // every client ever queued
    dequeued: seq<int>)     // every client ever taken by a worker

  datatype Step =
    | Push(id: int)
    | Take(w: nat)
    | Finish(w: nat)
    | SpawnBegin
    | SpawnOne
    | Check
    | ShrinkCount
    | ShrinkPush
    | Shutdown
    | PushEnd
    | EndsPushed
    | FindEmpty

  /** Half the current threads, as the loop and the manager compute it. */
  function Half(n: int): nat {
    if n <= 0 then 0 else n / 2
  }

  function SpawnCount(s: State): nat {
    if Half(s.count) < s.maxThreads then Half(s.count) else s.maxThreads
  }

  /** Looks in a row at a quiet queue after which the manager ends threads. */
  const QUIET := 20

  /** The queue is short of five items a thread. */
  predicate IsQuiet(s: State) {
    |s.queue| < 5 * s.count
  }

  /** After shutdown has begun the loop's thread is in it, while the workers and the manager go on. */
  predicate Enabled(s: State, step: Step) {
    match step
    case Push(_) => s.phase.Running?
    case Take(w) => !s.phase.Done? && w < |s.workers| && s.workers[w].Waiting? && s.queue != []
    case Finish(w) => w < |s.workers| && s.workers[w].Busy?
    case SpawnBegin => s.phase.Running? && s.spawnLeft == 0 && s.count < s.maxThreads && |s.queue| > s.count &&
                       s.active > 0 && s.count / s.active < 2
    case SpawnOne => s.phase.Running? && s.spawnLeft > 0
    case Check => s.shrinkLeft == 0 && !s.owed
    case ShrinkCount => s.shrinkLeft > 0 && !s.owed
    case ShrinkPush => !s.phase.Done? && s.owed
    case Shutdown => s.phase.Running?
    case PushEnd => s.phase.Ending? && s.phase.pushed < s.count
    case EndsPushed => s.phase.Ending? && s.phase.pushed >= s.count
    case FindEmpty => s.phase.Draining? && s.queue == []
  }

  function Apply(s: State, step: Step): State
    requires Enabled(s, step)
  {
    match step
    case Push(id) => s.(queue := s.queue + [Client(id)], pushed := s.pushed + [id])
    case Take(w) =>
      var rest := s.(queue := s.queue[1..], active := s.active + 1);
      (match s.queue[0]
       case EndIt => rest.(workers := s.workers[w := Exited])
       case Client(id) => rest.(workers := s.workers[w := Busy(id)], dequeued := s.dequeued + [id]))
    case Finish(w) => s.(workers := s.workers[w := Waiting], active := s.active - 1)
    case SpawnBegin => s.(spawnLeft := SpawnCount(s))
    case SpawnOne => s.(spawnLeft := s.spawnLeft - 1, count := s.count + 1, workers := s.workers + [Waiting])
    case Check =>
      if !IsQuiet(s) then s.(quiet := if s.quiet == 0 then 0 else s.quiet - 1)
      else if s.quiet < QUIET then s.(quiet := s.quiet + 1)
      else s.(quiet := 0, shrinkLeft := Half(s.count - s.serviceThreads))
    case ShrinkCount => s.(shrinkLeft := s.shrinkLeft - 1, count := s.count - 1, owed := true)
    case ShrinkPush => s.(owed := false, queue := s.queue + [EndIt])
    case Shutdown => s.(phase := Ending(0))
    case PushEnd => s.(phase := Ending(s.phase.pushed + 1), queue := s.queue + [EndIt])
    case EndsPushed => s.(phase := Draining(s.phase.pushed))
    case FindEmpty => s.(phase := Done(s.phase.pushed))
  }

  function Init(serviceThreads: nat, maxThreads: nat): State {
    State(serviceThreads, maxThreads, serviceThreads, 0, 0, 0, 0, false, Running, [],
          seq(serviceThreads, _ => Waiting), [], [])
  }

  ghost predicate Moves(s: State, step: Step, t: State) {
    Enabled(s, step) && t == Apply(s, step)
  }

  // ---- Accounting ----

  function Bit(b: bool): nat {
    if b then 1 else 0
  }

  function Live(ws: seq<Worker>): nat {
    if ws == [] then 0 else Live(ws[..|ws| - 1]) + Bit(!ws[|ws| - 1].Exited?)
  }

  function Busies(ws: seq<Worker>): nat {
    if ws == [] then 0 else Busies(ws[..|ws| - 1]) + Bit(ws[|ws| - 1].Busy?)
  }

  function Ends(q: seq<Item>): nat {
    if q == [] then 0 else Bit(q[0].EndIt?) + Ends(q[1..])
  }

  function Clients(q: seq<Item>): seq<int> {
    if q == [] then [] else (if q[0].Client? then [q[0].id] else []) + Clients(q[1..])
  }

  /**
   * The most threads there can be. None are added to fewer than two, nor once the maximum is reached; from
   * one below it half as many again are.
   */
  function Cap(serviceThreads: nat, maxThreads: nat): nat {
    if serviceThreads < 2 || serviceThreads >= maxThreads then serviceThreads
    else maxThreads - 1 + (maxThreads - 1) / 2
  }

  function EndsQueued(p: Phase): nat {
    if p.Running? then 0 else p.pushed
  }

  ghost predicate Inv(s: State) {
    // Live workers and the ends shutdown has queued for them match those counted, owed and queued.
    && Live(s.workers) + EndsQueued(s.phase) == s.count + Bit(s.owed) + Ends(s.queue)
    // A worker that ends raises the number of active ones for good.
    && s.active == Busies(s.workers) + |s.workers| - Live(s.workers)
    && s.serviceThreads <= s.count - s.shrinkLeft
    && s.count + s.spawnLeft <= Cap(s.serviceThreads, s.maxThreads)
    // Clients leave the queue in the order they came.
    && s.dequeued + Clients(s.queue) == s.pushed
    && StopsInOrder(s)
  }

  /** Once shutdown has queued an end, the last item queued is one; it has queued as many as are counted. */
  ghost predicate StopsInOrder(s: State) {
    && (EndsQueued(s.phase) > 0 && s.queue != [] ==> s.queue[|s.queue| - 1].EndIt?)
    && (s.phase.Draining? || s.phase.Done? ==> s.phase.pushed >= s.count)
    && (s.phase.Done? ==> s.queue == [])
  }

  lemma {:induction false} LiveUpdate(ws: seq<Worker>, w: nat, x: Worker)
    requires w < |ws|
    ensures Live(ws[w := x]) == Live(ws) - Bit(!ws[w].Exited?) + Bit(!x.Exited?)
    ensures Busies(ws[w := x]) == Busies(ws) - Bit(ws[w].Busy?) + Bit(x.Busy?)
  {
    var last := |ws| - 1;
    if w < last {
      assert ws[w := x][..last] == ws[..last][w := x];
      LiveUpdate(ws[..last], w, x);
    } else {
      assert ws[w := x][..last] == ws[..last];
    }
  }

  lemma LiveAppend(ws: seq<Worker>)
    ensures Live(ws + [Waiting]) == Live(ws) + 1
    ensures Busies(ws + [Waiting]) == Busies(ws)
  {
    assert (ws + [Waiting])[..|ws|] == ws;
  }

  lemma {:induction false} QueueAppend(q: seq<Item>, x: Item)
    ensures Ends(q + [x]) == Ends(q) + Bit(x.EndIt?)
    ensures Clients(q + [x]) == Clients(q) + if x.Client? then [x.id] else []
    decreases |q|
  {
    if q == [] {
      assert [x][1..] == [] && [] + [x] == [x];
    } else {
      assert (q + [x])[1..] == q[1..] + [x];
      QueueAppend(q[1..], x);
    }
  }

  lemma {:induction false} AllWaitingLive(n: nat)
    ensures Live(seq(n, _ => Waiting)) == n
    ensures Busies(seq(n, _ => Waiting)) == 0
  {
    if n > 0 {
      assert seq(n, _ => Waiting)[..n - 1] == seq(n - 1, _ => Waiting);
      AllWaitingLive(n - 1);
    }
  }

  lemma InitInv(serviceThreads: nat, maxThreads: nat)
    ensures Inv(Init(serviceThreads, maxThreads))
  {
    AllWaitingLive(serviceThreads);
  }

  lemma TakeClientKeeps(s: State, w: nat, id: int)
    requires Inv(s) && Enabled(s, Take(w)) && s.queue[0] == Client(id)
    ensures Inv(Apply(s, Take(w)))
  {
    var s' := Apply(s, Take(w));
    LiveUpdate(s.workers, w, Busy(id));
    assert s'.dequeued + Clients(s'.queue) == s.pushed by {
      assert s.dequeued + ([id] + Clients(s.queue[1..])) == s.dequeued + [id] + Clients(s.queue[1..]);
    }
  }

  lemma TakeKeeps(s: State, w: nat)
    requires Inv(s) && Enabled(s, Take(w))
    ensures Inv(Apply(s, Take(w)))
  {
    var x := s.queue[0];
    if x.Client? {
      TakeClientKeeps(s, w, x.id);
    } else {
      LiveUpdate(s.workers, w, Exited);
      assert Clients(s.queue) == Clients(s.queue[1..]);
    }
  }

  lemma PushKeeps(s: State, step: Step)
    requires Inv(s) && Enabled(s, step) && (step.Push? || step.ShrinkPush? || step.PushEnd?)
    ensures Inv(Apply(s, step))
  {
    QueueAppend(s.queue, if step.Push? then Client(step.id) else EndIt);
  }

  lemma WorkerKeeps(s: State, step: Step)
    requires Inv(s) && Enabled(s, step) && (step.Finish? || step.SpawnOne?)
    ensures Inv(Apply(s, step))
  {
    if step.Finish? {
      LiveUpdate(s.workers, step.w, Waiting);
    } else {
      LiveAppend(s.workers);
    }
  }

  lemma PhaseKeeps(s: State, step: Step)
    requires Inv(s) && Enabled(s, step) && (step.Shutdown? || step.EndsPushed? || step.FindEmpty?)
    ensures Inv(Apply(s, step))
  {
  }

  lemma SpawnBeginKeeps(s: State)
    requires Inv(s) && Enabled(s, SpawnBegin)
    ensures Inv(Apply(s, SpawnBegin))
  {
  }

  lemma CheckKeeps(s: State)
    requires Inv(s) && Enabled(s, Check)
    ensures Inv(Apply(s, Check))
  {
  }

  lemma ShrinkCountKeeps(s: State)
    requires Inv(s) && Enabled(s, ShrinkCount)
    ensures Inv(Apply(s, ShrinkCount))
  {
  }

  lemma StepKeeps(s: State, step: Step)
    requires Inv(s) && Enabled(s, step)
    ensures Inv(Apply(s, step))
  {
    if step.Push? || step.ShrinkPush? || step.PushEnd? {
      PushKeeps(s, step);
    } else if step.Take? {
      TakeKeeps(s, step.w);
    } else if step.Finish? || step.SpawnOne? {
      WorkerKeeps(s, step);
    } else if step.Shutdown? || step.EndsPushed? || step.FindEmpty? {
      PhaseKeeps(s, step);
    } else if step.SpawnBegin? {
      SpawnBeginKeeps(s);
    } else if step.Check? {
      CheckKeeps(s);
    } else {
      ShrinkCountKeeps(s);
    }
  }

  predicate SameSettings(s: State, t: State) {
    s.serviceThreads == t.serviceThreads && s.maxThreads == t.maxThreads
  }

  lemma ReachableMeets(s: State, t: State)
    requires Inv(s) && Reachable(Moves, s, t)
    ensures Inv(t) && SameSettings(s, t)
  {
    forall u, step, v | Inv(u) && Moves(u, step, v) ensures Inv(v) {
      StepKeeps(u, step);
    }
    ReachableKeeps(Moves, Inv, s, t);
    ReachableKeeps(Moves, u => SameSettings(s, u), s, t);
  }

  lemma ReachableInv(serviceThreads: nat, maxThreads: nat, s: State)
    requires Reachable(Moves, Init(serviceThreads, maxThreads), s)
    ensures Inv(s) && s.serviceThreads == serviceThreads && s.maxThreads == maxThreads
  {
    InitInv(serviceThreads, maxThreads);
    ReachableMeets(Init(serviceThreads, maxThreads), s);
  }

  /**
   * In every reachable state the live workers, less the ends shutdown has queued for them, are exactly those
   * counted plus the ends queued or owed; the manager never counts below the configured number, and the loop
   * never above `Cap`. The active count exceeds the busy workers by one for every worker that has ended.
   */
  lemma ThreadAccounting(serviceThreads: nat, maxThreads: nat, s: State)
    requires Reachable(Moves, Init(serviceThreads, maxThreads), s)
    ensures Live(s.workers) + EndsQueued(s.phase) == s.count + Ends(s.queue) + Bit(s.owed)
    ensures serviceThreads <= s.count <= Cap(serviceThreads, maxThreads)
    ensures s.active == Busies(s.workers) + |s.workers| - Live(s.workers)
  {
    ReachableInv(serviceThreads, maxThreads, s);
  }

  // ---- The most threads there can be are reached ----

  /** Nothing but clients, workers and the queue has changed. */
  ghost predicate OnlyServed(s: State, t: State) {
    t == s.(queue := t.queue, workers := t.workers, active := t.active, pushed := t.pushed, dequeued := t.dequeued)
  }

  function Waitings(ws: seq<Worker>): nat {
    if ws == [] then 0 else Waitings(ws[..|ws| - 1]) + Bit(ws[|ws| - 1].Waiting?)
  }

  lemma {:induction false} WaitingsUpdate(ws: seq<Worker>, w: nat, x: Worker)
    requires w < |ws|
    ensures Waitings(ws[w := x]) == Waitings(ws) - Bit(ws[w].Waiting?) + Bit(x.Waiting?)
  {
    var last := |ws| - 1;
    if w < last {
      assert ws[w := x][..last] == ws[..last][w := x];
      WaitingsUpdate(ws[..last], w, x);
    } else {
      assert ws[w := x][..last] == ws[..last];
    }
  }

  lemma {:induction false} SomeoneWaits(ws: seq<Worker>) returns (w: nat)
    requires Waitings(ws) > 0
    ensures w < |ws| && ws[w].Waiting?
  {
    var last := |ws| - 1;
    if ws[last].Waiting? {
      w := last;
    } else {
      w := SomeoneWaits(ws[..last]);
    }
  }

  /** Clients come until there are more than threads. */
  lemma {:induction false} PushSome(s: State, n: nat) returns (t: State)
    requires Inv(s) && s.phase.Running?
    ensures Reachable(Moves, s, t) && Inv(t) && OnlyServed(s, t)
    ensures t.workers == s.workers && t.active == s.active && |t.queue| == |s.queue| + n
  {
    if n == 0 {
      ReachableStart(Moves, s);
      t := s;
    } else {
      var last := PushSome(s, n - 1);
      t := Apply(last, Push(0));
      ReachableNext(Moves, s, last, Push(0), t);
      StepKeeps(last, Push(0));
    }
  }

  /** Every waiting worker takes an item. */
  lemma {:induction false} AllTake(s: State) returns (t: State)
    requires Inv(s) && s.phase.Running?
    ensures Reachable(Moves, s, t) && Inv(t) && OnlyServed(s, t) && Waitings(t.workers) == 0
    decreases Waitings(s.workers)
  {
    if Waitings(s.workers) == 0 {
      ReachableStart(Moves, s);
      t := s;
    } else {
      var w := SomeoneWaits(s.workers);
      var s1 := PushSome(s, 1);
      var s2 := Apply(s1, Take(w));
      ReachableNext(Moves, s, s1, Take(w), s2);
      StepKeeps(s1, Take(w));
      WaitingsUpdate(s1.workers, w, s2.workers[w]);
      t := AllTake(s2);
      ReachableChain(Moves, s, s2, t);
    }
  }

  lemma {:induction false} NoneWaiting(ws: seq<Worker>)
    requires Waitings(ws) == 0
    ensures Live(ws) == Busies(ws)
  {
    if ws != [] {
      NoneWaiting(ws[..|ws| - 1]);
    }
  }

  lemma {:induction false} SpawnAll(s: State, n: nat) returns (t: State)
    requires Inv(s) && s.phase.Running? && s.spawnLeft == n
    ensures Reachable(Moves, s, t) && Inv(t)
    ensures t == s.(spawnLeft := 0, count := s.count + n, workers := t.workers)
    decreases n
  {
    if n == 0 {
      ReachableStart(Moves, s);
      t := s;
    } else {
      var s1 := Apply(s, SpawnOne);
      ReachableStart(Moves, s);
      ReachableNext(Moves, s, s, SpawnOne, s1);
      StepKeeps(s, SpawnOne);
      t := SpawnAll(s1, n - 1);
      ReachableChain(Moves, s, s1, t);
    }
  }

  /** Nothing is decided or owed, and the manager has seen nothing quiet. */
  ghost predicate Settled(s: State) {
    Inv(s) && s.phase.Running? && s.spawnLeft == 0 && !s.owed && s.quiet == 0
  }

  lemma {:induction false} LiveAtMost(ws: seq<Worker>)
    ensures Live(ws) <= |ws|
  {
    if ws != [] {
      LiveAtMost(ws[..|ws| - 1]);
    }
  }

  /** When no worker waits, as many are active as are counted. */
  lemma AllActive(s: State)
    requires Inv(s) && s.phase.Running? && Waitings(s.workers) == 0
    ensures s.active >= s.count
  {
    NoneWaiting(s.workers);
    LiveAtMost(s.workers);
  }

  lemma MaySpawn(s: State)
    requires s.phase.Running? && s.spawnLeft == 0 && 0 < s.count < s.maxThreads && |s.queue| > s.count
    requires s.active >= s.count
    ensures Enabled(s, SpawnBegin) && Apply(s, SpawnBegin) == s.(spawnLeft := s.count / 2)
  {
    assert s.count / s.active <= 1;
  }

  /** The loop adds half of the threads, once all of them are busy and as many clients wait. */
  lemma Grow(s: State) returns (t: State)
    requires Settled(s) && 0 < s.count < s.maxThreads
    ensures Reachable(Moves, s, t) && Settled(t) && SameSettings(s, t) && t.count == s.count + s.count / 2
  {
    var busy := AllTake(s);
    AllActive(busy);
    var full := PushSome(busy, s.count + 1);
    ReachableChain(Moves, s, busy, full);
    MaySpawn(full);
    var begun := full.(spawnLeft := full.count / 2);
    ReachableNext(Moves, s, full, SpawnBegin, begun);
    StepKeeps(full, SpawnBegin);
    t := SpawnAll(begun, begun.spawnLeft);
    ReachableChain(Moves, s, begun, t);
  }

  /** The queue is emptied by the workers there are. */
  lemma {:induction false} EmptyQueue(s: State) returns (t: State)
    requires Inv(s) && s.phase.Running? && s.count > 0
    ensures Reachable(Moves, s, t) && Inv(t) && OnlyServed(s, t) && t.queue == []
    decreases |s.queue|
  {
    if s.queue == [] {
      ReachableStart(Moves, s);
      t := s;
    } else {
      NoneLive(s.workers);
      var w: nat :| w < |s.workers| && !s.workers[w].Exited?;
      var s1 := GetReady(s, w);
      var s2 := Apply(s1, Take(w));
      ReachableNext(Moves, s, s1, Take(w), s2);
      StepKeeps(s1, Take(w));
      t := EmptyQueue(s2);
      ReachableChain(Moves, s, s2, t);
    }
  }

  /** A worker that has not ended finishes what it is busy with. */
  lemma GetReady(s: State, w: nat) returns (t: State)
    requires Inv(s) && w < |s.workers| && !s.workers[w].Exited?
    ensures Reachable(Moves, s, t) && Inv(t) && OnlyServed(s, t) && t.queue == s.queue
    ensures t.workers == s.workers[w := Waiting] && t.workers[w].Waiting?
  {
    ReachableStart(Moves, s);
    if s.workers[w].Busy? {
      t := Apply(s, Finish(w));
      ReachableNext(Moves, s, s, Finish(w), t);
      StepKeeps(s, Finish(w));
    } else {
      t := s;
    }
  }

  lemma {:induction false} LookOn(s: State, k: nat)
    requires s.quiet == 0 && k <= QUIET && s.shrinkLeft == 0 && !s.owed && IsQuiet(s)
    ensures Reachable(Moves, s, s.(quiet := k))
  {
    if k == 0 {
      ReachableStart(Moves, s);
      assert s.(quiet := 0) == s;
    } else {
      LookOn(s, k - 1);
      ReachableNext(Moves, s, s.(quiet := k - 1), Check, s.(quiet := k));
    }
  }

  /** The manager, idle long enough, counts a thread off. */
  lemma CountOne(s: State) returns (t: State)
    requires s.quiet == 0 && !s.owed && s.count >= s.serviceThreads + 2
    requires s.shrinkLeft > 0 || IsQuiet(s)
    ensures Reachable(Moves, s, t)
    ensures t == s.(count := s.count - 1, shrinkLeft := t.shrinkLeft, owed := true)
  {
    var s1 := s;
    ReachableStart(Moves, s);
    if s.shrinkLeft == 0 {
      LookOn(s, QUIET);
      s1 := s.(shrinkLeft := Half(s.count - s.serviceThreads));
      ReachableNext(Moves, s, s.(quiet := QUIET), Check, s1);
    }
    t := Apply(s1, ShrinkCount);
    ReachableNext(Moves, s, s1, ShrinkCount, t);
  }

  lemma ShrinkOne(s: State) returns (t: State)
    requires Settled(s) && s.count >= s.serviceThreads + 2
    ensures Reachable(Moves, s, t) && Settled(t) && SameSettings(s, t) && t.count == s.count - 1
  {
    var idle := EmptyQueue(s);
    var counted := CountOne(idle);
    ReachableChain(Moves, s, idle, counted);
    t := Apply(counted, ShrinkPush);
    ReachableNext(Moves, s, counted, ShrinkPush, t);
    ReachableMeets(s, t);
  }

  lemma {:induction false} ShrinkTo(s: State, c: nat) returns (t: State)
    requires Settled(s) && s.serviceThreads < c <= s.count
    ensures Reachable(Moves, s, t) && Settled(t) && SameSettings(s, t) && t.count == c
    decreases s.count
  {
    if s.count == c {
      ReachableStart(Moves, s);
      t := s;
    } else {
      var s1 := ShrinkOne(s);
      t := ShrinkTo(s1, c);
      ReachableChain(Moves, s, s1, t);
    }
  }

  lemma {:induction false} GrowTo(s: State, c: nat) returns (t: State)
    requires Settled(s) && s.count >= 2 && c <= s.maxThreads
    ensures Reachable(Moves, s, t) && Settled(t) && SameSettings(s, t) && t.count >= c
    decreases c - s.count
  {
    if s.count >= c {
      ReachableStart(Moves, s);
      t := s;
    } else {
      var s1 := Grow(s);
      t := GrowTo(s1, c);
      ReachableChain(Moves, s, s1, t);
    }
  }

  /** For all settings, some run reaches as many threads as there can be. */
  lemma CapIsMet(serviceThreads: nat, maxThreads: nat) returns (t: State)
    ensures Reachable(Moves, Init(serviceThreads, maxThreads), t) && Settled(t)
    ensures SameSettings(Init(serviceThreads, maxThreads), t) && t.count == Cap(serviceThreads, maxThreads)
  {
    var init := Init(serviceThreads, maxThreads);
    InitInv(serviceThreads, maxThreads);
    ReachableStart(Moves, init);
    t := init;
    if 2 <= serviceThreads < maxThreads {
      var below := init;
      if serviceThreads < maxThreads - 1 {
        var grown := GrowTo(init, maxThreads - 1);
        below := ShrinkTo(grown, maxThreads - 1);
        ReachableChain(Moves, init, grown, below);
      }
      t := Grow(below);
      ReachableChain(Moves, init, below, t);
    }
  }

  /**
   * Exactly when the configured maximum is a bound on the threads: when no more are configured to begin with,
   * and either none are ever added or at most one.
   */
  lemma MaximumIsBoundIff(serviceThreads: nat, maxThreads: nat)
    ensures (forall s :: Reachable(Moves, Init(serviceThreads, maxThreads), s) ==> s.count <= maxThreads)
            <==> serviceThreads <= maxThreads
                 && (serviceThreads <= 1 || serviceThreads == maxThreads || maxThreads <= 4)
  {
    forall s | Reachable(Moves, Init(serviceThreads, maxThreads), s)
      ensures s.count <= Cap(serviceThreads, maxThreads)
    {
      ThreadAccounting(serviceThreads, maxThreads, s);
    }
    var t := CapIsMet(serviceThreads, maxThreads);
    assert Reachable(Moves, Init(serviceThreads, maxThreads), t);
  }

  // ---- Shutdown ----

  predicate AllExited(ws: seq<Worker>) {
    forall w :: 0 <= w < |ws| ==> ws[w].Exited?
  }

  lemma {:induction false} NoneLive(ws: seq<Worker>)
    ensures Live(ws) == 0 <==> AllExited(ws)
  {
    if ws != [] {
      var init := ws[..|ws| - 1];
      NoneLive(init);
      assert ws == init + [ws[|ws| - 1]];
      assert AllExited(ws) <==> AllExited(init) && ws[|ws| - 1].Exited?;
    }
  }

  /**
   * When shutdown has found the queue empty, every client ever queued has been taken, in order; and every
   * worker has ended, so that none still uses the store that is deleted then, if and only if the manager owes
   * an end exactly when it has counted a thread off since shutdown counted its ends.
   */
  lemma EmptyQueueMeansDone(serviceThreads: nat, maxThreads: nat, s: State)
    requires Reachable(Moves, Init(serviceThreads, maxThreads), s) && s.phase.Done?
    ensures s.dequeued == s.pushed
    ensures AllExited(s.workers) <==> (s.owed <==> s.phase.pushed > s.count)
  {
    ReachableInv(serviceThreads, maxThreads, s);
    NoneLive(s.workers);
    assert s.dequeued + [] == s.dequeued;
  }

  lemma {:induction false} LastEndCounts(q: seq<Item>)
    requires q != [] && q[|q| - 1].EndIt?
    ensures Ends(q) > 0
    decreases |q|
  {
    if |q| > 1 {
      LastEndCounts(q[1..]);
    }
  }

  /** A step of shutdown itself or of a worker: the manager stands still. */
  predicate IsDrainStep(step: Step) {
    step.PushEnd? || step.EndsPushed? || step.FindEmpty? || step.Take? || step.Finish?
  }

  predicate Stopping(s: State) {
    s.phase.Ending? || s.phase.Draining?
  }

  /** Threads the manager has counted off since shutdown counted them, but for one it still owes an end. */
  function Surplus(s: State): int {
    EndsQueued(s.phase) - s.count - Bit(s.owed)
  }

  /** Without surplus, shutdown or a worker can always go on: no client and no end is stuck. */
  lemma DrainProgress(s: State)
    requires Inv(s) && Stopping(s) && s.serviceThreads > 0 && Surplus(s) <= 0
    ensures exists step :: IsDrainStep(step) && Enabled(s, step)
  {
    if s.phase.Ending? {
      assert Enabled(s, PushEnd) || Enabled(s, EndsPushed);
    } else if s.queue == [] {
      assert Enabled(s, FindEmpty);
    } else {
      LastEndCounts(s.queue);
      NoneLive(s.workers);
      var w: nat :| w < |s.workers| && !s.workers[w].Exited?;
      assert Enabled(s, Take(w)) || Enabled(s, Finish(w));
    }
  }

  /** What is left to do: an end to queue costs three steps at most, an item to take two. */
  function Work(s: State): nat {
    match s.phase
    case Running => 0
    case Ending(pushed) =>
      2 + (if pushed < s.count then 3 * (s.count - pushed) else 0) + 2 * |s.queue| + Busies(s.workers)
    case Draining(_) => 1 + 2 * |s.queue| + Busies(s.workers)
    case Done(_) => 2 * |s.queue| + Busies(s.workers)
  }

  lemma DrainStepWorks(s: State, step: Step)
    requires !s.phase.Running? && IsDrainStep(step) && Enabled(s, step)
    ensures !Apply(s, step).phase.Running? && Work(Apply(s, step)) < Work(s)
    ensures Surplus(s) <= 0 ==> Surplus(Apply(s, step)) <= 0
  {
    if step.Take? {
      LiveUpdate(s.workers, step.w, if s.queue[0].EndIt? then Exited else Busy(s.queue[0].id));
    } else if step.Finish? {
      LiveUpdate(s.workers, step.w, Waiting);
    }
  }

  /** Draining ends: while the manager stands still no run goes on for more steps than there was work. */
  lemma {:induction false} DrainBounded(ss: seq<State>, steps: seq<Step>)
    requires IsRun(Moves, ss, steps) && !ss[0].phase.Running? && forall k :: 0 <= k < |steps| ==> IsDrainStep(steps[k])
    ensures !ss[|steps|].phase.Running? && |steps| + Work(ss[|steps|]) <= Work(ss[0])
    decreases |steps|
  {
    if steps != [] {
      var n := |steps| - 1;
      assert IsRun(Moves, ss[..n + 1], steps[..n]);
      DrainBounded(ss[..n + 1], steps[..n]);
      assert Moves(ss[n], steps[n], ss[n + 1]);
      DrainStepWorks(ss[n], steps[n]);
    }
  }

  ghost predicate CanFinish(s: State) {
    exists t :: Reachable(Moves, s, t) && t.phase.Done?
  }

  lemma {:induction false} Completes(s: State)
    requires Inv(s) && Stopping(s) && s.serviceThreads > 0 && Surplus(s) <= 0
    ensures CanFinish(s)
    decreases Work(s)
  {
    DrainProgress(s);
    var step :| IsDrainStep(step) && Enabled(s, step);
    var t := Apply(s, step);
    ReachableStart(Moves, s);
    ReachableNext(Moves, s, s, step, Apply(s, step));
    StepKeeps(s, step);
    DrainStepWorks(s, step);
    if !t.phase.Done? {
      Completes(t);
      var u :| Reachable(Moves, t, u) && u.phase.Done?;
      ReachableChain(Moves, s, t, u);
    }
  }

  ghost predicate Hangs(s: State) {
    Inv(s) && Stopping(s) && Surplus(s) > 0
  }

  /** With a surplus there are more ends than workers to take them, whatever any thread does. */
  lemma HangsOn(s: State, step: Step)
    requires Hangs(s) && Enabled(s, step)
    ensures Hangs(Apply(s, step))
  {
    StepKeeps(s, step);
  }

  lemma HangsForever(s: State, t: State)
    requires Hangs(s) && Reachable(Moves, s, t)
    ensures Hangs(t)
  {
    forall u, step, v | Hangs(u) && Moves(u, step, v) ensures Hangs(v) {
      HangsOn(u, step);
    }
    ReachableKeeps(Moves, Hangs, s, t);
  }

  /**
   * Exactly when shutdown can still come to its end: when the manager has counted off no thread since shutdown
   * counted its ends, or one whose end it has not queued yet.
   */
  lemma FinishesIffNoSurplus(s: State)
    requires Inv(s) && Stopping(s) && s.serviceThreads > 0
    ensures CanFinish(s) <==> Surplus(s) <= 0
  {
    if Surplus(s) <= 0 {
      Completes(s);
    } else if CanFinish(s) {
      var t :| Reachable(Moves, s, t) && t.phase.Done?;
      HangsForever(s, t);
      assert false;
    }
  }

  // ---- What goes wrong, and for which settings ----

  lemma {:induction false} PushEnds(s: State, k: nat) returns (t: State)
    requires s.phase == Ending(0) && k <= s.count
    ensures Reachable(Moves, s, t)
    ensures t == s.(phase := Ending(k), queue := t.queue) && |t.queue| == |s.queue| + k
    ensures Ends(t.queue) == Ends(s.queue) + k
  {
    if k == 0 {
      ReachableStart(Moves, s);
      t := s;
    } else {
      var last := PushEnds(s, k - 1);
      t := Apply(last, PushEnd);
      ReachableNext(Moves, s, last, PushEnd, t);
      QueueAppend(last.queue, EndIt);
    }
  }

  /** Shutdown queues an end for every thread counted, and then waits. */
  lemma ShutDown(s: State) returns (t: State)
    requires Inv(s) && s.phase.Running? && s.queue == []
    ensures Reachable(Moves, s, t) && Inv(t)
    ensures t == s.(phase := Draining(s.count), queue := t.queue) && |t.queue| == s.count == Ends(t.queue)
  {
    ReachableStart(Moves, s);
    var s1 := Apply(s, Shutdown);
    ReachableNext(Moves, s, s, Shutdown, s1);
    var s2 := PushEnds(s1, s1.count);
    ReachableChain(Moves, s, s1, s2);
    t := Apply(s2, EndsPushed);
    ReachableNext(Moves, s, s2, EndsPushed, t);
    ReachableMeets(s, t);
  }

  /**
   * Shutdown queues an end for every thread counted; the manager, which goes on, then counts one off and
   * queues another end. No worker is left to take the last one, and shutdown waits for ever.
   */
  lemma LateTrimHangs(serviceThreads: nat, maxThreads: nat) returns (s: State)
    requires serviceThreads > 0 && Cap(serviceThreads, maxThreads) >= serviceThreads + 2
    ensures Reachable(Moves, Init(serviceThreads, maxThreads), s) && s.phase.Draining? && !CanFinish(s)
  {
    var init := Init(serviceThreads, maxThreads);
    var most := CapIsMet(serviceThreads, maxThreads);
    var idle := EmptyQueue(most);
    ReachableChain(Moves, init, most, idle);
    var shut := ShutDown(idle);
    ReachableChain(Moves, init, idle, shut);
    var counted := CountOne(shut);
    ReachableChain(Moves, init, shut, counted);
    s := Apply(counted, ShrinkPush);
    ReachableNext(Moves, init, counted, ShrinkPush, s);
    ReachableInv(serviceThreads, maxThreads, s);
    FinishesIffNoSurplus(s);
  }

  /** Workers other than one busy one take all the ends. */
  lemma {:induction false} OthersTakeEnds(s: State, w: nat) returns (t: State)
    requires Inv(s) && s.phase.Draining? && w < |s.workers| && s.workers[w].Busy?
    requires Live(s.workers) == Ends(s.queue) + 1 && |s.queue| == Ends(s.queue)
    ensures Reachable(Moves, s, t) && OnlyServed(s, t) && t.queue == []
    ensures w < |t.workers| && t.workers[w] == s.workers[w]
    decreases |s.queue|
  {
    if s.queue == [] {
      ReachableStart(Moves, s);
      t := s;
    } else {
      EndsAtMost(s.queue[1..]);
      var v := AnotherLive(s.workers, w);
      var s1 := GetReady(s, v);
      LiveUpdate(s.workers, v, Waiting);
      var s2 := Apply(s1, Take(v));
      ReachableNext(Moves, s, s1, Take(v), s2);
      StepKeeps(s1, Take(v));
      LiveUpdate(s1.workers, v, Exited);
      t := OthersTakeEnds(s2, w);
      ReachableChain(Moves, s, s2, t);
    }
  }

  lemma {:induction false} EndsAtMost(q: seq<Item>)
    ensures Ends(q) <= |q|
  {
    if q != [] {
      EndsAtMost(q[1..]);
    }
  }

  lemma AnotherLive(ws: seq<Worker>, w: nat) returns (v: nat)
    requires w < |ws| && !ws[w].Exited? && Live(ws) > 1
    ensures v < |ws| && v != w && !ws[v].Exited?
  {
    LiveUpdate(ws, w, Exited);
    NoneLive(ws[w := Exited]);
    v :| v < |ws| && !ws[w := Exited][v].Exited?;
  }

  /**
   * The manager has counted a thread off and not yet queued its end when shutdown counts the threads. Shutdown
   * queues one end too few, finds the queue empty and deletes the store while a worker is serving a client.
   */
  lemma OwedEndDeletesStore(serviceThreads: nat, maxThreads: nat) returns (s: State, w: nat)
    requires serviceThreads > 0 && Cap(serviceThreads, maxThreads) >= serviceThreads + 2
    ensures Reachable(Moves, Init(serviceThreads, maxThreads), s) && s.phase.Done?
    ensures w < |s.workers| && s.workers[w].Busy?
  {
    var init := Init(serviceThreads, maxThreads);
    var most := CapIsMet(serviceThreads, maxThreads);
    var idle := EmptyQueue(most);
    ReachableChain(Moves, init, most, idle);
    var served;
    served, w := ServeOne(idle);
    ReachableChain(Moves, init, idle, served);
    var counted := CountOne(served);
    ReachableChain(Moves, init, served, counted);
    ReachableInv(serviceThreads, maxThreads, counted);
    var shut := ShutDown(counted);
    ReachableChain(Moves, init, counted, shut);
    var drained := OthersTakeEnds(shut, w);
    ReachableChain(Moves, init, shut, drained);
    s := Apply(drained, FindEmpty);
    ReachableNext(Moves, init, drained, FindEmpty, s);
  }

  /** A client comes and a worker takes it. */
  lemma ServeOne(s: State) returns (t: State, w: nat)
    requires Inv(s) && s.phase.Running? && s.queue == [] && s.count > 0
    ensures Reachable(Moves, s, t) && Inv(t) && OnlyServed(s, t) && t.queue == []
    ensures w < |t.workers| && t.workers[w].Busy?
  {
    NoneLive(s.workers);
    w :| w < |s.workers| && !s.workers[w].Exited?;
    var s1 := GetReady(s, w);
    var s2 := Apply(s1, Push(0));
    ReachableNext(Moves, s, s1, Push(0), s2);
    StepKeeps(s1, Push(0));
    t := Apply(s2, Take(w));
    ReachableNext(Moves, s, s2, Take(w), t);
    StepKeeps(s2, Take(w));
  }

  /** The manager has never counted a thread off. */
  ghost predicate NoTrim(s: State) {
    && Inv(s) && Cap(s.serviceThreads, s.maxThreads) < s.serviceThreads + 2
    && s.shrinkLeft == 0 && !s.owed && EndsQueued(s.phase) <= s.count
  }

  lemma NoTrimKeeps(s: State, step: Step)
    requires NoTrim(s) && Enabled(s, step)
    ensures NoTrim(Apply(s, step))
  {
    StepKeeps(s, step);
  }

  /** With at most one thread more than configured the manager has nothing to end. */
  lemma NeverTrims(serviceThreads: nat, maxThreads: nat, s: State)
    requires Reachable(Moves, Init(serviceThreads, maxThreads), s)
    requires Cap(serviceThreads, maxThreads) < serviceThreads + 2
    ensures NoTrim(s) && s.serviceThreads == serviceThreads
  {
    InitInv(serviceThreads, maxThreads);
    forall t, step, u | NoTrim(t) && Moves(t, step, u) ensures NoTrim(u) {
      NoTrimKeeps(t, step);
    }
    ReachableKeeps(Moves, NoTrim, Init(serviceThreads, maxThreads), s);
    ReachableInv(serviceThreads, maxThreads, s);
  }

  /**
   * For which settings every shutdown can come to its end, at any point of it: when there is a worker at all,
   * and never two more than are configured.
   */
  lemma ShutdownSafeIff(serviceThreads: nat, maxThreads: nat)
    ensures (forall s :: Reachable(Moves, Init(serviceThreads, maxThreads), s) && Stopping(s) ==> CanFinish(s))
            <==> serviceThreads > 0 && Cap(serviceThreads, maxThreads) < serviceThreads + 2
  {
    if serviceThreads == 0 {
      var s := NobodyServes(maxThreads);
      assert Stopping(s) && !CanFinish(s);
    } else if Cap(serviceThreads, maxThreads) >= serviceThreads + 2 {
      var s := LateTrimHangs(serviceThreads, maxThreads);
      assert Stopping(s) && !CanFinish(s);
    } else {
      forall s | Reachable(Moves, Init(serviceThreads, maxThreads), s) && Stopping(s) ensures CanFinish(s) {
        NeverTrims(serviceThreads, maxThreads, s);
        FinishesIffNoSurplus(s);
      }
    }
  }

  /**
   * For which settings the store is never deleted under a worker: for the same, but for a server that has no
   * workers.
   */
  lemma StoreSafeIff(serviceThreads: nat, maxThreads: nat)
    ensures (forall s ::
               Reachable(Moves, Init(serviceThreads, maxThreads), s) && s.phase.Done? ==> AllExited(s.workers))
            <==> Cap(serviceThreads, maxThreads) < serviceThreads + 2
  {
    if Cap(serviceThreads, maxThreads) >= serviceThreads + 2 {
      var s, w := OwedEndDeletesStore(serviceThreads, maxThreads);
      assert !AllExited(s.workers);
    } else {
      forall s | Reachable(Moves, Init(serviceThreads, maxThreads), s) && s.phase.Done? ensures AllExited(s.workers) {
        NeverTrims(serviceThreads, maxThreads, s);
        EmptyQueueMeansDone(serviceThreads, maxThreads, s);
      }
    }
  }

  /** No worker, and none to come. */
  ghost predicate Deserted(s: State) {
    s.workers == [] && s.count <= 0 && s.spawnLeft == 0 && s.queue != [] && Stopping(s)
  }

  lemma DesertedStays(s: State, step: Step)
    requires Deserted(s) && Enabled(s, step)
    ensures Deserted(Apply(s, step))
  {
  }

  /** Without any worker a queued client stays, and shutdown waits for it. */
  lemma NobodyServes(maxThreads: nat) returns (s: State)
    ensures Reachable(Moves, Init(0, maxThreads), s) && Stopping(s) && !CanFinish(s)
  {
    var init := Init(0, maxThreads);
    ReachableStart(Moves, init);
    var s1 := Apply(init, Push(0));
    ReachableNext(Moves, init, init, Push(0), s1);
    s := Apply(s1, Shutdown);
    ReachableNext(Moves, init, s1, Shutdown, s);
    assert Deserted(s);
    forall t, step, u | Deserted(t) && Moves(t, step, u) ensures Deserted(u) {
      DesertedStays(t, step);
    }
    forall t | Reachable(Moves, s, t) ensures Deserted(t) {
      ReachableKeeps(Moves, Deserted, s, t);
    }
  }
}
