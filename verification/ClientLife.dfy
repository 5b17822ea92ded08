/** What becomes of a client of the select loop: the places it passes through, and where it ends. */
module ClientLife {
  import opened Runs
  import opened SelectLoop

  /** Where a client is: nowhere, in the set select looks at, in the service queue, or in a worker's hands. */
  datatype Place = Absent | Watched | Queued | Served | Ending | Returned

  ghost predicate Serves(workers: seq<Worker>, fd: int) {
    exists w :: 0 <= w < |workers| && workers[w] == Serving(fd)
  }

  ghost predicate Ends(workers: seq<Worker>, fd: int) {
    exists w :: 0 <= w < |workers| && workers[w] == Closing(fd)
  }

  ghost predicate At(s: State, fd: int, p: Place) {
    match p
    case Absent => fd !in s.open
    case Watched => fd in s.watched
    case Queued => fd in s.queue
    case Served => Serves(s.workers, fd)
    case Ending => Ends(s.workers, fd)
    case Returned => Returns(s.workers, fd)
  }

  /** The scan has come to this client, which select has reported. */
  predicate ScannedNow(s: State, fd: int) {
    s.loop.Scanning? && s.loop.i == fd && fd in s.loop.ready.clients
  }

  /** A connection is accepted: one waits and there is room for it. */
  predicate Accepts(s: State) {
    s.loop.AtListen? && s.loop.ready.listen && s.count < s.maxConnections
  }

  /** The step is the worker's that has this client. */
  predicate OfWorker(s: State, w: nat, fd: int) {
    w < |s.workers| && Holds(s.workers[w], fd)
  }

  /** The only ways from one place to another. */
  predicate Passes(s: State, step: Step, fd: int, p: Place, q: Place) {
    match (p, q)
    case (Absent, Queued) => step == Listen(fd) && Accepts(s)
    case (Watched, Queued) => step == Scan(true) && ScannedNow(s, fd)
    case (Watched, Absent) => (step == Scan(false) && ScannedNow(s, fd)) || (Closes(s, step) && fd in s.toClose)
    case (Queued, Served) => step.Take? && s.queue != [] && s.queue[0] == fd
    case (Served, Ending) => step.CloseStart? && OfWorker(s, step.w, fd)
    case (Served, Returned) => step.Deactivate? && OfWorker(s, step.w, fd)
    case (Ending, Absent) => step.CloseSocket? && OfWorker(s, step.w, fd)
    case (Returned, Watched) => step.WatchAgain? && OfWorker(s, step.w, fd)
    case _ => false
  }

  ghost predicate Stays(s: State, step: Step, fd: int, p: Place) {
    forall q :: !Passes(s, step, fd, p, q)
  }

  // ---- One place ----

  /** A client is in one place at a time, and always in one. */
  lemma OnePlace(s: State, fd: int, p: Place, q: Place)
    requires Inv(s) && At(s, fd, p) && At(s, fd, q)
    ensures p == q
  {
    HeldIfAt(s.workers, fd);
    if p.Absent? || q.Absent? {
    } else if Held(s.workers, fd) {
      assert !p.Watched? && !p.Queued? && !q.Watched? && !q.Queued?;
      SameWorker(s, fd, p, q);
    }
  }

  lemma HeldIfAt(workers: seq<Worker>, fd: int)
    ensures Held(workers, fd) <==> Serves(workers, fd) || Ends(workers, fd) || Returns(workers, fd)
  {
    if Serves(workers, fd) {
      var w :| 0 <= w < |workers| && workers[w] == Serving(fd);
      assert Holds(workers[w], fd);
    }
    if Ends(workers, fd) {
      var w :| 0 <= w < |workers| && workers[w] == Closing(fd);
      assert Holds(workers[w], fd);
    }
    if Returns(workers, fd) {
      var w :| 0 <= w < |workers| && workers[w] == Returning(fd);
      assert Holds(workers[w], fd);
    }
    if Held(workers, fd) {
      var w :| 0 <= w < |workers| && Holds(workers[w], fd);
      assert workers[w] == Serving(fd) || workers[w] == Closing(fd) || workers[w] == Returning(fd);
    }
  }

  function InHand(p: Place, fd: int): Worker {
    match p
    case Served => Serving(fd)
    case Ending => Closing(fd)
    case Returned => Returning(fd)
    case _ => Waiting
  }

  predicate IsInHand(p: Place) {
    p.Served? || p.Ending? || p.Returned?
  }

  lemma AWorkerHasIt(s: State, fd: int, p: Place) returns (w: nat)
    requires At(s, fd, p) && IsInHand(p)
    ensures w < |s.workers| && s.workers[w] == InHand(p, fd) && Holds(s.workers[w], fd)
  {
    w :| w < |s.workers| && s.workers[w] == InHand(p, fd);
  }

  lemma SameWorker(s: State, fd: int, p: Place, q: Place)
    requires OneHolder(s.workers) && At(s, fd, p) && At(s, fd, q) && IsInHand(p) && IsInHand(q)
    ensures p == q
  {
    var v := AWorkerHasIt(s, fd, p);
    var w := AWorkerHasIt(s, fd, q);
  }

  lemma SomePlace(s: State, fd: int) returns (p: Place)
    requires Inv(s)
    ensures At(s, fd, p)
  {
    HeldIfAt(s.workers, fd);
    p := if fd !in s.open then Absent
         else if fd in s.watched then Watched
         else if fd in s.queue then Queued
         else if Serves(s.workers, fd) then Served
         else if Ends(s.workers, fd) then Ending
         else Returned;
  }

  // ---- A step moves a client along one of the ways, or leaves it ----

  /** In the hands of a worker which takes no step a client stays. */
  lemma StaysInHand(s: State, t: State, w: nat, x: Worker, fd: int, p: Place)
    requires IsInHand(p) && At(s, fd, p) && w < |s.workers| && !Holds(s.workers[w], fd)
    requires t.workers == s.workers[w := x]
    ensures At(t, fd, p)
  {
    var v := AWorkerHasIt(s, fd, p);
    assert t.workers[v] == InHand(p, fd);
  }

  /** After the step the client is where the step moves it, or where it was. */
  ghost predicate Moved(s: State, step: Step, t: State, fd: int, p: Place) {
    && (forall q :: Passes(s, step, fd, p, q) ==> At(t, fd, q))
    && (Stays(s, step, fd, p) ==> At(t, fd, p))
  }

  lemma LoopMoves(s: State, step: Step, fd: int, p: Place)
    requires Enabled(s, step) && (IsLoopStep(step) || (step.Control2? && !Closes(s, step))) && At(s, fd, p)
    ensures Moved(s, step, Apply(s, step), fd, p)
  {
  }

  lemma CloseMoves(s: State, step: Step, fd: int, p: Place)
    requires Inv(s) && Enabled(s, step) && Closes(s, step) && Guard(s, step) && At(s, fd, p)
    ensures Moved(s, step, Apply(s, step), fd, p)
  {
    GoneAreWatched(s, s.toClose);
    assert fd in Gone(s, s.toClose) <==> fd in s.watched && fd in s.toClose;
    if fd in Gone(s, s.toClose) {
      OnePlace(s, fd, p, Watched);
      assert Passes(s, step, fd, p, Absent);
    }
  }

  lemma ListenMoves(s: State, client: int, fd: int, p: Place)
    requires Inv(s) && Enabled(s, Listen(client)) && At(s, fd, p)
    ensures Moved(s, Listen(client), Apply(s, Listen(client)), fd, p)
  {
    if Accepts(s) && fd == client {
      OnePlace(s, fd, p, Absent);
      assert Passes(s, Listen(client), fd, p, Queued);
    }
  }

  /** In a scan that has found a ready client it is a watched one, whose turn the scan does not skip. */
  lemma ScannedIsWatched(s: State)
    requires Inv(s) && s.loop.Scanning? && s.loop.i in s.loop.ready.clients
    ensures s.loop.i in s.watched && s.loop.i in s.open && s.conns[s.loop.i] == Meta(s.loop.i, false)
    ensures s.loop.i <= s.maxFd && Rv(s.loop.ready) != s.loop.served
  {
    assert s.loop.i in Unscanned(s.loop.ready, s.loop.i);
  }

  /** A ready client with bytes to read stays open and goes to the end of the queue, as an active one. */
  lemma ReadyIsQueued(s: State, t: State, fd: int)
    requires Inv(s) && Moves(s, Scan(true), t) && ScannedNow(s, fd)
    ensures t == s.(loop := t.loop, watched := s.watched - {fd}, queue := s.queue + [fd],
                    conns := s.conns[fd := Meta(fd, true)])
    ensures t.loop == Scanning(s.loop.ready, s.loop.served + 1, fd + 1)
  {
    ScannedIsWatched(s);
  }

  /** A ready client without any has hung up: it is closed, forgotten and counted off. */
  lemma HungUpIsClosed(s: State, t: State, fd: int)
    requires Inv(s) && Moves(s, Scan(false), t) && ScannedNow(s, fd)
    ensures t == s.(loop := t.loop, watched := s.watched - {fd}, open := s.open - {fd}, conns := s.conns - {fd},
                    count := s.count - 1)
    ensures t.loop == Scanning(s.loop.ready, s.loop.served + 1, fd + 1)
  {
    ScannedIsWatched(s);
  }

  lemma ScanPassesOver(s: State, t: State, bytes: bool)
    requires Inv(s) && Moves(s, Scan(bytes), t) && s.loop.i !in s.loop.ready.clients
    ensures t == s.(loop := t.loop)
  {
  }

  lemma ScanMoves(s: State, bytes: bool, fd: int, p: Place)
    requires Inv(s) && Enabled(s, Scan(bytes)) && At(s, fd, p)
    ensures Moved(s, Scan(bytes), Apply(s, Scan(bytes)), fd, p)
  {
    var t, i := Apply(s, Scan(bytes)), s.loop.i;
    if i !in s.loop.ready.clients {
      ScanPassesOver(s, t, bytes);
    } else {
      ScannedMoves(s, t, bytes, fd, p);
    }
  }

  lemma ScannedMoves(s: State, t: State, bytes: bool, fd: int, p: Place)
    requires Inv(s) && Moves(s, Scan(bytes), t) && At(s, fd, p) && ScannedNow(s, s.loop.i)
    ensures Moved(s, Scan(bytes), t, fd, p)
  {
    var i := s.loop.i;
    ScannedIsWatched(s);
    if bytes {
      ReadyIsQueued(s, t, i);
    } else {
      HungUpIsClosed(s, t, i);
    }
    if fd == i {
      OnePlace(s, fd, p, Watched);
      assert Passes(s, Scan(bytes), fd, p, if bytes then Queued else Absent);
    }
  }

  lemma TakeMoves(s: State, w: nat, fd: int, p: Place)
    requires Inv(s) && Enabled(s, Take(w)) && At(s, fd, p)
    ensures Moved(s, Take(w), Apply(s, Take(w)), fd, p)
  {
    var t := Apply(s, Take(w));
    if fd == s.queue[0] {
      OnePlace(s, fd, p, Queued);
      assert t.workers[w] == Serving(fd);
      assert Passes(s, Take(w), fd, p, Served);
    } else if IsInHand(p) {
      StaysInHand(s, t, w, Serving(s.queue[0]), fd, p);
    } else if p.Queued? {
      var i :| 0 <= i < |s.queue| && s.queue[i] == fd;
      assert t.queue[i - 1] == fd;
    }
  }

  lemma WorkerMoves(s: State, step: Step, fd: int, p: Place)
    requires Inv(s) && Enabled(s, step) && IsWorkerStep(step) && !step.Take? && At(s, fd, p)
    ensures Moved(s, step, Apply(s, step), fd, p)
  {
    var t, w := Apply(s, step), step.w;
    if Holds(s.workers[w], fd) {
      var q := if s.workers[w].Serving? then Served else if s.workers[w].Closing? then Ending else Returned;
      assert s.workers[w] == InHand(q, fd);
      OnePlace(s, fd, p, q);
      var r := if step.CloseStart? then Ending
               else if step.Deactivate? then Returned
               else if step.CloseSocket? then Absent
               else Watched;
      assert OfWorker(s, w, fd) && Passes(s, step, fd, p, r);
      assert IsInHand(r) ==> t.workers[w] == InHand(r, fd);
    } else if IsInHand(p) {
      StaysInHand(s, t, w, t.workers[w], fd, p);
    } else {
      assert OfWorker(s, w, fd) == false;
    }
  }

  lemma StepMoves(s: State, step: Step, fd: int, p: Place)
    requires Inv(s) && Guard(s, step) && Enabled(s, step) && At(s, fd, p)
    ensures Moved(s, step, Apply(s, step), fd, p)
  {
    if IsLoopStep(step) || (step.Control2? && !Closes(s, step)) {
      LoopMoves(s, step, fd, p);
    } else if step.Control2? {
      CloseMoves(s, step, fd, p);
    } else if step.Listen? {
      ListenMoves(s, step.fd, fd, p);
    } else if step.Scan? {
      ScanMoves(s, step.bytes, fd, p);
    } else if step.Take? {
      TakeMoves(s, step.w, fd, p);
    } else {
      WorkerMoves(s, step, fd, p);
    }
  }

  lemma OneMove(s: State, step: Step, t: State, fd: int, p: Place, q: Place)
    requires Inv(t) && Moved(s, step, t, fd, p)
    ensures At(t, fd, q) <==> Passes(s, step, fd, p, q) || (q == p && Stays(s, step, fd, p))
  {
    if At(t, fd, q) {
      if Stays(s, step, fd, p) {
        OnePlace(t, fd, p, q);
      } else {
        var r :| Passes(s, step, fd, p, r);
        OnePlace(t, fd, q, r);
      }
    }
  }

  /**
   * The life of a client: a guarded step moves it along one of the ways above and no other, and moves it
   * whenever one is open to it.
   */
  lemma LifeCycle(s: State, step: Step, t: State, fd: int, p: Place, q: Place)
    requires Inv(s) && Guard(s, step) && Moves(s, step, t) && At(s, fd, p)
    ensures At(t, fd, q) <==> Passes(s, step, fd, p, q) || (q == p && Stays(s, step, fd, p))
  {
    GuardExact(s, step);
    StepMoves(s, step, fd, p);
    OneMove(s, step, t, fd, p, q);
  }

  /** The same throughout every guarded run from the start, with the cleaner on or off. */
  lemma RunLifeCycle(ss: seq<State>, steps: seq<Step>, k: nat, cleaner: bool, workers: nat, maxConnections: nat,
                     maxFd: nat, fd: int, p: Place, q: Place)
    requires IsRun(Moves, ss, steps) && ss[0] == Init(cleaner, workers, maxConnections, maxFd) && k < |steps|
    requires Guarded(ss, steps, k + 1) && At(ss[k], fd, p)
    ensures At(ss[k + 1], fd, q) <==> Passes(ss[k], steps[k], fd, p, q) || (q == p && Stays(ss[k], steps[k], fd, p))
  {
    InitInv(cleaner, workers, maxConnections, maxFd);
    RunInv(ss, steps, k);
    assert Moves(ss[k], steps[k], ss[k + 1]);
    LifeCycle(ss[k], steps[k], ss[k + 1], fd, p, q);
  }

  /** What the scan makes of a client select has reported, in every guarded run. */
  lemma ReportedIsQueuedOrClosed(ss: seq<State>, steps: seq<Step>, k: nat, cleaner: bool, workers: nat,
                                 maxConnections: nat, maxFd: nat, fd: int)
    requires IsRun(Moves, ss, steps) && ss[0] == Init(cleaner, workers, maxConnections, maxFd) && k < |steps|
    requires Guarded(ss, steps, k) && ScannedNow(ss[k], fd)
    ensures steps[k] == Scan(true) ==>
              var s, t := ss[k], ss[k + 1];
              && t.queue == s.queue + [fd] && t.watched == s.watched - {fd} && t.conns == s.conns[fd := Meta(fd, true)]
              && fd in s.open && t.open == s.open && t.count == s.count
    ensures steps[k] == Scan(false) ==>
              var s, t := ss[k], ss[k + 1];
              && t.queue == s.queue && t.watched == s.watched - {fd} && t.conns == s.conns - {fd}
              && fd in s.open && t.open == s.open - {fd} && t.count == s.count - 1
  {
    InitInv(cleaner, workers, maxConnections, maxFd);
    RunInv(ss, steps, k);
    assert Moves(ss[k], steps[k], ss[k + 1]);
    ScannedIsWatched(ss[k]);
    if steps[k] == Scan(true) {
      ReadyIsQueued(ss[k], ss[k + 1], fd);
    } else if steps[k] == Scan(false) {
      HungUpIsClosed(ss[k], ss[k + 1], fd);
    }
  }

  /** A connection is accepted, queued and counted while there is room; at the limit it is turned away. */
  lemma AcceptedWhileRoom(s: State, t: State, fd: int)
    requires Inv(s) && Moves(s, Listen(fd), t) && s.loop.ready.listen
    ensures s.count < s.maxConnections ==>
              && t.open == s.open + {fd} && fd !in s.open && t.count == s.count + 1 && fd <= t.maxFd
              && t.queue == s.queue + [fd] && t.conns == s.conns[fd := Meta(fd, true)] && t.watched == s.watched
              && t.aged == s.aged - {fd} && t.loop == Scanning(s.loop.ready, s.loop.served + 1, 0)
    ensures s.count == s.maxConnections ==> t == s.(loop := Copying)
  {
  }

  // ---- The queue ----

  function Takes(steps: seq<Step>): nat {
    if steps == [] then 0 else Takes(steps[..|steps| - 1]) + Bit(steps[|steps| - 1].Take?)
  }

  lemma StepInOrder(s: State, step: Step, t: State)
    requires Moves(s, step, t)
    ensures if step.Take? then s.queue != [] && t.queue == s.queue[1..] else s.queue <= t.queue
  {
    if step.Scan? {
      ScanInOrder(s, step.bytes, t);
    }
  }

  lemma ScanInOrder(s: State, bytes: bool, t: State)
    requires Moves(s, Scan(bytes), t)
    ensures s.queue <= t.queue
  {
  }

  lemma TakesNext(steps: seq<Step>, j: nat, k: nat)
    requires j < k <= |steps|
    ensures Takes(steps[j..k]) == Takes(steps[j..k - 1]) + Bit(steps[k - 1].Take?)
  {
    assert steps[j..k][..k - 1 - j] == steps[j..k - 1];
  }

  /** What is left of a queue, once one more may have been taken from its front and others put behind it. */
  lemma RestInOrder(q: seq<int>, n: nat, u: seq<int>, take: bool, v: seq<int>)
    requires n + Bit(take) <= |q| && q[n..] <= u
    requires if take then u != [] && v == u[1..] else u <= v
    ensures q[n + Bit(take)..] <= v
  {
  }

  /** First in, first out: as many clients as were taken since have left the front, and new ones came behind. */
  lemma {:induction false} TakenInOrder(ss: seq<State>, steps: seq<Step>, j: nat, k: nat)
    requires IsRun(Moves, ss, steps) && j <= k < |ss| && Takes(steps[j..k]) <= |ss[j].queue|
    ensures ss[j].queue[Takes(steps[j..k])..] <= ss[k].queue
  {
    if j < k {
      TakesNext(steps, j, k);
      TakenInOrder(ss, steps, j, k - 1);
      var s, step, t := ss[k - 1], steps[k - 1], ss[k];
      assert Moves(s, step, t);
      StepInOrder(s, step, t);
      RestInOrder(ss[j].queue, Takes(steps[j..k - 1]), s.queue, step.Take?, t.queue);
    }
  }

  // ---- Where a client ends ----

  /** Its own worker closes it; the loop closes it, listed and inactive; or the scan finds that it has hung up. */
  predicate EndsIt(s: State, step: Step, fd: int) {
    || (step.CloseSocket? && step.w < |s.workers| && s.workers[step.w] == Closing(fd))
    || (Closes(s, step) && fd in s.toClose && fd in s.conns && !s.conns[fd].active)
    || (step == Scan(false) && ScannedNow(s, fd))
  }

  lemma OnlyEndingCloses(s: State, step: Step, t: State, fd: int)
    requires Moves(s, step, t) && fd in s.open && fd !in t.open
    ensures EndsIt(s, step, fd)
  {
    if step.Scan? {
      assert step == Scan(false);
    }
  }

  /** In any run at all, a client that is open at one time and not at a later one was ended in between. */
  lemma {:induction false} ClosedByAnEnding(ss: seq<State>, steps: seq<Step>, j: nat, k: nat, fd: int)
    requires IsRun(Moves, ss, steps) && j <= k < |ss| && fd in ss[j].open && fd !in ss[k].open
    ensures exists m :: j <= m < k && EndsIt(ss[m], steps[m], fd)
  {
    if fd in ss[k - 1].open {
      assert Moves(ss[k - 1], steps[k - 1], ss[k]);
      OnlyEndingCloses(ss[k - 1], steps[k - 1], ss[k], fd);
    } else {
      ClosedByAnEnding(ss, steps, j, k - 1, fd);
    }
  }

  // ---- A queued client can be served ----

  ghost predicate CanBeServed(s: State, fd: int) {
    exists t :: Reachable(Moves, s, t) && Inv(t) && Serves(t.workers, fd)
  }

  lemma ServedLater(s: State, step: Step, fd: int)
    requires Enabled(s, step) && CanBeServed(Apply(s, step), fd)
    ensures CanBeServed(s, fd)
  {
    var t :| Reachable(Moves, Apply(s, step), t) && Inv(t) && Serves(t.workers, fd);
    ReachableStart(Moves, s);
    ReachableNext(Moves, s, s, step, Apply(s, step));
    ReachableChain(Moves, s, Apply(s, step), t);
  }

  lemma WorkerStepKeepsInv(s: State, step: Step)
    requires Inv(s) && Enabled(s, step) && IsWorkerStep(step)
    ensures Inv(Apply(s, step))
  {
    GuardExact(s, step);
  }

  /** Steps until a worker waits again. */
  function Until(w: Worker): nat {
    match w
    case Waiting => 0
    case CountingDown => 1
    case Returning(_) => 1
    case Closing(_) => 2
    case Serving(_) => 3
  }

  /** The step by which worker 0 goes on with what it is doing. */
  function GoingOn(w: Worker): Step
    requires !w.Waiting?
  {
    match w
    case CountingDown => CountDown(0)
    case Returning(_) => WatchAgain(0)
    case Closing(_) => CloseSocket(0)
    case Serving(_) => CloseStart(0)
  }

  /** From every state of the invariant, with any worker, some run gets a queued client served. */
  lemma {:induction false} QueuedCanBeServed(s: State, fd: int)
    requires Inv(s) && |s.workers| > 0 && fd in s.queue
    ensures CanBeServed(s, fd)
    decreases |s.queue|, Until(s.workers[0]) + 1
  {
    var w := s.workers[0];
    if w.Waiting? {
      TakeNext(s, fd);
    } else {
      var step := GoingOn(w);
      WorkerStepKeepsInv(s, step);
      QueuedCanBeServed(Apply(s, step), fd);
      ServedLater(s, step, fd);
    }
  }

  lemma TakeNext(s: State, fd: int)
    requires Inv(s) && |s.workers| > 0 && fd in s.queue && s.workers[0].Waiting?
    ensures CanBeServed(s, fd)
    decreases |s.queue|, 0
  {
    var t := Apply(s, Take(0));
    WorkerStepKeepsInv(s, Take(0));
    if fd == s.queue[0] {
      assert t.workers[0] == Serving(fd);
      ReachableStart(Moves, t);
    } else {
      QueuedCanBeServed(t, fd);
    }
    ServedLater(s, Take(0), fd);
  }

  /** From a state in which the loop is about to copy the set, a watched client that sends bytes can be served. */
  lemma WatchedCanBeServed(s: State, fd: int)
    requires Inv(s) && |s.workers| > 0 && s.loop.Copying? && fd in s.watched
    ensures CanBeServed(s, fd)
  {
    var r := Ready({fd}, false, false, false);
    assert fd in s.open;
    var s1 := s.(loop := Selecting(s.watched));
    var s2 := s.(loop := AtControl(r));
    var s3 := s.(loop := AtControl2(r, 0));
    var s4 := s.(loop := AtListen(r, 0));
    var s5 := s.(loop := Scanning(r, 0, 0));
    assert Unscanned(r, 0) == {fd};
    LoopMovesOn(s, s5.loop);
    ReportedCanBeServed(s5, fd);
    ServedLater(s4, Listen(0), fd);
    ServedLater(s3, Control2, fd);
    ServedLater(s2, Control, fd);
    ServedLater(s1, SelectReturns(r), fd);
    ServedLater(s, Copy, fd);
  }

  lemma {:induction false} ReportedCanBeServed(s: State, fd: int)
    requires Inv(s) && |s.workers| > 0 && s.loop.Scanning? && s.loop.i <= fd
    requires s.loop.ready == Ready({fd}, false, false, false)
    ensures CanBeServed(s, fd)
    decreases fd - s.loop.i
  {
    var t := Apply(s, Scan(true));
    GuardExact(s, Scan(true));
    assert fd in Unscanned(s.loop.ready, s.loop.i);
    if s.loop.i == fd {
      ReadyIsQueued(s, t, fd);
      QueuedCanBeServed(t, fd);
    } else {
      assert fd in s.watched && fd in s.open;
      ReportedCanBeServed(t, fd);
    }
    ServedLater(s, Scan(true), fd);
  }

  // ---- Whom the cleaner lists ----

  /** The client's time of last use is set. */
  predicate Uses(s: State, step: Step, fd: int) {
    || (step == Listen(fd) && Accepts(s))
    || (step.Deactivate? && step.w < |s.workers| && s.workers[step.w] == Serving(fd))
  }

  ghost predicate OldSince(ss: seq<State>, steps: seq<Step>, g: nat, k: nat, fd: int) {
    && g < k <= |steps| <= |ss| && steps[g] == GrowOld(fd)
    && forall m :: g < m < k ==> !Uses(ss[m], steps[m], fd)
  }

  ghost predicate ListedAt(ss: seq<State>, steps: seq<Step>, m: nat, fd: int) {
    && m < |steps| <= |ss| && steps[m].Collect? && fd in steps[m].clients
    && fd in ss[m].conns && !ss[m].conns[fd].active && fd in ss[m].aged
  }

  lemma AgedStep(s: State, step: Step, t: State, fd: int)
    requires Moves(s, step, t) && fd in t.aged
    ensures step == GrowOld(fd) || (fd in s.aged && !Uses(s, step, fd))
  {
    if step.Scan? {
      ScanLeavesAges(s, step.bytes, t);
    }
  }

  lemma ScanLeavesAges(s: State, bytes: bool, t: State)
    requires Moves(s, Scan(bytes), t)
    ensures t.aged == s.aged && t.toClose == s.toClose
  {
  }

  lemma {:induction false} AgedGrewOld(ss: seq<State>, steps: seq<Step>, k: nat, fd: int)
    requires IsRun(Moves, ss, steps) && k < |ss| && ss[0].aged == {} && fd in ss[k].aged
    ensures exists g: nat :: OldSince(ss, steps, g, k, fd)
  {
    assert k > 0;
    assert Moves(ss[k - 1], steps[k - 1], ss[k]);
    AgedStep(ss[k - 1], steps[k - 1], ss[k], fd);
    if steps[k - 1] == GrowOld(fd) {
      assert OldSince(ss, steps, k - 1, k, fd);
    } else {
      AgedGrewOld(ss, steps, k - 1, fd);
      var g: nat :| OldSince(ss, steps, g, k - 1, fd);
      assert OldSince(ss, steps, g, k, fd);
    }
  }

  lemma {:induction false} ListedOnce(ss: seq<State>, steps: seq<Step>, k: nat, fd: int)
    requires IsRun(Moves, ss, steps) && k < |ss| && ss[0].toClose == [] && fd in ss[k].toClose
    ensures exists m: nat :: m < k && ListedAt(ss, steps, m, fd)
  {
    assert k > 0;
    assert Moves(ss[k - 1], steps[k - 1], ss[k]);
    if steps[k - 1].Collect? {
      assert ListedAt(ss, steps, k - 1, fd);
    } else {
      ListedStep(ss[k - 1], steps[k - 1], ss[k]);
      ListedOnce(ss, steps, k - 1, fd);
    }
  }

  lemma ListedStep(s: State, step: Step, t: State)
    requires Moves(s, step, t) && !step.Collect?
    ensures t.toClose == s.toClose || t.toClose == []
  {
    if step.Scan? {
      ScanLeavesAges(s, step.bytes, t);
    }
  }

  /**
   * In every run, a client listed for closing was inactive when the cleaner listed it, and had grown old
   * before that without having been used in between.
   */
  lemma ListedWasOld(ss: seq<State>, steps: seq<Step>, k: nat, cleaner: bool, workers: nat, maxConnections: nat,
                     maxFd: nat, fd: int)
    requires IsRun(Moves, ss, steps) && ss[0] == Init(cleaner, workers, maxConnections, maxFd) && k < |ss|
    requires fd in ss[k].toClose
    ensures exists g: nat, m: nat :: m < k && ListedAt(ss, steps, m, fd) && OldSince(ss, steps, g, m, fd)
  {
    ListedOnce(ss, steps, k, fd);
    var m: nat :| m < k && ListedAt(ss, steps, m, fd);
    AgedGrewOld(ss, steps, m, fd);
    var g: nat :| OldSince(ss, steps, g, m, fd);
  }
}
