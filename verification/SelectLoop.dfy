/**
 * The select loop, the worker threads and the keep-alive cleaner as one interleaved transition system. A
 * step is a locked section, or a stretch of code no other thread can observe half-way.
 */
module SelectLoop {
  import opened Runs

  /** An entry of the connection map; `socket` is -1 once the worker has started to close it. */
  datatype Meta = Meta(socket: int, active: bool)

  /** What a worker is doing. It refers to a client by the address of its map entry, that is by its key. */
  datatype Worker =
    | Waiting
    | Serving(fd: int)
    | Closing(fd: int)
    | CountingDown
    | Returning(fd: int)

  /** What select reported: client descriptors, the two control pipes and the listening socket. */
  datatype Ready = Ready(clients: set<int>, control: bool, control2: bool, listen: bool)

  /** Where the loop stands. */
  datatype Loop =
    | Copying
    | Selecting(snapshot: set<int>)
    | AtControl(ready: Ready)
    | AtControl2(ready: Ready, served: nat)
    | AtListen(ready: Ready, served: nat)
    | Scanning(ready: Ready, served: nat, i: int)

  datatype State = State(
    cleaner: bool,
    maxConnections: int,
    watched: set<int>,          // connection_fds, without the control pipes and the listening socket
    conns: map<int, Meta>,      // conn_map
    aged: set<int>,             // keys whose last use lies the keep-alive time back
    queue: seq<int>,            // service_q, by key
    open: set<int>,             // the kernel's open client descriptors
    readFdsCalled: bool,
    pipe: nat,                  // bytes unread in the control pipe
    stash: nat,                 // bytes read ahead by stdio, which select cannot see
    pipe2: nat,
    toClose: seq<int>,          // clients_to_close
    loop: Loop,
    workers: seq<Worker>,
    count: int,                 // current_connections
    maxFd: int,
    fault: bool)                // an entry or a descriptor was used after it was gone

  datatype Step =
    | Copy
    | SelectReturns(ready: Ready)
    | SelectFails
    | Control
    | Control2
    | Listen(fd: int)
    | Scan(bytes: bool)
    | Take(w: nat)
    | CloseStart(w: nat)
    | CloseSocket(w: nat)
    | CountDown(w: nat)
    | Deactivate(w: nat)
    | WatchAgain(w: nat)
    | GrowOld(fd: int)
    | Collect(clients: seq<int>)

  function Bit(b: bool): nat {
    if b then 1 else 0
  }

  /** The value select returned. */
  function Rv(r: Ready): nat {
    |r.clients| + Bit(r.control) + Bit(r.control2) + Bit(r.listen)
  }

  predicate Enabled(s: State, step: Step) {
    match step
    case Copy => s.loop.Copying?
    case SelectReturns(r) =>
      // Ready descriptors are among those asked for, and a pipe is ready only with a byte in it.
      && s.loop.Selecting? && r.clients <= s.loop.snapshot && Rv(r) > 0
      && (r.control ==> s.pipe > 0) && (r.control2 ==> s.pipe2 > 0)
    case SelectFails => s.loop.Selecting?
    case Control => s.loop.AtControl?
    case Control2 => s.loop.AtControl2?
    case Listen(fd) => s.loop.AtListen? && (s.loop.ready.listen ==> fd >= 0 && fd !in s.open)
    case Scan(_) => s.loop.Scanning?
    case Take(w) => w < |s.workers| && s.workers[w].Waiting? && s.queue != []
    case CloseStart(w) => w < |s.workers| && s.workers[w].Serving?
    case CloseSocket(w) => w < |s.workers| && s.workers[w].Closing?
    case CountDown(w) => w < |s.workers| && s.workers[w].CountingDown?
    case Deactivate(w) => w < |s.workers| && s.workers[w].Serving?
    case WatchAgain(w) => w < |s.workers| && s.workers[w].Returning?
    case GrowOld(fd) => fd in s.conns
    case Collect(clients) =>
      && s.cleaner && s.toClose == [] && clients != []
      && forall fd :: fd in clients ==> fd in s.conns && !s.conns[fd].active && s.conns[fd].socket > 0 && fd in s.aged
  }

  /** The listed clients whose entries are inactive. */
  function Gone(s: State, clients: seq<int>): set<int> {
    set fd | fd in clients && fd in s.conns && !s.conns[fd].active
  }

  /** `close_clients`: all listed descriptors leave the set, the inactive ones are closed and forgotten. */
  function CloseClients(s: State, clients: seq<int>): State {
    var gone := Gone(s, clients);
    s.(watched := s.watched - (set fd | fd in clients), open := s.open - gone, conns := s.conns - gone,
       count := s.count - |gone|, toClose := [])
  }

  /** The scan's work on a ready descriptor. */
  function HandleClient(s: State, fd: int, bytes: bool): State {
    if fd in s.conns && s.conns[fd].active then s
    else if !bytes then
      s.(watched := s.watched - {fd}, open := s.open - {fd}, conns := s.conns - {fd}, count := s.count - 1,
         fault := s.fault || fd !in s.open)
    else
      s.(watched := s.watched - {fd}, queue := s.queue + [fd],
         conns := s.conns[fd := Meta(if fd in s.conns then s.conns[fd].socket else 0, true)],
         fault := s.fault || fd !in s.conns)
  }

  function Apply(s: State, step: Step): State
    requires Enabled(s, step)
  {
    match step
    case Copy => s.(loop := Selecting(s.watched))
    case SelectReturns(r) => s.(loop := AtControl(r))
    case SelectFails => s.(loop := Copying)
    case Control =>
      // One byte is taken; stdio reads ahead whatever else is in the pipe.
      var r := s.loop.ready;
      if !r.control then s.(loop := AtControl2(r, 0))
      else
        var t := s.(readFdsCalled := false,
                    stash := if s.stash > 0 then s.stash - 1 else if s.pipe > 0 then s.pipe - 1 else 0,
                    pipe := if s.stash > 0 then s.pipe else 0);
        t.(loop := if Rv(r) == 1 then Copying else AtControl2(r, 1))
    case Control2 =>
      var r := s.loop.ready;
      if !r.control2 then s.(loop := AtListen(r, s.loop.served))
      else CloseClients(s.(pipe2 := 0, loop := AtListen(r, s.loop.served + 1)), s.toClose)
    case Listen(fd) =>
      var r := s.loop.ready;
      if !r.listen then s.(loop := Scanning(r, s.loop.served, 0))
      else if s.count >= s.maxConnections then s.(loop := Copying)
      else s.(maxFd := if fd > s.maxFd then fd else s.maxFd, open := s.open + {fd},
              conns := s.conns[fd := Meta(fd, true)], aged := s.aged - {fd},
              count := s.count + 1, queue := s.queue + [fd], loop := Scanning(r, s.loop.served + 1, 0))
    case Scan(bytes) =>
      var Scanning(r, served, i) := s.loop;
      if i > s.maxFd || Rv(r) == served then s.(loop := Copying)
      else if i !in r.clients then s.(loop := Scanning(r, served, i + 1))
      else HandleClient(s.(loop := Scanning(r, served + 1, i + 1)), i, bytes)
    case Take(w) =>
      var fd := s.queue[0];
      s.(queue := s.queue[1..], workers := s.workers[w := Serving(fd)], fault := s.fault || fd !in s.conns)
    case CloseStart(w) =>
      var fd := s.workers[w].fd;
      s.(conns := if fd in s.conns then s.conns[fd := s.conns[fd].(socket := -1)] else s.conns,
         workers := s.workers[w := Closing(fd)], fault := s.fault || fd !in s.conns || s.conns[fd].socket != fd)
    case CloseSocket(w) =>
      var fd := s.workers[w].fd;
      s.(open := s.open - {fd}, workers := s.workers[w := CountingDown],
         fault := s.fault || fd !in s.open || fd !in s.conns)
    case CountDown(w) =>
      s.(count := s.count - 1, workers := s.workers[w := Waiting])
    case Deactivate(w) =>
      var fd := s.workers[w].fd;
      s.(conns := if fd in s.conns then s.conns[fd := s.conns[fd].(active := false)] else s.conns,
         aged := s.aged - {fd}, workers := s.workers[w := Returning(fd)], fault := s.fault || fd !in s.conns)
    case WatchAgain(w) =>
      var fd := s.workers[w].fd;
      s.(watched := s.watched + {fd}, workers := s.workers[w := Waiting],
         pipe := if s.readFdsCalled then s.pipe else s.pipe + 1, readFdsCalled := true,
         fault := s.fault || fd !in s.conns || s.conns[fd].socket != fd || fd !in s.open)
    case GrowOld(fd) => s.(aged := s.aged + {fd})
    case Collect(clients) =>
      s.(toClose := clients, pipe2 := s.pipe2 + 1)
  }

  function Init(cleaner: bool, workers: nat, maxConnections: nat, maxFd: nat): State {
    State(cleaner, maxConnections, {}, map[], {}, [], {}, false, 0, 0, 0, [], Copying,
          seq(workers, _ => Waiting), 0, maxFd, false)
  }

  ghost predicate Moves(s: State, step: Step, t: State) {
    Enabled(s, step) && t == Apply(s, step)
  }

  // ---- The invariant ----

  predicate Holds(w: Worker, fd: int) {
    (w.Serving? || w.Closing? || w.Returning?) && w.fd == fd
  }

  ghost predicate Held(workers: seq<Worker>, fd: int) {
    exists w :: 0 <= w < |workers| && Holds(workers[w], fd)
  }

  ghost predicate NoTwo(queue: seq<int>) {
    forall i, j :: 0 <= i < j < |queue| ==> queue[i] != queue[j]
  }

  ghost predicate OneHolder(workers: seq<Worker>) {
    forall v, w, fd ::
      0 <= v < |workers| && 0 <= w < |workers| && Holds(workers[v], fd) && Holds(workers[w], fd) ==> v == w
  }

  /** Each open client is watched, queued once, or held by one worker; never two of these; no other descriptor is. */
  ghost predicate Exclusive(watched: set<int>, queue: seq<int>, open: set<int>, workers: seq<Worker>) {
    && NoTwo(queue) && OneHolder(workers)
    && (forall fd :: fd in watched ==> fd in open && fd !in queue && !Held(workers, fd))
    && (forall fd :: fd in queue ==> fd in open && !Held(workers, fd))
    && (forall fd :: Held(workers, fd) ==> fd in open)
    && (forall fd :: fd in open ==> fd in watched || fd in queue || Held(workers, fd))
  }

  ghost predicate EntryOf(conns: map<int, Meta>, w: Worker) {
    match w
    case Serving(fd) => fd in conns && conns[fd] == Meta(fd, true)
    case Returning(fd) => fd in conns && conns[fd] == Meta(fd, false)
    case Closing(fd) => fd in conns && conns[fd].socket == -1
    case _ => true
  }

  /** Entries are there when used, with the right descriptor and activity. */
  ghost predicate Entries(watched: set<int>, queue: seq<int>, conns: map<int, Meta>, workers: seq<Worker>) {
    && (forall fd :: fd in watched ==> fd in conns && conns[fd] == Meta(fd, false))
    && (forall fd :: fd in queue ==> fd in conns && conns[fd] == Meta(fd, true))
    && (forall w :: 0 <= w < |workers| ==> EntryOf(conns, workers[w]))
  }

  ghost predicate Returns(workers: seq<Worker>, fd: int) {
    exists w :: 0 <= w < |workers| && workers[w] == Returning(fd)
  }

  /** An inactive entry is of a watched client, or of one being returned. */
  ghost predicate Inactives(watched: set<int>, conns: map<int, Meta>, workers: seq<Worker>) {
    forall fd :: fd in conns && !conns[fd].active ==> fd in watched || Returns(workers, fd)
  }

  /** Ready clients not yet scanned. */
  function Unscanned(r: Ready, i: int): set<int> {
    set fd | fd in r.clients && fd >= i
  }

  /** What the loop still has to look at is watched, and is exactly what it has not counted as served. */
  ghost predicate LoopSound(loop: Loop, watched: set<int>) {
    match loop
    case Copying => true
    case Selecting(snapshot) => snapshot <= watched
    case AtControl(r) => r.clients <= watched
    case AtControl2(r, served) => r.clients <= watched && served == Bit(r.control)
    case AtListen(r, served) => r.clients <= watched && served == Bit(r.control) + Bit(r.control2)
    case Scanning(r, served, i) =>
      i >= 0 && Unscanned(r, i) <= watched && Rv(r) == served + |Unscanned(r, i)|
  }

  function CountingDowns(ws: seq<Worker>): nat {
    if ws == [] then 0 else CountingDowns(ws[..|ws| - 1]) + Bit(ws[|ws| - 1].CountingDown?)
  }

  ghost predicate Counts(open: set<int>, workers: seq<Worker>, count: int, maxConnections: int, maxFd: int) {
    && count == |open| + CountingDowns(workers) && count <= maxConnections
    && forall fd :: fd in open ==> 0 <= fd <= maxFd
  }

  /** What the loop and the workers rely on. */
  ghost predicate Core(s: State) {
    && !s.fault
    && Exclusive(s.watched, s.queue, s.open, s.workers)
    && Entries(s.watched, s.queue, s.conns, s.workers)
    && LoopSound(s.loop, s.watched)
    && Counts(s.open, s.workers, s.count, s.maxConnections, s.maxFd)
  }

  ghost predicate Inv(s: State) {
    Core(s) && Inactives(s.watched, s.conns, s.workers)
  }

  /** The step reads the second control pipe and closes the listed clients. */
  predicate Closes(s: State, step: Step) {
    step.Control2? && s.loop.AtControl2? && s.loop.ready.control2
  }

  /**
   * No client the cleaner has listed is being returned by a worker, or was reported ready in the same round,
   * when the loop closes the listed ones. Every other step is free.
   */
  ghost predicate Guard(s: State, step: Step) {
    Closes(s, step) ==> forall fd :: fd in s.toClose ==> !Returns(s.workers, fd) && fd !in s.loop.ready.clients
  }

  // ---- Moving a client from one place to another ----

  lemma {:induction false} CountingDownsUpdate(ws: seq<Worker>, w: nat, x: Worker)
    requires w < |ws|
    ensures CountingDowns(ws[w := x]) == CountingDowns(ws) - Bit(ws[w].CountingDown?) + Bit(x.CountingDown?)
  {
    var last := |ws| - 1;
    if w < last {
      assert ws[w := x][..last] == ws[..last][w := x];
      CountingDownsUpdate(ws[..last], w, x);
    } else {
      assert ws[w := x][..last] == ws[..last];
    }
  }

  lemma {:induction false} NoneCountingDown(n: nat)
    ensures CountingDowns(seq(n, _ => Waiting)) == 0
  {
    if n > 0 {
      assert seq(n, _ => Waiting)[..n - 1] == seq(n - 1, _ => Waiting);
      NoneCountingDown(n - 1);
    }
  }

  lemma HeldUpdate(workers: seq<Worker>, w: nat, x: Worker, fd: int)
    requires w < |workers| && OneHolder(workers)
    ensures Held(workers[w := x], fd) <==> Holds(x, fd) || (Held(workers, fd) && !Holds(workers[w], fd))
  {
    var more := workers[w := x];
    assert more[w] == x;
    if Held(workers, fd) && !Holds(workers[w], fd) {
      var v :| 0 <= v < |workers| && Holds(workers[v], fd);
      assert Holds(more[v], fd);
    }
    if Held(more, fd) && !Holds(x, fd) {
      var v :| 0 <= v < |more| && Holds(more[v], fd);
      assert Holds(workers[v], fd);
    }
  }

  lemma HolderIsHeld(workers: seq<Worker>, w: nat)
    requires w < |workers|
    ensures workers[w].Serving? || workers[w].Closing? || workers[w].Returning? ==> Held(workers, workers[w].fd)
  {
    if workers[w].Serving? || workers[w].Closing? || workers[w].Returning? {
      assert Holds(workers[w], workers[w].fd);
    }
  }

  lemma OneHolderUpdate(workers: seq<Worker>, w: nat, x: Worker)
    requires w < |workers| && OneHolder(workers)
    requires forall fd :: Holds(x, fd) ==> Holds(workers[w], fd) || !Held(workers, fd)
    ensures OneHolder(workers[w := x])
  {
    var more := workers[w := x];
    forall v, u, fd | 0 <= v < |more| && 0 <= u < |more| && Holds(more[v], fd) && Holds(more[u], fd) ensures v == u {
      if v != w && u != w {
        assert Holds(workers[v], fd) && Holds(workers[u], fd);
      }
    }
  }

  lemma ExclusiveAppend(watched: set<int>, queue: seq<int>, open: set<int>, workers: seq<Worker>, fd: int)
    requires Exclusive(watched, queue, open, workers) && fd !in queue && !Held(workers, fd)
    ensures Exclusive(watched - {fd}, queue + [fd], open + {fd}, workers)
  {
  }

  lemma ExclusiveDrop(watched: set<int>, queue: seq<int>, open: set<int>, workers: seq<Worker>, fd: int)
    requires Exclusive(watched, queue, open, workers) && fd in watched
    ensures Exclusive(watched - {fd}, queue, open - {fd}, workers)
  {
  }

  lemma ExclusiveTake(watched: set<int>, queue: seq<int>, open: set<int>, workers: seq<Worker>, w: nat)
    requires Exclusive(watched, queue, open, workers) && queue != [] && w < |workers| && workers[w].Waiting?
    ensures Exclusive(watched, queue[1..], open, workers[w := Serving(queue[0])])
  {
    var fd := queue[0];
    OneHolderUpdate(workers, w, Serving(fd));
    forall x ensures Held(workers[w := Serving(fd)], x) <==> x == fd || Held(workers, x) {
      HeldUpdate(workers, w, Serving(fd), x);
    }
    forall x ensures x in queue <==> x == fd || x in queue[1..] {
      if x in queue {
        var i :| 0 <= i < |queue| && queue[i] == x;
        if i > 0 {
          assert queue[1..][i - 1] == x;
        }
      }
    }
    assert fd !in queue[1..];
    assert forall i :: 0 <= i < |queue[1..]| ==> queue[1..][i] == queue[i + 1];
  }

  /** A worker goes on with the client it holds. */
  lemma ExclusiveGoOn(watched: set<int>, queue: seq<int>, open: set<int>, workers: seq<Worker>, w: nat, x: Worker)
    requires Exclusive(watched, queue, open, workers) && w < |workers|
    requires forall fd :: Holds(x, fd) <==> Holds(workers[w], fd)
    ensures Exclusive(watched, queue, open, workers[w := x])
  {
    OneHolderUpdate(workers, w, x);
    forall fd ensures Held(workers[w := x], fd) <==> Held(workers, fd) {
      HeldUpdate(workers, w, x, fd);
      if Holds(workers[w], fd) {
        assert Held(workers, fd);
      }
    }
  }

  /** A worker lets go of its client, which is closed or watched again. */
  lemma ExclusiveLetGo(watched: set<int>, queue: seq<int>, open: set<int>, workers: seq<Worker>, w: nat, x: Worker,
                       fd: int)
    requires Exclusive(watched, queue, open, workers) && w < |workers| && Holds(workers[w], fd)
    requires x.Waiting? || x.CountingDown?
    ensures Exclusive(watched, queue, open - {fd}, workers[w := x])
    ensures Exclusive(watched + {fd}, queue, open, workers[w := x])
  {
    OneHolderUpdate(workers, w, x);
    assert Held(workers, fd);
    forall y ensures Held(workers[w := x], y) <==> Held(workers, y) && y != fd {
      HeldUpdate(workers, w, x, y);
    }
  }

  /** Watched clients are closed together. */
  lemma ExclusiveClose(watched: set<int>, queue: seq<int>, open: set<int>, workers: seq<Worker>, gone: set<int>)
    requires Exclusive(watched, queue, open, workers) && gone <= watched
    ensures Exclusive(watched - gone, queue, open - gone, workers)
    ensures |open - gone| == |open| - |gone|
  {
    forall fd | fd in gone ensures fd in open {
      assert fd in watched;
    }
    assert open - gone + gone == open;
  }

  lemma ReturnsUpdate(workers: seq<Worker>, w: nat, x: Worker, fd: int)
    requires w < |workers|
    ensures Returns(workers, fd) && workers[w] != Returning(fd) ==> Returns(workers[w := x], fd)
    ensures x == Returning(fd) ==> Returns(workers[w := x], fd)
  {
    var more := workers[w := x];
    assert more[w] == x;
    if Returns(workers, fd) && workers[w] != Returning(fd) {
      var v :| 0 <= v < |workers| && workers[v] == Returning(fd);
      assert more[v] == Returning(fd);
    }
  }

  /** Only the entry of a client in no other place changes. */
  lemma EntriesUpdate(watched: set<int>, queue: seq<int>, open: set<int>, conns: map<int, Meta>, workers: seq<Worker>,
                      w: nat, x: Worker, fd: int, conns': map<int, Meta>)
    requires Exclusive(watched, queue, open, workers) && Entries(watched, queue, conns, workers)
    requires w < |workers| && Holds(workers[w], fd) && EntryOf(conns', x)
    requires forall y :: y != fd && y in conns ==> y in conns' && conns'[y] == conns[y]
    ensures Entries(watched, queue, conns', workers[w := x])
  {
    assert Held(workers, fd);
    forall v | 0 <= v < |workers| && v != w ensures EntryOf(conns', workers[v]) {
      assert EntryOf(conns, workers[v]);
      assert !Holds(workers[v], fd);
    }
  }

  // ---- Each step keeps the invariant ----

  lemma InitInv(cleaner: bool, workers: nat, maxConnections: nat, maxFd: nat)
    ensures Inv(Init(cleaner, workers, maxConnections, maxFd))
  {
    NoneCountingDown(workers);
  }

  lemma ScanNext(r: Ready, i: int)
    ensures Unscanned(r, i) == Unscanned(r, i + 1) + (if i in r.clients then {i} else {})
    ensures |Unscanned(r, i)| == |Unscanned(r, i + 1)| + Bit(i in r.clients)
  {
    assert Unscanned(r, i) == Unscanned(r, i + 1) + if i in r.clients then {i} else {};
  }

  predicate IsLoopStep(step: Step) {
    step.Copy? || step.SelectReturns? || step.SelectFails? || step.Control? || step.GrowOld? || step.Collect?
  }

  lemma LoopStepKeeps(s: State, step: Step)
    requires Core(s) && Enabled(s, step) && IsLoopStep(step)
    ensures Core(Apply(s, step))
  {
  }

  /** The inactive among the listed clients are watched, by the guard, and are what is closed. */
  lemma GoneAreWatched(s: State, clients: seq<int>)
    requires Inv(s) && forall fd :: fd in clients ==> !Returns(s.workers, fd)
    ensures Gone(s, clients) <= s.watched
    ensures s.watched - Gone(s, clients) == s.watched - (set fd | fd in clients)
  {
    forall fd | fd in Gone(s, clients) ensures fd in s.watched {
      assert fd in s.conns && !s.conns[fd].active;
    }
    forall fd | fd in clients && fd in s.watched ensures fd in Gone(s, clients) {
    }
  }

  lemma ClosedEntries(s: State, gone: set<int>)
    requires Core(s) && gone <= s.watched
    ensures Entries(s.watched - gone, s.queue, s.conns - gone, s.workers)
  {
    forall w | 0 <= w < |s.workers| ensures EntryOf(s.conns - gone, s.workers[w]) {
      HolderIsHeld(s.workers, w);
      assert EntryOf(s.conns, s.workers[w]);
    }
  }

  lemma CloseClientsKeeps(s: State)
    requires Inv(s) && Enabled(s, Control2) && Closes(s, Control2) && Guard(s, Control2)
    ensures Inv(Apply(s, Control2))
  {
    var gone := Gone(s, s.toClose);
    GoneAreWatched(s, s.toClose);
    ExclusiveClose(s.watched, s.queue, s.open, s.workers, gone);
    ClosedEntries(s, gone);
    forall fd | fd in s.loop.ready.clients ensures fd in s.watched - gone {
    }
  }

  lemma ListenKeeps(s: State, fd: int)
    requires Core(s) && Enabled(s, Listen(fd))
    ensures Core(Apply(s, Listen(fd)))
  {
    var r := s.loop.ready;
    forall x | x in r.clients ensures x >= 0 {
      assert x in s.watched && x in s.open;
    }
    assert Unscanned(r, 0) == r.clients;
    if r.listen && s.count < s.maxConnections {
      AcceptKeeps(s, fd);
    }
  }

  lemma AcceptKeeps(s: State, fd: int)
    requires Core(s) && Enabled(s, Listen(fd)) && s.loop.ready.listen && s.count < s.maxConnections
    requires Unscanned(s.loop.ready, 0) == s.loop.ready.clients
    ensures Core(Apply(s, Listen(fd)))
  {
    ExclusiveAppend(s.watched, s.queue, s.open, s.workers, fd);
    assert s.watched - {fd} == s.watched;
    AcceptedEntries(s, fd);
  }

  lemma AcceptedEntries(s: State, fd: int)
    requires Core(s) && fd !in s.open
    ensures Entries(s.watched, s.queue + [fd], s.conns[fd := Meta(fd, true)], s.workers)
  {
    forall w | 0 <= w < |s.workers| ensures EntryOf(s.conns[fd := Meta(fd, true)], s.workers[w]) {
      HolderIsHeld(s.workers, w);
      assert EntryOf(s.conns, s.workers[w]);
    }
  }

  /** The scan hands a watched client to the queue or closes it: it is in no worker's hands. */
  lemma HandleClientKeeps(s: State, fd: int, bytes: bool)
    requires !s.fault && fd in s.watched
    requires Exclusive(s.watched, s.queue, s.open, s.workers) && Entries(s.watched, s.queue, s.conns, s.workers)
    requires Counts(s.open, s.workers, s.count, s.maxConnections, s.maxFd)
    ensures var t := HandleClient(s, fd, bytes);
            && !t.fault && t.watched == s.watched - {fd} && t.loop == s.loop
            && Exclusive(t.watched, t.queue, t.open, t.workers) && Entries(t.watched, t.queue, t.conns, t.workers)
            && Counts(t.open, t.workers, t.count, t.maxConnections, t.maxFd)
  {
    var t := HandleClient(s, fd, bytes);
    forall w | 0 <= w < |s.workers| ensures EntryOf(t.conns, s.workers[w]) {
      HolderIsHeld(s.workers, w);
      assert EntryOf(s.conns, s.workers[w]);
    }
    if bytes {
      ExclusiveAppend(s.watched, s.queue, s.open, s.workers, fd);
      assert s.open + {fd} == s.open;
    } else {
      ExclusiveDrop(s.watched, s.queue, s.open, s.workers, fd);
    }
  }

  lemma ScanStaysSound(r: Ready, served: nat, i: int, watched: set<int>)
    requires LoopSound(Scanning(r, served, i), watched)
    ensures i in r.clients ==> i in watched && LoopSound(Scanning(r, served + 1, i + 1), watched - {i})
    ensures i !in r.clients ==> LoopSound(Scanning(r, served, i + 1), watched)
    ensures Rv(r) == served ==> Unscanned(r, i) == {}
  {
    ScanNext(r, i);
    if i in r.clients {
      assert i in Unscanned(r, i);
    }
  }

  /** Only what the loop has to look at next changes. */
  lemma LoopMovesOn(s: State, loop: Loop)
    requires Core(s) && LoopSound(loop, s.watched)
    ensures Core(s.(loop := loop))
  {
  }

  lemma ScanKeeps(s: State, bytes: bool)
    requires Core(s) && Enabled(s, Scan(bytes))
    ensures Core(Apply(s, Scan(bytes)))
  {
    var Scanning(r, served, i) := s.loop;
    ScanStaysSound(r, served, i, s.watched);
    if i > s.maxFd || Rv(r) == served {
      LoopMovesOn(s, Copying);
    } else if i !in r.clients {
      LoopMovesOn(s, Scanning(r, served, i + 1));
    } else {
      HandleKeeps(s, r, served, i, bytes);
    }
  }

  lemma HandleKeeps(s: State, r: Ready, served: nat, i: int, bytes: bool)
    requires Core(s) && i in s.watched && LoopSound(Scanning(r, served + 1, i + 1), s.watched - {i})
    ensures Core(HandleClient(s.(loop := Scanning(r, served + 1, i + 1)), i, bytes))
  {
    HandleClientKeeps(s.(loop := Scanning(r, served + 1, i + 1)), i, bytes);
  }

  lemma TakeKeeps(s: State, w: nat)
    requires Core(s) && Enabled(s, Take(w))
    ensures Core(Apply(s, Take(w)))
  {
    ExclusiveTake(s.watched, s.queue, s.open, s.workers, w);
    CountingDownsUpdate(s.workers, w, Serving(s.queue[0]));
    assert s.queue[0] in s.queue;
  }

  lemma GoOnKeeps(s: State, step: Step)
    requires Core(s) && (step.CloseStart? || step.Deactivate?) && Enabled(s, step)
    ensures Core(Apply(s, step))
  {
    var w, t := step.w, Apply(s, step);
    var fd := s.workers[w].fd;
    assert Holds(s.workers[w], fd) && EntryOf(s.conns, s.workers[w]);
    ExclusiveGoOn(s.watched, s.queue, s.open, s.workers, w, t.workers[w]);
    EntriesUpdate(s.watched, s.queue, s.open, s.conns, s.workers, w, t.workers[w], fd, t.conns);
    CountingDownsUpdate(s.workers, w, t.workers[w]);
  }

  lemma CloseSocketKeeps(s: State, w: nat)
    requires Core(s) && Enabled(s, CloseSocket(w))
    ensures Core(Apply(s, CloseSocket(w)))
  {
    var fd := s.workers[w].fd;
    assert Holds(s.workers[w], fd) && EntryOf(s.conns, s.workers[w]) && Held(s.workers, fd);
    ExclusiveLetGo(s.watched, s.queue, s.open, s.workers, w, CountingDown, fd);
    CountingDownsUpdate(s.workers, w, CountingDown);
  }

  lemma CountDownKeeps(s: State, w: nat)
    requires Core(s) && Enabled(s, CountDown(w))
    ensures Core(Apply(s, CountDown(w)))
  {
    ExclusiveGoOn(s.watched, s.queue, s.open, s.workers, w, Waiting);
    CountingDownsUpdate(s.workers, w, Waiting);
  }

  lemma WatchAgainKeeps(s: State, w: nat)
    requires Core(s) && Enabled(s, WatchAgain(w))
    ensures Core(Apply(s, WatchAgain(w)))
  {
    var fd := s.workers[w].fd;
    assert Holds(s.workers[w], fd) && EntryOf(s.conns, s.workers[w]) && Held(s.workers, fd);
    ExclusiveLetGo(s.watched, s.queue, s.open, s.workers, w, Waiting, fd);
    CountingDownsUpdate(s.workers, w, Waiting);
  }

  lemma CoreKeeps(s: State, step: Step)
    requires Core(s) && Enabled(s, step) && !Closes(s, step)
    ensures Core(Apply(s, step))
  {
    match step
    case Copy => LoopStepKeeps(s, step);
    case SelectReturns(_) => LoopStepKeeps(s, step);
    case SelectFails => LoopStepKeeps(s, step);
    case Control => LoopStepKeeps(s, step);
    case Control2 =>
    case Listen(fd) => ListenKeeps(s, fd);
    case Scan(bytes) => ScanKeeps(s, bytes);
    case Take(w) => TakeKeeps(s, w);
    case CloseStart(_) => GoOnKeeps(s, step);
    case CloseSocket(w) => CloseSocketKeeps(s, w);
    case CountDown(w) => CountDownKeeps(s, w);
    case Deactivate(_) => GoOnKeeps(s, step);
    case WatchAgain(w) => WatchAgainKeeps(s, w);
    case GrowOld(_) => LoopStepKeeps(s, step);
    case Collect(_) => LoopStepKeeps(s, step);
  }

  predicate IsWorkerStep(step: Step) {
    step.Take? || step.CloseStart? || step.CloseSocket? || step.CountDown? || step.Deactivate? || step.WatchAgain?
  }

  lemma InactivesKeep(s: State, step: Step)
    requires Inv(s) && Enabled(s, step) && !Closes(s, step)
    ensures var t := Apply(s, step); Inactives(t.watched, t.conns, t.workers)
  {
    if IsWorkerStep(step) {
      WorkerInactivesKeep(s, step);
    }
  }

  lemma WorkerInactivesKeep(s: State, step: Step)
    requires Inv(s) && Enabled(s, step) && IsWorkerStep(step)
    ensures var t := Apply(s, step); Inactives(t.watched, t.conns, t.workers)
  {
    var t := Apply(s, step);
    assert EntryOf(s.conns, s.workers[step.w]);
    forall fd | fd in t.conns && !t.conns[fd].active ensures fd in t.watched || Returns(t.workers, fd) {
      ReturnsUpdate(s.workers, step.w, t.workers[step.w], fd);
    }
  }

  /** A step keeps the invariant if and only if it is guarded. */
  lemma GuardExact(s: State, step: Step)
    requires Inv(s) && Enabled(s, step)
    ensures Inv(Apply(s, step)) <==> Guard(s, step)
  {
    if !Closes(s, step) {
      CoreKeeps(s, step);
      InactivesKeep(s, step);
    } else if Guard(s, step) {
      CloseClientsKeeps(s);
    } else {
      UnguardedBreaks(s);
    }
  }

  /** Closing a client that is being returned takes its entry away; closing a ready one leaves the scan a dead one. */
  lemma UnguardedBreaks(s: State)
    requires Inv(s) && Enabled(s, Control2) && !Guard(s, Control2)
    ensures !Core(Apply(s, Control2))
  {
    var t := Apply(s, Control2);
    var fd :| fd in s.toClose && (Returns(s.workers, fd) || fd in s.loop.ready.clients);
    if Returns(s.workers, fd) {
      var w :| 0 <= w < |s.workers| && s.workers[w] == Returning(fd);
      assert EntryOf(s.conns, s.workers[w]);
      assert !EntryOf(t.conns, t.workers[w]);
    } else {
      assert fd !in t.watched;
    }
  }

  // ---- What holds in every reachable state ----

  ghost predicate Guarded(ss: seq<State>, steps: seq<Step>, k: nat) {
    k <= |steps| <= |ss| && forall i :: 0 <= i < k ==> Guard(ss[i], steps[i])
  }

  lemma {:induction false} RunInv(ss: seq<State>, steps: seq<Step>, k: nat)
    requires IsRun(Moves, ss, steps) && Inv(ss[0]) && k < |ss| && Guarded(ss, steps, k)
    ensures Inv(ss[k])
  {
    if k > 0 {
      RunInv(ss, steps, k - 1);
      assert Moves(ss[k - 1], steps[k - 1], ss[k]);
      GuardExact(ss[k - 1], steps[k - 1]);
    }
  }

  /** Without the cleaner nothing is ever listed. */
  predicate CleanerOff(s: State) {
    !s.cleaner && s.toClose == []
  }

  lemma CleanerOffGuarded(ss: seq<State>, steps: seq<Step>, k: nat)
    requires IsRun(Moves, ss, steps) && CleanerOff(ss[0]) && k < |ss|
    ensures CleanerOff(ss[k]) && Guarded(ss, steps, k)
  {
    forall i | 0 <= i <= k ensures CleanerOff(ss[i]) {
      RunKeeps(Moves, CleanerOff, ss, steps, i);
    }
  }

  /** In how many places a client is. */
  function Occurrences(q: seq<int>, fd: int): nat {
    multiset(q)[fd]
  }

  ghost function Holders(workers: seq<Worker>, fd: int): set<nat> {
    set w: nat | w < |workers| && Holds(workers[w], fd)
  }

  ghost function Places(s: State, fd: int): nat {
    Bit(fd in s.watched) + Occurrences(s.queue, fd) + |Holders(s.workers, fd)|
  }

  lemma {:induction false} OccursOnce(q: seq<int>, fd: int)
    requires NoTwo(q)
    ensures Occurrences(q, fd) == Bit(fd in q)
  {
    if q != [] {
      var init, last := q[..|q| - 1], q[|q| - 1];
      assert q == init + [last];
      OccursOnce(init, fd);
    }
  }

  lemma HeldOnce(workers: seq<Worker>, fd: int)
    requires OneHolder(workers)
    ensures |Holders(workers, fd)| == if Held(workers, fd) then 1 else 0
  {
    if Held(workers, fd) {
      var w: nat :| w < |workers| && Holds(workers[w], fd);
      assert Holders(workers, fd) == {w};
    } else {
      assert Holders(workers, fd) == {};
    }
  }

  /** Every open client is in exactly one place, and every other descriptor in none. */
  ghost predicate HandedOff(s: State) {
    && (forall fd :: Places(s, fd) == Bit(fd in s.open))
    && |s.open| <= s.count <= s.maxConnections
    && !s.fault
  }

  lemma InvHandedOff(s: State)
    requires Inv(s)
    ensures HandedOff(s)
  {
    forall fd ensures Places(s, fd) == Bit(fd in s.open) {
      OccursOnce(s.queue, fd);
      HeldOnce(s.workers, fd);
    }
  }

  /**
   * Exclusive hand-off: in every guarded run, with the cleaner on or off, every open client is in exactly one
   * place, every other descriptor in none; no more clients are open than allowed; nothing is used after it is
   * gone.
   */
  lemma ExclusiveHandOff(ss: seq<State>, steps: seq<Step>, k: nat, cleaner: bool, workers: nat, maxConnections: nat,
                         maxFd: nat)
    requires IsRun(Moves, ss, steps) && ss[0] == Init(cleaner, workers, maxConnections, maxFd) && k < |ss|
    requires Guarded(ss, steps, k)
    ensures HandedOff(ss[k])
  {
    InitInv(cleaner, workers, maxConnections, maxFd);
    RunInv(ss, steps, k);
    InvHandedOff(ss[k]);
  }

  /** With the cleaner off every run is guarded, and the hand-off exclusive in every reachable state. */
  lemma HandOffWithoutCleaner(workers: nat, maxConnections: nat, maxFd: nat, s: State)
    requires Reachable(Moves, Init(false, workers, maxConnections, maxFd), s)
    ensures HandedOff(s)
  {
    var init := Init(false, workers, maxConnections, maxFd);
    var ss, steps :| IsRun(Moves, ss, steps) && ss[0] == init && ss[|steps|] == s;
    CleanerOffGuarded(ss, steps, |steps|);
    ExclusiveHandOff(ss, steps, |steps|, false, workers, maxConnections, maxFd);
  }

  /**
   * The scan leaves no ready client out: when it ends, early or at the largest descriptor, none is left;
   * and it never meets one that a worker is still serving.
   */
  lemma ScanSkipsNone(ss: seq<State>, steps: seq<Step>, k: nat, cleaner: bool, workers: nat, maxConnections: nat,
                      maxFd: nat)
    requires IsRun(Moves, ss, steps) && ss[0] == Init(cleaner, workers, maxConnections, maxFd) && k < |ss|
    requires Guarded(ss, steps, k) && ss[k].loop.Scanning?
    ensures var s := ss[k];
            && (Apply(s, Scan(true)).loop.Copying? ==> Unscanned(s.loop.ready, s.loop.i) == {})
            && (s.loop.i in s.loop.ready.clients ==> s.loop.i in s.conns && !s.conns[s.loop.i].active)
  {
    InitInv(cleaner, workers, maxConnections, maxFd);
    RunInv(ss, steps, k);
    var s := ss[k];
    var Scanning(r, served, i) := s.loop;
    ScanStaysSound(r, served, i, s.watched);
    if i > s.maxFd {
      forall fd ensures fd !in Unscanned(r, i) {
        if fd in s.watched {
          assert fd in s.open;
        }
      }
    }
  }

  // ---- Wake-up, whatever the cleaner does ----

  /** The flag says exactly whether a byte is unread; a client missing from select's copy has one announcing it. */
  ghost predicate WakeUp(s: State) {
    && s.pipe == Bit(s.readFdsCalled) && s.stash == 0
    && (s.loop.Selecting? && !(s.watched <= s.loop.snapshot) ==> s.pipe == 1)
    && (s.loop.AtControl? && s.loop.ready.control ==> s.pipe == 1)
  }

  /** Listed clients have a byte in the second pipe announcing them. */
  ghost predicate CloseCall(s: State) {
    && s.pipe2 == Bit(s.toClose != [])
    && ((s.loop.AtControl? || s.loop.AtControl2?) && s.loop.ready.control2 ==> s.pipe2 == 1)
  }

  lemma StepWakesUp(s: State, step: Step)
    requires WakeUp(s) && CloseCall(s) && Enabled(s, step)
    ensures WakeUp(Apply(s, step)) && CloseCall(Apply(s, step))
  {
    if step.Scan? {
      ScanWakesUp(s, step.bytes);
    } else if IsWorkerStep(step) {
      WorkerWakesUp(s, step);
    } else {
      LoopWakesUp(s, step);
    }
  }

  lemma ScanWakesUp(s: State, bytes: bool)
    requires WakeUp(s) && CloseCall(s) && Enabled(s, Scan(bytes))
    ensures WakeUp(Apply(s, Scan(bytes))) && CloseCall(Apply(s, Scan(bytes)))
  {
  }

  lemma WorkerWakesUp(s: State, step: Step)
    requires WakeUp(s) && CloseCall(s) && Enabled(s, step) && IsWorkerStep(step)
    ensures WakeUp(Apply(s, step)) && CloseCall(Apply(s, step))
  {
    if !step.WatchAgain? {
      assert Apply(s, step).watched == s.watched && Apply(s, step).loop == s.loop;
    }
  }

  lemma LoopWakesUp(s: State, step: Step)
    requires WakeUp(s) && CloseCall(s) && Enabled(s, step) && !IsWorkerStep(step) && !step.Scan?
    ensures WakeUp(Apply(s, step)) && CloseCall(Apply(s, step))
  {
  }

  /**
   * No lost wake-up: the flag is set exactly when one byte is unread and none is hidden in stdio's buffer;
   * if a watched client is missing from the copy select works on, or clients are listed for closing, select
   * can return for the control pipe concerned.
   */
  lemma NoLostWakeUp(cleaner: bool, workers: nat, maxConnections: nat, maxFd: nat, s: State)
    requires Reachable(Moves, Init(cleaner, workers, maxConnections, maxFd), s)
    ensures s.pipe == Bit(s.readFdsCalled) && s.stash == 0
    ensures s.loop.Selecting? && !(s.watched <= s.loop.snapshot) ==>
              Enabled(s, SelectReturns(Ready({}, true, false, false)))
    ensures s.loop.Selecting? && s.toClose != [] ==> Enabled(s, SelectReturns(Ready({}, false, true, false)))
  {
    var called := (t: State) => WakeUp(t) && CloseCall(t);
    forall t, step, u | called(t) && Moves(t, step, u) ensures called(u) {
      StepWakesUp(t, step);
    }
    ReachableKeeps(Moves, called, Init(cleaner, workers, maxConnections, maxFd), s);
  }

  /** Only the scan, at this very client, and the closing of listed clients take a client out of the watched set. */
  predicate Handles(s: State, step: Step, fd: int) {
    || (step.Scan? && s.loop.Scanning? && s.loop.i == fd)
    || (Closes(s, step) && fd in s.toClose)
  }

  lemma OnlyHandlingUnwatches(s: State, step: Step, t: State, fd: int)
    requires Moves(s, step, t) && !Handles(s, step, fd) && fd in s.watched
    ensures fd in t.watched
  {
    if !step.Scan? && !step.Control2? {
      assert s.watched <= t.watched;
    }
  }

  ghost predicate Unhandled(ss: seq<State>, steps: seq<Step>, j: nat, k: nat, fd: int) {
    k <= |steps| <= |ss| && forall m :: j <= m < k ==> !Handles(ss[m], steps[m], fd)
  }

  ghost predicate Keeps(ss: seq<State>, m: nat, fd: int)
    requires m + 1 < |ss|
  {
    fd in ss[m].watched ==> fd in ss[m + 1].watched
  }

  lemma {:induction false} StaysWatched(ss: seq<State>, j: nat, k: nat, fd: int)
    requires j <= k < |ss| && fd in ss[j].watched && forall m :: j <= m < k ==> Keeps(ss, m, fd)
    ensures fd in ss[k].watched
  {
    if j < k {
      StaysWatched(ss, j, k - 1, fd);
      assert Keeps(ss, k - 1, fd);
    }
  }

  /**
   * A client watched again stays watched until the scan gets to it or the cleaner has it closed, so the
   * loop's next copy contains it.
   */
  lemma NextCopySees(ss: seq<State>, steps: seq<Step>, j: nat, k: nat, fd: int)
    requires IsRun(Moves, ss, steps) && j <= k < |steps| && fd in ss[j].watched && Unhandled(ss, steps, j, k, fd)
    ensures fd in ss[k].watched
    ensures steps[k].Copy? ==> ss[k + 1].loop.Selecting? && fd in ss[k + 1].loop.snapshot
  {
    forall m | j <= m < k ensures Keeps(ss, m, fd) {
      assert Moves(ss[m], steps[m], ss[m + 1]) && !Handles(ss[m], steps[m], fd);
      if fd in ss[m].watched {
        OnlyHandlingUnwatches(ss[m], steps[m], ss[m + 1], fd);
      }
    }
    StaysWatched(ss, j, k, fd);
    assert Moves(ss[k], steps[k], ss[k + 1]);
  }

  // ---- The guard is not automatic ----

  lemma AcceptOne(s: State, fd: int)
    requires s.loop.Copying? && s.count < s.maxConnections && fd > 0 && fd !in s.open && s.watched == {}
    ensures Reachable(Moves, s, s.(maxFd := if fd > s.maxFd then fd else s.maxFd, open := s.open + {fd},
                            conns := s.conns[fd := Meta(fd, true)], aged := s.aged - {fd}, count := s.count + 1,
                            queue := s.queue + [fd]))
  {
    var r := Ready({}, false, false, true);
    ReachableStart(Moves, s);
    ReachableNext(Moves, s, s, Copy, Apply(s, Copy));
    var s1 := Apply(s, Copy);
    ReachableNext(Moves, s, s1, SelectReturns(r), Apply(s1, SelectReturns(r)));
    var s2 := Apply(s1, SelectReturns(r));
    ReachableNext(Moves, s, s2, Control, Apply(s2, Control));
    var s3 := Apply(s2, Control);
    ReachableNext(Moves, s, s3, Control2, Apply(s3, Control2));
    var s4 := Apply(s3, Control2);
    ReachableNext(Moves, s, s4, Listen(fd), Apply(s4, Listen(fd)));
    var s5 := Apply(s4, Listen(fd));
    ReachableNext(Moves, s, s5, Scan(true), Apply(s5, Scan(true)));
  }

  /** Worker 0 serves the only queued client and puts it back; the loop is woken and copies the set again. */
  lemma ServeOne(s: State, fd: int)
    requires s.loop.Copying? && s.queue == [fd] && |s.workers| > 0 && s.workers[0].Waiting? && !s.readFdsCalled
    requires s.pipe == 0 && s.stash == 0 && fd in s.conns && s.conns[fd] == Meta(fd, true) && fd in s.open
    ensures Reachable(Moves, s, s.(watched := s.watched + {fd}, queue := [], conns := s.conns[fd := Meta(fd, false)],
                                   aged := s.aged - {fd}))
  {
    var t := s.(watched := s.watched + {fd}, queue := [], conns := s.conns[fd := Meta(fd, false)],
                aged := s.aged - {fd}, pipe := 1, readFdsCalled := true);
    ReachableStart(Moves, s);
    ReachableNext(Moves, s, s, Take(0), Apply(s, Take(0)));
    var s1 := Apply(s, Take(0));
    ReachableNext(Moves, s, s1, Deactivate(0), Apply(s1, Deactivate(0)));
    var s2 := Apply(s1, Deactivate(0));
    ReachableNext(Moves, s, s2, WatchAgain(0), Apply(s2, WatchAgain(0)));
    assert Apply(s2, WatchAgain(0)).workers == s.workers;
    assert Apply(s2, WatchAgain(0)) == t;
    BeWoken(t);
    ReachableChain(Moves, s, t, t.(pipe := 0, readFdsCalled := false));
  }

  lemma BeWoken(s: State)
    requires s.loop.Copying? && s.pipe == 1 && s.stash == 0 && s.readFdsCalled
    ensures Reachable(Moves, s, s.(pipe := 0, readFdsCalled := false))
  {
    var r := Ready({}, true, false, false);
    ReachableStart(Moves, s);
    var s1 := s.(loop := Selecting(s.watched));
    ReachableNext(Moves, s, s, Copy, s1);
    var s2 := s.(loop := AtControl(r));
    ReachableNext(Moves, s, s1, SelectReturns(r), s2);
    ReachableNext(Moves, s, s2, Control, s.(pipe := 0, readFdsCalled := false));
  }

  /** There is always a descriptor to accept. */
  lemma {:induction false} SomeFree(open: set<int>, from: nat) returns (fd: nat)
    ensures fd >= from && fd !in open
    decreases |open|
  {
    if from in open {
      fd := SomeFree(open - {from}, from + 1);
    } else {
      fd := from;
    }
  }

  ghost predicate CanFault(s: State) {
    exists t :: Reachable(Moves, s, t) && t.fault
  }

  lemma FaultsLater(s: State, step: Step)
    requires Enabled(s, step) && CanFault(Apply(s, step))
    ensures CanFault(s)
  {
    var t :| Reachable(Moves, Apply(s, step), t) && t.fault;
    ReachableStart(Moves, s);
    ReachableNext(Moves, s, s, step, Apply(s, step));
    ReachableChain(Moves, s, Apply(s, step), t);
  }

  lemma FaultsNow(s: State, step: Step)
    requires Enabled(s, step) && Apply(s, step).fault
    ensures CanFault(s)
  {
    ReachableStart(Moves, Apply(s, step));
    FaultsLater(s, step);
  }

  /** The scan comes to a closed client that was reported ready, or to another one before it. */
  lemma {:induction false} ScanFaults(s: State, r: Ready, served: nat, i: int, fd: int)
    requires s.loop == Scanning(r, served, i) && 0 <= i <= fd <= s.maxFd && fd in r.clients
    requires fd !in s.conns && fd !in s.open && Rv(r) == served + |Unscanned(r, i)|
    ensures CanFault(s)
    decreases fd - i
  {
    assert fd in Unscanned(r, i);
    ScanNext(r, i);
    if i == fd {
      FaultsNow(s, Scan(false));
    } else {
      var t := Apply(s, Scan(true));
      if t.fault {
        FaultsNow(s, Scan(true));
      } else {
        ScanFaults(t, r, if i in r.clients then served + 1 else served, i + 1, fd);
        FaultsLater(s, Scan(true));
      }
    }
  }

  lemma ReadyFaults(s: State, r: Ready, served: nat, fd: int)
    requires s.loop == AtListen(r, served) && served == Bit(r.control) + Bit(r.control2)
    requires s.count < s.maxConnections && 0 <= fd <= s.maxFd && fd in r.clients
    requires fd !in s.conns && fd !in s.open && forall x :: x in r.clients ==> x >= 0
    ensures CanFault(s)
  {
    var client := SomeFree(s.open + {fd}, 0);
    var t := Apply(s, Listen(client));
    assert Unscanned(r, 0) == r.clients;
    ScanFaults(t, r, served + Bit(r.listen), 0, fd);
    FaultsLater(s, Listen(client));
  }

  /** What an unguarded closing closes is, being returned, put back, or, being ready, scanned. */
  lemma UnguardedFaults(s: State)
    requires Inv(s) && Enabled(s, Control2) && !Guard(s, Control2)
    ensures CanFault(Apply(s, Control2))
  {
    var t := Apply(s, Control2);
    var fd :| fd in s.toClose && (Returns(s.workers, fd) || fd in s.loop.ready.clients);
    if Returns(s.workers, fd) {
      var w: nat :| w < |s.workers| && s.workers[w] == Returning(fd);
      assert EntryOf(s.conns, s.workers[w]);
      FaultsNow(t, WatchAgain(w));
    } else {
      assert fd in s.watched && fd in s.open;
      CloseMakesRoom(s, fd);
      forall x | x in s.loop.ready.clients ensures x >= 0 {
        assert x in s.watched && x in s.open;
      }
      ReadyFaults(t, s.loop.ready, s.loop.served + 1, fd);
    }
  }

  lemma CloseMakesRoom(s: State, fd: int)
    requires Inv(s) && Enabled(s, Control2) && Closes(s, Control2) && fd in s.toClose && fd in s.watched
    ensures var t := Apply(s, Control2); t.count < t.maxConnections && fd !in t.conns && fd !in t.open
  {
    assert fd in Gone(s, s.toClose);
  }

  /** A client is connected, watched and has not been heard of for the keep-alive time; nothing else goes on. */
  ghost predicate IdleClient(s: State, fd: int) {
    && s.cleaner && s.loop.Copying? && s.watched == {fd} && s.queue == [] && s.toClose == [] && !s.readFdsCalled
    && s.pipe == 0 && s.stash == 0 && s.pipe2 == 0 && fd in s.conns && s.conns[fd] == Meta(fd, false)
    && fd in s.aged && 0 < fd <= s.maxFd && fd in s.open && s.count <= s.maxConnections
    && |s.workers| > 0 && s.workers[0].Waiting?
  }

  lemma IdleReachable(workers: nat, maxConnections: nat, maxFd: nat, fd: int)
    requires workers > 0 && maxConnections > 0 && fd > 0
    ensures exists s :: Reachable(Moves, Init(true, workers, maxConnections, maxFd), s) && IdleClient(s, fd)
  {
    var s := Init(true, workers, maxConnections, maxFd);
    AcceptOne(s, fd);
    var s1 := s.(maxFd := if fd > s.maxFd then fd else s.maxFd, open := s.open + {fd},
                 conns := s.conns[fd := Meta(fd, true)], aged := s.aged - {fd}, count := s.count + 1,
                 queue := s.queue + [fd]);
    ServeOne(s1, fd);
    var s2 := s1.(watched := s1.watched + {fd}, queue := [], conns := s1.conns[fd := Meta(fd, false)],
                  aged := s1.aged - {fd});
    ReachableChain(Moves, s, s1, s2);
    ReachableNext(Moves, s, s2, GrowOld(fd), Apply(s2, GrowOld(fd)));
    assert IdleClient(Apply(s2, GrowOld(fd)), fd);
  }

  /** The scan passes over everything before the one ready client. */
  lemma {:induction false} ScanTo(s: State, r: Ready, served: nat, fd: int, i: nat)
    requires i <= fd <= s.maxFd && r.clients == {fd} && Rv(r) != served
    ensures Reachable(Moves, s.(loop := Scanning(r, served, 0)), s.(loop := Scanning(r, served, i)))
  {
    var start := s.(loop := Scanning(r, served, 0));
    if i == 0 {
      ReachableStart(Moves, start);
    } else {
      ScanTo(s, r, served, fd, i - 1);
      var last := s.(loop := Scanning(r, served, i - 1));
      ReachableNext(Moves, start, last, Scan(true), Apply(last, Scan(true)));
    }
  }

  /**
   * First failure. Select reports the idle client and the cleaner lists it; the scan hands it out, a worker
   * serves it and marks it inactive; the next round closes it, as only its activity is tested; the worker then
   * puts back a closed descriptor through an entry that is gone. No thread is held up anywhere.
   */
  lemma ListedThenServed(s: State, fd: int)
    requires IdleClient(s, fd)
    ensures CanFault(s)
  {
    var r := Ready({fd}, false, false, false);
    var s1 := s.(loop := Scanning(r, 0, fd), toClose := [fd], pipe2 := 1);
    ListedBeforeScan(s, fd);
    ReachableNext(Moves, s, s1, Scan(true), Apply(s1, Scan(true)));
    var s2 := Apply(s1, Scan(true));
    assert s2.loop == Scanning(r, 1, fd + 1) && s2.queue == [fd] && s2.conns[fd] == Meta(fd, true);
    ReachableNext(Moves, s, s2, Scan(true), Apply(s2, Scan(true)));
    var s3 := Apply(s2, Scan(true));
    CloseServed(s3, fd);
    var t :| Reachable(Moves, s3, t) && t.fault;
    ReachableChain(Moves, s, s3, t);
  }

  lemma ListedBeforeScan(s: State, fd: int)
    requires IdleClient(s, fd)
    ensures Reachable(Moves, s, s.(loop := Scanning(Ready({fd}, false, false, false), 0, fd), toClose := [fd],
                                   pipe2 := 1))
  {
    var r := Ready({fd}, false, false, false);
    ReachableStart(Moves, s);
    ReachableNext(Moves, s, s, Copy, Apply(s, Copy));
    var s1 := s.(loop := Selecting(s.watched));
    ReachableNext(Moves, s, s1, SelectReturns(r), Apply(s1, SelectReturns(r)));
    var s2 := s.(loop := AtControl(r));
    ReachableNext(Moves, s, s2, Collect([fd]), Apply(s2, Collect([fd])));
    var s3 := s2.(toClose := [fd], pipe2 := 1);
    ReachableNext(Moves, s, s3, Control, Apply(s3, Control));
    var s4 := s3.(loop := AtControl2(r, 0));
    ReachableNext(Moves, s, s4, Control2, Apply(s4, Control2));
    var s5 := s3.(loop := AtListen(r, 0));
    ReachableNext(Moves, s, s5, Listen(0), Apply(s5, Listen(0)));
    ScanTo(s3, r, 0, fd, fd);
    ReachableChain(Moves, s, s3.(loop := Scanning(r, 0, 0)), s3.(loop := Scanning(r, 0, fd)));
  }

  /** The second half of that run: the client is served and marked, and then closed under the worker's hands. */
  lemma CloseServed(s: State, fd: int)
    requires s.loop.Copying? && s.queue == [fd] && s.toClose == [fd] && s.pipe2 == 1
    requires fd in s.conns && s.conns[fd] == Meta(fd, true) && |s.workers| > 0 && s.workers[0].Waiting?
    ensures CanFault(s)
  {
    ReachableStart(Moves, s);
    ReachableNext(Moves, s, s, Take(0), Apply(s, Take(0)));
    var s1 := Apply(s, Take(0));
    ReachableNext(Moves, s, s1, Deactivate(0), Apply(s1, Deactivate(0)));
    var s2 := Apply(s1, Deactivate(0));
    CloseReturning(s2, fd);
    var t :| Reachable(Moves, s2, t) && t.fault;
    ReachableChain(Moves, s, s2, t);
  }

  lemma CloseReturning(s: State, fd: int)
    requires s.loop.Copying? && s.toClose == [fd] && s.pipe2 == 1 && fd in s.conns && !s.conns[fd].active
    requires |s.workers| > 0 && s.workers[0] == Returning(fd)
    ensures CanFault(s)
  {
    var r := Ready({}, false, true, false);
    ReachableStart(Moves, s);
    ReachableNext(Moves, s, s, Copy, Apply(s, Copy));
    var s1 := Apply(s, Copy);
    ReachableNext(Moves, s, s1, SelectReturns(r), Apply(s1, SelectReturns(r)));
    var s2 := Apply(s1, SelectReturns(r));
    ReachableNext(Moves, s, s2, Control, Apply(s2, Control));
    var s3 := Apply(s2, Control);
    ReachableNext(Moves, s, s3, Control2, Apply(s3, Control2));
    var s4 := Apply(s3, Control2);
    assert fd !in s4.conns && s4.workers[0] == Returning(fd);
    ReachableNext(Moves, s, s4, WatchAgain(0), Apply(s4, WatchAgain(0)));
  }

  /**
   * Second failure. The cleaner lists the idle client while select waits, and select reports both the second
   * pipe and the client; the loop closes it and then scans it, closing a closed descriptor once more.
   */
  lemma ListedAndReady(s: State, fd: int)
    requires IdleClient(s, fd)
    ensures CanFault(s)
  {
    var r := Ready({fd}, false, true, false);
    var s1 := s.(loop := Selecting(s.watched));
    var s2 := s1.(toClose := [fd], pipe2 := 1);
    var s3 := s2.(loop := AtControl(r));
    var s4 := s2.(loop := AtControl2(r, 0));
    CloseListed(s4, r, fd);
    FaultsLater(s3, Control);
    FaultsLater(s2, SelectReturns(r));
    FaultsLater(s1, Collect([fd]));
    FaultsLater(s, Copy);
  }

  lemma CloseListed(s: State, r: Ready, fd: int)
    requires s.loop == AtControl2(r, 0) && r == Ready({fd}, false, true, false) && s.toClose == [fd]
    requires fd in s.conns && !s.conns[fd].active && 0 <= fd <= s.maxFd && s.count <= s.maxConnections
    ensures CanFault(s)
  {
    assert Gone(s, [fd]) == {fd};
    ReadyFaults(Apply(s, Control2), r, 1, fd);
    FaultsLater(s, Control2);
  }

  /**
   * Nothing is used after it is gone in all runs exactly with the keep-alive cleaner off. With it on, a run
   * that breaks the guard gets there, in either of the two ways above.
   */
  lemma SafeIffCleanerOff(cleaner: bool, workers: nat, maxConnections: nat, maxFd: nat)
    requires workers > 0 && maxConnections > 0
    ensures (forall s :: Reachable(Moves, Init(cleaner, workers, maxConnections, maxFd), s) ==> !s.fault) <==> !cleaner
  {
    var init := Init(cleaner, workers, maxConnections, maxFd);
    if cleaner {
      IdleReachable(workers, maxConnections, maxFd, 5);
      var s :| Reachable(Moves, init, s) && IdleClient(s, 5);
      ListedThenServed(s, 5);
      var t :| Reachable(Moves, s, t) && t.fault;
      ReachableChain(Moves, init, s, t);
    } else {
      forall s | Reachable(Moves, init, s) ensures !s.fault {
        HandOffWithoutCleaner(workers, maxConnections, maxFd, s);
      }
    }
  }
}
