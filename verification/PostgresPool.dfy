/** The Postgres connection pool and the statement wrapper that retries over it. */
module PostgresPool {
  import opened Accounts
  import opened Pools
  import opened PostgresStore
  import opened Wrappers

  const ATTEMPTS := 3

  /** An open connection; `good` is its status. */
  datatype Conn = Conn(good: bool)

  /**
   * What the next use of the server meets. A connection being opened that meets `Complains` is opened, but its
   * statements cannot be prepared; one that meets `Breaks` is not opened. A statement that meets `Complains` is
   * answered with an error and not executed; one that meets `Breaks` loses its connection, executed or not.
   */
  datatype Event = Fine | Complains | Breaks(executed: bool)

  /** The next event; when none is left all is well. */
  function Head(tape: seq<Event>): Event {
    if tape == [] then Fine else tape[0]
  }

  function Tail(tape: seq<Event>): seq<Event> {
    if tape == [] then [] else tape[1..]
  }

  /** Faults ahead. */
  function Strikes(tape: seq<Event>): nat {
    if tape == [] then 0 else (if tape[0].Fine? then 0 else 1) + Strikes(tape[1..])
  }

  /** How one attempt at a statement ended. */
  datatype Outcome = Merged | Rejected | Failed | NoConnection

  /** The first attempt, from the faults ahead: whether it opens a connection, and whether the table rejects it. */
  function FirstOutcome(opens: bool, tape: seq<Event>, rejected: bool): Outcome {
    if opens && !Head(tape).Fine? then NoConnection
    else if !Head(if opens then Tail(tape) else tape).Fine? then Failed
    else if rejected then Rejected
    else Merged
  }

  /** Attempts go on until one merges or gets no connection, three at most; success means that the last one merged. */
  predicate Reports(outcomes: seq<Outcome>, ok: bool) {
    && 0 < |outcomes| <= ATTEMPTS
    && (forall i :: 0 <= i < |outcomes| - 1 ==> outcomes[i].Rejected? || outcomes[i].Failed?)
    && (ok <==> outcomes[|outcomes| - 1].Merged?)
    && (|outcomes| < ATTEMPTS ==> outcomes[|outcomes| - 1].Merged? || outcomes[|outcomes| - 1].NoConnection?)
  }

  /** Attempts for which a fault is to blame. */
  function Faults(outcomes: seq<Outcome>): nat {
    if outcomes == [] then 0
    else Faults(outcomes[..|outcomes| - 1]) +
         if outcomes[|outcomes| - 1].Failed? || outcomes[|outcomes| - 1].NoConnection? then 1 else 0
  }

  /** What `get_connection` found under its lock. */
  datatype Found = Borrowed(conn: Conn) | MustCreate

  class ConnectionPool {
    var connections: seq<Conn>
    var currentConnections: int
    const maxConnections: int
    /** Connections in use by the calling thread, and by all others. */
    ghost var mine: nat
    var others: nat
    /** Connections the calling thread is opening outside the lock; those of other threads count as theirs. */
    ghost var creating: nat
    /** New connections whose statements could not be prepared: each is counted down twice. */
    ghost var prepareFailures: nat
    /** What the operations are going to meet. */
    var tape: seq<Event>

    /** The pool as its lock protects it. */
    ghost function Snapshot(): Pool<Conn>
      reads this
    {
      Pool(connections, currentConnections, maxConnections)
    }

    ghost predicate Valid()
      reads this
    {
      && currentConnections + prepareFailures == |connections| + mine + others + creating
      && currentConnections <= maxConnections
    }

    /** Some connection can be had, if need be after a wait; otherwise a wait never ends. */
    predicate Serviceable()
      reads this
    {
      |connections| > 0 || currentConnections < maxConnections || others > 0
    }

    /** Counts all connections first and takes back those that fail, for want of a server or of a statement. */
    constructor (min: nat, max: int, tape: seq<Event>)
      requires min <= max
      ensures Valid() && mine == 0 && others == 0 && creating == 0 && prepareFailures == 0 && maxConnections == max
      ensures currentConnections == |connections| == min - (Strikes(tape) - Strikes(this.tape))
    {
      var count: int := min;
      var conns: seq<Conn> := [];
      var ahead := tape;
      for i := 0 to min
        invariant count == min - i + |conns| && |conns| == i - (Strikes(tape) - Strikes(ahead)) && |conns| <= i
      {
        if Head(ahead).Fine? {
          conns := conns + [Conn(true)];
        } else {
          count := count - 1;
        }
        ahead := Tail(ahead);
      }
      connections, currentConnections, maxConnections := conns, count, max;
      this.tape := ahead;
      mine, others, creating, prepareFailures := 0, 0, 0, 0;
    }

    method Meet() returns (e: Event)
      modifies this`tape
      ensures e == Head(old(tape)) && tape == Tail(old(tape))
      ensures Strikes(old(tape)) == Strikes(tape) + if e.Fine? then 0 else 1
    {
      e, tape := Head(tape), Tail(tape);
    }

    /**
     * Waiting for a connection: other threads drop some of what they use, and give back the rest. A wait in
     * which nothing is given back does not end.
     */
    method AwaitRelease()
      requires Valid() && connections == [] && others > 0
      modifies this`connections, this`currentConnections, this`others
      ensures Valid() && connections != [] && others < old(others)
    {
      var released: seq<Conn> :| 0 < |released| <= others by {
        assert |[Conn(true)]| == 1;
      }
      var dropped: nat :| |released| + dropped <= others;
      connections := released;
      currentConnections := currentConnections - dropped;
      others := others - |released| - dropped;
    }

    /** First locked part: an idle connection, after a wait if need be, or a place counted for a new one. */
    method BeginGet() returns (f: Found)
      requires Valid() && Serviceable()
      modifies this`connections, this`currentConnections, this`mine, this`others, this`creating
      ensures Valid() && prepareFailures == old(prepareFailures) && others <= old(others)
      ensures f.MustCreate? <==> MayGrow(old(Snapshot()))
      ensures f.MustCreate? ==>
                Snapshot() == Grown(old(Snapshot())) && mine == old(mine) && creating == old(creating) + 1
      ensures f.Borrowed? ==> mine == old(mine) + 1 && creating == old(creating)
      ensures old(connections) != [] ==>
                f == Borrowed(LastIdle(old(Snapshot()))) && Snapshot() == Popped(old(Snapshot()))
    {
      if |connections| == 0 && currentConnections < maxConnections {
        currentConnections := currentConnections + 1;
        creating := creating + 1;
        return MustCreate;
      }
      if |connections| == 0 {
        AwaitRelease();
      }
      f := Borrowed(connections[|connections| - 1]);
      connections := connections[..|connections| - 1];
      mine := mine + 1;
    }

    /** The place of a connection that could not be opened is given back. */
    method AbandonCreation()
      requires Valid() && creating > 0
      modifies this`currentConnections, this`creating
      ensures Valid() && Snapshot() == CountedOff(old(Snapshot())) && creating == old(creating) - 1
    {
      currentConnections := currentConnections - 1;
      creating := creating - 1;
    }

    /**
     * The exception thrown after a failed preparation is caught by the handler around it, which counts the
     * same connection down once more.
     */
    method CountDownAgain()
      requires Valid()
      modifies this`currentConnections, this`prepareFailures
      ensures Valid() && Snapshot() == CountedOff(old(Snapshot())) && prepareFailures == old(prepareFailures) + 1
    {
      currentConnections := currentConnections - 1;
      prepareFailures := prepareFailures + 1;
    }

    method GetConnection() returns (c: Option<Conn>)
      requires Valid() && Serviceable()
      modifies this
      ensures Valid() && creating == old(creating) && others <= old(others)
      ensures mine == old(mine) + if c.Some? then 1 else 0
      ensures c.None? <==> MayGrow(old(Snapshot())) && !Head(old(tape)).Fine?
      ensures tape == if MayGrow(old(Snapshot())) then Tail(old(tape)) else old(tape)
      ensures prepareFailures == old(prepareFailures) + if c.None? && Head(old(tape)).Complains? then 1 else 0
      ensures old(connections) != [] ==> c == Some(LastIdle(old(Snapshot()))) && Snapshot() == Popped(old(Snapshot()))
      ensures MayGrow(old(Snapshot())) && c.Some? ==> Snapshot() == Grown(old(Snapshot()))
      ensures c.None? ==> connections == []
                          && currentConnections == old(currentConnections) - (prepareFailures - old(prepareFailures))
    {
      var found := BeginGet();
      match found
      case Borrowed(conn) =>
        return Some(conn);
      case MustCreate =>
        var e := Meet();
        if e.Breaks? {
          AbandonCreation();
          return None;
        } else if e.Complains? {
          AbandonCreation();
          CountDownAgain();
          return None;
        }
        creating := creating - 1;
        mine := mine + 1;
        return Some(Conn(true));
    }

    method Release(c: Conn)
      requires Valid() && mine > 0
      modifies this`connections, this`mine
      ensures Valid() && Snapshot() == Returned(old(Snapshot()), c) && mine == old(mine) - 1
    {
      connections := connections + [c];
      mine := mine - 1;
    }

    /** A connection found broken after a statement is closed and counted off. */
    method Drop()
      requires Valid() && mine > 0
      modifies this`currentConnections, this`mine
      ensures Valid() && Snapshot() == CountedOff(old(Snapshot())) && mine == old(mine) - 1
    {
      currentConnections := currentConnections - 1;
      mine := mine - 1;
    }
  }

  /** Nothing of the upload is in the table, or all of it. */
  ghost predicate InEffect(start: Replica, upload: seq<Account>, rows: Replica) {
    rows == start || (!TouchesTwice(start, upload) && rows == MergeAll(start, upload))
  }

  /** What the server does with the statement, heard of or not. */
  method Execute(table: Table, upload: seq<Account>, e: Event, ghost start: Replica) returns (done: bool)
    requires InEffect(start, upload, table.rows)
    modifies table
    ensures InEffect(start, upload, table.rows)
    ensures e.Fine? ==> (done <==> !TouchesTwice(old(table.rows), upload))
    ensures e == Breaks(true) && !TouchesTwice(start, upload) ==> table.rows == MergeAll(start, upload)
    ensures e == Breaks(false) ==> table.rows == old(table.rows)
    ensures done ==> table.rows == MergeAll(start, upload) && !e.Complains?
  {
    RetryIsHarmless(start, upload);
    done := false;
    if e.Fine? || (e.Breaks? && e.executed) {
      done := table.Upsert(upload);
    }
  }

  /**
   * One attempt of an upsert that began with `start`: the statement is executed or not, answered or lost, and
   * the connection goes back or is closed.
   */
  method UpsertOnce(pool: ConnectionPool, table: Table, upload: seq<Account>, ghost start: Replica)
    returns (outcome: Outcome)
    requires pool.Valid() && pool.Serviceable() && InEffect(start, upload, table.rows)
    modifies pool, table
    ensures pool.Valid() && pool.Serviceable() && pool.mine == old(pool.mine) && pool.creating == old(pool.creating)
    ensures InEffect(start, upload, table.rows)
    ensures outcome == FirstOutcome(MayGrow(old(pool.Snapshot())), old(pool.tape),
                                    TouchesTwice(old(table.rows), upload))
    ensures outcome.Merged? ==> table.rows == MergeAll(start, upload)
    ensures Strikes(old(pool.tape)) == Strikes(pool.tape) + if outcome.Failed? || outcome.NoConnection? then 1 else 0
  {
    var c := pool.GetConnection();
    if c.None? {
      return NoConnection;
    }
    var e := pool.Meet();
    var done := Execute(table, upload, e, start);
    if e.Breaks? {
      pool.Drop();
      return Failed;
    }
    pool.Release(c.value);
    outcome := if e.Complains? then Failed else if done then Merged else Rejected;
  }

  /**
   * The upsert over the pool, tried up to three times. A broken connection may have executed the statement
   * before it broke; repeating it then is harmless. Success means merged exactly once in effect; failure
   * leaves the table as it was or merged. Without faults there is one attempt, or, when the table rejects the
   * upload, three.
   */
  method UpsertAccounts(pool: ConnectionPool, table: Table, upload: seq<Account>)
    returns (ok: bool, ghost outcomes: seq<Outcome>)
    requires pool.Valid() && pool.Serviceable()
    modifies pool, table
    ensures pool.Valid() && pool.Serviceable() && pool.mine == old(pool.mine) && pool.creating == old(pool.creating)
    ensures upload == [] ==> ok && outcomes == [] && table.rows == old(table.rows) && pool.tape == old(pool.tape)
    ensures ok ==> !TouchesTwice(old(table.rows), upload) && table.rows == MergeAll(old(table.rows), upload)
    ensures !ok ==> InEffect(old(table.rows), upload, table.rows)
    ensures TouchesTwice(old(table.rows), upload) ==> !ok
    ensures upload != [] ==>
              && Reports(outcomes, ok)
              && outcomes[0] == FirstOutcome(MayGrow(old(pool.Snapshot())), old(pool.tape),
                                             TouchesTwice(old(table.rows), upload))
    ensures Strikes(old(pool.tape)) == Strikes(pool.tape) + Faults(outcomes)
    ensures Rejected in outcomes ==> TouchesTwice(old(table.rows), upload)
    ensures upload != [] && Strikes(old(pool.tape)) == 0 ==>
              outcomes == if TouchesTwice(old(table.rows), upload) then [Rejected, Rejected, Rejected] else [Merged]
  {
    if |upload| < 1 {
      return true, [];
    }
    ok, outcomes := false, [];
    ghost var start := table.rows;
    RetryIsHarmless(start, upload);
    for i := 0 to ATTEMPTS
      invariant pool.Valid() && pool.Serviceable() && pool.mine == old(pool.mine) && pool.creating == old(pool.creating)
      invariant !ok && |outcomes| == i && InEffect(start, upload, table.rows)
      invariant forall k :: 0 <= k < i ==> outcomes[k].Rejected? || outcomes[k].Failed?
      invariant i == 0 ==> table.rows == start && pool.Snapshot() == old(pool.Snapshot()) && pool.tape == old(pool.tape)
      invariant i > 0 ==> outcomes[0] == FirstOutcome(MayGrow(old(pool.Snapshot())), old(pool.tape),
                                                     TouchesTwice(start, upload))
      invariant Strikes(old(pool.tape)) == Strikes(pool.tape) + Faults(outcomes)
      invariant forall k :: 0 <= k < i && outcomes[k].Rejected? ==> TouchesTwice(start, upload)
      invariant Strikes(old(pool.tape)) == 0 ==> forall k :: 0 <= k < i ==> outcomes[k].Rejected?
    {
      var outcome := UpsertOnce(pool, table, upload, start);
      ghost var before := outcomes;
      outcomes := outcomes + [outcome];
      assert outcomes[..|outcomes| - 1] == before;
      if outcome.Merged? || outcome.NoConnection? {
        return outcome.Merged?, outcomes;
      }
    }
  }
}
