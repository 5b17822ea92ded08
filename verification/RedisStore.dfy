/** The Redis store: its connection pool, pipelined operations over borrowed connections, and their retries. */
module RedisStore {
  import opened Accounts
  import opened Decimal
  import opened Keyspace
  import opened KeyspaceRuns
  import opened Pools
  import opened Wrappers

  const MAX_ATTEMPTS := 3

  /** A client connection: commands whose replies are still outstanding, and hiredis' error flag. */
  datatype Conn = Conn(pending: seq<Command>, err: bool)

  predicate Clean(c: Conn) {
    c.pending == [] && !c.err
  }

  function Append(c: Conn, cs: seq<Command>): Conn {
    Conn(c.pending + cs, c.err)
  }

  // ---- Account hashes as replies ----

  datatype Field = Name | User | Password | OldPassword | Url | UpdateTime | Deleted

  /** Fields are told apart by their first letter, and those starting with `u` by their second. */
  function FieldOf(key: string): Field
    requires |key| > 1
  {
    if key[0] == 'a' then Name
    else if key[0] == 'p' then Password
    else if key[0] == 'o' then OldPassword
    else if key[0] == 'd' then Deleted
    else if key[1] == 's' then User
    else if key[1] == 'r' then Url
    else UpdateTime
  }

  function SetField(a: Account, f: Field, value: string): Account
    requires f == Deleted ==> value != ""
  {
    match f
    case Name => a.(accountName := value)
    case User => a.(userName := value)
    case Password => a.(password := value)
    case OldPassword => a.(oldPassword := value)
    case Url => a.(url := value)
    case UpdateTime => a.(updateTime := ParseInt(value))
    case Deleted => a.(deleted := value[0] == '1')
  }

  predicate SameField(a: Account, b: Account, f: Field) {
    match f
    case Name => a.accountName == b.accountName
    case User => a.userName == b.userName
    case Password => a.password == b.password
    case OldPassword => a.oldPassword == b.oldPassword
    case Url => a.url == b.url
    case UpdateTime => a.updateTime == b.updateTime
    case Deleted => a.deleted == b.deleted
  }

  function KeyOf(f: Field): string {
    match f
    case Name => "account_name"
    case User => "user_name"
    case Password => "password"
    case OldPassword => "old_password"
    case Url => "url"
    case UpdateTime => "update_time"
    case Deleted => "deleted"
  }

  lemma FieldOfKey(f: Field)
    ensures |KeyOf(f)| > 1 && FieldOf(KeyOf(f)) == f
  {
  }

  /** The value written for a field. */
  function ValueOf(a: Account, f: Field): string {
    match f
    case Name => a.accountName
    case User => a.userName
    case Password => a.password
    case OldPassword => a.oldPassword
    case Url => a.url
    case UpdateTime => IntText(a.updateTime)
    case Deleted => if a.deleted then "1" else "0"
  }

  ghost predicate Seen(fields: seq<(string, string)>, n: nat, f: Field)
    requires n <= |fields|
  {
    exists i :: 0 <= i < n && fields[i].0 == KeyOf(f)
  }

  ghost predicate FieldIn(a: Account, pair: (string, string)) {
    exists f: Field :: pair == (KeyOf(f), ValueOf(a, f))
  }

  /** A reply lists the seven fields of an account, 14 members in all, in any order. */
  ghost predicate ListsAccount(fields: seq<(string, string)>, a: Account) {
    && |fields| == 7
    && (forall i :: 0 <= i < |fields| ==> FieldIn(a, fields[i]))
    && forall f: Field :: Seen(fields, |fields|, f)
  }

  /** Setting one field leaves the others. */
  lemma SetFieldEffect(a: Account, a0: Account, g: Field, f: Field)
    requires f != g ==> SameField(a, a0, f)
    ensures SameField(SetField(a, g, ValueOf(a0, g)), a0, f)
  {
    IntRoundTrip(a0.updateTime);
  }

  lemma SeenNext(fields: seq<(string, string)>, j: nat, g: Field, f: Field)
    requires j < |fields| && fields[j].0 == KeyOf(g) && Seen(fields, j + 1, f)
    ensures f == g || Seen(fields, j, f)
  {
    FieldOfKey(f);
    FieldOfKey(g);
  }

  lemma DecodeStep(fields: seq<(string, string)>, j: nat, a: Account, a0: Account)
    requires j < |fields| && FieldIn(a0, fields[j])
    requires forall f :: Seen(fields, j, f) ==> SameField(a, a0, f)
    ensures |fields[j].0| > 1 && (FieldOf(fields[j].0) == Deleted ==> fields[j].1 != "")
    ensures forall f :: Seen(fields, j + 1, f) ==> SameField(SetField(a, FieldOf(fields[j].0), fields[j].1), a0, f)
  {
    var g: Field :| fields[j] == (KeyOf(g), ValueOf(a0, g));
    FieldOfKey(g);
    forall f | Seen(fields, j + 1, f) ensures SameField(SetField(a, g, fields[j].1), a0, f) {
      SeenNext(fields, j, g, f);
      SetFieldEffect(a, a0, g, f);
    }
  }

  lemma SameFieldsSame(a: Account, b: Account)
    requires forall f :: SameField(a, b, f)
    ensures a == b
  {
    assert SameField(a, b, Name) && SameField(a, b, User) && SameField(a, b, Password) && SameField(a, b, OldPassword);
    assert SameField(a, b, Url) && SameField(a, b, UpdateTime) && SameField(a, b, Deleted);
  }

  /** Reading a reply back gives the account, whatever the order of its fields. */
  method DecodeAccount(fields: seq<(string, string)>, ghost a0: Account) returns (a: Account)
    requires ListsAccount(fields, a0)
    ensures a == a0
  {
    a := Account("", "", "", "", "", 0, false);
    for j := 0 to |fields|
      invariant forall f :: Seen(fields, j, f) ==> SameField(a, a0, f)
    {
      DecodeStep(fields, j, a, a0);
      a := SetField(a, FieldOf(fields[j].0), fields[j].1);
    }
    SameFieldsSame(a, a0);
  }

  // ---- What goes wrong outside ----

  /**
   * What is met when the outside is asked for something: nothing wrong; a connection that fails after the
   * server executed some of what was outstanding; or an error reply. A connection that is to be opened is not
   * opened unless nothing is wrong.
   */
  datatype Event = Fine | Breaks(executed: nat) | Complains

  /** The events ahead, in the order in which they are met; nothing is wrong after the last. */
  function Head(tape: seq<Event>): Event {
    if tape == [] then Fine else tape[0]
  }

  function Tail(tape: seq<Event>): seq<Event> {
    if tape == [] then [] else tape[1..]
  }

  /** How much is wrong ahead. */
  function Strikes(tape: seq<Event>): nat {
    if tape == [] then 0 else (if tape[0].Fine? then 0 else 1) + Strikes(tape[1..])
  }

  /** Error replies ahead. */
  function Complaints(tape: seq<Event>): nat {
    if tape == [] then 0 else (if tape[0].Complains? then 1 else 0) + Complaints(tape[1..])
  }

  /** A connection breaks at one of the next `n` things met. */
  predicate BreaksWithin(tape: seq<Event>, n: nat) {
    n > 0 && (Head(tape).Breaks? || BreaksWithin(Tail(tape), n - 1))
  }

  lemma {:induction false} CalmNeverBreaks(tape: seq<Event>, n: nat)
    requires Strikes(tape) == 0
    ensures !BreaksWithin(tape, n)
  {
    if n > 0 {
      CalmNeverBreaks(Tail(tape), n - 1);
    }
  }

  // ---- The store ----

  /** How an attempt ended: without a connection, on a connection that broke, or with all replies read. */
  datatype Outcome = NoConnection | Broken | Written

  /**
   * How the first attempt of a pipeline of `n` commands ends: a connection is opened first if none is idle
   * and there may be more, and then every reply is waited for.
   */
  function FirstOutcome(opens: bool, tape: seq<Event>, n: nat): Outcome {
    if opens && !Head(tape).Fine? then NoConnection
    else if BreaksWithin(if opens then Tail(tape) else tape, n) then Broken
    else Written
  }

  lemma CalmWrites(opens: bool, tape: seq<Event>, n: nat)
    requires Strikes(tape) == 0
    ensures FirstOutcome(opens, tape, n) == Written
  {
    CalmNeverBreaks(if opens then Tail(tape) else tape, n);
  }

  /** Attempts go on while connections break, four at most; success is reported unless the last one broke, too. */
  predicate Reports(outcomes: seq<Outcome>, ok: bool) {
    && 0 < |outcomes| <= MAX_ATTEMPTS + 1
    && (forall i :: 0 <= i < |outcomes| - 1 ==> outcomes[i].Broken?)
    && (ok <==> Succeeded(outcomes))
    && (!ok ==> |outcomes| == MAX_ATTEMPTS + 1)
  }

  predicate Succeeded(outcomes: seq<Outcome>) {
    outcomes != [] && !outcomes[|outcomes| - 1].Broken?
  }

  /** Attempts that did not write. */
  function Failures(outcomes: seq<Outcome>): nat {
    |outcomes| - if WroteLast(outcomes) then 1 else 0
  }

  predicate WroteLast(outcomes: seq<Outcome>) {
    outcomes != [] && outcomes[|outcomes| - 1].Written?
  }

  /** An attempt that a connection error stopped has executed some prefix of the outstanding commands. */
  ghost predicate Cut(db: Db, cs: seq<Command>, db': Db) {
    exists k: nat :: k <= |cs| && db' == ExecAll(db, cs[..k])
  }

  lemma CutLater(db: Db, cs: seq<Command>, i: nat, db': Db)
    requires i <= |cs| && Cut(ExecAll(db, cs[..i]), cs[i..], db')
    ensures Cut(db, cs, db')
  {
    var k: nat :| k <= |cs[i..]| && db' == ExecAll(ExecAll(db, cs[..i]), cs[i..][..k]);
    assert cs[..i + k] == cs[..i] + cs[i..][..k];
    ExecAllConcat(db, cs[..i], cs[i..][..k]);
  }

  lemma ExecNext(db: Db, cs: seq<Command>, i: nat)
    requires i < |cs|
    ensures Exec(ExecAll(db, cs[..i]), cs[i]) == ExecAll(db, cs[..i + 1])
    ensures cs[i..][0] == cs[i] && cs[i..][1..] == cs[i + 1..]
  {
    assert cs[..i + 1] == cs[..i] + [cs[i]];
    ExecAllConcat(db, cs[..i], [cs[i]]);
    assert [cs[i]][1..] == [];
    assert ExecAll(ExecAll(db, cs[..i]), [cs[i]]) == ExecAll(Exec(ExecAll(db, cs[..i]), cs[i]), []);
  }

  lemma CutOfOne(db: Db, c: Command, db': Db)
    requires Cut(db, [c], db') || db' == ExecAll(db, [c])
    ensures db' == db || db' == Exec(db, c)
  {
    ExecTwo(db, c, c);
    if Cut(db, [c], db') {
      var k: nat :| k <= 1 && db' == ExecAll(db, [c][..k]);
      assert [c][..k] == if k == 0 then [] else [c];
    }
  }

  class Store {
    var db: Db
    var connections: seq<Conn>
    var currentConnections: int
    const maxConnections: int
    /** Connections in use by the calling thread, and by all others. */
    ghost var mine: nat
    var others: nat
    /** Calls of `getConnection` that threw; each is followed by one release of no connection. */
    ghost var failedGets: nat
    /** What the operations are going to meet. */
    var tape: seq<Event>

    /** The pool as its lock protects it. */
    ghost function Snapshot(): Pool<Conn>
      reads this
    {
      Pool(connections, currentConnections, maxConnections)
    }

    ghost predicate PoolLaw()
      reads this`connections, this`currentConnections, this`mine, this`others, this`failedGets
    {
      && currentConnections + failedGets == |connections| + mine + others
      && currentConnections <= maxConnections
      && forall i :: 0 <= i < |connections| ==> Clean(connections[i])
    }

    /** The pool law, with no reply outstanding on an idle connection, and accounts under their own names. */
    ghost predicate Valid()
      reads this
    {
      PoolLaw() && KeyedByName(db)
    }

    /** Some connection can be had, if need be after a wait; otherwise a wait never ends. */
    predicate Serviceable()
      reads this
    {
      |connections| > 0 || currentConnections < maxConnections || others > 0
    }

    /** Opens up to `min` connections, as far as nothing is wrong. */
    constructor (db: Db, min: nat, max: int, tape: seq<Event>)
      requires min <= max && KeyedByName(db)
      ensures Valid() && this.db == db && mine == 0 && others == 0 && failedGets == 0 && maxConnections == max
      ensures |connections| == min - (Strikes(tape) - Strikes(this.tape))
    {
      var made: seq<Conn>, ahead := [], tape;
      for i := 0 to min
        invariant |made| == i - (Strikes(tape) - Strikes(ahead)) && |made| <= i
        invariant forall k :: 0 <= k < |made| ==> Clean(made[k])
      {
        if Head(ahead).Fine? {
          made := made + [Conn([], false)];
        }
        ahead := Tail(ahead);
      }
      this.db, connections, currentConnections, maxConnections := db, made, |made|, max;
      mine, others, failedGets := 0, 0, 0;
      this.tape := ahead;
    }

    /** Asks the outside for something. */
    method Meet() returns (e: Event)
      modifies this`tape
      ensures e == Head(old(tape)) && tape == Tail(old(tape))
      ensures |tape| <= |old(tape)| && (!e.Fine? ==> |tape| < |old(tape)|)
      ensures Strikes(old(tape)) == Strikes(tape) + if e.Fine? then 0 else 1
      ensures Complaints(old(tape)) == Complaints(tape) + if e.Complains? then 1 else 0
    {
      e, tape := Head(tape), Tail(tape);
    }

    /**
     * Waiting for a connection: other threads give back what they use, some of it broken and at last
     * something good. A wait in which nothing good comes back does not end.
     */
    method AwaitRelease()
      requires PoolLaw() && connections == [] && others > 0
      modifies this`connections, this`currentConnections, this`others
      ensures PoolLaw() && connections != [] && others < old(others)
    {
      var good: nat, bad: nat :| 0 < good && good + bad <= others;
      connections := seq(good, _ => Conn([], false));
      currentConnections := currentConnections - bad;
      others := others - good - bad;
    }

    /** The locked part of `getConnection`: an idle connection, a new one, the exception (`None`), or a wait. */
    method TakeConnection() returns (c: Option<Conn>, created: bool)
      requires PoolLaw() && Serviceable()
      modifies this`connections, this`currentConnections, this`mine, this`others, this`tape
      ensures PoolLaw() && others <= old(others)
      ensures c.None? <==> MayGrow(old(Snapshot())) && !Head(old(tape)).Fine?
      ensures tape == if MayGrow(old(Snapshot())) then Tail(old(tape)) else old(tape)
      ensures Complaints(tape) <= Complaints(old(tape))
      ensures c.Some? ==> Clean(c.value) && mine == old(mine) + 1
      ensures c.None? ==> mine == old(mine) && MayGrow(old(Snapshot())) && Snapshot() == old(Snapshot())
      ensures created ==> c.Some? && MayGrow(old(Snapshot())) && Snapshot() == Grown(old(Snapshot()))
      ensures c.Some? && !created ==> !MayGrow(old(Snapshot()))
      ensures old(connections) != [] ==>
                c.Some? && c.value == LastIdle(old(Snapshot())) && Snapshot() == Popped(old(Snapshot()))
    {
      created := false;
      if |connections| > 0 {
        c := Some(connections[|connections| - 1]);
        connections := connections[..|connections| - 1];
        mine := mine + 1;
      } else if currentConnections < maxConnections {
        var e := Meet();
        if e.Fine? {
          c, created := Some(Conn([], false)), true;
          currentConnections := currentConnections + 1;
          mine := mine + 1;
        } else {
          c := None;
        }
      } else {
        AwaitRelease();
        c := Some(connections[|connections| - 1]);
        connections := connections[..|connections| - 1];
        mine := mine + 1;
      }
    }

    /** `releaseConnection`: keeps a good connection, frees a bad one, and also counts down for none at all. */
    method Release(c: Option<Conn>)
      requires Valid()
      requires c.Some? ==> mine > 0 && (c.value.err || c.value.pending == [])
      modifies this`connections, this`currentConnections, this`mine, this`failedGets
      ensures Valid()
      ensures Snapshot() == if c.Some? && !c.value.err then Returned(old(Snapshot()), c.value)
                            else CountedOff(old(Snapshot()))
      ensures mine == old(mine) - (if c.Some? then 1 else 0)
      ensures failedGets == old(failedGets) + if c.Some? then 0 else 1
      ensures Serviceable()
    {
      if c.Some? {
        if !c.value.err {
          connections := connections + [c.value];
        } else {
          currentConnections := currentConnections - 1;
        }
        mine := mine - 1;
      } else {
        currentConnections := currentConnections - 1;
        failedGets := failedGets + 1;
      }
    }

    /**
     * `redisGetReply`: either the oldest outstanding command has been executed and this is its reply, or
     * the connection fails after the server executed some prefix of what was outstanding.
     */
    method GetReply(c: Conn) returns (e: Event, c': Conn)
      requires !c.err && c.pending != []
      modifies this`db, this`tape
      ensures e == Head(old(tape)) && tape == Tail(old(tape)) && |tape| <= |old(tape)|
      ensures !e.Fine? ==> |tape| < |old(tape)|
      ensures Strikes(old(tape)) == Strikes(tape) + if e.Fine? then 0 else 1
      ensures Complaints(old(tape)) == Complaints(tape) + if e.Complains? then 1 else 0
      ensures KeyedByName(old(db)) ==> KeyedByName(db)
      ensures !e.Breaks? ==> db == Exec(old(db), c.pending[0]) && c' == Conn(c.pending[1..], false)
      ensures e.Breaks? ==> c'.err && Cut(old(db), c.pending, db)
    {
      e := Meet();
      if e.Breaks? {
        var k := if e.executed <= |c.pending| then e.executed else |c.pending|;
        ExecAllKeyed(db, c.pending[..k]);
        db := ExecAll(db, c.pending[..k]);
        c' := Conn(c.pending, true);
      } else {
        db := Exec(db, c.pending[0]);
        c' := Conn(c.pending[1..], false);
      }
    }

    /** Reads `cnt` replies, stopping at the first failure; an error reply does not count as one. */
    method EatPipelineReplies(cnt: nat, c: Conn) returns (ok: bool, c': Conn)
      requires !c.err && cnt <= |c.pending|
      modifies this`db, this`tape
      ensures |tape| <= |old(tape)| && Strikes(tape) <= Strikes(old(tape))
      ensures !ok ==> Strikes(tape) < Strikes(old(tape))
      ensures ok <==> !BreaksWithin(old(tape), cnt)
      ensures KeyedByName(old(db)) ==> KeyedByName(db)
      ensures ok ==> db == ExecAll(old(db), c.pending[..cnt]) && c' == Conn(c.pending[cnt..], false)
      ensures !ok ==> c'.err && Cut(old(db), c.pending, db)
    {
      ok, c' := true, c;
      for i := 0 to cnt
        invariant ok && c' == Conn(c.pending[i..], false) && db == ExecAll(old(db), c.pending[..i])
        invariant KeyedByName(old(db)) ==> KeyedByName(db)
        invariant |tape| <= |old(tape)| && Strikes(tape) <= Strikes(old(tape))
        invariant BreaksWithin(old(tape), cnt) <==> BreaksWithin(tape, cnt - i)
      {
        ExecNext(old(db), c.pending, i);
        var e;
        e, c' := GetReply(c');
        if e.Breaks? {
          CutLater(old(db), c.pending, i, db);
          return false, c';
        }
      }
    }

    /** One ping, which reads only; an error reply leaves the connection usable. */
    method Ping(c: Conn) returns (good: bool, c': Conn)
      requires Clean(c)
      modifies this`db, this`tape
      ensures db == old(db) && (good <==> Head(old(tape)).Fine?) && (c'.err || c'.pending == [])
      ensures good ==> c' == c
      ensures tape == Tail(old(tape)) && |tape| <= |old(tape)| && (!good ==> |tape| < |old(tape)|)
      ensures Complaints(tape) <= Complaints(old(tape))
      ensures Strikes(old(tape)) == Strikes(tape) + if good then 0 else 1
    {
      ghost var before := db;
      var e;
      assert [] + [Command.Ping] == [Command.Ping];
      e, c' := GetReply(Append(c, [Command.Ping]));
      if e.Breaks? {
        CutReadsOnly(before, [Command.Ping], db);
      }
      good := e.Fine?;
    }

    /** `testConnection`: after a failed ping the connection is released, good or not, and another one taken. */
    method TestConnection(c: Conn) returns (r: Option<Conn>)
      requires Valid() && Clean(c) && mine > 0
      modifies this
      ensures Valid() && db == old(db) && failedGets == old(failedGets)
      ensures |tape| <= |old(tape)| && Strikes(tape) <= Strikes(old(tape)) && Complaints(tape) <= Complaints(old(tape))
      ensures Head(old(tape)).Fine? ==> r == Some(c) && tape == Tail(old(tape))
      ensures r.Some? ==> Clean(r.value) && mine == old(mine)
      ensures r.None? ==> mine == old(mine) - 1 && MayGrow(Snapshot()) && Strikes(tape) < Strikes(old(tape))
      decreases |tape|, 0
    {
      var good, cur := Ping(c);
      while !good
        invariant Valid() && (cur.err || cur.pending == []) && (good ==> Clean(cur)) && mine == old(mine)
        invariant db == old(db) && failedGets == old(failedGets)
        invariant |tape| <= |old(tape)| && Strikes(tape) <= Strikes(old(tape))
        invariant Complaints(tape) <= Complaints(old(tape))
        invariant Head(old(tape)).Fine? ==> good && cur == c && tape == Tail(old(tape))
        invariant !Head(old(tape)).Fine? ==> |tape| < |old(tape)| && Strikes(tape) < Strikes(old(tape))
        decreases |tape|, !good
      {
        Release(Some(cur));
        var next := GetConnection(true);
        if next.None? {
          return None;
        }
        good, cur := Ping(next.value);
      }
      r := Some(cur);
    }

    method GetConnection(testConn: bool) returns (r: Option<Conn>)
      requires Valid() && Serviceable()
      modifies this
      ensures Valid() && db == old(db) && failedGets == old(failedGets)
      ensures |tape| <= |old(tape)| && Strikes(tape) <= Strikes(old(tape)) && Complaints(tape) <= Complaints(old(tape))
      ensures !testConn ==> (r.None? <==> MayGrow(old(Snapshot())) && !Head(old(tape)).Fine?)
      ensures !testConn ==> tape == if MayGrow(old(Snapshot())) then Tail(old(tape)) else old(tape)
      ensures r.Some? ==> Clean(r.value) && mine == old(mine) + 1
      ensures r.None? ==> mine == old(mine) && MayGrow(Snapshot()) && Strikes(tape) < Strikes(old(tape))
      decreases |tape|, 1
    {
      var created;
      r, created := TakeConnection();
      if r.Some? && testConn && !created {
        r := TestConnection(r.value);
      }
    }

    /** Appends the commands, then reads one reply each. */
    method RunPipeline(c: Conn, cs: seq<Command>) returns (ok: bool, c': Conn)
      requires Clean(c)
      modifies this`db, this`tape
      ensures |tape| <= |old(tape)| && Strikes(tape) <= Strikes(old(tape))
      ensures !ok ==> Strikes(tape) < Strikes(old(tape))
      ensures ok <==> !BreaksWithin(old(tape), |cs|)
      ensures KeyedByName(old(db)) ==> KeyedByName(db)
      ensures ok ==> db == ExecAll(old(db), cs) && Clean(c')
      ensures !ok ==> c'.err && Cut(old(db), cs, db)
    {
      var full := Append(c, cs);
      assert full.pending == cs && cs[..|cs|] == cs;
      ok, c' := EatPipelineReplies(|cs|, full);
    }

    method CreateUser(user: string, password: string, time: int) returns (ok: bool)
      requires Valid() && Serviceable()
      modifies this
      ensures Valid() && Serviceable() && mine == old(mine)
      ensures Strikes(tape) <= Strikes(old(tape)) && (!ok ==> Strikes(tape) + MAX_ATTEMPTS <= Strikes(old(tape)))
      ensures ok ==> db == ExecAll(old(db), CreateCommands(user, password, time))
      ensures !ok ==> CutRun(old(db), CreateCommands(user, password, time), db)
    {
      var cs := CreateCommands(user, password, time);
      var attempt, testConn, again := 1, false, true;
      ok := false;
      CutRunNone(db, cs);
      while again
        invariant Valid() && Serviceable() && mine == old(mine) && 1 <= attempt <= MAX_ATTEMPTS + 1
        invariant again ==> !ok && attempt <= MAX_ATTEMPTS
        invariant Strikes(tape) <= Strikes(old(tape)) && (!ok ==> Strikes(tape) + attempt - 1 <= Strikes(old(tape)))
        invariant !ok && !again ==> attempt == MAX_ATTEMPTS + 1
        invariant ok ==> db == ExecAll(old(db), cs)
        invariant !ok ==> CutRun(old(db), cs, db)
        decreases MAX_ATTEMPTS + 1 - attempt
      {
        ghost var before := db;
        var c := GetConnection(testConn);
        if c.None? {
          Release(None);
        } else {
          testConn := true;
          var conn: Conn;
          ok, conn := RunPipeline(c.value, cs);
          Release(Some(conn));
          if ok {
            CreateRetryTransparent(old(db), user, password, time, before);
          } else {
            CutRunCut(old(db), cs, before, db);
          }
        }
        again := !ok && attempt < MAX_ATTEMPTS;
        attempt := attempt + 1;
      }
    }

    /** One attempt of an upload that began with `start`. */
    method UpsertOnce(user: string, rows: seq<Account>, testConn: bool, ghost start: Db)
      returns (ok: bool, ghost outcome: Outcome, tested: bool)
      requires Valid() && Serviceable() && CutRun(start, UpsertCommands(user, rows), db)
      modifies this
      ensures Valid() && Serviceable() && mine == old(mine) && CutRun(start, UpsertCommands(user, rows), db)
      ensures ok <==> !outcome.Broken?
      ensures Strikes(tape) <= Strikes(old(tape)) && (!outcome.Written? ==> Strikes(tape) < Strikes(old(tape)))
      ensures !testConn ==> outcome == FirstOutcome(MayGrow(old(Snapshot())), old(tape), 2 * |rows|)
      ensures outcome.Written? ==> db == ExecAll(start, UpsertCommands(user, rows))
    {
      var cs := UpsertCommands(user, rows);
      ghost var before := db;
      UpsertCommandsAreUpserts(user, rows);
      tested := testConn;
      var c := GetConnection(testConn);
      if c.None? {
        Release(None);
        return true, NoConnection, tested;
      }
      var conn: Conn;
      ok, conn := RunPipeline(c.value, cs);
      Release(Some(conn));
      if ok {
        UpsertRetryTransparent(start, user, rows, before);
        CutRunMore(start, cs, before, |cs|);
        assert cs[..|cs|] == cs;
      } else {
        CutRunCut(start, cs, before, db);
      }
      outcome, tested := if ok then Written else Broken, true;
    }

    /**
     * Writes index entries and account hashes for all rows. An attempt that gets no connection counts as a
     * success: what `ok` tells is that the last attempt did not break, not that it wrote.
     */
    method UpsertAccounts(user: string, rows: seq<Account>)
      returns (ok: bool, ghost outcomes: seq<Outcome>)
      requires Valid() && Serviceable()
      modifies this
      ensures Valid() && Serviceable() && mine == old(mine)
      ensures Reports(outcomes, ok) && Failures(outcomes) <= Strikes(old(tape)) - Strikes(tape)
      ensures outcomes[0] == FirstOutcome(MayGrow(old(Snapshot())), old(tape), 2 * |rows|)
      ensures Strikes(old(tape)) == 0 ==> ok && outcomes == [Written]
      ensures CutRun(old(db), UpsertCommands(user, rows), db)
      ensures WroteLast(outcomes) ==> db == ExecAll(old(db), UpsertCommands(user, rows))
    {
      var attempt, testConn, again := 1, false, true;
      ok, outcomes := false, [];
      CutRunNone(db, UpsertCommands(user, rows));
      while again
        invariant Valid() && Serviceable() && mine == old(mine) && attempt == |outcomes| + 1
        invariant again ==> attempt <= MAX_ATTEMPTS + 1 && !WroteLast(outcomes)
        invariant again ==> forall i :: 0 <= i < |outcomes| ==> outcomes[i].Broken?
        invariant !again ==> Reports(outcomes, ok)
        invariant Failures(outcomes) <= Strikes(old(tape)) - Strikes(tape)
        invariant outcomes == [] ==> !testConn && tape == old(tape) && Snapshot() == old(Snapshot())
        invariant outcomes != [] ==> outcomes[0] == FirstOutcome(MayGrow(old(Snapshot())), old(tape), 2 * |rows|)
        invariant CutRun(old(db), UpsertCommands(user, rows), db)
        invariant WroteLast(outcomes) ==> db == ExecAll(old(db), UpsertCommands(user, rows))
        decreases again, MAX_ATTEMPTS + 2 - attempt
      {
        ghost var outcome;
        ok, outcome, testConn := UpsertOnce(user, rows, testConn, old(db));
        outcomes := outcomes + [outcome];
        again := !ok && attempt <= MAX_ATTEMPTS;
        attempt := attempt + 1;
      }
      if Strikes(old(tape)) == 0 {
        CalmWrites(MayGrow(old(Snapshot())), old(tape), 2 * |rows|);
      }
    }

    /** One attempt to set the last sync time. */
    method SyncOnce(user: string, time: int, testConn: bool) returns (ok: bool, ghost outcome: Outcome, tested: bool)
      requires Valid() && Serviceable()
      modifies this
      ensures Valid() && Serviceable() && mine == old(mine)
      ensures ok <==> !outcome.Broken?
      ensures Strikes(tape) <= Strikes(old(tape)) && (!outcome.Written? ==> Strikes(tape) < Strikes(old(tape)))
      ensures !testConn ==> outcome == FirstOutcome(MayGrow(old(Snapshot())), old(tape), 1)
      ensures db == old(db) || db == Exec(old(db), SetLastSync(user, time))
      ensures outcome.Written? ==> db == Exec(old(db), SetLastSync(user, time))
    {
      var cs := [SetLastSync(user, time)];
      tested := testConn;
      var c := GetConnection(testConn);
      if c.None? {
        Release(None);
        return true, NoConnection, tested;
      }
      ghost var before := db;
      var conn: Conn;
      ok, conn := RunPipeline(c.value, cs);
      Release(Some(conn));
      CutOfOne(before, cs[0], db);
      ExecTwo(before, cs[0], cs[0]);
      outcome, tested := if ok then Written else Broken, true;
    }

    /** Sets the last sync time; like an upsert, an attempt without a connection counts as a success. */
    method UpdateLastSync(user: string, time: int) returns (ok: bool, ghost outcomes: seq<Outcome>)
      requires Valid() && Serviceable()
      modifies this
      ensures Valid() && Serviceable() && mine == old(mine)
      ensures Reports(outcomes, ok) && Failures(outcomes) <= Strikes(old(tape)) - Strikes(tape)
      ensures outcomes[0] == FirstOutcome(MayGrow(old(Snapshot())), old(tape), 1)
      ensures Strikes(old(tape)) == 0 ==> ok && outcomes == [Written]
      ensures db == old(db) || db == Exec(old(db), SetLastSync(user, time))
      ensures WroteLast(outcomes) ==> db == Exec(old(db), SetLastSync(user, time))
    {
      var attempt, testConn, again := 1, false, true;
      ok, outcomes := false, [];
      while again
        invariant Valid() && Serviceable() && mine == old(mine) && attempt == |outcomes| + 1
        invariant again ==> attempt <= MAX_ATTEMPTS + 1 && !WroteLast(outcomes)
        invariant again ==> forall i :: 0 <= i < |outcomes| ==> outcomes[i].Broken?
        invariant !again ==> Reports(outcomes, ok)
        invariant Failures(outcomes) <= Strikes(old(tape)) - Strikes(tape)
        invariant outcomes == [] ==> !testConn && tape == old(tape) && Snapshot() == old(Snapshot())
        invariant outcomes != [] ==> outcomes[0] == FirstOutcome(MayGrow(old(Snapshot())), old(tape), 1)
        invariant db == old(db) || db == Exec(old(db), SetLastSync(user, time))
        invariant WroteLast(outcomes) ==> db == Exec(old(db), SetLastSync(user, time))
        decreases again, MAX_ATTEMPTS + 2 - attempt
      {
        ghost var outcome;
        ok, outcome, testConn := SyncOnce(user, time, testConn);
        outcomes := outcomes + [outcome];
        again := !ok && attempt <= MAX_ATTEMPTS;
        attempt := attempt + 1;
      }
      if Strikes(old(tape)) == 0 {
        CalmWrites(MayGrow(old(Snapshot())), old(tape), 1);
      }
    }

    /** `redisCommand` for the index: its names, in some order; `None` for a failure or an error reply. */
    method ReadIndex(c: Conn, user: string) returns (names: Option<seq<string>>, c': Conn)
      requires Clean(c)
      modifies this`db, this`tape
      ensures db == old(db)
      ensures Strikes(tape) <= Strikes(old(tape)) && (names.None? ==> Strikes(tape) < Strikes(old(tape)))
      ensures Complaints(tape) <= Complaints(old(tape))
      ensures c'.err || c'.pending == []
      ensures names.Some? ==> Clean(c') && Lists(names.value, IndexOf(db, user))
    {
      var full := Append(c, [GetIndex(user)]);
      assert full.pending == [GetIndex(user)];
      ghost var before := db;
      var e;
      e, c' := GetReply(full);
      if e.Breaks? {
        CutReadsOnly(before, [GetIndex(user)], db);
        return None, c';
      }
      if e.Complains? {
        return None, c';
      }
      var listed := ListNames(IndexOf(db, user));
      names := Some(listed);
    }

    /** One attempt of a deletion over a borrowed connection. */
    method DeleteOnce(user: string, c: Conn) returns (ok: bool, c': Conn)
      requires Clean(c)
      modifies this`db, this`tape
      ensures c'.err || c'.pending == []
      ensures Strikes(tape) <= Strikes(old(tape)) && (!ok ==> Strikes(tape) < Strikes(old(tape)))
      ensures KeyedByName(old(db)) ==> KeyedByName(db)
      ensures DeleteAttempt(old(db), user, db, ok)
    {
      var names;
      names, c' := ReadIndex(c, user);
      if names.None? {
        NothingDeleted(db, user);
        return false, c';
      }
      var dels := DelAccounts(user, names.value);
      var tail := [DelIndex(user), DelUser(user), DelLastSync(user)];
      var cs := DeleteCommands(user, names.value);
      assert cs[..|dels|] == dels && cs[|dels|..] == tail && cs[..|cs|] == cs;
      ok, c' := RunPipeline(c', dels);
      if ok {
        ok, c' := RunPipeline(c', tail);
        if ok {
          ExecAllConcat(old(db), dels, tail);
          assert db == ExecAll(old(db), cs[..|cs|]);
        } else {
          CutLater(old(db), cs, |dels|, db);
        }
      } else {
        ghost var k: nat :| k <= |dels| && db == ExecAll(old(db), dels[..k]);
        assert dels[..k] == cs[..k];
      }
    }

    method DeleteUser(user: string) returns (ok: bool)
      requires Valid() && Serviceable()
      modifies this
      ensures Valid() && Serviceable() && mine == old(mine)
      ensures Strikes(tape) <= Strikes(old(tape)) && (!ok ==> Strikes(tape) + MAX_ATTEMPTS + 1 <= Strikes(old(tape)))
      ensures ok ==> db == WithoutListed(old(db), user)
      ensures !ok ==> DeleteRun(old(db), user, db)
    {
      var attempt, testConn, again := 1, false, true;
      ok := false;
      DeleteRunNone(db, user);
      while again
        invariant Valid() && Serviceable() && mine == old(mine) && 1 <= attempt <= MAX_ATTEMPTS + 2
        invariant again ==> !ok && attempt <= MAX_ATTEMPTS + 1
        invariant Strikes(tape) <= Strikes(old(tape)) && (!ok ==> Strikes(tape) + attempt - 1 <= Strikes(old(tape)))
        invariant !ok && !again ==> attempt == MAX_ATTEMPTS + 2
        invariant ok ==> db == WithoutListed(old(db), user)
        invariant !ok ==> DeleteRun(old(db), user, db)
        decreases MAX_ATTEMPTS + 2 - attempt
      {
        ghost var before := db;
        var c := GetConnection(testConn);
        if c.None? {
          Release(None);
        } else {
          testConn := true;
          var conn: Conn;
          ok, conn := DeleteOnce(user, c.value);
          Release(Some(conn));
          if ok {
            DeleteRetryTransparent(old(db), user, before, db);
          } else {
            DeleteRunMore(old(db), user, before, db, false);
          }
        }
        again := !ok && attempt <= MAX_ATTEMPTS;
        attempt := attempt + 1;
      }
    }

    /**
     * The reply to the oldest command, a read of one account: its fields in some order, or no field at all,
     * for an account that is not there and for an error reply alike.
     */
    method ReadFields(c: Conn, ghost user: string, ghost name: string)
      returns (ok: bool, c': Conn, fields: seq<(string, string)>)
      requires !c.err && c.pending != [] && c.pending[0] == GetAccount(user, name)
      requires forall x :: x in c.pending ==> IsRead(x)
      modifies this`db, this`tape
      ensures db == old(db) && Strikes(old(tape)) == Strikes(tape) + if Head(old(tape)).Fine? then 0 else 1
      ensures Complaints(old(tape)) == Complaints(tape) + if Head(old(tape)).Complains? then 1 else 0
      ensures ok <==> !Head(old(tape)).Breaks?
      ensures ok ==> c' == Conn(c.pending[1..], false)
      ensures Head(old(tape)).Fine? && (user, name) in db.accounts ==> ListsAccount(fields, db.accounts[(user, name)])
      ensures !Head(old(tape)).Fine? || (user, name) !in db.accounts ==> fields == []
      ensures !ok ==> c'.err
    {
      ghost var before := db;
      var asked := c.pending[0];
      fields := [];
      var e;
      e, c' := GetReply(c);
      ok := !e.Breaks?;
      if !ok {
        CutReadsOnly(before, c.pending, db);
        return;
      }
      if e.Fine? && (asked.user, asked.name) in db.accounts {
        var a := db.accounts[(asked.user, asked.name)];
        fields := ListFields(a);
      }
    }

    /** Reads and decodes the account of every listed name; a name without a full reply is skipped. */
    method ReadAccounts(user: string, names: seq<string>, c: Conn, accounts: Replica)
      returns (ok: bool, c': Conn, accounts': Replica)
      requires Clean(c) && KeyedByName(db) && Lists(names, IndexOf(db, user)) && PartOf(accounts, ReadView(db, user))
      modifies this`db, this`tape
      ensures db == old(db) && PartOf(accounts', ReadView(db, user))
      ensures Strikes(tape) <= Strikes(old(tape)) && (!ok ==> Strikes(tape) < Strikes(old(tape)))
      ensures Complaints(tape) <= Complaints(old(tape))
      ensures ok && Strikes(tape) < Strikes(old(tape)) ==> Complaints(tape) < Complaints(old(tape))
      ensures c'.err || c'.pending == []
      ensures ok ==> !c'.err
      ensures Strikes(tape) == Strikes(old(tape)) ==> accounts' == ReadView(db, user)
    {
      var cs := GetCommands(user, names);
      ok, c', accounts' := true, Append(c, cs), accounts;
      for i := 0 to |names|
        invariant db == old(db) && PartOf(accounts', ReadView(db, user))
        invariant ok && c' == Conn(cs[i..], false) && Strikes(tape) <= Strikes(old(tape))
        invariant Complaints(tape) <= Complaints(old(tape))
        invariant Strikes(tape) < Strikes(old(tape)) ==> Complaints(tape) < Complaints(old(tape))
        invariant Strikes(tape) == Strikes(old(tape)) ==>
                    forall k :: 0 <= k < i && (user, names[k]) in db.accounts ==> names[k] in accounts'
      {
        assert cs[i..][0] == GetAccount(user, names[i]) && cs[i..][1..] == cs[i + 1..];
        var fields;
        ok, c', fields := ReadFields(c', user, names[i]);
        if !ok {
          return;
        }
        if |fields| == 7 {
          ghost var stored := db.accounts[(user, names[i])];
          InIndex(db, user, names[i]);
          assert ReadView(db, user)[names[i]] == stored;
          var account := DecodeAccount(fields, stored);
          if account.accountName !in accounts' {
            accounts' := accounts'[account.accountName := account];
          }
        }
      }
      if Strikes(tape) == Strikes(old(tape)) {
        forall n | n in ReadView(db, user) ensures n in accounts' {
          var k :| 0 <= k < |names| && names[k] == n;
        }
      }
    }

    /**
     * Reading a user's accounts. The result is what the index lists when the last attempt met nothing wrong
     * (`complete`), and some of it otherwise: the caller is not told which. Attempts go on while something
     * breaks, four at most; an error reply to the reading of one account ends them like a success.
     */
    method GetAccountsForUser(user: string) returns (accounts: Replica, ghost complete: bool)
      requires Valid() && Serviceable()
      modifies this
      ensures Valid() && Serviceable() && mine == old(mine) && db == old(db)
      ensures Strikes(tape) <= Strikes(old(tape)) && Complaints(tape) <= Complaints(old(tape))
      ensures !complete ==>
                || Strikes(tape) + MAX_ATTEMPTS + 1 <= Strikes(old(tape))
                || (Strikes(tape) < Strikes(old(tape)) && Complaints(tape) < Complaints(old(tape)))
      ensures PartOf(accounts, ReadView(db, user))
      ensures complete ==> accounts == ReadView(db, user)
    {
      var attempt, testConn, again, success := 1, false, true, false;
      accounts, complete := map[], false;
      while again
        invariant Valid() && Serviceable() && mine == old(mine) && 1 <= attempt <= MAX_ATTEMPTS + 2
        invariant again ==> attempt <= MAX_ATTEMPTS + 1
        invariant db == old(db) && PartOf(accounts, ReadView(db, user))
        invariant Strikes(tape) <= Strikes(old(tape)) && Complaints(tape) <= Complaints(old(tape))
        invariant again ==> !success
        invariant !success ==> Strikes(tape) + attempt - 1 <= Strikes(old(tape))
        invariant !again && !success ==> attempt == MAX_ATTEMPTS + 2
        invariant success && !complete ==>
                    Strikes(tape) < Strikes(old(tape)) && Complaints(tape) < Complaints(old(tape))
        invariant complete ==> accounts == ReadView(db, user)
        decreases MAX_ATTEMPTS + 2 - attempt
      {
        ghost var ahead;
        success, complete := false, false;
        var c := GetConnection(testConn);
        if c.None? {
          Release(None);
        } else {
          testConn := true;
          var names, conn := ReadIndex(c.value, user);
          if names.Some? {
            ahead := tape;
            success, conn, accounts := ReadAccounts(user, names.value, conn, accounts);
            complete := success && Strikes(tape) == Strikes(ahead);
          }
          Release(Some(conn));
        }
        again := !success && attempt <= MAX_ATTEMPTS;
        attempt := attempt + 1;
      }
    }

    /**
     * The cleaner's visit to one user, over a connection it already holds: delete the accounts it could
     * read, then the index.
     */
    method PurgeUser(user: string, c: Conn)
      returns (ok: bool, c': Conn, ghost read: seq<string>, ghost executed: nat, ghost complete: bool)
      requires Valid() && Clean(c) && Serviceable()
      modifies this
      ensures Valid() && Serviceable() && mine == old(mine)
      ensures c'.err || c'.pending == []
      ensures forall n :: n in read ==> (user, n) in old(db).accounts
      ensures executed <= |PurgeCommands(user, read)| && db == ExecAll(old(db), PurgeCommands(user, read)[..executed])
      ensures Strikes(tape) <= Strikes(old(tape)) && (!ok || !complete ==> Strikes(tape) < Strikes(old(tape)))
      ensures Strikes(old(tape)) <= MAX_ATTEMPTS && Complaints(old(tape)) == 0 ==> complete
      ensures ok ==> executed == |PurgeCommands(user, read)|
      ensures complete ==> forall n :: n in ReadView(old(db), user) ==> n in read
    {
      var accounts;
      accounts, complete := GetAccountsForUser(user);
      var names := ListNames(accounts.Keys);
      read := names;
      var dels, cs := DelAccounts(user, names), PurgeCommands(user, names);
      assert cs[..|dels|] == dels && cs[..|cs|] == cs;
      ok, c' := RunPipeline(c, dels);
      if ok {
        ok, c' := RunPipeline(c', [DelIndex(user)]);
        if ok {
          ExecAllConcat(old(db), dels, [DelIndex(user)]);
          executed := |cs|;
        } else {
          assert cs[|dels|..] == [DelIndex(user)];
          CutLater(old(db), cs, |dels|, db);
          executed :| executed <= |cs| && db == ExecAll(old(db), cs[..executed]);
        }
      } else {
        ghost var k: nat :| k <= |dels| && db == ExecAll(old(db), dels[..k]);
        assert dels[..k] == cs[..k];
        executed := k;
      }
    }
  }

  function GetCommands(user: string, names: seq<string>): seq<Command> {
    seq(|names|, i requires 0 <= i < |names| => GetAccount(user, names[i]))
  }

  ghost predicate PartOf(part: Replica, whole: Replica) {
    forall n :: n in part ==> n in whole && part[n] == whole[n]
  }

  /** The fields of a hash in whatever order the server returns them. */
  method ListFields(a: Account) returns (fields: seq<(string, string)>)
    ensures ListsAccount(fields, a)
  {
    fields := [];
    var left := {Name, User, Password, OldPassword, Url, UpdateTime, Deleted};
    forall f: Field ensures f in left {
      match f
      case Name => case User => case Password => case OldPassword => case Url => case UpdateTime => case Deleted =>
    }
    while left != {}
      invariant |fields| + |left| == 7
      invariant forall i :: 0 <= i < |fields| ==> FieldIn(a, fields[i])
      invariant forall f: Field :: f in left || Seen(fields, |fields|, f)
      decreases |left|
    {
      var f :| f in left;
      ghost var before := fields;
      fields := fields + [(KeyOf(f), ValueOf(a, f))];
      left := left - {f};
      assert fields[|before|].0 == KeyOf(f);
      assert Seen(fields, |fields|, f);
      forall g | Seen(before, |before|, g) ensures Seen(fields, |fields|, g) {
        var i :| 0 <= i < |before| && before[i].0 == KeyOf(g);
        assert fields[i].0 == KeyOf(g);
      }
    }
  }

  lemma CutRunCut(db: Db, cs: seq<Command>, before: Db, db': Db)
    requires CutRun(db, cs, before) && Cut(before, cs, db')
    ensures CutRun(db, cs, db')
  {
    var k: nat :| k <= |cs| && db' == ExecAll(before, cs[..k]);
    CutRunMore(db, cs, before, k);
  }

  lemma NothingDeleted(db: Db, user: string)
    ensures DeleteAttempt(db, user, db, false)
  {
    var names := ListingOf(IndexOf(db, user));
    assert DeleteCommands(user, names)[..0] == [];
    assert db == ExecAll(db, DeleteCommands(user, names)[..0]);
  }

  ghost function ListingOf(s: set<string>): (names: seq<string>)
    ensures Lists(names, s)
  {
    if s == {} then []
    else var n :| n in s; [n] + ListingOf(s - {n})
  }

  method ListNames(s: set<string>) returns (names: seq<string>)
    ensures Lists(names, s)
  {
    names := [];
    var left := s;
    while left != {}
      invariant left <= s && Lists(names, s - left)
      decreases left
    {
      var n :| n in left;
      names := names + [n];
      left := left - {n};
    }
  }

  predicate IsRead(c: Command) {
    c.Ping? || c.GetIndex? || c.GetAccount?
  }

  lemma {:induction false} ReadsOnly(d: Db, cs: seq<Command>)
    requires forall c :: c in cs ==> IsRead(c)
    ensures ExecAll(d, cs) == d
    decreases |cs|
  {
    if cs != [] {
      assert IsRead(cs[0]);
      ReadsOnly(d, cs[1..]);
    }
  }

  lemma CutReadsOnly(d: Db, cs: seq<Command>, e: Db)
    requires (forall c :: c in cs ==> IsRead(c)) && Cut(d, cs, e)
    ensures e == d
  {
    var k: nat :| k <= |cs| && e == ExecAll(d, cs[..k]);
    ReadsOnly(d, cs[..k]);
  }
}
