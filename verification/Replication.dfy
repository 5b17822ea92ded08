/** One server and any number of clients syncing one user's accounts, freely interleaved. */
module Replication {
  import opened Accounts
  import opened Runs
  import opened SyncDiff
  import PostgresStore

  /** Where a client stands in its session: nothing asked, reply of sync-initial in hand, upload acknowledged. */
  datatype Phase =
    | Idle
    | Asked(want: seq<string>, down: seq<Account>)
    | Acknowledged(down: seq<Account>)

  datatype Client = Client(local: Replica, phase: Phase)

  datatype System = System(server: Replica, clients: seq<Client>)

  datatype Action =
    | Edit(i: nat, account: Account)
    | Initial(i: nat, list: seq<Entry>, want: seq<string>, down: seq<Account>)
    | Final(i: nat, rows: seq<Account>, acknowledged: bool)
    | Abandon(i: nat)
    | Apply(i: nat)

  ghost predicate Next(s: System, a: Action, s': System) {
    && a.i < |s.clients|
    && var c := s.clients[a.i];
       match a
       case Edit(i, account) =>
         s' == s.(clients := s.clients[i := c.(local := c.local[account.accountName := account])])
       case Initial(i, list, want, down) =>
         && c.phase.Idle?
         && Announces(list, c.local)
         && Response(s.server, list, want, down)
         && s' == s.(clients := s.clients[i := c.(phase := Asked(want, down))])
       case Final(i, rows, acknowledged) =>
         // The upload is committed; its reply may be lost, and the client then uploads again or gives up.
         && c.phase.Asked?
         && Answers(rows, c.phase.want, c.local)
         && !PostgresStore.TouchesTwice(s.server, rows)
         && s' == System(MergeAll(s.server, rows),
                         if acknowledged then s.clients[i := c.(phase := Acknowledged(c.phase.down))] else s.clients)
       case Abandon(i) =>
         s' == s.(clients := s.clients[i := c.(phase := Idle)])
       case Apply(i) =>
         && c.phase.Acknowledged?
         && s' == s.(clients := s.clients[i := Client(MergeAll(c.local, c.phase.down), Idle)])
  }

  function Down(p: Phase): seq<Account> {
    match p
    case Idle => []
    case Asked(_, down) => down
    case Acknowledged(down) => down
  }

  /** Every record, held or in flight, is from the pool; what is in flight the server already covers. */
  ghost predicate Good(s: System, pool: set<Account>) {
    && WellNamed(s.server) && s.server.Values <= pool
    && forall i :: 0 <= i < |s.clients| ==> GoodClient(s.server, s.clients[i], pool)
  }

  ghost predicate GoodClient(server: Replica, c: Client, pool: set<Account>) {
    && WellNamed(c.local) && c.local.Values <= pool
    && forall a :: a in Down(c.phase) ==> a in pool && Covers(server, a)
  }

  ghost predicate EditsFrom(acts: seq<Action>, pool: set<Account>) {
    forall k :: 0 <= k < |acts| && acts[k].Edit? ==> acts[k].account in pool
  }

  lemma CoversMonotone(m: Replica, r: Replica, a: Account)
    requires AtLeast(r, m) && Covers(m, a)
    ensures Covers(r, a)
  {
  }

  /** No step lowers the server's time of any name. */
  lemma ServerMonotone(s: System, a: Action, s': System)
    requires Next(s, a, s')
    ensures AtLeast(s'.server, s.server)
  {
    if a.Final? {
      MergeAllIsLatest(s.server, a.rows);
    }
  }

  lemma GoodClientMonotone(server: Replica, server': Replica, c: Client, pool: set<Account>)
    requires GoodClient(server, c, pool) && AtLeast(server', server)
    ensures GoodClient(server', c, pool)
  {
    forall a | a in Down(c.phase) ensures Covers(server', a) {
      CoversMonotone(server, server', a);
    }
  }

  lemma NextClientGood(s: System, a: Action, s': System, pool: set<Account>)
    requires Good(s, pool) && Next(s, a, s') && (a.Edit? ==> a.account in pool)
    ensures GoodClient(s.server, s'.clients[a.i], pool)
  {
    var c, c' := s.clients[a.i], s'.clients[a.i];
    assert GoodClient(s.server, c, pool);
    match a
    case Edit(i, account) =>
    case Initial(i, list, want, down) =>
      forall d | d in down ensures d in pool && Covers(s.server, d) {
        ResponseShips(s.server, c.local, list, want, down, d);
        assert d in s.server.Values;
      }
    case Final(i, rows, acknowledged) =>
    case Abandon(i) =>
    case Apply(i) =>
      MergeWithin(c.local, c.phase.down, pool);
      MergeAllWellNamed(c.local, c.phase.down);
  }

  lemma NextServerGood(s: System, a: Action, s': System, pool: set<Account>)
    requires Good(s, pool) && Next(s, a, s')
    ensures WellNamed(s'.server) && s'.server.Values <= pool
  {
    if a.Final? {
      var c := s.clients[a.i];
      assert GoodClient(s.server, c, pool);
      RowsAre(a.rows, c.phase.want, c.local);
      forall r | r in a.rows ensures r in pool {
        assert c.local[r.accountName] == r;
      }
      MergeWithin(s.server, a.rows, pool);
      MergeAllWellNamed(s.server, a.rows);
    }
  }

  lemma NextGood(s: System, a: Action, s': System, pool: set<Account>)
    requires Good(s, pool) && Next(s, a, s') && (a.Edit? ==> a.account in pool)
    ensures Good(s', pool)
  {
    NextServerGood(s, a, s', pool);
    NextClientGood(s, a, s', pool);
    ServerMonotone(s, a, s');
    forall i | 0 <= i < |s'.clients| ensures GoodClient(s'.server, s'.clients[i], pool) {
      if i == a.i {
        GoodClientMonotone(s.server, s'.server, s'.clients[i], pool);
      } else {
        GoodClientMonotone(s.server, s'.server, s.clients[i], pool);
      }
    }
  }

  lemma {:induction false} RunGood(ss: seq<System>, acts: seq<Action>, pool: set<Account>, k: nat)
    requires IsRun(Next, ss, acts) && Good(ss[0], pool) && EditsFrom(acts, pool) && k < |ss|
    ensures Good(ss[k], pool) && |ss[k].clients| == |ss[0].clients|
  {
    if k > 0 {
      RunGood(ss, acts, pool, k - 1);
      assert Next(ss[k - 1], acts[k - 1], ss[k]);
      NextGood(ss[k - 1], acts[k - 1], ss[k], pool);
    }
  }

  lemma {:induction false} RunServerMonotone(ss: seq<System>, acts: seq<Action>, j: nat, k: nat)
    requires IsRun(Next, ss, acts) && j <= k < |ss|
    ensures AtLeast(ss[k].server, ss[j].server)
  {
    if j < k {
      RunServerMonotone(ss, acts, j, k - 1);
      ServerMonotone(ss[k - 1], acts[k - 1], ss[k]);
    }
  }

  /** All uploads the server committed, in order. */
  function Uploads(acts: seq<Action>): seq<Account> {
    if acts == [] then []
    else Uploads(acts[..|acts| - 1]) + var a := acts[|acts| - 1]; if a.Final? then a.rows else []
  }

  lemma {:induction false} ServerIsMergeOfUploads(ss: seq<System>, acts: seq<Action>)
    requires IsRun(Next, ss, acts)
    ensures ss[|acts|].server == MergeAll(ss[0].server, Uploads(acts))
  {
    if acts != [] {
      var n := |acts| - 1;
      ServerIsMergeOfUploads(ss[..n + 1], acts[..n]);
      var a := acts[n];
      assert Next(ss[n], a, ss[n + 1]);
      MergeAllConcat(ss[0].server, Uploads(acts[..n]), if a.Final? then a.rows else []);
    }
  }

  /**
   * Over a whole run the server holds, per name, the latest of its start and all uploads, and any run
   * committing the same records, in another order or more than once, ends with the same server.
   */
  lemma RunsCommute(ss: seq<System>, acts: seq<Action>, tt: seq<System>, bcts: seq<Action>)
    requires IsRun(Next, ss, acts) && IsRun(Next, tt, bcts) && ss[0].server == tt[0].server
    requires forall a :: a in Uploads(acts) <==> a in Uploads(bcts)
    ensures IsLatest(ss[0].server, Uploads(acts), ss[|acts|].server)
    ensures ss[|acts|].server.Keys == tt[|bcts|].server.Keys
    ensures forall n :: n in ss[|acts|].server ==> ss[|acts|].server[n].updateTime == tt[|bcts|].server[n].updateTime
    ensures WellNamed(ss[0].server) && Coherent(ss[0].server.Values + set a | a in Uploads(acts)) ==>
              ss[|acts|].server == tt[|bcts|].server
  {
    ServerIsMergeOfUploads(ss, acts);
    ServerIsMergeOfUploads(tt, bcts);
    MergeAllIsLatest(ss[0].server, Uploads(acts));
    OrderIndependent(ss[0].server, Uploads(acts), Uploads(bcts));
  }

  /** A step keeps the server's record of a name or replaces it by a strictly newer one. */
  lemma RecordStep(s: System, a: Action, s': System, n: string)
    requires Next(s, a, s') && n in s.server
    ensures n in s'.server
    ensures s'.server[n] == s.server[n] || s'.server[n].updateTime > s.server[n].updateTime
  {
    if a.Final? {
      MergeAllIsLatest(s.server, a.rows);
    }
  }

  /** A tombstone is only ever replaced by a strictly newer record: no older live record comes back. */
  lemma {:induction false} NoResurrection(ss: seq<System>, acts: seq<Action>, j: nat, k: nat, n: string)
    requires IsRun(Next, ss, acts) && j <= k < |ss| && n in ss[j].server && ss[j].server[n].deleted
    ensures n in ss[k].server
    ensures !ss[k].server[n].deleted ==> ss[k].server[n].updateTime > ss[j].server[n].updateTime
  {
    if j < k {
      NoResurrection(ss, acts, j, k - 1, n);
      RunServerMonotone(ss, acts, j, k - 1);
      RecordStep(ss[k - 1], acts[k - 1], ss[k], n);
    }
  }

  // ---- Convergence once local edits have stopped ----

  ghost predicate NoEdits(acts: seq<Action>) {
    forall k :: 0 <= k < |acts| ==> !acts[k].Edit?
  }

  /** Step `k` leaves client `i` as it is: it is another client's, or an upload whose reply was lost. */
  predicate Bystander(acts: seq<Action>, k: nat, i: nat)
    requires k < |acts|
  {
    acts[k].i != i || (acts[k].Final? && !acts[k].acknowledged)
  }

  /** Client `i` starts a session at `a`, has its upload acknowledged at `b` and applies the reply at `c`. */
  ghost predicate SessionAt(acts: seq<Action>, i: nat, a: nat, b: nat, c: nat) {
    && a < b < c < |acts|
    && acts[a].Initial? && acts[a].i == i
    && acts[b].Final? && acts[b].i == i && acts[b].acknowledged
    && acts[c].Apply? && acts[c].i == i
    && (forall k :: a < k < b || b < k < c ==> Bystander(acts, k, i))
  }

  ghost predicate CompletesSession(acts: seq<Action>, i: nat, lo: nat, hi: nat) {
    exists a: nat, b: nat, c: nat :: lo <= a && c < hi && SessionAt(acts, i, a, b, c)
  }

  lemma {:induction false} ClientStill(ss: seq<System>, acts: seq<Action>, i: nat, lo: nat, hi: nat)
    requires IsRun(Next, ss, acts) && lo <= hi < |ss|
    requires forall k :: lo <= k < hi ==> Bystander(acts, k, i)
    requires i < |ss[lo].clients|
    ensures i < |ss[hi].clients| && ss[hi].clients[i] == ss[lo].clients[i]
  {
    if lo < hi {
      ClientStill(ss, acts, i, lo, hi - 1);
      assert Bystander(acts, hi - 1, i);
      assert Next(ss[hi - 1], acts[hi - 1], ss[hi]);
    }
  }

  lemma LocalStep(s: System, a: Action, s': System, i: nat)
    requires Next(s, a, s') && !a.Edit? && i < |s.clients|
    ensures i < |s'.clients| && AtLeast(s'.clients[i].local, s.clients[i].local)
  {
    if a.i == i && a.Apply? {
      MergeAllIsLatest(s.clients[i].local, s.clients[i].phase.down);
    }
  }

  lemma {:induction false} LocalMonotone(ss: seq<System>, acts: seq<Action>, i: nat, j: nat, k: nat)
    requires IsRun(Next, ss, acts) && NoEdits(acts) && j <= k < |ss| && i < |ss[j].clients|
    ensures i < |ss[k].clients| && AtLeast(ss[k].clients[i].local, ss[j].clients[i].local)
  {
    if j < k {
      LocalMonotone(ss, acts, i, j, k - 1);
      LocalStep(ss[k - 1], acts[k - 1], ss[k], i);
    }
  }

  /** After a session the server covers what the client held when the session began. */
  lemma SessionUploads(ss: seq<System>, acts: seq<Action>, pool: set<Account>, i: nat, a: nat, b: nat, c: nat)
    requires IsRun(Next, ss, acts) && NoEdits(acts) && Good(ss[0], pool)
    requires SessionAt(acts, i, a, b, c) && i < |ss[0].clients|
    ensures AtLeast(ss[b + 1].server, ss[0].clients[i].local)
  {
    RunGood(ss, acts, pool, a);
    RunGood(ss, acts, pool, b);
    assert Next(ss[a], acts[a], ss[a + 1]) && Next(ss[b], acts[b], ss[b + 1]);
    var held := ss[a].clients[i].local;
    LocalMonotone(ss, acts, i, 0, a);
    ClientStill(ss, acts, i, a + 1, b);
    var want, down, rows := acts[a].want, acts[a].down, acts[b].rows;
    assert GoodClient(ss[a].server, ss[a].clients[i], pool);
    RunServerMonotone(ss, acts, a, b);
    RowsAre(rows, want, held);
    MergeAllIsLatest(ss[b].server, rows);
    var s := ss[b + 1].server;
    forall n | n in held ensures n in s && s[n].updateTime >= held[n].updateTime {
      ResponseRequests(ss[a].server, held, acts[a].list, want, down, n);
      if n in want {
        assert held[n] in rows;
        assert Covers(s, held[n]);
      }
    }
  }

  /** After a session the client covers what the server held when the session began. */
  lemma SessionDownloads(ss: seq<System>, acts: seq<Action>, pool: set<Account>, i: nat, a: nat, b: nat, c: nat)
    requires IsRun(Next, ss, acts) && Good(ss[0], pool) && EditsFrom(acts, pool)
    requires SessionAt(acts, i, a, b, c) && i < |ss[0].clients|
    ensures i < |ss[c + 1].clients| && AtLeast(ss[c + 1].clients[i].local, ss[a].server)
  {
    RunGood(ss, acts, pool, a);
    assert Next(ss[a], acts[a], ss[a + 1]);
    ClientStill(ss, acts, i, a + 1, b);
    assert Next(ss[b], acts[b], ss[b + 1]);
    ClientStill(ss, acts, i, b + 1, c);
    assert Next(ss[c], acts[c], ss[c + 1]);
    DownloadReachesClient(ss[a].server, ss[a].clients[i].local, acts[a].list, acts[a].want, acts[a].down);
  }

  /** `top` covers every record of the system, held or in flight. */
  ghost predicate Bounded(s: System, top: Replica) {
    && AtLeast(top, s.server)
    && forall i :: 0 <= i < |s.clients| ==> AtLeast(top, s.clients[i].local)
  }

  lemma NextBounded(s: System, a: Action, s': System, pool: set<Account>, top: Replica)
    requires Good(s, pool) && Next(s, a, s') && !a.Edit? && Bounded(s, top)
    ensures Bounded(s', top)
  {
    var c := s.clients[a.i];
    assert GoodClient(s.server, c, pool);
    if a.Final? {
      RowsAre(a.rows, c.phase.want, c.local);
      forall r | r in a.rows ensures Covers(top, r) {
        assert c.local[r.accountName] == r;
      }
      MergeBelow(s.server, a.rows, top);
    } else if a.Apply? {
      forall d | d in c.phase.down ensures Covers(top, d) {
        CoversMonotone(s.server, top, d);
      }
      MergeBelow(c.local, c.phase.down, top);
    }
  }

  lemma {:induction false} RunBounded(ss: seq<System>, acts: seq<Action>, pool: set<Account>, top: Replica, j: nat,
                                      k: nat)
    requires IsRun(Next, ss, acts) && NoEdits(acts) && Good(ss[0], pool) && j <= k < |ss| && Bounded(ss[j], top)
    ensures Bounded(ss[k], top)
  {
    if j < k {
      RunBounded(ss, acts, pool, top, j, k - 1);
      RunGood(ss, acts, pool, k - 1);
      NextBounded(ss[k - 1], acts[k - 1], ss[k], pool, top);
    }
  }

  /** `r` holds per name the latest record among the server and all clients of `s`, and nothing else. */
  ghost predicate IsLatestOfAll(s: System, r: Replica) {
    && AtLeast(r, s.server)
    && (forall i :: 0 <= i < |s.clients| ==> AtLeast(r, s.clients[i].local))
    && forall n :: n in r ==> HeldBy(s, n, r[n])
  }

  ghost predicate HeldBy(s: System, n: string, a: Account) {
    || (n in s.server && s.server[n] == a)
    || exists i :: 0 <= i < |s.clients| && n in s.clients[i].local && s.clients[i].local[n] == a
  }

  /** A replica built from a system's records: a bound that invents nothing. */
  function Everything(server: Replica, clients: seq<Client>): Replica {
    if clients == [] then server
    else var rest := Everything(server, clients[..|clients| - 1]);
         var local := clients[|clients| - 1].local;
         map n | n in rest.Keys + local.Keys ::
           if n in rest && (n !in local || rest[n].updateTime >= local[n].updateTime) then rest[n] else local[n]
  }

  lemma HeldByMore(server: Replica, clients: seq<Client>, k: nat, n: string, a: Account)
    requires k <= |clients| && HeldBy(System(server, clients[..k]), n, a)
    ensures HeldBy(System(server, clients), n, a)
  {
    if !(n in server && server[n] == a) {
      var i :| 0 <= i < k && n in clients[..k][i].local && clients[..k][i].local[n] == a;
      assert n in clients[i].local;
    }
  }

  lemma {:induction false} EverythingIsLatest(server: Replica, clients: seq<Client>)
    ensures IsLatestOfAll(System(server, clients), Everything(server, clients))
  {
    if clients != [] {
      var k := |clients| - 1;
      var init := clients[..k];
      EverythingIsLatest(server, init);
      var e, r := Everything(server, clients), Everything(server, init);
      forall i | 0 <= i < |clients| ensures AtLeast(e, clients[i].local) {
        if i < k {
          assert AtLeast(r, init[i].local);
        }
      }
      forall n | n in e ensures HeldBy(System(server, clients), n, e[n]) {
        if n in r && e[n] == r[n] {
          HeldByMore(server, clients, k, n, r[n]);
        } else {
          assert n in clients[k].local;
        }
      }
    }
  }

  lemma LatestWithin(s: System, r: Replica, pool: set<Account>)
    requires Good(s, pool) && IsLatestOfAll(s, r)
    ensures WellNamed(r) && r.Values <= pool
  {
    forall n | n in r ensures r[n].accountName == n && r[n] in pool {
      assert HeldBy(s, n, r[n]);
      if !(n in s.server && s.server[n] == r[n]) {
        var i :| 0 <= i < |s.clients| && n in s.clients[i].local && s.clients[i].local[n] == r[n];
        assert GoodClient(s.server, s.clients[i], pool);
        assert r[n] in s.clients[i].local.Values;
      }
    }
  }

  lemma OneRoundCovers(ss: seq<System>, acts: seq<Action>, pool: set<Account>, m: nat, k: nat, n: string, r: Account)
    requires IsRun(Next, ss, acts) && NoEdits(acts) && Good(ss[0], pool) && m <= k < |ss|
    requires forall i :: 0 <= i < |ss[0].clients| ==> CompletesSession(acts, i, 0, m)
    requires HeldBy(ss[0], n, r)
    ensures n in ss[k].server && ss[k].server[n].updateTime >= r.updateTime
  {
    RunServerMonotone(ss, acts, 0, k);
    if !(n in ss[0].server && ss[0].server[n] == r) {
      var i :| 0 <= i < |ss[0].clients| && n in ss[0].clients[i].local && ss[0].clients[i].local[n] == r;
      assert CompletesSession(acts, i, 0, m);
      var a: nat, b: nat, c: nat :| c < m && SessionAt(acts, i, a, b, c);
      SessionUploads(ss, acts, pool, i, a, b, c);
      RunServerMonotone(ss, acts, b + 1, k);
    }
  }

  /** Same names and times on both sides. */
  ghost predicate SameTimes(m: Replica, r: Replica) {
    AtLeast(m, r) && AtLeast(r, m)
  }

  ghost predicate Settled(s: System, top: Replica) {
    SameTimes(s.server, top) && forall i :: 0 <= i < |s.clients| ==> SameTimes(s.clients[i].local, top)
  }

  ghost predicate AllHold(s: System, top: Replica) {
    s.server == top && forall i :: 0 <= i < |s.clients| ==> s.clients[i].local == top
  }

  /** Once every client has completed a session, the server has the latest time of everything. */
  lemma OneRoundSettlesServer(ss: seq<System>, acts: seq<Action>, pool: set<Account>, m: nat, k: nat)
    requires IsRun(Next, ss, acts) && NoEdits(acts) && Good(ss[0], pool) && m <= k < |ss|
    requires forall i :: 0 <= i < |ss[0].clients| ==> CompletesSession(acts, i, 0, m)
    ensures SameTimes(ss[k].server, Everything(ss[0].server, ss[0].clients))
  {
    var top := Everything(ss[0].server, ss[0].clients);
    EverythingIsLatest(ss[0].server, ss[0].clients);
    assert ss[0] == System(ss[0].server, ss[0].clients);
    RunBounded(ss, acts, pool, top, 0, k);
    forall n | n in top ensures n in ss[k].server && ss[k].server[n].updateTime >= top[n].updateTime {
      assert HeldBy(ss[0], n, top[n]);
      OneRoundCovers(ss, acts, pool, m, k, n, top[n]);
    }
  }

  /** A session that starts once the server is settled leaves the client settled to the end of the run. */
  lemma SecondRoundSettlesClient(ss: seq<System>, acts: seq<Action>, pool: set<Account>, m: nat, i: nat, top: Replica)
    requires IsRun(Next, ss, acts) && NoEdits(acts) && Good(ss[0], pool) && m <= |acts| && i < |ss[0].clients|
    requires CompletesSession(acts, i, m, |acts|)
    requires Bounded(ss[|acts|], top) && forall k :: m <= k < |ss| ==> AtLeast(ss[k].server, top)
    ensures i < |ss[|acts|].clients| && SameTimes(ss[|acts|].clients[i].local, top)
  {
    var z := |acts|;
    RunGood(ss, acts, pool, z);
    var a: nat, b: nat, c: nat :| m <= a && c < z && SessionAt(acts, i, a, b, c);
    SessionDownloads(ss, acts, pool, i, a, b, c);
    LocalMonotone(ss, acts, i, c + 1, z);
  }

  /**
   * Two rounds suffice. From any state, whatever sessions are in flight, once no client edits any more:
   * when every client has completed a session and then every client has completed another, the server and
   * every client hold per name the latest update time that any replica held at the start; and the same
   * latest records, when the name and the time determine the record.
   */
  lemma TwoRoundConvergence(ss: seq<System>, acts: seq<Action>, pool: set<Account>, m: nat)
    requires IsRun(Next, ss, acts) && NoEdits(acts) && Good(ss[0], pool) && m <= |acts|
    requires forall i :: 0 <= i < |ss[0].clients| ==> CompletesSession(acts, i, 0, m)
    requires forall i :: 0 <= i < |ss[0].clients| ==> CompletesSession(acts, i, m, |acts|)
    ensures |ss[|acts|].clients| == |ss[0].clients|
    ensures exists top :: IsLatestOfAll(ss[0], top) && Settled(ss[|acts|], top)
                          && (Coherent(pool) ==> AllHold(ss[|acts|], top))
  {
    var z := |acts|;
    var top := Everything(ss[0].server, ss[0].clients);
    EverythingIsLatest(ss[0].server, ss[0].clients);
    assert ss[0] == System(ss[0].server, ss[0].clients);
    RunBounded(ss, acts, pool, top, 0, z);
    RunGood(ss, acts, pool, z);
    LatestWithin(ss[0], top, pool);
    forall k | m <= k < |ss| ensures SameTimes(ss[k].server, top) {
      OneRoundSettlesServer(ss, acts, pool, m, k);
    }
    forall i | 0 <= i < |ss[0].clients|
      ensures SameTimes(ss[z].clients[i].local, top) && (Coherent(pool) ==> ss[z].clients[i].local == top)
    {
      SecondRoundSettlesClient(ss, acts, pool, m, i, top);
      assert GoodClient(ss[z].server, ss[z].clients[i], pool);
      if Coherent(pool) {
        MutualAtLeastIsEqual(ss[z].clients[i].local, top, pool);
      }
    }
    if Coherent(pool) {
      MutualAtLeastIsEqual(ss[z].server, top, pool);
    }
  }
}
