/** The Redis keyspace, the commands the store sends, and pipelines cut after any prefix. */
module Keyspace {
  import opened Accounts

  /** A user's account key. Keys are pairs: when their texts tell them apart is the matter of `KeyNames`. */
  type AccountKey = (string, string)

  /** The users hash, the last-sync keys, the per-user index hashes and the account hashes. */
  datatype Db = Db(
    users: map<string, string>, lastSync: map<string, int>, index: set<AccountKey>, accounts: map<AccountKey, Account>)

  datatype Command =
    | SetUser(user: string, password: string)
    | SetLastSync(user: string, time: int)
    | DelIndex(user: string)
    | DelAccount(user: string, name: string)
    | AddToIndex(user: string, name: string)
    | SetAccount(user: string, account: Account)
    | DelUser(user: string)
    | DelLastSync(user: string)
    | GetIndex(user: string)
    | GetAccount(user: string, name: string)
    | Ping

  function Exec(db: Db, c: Command): Db {
    match c
    case SetUser(u, p) => db.(users := db.users[u := p])
    case SetLastSync(u, t) => db.(lastSync := db.lastSync[u := t])
    case DelIndex(u) => db.(index := set k | k in db.index && k.0 != u)
    case DelAccount(u, n) => db.(accounts := db.accounts - {(u, n)})
    case AddToIndex(u, n) => db.(index := db.index + {(u, n)})
    case SetAccount(u, a) => db.(accounts := db.accounts[(u, a.accountName) := a])
    case DelUser(u) => db.(users := db.users - {u})
    case DelLastSync(u) => db.(lastSync := db.lastSync - {u})
    case GetIndex(_) => db
    case GetAccount(_, _) => db
    case Ping => db
  }

  function ExecAll(db: Db, cs: seq<Command>): Db
    decreases |cs|
  {
    if cs == [] then db else ExecAll(Exec(db, cs[0]), cs[1..])
  }

  lemma {:induction false} ExecAllConcat(db: Db, cs: seq<Command>, ds: seq<Command>)
    ensures ExecAll(db, cs + ds) == ExecAll(ExecAll(db, cs), ds)
    decreases |cs|
  {
    if cs == [] {
      assert cs + ds == ds;
    } else {
      assert (cs + ds)[1..] == cs[1..] + ds;
      ExecAllConcat(Exec(db, cs[0]), cs[1..], ds);
    }
  }

  /** Every account is stored under its own name, as every command leaves it. */
  ghost predicate KeyedByName(db: Db) {
    forall k :: k in db.accounts ==> db.accounts[k].accountName == k.1
  }

  lemma {:induction false} ExecAllKeyed(db: Db, cs: seq<Command>)
    ensures KeyedByName(db) ==> KeyedByName(ExecAll(db, cs))
    decreases |cs|
  {
    if cs != [] {
      ExecAllKeyed(Exec(db, cs[0]), cs[1..]);
    }
  }

  /** Attempts that each executed only a prefix of the pipeline. */
  function AfterCuts(db: Db, cs: seq<Command>, cuts: seq<nat>): Db
    requires forall i :: 0 <= i < |cuts| ==> cuts[i] <= |cs|
  {
    if cuts == [] then db
    else ExecAll(AfterCuts(db, cs, cuts[..|cuts| - 1]), cs[..cuts[|cuts| - 1]])
  }

  ghost predicate CutRun(db: Db, cs: seq<Command>, db': Db) {
    exists cuts: seq<nat> :: (forall i :: 0 <= i < |cuts| ==> cuts[i] <= |cs|) && db' == AfterCuts(db, cs, cuts)
  }

  lemma CutRunNone(db: Db, cs: seq<Command>)
    ensures CutRun(db, cs, db)
  {
    assert AfterCuts(db, cs, []) == db;
  }

  lemma CutRunMore(db: Db, cs: seq<Command>, db': Db, k: nat)
    requires CutRun(db, cs, db') && k <= |cs|
    ensures CutRun(db, cs, ExecAll(db', cs[..k]))
  {
    var cuts: seq<nat> :| (forall i :: 0 <= i < |cuts| ==> cuts[i] <= |cs|) && db' == AfterCuts(db, cs, cuts);
    var more := cuts + [k];
    assert more[..|more| - 1] == cuts;
    assert ExecAll(db', cs[..k]) == AfterCuts(db, cs, more);
  }

  // ---- The pipelines ----

  function CreateCommands(user: string, password: string, time: int): seq<Command> {
    [SetUser(user, password), SetLastSync(user, time), DelIndex(user)]
  }

  function UpsertCommands(user: string, rows: seq<Account>): seq<Command> {
    if rows == [] then []
    else UpsertCommands(user, rows[..|rows| - 1])
         + [AddToIndex(user, rows[|rows| - 1].accountName), SetAccount(user, rows[|rows| - 1])]
  }

  function DelAccounts(user: string, names: seq<string>): seq<Command> {
    seq(|names|, i requires 0 <= i < |names| => DelAccount(user, names[i]))
  }

  function DeleteCommands(user: string, names: seq<string>): seq<Command> {
    DelAccounts(user, names) + [DelIndex(user), DelUser(user), DelLastSync(user)]
  }

  // ---- Upserts: cut attempts are invisible once one attempt completes ----

  predicate IsUpsert(c: Command) {
    c.AddToIndex? || c.SetAccount?
  }

  ghost predicate Writes(cs: seq<Command>, k: AccountKey) {
    exists c :: c in cs && c.SetAccount? && k == (c.user, c.account.accountName)
  }

  ghost predicate Indexes(cs: seq<Command>, k: AccountKey) {
    exists c :: c in cs && c == AddToIndex(k.0, k.1)
  }

  /** The keyspaces differ at most where `cs` is going to write. */
  ghost predicate AgreeBut(d: Db, e: Db, cs: seq<Command>) {
    && d.users == e.users && d.lastSync == e.lastSync
    && (forall k :: !Indexes(cs, k) ==> (k in d.index <==> k in e.index))
    && (forall k :: !Writes(cs, k) ==> (k in d.accounts <==> k in e.accounts))
    && (forall k :: !Writes(cs, k) && k in d.accounts && k in e.accounts ==> d.accounts[k] == e.accounts[k])
  }

  lemma AgreeStep(d: Db, e: Db, cs: seq<Command>)
    requires cs != [] && IsUpsert(cs[0]) && AgreeBut(d, e, cs)
    ensures AgreeBut(Exec(d, cs[0]), Exec(e, cs[0]), cs[1..])
  {
    forall k | Writes(cs, k) && !(cs[0].SetAccount? && k == (cs[0].user, cs[0].account.accountName))
      ensures Writes(cs[1..], k)
    {
      var c :| c in cs && c.SetAccount? && k == (c.user, c.account.accountName);
      assert c in cs[1..];
    }
    forall k | Indexes(cs, k) && cs[0] != AddToIndex(k.0, k.1) ensures Indexes(cs[1..], k) {
      assert AddToIndex(k.0, k.1) in cs[1..];
    }
  }

  lemma {:induction false} AgreeingRunsMeet(d: Db, e: Db, cs: seq<Command>)
    requires (forall c :: c in cs ==> IsUpsert(c)) && AgreeBut(d, e, cs)
    ensures ExecAll(d, cs) == ExecAll(e, cs)
    decreases |cs|
  {
    if cs == [] {
      assert forall k :: !Writes(cs, k) && !Indexes(cs, k);
      assert d.accounts == e.accounts;
    } else {
      AgreeStep(d, e, cs);
      AgreeingRunsMeet(Exec(d, cs[0]), Exec(e, cs[0]), cs[1..]);
    }
  }

  lemma {:induction false} UpsertsOnlyWrite(d: Db, cs: seq<Command>, all: seq<Command>)
    requires forall c :: c in cs ==> IsUpsert(c) && c in all
    ensures AgreeBut(d, ExecAll(d, cs), all)
    decreases |cs|
  {
    if cs != [] {
      var e := Exec(d, cs[0]);
      UpsertsOnlyWrite(e, cs[1..], all);
      assert cs[0] in all;
      assert AgreeBut(d, e, all);
    }
  }

  lemma {:induction false} UpsertCommandsAreUpserts(user: string, rows: seq<Account>)
    ensures forall c :: c in UpsertCommands(user, rows) ==> IsUpsert(c) && c.user == user
    ensures |UpsertCommands(user, rows)| == 2 * |rows|
  {
    if rows != [] {
      UpsertCommandsAreUpserts(user, rows[..|rows| - 1]);
    }
  }

  /** Any number of cut attempts and then a full one leave what one full attempt leaves. */
  lemma UpsertRetryTransparent(db: Db, user: string, rows: seq<Account>, db': Db)
    requires CutRun(db, UpsertCommands(user, rows), db')
    ensures ExecAll(db', UpsertCommands(user, rows)) == ExecAll(db, UpsertCommands(user, rows))
  {
    var cs := UpsertCommands(user, rows);
    var cuts: seq<nat> :| (forall i :: 0 <= i < |cuts| ==> cuts[i] <= |cs|) && db' == AfterCuts(db, cs, cuts);
    UpsertCutsTransparent(db, user, rows, cuts);
  }

  lemma {:induction false} UpsertCutsTransparent(db: Db, user: string, rows: seq<Account>, cuts: seq<nat>)
    requires forall i :: 0 <= i < |cuts| ==> cuts[i] <= |UpsertCommands(user, rows)|
    ensures ExecAll(AfterCuts(db, UpsertCommands(user, rows), cuts), UpsertCommands(user, rows))
            == ExecAll(db, UpsertCommands(user, rows))
  {
    if cuts != [] {
      var cs := UpsertCommands(user, rows);
      var d := AfterCuts(db, cs, cuts[..|cuts| - 1]);
      var cut := cs[..cuts[|cuts| - 1]];
      UpsertCutsTransparent(db, user, rows, cuts[..|cuts| - 1]);
      UpsertCommandsAreUpserts(user, rows);
      forall c | c in cut ensures c in cs {
      }
      UpsertsOnlyWrite(d, cut, cs);
      AgreeingRunsMeet(d, ExecAll(d, cut), cs);
    }
  }

  // ---- One user's view ----

  function NamesOf(db: Db, user: string): set<string> {
    set k | k in db.accounts && k.0 == user :: k.1
  }

  function IndexOf(db: Db, user: string): set<string> {
    set k | k in db.index && k.0 == user :: k.1
  }

  /** The abstract store: the accounts of one user. */
  function Stored(db: Db, user: string): Replica {
    map n | n in NamesOf(db, user) :: db.accounts[(user, n)]
  }

  lemma InIndex(db: Db, user: string, n: string)
    ensures n in IndexOf(db, user) <==> (user, n) in db.index
    ensures n in NamesOf(db, user) <==> (user, n) in db.accounts
  {
    if (user, n) in db.index {
      var k := (user, n);
      assert k in db.index && k.0 == user && k.1 == n;
    }
    if (user, n) in db.accounts {
      var k := (user, n);
      assert k in db.accounts && k.0 == user && k.1 == n;
    }
  }

  /** What the unconditional writes do to one user's accounts: the last row of each name wins. */
  function Overwrite(m: Replica, rows: seq<Account>): Replica {
    if rows == [] then m
    else Overwrite(m, rows[..|rows| - 1])[rows[|rows| - 1].accountName := rows[|rows| - 1]]
  }

  lemma ExecTwo(d: Db, x: Command, y: Command)
    ensures ExecAll(d, [x]) == Exec(d, x)
    ensures ExecAll(d, [x, y]) == Exec(Exec(d, x), y)
  {
    assert [x][1..] == [] && [x, y][1..] == [y] && [y][1..] == [];
    assert ExecAll(Exec(d, x), [y]) == ExecAll(Exec(Exec(d, x), y), []);
  }

  lemma UpsertStep(db: Db, user: string, rows: seq<Account>)
    requires rows != []
    ensures var a := rows[|rows| - 1];
            var d := ExecAll(db, UpsertCommands(user, rows[..|rows| - 1]));
            ExecAll(db, UpsertCommands(user, rows))
            == Exec(Exec(d, AddToIndex(user, a.accountName)), SetAccount(user, a))
  {
    var a := rows[|rows| - 1];
    var before := UpsertCommands(user, rows[..|rows| - 1]);
    ExecAllConcat(db, before, [AddToIndex(user, a.accountName), SetAccount(user, a)]);
    ExecTwo(ExecAll(db, before), AddToIndex(user, a.accountName), SetAccount(user, a));
  }

  lemma StoredAfterSet(d: Db, user: string, a: Account, other: string)
    ensures var e := Exec(Exec(d, AddToIndex(user, a.accountName)), SetAccount(user, a));
            Stored(e, other) == if other == user then Stored(d, user)[a.accountName := a] else Stored(d, other)
  {
    var e := Exec(Exec(d, AddToIndex(user, a.accountName)), SetAccount(user, a));
    forall n ensures n in NamesOf(e, other) <==> n in NamesOf(d, other) || (other == user && n == a.accountName) {
      InIndex(e, other, n);
      InIndex(d, other, n);
    }
  }

  lemma {:induction false} UpsertOverwrites(db: Db, user: string, rows: seq<Account>, other: string)
    ensures Stored(ExecAll(db, UpsertCommands(user, rows)), user) == Overwrite(Stored(db, user), rows)
    ensures other != user ==> Stored(ExecAll(db, UpsertCommands(user, rows)), other) == Stored(db, other)
  {
    if rows != [] {
      var d := ExecAll(db, UpsertCommands(user, rows[..|rows| - 1]));
      UpsertOverwrites(db, user, rows[..|rows| - 1], other);
      UpsertStep(db, user, rows);
      StoredAfterSet(d, user, rows[|rows| - 1], user);
      StoredAfterSet(d, user, rows[|rows| - 1], other);
    }
  }

  /**
   * Exactly when the unconditional writes agree with the conditional upsert: for rows of distinct names,
   * every row is new, strictly newer, or the stored record itself.
   */
  lemma OverwriteIsMerge(m: Replica, rows: seq<Account>)
    requires DistinctNames(rows)
    ensures Overwrite(m, rows) == MergeAll(m, rows) <==>
            forall a :: a in rows && Covers(m, a) ==> m[a.accountName] == a
  {
    var o, r := Overwrite(m, rows), MergeAll(m, rows);
    forall a | a in rows
      ensures a.accountName in o && a.accountName in r && o[a.accountName] == a
      ensures r[a.accountName] == if Covers(m, a) then m[a.accountName] else a
    {
      RowsAt(m, rows, a);
    }
    if forall a :: a in rows && Covers(m, a) ==> m[a.accountName] == a {
      forall n ensures (n in o <==> n in r) && (n in o ==> o[n] == r[n]) {
        if Named(rows, n) {
          var a :| a in rows && a.accountName == n;
        } else {
          OthersKept(m, rows, n);
        }
      }
      assert o == r;
    }
  }

  /** Where a row of distinct names ends up. */
  lemma {:induction false} RowsAt(m: Replica, rows: seq<Account>, a: Account)
    requires DistinctNames(rows) && a in rows
    ensures a.accountName in Overwrite(m, rows) && Overwrite(m, rows)[a.accountName] == a
    ensures a.accountName in MergeAll(m, rows)
    ensures MergeAll(m, rows)[a.accountName] == if Covers(m, a) then m[a.accountName] else a
  {
    var init, last := rows[..|rows| - 1], rows[|rows| - 1];
    if a == last {
      forall b | b in init ensures b.accountName != a.accountName {
        var i :| 0 <= i < |init| && init[i] == b;
        assert rows[i].accountName != rows[|rows| - 1].accountName;
      }
      OthersKept(m, init, a.accountName);
    } else {
      var i :| 0 <= i < |rows| && rows[i] == a;
      assert rows[i].accountName != rows[|rows| - 1].accountName;
      assert a == init[i];
      RowsAt(m, init, a);
    }
  }

  lemma {:induction false} OthersKept(m: Replica, rows: seq<Account>, n: string)
    requires forall a :: a in rows ==> a.accountName != n
    ensures n in Overwrite(m, rows) <==> n in m
    ensures n in MergeAll(m, rows) <==> n in m
    ensures n in m ==> Overwrite(m, rows)[n] == m[n] && MergeAll(m, rows)[n] == m[n]
  {
    if rows != [] {
      OthersKept(m, rows[..|rows| - 1], n);
    }
  }
}
