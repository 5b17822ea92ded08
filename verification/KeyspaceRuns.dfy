/** Whole runs over the Redis keyspace: register, delete, sync-final, the cleaner and restarts. */
module KeyspaceRuns {
  import opened Accounts
  import opened Keyspace
  import opened Runs
  import opened SyncDiff

  // ---- Index soundness ----

  /** Every account key is listed in its user's index. */
  ghost predicate Sound(db: Db) {
    KeyedByName(db) && forall k :: k in db.accounts ==> k in db.index
  }

  ghost predicate NoKeys(db: Db, user: string) {
    (forall n :: (user, n) !in db.accounts) && (forall n :: (user, n) !in db.index)
  }

  /** What reading the index and then each listed account yields: a name without an account is skipped. */
  function ReadView(db: Db, user: string): Replica {
    map n | n in IndexOf(db, user) && (user, n) in db.accounts :: db.accounts[(user, n)]
  }

  /** Reads agree with the store exactly when the index covers the user's accounts. */
  lemma ReadIsStored(db: Db, user: string)
    ensures ReadView(db, user) == Stored(db, user) <==> forall n :: (user, n) in db.accounts ==> (user, n) in db.index
    ensures Sound(db) ==> ReadView(db, user) == Stored(db, user) && WellNamed(Stored(db, user))
  {
    forall n
      ensures n in IndexOf(db, user) <==> (user, n) in db.index
      ensures n in NamesOf(db, user) <==> (user, n) in db.accounts
    {
      InIndex(db, user, n);
    }
    if forall n :: (user, n) in db.accounts ==> (user, n) in db.index {
      assert ReadView(db, user) == Stored(db, user);
    }
    if ReadView(db, user) == Stored(db, user) {
      forall n | (user, n) in db.accounts ensures (user, n) in db.index {
        assert n in Stored(db, user);
        assert n in ReadView(db, user);
      }
    }
  }

  // ---- Upserts ----

  lemma {:induction false} UpsertPrefixSound(db: Db, user: string, rows: seq<Account>, k: nat)
    requires Sound(db) && k <= |UpsertCommands(user, rows)|
    ensures var db' := ExecAll(db, UpsertCommands(user, rows)[..k]);
            && Sound(db') && db'.users == db.users && db'.lastSync == db.lastSync
            && forall u :: u != user && NoKeys(db, u) ==> NoKeys(db', u)
  {
    UpsertCommandsAreUpserts(user, rows);
    var cs := UpsertCommands(user, rows);
    if rows == [] || k == 0 {
      assert cs[..k] == [];
    } else {
      var init, a := rows[..|rows| - 1], rows[|rows| - 1];
      var before := UpsertCommands(user, init);
      UpsertCommandsAreUpserts(user, init);
      if k <= |before| {
        assert cs[..k] == before[..k];
        UpsertPrefixSound(db, user, init, k);
      } else {
        UpsertPrefixSound(db, user, init, |before|);
        assert before[..|before|] == before;
        var last := [AddToIndex(user, a.accountName), SetAccount(user, a)];
        var j := k - |before|;
        assert cs[..k] == before + last[..j];
        ExecAllConcat(db, before, last[..j]);
        ExecTwo(ExecAll(db, before), last[0], last[1]);
        assert last[..j] == if j == 1 then [last[0]] else last;
      }
    }
  }

  lemma UpsertRunSound(db: Db, user: string, rows: seq<Account>, db': Db)
    requires Sound(db) && CutRun(db, UpsertCommands(user, rows), db')
    ensures Sound(db') && db'.users == db.users && db'.lastSync == db.lastSync
    ensures forall u :: u != user && NoKeys(db, u) ==> NoKeys(db', u)
  {
    var cuts: seq<nat> :| (forall i :: 0 <= i < |cuts| ==> cuts[i] <= |UpsertCommands(user, rows)|)
                          && db' == AfterCuts(db, UpsertCommands(user, rows), cuts);
    UpsertCutsSound(db, user, rows, cuts);
  }

  lemma {:induction false} UpsertCutsSound(db: Db, user: string, rows: seq<Account>, cuts: seq<nat>)
    requires Sound(db) && forall i :: 0 <= i < |cuts| ==> cuts[i] <= |UpsertCommands(user, rows)|
    ensures var db' := AfterCuts(db, UpsertCommands(user, rows), cuts);
            && Sound(db') && db'.users == db.users && db'.lastSync == db.lastSync
            && forall u :: u != user && NoKeys(db, u) ==> NoKeys(db', u)
  {
    if cuts != [] {
      UpsertCutsSound(db, user, rows, cuts[..|cuts| - 1]);
      UpsertPrefixSound(AfterCuts(db, UpsertCommands(user, rows), cuts[..|cuts| - 1]), user, rows, cuts[|cuts| - 1]);
    }
  }

  // ---- Deletes ----

  /** The elements of a set in some order, each once. */
  ghost predicate Lists(names: seq<string>, s: set<string>) {
    (forall n :: n in names <==> n in s) && forall i, j :: 0 <= i < j < |names| ==> names[i] != names[j]
  }

  /** One attempt: read the index, then run a prefix of the deletions; `full` when all were executed. */
  ghost predicate DeleteAttempt(db: Db, user: string, db': Db, full: bool) {
    exists names, k: nat ::
      && Lists(names, IndexOf(db, user)) && k <= |DeleteCommands(user, names)|
      && (full ==> k == |DeleteCommands(user, names)|)
      && db' == ExecAll(db, DeleteCommands(user, names)[..k])
  }

  /** Any number of attempts, each possibly cut. */
  ghost predicate DeleteRun(db: Db, user: string, db': Db) {
    exists dbs: seq<Db> :: IsDeleteChain(dbs, user) && dbs[0] == db && dbs[|dbs| - 1] == db'
  }

  ghost predicate IsDeleteChain(dbs: seq<Db>, user: string) {
    dbs != [] && forall i :: 0 <= i < |dbs| - 1 ==> DeleteAttempt(dbs[i], user, dbs[i + 1], false)
  }

  function WithoutUser(db: Db, user: string): Db {
    Db(db.users - {user}, db.lastSync - {user}, set k | k in db.index && k.0 != user,
       map k | k in db.accounts && k.0 != user :: db.accounts[k])
  }

  /** What a deletion leaves: an account its user's index did not list stays. */
  function WithoutListed(db: Db, user: string): Db {
    Db(db.users - {user}, db.lastSync - {user}, set k | k in db.index && k.0 != user,
       map k | k in db.accounts && !(k.0 == user && k in db.index) :: db.accounts[k])
  }

  lemma SoundWithout(db: Db, user: string)
    requires Sound(db)
    ensures WithoutListed(db, user) == WithoutUser(db, user)
  {
    assert WithoutListed(db, user).accounts == WithoutUser(db, user).accounts;
  }

  function KeysFor(user: string, names: seq<string>): set<AccountKey> {
    set n | n in names :: (user, n)
  }

  lemma {:induction false} DelAccountsEffect(db: Db, user: string, names: seq<string>)
    ensures ExecAll(db, DelAccounts(user, names)) == db.(accounts := db.accounts - KeysFor(user, names))
    decreases |names|
  {
    var cs := DelAccounts(user, names);
    if names == [] {
      assert db.accounts - KeysFor(user, names) == db.accounts;
    } else {
      assert cs[1..] == DelAccounts(user, names[1..]);
      var d := Exec(db, cs[0]);
      DelAccountsEffect(d, user, names[1..]);
      assert forall n :: n in names <==> n == names[0] || n in names[1..];
      assert db.accounts - KeysFor(user, names) == d.accounts - KeysFor(user, names[1..]);
    }
  }

  /** What a prefix of a deletion has done. */
  lemma DeletePrefixEffect(db: Db, user: string, names: seq<string>, k: nat)
    requires k <= |DeleteCommands(user, names)|
    ensures var db' := ExecAll(db, DeleteCommands(user, names)[..k]);
            var n := |names|;
            && db'.accounts == db.accounts - KeysFor(user, names[..if k < n then k else n])
            && db'.index == (if k > n then set i | i in db.index && i.0 != user else db.index)
            && db'.users == (if k > n + 1 then db.users - {user} else db.users)
            && db'.lastSync == (if k > n + 2 then db.lastSync - {user} else db.lastSync)
  {
    var all, dels := DeleteCommands(user, names), DelAccounts(user, names);
    var n := |names|;
    if k <= n {
      assert all[..k] == DelAccounts(user, names[..k]);
      DelAccountsEffect(db, user, names[..k]);
    } else {
      var tail := [DelIndex(user), DelUser(user), DelLastSync(user)];
      assert all[..k] == dels + tail[..k - n];
      assert names[..n] == names;
      ExecAllConcat(db, dels, tail[..k - n]);
      DelAccountsEffect(db, user, names);
      ExecTail(ExecAll(db, dels), user, k - n);
    }
  }

  lemma ExecTail(d: Db, user: string, j: nat)
    requires 1 <= j <= 3
    ensures var e := ExecAll(d, [DelIndex(user), DelUser(user), DelLastSync(user)][..j]);
            && e.accounts == d.accounts && e.index == (set i | i in d.index && i.0 != user)
            && e.users == (if j > 1 then d.users - {user} else d.users)
            && e.lastSync == (if j > 2 then d.lastSync - {user} else d.lastSync)
  {
    var tail := [DelIndex(user), DelUser(user), DelLastSync(user)];
    var d1 := Exec(d, tail[0]);
    if j == 1 {
      assert tail[..1][1..] == [];
    } else if j == 2 {
      assert tail[..2][1..] == [tail[1]] && tail[..2][1..][1..] == [];
      assert ExecAll(d1, tail[..2][1..]) == Exec(d1, tail[1]);
    } else {
      assert tail[..3] == tail && tail[1..] == [tail[1], tail[2]];
      assert tail[1..][1..] == [tail[2]] && tail[1..][1..][1..] == [];
      assert ExecAll(Exec(d1, tail[1]), tail[1..][1..]) == Exec(Exec(d1, tail[1]), tail[2]);
      assert ExecAll(d1, tail[1..]) == Exec(Exec(d1, tail[1]), tail[2]);
    }
  }

  /** The index of the user is gone, and with it the accounts it listed in `db`. */
  ghost predicate ListedGone(db: Db, user: string, db': Db) {
    forall n :: (user, n) !in db'.index && ((user, n) in db.index ==> (user, n) !in db'.accounts)
  }

  /** Keys of other users stay, and those of this one only go; an account not listed stays. */
  ghost predicate OnlyListedGo(db: Db, user: string, db': Db) {
    && (forall k: AccountKey :: k.0 != user ==> (k in db'.index <==> k in db.index))
    && (forall k: AccountKey :: k.0 != user || k !in db.index ==> (k in db'.accounts <==> k in db.accounts))
    && (forall k :: k in db'.accounts ==> k in db.accounts && db'.accounts[k] == db.accounts[k])
    && (forall k :: k in db'.index ==> k in db.index)
  }

  ghost predicate OthersStay(db: Db, user: string, db': Db) {
    && (forall u :: u != user ==> (u in db'.users <==> u in db.users) && (u in db'.lastSync <==> u in db.lastSync))
    && (forall u :: u in db'.users ==> u in db.users && db'.users[u] == db.users[u])
    && (forall u :: u in db'.lastSync ==> u in db.lastSync && db'.lastSync[u] == db.lastSync[u])
  }

  /** What a cut of a deletion leaves alone, and what it may only do once all listed accounts are gone. */
  ghost predicate DeleteCut(db: Db, user: string, db': Db) {
    && OnlyListedGo(db, user, db') && OthersStay(db, user, db')
    && (db'.index == db.index || ListedGone(db, user, db'))
    && (user !in db'.users ==> user !in db.users || ListedGone(db, user, db'))
    && (user in db'.users ==> db'.lastSync == db.lastSync)
  }

  /** Nothing is left of the user but accounts that were not listed. */
  ghost predicate Emptied(db: Db, user: string, db': Db) {
    ListedGone(db, user, db') && user !in db'.users && user !in db'.lastSync
  }

  lemma DeleteAttemptCuts(db: Db, user: string, db': Db, full: bool)
    requires DeleteAttempt(db, user, db', full)
    ensures DeleteCut(db, user, db')
    ensures full ==> Emptied(db, user, db')
  {
    var names, k: nat :| Lists(names, IndexOf(db, user)) && k <= |DeleteCommands(user, names)|
                         && (full ==> k == |DeleteCommands(user, names)|)
                         && db' == ExecAll(db, DeleteCommands(user, names)[..k]);
    DeletePrefixEffect(db, user, names, k);
    forall i ensures (user, i) in db.index <==> i in names {
      InIndex(db, user, i);
    }
    assert names[..|names|] == names;
    if k > |names| {
      assert ListedGone(db, user, db');
    }
  }

  lemma CutSameRest(db: Db, user: string, db': Db)
    requires DeleteCut(db, user, db')
    ensures WithoutListed(db', user) == WithoutListed(db, user)
  {
    var w, w' := WithoutListed(db, user), WithoutListed(db', user);
    forall k: AccountKey ensures k in w.accounts <==> k in w'.accounts {
      assert k == (k.0, k.1);
    }
    assert w.accounts == w'.accounts;
    assert w.index == w'.index;
    assert w.users == w'.users;
    assert w.lastSync == w'.lastSync;
  }

  lemma CutSound(db: Db, user: string, db': Db)
    requires DeleteCut(db, user, db') && Sound(db)
    ensures Sound(db')
    ensures ListedGone(db, user, db') ==> NoKeys(db', user)
  {
    forall k | k in db'.accounts ensures k in db'.index {
      assert k == (k.0, k.1);
      assert k in db.index;
    }
  }

  lemma EmptiedIsWithout(db: Db, user: string, db': Db)
    requires OnlyListedGo(db, user, db') && OthersStay(db, user, db') && Emptied(db, user, db')
    ensures db' == WithoutListed(db, user)
  {
    var w := WithoutListed(db, user);
    forall k: AccountKey
      ensures k in db'.accounts <==> k in w.accounts
      ensures k in db'.index <==> k in w.index
    {
      assert k == (k.0, k.1);
    }
    assert db'.accounts == w.accounts;
    assert db'.index == w.index;
    assert db'.users == w.users;
    assert db'.lastSync == w.lastSync;
  }

  lemma DeleteAttemptKeeps(db: Db, user: string, db': Db, full: bool)
    requires DeleteAttempt(db, user, db', full)
    ensures WithoutListed(db', user) == WithoutListed(db, user)
    ensures full ==> db' == WithoutListed(db, user)
    ensures Sound(db) ==> Sound(db')
    ensures DeleteCut(db, user, db')
  {
    DeleteAttemptCuts(db, user, db', full);
    CutSameRest(db, user, db');
    if full {
      EmptiedIsWithout(db, user, db');
    }
    if Sound(db) {
      CutSound(db, user, db');
    }
  }

  lemma {:induction false} DeleteChainRest(dbs: seq<Db>, user: string, i: nat)
    requires IsDeleteChain(dbs, user) && i < |dbs|
    ensures WithoutListed(dbs[i], user) == WithoutListed(dbs[0], user)
  {
    if i > 0 {
      DeleteChainRest(dbs, user, i - 1);
      DeleteAttemptKeeps(dbs[i - 1], user, dbs[i], false);
    }
  }

  /** From a sound keyspace a cut deletion takes the user out only when nothing of it is left. */
  ghost predicate DeletesSoundly(db: Db, user: string, db': Db) {
    && Sound(db') && (user !in db'.users ==> user !in db.users || NoKeys(db', user))
    && (forall u :: u != user ==> (u in db'.users <==> u in db.users))
    && forall u :: NoKeys(db, u) ==> NoKeys(db', u)
  }

  lemma CutDeletesSoundly(db: Db, user: string, mid: Db, db': Db)
    requires Sound(mid) && DeletesSoundly(db, user, mid) && DeleteCut(mid, user, db')
    ensures DeletesSoundly(db, user, db')
  {
    CutSound(mid, user, db');
  }

  lemma {:induction false} DeleteChainKeeps(dbs: seq<Db>, user: string, i: nat)
    requires IsDeleteChain(dbs, user) && Sound(dbs[0]) && i < |dbs|
    ensures DeletesSoundly(dbs[0], user, dbs[i])
  {
    if i > 0 {
      DeleteChainKeeps(dbs, user, i - 1);
      DeleteAttemptKeeps(dbs[i - 1], user, dbs[i], false);
      CutDeletesSoundly(dbs[0], user, dbs[i - 1], dbs[i]);
    }
  }

  /**
   * However many attempts were cut, a full one leaves the keyspace without the user and otherwise as it was,
   * but for accounts that the index did not list at the start.
   */
  lemma DeleteRetryTransparent(db: Db, user: string, cut: Db, db': Db)
    requires DeleteRun(db, user, cut) && DeleteAttempt(cut, user, db', true)
    ensures db' == WithoutListed(db, user)
    ensures Sound(db) ==> db' == WithoutUser(db, user)
  {
    var dbs: seq<Db> :| IsDeleteChain(dbs, user) && dbs[0] == db && dbs[|dbs| - 1] == cut;
    DeleteChainRest(dbs, user, |dbs| - 1);
    DeleteAttemptKeeps(cut, user, db', true);
    if Sound(db) {
      SoundWithout(db, user);
    }
  }

  lemma DeleteRunMore(db: Db, user: string, cut: Db, db': Db, full: bool)
    requires DeleteRun(db, user, cut) && DeleteAttempt(cut, user, db', full)
    ensures DeleteRun(db, user, db')
  {
    var dbs: seq<Db> :| IsDeleteChain(dbs, user) && dbs[0] == db && dbs[|dbs| - 1] == cut;
    assert DeleteAttempt(cut, user, db', false);
    var more := dbs + [db'];
    forall i | 0 <= i < |more| - 1 ensures DeleteAttempt(more[i], user, more[i + 1], false) {
      if i < |dbs| - 1 {
        assert DeleteAttempt(dbs[i], user, dbs[i + 1], false);
      }
    }
    assert IsDeleteChain(more, user) && more[0] == db && more[|more| - 1] == db';
  }

  lemma DeleteRunNone(db: Db, user: string)
    ensures DeleteRun(db, user, db)
  {
    assert IsDeleteChain([db], user);
  }

  // ---- Registrations ----

  lemma CreatePrefixEffect(db: Db, user: string, password: string, time: int, k: nat)
    requires k <= 3
    ensures var db' := ExecAll(db, CreateCommands(user, password, time)[..k]);
            && db'.users == (if k > 0 then db.users[user := password] else db.users)
            && db'.lastSync == (if k > 1 then db.lastSync[user := time] else db.lastSync)
            && db'.index == (if k > 2 then set i | i in db.index && i.0 != user else db.index)
            && db'.accounts == db.accounts
  {
    var cs := CreateCommands(user, password, time);
    if k == 1 {
      assert cs[..1][1..] == [];
    } else if k == 2 {
      assert cs[..2][1..] == [cs[1]] && cs[..2][1..][1..] == [];
      assert ExecAll(Exec(db, cs[0]), cs[..2][1..]) == Exec(Exec(db, cs[0]), cs[1]);
    } else if k == 3 {
      assert cs[..3] == cs && cs[1..] == [cs[1], cs[2]] && cs[1..][1..] == [cs[2]] && cs[1..][1..][1..] == [];
      var d := Exec(Exec(db, cs[0]), cs[1]);
      assert ExecAll(d, cs[1..][1..]) == Exec(d, cs[2]);
      assert ExecAll(Exec(db, cs[0]), cs[1..]) == Exec(d, cs[2]);
    }
  }

  /** A cut of the registration touches only the user's entry, its last sync and its index. */
  ghost predicate CreateCut(db: Db, user: string, password: string, time: int, db': Db) {
    && db'.accounts == db.accounts
    && (db'.index == db.index || db'.index == set i | i in db.index && i.0 != user)
    && (db'.users == db.users || db'.users == db.users[user := password])
    && (db'.lastSync == db.lastSync || db'.lastSync == db.lastSync[user := time])
  }

  lemma CreateFull(db: Db, user: string, password: string, time: int)
    ensures ExecAll(db, CreateCommands(user, password, time))
            == Db(db.users[user := password], db.lastSync[user := time], (set i | i in db.index && i.0 != user),
                  db.accounts)
  {
    var cs := CreateCommands(user, password, time);
    assert cs[..3] == cs;
    CreatePrefixEffect(db, user, password, time, 3);
  }

  lemma CreateCutSame(db: Db, user: string, password: string, time: int, db': Db)
    requires CreateCut(db, user, password, time, db')
    ensures ExecAll(db', CreateCommands(user, password, time)) == ExecAll(db, CreateCommands(user, password, time))
  {
    CreateFull(db, user, password, time);
    CreateFull(db', user, password, time);
    assert (set i | i in db'.index && i.0 != user) == set i | i in db.index && i.0 != user;
  }

  lemma CreateCutMore(db: Db, user: string, password: string, time: int, d: Db, k: nat)
    requires CreateCut(db, user, password, time, d) && k <= 3
    ensures CreateCut(db, user, password, time, ExecAll(d, CreateCommands(user, password, time)[..k]))
  {
    CreatePrefixEffect(d, user, password, time, k);
    assert (set i | i in d.index && i.0 != user) == set i | i in db.index && i.0 != user;
  }

  lemma {:induction false} CreateCutsEffect(db: Db, user: string, password: string, time: int, cuts: seq<nat>)
    requires forall i :: 0 <= i < |cuts| ==> cuts[i] <= 3
    ensures CreateCut(db, user, password, time, AfterCuts(db, CreateCommands(user, password, time), cuts))
  {
    if cuts != [] {
      var init, last := cuts[..|cuts| - 1], cuts[|cuts| - 1];
      CreateCutsEffect(db, user, password, time, init);
      CreateCutMore(db, user, password, time, AfterCuts(db, CreateCommands(user, password, time), init), last);
    }
  }

  /** A registration repeated after cut attempts leaves what one full attempt leaves. */
  lemma CreateRetryTransparent(db: Db, user: string, password: string, time: int, db': Db)
    requires CutRun(db, CreateCommands(user, password, time), db')
    ensures ExecAll(db', CreateCommands(user, password, time)) == ExecAll(db, CreateCommands(user, password, time))
    ensures CreateCut(db, user, password, time, db')
  {
    var cuts: seq<nat> :| (forall i :: 0 <= i < |cuts| ==> cuts[i] <= 3)
                          && db' == AfterCuts(db, CreateCommands(user, password, time), cuts);
    CreateCutsEffect(db, user, password, time, cuts);
    CreateCutSame(db, user, password, time, db');
  }

  // ---- Runs ----

  /** The names cached in memory and the keyspace. */
  datatype State = State(cache: set<string>, db: Db)

  datatype Action =
    | Register(user: string, password: string, time: int, ok: bool)
    | Delete(user: string, ok: bool)
    | SyncFinal(user: string, rows: seq<Account>, time: int, synced: bool)
    | Purge(user: string, read: seq<string>, executed: nat)
    | Restart

  function PurgeCommands(user: string, read: seq<string>): seq<Command> {
    DelAccounts(user, read) + [DelIndex(user)]
  }

  /** Loading the users reads the last sync time of each, and does not survive the lack of one. */
  ghost predicate Restartable(db: Db) {
    forall u :: u in db.users ==> u in db.lastSync
  }

  /** Requests of one user, and the cleaner's visit to it, are taken one at a time. */
  ghost predicate Next(s: State, a: Action, s': State) {
    match a
    case Register(u, p, t, ok) =>
      && u !in s.cache
      && (if ok then s'.db == ExecAll(s.db, CreateCommands(u, p, t)) && s'.cache == s.cache + {u}
          else CutRun(s.db, CreateCommands(u, p, t), s'.db) && s'.cache == s.cache)
    case Delete(u, ok) =>
      && u in s.cache
      && (if ok then s'.db == WithoutListed(s.db, u) && s'.cache == s.cache - {u}
          else DeleteRun(s.db, u, s'.db) && s'.cache == s.cache)
    case SyncFinal(u, rows, t, synced) =>
      && u in s.cache && s'.cache == s.cache
      && exists db :: CutRun(s.db, UpsertCommands(u, rows), db)
                      && s'.db == if synced then db.(lastSync := db.lastSync[u := t]) else db
    case Purge(u, read, k) =>
      && u in s.db.users && s'.cache == s.cache
      && (forall n :: n in read ==> (u, n) in s.db.accounts)
      && k <= |PurgeCommands(u, read)|
      && s'.db == ExecAll(s.db, PurgeCommands(u, read)[..k])
    case Restart =>
      Restartable(s.db) && s'.cache == s.db.users.Keys && s'.db == s.db
  }

  /** The index covers the accounts, and a user that is not cached, or not registered, owns no key. */
  ghost predicate Inv(s: State) {
    && Sound(s.db)
    && (forall u :: u !in s.cache ==> NoKeys(s.db, u))
    && (forall u :: u !in s.db.users ==> NoKeys(s.db, u))
  }

  /**
   * What keeps the invariant and a caller could test beforehand: an upload is for a user the store still
   * registers, and the cleaner has read all the accounts of the user it purges.
   */
  ghost predicate Guarded(s: State, a: Action) {
    match a
    case SyncFinal(u, rows, _, _) => u in s.db.users || rows == []
    case Purge(u, read, _) => forall n :: (u, n) in s.db.accounts ==> n in read
    case _ => true
  }

  /** The registration's removal of the index orphans nothing. */
  lemma RegisterKeeps(s: State, a: Action, s': State)
    requires Inv(s) && a.Register? && Next(s, a, s')
    ensures Inv(s')
  {
    var cs := CreateCommands(a.user, a.password, a.time);
    if a.ok {
      assert cs[..3] == cs;
      CreatePrefixEffect(s.db, a.user, a.password, a.time, 3);
    } else {
      CreateRetryTransparent(s.db, a.user, a.password, a.time, s'.db);
    }
    assert NoKeys(s.db, a.user);
    forall k | k in s'.db.accounts ensures k in s'.db.index {
      assert k == (k.0, k.1);
      assert k.0 != a.user;
    }
  }

  lemma DeleteKeeps(s: State, a: Action, s': State)
    requires Inv(s) && a.Delete? && Next(s, a, s')
    ensures Inv(s')
  {
    if !a.ok {
      var dbs: seq<Db> :| IsDeleteChain(dbs, a.user) && dbs[0] == s.db && dbs[|dbs| - 1] == s'.db;
      DeleteChainKeeps(dbs, a.user, |dbs| - 1);
    }
  }

  /** An upload, cut anywhere, for a user the store still registers, and whatever becomes of the sync times. */
  lemma SyncFinalKeeps(s: State, user: string, rows: seq<Account>, db: Db, lastSync: map<string, int>)
    requires Inv(s) && user in s.cache && (user in s.db.users || rows == [])
    requires CutRun(s.db, UpsertCommands(user, rows), db)
    ensures Inv(State(s.cache, db.(lastSync := lastSync)))
  {
    var cs := UpsertCommands(user, rows);
    UpsertRunSound(s.db, user, rows, db);
    if rows == [] {
      var cuts: seq<nat> :| (forall i :: 0 <= i < |cuts| ==> cuts[i] <= |cs|) && db == AfterCuts(s.db, cs, cuts);
      NothingToCut(s.db, cuts);
    }
  }

  lemma {:induction false} NothingToCut(db: Db, cuts: seq<nat>)
    requires forall i :: 0 <= i < |cuts| ==> cuts[i] <= 0
    ensures AfterCuts(db, [], cuts) == db
  {
    if cuts != [] {
      NothingToCut(db, cuts[..|cuts| - 1]);
    }
  }

  lemma PurgePrefixEffect(db: Db, user: string, read: seq<string>, k: nat)
    requires k <= |PurgeCommands(user, read)|
    ensures var db' := ExecAll(db, PurgeCommands(user, read)[..k]);
            var n := |read|;
            && db'.accounts == db.accounts - KeysFor(user, read[..if k < n then k else n])
            && db'.index == (if k > n then set i | i in db.index && i.0 != user else db.index)
            && db'.users == db.users && db'.lastSync == db.lastSync
  {
    assert PurgeCommands(user, read)[..k] == DeleteCommands(user, read)[..k];
    DeletePrefixEffect(db, user, read, k);
  }

  lemma PurgeKeeps(s: State, a: Action, s': State)
    requires Inv(s) && a.Purge? && Guarded(s, a) && Next(s, a, s')
    ensures Inv(s')
  {
    PurgePrefixEffect(s.db, a.user, a.read, a.executed);
    assert a.read[..|a.read|] == a.read;
    forall k | k in s'.db.accounts ensures k in s'.db.index {
      assert k == (k.0, k.1);
    }
  }

  /** Over every run of guarded actions, whatever is cut and wherever, the index stays sound. */
  lemma {:induction false} RunKeepsIndexSound(ss: seq<State>, acts: seq<Action>, k: nat)
    requires IsRun(Next, ss, acts) && Inv(ss[0]) && k < |ss|
    requires forall i :: 0 <= i < |acts| ==> Guarded(ss[i], acts[i])
    ensures Inv(ss[k])
    ensures forall u :: ReadView(ss[k].db, u) == Stored(ss[k].db, u)
  {
    if k > 0 {
      RunKeepsIndexSound(ss, acts, k - 1);
      var a := acts[k - 1];
      assert Next(ss[k - 1], a, ss[k]);
      match a
      case Register(_, _, _, _) => RegisterKeeps(ss[k - 1], a, ss[k]);
      case Delete(_, _) => DeleteKeeps(ss[k - 1], a, ss[k]);
      case SyncFinal(u, rows, t, synced) =>
        var db :| CutRun(ss[k - 1].db, UpsertCommands(u, rows), db)
                  && ss[k].db == if synced then db.(lastSync := db.lastSync[u := t]) else db;
        SyncFinalKeeps(ss[k - 1], u, rows, db, ss[k].db.lastSync);
        assert ss[k] == State(ss[k - 1].cache, db.(lastSync := ss[k].db.lastSync));
      case Purge(_, _, _) => PurgeKeeps(ss[k - 1], a, ss[k]);
      case Restart =>
    }
    forall u ensures ReadView(ss[k].db, u) == Stored(ss[k].db, u) {
      ReadIsStored(ss[k].db, u);
    }
  }

  lemma {:induction false} IndexGrows(db: Db, cs: seq<Command>)
    requires forall c :: c in cs ==> IsUpsert(c)
    ensures db.index <= ExecAll(db, cs).index
    decreases |cs|
  {
    if cs != [] {
      assert IsUpsert(cs[0]);
      IndexGrows(Exec(db, cs[0]), cs[1..]);
    }
  }

  lemma {:induction false} FirstCommand(user: string, rows: seq<Account>)
    requires rows != []
    ensures UpsertCommands(user, rows)[0] == AddToIndex(user, rows[0].accountName)
  {
    if |rows| > 1 {
      FirstCommand(user, rows[..|rows| - 1]);
    }
  }

  /** The first command of an upload already leaves a key. */
  lemma UploadLeavesKey(db: Db, user: string, rows: seq<Account>, k: nat)
    requires 0 < k <= |UpsertCommands(user, rows)|
    ensures rows != [] && (user, rows[0].accountName) in ExecAll(db, UpsertCommands(user, rows)[..k]).index
  {
    var cs := UpsertCommands(user, rows);
    FirstCommand(user, rows);
    UpsertCommandsAreUpserts(user, rows);
    assert cs[..k][0] == cs[0];
    forall c | c in cs[..k][1..] ensures IsUpsert(c) {
      assert c in cs;
    }
    IndexGrows(Exec(db, cs[0]), cs[..k][1..]);
  }

  ghost predicate NothingExecuted(cuts: seq<nat>) {
    forall i :: 0 <= i < |cuts| ==> cuts[i] == 0
  }

  lemma {:induction false} CutsLeaveKey(db: Db, user: string, rows: seq<Account>, cuts: seq<nat>)
    requires forall i :: 0 <= i < |cuts| ==> cuts[i] <= |UpsertCommands(user, rows)|
    ensures NothingExecuted(cuts) ==> AfterCuts(db, UpsertCommands(user, rows), cuts) == db
    ensures !NothingExecuted(cuts) ==>
              rows != [] && (user, rows[0].accountName) in AfterCuts(db, UpsertCommands(user, rows), cuts).index
  {
    if cuts != [] {
      var cs, init, last := UpsertCommands(user, rows), cuts[..|cuts| - 1], cuts[|cuts| - 1];
      CutsLeaveKey(db, user, rows, init);
      var d := AfterCuts(db, cs, init);
      if last > 0 {
        UploadLeavesKey(d, user, rows, last);
      } else {
        assert cs[..0] == [];
        assert NothingExecuted(cuts) <==> NothingExecuted(init) by {
          assert cuts == init + [last];
        }
      }
    }
  }

  /**
   * An upload, cut and repeated anyhow, keeps the invariant if and only if the user is still registered or not
   * a single command was executed.
   */
  lemma UploadGuardExact(s: State, user: string, rows: seq<Account>, cuts: seq<nat>)
    requires Inv(s) && user in s.cache
    requires forall i :: 0 <= i < |cuts| ==> cuts[i] <= |UpsertCommands(user, rows)|
    ensures Inv(State(s.cache, AfterCuts(s.db, UpsertCommands(user, rows), cuts)))
            <==> user in s.db.users || NothingExecuted(cuts)
  {
    var db := AfterCuts(s.db, UpsertCommands(user, rows), cuts);
    CutsLeaveKey(s.db, user, rows, cuts);
    UpsertCutsSound(s.db, user, rows, cuts);
    if user in s.db.users {
      assert CutRun(s.db, UpsertCommands(user, rows), db);
      SyncFinalKeeps(s, user, rows, db, db.lastSync);
      assert db.(lastSync := db.lastSync) == db;
    } else if !NothingExecuted(cuts) {
      assert !NoKeys(db, user);
    }
  }

  /**
   * A visit of the cleaner, cut anywhere, keeps the invariant if and only if no account of the user was missed
   * by the read, or it was cut before the index.
   */
  lemma PurgeGuardExact(s: State, a: Action, s': State)
    requires Inv(s) && a.Purge? && Next(s, a, s')
    ensures Inv(s') <==> Guarded(s, a) || a.executed <= |a.read|
  {
    PurgePrefixEffect(s.db, a.user, a.read, a.executed);
    assert a.read[..|a.read|] == a.read;
    if Guarded(s, a) {
      PurgeKeeps(s, a, s');
    } else if a.executed > |a.read| {
      var n :| (a.user, n) in s.db.accounts && n !in a.read;
      assert (a.user, n) in s'.db.accounts && (a.user, n) !in s'.db.index;
    }
  }

  /** A registration that failed after its first command and before its second. */
  ghost predicate LeavesHalfUser(a: Action, s': State) {
    a.Register? && !a.ok && a.user in s'.db.users && a.user !in s'.db.lastSync
  }

  /** The server can be restarted, and stays so exactly unless a registration leaves a user without a sync time. */
  lemma RestartableExact(s: State, a: Action, s': State)
    requires Inv(s) && Restartable(s.db) && Next(s, a, s')
    ensures Restartable(s'.db) <==> !LeavesHalfUser(a, s')
  {
    match a
    case Register(u, p, t, ok) =>
      if ok {
        CreateFull(s.db, u, p, t);
      } else {
        CreateRetryTransparent(s.db, u, p, t, s'.db);
      }
    case Delete(u, ok) =>
      if !ok {
        var dbs: seq<Db> :| IsDeleteChain(dbs, u) && dbs[0] == s.db && dbs[|dbs| - 1] == s'.db;
        DeleteChainRestartable(dbs, u, |dbs| - 1);
      }
    case SyncFinal(u, rows, t, synced) =>
      var cs := UpsertCommands(u, rows);
      var db :| CutRun(s.db, cs, db) && s'.db == if synced then db.(lastSync := db.lastSync[u := t]) else db;
      UpsertRunSound(s.db, u, rows, db);
    case Purge(u, read, k) => PurgePrefixEffect(s.db, u, read, k);
    case Restart =>
  }

  lemma {:induction false} DeleteChainRestartable(dbs: seq<Db>, user: string, i: nat)
    requires IsDeleteChain(dbs, user) && Restartable(dbs[0]) && i < |dbs|
    ensures Restartable(dbs[i])
  {
    if i > 0 {
      DeleteChainRestartable(dbs, user, i - 1);
      DeleteAttemptKeeps(dbs[i - 1], user, dbs[i], false);
    }
  }

  /** Any new user's registration can be cut there, so that the server no longer starts. */
  lemma CutRegistrationBlocksRestart(s: State, user: string, password: string, time: int)
    requires user !in s.cache && user !in s.db.lastSync
    ensures exists s' :: Next(s, Register(user, password, time, false), s') && !Restartable(s'.db)
  {
    var cs := CreateCommands(user, password, time);
    CutRunNone(s.db, cs);
    CutRunMore(s.db, cs, s.db, 1);
    CreatePrefixEffect(s.db, user, password, time, 1);
    var s' := State(s.cache, ExecAll(s.db, cs[..1]));
    assert Next(s, Register(user, password, time, false), s');
    assert user in s'.db.users && user !in s'.db.lastSync;
  }

  /** A deletion that was executed while all its replies were lost. */
  lemma DeletedUnnoticed(db: Db, user: string)
    requires Sound(db) && NoKeys(db, user)
    ensures DeleteRun(db, user, WithoutUser(db, user))
  {
    var cs := DeleteCommands(user, []);
    forall n ensures n !in IndexOf(db, user) {
      InIndex(db, user, n);
    }
    assert Lists([], IndexOf(db, user)) && cs[..3] == cs;
    var db' := ExecAll(db, cs[..3]);
    assert DeleteAttempt(db, user, db', true);
    DeleteAttemptKeeps(db, user, db', true);
    DeleteRunNone(db, user);
    DeleteRunMore(db, user, db, db', true);
  }

  lemma UploadedFully(db: Db, user: string, rows: seq<Account>)
    ensures CutRun(db, UpsertCommands(user, rows), ExecAll(db, UpsertCommands(user, rows)))
  {
    var cs := UpsertCommands(user, rows);
    CutRunNone(db, cs);
    CutRunMore(db, cs, db, |cs|);
    assert cs[..|cs|] == cs;
  }

  lemma OneRowUploaded(s: State, user: string, account: Account)
    requires user in s.cache
    ensures var db := ExecAll(s.db, UpsertCommands(user, [account]));
            && db.users == s.db.users && db.lastSync == s.db.lastSync && (user, account.accountName) in db.accounts
            && Next(s, SyncFinal(user, [account], 0, false), State(s.cache, db))
  {
    UpsertStep(s.db, user, [account]);
    assert [account][..0] == [];
    UploadedFully(s.db, user, [account]);
  }

  lemma DeleteUnnoticed(s: State, user: string) returns (s1: State)
    requires Inv(s) && Restartable(s.db) && user in s.cache && NoKeys(s.db, user)
    ensures Next(s, Delete(user, false), s1) && s1.cache == s.cache && user !in s1.db.users && Restartable(s1.db)
  {
    DeletedUnnoticed(s.db, user);
    s1 := State(s.cache, WithoutUser(s.db, user));
  }

  /**
   * The guard on uploads is needed: after a deletion whose replies were lost the user is still cached, an
   * upload is accepted, and a restart forgets the user but not its accounts.
   */
  lemma FailedDeleteThenUploadOrphans(s: State, user: string, account: Account)
    returns (s1: State, s2: State, s3: State)
    requires Inv(s) && Restartable(s.db) && user in s.cache && NoKeys(s.db, user)
    ensures Next(s, Delete(user, false), s1) && Next(s1, SyncFinal(user, [account], 0, false), s2)
    ensures Next(s2, Restart, s3) && user !in s3.cache && (user, account.accountName) in s3.db.accounts
  {
    s1 := DeleteUnnoticed(s, user);
    OneRowUploaded(s1, user, account);
    s2 := State(s1.cache, ExecAll(s1.db, UpsertCommands(user, [account])));
    s3 := State(s2.db.users.Keys, s2.db);
  }

  // ---- Redis in place of the conditional upsert ----

  lemma {:induction false} RequestedDistinct(server: Replica, list: seq<Entry>, n: nat)
    requires DistinctEntries(list) && n <= |list|
    ensures forall j, k :: 0 <= j < k < |RequestedNames(server, list, n)| ==>
              RequestedNames(server, list, n)[j] != RequestedNames(server, list, n)[k]
  {
    if n > 0 {
      RequestedDistinct(server, list, n - 1);
      RequestedNamesAre(server, list, n - 1, list[n - 1].name);
    }
  }

  /**
   * With no other write to the user between the two requests of a session, a client that uploads exactly
   * what was requested, at times no older than announced, gets from Redis what Postgres would have kept.
   */
  lemma RedisRefinesUpsert(db: Db, user: string, list: seq<Entry>, want: seq<string>, down: seq<Account>,
                           rows: seq<Account>)
    requires DistinctEntries(list) && Response(Stored(db, user), list, want, down)
    requires |rows| == |want| && forall k :: 0 <= k < |rows| ==> rows[k].accountName == want[k]
    requires forall e, a :: e in list && a in rows && e.name == a.accountName ==> a.updateTime >= e.updateTime
    ensures Stored(ExecAll(db, UpsertCommands(user, rows)), user) == MergeAll(Stored(db, user), rows)
  {
    var m := Stored(db, user);
    RequestedDistinct(m, list, |list|);
    forall a | a in rows ensures !Covers(m, a) {
      var k :| 0 <= k < |rows| && rows[k] == a;
      RequestedNamesAre(m, list, |list|, want[k]);
      var i :| 0 <= i < |list| && list[i].name == want[k] && Requested(m, list, i);
      assert list[i] in list && FirstAt(list, i);
    }
    OverwriteIsMerge(m, rows);
    UpsertOverwrites(db, user, rows, user + "x");
  }
}
