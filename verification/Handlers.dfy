/** The request handlers over the Redis store: the order in which the cache and the store are changed. */
module Handlers {
  import opened Accounts
  import VerifyEmail
  import Keyspace
  import KeyspaceRuns
  import RedisStore
  import SyncDiff

  datatype Reply = Ok200 | BadRequest400 | Forbidden403 | Error500

  const FIRST_SYNC := 1

  /** What the two writes of sync-final come to, the second one done or not. */
  lemma SyncFinalDone(s: KeyspaceRuns.State, user: string, rows: seq<Account>, now: int, written: Keyspace.Db,
                      synced: bool, s': KeyspaceRuns.State)
    requires KeyspaceRuns.Inv(s) && user in s.cache && s'.cache == s.cache
    requires Keyspace.CutRun(s.db, Keyspace.UpsertCommands(user, rows), written)
    requires s'.db == if synced then written.(lastSync := written.lastSync[user := now]) else written
    ensures KeyspaceRuns.Next(s, KeyspaceRuns.SyncFinal(user, rows, now, synced), s')
    ensures user in s.db.users || rows == [] ==> KeyspaceRuns.Inv(s')
    ensures written == Keyspace.ExecAll(s.db, Keyspace.UpsertCommands(user, rows)) ==>
              Keyspace.Stored(s'.db, user) == Keyspace.Overwrite(Keyspace.Stored(s.db, user), rows)
  {
    var action := KeyspaceRuns.SyncFinal(user, rows, now, synced);
    if user in s.db.users || rows == [] {
      KeyspaceRuns.SyncFinalKeeps(s, user, rows, written, s'.db.lastSync);
      assert s' == KeyspaceRuns.State(s.cache, written.(lastSync := s'.db.lastSync));
    }
    Keyspace.UpsertOverwrites(s.db, user, rows, user);
    assert Keyspace.NamesOf(s'.db, user) == Keyspace.NamesOf(written, user);
  }

  class Service {
    /** Registered users and their hashed passwords, as cached in memory. */
    var userInfos: map<string, string>
    const store: RedisStore.Store

    constructor (store: RedisStore.Store)
      requires store.Valid() && store.Serviceable() && KeyspaceRuns.Sound(store.db)
      requires KeyspaceRuns.Restartable(store.db)
      requires forall u :: u !in store.db.users ==> KeyspaceRuns.NoKeys(store.db, u)
      ensures this.store == store && Valid()
    {
      this.store := store;
      userInfos := store.db.users;
    }

    ghost function State(): KeyspaceRuns.State
      reads this, store
    {
      KeyspaceRuns.State(userInfos.Keys, store.db)
    }

    ghost predicate Valid()
      reads this, store
    {
      store.Valid() && store.Serviceable() && KeyspaceRuns.Inv(State())
    }

    predicate VerifyPassword(user: string, hashed: string)
      reads this
    {
      user in userInfos && userInfos[user] == hashed
    }

    /** The store has the user with its password and first sync time, and nothing of an earlier one of that name. */
    ghost predicate Begun(user: string, hashed: string)
      reads store
    {
      && user in store.db.users && store.db.users[user] == hashed
      && user in store.db.lastSync && store.db.lastSync[user] == 1
      && KeyspaceRuns.NoKeys(store.db, user)
    }

    /** Nothing of the user is left in the store. */
    ghost predicate Gone(user: string)
      reads store
    {
      user !in store.db.users && user !in store.db.lastSync && KeyspaceRuns.NoKeys(store.db, user)
    }

    /** A valid address that is not cached yet is registered, unless the store fails three times. */
    method HandleRegister(email: string, hashed: string) returns (reply: Reply)
      requires Valid()
      modifies this, store
      ensures Valid()
      ensures reply == BadRequest400 <==> !VerifyEmail.IsEmail(email)
      ensures VerifyEmail.IsEmail(email) && email in old(userInfos) ==> reply == Error500
      ensures !VerifyEmail.IsEmail(email) || email in old(userInfos) ==> State() == old(State())
      ensures reply in {Ok200, BadRequest400, Error500}
      ensures VerifyEmail.IsEmail(email) && email !in old(userInfos) && RedisStore.Strikes(old(store.tape)) < 3 ==>
                reply == Ok200
      ensures userInfos == if reply == Ok200 then old(userInfos)[email := hashed] else old(userInfos)
      ensures reply == Ok200 ==> Begun(email, hashed)
      ensures VerifyEmail.IsEmail(email) && email !in old(userInfos) ==>
                KeyspaceRuns.Next(old(State()), KeyspaceRuns.Register(email, hashed, FIRST_SYNC, reply == Ok200),
                                  State())
    {
      var wellFormed := VerifyEmail.VerifyEmail(email);
      if !wellFormed {
        return BadRequest400;
      }
      if email in userInfos {
        return Error500;
      }
      var created := AddUser(email, hashed);
      reply := if created then Ok200 else Error500;
    }

    /** The user is cached before the store is asked, and taken out again when the store fails. */
    method AddUser(email: string, hashed: string) returns (created: bool)
      requires Valid() && email !in userInfos
      modifies this, store
      ensures Valid() && userInfos == if created then old(userInfos)[email := hashed] else old(userInfos)
      ensures RedisStore.Strikes(old(store.tape)) < 3 ==> created
      ensures created ==> Begun(email, hashed)
      ensures KeyspaceRuns.Next(old(State()), KeyspaceRuns.Register(email, hashed, FIRST_SYNC, created), State())
    {
      ghost var before := State();
      userInfos := userInfos[email := hashed];
      created := store.CreateUser(email, hashed, FIRST_SYNC);
      if !created {
        userInfos := userInfos - {email};
        assert userInfos == old(userInfos);
      }
      KeyspaceRuns.RegisterKeeps(before, KeyspaceRuns.Register(email, hashed, FIRST_SYNC, created), State());
      if created {
        KeyspaceRuns.CreateFull(before.db, email, hashed, FIRST_SYNC);
        assert KeyspaceRuns.NoKeys(before.db, email);
      }
    }

    /**
     * Only with the password the user is cached with; the user leaves the cache only after the store has
     * removed everything, which takes four faults to prevent.
     */
    method HandleDelete(email: string, hashed: string) returns (reply: Reply)
      requires Valid()
      modifies this, store
      ensures Valid() && userInfos == if reply == Ok200 then old(userInfos) - {email} else old(userInfos)
      ensures email !in old(userInfos) || old(userInfos)[email] != hashed ==>
                reply == Forbidden403 && State() == old(State())
      ensures email in old(userInfos) && old(userInfos)[email] == hashed ==>
                && reply in {Ok200, Error500} && (RedisStore.Strikes(old(store.tape)) < 4 ==> reply == Ok200)
                && KeyspaceRuns.Next(old(State()), KeyspaceRuns.Delete(email, reply == Ok200), State())
      ensures reply == Ok200 ==> Gone(email)
    {
      if !VerifyPassword(email, hashed) {
        return Forbidden403;
      }
      ghost var before := State();
      var deleted := store.DeleteUser(email);
      if !deleted {
        KeyspaceRuns.DeleteKeeps(before, KeyspaceRuns.Delete(email, false), State());
        return Error500;
      }
      userInfos := userInfos - {email};
      KeyspaceRuns.DeleteKeeps(before, KeyspaceRuns.Delete(email, true), State());
      return Ok200;
    }

    /**
     * The diff against what could be read; with an error-free read, against exactly the stored accounts. After
     * an incomplete one the reply is sent all the same: a diff against some of them. Without the right password
     * nothing is sent.
     */
    method HandleSyncInitial(email: string, hashed: string, list: seq<SyncDiff.Entry>)
      returns (reply: Reply, toServer: seq<string>, toClient: seq<Account>, ghost complete: bool)
      requires Valid()
      modifies store
      ensures Valid() && State() == old(State())
      ensures email !in userInfos || userInfos[email] != hashed ==>
                reply == Forbidden403 && toServer == [] && toClient == []
      ensures email in userInfos && userInfos[email] == hashed ==> reply == Ok200
      ensures RedisStore.Strikes(old(store.tape)) < 4 && RedisStore.Complaints(old(store.tape)) == 0 ==> complete
      ensures reply == Ok200 && complete ==>
                SyncDiff.Response(Keyspace.Stored(store.db, email), list, toServer, toClient)
      ensures reply == Ok200 ==>
                exists part :: RedisStore.PartOf(part, Keyspace.Stored(store.db, email))
                               && SyncDiff.Response(part, list, toServer, toClient)
    {
      if !VerifyPassword(email, hashed) {
        return Forbidden403, [], [], true;
      }
      var accounts;
      accounts, complete := store.GetAccountsForUser(email);
      KeyspaceRuns.ReadIsStored(store.db, email);
      toServer, toClient := SyncDiff.HandleSyncInitial(accounts, list);
      reply := Ok200;
    }

    /**
     * The upload, then the last sync time, and the reply as the two report. The index stays sound under the
     * guard on the upload. What was written depends on how the last attempt of each ended, which the reply
     * does not tell; with nothing wrong ahead it is 200 and all is written.
     */
    method HandleSyncFinal(email: string, hashed: string, rows: seq<Account>, now: int)
      returns (reply: Reply, ghost upserts: seq<RedisStore.Outcome>, ghost syncs: seq<RedisStore.Outcome>)
      requires Valid()
      modifies this, store
      ensures store.Valid() && store.Serviceable() && userInfos == old(userInfos)
      ensures email in old(store.db).users || rows == [] ==> Valid()
      ensures email !in old(userInfos) || old(userInfos)[email] != hashed ==>
                reply == Forbidden403 && State() == old(State())
      ensures email in old(userInfos) && old(userInfos)[email] == hashed ==>
                && reply == (if RedisStore.Succeeded(upserts) && RedisStore.Succeeded(syncs) then Ok200 else Error500)
                && exists synced ::
                     KeyspaceRuns.Next(old(State()), KeyspaceRuns.SyncFinal(email, rows, now, synced), State())
      ensures email in old(userInfos) && old(userInfos)[email] == hashed && RedisStore.Strikes(old(store.tape)) == 0 ==>
                reply == Ok200 && RedisStore.WroteLast(upserts) && RedisStore.WroteLast(syncs)
      ensures RedisStore.WroteLast(upserts) ==>
                Keyspace.Stored(store.db, email) == Keyspace.Overwrite(Keyspace.Stored(old(store.db), email), rows)
      ensures RedisStore.WroteLast(syncs) ==> email in store.db.lastSync && store.db.lastSync[email] == now
    {
      upserts, syncs := [], [];
      if !VerifyPassword(email, hashed) {
        return Forbidden403, [], [];
      }
      ghost var before := State();
      var upserted;
      upserted, upserts := store.UpsertAccounts(email, rows);
      ghost var written := store.db;
      var updated := false;
      if upserted {
        updated, syncs := store.UpdateLastSync(email, now);
      }
      SyncFinalDone(before, email, rows, now, written, store.db != written, State());
      reply := if upserted && updated then Ok200 else Error500;
    }
  }

  /** A user registered with one password is let in with that password and no other. */
  method RegisterThenSync(service: Service, email: string, hashed: string, other: string, list: seq<SyncDiff.Entry>)
    returns (registered: Reply, reply: Reply)
    requires service.Valid()
    modifies service, service.store
    ensures registered == Ok200 ==> reply == if other == hashed then Ok200 else Forbidden403
  {
    var toServer, toClient;
    registered := service.HandleRegister(email, hashed);
    ghost var complete;
    reply, toServer, toClient, complete := service.HandleSyncInitial(email, other, list);
  }
}
