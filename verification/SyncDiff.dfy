/** The sync-initial diff: what the server asks the client to upload and what it ships back. */
module SyncDiff {
  import opened Accounts

  /** One entry of the client's list: a name and the update time of its local record. */
  datatype Entry = Entry(name: string, updateTime: int)

  ghost predicate InList(list: seq<Entry>, n: string) {
    exists e :: e in list && e.name == n
  }

  /** Entry `i` is the first of its name. */
  ghost predicate FirstAt(list: seq<Entry>, i: nat)
    requires i < |list|
  {
    forall k :: 0 <= k < i ==> list[k].name != list[i].name
  }

  predicate DistinctEntries(list: seq<Entry>) {
    forall i, j :: 0 <= i < j < |list| ==> list[i].name != list[j].name
  }

  /** A repeated name is requested again: the server's copy was erased when the first one was met. */
  ghost predicate Requested(server: Replica, list: seq<Entry>, i: nat)
    requires i < |list|
  {
    !FirstAt(list, i) || list[i].name !in server || list[i].updateTime > server[list[i].name].updateTime
  }

  ghost predicate Outdated(server: Replica, list: seq<Entry>, i: nat)
    requires i < |list|
  {
    FirstAt(list, i) && list[i].name in server && list[i].updateTime < server[list[i].name].updateTime
  }

  /** Names to upload among the first `n` entries, in list order. */
  ghost function RequestedNames(server: Replica, list: seq<Entry>, n: nat): seq<string>
    requires n <= |list|
  {
    if n == 0 then []
    else RequestedNames(server, list, n - 1) + if Requested(server, list, n - 1) then [list[n - 1].name] else []
  }

  /** Server records newer than the client's among the first `n` entries, in list order. */
  ghost function OutdatedRecords(server: Replica, list: seq<Entry>, n: nat): seq<Account>
    requires n <= |list|
  {
    if n == 0 then []
    else OutdatedRecords(server, list, n - 1)
         + if Outdated(server, list, n - 1) then [server[list[n - 1].name]] else []
  }

  /** `rows` lists every record of `m` once. */
  ghost predicate IsListing(rows: seq<Account>, m: Replica) {
    && DistinctNames(rows)
    && forall a: Account :: a in rows <==> a.accountName in m && m[a.accountName] == a
  }

  ghost function NotListed(server: Replica, list: seq<Entry>): Replica {
    map n | n in server && !InList(list, n) :: server[n]
  }

  /** The reply of sync-initial, read off the server's map as it was before the diff erased from it. */
  ghost predicate Response(server: Replica, list: seq<Entry>, toServer: seq<string>, toClient: seq<Account>) {
    && toServer == RequestedNames(server, list, |list|)
    && exists rest ::
         IsListing(rest, NotListed(server, list)) && toClient == OutdatedRecords(server, list, |list|) + rest
  }

  /** Lists the records left in the map, once each. */
  method ListRemaining(m: Replica) returns (rows: seq<Account>)
    requires WellNamed(m)
    ensures IsListing(rows, m)
  {
    rows := [];
    var left := m;
    while left != map[]
      invariant left.Keys <= m.Keys
      invariant forall n :: n in left ==> left[n] == m[n]
      invariant DistinctNames(rows)
      invariant forall a: Account ::
                  a in rows <==> a.accountName in m && a.accountName !in left && m[a.accountName] == a
      decreases |left|
    {
      var n :| n in left;
      assert left[n] !in rows;
      rows := rows + [left[n]];
      left := left - {n};
    }
  }

  lemma ErasedIffSeen(server: Replica, list: seq<Entry>, i: nat)
    requires i < |list|
    ensures FirstAt(list, i) <==> !InList(list[..i], list[i].name)
    ensures forall n :: InList(list[..i + 1], n) <==> InList(list[..i], n) || n == list[i].name
  {
    if !FirstAt(list, i) {
      var k :| 0 <= k < i && list[k].name == list[i].name;
      assert list[..i][k] in list[..i];
    }
    assert list[..i + 1] == list[..i] + [list[i]];
    forall n ensures InList(list[..i + 1], n) <==> InList(list[..i], n) || n == list[i].name {
      if InList(list[..i], n) {
        var e :| e in list[..i] && e.name == n;
        assert e in list[..i + 1];
      }
      assert list[i] in list[..i + 1];
    }
  }

  /** The diff loop. It compares each entry with the server's map and erases the name it has met. */
  method HandleSyncInitial(stored: Replica, list: seq<Entry>) returns (toServer: seq<string>, toClient: seq<Account>)
    requires WellNamed(stored)
    ensures Response(stored, list, toServer, toClient)
  {
    toServer, toClient := [], [];
    var accounts := stored;
    for i := 0 to |list|
      invariant toServer == RequestedNames(stored, list, i)
      invariant toClient == OutdatedRecords(stored, list, i)
      invariant forall n :: n in accounts <==> n in stored && !InList(list[..i], n)
      invariant forall n :: n in accounts ==> accounts[n] == stored[n]
    {
      var name, updateTime := list[i].name, list[i].updateTime;
      ErasedIffSeen(stored, list, i);
      if name in accounts {
        if updateTime > accounts[name].updateTime {
          toServer := toServer + [name];
        } else if updateTime < accounts[name].updateTime {
          toClient := toClient + [accounts[name]];
        }
        accounts := accounts - {name};
      } else {
        toServer := toServer + [name];
      }
    }
    assert list[..|list|] == list;
    assert accounts == NotListed(stored, list);
    var rest := ListRemaining(accounts);
    toClient := toClient + rest;
  }

  lemma {:induction false} RequestedNamesAre(server: Replica, list: seq<Entry>, n: nat, name: string)
    requires n <= |list|
    ensures name in RequestedNames(server, list, n)
            <==> exists i :: 0 <= i < n && list[i].name == name && Requested(server, list, i)
  {
    if n > 0 {
      RequestedNamesAre(server, list, n - 1, name);
    }
  }

  lemma {:induction false} OutdatedRecordsAre(server: Replica, list: seq<Entry>, n: nat, a: Account)
    requires n <= |list|
    ensures a in OutdatedRecords(server, list, n) <==>
            exists i :: 0 <= i < n && Outdated(server, list, i) && server[list[i].name] == a
  {
    if n > 0 {
      OutdatedRecordsAre(server, list, n - 1, a);
    }
  }

  /** The list names exactly the client's records with their times, each once. */
  ghost predicate Announces(list: seq<Entry>, local: Replica) {
    && DistinctEntries(list)
    && (forall e :: e in list ==> e.name in local && local[e.name].updateTime == e.updateTime)
    && forall n :: n in local ==> Entry(n, local[n].updateTime) in list
  }

  /** A reply requests exactly the names the client holds a newer or the only version of. */
  lemma ResponseRequests(server: Replica, local: Replica, list: seq<Entry>, want: seq<string>, down: seq<Account>,
                         n: string)
    requires Announces(list, local) && Response(server, list, want, down)
    ensures n in want <==> n in local && (n !in server || local[n].updateTime > server[n].updateTime)
  {
    RequestedNamesAre(server, list, |list|, n);
    if n in local {
      var e := Entry(n, local[n].updateTime);
      assert e in list;
      var i :| 0 <= i < |list| && list[i] == e;
      assert FirstAt(list, i);
      assert Requested(server, list, i) <==> n !in server || local[n].updateTime > server[n].updateTime;
      assert forall j :: 0 <= j < |list| && list[j].name == n ==> j == i;
    }
    forall i | 0 <= i < |list| && list[i].name == n && Requested(server, list, i)
      ensures n in local && (n !in server || local[n].updateTime > server[n].updateTime)
    {
      assert list[i] in list && FirstAt(list, i);
    }
  }

  /** A reply ships exactly the server's records the client lacks or holds an older version of. */
  lemma ResponseShips(server: Replica, local: Replica, list: seq<Entry>, want: seq<string>, down: seq<Account>,
                      a: Account)
    requires WellNamed(server) && Announces(list, local) && Response(server, list, want, down)
    ensures a in down <==> a.accountName in server && server[a.accountName] == a
                           && (a.accountName !in local || local[a.accountName].updateTime < a.updateTime)
  {
    var n := a.accountName;
    var rest :| IsListing(rest, NotListed(server, list)) && down == OutdatedRecords(server, list, |list|) + rest;
    OutdatedRecordsAre(server, list, |list|, a);
    assert InList(list, n) <==> n in local by {
      if n in local { assert Entry(n, local[n].updateTime) in list; }
    }
    if n in local {
      var i :| 0 <= i < |list| && list[i] == Entry(n, local[n].updateTime);
      assert FirstAt(list, i);
      assert Outdated(server, list, i) <==> n in server && local[n].updateTime < server[n].updateTime;
    }
    forall i | 0 <= i < |list| && Outdated(server, list, i) && server[list[i].name] == a
      ensures list[i].name == n && n in local && local[n].updateTime < a.updateTime
    {
      assert list[i] in list;
    }
  }

  ghost predicate Uploaded(n: string, want: seq<string>) {
    n in want
  }

  ghost predicate Shipped(n: string, down: seq<Account>) {
    Named(down, n)
  }

  ghost predicate InStep(n: string, server: Replica, local: Replica) {
    n in server && n in local && server[n].updateTime == local[n].updateTime
  }

  /** Every name either side holds falls in exactly one of the three classes, and no other name in any. */
  lemma SyncPartition(server: Replica, local: Replica, list: seq<Entry>, want: seq<string>, down: seq<Account>,
                      n: string)
    requires WellNamed(server) && Announces(list, local) && Response(server, list, want, down)
    ensures n in server || n in local <==> Uploaded(n, want) || Shipped(n, down) || InStep(n, server, local)
    ensures !(Uploaded(n, want) && Shipped(n, down))
    ensures InStep(n, server, local) ==> !Uploaded(n, want) && !Shipped(n, down)
  {
    ResponseRequests(server, local, list, want, down, n);
    if n in server {
      ResponseShips(server, local, list, want, down, server[n]);
    }
    forall a | a in down && a.accountName == n
      ensures n in server && (n !in local || local[n].updateTime < server[n].updateTime)
    {
      ResponseShips(server, local, list, want, down, a);
    }
  }

  /** The client uploads its current record of every requested name. */
  ghost predicate Answers(rows: seq<Account>, want: seq<string>, local: Replica) {
    |rows| == |want| && forall k :: 0 <= k < |want| ==> want[k] in local && rows[k] == local[want[k]]
  }

  lemma RowsAre(rows: seq<Account>, want: seq<string>, local: Replica)
    requires WellNamed(local) && Answers(rows, want, local)
    ensures forall a: Account :: a in rows <==> a.accountName in want && local[a.accountName] == a
  {
    forall a: Account | a.accountName in want && local[a.accountName] == a ensures a in rows {
      var k :| 0 <= k < |want| && want[k] == a.accountName;
      assert rows[k] == a;
    }
  }

  lemma UploadReachesServer(server: Replica, local: Replica, list: seq<Entry>, want: seq<string>, down: seq<Account>,
                            rows: seq<Account>)
    requires WellNamed(local)
    requires Announces(list, local) && Response(server, list, want, down) && Answers(rows, want, local)
    ensures AtLeast(MergeAll(server, rows), local) && AtLeast(MergeAll(server, rows), server)
  {
    MergeAllIsLatest(server, rows);
    RowsAre(rows, want, local);
    var s := MergeAll(server, rows);
    forall n | n in local ensures n in s && s[n].updateTime >= local[n].updateTime {
      ResponseRequests(server, local, list, want, down, n);
      if n in want {
        assert Covers(s, local[n]);
      }
    }
  }

  lemma DownloadReachesClient(server: Replica, local: Replica, list: seq<Entry>, want: seq<string>, down: seq<Account>)
    requires WellNamed(server)
    requires Announces(list, local) && Response(server, list, want, down)
    ensures AtLeast(MergeAll(local, down), server) && AtLeast(MergeAll(local, down), local)
    ensures forall a :: a in down ==> a.accountName in server && server[a.accountName] == a
  {
    MergeAllIsLatest(local, down);
    var c := MergeAll(local, down);
    forall n | n in server ensures n in c && c[n].updateTime >= server[n].updateTime {
      ResponseShips(server, local, list, want, down, server[n]);
      if server[n] in down {
        assert Covers(c, server[n]);
      }
    }
    forall a | a in down ensures a.accountName in server && server[a.accountName] == a {
      ResponseShips(server, local, list, want, down, a);
    }
  }

  /** A merge stays below whatever is above its start and all its rows. */
  lemma MergeBelow(m: Replica, rows: seq<Account>, top: Replica)
    requires AtLeast(top, m) && forall a :: a in rows ==> Covers(top, a)
    ensures AtLeast(top, MergeAll(m, rows))
  {
    MergeAllIsLatest(m, rows);
    var r := MergeAll(m, rows);
    forall n | n in r ensures n in top && top[n].updateTime >= r[n].updateTime {
      if !(n in m && r[n] == m[n]) {
        assert r[n] in rows && Covers(top, r[n]);
      }
    }
  }

  /** Which record each side ends a session with. */
  lemma SessionOutcome(server: Replica, local: Replica, list: seq<Entry>, want: seq<string>, down: seq<Account>,
                       rows: seq<Account>, n: string)
    requires WellNamed(server) && WellNamed(local)
    requires Announces(list, local) && Response(server, list, want, down) && Answers(rows, want, local)
    ensures n in MergeAll(server, rows) <==> n in server || n in local
    ensures n in MergeAll(local, down) <==> n in server || n in local
    ensures n in local && n in want ==> MergeAll(server, rows)[n] == local[n]
    ensures n in server && n !in want ==> MergeAll(server, rows)[n] == server[n]
    ensures n in server && Shipped(n, down) ==> MergeAll(local, down)[n] == server[n]
    ensures n in local && !Shipped(n, down) ==> MergeAll(local, down)[n] == local[n]
  {
    var s, c := MergeAll(server, rows), MergeAll(local, down);
    MergeAllIsLatest(server, rows);
    MergeAllIsLatest(local, down);
    SyncPartition(server, local, list, want, down, n);
    ResponseRequests(server, local, list, want, down, n);
    DownloadReachesClient(server, local, list, want, down);
    RowsAre(rows, want, local);
    if n in want {
      assert local[n] in rows && Covers(s, local[n]);
    }
    if n in server && Shipped(n, down) {
      ResponseShips(server, local, list, want, down, server[n]);
      var a :| a in down && a.accountName == n;
      assert a == server[n] && Covers(c, server[n]);
    }
    if Named(rows, n) {
      var a :| a in rows && a.accountName == n;
    }
  }

  /** Both sides hold the name at the same time, and the same record unless it was in step. */
  ghost predicate Settled(server: Replica, local: Replica, s: Replica, c: Replica, n: string) {
    && (n in s <==> n in c)
    && (n in s ==> s[n].updateTime == c[n].updateTime)
    && (n in s && !InStep(n, server, local) ==> s[n] == c[n])
    && (InStep(n, server, local) ==> n in s && s[n] == server[n] && c[n] == local[n])
  }

  lemma SessionSettles(server: Replica, local: Replica, list: seq<Entry>, want: seq<string>, down: seq<Account>,
                       rows: seq<Account>, n: string)
    requires WellNamed(server) && WellNamed(local)
    requires Announces(list, local) && Response(server, list, want, down) && Answers(rows, want, local)
    ensures Settled(server, local, MergeAll(server, rows), MergeAll(local, down), n)
  {
    SessionOutcome(server, local, list, want, down, rows, n);
    SyncPartition(server, local, list, want, down, n);
    ResponseRequests(server, local, list, want, down, n);
  }

  lemma AllSettled(server: Replica, local: Replica, s: Replica, c: Replica)
    requires forall n :: Settled(server, local, s, c, n)
    ensures AtLeast(c, s) && AtLeast(s, c)
    ensures c == s <==> forall n :: InStep(n, server, local) ==> server[n] == local[n]
  {
    forall n | n in s ensures n in c && c[n].updateTime >= s[n].updateTime {
      assert Settled(server, local, s, c, n);
    }
    forall n | n in c ensures n in s && s[n].updateTime >= c[n].updateTime {
      assert Settled(server, local, s, c, n);
    }
    if forall n :: InStep(n, server, local) ==> server[n] == local[n] {
      SameRecords(server, local, s, c);
    } else if c == s {
      var n :| InStep(n, server, local) && server[n] != local[n];
      assert Settled(server, local, s, c, n);
    }
  }

  lemma SameRecords(server: Replica, local: Replica, s: Replica, c: Replica)
    requires forall n :: Settled(server, local, s, c, n)
    requires forall n :: InStep(n, server, local) ==> server[n] == local[n]
    ensures c == s
  {
    forall n ensures n in s <==> n in c {
      assert Settled(server, local, s, c, n);
    }
    forall n | n in s ensures s[n] == c[n] {
      assert Settled(server, local, s, c, n);
    }
  }

  /**
   * A session with nothing in between leaves both sides with the later time of every name. They end with
   * equal records exactly when the names already in step, which transfer nothing, held equal records.
   */
  lemma SingleSession(server: Replica, local: Replica, list: seq<Entry>, want: seq<string>, down: seq<Account>,
                      rows: seq<Account>)
    requires WellNamed(server) && WellNamed(local)
    requires Announces(list, local) && Response(server, list, want, down) && Answers(rows, want, local)
    ensures AtLeast(MergeAll(server, rows), server) && AtLeast(MergeAll(server, rows), local)
    ensures AtLeast(MergeAll(local, down), MergeAll(server, rows))
    ensures AtLeast(MergeAll(server, rows), MergeAll(local, down))
    ensures MergeAll(local, down) == MergeAll(server, rows) <==>
            forall n :: InStep(n, server, local) ==> server[n] == local[n]
  {
    UploadReachesServer(server, local, list, want, down, rows);
    forall n ensures Settled(server, local, MergeAll(server, rows), MergeAll(local, down), n) {
      SessionSettles(server, local, list, want, down, rows, n);
    }
    AllSettled(server, local, MergeAll(server, rows), MergeAll(local, down));
  }
}
