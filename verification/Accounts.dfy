/** Account records and the last-writer-wins merge that both stores and the clients rely on. */
module Accounts {

  /** One row of a user's accounts; `deleted` is an ordinary field, so a deletion travels as a tombstone. */
  datatype Account = Account(
    accountName: string, userName: string, password: string, oldPassword: string, url: string,
    updateTime: int, deleted: bool)

  /** One user's accounts, held by the server or by a client. */
  type Replica = map<string, Account>

  ghost predicate WellNamed(m: Replica) {
    forall n :: n in m ==> m[n].accountName == n
  }

  ghost predicate Named(rows: seq<Account>, n: string) {
    exists a :: a in rows && a.accountName == n
  }

  predicate DistinctNames(rows: seq<Account>) {
    forall i, j :: 0 <= i < j < |rows| ==> rows[i].accountName != rows[j].accountName
  }

  /** `m` already holds a record of `a`'s name that is at least as recent. */
  predicate Covers(m: Replica, a: Account) {
    a.accountName in m && m[a.accountName].updateTime >= a.updateTime
  }

  ghost predicate AtLeast(m: Replica, r: Replica) {
    forall n :: n in r ==> n in m && m[n].updateTime >= r[n].updateTime
  }

  /** The name and the update time determine the record. */
  ghost predicate Coherent(pool: set<Account>) {
    forall a, b :: a in pool && b in pool && a.accountName == b.accountName && a.updateTime == b.updateTime ==> a == b
  }

  function Keep(m: Replica, a: Account): Replica {
    if Covers(m, a) then m else m[a.accountName := a]
  }

  /** Rows applied one after the other, each kept only when it is newer. */
  function MergeAll(m: Replica, rows: seq<Account>): Replica {
    if rows == [] then m else Keep(MergeAll(m, rows[..|rows| - 1]), rows[|rows| - 1])
  }

  /** The result has exactly the names of the start and of the rows, and each record is one of theirs. */
  ghost predicate NothingInvented(m: Replica, rows: seq<Account>, r: Replica) {
    && (forall n :: n in r <==> n in m || Named(rows, n))
    && (forall n :: n in r ==> (n in m && r[n] == m[n]) || (r[n] in rows && r[n].accountName == n))
  }

  /** The result is at least as recent as the start and every row, and the start wins ties. */
  ghost predicate NothingLost(m: Replica, rows: seq<Account>, r: Replica) {
    && (forall n :: n in m ==> n in r && r[n].updateTime >= m[n].updateTime)
    && (forall n :: n in m && n in r && r[n].updateTime == m[n].updateTime ==> r[n] == m[n])
    && (forall a :: a in rows ==> Covers(r, a))
  }

  /** Reference meaning of a merge: no order of application, only what the result must hold. */
  ghost predicate IsLatest(m: Replica, rows: seq<Account>, r: Replica) {
    NothingInvented(m, rows, r) && NothingLost(m, rows, r)
  }

  lemma NamedAppend(rows: seq<Account>, a: Account, n: string)
    ensures Named(rows + [a], n) <==> Named(rows, n) || a.accountName == n
  {
    if Named(rows, n) {
      var b :| b in rows && b.accountName == n;
      assert b in rows + [a];
    }
    if a.accountName == n {
      assert a in rows + [a];
    }
  }

  lemma KeepInventsNothing(m: Replica, rows: seq<Account>, p: Replica, a: Account)
    requires NothingInvented(m, rows, p)
    ensures NothingInvented(m, rows + [a], Keep(p, a))
  {
    forall n ensures n in Keep(p, a) <==> n in m || Named(rows + [a], n) {
      NamedAppend(rows, a, n);
    }
  }

  lemma KeepLosesNothing(m: Replica, rows: seq<Account>, p: Replica, a: Account)
    requires NothingLost(m, rows, p)
    ensures NothingLost(m, rows + [a], Keep(p, a))
  {
  }

  lemma {:induction false} MergeAllIsLatest(m: Replica, rows: seq<Account>)
    ensures IsLatest(m, rows, MergeAll(m, rows))
  {
    if rows != [] {
      var init, a := rows[..|rows| - 1], rows[|rows| - 1];
      assert rows == init + [a];
      MergeAllIsLatest(m, init);
      KeepInventsNothing(m, init, MergeAll(m, init), a);
      KeepLosesNothing(m, init, MergeAll(m, init), a);
    }
  }

  lemma {:induction false} MergeAllWellNamed(m: Replica, rows: seq<Account>)
    requires WellNamed(m)
    ensures WellNamed(MergeAll(m, rows))
  {
    if rows != [] {
      MergeAllWellNamed(m, rows[..|rows| - 1]);
    }
  }

  /** Two merges of the same rows agree on every name and time, whatever their order or repetition. */
  lemma LatestTimesUnique(m: Replica, xs: seq<Account>, ys: seq<Account>, r: Replica, q: Replica)
    requires forall a :: a in xs <==> a in ys
    requires IsLatest(m, xs, r) && IsLatest(m, ys, q)
    ensures r.Keys == q.Keys
    ensures forall n :: n in r ==> r[n].updateTime == q[n].updateTime
  {
    forall n ensures n in r <==> n in q {
      assert Named(xs, n) <==> Named(ys, n);
    }
    forall n | n in r ensures r[n].updateTime == q[n].updateTime {
      assert n in q;
    }
  }

  lemma LatestUnique(m: Replica, xs: seq<Account>, ys: seq<Account>, r: Replica, q: Replica, pool: set<Account>)
    requires forall a :: a in xs <==> a in ys
    requires IsLatest(m, xs, r) && IsLatest(m, ys, q)
    requires WellNamed(m) && Coherent(pool) && m.Values <= pool && forall a :: a in xs ==> a in pool
    ensures r == q
  {
    LatestTimesUnique(m, xs, ys, r, q);
    forall n | n in r ensures r[n] == q[n] {
      assert n in m ==> m[n] in m.Values;
      assert r[n] in pool && q[n] in pool;
    }
    assert r == q;
  }

  /** Uploads commute and may repeat: times always agree, and the records too when times determine records. */
  lemma OrderIndependent(m: Replica, xs: seq<Account>, ys: seq<Account>)
    requires forall a :: a in xs <==> a in ys
    ensures MergeAll(m, xs).Keys == MergeAll(m, ys).Keys
    ensures forall n :: n in MergeAll(m, xs) ==> MergeAll(m, xs)[n].updateTime == MergeAll(m, ys)[n].updateTime
    ensures WellNamed(m) && Coherent(m.Values + set a | a in xs) ==> MergeAll(m, xs) == MergeAll(m, ys)
  {
    MergeAllIsLatest(m, xs);
    MergeAllIsLatest(m, ys);
    LatestTimesUnique(m, xs, ys, MergeAll(m, xs), MergeAll(m, ys));
    if WellNamed(m) && Coherent(m.Values + set a | a in xs) {
      LatestUnique(m, xs, ys, MergeAll(m, xs), MergeAll(m, ys), m.Values + set a | a in xs);
    }
  }

  lemma {:induction false} MergeAllConcat(m: Replica, xs: seq<Account>, ys: seq<Account>)
    ensures MergeAll(m, xs + ys) == MergeAll(MergeAll(m, xs), ys)
  {
    if ys == [] {
      assert xs + ys == xs;
    } else {
      var init := ys[..|ys| - 1];
      assert (xs + ys)[..|xs + ys| - 1] == xs + init;
      MergeAllConcat(m, xs, init);
    }
  }

  lemma {:induction false} MergeCoveredIsIdentity(m: Replica, rows: seq<Account>)
    requires forall a :: a in rows ==> Covers(m, a)
    ensures MergeAll(m, rows) == m
  {
    if rows != [] {
      assert rows[|rows| - 1] in rows;
      MergeCoveredIsIdentity(m, rows[..|rows| - 1]);
    }
  }

  /** Records of a merge come from the pool its inputs come from. */
  lemma MergeWithin(m: Replica, rows: seq<Account>, pool: set<Account>)
    requires m.Values <= pool && (forall a :: a in rows ==> a in pool)
    ensures MergeAll(m, rows).Values <= pool
  {
    MergeAllIsLatest(m, rows);
    var r := MergeAll(m, rows);
    forall a | a in r.Values ensures a in pool {
      var n :| n in r && r[n] == a;
      if n in m && r[n] == m[n] {
        assert a in m.Values;
      }
    }
  }

  /** Replicas that are at least as recent as each other hold the same records. */
  lemma MutualAtLeastIsEqual(m: Replica, r: Replica, pool: set<Account>)
    requires WellNamed(m) && WellNamed(r) && AtLeast(m, r) && AtLeast(r, m)
    requires Coherent(pool) && m.Values <= pool && r.Values <= pool
    ensures m == r
  {
    forall n | n in m ensures n in r && m[n] == r[n] {
      assert m[n] in pool && r[n] in pool;
    }
    assert m.Keys == r.Keys;
  }
}
