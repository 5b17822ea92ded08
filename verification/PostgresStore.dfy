/** The Postgres accounts table of one user and its conditional upsert. */
module PostgresStore {
  import opened Accounts

  /**
   * Some name occurs twice and its earlier row would be written: the statement would touch one row of the
   * table twice, which `INSERT ... ON CONFLICT DO UPDATE` rejects as a whole.
   */
  ghost predicate TouchesTwice(table: Replica, rows: seq<Account>) {
    exists i, j :: 0 <= i < j < |rows| && rows[i].accountName == rows[j].accountName && !Covers(table, rows[i])
  }

  /** Some row of name `n` is newer than the table's. */
  ghost predicate Written(table: Replica, rows: seq<Account>, n: string) {
    exists a :: a in rows && a.accountName == n && !Covers(table, a)
  }

  lemma RowStep(table: Replica, rows: seq<Account>, a: Account)
    requires !TouchesTwice(table, rows)
    ensures TouchesTwice(table, rows + [a]) <==> Written(table, rows, a.accountName)
    ensures !Written(table, rows, a.accountName) ==> (Covers(MergeAll(table, rows), a) <==> Covers(table, a))
    ensures forall n ::
              Written(table, rows + [a], n) <==> Written(table, rows, n) || (n == a.accountName && !Covers(table, a))
  {
    var all := rows + [a];
    if Written(table, rows, a.accountName) {
      var b :| b in rows && b.accountName == a.accountName && !Covers(table, b);
      var i :| 0 <= i < |rows| && rows[i] == b;
      assert all[i] == b && all[|rows|] == a;
    }
    if TouchesTwice(table, all) {
      var i, j :| 0 <= i < j < |all| && all[i].accountName == all[j].accountName && !Covers(table, all[i]);
      assert rows[i] == all[i] && j == |rows|;
    }
    MergeAllIsLatest(table, rows);
    forall n ensures Written(table, all, n) <==> Written(table, rows, n) || (n == a.accountName && !Covers(table, a)) {
      if Written(table, rows, n) {
        var b :| b in rows && b.accountName == n && !Covers(table, b);
        assert b in all;
      }
      assert a in all;
    }
  }

  lemma PrefixTouchesTwice(table: Replica, rows: seq<Account>, n: nat)
    requires n <= |rows| && TouchesTwice(table, rows[..n])
    ensures TouchesTwice(table, rows)
  {
    var i, j :| 0 <= i < j < n && rows[..n][i].accountName == rows[..n][j].accountName && !Covers(table, rows[..n][i]);
    assert rows[i] == rows[..n][i] && rows[j] == rows[..n][j];
  }

  class Table {
    var rows: Replica

    constructor ()
      ensures rows == map[]
    {
      rows := map[];
    }

    /**
     * The multi-row upsert. An empty upload succeeds without a statement. `false` stands for the
     * exception that turns into a 500 reply; the statement is atomic, so nothing is kept then.
     */
    method Upsert(upload: seq<Account>) returns (ok: bool)
      modifies this
      ensures ok <==> !TouchesTwice(old(rows), upload)
      ensures rows == if ok then MergeAll(old(rows), upload) else old(rows)
    {
      if |upload| < 1 {
        return true;
      }
      ghost var table := rows;
      var proposed := rows;
      var touched := {};
      for i := 0 to |upload|
        invariant rows == table && proposed == MergeAll(table, upload[..i])
        invariant forall n :: n in touched <==> Written(table, upload[..i], n)
        invariant !TouchesTwice(table, upload[..i])
      {
        var a := upload[i];
        assert upload[..i + 1] == upload[..i] + [a];
        RowStep(table, upload[..i], a);
        if a.accountName in touched {
          PrefixTouchesTwice(table, upload, i + 1);
          return false;
        }
        if !Covers(proposed, a) {
          proposed := proposed[a.accountName := a];
          touched := touched + {a.accountName};
        }
      }
      assert upload[..|upload|] == upload;
      rows := proposed;
      ok := true;
    }
  }

  /** Uploads with distinct names, as a client that answers a request sends, are never rejected. */
  lemma DistinctNamesAccepted(table: Replica, rows: seq<Account>)
    requires DistinctNames(rows)
    ensures !TouchesTwice(table, rows)
  {
  }

  /** Executing a statement again after its reply was lost changes nothing and is accepted. */
  lemma RetryIsHarmless(table: Replica, rows: seq<Account>)
    ensures !TouchesTwice(MergeAll(table, rows), rows)
    ensures MergeAll(MergeAll(table, rows), rows) == MergeAll(table, rows)
  {
    MergeAllIsLatest(table, rows);
    MergeCoveredIsIdentity(MergeAll(table, rows), rows);
  }
}
