/** Building the multi-row upsert statement in a buffer that is grown by reallocation. */
module SqlBuilder {
  import opened Accounts
  import opened Decimal
  import opened SqlReader

  const NUL: char := '\0'
  const U32 := 0x1_0000_0000
  /** The fixed text before and behind the rows. */
  datatype Sql = Sql(prefix: string, suffix: string)

  /** The fixed text fits the room made for it: 500 bytes to begin with, 320 behind the rows. */
  predicate Sized(sql: Sql) {
    |sql.prefix| <= 100 && |sql.suffix| < 320
  }

  function Quoted(s: string): string {
    "'" + s + "', "
  }

  /** One row as it is formatted into the statement. */
  function RowText(user: string, a: Account): string {
    "(" + Quoted(a.accountName) + Quoted(user) + Quoted(a.userName) + Quoted(a.password) + Quoted(a.oldPassword)
    + Quoted(a.url) + IntText(a.updateTime) + ", " + (if a.deleted then "true" else "false") + ")"
  }

  /** The estimate made before a row is written; it leaves the user out. */
  function Needed(a: Account): nat {
    |a.accountName| + |a.userName| + |a.password| + |a.oldPassword| + |a.url| + 70
  }

  /** A row to be written: its text and the room estimated for it. */
  datatype Row = Row(text: string, needed: nat)

  function RowOf(user: string, a: Account): Row {
    Row(RowText(user, a), Needed(a))
  }

  function Rows(user: string, accounts: seq<Account>): seq<Row> {
    seq(|accounts|, i requires 0 <= i < |accounts| => RowOf(user, accounts[i]))
  }

  function Joined(rows: seq<Row>): string {
    if rows == [] then ""
    else if |rows| == 1 then rows[0].text
    else Joined(rows[..|rows| - 1]) + ", " + rows[|rows| - 1].text
  }

  /** The whole statement: the fixed text before the rows, the rows with commas between, the fixed text behind. */
  function Statement(sql: Sql, rows: seq<Row>): string {
    sql.prefix + Joined(rows) + sql.suffix
  }

  /** The size after `increase_buffer`, before any 32-bit wrap. */
  function Grown(needed: nat, sz: nat, indx: nat): nat
    requires indx <= sz
  {
    if needed + 20 > sz - indx then
      var more := needed + sz * 5 / 4;
      more + more % 8
    else sz
  }

  function FirstSize(rows: nat): nat {
    500 + 100 * rows
  }

  /** From row `i` on, every write with its terminator stays inside the buffer and no size wraps. */
  ghost predicate Fits(sql: Sql, rows: seq<Row>, i: nat, sz: nat, indx: nat)
    requires i <= |rows| && indx <= sz
    decreases |rows| - i
  {
    if i == |rows| then
      Grown(300, sz, indx) < U32 && indx + |sql.suffix| < Grown(300, sz, indx)
    else
      var at := if i == 0 then indx else indx + 2;
      && (i != 0 ==> at < sz)
      && var more := Grown(rows[i].needed, sz, at);
         var end := at + |rows[i].text|;
         more < U32 && end < more && Fits(sql, rows, i + 1, more, end)
  }

  ghost predicate BuildFits(sql: Sql, rows: seq<Row>) {
    && FirstSize(|rows|) < U32 && |sql.prefix| < FirstSize(|rows|)
    && Fits(sql, rows, 0, FirstSize(|rows|), |sql.prefix|)
  }

  /** The buffer holds the text and its terminator. */
  ghost predicate Holds(buf: seq<char>, text: string) {
    |text| < |buf| && buf[..|text|] == text && buf[|text|] == NUL
  }

  /** `sprintf` and `strcpy` behind the text already there: more text and a terminator. */
  method Write(buf: array<char>, indx: nat, s: string, ghost text: string)
    requires indx + |s| < buf.Length && indx == |text| && buf[..indx] == text
    modifies buf
    ensures Holds(buf[..], text + s)
  {
    for i := 0 to |s|
      invariant buf[..indx] == text
      invariant forall k :: 0 <= k < i ==> buf[indx + k] == s[k]
    {
      buf[indx + i] := s[i];
    }
    buf[indx + |s|] := NUL;
    assert buf[..][..indx + |s|] == text + s;
  }

  /** Reallocates when fewer than `needed` + 20 bytes are left; what was written moves along. */
  method IncreaseBuffer(needed: nat, sz: nat, indx: nat, txt: array<char>, ghost text: string)
    returns (sz': nat, txt': array<char>)
    requires indx <= sz == txt.Length && Grown(needed, sz, indx) < U32
    requires indx == |text| && txt[..indx] == text
    ensures sz' == Grown(needed, sz, indx) == txt'.Length && indx <= sz' && txt'[..indx] == text
    ensures txt' == txt || fresh(txt')
  {
    sz', txt' := sz, txt;
    if needed + 20 > sz - indx {
      sz' := needed + sz * 5 / 4;
      sz' := sz' + sz' % 8;
      txt' := new char[sz'];
      for k := 0 to sz
        invariant forall j :: 0 <= j < k ==> txt'[j] == txt[j]
      {
        txt'[k] := txt[k];
      }
      assert txt'[..indx] == txt[..indx];
    }
  }

  lemma JoinedStep(rows: seq<Row>, i: nat)
    requires i < |rows|
    ensures Joined(rows[..i + 1]) == Joined(rows[..i]) + (if i == 0 then "" else ", ") + rows[i].text
  {
    assert rows[..i + 1][..i] == rows[..i];
  }

  /** Separates row `i` from the row before it; no room is asked for here. */
  method WriteSeparator(i: nat, buf: array<char>, indx: nat, ghost text: string) returns (indx': nat)
    requires indx == |text| && indx <= buf.Length && buf[..indx] == text && (i != 0 ==> indx + 2 < buf.Length)
    modifies buf
    ensures indx' == indx + if i == 0 then 0 else 2
    ensures buf[..indx'] == text + if i == 0 then "" else ", "
  {
    indx' := indx;
    if i != 0 {
      Write(buf, indx', ", ", text);
      assert buf[..indx' + 2] == buf[..][..indx' + 2];
      indx' := indx' + 2;
    }
  }

  /** Writes row `i` behind the rows before it. */
  method WriteRow(sql: Sql, rows: seq<Row>, i: nat, buf: array<char>, sz: nat, indx: nat)
    returns (buf': array<char>, sz': nat, indx': nat)
    requires i < |rows| && sz == buf.Length && Fitting(sql, rows, i, buf[..], indx)
    modifies buf
    ensures sz' == buf'.Length && Fitting(sql, rows, i + 1, buf'[..], indx')
    ensures buf' == buf || fresh(buf')
  {
    ghost var text := sql.prefix + Joined(rows[..i]);
    ghost var more := text + if i == 0 then "" else ", ";
    assert buf[..indx] == buf[..][..indx];
    FitsStep(sql, rows, i, sz, indx);
    indx' := WriteSeparator(i, buf, indx, text);
    sz', buf' := IncreaseBuffer(rows[i].needed, sz, indx', buf, more);
    Write(buf', indx', rows[i].text, more);
    indx' := indx' + |rows[i].text|;
    TextStep(sql, rows, i);
    assert buf'[..][..indx'] == more + rows[i].text;
  }

  lemma TextStep(sql: Sql, rows: seq<Row>, i: nat)
    requires i < |rows|
    ensures sql.prefix + Joined(rows[..i]) + (if i == 0 then "" else ", ") + rows[i].text
         == sql.prefix + Joined(rows[..i + 1])
  {
    JoinedStep(rows, i);
  }

  lemma FitsStep(sql: Sql, rows: seq<Row>, i: nat, sz: nat, indx: nat)
    requires i < |rows| && indx <= sz && Fits(sql, rows, i, sz, indx)
    ensures
      var at := if i == 0 then indx else indx + 2;
      && (i != 0 ==> at < sz)
      && var more := Grown(rows[i].needed, sz, at);
         more < U32 && at + |rows[i].text| < more && Fits(sql, rows, i + 1, more, at + |rows[i].text|)
  {
  }

  /** After row `i - 1`: the buffer holds the text so far, and the rest will fit. */
  ghost predicate Fitting(sql: Sql, rows: seq<Row>, i: nat, buf: seq<char>, indx: nat) {
    && i <= |rows| && indx <= |buf| && indx == |sql.prefix| + |Joined(rows[..i])|
    && buf[..indx] == sql.prefix + Joined(rows[..i])
    && Fits(sql, rows, i, |buf|, indx)
  }

  /** The suffix behind all rows. */
  method WriteSuffix(sql: Sql, rows: seq<Row>, buf: array<char>, sz: nat, indx: nat) returns (buf': array<char>)
    requires sz == buf.Length && Fitting(sql, rows, |rows|, buf[..], indx)
    modifies buf
    ensures Holds(buf'[..], Statement(sql, rows))
  {
    var sz';
    assert rows[..|rows|] == rows && buf[..indx] == buf[..][..indx];
    sz', buf' := IncreaseBuffer(300, sz, indx, buf, sql.prefix + Joined(rows));
    Write(buf', indx, sql.suffix, sql.prefix + Joined(rows));
  }

  lemma FittingStart(sql: Sql, rows: seq<Row>, buf: seq<char>)
    requires BuildFits(sql, rows) && |buf| == FirstSize(|rows|) && Holds(buf, sql.prefix)
    ensures Fitting(sql, rows, 0, buf, |sql.prefix|)
  {
    assert rows[..0] == [] && sql.prefix + "" == sql.prefix;
  }

  // ---- What the statement says ----

  predicate AllQuoteFree(user: string, accounts: seq<Account>) {
    forall i :: 0 <= i < |accounts| ==> QuoteFree(user, accounts[i])
  }

  lemma QuotedFolds(x: string, rest: string)
    ensures Quoted(x) + rest == "'" + (x + ("', " + rest))
  {
  }

  lemma FieldIsRead(x: string, rest: string, n: nat)
    requires '\'' !in x && ReadFields(rest, n).Read?
    ensures ReadFields(Quoted(x) + rest, n + 1)
         == Read([x] + ReadFields(rest, n).value, ReadFields(rest, n).rest)
  {
    QuotedFolds(x, rest);
    FieldReadsBack(x, rest);
  }

  /** Quoted values one behind another, and the text behind them. */
  function Values(xs: seq<string>, rest: string): string {
    if xs == [] then rest else Quoted(xs[0]) + Values(xs[1..], rest)
  }

  lemma ValuesFront(x: string, xs: seq<string>, rest: string)
    ensures Values([x] + xs, rest) == Quoted(x) + Values(xs, rest)
  {
    assert ([x] + xs)[1..] == xs;
  }

  lemma FrontIsRead(x: string, xs: seq<string>, rest: string)
    requires '\'' !in x && ReadFields(Values(xs, rest), |xs|) == Read(xs, rest)
    ensures ReadFields(Values([x] + xs, rest), |xs| + 1) == Read([x] + xs, rest)
  {
    ValuesFront(x, xs, rest);
    FieldIsRead(x, Values(xs, rest), |xs|);
  }

  lemma {:induction false} ValuesAreRead(xs: seq<string>, rest: string)
    requires forall i :: 0 <= i < |xs| ==> '\'' !in xs[i]
    ensures ReadFields(Values(xs, rest), |xs|) == Read(xs, rest)
  {
    if xs != [] {
      ValuesAreRead(xs[1..], rest);
      FrontIsRead(xs[0], xs[1..], rest);
      assert [xs[0]] + xs[1..] == xs;
    }
  }

  lemma Regroup(x: string, y: string, z: string)
    ensures x + y + z == x + (y + z)
  {
  }

  lemma SixValues(a: string, b: string, c: string, d: string, e: string, f: string, rest: string)
    ensures Values([a, b, c, d, e, f], rest)
         == Quoted(a) + (Quoted(b) + (Quoted(c) + (Quoted(d) + (Quoted(e) + (Quoted(f) + rest)))))
  {
    assert [a, b, c, d, e, f] == [a] + [b, c, d, e, f];
    assert [b, c, d, e, f] == [b] + [c, d, e, f];
    assert [c, d, e, f] == [c] + [d, e, f];
    assert [d, e, f] == [d] + [e, f];
    assert [e, f] == [e] + [f];
    assert [f] == [f] + [];
    ValuesFront(f, [], rest);
    ValuesFront(e, [f], rest);
    ValuesFront(d, [e, f], rest);
    ValuesFront(c, [d, e, f], rest);
    ValuesFront(b, [c, d, e, f], rest);
    ValuesFront(a, [b, c, d, e, f], rest);
  }

  /** A bracket, six values and an end, grouped from the front, are what they are grouped from the back. */
  lemma RegroupSix(bracket: string, a: string, b: string, c: string, d: string, e: string, f: string, end: string)
    ensures bracket + a + b + c + d + e + f + end == bracket + (a + (b + (c + (d + (e + (f + end))))))
  {
    Regroup(bracket + a + b + c + d + e, f, end);
    Regroup(bracket + a + b + c + d, e, f + end);
    Regroup(bracket + a + b + c, d, e + (f + end));
    Regroup(bracket + a + b, c, d + (e + (f + end)));
    Regroup(bracket + a, b, c + (d + (e + (f + end))));
    Regroup(bracket, a, b + (c + (d + (e + (f + end)))));
  }

  /** The same for the end of a row. */
  lemma RegroupEnd(front: string, time: string, comma: string, deleted: string, bracket: string, rest: string)
    ensures front + time + comma + deleted + bracket + rest
         == front + (time + (comma + (deleted + (bracket + rest))))
  {
    Regroup(front + time + comma + deleted, bracket, rest);
    Regroup(front + time + comma, deleted, bracket + rest);
    Regroup(front + time, comma, deleted + (bracket + rest));
    Regroup(front, time, comma + (deleted + (bracket + rest)));
  }

  /** Column by column, in the order of the table. */
  function Columns(user: string, a: Account): seq<string> {
    [a.accountName, user, a.userName, a.password, a.oldPassword, a.url]
  }

  lemma RowTextFolds(user: string, a: Account, rest: string)
    ensures RowText(user, a) + rest
         == "(" + Values(Columns(user, a), IntText(a.updateTime) + (", " + (BoolText(a.deleted) + (")" + rest))))
  {
    var end := IntText(a.updateTime) + (", " + (BoolText(a.deleted) + (")" + rest)));
    var front := "(" + Quoted(a.accountName) + Quoted(user) + Quoted(a.userName) + Quoted(a.password)
                 + Quoted(a.oldPassword) + Quoted(a.url);
    RegroupEnd(front, IntText(a.updateTime), ", ", BoolText(a.deleted), ")", rest);
    RegroupSix("(", Quoted(a.accountName), Quoted(user), Quoted(a.userName), Quoted(a.password),
               Quoted(a.oldPassword), Quoted(a.url), end);
    SixValues(a.accountName, user, a.userName, a.password, a.oldPassword, a.url, end);
  }

  lemma RowReadsBack(user: string, a: Account, rest: string)
    requires QuoteFree(user, a)
    ensures ReadRow(RowText(user, a) + rest) == Read(TableRow(user, a), rest)
  {
    var end := IntText(a.updateTime) + (", " + (BoolText(a.deleted) + (")" + rest)));
    RowTextFolds(user, a, rest);
    ValuesAreRead(Columns(user, a), end);
    EndReadsBack(a.updateTime, a.deleted, rest);
    Dropped("(", Values(Columns(user, a), end));
  }

  lemma {:induction false} JoinedFront(rows: seq<Row>)
    requires |rows| > 1
    ensures Joined(rows) == rows[0].text + ", " + Joined(rows[1..])
  {
    var n := |rows| - 1;
    if n > 1 {
      JoinedFront(rows[..n]);
      assert rows[..n][1..] == rows[1..][..n - 1];
      assert rows[1..][n - 1] == rows[n];
    } else {
      assert Joined(rows[..1]) == rows[0].text && Joined(rows[1..]) == rows[1].text;
    }
  }

  /** What the statement is to say: every account as a row of the user, in the order given. */
  function Meant(user: string, accounts: seq<Account>): seq<TableRow> {
    seq(|accounts|, i requires 0 <= i < |accounts| => TableRow(user, accounts[i]))
  }

  lemma FirstRowReadsBack(user: string, a: Account, more: string, rest: string, rows: seq<TableRow>)
    requires QuoteFree(user, a) && ReadRows(more) == Read(rows, rest)
    ensures ReadRows(RowText(user, a) + (", " + more)) == Read([TableRow(user, a)] + rows, rest)
  {
    RowReadsBack(user, a, ", " + more);
    Dropped(", ", more);
  }

  lemma OnlyRowReadsBack(user: string, a: Account, rest: string)
    requires QuoteFree(user, a) && Drop(rest, ", ").None?
    ensures ReadRows(RowText(user, a) + rest) == Read([TableRow(user, a)], rest)
  {
    RowReadsBack(user, a, rest);
  }

  lemma MeantFront(user: string, accounts: seq<Account>)
    requires accounts != []
    ensures Meant(user, accounts) == [TableRow(user, accounts[0])] + Meant(user, accounts[1..])
  {
  }

  lemma {:induction false} RowsReadBack(user: string, accounts: seq<Account>, rest: string)
    requires accounts != [] && AllQuoteFree(user, accounts) && Drop(rest, ", ").None?
    ensures ReadRows(Joined(Rows(user, accounts)) + rest) == Read(Meant(user, accounts), rest)
  {
    if |accounts| == 1 {
      OnlyRowReadsBack(user, accounts[0], rest);
      assert Meant(user, accounts) == [TableRow(user, accounts[0])];
      assert Joined(Rows(user, accounts)) == RowText(user, accounts[0]);
    } else {
      RowsReadBack(user, accounts[1..], rest);
      var more := Joined(Rows(user, accounts[1..])) + rest;
      FirstRowReadsBack(user, accounts[0], more, rest, Meant(user, accounts[1..]));
      FrontOfRows(user, accounts, rest);
      MeantFront(user, accounts);
    }
  }

  lemma FrontOfRows(user: string, accounts: seq<Account>, rest: string)
    requires |accounts| > 1
    ensures Joined(Rows(user, accounts)) + rest
         == RowText(user, accounts[0]) + (", " + (Joined(Rows(user, accounts[1..])) + rest))
  {
    var rows := Rows(user, accounts);
    assert rows[1..] == Rows(user, accounts[1..]);
    JoinedFront(rows);
    var row, more := RowText(user, accounts[0]), Joined(rows[1..]);
    Regroup(row + ", ", more, rest);
    Regroup(row, ", ", more + rest);
  }

  lemma BehindThePrefix(prefix: string, rows: string, suffix: string)
    ensures prefix <= prefix + rows + suffix && (prefix + rows + suffix)[|prefix|..] == rows + suffix
  {
  }

  /** Some rows, no quote in any value, and fixed text behind the rows that does not go on with another one. */
  predicate Readable(sql: Sql, user: string, accounts: seq<Account>) {
    accounts != [] && AllQuoteFree(user, accounts) && Drop(sql.suffix, ", ").None?
  }

  /**
   * The statement says what was to be stored: behind its fixed text, its rows read back as the user and all of
   * the accounts, every value in its own column, in the order given, and then the fixed text behind them. That
   * is so if and only if no value holds a quote.
   */
  lemma StatementReadsBack(sql: Sql, user: string, accounts: seq<Account>)
    requires accounts != [] && Drop(sql.suffix, ", ").None?
    ensures var text := Statement(sql, Rows(user, accounts));
            && sql.prefix <= text
            && (ReadRows(text[|sql.prefix|..]) == Read(Meant(user, accounts), sql.suffix)
                <==> AllQuoteFree(user, accounts))
  {
    var text := Joined(Rows(user, accounts)) + sql.suffix;
    BehindThePrefix(sql.prefix, Joined(Rows(user, accounts)), sql.suffix);
    if AllQuoteFree(user, accounts) {
      RowsReadBack(user, accounts, sql.suffix);
    } else if ReadRows(text) == Read(Meant(user, accounts), sql.suffix) {
      ReadRowsQuoteFree(text);
      forall i | 0 <= i < |accounts| ensures QuoteFree(user, accounts[i]) {
        assert Meant(user, accounts)[i] == TableRow(user, accounts[i]);
      }
    }
  }

  /** The text of a buffer, up to its terminator. */
  ghost predicate Says(buf: seq<char>, sql: Sql, rows: seq<TableRow>) {
    exists text :: Holds(buf, text) && sql.prefix <= text && ReadRows(text[|sql.prefix|..]) == Read(rows, sql.suffix)
  }

  lemma StatementSays(buf: seq<char>, sql: Sql, user: string, accounts: seq<Account>)
    requires Holds(buf, Statement(sql, Rows(user, accounts)))
    ensures Readable(sql, user, accounts) ==> Says(buf, sql, Meant(user, accounts))
  {
    if Readable(sql, user, accounts) {
      StatementReadsBack(sql, user, accounts);
    }
  }

  /**
   * The builder: when all writes fit, the buffer ends as exactly the statement, and for values without a quote
   * it says, as its reader understands it, that these accounts are to be stored for this user.
   */
  method BuildStatement(sql: Sql, user: string, accounts: seq<Account>) returns (buf: array<char>)
    requires BuildFits(sql, Rows(user, accounts))
    ensures Holds(buf[..], Statement(sql, Rows(user, accounts)))
    ensures Readable(sql, user, accounts) ==> Says(buf[..], sql, Meant(user, accounts))
  {
    var rows := Rows(user, accounts);
    var sz: nat := 500 + 100 * |accounts|;
    buf := new char[sz];
    Write(buf, 0, sql.prefix, "");
    assert "" + sql.prefix == sql.prefix;
    var indx: nat := |sql.prefix|;
    FittingStart(sql, rows, buf[..]);
    for i := 0 to |rows|
      invariant sz == buf.Length && fresh(buf) && Fitting(sql, rows, i, buf[..], indx)
    {
      buf, sz, indx := WriteRow(sql, rows, i, buf, sz, indx);
    }
    buf := WriteSuffix(sql, rows, buf, sz, indx);
    StatementSays(buf[..], sql, user, accounts);
  }

  // ---- How long the user may be ----

  lemma RowLength(user: string, a: Account)
    requires IsInt64(a.updateTime)
    ensures |RowText(user, a)| == Needed(a) - 70 + |user| + 28 + |IntText(a.updateTime)| + (if a.deleted then 4 else 5)
    ensures Needed(a) - 70 + |user| + 33 <= |RowText(user, a)| <= Needed(a) - 17 + |user|
  {
    Int64Length(a.updateTime);
  }

  /** From row `i` on, every size computed for the buffer is a 32-bit number, while the text stays inside. */
  ghost predicate NoWrap(rows: seq<Row>, i: nat, sz: nat, indx: nat)
    requires i <= |rows|
    decreases |rows| - i
  {
    var at := if i == 0 || i == |rows| then indx else indx + 2;
    var needed := if i == |rows| then 300 else rows[i].needed;
    at <= sz ==>
      && Grown(needed, sz, at) < U32
      && (i < |rows| ==> NoWrap(rows, i + 1, Grown(needed, sz, at), at + |rows[i].text|))
  }

  /** Times are 64-bit, and no buffer size wraps. */
  ghost predicate Reasonable(sql: Sql, user: string, accounts: seq<Account>) {
    && (forall i :: 0 <= i < |accounts| ==> IsInt64(accounts[i].updateTime))
    && FirstSize(|accounts|) < U32 && NoWrap(Rows(user, accounts), 0, FirstSize(|accounts|), |sql.prefix|)
  }

  /** The estimate of every row leaves three bytes behind it. */
  ghost predicate WellEstimated(rows: seq<Row>) {
    forall i :: 0 <= i < |rows| ==> |rows[i].text| <= rows[i].needed + 17
  }

  lemma ShortUserWellEstimated(user: string, accounts: seq<Account>)
    requires |user| <= 34 && forall i :: 0 <= i < |accounts| ==> IsInt64(accounts[i].updateTime)
    ensures WellEstimated(Rows(user, accounts))
  {
    forall i | 0 <= i < |accounts|
      ensures |RowText(user, accounts[i])| <= Needed(accounts[i]) + 17
    {
      RowLength(user, accounts[i]);
    }
  }

  /** A grown buffer has the estimated room and 20 characters more behind the text. */
  lemma GrownLeavesRoom(needed: nat, sz: nat, indx: nat)
    requires indx <= sz && sz >= 500
    ensures Grown(needed, sz, indx) >= 500 && Grown(needed, sz, indx) - indx >= needed + 20
  {
  }

  lemma {:induction false} WellEstimatedFits(sql: Sql, rows: seq<Row>, i: nat, sz: nat, indx: nat)
    requires Sized(sql) && WellEstimated(rows) && i <= |rows| && indx + 3 <= sz && 500 <= sz
    requires NoWrap(rows, i, sz, indx)
    ensures Fits(sql, rows, i, sz, indx)
    decreases |rows| - i
  {
    if i == |rows| {
      GrownLeavesRoom(300, sz, indx);
    } else {
      var at := if i == 0 then indx else indx + 2;
      GrownLeavesRoom(rows[i].needed, sz, at);
      WellEstimatedFits(sql, rows, i + 1, Grown(rows[i].needed, sz, at), at + |rows[i].text|);
    }
  }

  /** A row that leaves exactly the estimated room, with the longest time. */
  function TightAccount(sql: Sql): Account
    requires Sized(sql)
  {
    Account(seq(610 - |sql.prefix|, _ => 'x'), "", "", "", "", INT64_MIN, false)
  }

  /** Two such rows overrun: the first row itself or the separator behind it. */
  lemma TightRowsDoNotFit(sql: Sql, rows: seq<Row>)
    requires Sized(sql) && |rows| == 2 && rows[0].needed == 680 - |sql.prefix| && |rows[0].text| >= rows[0].needed + 18
    ensures !BuildFits(sql, rows)
  {
    var end := |sql.prefix| + |rows[0].text|;
    if end < 700 {
      assert !Fits(sql, rows, 1, 700, end);
    }
  }

  lemma TightRowsDoNotWrap(sql: Sql, rows: seq<Row>)
    requires Sized(sql) && |rows| == 2 && rows[0].needed == rows[1].needed == 680 - |sql.prefix|
    ensures NoWrap(rows, 0, FirstSize(2), |sql.prefix|)
  {
    var end := |sql.prefix| + |rows[0].text|;
    var more := Grown(rows[1].needed, 700, if end + 2 <= 700 then end + 2 else 700);
    assert NoWrap(rows, 2, more, end + 2 + |rows[1].text|);
    assert NoWrap(rows, 1, 700, end);
  }

  lemma LongUserDoesNotFit(sql: Sql, user: string)
    requires Sized(sql) && |user| > 34
    ensures exists accounts :: Reasonable(sql, user, accounts) && !BuildFits(sql, Rows(user, accounts))
  {
    var a := TightAccount(sql);
    var accounts := [a, a];
    var rows := Rows(user, accounts);
    Int64Length(INT64_MIN);
    RowLength(user, a);
    assert accounts[0] == a && accounts[1] == a;
    assert |rows[0].text| == |rows[1].text| == rows[0].needed + |user| - 17;
    TightRowsDoNotFit(sql, rows);
    TightRowsDoNotWrap(sql, rows);
    assert Reasonable(sql, user, accounts);
  }

  lemma ShortUserFits(sql: Sql, user: string, accounts: seq<Account>)
    requires Sized(sql) && |user| <= 34 && Reasonable(sql, user, accounts)
    ensures BuildFits(sql, Rows(user, accounts))
  {
    ShortUserWellEstimated(user, accounts);
    WellEstimatedFits(sql, Rows(user, accounts), 0, FirstSize(|accounts|), |sql.prefix|);
  }

  /**
   * The exact limit on the user's length: the builder stays inside its buffer for all account lists if and
   * only if the user has at most 34 characters. Beyond, the estimate of a row no longer leaves room for the
   * separator behind it.
   */
  lemma UserLimit(sql: Sql, user: string)
    requires Sized(sql)
    ensures (forall accounts :: Reasonable(sql, user, accounts) ==> BuildFits(sql, Rows(user, accounts)))
            <==> |user| <= 34
  {
    if |user| <= 34 {
      forall accounts | Reasonable(sql, user, accounts) ensures BuildFits(sql, Rows(user, accounts)) {
        ShortUserFits(sql, user, accounts);
      }
    } else {
      LongUserDoesNotFit(sql, user);
    }
  }

  const ON_CONFLICT := "on conflict " + "(account_name, account_uuid) DO UPDATE "
  const SET_NEWER :=
    "SET user_name = EXCLUDED.user_name, password = EXCLUDED.password, old_password = "
    + "EXCLUDED.old_password, url = EXCLUDED.url, update_time = EXCLUDED.update_time, "
    + "deleted = EXCLUDED.deleted WHERE EXCLUDED.update_time > a.update_time"
  const UPSERT := Sql("INSERT INTO Accounts as a VALUES ", ON_CONFLICT + SET_NEWER)

  /** So it is for the statement the store sends: its fixed text does not go on with another row. */
  lemma UpsertReadsBack(user: string, accounts: seq<Account>)
    requires accounts != []
    ensures var text := Statement(UPSERT, Rows(user, accounts));
            && |UPSERT.prefix| <= |text|
            && (ReadRows(text[|UPSERT.prefix|..]) == Read(Meant(user, accounts), UPSERT.suffix)
                <==> AllQuoteFree(user, accounts))
  {
    assert UPSERT.suffix[0] == ON_CONFLICT[0] == 'o';
    StatementReadsBack(UPSERT, user, accounts);
  }

  /** The limit for the statement the store sends. */
  lemma UpsertUserLimit(user: string)
    ensures (forall accounts :: Reasonable(UPSERT, user, accounts) ==> BuildFits(UPSERT, Rows(user, accounts)))
            <==> |user| <= 34
  {
    assert Sized(UPSERT);
    UserLimit(UPSERT, user);
  }
}
