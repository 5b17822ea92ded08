/** Reads the rows of a VALUES list, as the server of the statement does: the meaning of the text sent to it. */
module SqlReader {
  import opened Accounts
  import opened Decimal
  import opened Wrappers

  /** One row of the accounts table: whose record it is, and the record. */
  datatype TableRow = TableRow(user: string, account: Account)

  /** What was read, and the text behind it. */
  datatype Read<T> = Read(value: T, rest: string) | Unreadable

  function Drop(s: string, expected: string): Option<string> {
    if expected <= s then Some(s[|expected|..]) else None
  }

  /** The first place of a character, or the end. */
  function Find(s: string, c: char): (k: nat)
    ensures k <= |s|
  {
    if s == "" || s[0] == c then 0 else 1 + Find(s[1..], c)
  }

  /** A value in quotes, up to the next quote, and the comma behind it. */
  function ReadField(s: string): Read<string> {
    match Drop(s, "'")
    case None => Unreadable
    case Some(from) =>
      var k := Find(from, '\'');
      (match Drop(from[k..], "', ")
       case None => Unreadable
       case Some(rest) => Read(from[..k], rest))
  }

  function ReadFields(s: string, n: nat): Read<seq<string>> {
    if n == 0 then Read([], s)
    else
      match ReadField(s)
      case Unreadable => Unreadable
      case Read(field, rest) =>
        match ReadFields(rest, n - 1)
        case Unreadable => Unreadable
        case Read(fields, end) => Read([field] + fields, end)
  }

  /** A decimal number, up to the comma behind it. */
  function ReadNumber(s: string): Read<int> {
    var k := Find(s, ',');
    match Drop(s[k..], ", ")
    case None => Unreadable
    case Some(rest) => Read(ParseInt(s[..k]), rest)
  }

  function ReadBool(s: string): Read<bool> {
    match Drop(s, "true")
    case Some(rest) => Read(true, rest)
    case None =>
      match Drop(s, "false")
      case Some(rest) => Read(false, rest)
      case None => Unreadable
  }

  /** The time and the mark of deletion, and the closing bracket. */
  function ReadEnd(s: string): Read<(int, bool)> {
    match ReadNumber(s)
    case Unreadable => Unreadable
    case Read(time, more) =>
      match ReadBool(more)
      case Unreadable => Unreadable
      case Read(deleted, bracket) =>
        match Drop(bracket, ")")
        case None => Unreadable
        case Some(rest) => Read((time, deleted), rest)
  }

  /** The columns: name, owner, user name, password, old password, address, time of the update, deleted. */
  function RowOfColumns(fields: seq<string>, time: int, deleted: bool): TableRow
    requires |fields| == 6
  {
    TableRow(fields[1], Account(fields[0], fields[2], fields[3], fields[4], fields[5], time, deleted))
  }

  function ReadRow(s: string): Read<TableRow> {
    match Drop(s, "(")
    case None => Unreadable
    case Some(inside) =>
      match ReadFields(inside, 6)
      case Unreadable => Unreadable
      case Read(fields, more) =>
        match ReadEnd(more)
        case Unreadable => Unreadable
        case Read(end, rest) =>
          FieldCount(inside, 6);
          Read(RowOfColumns(fields, end.0, end.1), rest)
  }

  lemma {:induction false} FieldCount(s: string, n: nat)
    ensures ReadFields(s, n).Read? ==> |ReadFields(s, n).value| == n && |ReadFields(s, n).rest| <= |s|
  {
    if n > 0 && ReadField(s).Read? {
      FieldCount(ReadField(s).rest, n - 1);
    }
  }

  lemma RowIsRead(s: string)
    ensures ReadRow(s).Read? ==> |ReadRow(s).rest| < |s|
  {
    if ReadRow(s).Read? {
      FieldCount(s[1..], 6);
    }
  }

  /** Rows with commas between them; the list ends where no comma follows. */
  function ReadRows(s: string): Read<seq<TableRow>>
    decreases |s|
  {
    match ReadRow(s)
    case Unreadable => Unreadable
    case Read(row, rest) =>
      RowIsRead(s);
      match Drop(rest, ", ")
      case None => Read([row], rest)
      case Some(more) =>
        match ReadRows(more)
        case Unreadable => Unreadable
        case Read(rows, end) => Read([row] + rows, end)
  }

  // ---- What is read holds no quote ----

  /** No value holds a quote. */
  predicate QuoteFree(user: string, a: Account) {
    && '\'' !in user && '\'' !in a.accountName && '\'' !in a.userName && '\'' !in a.password
    && '\'' !in a.oldPassword && '\'' !in a.url
  }

  lemma {:induction false} FindsTheFirst(s: string, c: char)
    ensures c !in s[..Find(s, c)]
  {
    if s != "" && s[0] != c {
      FindsTheFirst(s[1..], c);
      assert s[..Find(s, c)] == [s[0]] + s[1..][..Find(s[1..], c)];
    }
  }

  lemma FieldQuoteFree(s: string)
    ensures ReadField(s).Read? ==> '\'' !in ReadField(s).value
  {
    if Drop(s, "'").Some? {
      FindsTheFirst(Drop(s, "'").value, '\'');
    }
  }

  lemma {:induction false} FieldsQuoteFree(s: string, n: nat)
    ensures ReadFields(s, n).Read? ==> forall x :: x in ReadFields(s, n).value ==> '\'' !in x
  {
    FieldQuoteFree(s);
    if n > 0 && ReadField(s).Read? {
      FieldsQuoteFree(ReadField(s).rest, n - 1);
    }
  }

  lemma ReadRowQuoteFree(s: string)
    ensures ReadRow(s).Read? ==> QuoteFree(ReadRow(s).value.user, ReadRow(s).value.account)
  {
    if ReadRow(s).Read? {
      FieldCount(s[1..], 6);
      FieldsQuoteFree(s[1..], 6);
    }
  }

  lemma {:induction false} ReadRowsQuoteFree(s: string)
    ensures ReadRows(s).Read? ==>
              forall i :: 0 <= i < |ReadRows(s).value| ==>
                QuoteFree(ReadRows(s).value[i].user, ReadRows(s).value[i].account)
    decreases |s|
  {
    if ReadRows(s).Read? {
      ReadRowQuoteFree(s);
      RowIsRead(s);
      if Drop(ReadRow(s).rest, ", ").Some? {
        ReadRowsQuoteFree(Drop(ReadRow(s).rest, ", ").value);
      }
    }
  }

  // ---- Reading what was written ----

  lemma {:induction false} FindsBehind(x: string, c: char, rest: string)
    requires c !in x && rest != "" && rest[0] == c
    ensures Find(x + rest, c) == |x|
  {
    if x == "" {
      assert x + rest == rest;
    } else {
      assert (x + rest)[1..] == x[1..] + rest;
      FindsBehind(x[1..], c, rest);
    }
  }

  lemma Dropped(expected: string, rest: string)
    ensures Drop(expected + rest, expected) == Some(rest)
  {
  }

  lemma FieldReadsBack(x: string, rest: string)
    requires '\'' !in x
    ensures ReadField("'" + (x + ("', " + rest))) == Read(x, rest)
  {
    var from := x + ("', " + rest);
    Dropped("'", from);
    FindsBehind(x, '\'', "', " + rest);
    assert from[|x|..] == "', " + rest && from[..|x|] == x;
    Dropped("', ", rest);
  }

  lemma {:induction false} DigitsHaveNoComma(n: nat)
    ensures ',' !in Digits(n)
  {
    DigitsRoundTrip(n);
  }

  lemma NumberReadsBack(n: int, rest: string)
    ensures ReadNumber(IntText(n) + (", " + rest)) == Read(n, rest)
  {
    var s := IntText(n) + (", " + rest);
    DigitsHaveNoComma(if n < 0 then -n else n);
    FindsBehind(IntText(n), ',', ", " + rest);
    assert s[|IntText(n)|..] == ", " + rest && s[..|IntText(n)|] == IntText(n);
    Dropped(", ", rest);
    IntRoundTrip(n);
  }

  function BoolText(b: bool): string {
    if b then "true" else "false"
  }

  lemma BoolReadsBack(b: bool, rest: string)
    ensures ReadBool(BoolText(b) + rest) == Read(b, rest)
  {
    Dropped(BoolText(b), rest);
    if !b {
      assert !("true" <= "false" + rest) by {
        assert ("false" + rest)[0] == 'f' && "true"[0] == 't';
      }
    }
  }

  lemma EndReadsBack(time: int, deleted: bool, rest: string)
    ensures ReadEnd(IntText(time) + (", " + (BoolText(deleted) + (")" + rest)))) == Read((time, deleted), rest)
  {
    NumberReadsBack(time, BoolText(deleted) + (")" + rest));
    BoolReadsBack(deleted, ")" + rest);
    Dropped(")", rest);
  }
}
