/** Packing of result rows into a chain of heap chunks that never move. */
module HeapList {

  const NUL: char := '\0'
  const CHUNK := 1024
  const SLACK := 20
  const ROW_ESTIMATE := 256
  const U32 := 0x1_0000_0000

  class Node {
    var heap: array?<char>
    var next: Node?

    /** The list head a handler declares: no memory yet. */
    constructor Empty()
      ensures heap == null && next == null
    {
      heap, next := null, null;
    }

    constructor Sized(sz: nat)
      ensures heap != null && fresh(heap) && heap.Length == sz && next == null
    {
      heap, next := new char[sz], null;
    }
  }

  /** The pointers of one row: all its fields lie in one chunk. */
  datatype RowPointers = RowPointers(mem: array<char>, offsets: seq<nat>)

  predicate IsCString(s: string) {
    NUL !in s
  }

  /** The string a pointer to `off` denotes: the characters before the next NUL. */
  function CString(mem: seq<char>, off: nat): string
    decreases |mem| - off
  {
    if off >= |mem| || mem[off] == NUL then "" else [mem[off]] + CString(mem, off + 1)
  }

  ghost predicate Holds(mem: seq<char>, off: nat, s: string) {
    off + |s| < |mem| && mem[off..off + |s|] == s && mem[off + |s|] == NUL
  }

  lemma {:induction false} HeldStringReadsBack(mem: seq<char>, off: nat, s: string)
    requires Holds(mem, off, s) && IsCString(s)
    ensures CString(mem, off) == s
    decreases |s|
  {
    if s != "" {
      assert mem[off] == mem[off..off + |s|][0] == s[0];
      assert mem[off + 1..off + 1 + |s[1..]|] == mem[off..off + |s|][1..] == s[1..];
      HeldStringReadsBack(mem, off + 1, s[1..]);
      assert s == [s[0]] + s[1..];
    }
  }

  /** Every field of the row is held, with its terminator, below `limit`. */
  ghost predicate RowHeld(mem: seq<char>, offsets: seq<nat>, row: seq<string>, limit: nat) {
    && |offsets| == |row|
    && forall j :: 0 <= j < |row| ==> Holds(mem, offsets[j], row[j]) && offsets[j] + |row[j]| < limit
  }

  lemma HeldKept(mem: seq<char>, more: seq<char>, off: nat, s: string, limit: nat)
    requires Holds(mem, off, s) && off + |s| < limit <= |mem| <= |more| && more[..limit] == mem[..limit]
    ensures Holds(more, off, s)
  {
    assert mem[off..off + |s|] == mem[..limit][off..off + |s|];
    assert more[off..off + |s|] == more[..limit][off..off + |s|];
    assert mem[off + |s|] == mem[..limit][off + |s|] == more[..limit][off + |s|];
  }

  lemma RowHeldKept(mem: seq<char>, more: seq<char>, offsets: seq<nat>, row: seq<string>, limit: nat, limit': nat)
    requires RowHeld(mem, offsets, row, limit) && limit <= limit'
    requires limit <= |mem| <= |more| && more[..limit] == mem[..limit]
    ensures RowHeld(more, offsets, row, limit')
  {
    forall j | 0 <= j < |row| ensures Holds(more, offsets[j], row[j]) {
      HeldKept(mem, more, offsets[j], row[j], limit);
    }
  }

  function Total(row: seq<string>): nat {
    if row == [] then 0 else Total(row[..|row| - 1]) + |row[|row| - 1]|
  }

  lemma {:induction false} TotalPrefix(row: seq<string>, j: nat)
    requires j <= |row|
    ensures Total(row[..j]) <= Total(row)
    decreases |row|
  {
    if j < |row| {
      TotalPrefix(row[..|row| - 1], j);
      assert row[..|row| - 1][..j] == row[..j];
    } else {
      assert row[..j] == row;
    }
  }

  /**
   * Every write of the packing loop stays in its chunk. A row that does not fit in the current chunk with
   * 20 bytes to spare opens one of 1024 bytes, and nothing tests that the row fits there.
   */
  ghost predicate Fits(rows: seq<seq<string>>, sz: nat, indx: nat)
    decreases |rows|
  {
    rows == [] ||
    var needed, bytes := Total(rows[0]), Total(rows[0]) + |rows[0]|;
    && needed + SLACK < U32
    && (if needed + SLACK > sz - indx
        then bytes <= CHUNK && Fits(rows[1..], CHUNK, bytes)
        else indx + bytes <= sz && Fits(rows[1..], sz, indx + bytes))
  }

  method StrCpy(mem: array<char>, off: nat, s: string)
    requires off + |s| < mem.Length
    modifies mem
    ensures Holds(mem[..], off, s)
    ensures mem[..off] == old(mem[..off])
  {
    for i := 0 to |s|
      invariant forall k :: 0 <= k < i ==> mem[off + k] == s[k]
      invariant mem[..off] == old(mem[..off])
    {
      mem[off + i] := s[i];
    }
    mem[off + |s|] := NUL;
    assert mem[..][off..off + |s|] == s;
  }

  /** Opens a new chunk behind `node` when fewer than `needed` + 20 bytes are left. */
  method IncreaseListBuffer(needed: nat, sz: nat, indx: nat, node: Node) returns (sz': nat, indx': nat, node': Node)
    requires indx <= sz && needed + SLACK < U32 && node.heap != null
    modifies node`next
    ensures needed + 20 <= sz - indx ==> node' == node && sz' == sz && indx' == indx && node.next == old(node.next)
    ensures needed + 20 > sz - indx ==>
              && fresh(node') && node.next == node' && node'.next == null && sz' == 1024 && indx' == 0
              && node'.heap != null && fresh(node'.heap) && node'.heap.Length == 1024
  {
    if needed + SLACK > sz - indx {
      var newHeap := new Node.Sized(CHUNK);
      node.next := newHeap;
      return CHUNK, 0, newHeap;
    } else {
      return sz, indx, node;
    }
  }

  lemma RowHeldAppend(mem: seq<char>, offsets: seq<nat>, row: seq<string>, off: nat, s: string, limit: nat)
    requires RowHeld(mem, offsets, row, limit) && Holds(mem, off, s) && off + |s| < limit
    ensures RowHeld(mem, offsets + [off], row + [s], limit)
  {
  }

  lemma TotalAppend(row: seq<string>, j: nat)
    requires j < |row|
    ensures Total(row[..j + 1]) == Total(row[..j]) + |row[j]| && Total(row[..j + 1]) <= Total(row)
  {
    assert row[..j + 1][..j] == row[..j];
    TotalPrefix(row, j + 1);
  }

  /** Copies one field behind the fields already written. */
  method AppendField(mem: array<char>, start: nat, indx: nat, s: string, ghost offsets: seq<nat>,
                     ghost row: seq<string>)
    requires start <= indx && indx + |s| < mem.Length && RowHeld(mem[..], offsets, row, indx)
    modifies mem
    ensures RowHeld(mem[..], offsets + [indx], row + [s], indx + |s| + 1)
    ensures mem[..start] == old(mem[..start])
  {
    ghost var before := mem[..];
    StrCpy(mem, indx, s);
    ghost var after := mem[..];
    assert after[..indx] == before[..indx];
    assert mem[..start] == after[..indx][..start] && before[..start] == before[..indx][..start];
    RowHeldKept(before, after, offsets, row, indx, indx + |s| + 1);
    RowHeldAppend(after, offsets, row, indx, s, indx + |s| + 1);
  }

  /** Writes one row's strings behind each other; `offsets` are where they start. */
  method PackRow(mem: array<char>, start: nat, row: seq<string>) returns (indx: nat, offsets: seq<nat>)
    requires start + Total(row) + |row| <= mem.Length
    modifies mem
    ensures indx == start + Total(row) + |row|
    ensures RowHeld(mem[..], offsets, row, indx)
    ensures mem[..start] == old(mem[..start])
  {
    indx, offsets := start, [];
    for j := 0 to |row|
      invariant indx == start + Total(row[..j]) + j
      invariant RowHeld(mem[..], offsets, row[..j], indx)
      invariant mem[..start] == old(mem[..start])
    {
      TotalAppend(row, j);
      assert row[..j + 1] == row[..j] + [row[j]];
      AppendField(mem, start, indx, row[j], offsets, row[..j]);
      offsets := offsets + [indx];
      indx := indx + |row[j]| + 1;
    }
    assert row[..|row|] == row;
  }

  /** The chunks from the head on, linked in order, each with memory of its own. */
  ghost predicate Chain(head: Node, nodes: seq<Node>, mems: seq<array<char>>)
    reads nodes
  {
    && |nodes| == |mems| > 0 && nodes[0] == head
    && (forall c :: 0 <= c < |nodes| ==> nodes[c].heap == mems[c])
    && (forall c :: 0 <= c < |nodes| - 1 ==> nodes[c].next == nodes[c + 1])
    && nodes[|nodes| - 1].next == null
    && (forall c, d :: 0 <= c < d < |nodes| ==> nodes[c] != nodes[d] && mems[c] != mems[d])
  }

  /** Row `r`'s pointers read back row `r`, from a chunk of the chain. */
  ghost predicate RowsHeld(mems: seq<array<char>>, pointers: seq<RowPointers>, rows: seq<seq<string>>, indx: nat)
    requires mems != []
    reads mems
  {
    && |pointers| == |rows|
    && forall r :: 0 <= r < |rows| ==>
         && pointers[r].mem in mems
         && RowHeld(pointers[r].mem[..], pointers[r].offsets, rows[r],
                    if pointers[r].mem == mems[|mems| - 1] then indx else pointers[r].mem.Length)
  }

  /** A row packed into the last chunk joins the rows already held. */
  method PackNext(ghost mems: seq<array<char>>, mem: array<char>, indx: nat, row: seq<string>,
                  pointers: seq<RowPointers>, ghost rows: seq<seq<string>>)
    returns (indx': nat, pointers': seq<RowPointers>)
    requires mems != [] && mems[|mems| - 1] == mem && RowsHeld(mems, pointers, rows, indx)
    requires indx + Total(row) + |row| <= mem.Length
    modifies mem
    ensures indx' == indx + Total(row) + |row|
    ensures RowsHeld(mems, pointers', rows + [row], indx')
  {
    ghost var before := mem[..];
    var offsets: seq<nat>;
    indx', offsets := PackRow(mem, indx, row);
    ghost var after := mem[..];
    assert after[..indx] == before[..indx];
    forall r | 0 <= r < |rows| && pointers[r].mem == mem
      ensures RowHeld(mem[..], pointers[r].offsets, rows[r], indx')
    {
      RowHeldKept(before, after, pointers[r].offsets, rows[r], indx, indx');
    }
    pointers' := pointers + [RowPointers(mem, offsets)];
  }

  /** A fresh chunk closes the one before it: its rows stay held. */
  lemma RowsHeldOpen(mems: seq<array<char>>, mem: array<char>, pointers: seq<RowPointers>, rows: seq<seq<string>>,
                     indx: nat)
    requires mems != [] && mem !in mems && RowsHeld(mems, pointers, rows, indx) && indx <= mems[|mems| - 1].Length
    ensures RowsHeld(mems + [mem], pointers, rows, 0)
  {
  }

  /** `IncreaseListBuffer` seen from the whole chain: all rows held so far stay held. */
  method Reserve(needed: nat, sz: nat, indx: nat, node: Node, ghost head: Node, ghost nodes: seq<Node>,
                 ghost mems: seq<array<char>>, ghost pointers: seq<RowPointers>, ghost rows: seq<seq<string>>)
    returns (node': Node, sz': nat, indx': nat, ghost nodes': seq<Node>, ghost mems': seq<array<char>>)
    requires Chain(head, nodes, mems) && node == nodes[|nodes| - 1] && mems[|mems| - 1].Length == sz
    requires indx <= sz && needed + SLACK < U32 && RowsHeld(mems, pointers, rows, indx)
    modifies node`next
    ensures Chain(head, nodes', mems') && node' == nodes'[|nodes'| - 1] && mems'[|mems'| - 1].Length == sz'
    ensures RowsHeld(mems', pointers, rows, indx')
    ensures needed + SLACK <= sz - indx ==> sz' == sz && indx' == indx && nodes' == nodes && mems' == mems
    ensures needed + SLACK > sz - indx ==>
              && sz' == CHUNK && indx' == 0 && fresh(node') && node'.heap != null && fresh(node'.heap)
              && nodes' == nodes + [node'] && mems' == mems + [node'.heap]
  {
    sz', indx', node' := IncreaseListBuffer(needed, sz, indx, node);
    nodes', mems' := nodes, mems;
    if needed + SLACK > sz - indx {
      RowsHeldOpen(mems, node'.heap, pointers, rows, indx);
      nodes', mems' := nodes + [node'], mems + [node'.heap];
    }
  }

  lemma FitsStep(rows: seq<seq<string>>, i: nat, sz: nat, indx: nat)
    requires i < |rows| && Fits(rows[i..], sz, indx) && indx <= sz
    ensures var needed, bytes := Total(rows[i]), Total(rows[i]) + |rows[i]|;
            && needed + SLACK < U32
            && (needed + SLACK > sz - indx ==> bytes <= CHUNK && Fits(rows[i + 1..], CHUNK, bytes))
            && (needed + SLACK <= sz - indx ==> indx + bytes <= sz && Fits(rows[i + 1..], sz, indx + bytes))
    ensures rows[..i + 1] == rows[..i] + [rows[i]]
  {
    assert rows[i..][0] == rows[i] && rows[i..][1..] == rows[i + 1..];
  }

  lemma FieldsReadBack(mems: seq<array<char>>, pointers: seq<RowPointers>, rows: seq<seq<string>>, indx: nat)
    requires mems != [] && RowsHeld(mems, pointers, rows, indx)
    ensures forall r :: 0 <= r < |rows| ==> |pointers[r].offsets| == |rows[r]|
    ensures forall r, j :: 0 <= r < |rows| && 0 <= j < |rows[r]| && IsCString(rows[r][j]) ==>
              CString(pointers[r].mem[..], pointers[r].offsets[j]) == rows[r][j]
  {
    forall r, j | 0 <= r < |rows| && 0 <= j < |rows[r]| && IsCString(rows[r][j])
      ensures CString(pointers[r].mem[..], pointers[r].offsets[j]) == rows[r][j]
    {
      HeldStringReadsBack(pointers[r].mem[..], pointers[r].offsets[j], rows[r][j]);
    }
  }

  /** Number of bytes allocated for the first chunk. */
  function FirstSize(rows: nat): nat {
    rows * ROW_ESTIMATE % U32
  }

  /** State of the packing loop after `rows`: `node` is the chunk being filled, up to `indx`. */
  ghost predicate Packing(head: Node, nodes: seq<Node>, mems: seq<array<char>>, node: Node, sz: nat, indx: nat,
                          pointers: seq<RowPointers>, rows: seq<seq<string>>)
    reads nodes, mems
  {
    && Chain(head, nodes, mems) && node == nodes[|nodes| - 1] && mems[|mems| - 1].Length == sz && indx <= sz
    && RowsHeld(mems, pointers, rows, indx)
  }

  /** One round of the loop: make room, then copy the fields of row `i`. */
  method PackOne(ghost head: Node, ghost nodes: seq<Node>, ghost mems: seq<array<char>>, node: Node, sz: nat, indx: nat,
                 pointers: seq<RowPointers>, rows: seq<seq<string>>, i: nat)
    returns (ghost nodes': seq<Node>, ghost mems': seq<array<char>>, node': Node, sz': nat, indx': nat,
             pointers': seq<RowPointers>)
    requires i < |rows| && Packing(head, nodes, mems, node, sz, indx, pointers, rows[..i])
    requires Fits(rows[i..], sz, indx)
    modifies node`next, mems[|mems| - 1]
    ensures Packing(head, nodes', mems', node', sz', indx', pointers', rows[..i + 1])
    ensures Fits(rows[i + 1..], sz', indx')
    ensures node' == node || fresh(node')
    ensures mems'[|mems'| - 1] == mems[|mems| - 1] || fresh(mems'[|mems'| - 1])
  {
    FitsStep(rows, i, sz, indx);
    node', sz', indx', nodes', mems' := Reserve(Total(rows[i]), sz, indx, node, head, nodes, mems, pointers, rows[..i]);
    indx', pointers' := PackNext(mems', node'.heap, indx', rows[i], pointers, rows[..i]);
  }

  /** One attempt of `get_accounts_for_user`: the rows' strings are copied out of the result into the chain. */
  method PackRows(head: Node, rows: seq<seq<string>>)
    returns (pointers: seq<RowPointers>, ghost nodes: seq<Node>, ghost mems: seq<array<char>>)
    requires head.next == null
    requires Fits(rows, FirstSize(|rows|), 0)
    modifies head
    ensures Chain(head, nodes, mems)
    ensures |pointers| == |rows|
    ensures forall r :: 0 <= r < |rows| ==> pointers[r].mem in mems && |pointers[r].offsets| == |rows[r]|
    ensures forall r, j :: 0 <= r < |rows| && 0 <= j < |rows[r]| && IsCString(rows[r][j]) ==>
              CString(pointers[r].mem[..], pointers[r].offsets[j]) == rows[r][j]
  {
    var indx: nat, sz: nat := 0, FirstSize(|rows|);
    var heap := new char[sz];
    head.heap := heap;
    var curHeap := head;
    nodes, mems := [head], [heap];
    pointers := [];
    for i := 0 to |rows|
      invariant Packing(head, nodes, mems, curHeap, sz, indx, pointers, rows[..i])
      invariant curHeap == head || fresh(curHeap)
      invariant fresh(mems[|mems| - 1])
      invariant Fits(rows[i..], sz, indx)
    {
      nodes, mems, curHeap, sz, indx, pointers := PackOne(head, nodes, mems, curHeap, sz, indx, pointers, rows, i);
    }
    assert rows[..|rows|] == rows;
    FieldsReadBack(mems, pointers, rows, indx);
  }

  // ---- How long rows may be ----

  ghost predicate RowsOf(rows: seq<seq<string>>, fields: nat, limit: nat) {
    forall r :: 0 <= r < |rows| ==> |rows[r]| == fields && Total(rows[r]) <= limit
  }

  lemma {:induction false} ShortRowsFit(rows: seq<seq<string>>, fields: nat, sz: nat, indx: nat)
    requires fields <= SLACK && RowsOf(rows, fields, CHUNK - fields) && indx <= sz
    ensures Fits(rows, sz, indx)
    decreases |rows|
  {
    if rows != [] {
      var needed := Total(rows[0]);
      forall r | 0 <= r < |rows[1..]| ensures |rows[1..][r]| == fields && Total(rows[1..][r]) <= CHUNK - fields {
        assert rows[1..][r] == rows[r + 1];
      }
      if needed + SLACK > sz - indx {
        ShortRowsFit(rows[1..], fields, CHUNK, needed + fields);
      } else {
        ShortRowsFit(rows[1..], fields, sz, indx + needed + fields);
      }
    }
  }

  function LongRow(fields: nat, total: nat): (row: seq<string>)
    requires fields > 0
    ensures |row| == fields && Total(row) == total
    decreases fields
  {
    if fields == 1 then
      var only := [seq(total, _ => 'x')];
      assert only[..0] == [];
      only
    else
      var rest := LongRow(fields - 1, total);
      assert (rest + [""])[..fields - 1] == rest;
      rest + [""]
  }

  /**
   * The exact limit on a row: packing is safe for all results whose rows total at most `limit` characters
   * if and only if such a row and its terminators fill one chunk at most. With the six fields of Postgres
   * that is 1018, with the five of Redis 1019.
   */
  lemma RowLimit(fields: nat, limit: nat)
    requires 0 < fields <= SLACK
    ensures (forall rows :: RowsOf(rows, fields, limit) ==> Fits(rows, FirstSize(|rows|), 0))
            <==> limit + fields <= CHUNK
  {
    if limit + fields <= CHUNK {
      forall rows | RowsOf(rows, fields, limit) ensures Fits(rows, FirstSize(|rows|), 0) {
        ShortRowsFit(rows, fields, FirstSize(|rows|), 0);
      }
    } else {
      var rows := [LongRow(fields, CHUNK - fields + 1)];
      assert RowsOf(rows, fields, limit);
      assert !Fits(rows, FirstSize(|rows|), 0);
    }
  }
}
