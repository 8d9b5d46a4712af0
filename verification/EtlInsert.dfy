/**
 Writing a chunk of rows in batched statements (crates/orbit-etl/src/engine.rs, `insert_chunk`).

 A statement is an atomic row operation of the database that may fail. A cell's text is its
 value as the database compares it in a UNIQUE column.
 */
module EtlInsert {
  import opened Wrappers
  import opened Arithmetic

  datatype Cell = Null | Value(text: string)

  type Row = seq<Cell>

  /** The destination: its width, which columns are UNIQUE, and its rows in insertion order. */
  datatype Table = Table(width: nat, unique: set<nat>, rows: seq<Row>)

  datatype InsertError = Conflict | TooManyBinds | Fault

  /** Bound values per statement that the engine aims to stay under. */
  const BIND_LIMIT: nat := 900

  // ------------------------------------------------ reference: one row at a time

  predicate SameKey(column: nat, a: Row, b: Row) {
    && column < |a| && column < |b|
    && a[column] == b[column] && a[column] != Null
  }

  /** Some UNIQUE column already holds the row's value; NULL never conflicts. */
  predicate Conflicts(t: Table, row: Row) {
    exists c, i :: c in t.unique && 0 <= i < |t.rows| && SameKey(c, t.rows[i], row)
  }

  function Append(t: Table, row: Row): Table {
    t.(rows := t.rows + [row])
  }

  /** Rows one at a time: a conflicting row is skipped, or is an error when conflicts are not ignored. */
  function InsertRows(t: Table, rows: seq<Row>, ignore: bool): Result<Table, InsertError>
    decreases |rows|
  {
    if rows == [] then Success(t)
    else if !Conflicts(t, rows[0]) then InsertRows(Append(t, rows[0]), rows[1..], ignore)
    else if ignore then InsertRows(t, rows[1..], ignore)
    else Failure(Conflict)
  }

  /** Rows inserted so far stay in front; the number inserted is the growth of the table. */
  lemma {:induction false} InsertOnlyAppends(t: Table, rows: seq<Row>, ignore: bool)
    requires InsertRows(t, rows, ignore).Success?
    ensures var t' := InsertRows(t, rows, ignore).value;
            |t.rows| <= |t'.rows| <= |t.rows| + |rows| && t'.rows[..|t.rows|] == t.rows && t' == t.(rows := t'.rows)
    decreases |rows|
  {
    if rows != [] {
      if !Conflicts(t, rows[0]) {
        InsertOnlyAppends(Append(t, rows[0]), rows[1..], ignore);
        var t' := InsertRows(t, rows, ignore).value;
        assert t.rows == t'.rows[..|t.rows| + 1][..|t.rows|];
      } else {
        InsertOnlyAppends(t, rows[1..], ignore);
      }
    }
  }

  /** Inserting in two parts is inserting the whole. */
  lemma {:induction false} InsertConcat(t: Table, a: seq<Row>, b: seq<Row>, ignore: bool)
    ensures InsertRows(t, a + b, ignore)
            == match InsertRows(t, a, ignore) case Failure(e) => Failure(e) case Success(t') => InsertRows(t', b, ignore)
    decreases |a|
  {
    if a == [] {
      assert a + b == b;
    } else {
      assert (a + b)[1..] == a[1..] + b;
      if !Conflicts(t, a[0]) {
        InsertConcat(Append(t, a[0]), a[1..], b, ignore);
      } else {
        InsertConcat(t, a[1..], b, ignore);
      }
    }
  }

  // ------------------------------------------------------- what dedupe keeps

  /** Some row has the text in the column. */
  predicate HoldsText(rows: seq<Row>, column: nat, text: string) {
    exists i :: 0 <= i < |rows| && column < |rows[i]| && rows[i][column] == Value(text)
  }

  predicate HasKey(rows: seq<Row>, column: nat, row: Row) {
    column < |row| && row[column].Value? && HoldsText(rows, column, row[column].text)
  }

  /** Position by position: row `i` is kept iff its key is NULL or new to the table and to the rows before it. */
  predicate IsFirst(held: seq<Row>, rows: seq<Row>, column: nat, i: nat)
    requires i < |rows|
  {
    !HasKey(held, column, rows[i]) && !HasKey(rows[..i], column, rows[i])
  }

  /** The rows of the given sequence at the positions that hold a first occurrence, in order. */
  function Firsts(held: seq<Row>, rows: seq<Row>, column: nat, n: nat): seq<Row>
    requires n <= |rows|
  {
    if n == 0 then []
    else Firsts(held, rows, column, n - 1) + (if IsFirst(held, rows, column, n - 1) then [rows[n - 1]] else [])
  }

  /** A key held after `n` rows was held before, or is among those rows. */
  lemma {:induction false} HeldOrEarlier(held: seq<Row>, rows: seq<Row>, column: nat, n: nat, row: Row)
    requires n <= |rows|
    ensures HasKey(held + Firsts(held, rows, column, n), column, row) <==> HasKey(held, column, row) || HasKey(rows[..n], column, row)
  {
    if n == 0 {
      assert held + [] == held;
    } else {
      HeldOrEarlier(held, rows, column, n - 1, row);
      var last := rows[n - 1];
      var before := held + Firsts(held, rows, column, n - 1);
      KeyOfConcat(rows[..n - 1], [last], column, row);
      assert rows[..n] == rows[..n - 1] + [last];
      if IsFirst(held, rows, column, n - 1) {
        assert held + Firsts(held, rows, column, n) == before + [last];
        KeyOfConcat(before, [last], column, row);
      } else {
        assert held + Firsts(held, rows, column, n) == before;
        KeyIsTransitive(held, rows[..n - 1], last, column, row);
      }
    }
  }

  lemma KeyOfConcat(a: seq<Row>, b: seq<Row>, column: nat, row: Row)
    ensures HasKey(a + b, column, row) <==> HasKey(a, column, row) || HasKey(b, column, row)
  {
    if column < |row| && row[column].Value? {
      if i :| 0 <= i < |a| && column < |a[i]| && a[i][column] == row[column] {
        assert (a + b)[i] == a[i];
      }
      if i :| 0 <= i < |b| && column < |b[i]| && b[i][column] == row[column] {
        assert (a + b)[|a| + i] == b[i];
      }
    }
  }

  /** If `last` repeats a key of `a` or `b`, its own key brings nothing new. */
  lemma KeyIsTransitive(a: seq<Row>, b: seq<Row>, last: Row, column: nat, row: Row)
    requires HasKey(a, column, last) || HasKey(b, column, last)
    ensures HasKey([last], column, row) ==> HasKey(a, column, row) || HasKey(b, column, row)
  {
  }

  /** Deduplicating row by row keeps exactly the first occurrences, decided on the input alone. */
  lemma {:induction false} KeptRowsAreFirsts(t: Table, rows: seq<Row>, column: nat, n: nat)
    requires t.unique == {column} && n <= |rows|
    ensures InsertRows(t, rows[..n], true) == Success(t.(rows := t.rows + Firsts(t.rows, rows, column, n)))
  {
    if n == 0 {
      assert t.rows + [] == t.rows;
    } else {
      KeptRowsAreFirsts(t, rows, column, n - 1);
      assert rows[..n] == rows[..n - 1] + [rows[n - 1]];
      InsertConcat(t, rows[..n - 1], [rows[n - 1]], true);
      var mid := t.(rows := t.rows + Firsts(t.rows, rows, column, n - 1));
      HeldOrEarlier(t.rows, rows, column, n - 1, rows[n - 1]);
      ConflictsOnTexts(mid, rows[n - 1]);
      assert Conflicts(mid, rows[n - 1]) <==> HasKey(mid.rows, column, rows[n - 1]);
      assert InsertRows(mid, [rows[n - 1]], true) == if Conflicts(mid, rows[n - 1]) then Success(mid) else Success(Append(mid, rows[n - 1]));
      assert mid.rows + [rows[n - 1]] == t.rows + (Firsts(t.rows, rows, column, n - 1) + [rows[n - 1]]);
      assert mid.rows == t.rows + (Firsts(t.rows, rows, column, n - 1) + []);
    }
  }

  // ------------------------------------------------- the same on the cells' texts

  /** The row has in some UNIQUE column a text that one of the rows has there. */
  ghost predicate RepeatsText(unique: set<nat>, rows: seq<Row>, row: Row) {
    exists c, text :: c in unique && c < |row| && row[c] == Value(text) && HoldsText(rows, c, text)
  }

  predicate NullWhereUnique(unique: set<nat>, row: Row) {
    forall c :: c in unique && c < |row| ==> row[c] == Null
  }

  lemma ConflictsOnTexts(t: Table, row: Row)
    ensures Conflicts(t, row) <==> RepeatsText(t.unique, t.rows, row)
  {
    if c, i :| c in t.unique && 0 <= i < |t.rows| && SameKey(c, t.rows[i], row) {
      assert row[c] == Value(row[c].text) && HoldsText(t.rows, c, row[c].text);
    }
    if c, text :| c in t.unique && c < |row| && row[c] == Value(text) && HoldsText(t.rows, c, text) {
      var i :| 0 <= i < |t.rows| && c < |t.rows[i]| && t.rows[i][c] == Value(text);
      assert SameKey(c, t.rows[i], row);
    }
  }

  /** Rows that are NULL in every UNIQUE column are all inserted, whether or not conflicts are ignored. */
  lemma {:induction false} NullRowsAllInsert(t: Table, rows: seq<Row>, ignore: bool)
    requires forall i :: 0 <= i < |rows| ==> NullWhereUnique(t.unique, rows[i])
    ensures InsertRows(t, rows, ignore) == Success(t.(rows := t.rows + rows))
    decreases |rows|
  {
    if rows == [] {
      assert t.rows + [] == t.rows;
    } else {
      ConflictsOnTexts(t, rows[0]);
      NullRowsAllInsert(Append(t, rows[0]), rows[1..], ignore);
      assert t.rows + [rows[0]] + rows[1..] == t.rows + rows;
    }
  }

  /** A strict insert fails exactly when some new row repeats a text of the table or of a row before it. */
  lemma {:induction false} StrictFailsIff(t: Table, rows: seq<Row>)
    ensures InsertRows(t, rows, false).Failure? <==>
              exists n :: 0 <= n < |rows| && RepeatsText(t.unique, t.rows + rows[..n], rows[n])
    decreases |rows|
  {
    hide RepeatsText, Conflicts;
    if rows != [] {
      ConflictsOnTexts(t, rows[0]);
      assert t.rows + rows[..0] == t.rows;
      if !Conflicts(t, rows[0]) {
        StrictFailsIff(Append(t, rows[0]), rows[1..]);
        forall n | 0 <= n < |rows[1..]|
          ensures Append(t, rows[0]).rows + rows[1..][..n] == t.rows + rows[..n + 1] && rows[1..][n] == rows[n + 1]
        {
        }
        ShiftedRepeats(t, rows);
      }
    }
  }

  lemma ShiftedRepeats(t: Table, rows: seq<Row>)
    requires rows != [] && !RepeatsText(t.unique, t.rows, rows[0])
    ensures (exists n :: 0 <= n < |rows[1..]| && RepeatsText(t.unique, Append(t, rows[0]).rows + rows[1..][..n], rows[1..][n]))
            <==> (exists n :: 0 <= n < |rows| && RepeatsText(t.unique, t.rows + rows[..n], rows[n]))
  {
    hide RepeatsText;
    forall n | 0 <= n < |rows[1..]|
      ensures RepeatsText(t.unique, Append(t, rows[0]).rows + rows[1..][..n], rows[1..][n])
              <==> RepeatsText(t.unique, t.rows + rows[..n + 1], rows[n + 1])
    {
      assert Append(t, rows[0]).rows + rows[1..][..n] == t.rows + rows[..n + 1];
    }
    assert t.rows + rows[..0] == t.rows;
    if n :| 0 <= n < |rows| && RepeatsText(t.unique, t.rows + rows[..n], rows[n]) {
      assert n > 0;
      assert 0 <= n - 1 < |rows[1..]|;
      assert RepeatsText(t.unique, Append(t, rows[0]).rows + rows[1..][..n - 1], rows[1..][n - 1]);
    }
    if n :| 0 <= n < |rows[1..]| && RepeatsText(t.unique, Append(t, rows[0]).rows + rows[1..][..n], rows[1..][n]) {
      assert RepeatsText(t.unique, t.rows + rows[..n + 1], rows[n + 1]);
    }
  }

  /** No two rows share a text in a UNIQUE column. */
  predicate TextsDiffer(t: Table) {
    forall c, i, j :: c in t.unique && 0 <= i < j < |t.rows| && c < |t.rows[i]| && c < |t.rows[j]| && t.rows[i][c].Value? ==>
      t.rows[i][c] != t.rows[j][c]
  }

  lemma {:induction false} InsertKeepsTextsDifferent(t: Table, rows: seq<Row>, ignore: bool)
    requires TextsDiffer(t) && InsertRows(t, rows, ignore).Success?
    ensures TextsDiffer(InsertRows(t, rows, ignore).value)
    decreases |rows|
  {
    hide TextsDiffer;
    if rows != [] {
      if !Conflicts(t, rows[0]) {
        AppendKeepsTextsDifferent(t, rows[0]);
        InsertKeepsTextsDifferent(Append(t, rows[0]), rows[1..], ignore);
      } else {
        InsertKeepsTextsDifferent(t, rows[1..], ignore);
      }
    }
  }

  lemma AppendKeepsTextsDifferent(t: Table, row: Row)
    requires TextsDiffer(t) && !Conflicts(t, row)
    ensures TextsDiffer(Append(t, row))
  {
    ConflictsOnTexts(t, row);
    hide Conflicts;
    forall c, i | c in t.unique && 0 <= i < |t.rows| && c < |t.rows[i]| && c < |row| && t.rows[i][c].Value?
      ensures t.rows[i][c] != row[c]
    {
      assert HoldsText(t.rows, c, t.rows[i][c].text);
    }
  }

  /** Without the conflict clause the insert succeeds exactly when nothing would be skipped. */
  lemma {:induction false} StrictSucceedsIffNothingSkipped(t: Table, rows: seq<Row>)
    ensures InsertRows(t, rows, true).Success?
    ensures InsertRows(t, rows, false).Success? <==> |InsertRows(t, rows, true).value.rows| == |t.rows| + |rows|
    ensures InsertRows(t, rows, false).Success? ==> InsertRows(t, rows, false).value == InsertRows(t, rows, true).value == t.(rows := t.rows + rows)
    decreases |rows|
  {
    if rows == [] {
      assert t.rows + [] == t.rows;
    } else if !Conflicts(t, rows[0]) {
      StrictSucceedsIffNothingSkipped(Append(t, rows[0]), rows[1..]);
      assert t.rows + [rows[0]] + rows[1..] == t.rows + rows;
    } else {
      StrictSucceedsIffNothingSkipped(t, rows[1..]);
      InsertOnlyAppends(t, rows[1..], true);
    }
  }

  // ------------------------------------------------------------ the statements

  /** The destination table in the database, and the number of values bound by each statement so far. */
  class Destination {
    var table: Table
    /** Values that the database accepts in one statement. */
    const maxBinds: nat
    ghost var binds: seq<nat>

    constructor (table: Table, maxBinds: nat)
      ensures this.table == table && this.maxBinds == maxBinds && binds == []
    {
      this.table := table;
      this.maxBinds := maxBinds;
      binds := [];
    }

    /** One INSERT with many rows: all of them, or an error and no change. */
    method Execute(rows: seq<Row>, ignore: bool, fault: bool) returns (r: Result<nat, InsertError>)
      modifies this
      ensures binds == old(binds) + [|rows| * old(table).width]
      ensures r.Success? <==> !fault && |rows| * old(table).width <= maxBinds && InsertRows(old(table), rows, ignore).Success?
      ensures r.Success? ==> Success(table) == InsertRows(old(table), rows, ignore) && r.value == |table.rows| - |old(table).rows|
      ensures r.Failure? ==> table == old(table)
    {
      binds := binds + [|rows| * table.width];
      if fault {
        return Failure(Fault);
      }
      if |rows| * table.width > maxBinds {
        return Failure(TooManyBinds);
      }
      var was := table;
      for k := 0 to |rows|
        invariant InsertRows(was, rows, ignore) == InsertRows(table, rows[k..], ignore)
        invariant |was.rows| <= |table.rows| && binds == old(binds) + [|rows| * was.width]
      {
        assert rows[k..][1..] == rows[k + 1..];
        if !Conflicts(table, rows[k]) {
          table := Append(table, rows[k]);
        } else if !ignore {
          assert InsertRows(table, rows[k..], ignore) == Failure(Conflict);
          table := was;
          return Failure(Conflict);
        }
      }
      return Success(|table.rows| - |was.rows|);
    }

    /**
     Writes a chunk in one transaction, in statements of as many rows as the bind limit
     allows. The result is that of inserting the rows one at a time, whatever the number
     of columns; on failure nothing of the chunk remains. `faults` says which statements
     fail, and whether the commit does.
     */
    method InsertChunk(chunk: seq<Row>, ignore: bool, faults: nat -> bool, commitFault: bool) returns (r: Result<nat, InsertError>)
      requires chunk != [] ==> table.width > 0
      modifies this
      ensures table.width == old(table).width
      ensures r.Success? ==> Success(table) == InsertRows(old(table), chunk, ignore) && r.value == |table.rows| - |old(table).rows|
      ensures r.Failure? ==> table == old(table)
      ensures r.Failure? && (forall k :: !faults(k)) && !commitFault && BIND_LIMIT <= maxBinds && table.width <= maxBinds ==>
                InsertRows(old(table), chunk, ignore).Failure?
      ensures chunk != [] && maxBinds < table.width ==> r.Failure?
      ensures BindsGrow(old(binds), binds, table.width, chunk != [])
    {
      if |chunk| == 0 {
        BindsStart(binds, table.width);
        return Success(0);
      }
      var nCols := table.width;
      var rowsPerBatch := Max(BIND_LIMIT / Max(nCols, 1), 1);
      RowsPerBatchFit(nCols);
      hide InsertRows, BindsGrow;
      var was := table;
      var total := 0;
      var rowIdx := 0;
      var statements := 0;
      BindsStart(binds, nCols);
      while rowIdx < |chunk|
        invariant 0 <= rowIdx <= |chunk| && table.width == nCols
        invariant InsertRows(was, chunk[..rowIdx], ignore) == Success(table)
        invariant total == |table.rows| - |was.rows|
        invariant rowIdx > 0 ==> nCols <= maxBinds
        invariant BindsGrow(old(binds), binds, nCols, rowIdx > 0)
      {
        var batchEnd := Min(rowIdx + rowsPerBatch, |chunk|);
        var rows := chunk[rowIdx..batchEnd];
        NextBatch(was, table, chunk, rowIdx, batchEnd, ignore);
        BindsWithin(|rows|, rowsPerBatch, nCols);
        BindsAppend(old(binds), binds, nCols, rowIdx > 0, |rows| * nCols);
        var n := Execute(rows, ignore, faults(statements));
        if n.Failure? {
          table := was;
          return Failure(n.error);
        }
        total := total + n.value;
        rowIdx := batchEnd;
        statements := statements + 1;
      }
      assert chunk[..rowIdx] == chunk;
      if commitFault {
        table := was;
        return Failure(Fault);
      }
      return Success(total);
    }
  }

  /** Every statement added binds at least one row's values and at most the limit, or one row's if wider. */
  ghost predicate BindsGrow(before: seq<nat>, after: seq<nat>, nCols: nat, some: bool) {
    && before <= after && (some ==> |before| < |after|)
    && forall k :: |before| <= k < |after| ==> nCols <= after[k] <= Max(BIND_LIMIT, nCols)
  }

  lemma BindsStart(binds: seq<nat>, nCols: nat)
    ensures BindsGrow(binds, binds, nCols, false)
  {
  }

  lemma BindsAppend(before: seq<nat>, after: seq<nat>, nCols: nat, some: bool, n: nat)
    requires BindsGrow(before, after, nCols, some) && nCols <= n <= Max(BIND_LIMIT, nCols)
    ensures BindsGrow(before, after + [n], nCols, true)
  {
  }

  /** One more batch extends the rows inserted; if it fails, so do the rows one at a time. */
  lemma NextBatch(was: Table, table: Table, chunk: seq<Row>, lo: nat, hi: nat, ignore: bool)
    requires lo < hi <= |chunk| && InsertRows(was, chunk[..lo], ignore) == Success(table)
    ensures InsertRows(was, chunk[..hi], ignore) == InsertRows(table, chunk[lo..hi], ignore)
    ensures InsertRows(table, chunk[lo..hi], ignore).Failure? ==> InsertRows(was, chunk, ignore).Failure?
    ensures InsertRows(table, chunk[lo..hi], ignore).Success? ==> InsertRows(table, chunk[lo..hi], ignore).value.width == table.width
  {
    hide InsertRows;
    assert chunk[..hi] == chunk[..lo] + chunk[lo..hi];
    InsertConcat(was, chunk[..lo], chunk[lo..hi], ignore);
    assert chunk == chunk[..hi] + chunk[hi..];
    InsertConcat(was, chunk[..hi], chunk[hi..], ignore);
    if InsertRows(table, chunk[lo..hi], ignore).Success? {
      InsertOnlyAppends(table, chunk[lo..hi], ignore);
    }
  }

  /** A full batch stays within the limit when one row does; otherwise it is one row. */
  lemma RowsPerBatchFit(nCols: nat)
    requires nCols > 0
    ensures var n := Max(BIND_LIMIT / nCols, 1);
            && n * nCols <= Max(900, nCols)
            && (nCols <= 900 ==> n * nCols <= 900 < (n + 1) * nCols)
  {
    QuotientBounds(BIND_LIMIT, nCols);
    var q := BIND_LIMIT / nCols;
    assert (q + 1) * nCols == q * nCols + nCols;
    assert q == 0 ==> q * nCols == 0;
  }

  lemma BindsWithin(rows: nat, perBatch: nat, nCols: nat)
    requires 1 <= rows <= perBatch && perBatch * nCols <= Max(BIND_LIMIT, nCols)
    ensures nCols <= rows * nCols <= Max(BIND_LIMIT, nCols)
  {
    ProductMonotone(1, rows, nCols);
    ProductMonotone(rows, perBatch, nCols);
  }
}
