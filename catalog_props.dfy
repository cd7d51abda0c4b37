/**
 * What the catalog operations promise, stated over the specification
 * functions of `Catalog`: where `importDocument` puts the catalog rows, how
 * `addColumn` and `changeColumnName` move them, and which views a successful
 * `updateDocument` leaves behind.
 */
module CatalogProperties {
  import opened Wrappers
  import opened Views
  import opened Catalog

  // ---------------------------------------------------------------------------
  // Reading one table's catalog rows

  lemma {:induction false} RowsOfAppend(a: seq<ColumnRow>, b: seq<ColumnRow>, t: string)
    ensures RowsOf(a + b, t) == RowsOf(a, t) + RowsOf(b, t)
    decreases |b|
  {
    if b == [] {
      assert a + b == a;
    } else {
      var init := b[..|b| - 1];
      var last := b[|b| - 1];
      assert (a + b)[..|a + b| - 1] == a + init;
      RowsOfAppend(a, init, t);
    }
  }

  /** `getTableDesc` finds exactly the rows of `litespread_column` whose `table_name` is `t`. */
  lemma {:induction false} RowsOfMembers(rows: seq<ColumnRow>, t: string)
    ensures forall x :: x in RowsOf(rows, t) <==> x in rows && x.tableName == t
    decreases |rows|
  {
    if rows != [] {
      var init := rows[..|rows| - 1];
      RowsOfMembers(init, t);
      assert rows == init + [rows[|rows| - 1]];
    }
  }

  lemma {:induction false} RowsOfPragma(t: string, u: string, cols: seq<string>)
    ensures RowsOf(PragmaRows(u, cols), t) == if t == u then PragmaRows(u, cols) else []
    decreases |cols|
  {
    if cols != [] {
      var init := cols[..|cols| - 1];
      RowsOfPragma(t, u, init);
      var rows := PragmaRows(u, cols);
      assert rows[..|rows| - 1] == PragmaRows(u, init);
    }
  }

  lemma {:induction false} RowsOfImportedAbsent(registered: seq<TableRow>, schema: map<string, seq<string>>, t: string)
    requires forall i :: 0 <= i < |registered| ==> registered[i].tableName != t
    ensures RowsOf(ImportedRows(registered, schema), t) == []
    decreases |registered|
  {
    if registered != [] {
      var init := registered[..|registered| - 1];
      var last := registered[|registered| - 1];
      var own := PragmaRows(last.tableName, TableInfo(schema, last.tableName));
      assert ImportedRows(registered, schema) == ImportedRows(init, schema) + own;
      RowsOfImportedAbsent(init, schema, t);
      RowsOfAppend(ImportedRows(init, schema), own, t);
      RowsOfPragma(t, last.tableName, TableInfo(schema, last.tableName));
    }
  }

  /** A table registered once gets exactly the rows of its own `PRAGMA table_info`. */
  lemma {:induction false} RowsOfImportedOnce(registered: seq<TableRow>, schema: map<string, seq<string>>, t: string, k: nat)
    requires k < |registered| && registered[k].tableName == t
    requires forall i :: 0 <= i < |registered| && i != k ==> registered[i].tableName != t
    ensures RowsOf(ImportedRows(registered, schema), t) == PragmaRows(t, TableInfo(schema, t))
    decreases |registered|
  {
    var init := registered[..|registered| - 1];
    var last := registered[|registered| - 1];
    var own := PragmaRows(last.tableName, TableInfo(schema, last.tableName));
    assert ImportedRows(registered, schema) == ImportedRows(init, schema) + own;
    RowsOfAppend(ImportedRows(init, schema), own, t);
    RowsOfPragma(t, last.tableName, TableInfo(schema, last.tableName));
    if k == |registered| - 1 {
      RowsOfImportedAbsent(init, schema, t);
      assert RowsOf(own, t) == own;
      AppendEmpty(own);
    } else {
      RowsOfImportedOnce(init, schema, t, k);
      assert RowsOf(own, t) == [];
      AppendEmpty(PragmaRows(t, TableInfo(schema, t)));
    }
  }

  // ---------------------------------------------------------------------------
  // importDocument

  /** A plain SQLite database: no catalog table and no catalog row yet. */
  predicate Plain(s: DbState)
  {
    DocumentTable !in s.schema && TableTable !in s.schema && ColumnTable !in s.schema &&
    s.documentRows == [] && s.tableRows == [] && s.columnRows == []
  }

  lemma PreparedPlain(s: DbState)
    requires Plain(s)
    ensures Prepared(s).documentRows == [DocumentRow(ApiVersion, None, None, None)]
    ensures Prepared(s).tableRows == Register(s.master + [DocumentTable, TableTable])
    ensures Prepared(s).master == s.master + [DocumentTable, TableTable, ColumnTable]
  {
    var s1 := CreateTable(s, DocumentTable, DocumentColumns);
    var s2 := s1.(documentRows := s1.documentRows + [DocumentRow(ApiVersion, None, None, None)]);
    var s3 := CreateTable(s2, TableTable, TableColumns);
    assert s3.master == s.master + [DocumentTable, TableTable];
  }

  /**
   * On a plain database `importDocument` writes one document row with API
   * version 1 and registers every table, followed by `litespread_document` and
   * `litespread_table` themselves, but not `litespread_column`, which does not
   * exist yet when the tables are listed.
   */
  lemma ImportRegisters(s: DbState)
    requires ValidState(s) && Plain(s)
    ensures Import(s).documentRows == [DocumentRow(1, None, None, None)]
    ensures Import(s).tableRows == Register(s.master + [DocumentTable, TableTable])
    ensures forall i :: 0 <= i < |Import(s).tableRows| ==> Import(s).tableRows[i].tableName != ColumnTable
    ensures Import(s).master == s.master + [DocumentTable, TableTable, ColumnTable]
  {
    PreparedPlain(s);
    var names := s.master + [DocumentTable, TableTable];
    forall i | 0 <= i < |names|
      ensures names[i] != ColumnTable
    {
      if i < |s.master| {
        assert s.master[i] in s.schema;
      }
    }
  }

  /** Every table listed in `sqlite_master` when `importDocument` starts ends up registered. */
  lemma PreparedRegistersAll(s: DbState, n: string)
    requires n in s.master
    ensures TableRow(n, None) in Prepared(s).tableRows
  {
    var s1 := CreateTable(s, DocumentTable, DocumentColumns);
    var s2 := s1.(documentRows := s1.documentRows + [DocumentRow(ApiVersion, None, None, None)]);
    var s3 := CreateTable(s2, TableTable, TableColumns);
    var i :| 0 <= i < |s.master| && s.master[i] == n;
    CreateTableKeepsMaster(s, DocumentTable, DocumentColumns);
    CreateTableKeepsMaster(s2, TableTable, TableColumns);
    assert s3.master[i] == n;
    var registered := Register(s3.master);
    var s4 := s3.(tableRows := s3.tableRows + registered);
    CreateTableKeepsMaster(s4, ColumnTable, ColumnColumns);
    assert Prepared(s).tableRows == s4.tableRows;
    assert s4.tableRows[|s3.tableRows| + i] == registered[i];
  }

  /** CREATE TABLE only ever appends to `sqlite_master` and leaves the catalog rows alone. */
  lemma CreateTableKeepsMaster(s: DbState, name: string, cols: seq<string>)
    ensures var r := CreateTable(s, name, cols);
      |s.master| <= |r.master| && r.master[..|s.master|] == s.master && r.tableRows == s.tableRows
  {
  }

  lemma PlainNamesDistinct(s: DbState)
    requires ValidState(s) && Plain(s)
    ensures Distinct(s.master + [DocumentTable, TableTable])
  {
    var names := s.master + [DocumentTable, TableTable];
    forall i, j | 0 <= i < j < |names|
      ensures names[i] != names[j]
    {
      if j < |s.master| {
        assert names[i] == s.master[i] && names[j] == s.master[j];
      } else if i < |s.master| {
        assert names[i] in s.schema;
      }
    }
  }

  lemma ImportRowsOf(s: DbState, t: string)
    requires ValidState(s) && Plain(s) && t in s.schema
    ensures RowsOf(Import(s).columnRows, t) == PragmaRows(t, s.schema[t])
  {
    PreparedPlain(s);
    PlainNamesDistinct(s);
    var p := Prepared(s);
    var names := s.master + [DocumentTable, TableTable];
    var k :| 0 <= k < |s.master| && s.master[k] == t;
    assert names[k] == t;
    RowsOfImportedOnce(p.tableRows, p.schema, t, k);
    assert TableInfo(p.schema, t) == s.schema[t];
    var rows := ImportedRows(p.tableRows, p.schema);
    assert p.columnRows == [];
    AppendEmpty(rows);
    assert Import(s).columnRows == rows;
  }

  /**
   * After `importDocument` on a plain database, `getTableDesc` of a user
   * table lists its physical columns in order, the column at index `i` with
   * position `i`.
   */
  lemma ImportPositions(s: DbState, t: string)
    requires ValidState(s) && Plain(s) && t in s.schema
    ensures Describe(Import(s), t) == Ok(TableDesc(t, ToColumns(PragmaRows(t, s.schema[t])), None))
    ensures var cols := Describe(Import(s), t).value.columns;
      |cols| == |s.schema[t]| &&
      forall i :: 0 <= i < |cols| ==> cols[i].name == s.schema[t][i] && cols[i].position == Some(i)
  {
    ImportRowsOf(s, t);
    PreparedPlain(s);
    assert ColumnTable in Import(s).schema;
  }

  /** Every call of `importDocument` adds one document row with API version 1. */
  lemma ImportAddsDocumentRow(s: DbState)
    ensures Import(s).documentRows == s.documentRows + [DocumentRow(1, None, None, None)]
  {
    var s1 := CreateTable(s, DocumentTable, DocumentColumns);
    assert Prepared(s).documentRows == s1.documentRows + [DocumentRow(ApiVersion, None, None, None)];
  }

  /** After `importDocument` the three catalog tables exist. */
  lemma ImportCreatesCatalog(s: DbState)
    requires ValidState(s)
    ensures DocumentTable in Import(s).master && TableTable in Import(s).master && ColumnTable in Import(s).master
  {
    ImportValid(s);
    assert Import(s).schema == Prepared(s).schema;
  }

  /**
   * `importDocument` is not idempotent: every call adds a document row, and a
   * second call also registers `litespread_column`, which the first created.
   */
  lemma ImportTwice(s: DbState)
    requires ValidState(s)
    ensures |Import(Import(s)).documentRows| == |s.documentRows| + 2
    ensures TableRow(ColumnTable, None) in Import(Import(s)).tableRows
  {
    var once := Import(s);
    ImportAddsDocumentRow(s);
    ImportAddsDocumentRow(once);
    ImportCreatesCatalog(s);
    PreparedRegistersAll(once, ColumnTable);
    assert Import(once).tableRows == Prepared(once).tableRows;
  }

  // ---------------------------------------------------------------------------
  // addColumn

  /** The catalog rows of one table sit at positions 0, 1, 2, … in storage order. */
  predicate Contiguous(rows: seq<ColumnRow>)
  {
    forall i :: 0 <= i < |rows| ==> rows[i].position == Some(i)
  }

  /**
   * `max(position) + 1` over contiguous rows is the number of rows, and NULL
   * when the table has no catalog row at all.
   */
  lemma NextPositionContiguous(rows: seq<ColumnRow>, t: string)
    requires Contiguous(RowsOf(rows, t))
    ensures NextPosition(rows, t) == if RowsOf(rows, t) == [] then None else Some(|RowsOf(rows, t)|)
  {
    MaxPositionContiguous(rows, t);
  }

  lemma {:induction false} MaxPositionContiguous(rows: seq<ColumnRow>, t: string)
    requires Contiguous(RowsOf(rows, t))
    ensures MaxPosition(rows, t) == if RowsOf(rows, t) == [] then None else Some(|RowsOf(rows, t)| - 1)
    decreases |rows|
  {
    if rows != [] {
      var init, last := rows[..|rows| - 1], rows[|rows| - 1];
      var before := RowsOf(init, t);
      if last.tableName == t {
        assert RowsOf(rows, t) == before + [last];
        assert forall i :: 0 <= i < |before| ==> before[i] == RowsOf(rows, t)[i];
        assert last.position == Some(|before|);
      }
      MaxPositionContiguous(init, t);
    }
  }

  lemma RowsOfSnoc(rows: seq<ColumnRow>, row: ColumnRow, u: string)
    ensures RowsOf(rows + [row], u) == RowsOf(rows, u) + (if row.tableName == u then [row] else [])
  {
    assert (rows + [row])[..|rows|] == rows;
  }

  lemma ColumnAddedState(s: DbState, t: string, c: string)
    requires ValidState(s) && !IsCatalogTable(t) && ColumnAdded(s, t, c).error.None?
    ensures ColumnAdded(s, t, c).state.schema[t] == s.schema[t] + [c]
    ensures ColumnAdded(s, t, c).state.columnRows == s.columnRows + [ColumnRow(t, c, NextPosition(s.columnRows, t), None, None, None)]
  {
  }

  /**
   * `addColumn` appends one catalog row for the table: on a table whose rows
   * are contiguous it takes the next position (NULL when the table had no
   * catalog row) and the rows stay contiguous.
   */
  lemma AddColumnAppends(s: DbState, t: string, c: string)
    requires ValidState(s) && !IsCatalogTable(t) && ColumnAdded(s, t, c).error.None?
    requires Contiguous(RowsOf(s.columnRows, t))
    ensures var r := ColumnAdded(s, t, c).state;
      var own := RowsOf(s.columnRows, t);
      RowsOf(r.columnRows, t) == own + [ColumnRow(t, c, if own == [] then None else Some(|own|), None, None, None)] &&
      (own != [] ==> Contiguous(RowsOf(r.columnRows, t)))
  {
    var own := RowsOf(s.columnRows, t);
    var row := ColumnRow(t, c, NextPosition(s.columnRows, t), None, None, None);
    ColumnAddedState(s, t, c);
    NextPositionContiguous(s.columnRows, t);
    assert row == ColumnRow(t, c, if own == [] then None else Some(|own|), None, None, None);
    RowsOfSnoc(s.columnRows, row, t);
    if own != [] {
      ContiguousSnoc(own, row);
    }
  }

  lemma ContiguousSnoc(rows: seq<ColumnRow>, row: ColumnRow)
    requires Contiguous(rows) && row.position == Some(|rows|)
    ensures Contiguous(rows + [row])
  {
  }

  /** `addColumn` leaves the catalog rows of every other table as they were. */
  lemma AddColumnKeepsOtherRows(s: DbState, t: string, c: string, u: string)
    requires ValidState(s) && !IsCatalogTable(t) && ColumnAdded(s, t, c).error.None? && u != t
    ensures RowsOf(ColumnAdded(s, t, c).state.columnRows, u) == RowsOf(s.columnRows, u)
  {
    var row := ColumnRow(t, c, NextPosition(s.columnRows, t), None, None, None);
    ColumnAddedState(s, t, c);
    RowsOfSnoc(s.columnRows, row, u);
    AppendEmpty(RowsOf(s.columnRows, u));
  }

  /** `addColumn` succeeds exactly on an existing table without that column, once the catalog exists. */
  lemma AddColumnSucceeds(s: DbState, t: string, c: string)
    requires ValidState(s) && !IsCatalogTable(t)
    ensures ColumnAdded(s, t, c).error.None? <==> t in s.schema && c !in s.schema[t] && ColumnTable in s.schema
  {
  }

  /** On a table with no catalog row, `addColumn` writes a row whose position is NULL. */
  lemma AddColumnNullPosition(s: DbState, t: string, c: string)
    requires ValidState(s) && !IsCatalogTable(t) && ColumnAdded(s, t, c).error.None?
    requires RowsOf(s.columnRows, t) == []
    ensures RowsOf(ColumnAdded(s, t, c).state.columnRows, t) == [ColumnRow(t, c, None, None, None, None)]
  {
    AddColumnAppends(s, t, c);
  }

  // ---------------------------------------------------------------------------
  // changeColumnName

  /** What a successful `Recreate` leaves, in terms of the state it started from. */
  lemma RecreateState(moved: DbState, t: string, oldCols: seq<string>, colIndex: int, newName: string, skipCommit: bool)
    requires TempTable in moved.schema && TempTable in moved.data && t != TempTable
    requires RowsFit(moved.data[TempTable], |moved.schema[TempTable]|)
    requires Recreate(moved, t, oldCols, colIndex, newName, skipCommit).error.None?
    ensures var r := Recreate(moved, t, oldCols, colIndex, newName, skipCommit).state;
      AllIn(oldCols, moved.schema[TempTable]) &&
      t in r.schema && r.schema[t] == ReplaceAt(oldCols, colIndex, newName) &&
      t in r.data && r.data[t] == CopyRows(moved.data[TempTable], moved.schema[TempTable], oldCols) &&
      r.columnRows == RenameRows(moved.columnRows, t, colIndex, newName) &&
      r.inTransaction == (skipCommit && moved.inTransaction) && r.tableRows == moved.tableRows &&
      (forall n :: n in r.master <==> (n in moved.master || n == t) && n != TempTable) &&
      (forall u :: u != t && u != TempTable && u in moved.schema ==> u in r.schema && r.schema[u] == moved.schema[u]) &&
      (forall u :: u != t && u != TempTable && u in moved.data ==> u in r.data && r.data[u] == moved.data[u])
  {
    var newCols := ReplaceAt(oldCols, colIndex, newName);
    var rows := CopyRows(moved.data[TempTable], moved.schema[TempTable], oldCols);
    var copied := DropTable(SetRows(CreateUserTable(moved, t, newCols), t, rows), TempTable);
    var r := Recreate(moved, t, oldCols, colIndex, newName, skipCommit).state;
    assert r == copied.(columnRows := RenameRows(moved.columnRows, t, colIndex, newName),
                        inTransaction := skipCommit && moved.inTransaction);
  }

  /** `BEGIN` and the move of `t` to `_old_table`, seen from the tables. */
  lemma MovedState(s: DbState, t: string)
    requires ValidState(s) && t in s.schema && TempTable !in s.schema && !IsCatalogTable(t)
    ensures var moved := RenameTable(s.(inTransaction := true), t, TempTable);
      ValidState(moved) && moved.inTransaction && moved.columnRows == s.columnRows &&
      TempTable in moved.schema && moved.schema[TempTable] == s.schema[t] && t !in moved.schema &&
      TempTable in moved.data && moved.data[TempTable] == s.data[t] &&
      (forall n :: n in moved.master <==> (n in s.master && n != t) || n == TempTable) &&
      (forall u :: u != t && u in s.schema ==> u in moved.schema && moved.schema[u] == s.schema[u]) &&
      (forall u :: u != t && u in s.data ==> u in moved.data && moved.data[u] == s.data[u])
  {
    RowsValid(s, s.(inTransaction := true));
    RenameTableValid(s.(inTransaction := true), t, TempTable);
    RenameValid(s.master, t, TempTable);
  }

  /**
   * A successful `changeColumnName`: the table keeps its name and is now made
   * of the descriptor's non-formula names with the one at `colIndex` replaced;
   * its rows are copied column by column from the old table; the catalog rows
   * at `position = colIndex` take the new name; the transaction stays open
   * exactly when `skipCommit` is set.
   */
  lemma ColumnRenamedState(s: DbState, table: TableDesc, colIndex: int, newName: string, skipCommit: bool)
    requires ValidState(s) && !IsCatalogTable(table.name)
    requires ColumnRenamed(s, table, colIndex, newName, skipCommit).error.None?
    ensures var r := ColumnRenamed(s, table, colIndex, newName, skipCommit).state;
      var t := table.name;
      var oldCols := NonFormulaNames(table.columns);
      t in s.schema && AllIn(oldCols, s.schema[t]) &&
      t in r.schema && r.schema[t] == ReplaceAt(oldCols, colIndex, newName) &&
      t in r.data && r.data[t] == CopyRows(s.data[t], s.schema[t], oldCols) &&
      r.columnRows == RenameRows(s.columnRows, t, colIndex, newName) &&
      r.inTransaction == skipCommit && r.tableRows == s.tableRows
  {
    var t := table.name;
    assert !s.inTransaction && t in s.schema && TempTable !in s.schema;
    var moved := RenameTable(s.(inTransaction := true), t, TempTable);
    MovedState(s, t);
    RecreateState(moved, t, NonFormulaNames(table.columns), colIndex, newName, skipCommit);
  }

  /** A successful `changeColumnName` keeps the set of tables as it was. */
  lemma ColumnRenamedTables(s: DbState, table: TableDesc, colIndex: int, newName: string, skipCommit: bool)
    requires ValidState(s) && !IsCatalogTable(table.name)
    requires ColumnRenamed(s, table, colIndex, newName, skipCommit).error.None?
    ensures forall n :: n in ColumnRenamed(s, table, colIndex, newName, skipCommit).state.master <==> n in s.master
  {
    var t := table.name;
    assert !s.inTransaction && t in s.schema && TempTable !in s.schema;
    var moved := RenameTable(s.(inTransaction := true), t, TempTable);
    MovedState(s, t);
    RecreateState(moved, t, NonFormulaNames(table.columns), colIndex, newName, skipCommit);
  }

  /** A successful `changeColumnName` leaves every other table as it was. */
  lemma ColumnRenamedOthers(s: DbState, table: TableDesc, colIndex: int, newName: string, skipCommit: bool)
    requires ValidState(s) && !IsCatalogTable(table.name)
    requires ColumnRenamed(s, table, colIndex, newName, skipCommit).error.None?
    ensures var r := ColumnRenamed(s, table, colIndex, newName, skipCommit).state;
      (forall u :: u != table.name && u in s.schema ==> u in r.schema && r.schema[u] == s.schema[u]) &&
      (forall u :: u != table.name && u in s.data ==> u in r.data && r.data[u] == s.data[u])
  {
    var t := table.name;
    assert !s.inTransaction && t in s.schema && TempTable !in s.schema;
    var moved := RenameTable(s.(inTransaction := true), t, TempTable);
    MovedState(s, t);
    RecreateState(moved, t, NonFormulaNames(table.columns), colIndex, newName, skipCommit);
  }

  /** A `Recreate` that fails leaves the transaction as it found it. */
  lemma RecreateFailureKeepsTransaction(moved: DbState, t: string, oldCols: seq<string>, colIndex: int, newName: string, skipCommit: bool)
    requires TempTable in moved.schema && TempTable in moved.data
    requires RowsFit(moved.data[TempTable], |moved.schema[TempTable]|)
    requires Recreate(moved, t, oldCols, colIndex, newName, skipCommit).error.Some?
    ensures Recreate(moved, t, oldCols, colIndex, newName, skipCommit).state.inTransaction == moved.inTransaction
    ensures Recreate(moved, t, oldCols, colIndex, newName, skipCommit).error != Some(NestedTransaction)
  {
  }

  /** A `changeColumnName` that fails after its BEGIN leaves the transaction open. */
  lemma ColumnRenamedFailureKeepsTransaction(s: DbState, table: TableDesc, colIndex: int, newName: string, skipCommit: bool)
    requires ValidState(s) && !IsCatalogTable(table.name)
    requires ColumnRenamed(s, table, colIndex, newName, skipCommit).error.Some?
    ensures ColumnRenamed(s, table, colIndex, newName, skipCommit).state.inTransaction
    ensures s.inTransaction <==> ColumnRenamed(s, table, colIndex, newName, skipCommit).error == Some(NestedTransaction)
  {
    var t := table.name;
    if !s.inTransaction && t in s.schema && TempTable !in s.schema {
      MovedState(s, t);
      var moved := RenameTable(s.(inTransaction := true), t, TempTable);
      RecreateFailureKeepsTransaction(moved, t, NonFormulaNames(table.columns), colIndex, newName, skipCommit);
    }
  }

  /** The column names a list of catalog rows spells out, in order. */
  function Names(rows: seq<ColumnRow>): (r: seq<string>)
    ensures |r| == |rows| && forall i :: 0 <= i < |rows| ==> r[i] == rows[i].name
  {
    seq(|rows|, i requires 0 <= i < |rows| => rows[i].name)
  }

  /**
   * The catalog agrees with the physical table `t`: its rows for `t` are at
   * positions 0, 1, ... and name the physical columns in order.
   */
  predicate InSync(s: DbState, t: string)
  {
    t in s.schema && Contiguous(RowsOf(s.columnRows, t)) && Names(RowsOf(s.columnRows, t)) == s.schema[t]
  }

  /** A descriptor read back by `getTableDesc` has no formula column, so `changeColumnName` keeps all its names. */
  lemma {:induction false} NonFormulaOfDescribed(rows: seq<ColumnRow>)
    ensures NonFormulaNames(ToColumns(rows)) == Names(rows)
    decreases |rows|
  {
    if rows != [] {
      var init := rows[..|rows| - 1];
      NonFormulaOfDescribed(init);
      assert ToColumns(rows)[..|rows| - 1] == ToColumns(init);
    }
  }

  /** Selecting every column of a table with distinct column names copies its rows unchanged. */
  lemma CopyAllColumns(rows: seq<seq<Value>>, cols: seq<string>)
    requires RowsFit(rows, |cols|) && Distinct(cols)
    ensures AllIn(cols, cols) && CopyRows(rows, cols, cols) == rows
  {
    assert AllIn(cols, cols);
    var r := CopyRows(rows, cols, cols);
    forall k | 0 <= k < |rows|
      ensures r[k] == rows[k]
    {
      forall m | 0 <= m < |cols|
        ensures r[k][m] == rows[k][m]
      {
        assert IndexOf(cols, cols[m]) == m;
      }
    }
  }

  lemma RenameRowsSnoc(rows: seq<ColumnRow>, row: ColumnRow, t: string, colIndex: int, newName: string)
    ensures RenameRows(rows + [row], t, colIndex, newName) == RenameRows(rows, t, colIndex, newName) + RenameRows([row], t, colIndex, newName)
  {
  }

  /**
   * The UPDATE of `changeColumnName` commutes with picking the rows of any
   * table `u`: the rows of `u` afterwards are its rows before, renamed where
   * they belong to `t`.
   */
  lemma {:induction false} RowsOfRenamed(rows: seq<ColumnRow>, t: string, colIndex: int, newName: string, u: string)
    ensures RowsOf(RenameRows(rows, t, colIndex, newName), u) == RenameRows(RowsOf(rows, u), t, colIndex, newName)
    decreases |rows|
  {
    if rows != [] {
      var init := rows[..|rows| - 1];
      var last := rows[|rows| - 1];
      var renamed := RenameRows(rows, t, colIndex, newName);
      RowsOfRenamed(init, t, colIndex, newName, u);
      assert rows == init + [last];
      RenameRowsSnoc(init, last, t, colIndex, newName);
      var lastRenamed := RenameRows([last], t, colIndex, newName)[0];
      assert renamed == RenameRows(init, t, colIndex, newName) + [lastRenamed];
      RowsOfSnoc(RenameRows(init, t, colIndex, newName), lastRenamed, u);
      RowsOfSnoc(init, last, u);
      var own := RowsOf(init, u);
      if last.tableName == u {
        RenameRowsSnoc(own, last, t, colIndex, newName);
      } else {
        AppendEmpty(own);
        AppendEmpty(RenameRows(own, t, colIndex, newName));
      }
    }
  }

  /** The UPDATE of `changeColumnName` leaves the catalog rows of every other table alone. */
  lemma RowsOfRenamedOther(rows: seq<ColumnRow>, t: string, colIndex: int, newName: string, u: string)
    requires u != t
    ensures RowsOf(RenameRows(rows, t, colIndex, newName), u) == RowsOf(rows, u)
  {
    RowsOfRenamed(rows, t, colIndex, newName, u);
    RowsOfMembers(rows, u);
    var own := RowsOf(rows, u);
    forall k | 0 <= k < |own|
      ensures own[k].tableName == u
    {
      assert own[k] in own;
    }
  }

  /** Renaming the row at position `colIndex` of contiguous rows renames the `colIndex`-th name. */
  lemma RenamedNames(rows: seq<ColumnRow>, t: string, colIndex: int, newName: string)
    requires Contiguous(rows) && forall i :: 0 <= i < |rows| ==> rows[i].tableName == t
    ensures Contiguous(RenameRows(rows, t, colIndex, newName))
    ensures Names(RenameRows(rows, t, colIndex, newName)) == ReplaceAt(Names(rows), colIndex, newName)
  {
  }

  /**
   * `changeColumnName` called with the descriptor `getTableDesc` returns, on a
   * table the catalog agrees with, renames one column in place: the physical
   * table gets the new name at `colIndex`, keeps every row as it was, and the
   * catalog still agrees with it.
   */
  lemma RenameKeepsSync(s: DbState, t: string, colIndex: int, newName: string, skipCommit: bool)
    requires ValidState(s) && !IsCatalogTable(t) && InSync(s, t) && Distinct(s.schema[t])
    requires Describe(s, t).Ok?
    requires ColumnRenamed(s, Describe(s, t).value, colIndex, newName, skipCommit).error.None?
    ensures var r := ColumnRenamed(s, Describe(s, t).value, colIndex, newName, skipCommit).state;
      t in r.schema && r.schema[t] == ReplaceAt(s.schema[t], colIndex, newName) &&
      t in s.data && t in r.data && r.data[t] == s.data[t] &&
      r.inTransaction == skipCommit && InSync(r, t)
  {
    var table := Describe(s, t).value;
    var own := RowsOf(s.columnRows, t);
    NonFormulaOfDescribed(own);
    assert NonFormulaNames(table.columns) == s.schema[t];
    ColumnRenamedState(s, table, colIndex, newName, skipCommit);
    CopyAllColumns(s.data[t], s.schema[t]);
    var r := ColumnRenamed(s, table, colIndex, newName, skipCommit).state;
    RowsOfRenamed(s.columnRows, t, colIndex, newName, t);
    RowsOfMembers(s.columnRows, t);
    forall i | 0 <= i < |own|
      ensures own[i].tableName == t
    {
      assert own[i] in own;
    }
    RenamedNames(own, t, colIndex, newName);
  }

  /** `importDocument` leaves the columns of every user table alone. */
  lemma ImportKeepsUserTables(s: DbState, t: string)
    requires t in s.schema && !IsCatalogTable(t)
    ensures t in Import(s).schema && Import(s).schema[t] == s.schema[t]
  {
    var s1 := CreateTable(s, DocumentTable, DocumentColumns);
    var s2 := s1.(documentRows := s1.documentRows + [DocumentRow(ApiVersion, None, None, None)]);
    var s3 := CreateTable(s2, TableTable, TableColumns);
    var s4 := s3.(tableRows := s3.tableRows + Register(s3.master));
    assert s4.schema[t] == s.schema[t];
  }

  lemma PragmaInSync(t: string, cols: seq<string>)
    ensures Contiguous(PragmaRows(t, cols)) && Names(PragmaRows(t, cols)) == cols
  {
  }

  /** Right after `importDocument` on a plain database, the catalog agrees with every user table. */
  lemma ImportInSync(s: DbState, t: string)
    requires ValidState(s) && Plain(s) && t in s.schema
    ensures InSync(Import(s), t) && Import(s).schema[t] == s.schema[t]
  {
    ImportRowsOf(s, t);
    ImportKeepsUserTables(s, t);
    PragmaInSync(t, s.schema[t]);
  }

  /** `addColumn` keeps a non-empty table in agreement with its catalog rows, and its column names distinct. */
  lemma AddColumnKeepsSync(s: DbState, t: string, c: string)
    requires ValidState(s) && !IsCatalogTable(t) && ColumnAdded(s, t, c).error.None?
    requires InSync(s, t) && s.schema[t] != []
    ensures InSync(ColumnAdded(s, t, c).state, t)
    ensures Distinct(s.schema[t]) ==> Distinct(ColumnAdded(s, t, c).state.schema[t])
  {
    AddColumnAppends(s, t, c);
    ColumnAddedState(s, t, c);
    var own := RowsOf(s.columnRows, t);
    assert |own| == |s.schema[t]|;
    assert own != [];
    var row := ColumnRow(t, c, Some(|own|), None, None, None);
    NamesSnoc(own, row);
    if Distinct(s.schema[t]) {
      DistinctSnoc(s.schema[t], c);
    }
  }

  lemma NamesSnoc(rows: seq<ColumnRow>, row: ColumnRow)
    ensures Names(rows + [row]) == Names(rows) + [row.name]
  {
  }

  lemma DistinctSnoc<T>(s: seq<T>, x: T)
    requires Distinct(s) && x !in s
    ensures Distinct(s + [x])
  {
  }

  /**
   * When `changeColumnName` succeeds: outside a transaction, on an existing
   * table, with `_old_table` free and the catalog present, when the new list
   * of names is a valid CREATE TABLE and every old name is a physical column.
   */
  lemma RenameSucceeds(s: DbState, table: TableDesc, colIndex: int, newName: string, skipCommit: bool)
    requires ValidState(s) && !IsCatalogTable(table.name)
    ensures ColumnRenamed(s, table, colIndex, newName, skipCommit).error.None? <==>
      !s.inTransaction && table.name in s.schema && TempTable !in s.schema && ColumnTable in s.schema &&
      CreateTableError(ReplaceAt(NonFormulaNames(table.columns), colIndex, newName)).None? &&
      AllIn(NonFormulaNames(table.columns), s.schema[table.name])
  {
    var t := table.name;
    if !s.inTransaction && t in s.schema && TempTable !in s.schema {
      MovedState(s, t);
    }
  }

  /**
   * A table `changeColumnName` and `addColumn` can work on: the database is
   * consistent, no transaction is open, `_old_table` is free, the catalog
   * exists and agrees with the table, and the table has a column and no
   * column name twice.
   */
  ghost predicate Ready(s: DbState, t: string)
  {
    ValidState(s) && !IsCatalogTable(t) && InSync(s, t) && s.schema[t] != [] && Distinct(s.schema[t]) &&
    !s.inTransaction && TempTable !in s.schema && ColumnTable in s.schema
  }

  /**
   * `changeColumnName` with the descriptor `getTableDesc` returns, on a ready
   * table, succeeds whenever the new names are distinct: the column at
   * `colIndex` is renamed in place, every row is kept, the catalog still
   * agrees, and the transaction is open exactly when `skipCommit` is set.
   */
  lemma RenameDescribed(s: DbState, t: string, colIndex: int, newName: string, skipCommit: bool)
    requires Ready(s, t) && Distinct(ReplaceAt(s.schema[t], colIndex, newName))
    ensures Describe(s, t).Ok?
    ensures var r := ColumnRenamed(s, Describe(s, t).value, colIndex, newName, skipCommit);
      r.error.None? && t in r.state.schema && r.state.schema[t] == ReplaceAt(s.schema[t], colIndex, newName) &&
      t in s.data && t in r.state.data && r.state.data[t] == s.data[t] &&
      r.state.inTransaction == skipCommit && InSync(r.state, t)
  {
    var table := Describe(s, t).value;
    NonFormulaOfDescribed(RowsOf(s.columnRows, t));
    RenameSucceeds(s, table, colIndex, newName, skipCommit);
    assert AllIn(s.schema[t], s.schema[t]);
    RenameKeepsSync(s, t, colIndex, newName, skipCommit);
  }

  /** `addColumn` with a new name on a ready table succeeds and leaves it ready, the name appended. */
  lemma AddColumnReady(s: DbState, t: string, c: string)
    requires Ready(s, t) && c !in s.schema[t]
    ensures ColumnAdded(s, t, c).error.None?
    ensures Ready(ColumnAdded(s, t, c).state, t)
    ensures ColumnAdded(s, t, c).state.schema[t] == s.schema[t] + [c]
  {
    AddColumnSucceeds(s, t, c);
    AddColumnKeepsSync(s, t, c);
    ColumnAddedValid(s, t, c);
    ColumnAddedState(s, t, c);
  }
}
