/**
 * The catalog engine of the litespread backend over an abstract SQLite
 * database: the physical tables (their order in `sqlite_master`, their column
 * names and their rows), the rows of the catalog tables `litespread_document`,
 * `litespread_table` and `litespread_column`, the generated views, and whether
 * a transaction is open.
 *
 * Each exported operation is specified by a function from the old state to the
 * new state and the error it throws, statement by statement as the SQL it
 * runs; the `Database` class holds the state and its methods are proved to
 * follow these functions.
 */
module Catalog {
  import opened Wrappers
  import opened Views

  /** A cell of a user table. */
  datatype Value = Null | Int(i: int) | Text(s: string)

  /** A row of `litespread_document`. */
  datatype DocumentRow = DocumentRow(apiVersion: int, author: Option<string>, license: Option<string>, description: Option<string>)

  /** A row of `litespread_table`. */
  datatype TableRow = TableRow(tableName: string, description: Option<string>)

  /** A row of `litespread_column`. */
  datatype ColumnRow = ColumnRow(
    tableName: string,
    name: string,
    position: Option<int>,
    format: Option<string>,
    summary: Option<string>,
    description: Option<string>)

  const DocumentTable := "litespread_document"
  const TableTable := "litespread_table"
  const ColumnTable := "litespread_column"
  /** The name `changeColumnName` parks the table under while it recreates it. */
  const TempTable := "_old_table"
  const ApiVersion := 1

  const DocumentColumns: seq<string> := ["api_version", "author", "license", "description"]
  const TableColumns: seq<string> := ["table_name", "description"]
  const ColumnColumns: seq<string> := ["table_name", "name", "position", "format", "summary", "description"]

  predicate IsCatalogTable(name: string)
  {
    name == DocumentTable || name == TableTable || name == ColumnTable
  }

  function CatalogColumns(name: string): seq<string>
    requires IsCatalogTable(name)
  {
    if name == DocumentTable then DocumentColumns
    else if name == TableTable then TableColumns
    else ColumnColumns
  }

  /** The whole database. `master` lists the tables of `sqlite_master` in creation order. */
  datatype DbState = DbState(
    master: seq<string>,
    schema: map<string, seq<string>>,
    data: map<string, seq<seq<Value>>>,
    documentRows: seq<DocumentRow>,
    tableRows: seq<TableRow>,
    columnRows: seq<ColumnRow>,
    views: map<string, string>,
    inTransaction: bool)

  /** A state after an operation, and the error that operation threw, if any. */
  datatype Step = Step(state: DbState, error: Option<Error>)

  predicate Distinct<T(==)>(s: seq<T>)
  {
    forall i, j :: 0 <= i < j < |s| ==> s[i] != s[j]
  }

  predicate RowsFit(rows: seq<seq<Value>>, width: nat)
  {
    forall k :: 0 <= k < |rows| ==> |rows[k]| == width
  }

  /**
   * The consistency of a database: every table is listed once, the catalog
   * tables have their fixed columns, every other table has rows that fit its
   * columns.
   */
  ghost predicate ValidState(s: DbState)
  {
    Distinct(s.master) &&
    (forall n :: n in s.master <==> n in s.schema) &&
    (forall n :: n in s.schema && IsCatalogTable(n) ==> s.schema[n] == CatalogColumns(n)) &&
    (forall n :: n in s.data <==> n in s.schema && !IsCatalogTable(n)) &&
    (forall n :: n in s.data ==> RowsFit(s.data[n], |s.schema[n]|))
  }

  // ---------------------------------------------------------------------------
  // importDocument

  /** `CREATE TABLE IF NOT EXISTS name (cols)`. */
  function CreateTable(s: DbState, name: string, cols: seq<string>): DbState
  {
    if name in s.schema then s
    else s.(master := s.master + [name], schema := s.schema[name := cols])
  }

  /** The rows `INSERT INTO litespread_table(table_name) SELECT DISTINCT name FROM sqlite_master` adds. */
  function Register(master: seq<string>): (r: seq<TableRow>)
    ensures |r| == |master| && forall i :: 0 <= i < |master| ==> r[i] == TableRow(master[i], None)
  {
    seq(|master|, i requires 0 <= i < |master| => TableRow(master[i], None))
  }

  /** `PRAGMA table_info(t)`: the column names, empty for a table that does not exist. */
  function TableInfo(schema: map<string, seq<string>>, t: string): seq<string>
  {
    if t in schema then schema[t] else []
  }

  /** The catalog rows inserted for one table: one per physical column, at its `cid`. */
  function PragmaRows(t: string, cols: seq<string>): (r: seq<ColumnRow>)
    ensures |r| == |cols|
    ensures forall i :: 0 <= i < |cols| ==> r[i] == ColumnRow(t, cols[i], Some(i), None, None, None)
    decreases |cols|
  {
    if cols == [] then []
    else PragmaRows(t, cols[..|cols| - 1]) + [ColumnRow(t, cols[|cols| - 1], Some(|cols| - 1), None, None, None)]
  }

  /** The catalog rows the nested loop inserts, registered table after registered table. */
  function ImportedRows(registered: seq<TableRow>, schema: map<string, seq<string>>): seq<ColumnRow>
    decreases |registered|
  {
    if registered == [] then []
    else
      var last := registered[|registered| - 1];
      ImportedRows(registered[..|registered| - 1], schema) + PragmaRows(last.tableName, TableInfo(schema, last.tableName))
  }

  /** The three scripts of `importDocument`: the catalog tables, the document row, the registered tables. */
  function Prepared(s: DbState): DbState
  {
    var s1 := CreateTable(s, DocumentTable, DocumentColumns);
    var s2 := s1.(documentRows := s1.documentRows + [DocumentRow(ApiVersion, None, None, None)]);
    var s3 := CreateTable(s2, TableTable, TableColumns);
    var s4 := s3.(tableRows := s3.tableRows + Register(s3.master));
    CreateTable(s4, ColumnTable, ColumnColumns)
  }

  /** `importDocument`: the three scripts, then one catalog row per column of every registered table. */
  function Import(s: DbState): DbState
  {
    var p := Prepared(s);
    p.(columnRows := p.columnRows + ImportedRows(p.tableRows, p.schema))
  }

  lemma PragmaRowsSnoc(t: string, cols: seq<string>, c: string)
    ensures PragmaRows(t, cols + [c]) == PragmaRows(t, cols) + [ColumnRow(t, c, Some(|cols|), None, None, None)]
  {
    assert (cols + [c])[..|cols|] == cols;
  }

  lemma ImportedRowsSnoc(registered: seq<TableRow>, last: TableRow, schema: map<string, seq<string>>)
    ensures ImportedRows(registered + [last], schema) == ImportedRows(registered, schema) + PragmaRows(last.tableName, TableInfo(schema, last.tableName))
  {
    assert (registered + [last])[..|registered|] == registered;
  }

  lemma PragmaRowsStep(before: seq<ColumnRow>, t: string, info: seq<string>, cid: nat)
    requires cid < |info|
    ensures before + PragmaRows(t, info[..cid + 1]) == (before + PragmaRows(t, info[..cid])) + [ColumnRow(t, info[cid], Some(cid), None, None, None)]
  {
    assert info[..cid + 1] == info[..cid] + [info[cid]];
    PragmaRowsSnoc(t, info[..cid], info[cid]);
    AppendAssoc(before, PragmaRows(t, info[..cid]), [ColumnRow(t, info[cid], Some(cid), None, None, None)]);
  }

  lemma ImportedRowsStep(before: seq<ColumnRow>, registered: seq<TableRow>, i: nat, schema: map<string, seq<string>>)
    requires i < |registered|
    ensures before + ImportedRows(registered[..i + 1], schema) ==
            (before + ImportedRows(registered[..i], schema)) + PragmaRows(registered[i].tableName, TableInfo(schema, registered[i].tableName))
  {
    assert registered[..i + 1] == registered[..i] + [registered[i]];
    ImportedRowsSnoc(registered[..i], registered[i], schema);
    AppendAssoc(before, ImportedRows(registered[..i], schema), PragmaRows(registered[i].tableName, TableInfo(schema, registered[i].tableName)));
  }

  lemma AppendAssoc<T>(a: seq<T>, b: seq<T>, c: seq<T>)
    ensures (a + b) + c == a + (b + c)
  {
  }

  lemma AppendEmpty<T>(a: seq<T>)
    ensures [] + a == a && a + [] == a
  {
  }

  // ---------------------------------------------------------------------------
  // getTableDesc

  /** The rows of `litespread_column` for table `t`, in storage order. */
  function RowsOf(rows: seq<ColumnRow>, t: string): (r: seq<ColumnRow>)
    decreases |rows|
  {
    if rows == [] then []
    else
      var last := rows[|rows| - 1];
      RowsOf(rows[..|rows| - 1], t) + (if last.tableName == t then [last] else [])
  }

  function ToColumn(row: ColumnRow): Column
  {
    Column(row.name, row.position, row.format, row.summary, None)
  }

  function ToColumns(rows: seq<ColumnRow>): (r: seq<Column>)
    ensures |r| == |rows| && forall i :: 0 <= i < |rows| ==> r[i] == ToColumn(rows[i])
  {
    seq(|rows|, i requires 0 <= i < |rows| => ToColumn(rows[i]))
  }

  /** `getTableDesc`: the descriptor read back from the catalog. */
  function Describe(s: DbState, t: string): Result<TableDesc, Error>
  {
    if ColumnTable !in s.schema then Err(NoSuchTable(ColumnTable))
    else Ok(TableDesc(t, ToColumns(RowsOf(s.columnRows, t)), None))
  }

  // ---------------------------------------------------------------------------
  // addColumn

  /** `SELECT max(position) FROM litespread_column WHERE table_name = t`: NULL when no row has a position. */
  function MaxPosition(rows: seq<ColumnRow>, t: string): (m: Option<int>)
    ensures m.None? <==> forall k :: 0 <= k < |rows| && rows[k].tableName == t ==> rows[k].position.None?
    ensures m.Some? ==> (exists k :: 0 <= k < |rows| && rows[k].tableName == t && rows[k].position == m)
    ensures m.Some? ==> forall k :: 0 <= k < |rows| && rows[k].tableName == t && rows[k].position.Some? ==>
      rows[k].position.value <= m.value
    decreases |rows|
  {
    if rows == [] then None
    else
      var init := rows[..|rows| - 1];
      var last := rows[|rows| - 1];
      var m := MaxPosition(init, t);
      if last.tableName != t || last.position.None? then m
      else if m.None? || m.value < last.position.value then last.position
      else m
  }

  /** `max(position) + 1`, NULL when the maximum is NULL. */
  function NextPosition(rows: seq<ColumnRow>, t: string): Option<int>
  {
    match MaxPosition(rows, t)
    case None => None
    case Some(m) => Some(m + 1)
  }

  function AppendNull(rows: seq<seq<Value>>): (r: seq<seq<Value>>)
    ensures |r| == |rows| && forall k :: 0 <= k < |rows| ==> r[k] == rows[k] + [Null]
  {
    seq(|rows|, k requires 0 <= k < |rows| => rows[k] + [Null])
  }

  /** `ALTER TABLE t ADD COLUMN c`: the name goes last, every row gets a NULL. */
  function AlterAdd(s: DbState, t: string, c: string): DbState
    requires t in s.schema && t in s.data
  {
    s.(schema := s.schema[t := s.schema[t] + [c]], data := s.data[t := AppendNull(s.data[t])])
  }

  /** `addColumn`: the ALTER TABLE, then the catalog row. */
  function ColumnAdded(s: DbState, t: string, c: string): Step
    requires ValidState(s) && !IsCatalogTable(t)
  {
    if t !in s.schema then Step(s, Some(NoSuchTable(t)))
    else if c in s.schema[t] then Step(s, Some(DuplicateColumn(c)))
    else
      var s1 := AlterAdd(s, t, c);
      if ColumnTable !in s.schema then Step(s1, Some(NoSuchTable(ColumnTable)))
      else Step(s1.(columnRows := s.columnRows + [ColumnRow(t, c, NextPosition(s.columnRows, t), None, None, None)]), None)
  }

  // ---------------------------------------------------------------------------
  // changeColumnName

  /** `table.columns.filter(c => !c.formula).map(c => c.name)`. */
  function NonFormulaNames(cols: seq<Column>): seq<string>
    decreases |cols|
  {
    if cols == [] then []
    else
      var last := cols[|cols| - 1];
      NonFormulaNames(cols[..|cols| - 1]) + (if HasFormula(last) then [] else [last.name])
  }

  /** `oldCols.map((c, i) => i === colIndex ? newName : c)`. */
  function ReplaceAt(cols: seq<string>, colIndex: int, newName: string): (r: seq<string>)
    ensures |r| == |cols|
    ensures forall i :: 0 <= i < |cols| ==> r[i] == if i == colIndex then newName else cols[i]
  {
    seq(|cols|, i requires 0 <= i < |cols| => if i == colIndex then newName else cols[i])
  }

  /** `ALTER TABLE a RENAME TO b` on the list of `sqlite_master`. */
  function Rename(master: seq<string>, a: string, b: string): (r: seq<string>)
    ensures |r| == |master| && forall i :: 0 <= i < |master| ==> r[i] == if master[i] == a then b else master[i]
  {
    seq(|master|, i requires 0 <= i < |master| => if master[i] == a then b else master[i])
  }

  /** `DROP TABLE name` on the list of `sqlite_master`. */
  function Without(master: seq<string>, name: string): (r: seq<string>)
    ensures forall n :: n in r <==> n in master && n != name
    decreases |master|
  {
    if master == [] then []
    else Without(master[..|master| - 1], name) + (if master[|master| - 1] == name then [] else [master[|master| - 1]])
  }

  function IndexOf(cols: seq<string>, name: string): (i: nat)
    requires name in cols
    ensures i < |cols| && cols[i] == name
    decreases |cols|
  {
    if cols[|cols| - 1] == name then |cols| - 1 else IndexOf(cols[..|cols| - 1], name)
  }

  predicate AllIn(picked: seq<string>, cols: seq<string>)
  {
    forall m :: 0 <= m < |picked| ==> picked[m] in cols
  }

  /** `INSERT INTO t SELECT picked FROM old`: every row copied, column `m` from the old column `picked[m]`. */
  function CopyRows(rows: seq<seq<Value>>, cols: seq<string>, picked: seq<string>): (r: seq<seq<Value>>)
    requires RowsFit(rows, |cols|) && AllIn(picked, cols)
    ensures |r| == |rows| && RowsFit(r, |picked|)
    ensures forall k, m :: 0 <= k < |rows| && 0 <= m < |picked| ==> r[k][m] == rows[k][IndexOf(cols, picked[m])]
  {
    seq(|rows|, k requires 0 <= k < |rows| =>
      seq(|picked|, m requires 0 <= m < |picked| => rows[k][IndexOf(cols, picked[m])]))
  }

  /** `UPDATE litespread_column SET name = newName WHERE table_name = t AND position = colIndex`. */
  function RenameRows(rows: seq<ColumnRow>, t: string, colIndex: int, newName: string): (r: seq<ColumnRow>)
    ensures |r| == |rows|
    ensures forall k :: 0 <= k < |rows| ==>
      r[k] == if rows[k].tableName == t && rows[k].position == Some(colIndex) then rows[k].(name := newName) else rows[k]
  {
    seq(|rows|, k requires 0 <= k < |rows| =>
      if rows[k].tableName == t && rows[k].position == Some(colIndex) then rows[k].(name := newName) else rows[k])
  }

  /** The first name of `cols` that repeats an earlier one, scanning from `j`. */
  function RepeatFrom(cols: seq<string>, j: nat): (r: Option<string>)
    requires j <= |cols|
    ensures r.None? <==> forall k :: j <= k < |cols| ==> cols[k] !in cols[..k]
    ensures r.Some? ==> (exists k :: j <= k < |cols| && r.value == cols[k] && cols[k] in cols[..k] &&
                                 forall m :: j <= m < k ==> cols[m] !in cols[..m])
    decreases |cols| - j
  {
    if j == |cols| then None
    else if cols[j] in cols[..j] then Some(cols[j])
    else RepeatFrom(cols, j + 1)
  }

  /** A list is distinct exactly when no name occurs among the names before it. */
  lemma DistinctByPrefix(cols: seq<string>)
    ensures Distinct(cols) <==> forall k :: 0 <= k < |cols| ==> cols[k] !in cols[..k]
  {
    if forall k :: 0 <= k < |cols| ==> cols[k] !in cols[..k] {
      forall i, j | 0 <= i < j < |cols|
        ensures cols[i] != cols[j]
      {
        assert cols[i] == cols[..j][i];
      }
    }
  }

  /**
   * The column SQLite names in a duplicate-column error: the first name that
   * occurs again after a run of distinct names.
   */
  function FirstRepeat(cols: seq<string>): (r: Option<string>)
    ensures r.None? <==> Distinct(cols)
    ensures r.Some? ==> exists k :: 0 <= k < |cols| && r.value == cols[k] && cols[k] in cols[..k] && Distinct(cols[..k])
  {
    DistinctByPrefix(cols);
    var r := RepeatFrom(cols, 0);
    if r.Some? then
      var k :| 0 <= k < |cols| && r.value == cols[k] && cols[k] in cols[..k] &&
        forall m :: 0 <= m < k ==> cols[m] !in cols[..m];
      DistinctByPrefix(cols[..k]);
      assert forall m :: 0 <= m < k ==> cols[..k][m] == cols[m] && cols[..k][..m] == cols[..m];
      r
    else r
  }

  /** `CREATE TABLE t (cols)` succeeds only for a non-empty list of distinct names. */
  function CreateTableError(cols: seq<string>): (r: Option<Error>)
    ensures r.None? <==> cols != [] && Distinct(cols)
    ensures cols == [] ==> r == Some(SyntaxError)
    ensures cols != [] && r.Some? ==> r == Some(DuplicateColumn(FirstRepeat(cols).value))
  {
    if cols == [] then Some(SyntaxError)
    else if !Distinct(cols) then Some(DuplicateColumn(FirstRepeat(cols).value))
    else None
  }

  /**
   * The column SQLite names in a no-such-column error of `SELECT picked FROM
   * ...`: the first picked name the table does not have.
   */
  function FirstMissing(picked: seq<string>, cols: seq<string>): (r: Option<string>)
    ensures r.None? <==> AllIn(picked, cols)
    ensures r.Some? ==> exists m :: 0 <= m < |picked| && r.value == picked[m] && picked[m] !in cols && AllIn(picked[..m], cols)
  {
    if picked == [] then None
    else if picked[0] !in cols then
      assert AllIn(picked[..0], cols);
      Some(picked[0])
    else
      var r := FirstMissing(picked[1..], cols);
      assert forall m :: 0 < m < |picked| ==> picked[m] == picked[1..][m - 1];
      if r.Some? then
        var m :| 0 <= m < |picked| - 1 && r.value == picked[1..][m] && picked[1..][m] !in cols && AllIn(picked[1..][..m], cols);
        assert AllIn(picked[..m + 1], cols);
        r
      else r
  }

  /** The text `CREATE TABLE ${name} (${cols})` that `sqlite_master` keeps for the recreated table. */
  function CreateTableSql(name: string, cols: seq<string>): string
  {
    "CREATE TABLE " + name + " (" + Join(cols, ",") + ")"
  }

  /** `ALTER TABLE a RENAME TO b` of a user table: same place in `sqlite_master`, same columns and rows. */
  function RenameTable(s: DbState, a: string, b: string): DbState
    requires a in s.schema && a in s.data
  {
    s.(master := Rename(s.master, a, b),
       schema := (s.schema - {a})[b := s.schema[a]],
       data := (s.data - {a})[b := s.data[a]])
  }

  /** `CREATE TABLE name (cols)` of a user table: listed last, no rows. */
  function CreateUserTable(s: DbState, name: string, cols: seq<string>): DbState
  {
    s.(master := s.master + [name], schema := s.schema[name := cols], data := s.data[name := []])
  }

  /** The rows of user table `name` replaced. */
  function SetRows(s: DbState, name: string, rows: seq<seq<Value>>): DbState
  {
    s.(data := s.data[name := rows])
  }

  /** `DROP TABLE name`. */
  function DropTable(s: DbState, name: string): DbState
  {
    s.(master := Without(s.master, name), schema := s.schema - {name}, data := s.data - {name})
  }

  /**
   * `changeColumnName`: BEGIN, move the table aside, then `Recreate` it. The
   * first statement that fails stops the script; what ran before it stays, and
   * so does the open transaction.
   */
  function ColumnRenamed(s: DbState, table: TableDesc, colIndex: int, newName: string, skipCommit: bool): Step
    requires ValidState(s) && !IsCatalogTable(table.name)
  {
    var t := table.name;
    if s.inTransaction then Step(s, Some(NestedTransaction))
    else if t !in s.schema then Step(s.(inTransaction := true), Some(NoSuchTable(t)))
    else if TempTable in s.schema then Step(s.(inTransaction := true), Some(AlreadyExists(TempTable)))
    else Recreate(RenameTable(s.(inTransaction := true), t, TempTable), t, NonFormulaNames(table.columns), colIndex, newName, skipCommit)
  }

  /**
   * The rest of `changeColumnName`, once the table sits under `_old_table`:
   * create it again with the name at `colIndex` replaced, copy the rows
   * column by column, drop `_old_table`, rename the catalog row at position
   * `colIndex`, and COMMIT unless `skipCommit`.
   */
  function Recreate(moved: DbState, t: string, oldCols: seq<string>, colIndex: int, newName: string, skipCommit: bool): Step
    requires TempTable in moved.schema && TempTable in moved.data
    requires RowsFit(moved.data[TempTable], |moved.schema[TempTable]|)
  {
    var newCols := ReplaceAt(oldCols, colIndex, newName);
    var physical := moved.schema[TempTable];
    if CreateTableError(newCols).Some? then Step(moved, CreateTableError(newCols))
    else if !AllIn(oldCols, physical) then Step(CreateUserTable(moved, t, newCols), Some(NoSuchColumn(FirstMissing(oldCols, physical).value)))
    else
      var copied := DropTable(SetRows(CreateUserTable(moved, t, newCols), t, CopyRows(moved.data[TempTable], physical, oldCols)), TempTable);
      if ColumnTable !in moved.schema then Step(copied, Some(NoSuchTable(ColumnTable)))
      else Step(copied.(columnRows := RenameRows(moved.columnRows, t, colIndex, newName),
                        inTransaction := skipCommit && moved.inTransaction), None)
  }

  lemma RenameValid(master: seq<string>, a: string, b: string)
    requires Distinct(master) && a in master && b !in master
    ensures Distinct(Rename(master, a, b))
    ensures forall n :: n in Rename(master, a, b) <==> (n in master && n != a) || n == b
  {
    var r := Rename(master, a, b);
    forall n | (n in master && n != a) || n == b
      ensures n in r
    {
      if n == b {
        var i :| 0 <= i < |master| && master[i] == a;
        assert r[i] == b;
      } else {
        var i :| 0 <= i < |master| && master[i] == n;
        assert r[i] == n;
      }
    }
  }

  lemma WithoutDistinct(master: seq<string>, name: string)
    requires Distinct(master)
    ensures Distinct(Without(master, name))
    decreases |master|
  {
    if master != [] {
      var init := master[..|master| - 1];
      assert Distinct(init);
      WithoutDistinct(init, name);
      var last := master[|master| - 1];
      assert last !in init;
    }
  }

  lemma CreateTableValid(s: DbState, name: string)
    requires ValidState(s) && IsCatalogTable(name)
    ensures ValidState(CreateTable(s, name, CatalogColumns(name)))
  {
  }

  lemma RenameTableValid(s: DbState, a: string, b: string)
    requires ValidState(s) && a in s.schema && !IsCatalogTable(a)
    requires b !in s.schema && !IsCatalogTable(b)
    ensures ValidState(RenameTable(s, a, b))
  {
    RenameValid(s.master, a, b);
  }

  lemma CreateUserTableValid(s: DbState, name: string, cols: seq<string>)
    requires ValidState(s) && name !in s.schema && !IsCatalogTable(name)
    ensures ValidState(CreateUserTable(s, name, cols))
  {
  }

  lemma SetRowsValid(s: DbState, name: string, rows: seq<seq<Value>>)
    requires ValidState(s) && name in s.data && RowsFit(rows, |s.schema[name]|)
    ensures ValidState(SetRows(s, name, rows))
  {
  }

  lemma DropTableValid(s: DbState, name: string)
    requires ValidState(s) && !IsCatalogTable(name)
    ensures ValidState(DropTable(s, name))
  {
    WithoutDistinct(s.master, name);
  }

  lemma AlterAddValid(s: DbState, t: string, c: string)
    requires ValidState(s) && t in s.schema && !IsCatalogTable(t)
    ensures ValidState(AlterAdd(s, t, c))
  {
  }

  /** `addColumn` keeps the database consistent: the new column gets a NULL in every row. */
  lemma ColumnAddedValid(s: DbState, t: string, c: string)
    requires ValidState(s) && !IsCatalogTable(t)
    ensures ValidState(ColumnAdded(s, t, c).state)
  {
    if t in s.schema && c !in s.schema[t] {
      AlterAddValid(s, t, c);
      var r := ColumnAdded(s, t, c).state;
      if ColumnTable in s.schema {
        assert r == AlterAdd(s, t, c).(columnRows := s.columnRows + [ColumnRow(t, c, NextPosition(s.columnRows, t), None, None, None)]);
        RowsValid(AlterAdd(s, t, c), r);
      }
    }
  }

  /** `changeColumnName` keeps the database consistent, whichever statement fails. */
  lemma ColumnRenamedValid(s: DbState, table: TableDesc, colIndex: int, newName: string, skipCommit: bool)
    requires ValidState(s) && !IsCatalogTable(table.name)
    ensures ValidState(ColumnRenamed(s, table, colIndex, newName, skipCommit).state)
  {
    var t := table.name;
    if s.inTransaction || t !in s.schema || TempTable in s.schema {
      RowsValid(s, ColumnRenamed(s, table, colIndex, newName, skipCommit).state);
    } else {
      RowsValid(s, s.(inTransaction := true));
      RenameTableValid(s.(inTransaction := true), t, TempTable);
      RecreateValid(RenameTable(s.(inTransaction := true), t, TempTable), t, NonFormulaNames(table.columns), colIndex, newName, skipCommit);
    }
  }

  lemma RecreateValid(moved: DbState, t: string, oldCols: seq<string>, colIndex: int, newName: string, skipCommit: bool)
    requires ValidState(moved) && TempTable in moved.schema && t !in moved.schema && !IsCatalogTable(t)
    ensures ValidState(Recreate(moved, t, oldCols, colIndex, newName, skipCommit).state)
  {
    var r := Recreate(moved, t, oldCols, colIndex, newName, skipCommit);
    var newCols := ReplaceAt(oldCols, colIndex, newName);
    if CreateTableError(newCols).Some? {
      assert r.state == moved;
    } else {
      var created := CreateUserTable(moved, t, newCols);
      CreateUserTableValid(moved, t, newCols);
      if !AllIn(oldCols, moved.schema[TempTable]) {
        assert r.state == created;
      } else {
        var rows := CopyRows(moved.data[TempTable], moved.schema[TempTable], oldCols);
        var copied := DropTable(SetRows(created, t, rows), TempTable);
        SetRowsValid(created, t, rows);
        DropTableValid(SetRows(created, t, rows), TempTable);
        if ColumnTable in moved.schema {
          assert r.state == copied.(columnRows := RenameRows(moved.columnRows, t, colIndex, newName),
                                    inTransaction := skipCommit && moved.inTransaction);
          RowsValid(copied, r.state);
        } else {
          assert r.state == copied;
        }
      }
    }
  }

  // ---------------------------------------------------------------------------
  // updateDocument

  /** The `table_name` column of `litespread_table`. */
  function TableNames(rows: seq<TableRow>): (r: seq<string>)
    ensures |r| == |rows| && forall i :: 0 <= i < |rows| ==> r[i] == rows[i].tableName
  {
    seq(|rows|, i requires 0 <= i < |rows| => rows[i].tableName)
  }

  /** `tables.map(t => getTableDesc(db, t))`. */
  function DescribeAll(s: DbState, names: seq<string>): (r: seq<TableDesc>)
    requires ColumnTable in s.schema
    ensures |r| == |names| && forall i :: 0 <= i < |names| ==> Ok(r[i]) == Describe(s, names[i])
  {
    seq(|names|, i requires 0 <= i < |names| => Describe(s, names[i]).value)
  }

  /**
   * The `forEach` of `updateDocument`: the raw then the formatted script of
   * every table, in order; the first error stops it and what ran stays.
   */
  function CompileAll(views: map<string, string>, tables: set<string>, descs: seq<TableDesc>): Outcome
    decreases |descs|
  {
    if descs == [] then Outcome(views, None)
    else
      var raw := RunScript(views, tables, RawScript(descs[0]));
      if raw.error.Some? then raw
      else
        match FormattedScript(descs[0])
        case Err(e) => Outcome(raw.views, Some(e))
        case Ok(script) =>
          var formatted := RunScript(raw.views, tables, script);
          if formatted.error.Some? then formatted
          else CompileAll(formatted.views, tables, descs[1..])
  }

  /** `updateDocument`. */
  function Update(s: DbState): Step
  {
    if TableTable !in s.schema then Step(s, Some(NoSuchTable(TableTable)))
    // `db.exec(...)[0]` is undefined when the query returns no row: a TypeError
    else if s.tableRows == [] then Step(s, Some(NoRegisteredTables))
    else if ColumnTable !in s.schema then Step(s, Some(NoSuchTable(ColumnTable)))
    else
      var o := CompileAll(s.views, s.schema.Keys, DescribeAll(s, TableNames(s.tableRows)));
      Step(s.(views := o.views), o.error)
  }

  // ---------------------------------------------------------------------------
  // The database object

  class Database {
    var master: seq<string>
    var schema: map<string, seq<string>>
    var data: map<string, seq<seq<Value>>>
    var documentRows: seq<DocumentRow>
    var tableRows: seq<TableRow>
    var columnRows: seq<ColumnRow>
    var views: map<string, string>
    var inTransaction: bool

    function State(): DbState
      reads this
    {
      DbState(master, schema, data, documentRows, tableRows, columnRows, views, inTransaction)
    }

    ghost predicate Valid()
      reads this
    {
      ValidState(State())
    }

    /** Every field but the catalog rows of `litespread_column` is as in `p`. */
    predicate OnlyColumnRowsDiffer(p: DbState)
      reads this
    {
      master == p.master && schema == p.schema && data == p.data && documentRows == p.documentRows &&
      tableRows == p.tableRows && views == p.views && inTransaction == p.inTransaction
    }

    /** Opens a database in the given state. */
    constructor Open(s: DbState)
      requires ValidState(s)
      ensures Valid() && State() == s
    {
      master, schema, data := s.master, s.schema, s.data;
      documentRows, tableRows, columnRows := s.documentRows, s.tableRows, s.columnRows;
      views, inTransaction := s.views, s.inTransaction;
    }

    method CreateTableIfNotExists(name: string, cols: seq<string>)
      modifies this
      ensures State() == CreateTable(old(State()), name, cols)
    {
      if name !in schema {
        master := master + [name];
        schema := schema[name := cols];
      }
    }

    /** `importDocument`: bootstraps the catalog. */
    method ImportDocument()
      requires Valid()
      modifies this
      ensures Valid()
      ensures State() == Import(old(State()))
    {
      ghost var s := State();
      CreateTableIfNotExists(DocumentTable, DocumentColumns);
      documentRows := documentRows + [DocumentRow(ApiVersion, None, None, None)];
      CreateTableIfNotExists(TableTable, TableColumns);
      tableRows := tableRows + Register(master);
      CreateTableIfNotExists(ColumnTable, ColumnColumns);
      assert State() == Prepared(s);
      InsertColumnRows();
      ImportValid(s);
    }

    /** The outer `db.each` of `importDocument`: every row of `litespread_table`, in order. */
    method InsertColumnRows()
      modifies this
      ensures OnlyColumnRowsDiffer(old(State()))
      ensures columnRows == old(columnRows) + ImportedRows(tableRows, schema)
    {
      ghost var p := State();
      var i := 0;
      while i < |tableRows|
        invariant 0 <= i <= |p.tableRows|
        invariant OnlyColumnRowsDiffer(p)
        invariant columnRows == p.columnRows + ImportedRows(p.tableRows[..i], p.schema)
      {
        var t := tableRows[i].tableName;
        InsertTableColumns(t, TableInfo(schema, t));
        ImportedRowsStep(p.columnRows, p.tableRows, i, p.schema);
        i := i + 1;
      }
      assert p.tableRows[..i] == p.tableRows;
    }

    /** The inner `db.each` of `importDocument`: one catalog row per column of `PRAGMA table_info(t)`, at its `cid`. */
    method InsertTableColumns(t: string, info: seq<string>)
      modifies this
      ensures OnlyColumnRowsDiffer(old(State()))
      ensures columnRows == old(columnRows) + PragmaRows(t, info)
    {
      ghost var outer := columnRows;
      var cid := 0;
      while cid < |info|
        invariant 0 <= cid <= |info|
        invariant OnlyColumnRowsDiffer(old(State()))
        invariant columnRows == outer + PragmaRows(t, info[..cid])
      {
        PragmaRowsStep(outer, t, info, cid);
        columnRows := columnRows + [ColumnRow(t, info[cid], Some(cid), None, None, None)];
        cid := cid + 1;
      }
      assert info[..cid] == info;
    }

    /** `getTableDesc`: collects the catalog rows of table `t`. */
    method GetTableDesc(t: string) returns (r: Result<TableDesc, Error>)
      ensures r == Describe(State(), t)
    {
      if ColumnTable !in schema {
        return Err(NoSuchTable(ColumnTable));
      }
      var columns: seq<Column> := [];
      var i := 0;
      while i < |columnRows|
        invariant 0 <= i <= |columnRows|
        invariant columns == ToColumns(RowsOf(columnRows[..i], t))
      {
        if columnRows[i].tableName == t {
          columns := columns + [ToColumn(columnRows[i])];
        }
        assert columnRows[..i + 1][..i] == columnRows[..i];
        i := i + 1;
      }
      assert columnRows[..i] == columnRows;
      r := Ok(TableDesc(t, columns, None));
    }

    /** `addColumn`. */
    method AddColumn(t: string, c: string) returns (error: Option<Error>)
      requires Valid() && !IsCatalogTable(t)
      modifies this
      ensures Valid()
      ensures Step(State(), error) == ColumnAdded(old(State()), t, c)
    {
      ghost var s := State();
      ColumnAddedValid(s, t, c);
      // ALTER TABLE t ADD COLUMN 'c'
      if t !in schema {
        return Some(NoSuchTable(t));
      }
      if c in schema[t] {
        return Some(DuplicateColumn(c));
      }
      var position := NextPosition(columnRows, t);
      AlterAddColumn(t, c);
      // INSERT INTO litespread_column ... (SELECT max(position) + 1 ...)
      if ColumnTable !in schema {
        return Some(NoSuchTable(ColumnTable));
      }
      columnRows := columnRows + [ColumnRow(t, c, position, None, None, None)];
      error := None;
    }

    /** `ALTER TABLE t ADD COLUMN c`. */
    method AlterAddColumn(t: string, c: string)
      requires t in schema && t in data
      modifies this
      ensures State() == AlterAdd(old(State()), t, c)
    {
      schema, data := schema[t := schema[t] + [c]], data[t := AppendNull(data[t])];
    }

    /** `changeColumnName`. */
    method ChangeColumnName(table: TableDesc, colIndex: int, newName: string, skipCommit: bool) returns (error: Option<Error>)
      requires Valid() && !IsCatalogTable(table.name)
      modifies this
      ensures Valid()
      ensures Step(State(), error) == ColumnRenamed(old(State()), table, colIndex, newName, skipCommit)
    {
      ghost var s := State();
      ColumnRenamedValid(s, table, colIndex, newName, skipCommit);
      var t := table.name;
      // BEGIN
      if inTransaction {
        return Some(NestedTransaction);
      }
      inTransaction := true;
      // ALTER TABLE t RENAME TO _old_table
      if t !in schema {
        return Some(NoSuchTable(t));
      }
      if TempTable in schema {
        return Some(AlreadyExists(TempTable));
      }
      RowsValid(s, State());
      RenameTableValid(State(), t, TempTable);
      RenameTo(t, TempTable);
      error := RecreateFromOld(t, NonFormulaNames(table.columns), colIndex, newName, skipCommit);
    }

    /** `ALTER TABLE a RENAME TO b`. */
    method RenameTo(a: string, b: string)
      requires a in schema && a in data
      modifies this
      ensures State() == RenameTable(old(State()), a, b)
    {
      master, schema, data := Rename(master, a, b), (schema - {a})[b := schema[a]], (data - {a})[b := data[a]];
    }

    /** The statements of `changeColumnName` after the ALTER TABLE, reading from `_old_table`. */
    method RecreateFromOld(t: string, oldCols: seq<string>, colIndex: int, newName: string, skipCommit: bool)
      returns (error: Option<Error>)
      requires TempTable in schema && TempTable in data && RowsFit(data[TempTable], |schema[TempTable]|)
      requires !IsCatalogTable(t)
      modifies this
      ensures Step(State(), error) == Recreate(old(State()), t, oldCols, colIndex, newName, skipCommit)
    {
      ghost var moved := State();
      var newCols := ReplaceAt(oldCols, colIndex, newName);
      var physical, rows := schema[TempTable], data[TempTable];
      // CREATE TABLE t (newCols)
      error := CreateTableError(newCols);
      if error.Some? {
        return;
      }
      master, schema, data := master + [t], schema[t := newCols], data[t := []];
      // INSERT INTO t SELECT oldCols FROM _old_table
      if !AllIn(oldCols, physical) {
        return Some(NoSuchColumn(FirstMissing(oldCols, physical).value));
      }
      data := data[t := CopyRows(rows, physical, oldCols)];
      // DROP TABLE _old_table
      master, schema, data := Without(master, TempTable), schema - {TempTable}, data - {TempTable};
      // UPDATE litespread_column SET name = newName WHERE table_name = t AND position = colIndex
      if ColumnTable !in schema {
        return Some(NoSuchTable(ColumnTable));
      }
      columnRows := RenameRows(columnRows, t, colIndex, newName);
      // COMMIT
      if !skipCommit {
        inTransaction := false;
      }
    }

    /** `updateDocument`: regenerates both views of every registered table. */
    method UpdateDocument() returns (error: Option<Error>)
      requires Valid()
      modifies this
      ensures Valid()
      ensures Step(State(), error) == Update(old(State()))
    {
      // SELECT table_name FROM litespread_table
      if TableTable !in schema {
        return Some(NoSuchTable(TableTable));
      }
      if tableRows == [] {
        return Some(NoRegisteredTables);
      }
      var names := TableNames(tableRows);
      // tables.map(t => getTableDesc(db, t))
      var descs, failed := DescribeTables(names);
      if failed.Some? {
        return failed;
      }
      assert descs == DescribeAll(State(), names);
      // tables.forEach(...)
      error := CompileViews(schema.Keys, descs);
    }

    /** `tables.map(t => getTableDesc(db, t))`: the first failure is thrown. */
    method DescribeTables(names: seq<string>) returns (descs: seq<TableDesc>, error: Option<Error>)
      ensures error.None? <==> names == [] || ColumnTable in schema
      ensures error.Some? ==> error == Some(NoSuchTable(ColumnTable))
      ensures error.None? ==> |descs| == |names| && forall j :: 0 <= j < |names| ==> Ok(descs[j]) == Describe(State(), names[j])
    {
      descs := [];
      var i := 0;
      while i < |names|
        invariant 0 <= i <= |names|
        invariant i > 0 ==> ColumnTable in schema
        invariant |descs| == i && forall j :: 0 <= j < i ==> Ok(descs[j]) == Describe(State(), names[j])
      {
        var d := GetTableDesc(names[i]);
        if d.Err? {
          return descs, Some(d.error);
        }
        descs := descs + [d.value];
        i := i + 1;
      }
      return descs, None;
    }

    /** The `forEach` of `updateDocument`: the raw then the formatted view of each table. */
    method CompileViews(tables: set<string>, descs: seq<TableDesc>) returns (error: Option<Error>)
      modifies this
      ensures State() == old(State()).(views := views)
      ensures Outcome(views, error) == CompileAll(old(views), tables, descs)
    {
      var k := 0;
      while k < |descs|
        invariant 0 <= k <= |descs|
        invariant State() == old(State()).(views := views)
        invariant CompileAll(old(views), tables, descs) == CompileAll(views, tables, descs[k..])
      {
        assert descs[k..][1..] == descs[k + 1..];
        var raw := RunScript(views, tables, RawScript(descs[k]));
        views := raw.views;
        if raw.error.Some? {
          return raw.error;
        }
        var script := FormattedScript(descs[k]);
        if script.Err? {
          return Some(script.error);
        }
        var formatted := RunScript(views, tables, script.value);
        views := formatted.views;
        if formatted.error.Some? {
          return formatted.error;
        }
        k := k + 1;
      }
      return None;
    }
  }

  /** The catalog rows and the views play no part in the consistency of a database. */
  lemma RowsValid(s: DbState, t: DbState)
    requires ValidState(s)
    requires t.master == s.master && t.schema == s.schema && t.data == s.data
    ensures ValidState(t)
  {
  }

  lemma ImportValid(s: DbState)
    requires ValidState(s)
    ensures ValidState(Import(s))
  {
    var s1 := CreateTable(s, DocumentTable, DocumentColumns);
    CreateTableValid(s, DocumentTable);
    var s2 := s1.(documentRows := s1.documentRows + [DocumentRow(ApiVersion, None, None, None)]);
    RowsValid(s1, s2);
    var s3 := CreateTable(s2, TableTable, TableColumns);
    CreateTableValid(s2, TableTable);
    var s4 := s3.(tableRows := s3.tableRows + Register(s3.master));
    RowsValid(s3, s4);
    var p := CreateTable(s4, ColumnTable, ColumnColumns);
    CreateTableValid(s4, ColumnTable);
    assert p == Prepared(s);
    RowsValid(p, Import(s));
  }
}
