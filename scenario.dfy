/**
 * The behaviour the test suite of the catalog layer checks, on its test
 * database (one table `employee (name, department_id)`), derived from the
 * general lemmas; and the general fact behind its `updateDocument` test:
 * right after `importDocument`, `updateDocument` succeeds.
 */
module Scenarios {
  import opened Wrappers
  import opened Views
  import opened Catalog
  import opened CatalogProperties
  import opened UpdateProperties
  import opened EditProperties

  /** No table name is the raw or formatted view name of another. */
  predicate NoViewClash(tables: set<string>)
  {
    forall t, u :: t in tables && u in tables ==> u != RawViewName(t) && u != FormattedViewName(t)
  }

  lemma NoClashMember(tables: set<string>, t: string)
    requires NoViewClash(tables) && t in tables
    ensures RawViewName(t) !in tables && FormattedViewName(t) !in tables
  {
  }

  /** The names `importDocument` registers on a plain database. */
  function RegisteredNames(s: DbState): seq<string>
  {
    s.master + [DocumentTable, TableTable]
  }

  /** `importDocument` adds the three catalog tables to the tables there were. */
  lemma ImportSchema(s: DbState)
    requires Plain(s)
    ensures Import(s).schema.Keys == s.schema.Keys + {DocumentTable, TableTable, ColumnTable}
    ensures Import(s).schema[DocumentTable] == DocumentColumns && Import(s).schema[TableTable] == TableColumns
  {
    var s1 := CreateTable(s, DocumentTable, DocumentColumns);
    var s2 := s1.(documentRows := s1.documentRows + [DocumentRow(ApiVersion, None, None, None)]);
    var s3 := CreateTable(s2, TableTable, TableColumns);
    var s4 := s3.(tableRows := s3.tableRows + Register(s3.master));
    assert Import(s).schema == s4.schema[ColumnTable := ColumnColumns];
  }

  /** Every table registered by `importDocument` gets the rows of its `PRAGMA table_info`. */
  lemma ImportRowsOfRegistered(s: DbState, k: nat)
    requires ValidState(s) && Plain(s) && k < |RegisteredNames(s)|
    ensures var t := RegisteredNames(s)[k];
      t in Import(s).schema &&
      RowsOf(Import(s).columnRows, t) == PragmaRows(t, Import(s).schema[t])
  {
    PreparedPlain(s);
    PlainNamesDistinct(s);
    ImportSchema(s);
    var p := Prepared(s);
    var names := RegisteredNames(s);
    var t := names[k];
    RowsOfImportedOnce(p.tableRows, p.schema, t, k);
    if k < |s.master| {
      assert t in s.schema;
    }
    assert TableInfo(p.schema, t) == Import(s).schema[t];
    var rows := ImportedRows(p.tableRows, p.schema);
    AppendEmpty(rows);
    assert Import(s).columnRows == rows;
  }

  /** The descriptor of a table whose catalog rows come from its `PRAGMA table_info`. */
  lemma PragmaDescCompilable(t: string, cols: seq<string>, tables: set<string>)
    requires cols != [] && RawViewName(t) !in tables && FormattedViewName(t) !in tables
    ensures Compilable(TableDesc(t, ToColumns(PragmaRows(t, cols)), None), tables)
  {
    var columns := ToColumns(PragmaRows(t, cols));
    forall i | 0 <= i < |columns|
      ensures SummaryOf(columns[i]).Some?
    {
      assert columns[i].summary == None;
    }
  }

  /**
   * A table whose catalog rows are exactly its `PRAGMA table_info` rows has a
   * descriptor both view scripts accept, when it has a column and its view
   * names are free.
   */
  lemma PragmaTableCompilable(i: DbState, t: string)
    requires ColumnTable in i.schema && t in i.schema && i.schema[t] != []
    requires RowsOf(i.columnRows, t) == PragmaRows(t, i.schema[t])
    requires NoViewClash(i.schema.Keys)
    ensures Describe(i, t).Ok? && Compilable(Describe(i, t).value, i.schema.Keys)
  {
    NoClashMember(i.schema.Keys, t);
    PragmaDescCompilable(t, i.schema[t], i.schema.Keys);
  }

  /** The descriptor `updateDocument` reads for a registered table, right after `importDocument`. */
  lemma RegisteredCompilable(s: DbState, k: nat)
    requires ValidState(s) && Plain(s) && k < |RegisteredNames(s)|
    requires forall t :: t in s.schema ==> s.schema[t] != []
    requires NoViewClash(s.schema.Keys + {DocumentTable, TableTable, ColumnTable})
    ensures ColumnTable in Import(s).schema
    ensures Describe(Import(s), RegisteredNames(s)[k]).Ok?
    ensures Compilable(Describe(Import(s), RegisteredNames(s)[k]).value, Import(s).schema.Keys)
  {
    var t := RegisteredNames(s)[k];
    var i := Import(s);
    ImportRowsOfRegistered(s, k);
    ImportSchema(s);
    if k < |s.master| {
      assert t in s.schema;
      ImportKeepsUserTables(s, t);
    } else {
      assert i.schema[t] == DocumentColumns || i.schema[t] == TableColumns;
    }
    PragmaTableCompilable(i, t);
  }

  /**
   * Right after `importDocument` on a plain database whose tables all have a
   * column and whose names do not clash with view names, `updateDocument`
   * succeeds and defines both views of every table, the catalog tables
   * `litespread_document` and `litespread_table` included.
   */
  lemma ImportThenUpdate(s: DbState)
    requires ValidState(s) && Plain(s)
    requires forall t :: t in s.schema ==> s.schema[t] != []
    requires NoViewClash(s.schema.Keys + {DocumentTable, TableTable, ColumnTable})
    ensures Update(Import(s)).error.None?
    ensures forall t :: t in RegisteredNames(s) ==>
      RawViewName(t) in Update(Import(s)).state.views && FormattedViewName(t) in Update(Import(s)).state.views
  {
    var i := Import(s);
    ImportRegisters(s);
    ImportSchema(s);
    var names := TableNames(i.tableRows);
    assert names == RegisteredNames(s);
    var descs := DescribeAll(i, names);
    forall k | 0 <= k < |i.tableRows|
      ensures Compilable(descs[k], i.schema.Keys)
    {
      RegisteredCompilable(s, k);
    }
    UpdateOutcome(i);
  }

  // ---------------------------------------------------------------------------
  // The test database

  /** `CREATE TABLE employee (name text, department_id int)` on an empty database. */
  function Employee(): DbState
  {
    DbState(["employee"], map["employee" := ["name", "department_id"]], map["employee" := []],
            [], [], [], map[], false)
  }

  /** A plain database whose only table is `employee (name, department_id)`, whatever its rows. */
  predicate TestDatabase(s: DbState)
  {
    Plain(s) && s.master == ["employee"] && "employee" in s.schema &&
    s.schema["employee"] == ["name", "department_id"] && !s.inTransaction
  }

  lemma EmployeeReady()
    ensures ValidState(Employee()) && TestDatabase(Employee())
  {
  }

  lemma TestDatabaseKeys(s: DbState)
    requires ValidState(s) && TestDatabase(s)
    ensures s.schema.Keys == {"employee"}
    ensures NoViewClash(s.schema.Keys + {DocumentTable, TableTable, ColumnTable})
  {
  }

  /** The catalog rows of the first registered table come first. */
  lemma {:induction false} ImportedRowsFront(registered: seq<TableRow>, schema: map<string, seq<string>>)
    requires registered != []
    ensures ImportedRows(registered, schema) ==
      PragmaRows(registered[0].tableName, TableInfo(schema, registered[0].tableName)) + ImportedRows(registered[1..], schema)
    decreases |registered|
  {
    var first := PragmaRows(registered[0].tableName, TableInfo(schema, registered[0].tableName));
    if |registered| == 1 {
      assert registered[..0] == [];
      AppendEmpty(first);
    } else {
      var init := registered[..|registered| - 1];
      var last := registered[|registered| - 1];
      var own := PragmaRows(last.tableName, TableInfo(schema, last.tableName));
      assert init[0] == registered[0];
      assert registered[1..] == init[1..] + [last];
      calc {
        ImportedRows(registered, schema);
        ImportedRows(init, schema) + own;
        { ImportedRowsFront(init, schema); }
        (first + ImportedRows(init[1..], schema)) + own;
        { AppendAssoc(first, ImportedRows(init[1..], schema), own); }
        first + (ImportedRows(init[1..], schema) + own);
        { ImportedRowsSnoc(init[1..], last, schema); }
        first + ImportedRows(registered[1..], schema);
      }
    }
  }

  /**
   * The `importDocument` test: `employee` is the first registered table, and
   * the first two catalog rows are its columns at positions 0 and 1.
   */
  lemma EmployeeImport(s: DbState)
    requires ValidState(s) && TestDatabase(s)
    ensures |Import(s).tableRows| > 0 && Import(s).tableRows[0] == TableRow("employee", None)
    ensures |Import(s).columnRows| >= 2 && Import(s).columnRows[..2] ==
      [ColumnRow("employee", "name", Some(0), None, None, None),
       ColumnRow("employee", "department_id", Some(1), None, None, None)]
  {
    ImportRegisters(s);
    PreparedPlain(s);
    var p := Prepared(s);
    var reg := p.tableRows;
    assert reg[0] == TableRow("employee", None);
    ImportKeepsUserTables(s, "employee");
    ImportSchema(s);
    assert TableInfo(p.schema, "employee") == ["name", "department_id"];
    ImportedRowsFront(reg, p.schema);
    var own := PragmaRows("employee", ["name", "department_id"]);
    var rest := ImportedRows(reg[1..], p.schema);
    var rows := ImportedRows(reg, p.schema);
    assert rows == own + rest;
    EmployeePragma();
    assert (own + rest)[..|own|] == own;
    assert p.columnRows == [];
    AppendEmpty(rows);
    assert Import(s).columnRows == rows;
  }

  lemma EmployeePragma()
    ensures PragmaRows("employee", ["name", "department_id"]) ==
      [ColumnRow("employee", "name", Some(0), None, None, None),
       ColumnRow("employee", "department_id", Some(1), None, None, None)]
  {
  }

  /** What the tests rely on once `importDocument` has run on the test database. */
  ghost predicate ImportedTestDatabase(i: DbState)
  {
    Ready(i, "employee") && i.schema["employee"] == ["name", "department_id"]
  }

  lemma TestDatabaseImported(s: DbState)
    requires ValidState(s) && TestDatabase(s)
    ensures ImportedTestDatabase(Import(s))
  {
    var i := Import(s);
    ImportValid(s);
    ImportInSync(s, "employee");
    EmployeeColumnsDistinct();
    assert !i.inTransaction;
    ImportedKeys(s);
    ReadyOf(i, "employee");
  }

  lemma ImportedKeys(s: DbState)
    requires ValidState(s) && TestDatabase(s)
    ensures TempTable !in Import(s).schema && ColumnTable in Import(s).schema
  {
    ImportSchema(s);
    TestDatabaseKeys(s);
  }

  lemma ReadyOf(s: DbState, t: string)
    requires ValidState(s) && !IsCatalogTable(t) && InSync(s, t) && s.schema[t] != [] && Distinct(s.schema[t])
    requires !s.inTransaction && TempTable !in s.schema && ColumnTable in s.schema
    ensures Ready(s, t)
  {
  }

  lemma EmployeeColumnsDistinct()
    ensures Distinct(["name", "department_id"])
  {
    var cols := ["name", "department_id"];
    assert cols[0][0] != cols[1][0];
  }

  /** The `addColumn` test: ordered by position, the catalog names `name`, `department_id`, `employed_since`. */
  lemma EmployeeAddColumn(i: DbState)
    requires ImportedTestDatabase(i)
    ensures ColumnAdded(i, "employee", "employed_since").error.None?
    ensures var a := ColumnAdded(i, "employee", "employed_since").state;
      Ready(a, "employee") && a.schema["employee"] == ["name", "department_id", "employed_since"] &&
      Names(RowsOf(a.columnRows, "employee")) == ["name", "department_id", "employed_since"]
  {
    AddColumnReady(i, "employee", "employed_since");
  }

  /** After a rename to a fresh name, the new name sits at `colIndex` and nowhere else. */
  lemma ReplacedOnce(base: seq<string>, colIndex: int, newName: string)
    requires newName !in base && 0 <= colIndex < |base|
    ensures forall k :: 0 <= k < |base| ==> (ReplaceAt(base, colIndex, newName)[k] == newName <==> k == colIndex)
  {
  }

  lemma EmployeeNewNames(colIndex: int, newName: string)
    requires (colIndex == 0 && newName == "emp_name") || (colIndex == 1 && newName == "department")
    ensures Distinct(ReplaceAt(["name", "department_id"], colIndex, newName))
    ensures newName !in ["name", "department_id"]
  {
  }

  lemma JoinPair(a: string, b: string, sep: string)
    ensures Join([a, b], sep) == a + sep + b
  {
    assert [a, b][1..] == [b];
  }

  /** The `CREATE TABLE` text of `employee` after either rename of the `changeColumnName` test. */
  lemma RenamedSql(colIndex: int, newName: string)
    requires (colIndex == 0 && newName == "emp_name") || (colIndex == 1 && newName == "department")
    ensures CreateTableSql("employee", ReplaceAt(["name", "department_id"], colIndex, newName)) ==
      if colIndex == 0 then "CREATE TABLE employee (emp_name,department_id)" else "CREATE TABLE employee (name,department)"
  {
    var cols := ReplaceAt(["name", "department_id"], colIndex, newName);
    if colIndex == 0 {
      assert cols == ["emp_name", "department_id"];
      RenamedFirstSql();
    } else {
      assert cols == ["name", "department"];
      RenamedSecondSql();
    }
  }

  lemma RenamedFirstSql()
    ensures CreateTableSql("employee", ["emp_name", "department_id"]) == "CREATE TABLE employee (emp_name,department_id)"
  {
    JoinPair("emp_name", "department_id", ",");
  }

  lemma RenamedSecondSql()
    ensures CreateTableSql("employee", ["name", "department"]) == "CREATE TABLE employee (name,department)"
  {
    JoinPair("name", "department", ",");
  }

  /**
   * The `changeColumnName` test: on the descriptor `getTableDesc` returns,
   * renaming column `colIndex` recreates `employee` with the new name in
   * place, the catalog still agrees with it, and with `skipCommit` the
   * transaction is still open for the ROLLBACK.
   */
  lemma EmployeeRename(i: DbState, colIndex: int, newName: string)
    requires ImportedTestDatabase(i)
    requires (colIndex == 0 && newName == "emp_name") || (colIndex == 1 && newName == "department")
    ensures Describe(i, "employee").Ok?
    ensures var r := ColumnRenamed(i, Describe(i, "employee").value, colIndex, newName, true);
      r.error.None? && r.state.inTransaction &&
      "employee" in r.state.schema && r.state.schema["employee"] == ReplaceAt(["name", "department_id"], colIndex, newName) &&
      InSync(r.state, "employee")
  {
    EmployeeNewNames(colIndex, newName);
    RenameDescribed(i, "employee", colIndex, newName, true);
  }

  /**
   * The text the `changeColumnName` test reads back from `sqlite_master`:
   * `CREATE TABLE employee (emp_name,department_id)` after renaming column 0,
   * `CREATE TABLE employee (name,department)` after renaming column 1.
   */
  lemma EmployeeRenameSql(i: DbState, colIndex: int, newName: string)
    requires ImportedTestDatabase(i)
    requires (colIndex == 0 && newName == "emp_name") || (colIndex == 1 && newName == "department")
    ensures Describe(i, "employee").Ok?
    ensures var r := ColumnRenamed(i, Describe(i, "employee").value, colIndex, newName, true);
      "employee" in r.state.schema &&
      CreateTableSql("employee", r.state.schema["employee"]) ==
        if colIndex == 0 then "CREATE TABLE employee (emp_name,department_id)" else "CREATE TABLE employee (name,department)"
  {
    EmployeeRename(i, colIndex, newName);
    RenamedSql(colIndex, newName);
  }

  /** In the `changeColumnName` test exactly one catalog row of `employee` carries the new name. */
  lemma EmployeeRenameOneRow(i: DbState, colIndex: int, newName: string)
    requires ImportedTestDatabase(i)
    requires (colIndex == 0 && newName == "emp_name") || (colIndex == 1 && newName == "department")
    ensures Describe(i, "employee").Ok?
    ensures var rows := RowsOf(ColumnRenamed(i, Describe(i, "employee").value, colIndex, newName, true).state.columnRows, "employee");
      forall k :: 0 <= k < |rows| ==> (rows[k].name == newName <==> k == colIndex)
  {
    EmployeeRename(i, colIndex, newName);
    EmployeeNewNames(colIndex, newName);
    ReplacedOnce(["name", "department_id"], colIndex, newName);
  }

  lemma WorkStartDistinct()
    ensures Distinct(["name", "department_id", "work_start"])
  {
  }

  /**
   * The `rename new column` test: once `addColumn` has appended
   * `employed_since`, renaming the column at index 2 commits and leaves the
   * table and its catalog rows agreeing.
   */
  lemma EmployeeRenameNewColumn(a: DbState)
    requires Ready(a, "employee") && a.schema["employee"] == ["name", "department_id", "employed_since"]
    ensures Describe(a, "employee").Ok?
    ensures var r := ColumnRenamed(a, Describe(a, "employee").value, 2, "work_start", false);
      r.error.None? && !r.state.inTransaction &&
      "employee" in r.state.schema && r.state.schema["employee"] == ["name", "department_id", "work_start"] &&
      InSync(r.state, "employee")
  {
    assert ReplaceAt(a.schema["employee"], 2, "work_start") == ["name", "department_id", "work_start"];
    WorkStartDistinct();
    RenameDescribed(a, "employee", 2, "work_start", false);
  }

  /** The `updateDocument` test: right after `importDocument`, `updateDocument` succeeds. */
  lemma EmployeeUpdate(s: DbState)
    requires ValidState(s) && TestDatabase(s)
    ensures Update(Import(s)).error.None?
    ensures RawViewName("employee") in Update(Import(s)).state.views
    ensures FormattedViewName("employee") in Update(Import(s)).state.views
  {
    TestDatabaseKeys(s);
    ImportThenUpdate(s);
    assert "employee" in RegisteredNames(s);
  }
  /** The `addColumn` test ends with `updateDocument`, which succeeds on the widened table. */
  lemma EmployeeAddColumnUpdate(s: DbState)
    requires ValidState(s) && TestDatabase(s)
    ensures ValidState(Import(s)) && !IsCatalogTable("employee")
    ensures var a := ColumnAdded(Import(s), "employee", "employed_since");
      a.error.None? && Update(a.state).error.None?
  {
    var i := Import(s);
    EmployeeUpdate(s);
    UpdateOutcome(i);
    TestDatabaseImported(s);
    EmployeeAddColumn(i);
    AddColumnKeepsUpdatable(i, "employee", "employed_since");
    UpdateOutcome(ColumnAdded(i, "employee", "employed_since").state);
  }

  /**
   * The `rename new column` test: after `importDocument`, `addColumn` and
   * the committed rename of `employed_since` to `work_start`,
   * `updateDocument` succeeds.
   */
  lemma EmployeeRenameNewColumnUpdate(s: DbState)
    requires ValidState(s) && TestDatabase(s)
    ensures ValidState(Import(s)) && !IsCatalogTable("employee")
    ensures var a := ColumnAdded(Import(s), "employee", "employed_since").state;
      ValidState(a) && Describe(a, "employee").Ok? &&
      var r := ColumnRenamed(a, Describe(a, "employee").value, 2, "work_start", false);
      r.error.None? && Update(r.state).error.None?
  {
    var i := Import(s);
    EmployeeAddColumnUpdate(s);
    TestDatabaseImported(s);
    EmployeeAddColumn(i);
    var a := ColumnAdded(i, "employee", "employed_since").state;
    UpdateOutcome(a);
    EmployeeRenameNewColumn(a);
    var table := Describe(a, "employee").value;
    RenameKeepsUpdatable(a, table, 2, "work_start", false);
    UpdateOutcome(ColumnRenamed(a, table, 2, "work_start", false).state);
  }
}
