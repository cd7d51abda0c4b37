# litespread backend, modelled in Dafny

litespread keeps a spreadsheet-like metadata catalog on top of an SQLite
database and compiles it into SQL views. This project models:

- **The catalog engine.** `src/backend/litespread.js` provides `importDocument`, `getTableDesc`, `addColumn`,
  `changeColumnName` and `updateDocument`.
  - It runs over an abstract database: the tables of `sqlite_master` in creation order, their column names and
    rows, the rows of the catalog tables `litespread_document`, `litespread_table` and `litespread_column`, the
    views (name to CREATE text), and whether a transaction is open.
  - Each operation is a function from the old state to the new state plus the error it throws, statement by
    statement as its SQL runs. A statement that fails stops the script, and what ran before it stays.
  - The class `Catalog.Database` holds the state. Its methods (loops included) are proved to follow these
    functions.
- **The view builders.** `make_col`, `format_col`, `make_raw_view` and `make_formatted_view` are built as a small
  statement datatype. It renders to exactly the text of the template strings, whitespace included.
  - Running a script means its effect on the views: `DROP VIEW IF EXISTS` on a table's name fails; `CREATE VIEW` on a
    taken name or with an empty select list fails.
  - The closed formatter table holds `money` only. The closed summary table holds `undefined`, `sum` and `avg`.
- **The helpers.** `src/backend/litespread_helper.js` provides `Set.prototype.union` and `Set.prototype.difference`, over
  a class `JsSet` that holds a duplicate-free sequence in insertion order. It also provides `traverse`, and
  `findCols` over a JSON-like syntax tree given as input.
- **The column-type table.** `src/col-types.js` holds four declared records, completed in place by the nested
  defaults loop.

The model follows the code as it stands:

- `importDocument` registers every table of `sqlite_master`, the catalog tables `litespread_document` and
  `litespread_table` included. A second call also registers `litespread_column` and adds a second document row.
- `addColumn` on a table with no catalog row writes a NULL position, not 0.
- `changeColumnName` renames the catalog row whose `position` equals `colIndex`. `colIndex` indexes the non-formula
  list.
- Nothing excludes the generated views or renumbers positions.

Modules:
- `Wrappers`: `Option` and `Result`.
- `Views`: the builders and script semantics.
- `Catalog`: the state, the operation functions and the `Database` class.
- `CatalogProperties`: what the catalog operations promise.
- `UpdateProperties`: what `updateDocument` promises.
- `EditProperties`: `updateDocument` after `addColumn` and `changeColumnName`.
- `Scenarios`: the test suite's expectations on its `employee` database.
- `Helper`: sets, `traverse` and `findCols`.
- `ColTypes`: the column-type table.

## Model

| member | source | states |
|---|---|---|
| Views.LookupFormatter | src/backend/litespread.js:10-12 | a formatter exists exactly for the format `money` |
| Views.LookupSummary | src/backend/litespread.js:14-18 | a summary exists exactly for the keys `undefined`, `sum`, `avg`; "no summary" exactly for `undefined` |
| Views.MakeCol | src/backend/litespread.js:21-24 | the raw projection is `<formula> AS <name>` for a non-empty formula, otherwise `<name> AS <name>` |
| Views.MakeColRoundTrip | src/backend/litespread.js:21-24 | for an identifier name, splitting a raw projection at its last ` AS ` gives back the formula (or the name) and the column name |
| Views.FormatCol | src/backend/litespread.js:47-50 | the formatted projection wraps the expression in `printf("%.2f", …)` only for `money`; the expression is `select` or, when absent or empty, the column name; the alias is the column name |
| Views.FormatColRoundTrip | src/backend/litespread.js:47-50 | for an identifier name, a formatted projection splits back into its (possibly wrapped) expression and the column name |
| Views.ItemRoundTrip | src/backend/litespread.js:23 | `<expr> AS <alias>` with an identifier alias splits back into expression and alias |
| Views.MapMakeCol | src/backend/litespread.js:36 | definition: one raw projection per column; its meaning is stated by `MakeColRoundTrip` and `RawScriptRuns` |
| Views.MapFormatCol | src/backend/litespread.js:54 | definition: one formatted projection per column; its meaning is stated by `FormattedColumnsAligned` and `FormatColRoundTrip` |
| Views.SummaryItems | src/backend/litespread.js:55-63 | the footer list builds exactly when every column's summary is known; it then has one cell per column in order; otherwise the error is an unknown summary |
| Views.SummaryItemsFails | src/backend/litespread.js:55-60 | the error names the summary key of the first column whose summary is unknown; the thrown text is `Unknown summary: ` followed by that column's own summary |
| Views.SummaryText | src/backend/litespread.js:14-18 | the footer expression of a column is `NULL`, `sum(name)` or `avg(name)` as its summary key says |
| Views.RawScript | src/backend/litespread.js:27-43 | drop `<t>_raw`, then create it as one select of `make_col` over every column; `rowid` from the table, or `null AS rowid` from `from` when given |
| Views.RawScriptText | src/backend/litespread.js:39-43 | the exact text handed to `db.run` for the raw view |
| Views.FormattedScript | src/backend/litespread.js:53-70 | fails exactly when some summary is unknown; otherwise drop `<t>_formatted`, then create it as the formatted select over `<t>_raw` UNION ALL the summary select, both with `rowid` first |
| Views.FormattedScriptText | src/backend/litespread.js:64-72 | the exact text handed to `db.run` for the formatted view |
| Views.FormattedColumnsAligned | src/backend/litespread.js:53-54 | the formatted select has one projection per column, the i-th aliased to the i-th column |
| Views.SummaryRowAligned | src/backend/litespread.js:55-69 | the i-th footer cell is the i-th column's summary expression passed through `format_col` and aliased to that column |
| Views.DropThenCreate | src/backend/litespread.js:39-43 | drop-then-create replaces the view whatever views exist, unless its name is a table's or its select list is empty |
| Views.RawScriptRuns | src/backend/litespread.js:39-43 | with a column and a free name, the raw script succeeds and only `<t>_raw` changes |
| Catalog.Register | src/backend/litespread.js:104-107 | definition: one `litespread_table` row per table of `sqlite_master`, in order; its meaning is stated by `PreparedRegistersAll` and `ImportRegisters` |
| Catalog.PragmaRows | src/backend/litespread.js:123-126 | one catalog row per physical column, with `position` equal to its `cid` |
| Catalog.ToColumns | src/backend/litespread.js:151-156 | definition: one descriptor column per catalog row; its meaning is stated by `ImportPositions` and `NonFormulaOfDescribed` |
| Catalog.MaxPosition | src/backend/litespread.js:169-171 | SQL `max(position)`: NULL exactly when no row of the table has a position; otherwise attained by a row and an upper bound of all |
| Catalog.RepeatFrom | src/backend/litespread.js:137 | the first name at or after `j` that occurs earlier in the list, or none exactly when no such name exists |
| Catalog.DistinctByPrefix | src/backend/litespread.js:137 | a column list is distinct exactly when no name occurs among the names before it |
| Catalog.FirstRepeat | src/backend/litespread.js:137 | none exactly for a distinct list; otherwise the first name that repeats an earlier one, all names before it distinct |
| Catalog.CreateTableError | src/backend/litespread.js:137 | CREATE TABLE fails exactly on an empty or non-distinct list: a syntax error for the empty list, otherwise a duplicate-column error naming the first repeated name |
| Catalog.FirstMissing | src/backend/litespread.js:138-140 | none exactly when every picked name is a column; otherwise the first picked name that is not, all before it being columns |
| Catalog.AppendNull | src/backend/litespread.js:166 | definition: every existing row gets a NULL in the new column; stated through `Database.AlterAddColumn` and `ColumnAddedValid` |
| Catalog.ReplaceAt | src/backend/litespread.js:133 | definition: only index `colIndex` takes the new name; its meaning is stated by `RenameKeepsSync` and `ReplacedOnce` |
| Catalog.Rename | src/backend/litespread.js:136 | definition of ALTER TABLE RENAME on `sqlite_master`; its meaning is stated by `RenameValid` and `MovedState` |
| Catalog.Without | src/backend/litespread.js:141 | DROP TABLE removes exactly that name |
| Catalog.CopyRows | src/backend/litespread.js:138-140 | definition: column m of a new row is the old column named `oldCols[m]`; its meaning is stated by `CopyAllColumns` and `RenameKeepsSync` |
| Catalog.RenameRows | src/backend/litespread.js:143-145 | definition of the UPDATE; its meaning is stated by `RowsOfRenamed`, `RowsOfRenamedOther` and `RenamedNames` |
| Catalog.TableNames | src/backend/litespread.js:77-78 | definition: the `table_name` column of `litespread_table`; its meaning is stated by `UpdateOutcome` |
| Catalog.DescribeAll | src/backend/litespread.js:79 | definition: one `getTableDesc` per registered name; its meaning is stated by `UpdateOutcome` and `RegisteredCompilable` |
| Catalog.ImportValid | src/backend/litespread.js:89-128 | `importDocument` keeps the database consistent |
| Catalog.ColumnAddedValid | src/backend/litespread.js:164-174 | `addColumn` keeps the database consistent, whether or not it fails |
| Catalog.ColumnRenamedValid | src/backend/litespread.js:131-148 | `changeColumnName` keeps the database consistent, whichever statement fails |
| Catalog.Database.CreateTableIfNotExists | src/backend/litespread.js:90-96 | CREATE TABLE IF NOT EXISTS: appended to `sqlite_master` only when absent |
| Catalog.Database.ImportDocument | src/backend/litespread.js:89-128 | the new state is `importDocument` of the old one, and stays consistent |
| Catalog.Database.InsertColumnRows | src/backend/litespread.js:123-127 | the outer `db.each` appends the pragma rows of every registered table, in order, and changes nothing else |
| Catalog.Database.InsertTableColumns | src/backend/litespread.js:124-126 | the inner `db.each` appends one row per column at its `cid`, and changes nothing else |
| Catalog.Database.GetTableDesc | src/backend/litespread.js:151-162 | the descriptor collected by the loop is the table's catalog rows in storage order; it fails without `litespread_column` |
| Catalog.Database.AddColumn | src/backend/litespread.js:164-174 | the new state and error are those of `addColumn`; the database stays consistent |
| Catalog.Database.AlterAddColumn | src/backend/litespread.js:166 | the column goes last and every row gets a NULL |
| Catalog.Database.ChangeColumnName | src/backend/litespread.js:131-149 | the new state and error are those of `changeColumnName`; the database stays consistent |
| Catalog.Database.RenameTo | src/backend/litespread.js:136 | the state after ALTER TABLE RENAME |
| Catalog.Database.RecreateFromOld | src/backend/litespread.js:137-148 | the statements after the rename, from `_old_table`, stopping at the first failure |
| Catalog.Database.UpdateDocument | src/backend/litespread.js:76-86 | the new state and error are those of `updateDocument`; the database stays consistent |
| Catalog.Database.DescribeTables | src/backend/litespread.js:79 | the map over `getTableDesc` fails exactly when there is a name and no `litespread_column`; otherwise it returns one descriptor per name |
| Catalog.Database.CompileViews | src/backend/litespread.js:80-85 | only the views change, as the `forEach` of raw-then-formatted scripts says |
| CatalogProperties.RowsOfMembers | src/backend/litespread.js:153-156 | `getTableDesc` reads exactly the catalog rows whose `table_name` is the table |
| CatalogProperties.RowsOfAppend | src/backend/litespread.js:153-156 | reading one table's rows distributes over appended row lists |
| CatalogProperties.RowsOfImportedOnce | src/backend/litespread.js:123-127 | a table registered once gets exactly the rows of its own `PRAGMA table_info` |
| CatalogProperties.PreparedPlain | src/backend/litespread.js:90-118 | on a database without catalog: one document row; every table plus the two catalog tables registered; three tables appended |
| CatalogProperties.ImportRegisters | src/backend/litespread.js:97-107 | document row with API version 1; every table registered, `litespread_document` and `litespread_table` included, `litespread_column` not |
| CatalogProperties.PreparedRegistersAll | src/backend/litespread.js:104-107 | every table in `sqlite_master` when the script starts ends up registered |
| CatalogProperties.CreateTableKeepsMaster | src/backend/litespread.js:90-110 | CREATE TABLE only appends to `sqlite_master` and leaves `litespread_table` alone |
| CatalogProperties.ImportRowsOf | src/backend/litespread.js:119-127 | after import, a user table's catalog rows are its physical columns at positions 0..n-1 |
| CatalogProperties.ImportPositions | src/backend/litespread.js:119-127 | after import, `getTableDesc` lists the physical columns in order, the i-th at position i |
| CatalogProperties.ImportAddsDocumentRow | src/backend/litespread.js:97 | every call adds one document row with API version 1 |
| CatalogProperties.ImportCreatesCatalog | src/backend/litespread.js:90-118 | the three catalog tables exist afterwards |
| CatalogProperties.ImportTwice | src/backend/litespread.js:97-107 | importing twice adds two document rows and registers `litespread_column` |
| CatalogProperties.ImportKeepsUserTables | src/backend/litespread.js:89-128 | import leaves the columns of every user table alone |
| CatalogProperties.PragmaInSync | src/backend/litespread.js:124-126 | pragma rows are contiguous and name the columns in order |
| CatalogProperties.ImportInSync | src/backend/litespread.js:119-127 | after import on a database without catalog, the catalog agrees with every user table |
| CatalogProperties.NextPositionContiguous | src/backend/litespread.js:169-171 | over contiguous rows, `max(position)+1` is the number of rows, NULL without rows |
| CatalogProperties.MaxPositionContiguous | src/backend/litespread.js:169-171 | over contiguous rows, `max(position)` is the last index |
| CatalogProperties.ColumnAddedState | src/backend/litespread.js:165-172 | a successful `addColumn` appends the name to the table and one catalog row at `max(position)+1` |
| CatalogProperties.AddColumnAppends | src/backend/litespread.js:167-172 | the table's catalog rows gain exactly one row at the next position (NULL when it had none) and stay contiguous |
| CatalogProperties.AddColumnKeepsOtherRows | src/backend/litespread.js:167-172 | the catalog rows of every other table are unchanged |
| CatalogProperties.AddColumnSucceeds | src/backend/litespread.js:165-172 | `addColumn` succeeds exactly on an existing table without that column, once `litespread_column` exists |
| CatalogProperties.AddColumnNullPosition | src/backend/litespread.js:169 | on a table without catalog rows the new row's position is NULL |
| CatalogProperties.AddColumnKeepsSync | src/backend/litespread.js:164-174 | on a non-empty table the catalog keeps agreeing with the table, and distinct names stay distinct |
| CatalogProperties.AddColumnReady | src/backend/litespread.js:164-174 | a new name on a ready table succeeds, is appended, and leaves the table ready |
| CatalogProperties.MovedState | src/backend/litespread.js:135-136 | BEGIN and the rename to `_old_table`: same columns and rows under the new name, other tables untouched |
| CatalogProperties.RecreateState | src/backend/litespread.js:137-148 | success means the table is recreated with the replaced names, rows copied by name, `_old_table` dropped, the catalog row renamed, COMMIT unless `skipCommit` |
| CatalogProperties.ColumnRenamedState | src/backend/litespread.js:131-148 | a successful rename: new column list is the non-formula names with `colIndex` replaced, rows copied, catalog rows at `position = colIndex` renamed, transaction open iff `skipCommit` |
| CatalogProperties.ColumnRenamedTables | src/backend/litespread.js:136-141 | a successful rename keeps the set of tables |
| CatalogProperties.ColumnRenamedOthers | src/backend/litespread.js:131-148 | a successful rename leaves every other table's columns and rows alone |
| CatalogProperties.RecreateFailureKeepsTransaction | src/backend/litespread.js:137-147 | a failure after the rename leaves the transaction as it was |
| CatalogProperties.ColumnRenamedFailureKeepsTransaction | src/backend/litespread.js:134-147 | a failing rename leaves a transaction open; it fails at BEGIN exactly when one was already open |
| CatalogProperties.RenameSucceeds | src/backend/litespread.js:131-148 | success exactly outside a transaction, on an existing table, with `_old_table` free, the catalog present, valid new names and every old name physical |
| CatalogProperties.NonFormulaOfDescribed | src/backend/litespread.js:132 | a descriptor from `getTableDesc` has no formula, so the non-formula list is all its names |
| CatalogProperties.CopyAllColumns | src/backend/litespread.js:138-140 | selecting every column of a table with distinct names copies the rows unchanged |
| CatalogProperties.RowsOfRenamed | src/backend/litespread.js:143-145 | the UPDATE touches only the table's own catalog rows |
| CatalogProperties.RowsOfRenamedOther | src/backend/litespread.js:143-145 | the UPDATE leaves the catalog rows of every other table as they were |
| CatalogProperties.RenamedNames | src/backend/litespread.js:143-145 | on contiguous rows, renaming at `position = colIndex` renames the `colIndex`-th name |
| CatalogProperties.RenameKeepsSync | src/backend/litespread.js:131-148 | with the descriptor `getTableDesc` returns: the physical table gets the new name at `colIndex`, every row is kept, the catalog still agrees, transaction open iff `skipCommit` |
| CatalogProperties.RenameDescribed | src/backend/litespread.js:131-162 | on a ready table, renaming to distinct names always succeeds, with the outcome of `RenameKeepsSync` |
| UpdateProperties.Touched | src/backend/litespread.js:80-85 | the view names the `forEach` may write: the two of each descriptor |
| UpdateProperties.RawStep | src/backend/litespread.js:39-43 | the raw script fails exactly on a table named `<t>_raw` or no column; otherwise `<t>_raw` exists; nothing else changes |
| UpdateProperties.FormattedStep | src/backend/litespread.js:64-72 | the formatted script fails exactly on a table named `<t>_formatted`; otherwise that view exists; nothing else changes |
| UpdateProperties.CompileAllStep | src/backend/litespread.js:80-85 | the first table either stops the loop, touching only its two views, or is compilable and the loop continues with both views present |
| UpdateProperties.CompileAllSucceeds | src/backend/litespread.js:80-85 | the loop runs to the end exactly when every descriptor is compilable |
| UpdateProperties.CompileAllDefines | src/backend/litespread.js:80-85 | after a complete loop both views of every table exist, and so do the earlier views |
| UpdateProperties.CompileAllTouches | src/backend/litespread.js:80-85 | failing or not, no view outside the descriptors' two names changes |
| UpdateProperties.RawIsNotFormatted | src/backend/litespread.js:40-65 | the raw and formatted view names of a table differ |
| UpdateProperties.UnknownSummaryLeavesStaleView | src/backend/litespread.js:55-83 | an unknown summary throws after the raw view is created; the formatted view keeps its old definition or stays missing |
| UpdateProperties.UpdateOutcome | src/backend/litespread.js:76-86 | `updateDocument` succeeds exactly on an updatable database: the catalog exists, some table is registered and every descriptor is compilable; it then defines both views of every table and changes only views |
| UpdateProperties.UpdateWithoutTables | src/backend/litespread.js:77-78 | with no registered table, `[0]` is undefined and the call throws, changing nothing |
| EditProperties.UpdatableTransfer | src/backend/litespread.js:76-86 | a change that keeps `litespread_table` and the set of tables, and gives no table fewer catalog rows or an unknown summary, keeps `updateDocument` succeeding |
| EditProperties.AddColumnKeepsUpdatable | src/backend/litespread.js:164-174 | after a successful `addColumn`, `updateDocument` succeeds wherever it did before: the new catalog row has no summary |
| EditProperties.RenameKeepsTables | src/backend/litespread.js:131-148 | a successful `changeColumnName` keeps `litespread_table` and the set of tables |
| EditProperties.RenameRowsKeepsSummaries | src/backend/litespread.js:143-145 | the UPDATE keeps the number of catalog rows and their summaries |
| EditProperties.RenameKeepsUpdatable | src/backend/litespread.js:131-148 | after a successful `changeColumnName`, `updateDocument` succeeds wherever it did before |
| Scenarios.ImportSchema | src/backend/litespread.js:90-118 | import adds exactly the three catalog tables, with their fixed columns |
| Scenarios.ImportRowsOfRegistered | src/backend/litespread.js:119-127 | every registered table gets the rows of its `PRAGMA table_info` |
| Scenarios.PragmaDescCompilable | src/backend/litespread.js:53-63 | a descriptor read from pragma rows has only known summaries, so both scripts accept it |
| Scenarios.PragmaTableCompilable | src/backend/litespread.js:151-162 | a table whose catalog rows are its pragma rows yields a compilable descriptor |
| Scenarios.RegisteredCompilable | src/backend/litespread.js:76-79 | right after import, each registered table's descriptor is compilable |
| Scenarios.ImportThenUpdate | src/backend/litespread.test.js:17-20 | right after import, `updateDocument` succeeds and defines both views of every registered table |
| Scenarios.ImportedRowsFront | src/backend/litespread.js:123-127 | the first registered table's catalog rows come first |
| Scenarios.EmployeeReady | src/backend/litespread.test.js:5-14 | the test database is consistent and has only `employee (name, department_id)` |
| Scenarios.TestDatabaseKeys | src/backend/litespread.test.js:5-14 | its only table is `employee`, and no name clashes with a view name |
| Scenarios.EmployeeImport | src/backend/litespread.test.js:35-40 | `employee` is registered first; the first catalog rows are `employee/name/0` and `employee/department_id/1` |
| Scenarios.TestDatabaseImported | src/backend/litespread.test.js:30-32 | after import the test database is ready for the other tests |
| Scenarios.EmployeeAddColumn | src/backend/litespread.test.js:72-80 | `addColumn` succeeds; ordered by position, the names are `name`, `department_id`, `employed_since` |
| Scenarios.EmployeeRename | src/backend/litespread.test.js:49-63 | the rename recreates `employee` as `(emp_name, department_id)` or `(name, department)`, keeps the catalog in agreement, and leaves the transaction open for ROLLBACK |
| Scenarios.JoinPair | src/backend/litespread.js:137 | a two-name column list interpolates as the two names joined by a comma |
| Scenarios.RenamedSql | src/backend/litespread.js:137 | the CREATE TABLE text of `employee` after either rename of the test |
| Scenarios.RenamedFirstSql | src/backend/litespread.test.js:61 | `CREATE TABLE employee (emp_name,department_id)` |
| Scenarios.RenamedSecondSql | src/backend/litespread.test.js:62 | `CREATE TABLE employee (name,department)` |
| Scenarios.EmployeeRenameSql | src/backend/litespread.test.js:49-62 | the `sqlite_master.sql` text of `employee` after the rename is `CREATE TABLE employee (emp_name,department_id)` or `CREATE TABLE employee (name,department)` |
| Scenarios.EmployeeRenameOneRow | src/backend/litespread.test.js:55-59 | exactly one catalog row of `employee` carries the new name |
| Scenarios.EmployeeRenameNewColumn | src/backend/litespread.test.js:86-92 | after `addColumn`, renaming index 2 to `work_start` commits and keeps the catalog in agreement |
| Scenarios.EmployeeAddColumnUpdate | src/backend/litespread.test.js:69-82 | after `importDocument` and `addColumn`, the closing `updateDocument` succeeds |
| Scenarios.EmployeeRenameNewColumnUpdate | src/backend/litespread.test.js:86-92 | after `importDocument`, `addColumn` and the committed rename to `work_start`, the closing `updateDocument` succeeds |
| Scenarios.EmployeeUpdate | src/backend/litespread.test.js:17-20 | right after import, `updateDocument` succeeds and defines `employee_raw` and `employee_formatted` |
| Helper.Added | src/backend/litespread_helper.js:7 | `add` keeps the elements distinct and adds exactly `x` |
| Helper.Deleted | src/backend/litespread_helper.js:15 | `delete` removes exactly `x` and keeps the elements distinct |
| Helper.UnionMembers | src/backend/litespread_helper.js:4-10 | the union holds exactly the elements of either operand |
| Helper.UnionShape | src/backend/litespread_helper.js:4-10 | the union has no duplicate and starts with the receiver's elements in order |
| Helper.DifferenceIsWithout | src/backend/litespread_helper.js:12-18 | deleting each element of `setB` leaves the receiver's elements not in `setB`, in order |
| Helper.WithoutMembers | src/backend/litespread_helper.js:12-18 | that list holds exactly the receiver's elements not in `setB`, without duplicates |
| Helper.JsSet.Copy | src/backend/litespread_helper.js:5 | `new Set(other)` has the same elements in the same order |
| Helper.JsSet.Add | src/backend/litespread_helper.js:7 | the set becomes `Added(old, x)` and stays duplicate-free |
| Helper.JsSet.Delete | src/backend/litespread_helper.js:15 | the set becomes `Deleted(old, x)` and stays duplicate-free |
| Helper.JsSet.Union | src/backend/litespread_helper.js:4-10 | a fresh set whose elements are those of both operands; neither operand changes |
| Helper.JsSet.Difference | src/backend/litespread_helper.js:12-18 | a fresh set whose elements are the receiver's minus `setB`'s; neither operand changes |
| Helper.VisitsExactly | src/backend/litespread_helper.js:20-31 | `traverse` calls its callback on exactly the non-array values in the tree, an object before its contents |
| Helper.VisitsAllExactly | src/backend/litespread_helper.js:21-22 | the walk of an array visits exactly the non-array values inside its elements |
| Helper.VisitsPropsExactly | src/backend/litespread_helper.js:25-27 | the walk of an object's properties visits exactly the non-array values inside them |
| Helper.CollectAppend | src/backend/litespread_helper.js:36-40 | pushing over two walks in a row is the first result then the second, the first error winning |
| Helper.CollectVisits | src/backend/litespread_helper.js:33-42 | pushing during `traverse` collects exactly the tree's column references in pre-order, duplicates kept; it throws exactly on a null or undefined node |
| Helper.FindCols | src/backend/litespread_helper.js:33-42 | the loop's result is the tree's column references; every returned name is the `name` of a visited column node |
| Helper.CollectPrefixErr | src/backend/litespread_helper.js:36-40 | once a prefix of the walk has thrown, the whole walk throws the same error |
| Helper.NoColumnNoRefs | src/backend/litespread_helper.js:33-42 | a tree without a column node, null or undefined yields an empty list |
| Helper.NoColumnCollect | src/backend/litespread_helper.js:36-40 | a walk over such nodes pushes nothing |
| ColTypes.FillKey | src/col-types.js:40-42 | the key is written only where it reads as undefined; every other key is unchanged |
| ColTypes.FillTypeOne | src/col-types.js:39-43 | with one default the inner loop is one conditional write |
| ColTypes.FillTypeKeeps | src/col-types.js:39-43 | the inner loop leaves a key no default mentions as it was |
| ColTypes.FillTypeKeepsDefined | src/col-types.js:40 | the inner loop never overwrites a key the record defines |
| ColTypes.FillTypeDefines | src/col-types.js:39-43 | after the inner loop every default key is defined |
| ColTypes.FillAll | src/col-types.js:38-44 | the outer loop keeps the set of types and leaves unlisted types alone |
| ColTypes.FillAllKeeps | src/col-types.js:38-44 | no key outside `defaults` changes in any record |
| ColTypes.FillAllKeepsDefined | src/col-types.js:38-44 | a key a record defines itself is never overwritten |
| ColTypes.FillAllDefines | src/col-types.js:38-44 | every listed record defines every default key afterwards |
| ColTypes.FillOneDefault | src/col-types.js:38-44 | a listed record that leaves the key undefined receives the default's value |
| ColTypes.FillAllDefault | src/col-types.js:38-44 | a record that leaves the key undefined receives the value exactly when it is listed |
| ColTypes.ColTypeTable.Load | src/col-types.js:3-44 | the table is the declared records after the defaults loop over them, in declaration order |
| ColTypes.ColTypeTable.FillDefaults | src/col-types.js:38-44 | the nested loop leaves the records completed as `FillAll` says, the order unchanged |
| ColTypes.ColTypeTable.FillRecord | src/col-types.js:39-43 | the inner loop changes only the one record, as `FillType` says |
| ColTypes.Listed | src/col-types.js:3-32 | the four types are declared, listed and loaded |
| ColTypes.DeclaredValidator | src/col-types.js:25-31 | only the date type declares a validator |
| ColTypes.EveryTypeValidates | src/col-types.js:34-44 | after loading every type has a validator |
| ColTypes.ValidatorIs | src/col-types.js:29-42 | date keeps its own validator; generic, number and money receive the identity |
| ColTypes.LoadKeepsOtherKeys | src/col-types.js:38-44 | loading changes no key but `validator`: name, icon, align, className and defaultPrecision stay as declared, and no key is added |
| ColTypes.Alignment | src/col-types.js:7-28 | alignment is left for generic and right for number, money and date |
| ColTypes.Precision | src/col-types.js:9-30 | the default precision is 0 for number, 2 for money, null for generic and date |
| ColTypes.ClassNames | src/col-types.js:8-31 | only the date type has no class name, after loading as before |

The step functions below are definitions: each follows its statements as written, carries no contract of its
own, and is characterised by the lemmas named after it.

- `Catalog.Import` (src/backend/litespread.js:89-128), with `Catalog.Prepared` and `Catalog.ImportedRows`:
  `ImportValid`, `ImportRegisters`, `ImportRowsOf`, `ImportInSync`, `ImportTwice`.
- `Catalog.Describe` (src/backend/litespread.js:151-162): `RowsOfMembers`, `ImportPositions`,
  `Database.GetTableDesc`.
- `Catalog.NextPosition` (src/backend/litespread.js:169-171): `NextPositionContiguous`.
- `Catalog.AlterAdd` and `Catalog.ColumnAdded` (src/backend/litespread.js:164-174): `AddColumnSucceeds`,
  `ColumnAddedState`, `AddColumnAppends`, `AddColumnKeepsSync`, `AddColumnKeepsUpdatable`.
- `Catalog.NonFormulaNames` (src/backend/litespread.js:132): `NonFormulaOfDescribed`.
- `Catalog.ColumnRenamed` (src/backend/litespread.js:131-148): `RenameSucceeds`, `ColumnRenamedState`,
  `ColumnRenamedTables`, `ColumnRenamedOthers`, `RenameKeepsSync`, `RenameKeepsUpdatable`.
- `Catalog.Recreate`, `Catalog.RenameTable`, `Catalog.CreateUserTable`, `Catalog.SetRows` and `Catalog.DropTable`
  (src/backend/litespread.js:136-148): `MovedState`, `RecreateState`, `RecreateFailureKeepsTransaction`.
- `Catalog.CreateTableSql` (src/backend/litespread.js:137): `RenamedSql`, `EmployeeRenameSql`.
- `Catalog.CompileAll` and `Catalog.Update` (src/backend/litespread.js:76-86): `CompileAllSucceeds`,
  `CompileAllDefines`, `CompileAllTouches`, `UpdateOutcome`.
- `Views.RunStatement` and `Views.RunScript` (src/backend/litespread.js:39-43, 64-72): `DropThenCreate`,
  `RawStep`, `FormattedStep`.

## Left out

- **SQL evaluation.** The contents of the generated views, `printf` output, and `sum`/`avg` values are not modelled. A
  script's effect is modelled on the set of views and their CREATE text only.
- **ROLLBACK.** The tests issue it, but its effect is not modelled. The model only records that a transaction stays
  open.
- **Identifiers.** SQLite identifiers are case-insensitive, but names compare case-sensitively in the model.
- **Quoting.** The quoting in `ADD COLUMN '${colName}'` and in the interpolated SQL strings is not modelled. Names
  are taken verbatim.
- **Inherited prototype keys.** Looking up a format or summary key such as `toString` in `formatters`/`summaries`
  would find an inherited prototype function in JavaScript. The model uses closed tables.
- **ALTER TABLE RENAME and views.** The rewriting of views that reference a renamed table (newer SQLite) is not
  modelled.
- **Catalog tables.** `addColumn` and `changeColumnName` on the catalog tables themselves are excluded by their
  `requires`.
- **Scan order.** `SELECT DISTINCT name FROM sqlite_master` is modelled in creation order, the order SQLite scans it
  in. `changeColumnName` moves the recreated table to the end of that order.
- **`colIndex` and `position`.** The difference between the two is modelled as written. No lemma claims that the
  renamed catalog row is the `colIndex`-th column of a descriptor containing formulas.
- **The SQL parser.** `sqlite-parser` is not part of this model. The syntax tree is an input, and `'SELECT ' + formula`
  is never parsed.
- **Property order.** The property order of a tree object is taken as given. JavaScript's `for…in` lists
  integer-like keys first; the model takes the order as given.
- **Arrays.** Array holes and the non-index properties of arrays are not modelled.
- **The `moment` date validator.** It is an opaque tag (`MomentUtcIso`). What it computes is not modelled.
- **The column-type table.** Its keys are a closed datatype `Key`. Its type names are a closed datatype `ColType`,
  listed in declaration order. A key set explicitly to `undefined` is the same as an absent key.
- **`JsSet` elements.** They are limited to types without heap references (`!new`). Object identity of elements
  is not modelled.
- **Out of scope.**
  - The UI in src/App.js, src/Document.js, src/MainNavbar.js, src/SpreadTable.js, src/Table.js and
    src/StartPage.js.
  - Remote storage in src/RemoteFile.js.
  - CSV import and export.
- CatalogProperties.RenameKeepsSync requires the table's column names to be distinct. SQLite never holds a table
  with a repeated column name, but `ValidState` does not carry that invariant, so the lemma states it as a
  precondition.
- CatalogProperties.RenameDescribed requires a ready table, which includes distinct column names, for the same
  reason.
- Catalog.Import and Catalog.Database.ImportDocument: `ValidState` gives an existing `litespread_document`,
  `litespread_table` or `litespread_column` its fixed columns. A database where such a table already exists with
  other columns is outside the model, so the INSERT that would throw on it (src/backend/litespread.js:97, 104-107,
  119-126) is not modelled.
- **The stored CREATE text.** `sqlite_master.sql` is not part of the state. `CreateTableSql` derives it from the
  table's column list, as SQLite stores it for the `CREATE TABLE` of src/backend/litespread.js:137.
- CatalogProperties.AddColumnKeepsSync requires a non-empty table. On a table without catalog rows, `addColumn`
  writes a NULL position, so agreement is not kept there; `AddColumnNullPosition` states that case.
- Scenarios.ImportThenUpdate requires every table to have a column and no table name to clash with a view name.
  Otherwise `updateDocument` throws, as `UpdateOutcome` states.
