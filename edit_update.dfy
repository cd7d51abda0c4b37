/**
 * `updateDocument` after an edit: `addColumn` and `changeColumnName` keep a
 * database on which `updateDocument` runs to the end in that state. Neither
 * edit touches `litespread_table` or the set of tables, `addColumn` gives the
 * new column no summary, and the rename changes names only.
 */
module EditProperties {
  import opened Wrappers
  import opened Views
  import opened Catalog
  import opened CatalogProperties
  import opened UpdateProperties

  /** Every catalog row asks for a summary the summary table has. */
  predicate KnownSummaries(rows: seq<ColumnRow>)
  {
    forall k :: 0 <= k < |rows| ==> SummaryOf(ToColumn(rows[k])).Some?
  }

  /**
   * An edit that keeps the registered tables and the set of tables, and
   * gives every table at least as many catalog rows with known summaries as
   * before, keeps the database updatable.
   */
  lemma UpdatableTransfer(s: DbState, r: DbState)
    requires Updatable(s)
    requires r.tableRows == s.tableRows && r.schema.Keys == s.schema.Keys
    requires forall u :: (RowsOf(s.columnRows, u) != [] ==> RowsOf(r.columnRows, u) != []) &&
                         (KnownSummaries(RowsOf(s.columnRows, u)) ==> KnownSummaries(RowsOf(r.columnRows, u)))
    ensures Updatable(r)
  {
    var names := TableNames(s.tableRows);
    var before, after := DescribeAll(s, names), DescribeAll(r, names);
    forall i | 0 <= i < |s.tableRows|
      ensures Compilable(after[i], r.schema.Keys)
    {
      var own := RowsOf(s.columnRows, names[i]);
      assert Ok(before[i]) == Describe(s, names[i]);
      assert Ok(after[i]) == Describe(r, names[i]);
      assert Compilable(before[i], s.schema.Keys);
      assert KnownSummaries(own) by {
        forall k | 0 <= k < |own|
          ensures SummaryOf(ToColumn(own[k])).Some?
        {
          assert before[i].columns[k] == ToColumn(own[k]);
        }
      }
    }
  }

  /** `addColumn` keeps a database updatable: the new catalog row has no summary. */
  lemma AddColumnKeepsUpdatable(s: DbState, t: string, c: string)
    requires ValidState(s) && !IsCatalogTable(t) && ColumnAdded(s, t, c).error.None?
    requires Updatable(s)
    ensures Updatable(ColumnAdded(s, t, c).state)
  {
    var r := ColumnAdded(s, t, c).state;
    var row := ColumnRow(t, c, NextPosition(s.columnRows, t), None, None, None);
    ColumnAddedState(s, t, c);
    forall u | true
      ensures (RowsOf(s.columnRows, u) != [] ==> RowsOf(r.columnRows, u) != []) &&
              (KnownSummaries(RowsOf(s.columnRows, u)) ==> KnownSummaries(RowsOf(r.columnRows, u)))
    {
      RowsOfSnoc(s.columnRows, row, u);
      assert SummaryOf(ToColumn(row)).Some?;
    }
    UpdatableTransfer(s, r);
  }

  /** A successful `changeColumnName` keeps `litespread_table` and the set of tables. */
  lemma RenameKeepsTables(s: DbState, table: TableDesc, colIndex: int, newName: string, skipCommit: bool)
    requires ValidState(s) && !IsCatalogTable(table.name)
    requires ColumnRenamed(s, table, colIndex, newName, skipCommit).error.None?
    ensures var r := ColumnRenamed(s, table, colIndex, newName, skipCommit).state;
      r.tableRows == s.tableRows && r.schema.Keys == s.schema.Keys
  {
    var r := ColumnRenamed(s, table, colIndex, newName, skipCommit).state;
    ColumnRenamedState(s, table, colIndex, newName, skipCommit);
    ColumnRenamedTables(s, table, colIndex, newName, skipCommit);
    ColumnRenamedValid(s, table, colIndex, newName, skipCommit);
    assert forall n :: n in r.schema <==> n in s.schema;
  }

  /** Renaming catalog rows keeps their number and their summaries. */
  lemma RenameRowsKeepsSummaries(rows: seq<ColumnRow>, t: string, colIndex: int, newName: string)
    ensures |RenameRows(rows, t, colIndex, newName)| == |rows|
    ensures KnownSummaries(rows) ==> KnownSummaries(RenameRows(rows, t, colIndex, newName))
  {
    var renamed := RenameRows(rows, t, colIndex, newName);
    assert forall k :: 0 <= k < |rows| ==> ToColumn(renamed[k]).summary == ToColumn(rows[k]).summary;
  }

  /** `changeColumnName` keeps a database updatable: it renames catalog rows and nothing else of them. */
  lemma RenameKeepsUpdatable(s: DbState, table: TableDesc, colIndex: int, newName: string, skipCommit: bool)
    requires ValidState(s) && !IsCatalogTable(table.name)
    requires ColumnRenamed(s, table, colIndex, newName, skipCommit).error.None?
    requires Updatable(s)
    ensures Updatable(ColumnRenamed(s, table, colIndex, newName, skipCommit).state)
  {
    var t := table.name;
    var r := ColumnRenamed(s, table, colIndex, newName, skipCommit).state;
    ColumnRenamedState(s, table, colIndex, newName, skipCommit);
    RenameKeepsTables(s, table, colIndex, newName, skipCommit);
    forall u | true
      ensures (RowsOf(s.columnRows, u) != [] ==> RowsOf(r.columnRows, u) != []) &&
              (KnownSummaries(RowsOf(s.columnRows, u)) ==> KnownSummaries(RowsOf(r.columnRows, u)))
    {
      RowsOfRenamed(s.columnRows, t, colIndex, newName, u);
      RenameRowsKeepsSummaries(RowsOf(s.columnRows, u), t, colIndex, newName);
    }
    UpdatableTransfer(s, r);
  }
}
