/**
 * What `updateDocument` promises, stated over `Catalog.CompileAll` and
 * `Catalog.Update`: exactly when the views of every registered table are
 * regenerated, which views change, and what an unknown summary leaves behind.
 */
module UpdateProperties {
  import opened Wrappers
  import opened Views
  import opened Catalog

  /**
   * A descriptor both view scripts accept: it has a column, every summary is
   * known, and neither view name belongs to a table.
   */
  predicate Compilable(d: TableDesc, tables: set<string>)
  {
    |d.columns| > 0 &&
    (forall i :: 0 <= i < |d.columns| ==> SummaryOf(d.columns[i]).Some?) &&
    RawViewName(d.name) !in tables && FormattedViewName(d.name) !in tables
  }

  /** The two view names `updateDocument` writes for each descriptor. */
  function Touched(descs: seq<TableDesc>): (r: set<string>)
    ensures forall v :: v in r <==> exists i :: 0 <= i < |descs| && (v == RawViewName(descs[i].name) || v == FormattedViewName(descs[i].name))
    decreases |descs|
  {
    if descs == [] then {}
    else
      var rest := Touched(descs[1..]);
      assert forall i :: 0 < i < |descs| ==> descs[i] == descs[1..][i - 1];
      {RawViewName(descs[0].name), FormattedViewName(descs[0].name)} + rest
  }

  /** `a` and `b` hold the same views apart from the names in `names`. */
  ghost predicate Agree(a: map<string, string>, b: map<string, string>, names: set<string>)
  {
    forall v :: v !in names ==> (v in a <==> v in b) && (v in a ==> a[v] == b[v])
  }

  /** The raw script of one table: it fails exactly when the view name is a table's or there is no column. */
  lemma RawStep(views: map<string, string>, tables: set<string>, d: TableDesc)
    ensures var o := RunScript(views, tables, RawScript(d));
      (o.error.None? <==> RawViewName(d.name) !in tables && |d.columns| > 0) &&
      (o.error.None? ==> RawViewName(d.name) in o.views) &&
      Agree(views, o.views, {RawViewName(d.name)})
  {
    DropThenCreate(views, tables, RawViewName(d.name), Single(RawSelect(d)));
  }

  /** The formatted script of one table, once the raw view exists. */
  lemma FormattedStep(views: map<string, string>, tables: set<string>, d: TableDesc)
    requires FormattedScript(d).Ok? && |d.columns| > 0
    ensures var o := RunScript(views, tables, FormattedScript(d).value);
      (o.error.None? <==> FormattedViewName(d.name) !in tables) &&
      (o.error.None? ==> FormattedViewName(d.name) in o.views) &&
      Agree(views, o.views, {FormattedViewName(d.name)})
  {
    var script := FormattedScript(d).value;
    assert script == [DropViewIfExists(FormattedViewName(d.name)), CreateView(FormattedViewName(d.name), script[1].body)];
    assert WellFormed(script[1].body);
    DropThenCreate(views, tables, FormattedViewName(d.name), script[1].body);
  }

  lemma AgreeTrans(a: map<string, string>, b: map<string, string>, c: map<string, string>, x: set<string>, y: set<string>)
    requires Agree(a, b, x) && Agree(b, c, y)
    ensures Agree(a, c, x + y)
  {
  }

  /**
   * The first table of the `forEach`: either it stops there, having touched
   * only that table's two views, or it is compilable and the rest runs on
   * views `mid` that hold both of its views.
   */
  lemma CompileAllStep(views: map<string, string>, tables: set<string>, descs: seq<TableDesc>) returns (mid: map<string, string>)
    requires descs != []
    ensures var o := CompileAll(views, tables, descs);
      var names := {RawViewName(descs[0].name), FormattedViewName(descs[0].name)};
      if Compilable(descs[0], tables) then
        o == CompileAll(mid, tables, descs[1..]) && Agree(views, mid, names) &&
        names <= mid.Keys && views.Keys <= mid.Keys
      else
        o.error.Some? && Agree(views, o.views, names)
  {
    var d := descs[0];
    var o := CompileAll(views, tables, descs);
    var raw := RunScript(views, tables, RawScript(d));
    RawStep(views, tables, d);
    mid := raw.views;
    if raw.error.Some? {
      assert o == raw;
    } else if FormattedScript(d).Err? {
      assert o == Outcome(raw.views, Some(FormattedScript(d).error));
    } else {
      var formatted := RunScript(raw.views, tables, FormattedScript(d).value);
      FormattedStep(raw.views, tables, d);
      AgreeTrans(views, raw.views, formatted.views, {RawViewName(d.name)}, {FormattedViewName(d.name)});
      assert {RawViewName(d.name)} + {FormattedViewName(d.name)} == {RawViewName(d.name), FormattedViewName(d.name)};
      mid := formatted.views;
      if formatted.error.Some? {
        assert o == formatted;
      }
    }
  }

  /** The `forEach` of `updateDocument` runs to the end exactly when every descriptor is compilable. */
  lemma {:induction false} CompileAllSucceeds(views: map<string, string>, tables: set<string>, descs: seq<TableDesc>)
    ensures CompileAll(views, tables, descs).error.None? <==> forall i :: 0 <= i < |descs| ==> Compilable(descs[i], tables)
    decreases |descs|
  {
    if descs != [] {
      var mid := CompileAllStep(views, tables, descs);
      if Compilable(descs[0], tables) {
        var rest := descs[1..];
        CompileAllSucceeds(mid, tables, rest);
        assert forall i :: 0 < i < |descs| ==> descs[i] == rest[i - 1];
      }
    }
  }

  /** When the `forEach` runs to the end, both views of every table exist and every earlier view still does. */
  lemma {:induction false} CompileAllDefines(views: map<string, string>, tables: set<string>, descs: seq<TableDesc>)
    requires CompileAll(views, tables, descs).error.None?
    ensures var o := CompileAll(views, tables, descs);
      views.Keys <= o.views.Keys &&
      forall i :: 0 <= i < |descs| ==> RawViewName(descs[i].name) in o.views && FormattedViewName(descs[i].name) in o.views
    decreases |descs|
  {
    if descs != [] {
      var mid := CompileAllStep(views, tables, descs);
      var rest := descs[1..];
      CompileAllDefines(mid, tables, rest);
      assert forall i :: 0 < i < |descs| ==> descs[i] == rest[i - 1];
    }
  }

  /** Whether or not the `forEach` fails, no view outside the two names of each descriptor changes. */
  lemma {:induction false} CompileAllTouches(views: map<string, string>, tables: set<string>, descs: seq<TableDesc>)
    ensures Agree(views, CompileAll(views, tables, descs).views, Touched(descs))
    decreases |descs|
  {
    if descs != [] {
      var d := descs[0];
      var names := {RawViewName(d.name), FormattedViewName(d.name)};
      var mid := CompileAllStep(views, tables, descs);
      assert Touched(descs) == names + Touched(descs[1..]);
      if Compilable(d, tables) {
        CompileAllTouches(mid, tables, descs[1..]);
        AgreeTrans(views, mid, CompileAll(views, tables, descs).views, names, Touched(descs[1..]));
      }
    }
  }

  /** No table has the same raw and formatted view name. */
  lemma RawIsNotFormatted(t: string)
    ensures RawViewName(t) != FormattedViewName(t)
  {
    assert RawViewName(t)[|t| + 1] == 'r';
    assert FormattedViewName(t)[|t| + 1] == 'f';
  }

  /**
   * An unknown summary stops `updateDocument` after the raw view of that
   * table: the raw view is new, the formatted view keeps whatever definition
   * it had before, stale or missing.
   */
  lemma UnknownSummaryLeavesStaleView(views: map<string, string>, tables: set<string>, d: TableDesc, rest: seq<TableDesc>)
    requires RawViewName(d.name) !in tables && |d.columns| > 0
    requires exists i :: 0 <= i < |d.columns| && SummaryOf(d.columns[i]).None?
    ensures var o := CompileAll(views, tables, [d] + rest);
      o.error.Some? && o.error.value.UnknownSummary? &&
      RawViewName(d.name) in o.views &&
      (FormattedViewName(d.name) in o.views <==> FormattedViewName(d.name) in views) &&
      (FormattedViewName(d.name) in views ==> o.views[FormattedViewName(d.name)] == views[FormattedViewName(d.name)])
  {
    var raw := RunScript(views, tables, RawScript(d));
    RawStep(views, tables, d);
    RawIsNotFormatted(d.name);
    assert ([d] + rest)[0] == d;
    assert FormattedScript(d).Err? && FormattedScript(d).error.UnknownSummary?;
    assert CompileAll(views, tables, [d] + rest) == Outcome(raw.views, Some(FormattedScript(d).error));
  }

  /**
   * A database `updateDocument` runs on to the end: the catalog tables exist,
   * some table is registered and every registered table's descriptor is
   * compilable.
   */
  predicate Updatable(s: DbState)
  {
    TableTable in s.schema && s.tableRows != [] && ColumnTable in s.schema &&
    forall i :: 0 <= i < |s.tableRows| ==> Compilable(DescribeAll(s, TableNames(s.tableRows))[i], s.schema.Keys)
  }

  /**
   * `updateDocument` succeeds exactly on an updatable database; it then
   * defines both views of every registered table and changes nothing but the
   * views.
   */
  lemma UpdateOutcome(s: DbState)
    ensures var r := Update(s);
      (r.error.None? <==> Updatable(s)) &&
      r.state == s.(views := r.state.views) &&
      (r.error.None? ==> forall i :: 0 <= i < |s.tableRows| ==>
        RawViewName(s.tableRows[i].tableName) in r.state.views && FormattedViewName(s.tableRows[i].tableName) in r.state.views)
  {
    if TableTable in s.schema && s.tableRows != [] && ColumnTable in s.schema {
      var names := TableNames(s.tableRows);
      var descs := DescribeAll(s, names);
      CompileAllSucceeds(s.views, s.schema.Keys, descs);
      if Update(s).error.None? {
        CompileAllDefines(s.views, s.schema.Keys, descs);
      }
      forall i | 0 <= i < |s.tableRows|
        ensures descs[i].name == s.tableRows[i].tableName
      {
        assert Ok(descs[i]) == Describe(s, names[i]);
      }
    }
  }

  /** With no table registered, `updateDocument` throws and changes nothing. */
  lemma UpdateWithoutTables(s: DbState)
    requires TableTable in s.schema && s.tableRows == []
    ensures Update(s) == Step(s, Some(NoRegisteredTables))
  {
  }
}
