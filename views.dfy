/**
 * The view compiler of the litespread backend: deterministic builders that turn
 * a table descriptor into the text of two SQL scripts, `<t>_raw` and
 * `<t>_formatted`, and the effect of running such a script on the set of views
 * a database holds.
 *
 * A script is built as a list of statements and rendered to exactly the text
 * the backend's template strings produce, whitespace included.
 */
module Views {
  import opened Wrappers

  /** Whitespace that precedes every statement line of the script templates. */
  const Lead := "\n        "
  /** Whitespace that closes every script template. */
  const Trail := "\n    "

  /**
   * A column record of a table descriptor: the catalog row's fields, plus the
   * `formula` a caller may have attached (the catalog has no formula column).
   */
  datatype Column = Column(
    name: string,
    position: Option<int>,
    format: Option<string>,
    summary: Option<string>,
    formula: Option<string>)

  /** A table descriptor: a name, its columns in catalog order and an optional source. */
  datatype TableDesc = TableDesc(name: string, columns: seq<Column>, from: Option<string>)

  /** Errors raised by the builders and by the SQL engine when a script runs. */
  datatype Error =
    | UnknownSummary(summary: string)
    | NoSuchTable(table: string)
    | AlreadyExists(name: string)
    | NotAView(name: string)
    | SyntaxError
    | DuplicateColumn(column: string)
    | NoSuchColumn(column: string)
    | NestedTransaction
    | NoRegisteredTables

  /** The message an `UnknownSummary` error carries. */
  function Message(e: Error): (m: string)
    requires e.UnknownSummary?
    ensures |m| == 17 + |e.summary| && m[..17] == "Unknown summary: " && m[17..] == e.summary
  {
    "Unknown summary: " + e.summary
  }

  /** JavaScript's `a || b` for a string that may be absent: absent or empty falls back to `b`. */
  function OrElse(a: Option<string>, b: string): string
  {
    if a.Some? && a.value != "" then a.value else b
  }

  /** The `Array.prototype.join` of a list of strings. */
  function Join(items: seq<string>, sep: string): string
  {
    if |items| == 0 then ""
    else if |items| == 1 then items[0]
    else items[0] + sep + Join(items[1..], sep)
  }

  // ---------------------------------------------------------------------------
  // The formatter and summary tables

  /** The closed table of display formatters: only `money` has an entry. */
  datatype Formatter = Money

  function LookupFormatter(format: Option<string>): (f: Option<Formatter>)
    ensures f.Some? <==> format == Some("money")
  {
    if format == Some("money") then Some(Money) else None
  }

  function ApplyFormatter(f: Formatter, x: string): string
  {
    match f
    case Money => "printf(\"%.2f\", " + x + ")"
  }

  /** The closed table of summaries, keyed by `'undefined'`, `'sum'` and `'avg'`. */
  datatype Summary = NoSummary | Sum | Avg

  function LookupSummary(key: string): (s: Option<Summary>)
    ensures s.Some? <==> key in {"undefined", "sum", "avg"}
    ensures s == Some(NoSummary) <==> key == "undefined"
  {
    if key == "undefined" then Some(NoSummary)
    else if key == "sum" then Some(Sum)
    else if key == "avg" then Some(Avg)
    else None
  }

  /** The key a column's summary is looked up by: `col.summary || 'undefined'`. */
  function SummaryKey(col: Column): string
  {
    OrElse(col.summary, "undefined")
  }

  /** The summary a column asks for, or None when the key is not in the table. */
  function SummaryOf(col: Column): Option<Summary>
  {
    LookupSummary(SummaryKey(col))
  }

  function ApplySummary(s: Summary, x: string): string
  {
    match s
    case NoSummary => "NULL"
    case Sum => "sum(" + x + ")"
    case Avg => "avg(" + x + ")"
  }

  // ---------------------------------------------------------------------------
  // Column projections

  /** One projection of a select list: an expression with an alias. */
  function Item(expr: string, alias: string): string
  {
    expr + " AS " + alias
  }

  predicate HasFormula(col: Column)
  {
    col.formula.Some? && col.formula.value != ""
  }

  /** The raw view's projection of a column: its formula, or the column itself, named after the column. */
  function MakeCol(col: Column): (r: string)
    ensures HasFormula(col) ==> r == Item(col.formula.value, col.name)
    ensures !HasFormula(col) ==> r == Item(col.name, col.name)
  {
    Item(OrElse(col.formula, col.name), col.name)
  }

  /** The expression a formatted projection shows: `select`, or the column name. */
  function FormattedExpr(col: Column, select: Option<string>): string
  {
    var e := OrElse(select, col.name);
    match LookupFormatter(col.format)
    case Some(f) => ApplyFormatter(f, e)
    case None => e
  }

  /** The formatted view's projection of a column, over `select` or the column itself. */
  function FormatCol(col: Column, select: Option<string>): (r: string)
    ensures col.format == Some("money") ==>
      r == Item("printf(\"%.2f\", " + OrElse(select, col.name) + ")", col.name)
    ensures col.format != Some("money") ==> r == Item(OrElse(select, col.name), col.name)
  {
    Item(FormattedExpr(col, select), col.name)
  }

  function MapMakeCol(cols: seq<Column>): (r: seq<string>)
    ensures |r| == |cols| && forall i :: 0 <= i < |cols| ==> r[i] == MakeCol(cols[i])
  {
    seq(|cols|, i requires 0 <= i < |cols| => MakeCol(cols[i]))
  }

  function MapFormatCol(cols: seq<Column>): (r: seq<string>)
    ensures |r| == |cols| && forall i :: 0 <= i < |cols| ==> r[i] == FormatCol(cols[i], None)
  {
    seq(|cols|, i requires 0 <= i < |cols| => FormatCol(cols[i], None))
  }

  /** The footer projection of one column, or the error the builder throws for it. */
  function SummaryCell(col: Column): Result<string, Error>
  {
    match SummaryOf(col)
    case None => Err(UnknownSummary(SummaryKey(col)))
    case Some(s) => Ok(FormatCol(col, Some(ApplySummary(s, col.name))))
  }

  /** Column `i` is the first one whose summary is not in the table. */
  predicate FirstUnknownSummary(cols: seq<Column>, i: int)
  {
    0 <= i < |cols| && SummaryOf(cols[i]).None? && forall j :: 0 <= j < i ==> SummaryOf(cols[j]).Some?
  }

  /**
   * The footer's select list. It fails on the first column whose summary is not
   * in the table, and only then.
   */
  function SummaryItems(cols: seq<Column>): (r: Result<seq<string>, Error>)
    ensures r.Ok? <==> forall i :: 0 <= i < |cols| ==> SummaryOf(cols[i]).Some?
    ensures r.Ok? ==> (|r.value| == |cols| &&
      forall i :: 0 <= i < |cols| ==> Ok(r.value[i]) == SummaryCell(cols[i]))
    ensures r.Err? ==> r.error.UnknownSummary?
  {
    if cols == [] then Ok([])
    else
      var tail := cols[1..];
      assert forall i :: 0 < i < |cols| ==> cols[i] == tail[i - 1];
      match SummaryCell(cols[0])
      case Err(e) => Err(e)
      case Ok(head) =>
        match SummaryItems(tail)
        case Err(e) => Err(e)
        case Ok(rest) =>
          var items := [head] + rest;
          assert forall i :: 0 < i < |items| ==> items[i] == rest[i - 1];
          Ok(items)
  }

  /**
   * The error names the summary key of the first column whose summary is not
   * in the table, and the thrown text is `Unknown summary: ` followed by that
   * column's own summary.
   */
  lemma {:induction false} SummaryItemsFails(cols: seq<Column>)
    requires SummaryItems(cols).Err?
    ensures exists i ::
              FirstUnknownSummary(cols, i) && SummaryItems(cols).error == UnknownSummary(SummaryKey(cols[i])) &&
              cols[i].summary.Some? && Message(SummaryItems(cols).error) == "Unknown summary: " + cols[i].summary.value
  {
    if SummaryOf(cols[0]).None? {
      assert FirstUnknownSummary(cols, 0);
      assert LookupSummary("undefined").Some?;
    } else {
      var tail := cols[1..];
      SummaryItemsFails(tail);
      var i :| FirstUnknownSummary(tail, i) && SummaryItems(tail).error == UnknownSummary(SummaryKey(tail[i])) &&
        tail[i].summary.Some? && Message(SummaryItems(tail).error) == "Unknown summary: " + tail[i].summary.value;
      assert FirstUnknownSummary(cols, i + 1);
    }
  }

  // ---------------------------------------------------------------------------
  // Scripts

  /** A `SELECT <rowid>, <items> FROM <from>` clause. */
  datatype Select = Select(rowid: string, items: seq<string>, from: string)

  /** The query a view is defined by. */
  datatype ViewBody = Single(select: Select) | UnionAll(first: Select, second: Select)

  datatype Statement = DropViewIfExists(view: string) | CreateView(view: string, body: ViewBody)

  function RenderSelect(s: Select): string
  {
    "SELECT " + s.rowid + ", " + Join(s.items, ", ") + " FROM " + s.from
  }

  function RenderBody(b: ViewBody): string
  {
    match b
    case Single(s) => RenderSelect(s)
    case UnionAll(s1, s2) => RenderSelect(s1) + Lead + "UNION ALL" + Lead + RenderSelect(s2)
  }

  function RenderStatement(st: Statement): string
  {
    match st
    case DropViewIfExists(v) => "DROP VIEW IF EXISTS " + v
    case CreateView(v, b) => "CREATE VIEW " + v + " AS" + Lead + RenderBody(b)
  }

  function MapRender(script: seq<Statement>): (r: seq<string>)
    ensures |r| == |script| && forall i :: 0 <= i < |script| ==> r[i] == RenderStatement(script[i])
  {
    seq(|script|, i requires 0 <= i < |script| => RenderStatement(script[i]))
  }

  /** The text handed to `db.run`. */
  function RenderScript(script: seq<Statement>): string
  {
    Lead + Join(MapRender(script), ";" + Lead) + Trail
  }

  function RawViewName(table: string): string { table + "_raw" }
  function FormattedViewName(table: string): string { table + "_formatted" }

  predicate HasSource(t: TableDesc)
  {
    t.from.Some? && t.from.value != ""
  }

  /** The select of `<t>_raw`: rowid first, then one projection per column, from the table or its source. */
  function RawSelect(t: TableDesc): Select
  {
    if HasSource(t) then Select("null AS rowid", MapMakeCol(t.columns), t.from.value)
    else Select("rowid", MapMakeCol(t.columns), t.name)
  }

  /** `make_raw_view`: drop `<t>_raw` if it exists, then create it. */
  function RawScript(t: TableDesc): (r: seq<Statement>)
    ensures |r| == 2
    ensures r[0] == DropViewIfExists(RawViewName(t.name))
    ensures r[1].CreateView? && r[1].view == RawViewName(t.name) && r[1].body.Single?
    ensures r[1].body.select.items == MapMakeCol(t.columns)
    ensures HasSource(t) ==> r[1].body.select.rowid == "null AS rowid" && r[1].body.select.from == t.from.value
    ensures !HasSource(t) ==> r[1].body.select.rowid == "rowid" && r[1].body.select.from == t.name
  {
    [DropViewIfExists(RawViewName(t.name)), CreateView(RawViewName(t.name), Single(RawSelect(t)))]
  }

  /**
   * `make_formatted_view`: drop `<t>_formatted`, then create it as the formatted
   * rows of `<t>_raw` followed by the summary row; fails on an unknown summary.
   */
  function FormattedScript(t: TableDesc): (r: Result<seq<Statement>, Error>)
    ensures r.Err? <==> exists i :: 0 <= i < |t.columns| && SummaryOf(t.columns[i]).None?
    ensures r.Ok? ==> (|r.value| == 2 &&
      r.value[0] == DropViewIfExists(FormattedViewName(t.name)) &&
      r.value[1].CreateView? && r.value[1].view == FormattedViewName(t.name) &&
      r.value[1].body.UnionAll? &&
      r.value[1].body.first == Select("rowid", MapFormatCol(t.columns), RawViewName(t.name)) &&
      r.value[1].body.second.rowid == "rowid" &&
      r.value[1].body.second.from == RawViewName(t.name) &&
      Ok(r.value[1].body.second.items) == SummaryItems(t.columns))
  {
    match SummaryItems(t.columns)
    case Err(e) => Err(e)
    case Ok(summary) =>
      var v := FormattedViewName(t.name);
      var source := RawViewName(t.name);
      Ok([DropViewIfExists(v),
          CreateView(v, UnionAll(Select("rowid", MapFormatCol(t.columns), source),
                                 Select("rowid", summary, source)))])
  }

  // ---------------------------------------------------------------------------
  // Running a script

  /** A select with an empty list renders as `SELECT rowid,  FROM …`, which does not parse. */
  predicate WellFormed(b: ViewBody)
  {
    match b
    case Single(s) => |s.items| > 0
    case UnionAll(s1, s2) => |s1.items| > 0 && |s2.items| > 0
  }

  /** What a run of statements leaves behind: the views, and the error that stopped it. */
  datatype Outcome = Outcome(views: map<string, string>, error: Option<Error>)

  /**
   * One statement's effect on the views (view name to its CREATE text);
   * `tables` are the names of the database's tables.
   */
  function RunStatement(views: map<string, string>, tables: set<string>, st: Statement): Result<map<string, string>, Error>
  {
    match st
    case DropViewIfExists(v) =>
      if v in tables then Err(NotAView(v)) else Ok(views - {v})
    case CreateView(v, b) =>
      if v in views || v in tables then Err(AlreadyExists(v))
      else if !WellFormed(b) then Err(SyntaxError)
      else Ok(views[v := RenderStatement(st)])
  }

  /** Statements run one after the other; the first error stops the script and earlier effects stay. */
  function RunScript(views: map<string, string>, tables: set<string>, script: seq<Statement>): Outcome
    decreases |script|
  {
    if script == [] then Outcome(views, None)
    else
      match RunStatement(views, tables, script[0])
      case Err(e) => Outcome(views, Some(e))
      case Ok(next) => RunScript(next, tables, script[1..])
  }

  /**
   * Dropping before creating makes a view script total: whatever views exist,
   * it replaces the view unless its name belongs to a table or its select list
   * is empty.
   */
  lemma {:induction false} DropThenCreate(views: map<string, string>, tables: set<string>, v: string, b: ViewBody)
    ensures RunScript(views, tables, [DropViewIfExists(v), CreateView(v, b)]) ==
      if v in tables then Outcome(views, Some(NotAView(v)))
      else if !WellFormed(b) then Outcome(views - {v}, Some(SyntaxError))
      else Outcome(views[v := RenderStatement(CreateView(v, b))], None)
  {
    var script := [DropViewIfExists(v), CreateView(v, b)];
    if v !in tables {
      var after := views - {v};
      assert RunStatement(views, tables, script[0]) == Ok(after);
      assert script[1..] == [CreateView(v, b)];
      assert RunScript(views, tables, script) == RunScript(after, tables, [CreateView(v, b)]);
      assert v !in after;
      if WellFormed(b) {
        var created := after[v := RenderStatement(CreateView(v, b))];
        assert RunStatement(after, tables, CreateView(v, b)) == Ok(created);
        assert [CreateView(v, b)][1..] == [];
        assert RunScript(after, tables, [CreateView(v, b)]) == Outcome(created, None);
        assert views[v := RenderStatement(CreateView(v, b))] == created;
      }
    }
  }

  /** The raw script replaces `<t>_raw` whenever the table has a column and no table is called `<t>_raw`. */
  lemma RawScriptRuns(views: map<string, string>, tables: set<string>, t: TableDesc)
    requires RawViewName(t.name) !in tables && |t.columns| > 0
    ensures RunScript(views, tables, RawScript(t)) ==
      Outcome(views[RawViewName(t.name) := RenderStatement(RawScript(t)[1])], None)
  {
    DropThenCreate(views, tables, RawViewName(t.name), Single(RawSelect(t)));
  }

  lemma RenderTwo(first: Statement, second: Statement)
    ensures RenderScript([first, second]) ==
      Lead + RenderStatement(first) + ";" + Lead + RenderStatement(second) + Trail
  {
    var texts := MapRender([first, second]);
    assert texts == [RenderStatement(first), RenderStatement(second)];
    assert texts[1..] == [RenderStatement(second)];
    var sep := ";" + Lead;
    assert Join(texts[1..], sep) == RenderStatement(second);
    assert Join(texts, sep) == RenderStatement(first) + sep + RenderStatement(second);
  }

  /** The exact text of the raw script. */
  lemma RawScriptText(t: TableDesc)
    ensures RenderScript(RawScript(t)) ==
      Lead + "DROP VIEW IF EXISTS " + RawViewName(t.name) + ";" +
      Lead + "CREATE VIEW " + RawViewName(t.name) + " AS" +
      Lead + RenderSelect(RawSelect(t)) +
      Trail
  {
    var script := RawScript(t);
    RenderTwo(script[0], script[1]);
  }

  /** The exact text of the formatted script when it builds. */
  lemma FormattedScriptText(t: TableDesc, summary: seq<string>)
    requires SummaryItems(t.columns) == Ok(summary)
    ensures RenderScript(FormattedScript(t).value) ==
      Lead + ("DROP VIEW IF EXISTS " + FormattedViewName(t.name)) + ";" +
      Lead + ("CREATE VIEW " + FormattedViewName(t.name) + " AS" +
        Lead + (RenderSelect(Select("rowid", MapFormatCol(t.columns), RawViewName(t.name))) +
        Lead + "UNION ALL" +
        Lead + RenderSelect(Select("rowid", summary, RawViewName(t.name))))) +
      Trail
  {
    var script := FormattedScript(t).value;
    var v := FormattedViewName(t.name);
    var first := Select("rowid", MapFormatCol(t.columns), RawViewName(t.name));
    var second := Select("rowid", summary, RawViewName(t.name));
    assert script == [DropViewIfExists(v), CreateView(v, UnionAll(first, second))];
    RenderTwo(DropViewIfExists(v), CreateView(v, UnionAll(first, second)));
  }

  // ---------------------------------------------------------------------------
  // Reading the alias back

  predicate IsIdentChar(c: char)
  {
    ('a' <= c <= 'z') || ('A' <= c <= 'Z') || ('0' <= c <= '9') || c == '_'
  }

  /** An unquoted SQL name: letters, digits and underscores. */
  predicate IsIdentifier(s: string)
  {
    |s| > 0 && forall i :: 0 <= i < |s| ==> IsIdentChar(s[i])
  }

  /** The last place at or before `p` where ` AS ` starts in `s`. */
  function FindLastAs(s: string, p: int): (r: Option<nat>)
    requires p <= |s| - 4
    ensures r.Some? ==> r.value <= p && s[r.value..r.value + 4] == " AS "
    decreases p + 1
  {
    if p < 0 then None
    else if s[p..p + 4] == " AS " then Some(p)
    else FindLastAs(s, p - 1)
  }

  /** Splits a projection `<expr> AS <alias>` at its last ` AS `. */
  function SplitAlias(item: string): Option<(string, string)>
  {
    if |item| < 4 then None
    else
      match FindLastAs(item, |item| - 4)
      case None => None
      case Some(p) => Some((item[..p], item[p + 4..]))
  }

  lemma {:induction false} FindLastAsSkips(s: string, p: int, q: nat)
    requires q <= p <= |s| - 4
    requires s[q..q + 4] == " AS "
    requires forall k :: q + 4 <= k < |s| ==> s[k] != ' '
    ensures FindLastAs(s, p) == Some(q)
    decreases p
  {
    if p > q {
      assert s[p..p + 4][3] == s[p + 3];
      FindLastAsSkips(s, p - 1, q);
    }
  }

  /** A projection whose alias is an identifier splits back into its expression and alias. */
  lemma ItemRoundTrip(expr: string, alias: string)
    requires IsIdentifier(alias)
    ensures SplitAlias(Item(expr, alias)) == Some((expr, alias))
  {
    var s := Item(expr, alias);
    var q := |expr|;
    assert s[q..q + 4] == " AS ";
    forall k | q + 4 <= k < |s|
      ensures s[k] != ' '
    {
      assert s[k] == alias[k - q - 4];
    }
    FindLastAsSkips(s, |s| - 4, q);
    assert s[..q] == expr;
    assert s[q + 4..] == alias;
  }

  /** Every raw projection is named after its column and computes the formula or reads the column. */
  lemma MakeColRoundTrip(col: Column)
    requires IsIdentifier(col.name)
    ensures SplitAlias(MakeCol(col)) ==
      Some((if HasFormula(col) then col.formula.value else col.name, col.name))
  {
    ItemRoundTrip(OrElse(col.formula, col.name), col.name);
  }

  /** Every formatted projection is named after its column; only `money` wraps the expression. */
  lemma FormatColRoundTrip(col: Column, select: Option<string>)
    requires IsIdentifier(col.name)
    ensures SplitAlias(FormatCol(col, select)) ==
      Some((if col.format == Some("money") then "printf(\"%.2f\", " + OrElse(select, col.name) + ")"
            else OrElse(select, col.name), col.name))
  {
    ItemRoundTrip(FormattedExpr(col, select), col.name);
  }

  /**
   * The first select of the formatted view lists the columns in descriptor
   * order, each projection aliased to its column.
   */
  lemma FormattedColumnsAligned(t: TableDesc, i: int)
    requires FormattedScript(t).Ok? && 0 <= i < |t.columns| && IsIdentifier(t.columns[i].name)
    ensures var body := FormattedScript(t).value[1].body;
      |body.first.items| == |t.columns| &&
      SplitAlias(body.first.items[i]).Some? && SplitAlias(body.first.items[i]).value.1 == t.columns[i].name
  {
    var col := t.columns[i];
    var items := FormattedScript(t).value[1].body.first.items;
    assert items == MapFormatCol(t.columns);
    assert items[i] == FormatCol(col, None);
    FormatColRoundTrip(col, None);
  }

  /**
   * The summary row lists the columns in the same order, and the footer cell
   * of a column is NULL, `sum(name)` or `avg(name)` as its summary says,
   * formatted like the column and aliased to it.
   */
  lemma SummaryRowAligned(t: TableDesc, i: int)
    requires FormattedScript(t).Ok? && 0 <= i < |t.columns| && IsIdentifier(t.columns[i].name)
    ensures var items := FormattedScript(t).value[1].body.second.items;
      |items| == |t.columns| &&
      SplitAlias(items[i]) == Some((FormattedExpr(t.columns[i],
        Some(match SummaryKey(t.columns[i])
             case "sum" => "sum(" + t.columns[i].name + ")"
             case "avg" => "avg(" + t.columns[i].name + ")"
             case _ => "NULL")), t.columns[i].name))
  {
    var col := t.columns[i];
    var items := FormattedScript(t).value[1].body.second.items;
    assert Ok(items) == SummaryItems(t.columns);
    assert Ok(items[i]) == SummaryCell(col);
    var s := SummaryOf(col).value;
    assert items[i] == FormatCol(col, Some(ApplySummary(s, col.name)));
    ItemRoundTrip(FormattedExpr(col, Some(ApplySummary(s, col.name))), col.name);
    SummaryText(col);
  }

  lemma SummaryText(col: Column)
    requires SummaryOf(col).Some?
    ensures ApplySummary(SummaryOf(col).value, col.name) ==
      match SummaryKey(col)
      case "sum" => "sum(" + col.name + ")"
      case "avg" => "avg(" + col.name + ")"
      case _ => "NULL"
  {
  }
}
