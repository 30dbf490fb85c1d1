/** `load_mssql_to_duckdb`: for every listed table, what the loader derives
    from the source's answers before it runs anything: the DuckDB table it
    creates, the bcp export it runs and the COPY that loads the export; plus
    the early exits and the line-by-line removal of NUL characters from the
    exported file. Running bcp, reading and writing files and executing SQL are
    not modelled: the source's answers are inputs and the statements outputs. */
module MssqlToDuckdb {
  import opened Wrappers
  import opened Text
  import opened TableNames
  import opened DuckdbSchema
  import opened Bcp
  import MetaTable

  /** The directory the temporary exports go to. */
  const LocalDir := ".local"

  /** What the loader derives for one table: its names, where its columns were
      looked up, the DuckDB column definitions and the bcp select list. The
      statements it issues follow from these (`StatementsFor`). */
  datatype TablePlan = TablePlan(
    source: string,
    friendly: string,
    location: QualifiedName,
    definitions: seq<string>,
    selectList: seq<string>)

  /** `os.path.join('.local', f"{friendly}.csv")`. */
  function CsvPath(friendly: string): string
  {
    JoinPath(LocalDir, friendly + ".csv")
  }

  /** How DuckDB reads the export: tab-separated UTF-16 text without header or
      quoting, padding short rows and skipping rows it cannot read. */
  const CopyOptions := " (FORMAT CSV, DELIMITER '\t', HEADER FALSE, NULL_PADDING TRUE, QUOTE '', STRICT_MODE FALSE, IGNORE_ERRORS TRUE, ENCODING 'utf-16');"

  /** The COPY statement that loads the cleaned export into the created table. */
  function CopySql(friendly: string, csvPath: string): string
  {
    "COPY " + friendly + " FROM '" + csvPath + "'" + CopyOptions
  }

  /** The columns of a table as the two source queries describe them: the names
      in the order `SELECT TOP 1 *` reports, each with the DATA_TYPE that
      INFORMATION_SCHEMA.COLUMNS holds under (schema, table, column). */
  function SourceColumns(names: seq<string>, location: QualifiedName, types: map<(string, string, string), string>): seq<SourceColumn>
  {
    seq(|names|, k requires 0 <= k < |names| =>
      var key := (location.schema, location.table, names[k]);
      SourceColumn(names[k], if key in types then Some(types[key]) else None))
  }

  /** The CREATE TABLE definitions of a table's columns. */
  function TableDefinitions(cols: seq<SourceColumn>): seq<string>
  {
    seq(|cols|, k requires 0 <= k < |cols| => ColumnDefinition(cols[k].name, Classify(cols[k]).duckType))
  }

  /** The bcp select list of a table's columns. */
  function TableSelectList(cols: seq<SourceColumn>): seq<string>
  {
    seq(|cols|, k requires 0 <= k < |cols| => SelectItem(cols[k].name, Classify(cols[k]).sqlType))
  }

  /** The plan for one resolved table, or `None` when the loader skips it:
      the column query raised (no entry in `columnsOf`) or found no columns. */
  function PlanFor(ref: TableRef, columnsOf: map<string, seq<string>>, types: map<(string, string, string), string>): Option<TablePlan>
  {
    if ref.source !in columnsOf || |columnsOf[ref.source]| == 0 then None
    else
      var location := SchemaAndTable(ref.source);
      var cols := SourceColumns(columnsOf[ref.source], location, types);
      Some(TablePlan(ref.source, ref.friendly, location, TableDefinitions(cols), TableSelectList(cols)))
  }

  /** `DROP TABLE IF EXISTS <friendly>;` */
  function DropSql(p: TablePlan): string
  {
    "DROP TABLE IF EXISTS " + p.friendly + ";"
  }

  /** The CREATE TABLE statement of the target table. */
  function CreateSql(p: TablePlan): string
  {
    CreateTableSql(p.friendly, p.definitions)
  }

  /** The bcp command that exports the table. */
  function ExportCommand(p: TablePlan, topN: int, server: string, database: string): seq<string>
  {
    BcpCommand(BcpQuery(topN, SelectClause(p.selectList), p.source), CsvPath(p.friendly), server, database)
  }

  /** The COPY statement that loads the export. */
  function LoadSql(p: TablePlan): string
  {
    CopySql(p.friendly, CsvPath(p.friendly))
  }

  /** The plans for a list of entries, in order, stopping at the first entry
      that cannot be read (the loader raises there). */
  function PlanAll(items: seq<TableItem>, nested: bool, columnsOf: map<string, seq<string>>,
                   types: map<(string, string, string), string>)
    : (seq<TablePlan>, Option<ItemError>)
  {
    if |items| == 0 then ([], None)
    else
      match ResolveItem(items[0], nested)
      case Err(e) => ([], Some(e))
      case Ok(entry) =>
        var rest := PlanAll(items[1..], nested, columnsOf, types);
        var here := PlanFor(entry, columnsOf, types);
        ((if here.Some? then [here.value] else []) + rest.0, rest.1)
  }

  /** The per-table loop: resolve the names, build the column definitions and
      the bcp select list, skip tables without columns. */
  method PlanTables(items: seq<TableItem>, columnsOf: map<string, seq<string>>,
                    types: map<(string, string, string), string>)
    returns (plans: seq<TablePlan>, failure: Option<ItemError>)
    ensures (plans, failure) == PlanAll(items, IsNested(items), columnsOf, types)
  {
    var nested := IsNested(items);
    plans := [];
    failure := None;
    var i := 0;
    ghost var whole := PlanAll(items, nested, columnsOf, types);
    assert items[0..] == items;
    assert [] + whole.0 == whole.0;
    while i < |items|
      invariant 0 <= i <= |items|
      invariant whole.0 == plans + PlanAll(items[i..], nested, columnsOf, types).0
      invariant whole.1 == PlanAll(items[i..], nested, columnsOf, types).1
    {
      PlanAllStep(items, i, nested, columnsOf, types);
      ghost var rest := PlanAll(items[i + 1..], nested, columnsOf, types);
      var resolved := ResolveItem(items[i], nested);
      if resolved.Err? {
        failure := Some(resolved.error);
        assert plans + [] == plans;
        return;
      }
      var planned := PlanTable(resolved.value, columnsOf, types);
      if planned.Some? {
        Regroup(plans, [planned.value], rest.0);
        plans := plans + [planned.value];
      } else {
        assert [] + rest.0 == rest.0;
      }
      assert whole.0 == plans + rest.0 && whole.1 == rest.1;
      i := i + 1;
    }
    assert items[i..] == [];
    assert plans + [] == plans;
  }

  /** The body of the per-table loop for a resolved entry: the column
      definitions and the select list, or nothing when the table has no
      columns. */
  method PlanTable(ref: TableRef, columnsOf: map<string, seq<string>>, types: map<(string, string, string), string>)
    returns (plan: Option<TablePlan>)
    ensures plan == PlanFor(ref, columnsOf, types)
  {
    if ref.source !in columnsOf || |columnsOf[ref.source]| == 0 {
      return None;
    }
    var location := SchemaAndTable(ref.source);
    var cols := SourceColumns(columnsOf[ref.source], location, types);
    var defs, typed := BuildColumnDefinitions(cols);
    var selectList := SelectColumns(typed);
    LoopResultsMatch(cols, defs, typed, selectList);
    plan := Some(TablePlan(ref.source, ref.friendly, location, defs, selectList));
  }

  /** What the two column loops return is what the plan specifies. */
  lemma LoopResultsMatch(cols: seq<SourceColumn>, defs: seq<string>, typed: seq<(string, string)>, selectList: seq<string>)
    requires |defs| == |cols| && |typed| == |cols| && |selectList| == |typed|
    requires forall k :: 0 <= k < |cols| ==> defs[k] == ColumnDefinition(cols[k].name, Classify(cols[k]).duckType)
    requires forall k :: 0 <= k < |cols| ==> typed[k] == (cols[k].name, Classify(cols[k]).sqlType)
    requires forall k :: 0 <= k < |typed| ==> selectList[k] == SelectItem(typed[k].0, typed[k].1)
    ensures defs == TableDefinitions(cols) && selectList == TableSelectList(cols)
  {
  }

  /** One step of `PlanAll` from position `i`. */
  lemma PlanAllStep(items: seq<TableItem>, i: nat, nested: bool, columnsOf: map<string, seq<string>>,
                    types: map<(string, string, string), string>)
    requires i < |items|
    ensures ResolveItem(items[i], nested).Err? ==>
      PlanAll(items[i..], nested, columnsOf, types) == ([], Some(ResolveItem(items[i], nested).error))
    ensures ResolveItem(items[i], nested).Ok? ==>
      var here := PlanFor(ResolveItem(items[i], nested).value, columnsOf, types);
      var rest := PlanAll(items[i + 1..], nested, columnsOf, types);
      PlanAll(items[i..], nested, columnsOf, types)
        == ((if here.Some? then [here.value] else []) + rest.0, rest.1)
  {
    assert items[i..][0] == items[i] && items[i..][1..] == items[i + 1..];
  }

  /** What the loader does as a whole. */
  datatype LoadResult =
    | TargetExists
    | Loaded(meta: Option<MetaTable.MetaStatements>, tables: Option<(seq<TablePlan>, Option<ItemError>)>,
             statements: seq<TableStatements>)

  /** What the loader issues for one planned table, in order: the DROP and the
      CREATE in DuckDB, the bcp export, and the COPY that loads the export. */
  datatype TableStatements = TableStatements(drop: string, create: string, bcp: seq<string>, copy: string)

  function StatementsFor(p: TablePlan, topN: int, server: string, database: string): TableStatements
  {
    TableStatements(DropSql(p), CreateSql(p), ExportCommand(p, topN, server, database), LoadSql(p))
  }

  /** The statements of each planned table, in plan order. */
  method IssueStatements(plans: seq<TablePlan>, topN: int, server: string, database: string)
    returns (stmts: seq<TableStatements>)
    ensures |stmts| == |plans|
    ensures forall k :: 0 <= k < |plans| ==> stmts[k] == StatementsFor(plans[k], topN, server, database)
  {
    stmts := [];
    for i := 0 to |plans|
      invariant |stmts| == i
      invariant forall k :: 0 <= k < i ==> stmts[k] == StatementsFor(plans[k], topN, server, database)
    {
      var p := plans[i];
      var query := BcpQuery(topN, SelectClause(p.selectList), p.source);
      var csv := CsvPath(p.friendly);
      stmts := stmts + [TableStatements(
        "DROP TABLE IF EXISTS " + p.friendly + ";",
        CreateTableSql(p.friendly, p.definitions),
        BcpCommand(query, csv, server, database),
        CopySql(p.friendly, csv))];
    }
  }

  /** The loader: nothing when the DuckDB file exists; otherwise the `_meta`
      statements when metadata is given, and then the tables, unless the source
      connection does not yield both a server and a database name. */
  method LoadMssqlToDuckdb(fileExists: bool, meta: Option<seq<(string, MetaTable.MetaValue)>>,
                           server: Option<string>, database: Option<string>,
                           items: seq<TableItem>, columnsOf: map<string, seq<string>>,
                           types: map<(string, string, string), string>, topN: int)
    returns (r: LoadResult)
    ensures r.TargetExists? <==> fileExists
    ensures r.Loaded? ==> (r.meta.Some? <==> meta.Some?)
    ensures r.Loaded? && meta.Some? ==> r.meta.value == MetaTable.MetaSql(meta.value)
    ensures r.Loaded? ==> (r.tables.Some? <==> server.Some? && server.value != "" && database.Some? && database.value != "")
    ensures r.Loaded? && r.tables.Some? ==>
      r.tables.value == PlanAll(items, IsNested(items), columnsOf, types)
    ensures r.Loaded? && r.tables.None? ==> r.statements == []
    ensures r.Loaded? && r.tables.Some? ==>
      && |r.statements| == |r.tables.value.0|
      && forall k :: 0 <= k < |r.statements| ==>
           r.statements[k] == StatementsFor(r.tables.value.0[k], topN, server.value, database.value)
  {
    if fileExists {
      return TargetExists;
    }
    var metaSql: Option<MetaTable.MetaStatements> := None;
    if meta.Some? {
      metaSql := Some(MetaTable.MetaSql(meta.value));
    }
    if server.None? || server.value == "" || database.None? || database.value == "" {
      return Loaded(metaSql, None, []);
    }
    var plans, failure := PlanTables(items, columnsOf, types);
    var stmts := IssueStatements(plans, topN, server.value, database.value);
    r := Loaded(metaSql, Some((plans, failure)), stmts);
  }

  // ---------------------------------------------------------------------------
  // What the plans promise
  // ---------------------------------------------------------------------------

  /** For one column, the CREATE TABLE definition and the bcp select entry name
      the same column, and the entry cleanses exactly the character types. */
  lemma ColumnAgreement(c: SourceColumn)
    requires '"' !in c.name
    ensures ParseColumnDefinition(ColumnDefinition(c.name, Classify(c).duckType)) == Some((c.name, Classify(c).duckType))
    ensures ReadSelectItem(SelectItem(c.name, Classify(c).sqlType))
         == if Classify(c).sqlType in CharacterTypes then Cleansed(c.name) else Raw(c.name)
  {
    var types := Classify(c);
    ColumnDefinitionRoundTrip(c.name, types.duckType);
    SelectItemRoundTrip(c.name, types.sqlType);
  }

  /** A cleansed column is always a VARCHAR column in DuckDB, and a column
      without a recorded type is cleansed. */
  lemma CleansedIsVarchar(c: SourceColumn)
    ensures Classify(c).sqlType in CharacterTypes ==> Classify(c).duckType == "VARCHAR"
    ensures c.dataType.None? ==> ReadSelectItem(SelectItem(c.name, Classify(c).sqlType)) == Cleansed(c.name)
  {
    var types := Classify(c);
    if types.sqlType in CharacterTypes {
      CharacterTypesAreVarchar(types.sqlType);
    }
    if c.dataType.None? {
      assert types.sqlType == CharacterTypes[1];
      CleansedReadsBack(c.name);
    }
  }

  /** Every type bcp cleanses maps to VARCHAR. */
  lemma CharacterTypesAreVarchar(t: string)
    requires t in CharacterTypes
    ensures DuckDbType(t) == "VARCHAR"
  {
    assert t == "char" || t == "varchar" || t == "nvarchar" || t == "text" || t == "ntext";
    assert TypeMap["char"] == TypeMap["varchar"] == TypeMap["nvarchar"] == TypeMap["text"] == TypeMap["ntext"] == "VARCHAR";
  }

  /** A table is skipped exactly when its columns are unknown or empty; a
      planned table keeps its target name and has one definition and one select
      entry per source column. */
  lemma PlanForShape(ref: TableRef, columnsOf: map<string, seq<string>>, types: map<(string, string, string), string>)
    ensures var p := PlanFor(ref, columnsOf, types);
      && (p.None? <==> ref.source !in columnsOf || |columnsOf[ref.source]| == 0)
      && (p.Some? ==>
            && p.value.friendly == ref.friendly
            && |p.value.definitions| == |p.value.selectList| == |columnsOf[ref.source]| > 0)
  {
  }

  /** The k-th select entry of a planned table reads the k-th source column. */
  lemma PlanSelectsColumnsInOrder(ref: TableRef, columnsOf: map<string, seq<string>>, types: map<(string, string, string), string>, k: nat)
    requires ref.source in columnsOf && k < |columnsOf[ref.source]|
    ensures var p := PlanFor(ref, columnsOf, types);
      && p.Some?
      && !ReadSelectItem(p.value.selectList[k]).Unknown?
      && ReadSelectItem(p.value.selectList[k]).col == columnsOf[ref.source][k]
  {
    var cols := SourceColumns(columnsOf[ref.source], SchemaAndTable(ref.source), types);
    assert cols[k].name == columnsOf[ref.source][k];
    assert TableSelectList(cols)[k] == SelectItem(cols[k].name, Classify(cols[k]).sqlType);
    SelectItemRoundTrip(cols[k].name, Classify(cols[k]).sqlType);
  }

  /** `.local/<friendly>.csv` for any target name that is not an absolute path. */
  lemma CsvPathInLocalDir(friendly: string)
    requires friendly == "" || friendly[0] != '/'
    ensures CsvPath(friendly) == ".local/" + friendly + ".csv"
  {
  }

  /** bcp writes the export to the file the COPY statement reads. */
  lemma ExportFeedsLoad(p: TablePlan, topN: int, server: string, database: string)
    ensures ExportCommand(p, topN, server, database)[3] == CsvPath(p.friendly)
    ensures "COPY " + p.friendly + " FROM '" + CsvPath(p.friendly) + "'" <= LoadSql(p)
  {
  }

  /** The DROP, the CREATE and the COPY all address the table's target name;
      the COPY reads the file bcp writes; bcp runs the select list against the
      source table, with the row limit, on the source's server and database. */
  lemma StatementsTargetOneTable(p: TablePlan, topN: int, server: string, database: string)
    ensures var st := StatementsFor(p, topN, server, database);
      && "DROP TABLE IF EXISTS " + p.friendly <= st.drop
      && "CREATE TABLE " + p.friendly + " (" <= st.create
      && "COPY " + p.friendly + " FROM '" + st.bcp[3] + "'" <= st.copy
      && DropSuffix(st.bcp[1], " FROM " + p.source) == Some("SELECT" + TopClause(topN) + " " + SelectClause(p.selectList))
      && st.bcp[7] == server && st.bcp[9] == database
  {
    var head := "SELECT" + TopClause(topN) + " " + SelectClause(p.selectList);
    assert BcpQuery(topN, SelectClause(p.selectList), p.source) == head + (" FROM " + p.source);
    DropSuffixGlued(head, " FROM " + p.source);
  }

  /** Every planned table has at least one column, and there are never more
      plans than entries. */
  lemma {:induction false} PlannedTablesHaveColumns(items: seq<TableItem>, nested: bool, columnsOf: map<string, seq<string>>,
                                                    types: map<(string, string, string), string>)
    ensures var plans := PlanAll(items, nested, columnsOf, types).0;
      && |plans| <= |items|
      && forall p :: p in plans ==> |p.definitions| > 0 && |p.definitions| == |p.selectList|
  {
    if |items| > 0 && ResolveItem(items[0], nested).Ok? {
      PlannedTablesHaveColumns(items[1..], nested, columnsOf, types);
      PlanForShape(ResolveItem(items[0], nested).value, columnsOf, types);
    }
  }

  /** When every entry can be read and every table has columns, each entry is
      planned, in order, under its own target name, and nothing fails. */
  lemma {:induction false} AllTablesPlanned(items: seq<TableItem>, nested: bool, columnsOf: map<string, seq<string>>,
                                            types: map<(string, string, string), string>)
    requires forall k :: 0 <= k < |items| ==> ResolveItem(items[k], nested).Ok?
    requires forall k :: 0 <= k < |items| ==>
      ResolveItem(items[k], nested).value.source in columnsOf && |columnsOf[ResolveItem(items[k], nested).value.source]| > 0
    ensures var r := PlanAll(items, nested, columnsOf, types);
      && r.1.None? && |r.0| == |items|
      && forall k :: 0 <= k < |items| ==> r.0[k].friendly == ResolveItem(items[k], nested).value.friendly
  {
    if |items| > 0 {
      AllTablesPlanned(items[1..], nested, columnsOf, types);
      var r := PlanAll(items, nested, columnsOf, types);
      var rest := PlanAll(items[1..], nested, columnsOf, types);
      forall k | 0 <= k < |items|
        ensures r.0[k].friendly == ResolveItem(items[k], nested).value.friendly
      {
        if k > 0 {
          assert r.0[k] == rest.0[k - 1];
          assert items[1..][k - 1] == items[k];
        }
      }
    }
  }

  // ---------------------------------------------------------------------------
  // Removing NUL characters from the export
  // ---------------------------------------------------------------------------

  /** The post-processing pass: every line of the export is written back with
      its NUL characters removed. Cleaning line by line gives the same file as
      cleaning the file at once, and the result holds no NUL. */
  method StripNulLines(lines: seq<string>) returns (cleaned: seq<string>)
    ensures |cleaned| == |lines|
    ensures forall k :: 0 <= k < |lines| ==> cleaned[k] == RemoveChar(lines[k], '\0')
    ensures Concat(cleaned) == RemoveChar(Concat(lines), '\0')
    ensures '\0' !in Concat(cleaned)
  {
    cleaned := [];
    for i := 0 to |lines|
      invariant |cleaned| == i
      invariant forall k :: 0 <= k < i ==> cleaned[k] == RemoveChar(lines[k], '\0')
      invariant Concat(cleaned) == RemoveChar(Concat(lines[..i]), '\0')
    {
      ConcatAppend(lines[..i], lines[i]);
      ConcatAppend(cleaned, RemoveChar(lines[i], '\0'));
      RemoveCharConcat(Concat(lines[..i]), lines[i], '\0');
      assert lines[..i + 1] == lines[..i] + [lines[i]];
      cleaned := cleaned + [RemoveChar(lines[i], '\0')];
    }
    assert lines[..|lines|] == lines;
    RemoveCharGone(Concat(lines), '\0');
  }

  lemma {:induction false} ConcatAppend(xs: seq<string>, x: string)
    ensures Concat(xs + [x]) == Concat(xs) + x
  {
    if |xs| > 0 {
      assert (xs + [x])[1..] == xs[1..] + [x];
      ConcatAppend(xs[1..], x);
    } else {
      assert xs + [x] == [x];
    }
  }
}
