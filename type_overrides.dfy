/** `apply_duckdb_type_overrides`: for every table named in the overrides and
    every column named for it, the column's type is changed with
    `ALTER TABLE … SET DATA TYPE … USING TRY_CAST(…)`, unless the table or the
    column is missing or the column already has the target type (compared
    without regard to case). The DuckDB file is modelled by what
    `PRAGMA table_info` reports for each table, and DuckDB itself by the type
    names it accepts and the name under which it then reports each. */
module TypeOverrides {
  import opened Wrappers
  import opened Text

  /** A row of `PRAGMA table_info`: a column's name and type. */
  datatype ColumnInfo = ColumnInfo(name: string, colType: string)

  /** The tables of the DuckDB file, each with its columns in order. */
  type Catalog = map<string, seq<ColumnInfo>>

  /** The type names DuckDB accepts in `SET DATA TYPE`, each with the name
      `PRAGMA table_info` reports afterwards (`INT` is reported as `INTEGER`). */
  type Engine = map<string, string>

  /** What happens for a table or a column. */
  datatype Step =
    | FileMissing
    | TableMissing(table: string)
    | ColumnMissing(table: string, column: string)
    | AlreadyTarget(table: string, column: string)
    | Altered(table: string, column: string, sql: string)
    | AlterFailed(table: string, column: string, sql: string)

  /** The ALTER statement; names are double-quoted, the type is not. */
  function AlterSql(table: string, column: string, target: string): string
  {
    "ALTER TABLE \"" + table + "\" ALTER COLUMN \"" + column + "\" SET DATA TYPE " + target
      + " USING TRY_CAST(\"" + column + "\" AS " + target + ");"
  }

  // ---------------------------------------------------------------------------
  // Looking up a column's current type
  // ---------------------------------------------------------------------------

  /** The type of the first column with the given name. */
  function FindType(details: seq<ColumnInfo>, column: string): Option<string>
  {
    if |details| == 0 then None
    else if details[0].name == column then Some(details[0].colType)
    else FindType(details[1..], column)
  }

  /** No column before position `k` has the name. */
  predicate NoneBefore(details: seq<ColumnInfo>, column: string, k: int)
  {
    forall j :: 0 <= j < k && j < |details| ==> details[j].name != column
  }

  /** `None` exactly when no column has the name; otherwise the type of the
      first column that has it. */
  lemma {:induction false} FindTypeSpec(details: seq<ColumnInfo>, column: string)
    ensures FindType(details, column).None? <==> forall j :: 0 <= j < |details| ==> details[j].name != column
    ensures forall k :: 0 <= k < |details| && details[k].name == column && NoneBefore(details, column, k) ==>
              FindType(details, column) == Some(details[k].colType)
  {
    if |details| > 0 {
      FindTypeSpec(details[1..], column);
      forall k | 0 <= k < |details| && details[k].name == column && NoneBefore(details, column, k)
        ensures FindType(details, column) == Some(details[k].colType)
      {
        if k > 0 {
          assert details[1..][k - 1] == details[k];
          assert forall j :: 0 <= j < k - 1 ==> details[1..][j].name != column by {
            forall j | 0 <= j < k - 1 ensures details[1..][j].name != column {
              assert details[1..][j] == details[j + 1];
            }
          }
        }
      }
      if forall j :: 0 <= j < |details[1..]| ==> details[1..][j].name != column {
        forall j | 0 <= j < |details| && j > 0 ensures details[j].name != column {
          assert details[j] == details[1..][j - 1];
        }
      }
    }
  }

  /** The inner search of the source: scan the rows until the name matches. */
  method FindColumnType(details: seq<ColumnInfo>, column: string) returns (found: Option<string>)
    ensures found == FindType(details, column)
  {
    var k := 0;
    while k < |details| && details[k].name != column
      invariant 0 <= k <= |details|
      invariant forall j :: 0 <= j < k ==> details[j].name != column
    {
      k := k + 1;
    }
    FindTypeSpec(details, column);
    found := if k < |details| then Some(details[k].colType) else None;
  }

  /** The columns after a successful ALTER of `column` to a type reported as
      `reported`. */
  function SetType(details: seq<ColumnInfo>, column: string, reported: string): seq<ColumnInfo>
  {
    seq(|details|, k requires 0 <= k < |details| =>
      if details[k].name == column then ColumnInfo(column, reported) else details[k])
  }

  /** The altered column now has the reported type; every other column keeps
      its type; no column is added, dropped or renamed. */
  lemma {:induction false} SetTypeEffect(details: seq<ColumnInfo>, column: string, reported: string, other: string)
    ensures |SetType(details, column, reported)| == |details|
    ensures forall k :: 0 <= k < |details| ==> SetType(details, column, reported)[k].name == details[k].name
    ensures FindType(details, column).Some? ==> FindType(SetType(details, column, reported), column) == Some(reported)
    ensures other != column ==> FindType(SetType(details, column, reported), other) == FindType(details, other)
  {
    if |details| > 0 {
      SetTypeEffect(details[1..], column, reported, other);
      assert SetType(details, column, reported)[1..] == SetType(details[1..], column, reported);
    }
  }

  // ---------------------------------------------------------------------------
  // The run over the overrides
  // ---------------------------------------------------------------------------

  /** `PRAGMA table_info` returns rows for the table. */
  predicate HasTable(cat: Catalog, table: string)
  {
    table in cat && |cat[table]| > 0
  }

  /** One column override against the current catalog. */
  function ApplyColumn(cat: Catalog, table: string, column: string, target: string, engine: Engine): (Catalog, Step)
  {
    var details := if table in cat then cat[table] else [];
    match FindType(details, column)
    case None => (cat, ColumnMissing(table, column))
    case Some(current) =>
      if Lower(current) == Lower(target) then (cat, AlreadyTarget(table, column))
      else if target in engine then (cat[table := SetType(details, column, engine[target])], Altered(table, column, AlterSql(table, column, target)))
      else (cat, AlterFailed(table, column, AlterSql(table, column, target)))
  }

  /** The column overrides of one table, in order. */
  function ApplyColumns(cat: Catalog, table: string, cols: seq<(string, string)>, engine: Engine): (Catalog, seq<Step>)
    decreases |cols|
  {
    if |cols| == 0 then (cat, [])
    else
      var first := ApplyColumn(cat, table, cols[0].0, cols[0].1, engine);
      var rest := ApplyColumns(first.0, table, cols[1..], engine);
      (rest.0, [first.1] + rest.1)
  }

  /** All overrides, table by table; a missing table is skipped as a whole. */
  function ApplyAll(cat: Catalog, overrides: seq<(string, seq<(string, string)>)>, engine: Engine): (Catalog, seq<Step>)
    decreases |overrides|
  {
    if |overrides| == 0 then (cat, [])
    else if !HasTable(cat, overrides[0].0) then
      var rest := ApplyAll(cat, overrides[1..], engine);
      (rest.0, [TableMissing(overrides[0].0)] + rest.1)
    else
      var first := ApplyColumns(cat, overrides[0].0, overrides[0].1, engine);
      var rest := ApplyAll(first.0, overrides[1..], engine);
      (rest.0, first.1 + rest.1)
  }

  /** One column: look up the current type, then skip, alter or fail. */
  method AlterColumn(cat: Catalog, table: string, column: string, target: string, engine: Engine)
    returns (after: Catalog, step: Step)
    ensures (after, step) == ApplyColumn(cat, table, column, target, engine)
  {
    var details := if table in cat then cat[table] else [];
    var current := FindColumnType(details, column);
    if current.None? {
      return cat, ColumnMissing(table, column);
    }
    if Lower(current.value) == Lower(target) {
      return cat, AlreadyTarget(table, column);
    }
    var sql := AlterSql(table, column, target);
    if target in engine {
      after := cat[table := SetType(details, column, engine[target])];
      step := Altered(table, column, sql);
    } else {
      after := cat;
      step := AlterFailed(table, column, sql);
    }
  }

  /** The inner loop over one table's column overrides. */
  method AlterColumns(cat: Catalog, table: string, cols: seq<(string, string)>, engine: Engine)
    returns (after: Catalog, steps: seq<Step>)
    ensures (after, steps) == ApplyColumns(cat, table, cols, engine)
  {
    ghost var whole := ApplyColumns(cat, table, cols, engine);
    after := cat;
    steps := [];
    var i := 0;
    assert cols[0..] == cols;
    while i < |cols|
      invariant 0 <= i <= |cols|
      invariant whole.0 == ApplyColumns(after, table, cols[i..], engine).0
      invariant whole.1 == steps + ApplyColumns(after, table, cols[i..], engine).1
    {
      assert cols[i..][0] == cols[i] && cols[i..][1..] == cols[i + 1..];
      var next, step := AlterColumn(after, table, cols[i].0, cols[i].1, engine);
      ghost var rest := ApplyColumns(next, table, cols[i + 1..], engine);
      Regroup(steps, [step], rest.1);
      after := next;
      steps := steps + [step];
      i := i + 1;
    }
    assert cols[i..] == [];
    assert steps + [] == steps;
  }

  /** The whole function: nothing when the file is missing; otherwise the outer
      loop over the tables. */
  method ApplyTypeOverrides(fileExists: bool, cat: Catalog, overrides: seq<(string, seq<(string, string)>)>, engine: Engine)
    returns (after: Catalog, steps: seq<Step>)
    ensures !fileExists ==> after == cat && steps == [FileMissing]
    ensures fileExists ==> (after, steps) == ApplyAll(cat, overrides, engine)
  {
    if !fileExists {
      return cat, [FileMissing];
    }
    ghost var whole := ApplyAll(cat, overrides, engine);
    after := cat;
    steps := [];
    var i := 0;
    assert overrides[0..] == overrides;
    while i < |overrides|
      invariant 0 <= i <= |overrides|
      invariant whole.0 == ApplyAll(after, overrides[i..], engine).0
      invariant whole.1 == steps + ApplyAll(after, overrides[i..], engine).1
    {
      assert overrides[i..][0] == overrides[i] && overrides[i..][1..] == overrides[i + 1..];
      var (table, cols) := overrides[i];
      if !(table in after && |after[table]| > 0) {
        ghost var rest := ApplyAll(after, overrides[i + 1..], engine);
        Regroup(steps, [TableMissing(table)], rest.1);
        steps := steps + [TableMissing(table)];
      } else {
        var next, tableSteps := AlterColumns(after, table, cols, engine);
        ghost var rest := ApplyAll(next, overrides[i + 1..], engine);
        Regroup(steps, tableSteps, rest.1);
        after := next;
        steps := steps + tableSteps;
      }
      i := i + 1;
    }
    assert overrides[i..] == [];
    assert steps + [] == steps;
  }

  // ---------------------------------------------------------------------------
  // What a run achieves
  // ---------------------------------------------------------------------------

  /** The column has the target type as DuckDB shows it: the same name up to
      case, or the name DuckDB reports for the target. A missing table or
      column, or a type DuckDB refuses, leaves nothing to settle. */
  predicate Settled(cat: Catalog, table: string, column: string, target: string, engine: Engine)
  {
    HasTable(cat, table) && FindType(cat[table], column).Some? && target in engine ==>
      Lower(FindType(cat[table], column).value) == Lower(target)
      || FindType(cat[table], column).value == engine[target]
  }

  /** No two overrides of a table name the same column (dictionary keys). */
  predicate DistinctColumns(cols: seq<(string, string)>)
  {
    forall i, j :: 0 <= i < j < |cols| ==> cols[i].0 != cols[j].0
  }

  /** No table appears twice, and no column twice within a table. */
  predicate DistinctOverrides(overrides: seq<(string, seq<(string, string)>)>)
  {
    && (forall i, j :: 0 <= i < j < |overrides| ==> overrides[i].0 != overrides[j].0)
    && (forall i :: 0 <= i < |overrides| ==> DistinctColumns(overrides[i].1))
  }

  /** One column override settles its column, touches no other table and no
      other column, and neither creates nor empties a table. */
  lemma ApplyColumnEffect(cat: Catalog, table: string, column: string, target: string, engine: Engine)
    ensures var after := ApplyColumn(cat, table, column, target, engine).0;
      && after.Keys == cat.Keys
      && (forall t :: HasTable(after, t) == HasTable(cat, t))
      && (forall t :: t in cat && t != table ==> after[t] == cat[t])
      && (forall c :: c != column && table in cat ==> FindType(after[table], c) == FindType(cat[table], c))
      && Settled(after, table, column, target, engine)
  {
    var details := if table in cat then cat[table] else [];
    SetTypeEffect(details, column, if target in engine then engine[target] else "", column);
    forall c | c != column
      ensures FindType(SetType(details, column, if target in engine then engine[target] else ""), c) == FindType(details, c)
    {
      SetTypeEffect(details, column, if target in engine then engine[target] else "", c);
    }
  }

  /** The overrides of one table settle each of its named columns and change
      nothing else. */
  lemma {:induction false} ApplyColumnsEffect(cat: Catalog, table: string, cols: seq<(string, string)>, engine: Engine)
    requires DistinctColumns(cols)
    ensures var after := ApplyColumns(cat, table, cols, engine).0;
      && after.Keys == cat.Keys
      && (forall t :: HasTable(after, t) == HasTable(cat, t))
      && (forall t :: t in cat && t != table ==> after[t] == cat[t])
      && (forall c :: table in cat && (forall j :: 0 <= j < |cols| ==> cols[j].0 != c) ==>
            FindType(after[table], c) == FindType(cat[table], c))
      && (forall j :: 0 <= j < |cols| ==> Settled(after, table, cols[j].0, cols[j].1, engine))
    decreases |cols|
  {
    if |cols| > 0 {
      var first := ApplyColumn(cat, table, cols[0].0, cols[0].1, engine).0;
      ApplyColumnEffect(cat, table, cols[0].0, cols[0].1, engine);
      assert DistinctColumns(cols[1..]) by {
        forall i, j | 0 <= i < j < |cols[1..]| ensures cols[1..][i].0 != cols[1..][j].0 {
          assert cols[1..][i] == cols[i + 1] && cols[1..][j] == cols[j + 1];
        }
      }
      ApplyColumnsEffect(first, table, cols[1..], engine);
      var after := ApplyColumns(cat, table, cols, engine).0;
      assert after == ApplyColumns(first, table, cols[1..], engine).0;
      forall c | table in cat && (forall j :: 0 <= j < |cols| ==> cols[j].0 != c)
        ensures FindType(after[table], c) == FindType(cat[table], c)
      {
        assert cols[0].0 != c;
        forall j | 0 <= j < |cols[1..]| ensures cols[1..][j].0 != c {
          assert cols[1..][j] == cols[j + 1];
        }
      }
      forall j | 0 <= j < |cols|
        ensures Settled(after, table, cols[j].0, cols[j].1, engine)
      {
        if j == 0 {
          if table in cat {
            forall m | 0 <= m < |cols[1..]| ensures cols[1..][m].0 != cols[0].0 {
              assert cols[1..][m] == cols[m + 1];
            }
            assert FindType(after[table], cols[0].0) == FindType(first[table], cols[0].0);
          }
        } else {
          assert cols[1..][j - 1] == cols[j];
        }
      }
    }
  }

  /** Every override whose table and column exist and whose type DuckDB accepts
      is in place after the run; tables that no override names are untouched;
      no table appears or disappears. */
  lemma {:induction false} ApplyAllSettles(cat: Catalog, overrides: seq<(string, seq<(string, string)>)>, engine: Engine)
    requires DistinctOverrides(overrides)
    ensures var after := ApplyAll(cat, overrides, engine).0;
      && after.Keys == cat.Keys
      && (forall t :: HasTable(after, t) == HasTable(cat, t))
      && (forall t :: t in cat && (forall i :: 0 <= i < |overrides| ==> overrides[i].0 != t) ==> after[t] == cat[t])
      && (forall i, j :: 0 <= i < |overrides| && 0 <= j < |overrides[i].1| ==>
            Settled(after, overrides[i].0, overrides[i].1[j].0, overrides[i].1[j].1, engine))
    decreases |overrides|
  {
    if |overrides| > 0 {
      var table := overrides[0].0;
      var first := if HasTable(cat, table) then ApplyColumns(cat, table, overrides[0].1, engine).0 else cat;
      if HasTable(cat, table) {
        ApplyColumnsEffect(cat, table, overrides[0].1, engine);
      }
      assert DistinctOverrides(overrides[1..]) by {
        forall i, j | 0 <= i < j < |overrides[1..]| ensures overrides[1..][i].0 != overrides[1..][j].0 {
          assert overrides[1..][i] == overrides[i + 1] && overrides[1..][j] == overrides[j + 1];
        }
        forall i | 0 <= i < |overrides[1..]| ensures DistinctColumns(overrides[1..][i].1) {
          assert overrides[1..][i] == overrides[i + 1];
        }
      }
      ApplyAllSettles(first, overrides[1..], engine);
      var after := ApplyAll(cat, overrides, engine).0;
      assert after == ApplyAll(first, overrides[1..], engine).0;
      forall t | t in cat && (forall i :: 0 <= i < |overrides| ==> overrides[i].0 != t)
        ensures after[t] == cat[t]
      {
        assert overrides[0].0 != t;
        forall i | 0 <= i < |overrides[1..]| ensures overrides[1..][i].0 != t {
          assert overrides[1..][i] == overrides[i + 1];
        }
      }
      forall i, j | 0 <= i < |overrides| && 0 <= j < |overrides[i].1|
        ensures Settled(after, overrides[i].0, overrides[i].1[j].0, overrides[i].1[j].1, engine)
      {
        if i == 0 {
          if HasTable(cat, table) {
            forall m | 0 <= m < |overrides[1..]| ensures overrides[1..][m].0 != table {
              assert overrides[1..][m] == overrides[m + 1];
            }
            assert after[table] == first[table];
          }
        } else {
          assert overrides[1..][i - 1] == overrides[i];
        }
      }
    }
  }

  /** DuckDB reports each accepted type under the name it was given, up to case. */
  predicate FaithfulNames(engine: Engine)
  {
    forall target :: target in engine ==> Lower(engine[target]) == Lower(target)
  }

  /** No step is an ALTER that went through. */
  predicate NoAlters(steps: seq<Step>)
  {
    forall k :: 0 <= k < |steps| ==> !steps[k].Altered?
  }

  /** A settled column is left alone. */
  lemma ApplyColumnSettled(cat: Catalog, table: string, column: string, target: string, engine: Engine)
    requires FaithfulNames(engine) && Settled(cat, table, column, target, engine)
    ensures ApplyColumn(cat, table, column, target, engine).0 == cat
    ensures !ApplyColumn(cat, table, column, target, engine).1.Altered?
  {
    var details := if table in cat then cat[table] else [];
    if FindType(details, column).Some? && target in engine {
      assert HasTable(cat, table);
    }
  }

  lemma {:induction false} ApplyColumnsSettled(cat: Catalog, table: string, cols: seq<(string, string)>, engine: Engine)
    requires FaithfulNames(engine)
    requires forall j :: 0 <= j < |cols| ==> Settled(cat, table, cols[j].0, cols[j].1, engine)
    ensures ApplyColumns(cat, table, cols, engine).0 == cat
    ensures NoAlters(ApplyColumns(cat, table, cols, engine).1)
    decreases |cols|
  {
    if |cols| > 0 {
      ApplyColumnSettled(cat, table, cols[0].0, cols[0].1, engine);
      forall j | 0 <= j < |cols[1..]| ensures Settled(cat, table, cols[1..][j].0, cols[1..][j].1, engine) {
        assert cols[1..][j] == cols[j + 1];
      }
      ApplyColumnsSettled(cat, table, cols[1..], engine);
    }
  }

  /** When every override is already settled, a run changes nothing and alters
      nothing. */
  lemma {:induction false} ApplyAllSettled(cat: Catalog, overrides: seq<(string, seq<(string, string)>)>, engine: Engine)
    requires FaithfulNames(engine)
    requires forall i, j :: 0 <= i < |overrides| && 0 <= j < |overrides[i].1| ==>
      Settled(cat, overrides[i].0, overrides[i].1[j].0, overrides[i].1[j].1, engine)
    ensures ApplyAll(cat, overrides, engine).0 == cat
    ensures NoAlters(ApplyAll(cat, overrides, engine).1)
    decreases |overrides|
  {
    if |overrides| > 0 {
      if HasTable(cat, overrides[0].0) {
        ApplyColumnsSettled(cat, overrides[0].0, overrides[0].1, engine);
      }
      forall i, j | 0 <= i < |overrides[1..]| && 0 <= j < |overrides[1..][i].1|
        ensures Settled(cat, overrides[1..][i].0, overrides[1..][i].1[j].0, overrides[1..][i].1[j].1, engine)
      {
        assert overrides[1..][i] == overrides[i + 1];
      }
      ApplyAllSettled(cat, overrides[1..], engine);
    }
  }

  /** Running the overrides a second time changes nothing and issues no ALTER
      that goes through, provided DuckDB reports each accepted type under the
      name it was given. */
  lemma RerunChangesNothing(cat: Catalog, overrides: seq<(string, seq<(string, string)>)>, engine: Engine)
    requires DistinctOverrides(overrides) && FaithfulNames(engine)
    ensures var once := ApplyAll(cat, overrides, engine).0;
      var twice := ApplyAll(once, overrides, engine);
      twice.0 == once && NoAlters(twice.1)
  {
    ApplyAllSettles(cat, overrides, engine);
    ApplyAllSettled(ApplyAll(cat, overrides, engine).0, overrides, engine);
  }

  /** Without that proviso a second run alters again: a column overridden to
      `INT`, which DuckDB reports as `INTEGER`, is altered on every run. */
  lemma AliasAlteredEveryRun()
    ensures var engine := map["INT" := "INTEGER"];
      var overrides := [("t", [("c", "INT")])];
      var once := ApplyAll(map["t" := [ColumnInfo("c", "BIGINT")]], overrides, engine);
      var twice := ApplyAll(once.0, overrides, engine);
      && once.0 == map["t" := [ColumnInfo("c", "INTEGER")]]
      && twice.0 == once.0
      && twice.1 == [Altered("t", "c", AlterSql("t", "c", "INT"))]
  {
    var engine := map["INT" := "INTEGER"];
    var before := map["t" := [ColumnInfo("c", "BIGINT")]];
    var once := map["t" := [ColumnInfo("c", "INTEGER")]];
    assert Lower("BIGINT") != Lower("INT") by { assert Lower("BIGINT")[0] == 'b'; }
    assert Lower("INTEGER") != Lower("INT");
    assert SetType([ColumnInfo("c", "BIGINT")], "c", "INTEGER") == [ColumnInfo("c", "INTEGER")];
    assert SetType([ColumnInfo("c", "INTEGER")], "c", "INTEGER") == [ColumnInfo("c", "INTEGER")];
    assert HasTable(before, "t") && HasTable(once, "t");
    assert [("t", [("c", "INT")])][1..] == [];
    assert [("c", "INT")][1..] == [];
  }
}
