/** The DuckDB schema `load_mssql_to_duckdb` derives from a SQL Server table:
    each source column's type is looked up, lower-cased, in a fixed map (unknown
    types become VARCHAR), and the column becomes a `"name" TYPE` definition. */
module DuckdbSchema {
  import opened Wrappers
  import opened Text

  /** SQL Server type (lower case) to DuckDB type. */
  const TypeMap: map<string, string> := map[
    "bit" := "BOOLEAN",
    "tinyint" := "TINYINT",
    "smallint" := "SMALLINT",
    "int" := "INTEGER",
    "bigint" := "BIGINT",
    "real" := "REAL",
    "float" := "DOUBLE",
    "decimal" := "DECIMAL",
    "numeric" := "DECIMAL",
    "money" := "DECIMAL(19,4)",
    "smallmoney" := "DECIMAL(10,4)",
    "char" := "VARCHAR",
    "varchar" := "VARCHAR",
    "nvarchar" := "VARCHAR",
    "text" := "VARCHAR",
    "ntext" := "VARCHAR",
    "date" := "DATE",
    "datetime" := "TIMESTAMP",
    "datetime2" := "TIMESTAMP",
    "smalldatetime" := "TIMESTAMP",
    "time" := "TIME",
    "uniqueidentifier" := "UUID",
    "binary" := "BLOB",
    "varbinary" := "BLOB",
    "image" := "BLOB"
  ]

  /** A column of the source table, in the order `SELECT TOP 1 *` reports them,
      with the DATA_TYPE that INFORMATION_SCHEMA.COLUMNS returned for it
      (`None` when the query found no row). */
  datatype SourceColumn = SourceColumn(name: string, dataType: Option<string>)

  /** A column's type on both sides: the lower-cased SQL Server type, which
      decides how bcp selects it, and the DuckDB type of the created table. */
  datatype ColumnTypes = ColumnTypes(sqlType: string, duckType: string)

  /** `sql_to_duckdb_type_map.get(sql_type, 'VARCHAR')`. */
  function DuckDbType(sqlType: string): (t: string)
    ensures t in TypeMap.Values
    ensures sqlType !in TypeMap ==> t == "VARCHAR"
  {
    assert TypeMap["varchar"] == "VARCHAR";
    if sqlType in TypeMap then TypeMap[sqlType] else "VARCHAR"
  }

  /** The types recorded for a column: a non-empty DATA_TYPE is lower-cased and
      mapped; a missing or empty one is recorded as `varchar`/`VARCHAR`. */
  function Classify(c: SourceColumn): ColumnTypes
  {
    if c.dataType.Some? && c.dataType.value != "" then
      var t := Lower(c.dataType.value);
      ColumnTypes(t, DuckDbType(t))
    else ColumnTypes("varchar", "VARCHAR")
  }

  /** A column definition of the CREATE TABLE statement: `"name" TYPE`. */
  function ColumnDefinition(name: string, duckType: string): string
  {
    "\"" + name + "\" " + duckType
  }

  /** Reads a column definition back into its name and type. */
  function ParseColumnDefinition(def: string): Option<(string, string)>
  {
    match DropPrefix("\"", def)
    case None => None
    case Some(rest) =>
      match SplitAtFirst(rest, '"')
      case None => None
      case Some(nameAndType) =>
        match DropPrefix(" ", nameAndType.1)
        case None => None
        case Some(t) => Some((nameAndType.0, t))
  }

  /** A column definition names its column and its type, and for a name without
      a double quote can be read back into both. */
  lemma ColumnDefinitionRoundTrip(name: string, duckType: string)
    requires '"' !in name
    ensures ParseColumnDefinition(ColumnDefinition(name, duckType)) == Some((name, duckType))
  {
    var rest := name + "\" " + duckType;
    assert ColumnDefinition(name, duckType) == "\"" + rest;
    DropPrefixGlued("\"", rest);
    assert rest == name + ['"'] + (" " + duckType);
    SplitAtFirstGlued(name, '"', " " + duckType);
    DropPrefixGlued(" ", duckType);
  }

  /** The type lookup ignores the case of the reported type. */
  lemma ClassifyIgnoresCase(name: string, t1: string, t2: string)
    requires t1 != "" && t2 != "" && Lower(t1) == Lower(t2)
    ensures Classify(SourceColumn(name, Some(t1))) == Classify(SourceColumn(name, Some(t2)))
  {
  }

  /** Every column gets one of the map's DuckDB types; in particular an unknown
      or missing type gets VARCHAR. */
  lemma ClassifyTotal(c: SourceColumn)
    ensures Classify(c).duckType in TypeMap.Values
    ensures Classify(c).sqlType !in TypeMap ==> Classify(c).duckType == "VARCHAR"
    ensures c.dataType.None? ==> Classify(c) == ColumnTypes("varchar", "VARCHAR")
  {
    assert TypeMap["varchar"] == "VARCHAR";
  }

  /** The loop at the heart of the schema step: one definition and one
      (name, SQL Server type) pair per source column, in source order. */
  method BuildColumnDefinitions(cols: seq<SourceColumn>) returns (defs: seq<string>, typed: seq<(string, string)>)
    ensures |defs| == |cols| && |typed| == |cols|
    ensures forall k :: 0 <= k < |cols| ==>
      defs[k] == ColumnDefinition(cols[k].name, Classify(cols[k]).duckType)
    ensures forall k :: 0 <= k < |cols| ==>
      typed[k] == (cols[k].name, Classify(cols[k]).sqlType)
  {
    defs := [];
    typed := [];
    for i := 0 to |cols|
      invariant |defs| == i && |typed| == i
      invariant forall k :: 0 <= k < i ==> defs[k] == ColumnDefinition(cols[k].name, Classify(cols[k]).duckType)
      invariant forall k :: 0 <= k < i ==> typed[k] == (cols[k].name, Classify(cols[k]).sqlType)
    {
      var sqlType: string;
      var duckType: string;
      var found := cols[i].dataType;
      if found.Some? && found.value != "" {
        sqlType := Lower(found.value);
        duckType := DuckDbType(sqlType);
      } else {
        sqlType := "varchar";
        duckType := "VARCHAR";
      }
      defs := defs + [ColumnDefinition(cols[i].name, duckType)];
      typed := typed + [(cols[i].name, sqlType)];
    }
  }

  /** The CREATE TABLE statement for the target table. */
  function CreateTableSql(table: string, defs: seq<string>): string
  {
    "CREATE TABLE " + table + " (" + Join(", ", defs) + ");"
  }
}
