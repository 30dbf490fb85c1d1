/** The SQL text and the command line `load_mssql_to_duckdb` hands to bcp, and
    the row limit `load_sql_to_sqlite` puts into its own query. Character columns
    are selected with NULL turned into '' and CR, LF and TAB removed, so that
    the tab-separated export stays parseable. */
module Bcp {
  import opened Wrappers
  import opened Text

  /** The SQL Server types whose values bcp exports cleansed. */
  const CharacterTypes: seq<string> := ["char", "varchar", "nvarchar", "text", "ntext"]

  const CleansePrefix := "REPLACE(REPLACE(REPLACE(ISNULL(["
  const CleanseSuffix := "], ''), CHAR(13), ''), CHAR(10), ''), CHAR(9), '')"

  /** `REPLACE(REPLACE(REPLACE(ISNULL([c], ''), CHAR(13), ''), CHAR(10), ''), CHAR(9), '')`. */
  function CleansedColumn(col: string): string
  {
    CleansePrefix + col + CleanseSuffix
  }

  /** `[c]`, SQL Server's bracket quoting. */
  function QuotedColumn(col: string): string
  {
    "[" + col + "]"
  }

  /** The select-list entry for one column. */
  function SelectItem(col: string, sqlType: string): string
  {
    if sqlType in CharacterTypes then CleansedColumn(col) else QuotedColumn(col)
  }

  /** How a select-list entry reads a column. */
  datatype Selected = Cleansed(col: string) | Raw(col: string) | Unknown

  /** Reads a select-list entry back into the column it selects. */
  function ReadSelectItem(item: string): Selected
  {
    match DropPrefix(CleansePrefix, item)
    case Some(r) =>
      (match DropSuffix(r, CleanseSuffix)
       case Some(c) => Cleansed(c)
       case None => Unknown)
    case None =>
      match DropPrefix("[", item)
      case None => Unknown
      case Some(r) =>
        match DropSuffix(r, "]")
        case Some(c) => Raw(c)
        case None => Unknown
  }

  /** Each entry selects its own column, and cleanses it exactly when its type
      is a character type. */
  lemma SelectItemRoundTrip(col: string, sqlType: string)
    ensures ReadSelectItem(SelectItem(col, sqlType))
         == if sqlType in CharacterTypes then Cleansed(col) else Raw(col)
  {
    if sqlType in CharacterTypes {
      CleansedReadsBack(col);
    } else {
      QuotedReadsBack(col);
    }
  }

  /** The cleansing expression reads back as the column it cleanses. */
  lemma CleansedReadsBack(col: string)
    ensures ReadSelectItem(CleansedColumn(col)) == Cleansed(col)
  {
    assert CleansedColumn(col) == CleansePrefix + (col + CleanseSuffix);
    DropPrefixGlued(CleansePrefix, col + CleanseSuffix);
    DropSuffixGlued(col, CleanseSuffix);
  }

  /** A bracketed column reads back as the column it selects unchanged. */
  lemma QuotedReadsBack(col: string)
    ensures ReadSelectItem(QuotedColumn(col)) == Raw(col)
  {
    assert QuotedColumn(col) == "[" + (col + "]");
    assert !(CleansePrefix <= QuotedColumn(col)) by {
      assert QuotedColumn(col)[0] != CleansePrefix[0];
    }
    DropPrefixGlued("[", col + "]");
    DropSuffixGlued(col, "]");
  }

  /** The loop that builds `select_columns_for_bcp`: one entry per column of
      `source_columns_with_types`, in order. */
  method SelectColumns(cols: seq<(string, string)>) returns (items: seq<string>)
    ensures |items| == |cols|
    ensures forall k :: 0 <= k < |cols| ==> items[k] == SelectItem(cols[k].0, cols[k].1)
  {
    items := [];
    for i := 0 to |cols|
      invariant |items| == i
      invariant forall k :: 0 <= k < i ==> items[k] == SelectItem(cols[k].0, cols[k].1)
    {
      var (col, sqlType) := cols[i];
      if sqlType in CharacterTypes {
        items := items + [CleansedColumn(col)];
      } else {
        items := items + [QuotedColumn(col)];
      }
    }
  }

  /** The joined select list, or `*` when it is empty. */
  function SelectClause(items: seq<string>): string
  {
    var joined := Join(", ", items);
    if joined == "" then "*" else joined
  }

  /** The select clause falls back to `*` exactly when there are no columns. */
  lemma SelectClauseStar(cols: seq<(string, string)>, items: seq<string>)
    requires |items| == |cols|
    requires forall k :: 0 <= k < |cols| ==> items[k] == SelectItem(cols[k].0, cols[k].1)
    ensures SelectClause(items) == "*" <==> |cols| == 0
  {
    forall k | 0 <= k < |items| ensures items[k] != "" {
      assert |SelectItem(cols[k].0, cols[k].1)| >= 2;
    }
    JoinEmpty(", ", items);
    if |items| > 0 {
      assert Join(", ", items) != "*" by {
        if |items| == 1 {
          assert Join(", ", items) == items[0];
          assert |items[0]| >= 2;
        } else {
          assert |Join(", ", items)| >= |items[0]| + 2;
        }
      }
    }
  }

  /** ` TOP n`, only for a positive limit. */
  function TopClause(topN: int): string
  {
    if topN > 0 then " TOP " + IntToString(topN) else ""
  }

  /** The query bcp runs with `queryout`. */
  function BcpQuery(topN: int, selectClause: string, table: string): string
  {
    "SELECT" + TopClause(topN) + " " + selectClause + " FROM " + table
  }

  /** The argument vector of the bcp call: wide-character export, tab field
      terminator, server, database and a trusted connection. */
  function BcpCommand(query: string, csvPath: string, server: string, database: string): seq<string>
  {
    ["bcp", query, "queryout", csvPath, "-w", "-t\t", "-S", server, "-d", database, "-T"]
  }

  /** The ` top n` of `load_sql_to_sqlite`, added for every non-zero limit. */
  function SqliteTop(topN: int): string
  {
    if topN != 0 then " top " + IntToString(topN) else ""
  }

  /** `select{top} * from {table}`. */
  function SqliteQuery(topN: int, table: string): string
  {
    "select" + SqliteTop(topN) + " * from " + table
  }

  /** The bcp limit appears exactly for positive limits and carries the limit;
      the sqlite limit appears for every non-zero one, so the two disagree on
      negative limits. */
  lemma TopClauses(topN: int)
    ensures TopClause(topN) == "" <==> topN <= 0
    ensures SqliteTop(topN) == "" <==> topN == 0
    ensures topN > 0 ==> DropPrefix(" TOP ", TopClause(topN)) == Some(IntToString(topN))
    ensures topN != 0 ==> DropPrefix(" top ", SqliteTop(topN)) == Some(IntToString(topN))
    ensures topN < 0 ==> TopClause(topN) == "" && SqliteTop(topN) != ""
  {
    if topN > 0 {
      DropPrefixGlued(" TOP ", IntToString(topN));
    }
    if topN != 0 {
      DropPrefixGlued(" top ", IntToString(topN));
    }
  }
}
