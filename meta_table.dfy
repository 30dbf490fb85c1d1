/** The single-row `_meta` table `load_mssql_to_duckdb` writes from `dict_meta`:
    one VARCHAR column per key and one parameter per value, the values passed as
    their `str()`. The statements are executed by DuckDB, which is not part of
    this model. */
module MetaTable {
  import opened Wrappers
  import opened Text
  import DuckdbSchema

  /** The values a metadata dictionary commonly holds. */
  datatype MetaValue = Str(s: string) | Int(i: int) | Bool(b: bool) | NoneValue

  /** Python's `str(v)`. */
  function PyStr(v: MetaValue): string
  {
    match v
    case Str(s) => s
    case Int(i) => IntToString(i)
    case Bool(b) => if b then "True" else "False"
    case NoneValue => "None"
  }

  /** The statements executed for the metadata, and the parameters bound to
      the insert. */
  datatype MetaStatements = MetaStatements(drop: string, create: string, insert: string, params: seq<string>)

  /** `list(dict_meta.keys())`, in insertion order. */
  function Keys(meta: seq<(string, MetaValue)>): seq<string>
  {
    seq(|meta|, k requires 0 <= k < |meta| => meta[k].0)
  }

  /** `'"k" VARCHAR'` for every key. */
  function MetaColumnDefinitions(keys: seq<string>): seq<string>
  {
    seq(|keys|, k requires 0 <= k < |keys| => DuckdbSchema.ColumnDefinition(keys[k], "VARCHAR"))
  }

  /** `'"k"'` for every key. */
  function QuotedNames(keys: seq<string>): seq<string>
  {
    seq(|keys|, k requires 0 <= k < |keys| => "\"" + keys[k] + "\"")
  }

  /** `', '.join(['?' for _ in keys])` for `n` keys. */
  function Placeholders(n: nat): string
  {
    Join(", ", seq(n, _ => "?"))
  }

  /** The DROP, CREATE and INSERT statements and the insert's parameters. */
  function MetaSql(meta: seq<(string, MetaValue)>): MetaStatements
  {
    var keys := Keys(meta);
    MetaStatements(
      "DROP TABLE IF EXISTS _meta;",
      "CREATE TABLE _meta (" + Join(", ", MetaColumnDefinitions(keys)) + ");",
      "INSERT INTO _meta (" + Join(", ", QuotedNames(keys)) + ") VALUES (" + Placeholders(|keys|) + ");",
      seq(|meta|, k requires 0 <= k < |meta| => PyStr(meta[k].1)))
  }

  /** The placeholder list holds exactly `n` question marks. */
  lemma {:induction false} PlaceholderCount(n: nat)
    ensures CountChar(Placeholders(n), '?') == n
  {
    var qs := seq(n, _ => "?");
    if n == 1 {
      assert Placeholders(n) == "?";
    } else if n > 1 {
      assert qs[1..] == seq(n - 1, _ => "?");
      PlaceholderCount(n - 1);
      assert Placeholders(n) == "?" + (", " + Placeholders(n - 1));
      CountCharConcat("?", ", " + Placeholders(n - 1), '?');
      CountCharConcat(", ", Placeholders(n - 1), '?');
    }
  }

  /** The text around the placeholders holds no question mark. */
  lemma InsertFrameHasNoPlaceholder(joined: string)
    requires '?' !in joined
    ensures CountChar("INSERT INTO _meta (" + joined + ") VALUES (", '?') == 0
    ensures CountChar(");", '?') == 0
  {
    assert '?' !in "INSERT INTO _meta (" && '?' !in ") VALUES (" && '?' !in ");";
    CountCharAbsent("INSERT INTO _meta (" + joined + ") VALUES (", '?');
    CountCharAbsent(");", '?');
  }

  /** The INSERT statement has one placeholder per key, and one parameter is
      bound per placeholder, provided no key holds a question mark. */
  lemma InsertParametersMatch(meta: seq<(string, MetaValue)>)
    requires forall k :: 0 <= k < |meta| ==> '?' !in meta[k].0
    ensures CountChar(MetaSql(meta).insert, '?') == |meta|
    ensures |MetaSql(meta).params| == |meta|
  {
    var keys := Keys(meta);
    var names := QuotedNames(keys);
    JoinAvoids(", ", names, '?');
    var head := "INSERT INTO _meta (" + Join(", ", names) + ") VALUES (";
    var marks := Placeholders(|keys|);
    InsertFrameHasNoPlaceholder(Join(", ", names));
    PlaceholderCount(|keys|);
    CountCharConcat(head, marks + ");", '?');
    CountCharConcat(marks, ");", '?');
    assert MetaSql(meta).insert == head + (marks + ");");
  }

  /** Each column definition of the CREATE statement reads back as its key
      with type VARCHAR, in key order; the INSERT names the keys in the same
      order; and each parameter is the `str()` of the value under the same key:
      a string itself, `True`/`False`, `None`, or digits that read back as the
      integer. */
  lemma MetaColumnsAndParams(meta: seq<(string, MetaValue)>, k: nat)
    requires k < |meta|
    requires '"' !in meta[k].0
    ensures |MetaColumnDefinitions(Keys(meta))| == |meta|
    ensures DuckdbSchema.ParseColumnDefinition(MetaColumnDefinitions(Keys(meta))[k]) == Some((meta[k].0, "VARCHAR"))
    ensures |QuotedNames(Keys(meta))| == |meta| && QuotedNames(Keys(meta))[k] == "\"" + meta[k].0 + "\""
    ensures "INSERT INTO _meta (" + Join(", ", QuotedNames(Keys(meta))) + ") VALUES (" <= MetaSql(meta).insert
    ensures |MetaSql(meta).params| == |meta| && MetaSql(meta).params[k] == PyStr(meta[k].1)
    ensures meta[k].1.Str? ==> MetaSql(meta).params[k] == meta[k].1.s
    ensures meta[k].1.Bool? ==> MetaSql(meta).params[k] == (if meta[k].1.b then "True" else "False")
    ensures meta[k].1.NoneValue? ==> MetaSql(meta).params[k] == "None"
    ensures meta[k].1.Int? ==> ParseInt(MetaSql(meta).params[k]) == Some(meta[k].1.i)
  {
    DuckdbSchema.ColumnDefinitionRoundTrip(meta[k].0, "VARCHAR");
    if meta[k].1.Int? {
      IntToStringRoundTrip(meta[k].1.i);
    }
  }
}
