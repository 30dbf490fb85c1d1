/** `load_sql_to_sqlite`: the statements that copy tables from a source
    database into a new SQLite file. The views are created first, then the
    `_meta` table, then one query per listed table whose rows are appended to the
    target table. Executing the statements and moving the rows are not
    modelled. */
module SqliteLoad {
  import opened Wrappers
  import opened Text
  import opened TableNames
  import opened Bcp

  /** `create view if not exists <name> as <query>;`, with every `;` of the
      query removed so that the statement stays a single one. */
  function ViewSql(name: string, query: string): string
  {
    "create view if not exists " + name + " as " + RemoveChar(query, ';') + ";"
  }

  /** For a view name without `;` the statement holds exactly one `;`, its last
      character; the query keeps every other character. */
  lemma ViewSqlSingleStatement(name: string, query: string)
    requires ';' !in name
    ensures CountChar(ViewSql(name, query), ';') == 1
    ensures ViewSql(name, query)[|ViewSql(name, query)| - 1] == ';'
    ensures forall ch :: ch != ';' ==> (ch in query <==> ch in RemoveChar(query, ';'))
  {
    var head := "create view if not exists " + name + " as ";
    assert ';' !in "create view if not exists " && ';' !in " as ";
    assert ';' !in head;
    RemoveCharGone(query, ';');
    CountCharAbsent(head, ';');
    CountCharAbsent(RemoveChar(query, ';'), ';');
    CountCharConcat(head, RemoveChar(query, ';'), ';');
    CountCharConcat(head + RemoveChar(query, ';'), ";", ';');
    assert ViewSql(name, query) == head + RemoveChar(query, ';') + ";";
    forall ch | ch != ';'
      ensures ch in query <==> ch in RemoveChar(query, ';')
    {
      RemoveCharKeeps(query, ';', ch);
    }
  }

  /** A query without `;` is kept verbatim. */
  lemma ViewSqlKeepsPlainQuery(name: string, query: string)
    requires ';' !in query
    ensures ViewSql(name, query) == "create view if not exists " + name + " as " + query + ";"
  {
    RemoveCharAbsent(query, ';');
  }

  /** The loop over `dict_views`, in the dictionary's order. */
  method ViewStatements(views: seq<(string, string)>) returns (stmts: seq<string>)
    ensures |stmts| == |views|
    ensures forall k :: 0 <= k < |views| ==> stmts[k] == ViewSql(views[k].0, views[k].1)
  {
    stmts := [];
    for i := 0 to |views|
      invariant |stmts| == i
      invariant forall k :: 0 <= k < i ==> stmts[k] == ViewSql(views[k].0, views[k].1)
    {
      var (name, query) := views[i];
      stmts := stmts + ["create view if not exists " + name + " as " + RemoveChar(query, ';') + ";"];
    }
  }

  /** One table to copy: its source name, its name in SQLite, and the query that
      reads it. */
  datatype TableLoad = TableLoad(source: string, friendly: string, query: string)

  /** The tables to copy, in order, stopping at the first entry that cannot be
      read (the loader raises there). */
  function LoadAll(items: seq<TableItem>, nested: bool, topN: int): (seq<TableLoad>, Option<ItemError>)
  {
    if |items| == 0 then ([], None)
    else
      match ResolveItem(items[0], nested)
      case Err(e) => ([], Some(e))
      case Ok(entry) =>
        var rest := LoadAll(items[1..], nested, topN);
        ([TableLoad(entry.source, entry.friendly, SqliteQuery(topN, entry.source))] + rest.0, rest.1)
  }

  /** What the loader does: nothing when the SQLite file exists; otherwise the
      views, whether `_meta` is written, and the tables. */
  datatype SqliteOutcome =
    | FileExists
    | Copied(views: seq<string>, meta: bool, tables: seq<TableLoad>, failure: Option<ItemError>)

  method LoadSqlToSqlite(fileExists: bool, views: Option<seq<(string, string)>>, hasMeta: bool,
                         items: seq<TableItem>, topN: int)
    returns (r: SqliteOutcome)
    ensures r.FileExists? <==> fileExists
    ensures r.Copied? ==> r.meta == hasMeta
    ensures r.Copied? ==> |r.views| == (if views.Some? then |views.value| else 0)
    ensures r.Copied? && views.Some? ==>
      forall k :: 0 <= k < |views.value| ==> r.views[k] == ViewSql(views.value[k].0, views.value[k].1)
    ensures r.Copied? ==> (r.tables, r.failure) == LoadAll(items, IsNested(items), topN)
  {
    if fileExists {
      return FileExists;
    }
    var viewSql: seq<string> := [];
    if views.Some? {
      viewSql := ViewStatements(views.value);
    }
    var tables, failure := TableLoads(items, topN);
    r := Copied(viewSql, hasMeta, tables, failure);
  }

  /** The loop over `list_tables`: resolve the names and build each query. */
  method TableLoads(items: seq<TableItem>, topN: int) returns (tables: seq<TableLoad>, failure: Option<ItemError>)
    ensures (tables, failure) == LoadAll(items, IsNested(items), topN)
  {
    var nested := IsNested(items);
    ghost var whole := LoadAll(items, nested, topN);
    tables := [];
    failure := None;
    var i := 0;
    assert items[0..] == items;
    assert [] + whole.0 == whole.0;
    while i < |items|
      invariant 0 <= i <= |items|
      invariant whole.0 == tables + LoadAll(items[i..], nested, topN).0
      invariant whole.1 == LoadAll(items[i..], nested, topN).1
    {
      assert items[i..][0] == items[i] && items[i..][1..] == items[i + 1..];
      var resolved := ResolveItem(items[i], nested);
      if resolved.Err? {
        failure := Some(resolved.error);
        assert tables + [] == tables;
        return;
      }
      var load := TableLoad(resolved.value.source, resolved.value.friendly, SqliteQuery(topN, resolved.value.source));
      ghost var rest := LoadAll(items[i + 1..], nested, topN);
      Regroup(tables, [load], rest.0);
      tables := tables + [load];
      i := i + 1;
    }
    assert items[i..] == [];
    assert tables + [] == tables;
  }

  /** When every entry can be read, every entry is copied, in order, under its
      own target name, with the same row limit. */
  lemma {:induction false} AllTablesCopied(items: seq<TableItem>, nested: bool, topN: int)
    requires forall k :: 0 <= k < |items| ==> ResolveItem(items[k], nested).Ok?
    ensures var r := LoadAll(items, nested, topN);
      && r.1.None? && |r.0| == |items|
      && forall k :: 0 <= k < |items| ==>
           && r.0[k].friendly == ResolveItem(items[k], nested).value.friendly
           && r.0[k].query == SqliteQuery(topN, ResolveItem(items[k], nested).value.source)
  {
    if |items| > 0 {
      AllTablesCopied(items[1..], nested, topN);
      var r := LoadAll(items, nested, topN);
      var rest := LoadAll(items[1..], nested, topN);
      forall k | 0 <= k < |items|
        ensures r.0[k].friendly == ResolveItem(items[k], nested).value.friendly
        ensures r.0[k].query == SqliteQuery(topN, ResolveItem(items[k], nested).value.source)
      {
        if k > 0 {
          assert r.0[k] == rest.0[k - 1];
          assert items[1..][k - 1] == items[k];
        }
      }
    }
  }

  /** An entry that cannot be read stops the loader: nothing after it is copied
      and the error is reported. */
  lemma {:induction false} FirstErrorStops(items: seq<TableItem>, nested: bool, topN: int, i: nat)
    requires i < |items| && ResolveItem(items[i], nested).Err?
    requires forall k :: 0 <= k < i ==> ResolveItem(items[k], nested).Ok?
    ensures var r := LoadAll(items, nested, topN);
      |r.0| == i && r.1 == Some(ResolveItem(items[i], nested).error)
  {
    if i > 0 {
      assert forall k :: 0 <= k < i - 1 ==> items[1..][k] == items[k + 1];
      FirstErrorStops(items[1..], nested, topN, i - 1);
      assert items[1..][i - 1] == items[i];
    }
  }
}
