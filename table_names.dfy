/** How `load_sql_to_sqlite` and `load_mssql_to_duckdb` read their table list: a
    list of names, or a list of `[source, target]` pairs; the target ("friendly")
    name; and, for the DuckDB loader, the schema and table parts of the source
    name with SQL Server brackets stripped. */
module TableNames {
  import opened Wrappers
  import opened Text

  /** One entry of `list_tables`: a plain name, or a Python list whose first
      element is the source name and whose second is an optional target name. */
  datatype TableItem = Name(name: string) | Pair(parts: seq<string>)

  /** Why reading an entry raises: a nested entry with fewer than two elements
      (`IndexError`), or a list entry in a list that is not all lists (the
      helpers then treat a Python list as a string and fail). */
  datatype ItemError = MissingElement | NotAString

  /** The source name and the name the table gets in the target database. */
  datatype TableRef = TableRef(source: string, friendly: string)

  /** `all(isinstance(i, list) for i in list_tables)`. */
  predicate IsNested(items: seq<TableItem>)
  {
    forall k :: 0 <= k < |items| ==> items[k].Pair?
  }

  /** The target name derived from a source name: the name itself when it has
      no dot, otherwise its second dot-separated segment. */
  function DefaultFriendly(name: string): string
  {
    if '.' !in name then name else Split(name, '.')[1]
  }

  /** The source and target name of one entry, read as the loaders do. */
  function ResolveItem(item: TableItem, nested: bool): Result<TableRef, ItemError>
  {
    match item
    case Name(n) => Ok(TableRef(n, DefaultFriendly(n)))
    case Pair(parts) =>
      if !nested then Err(NotAString)
      else if |parts| < 2 then Err(MissingElement)
      else Ok(TableRef(parts[0], if parts[1] != "" then parts[1] else DefaultFriendly(parts[0])))
  }

  /** An empty list counts as nested. */
  lemma EmptyListIsNested()
    ensures IsNested([])
  {
  }

  /** A non-empty override always names the target table. */
  lemma OverrideWins(source: string, target: string, rest: seq<string>)
    requires target != ""
    ensures ResolveItem(Pair([source, target] + rest), true) == Ok(TableRef(source, target))
  {
  }

  /** A name without a dot is its own target name. */
  lemma UndottedNameKept(name: string)
    requires '.' !in name
    ensures ResolveItem(Name(name), false) == Ok(TableRef(name, name))
    ensures ResolveItem(Pair([name, ""]), true) == Ok(TableRef(name, name))
  {
  }

  /** A qualified name `schema.table[.more]` yields `table`. */
  lemma {:induction false} QualifiedNameYieldsTable(schema: string, table: string, more: string)
    requires '.' !in schema && '.' !in table
    requires more == "" || more[0] == '.'
    ensures DefaultFriendly(schema + "." + table + more) == table
  {
    var name := schema + "." + table + more;
    assert name == schema + ['.'] + (table + more);
    SplitAtSeparator(schema, '.', table + more);
    if more == "" {
      assert table + more == table;
      SplitWithoutSeparator(table, '.');
    } else {
      assert table + more == table + ['.'] + more[1..];
      SplitAtSeparator(table, '.', more[1..]);
    }
    assert '.' in name;
  }

  /** The target name never contains a dot unless it was given explicitly. */
  lemma {:induction false} DefaultFriendlyHasNoDot(name: string)
    ensures '.' in name ==> '.' !in DefaultFriendly(name)
    ensures '.' !in name ==> DefaultFriendly(name) == name
  {
    if '.' in name {
      SplitSegmentsFree(name, '.');
    }
  }

  // ---------------------------------------------------------------------------
  // Schema and table for INFORMATION_SCHEMA
  // ---------------------------------------------------------------------------

  const Brackets: set<char> := {'[', ']'}

  /** The schema and table a source name refers to. */
  datatype QualifiedName = QualifiedName(schema: string, table: string)

  /** `dbo` and the bracket-stripped name when there is no dot, otherwise the
      first two dot-separated segments, each bracket-stripped. */
  function SchemaAndTable(full: string): QualifiedName
  {
    if '.' !in full then QualifiedName("dbo", Strip(full, Brackets))
    else
      var parts := Split(full, '.');
      QualifiedName(Strip(parts[0], Brackets), Strip(parts[1], Brackets))
  }

  /** A bracketed name `[table]` without a schema is read as `dbo.table`. */
  lemma BracketedTableInDbo(table: string)
    requires '.' !in table && Trimmed(table, Brackets)
    ensures SchemaAndTable("[" + table + "]") == QualifiedName("dbo", table)
  {
    assert '.' !in "[" + table + "]";
    StripWrapped("[", table, "]", Brackets);
  }

  /** `[schema].[table]` is read back as its schema and table, and so is
      anything after a further dot. */
  lemma BracketedQualifiedName(schema: string, table: string, more: string)
    requires '.' !in schema && '.' !in table
    requires Trimmed(schema, Brackets) && Trimmed(table, Brackets)
    requires more == "" || more[0] == '.'
    ensures SchemaAndTable("[" + schema + "].[" + table + "]" + more) == QualifiedName(schema, table)
  {
    var s1 := "[" + schema + "]";
    var t1 := "[" + table + "]";
    assert '.' !in s1 && '.' !in t1;
    assert "[" + schema + "].[" + table + "]" + more == s1 + "." + t1 + more;
    SchemaAndTableOfGlued(s1, t1, more);
    StripWrapped("[", schema, "]", Brackets);
    StripWrapped("[", table, "]", Brackets);
  }

  /** The unbracketed `schema.table` is read the same way. */
  lemma PlainQualifiedName(schema: string, table: string, more: string)
    requires '.' !in schema && '.' !in table
    requires Trimmed(schema, Brackets) && Trimmed(table, Brackets)
    requires more == "" || more[0] == '.'
    ensures SchemaAndTable(schema + "." + table + more) == QualifiedName(schema, table)
  {
    SchemaAndTableOfGlued(schema, table, more);
    StripWrapped("", schema, "", Brackets);
    StripWrapped("", table, "", Brackets);
    assert "" + schema + "" == schema;
    assert "" + table + "" == table;
  }

  lemma {:induction false} SchemaAndTableOfGlued(s: string, t: string, more: string)
    requires '.' !in s && '.' !in t
    requires more == "" || more[0] == '.'
    ensures SchemaAndTable(s + "." + t + more) == QualifiedName(Strip(s, Brackets), Strip(t, Brackets))
  {
    var full := s + "." + t + more;
    assert full == s + ['.'] + (t + more);
    SplitAtSeparator(s, '.', t + more);
    if more == "" {
      assert t + more == t;
      SplitWithoutSeparator(t, '.');
    } else {
      assert t + more == t + ['.'] + more[1..];
      SplitAtSeparator(t, '.', more[1..]);
    }
    assert '.' in full;
  }

  /** Neither part ever starts or ends with a bracket. */
  lemma SchemaAndTableTrimmed(full: string)
    ensures Trimmed(SchemaAndTable(full).schema, Brackets)
    ensures Trimmed(SchemaAndTable(full).table, Brackets)
  {
    if '.' !in full {
      StripTrims(full, Brackets);
    } else {
      var parts := Split(full, '.');
      StripTrims(parts[0], Brackets);
      StripTrims(parts[1], Brackets);
    }
  }
}
