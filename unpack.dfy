/** `unpack_files_to_duckdb`: the files of a directory, reduced to their stems
    (base name up to the first dot), optionally narrowed to a given list and
    sorted; then either one DuckDB relation per stem (`read_parquet` or
    `read_csv` of `<dir>/<stem>.<ext>`) or, in debug mode, the sorted names as
    text. The directory listing is an input; DuckDB is not modelled beyond which
    reader is called on which path. */
module Unpack {
  import opened Wrappers
  import opened Text
  import opened StringOrder

  // ---------------------------------------------------------------------------
  // The stems of the directory's files
  // ---------------------------------------------------------------------------

  /** `os.path.basename(file).split(".")[0]`. */
  function Stem(entry: string): string
  {
    Split(BaseName(entry), '.')[0]
  }

  /** A stem holds neither a dot nor a slash. */
  lemma StemIsPlain(entry: string)
    ensures '.' !in Stem(entry) && '/' !in Stem(entry)
  {
    SplitSegmentsFree(BaseName(entry), '.');
    BaseNameHasNoSlash(entry);
    SplitSegmentsWithout(BaseName(entry), '.', '/');
  }

  /** `files & set(list_files)` keeps a stem only when it is listed. */
  predicate Kept(stem: string, listFiles: Option<seq<string>>)
  {
    listFiles.None? || stem in listFiles.value
  }

  /** The stems of the entries, kept as `list_files` says, each once, sorted. */
  function SortedStems(entries: seq<string>, listFiles: Option<seq<string>>): seq<string>
  {
    if |entries| == 0 then []
    else
      var earlier := SortedStems(entries[..|entries| - 1], listFiles);
      var stem := Stem(entries[|entries| - 1]);
      if Kept(stem, listFiles) then Insert(earlier, stem) else earlier
  }

  /** `sorted(set(...) & set(list_files))`: strictly sorted, and holding exactly
      the kept stems of the entries. Being strictly sorted, it is the only such
      list (`SortedUnique`). */
  lemma {:induction false} SortedStemsSpec(entries: seq<string>, listFiles: Option<seq<string>>)
    ensures StrictlySorted(SortedStems(entries, listFiles))
    ensures forall f :: f in SortedStems(entries, listFiles) <==>
      Kept(f, listFiles) && exists k :: 0 <= k < |entries| && Stem(entries[k]) == f
  {
    if |entries| > 0 {
      var init := entries[..|entries| - 1];
      var last := entries[|entries| - 1];
      SortedStemsSpec(init, listFiles);
      var earlier := SortedStems(init, listFiles);
      if Kept(Stem(last), listFiles) {
        InsertSorted(earlier, Stem(last));
      }
      forall f
        ensures f in SortedStems(entries, listFiles) <==>
          Kept(f, listFiles) && exists k :: 0 <= k < |entries| && Stem(entries[k]) == f
      {
        if Kept(f, listFiles) && exists k :: 0 <= k < |entries| && Stem(entries[k]) == f {
          var k :| 0 <= k < |entries| && Stem(entries[k]) == f;
          if k < |entries| - 1 {
            assert init[k] == entries[k];
          }
        }
        if f in earlier {
          var k :| 0 <= k < |init| && Stem(init[k]) == f;
          assert entries[k] == init[k];
        }
      }
    }
  }

  /** The loop that collects the stems. */
  method CollectStems(entries: seq<string>, listFiles: Option<seq<string>>) returns (files: seq<string>)
    ensures files == SortedStems(entries, listFiles)
    ensures StrictlySorted(files)
    ensures forall f :: f in files <==> Kept(f, listFiles) && exists k :: 0 <= k < |entries| && Stem(entries[k]) == f
    ensures forall k :: 0 <= k < |files| ==> '.' !in files[k] && '/' !in files[k]
  {
    files := [];
    for i := 0 to |entries|
      invariant files == SortedStems(entries[..i], listFiles)
    {
      assert entries[..i + 1][..i] == entries[..i];
      var stem := Split(BaseName(entries[i]), '.')[0];
      if listFiles.None? || stem in listFiles.value {
        files := Insert(files, stem);
      }
    }
    assert entries[..|entries|] == entries;
    SortedStemsSpec(entries, listFiles);
    forall k | 0 <= k < |files|
      ensures '.' !in files[k] && '/' !in files[k]
    {
      assert files[k] in files;
      var e :| 0 <= e < |entries| && Stem(entries[e]) == files[k];
      StemIsPlain(entries[e]);
    }
  }

  // ---------------------------------------------------------------------------
  // The relations
  // ---------------------------------------------------------------------------

  /** A DuckDB relation over a file: `read_parquet(path)` or
      `read_csv(path, header=True)`. */
  datatype Relation = ParquetScan(path: string) | CsvScan(path: string)

  /** What the function returns: the only relation, a tuple of relations (empty
      when nothing was loaded), or the debug text. */
  datatype Unpacked = One(relation: Relation) | Many(relations: seq<Relation>) | Listing(text: string)

  predicate KnownExt(ext: string)
  {
    ext == "parquet" || ext == "csv"
  }

  /** The relation for one stem; `None` for an extension that is neither. */
  function RelationFor(dir: string, ext: string, file: string): Option<Relation>
  {
    if ext == "parquet" then Some(ParquetScan(JoinPath(dir, file + ".parquet")))
    else if ext == "csv" then Some(CsvScan(JoinPath(dir, file + ".csv")))
    else None
  }

  /** The loop over the sorted stems, outside debug mode. */
  method CollectRelations(dir: string, ext: string, files: seq<string>, debug: bool) returns (items: seq<Relation>)
    ensures |items| == if !debug && KnownExt(ext) then |files| else 0
    ensures forall k :: 0 <= k < |items| ==> RelationFor(dir, ext, files[k]) == Some(items[k])
  {
    items := [];
    for i := 0 to |files|
      invariant |items| == if !debug && KnownExt(ext) then i else 0
      invariant forall k :: 0 <= k < |items| ==> RelationFor(dir, ext, files[k]) == Some(items[k])
    {
      if !debug {
        if ext == "parquet" {
          items := items + [ParquetScan(JoinPath(dir, files[i] + ".parquet"))];
        } else if ext == "csv" {
          items := items + [CsvScan(JoinPath(dir, files[i] + ".csv"))];
        }
      }
    }
  }

  /** Each relation reads the file of its own stem: the stem of its path is the
      stem it was made for. */
  lemma RelationReadsItsStem(dir: string, ext: string, file: string)
    requires KnownExt(ext) && '.' !in file && '/' !in file
    ensures RelationFor(dir, ext, file).Some?
    ensures Stem(RelationFor(dir, ext, file).value.path) == file
  {
    var name := file + ['.'] + ext;
    assert RelationFor(dir, ext, file).value.path == JoinPath(dir, name) by {
      if ext == "parquet" {
        assert file + ".parquet" == name;
      } else {
        assert file + ".csv" == name;
      }
    }
    assert '/' !in ext;
    assert '/' !in name;
    BaseNameOfJoin(dir, name);
    SplitAtSeparator(file, '.', ext);
  }

  // ---------------------------------------------------------------------------
  // The debug text
  // ---------------------------------------------------------------------------

  /** One character of a string as Python's `repr` writes it between the given
      quotes (other unprintable characters are not modelled). */
  function EscapeChar(c: char, quote: char): string
  {
    if c == '\\' then "\\\\"
    else if c == quote then ['\\', quote]
    else if c == '\n' then "\\n"
    else if c == '\r' then "\\r"
    else if c == '\t' then "\\t"
    else [c]
  }

  function Escape(s: string, quote: char): string
  {
    if |s| == 0 then "" else EscapeChar(s[0], quote) + Escape(s[1..], quote)
  }

  /** `repr(s)`: double quotes when `s` holds a single quote and no double
      quote, single quotes otherwise. */
  function StrRepr(s: string): string
  {
    var quote := if '\'' in s && '"' !in s then '"' else '\'';
    [quote] + Escape(s, quote) + [quote]
  }

  function Reprs(xs: seq<string>): seq<string>
  {
    seq(|xs|, k requires 0 <= k < |xs| => StrRepr(xs[k]))
  }

  /** `str(xs)` for a list of strings. */
  function ListRepr(xs: seq<string>): string
  {
    "[" + Join(", ", Reprs(xs)) + "]"
  }

  /** `[f"{prefix}{file}" for file in files]`. */
  function Prefixed(prefix: string, files: seq<string>): seq<string>
  {
    seq(|files|, k requires 0 <= k < |files| => prefix + files[k])
  }

  /** `.replace("'", "").replace("[", "").replace("]", "")`. */
  function Unlist(text: string): string
  {
    RemoveChar(RemoveChar(RemoveChar(text, '\''), '['), ']')
  }

  /** The debug result: the prefixed names, sorted, as `str(list)` with every
      `'`, `[` and `]` removed. */
  function DebugText(prefix: string, files: seq<string>): string
  {
    Unlist(ListRepr(SortDistinct(Prefixed(prefix, files))))
  }

  /** The whole function over a directory listing. */
  method UnpackFilesToDuckdb(dir: string, ext: string, entries: seq<string>, listFiles: Option<seq<string>>,
                             prefix: string, debug: bool)
    returns (out: Unpacked)
    ensures var files := SortedStems(entries, listFiles);
      && (debug ==> out == Listing(DebugText(prefix, files)))
      && (!debug && !KnownExt(ext) ==> out == Many([]))
      && (!debug && KnownExt(ext) ==>
            && (out.One? <==> |files| == 1)
            && (out.One? ==> Some(out.relation) == RelationFor(dir, ext, files[0]))
            && (out.Many? ==>
                  && |out.relations| == |files|
                  && forall k :: 0 <= k < |files| ==> Some(out.relations[k]) == RelationFor(dir, ext, files[k])))
  {
    var files := CollectStems(entries, listFiles);
    var items := CollectRelations(dir, ext, files, debug);
    if !debug {
      out := if |items| == 1 then One(items[0]) else Many(items);
    } else {
      var named := Prefixed(prefix, files);
      out := Listing(Unlist(ListRepr(SortDistinct(named))));
    }
  }

  /** The characters `repr` escapes or the debug text removes. */
  predicate Special(c: char)
  {
    c == '\'' || c == '"' || c == '\\' || c == '[' || c == ']' || c == '\n' || c == '\r' || c == '\t'
  }

  predicate Plain(s: string)
  {
    forall k :: 0 <= k < |s| ==> !Special(s[k])
  }

  /** Nothing in `s` needs escaping between the given quotes. */
  predicate NeedsNoEscape(s: string, quote: char)
  {
    forall k :: 0 <= k < |s| ==> s[k] != '\\' && s[k] != quote && s[k] != '\n' && s[k] != '\r' && s[k] != '\t'
  }

  lemma {:induction false} EscapeIdentity(s: string, quote: char)
    requires NeedsNoEscape(s, quote)
    ensures Escape(s, quote) == s
  {
    if |s| > 0 {
      EscapeIdentity(s[1..], quote);
      assert [s[0]] + s[1..] == s;
    }
  }

  function Quoted(xs: seq<string>): seq<string>
  {
    seq(|xs|, k requires 0 <= k < |xs| => "'" + xs[k] + "'")
  }

  lemma {:induction false} UnquoteJoin(xs: seq<string>)
    requires forall k :: 0 <= k < |xs| ==> '\'' !in xs[k]
    ensures RemoveChar(Join(", ", Quoted(xs)), '\'') == Join(", ", xs)
  {
    if |xs| > 0 {
      var q := "'" + xs[0] + "'";
      RemoveCharConcat("'" + xs[0], "'", '\'');
      RemoveCharConcat("'", xs[0], '\'');
      RemoveCharAbsent(xs[0], '\'');
      assert RemoveChar(q, '\'') == xs[0];
      if |xs| > 1 {
        assert Quoted(xs)[1..] == Quoted(xs[1..]);
        UnquoteJoin(xs[1..]);
        var rest := Join(", ", Quoted(xs[1..]));
        assert Join(", ", Quoted(xs)) == q + (", " + rest);
        RemoveCharConcat(q, ", " + rest, '\'');
        RemoveCharConcat(", ", rest, '\'');
        RemoveCharAbsent(", ", '\'');
      }
    }
  }

  /** Removing the single quotes of `['a', 'b']` leaves `[a, b]`. */
  lemma UnquoteList(xs: seq<string>)
    requires forall k :: 0 <= k < |xs| ==> '\'' !in xs[k]
    ensures RemoveChar("[" + Join(", ", Quoted(xs)) + "]", '\'') == "[" + Join(", ", xs) + "]"
  {
    var j := Join(", ", Quoted(xs));
    UnquoteJoin(xs);
    RemoveCharConcat("[" + j, "]", '\'');
    RemoveCharConcat("[", j, '\'');
  }

  /** For names without quotes, brackets, backslashes or control characters the
      debug text is just the prefixed names, sorted, separated by `, `. */
  lemma PlainDebugText(prefix: string, files: seq<string>)
    requires StrictlySorted(files)
    requires Plain(prefix) && forall k :: 0 <= k < |files| ==> Plain(files[k])
    ensures DebugText(prefix, files) == Join(", ", Prefixed(prefix, files))
  {
    var named := Prefixed(prefix, files);
    PrefixKeepsSorted(prefix, files);
    SortDistinctOfSorted(named);
    forall k | 0 <= k < |named|
      ensures StrRepr(named[k]) == "'" + named[k] + "'"
      ensures '\'' !in named[k] && '[' !in named[k] && ']' !in named[k]
    {
      assert Plain(named[k]);
      EscapeIdentity(named[k], '\'');
    }
    assert Reprs(named) == Quoted(named);
    UnquoteList(named);
    var joined := Join(", ", named);
    JoinAvoids(", ", named, '[');
    JoinAvoids(", ", named, ']');
    UnbracketPlain(joined);
  }

  /** Removing the brackets of `[m]` leaves `m` when `m` has none. */
  lemma UnbracketPlain(m: string)
    requires '[' !in m && ']' !in m
    ensures RemoveChar(RemoveChar("[" + m + "]", '['), ']') == m
  {
    RemoveCharConcat("[" + m, "]", '[');
    RemoveCharConcat("[", m, '[');
    RemoveCharAbsent(m, '[');
    assert RemoveChar("[" + m + "]", '[') == m + "]";
    RemoveCharConcat(m, "]", ']');
    RemoveCharAbsent(m, ']');
  }

  /** `repr` of a name with a single quote and no double quote. */
  lemma ReprOfSingleQuoted(name: string)
    requires '\'' in name && NeedsNoEscape(name, '"')
    ensures StrRepr(name) == "\"" + name + "\""
  {
    assert '"' !in name by {
      forall k | 0 <= k < |name| ensures name[k] != '"' { }
    }
    EscapeIdentity(name, '"');
  }

  lemma UnquoteDoubleQuoted(name: string)
    ensures RemoveChar("[" + ("\"" + name + "\"") + "]", '\'') == "[" + ("\"" + RemoveChar(name, '\'') + "\"") + "]"
  {
    var shown := "\"" + name + "\"";
    RemoveCharConcat("[" + shown, "]", '\'');
    RemoveCharConcat("[", shown, '\'');
    RemoveCharConcat("\"" + name, "\"", '\'');
    RemoveCharConcat("\"", name, '\'');
  }

  /** A name with a single quote (and no double quote) is written by `repr` in
      double quotes, which the debug text keeps: `it's` is shown as `"its"`. */
  lemma SingleQuoteShowsDoubleQuotes(name: string)
    requires '\'' in name && NeedsNoEscape(name, '"') && '[' !in name && ']' !in name
    ensures DebugText("", [name]) == "\"" + RemoveChar(name, '\'') + "\""
  {
    assert "" + name == name;
    assert Prefixed("", [name]) == [name];
    assert SortDistinct([name]) == [name];
    ReprOfSingleQuoted(name);
    var shown := "\"" + name + "\"";
    assert Reprs([name]) == [shown];
    assert ListRepr([name]) == "[" + shown + "]";
    var middle := "\"" + RemoveChar(name, '\'') + "\"";
    UnquoteDoubleQuoted(name);
    RemoveCharKeeps(name, '\'', '[');
    RemoveCharKeeps(name, '\'', ']');
    UnbracketPlain(middle);
  }
}
