/** `load_sqlite_to_parquet`: every table of a SQLite file is written to
    `<dir>/<table>.parquet` by a DuckDB COPY, unless the file is already there
    and overwriting is off; in debug mode nothing is written. The table listing
    and its optional pandas filter are inputs, and so is the set of files that
    exist when the loop starts. */
module ParquetExport {
  import opened Text

  /** What the loop prints for a table (when verbose or debugging). */
  datatype Notice = Replacing(path: string) | Skipping(path: string) | Creating(path: string)

  /** A COPY the loop issues: the table and the file it is written to. */
  datatype Write = Write(table: string, path: string)

  /** `os.path.join(dir_local, f"{tbl}.parquet")`. */
  function ParquetPath(dir: string, table: string): string
  {
    JoinPath(dir, table + ".parquet")
  }

  /** Whether the table is written: never in debug mode, otherwise when the file
      is missing or overwriting is on. */
  predicate ShouldWrite(debug: bool, overwrite: bool, present: bool)
  {
    !debug && ((overwrite && present) || !present)
  }

  /** The notice for a table whose file does or does not exist. */
  function NoticeFor(path: string, present: bool, overwrite: bool): Notice
  {
    if present then (if overwrite then Replacing(path) else Skipping(path)) else Creating(path)
  }

  /** `copy (select * from <table>) to '<path>'`. */
  function CopyStatement(w: Write): string
  {
    "copy (select * from " + w.table + ") to '" + w.path + "'"
  }

  /** Outside debug mode the notice tells the truth: a table is skipped exactly
      when it is announced as skipped; it is written over exactly when
      announced as replaced. */
  lemma NoticeTellsAction(path: string, present: bool, overwrite: bool)
    ensures NoticeFor(path, present, overwrite).Skipping? <==> !ShouldWrite(false, overwrite, present)
    ensures NoticeFor(path, present, overwrite).Replacing? <==> ShouldWrite(false, overwrite, present) && present
    ensures NoticeFor(path, present, overwrite).path == path
  {
  }

  /** The run of the loop over `tables`, starting from the files in `files`:
      all notices, the COPYs issued, and the files that exist afterwards. A file
      written for one table is seen as existing by a later table of the same
      name. */
  datatype Run = Run(notices: seq<Notice>, writes: seq<Write>, files: set<string>)

  function ExportRun(dir: string, tables: seq<string>, files: set<string>, overwrite: bool, debug: bool): Run
  {
    if |tables| == 0 then Run([], [], files)
    else
      var path := ParquetPath(dir, tables[0]);
      var present := path in files;
      var write := ShouldWrite(debug, overwrite, present);
      var rest := ExportRun(dir, tables[1..], if write then files + {path} else files, overwrite, debug);
      Run([NoticeFor(path, present, overwrite)] + rest.notices,
          (if write then [Write(tables[0], path)] else []) + rest.writes,
          rest.files)
  }

  /** One step of the run: the first table's notice and write, then the rest
      of the run from the files as they are after it. */
  lemma ExportRunStep(dir: string, tables: seq<string>, i: nat, files: set<string>, overwrite: bool, debug: bool)
    requires i < |tables|
    ensures var path := ParquetPath(dir, tables[i]);
      var write := ShouldWrite(debug, overwrite, path in files);
      var here := ExportRun(dir, tables[i..], files, overwrite, debug);
      var rest := ExportRun(dir, tables[i + 1..], if write then files + {path} else files, overwrite, debug);
      && here.notices == [NoticeFor(path, path in files, overwrite)] + rest.notices
      && here.writes == (if write then [Write(tables[i], path)] else []) + rest.writes
      && here.files == rest.files
  {
    assert tables[i..][0] == tables[i] && tables[i..][1..] == tables[i + 1..];
  }

  /** The loop of `load_sqlite_to_parquet`: the notices it prints, the
      statements it runs and the files that exist afterwards. */
  method ExportTables(dir: string, tables: seq<string>, files: set<string>, overwrite: bool, verbose: bool, debug: bool)
    returns (printed: seq<Notice>, statements: seq<string>, after: set<string>)
    ensures var run := ExportRun(dir, tables, files, overwrite, debug);
      && printed == (if verbose || debug then run.notices else [])
      && |statements| == |run.writes|
      && (forall k :: 0 <= k < |statements| ==> statements[k] == CopyStatement(run.writes[k]))
      && after == run.files
  {
    ghost var whole := ExportRun(dir, tables, files, overwrite, debug);
    ghost var notices: seq<Notice> := [];
    ghost var writes: seq<Write> := [];
    printed := [];
    statements := [];
    after := files;
    var i := 0;
    assert tables[0..] == tables;
    while i < |tables|
      invariant 0 <= i <= |tables|
      invariant whole.notices == notices + ExportRun(dir, tables[i..], after, overwrite, debug).notices
      invariant whole.writes == writes + ExportRun(dir, tables[i..], after, overwrite, debug).writes
      invariant whole.files == ExportRun(dir, tables[i..], after, overwrite, debug).files
      invariant printed == (if verbose || debug then notices else [])
      invariant |statements| == |writes|
      invariant forall k :: 0 <= k < |statements| ==> statements[k] == CopyStatement(writes[k])
    {
      ExportRunStep(dir, tables, i, after, overwrite, debug);
      var path := ParquetPath(dir, tables[i]);
      var present := path in after;
      var notice := NoticeFor(path, present, overwrite);
      var write := ShouldWrite(debug, overwrite, present);
      ghost var rest := ExportRun(dir, tables[i + 1..], if write then after + {path} else after, overwrite, debug);
      ghost var written := if write then [Write(tables[i], path)] else [];
      Regroup(notices, [notice], rest.notices);
      Regroup(writes, written, rest.writes);
      if verbose || debug {
        printed := printed + [notice];
      }
      notices := notices + [notice];
      writes := writes + written;
      if write {
        statements := statements + [CopyStatement(Write(tables[i], path))];
        after := after + {path};
      }
      i := i + 1;
    }
    assert tables[i..] == [];
    assert notices + [] == notices && writes + [] == writes;
  }

  /** Debug mode writes nothing and leaves the files as they are, but still
      announces every table. */
  lemma {:induction false} DebugWritesNothing(dir: string, tables: seq<string>, files: set<string>, overwrite: bool)
    ensures var run := ExportRun(dir, tables, files, overwrite, true);
      run.writes == [] && run.files == files && |run.notices| == |tables|
  {
    if |tables| > 0 {
      DebugWritesNothing(dir, tables[1..], files, overwrite);
    }
  }

  /** No write targets a file of `files`. */
  predicate AvoidsFiles(writes: seq<Write>, files: set<string>)
  {
    forall k :: 0 <= k < |writes| ==> writes[k].path !in files
  }

  /** No two writes target the same file. */
  predicate DistinctPaths(writes: seq<Write>)
  {
    forall j, k :: 0 <= j < k < |writes| ==> writes[j].path != writes[k].path
  }

  /** Without overwriting, no file that existed is written, and no file is
      written twice. */
  lemma {:induction false} NoClobber(dir: string, tables: seq<string>, files: set<string>, debug: bool)
    ensures AvoidsFiles(ExportRun(dir, tables, files, false, debug).writes, files)
    ensures DistinctPaths(ExportRun(dir, tables, files, false, debug).writes)
  {
    if |tables| > 0 {
      var path := ParquetPath(dir, tables[0]);
      var write := ShouldWrite(debug, false, path in files);
      var next := if write then files + {path} else files;
      var rest := ExportRun(dir, tables[1..], next, false, debug);
      NoClobber(dir, tables[1..], next, debug);
      assert AvoidsFiles(rest.writes, next) && DistinctPaths(rest.writes);
      var run := ExportRun(dir, tables, files, false, debug);
      if write {
        assert run.writes == [Write(tables[0], path)] + rest.writes;
        forall k | 0 <= k < |run.writes|
          ensures run.writes[k].path !in files
          ensures k > 0 ==> run.writes[k].path != path
        {
          if k > 0 {
            assert run.writes[k] == rest.writes[k - 1];
          }
        }
        forall j, k | 0 <= j < k < |run.writes|
          ensures run.writes[j].path != run.writes[k].path
        {
          if j > 0 {
            assert run.writes[j] == rest.writes[j - 1] && run.writes[k] == rest.writes[k - 1];
          }
        }
      } else {
        assert run.writes == rest.writes;
      }
    }
  }

  /** Outside debug mode every table ends up with its file, files only get added,
      and with overwriting on every table is written. */
  lemma {:induction false} EveryTableExported(dir: string, tables: seq<string>, files: set<string>, overwrite: bool)
    ensures var run := ExportRun(dir, tables, files, overwrite, false);
      && files <= run.files
      && (forall k :: 0 <= k < |tables| ==> ParquetPath(dir, tables[k]) in run.files)
      && (overwrite ==> |run.writes| == |tables|)
  {
    if |tables| > 0 {
      var path := ParquetPath(dir, tables[0]);
      var next := if ShouldWrite(false, overwrite, path in files) then files + {path} else files;
      EveryTableExported(dir, tables[1..], next, overwrite);
      var run := ExportRun(dir, tables, files, overwrite, false);
      forall k | 0 <= k < |tables|
        ensures ParquetPath(dir, tables[k]) in run.files
      {
        if k > 0 {
          assert tables[1..][k - 1] == tables[k];
        }
      }
    }
  }
}
