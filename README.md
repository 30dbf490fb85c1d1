# connection-helper: a verified model of the SQL helpers

`connection_helper` is a small Python library of glue between SQL Server,
PostgreSQL, SQLite, DuckDB and Parquet. Its own logic sits in
`src/connection_helper/sql.py`: it builds connection URLs, reads table lists,
maps SQL Server types to DuckDB types, builds `bcp` export commands and the SQL
around them, decides which Parquet files to write, lists unpacked files, alters
column types and guards the columns a frame gets before it is saved. This
project models that logic in Dafny and proves what it promises. Everything the
library hands to a database, to `bcp` or to the file system is modelled by its
inputs and outputs:

- environment lookups are a map;
- file existence is a boolean or a set of paths;
- a directory listing is a sequence of names;
- what a database answers is a map;
- the user's answer to a prompt is a string;
- the elapsed time is a whole number of seconds.

Modules, one per concern of `sql.py`:

- `Wrappers` and `Text`. `Option`/`Result`, and the pieces of Python's `str`
  the library uses: `split`, `join`, `strip`, `replace`, `lower`, `str(n)`,
  `os.path.join` and `basename`.
- `Connect`. `connect_sql`: the parameter lookup, the host/db check, and the
  three URL formats.
- `TableNames`. The table list of the two loaders: nested or flat, the target
  ("friendly") name, and the schema/table split with brackets stripped.
- `DuckdbSchema` and `Bcp`. The type map, the `CREATE TABLE` column
  definitions, the bcp select list, the `TOP` clauses and the bcp argument
  vector.
- `RelativeTime`. The `[hh:mm:ss]` stamp of `load_mssql_to_duckdb`.
- `MetaTable`. The `_meta` DROP/CREATE/INSERT statements and their
  parameters.
- `MssqlToDuckdb`. The per-table plan of `load_mssql_to_duckdb`, its early
  exits, and the line-by-line NUL removal.
- `SqliteLoad`. The views and per-table queries of `load_sql_to_sqlite`.
- `ParquetExport`. The write/skip loop of `load_sqlite_to_parquet`.
- `StringOrder` and `Unpack`. Python's string order and `sorted`, and
  `unpack_files_to_duckdb`.
- `TypeOverrides`. `apply_duckdb_type_overrides` over a catalog of
  `PRAGMA table_info` answers.
- `SaveMssql`. The prompt, the connection and the column guards of
  `save_to_mssql`.

The loops of the source are methods with loop invariants:

- the column, select-list and per-table loops;
- the Parquet loop;
- the relation loop;
- the NUL-stripping loop;
- the override loops and the column-type search.

Each method is proved equal to a recursive specification function, and the
lemmas state what those functions guarantee.

## Model

| member | source | states |
|---|---|---|
| Connect.ConnectionUrl | src/connection_helper/sql.py:69-94 | After the optional environment lookup, a missing or empty host or db stops with the ValueError outcome for every dbms, sqlite included; an unknown dbms gives None only once host and db are present; every URL begins with the mssql, sqlite or postgres scheme |
| Connect.MssqlUrlRoundTrip | src/connection_helper/sql.py:69-87 | With host and db present, an mssql URL is built and reads back into the resolved user, password, host and database, in that order (for names that do not contain the URL separators) |
| Connect.PostgresUrlRoundTrip | src/connection_helper/sql.py:69-91 | The same for the postgres URL |
| Connect.SqliteUrlIsPath | src/connection_helper/sql.py:80-89 | A sqlite URL exists exactly when host and db are both present, and is `sqlite:///` followed by the resolved database |
| Connect.UnsetUserRendersNone | src/connection_helper/sql.py:72-87 | With the environment in use, a user variable that is not set puts the text `None` into the mssql URL |
| Connect.AuthorityRoundTrip | src/connection_helper/sql.py:87 | `user:pw@host/db` is read back into its four parts |
| Connect.ServerUrlRoundTrip | src/connection_helper/sql.py:87-91 | A scheme, authority and suffix URL is read back into the authority's parts |
| TableNames.EmptyListIsNested | src/connection_helper/sql.py:171 | An empty table list counts as nested |
| TableNames.OverrideWins | src/connection_helper/sql.py:174-179 | In a nested list, a non-empty second element is the target name |
| TableNames.UndottedNameKept | src/connection_helper/sql.py:174-183 | A name without a dot is its own target name, both as a plain entry and as a pair with an empty override |
| TableNames.QualifiedNameYieldsTable | src/connection_helper/sql.py:180-183 | For `schema.table[.more]` the target name is `table`, the second dot-separated segment |
| TableNames.DefaultFriendlyHasNoDot | src/connection_helper/sql.py:180-183 | A derived target name never contains a dot; a dot-free name is kept unchanged |
| TableNames.BracketedTableInDbo | src/connection_helper/sql.py:787-788 | `[table]` without a schema is looked up as `dbo`.`table` |
| TableNames.BracketedQualifiedName | src/connection_helper/sql.py:787-792 | `[schema].[table]`, with anything after a further dot, is looked up as that schema and table |
| TableNames.PlainQualifiedName | src/connection_helper/sql.py:789-792 | `schema.table` without brackets is looked up as that schema and table |
| TableNames.SchemaAndTableOfGlued | src/connection_helper/sql.py:789-792 | A dotted name yields its first two segments, each stripped of brackets |
| TableNames.SchemaAndTableTrimmed | src/connection_helper/sql.py:787-792 | Neither the schema nor the table ever starts or ends with a bracket |
| DuckdbSchema.DuckDbType | src/connection_helper/sql.py:745-830 | The DuckDB type is always one of the map's types, and a type missing from the map becomes VARCHAR |
| DuckdbSchema.ClassifyIgnoresCase | src/connection_helper/sql.py:828-830 | Two reported types that differ only in case give the same SQL Server and DuckDB types |
| DuckdbSchema.ClassifyTotal | src/connection_helper/sql.py:827-834 | Every column gets one of the map's types; an unmapped type gets VARCHAR; a column without a reported type is recorded as `varchar`/`VARCHAR` |
| DuckdbSchema.ColumnDefinitionRoundTrip | src/connection_helper/sql.py:837 | `"name" TYPE` reads back as the column's name and type |
| DuckdbSchema.BuildColumnDefinitions | src/connection_helper/sql.py:817-838 | Exactly one definition and one (name, SQL Server type) pair per source column, in source order, each with the column's classified type |
| Bcp.SelectItemRoundTrip | src/connection_helper/sql.py:857-866 | Each select entry reads back as its own column, cleansed exactly when its type is `char`, `varchar`, `nvarchar`, `text` or `ntext` |
| Bcp.CleansedReadsBack | src/connection_helper/sql.py:861-864 | The NULL-to-empty and CR/LF/TAB-removing expression reads back as the column it cleanses |
| Bcp.QuotedReadsBack | src/connection_helper/sql.py:865-866 | `[c]` reads back as column `c`, selected unchanged |
| Bcp.SelectColumns | src/connection_helper/sql.py:856-866 | One select entry per column, in order, each the entry its type calls for |
| Bcp.SelectClauseStar | src/connection_helper/sql.py:868-870 | The select clause falls back to `*` exactly when there are no columns |
| Bcp.TopClauses | src/connection_helper/sql.py:872-874 | ` TOP n` appears exactly for n > 0 and carries n; the sqlite loader's ` top n` (lines 188-189) appears for every non-zero n, so the two disagree on negative limits |
| RelativeTime.ToClock | src/connection_helper/sql.py:673-675 | hours·3600 + minutes·60 + seconds equals the total; minutes and seconds lie in [0, 60); hours are non-negative for a non-negative total |
| RelativeTime.ClockUnique | src/connection_helper/sql.py:673-675 | That split is the only one with minutes and seconds below 60 |
| RelativeTime.Pad2Reads | src/connection_helper/sql.py:676 | `{n:02d}` of a natural number is a run of at least two digits that reads back as n, and is exactly two long below 100 |
| RelativeTime.FieldsReadBack | src/connection_helper/sql.py:676 | `hh:mm:ss` reads back as hours·3600 + minutes·60 + seconds |
| RelativeTime.ClockReadsBack | src/connection_helper/sql.py:676 | A bracketed stamp of non-negative fields reads back as its seconds |
| RelativeTime.TimestampRoundTrip | src/connection_helper/sql.py:670-676 | For every non-negative elapsed time, the stamp reads back as exactly that many seconds |
| RelativeTime.TimestampWidth | src/connection_helper/sql.py:676 | Below 100 hours the stamp is ten characters long |
| MetaTable.PlaceholderCount | src/connection_helper/sql.py:706 | The placeholder list holds exactly one `?` per key |
| MetaTable.InsertFrameHasNoPlaceholder | src/connection_helper/sql.py:707 | The INSERT text around the placeholders adds no `?` |
| MetaTable.InsertParametersMatch | src/connection_helper/sql.py:706-711 | The INSERT has as many `?` as there are keys, and as many parameters are bound |
| MetaTable.MetaColumnsAndParams | src/connection_helper/sql.py:698-710 | The k-th CREATE column reads back as the k-th key with type VARCHAR; the INSERT's column list names the k-th key at position k; the k-th parameter is `str()` of the k-th value: a string itself, `True`/`False`, `None`, or digits that read back as the integer |
| MssqlToDuckdb.LoadMssqlToDuckdb | src/connection_helper/sql.py:679-853 | An existing target file stops everything; `_meta` statements exist exactly when metadata is given; tables are planned exactly when the source yields a non-empty server and database, and then as the per-table specification says, with the DROP, CREATE, bcp command and COPY of every planned table, in plan order, built with the row limit and the source's server and database |
| MssqlToDuckdb.PlanTables | src/connection_helper/sql.py:774-853 | The per-table loop returns the plans of the readable entries, in order, skipping tables without columns and stopping at the first entry that cannot be read |
| MssqlToDuckdb.IssueStatements | src/connection_helper/sql.py:845-936 | One set of statements per planned table, in plan order: its DROP, CREATE, bcp command and COPY |
| MssqlToDuckdb.StatementsTargetOneTable | src/connection_helper/sql.py:845-936 | DROP, CREATE and COPY address the table's target name; the COPY reads the file bcp writes; bcp selects from the source table with the row limit, on the source's server and database |
| MssqlToDuckdb.PlanTable | src/connection_helper/sql.py:803-842 | One table's loop body: no plan when its columns are unknown or empty, otherwise its definitions and select list |
| MssqlToDuckdb.PlanForShape | src/connection_helper/sql.py:803-842 | A table is skipped exactly when its column query fails or returns no columns; a planned table keeps its target name and has one definition and one select entry per column |
| MssqlToDuckdb.PlanSelectsColumnsInOrder | src/connection_helper/sql.py:812-866 | The k-th select entry of a plan reads the k-th column that the source reported |
| MssqlToDuckdb.ColumnAgreement | src/connection_helper/sql.py:837-866 | A column's CREATE definition and its bcp select entry name the same column, and the entry cleanses exactly the character types |
| MssqlToDuckdb.CleansedIsVarchar | src/connection_helper/sql.py:830-866 | A cleansed column is always VARCHAR in DuckDB, and a column without a reported type is cleansed |
| MssqlToDuckdb.CharacterTypesAreVarchar | src/connection_helper/sql.py:757-761 | Every type that bcp cleanses maps to VARCHAR |
| MssqlToDuckdb.PlannedTablesHaveColumns | src/connection_helper/sql.py:840-842 | Every planned table has at least one column, and there are never more plans than entries |
| MssqlToDuckdb.AllTablesPlanned | src/connection_helper/sql.py:774-847 | When every entry is readable and has columns, every entry is planned, in order, under its own target name |
| MssqlToDuckdb.CsvPathInLocalDir | src/connection_helper/sql.py:795-796 | The export goes to `.local/<friendly>.csv` |
| MssqlToDuckdb.ExportFeedsLoad | src/connection_helper/sql.py:881-936 | bcp writes the export to the very file the COPY statement reads |
| MssqlToDuckdb.StripNulLines | src/connection_helper/sql.py:919-922 | Each decoded line loses exactly its NUL characters; the decoded lines written one by one equal the whole decoded text with NULs removed, and hold no NUL |
| ParquetExport.NoticeTellsAction | src/connection_helper/sql.py:258-268 | Outside debug mode a table is announced as skipped exactly when it is not written, and as replaced exactly when an existing file is written over |
| ParquetExport.ExportTables | src/connection_helper/sql.py:255-271 | The loop prints the notices only when verbose or debugging, issues one COPY per write in order, and leaves the files as the run specifies, a file written earlier counting as present later |
| ParquetExport.DebugWritesNothing | src/connection_helper/sql.py:268 | In debug mode nothing is written and the files are unchanged, yet every table is announced |
| ParquetExport.NoClobber | src/connection_helper/sql.py:258-271 | Without overwriting, no file that existed is written and no file is written twice |
| ParquetExport.EveryTableExported | src/connection_helper/sql.py:255-271 | Outside debug mode every table ends up with its file, no file disappears, and with overwriting on every table is written |
| SqliteLoad.ViewSqlSingleStatement | src/connection_helper/sql.py:160-163 | A view statement holds exactly one `;`, as its last character, and the query keeps every other character |
| SqliteLoad.ViewSqlKeepsPlainQuery | src/connection_helper/sql.py:161-163 | A query without `;` is embedded verbatim |
| SqliteLoad.ViewStatements | src/connection_helper/sql.py:159-163 | One view statement per view, in the dictionary's order |
| SqliteLoad.LoadSqlToSqlite | src/connection_helper/sql.py:149-189 | An existing file stops everything; otherwise the views (if given), `_meta` exactly when metadata is given, and the table queries as specified |
| SqliteLoad.TableLoads | src/connection_helper/sql.py:171-189 | The table loop returns one query per readable entry, in order, stopping at the first entry that cannot be read |
| SqliteLoad.AllTablesCopied | src/connection_helper/sql.py:173-189 | When every entry is readable, every entry is copied, in order, to its target name with the same row limit |
| SqliteLoad.FirstErrorStops | src/connection_helper/sql.py:173-183 | The first unreadable entry stops the loader: the entries before it are copied and its error is reported |
| StringOrder.LessIrreflexive | src/connection_helper/sql.py:317 | No string sorts before itself |
| StringOrder.LessTransitive | src/connection_helper/sql.py:317 | String order is transitive |
| StringOrder.LessTotal | src/connection_helper/sql.py:317 | Of two different strings one sorts first |
| StringOrder.LessPrefix | src/connection_helper/sql.py:336-337 | A common prefix does not change the order of two strings |
| StringOrder.InsertSorted | src/connection_helper/sql.py:317 | Inserting keeps a list strictly sorted and adds exactly the new element |
| StringOrder.SortedUnique | src/connection_helper/sql.py:317 | Two strictly sorted lists with the same elements are equal, so sorting a set has one result |
| StringOrder.SortDistinctSorts | src/connection_helper/sql.py:337 | `sorted` yields a strictly sorted list of exactly the input's elements |
| StringOrder.SortDistinctOfSorted | src/connection_helper/sql.py:337 | Sorting an already sorted list changes nothing |
| StringOrder.PrefixKeepsSorted | src/connection_helper/sql.py:336-337 | Prefixing every name keeps a sorted list sorted |
| Unpack.StemIsPlain | src/connection_helper/sql.py:307 | A file's stem holds neither a dot nor a slash |
| Unpack.SortedStemsSpec | src/connection_helper/sql.py:307-317 | The stems are strictly sorted and are exactly the stems of the listed files kept by `list_files` |
| Unpack.CollectStems | src/connection_helper/sql.py:307-317 | The stem loop returns exactly that sorted list, whose names have no dot and no slash |
| Unpack.CollectRelations | src/connection_helper/sql.py:319-329 | Outside debug mode, one relation per stem for a known extension (none for an unknown one), each reading `<dir>/<stem>.<ext>` |
| Unpack.RelationReadsItsStem | src/connection_helper/sql.py:324-329 | The stem of the file a relation reads is the stem it was made for |
| Unpack.UnpackFilesToDuckdb | src/connection_helper/sql.py:307-337 | Debug mode returns the listing; otherwise a lone relation when exactly one stem is kept, or else a tuple of one relation per stem, in sorted order |
| Unpack.EscapeIdentity | src/connection_helper/sql.py:337 | `repr` leaves a string with nothing to escape unchanged between its quotes |
| Unpack.ReprOfSingleQuoted | src/connection_helper/sql.py:337 | `repr` writes a name with a single quote and no double quote in double quotes |
| Unpack.PlainDebugText | src/connection_helper/sql.py:336-337 | For plain names the debug text is the prefixed names, sorted, joined by `, ` |
| Unpack.SingleQuoteShowsDoubleQuotes | src/connection_helper/sql.py:337 | A name such as `it's` is shown as `"its"`: the quotes that `repr` chose survive the clean-up |
| TypeOverrides.FindTypeSpec | src/connection_helper/sql.py:1028-1033 | The lookup finds nothing exactly when no row has the name; otherwise it returns the type of the first row with the name |
| TypeOverrides.FindColumnType | src/connection_helper/sql.py:1029-1033 | The scan over the rows returns that first match |
| TypeOverrides.SetTypeEffect | src/connection_helper/sql.py:1049-1050 | After an ALTER the column reports the new type; every row keeps its name; every other column keeps its type |
| TypeOverrides.AlterColumn | src/connection_helper/sql.py:1028-1056 | One column: missing, already of the target type up to case, altered, or a failed ALTER, as specified |
| TypeOverrides.AlterColumns | src/connection_helper/sql.py:1022-1056 | The inner loop applies the column overrides in order, each against the catalog the previous one left |
| TypeOverrides.ApplyTypeOverrides | src/connection_helper/sql.py:1000-1056 | A missing file changes nothing; otherwise the tables are processed in order, a table without rows is skipped as a whole |
| TypeOverrides.ApplyColumnEffect | src/connection_helper/sql.py:1035-1052 | One override settles its column and touches no other table and no other column |
| TypeOverrides.ApplyColumnsEffect | src/connection_helper/sql.py:1022-1056 | A table's overrides settle each named column and change nothing else |
| TypeOverrides.ApplyAllSettles | src/connection_helper/sql.py:1012-1056 | After a run every override whose table and column exist and whose type DuckDB accepts is in place; tables no override names are untouched; no table appears or disappears |
| TypeOverrides.ApplyColumnSettled | src/connection_helper/sql.py:1040-1043 | A column that already has its target type is left alone |
| TypeOverrides.ApplyColumnsSettled | src/connection_helper/sql.py:1022-1043 | A table whose overridden columns are all settled is left alone and nothing is altered |
| TypeOverrides.ApplyAllSettled | src/connection_helper/sql.py:1012-1043 | When every override is settled, a run changes nothing and alters nothing |
| TypeOverrides.RerunChangesNothing | src/connection_helper/sql.py:1012-1056 | Running the same overrides a second time changes nothing and alters nothing, provided DuckDB reports each type under the name it was given |
| TypeOverrides.AliasAlteredEveryRun | src/connection_helper/sql.py:1040-1050 | Without that proviso the skip rule misses: a column overridden to `INT`, which DuckDB reports as `INTEGER`, is altered again on every run |
| SaveMssql.ConfirmedExactly | src/connection_helper/sql.py:473-478 | Only `y` and `Y` confirm; in particular the empty answer aborts, although the prompt shows `y` as the default |
| SaveMssql.SaveToMssql | src/connection_helper/sql.py:472-500 | Aborted exactly when asked and not confirmed; the ValueError outcome exactly when no connection is given and host or db is missing after the lookup; otherwise the frame is written with the guarded columns, through a new connection exactly when none was given |
| SaveMssql.SaveConnectsWithoutCredentials | src/connection_helper/sql.py:481-492 | The connection it opens is an mssql URL with empty user and password for the resolved host and database |
| SaveMssql.GuardsKeepColumns | src/connection_helper/sql.py:494-500 | The frame's columns stay in order between the added ones; `id` and `created_at` are present exactly when asked for or already there; `id` comes first when added; no other column appears |
| SaveMssql.GuardsIdempotent | src/connection_helper/sql.py:494-500 | Applying the guards to their own result adds nothing |
| SaveMssql.GuardsKeepDistinct | src/connection_helper/sql.py:494-500 | The guards never duplicate a column name |
| Text.Split | src/connection_helper/sql.py:790 | `split` yields at least one segment, and two or more exactly when the separator occurs |
| Text.JoinSplit | src/connection_helper/sql.py:790 | Joining the segments of a split with the separator gives back the string |
| Text.SplitSegmentsFree | src/connection_helper/sql.py:790 | No segment contains the separator |
| Text.StripTrims | src/connection_helper/sql.py:788 | What `strip('[]')` leaves neither starts nor ends with a bracket |
| Text.StripWrapped | src/connection_helper/sql.py:788 | `strip` removes exactly a surrounding run of the stripped characters |
| Text.RemoveCharGone | src/connection_helper/sql.py:922 | `replace(c, '')` leaves no `c` |
| Text.RemoveCharConcat | src/connection_helper/sql.py:921-922 | Removing a character from a concatenation removes it from each part |
| Text.IntToStringRoundTrip | src/connection_helper/sql.py:710 | `str(n)` of an integer reads back as n |
| Text.BaseNameOfJoin | src/connection_helper/sql.py:796 | The base name of a directory joined with a slash-free name is that name |

## Left out

- Database and engine calls are not modelled: `create_engine`, `connect`, `database_exists`/`create_database`, `execute`, `fetchmany`, `to_sql`, `PRAGMA table_info`, `read_parquet`/`read_csv` and `COPY`. They are foreign libraries. Their answers are inputs here: column lists, INFORMATION_SCHEMA types, catalogs and the accepted-type map. Their effects are outputs: statements, plans and relations.
- Running `bcp` through `subprocess` is not modelled, and neither is decoding its output or checking the CSV's size (sql.py:889-911). This is process I/O. Only the argument vector is modelled.
- File-system effects are not modelled: `os.path.exists`, `makedirs`, `open`, `os.replace`, `os.remove` and `listdir`. File existence is a boolean or a set of paths, and a directory listing is a sequence.
- `load_dotenv`, `input()` and `datetime.now()` are modelled as an environment map, an answer string and a whole number of elapsed seconds. The `created_at` value is not modelled.
- Printing and verbose messages are left out, except for the Parquet notices.
- `is_url` is left out; it depends on `urllib.parse`.
- `print_meta` is left out; it only formats output.
- `load_from_mssql`, `load_file_to_duckdb` and `load_sqlite_to_duckdb` are left out. They are thin pass-throughs to pandas or DuckDB readers.
- DataFrame semantics are left out. This covers the `fetchmany` batching loop of `load_sql_to_sqlite` (sql.py:193-200), the `table_filter` pandas query of `load_sqlite_to_parquet` (the table list is an input), and the row values of `save_to_mssql`.
- `src/connection_helper/pgp.py` and `src/connection_helper/sec.py` are not part of this model. They pass straight through to gnupg and the Infisical SDK.
- Text.Lower: only ASCII letters are lower-cased. Python's full Unicode `lower` is not modelled.
- Unpack.EscapeChar: `repr` escapes only backslash, the chosen quote, `\n`, `\r` and `\t`. Other unprintable characters are shown as themselves.
- Unpack.RelationFor: the path is built with `os.path.join`, not `pathlib`. Path normalisation is not modelled.
- TypeOverrides.ApplyTypeOverrides: DuckDB's own type normalisation is reduced to the `Engine` map, which lists the accepted types and the name each is reported under. The outer `try/except` that catches any other error and the verbose messages are left out.
- TypeOverrides: table names containing a quote are not modelled. Inside the `PRAGMA table_info('…')` literal they would break the statement.
- TableNames.ResolveItem: a list where only some entries are lists is modelled as the `NotAString` error. Python would go on with a list where a string is expected and then fail. A nested entry with fewer than two elements is `MissingElement`, which is Python's `IndexError`.
- MssqlToDuckdb.StripNulLines: the lines are the text after decoding. The source opens the export as UTF-16 text with `errors='replace'` and writes it back as UTF-16. On that way undecodable code units become U+FFFD, line endings are translated to the platform's newline, and the byte-order mark is consumed and written again. None of that decoding, newline translation or re-encoding is modelled, so the file on disk is not claimed to be the old file minus its NULs.
- MssqlToDuckdb.IssueStatements: these are the statements of a table whose steps all succeed. When the bcp call fails, the export is empty, or the COPY fails, the source skips the rest of that table (sql.py:947-967). Those outcomes are not inputs of the model, and neither is the optional deletion of the export.
- MssqlToDuckdb.PlanFor: any exception raised while the columns are being read is modelled as the table being absent from the column map. The table is then skipped, as the source's `except … continue` does.
- MssqlToDuckdb.LoadMssqlToDuckdb: a `ddb.Error` raised while `_meta` is being written is not modelled. The source prints it and goes on.
- SaveMssql.SaveToMssql: the `to_sql(..., if_exists="replace")` write and the schema and table names appear only in messages and the write, so they are not modelled.
- RelativeTime.TimestampRoundTrip: the round trip is stated for non-negative elapsed times only. A negative time cannot come from a clock that moves forward. `ToClock` and the stamp are still defined for every integer, following Python's floor division and `:02d` on negatives.
