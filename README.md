# MigrationTool schema reconstructor, in Dafny

This project models the part of MigrationTool that rebuilds a database
schema from a project's Entity Framework migration files.

- **Catalogue.** It finds the migration files of a DbContext in
  `Migrations/<short context name>` and in `Migrations`. It skips
  ModelSnapshot files. It splits each file name into timestamp, name and
  Designer flag.
- **Merging and sorting.** A migration and its `.Designer` companion
  collapse into one entry. Entries are sorted by timestamp and labelled
  for the migration list.
- **Replay.** The files are replayed in timestamp order up to a chosen
  migration. Each file is read by four independent passes: CreateTable
  blocks, AddColumn, DropColumn and AlterColumn. The passes update a
  case-insensitive dictionary table → column → `ColumnInfo`.
- **Result.** That dictionary is flattened into a list ordered by table
  and column. CLR type names are normalised into C# names on the way
  (`System.Nullable<System.Int32>` becomes `int?`).

Modules, one per file:

| file | module | contents |
|---|---|---|
| `text.dfy` | `Text` | the .NET string operations used: Trim, ordinal order, OrdinalIgnoreCase folding, IndexOf, Replace, Split('.').Last() |
| `records.dfy` | `Records` | the records `MigrationFileEntry`, `MigrationItem` and `ColumnInfo` |
| `type_names.dfy` | `TypeNames` | `ToCSharpTypeName` and the alias table |
| `regex.dfy` | `Regexes` | a backtracking matcher for the regular-expression fragment the passes use, with named groups and the left-to-right scan of `Regex.Matches` |
| `extract.dfy` | `Extract` | the four patterns, and the operations (`Upsert`/`Drop`) each pass reads from a file, in pass order |
| `schema.dfy` | `Schema` | the dictionary as the class `SchemaMap`, with `UpsertColumn` and the four passes as methods; their reference definitions `Upserted`, `Dropped` and `ApplyAll`; the flattening |
| `catalog.dfy` | `Catalog` | `GetMigrationFileEntries`, the file-name split, group-and-prefer, the stable sort, `BuildMigrationItems` and the duplicate-name check |
| `reducer.dfy` | `Reducer` | `InferSchemaUpTo`: the cut-off loop, the replay and the flattened result |

Each imperative method is proved equal to a reference function of its inputs
or its old state. The properties are proved as lemmas about those functions.

The file system is a parameter. A `Listing` maps each existing directory to
the `*.cs` paths `Directory.GetFiles` returns for it, in the order it returns
them. A total function `read` gives the text `File.ReadAllText` returns for a
path.

The context's short name drops every occurrence of "Context" from the last
dot-separated segment of the context's name, not only a trailing one
(`MainWindow.xaml.cs:286` uses `Replace`; `Catalog.ContextShort`,
`Catalog.RemoveAllAround`, `Catalog.LeadingOccurrenceRemoved`).

Some functions have no contract of their own; members in the table below
carry their properties:

- `Catalog.FileStem`: `Catalog.WithoutExtension` and `Catalog.FileName`.
- `Extract.TableOps` and `Extract.CreateTableOps`: `Extract.TableOpsFit`, `Extract.CreateTableOpsFit` and `Schema.SchemaMap.UpsertTables`.
- `Extract.FileOps`: `Extract.FileOpsFit`, `Reducer.FilePasses` and `Schema.FilePassOrder`.
- `Catalog.Merged`: `Catalog.MergedAndSorted`, `Catalog.MergedKeepsFirst` and `Catalog.MergedCovers`.
- `Catalog.MigrationItems`: `Catalog.ItemsOrdered`, `Catalog.ItemsLabelled`, `Catalog.EveryGroupListed` and `Catalog.UntimedFirst`.
- `Reducer.Replay`, `Reducer.Columns` and `Reducer.SchemaUpTo`: `Reducer.ReplayConsistent`, `Reducer.ReplayUpTo`, `Reducer.InferSchemaUpTo`, `Reducer.ColumnsOrdered` and `Reducer.ColumnsAreLookups`.

## Model

| member | source | states |
|---|---|---|
| Text.Trim | MigrationTool/MainWindow.xaml.cs:483 | the result is no longer than the input and has no white space at either end |
| Text.TrimSlice | MigrationTool/MainWindow.xaml.cs:483 | trimming removes white space and nothing else: the result is a slice of the input with only white space before and after it |
| Text.TrimStart | MigrationTool/MainWindow.xaml.cs:483 | the result is a suffix of the input, does not start with white space, and every character removed is white space |
| Text.TrimEnd | MigrationTool/MainWindow.xaml.cs:483 | the result is a prefix of the input, does not end with white space, and every character removed is white space |
| Text.TrimIdempotent | MigrationTool/MainWindow.xaml.cs:483 | trimming a trimmed token changes nothing |
| Text.FoldEqualIff | MigrationTool/MainWindow.xaml.cs:332 | two names have the same key exactly when they have the same length and agree character by character up to the case of ASCII letters |
| Text.FoldIdempotent | MigrationTool/MainWindow.xaml.cs:332 | a key is its own key |
| Text.LessEqTransitive | MigrationTool/MainWindow.xaml.cs:264 | the ordinal order used for sorting is transitive |
| Text.LessEqTotal | MigrationTool/MainWindow.xaml.cs:264 | any two strings are comparable in the ordinal order |
| Text.LessTrichotomy | MigrationTool/MainWindow.xaml.cs:264 | any two different strings are strictly ordered one way or the other |
| Text.LessTransitive | MigrationTool/MainWindow.xaml.cs:264 | the strict ordinal order is transitive |
| Text.EmptyIsLeast | MigrationTool/MainWindow.xaml.cs:264 | the empty timestamp sorts before every other |
| Text.IndexOf | MigrationTool/MainWindow.xaml.cs:378 | the first occurrence at or after the start position, or -1 when there is none; no occurrence before it |
| Text.LastSegment | MigrationTool/MainWindow.xaml.cs:286 | the suffix after the last '.', which holds no '.', or the whole string |
| Text.RemoveAll | MigrationTool/MainWindow.xaml.cs:286 | Replace with an empty replacement never lengthens the string |
| Text.RemoveAllAbsent | MigrationTool/MainWindow.xaml.cs:286 | Replace leaves a string without the pattern unchanged |
| TypeNames.NullableInner | MigrationTool/MainWindow.xaml.cs:485-488 | the inner group, wrapped again in System.Nullable<…>, gives back the token |
| TypeNames.AliasFromSpec | MigrationTool/MainWindow.xaml.cs:491-516 | the switch falls through exactly when no table entry names the token; otherwise it gives the C# name of an entry that names it |
| TypeNames.ShortNamesDistinct | MigrationTool/MainWindow.xaml.cs:491-516 | no two arms of the switch share a short name |
| TypeNames.ToCSharpTypeName | MigrationTool/MainWindow.xaml.cs:480-517 | every normalised name is trimmed, whichever branch produced it |
| TypeNames.ToCSharpTypeNameTrim | MigrationTool/MainWindow.xaml.cs:483 | surrounding white space never changes the normal form, so the lemmas about trimmed tokens cover every input |
| TypeNames.NullableUnwraps | MigrationTool/MainWindow.xaml.cs:485-489 | System.Nullable<X> normalises to the normal form of X followed by '?' |
| TypeNames.AliasesAgree | MigrationTool/MainWindow.xaml.cs:493-514 | T and System.T give the same C# name for every table entry |
| TypeNames.PassThrough | MigrationTool/MainWindow.xaml.cs:515 | any other token is returned trimmed and otherwise unchanged |
| TypeNames.NullableAlias | MigrationTool/MainWindow.xaml.cs:485-514 | a wrapped alias in either spelling gives the alias's C# name followed by '?' |
| Regexes.RunLength | MigrationTool/MainWindow.xaml.cs:369-370 | the longest run of a character class from a position |
| Regexes.Counts | MigrationTool/MainWindow.xaml.cs:370 | a greedy repetition tries counts from most to fewest; a lazy one (`*?`) from fewest to most |
| Regexes.MatchAt | MigrationTool/MainWindow.xaml.cs:369-370 | an anchored match ends within the text, at or after its start |
| Regexes.FirstMatch | MigrationTool/MainWindow.xaml.cs:372 | a match found lies within the text, from the search start on |
| Regexes.FirstMatchSpec | MigrationTool/MainWindow.xaml.cs:372 | the match found is a match, and the pattern matches nowhere earlier |
| Regexes.MatchesFrom | MigrationTool/MainWindow.xaml.cs:372 | the matches of `Matches` are in text order and do not overlap |
| Regexes.MatchesFound | MigrationTool/MainWindow.xaml.cs:372 | every reported match is a match of the pattern |
| Regexes.EveryMatchReported | MigrationTool/MainWindow.xaml.cs:372 | every position where the pattern matches is the start of a reported match or lies inside one |
| Regexes.MatchFits | MigrationTool/MainWindow.xaml.cs:384-386 | a match captures every named group of its pattern, each within the text and of its element's shape |
| Regexes.GroupsFit | MigrationTool/MainWindow.xaml.cs:384-386 | the group values of a reported match have the shapes of their elements |
| Extract.TableNameConforms | MigrationTool/MainWindow.xaml.cs:369 | the table group of the CreateTable pattern is a non-empty run without '"' |
| Extract.ColumnLineConforms | MigrationTool/MainWindow.xaml.cs:370 | the column line's groups: a word, a type without '>', and true/false |
| Extract.TypedColumnConforms | MigrationTool/MainWindow.xaml.cs:401 | the AddColumn/AlterColumn groups: quoted names, a type without '>', and true/false |
| Extract.DropColumnConforms | MigrationTool/MainWindow.xaml.cs:419 | the DropColumn groups are quoted names |
| Extract.BlockEnd | MigrationTool/MainWindow.xaml.cs:377-379 | a block runs to the next "CreateTable" after its first character, or to the end of the text |
| Extract.BlockOps | MigrationTool/MainWindow.xaml.cs:382-389 | one upsert per column line of the block |
| Extract.TableMatchesInside | MigrationTool/MainWindow.xaml.cs:372-377 | every CreateTable match starts inside the text, so its block is never empty |
| Extract.AddColumnOps | MigrationTool/MainWindow.xaml.cs:402-409 | one upsert per AddColumn match |
| Extract.DropColumnOps | MigrationTool/MainWindow.xaml.cs:420-428 | one drop per DropColumn match |
| Extract.AlterColumnOps | MigrationTool/MainWindow.xaml.cs:440-447 | one upsert per AlterColumn match |
| Extract.FlagExact | MigrationTool/MainWindow.xaml.cs:386 | the flag group is only ever "true" or "false", so the case-insensitive test holds exactly for "true" |
| Extract.TypeGroupFits | MigrationTool/MainWindow.xaml.cs:385 | the trimmed type has no white space at its ends and no '>' |
| Extract.TypedColumnOpFits | MigrationTool/MainWindow.xaml.cs:404-408 | an AddColumn/AlterColumn match gives a well-formed upsert, nullable exactly when the flag reads "true" |
| Extract.ColumnOpFits | MigrationTool/MainWindow.xaml.cs:384-388 | a column line gives a well-formed upsert, nullable exactly when the flag reads "true" |
| Extract.TableOpsFit | MigrationTool/MainWindow.xaml.cs:372-390 | every operation of the CreateTable matches is a well-formed upsert |
| Extract.CreateTableOpsFit | MigrationTool/MainWindow.xaml.cs:366-391 | the CreateTable pass only upserts, with well-formed names and types |
| Extract.AddColumnOpsFit | MigrationTool/MainWindow.xaml.cs:398-410 | the AddColumn pass only upserts, with well-formed names and types |
| Extract.DropColumnOpsFit | MigrationTool/MainWindow.xaml.cs:417-429 | the DropColumn pass only drops, with well-formed names |
| Extract.AlterColumnOpsFit | MigrationTool/MainWindow.xaml.cs:436-448 | the AlterColumn pass only upserts, with well-formed names and types |
| Extract.FileOpsFit | MigrationTool/MainWindow.xaml.cs:348-351 | every operation read from a file is well formed |
| Schema.Upserted | MigrationTool/MainWindow.xaml.cs:460-464 | the tables after an upsert are the tables before plus the column's table |
| Schema.UpsertedLookup | MigrationTool/MainWindow.xaml.cs:458-473 | after an upsert the column holds the new ColumnInfo under any casing of its names; every other column is unchanged |
| Schema.UpsertedConsistent | MigrationTool/MainWindow.xaml.cs:460-472 | an upsert keeps every column under its own case-folded names |
| Schema.Dropped | MigrationTool/MainWindow.xaml.cs:424-427 | a drop never removes or adds a table, even one left empty |
| Schema.DroppedLookup | MigrationTool/MainWindow.xaml.cs:424-427 | after a drop the column is absent under any casing; every other column is unchanged; a missing table or column is a no-op |
| Schema.DroppedConsistent | MigrationTool/MainWindow.xaml.cs:424-427 | a drop keeps every column under its own case-folded names |
| Schema.ApplyAllConsistent | MigrationTool/MainWindow.xaml.cs:332 | replaying operations keeps each key holding at most one column, the one its names fold to |
| Schema.ApplyAllAppend | MigrationTool/MainWindow.xaml.cs:348-351 | replaying two operation lists one after the other is replaying their concatenation |
| Schema.LookupAfter | MigrationTool/MainWindow.xaml.cs:372-447 | after a replay each column holds the effect of the last operation naming it, or what it held before |
| Schema.UntouchedKept | MigrationTool/MainWindow.xaml.cs:458-473 | operations that never name a column leave it as it was |
| Schema.DropsOnlyRemove | MigrationTool/MainWindow.xaml.cs:417-429 | a DropColumn pass that names a column leaves it absent |
| Schema.FilePassOrder | MigrationTool/MainWindow.xaml.cs:348-351 | within one file AlterColumn beats DropColumn, which beats AddColumn, which beats CreateTable, wherever each appears in the text |
| Schema.DroppedInFile | MigrationTool/MainWindow.xaml.cs:348-351 | a column a file drops and does not alter is absent after that file |
| Schema.TablesKept | MigrationTool/MainWindow.xaml.cs:458-473 | tables are never removed: the tables afterwards are those before plus those an upsert named |
| Schema.ColumnBeforeTrichotomy | MigrationTool/MainWindow.xaml.cs:356-357 | the table-then-column order is strict, and total on distinct name pairs |
| Schema.ColumnBeforeTransitive | MigrationTool/MainWindow.xaml.cs:356-357 | the table-then-column order is transitive |
| Schema.SortedColumns | MigrationTool/MainWindow.xaml.cs:356-357 | a set of columns with distinct name pairs, listed once each in table-then-column order |
| Schema.StoredPairsDistinct | MigrationTool/MainWindow.xaml.cs:332 | the stored columns never share a (table, column) name pair |
| Schema.Flatten | MigrationTool/MainWindow.xaml.cs:355-358 | the result holds exactly the stored columns, ordered by table and then by column |
| Schema.FlattenIsLookup | MigrationTool/MainWindow.xaml.cs:355-358 | a column is listed with given names (ignoring case) exactly when it is the column stored under them |
| Schema.BlockText | MigrationTool/MainWindow.xaml.cs:377-380 | the block is the text from the match up to the block's end |
| Schema.SchemaMap.constructor | MigrationTool/MainWindow.xaml.cs:332 | the schema starts empty and consistent |
| Schema.SchemaMap.UpsertColumn | MigrationTool/MainWindow.xaml.cs:458-473 | the new dictionary is the upserted one; consistency is kept |
| Schema.SchemaMap.RemoveColumn | MigrationTool/MainWindow.xaml.cs:424-427 | the new dictionary is the dropped one; consistency is kept |
| Schema.SchemaMap.ApplyCreateTable | MigrationTool/MainWindow.xaml.cs:366-391 | the dictionary is the old one with every CreateTable column upsert replayed, in text order |
| Schema.SchemaMap.UpsertTables | MigrationTool/MainWindow.xaml.cs:372-390 | each CreateTable match contributes its block's upserts, block after block |
| Schema.SchemaMap.UpsertBlock | MigrationTool/MainWindow.xaml.cs:382-389 | each column line of a block is upserted in order |
| Schema.SchemaMap.ApplyAddColumn | MigrationTool/MainWindow.xaml.cs:398-410 | the dictionary is the old one with every AddColumn upsert replayed, in text order |
| Schema.SchemaMap.ApplyDropColumn | MigrationTool/MainWindow.xaml.cs:417-429 | the dictionary is the old one with every DropColumn replayed, in text order |
| Schema.SchemaMap.ApplyAlterColumn | MigrationTool/MainWindow.xaml.cs:436-448 | the dictionary is the old one with every AlterColumn upsert replayed, in text order |
| Catalog.Combine | MigrationTool/MainWindow.xaml.cs:287-288 | an empty second part gives the first; an empty first part or a rooted second part gives the second; otherwise the two are joined by exactly one separator, added only when the first does not end in one |
| Catalog.WithoutExtension | MigrationTool/MainWindow.xaml.cs:300 | the stem is the file name up to its last '.', or the whole name when it has no '.' |
| Catalog.FileName | MigrationTool/MainWindow.xaml.cs:300 | the file name is the suffix of the path after its last directory separator |
| Catalog.ContextShort | MigrationTool/MainWindow.xaml.cs:286 | the short name holds no '.', and is no longer than the context name |
| Catalog.RemoveAllAround | MigrationTool/MainWindow.xaml.cs:286 | an occurrence of "Context" is removed, and the text before and after it is processed independently |
| Catalog.TrailingContextStripped | MigrationTool/MainWindow.xaml.cs:286 | a context named p.XContext, with X free of '.' and "Context", has the short name X |
| Catalog.LeadingOccurrenceRemoved | MigrationTool/MainWindow.xaml.cs:286 | "Context" is removed at the front of the name too, not only as a suffix |
| Catalog.Distinct | MigrationTool/MainWindow.xaml.cs:296 | every directory of the input, none repeated, the first one first |
| Catalog.DistinctInOrder | MigrationTool/MainWindow.xaml.cs:296 | the directories are listed in the order of their first occurrences |
| Catalog.CandidateDirs | MigrationTool/MainWindow.xaml.cs:290-296 | the searched directories are exactly the existing ones of the two candidates, context directory first, none twice |
| Catalog.SearchedDirs | MigrationTool/MainWindow.xaml.cs:287-296 | only existing directories are searched |
| Catalog.EmptyShortNameSearchesOnce | MigrationTool/MainWindow.xaml.cs:286-296 | with an empty short name the base directory is searched once |
| Catalog.MatchStem | MigrationTool/MainWindow.xaml.cs:303-310 | a split has a 14-digit timestamp and a non-empty one-line name, composes back to the stem, and keeps no ".Designer" suffix in the name unless flagged |
| Catalog.StemRoundTrip | MigrationTool/MainWindow.xaml.cs:303-310 | every well-formed (timestamp, name, Designer) triple is recovered from the stem it describes |
| Catalog.EntryOf | MigrationTool/MainWindow.xaml.cs:303-316 | a stem that fits the pattern gives its timestamp, name and Designer flag; one that does not gives an empty timestamp, the whole stem as name, and no Designer flag |
| Catalog.EntriesOfFilesMembers | MigrationTool/MainWindow.xaml.cs:298-317 | exactly the non-snapshot files of a directory give entries |
| Catalog.EntriesOfDirsMembers | MigrationTool/MainWindow.xaml.cs:296-318 | exactly the non-snapshot files of the searched directories give entries |
| Catalog.DirectoryEntries | MigrationTool/MainWindow.xaml.cs:298-317 | the inner loop appends the entries of one directory's files in listing order |
| Catalog.GetMigrationFileEntries | MigrationTool/MainWindow.xaml.cs:283-321 | the list holds the entries of the searched directories, directory by directory |
| Catalog.SnapshotsSkipped | MigrationTool/MainWindow.xaml.cs:301 | no entry comes from a file whose stem ends in "ModelSnapshot", in any case |
| Catalog.GroupKeys | MigrationTool/MainWindow.xaml.cs:259 | the (Timestamp, Name) keys of the groups, each once |
| Catalog.GroupKeysInOrder | MigrationTool/MainWindow.xaml.cs:259 | the groups come in the order of their first entries in the listing, as GroupBy gives them |
| Catalog.FirstWith | MigrationTool/MainWindow.xaml.cs:260 | the first entry of a group, among its primary files or among all its files |
| Catalog.Survivor | MigrationTool/MainWindow.xaml.cs:260 | the kept entry belongs to the group, is a Designer file only when the whole group is, and no earlier entry of the group is as good: it is the first primary file, or the first file of an all-Designer group |
| Catalog.Dedupe | MigrationTool/MainWindow.xaml.cs:258-261 | one entry per group, taken from the input; a group with a primary file keeps a primary file |
| Catalog.DedupeKeepsFirst | MigrationTool/MainWindow.xaml.cs:258-261 | each kept entry is its group's first primary file in listing order, or its first file when the group holds only Designer files |
| Catalog.DedupeCovers | MigrationTool/MainWindow.xaml.cs:258-261 | every group of the input keeps an entry |
| Catalog.DedupeKeysDistinct | MigrationTool/MainWindow.xaml.cs:258-261 | no group keeps two entries |
| Catalog.PrimaryWins | MigrationTool/MainWindow.xaml.cs:257-260 | a migration and its Designer companion give just the migration, in either listing order |
| Catalog.InsertByTimestamp | MigrationTool/MainWindow.xaml.cs:264 | inserting adds exactly the one entry |
| Catalog.InsertKeepsSorted | MigrationTool/MainWindow.xaml.cs:264 | inserting into a sorted list keeps it sorted |
| Catalog.InsertKeepsKeysDistinct | MigrationTool/MainWindow.xaml.cs:264 | inserting an entry of a new group keeps the keys distinct |
| Catalog.SortByTimestamp | MigrationTool/MainWindow.xaml.cs:264 | the result is a permutation of the input, sorted by ordinal timestamp |
| Catalog.SortIsStable | MigrationTool/MainWindow.xaml.cs:264 | entries with equal timestamps keep their input order |
| Catalog.SortKeepsKeysDistinct | MigrationTool/MainWindow.xaml.cs:264 | sorting keeps distinct keys distinct |
| Catalog.MergedAndSorted | MigrationTool/MainWindow.xaml.cs:258-264 | merging then sorting gives one entry per group, from the input, in timestamp order; it is a primary file whenever its group has one |
| Catalog.MergedKeepsFirst | MigrationTool/MainWindow.xaml.cs:258-264 | after sorting, each listed file is still its group's first primary file in listing order (or its first file when all are Designer files) |
| Catalog.MergedCovers | MigrationTool/MainWindow.xaml.cs:258-264 | every group of the input is present after merging and sorting |
| Catalog.ItemsOrdered | MigrationTool/MainWindow.xaml.cs:263-272 | one item per group, in ascending timestamp order, no (Timestamp, Name) twice |
| Catalog.EveryGroupListed | MigrationTool/MainWindow.xaml.cs:258-272 | every migration file found is listed under its own timestamp and name |
| Catalog.ItemsLabelled | MigrationTool/MainWindow.xaml.cs:265-271 | each Display is "timestamp - name", or the bare name without a timestamp; Timestamp, Name and FilePath come from one entry of the group, a primary file whenever the group has one |
| Catalog.UntimedFirst | MigrationTool/MainWindow.xaml.cs:264 | items without a timestamp come before all others |
| Catalog.BuildMigrationItems | MigrationTool/MainWindow.xaml.cs:253-275 | the items are those of the merged, sorted entries of the searched directories |
| Catalog.NameTaken | MigrationTool/MainWindow.xaml.cs:551-557 | the trimmed new name is taken exactly when some existing migration has that name, ignoring case |
| Reducer.Applied | MigrationTool/MainWindow.xaml.cs:339-345 | the replayed files are a prefix of the sorted files |
| Reducer.AppliedStopsAtCutoff | MigrationTool/MainWindow.xaml.cs:341-345 | no replayed file is past the cut-off, and the first file left out is |
| Reducer.ReplayConsistent | MigrationTool/MainWindow.xaml.cs:339-352 | replaying files keeps each key holding at most one column |
| Reducer.FilePasses | MigrationTool/MainWindow.xaml.cs:348-351 | the four passes in a row replay the whole file's operations in pass order |
| Reducer.ReplayFile | MigrationTool/MainWindow.xaml.cs:347-351 | one file's text changes the dictionary by its operations in pass order, and keeps the dictionary's invariant |
| Reducer.ReplayUpTo | MigrationTool/MainWindow.xaml.cs:339-352 | the loop with its break replays exactly the files before the first one past the cut-off, and keeps the dictionary's invariant |
| Reducer.InferSchemaUpTo | MigrationTool/MainWindow.xaml.cs:330-359 | the result is the flattened replay of the merged, sorted files up to the cut-off |
| Reducer.SortedCutoff | MigrationTool/MainWindow.xaml.cs:336-345 | on time-ordered files, a file is replayed exactly when it is not past the cut-off |
| Reducer.NoCutoffAppliesAll | MigrationTool/MainWindow.xaml.cs:341 | with an empty cut-off every file is replayed |
| Reducer.UntimedAlwaysApplied | MigrationTool/MainWindow.xaml.cs:341 | files without a timestamp are always replayed |
| Reducer.CutoffInclusive | MigrationTool/MainWindow.xaml.cs:341 | a file dated exactly at the cut-off is replayed |
| Reducer.CutoffMonotone | MigrationTool/MainWindow.xaml.cs:341 | a later cut-off replays at least as many files |
| Reducer.ColumnsOrdered | MigrationTool/MainWindow.xaml.cs:355-358 | the result is ordered by table, then by column |
| Reducer.ColumnsAreLookups | MigrationTool/MainWindow.xaml.cs:355-358 | the result holds exactly the columns of the replayed dictionary, each under its own names |

## Left out

- User interface, process launching and project-file parsing are not modelled. This covers the WPF handlers, the `dotnet ef` and `cmd.exe` calls, `GetTargetFrameworks` and the rest of `GenerateMigration_Click`. Only the duplicate-name check of `GenerateMigration_Click` is modelled, as `Catalog.NameTaken`.
- File access is not modelled. `Directory.Exists`, `Directory.GetFiles` and `File.ReadAllText` become the `listing` and `read` parameters. The `*.cs` filter is assumed to be applied by the listing already. Exceptions from unreadable files or directories are not modelled.
- `Catalog.FileName` and `Catalog.Combine` model Windows paths with '\\' and '/' as separators. Drive-relative names such as `C:file.cs` are not modelled.
- `Regexes`: the matcher covers only the constructs the five patterns use. Those are literals, `\s`, `\w`, negated single-character classes with greedy or lazy repetition, `true|false`, and named groups. The whole .NET regex language is not modelled.
- `Regexes.InClass`: `\s` and `\w` are ASCII only. In .NET they also accept Unicode white space and letters.
- `Catalog.MatchStem`: `\d` is ASCII only. .NET also accepts other Unicode decimal digits.
- `Text.Fold`: OrdinalIgnoreCase is modelled as ASCII upper-casing. .NET folds all Unicode letters.
- `Catalog.SortByTimestamp` and `Schema.SortedColumns` use ordinal comparison. LINQ `OrderBy` and `ThenBy` use the culture's comparer. The two agree on the digit-only timestamps, but can differ on table and column names.
- `Schema.Flatten`: .NET enumerates the dictionaries in an order the model does not fix, then sorts. The model sorts a set. The result is the same list, because no two stored columns share a (Table, Column) pair.
- `Schema.SchemaMap`: the inner dictionaries are values, not shared objects. The source adds an empty dictionary and then fills it through an alias. The model writes the filled dictionary back. That this equals mutation through the alias is not proved, because aliasing is not modelled.
- The dictionary key spelling .NET keeps (the first spelling inserted) is not modelled. Keys are the case-folded names, and only the stored `ColumnInfo` values are ever read back.
- Text.RemoveAll: its contract states only that the result is no longer than the input. It does not state which occurrences the single left-to-right scan removes. For the pattern "Context", `Catalog.RemoveAllAround`, `Catalog.LeadingOccurrenceRemoved` and `Text.RemoveAllAbsent` state that.
- Catalog.ContextShort: its own contract states only the shape of the short name. Which occurrences of "Context" go is stated by `Catalog.RemoveAllAround`, `Catalog.LeadingOccurrenceRemoved` and `Catalog.TrailingContextStripped`. For an arbitrary name the full result is not stated apart from the definition.
- Text.Trim: white space is the ASCII set (space, tab, line feed, vertical tab, form feed, carriage return). `String.Trim` also removes Unicode white space such as U+0085, U+00A0, U+2000 to U+200A and U+3000.
