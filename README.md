# BluStash indexing and staging, modelled in Dafny

BluStash indexes a directory tree into a small relational store of `Dir` and
`File` rows. It then turns the files that have not yet been written to disc
into a path-mapping list for the `xorriso` burning tool. This project models
that core and proves what it does:

- **Incremental mark-and-sweep scan** (`bluestash`). Every row is first made
  invalid. A depth-first Dir pass then reuses the Dir found by the path's
  `xxh32` hash, or adds a new one. A file pass compares each file's `xxh3_128`
  content hash with the newest row for its Dir and name: an equal hash
  revalidates that row, anything else adds a new version row that points back
  to it. The sweep then deletes the rows that are still invalid, and the CLI
  keeps the scan session's changed-files count.
- **Path index**: `Dir.full_path` is rebuilt from the parent chain, and
  `set_full_path_hash` stores its hash. `File.path` is its Dir's path plus its
  own name. Sibling uniqueness is stated as predicates.
- **Backup staging** (`create_mapping_from_db`) picks the valid rows that are
  not saved yet. It maps each one under the data directory relative to a base
  path, adds the database and metadata lines, and flags exactly the exported
  rows as saved.
- **xorriso helpers**: the mapping list, the argv lists of the four commands,
  and the parsing of `-toc` output.
- **Legacy full insert** (`blustash`): the same walk with no reconciliation,
  so every run adds a fresh Dir per directory and a fresh File per file.

Modules:

- `Base` holds Option and Result, bytes and `U32`.
- `Text` holds Python's `splitlines`, `split`, `strip` and decimal text.
- `Paths` models `pathlib` paths as segment sequences.
- `FsTree` models the file system as an inductive tree of directories,
  files holding bytes, and symbolic links. It also models `os.walk`, the
  counting, and the directories a walk reaches.
- `Store` holds the rows and the hashers, `full_path`, and the uniqueness
  predicates. Its class `Db` holds the tables as maps, a durable snapshot
  and a commit counter.
- `Sync` models the Dir pass and the file pass.
- `Cli` models the phases of `_scan` and the session accounting.
- `Staging` models the mapping file.
- `Xorriso` models the xorriso helpers.
- `Legacy` models the older indexer.

The two hash functions are uninterpreted fields of a `Hashers` value. The
legacy `get_size_and_hash` and `count_dirs_and_files`
(`src/blustash/db/utils.py:22-54`) are the same code as the newer ones.
The legacy `Dir.full_path`, `compute_full_path_hash`, `set_full_path_hash`
and `File.path` (`src/blustash/db/models.py:58-99`) are also the same code.
So `Sync.GetSizeAndHash`, `FsTree.CountDirsAndFiles` and the `Store` members
stand for both versions. Legacy rows use the newer row types with their
extra columns at their defaults (valid, not saved, no ancestor, no session).

In four places the code behaves differently from what its schema and comments suggest. In the first and third places below, the model follows the code. In the other two, `Cli.Scan` composes the intended behaviour, and a separate member shows the code as written (Findings, rows 1 and 2). The four places are:

- The scan root's Dir stores only its last segment and has no parent. So
  its `full_path` is `/<name>`, not the path that was hashed
  (`Sync.RootRecordFullPath`).
- The unique index on `(dir_id, name)` covers every row, not only the valid
  ones. A changed file therefore clashes with its own older row (Findings,
  row 1, `Sync.ChangedFileBreaksFileIndex`). Here the model follows the
  intended index over valid rows only (`Sync.FilePassThenSweepUnique`). No
  `IntegrityError` is raised, and `Cli.Scan` rests on that.
- The file pass's counter counts every task that was not skipped, unchanged
  files included, so `changed_files` is more than the number of changes.
  The session itself is written only when a File row was added, or when
  the counter was 0 and files were deleted
  (`Cli.SessionRecordedOnlyWithNewRows`).
- `delete_invalid_entries` returns nothing, so `deleted_files > 0` raises on
  every scan that reaches the sweep. `Cli.Scan` composes the corrected
  sweep `Cli.FinishScan`, and `Cli.FinishScanAsWritten` models the code as
  written (Findings, row 2).

## Model

| member | source | states |
|---|---|---|
| Store.NewRowDefaults | src/bluestash/db/models.py:55-58 | a new Dir has no parent and is valid; a new File (lines 156-157) is valid, not saved, with no ancestor |
| Store.FullPathHashOfString | src/bluestash/db/models.py:106-120 | the path hash is a function of `str(path)`: two valid paths with the same string are the same path and get the same hash |
| Store.ParentOf | src/bluestash/db/models.py:55-66 | the loaded parent is a Dir row that the `parent_id` column names |
| Store.ChainWithin | src/bluestash/db/models.py:100-103 | the ids met while following parents, starting at the Dir itself; every one is a row |
| Store.Reverse | src/bluestash/db/models.py:104 | `reversed(parts)`: element k is element n-1-k of the input |
| Store.FullPathOfChild | src/bluestash/db/models.py:100-104 | `full_path` is the parent's `full_path` plus the Dir's name, or just the name without a parent |
| Store.FullPathOfSameShape | src/bluestash/db/models.py:100-104 | `full_path` depends only on names and parents, not on flags or hashes |
| Store.FilePath | src/bluestash/db/models.py:163-174 | `File.path` is the Dir's `full_path` plus the file's name, and its last segment is that name |
| Store.NewestBelow | src/bluestash/db/utils.py:222-228 | the highest-id row for (dir, name), and no newer one exists; None exactly when no row matches |
| Store.DirsWithHashBelow | src/bluestash/db/utils.py:143-144 | exactly the Dirs carrying the hash, newest first, each once |
| Store.Recorded | src/bluestash/cli.py:282-284 | a commit writes exactly the scan sessions held by the ORM session, with their counts |
| Store.RecordedUnattached | src/bluestash/cli.py:143-144 | a scan session not yet added to the ORM session is not written |
| Store.Reloaded | src/bluestash/cli.py:299-310 | after a rollback, the held sessions are exactly the committed ones |
| Store.Invalidated | src/bluestash/db/utils.py:285-286 | same keys, every Dir and File with `is_valid` cleared, nothing else changed |
| Store.ValidDirs | src/bluestash/db/utils.py:309 | keeps exactly the valid Dirs, unchanged |
| Store.ValidFiles | src/bluestash/db/utils.py:299-301 | keeps exactly the valid Files, unchanged |
| Store.SweptIndexUnique | src/bluestash/db/models.py:159-161 | if valid rows are unique per (dir, name), the swept table satisfies the full unique index |
| Store.InvalidIds | src/bluestash/db/utils.py:299-301 | exactly the File rows the delete removes |
| Store.InvalidFileCount | src/bluestash/db/utils.py:299-302 | the count of deleted Files: zero exactly when every File is valid |
| Store.SweptFileCount | src/bluestash/db/utils.py:299-302 | rows before the sweep = rows kept + rows deleted |
| Store.Safed | src/bluestash/mapping_creator.py:75-77 | same keys, exactly the rows in `ids` are flagged `is_safed`, and no other field changes |
| Store.Db.Commit | src/bluestash/db/utils.py:262-263 | the current tables become durable and nothing else changes |
| Store.Db.Rollback | src/bluestash/cli.py:299-310 | pending changes are dropped: the rows are the durable ones again, the held sessions the committed ones, the counters stay, and the Db stays usable (`Valid`) |
| Store.Db.NewScanSession | src/bluestash/cli.py:143-144 | a new scan session with no count, not held by the ORM session |
| Store.Db.AddScanSession | src/bluestash/cli.py:257-260 | the session becomes held and nothing else changes |
| Store.Db.SetChangedFiles | src/bluestash/cli.py:236-238 | stores the count on the session and nothing else |
| Store.Db.AddDir | src/bluestash/db/utils.py:155-164 | one new Dir under a fresh id; every other table is unchanged |
| Store.Db.PutDir | src/bluestash/db/utils.py:147-152 | the loaded Dir's attributes are replaced, and nothing else |
| Store.Db.AddFile | src/bluestash/db/utils.py:236-245 | one new File under a fresh id; the scan session it names becomes held |
| Store.Db.PutFile | src/bluestash/db/utils.py:230-231 | the loaded File's attributes are replaced, and nothing else |
| Store.Db.ResetAllValidFlags | src/bluestash/db/utils.py:278-288 | the tables become `Invalidated` of the old ones and are committed |
| Store.Db.DeleteInvalidEntries | src/bluestash/db/utils.py:291-313 | exactly the invalid Files and Dirs go, the rest is untouched and committed, and the count of deleted Files is returned |
| Store.Db.MarkSafed | src/bluestash/mapping_creator.py:75-77 | the File table becomes `Safed(old, ids)` |
| Store.Db.FullPathOf | src/bluestash/db/models.py:100-104 | the loop collecting names up the parent chain returns `full_path` |
| Store.Db.SetFullPathHash | src/bluestash/db/models.py:122-132 | afterwards the stored hash is the hash of the Dir's `full_path`; only that field changes |
| Sync.GetSizeAndHash | src/bluestash/db/utils.py:44-68 | on a readable file, the size is the number of bytes read and the hash is the content hash of those bytes; a read error gives no result |
| Sync.SizeAndHashOfContentOnly | src/bluestash/db/utils.py:61-66 | equal bytes give equal size and hash, whichever file they came from |
| Sync.Reuse | src/bluestash/db/utils.py:147-152 | the reused Dir is valid and has the caller's Dir as parent; no other row changes and no row is added |
| Sync.Record | src/bluestash/db/utils.py:140-165 | the Dir found or added for the path is a valid row below the caller's Dir holding the path's hash, and the lookup gains exactly `(path, id)` |
| Sync.RecordOutcome | src/bluestash/db/utils.py:140-162 | reuse: the one Dir with the hash gets the caller's parent and is made valid, and no row is added; add: no Dir had the hash, and one valid row named after the path, holding its hash, below the caller's Dir, is added under the counter; the lookup yields nothing exactly when two Dirs share the hash; every other row is unchanged |
| Sync.DirReports | src/bluestash/db/utils.py:167-169 | the progress calls are (1, total), (2, total), ..., (n, total) |
| Sync.DirWalk.constructor | src/bluestash/db/utils.py:133-134 | an empty lookup and a zero counter |
| Sync.DirWalk.RecordDir | src/bluestash/db/utils.py:140-169 | the state becomes `Record`'s result, or stays unchanged when the hash lookup raises; files and scan sessions are untouched |
| Sync.DirWalk.WalkDirsInternal | src/bluestash/db/utils.py:136-176 | the rows, lookup and raise flag are those of `VisitDir`: symbolic links are skipped, and only real subdirectories are recursed into |
| Sync.DirWalk.WalkEntries | src/bluestash/db/utils.py:171-176 | the state is that of `VisitEntries`: a child's exception ends the loop and is swallowed |
| Sync.ScanDirsAndBuildLookup | src/bluestash/db/utils.py:109-179 | the walk from the root with no parent, as `VisitDir` gives it; the File rows and scan sessions are unchanged |
| Sync.RecordSound | src/bluestash/db/utils.py:140-165 | recording one Dir keeps the lookup sound (each entry maps to a valid Dir with its path's hash) and undoes nothing |
| Sync.VisitDirSound | src/bluestash/db/utils.py:136-176 | the whole walk keeps the lookup sound and only grows the rows |
| Sync.RecordUnique | src/bluestash/db/utils.py:143-162 | with at most one Dir per path hash, the lookup never raises, keeps that property, and records the path |
| Sync.RecordKeeps | src/bluestash/db/utils.py:140-165 | recording a path whose hash differs from those already looked up leaves every looked-up Dir as it was |
| Sync.VisitDirLinks | src/bluestash/db/utils.py:136-176 | from paths that do not collide, the walk keeps earlier looked-up Dirs, gives the start Dir the caller's Dir as parent, and gives every Dir it looks up below that the Dir of its directory as parent |
| Sync.WalkLinksParents | src/bluestash/db/utils.py:136-178 | the Dir pass from the root never raises, its lookup is sound, the root's Dir has no parent, and each looked-up Dir's parent is the Dir looked up for its directory |
| Sync.RescanReusesDirs | src/bluestash/db/utils.py:136-178 | walking the same tree again over Dirs that keep the first walk's, with their hashes, never raises, adds no Dir and looks up the same Dir for every path |
| Sync.VisitDirComplete | src/bluestash/db/utils.py:136-178 | from distinct path hashes the walk never raises and records exactly the directories the tree walk reaches, in order |
| Sync.TwoFoundShareHash | src/bluestash/db/utils.py:145 | `scalar_one_or_none` raises only when two different Dirs share the hash |
| Sync.TasksIn | src/bluestash/db/utils.py:207-209 | a listing gives at most one task per entry |
| Sync.TasksInShape | src/bluestash/db/utils.py:207-209 | a listing's tasks belong to its Dir and lie directly inside its path |
| Sync.TasksInDirs | src/bluestash/db/utils.py:204-211 | every task's Dir is one from the lookup |
| Sync.CollectFileTasks | src/bluestash/db/utils.py:204-211 | the task list is `TasksOf` the lookup, in lookup and listing order |
| Sync.ListingTasks | src/bluestash/db/utils.py:207-209 | the inner loop gives `TasksIn` of the listing |
| Sync.FileStep | src/bluestash/db/utils.py:217-251 | one task never drops the scan session; what it does to the rows is stated by Sync.FileStepDetectsChange, Sync.FileStepEvolves and Sync.FileStepValidUnique |
| Sync.FilePass | src/bluestash/db/utils.py:214-251 | the pass never drops the scan session; what it does to the rows is stated by Sync.FilePassEvolves, Sync.FilePassUnchanged, Sync.FilePassLeavesNewest and Sync.FilePassAttached |
| Sync.CountOf | src/bluestash/db/utils.py:217-254 | the returned counter is at most the number of tasks |
| Sync.FileReportsSpec | src/bluestash/db/utils.py:254-258 | the k-th progress call reports min(k + 1, total), never above the total |
| Sync.ChunkCommitsSpec | src/bluestash/db/utils.py:260-264 | a chunk commit follows exactly each processed task i with (i + 1) % chunk_size == 0, in increasing order |
| Sync.LastFileLeftUncommitted | src/bluestash/db/utils.py:266-273 | the final commit tests the counter, not the index: one vanished task among three with chunk size 2 leaves the last file after every commit of the pass |
| Sync.ProcessFile | src/bluestash/db/utils.py:219-251 | the session's File state becomes `FileStep` of the old one; Dirs are unchanged and nothing is committed |
| Sync.FileLoopStep | src/bluestash/db/utils.py:214-264 | one iteration extends the pass, the counter and the progress calls by one task; it commits exactly at a chunk boundary |
| Sync.RunFileTasks | src/bluestash/db/utils.py:214-264 | the loop leaves `FilePass` over all tasks, and the last chunk commit made the pass up to it durable |
| Sync.FinishFilePass | src/bluestash/db/utils.py:266-273 | the final commit happens when the counter is not a multiple of the chunk size, or when there were no tasks |
| Sync.InsertFilesWithProgress | src/bluestash/db/utils.py:182-275 | the File state, counter, progress calls, commit points and durable snapshot, each tied to its specification function |
| Sync.FileStepEvolves | src/bluestash/db/utils.py:222-249 | old rows are kept or revalidated; a readable file ends with a valid row holding its hash; a new row is valid, tied to the scan, and points to the newest older row |
| Sync.FilePassEvolves | src/bluestash/db/utils.py:214-251 | the same for the whole pass: every readable file is covered and every new row links to its predecessor |
| Sync.FileStepDetectsChange | src/bluestash/db/utils.py:222-249 | a readable file whose newest row holds its hash only makes that row valid, adds nothing and leaves the sessions alone; otherwise exactly one row is added, old rows are untouched, and the new row holds the Dir, name, size and hash, is valid, belongs to the scan, points to the newest older row, and the scan session is held |
| Sync.FilePassUnchanged | src/bluestash/db/utils.py:214-249 | a pass over files that all hash like their newest rows adds no row, leaves every session alone, and only makes rows valid |
| Sync.FileStepLeavesNewest | src/bluestash/db/utils.py:222-249 | after a step, the newest row for the file's Dir and name is valid and holds the file's hash |
| Sync.FilePassLeavesNewest | src/bluestash/db/utils.py:214-249 | after a pass over distinct Dir and name pairs, the newest row of every file read is valid and holds its hash |
| Sync.FileRescanAddsNothing | src/bluestash/db/utils.py:214-249 | a second pass over the same files, after the sweep and the reset, adds no row and leaves every session as it was |
| Sync.FileStepValidUnique | src/bluestash/db/utils.py:230-245 | a task whose (dir, name) has no valid row leaves valid rows unique per (dir, name) |
| Sync.FilePassValidUnique | src/bluestash/db/utils.py:214-251 | after the reset, tasks with distinct (dir, name) keep valid rows unique per (dir, name) |
| Sync.ChangedFileBreaksFileIndex | src/bluestash/db/utils.py:235-245 | a file whose bytes changed gets a second row with the same Dir and name, violating `ux_file_dir_name` |
| Sync.FilePassThenSweepUnique | src/bluestash/db/models.py:159-161 | from an all-invalid File table, the pass followed by the sweep leaves a table satisfying the unique index |
| Sync.TasksInNames | src/bluestash/db/utils.py:207-209 | each task is named after an entry of its listing |
| Sync.TasksInKeysDistinct | src/bluestash/db/utils.py:207-209 | a listing that names each entry once gives tasks with distinct names |
| Sync.TasksOfKeysDistinct | src/bluestash/db/utils.py:204-211 | with each Dir looked up once, no two tasks share Dir and name |
| Sync.LookupIdsDistinct | src/bluestash/db/utils.py:165 | distinct paths whose hashes do not collide map to distinct Dirs |
| Sync.FilePassAttached | src/bluestash/db/utils.py:236-245 | the scan session becomes held exactly when a File row is added; its count and every other session are unchanged |
| Sync.RootRecordFullPath | src/bluestash/db/utils.py:155-160 | the scan root's new Dir has `full_path` `/<name>`, which differs from the scanned path when that path has more than one segment |
| Cli.CountProcessed | src/bluestash/cli.py:236-241 | `changed_files` is stored only when the counter is positive |
| Cli.CountDeleted | src/bluestash/cli.py:256-264 | with deletions, the session is added when the count was 0, and the sum is stored |
| Cli.Account | src/bluestash/cli.py:236-264 | the total is processed + deleted; it is stored when positive; the session is held iff it already was, or the counter was 0 and files were deleted |
| Cli.NoteProcessed | src/bluestash/cli.py:236-241 | the session row becomes `CountProcessed` of the old row |
| Cli.NoteDeleted | src/bluestash/cli.py:256-264 | the session row and the count become `CountDeleted` of the old ones |
| Cli.GreaterThanZero | src/bluestash/cli.py:256 | `None > 0` is an error; otherwise the comparison |
| Cli.Prepare | src/bluestash/cli.py:144-150 | a new unheld scan session, and every row invalid and committed |
| Cli.IndexAndSweep | src/bluestash/cli.py:227-284 | the file pass, the accounting, the sweep and the final commit, composed: the rows, the session and the count all end durable |
| Cli.FinishScan | src/bluestash/cli.py:236-284 | with a counted sweep, the rows are swept, the session is accounted, and everything is durable |
| Cli.FinishScanAsWritten | src/bluestash/cli.py:252-310 | as written, `deleted_files > 0` raises, so the command exits with 1 after the sweep was already committed |
| Cli.Scan | src/bluestash/cli.py:141-310 | exit 1 exactly when the root's lookup raises, with only the reset durable; otherwise the reset, Dir pass, file pass and the corrected sweep of Findings row 2 (`Cli.FinishScan`), composed; with the intended index over valid rows of Findings row 1 (no `IntegrityError`), from distinct path hashes the scan succeeds and satisfies `ux_file_dir_name` |
| Cli.RescanAddsNothing | src/bluestash/cli.py:141-284 | a second scan of an unchanged, well-formed tree with no path hash collisions: neither scan raises, the second looks up the same Dirs, adds no Dir and no File, and leaves the second session out of the ORM session |
| Cli.ScanLeavesFileIndexUnique | src/bluestash/cli.py:141-284 | from distinct path hashes and all-invalid Files, the walk does not raise and the swept Files satisfy `ux_file_dir_name` |
| Cli.SessionRecordedOnlyWithNewRows | src/bluestash/cli.py:255-271 | the session is held iff the file pass added a row, or the counter was 0 and files were deleted |
| Staging.IdsBelow | src/bluestash/mapping_creator.py:42-44 | the query's rows, each once, in ascending id order |
| Staging.Emitted | src/bluestash/mapping_creator.py:44-54 | the exported ids are pending rows met by the loop |
| Staging.EmittedExactly | src/bluestash/mapping_creator.py:44-54 | a row is exported iff it is valid, not saved, in an existing Dir, and its path lies under `base` |
| Staging.EmittedAscending | src/bluestash/mapping_creator.py:44-54 | exported ids keep the query's ascending order, so none is exported twice |
| Staging.Destination | src/bluestash/mapping_creator.py:47-52 | defined iff the source lies under `base`; it lies under `/<data_dir>`, and putting `base` back gives the source |
| Staging.DataLines | src/bluestash/mapping_creator.py:53 | one line per exported row, in order |
| Staging.LastDot | src/bluestash/mapping_creator.py:66 | the index of the last '.' in the name, or -1 |
| Staging.Suffix | src/bluestash/mapping_creator.py:66 | `PurePath.suffix`: empty, or a '.' with no other dot, not the whole name |
| Staging.Stem | src/bluestash/mapping_creator.py:66 | the name is the stem followed by the suffix |
| Staging.WithSuffix | src/bluestash/mapping_creator.py:66 | an error iff the name is empty; otherwise same parent, and the name becomes the stem plus the new suffix |
| Staging.MetaPathSuffix | src/bluestash/mapping_creator.py:66 | the meta file keeps the output file's stem plus ".meta", with ".json" as its suffix |
| Staging.MetaCountReadsBack | src/bluestash/mapping_creator.py:62-67 | the meta file's `file_count` reads back as the count it was written with |
| Staging.LineFor | src/bluestash/mapping_creator.py:45-53 | a line iff the row is pending and under `base`, and then it is that row's data line |
| Staging.CollectDataLines | src/bluestash/mapping_creator.py:42-54 | the lines and ids are `DataLines` and `Emitted` over the query result |
| Staging.MarkExported | src/bluestash/mapping_creator.py:74-79 | exactly the exported rows are flagged saved; the update is committed only when there are any |
| Staging.CreateMappingFromDb | src/bluestash/mapping_creator.py:18-79 | the data lines, then the database line and the meta line, joined with "\n"; the meta count is the number of data lines; exactly the exported rows are flagged; a bad output name is an error that changes nothing |
| Staging.StagingIdempotent | src/bluestash/mapping_creator.py:44-77 | a second run over the rows the first run left exports nothing |
| Staging.MappingSplitsBack | src/bluestash/mapping_creator.py:56-71 | the mapping text splits back into the data lines, then the database line, then the meta line |
| Xorriso.StripSessionDirSameDir | src/bluestash/xorriso_wrapper.py:27 | stripping '/' from `session_dir` names the same directory |
| Xorriso.SessionDestinationKeepsName | src/bluestash/xorriso_wrapper.py:30-31 | the destination is the session directory plus the source's own name |
| Xorriso.BuildMappingList | src/bluestash/xorriso_wrapper.py:18-35 | one line per source, in input order, joined with "\n" with no final newline |
| Xorriso.MappingListSplitsBack | src/bluestash/xorriso_wrapper.py:34 | the written list reads back as one line per source |
| Xorriso.RunXorrisoArgv | src/bluestash/xorriso_wrapper.py:55-65 | `sudo xorriso -dev device -map_l mapping -commit`, then `-close on` iff finalize |
| Xorriso.ListSessionsArgv | src/bluestash/xorriso_wrapper.py:73 | `sudo xorriso -indev device -toc` |
| Xorriso.ExtractSessionArgv | src/bluestash/xorriso_wrapper.py:91-104 | `sudo xorriso -indev device -load session_no <n>`, where the decimal text reads back as n, then `-osirrox on -extract /` to the output directory |
| Xorriso.VerifyDiscArgv | src/bluestash/xorriso_wrapper.py:111 | `sudo xorriso -indev device -check_md5 FAILURE` |
| Xorriso.SessionOf | src/bluestash/xorriso_wrapper.py:80-82 | `raw` is the line; `number` is the third word without leading or trailing '#' |
| Xorriso.SessionsIn | src/bluestash/xorriso_wrapper.py:78-82 | at most one entry per line |
| Xorriso.SessionsInAppend | src/bluestash/xorriso_wrapper.py:78-82 | entries keep the order of the output |
| Xorriso.SessionsInExactly | src/bluestash/xorriso_wrapper.py:78-82 | each entry comes from a line starting "ISO session" with at least four words, and each such line gives one |
| Xorriso.ListSessions | src/bluestash/xorriso_wrapper.py:71-83 | the loop gives `SessionsIn` of the output's lines |
| FsTree.Listing | src/bluestash/db/utils.py:171-176 | a listing exists iff the node is a readable directory |
| FsTree.DirEntries | src/bluestash/db/utils.py:91-94 | the entries `os.walk` puts in `dirs`, symbolic links to directories included |
| FsTree.OtherEntries | src/bluestash/db/utils.py:91-99 | the entries `os.walk` puts in `files` |
| FsTree.CountDirsAndFiles | src/bluestash/db/utils.py:71-106 | dirs = 1 + every `dirs` entry of the walk, symbolic links included; files = every non-symlink file |
| FsTree.CountFilesIn | src/bluestash/db/utils.py:99-103 | the inner loop counts the non-symlink files |
| FsTree.CountedFilesOfOther | src/bluestash/db/utils.py:99-103 | no directory entry is counted as a file |
| FsTree.WalkSums | src/bluestash/db/utils.py:91-103 | the sums over the walk's triples are the counts over everything listed |
| FsTree.ReachedUnder | src/bluestash/db/utils.py:171-174 | every directory the Dir pass reaches lies under the start path |
| FsTree.ReachedWithinCount | src/bluestash/db/utils.py:104 | the Dir pass visits at most the counted directories, and exactly that many when no directory symlink is present |
| FsTree.ReachedDistinct | src/bluestash/db/utils.py:165 | in a well-formed tree no path is reached twice |
| FsTree.ListDirAt | src/bluestash/db/utils.py:207 | a listing is given only for a path inside the tree |
| FsTree.ListDirAtNamesUnique | src/bluestash/db/utils.py:207 | every listing in a well-formed tree names each entry once |
| Paths.Join | src/bluestash/db/utils.py:172 | `path / name` extends the path by one segment, `name` |
| Paths.FromNames | src/bluestash/db/models.py:104 | `Path(*names)` has at most one segment per name |
| Paths.ParseToStr | src/bluestash/db/models.py:120 | `Path(str(p)) == p` for a valid path |
| Paths.ToStrInjective | src/bluestash/db/models.py:120 | distinct valid paths have distinct strings |
| Paths.RelativeToSpec | src/bluestash/mapping_creator.py:47-51 | `relative_to` succeeds iff the path is under `base`, and `base / relative` gives it back |
| Text.SplitLinesOfJoin | src/bluestash/mapping_creator.py:71 | a "\n"-joined text with no line breaks inside lines and a non-empty last line splits back into those lines |
| Text.Words | src/bluestash/xorriso_wrapper.py:80 | `str.split()` gives non-empty words free of whitespace |
| Text.WordsKeepText | src/bluestash/xorriso_wrapper.py:80 | the words, put back together, are exactly the non-whitespace characters of the line, in order |
| Text.WordsOfJoin | src/bluestash/xorriso_wrapper.py:80 | splitting words joined by single spaces gives back the same words |
| Text.Strip | src/bluestash/xorriso_wrapper.py:27 | `s.strip(c)` is a slice of `s` with only copies of `c` before and after it, and neither end of it is `c` |
| Text.StripLeft | src/bluestash/xorriso_wrapper.py:27 | the leading copies of `c` are removed and the rest of the string is kept |
| Text.StripRight | src/bluestash/xorriso_wrapper.py:27 | the trailing copies of `c` are removed and the rest of the string is kept |
| Text.NatToDecimal | src/bluestash/xorriso_wrapper.py:98 | `str(n)` is a non-empty run of digits |
| Text.IntToDecimalRoundTrip | src/bluestash/xorriso_wrapper.py:98 | `int(str(n)) == n` |
| Legacy.Numbered | src/blustash/db/utils.py:136 | one lookup entry per path |
| Legacy.NumberedAt | src/blustash/db/utils.py:136 | entry k is the k-th reached path with the k-th new id |
| Legacy.InsertDirs | src/blustash/db/utils.py:56-79 | rows as `Insert` gives them, one per directory reached; returns None for a symbolic link, otherwise the first new id; Files untouched |
| Legacy.InsertEntries | src/blustash/db/utils.py:73-78 | the loop over one listing adds the rows of `InsertBelow` |
| Legacy.DirLookup.constructor | src/blustash/db/utils.py:124 | an empty `dir_lookup` |
| Legacy.DirLookup.WalkDirs | src/blustash/db/utils.py:126-142 | the rows of `insert_dirs`, with every reached path recorded, in order, under its new id |
| Legacy.DirLookup.WalkEntries | src/blustash/db/utils.py:137-142 | the loop over one listing: its rows and its lookup entries |
| Legacy.InsertGrows | src/blustash/db/utils.py:65-79 | no existing row is changed; one Dir per reached directory under consecutive ids, each named after its path and holding its hash; the first has the caller's Dir as parent |
| Legacy.FullPathOfNew | src/blustash/db/models.py:58-64 | a new Dir's `full_path` is its parent's plus its own name |
| Legacy.InsertPaths | src/blustash/db/models.py:58-64 | each added Dir's `full_path` is the caller's Dir's path followed by the directory's path from the start path's last segment on |
| Legacy.InsertSiblings | src/blustash/db/models.py:53-54 | on a well-formed tree the Dir pass keeps `ux_dir_parent_name` |
| Legacy.Readables | src/blustash/db/utils.py:88-101 | exactly the tasks whose file could be read, in order |
| Legacy.StoreFilesAdds | src/blustash/db/utils.py:86-111 | existing Files are kept; one new File per readable task, in task order under consecutive ids, with its size and hash |
| Legacy.StoreFilesUnique | src/blustash/db/models.py:93-95 | tasks with distinct (dir, name) in new Dirs keep `ux_file_dir_name` |
| Legacy.ProcessFile | src/blustash/db/utils.py:88-101 | the Files become `StoreFiles` of one task; Dirs are untouched |
| Legacy.InsertFiles | src/blustash/db/utils.py:81-111 | the Files become `StoreFiles` over every task of the lookup |
| Legacy.WalkFromRoot | src/blustash/db/utils.py:124-144 | the Dir pass from the root with no parent, and its lookup |
| Legacy.ScanAndStore | src/blustash/db/utils.py:113-146 | the counts, the Dir and file passes composed, one commit; on a well-formed tree both unique indexes are kept |
| Legacy.ScanKeepsIndexes | src/blustash/db/utils.py:126-145 | a scan of a well-formed tree keeps `ux_dir_parent_name` and `ux_file_dir_name` |
| Legacy.RescanDuplicatesRoot | src/blustash/db/utils.py:126-136 | scanning the same directory twice adds two equal root Dirs with the same path hash |

## Left out

- File reads, `os.walk`, `iterdir`, `is_symlink`, `resolve`, file writes and `subprocess.run` are not modelled. The file system is an immutable tree, and file contents are `ReadOutcome` values. The commands are their argv lists, and `-toc` output is a parameter string.
- Nothing in the tree changes during a scan. The re-check at `src/bluestash/db/utils.py:217` is modelled as a per-task outcome (`Vanished`).
- `asyncio`, `to_thread`, `run_in_executor` and `gather` are modelled sequentially. The legacy file tasks run in task order.
- Progress bars, spinners, console output and logging are not modelled. The progress callbacks are recorded as lists of calls.
- The environment and configuration lookup of the base and database paths is not modelled. These paths are parameters.
- The timestamp is a parameter (`isoTime`).
- The SQLAlchemy engine and session mechanics are reduced to in-memory tables with a durable snapshot and a commit counter. Flushes are not modelled.
- SQLite reuse of freed ids is not modelled. Ids come from a counter that only grows. New ids are larger than every live id in both schemes, so the order among live rows is the same.
- The unique indexes are not enforced: no `IntegrityError` is raised. They are stated as predicates (`DirSiblingsUnique`, `FileIndexUnique`) and proved or refuted about the passes.
- Cli.Scan: the only exception it raises in `_scan` is the root's hash lookup finding two Dirs. A duplicate deeper in the tree is swallowed by the listing loop, as in the code. Read errors are handled per file. It composes the corrected `Cli.FinishScan`, so the `TypeError` that `src/bluestash/cli.py:256` raises as written (Findings, row 2) is not on its path. `Cli.FinishScanAsWritten` models that path. It also assumes the intended index over valid rows (Findings, row 1). As written, the new row of a changed file raises `IntegrityError` at the next flush, and `_scan` exits with 1. The model does not capture that exit, so on a tree with changed files `Cli.Scan` succeeds only under the intended index.
- `src/bluestash/cli.py:37` imports `get_latest_session_info`, which `src/bluestash/db/utils.py` does not define, so the module as written fails to import. The model takes the import as absent. The `info` command that uses it (`src/bluestash/cli.py:315-375`) is not part of this model.
- The foreign-key `ondelete="CASCADE"` and the ORM delete cascades are not modelled. The bulk delete removes only the rows it names.
- Hash collisions: the hashes are uninterpreted. Properties that need distinct path hashes require them (`HashesApart`).
- `chunk_size` must be positive. Zero raises `ZeroDivisionError` at the first `%`. The CLI passes the default 1000 (`Cli.DefaultChunkSize`).
- `ScanSession` is not defined in `src/bluestash/db/models.py`. It is modelled as a scan id with an optional count and a flag saying whether the ORM session holds it. `File`'s `session` and `ancestor` fields are modelled as `src/bluestash/db/utils.py:241-242` uses them.
- Staging.CreateMappingFromDb: requires that every pending row's parent chain ends (`PathsEnd`). A cyclic chain would make `File.path` loop forever.
- Staging.CreateMappingFromDb: `output_file` is taken as an absolute path. `src/bluestash/mapping_creator.py:66` builds `meta_path` from it without `resolve()`, unlike `base` (line 37) and `db_file` (line 57). So a relative `output_file` such as `mapping.txt` gives the meta line a relative source (`mapping.meta.json /<backup_dir>/meta.json`), which the mapping-list format does not accept. The model's paths always print as absolute, so it cannot express that case.
- Staging.MetaCountReadsBack: covers timestamps that `json.dumps` writes unescaped. JSON escaping is not modelled.
- Staging.IdsBelow: the query at `src/bluestash/mapping_creator.py:42-44` has no `ORDER BY`. The model assumes the rows come in ascending id order. SQLite does not guarantee that order, and `Staging.EmittedAscending` depends on it.
- FsTree.Symlink: a symbolic link has no target in the tree. `src/bluestash/cli.py:60` resolves the scan root, so a symlinked root is modelled by passing its target's node and resolved path. Below the root, links are only skipped (`src/bluestash/db/utils.py:137`, `173`, `208`, `217`), so their targets are not needed.
- Paths are modelled as sequences of segments. `resolve()` is taken as already applied, and `str(path)` is "/" plus the segments joined by "/".
- Legacy.InsertFiles: `File.path` of the legacy rows is not restated. It follows from `Legacy.InsertPaths` and `Store.FilePath`.
- The legacy `dir_lookup` dictionary is modelled as a sequence in insertion order (`Legacy.Numbered`). `FsTree.ReachedDistinct` shows that its keys are distinct on a well-formed tree.
- Cli.RescanAddsNothing: a second scan of an unchanged tree is shown to add no Dir, no File and no held session, and to look up the same Dirs. That it also deletes nothing and leaves every row equal to the first scan's is not stated.
- `src/bluestash/main.py` passes an `exclude_paths` argument that no shown `scan_and_store` accepts. The entry points are not part of this model.

## Findings

| source | as written | input that shows it | evidently intended | confidence | as-written member | corrected member |
|---|---|---|---|---|---|---|
| src/bluestash/db/utils.py:235-245 | a changed file gets a new row while its old row still exists; the unique index `ux_file_dir_name` (`src/bluestash/db/models.py:159-161`) covers all rows, so the flush raises `IntegrityError` and the scan exits with 1 (`src/bluestash/cli.py:299-310`); the old row is never swept, so every later scan of that tree fails the same way | one row for "a" in Dir 1, and the file "a" now holding different bytes | uniqueness over valid rows only, which the pass keeps and the sweep turns into full uniqueness | not executed | Sync.ChangedFileBreaksFileIndex | Sync.FilePassThenSweepUnique |
| src/bluestash/db/utils.py:291-313 | `delete_invalid_entries` returns None, and `src/bluestash/cli.py:256` compares the result with 0 | any scan that reaches line 256 | return the number of deleted File rows | not executed | Cli.FinishScanAsWritten | Cli.FinishScan |
