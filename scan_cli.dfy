/**
 * The `_scan` coroutine of the `scan` command: a new scan session, the reset
 * of every validity flag, the counting walk, the Dir pass, the file pass, the
 * changed-files accounting, the sweep and the final commit, with a rollback
 * and exit code 1 on any exception.
 */
module Cli {
  import opened Base
  import opened Paths
  import opened FsTree
  import opened Store
  import opened Sync

  /** The `chunk_size` the command leaves at its default. */
  const DefaultChunkSize: nat := 1000

  /** Lines 236-241 on the scan session: the counter is stored when positive. */
  function CountProcessed(s: ScanRow, processed: nat): (r: ScanRow)
    ensures r.attached == s.attached
    ensures r.changedFiles == (if processed > 0 then Some(processed) else s.changedFiles)
  {
    if processed > 0 then s.(changedFiles := Some(processed)) else s
  }

  /**
   * Lines 254-264 on the scan session: with files deleted, the session is
   * added to the ORM session when the count so far is 0, and the sum is stored.
   */
  function CountDeleted(s: ScanRow, changed: nat, deleted: nat): (r: (ScanRow, nat))
    ensures r.1 == changed + deleted
    ensures r.0.attached <==> s.attached || (changed == 0 && deleted > 0)
    ensures r.0.changedFiles == (if deleted > 0 then Some(changed + deleted) else s.changedFiles)
  {
    if deleted > 0 then
      var s1 := if changed == 0 then s.(attached := true) else s;
      (s1.(changedFiles := Some(changed + deleted)), changed + deleted)
    else
      (s, changed)
  }

  /**
   * Lines 236-264 on the scan session: `changed_files` starts as the file
   * pass's counter, deleted files are added to it, the total is stored when
   * positive, and the session is held by the ORM session when a new File
   * already tied it in or when the counter was 0 and files were deleted.
   */
  function Account(s: ScanRow, processed: nat, deleted: nat): (r: (ScanRow, nat))
    ensures r.1 == processed + deleted
    ensures r.0.attached <==> s.attached || (processed == 0 && deleted > 0)
    ensures r.0.changedFiles == (if r.1 > 0 then Some(r.1) else s.changedFiles)
  {
    CountDeleted(CountProcessed(s, processed), processed, deleted)
  }

  /** Lines 236-241. */
  method NoteProcessed(db: Db, scan: ScanId, processed: nat) returns (changed: nat)
    requires db.Valid() && scan in db.scans
    modifies db`scans
    ensures db.Valid() && scan in db.scans
    ensures changed == processed && db.scans == old(db.scans)[scan := CountProcessed(old(db.scans)[scan], processed)]
  {
    changed := processed;
    if processed > 0 {
      db.SetChangedFiles(scan, changed);
    }
  }

  /** Lines 254-264, with the number of deleted files in hand. */
  method NoteDeleted(db: Db, scan: ScanId, changed: nat, deleted: nat) returns (changed': nat)
    requires db.Valid() && scan in db.scans
    modifies db`scans
    ensures db.Valid()
    ensures var (row, n) := CountDeleted(old(db.scans)[scan], changed, deleted);
      changed' == n && db.scans == old(db.scans)[scan := row]
  {
    changed' := changed;
    var positive := GreaterThanZero(Some(deleted));
    if positive.value {
      if changed == 0 {
        db.AddScanSession(scan);
      }
      changed' := changed + deleted;
      db.SetChangedFiles(scan, changed');
    }
  }

  /** Python's `value > 0` for what a coroutine returned: `None > 0` raises TypeError. */
  function GreaterThanZero(value: Option<nat>): (r: Result<bool, string>)
    ensures r.Err? <==> value.None?
    ensures r.Ok? ==> (r.value <==> value.value > 0)
  {
    match value
    case None => Err("TypeError: '>' not supported between instances of 'NoneType' and 'int'")
    case Some(n) => Ok(n > 0)
  }

  /**
   * Lines 236-284 with `delete_invalid_entries` giving back the number of
   * deleted files: the accounting, the sweep and its commit, then the final
   * commit. Every row and the session's count end up durable.
   */
  method FinishScan(db: Db, scan: ScanId, processed: nat) returns (changed: nat)
    requires db.Valid() && scan in db.scans
    modifies db
    ensures db.Valid() && db.dirs == ValidDirs(old(db.dirs)) && db.files == ValidFiles(old(db.files))
    ensures db.scans == old(db.scans)[scan := Account(old(db.scans)[scan], processed, InvalidFileCount(old(db.files))).0]
    ensures changed == processed + InvalidFileCount(old(db.files)) && db.durable == db.Current()
    ensures db.nextDir == old(db.nextDir) && db.nextFile == old(db.nextFile) && db.nextScan == old(db.nextScan)
  {
    ghost var scans0 := db.scans;
    ghost var row1 := CountProcessed(scans0[scan], processed);
    changed := NoteProcessed(db, scan, processed);
    var deleted := db.DeleteInvalidEntries();
    ghost var row2 := CountDeleted(row1, processed, deleted).0;
    changed := NoteDeleted(db, scan, changed, deleted);
    assert row2 == Account(scans0[scan], processed, deleted).0;
    UpdateTwice(scans0, scan, row1, row2);
    db.Commit();
  }

  /**
   * Lines 236-264 as written: `delete_invalid_entries` returns nothing, so
   * `deleted_files > 0` raises, the handler rolls back and the command exits
   * with 1 — after the sweep was already committed.
   */
  method FinishScanAsWritten(db: Db, scan: ScanId, processed: nat) returns (exitCode: nat)
    requires db.Valid() && scan in db.scans
    modifies db
    ensures exitCode == 1 && db.dirs == ValidDirs(old(db.dirs)) && db.files == ValidFiles(old(db.files))
    ensures db.durable.dirs == db.dirs && db.durable.files == db.files
  {
    ghost var dirs0, files0 := db.dirs, db.files;
    var _ := NoteProcessed(db, scan, processed);
    assert db.dirs == dirs0 && db.files == files0;
    var _ := db.DeleteInvalidEntries();
    var deletedFiles: Option<nat> := None;
    var comparison := GreaterThanZero(deletedFiles);
    assert comparison.Err?;
    db.Rollback();
    exitCode := 1;
  }

  /**
   * Lines 144-150: a new scan session that the ORM session does not hold yet,
   * and every row made invalid and committed.
   */
  method Prepare(db: Db) returns (scan: ScanId)
    requires db.Valid()
    modifies db
    ensures var t0 := Invalidated(old(db.Current()));
      db.Valid() && db.dirs == t0.dirs && db.files == t0.files && db.durable == t0
      && scan == old(db.nextScan) && db.scans == old(db.scans)[scan := ScanRow(None, false)]
    ensures db.nextDir == old(db.nextDir) && db.nextFile == old(db.nextFile)
  {
    scan := db.NewScanSession();
    RecordedUnattached(old(db.scans), scan, ScanRow(None, false));
    db.ResetAllValidFlags();
  }

  /**
   * Lines 227-284 after the Dir pass: the file pass, the accounting, the
   * sweep and the final commit.
   */
  method IndexAndSweep(
    db: Db, h: Hashers, root: Node, rootPath: Path, lookup: seq<(Path, DirId)>, totalFiles: nat, scan: ScanId)
    returns (changed: nat)
    requires db.Valid() && scan in db.scans
    requires forall k :: 0 <= k < |lookup| ==> lookup[k].1 in db.dirs
    modifies db
    ensures var tasks := TasksOf(root, rootPath, lookup);
      var fs := FilePass(h, old(FState(db)), tasks, scan);
      db.Valid() && db.dirs == ValidDirs(old(db.dirs)) && db.files == ValidFiles(fs.files)
      && db.scans == fs.scans[scan := Account(fs.scans[scan], CountOf(tasks), InvalidFileCount(fs.files)).0]
      && changed == CountOf(tasks) + InvalidFileCount(fs.files) && db.durable == db.Current()
  {
    var processed, _, _ := InsertFilesWithProgress(db, h, root, rootPath, lookup, totalFiles, scan, DefaultChunkSize);
    changed := FinishScan(db, scan, processed);
  }

  /**
   * `_scan` from line 141 on, for the tree `root` at `rootPath`. The only
   * exception the model can raise is the root's own lookup finding two Dirs
   * with its path hash; then the reset is what stays. Otherwise the rows end
   * as the Dir pass and the file pass over the reset rows leave them, swept,
   * with the accounting on the new scan session, all of it committed.
   * The sweep composed here is the corrected `FinishScan`, where
   * `delete_invalid_entries` gives back its count (Findings, row 2 of the
   * README); as written, that step raises, which `FinishScanAsWritten` shows.
   * The unique index is taken over valid rows only (Findings, row 1): as
   * written, the new row of a changed file raises `IntegrityError` at the next
   * flush, which is not modelled.
   */
  method Scan(db: Db, h: Hashers, root: Node, rootPath: Path) returns (exitCode: nat, changed: nat)
    requires db.Valid()
    modifies db
    ensures var t0 := Invalidated(old(db.Current()));
      var scan := old(db.nextScan);
      var (st, raised) := VisitDir(h, WalkState(t0.dirs, old(db.nextDir), []), root, rootPath, None);
      (exitCode == 1 <==> raised)
      && (raised ==> db.dirs == t0.dirs && db.files == t0.files && db.durable == t0 && changed == 0)
      && (!raised ==>
            var tasks := TasksOf(root, rootPath, st.lookup);
            var fs := FilePass(h, FileState(t0.files, old(db.nextFile), old(db.scans)[scan := ScanRow(None, false)]), tasks, scan);
            db.Valid() && db.dirs == ValidDirs(st.dirs) && db.files == ValidFiles(fs.files)
            && db.scans == fs.scans[scan := Account(fs.scans[scan], CountOf(tasks), InvalidFileCount(fs.files)).0]
            && db.durable == db.Current() && changed == CountOf(tasks) + InvalidFileCount(fs.files))
    ensures PathHashesUnique(old(db.dirs)) && WellFormed(root) && HashesApart(h, ReachedDirs(root, rootPath)) ==>
      exitCode == 0 && FileIndexUnique(db.files)
  {
    var scan := Prepare(db);
    ghost var t0 := db.durable;
    ghost var w0 := WalkState(db.dirs, db.nextDir, []);
    ghost var fs0 := FState(db);
    var totalDirs, totalFiles := CountDirsAndFiles(root);
    var lookup, _ := ScanDirsAndBuildLookup(db, h, root, rootPath, totalDirs);
    assert db.durable == t0 && FState(db) == fs0;
    if PathHashesUnique(old(db.dirs)) && WellFormed(root) && HashesApart(h, ReachedDirs(root, rootPath)) {
      ScanLeavesFileIndexUnique(h, w0.dirs, w0.nextDir, fs0, root, rootPath, scan);
    }
    if lookup.None? {
      db.Rollback();
      return 1, 0;
    }
    VisitDirSound(h, w0, root, rootPath, None);
    changed := IndexAndSweep(db, h, root, rootPath, lookup.value, totalFiles, scan);
    exitCode := 0;
  }

  /**
   * Starting from Dirs with distinct path hashes and all rows invalid, a scan
   * of a well-formed tree whose directory paths do not collide under `xxh32`
   * does not raise, and the rows it keeps satisfy `ux_file_dir_name`.
   */
  lemma ScanLeavesFileIndexUnique(
    h: Hashers, dirs: map<DirId, DirRow>, nextDir: nat, st: FileState, root: Node, rootPath: Path, scan: ScanId)
    requires Fits(WalkState(dirs, nextDir, [])) && PathHashesUnique(dirs)
    requires WellFormed(root) && HashesApart(h, ReachedDirs(root, rootPath))
    requires scan in st.scans && KeysFit(st) && forall id :: id in st.files ==> !st.files[id].isValid
    ensures var (w, raised) := VisitDir(h, WalkState(dirs, nextDir, []), root, rootPath, None);
      !raised && FileIndexUnique(ValidFiles(FilePass(h, st, TasksOf(root, rootPath, w.lookup), scan).files))
  {
    var w0 := WalkState(dirs, nextDir, []);
    var w := VisitDir(h, w0, root, rootPath, None).0;
    VisitDirComplete(h, w0, root, rootPath, None);
    VisitDirSound(h, w0, root, rootPath, None);
    assert LookupPaths(w.lookup) == ReachedDirs(root, rootPath);
    ReachedDistinct(root, rootPath);
    LookupIdsDistinct(h, w);
    TasksOfKeysDistinct(root, rootPath, w.lookup);
    FilePassThenSweepUnique(h, st, TasksOf(root, rootPath, w.lookup), scan);
  }

  /**
   * Scanning an unchanged tree a second time, as `Scan` composes it: the rows
   * the first scan keeps, all made invalid again, go through the Dir pass and
   * the file pass of the second scan. With a well-formed tree whose directory
   * paths do not collide under `xxh32`, neither scan raises, the second looks
   * up the same Dirs for the same paths, and it adds no Dir and no File, so
   * the file pass leaves the second scan session out of the ORM session.
   */
  lemma RescanAddsNothing(
    h: Hashers, dirs: map<DirId, DirRow>, nextDir: nat, files: map<FileId, FileRow>, nextFile: nat,
    scans: map<ScanId, ScanRow>, scan: ScanId, scans2: map<ScanId, ScanRow>, scan2: ScanId, root: Node, rootPath: Path)
    requires Fits(WalkState(dirs, nextDir, [])) && PathHashesUnique(dirs) && KeysFit(FileState(files, nextFile, scans))
    requires WellFormed(root) && HashesApart(h, ReachedDirs(root, rootPath))
    ensures var (w, raised) := VisitDir(h, WalkState(dirs, nextDir, []), root, rootPath, None);
      var fs := FilePass(h, FileState(files, nextFile, scans[scan := ScanRow(None, false)]), TasksOf(root, rootPath, w.lookup), scan);
      var t1 := Invalidated(Tables(ValidDirs(w.dirs), ValidFiles(fs.files), map[]));
      var (w2, raised2) := VisitDir(h, WalkState(t1.dirs, w.nextDir, []), root, rootPath, None);
      var fs2 := FilePass(h, FileState(t1.files, fs.nextFile, scans2[scan2 := ScanRow(None, false)]), TasksOf(root, rootPath, w2.lookup), scan2);
      !raised && !raised2 && w2.lookup == w.lookup
      && w2.nextDir == w.nextDir && w2.dirs.Keys == t1.dirs.Keys
      && fs2.nextFile == fs.nextFile && fs2.files.Keys == t1.files.Keys && fs2.scans == scans2[scan2 := ScanRow(None, false)]
  {
    var w0 := WalkState(dirs, nextDir, []);
    var w := VisitDir(h, w0, root, rootPath, None).0;
    VisitDirComplete(h, w0, root, rootPath, None);
    VisitDirSound(h, w0, root, rootPath, None);
    var tasks := TasksOf(root, rootPath, w.lookup);
    var st := FileState(files, nextFile, scans[scan := ScanRow(None, false)]);
    var fs := FilePass(h, st, tasks, scan);
    var t1 := Invalidated(Tables(ValidDirs(w.dirs), ValidFiles(fs.files), map[]));
    SweptDirsKeepLookup(h, w, ValidFiles(fs.files));
    RescanReusesDirs(h, dirs, nextDir, root, rootPath, t1.dirs);
    var w2 := VisitDir(h, WalkState(t1.dirs, w.nextDir, []), root, rootPath, None).0;
    assert TasksOf(root, rootPath, w2.lookup) == tasks;
    assert LookupPaths(w.lookup) == ReachedDirs(root, rootPath);
    ReachedDistinct(root, rootPath);
    LookupIdsDistinct(h, w);
    TasksOfKeysDistinct(root, rootPath, w.lookup);
    FileRescanAddsNothing(h, st, tasks, scan, FileState(t1.files, fs.nextFile, scans2[scan2 := ScanRow(None, false)]), scan2);
  }

  /** The reset after the sweep keeps every looked-up Dir, and the hash of every Dir it keeps. */
  lemma SweptDirsKeepLookup(h: Hashers, w: WalkState, files: map<FileId, FileRow>)
    requires LookupSound(h, w)
    ensures var d := Invalidated(Tables(ValidDirs(w.dirs), files, map[])).dirs;
      d.Keys <= w.dirs.Keys && (forall id :: id in d ==> d[id].fullPathHash == w.dirs[id].fullPathHash)
      && forall k :: 0 <= k < |w.lookup| ==> w.lookup[k].1 in d
  {
  }

  /**
   * The scan session is written only when the file pass added a row or, with
   * the counter at 0, something was deleted: a scan that processes unchanged
   * files and deletes others records no session.
   */
  lemma SessionRecordedOnlyWithNewRows(h: Hashers, st: FileState, ts: seq<FileTask>, scan: ScanId, deleted: nat)
    requires scan in st.scans && !st.scans[scan].attached
    ensures var fs := FilePass(h, st, ts, scan);
      Account(fs.scans[scan], CountOf(ts), deleted).0.attached
      <==> fs.nextFile > st.nextFile || (CountOf(ts) == 0 && deleted > 0)
  {
    FilePassAttached(h, st, ts, scan);
  }

  lemma UpdateTwice<K, V>(m: map<K, V>, k: K, a: V, b: V)
    ensures m[k := a][k := b] == m[k := b]
  {
  }
}
