/**
 * The index database: the `dir` and `file` tables and the scan sessions, as
 * maps from primary key to row, the parent chain that gives a directory its
 * `full_path`, the two unique indexes as predicates, and the ORM session as a
 * class whose methods are the statements the core issues.
 */
module Store {
  import opened Base
  import opened Paths

  type DirId = nat
  type FileId = nat
  type ScanId = nat

  /** An xxh3-128 digest as `bytes.fromhex` returns it: sixteen bytes. */
  type Digest = s: seq<Byte> | |s| == 16 witness seq(16, k => 0)

  /**
   * The two hash functions of the `xxhash` library, taken as given: xxh32 of a
   * path string (`xxh32_intdigest`) and xxh3-128 of file content.
   */
  datatype Hashers = Hashers(pathHash: string -> U32, contentHash: seq<Byte> -> Digest)

  /** A `dir` row; a new Dir has no parent and is valid unless told otherwise. */
  datatype DirRow = DirRow(name: string, fullPathHash: U32, parent: Option<DirId> := None, isValid: bool := true)

  /**
   * A `file` row. `session` and `ancestor` are the two relationships the file
   * pass sets (the scan session that inserted the row, the previous version of
   * the same name in the same directory).
   */
  datatype FileRow = FileRow(
    dir: DirId, name: string, size: nat, hash: Digest,
    isSafed: bool := false, isValid: bool := true,
    session: Option<ScanId> := None, ancestor: Option<FileId> := None)

  /** A scan session object: its `changed_files` and whether the ORM session holds it yet. */
  datatype ScanRow = ScanRow(changedFiles: Option<nat>, attached: bool)

  /** What a commit makes durable: both tables and the recorded scan sessions. */
  datatype Tables = Tables(dirs: map<DirId, DirRow>, files: map<FileId, FileRow>, scans: map<ScanId, Option<nat>>)

  /** A new Dir and a new File take the column defaults: no parent, valid, not yet saved. */
  lemma NewRowDefaults(name: string, h: U32, d: DirId, size: nat, content: Digest)
    ensures DirRow(name, h).parent == None && DirRow(name, h).isValid
    ensures !FileRow(d, name, size, content).isSafed && FileRow(d, name, size, content).isValid
    ensures FileRow(d, name, size, content).ancestor == None
  {
  }

  // ---------------------------------------------------------------------------
  // Paths of rows

  /** `Dir.compute_full_path_hash`: xxh32 of `str(path)`. */
  function ComputeFullPathHash(h: Hashers, p: Path): U32
  {
    h.pathHash(ToStr(p))
  }

  /** Two paths with the same string form get the same hash; for valid paths that means the same path. */
  lemma FullPathHashOfString(h: Hashers, p: Path, q: Path)
    requires ValidPath(p) && ValidPath(q)
    ensures ToStr(p) == ToStr(q) ==> p == q && ComputeFullPathHash(h, p) == ComputeFullPathHash(h, q)
  {
    if ToStr(p) == ToStr(q) {
      ToStrInjective(p, q);
    }
  }

  /** The parent object the relationship loads: None when the column is NULL or names no row. */
  function ParentOf(dirs: map<DirId, DirRow>, id: DirId): (r: Option<DirId>)
    requires id in dirs
    ensures r.Some? ==> r.value in dirs && dirs[id].parent == r
  {
    match dirs[id].parent
    case None => None
    case Some(p) => if p in dirs then Some(p) else None
  }

  /**
   * The ids from `id` up to the top of its parent chain, if the chain ends
   * within `fuel` steps; an id with no row has the empty chain.
   */
  function ChainWithin(dirs: map<DirId, DirRow>, id: DirId, fuel: nat): (r: Option<seq<DirId>>)
    ensures r.Some? ==> forall k :: 0 <= k < |r.value| ==> r.value[k] in dirs
    ensures r.Some? && id in dirs ==> |r.value| >= 1 && r.value[0] == id
    ensures id !in dirs ==> r == Some([])
    decreases fuel
  {
    if id !in dirs then Some([])
    else if fuel == 0 then None
    else match ParentOf(dirs, id)
      case None => Some([id])
      case Some(p) =>
        match ChainWithin(dirs, p, fuel - 1)
        case None => None
        case Some(rest) => Some([id] + rest)
  }

  /** The parent chain of `id`. A chain without cycles has at most one element per row. */
  function Chain(dirs: map<DirId, DirRow>, id: DirId): Option<seq<DirId>>
  {
    ChainWithin(dirs, id, |dirs|)
  }

  /** The `full_path` loop terminates: following parents reaches a Dir without one. */
  predicate ChainEnds(dirs: map<DirId, DirRow>, id: DirId)
  {
    Chain(dirs, id).Some?
  }

  function NamesOf(dirs: map<DirId, DirRow>, chain: seq<DirId>): (r: seq<string>)
    requires forall k :: 0 <= k < |chain| ==> chain[k] in dirs
    ensures |r| == |chain| && forall k :: 0 <= k < |chain| ==> r[k] == dirs[chain[k]].name
  {
    if chain == [] then [] else [dirs[chain[0]].name] + NamesOf(dirs, chain[1..])
  }

  function Reverse<T>(s: seq<T>): (r: seq<T>)
    ensures |r| == |s| && forall k :: 0 <= k < |s| ==> r[k] == s[|s| - 1 - k]
  {
    if s == [] then [] else Reverse(s[1..]) + [s[0]]
  }

  /** `Dir.full_path`: "/" joined with the names on the parent chain, top first. */
  function FullPath(dirs: map<DirId, DirRow>, id: DirId): Path
    requires ChainEnds(dirs, id)
  {
    FromNames(Reverse(NamesOf(dirs, Chain(dirs, id).value)))
  }

  lemma {:induction false} ChainMoreFuel(dirs: map<DirId, DirRow>, id: DirId, fuel: nat, more: nat)
    requires ChainWithin(dirs, id, fuel).Some? && fuel <= more
    ensures ChainWithin(dirs, id, more) == ChainWithin(dirs, id, fuel)
    decreases fuel
  {
    if id in dirs && ParentOf(dirs, id).Some? {
      ChainMoreFuel(dirs, ParentOf(dirs, id).value, fuel - 1, more - 1);
    }
  }

  lemma {:induction false} FromNamesAppend(a: seq<string>, b: seq<string>)
    ensures FromNames(a + b) == FromNames(a) + FromNames(b)
    decreases |a|
  {
    if a != [] {
      assert (a + b)[0] == a[0];
      assert (a + b)[1..] == a[1..] + b;
      FromNamesAppend(a[1..], b);
    } else {
      assert a + b == b;
    }
  }

  /**
   * A directory's `full_path` is its parent's `full_path` with its own name
   * appended (a Dir with no parent is "/" plus its name); the chain of the
   * parent ends whenever the child's does.
   */
  lemma FullPathOfChild(dirs: map<DirId, DirRow>, id: DirId)
    requires id in dirs && ChainEnds(dirs, id) && IsSegment(dirs[id].name)
    ensures ParentOf(dirs, id).None? ==> FullPath(dirs, id) == [dirs[id].name]
    ensures ParentOf(dirs, id).Some? ==>
      ChainEnds(dirs, ParentOf(dirs, id).value)
      && FullPath(dirs, id) == FullPath(dirs, ParentOf(dirs, id).value) + [dirs[id].name]
  {
    var name := dirs[id].name;
    match ParentOf(dirs, id)
    case None =>
      assert Chain(dirs, id) == Some([id]);
      FromNamesOfReversed(dirs, [id], []);
    case Some(p) =>
      ChainOfChild(dirs, id, p);
      FromNamesOfReversed(dirs, [id], Chain(dirs, p).value);
  }

  lemma ChainOfChild(dirs: map<DirId, DirRow>, id: DirId, p: DirId)
    requires id in dirs && ChainEnds(dirs, id) && ParentOf(dirs, id) == Some(p)
    ensures ChainEnds(dirs, p) && Chain(dirs, id).value == [id] + Chain(dirs, p).value
  {
    ChainMoreFuel(dirs, p, |dirs| - 1, |dirs|);
  }

  /** The names of `[id] + rest`, reversed and read as a path: the path of `rest` with `id`'s name appended. */
  lemma FromNamesOfReversed(dirs: map<DirId, DirRow>, head: seq<DirId>, rest: seq<DirId>)
    requires |head| == 1 && head[0] in dirs && IsSegment(dirs[head[0]].name)
    requires forall k :: 0 <= k < |rest| ==> rest[k] in dirs
    ensures FromNames(Reverse(NamesOf(dirs, head + rest))) == FromNames(Reverse(NamesOf(dirs, rest))) + [dirs[head[0]].name]
  {
    var name := dirs[head[0]].name;
    var names := NamesOf(dirs, rest);
    NamesOfAppend(dirs, head, rest);
    assert NamesOf(dirs, head) == [name];
    assert Reverse([name] + names) == Reverse(names) + [name];
    FromNamesAppend(Reverse(names), [name]);
    assert FromNames([name]) == [name] + FromNames([]);
  }

  /** Two tables with the same names and parents have the same chains and full paths. */
  predicate SameShape(dirs: map<DirId, DirRow>, other: map<DirId, DirRow>)
  {
    dirs.Keys == other.Keys
    && forall id :: id in dirs ==> dirs[id].name == other[id].name && dirs[id].parent == other[id].parent
  }

  lemma {:induction false} ChainOfSameShape(dirs: map<DirId, DirRow>, other: map<DirId, DirRow>, id: DirId, fuel: nat)
    requires SameShape(dirs, other)
    ensures ChainWithin(dirs, id, fuel) == ChainWithin(other, id, fuel)
    decreases fuel
  {
    if id in dirs && fuel > 0 && ParentOf(dirs, id).Some? {
      ChainOfSameShape(dirs, other, ParentOf(dirs, id).value, fuel - 1);
    }
  }

  /** `full_path` depends on names and parents only: flags and hashes do not move a directory. */
  lemma FullPathOfSameShape(dirs: map<DirId, DirRow>, other: map<DirId, DirRow>, id: DirId)
    requires SameShape(dirs, other) && ChainEnds(dirs, id)
    ensures ChainEnds(other, id) && FullPath(other, id) == FullPath(dirs, id)
  {
    ChainOfSameShape(dirs, other, id, |dirs|);
    assert |dirs| == |other| by {
      assert dirs.Keys == other.Keys;
    }
    var chain := Chain(dirs, id).value;
    assert NamesOf(dirs, chain) == NamesOf(other, chain);
  }

  /** `File.path`: the directory's `full_path` joined with the file's name. */
  function FilePath(t: Tables, id: FileId): (r: Path)
    requires id in t.files && ChainEnds(t.dirs, t.files[id].dir)
    ensures t.files[id].dir in t.dirs ==> r == FullPath(t.dirs, t.files[id].dir) + [t.files[id].name]
    ensures Name(r) == t.files[id].name
  {
    Join(FullPath(t.dirs, t.files[id].dir), t.files[id].name)
  }

  // ---------------------------------------------------------------------------
  // The unique indexes

  /**
   * `ux_dir_parent_name`: no two Dirs with the same parent share a name. SQLite
   * treats NULL parents as distinct, so top-level Dirs may share names.
   */
  predicate DirSiblingsUnique(dirs: map<DirId, DirRow>)
  {
    forall a, b :: a in dirs && b in dirs && a != b && dirs[a].parent.Some? && dirs[a].parent == dirs[b].parent
      ==> dirs[a].name != dirs[b].name
  }

  /** `ux_file_dir_name`: no two Files share a directory and a name. */
  predicate FileIndexUnique(files: map<FileId, FileRow>)
  {
    forall a, b :: a in files && b in files && a != b && files[a].dir == files[b].dir ==> files[a].name != files[b].name
  }

  /** The same index restricted to valid rows. */
  predicate ValidFilesUnique(files: map<FileId, FileRow>)
  {
    forall a, b :: a in files && b in files && a != b && files[a].isValid && files[b].isValid && files[a].dir == files[b].dir
      ==> files[a].name != files[b].name
  }

  /** At most one Dir per path hash: what `scalar_one_or_none` takes for granted. */
  predicate PathHashesUnique(dirs: map<DirId, DirRow>)
  {
    forall a, b :: a in dirs && b in dirs && a != b ==> dirs[a].fullPathHash != dirs[b].fullPathHash
  }

  // ---------------------------------------------------------------------------
  // Queries

  /**
   * `select(File).where(name, dir_id).order_by(File.id.desc()).first()` over
   * the ids below `bound`: the newest row for the pair, or None.
   */
  function NewestBelow(files: map<FileId, FileRow>, dir: DirId, name: string, bound: nat): (r: Option<FileId>)
    ensures r.Some? ==> r.value < bound && r.value in files && files[r.value].dir == dir && files[r.value].name == name
    ensures r.Some? ==> forall id :: r.value < id < bound && id in files ==> !(files[id].dir == dir && files[id].name == name)
    ensures r.None? ==> forall id :: id < bound && id in files ==> !(files[id].dir == dir && files[id].name == name)
  {
    if bound == 0 then None
    else if bound - 1 in files && files[bound - 1].dir == dir && files[bound - 1].name == name then Some(bound - 1)
    else NewestBelow(files, dir, name, bound - 1)
  }

  /** `select(Dir).where(Dir.full_path_hash == h)` over the ids below `bound`, newest first. */
  function DirsWithHashBelow(dirs: map<DirId, DirRow>, h: U32, bound: nat): (r: seq<DirId>)
    ensures forall k :: 0 <= k < |r| ==> r[k] < bound && r[k] in dirs && dirs[r[k]].fullPathHash == h
    ensures forall id :: id < bound && id in dirs && dirs[id].fullPathHash == h ==> id in r
    ensures forall i, j :: 0 <= i < j < |r| ==> r[i] > r[j]
  {
    if bound == 0 then []
    else if bound - 1 in dirs && dirs[bound - 1].fullPathHash == h then [bound - 1] + DirsWithHashBelow(dirs, h, bound - 1)
    else DirsWithHashBelow(dirs, h, bound - 1)
  }

  /** Scan sessions the ORM session holds: the ones a commit writes. */
  function Recorded(scans: map<ScanId, ScanRow>): (r: map<ScanId, Option<nat>>)
    ensures forall id :: id in r <==> id in scans && scans[id].attached
    ensures forall id :: id in r ==> r[id] == scans[id].changedFiles
  {
    map id | id in scans && scans[id].attached :: scans[id].changedFiles
  }

  /** A scan session the ORM session does not hold is not written. */
  lemma RecordedUnattached(scans: map<ScanId, ScanRow>, id: ScanId, row: ScanRow)
    requires id !in scans && !row.attached
    ensures Recorded(scans[id := row]) == Recorded(scans)
  {
  }

  /** The scan sessions a rollback leaves: the committed ones, held by the ORM session. */
  function Reloaded(recorded: map<ScanId, Option<nat>>): (r: map<ScanId, ScanRow>)
    ensures Recorded(r) == recorded
  {
    map id | id in recorded :: ScanRow(recorded[id], true)
  }

  /** Every row with its validity flag cleared. */
  function Invalidated(t: Tables): (r: Tables)
    ensures r.dirs.Keys == t.dirs.Keys && r.files.Keys == t.files.Keys && r.scans == t.scans
    ensures forall id :: id in r.dirs ==> r.dirs[id] == t.dirs[id].(isValid := false)
    ensures forall id :: id in r.files ==> r.files[id] == t.files[id].(isValid := false)
  {
    Tables(
      map id | id in t.dirs :: t.dirs[id].(isValid := false),
      map id | id in t.files :: t.files[id].(isValid := false),
      t.scans)
  }

  /** The Dirs that are still valid: what `delete(Dir).where(Dir.is_valid == False)` leaves. */
  function ValidDirs(dirs: map<DirId, DirRow>): (r: map<DirId, DirRow>)
    ensures forall id :: id in r <==> id in dirs && dirs[id].isValid
    ensures forall id :: id in r ==> r[id] == dirs[id]
  {
    map id | id in dirs && dirs[id].isValid :: dirs[id]
  }

  /** The Files that are still valid: what `delete(File).where(File.is_valid == False)` leaves. */
  function ValidFiles(files: map<FileId, FileRow>): (r: map<FileId, FileRow>)
    ensures forall id :: id in r <==> id in files && files[id].isValid
    ensures forall id :: id in r ==> r[id] == files[id]
  {
    map id | id in files && files[id].isValid :: files[id]
  }

  /** After the sweep only valid rows are left, so the valid-row index is the whole index. */
  lemma SweptIndexUnique(files: map<FileId, FileRow>)
    requires ValidFilesUnique(files)
    ensures FileIndexUnique(ValidFiles(files))
  {
  }

  /** The File rows that are invalid: the ones `delete(File).where(File.is_valid == False)` removes. */
  function InvalidIds(files: map<FileId, FileRow>): (r: set<FileId>)
    ensures forall id :: id in r <==> id in files && !files[id].isValid
  {
    set id | id in files && !files[id].isValid
  }

  /** How many File rows are invalid: zero exactly when every row is valid. */
  function InvalidFileCount(files: map<FileId, FileRow>): (n: nat)
    ensures n == 0 <==> forall id :: id in files ==> files[id].isValid
  {
    var invalid := InvalidIds(files);
    assert (invalid == {}) == (forall id :: id in files ==> files[id].isValid) by {
      if forall id :: id in files ==> files[id].isValid {
        assert forall id :: id !in invalid;
      } else {
        var id :| id in files && !files[id].isValid;
        assert id in invalid;
      }
    }
    |invalid|
  }

  /** The rows `update(File).where(File.id.in_(ids)).values(is_safed=True)` leaves. */
  function Safed(files: map<FileId, FileRow>, ids: set<FileId>): (r: map<FileId, FileRow>)
    ensures r.Keys == files.Keys
    ensures forall id :: id in r ==> r[id] == if id in ids then files[id].(isSafed := true) else files[id]
  {
    map id | id in files :: if id in ids then files[id].(isSafed := true) else files[id]
  }

  // ---------------------------------------------------------------------------
  // The ORM session

  /**
   * Keys and references stay below the id counters, and a File's `ancestor`
   * is always an older row than the File itself.
   */
  predicate RowsFit(dirs: map<DirId, DirRow>, files: map<FileId, FileRow>, nextDir: nat, nextFile: nat, nextScan: nat)
  {
    (forall id :: id in dirs ==> id < nextDir)
    && (forall id :: id in dirs && dirs[id].parent.Some? ==> dirs[id].parent.value < nextDir)
    && (forall id :: id in files ==> id < nextFile && files[id].dir < nextDir)
    && (forall id :: id in files && files[id].ancestor.Some? ==> files[id].ancestor.value < id)
    && (forall id :: id in files && files[id].session.Some? ==> files[id].session.value < nextScan)
  }

  /** The committed tables keep below the counters too. */
  predicate TablesFit(t: Tables, nextDir: nat, nextFile: nat, nextScan: nat)
  {
    RowsFit(t.dirs, t.files, nextDir, nextFile, nextScan) && forall id :: id in t.scans ==> id < nextScan
  }

  /**
   * An `AsyncSession` over the index database: the rows it sees (its own
   * pending changes included), what the last commit made durable, and how many
   * commits were issued. Ids come from counters that only grow, so a new row's
   * id is above every id in use, in the current rows and in the durable ones,
   * and a rollback leaves a usable session.
   */
  class Db {
    var dirs: map<DirId, DirRow>
    var files: map<FileId, FileRow>
    var scans: map<ScanId, ScanRow>
    var nextDir: nat
    var nextFile: nat
    var nextScan: nat
    var durable: Tables
    var commits: nat

    ghost predicate Valid()
      reads this
    {
      RowsFit(dirs, files, nextDir, nextFile, nextScan)
      && (forall id :: id in scans ==> id < nextScan)
      && TablesFit(durable, nextDir, nextFile, nextScan)
    }

    function Current(): (t: Tables)
      reads this
      ensures t.dirs == dirs && t.files == files
    {
      Tables(dirs, files, Recorded(scans))
    }

    /** A freshly created, empty database. */
    constructor ()
      ensures Valid() && dirs == map[] && files == map[] && scans == map[]
      ensures durable == Tables(map[], map[], map[]) && commits == 0
    {
      dirs, files, scans := map[], map[], map[];
      nextDir, nextFile, nextScan := 1, 1, 1;
      durable := Tables(map[], map[], map[]);
      commits := 0;
    }

    method Commit()
      requires Valid()
      modifies this
      ensures Valid()
      ensures dirs == old(dirs) && files == old(files) && scans == old(scans)
      ensures nextDir == old(nextDir) && nextFile == old(nextFile) && nextScan == old(nextScan)
      ensures durable == Current() && commits == old(commits) + 1
    {
      durable := Current();
      commits := commits + 1;
    }

    /** `session.rollback()`: pending changes are dropped, the rows are the durable ones again. */
    method Rollback()
      requires Valid()
      modifies this
      ensures dirs == old(durable).dirs && files == old(durable).files
      ensures scans == Reloaded(old(durable).scans)
      ensures durable == old(durable) && commits == old(commits)
      ensures nextDir == old(nextDir) && nextFile == old(nextFile) && nextScan == old(nextScan)
      ensures Valid()
    {
      dirs, files := durable.dirs, durable.files;
      scans := Reloaded(durable.scans);
    }

    /** `ScanSession()`: a new scan session object, not yet held by the session. */
    method NewScanSession() returns (id: ScanId)
      requires Valid()
      modifies this
      ensures Valid() && id == old(nextScan) && id !in old(scans)
      ensures scans == old(scans)[id := ScanRow(None, false)] && nextScan == old(nextScan) + 1
      ensures dirs == old(dirs) && files == old(files) && nextDir == old(nextDir) && nextFile == old(nextFile)
      ensures durable == old(durable) && commits == old(commits)
    {
      id := nextScan;
      scans := scans[id := ScanRow(None, false)];
      nextScan := nextScan + 1;
    }

    /** `session.add(scan_session)`. */
    method AddScanSession(id: ScanId)
      requires id in scans
      modifies this`scans
      ensures scans == old(scans)[id := old(scans)[id].(attached := true)]
    {
      scans := scans[id := scans[id].(attached := true)];
    }

    /** `scan_session.changed_files = n`. */
    method SetChangedFiles(id: ScanId, n: nat)
      requires id in scans
      modifies this`scans
      ensures scans == old(scans)[id := old(scans)[id].(changedFiles := Some(n))]
    {
      scans := scans[id := scans[id].(changedFiles := Some(n))];
    }

    /** `session.add(Dir(...))` and the flush that gives it its id. */
    method AddDir(row: DirRow) returns (id: DirId)
      requires Valid() && (row.parent.Some? ==> row.parent.value < nextDir)
      modifies this
      ensures Valid() && id == old(nextDir) && id !in old(dirs)
      ensures dirs == old(dirs)[id := row] && nextDir == old(nextDir) + 1
      ensures files == old(files) && scans == old(scans) && nextFile == old(nextFile) && nextScan == old(nextScan)
      ensures durable == old(durable) && commits == old(commits)
    {
      id := nextDir;
      dirs := dirs[id := row];
      nextDir := nextDir + 1;
    }

    /** Attribute assignments on a loaded Dir. */
    method PutDir(id: DirId, row: DirRow)
      requires Valid() && id in dirs && (row.parent.Some? ==> row.parent.value < nextDir)
      modifies this`dirs
      ensures Valid() && dirs == old(dirs)[id := row]
    {
      dirs := dirs[id := row];
    }

    /**
     * `session.add(File(...))`. A File that names a scan session brings it
     * into the session too (the save-update cascade of the relationship).
     */
    method AddFile(row: FileRow) returns (id: FileId)
      requires Valid() && row.dir < nextDir
      requires row.ancestor.Some? ==> row.ancestor.value < nextFile
      requires row.session.Some? ==> row.session.value in scans
      modifies this
      ensures Valid() && id == old(nextFile) && id !in old(files)
      ensures files == old(files)[id := row] && nextFile == old(nextFile) + 1
      ensures scans == match row.session
        case None => old(scans)
        case Some(s) => old(scans)[s := old(scans)[s].(attached := true)]
      ensures dirs == old(dirs) && nextDir == old(nextDir) && nextScan == old(nextScan)
      ensures durable == old(durable) && commits == old(commits)
    {
      id := nextFile;
      files := files[id := row];
      nextFile := nextFile + 1;
      if row.session.Some? {
        var s := row.session.value;
        scans := scans[s := scans[s].(attached := true)];
      }
    }

    /** Attribute assignments on a loaded File. */
    method PutFile(id: FileId, row: FileRow)
      requires Valid() && id in files && row.dir < nextDir
      requires row.ancestor.Some? ==> row.ancestor.value < id
      requires row.session.Some? ==> row.session.value < nextScan
      modifies this`files
      ensures Valid() && files == old(files)[id := row]
    {
      files := files[id := row];
    }

    /** `reset_all_valid_flags`: two bulk updates clearing `is_valid`, then a commit. */
    method ResetAllValidFlags()
      requires Valid()
      modifies this
      ensures Valid() && Current() == Invalidated(old(Current()))
      ensures scans == old(scans) && nextDir == old(nextDir) && nextFile == old(nextFile) && nextScan == old(nextScan)
      ensures durable == Current() && commits == old(commits) + 1
    {
      var t := Invalidated(Current());
      dirs, files := t.dirs, t.files;
      Commit();
    }

    /**
     * `delete_invalid_entries`: deletes the invalid files, then the invalid
     * directories, then commits; gives back how many files went.
     */
    method DeleteInvalidEntries() returns (deletedFiles: nat)
      requires Valid()
      modifies this
      ensures Valid() && dirs == ValidDirs(old(dirs)) && files == ValidFiles(old(files))
      ensures deletedFiles == InvalidFileCount(old(files))
      ensures scans == old(scans) && nextDir == old(nextDir) && nextFile == old(nextFile) && nextScan == old(nextScan)
      ensures durable == Current() && commits == old(commits) + 1
    {
      deletedFiles := InvalidFileCount(files);
      files := ValidFiles(files);
      dirs := ValidDirs(dirs);
      Commit();
    }

    /** `update(File).where(File.id.in_(ids)).values(is_safed=True)`. */
    method MarkSafed(ids: set<FileId>)
      requires Valid()
      modifies this`files
      ensures Valid() && files == Safed(old(files), ids)
    {
      files := Safed(files, ids);
    }

    /**
     * `Dir.full_path`: collects names while following parent objects, then
     * puts them top first under "/".
     */
    method FullPathOf(id: DirId) returns (p: Path)
      requires id in dirs && ChainEnds(dirs, id)
      ensures p == FullPath(dirs, id)
    {
      ghost var chain := Chain(dirs, id).value;
      var node: Option<DirId> := Some(id);
      var parts: seq<string> := [];
      ghost var fuel: nat := |dirs|;
      ghost var done := 0;
      while node.Some?
        invariant 0 <= done <= |chain|
        invariant node.Some? ==> ChainWithin(dirs, node.value, fuel) == Some(chain[done..]) && node.value in dirs
        invariant node.None? ==> done == |chain|
        invariant parts == NamesOf(dirs, chain[..done])
        decreases fuel
      {
        var cur := node.value;
        ChainStep(dirs, cur, fuel, chain, done);
        assert chain[..done + 1] == chain[..done] + [cur];
        NamesOfAppend(dirs, chain[..done], [cur]);
        parts := parts + [dirs[cur].name];
        node := ParentOf(dirs, cur);
        done := done + 1;
        fuel := fuel - 1;
      }
      assert chain[..done] == chain;
      p := FromNames(Reverse(parts));
    }

    /** `Dir.set_full_path_hash`: stores the hash of the Dir's current `full_path`. */
    method SetFullPathHash(id: DirId, h: Hashers)
      requires Valid() && id in dirs && ChainEnds(dirs, id)
      modifies this`dirs
      ensures Valid() && id in dirs && ChainEnds(dirs, id)
      ensures dirs == old(dirs)[id := old(dirs)[id].(fullPathHash := ComputeFullPathHash(h, FullPath(old(dirs), id)))]
      ensures dirs[id].fullPathHash == ComputeFullPathHash(h, FullPath(dirs, id))
    {
      var p := FullPathOf(id);
      var before := dirs;
      dirs := dirs[id := dirs[id].(fullPathHash := ComputeFullPathHash(h, p))];
      FullPathOfSameShape(before, dirs, id);
    }
  }

  /** One step up a chain that ends within `fuel`: the rest of the chain starts at the parent. */
  lemma ChainStep(dirs: map<DirId, DirRow>, cur: DirId, fuel: nat, chain: seq<DirId>, done: nat)
    requires cur in dirs && done <= |chain| && ChainWithin(dirs, cur, fuel) == Some(chain[done..])
    ensures done < |chain| && chain[done] == cur && fuel > 0
    ensures ParentOf(dirs, cur).None? ==> done + 1 == |chain|
    ensures ParentOf(dirs, cur).Some? ==> ChainWithin(dirs, ParentOf(dirs, cur).value, fuel - 1) == Some(chain[done + 1..])
  {
    assert chain[done..] == [cur] + chain[done + 1..];
    match ParentOf(dirs, cur) {
      case None =>
      case Some(up) =>
        var rest := ChainWithin(dirs, up, fuel - 1).value;
        assert rest == ([cur] + rest)[1..];
    }
  }

  lemma {:induction false} NamesOfAppend(dirs: map<DirId, DirRow>, a: seq<DirId>, b: seq<DirId>)
    requires forall k :: 0 <= k < |a| ==> a[k] in dirs
    requires forall k :: 0 <= k < |b| ==> b[k] in dirs
    ensures NamesOf(dirs, a + b) == NamesOf(dirs, a) + NamesOf(dirs, b)
  {
    assert forall k :: 0 <= k < |a + b| ==> NamesOf(dirs, a + b)[k] == (NamesOf(dirs, a) + NamesOf(dirs, b))[k];
  }

  /** The sweep keeps the valid files and removes the invalid ones, nothing else. */
  lemma SweptFileCount(files: map<FileId, FileRow>)
    ensures |files.Keys| == |ValidFiles(files).Keys| + InvalidFileCount(files)
  {
    var invalid := InvalidIds(files);
    var valid := ValidFiles(files).Keys;
    assert forall id :: id in valid <==> id in files && files[id].isValid;
    assert files.Keys == valid + invalid;
    DisjointUnionCard(valid, invalid);
  }

  lemma DisjointUnionCard<T>(a: set<T>, b: set<T>)
    requires forall x :: x in a ==> x !in b
    ensures |a + b| == |a| + |b|
  {
    assert a * b == {};
  }
}
