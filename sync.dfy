/**
 * The incremental mark-and-sweep sync of `bluestash.db.utils`: hashing one
 * file, the depth-first Dir pass that reuses rows found by path hash, and the
 * file pass that revalidates unchanged files and inserts new versions of
 * changed ones, committing in chunks.
 */
module Sync {
  import opened Base
  import opened Paths
  import opened FsTree
  import opened Store

  /** `get_size_and_hash`: the number of bytes read and their xxh3-128; a read error propagates. */
  function GetSizeAndHash(h: Hashers, content: ReadOutcome): (r: Option<(nat, Digest)>)
    ensures r.Some? <==> content.Readable?
    ensures r.Some? ==> r.value.0 == |content.data| && r.value.1 == h.contentHash(content.data)
  {
    match content
    case Readable(data) => Some((|data|, h.contentHash(data)))
    case _ => None
  }

  /** Equal bytes give equal size and hash, whichever file they came from. */
  lemma SizeAndHashOfContentOnly(h: Hashers, a: ReadOutcome, b: ReadOutcome)
    requires a.Readable? && b.Readable? && a.data == b.data
    ensures GetSizeAndHash(h, a) == GetSizeAndHash(h, b) && GetSizeAndHash(h, a).Some?
  {
  }

  // ===========================================================================
  // The Dir pass: scan_dirs_and_build_lookup

  /** The rows, the next Dir id and the lookup built so far, as (path, Dir id) pairs in insertion order. */
  datatype WalkState = WalkState(dirs: map<DirId, DirRow>, nextDir: nat, lookup: seq<(Path, DirId)>)

  /** A reused Dir: re-pointed to the caller's Dir if its parent differs, and valid again. */
  function Reuse(dirs: map<DirId, DirRow>, id: DirId, parent: Option<DirId>): (r: map<DirId, DirRow>)
    requires id in dirs
    ensures r.Keys == dirs.Keys
    ensures r[id] == dirs[id].(parent := parent, isValid := true)
    ensures forall other :: other in dirs && other != id ==> r[other] == dirs[other]
  {
    var row := dirs[id];
    var row1 := if row.parent != parent then row.(parent := parent) else row;
    dirs[id := row1.(isValid := true)]
  }

  /**
   * The lookup of one directory by its path hash: the reused or added Dir and
   * the lookup entry for `path`, or None when `scalar_one_or_none` raises on
   * more than one Dir with the hash.
   */
  function Record(h: Hashers, st: WalkState, path: Path, parent: Option<DirId>): (r: Option<(WalkState, DirId)>)
    ensures r.Some? ==> r.value.1 in r.value.0.dirs && r.value.0.lookup == st.lookup + [(path, r.value.1)]
    ensures r.Some? ==> (r.value.0.dirs[r.value.1].parent == parent && r.value.0.dirs[r.value.1].isValid
      && r.value.0.dirs[r.value.1].fullPathHash == ComputeFullPathHash(h, path))
  {
    var hash := ComputeFullPathHash(h, path);
    var found := DirsWithHashBelow(st.dirs, hash, st.nextDir);
    if |found| > 1 then None
    else if |found| == 1 then
      Some((WalkState(Reuse(st.dirs, found[0], parent), st.nextDir, st.lookup + [(path, found[0])]), found[0]))
    else
      var id := st.nextDir;
      Some((WalkState(st.dirs[id := DirRow(Name(path), hash, parent, true)], id + 1, st.lookup + [(path, id)]), id))
  }

  /**
   * The two outcomes of a lookup that does not raise, and when it raises.
   * Reuse: the one existing Dir with the path's hash is re-pointed to the
   * caller's Dir and made valid, and no row is added. Add: no Dir has the
   * hash, and one valid row named after the path, holding its hash, below the
   * caller's Dir, appears under the counter. `scalar_one_or_none` raises
   * exactly when two Dirs share the hash. Every other row stays as it was.
   */
  lemma RecordOutcome(h: Hashers, st: WalkState, path: Path, parent: Option<DirId>)
    ensures var r := Record(h, st, path, parent);
      r.Some? ==> forall other :: other in st.dirs && other != r.value.1 ==> other in r.value.0.dirs && r.value.0.dirs[other] == st.dirs[other]
    ensures var r := Record(h, st, path, parent);
      r.Some? && r.value.1 < st.nextDir ==> (
        r.value.1 in st.dirs && st.dirs[r.value.1].fullPathHash == ComputeFullPathHash(h, path)
        && r.value.0.nextDir == st.nextDir && r.value.0.dirs.Keys == st.dirs.Keys
        && r.value.0.dirs[r.value.1] == st.dirs[r.value.1].(parent := parent, isValid := true))
    ensures var r := Record(h, st, path, parent);
      r.Some? && r.value.1 >= st.nextDir ==> (
        (forall id :: id in st.dirs && id < st.nextDir ==> st.dirs[id].fullPathHash != ComputeFullPathHash(h, path))
        && r.value.1 == st.nextDir && r.value.0.nextDir == st.nextDir + 1
        && r.value.0.dirs == st.dirs[st.nextDir := DirRow(Name(path), ComputeFullPathHash(h, path), parent, true)])
    ensures Record(h, st, path, parent).None? <==> (exists a, b ::
      a in st.dirs && b in st.dirs && a < b < st.nextDir
      && st.dirs[a].fullPathHash == ComputeFullPathHash(h, path) && st.dirs[b].fullPathHash == ComputeFullPathHash(h, path))
  {
    var found := DirsWithHashBelow(st.dirs, ComputeFullPathHash(h, path), st.nextDir);
    if |found| > 1 {
      assert found[1] < found[0];
    }
  }

  /**
   * One call of `walk_dirs_internal` on node `n` at `path`: the new state and
   * whether it raised. A raise inside a child is caught by the parent, which
   * then stops listing; only the node's own lookup raises to its caller.
   */
  function VisitDir(h: Hashers, st: WalkState, n: Node, path: Path, parent: Option<DirId>): (WalkState, bool)
    decreases n
  {
    if n.Symlink? then (st, false)
    else match Record(h, st, path, parent)
      case None => (st, true)
      case Some((st1, id)) =>
        if n.Directory? && n.listable then (VisitEntries(h, st1, n.entries, path, id), false)
        else (st1, false)
  }

  /** The loop over a directory's entries, recursing into real subdirectories until one raises. */
  function VisitEntries(h: Hashers, st: WalkState, es: seq<Node>, path: Path, id: DirId): WalkState
    decreases es
  {
    if es == [] then st
    else if es[0].Directory? then
      var (st1, raised) := VisitDir(h, st, es[0], Join(path, es[0].name), Some(id));
      if raised then st1 else VisitEntries(h, st1, es[1..], path, id)
    else VisitEntries(h, st, es[1..], path, id)
  }

  /** The progress calls of the Dir pass: (1, total), (2, total), ... */
  function DirReports(n: nat, total: nat): (r: seq<(nat, nat)>)
    ensures |r| == n && forall k :: 0 <= k < n ==> r[k] == (k + 1, total)
  {
    seq(n, k => (k + 1, total))
  }

  /** One more processed directory adds one progress call. */
  lemma DirReportsNext(n: nat, total: nat)
    ensures DirReports(n + 1, total) == DirReports(n, total) + [(n + 1, total)]
  {
    var longer, extended := DirReports(n + 1, total), DirReports(n, total) + [(n + 1, total)];
    assert |longer| == |extended|;
    assert forall k :: 0 <= k < |longer| ==> longer[k] == extended[k];
  }

  /** The closure state of `scan_dirs_and_build_lookup`: `dir_lookup`, the counter cell and the callback's calls. */
  class DirWalk {
    var lookup: seq<(Path, DirId)>
    var processed: nat
    var reports: seq<(nat, nat)>
    const totalDirs: nat

    constructor (totalDirs: nat)
      ensures lookup == [] && processed == 0 && reports == [] && this.totalDirs == totalDirs
    {
      lookup := [];
      processed := 0;
      reports := [];
      this.totalDirs := totalDirs;
    }

    /** The parts of the database the Dir pass leaves alone. */
    ghost function Untouched(db: Db): (map<FileId, FileRow>, map<ScanId, ScanRow>, nat, nat, Tables, nat)
      reads db
    {
      (db.files, db.scans, db.nextFile, db.nextScan, db.durable, db.commits)
    }

    ghost function State(db: Db): WalkState
      reads this, db
    {
      WalkState(db.dirs, db.nextDir, lookup)
    }

    ghost predicate Ready(db: Db)
      reads this, db
    {
      db.Valid() && processed == |lookup| && reports == DirReports(processed, totalDirs)
    }

    /** Lines 140-169: find or add the Dir, record it in the lookup, report progress. */
    method RecordDir(db: Db, h: Hashers, path: Path, parent: Option<DirId>) returns (id: Option<DirId>)
      requires Ready(db) && (parent.Some? ==> parent.value in db.dirs)
      modifies this, db
      ensures Ready(db) && Untouched(db) == old(Untouched(db)) && old(db.dirs).Keys <= db.dirs.Keys
      ensures var r := Record(h, old(State(db)), path, parent);
        (r.None? ==> id.None? && State(db) == old(State(db)))
        && (r.Some? ==> id == Some(r.value.1) && State(db) == r.value.0)
    {
      var fullPathHash := ComputeFullPathHash(h, path);
      var found := DirsWithHashBelow(db.dirs, fullPathHash, db.nextDir);
      if |found| > 1 {
        return None;
      }
      var dirId: DirId;
      if |found| == 1 {
        dirId := found[0];
        var row := db.dirs[dirId];
        if row.parent != parent {
          row := row.(parent := parent);
        }
        db.PutDir(dirId, row.(isValid := true));
      } else {
        dirId := db.AddDir(DirRow(Name(path), fullPathHash, parent, true));
      }
      lookup := lookup + [(path, dirId)];
      DirReportsNext(processed, totalDirs);
      processed := processed + 1;
      reports := reports + [(processed, totalDirs)];
      id := Some(dirId);
    }

    /** `walk_dirs_internal(path, parent_obj)`; the result says whether it raised. */
    method WalkDirsInternal(db: Db, h: Hashers, fs: Node, path: Path, parent: Option<DirId>) returns (raised: bool)
      requires Ready(db) && (parent.Some? ==> parent.value in db.dirs)
      modifies this, db
      ensures Ready(db) && Untouched(db) == old(Untouched(db)) && old(db.dirs).Keys <= db.dirs.Keys
      ensures (State(db), raised) == VisitDir(h, old(State(db)), fs, path, parent)
      decreases fs, 1
    {
      if fs.Symlink? {
        return false;
      }
      var id := RecordDir(db, h, path, parent);
      if id.None? {
        return true;
      }
      var listing := Listing(fs);
      if listing.Some? {
        WalkEntries(db, h, listing.value, path, id.value);
      }
      raised := false;
    }

    /**
     * Lines 171-176: recurse into every real subdirectory; an exception from
     * a child ends the loop and is logged.
     */
    method WalkEntries(db: Db, h: Hashers, es: seq<Node>, path: Path, id: DirId)
      requires Ready(db) && id in db.dirs
      modifies this, db
      ensures Ready(db) && Untouched(db) == old(Untouched(db)) && old(db.dirs).Keys <= db.dirs.Keys
      ensures State(db) == VisitEntries(h, old(State(db)), es, path, id)
      decreases es, 0
    {
      ghost var st0 := State(db);
      var i := 0;
      while i < |es|
        invariant 0 <= i <= |es|
        invariant Ready(db) && id in db.dirs && Untouched(db) == old(Untouched(db)) && old(db.dirs).Keys <= db.dirs.Keys
        invariant VisitEntries(h, st0, es, path, id) == VisitEntries(h, State(db), es[i..], path, id)
      {
        assert es[i..][1..] == es[i + 1..];
        if es[i].Directory? {
          var childRaised := WalkDirsInternal(db, h, es[i], Join(path, es[i].name), Some(id));
          if childRaised {
            assert VisitEntries(h, st0, es, path, id) == State(db);
            break;
          }
        }
        i := i + 1;
      }
    }
  }

  /**
   * `scan_dirs_and_build_lookup`: the walk from the scan root with no parent.
   * None stands for the exception the root's own lookup raises.
   */
  method ScanDirsAndBuildLookup(db: Db, h: Hashers, root: Node, rootPath: Path, totalDirs: nat)
    returns (lookup: Option<seq<(Path, DirId)>>, reports: seq<(nat, nat)>)
    requires db.Valid()
    modifies db
    ensures db.Valid()
    ensures var (st, raised) := VisitDir(h, WalkState(old(db.dirs), old(db.nextDir), []), root, rootPath, None);
      db.dirs == st.dirs && db.nextDir == st.nextDir
      && lookup == (if raised then None else Some(st.lookup))
      && reports == DirReports(|st.lookup|, totalDirs)
    ensures db.files == old(db.files) && db.scans == old(db.scans)
    ensures db.nextFile == old(db.nextFile) && db.nextScan == old(db.nextScan)
    ensures db.durable == old(db.durable) && db.commits == old(db.commits)
  {
    var walk := new DirWalk(totalDirs);
    var raised := walk.WalkDirsInternal(db, h, root, rootPath, None);
    lookup := if raised then None else Some(walk.lookup);
    reports := walk.reports;
  }

  // ---------------------------------------------------------------------------
  // What the Dir pass guarantees

  /** The paths of the lookup, in insertion order. */
  function LookupPaths(l: seq<(Path, DirId)>): (r: seq<Path>)
    ensures |r| == |l| && forall k :: 0 <= k < |l| ==> r[k] == l[k].0
  {
    seq(|l|, k requires 0 <= k < |l| => l[k].0)
  }

  /** Every id below the counter: a new Dir's id is not in use. */
  predicate Fits(st: WalkState)
  {
    forall id :: id in st.dirs ==> id < st.nextDir
  }

  /** Each lookup entry names a valid Dir whose stored hash is the hash of the entry's path. */
  predicate LookupSound(h: Hashers, st: WalkState)
  {
    forall k :: 0 <= k < |st.lookup| ==>
      st.lookup[k].1 in st.dirs
      && st.dirs[st.lookup[k].1].fullPathHash == ComputeFullPathHash(h, st.lookup[k].0)
      && st.dirs[st.lookup[k].1].isValid
  }

  /**
   * What a step of the walk keeps: the lookup only grows at the end, no Dir
   * disappears, and an existing Dir keeps its name and hash and stays valid if
   * it was.
   */
  predicate Grows(st: WalkState, st2: WalkState)
  {
    |st.lookup| <= |st2.lookup| && st2.lookup[..|st.lookup|] == st.lookup
    && st.nextDir <= st2.nextDir
    && st.dirs.Keys <= st2.dirs.Keys
    && forall id :: id in st.dirs ==>
      st2.dirs[id].name == st.dirs[id].name && st2.dirs[id].fullPathHash == st.dirs[id].fullPathHash
      && (st.dirs[id].isValid ==> st2.dirs[id].isValid)
  }

  lemma GrowsTrans(a: WalkState, b: WalkState, c: WalkState)
    requires Grows(a, b) && Grows(b, c)
    ensures Grows(a, c)
  {
    assert c.lookup[..|a.lookup|] == c.lookup[..|b.lookup|][..|a.lookup|];
  }

  lemma RecordSound(h: Hashers, st: WalkState, path: Path, parent: Option<DirId>)
    requires Fits(st) && LookupSound(h, st)
    ensures var r := Record(h, st, path, parent);
      r.Some? ==> Fits(r.value.0) && LookupSound(h, r.value.0) && Grows(st, r.value.0)
  {
    var r := Record(h, st, path, parent);
    if r.Some? {
      var st1 := r.value.0;
      assert st1.lookup[..|st.lookup|] == st.lookup;
      forall k | 0 <= k < |st1.lookup|
        ensures st1.lookup[k].1 in st1.dirs
        ensures st1.dirs[st1.lookup[k].1].fullPathHash == ComputeFullPathHash(h, st1.lookup[k].0)
        ensures st1.dirs[st1.lookup[k].1].isValid
      {
        if k < |st.lookup| {
          assert st1.lookup[k] == st.lookup[k];
        }
      }
    }
  }

  /**
   * The walk keeps the lookup sound: every directory it records maps to a
   * valid Dir carrying the hash of its path, and nothing recorded before is
   * undone.
   */
  lemma {:induction false} VisitDirSound(h: Hashers, st: WalkState, n: Node, path: Path, parent: Option<DirId>)
    requires Fits(st) && LookupSound(h, st)
    ensures var (st2, _) := VisitDir(h, st, n, path, parent);
      Fits(st2) && LookupSound(h, st2) && Grows(st, st2)
    decreases n
  {
    if !n.Symlink? {
      RecordSound(h, st, path, parent);
      match Record(h, st, path, parent)
      case None =>
      case Some((st1, id)) =>
        if n.Directory? && n.listable {
          VisitEntriesSound(h, st1, n.entries, path, id);
          GrowsTrans(st, st1, VisitEntries(h, st1, n.entries, path, id));
        }
    }
  }

  lemma {:induction false} VisitEntriesSound(h: Hashers, st: WalkState, es: seq<Node>, path: Path, id: DirId)
    requires Fits(st) && LookupSound(h, st)
    ensures var st2 := VisitEntries(h, st, es, path, id);
      Fits(st2) && LookupSound(h, st2) && Grows(st, st2)
    decreases es
  {
    if es != [] {
      if es[0].Directory? {
        VisitDirSound(h, st, es[0], Join(path, es[0].name), Some(id));
        var (st1, raised) := VisitDir(h, st, es[0], Join(path, es[0].name), Some(id));
        if !raised {
          VisitEntriesSound(h, st1, es[1..], path, id);
          GrowsTrans(st, st1, VisitEntries(h, st1, es[1..], path, id));
        }
      } else {
        VisitEntriesSound(h, st, es[1..], path, id);
      }
    }
  }

  lemma RecordUnique(h: Hashers, st: WalkState, path: Path, parent: Option<DirId>)
    requires Fits(st) && PathHashesUnique(st.dirs)
    ensures var r := Record(h, st, path, parent);
      r.Some? && Fits(r.value.0) && PathHashesUnique(r.value.0.dirs)
      && LookupPaths(r.value.0.lookup) == LookupPaths(st.lookup) + [path]
  {
    var hash := ComputeFullPathHash(h, path);
    var found := DirsWithHashBelow(st.dirs, hash, st.nextDir);
    if |found| > 1 {
      TwoFoundShareHash(st.dirs, hash, st.nextDir);
      assert false;
    }
    var st1 := Record(h, st, path, parent).value.0;
    assert LookupPaths(st1.lookup) == LookupPaths(st.lookup) + [path];
    if |found| == 0 {
      assert forall id :: id in st.dirs ==> st.dirs[id].fullPathHash != hash;
    }
  }

  /** Two Dirs found for one hash are two different Dirs with that hash. */
  lemma TwoFoundShareHash(dirs: map<DirId, DirRow>, hash: U32, bound: nat)
    requires |DirsWithHashBelow(dirs, hash, bound)| > 1
    ensures exists a, b :: a in dirs && b in dirs && a != b && dirs[a].fullPathHash == dirs[b].fullPathHash
  {
    var found := DirsWithHashBelow(dirs, hash, bound);
    assert found[0] > found[1];
  }

  /**
   * With at most one Dir per path hash to start from (an empty database, or
   * one a previous scan left), the walk never raises, keeps that property,
   * and records exactly the directories the tree walk reaches, in order.
   */
  lemma {:induction false} VisitDirComplete(h: Hashers, st: WalkState, n: Node, path: Path, parent: Option<DirId>)
    requires Fits(st) && PathHashesUnique(st.dirs)
    ensures var (st2, raised) := VisitDir(h, st, n, path, parent);
      !raised && Fits(st2) && PathHashesUnique(st2.dirs)
      && LookupPaths(st2.lookup) == LookupPaths(st.lookup) + ReachedDirs(n, path)
    decreases n
  {
    if n.Symlink? {
      assert LookupPaths(st.lookup) + [] == LookupPaths(st.lookup);
    } else {
      RecordUnique(h, st, path, parent);
      var (st1, id) := Record(h, st, path, parent).value;
      if n.Directory? && n.listable {
        VisitEntriesComplete(h, st1, n.entries, path, id);
        assert LookupPaths(st.lookup) + [path] + ReachedBelow(n.entries, path)
          == LookupPaths(st.lookup) + ([path] + ReachedBelow(n.entries, path));
      }
    }
  }

  lemma {:induction false} VisitEntriesComplete(h: Hashers, st: WalkState, es: seq<Node>, path: Path, id: DirId)
    requires Fits(st) && PathHashesUnique(st.dirs)
    ensures var st2 := VisitEntries(h, st, es, path, id);
      Fits(st2) && PathHashesUnique(st2.dirs)
      && LookupPaths(st2.lookup) == LookupPaths(st.lookup) + ReachedBelow(es, path)
    decreases es, 1
  {
    if es == [] {
      assert LookupPaths(st.lookup) + [] == LookupPaths(st.lookup);
    } else if es[0].Directory? {
      VisitSubdirComplete(h, st, es, path, id);
    } else {
      VisitEntriesComplete(h, st, es[1..], path, id);
      assert [] + ReachedBelow(es[1..], path) == ReachedBelow(es[1..], path);
    }
  }

  /** VisitEntriesComplete when the first entry is a directory. */
  lemma {:induction false} VisitSubdirComplete(h: Hashers, st: WalkState, es: seq<Node>, path: Path, id: DirId)
    requires Fits(st) && PathHashesUnique(st.dirs) && es != [] && es[0].Directory?
    ensures var st2 := VisitEntries(h, st, es, path, id);
      Fits(st2) && PathHashesUnique(st2.dirs)
      && LookupPaths(st2.lookup) == LookupPaths(st.lookup) + ReachedBelow(es, path)
    decreases es, 0
  {
    var child := Join(path, es[0].name);
    VisitDirComplete(h, st, es[0], child, Some(id));
    var st1 := VisitDir(h, st, es[0], child, Some(id)).0;
    VisitEntriesAfterSubdir(h, st, es, path, id);
    VisitEntriesComplete(h, st1, es[1..], path, id);
    Concat3(LookupPaths(st.lookup), ReachedDirs(es[0], child), ReachedBelow(es[1..], path));
  }

  /** A subdirectory that did not raise hands its state on to the rest of the loop. */
  lemma VisitEntriesAfterSubdir(h: Hashers, st: WalkState, es: seq<Node>, path: Path, id: DirId)
    requires es != [] && es[0].Directory? && !VisitDir(h, st, es[0], Join(path, es[0].name), Some(id)).1
    ensures VisitEntries(h, st, es, path, id) == VisitEntries(h, VisitDir(h, st, es[0], Join(path, es[0].name), Some(id)).0, es[1..], path, id)
  {
  }

  lemma Concat3<T>(a: seq<T>, b: seq<T>, c: seq<T>)
    ensures a + b + c == a + (b + c)
  {
  }

  // ---------------------------------------------------------------------------
  // Parent links of the Dir pass

  /**
   * The paths still to be recorded are distinct, and their hashes differ from
   * each other and from the hashes of every path recorded before.
   */
  ghost predicate Fresh(h: Hashers, recorded: seq<Path>, ps: seq<Path>)
  {
    Distinct(ps) && HashesApart(h, ps)
    && forall i, k :: 0 <= i < |ps| && 0 <= k < |recorded| ==> ComputeFullPathHash(h, ps[i]) != ComputeFullPathHash(h, recorded[k])
  }

  lemma FreshSplit(h: Hashers, recorded: seq<Path>, a: seq<Path>, b: seq<Path>)
    requires Fresh(h, recorded, a + b)
    ensures Fresh(h, recorded, a) && Fresh(h, recorded + a, b)
  {
    var ab := a + b;
    assert forall i :: 0 <= i < |a| ==> a[i] == ab[i];
    assert forall i :: 0 <= i < |b| ==> b[i] == ab[|a| + i];
    forall i, k | 0 <= i < |b| && 0 <= k < |recorded + a|
      ensures ComputeFullPathHash(h, b[i]) != ComputeFullPathHash(h, (recorded + a)[k])
    {
      if k < |recorded| {
        assert (recorded + a)[k] == recorded[k];
      } else {
        assert (recorded + a)[k] == ab[k - |recorded|];
        assert ab[k - |recorded|] != ab[|a| + i];
      }
    }
  }

  /** The Dirs `st` had looked up keep their rows in `st2`. */
  predicate Kept(st: WalkState, st2: WalkState)
  {
    forall k :: 0 <= k < |st.lookup| && st.lookup[k].1 in st.dirs
      ==> st.lookup[k].1 in st2.dirs && st2.dirs[st.lookup[k].1] == st.dirs[st.lookup[k].1]
  }

  lemma KeptTrans(a: WalkState, b: WalkState, c: WalkState)
    requires Kept(a, b) && Kept(b, c) && Grows(a, b)
    ensures Kept(a, c)
  {
    forall k | 0 <= k < |a.lookup| && a.lookup[k].1 in a.dirs
      ensures a.lookup[k].1 in c.dirs && c.dirs[a.lookup[k].1] == a.dirs[a.lookup[k].1]
    {
      assert b.lookup[k] == b.lookup[..|a.lookup|][k];
    }
  }

  /** A path whose hash no recorded path has never reuses a looked-up Dir. */
  lemma RecordKeeps(h: Hashers, st: WalkState, path: Path, parent: Option<DirId>)
    requires Fits(st) && LookupSound(h, st) && Fresh(h, LookupPaths(st.lookup), [path])
    ensures var r := Record(h, st, path, parent);
      r.Some? ==> Kept(st, r.value.0)
  {
    var r := Record(h, st, path, parent);
    RecordOutcome(h, st, path, parent);
    if r.Some? {
      forall k | 0 <= k < |st.lookup|
        ensures st.lookup[k].1 != r.value.1
      {
        assert LookupPaths(st.lookup)[k] == st.lookup[k].0;
        assert ComputeFullPathHash(h, [path][0]) != ComputeFullPathHash(h, LookupPaths(st.lookup)[k]);
      }
    }
  }

  /** Among the entries from `m` on, every entry whose path is a child of another's hangs below that entry's Dir. */
  predicate LinkedWithin(st: WalkState, m: nat)
  {
    forall j, k :: m <= j < |st.lookup| && m <= k < |st.lookup| && ChildOf(st.lookup[k].0, st.lookup[j].0)
      ==> st.lookup[k].1 in st.dirs && st.dirs[st.lookup[k].1].parent == Some(st.lookup[j].1)
  }

  /** The entries from `m` on, of a walk started below `parent`: the first entry's Dir hangs below `parent`. */
  predicate Linked(st: WalkState, m: nat, parent: Option<DirId>)
  {
    (m < |st.lookup| ==> st.lookup[m].1 in st.dirs && st.dirs[st.lookup[m].1].parent == parent)
    && LinkedWithin(st, m)
  }

  /** The entries from `m` on, of the listing of `path` whose Dir is `id`: the entries of its children hang below `id`. */
  predicate LinkedBelow(st: WalkState, m: nat, path: Path, id: DirId)
  {
    (forall k :: m <= k < |st.lookup| && ChildOf(st.lookup[k].0, path)
      ==> st.lookup[k].1 in st.dirs && st.dirs[st.lookup[k].1].parent == Some(id))
    && LinkedWithin(st, m)
  }

  /**
   * With the reached paths fresh, the walk of `n` leaves the rows of the Dirs
   * already looked up alone, hangs the Dir of `path` below `parent`, and every
   * other Dir it looks up below the Dir of its directory.
   */
  lemma {:induction false} VisitDirLinks(h: Hashers, st: WalkState, n: Node, path: Path, parent: Option<DirId>)
    requires Fits(st) && PathHashesUnique(st.dirs) && LookupSound(h, st) && WellFormed(n)
    requires Fresh(h, LookupPaths(st.lookup), ReachedDirs(n, path))
    ensures var st2 := VisitDir(h, st, n, path, parent).0;
      Kept(st, st2) && Linked(st2, |st.lookup|, parent)
    decreases n, 1
  {
    if !n.Symlink? {
      var rest := if n.Directory? && n.listable then ReachedBelow(n.entries, path) else [];
      assert ReachedDirs(n, path) == [path] + rest;
      FreshSplit(h, LookupPaths(st.lookup), [path], rest);
      RecordUnique(h, st, path, parent);
      RecordSound(h, st, path, parent);
      RecordKeeps(h, st, path, parent);
      var (st1, id) := Record(h, st, path, parent).value;
      if n.Directory? && n.listable {
        VisitEntriesLinks(h, st1, n.entries, path, id);
        VisitEntriesComplete(h, st1, n.entries, path, id);
        VisitEntriesSound(h, st1, n.entries, path, id);
        ReachedBelowUnder(n.entries, path);
        var st2 := VisitEntries(h, st1, n.entries, path, id);
        KeptTrans(st, st1, st2);
        LinkedTop(st1, st2, |st.lookup|, path, parent, id);
      }
    }
  }

  /** The start path's own entry, then the entries of its listing. */
  lemma LinkedTop(st1: WalkState, st2: WalkState, m: nat, path: Path, parent: Option<DirId>, id: DirId)
    requires |st1.lookup| == m + 1 && st1.lookup[m] == (path, id) && id in st1.dirs && st1.dirs[id].parent == parent
    requires Grows(st1, st2) && Kept(st1, st2) && LinkedBelow(st2, m + 1, path, id)
    requires forall k :: m < k < |st2.lookup| ==> |st2.lookup[k].0| > |path|
    ensures Linked(st2, m, parent)
  {
    assert st2.lookup[m] == st2.lookup[..m + 1][m];
  }

  lemma {:induction false} VisitEntriesLinks(h: Hashers, st: WalkState, es: seq<Node>, path: Path, id: DirId)
    requires Fits(st) && PathHashesUnique(st.dirs) && LookupSound(h, st)
    requires NamesUnique(es) && forall k :: 0 <= k < |es| ==> WellFormed(es[k])
    requires Fresh(h, LookupPaths(st.lookup), ReachedBelow(es, path))
    ensures var st2 := VisitEntries(h, st, es, path, id);
      Kept(st, st2) && LinkedBelow(st2, |st.lookup|, path, id)
    decreases es, 1
  {
    if es != [] {
      if es[0].Directory? {
        SubdirLinks(h, st, es, path, id);
      } else {
        assert forall k :: 0 <= k < |es[1..]| ==> es[1..][k] == es[k + 1];
        assert ReachedBelow(es, path) == [] + ReachedBelow(es[1..], path) == ReachedBelow(es[1..], path);
        VisitEntriesLinks(h, st, es[1..], path, id);
      }
    }
  }

  /** VisitEntriesLinks when the first entry is a directory. */
  lemma {:induction false} SubdirLinks(h: Hashers, st: WalkState, es: seq<Node>, path: Path, id: DirId)
    requires Fits(st) && PathHashesUnique(st.dirs) && LookupSound(h, st)
    requires NamesUnique(es) && (forall k :: 0 <= k < |es| ==> WellFormed(es[k])) && es != [] && es[0].Directory?
    requires Fresh(h, LookupPaths(st.lookup), ReachedBelow(es, path))
    ensures var st2 := VisitEntries(h, st, es, path, id);
      Kept(st, st2) && LinkedBelow(st2, |st.lookup|, path, id)
    decreases es, 0
  {
    var q := Join(path, es[0].name);
    FreshSplit(h, LookupPaths(st.lookup), ReachedDirs(es[0], q), ReachedBelow(es[1..], path));
    VisitDirLinks(h, st, es[0], q, Some(id));
    VisitDirComplete(h, st, es[0], q, Some(id));
    VisitDirSound(h, st, es[0], q, Some(id));
    var st1 := VisitDir(h, st, es[0], q, Some(id)).0;
    VisitEntriesAfterSubdir(h, st, es, path, id);
    assert forall k :: 0 <= k < |es[1..]| ==> es[1..][k] == es[k + 1];
    VisitEntriesLinks(h, st1, es[1..], path, id);
    VisitEntriesComplete(h, st1, es[1..], path, id);
    VisitEntriesSound(h, st1, es[1..], path, id);
    SubdirJoin(st, st1, VisitEntries(h, st1, es[1..], path, id), es, path, id);
  }

  /** The links of a listing's first subdirectory and of the rest of the listing, put together. */
  lemma SubdirJoin(st: WalkState, st1: WalkState, st2: WalkState, es: seq<Node>, path: Path, id: DirId)
    requires NamesUnique(es) && es != [] && es[0].Directory?
    requires Grows(st, st1) && Kept(st, st1) && Linked(st1, |st.lookup|, Some(id))
    requires LookupPaths(st1.lookup) == LookupPaths(st.lookup) + ReachedDirs(es[0], Join(path, es[0].name))
    requires Grows(st1, st2) && Kept(st1, st2) && LinkedBelow(st2, |st1.lookup|, path, id)
    requires LookupPaths(st2.lookup) == LookupPaths(st1.lookup) + ReachedBelow(es[1..], path)
    ensures Kept(st, st2) && LinkedBelow(st2, |st.lookup|, path, id)
  {
    var q := Join(path, es[0].name);
    KeptTrans(st, st1, st2);
    ReachedUnder(es[0], q);
    ReachedBelowShape(es[1..], path);
    ShapeOfSubdir(es[0], q);
    assert es[0].name !in EntryNames(es[1..]) by {
      forall j | 0 <= j < |es[1..]|
        ensures EntryNames(es[1..])[j] != es[0].name
      {
        assert es[1..][j] == es[j + 1];
      }
    }
    LinkedJoin(st, st1, st2, path, id, es[0].name, EntryNames(es[1..]), ReachedDirs(es[0], q), ReachedBelow(es[1..], path));
  }

  /**
   * The entries of a listing's first subdirectory, then those of the rest:
   * the two runs lie below different names, so no entry of one is a child of
   * an entry of the other.
   */
  lemma LinkedJoin(
    st: WalkState, st1: WalkState, st2: WalkState, path: Path, id: DirId, name: string, names: seq<string>, a: seq<Path>, b: seq<Path>)
    requires LookupPaths(st1.lookup) == LookupPaths(st.lookup) + a && LookupPaths(st2.lookup) == LookupPaths(st1.lookup) + b
    requires Grows(st1, st2) && Kept(st1, st2)
    requires Linked(st1, |st.lookup|, Some(id)) && LinkedBelow(st2, |st1.lookup|, path, id)
    requires a != [] && a[0] == Join(path, name)
    requires forall k :: 0 <= k < |a| ==> IsUnder(a[k], Join(path, name))
    requires forall k :: 0 < k < |a| ==> |a[k]| > |path| + 1
    requires forall k :: 0 <= k < |b| ==> |b[k]| > |path| && b[k][|path|] in names
    requires name !in names
    ensures LinkedBelow(st2, |st.lookup|, path, id)
  {
    var m, mid, l := |st.lookup|, |st1.lookup|, st2.lookup;
    var q := Join(path, name);
    forall k | m <= k < mid
      ensures l[k] == st1.lookup[k] && l[k].0 == a[k - m] && |l[k].0| > |path| && l[k].0[|path|] == name
    {
      assert l[k] == l[..mid][k];
      assert LookupPaths(st1.lookup)[k] == a[k - m];
      assert IsUnder(a[k - m], q);
      assert l[k].0[|path|] == l[k].0[..|q|][|path|];
    }
    forall k | mid <= k < |l|
      ensures l[k].0 == b[k - mid]
    {
      assert LookupPaths(l)[k] == b[k - mid];
    }
    forall k | m <= k < |l| && ChildOf(l[k].0, path)
      ensures l[k].1 in st2.dirs && st2.dirs[l[k].1].parent == Some(id)
    {
      if k < mid {
        assert k == m;
      }
    }
    forall j, k | m <= j < |l| && m <= k < |l| && ChildOf(l[k].0, l[j].0)
      ensures l[k].1 in st2.dirs && st2.dirs[l[k].1].parent == Some(l[j].1)
    {
      if j < mid && k < mid {
        assert ChildOf(st1.lookup[k].0, st1.lookup[j].0);
      } else if j < mid && k >= mid {
        assert false;
      } else if k < mid {
        assert false;
      }
    }
  }

  /**
   * The Dir pass of a scan over a well-formed tree whose directory paths do
   * not collide under `xxh32` sets the parents `full_path` follows: the root's
   * Dir has none, and every other Dir it looks up hangs below the Dir looked
   * up for its directory, whether the Dir was reused or added.
   */
  lemma WalkLinksParents(h: Hashers, dirs: map<DirId, DirRow>, nextDir: nat, root: Node, rootPath: Path)
    requires Fits(WalkState(dirs, nextDir, [])) && PathHashesUnique(dirs)
    requires WellFormed(root) && HashesApart(h, ReachedDirs(root, rootPath))
    ensures var (w, raised) := VisitDir(h, WalkState(dirs, nextDir, []), root, rootPath, None);
      !raised && LookupSound(h, w) && Linked(w, 0, None)
  {
    var w0 := WalkState(dirs, nextDir, []);
    ReachedDistinct(root, rootPath);
    VisitDirComplete(h, w0, root, rootPath, None);
    VisitDirSound(h, w0, root, rootPath, None);
    VisitDirLinks(h, w0, root, rootPath, None);
  }

  // ---------------------------------------------------------------------------
  // A rescan of the same tree reuses every Dir

  /** Some Dir holds the hash of `p`. */
  predicate HasDirFor(h: Hashers, st: WalkState, p: Path)
  {
    exists id :: id in st.dirs && st.dirs[id].fullPathHash == ComputeFullPathHash(h, p)
  }

  /** A path whose hash one Dir holds reuses that Dir: no row is added. */
  lemma RecordReuses(h: Hashers, st: WalkState, path: Path, parent: Option<DirId>)
    requires Fits(st) && PathHashesUnique(st.dirs) && HasDirFor(h, st, path)
    ensures var r := Record(h, st, path, parent);
      r.Some? && r.value.0.nextDir == st.nextDir && r.value.0.dirs.Keys == st.dirs.Keys
  {
    RecordUnique(h, st, path, parent);
    RecordOutcome(h, st, path, parent);
    var id :| id in st.dirs && st.dirs[id].fullPathHash == ComputeFullPathHash(h, path);
    assert id < st.nextDir;
  }

  /** Dirs that keep their ids and hashes keep holding the hashes of `ps`. */
  lemma HasDirKept(h: Hashers, st: WalkState, st1: WalkState, ps: seq<Path>)
    requires Grows(st, st1) && forall i :: 0 <= i < |ps| ==> HasDirFor(h, st, ps[i])
    ensures forall i :: 0 <= i < |ps| ==> HasDirFor(h, st1, ps[i])
  {
    forall i | 0 <= i < |ps|
      ensures HasDirFor(h, st1, ps[i])
    {
      assert HasDirFor(h, st, ps[i]);
      var id :| id in st.dirs && st.dirs[id].fullPathHash == ComputeFullPathHash(h, ps[i]);
      assert id in st1.dirs;
    }
  }

  /** When every directory the walk reaches already has its Dir, the walk adds no Dir. */
  lemma {:induction false} VisitDirReuses(h: Hashers, st: WalkState, n: Node, path: Path, parent: Option<DirId>)
    requires Fits(st) && PathHashesUnique(st.dirs) && LookupSound(h, st)
    requires forall i :: 0 <= i < |ReachedDirs(n, path)| ==> HasDirFor(h, st, ReachedDirs(n, path)[i])
    ensures var st2 := VisitDir(h, st, n, path, parent).0;
      st2.nextDir == st.nextDir && st2.dirs.Keys == st.dirs.Keys
    decreases n, 1
  {
    if !n.Symlink? {
      assert ReachedDirs(n, path)[0] == path;
      RecordReuses(h, st, path, parent);
      RecordUnique(h, st, path, parent);
      RecordSound(h, st, path, parent);
      var (st1, id) := Record(h, st, path, parent).value;
      if n.Directory? && n.listable {
        var below := ReachedBelow(n.entries, path);
        assert forall i :: 0 <= i < |below| ==> below[i] == ReachedDirs(n, path)[i + 1];
        HasDirKept(h, st, st1, below);
        VisitEntriesReuses(h, st1, n.entries, path, id);
      }
    }
  }

  lemma {:induction false} VisitEntriesReuses(h: Hashers, st: WalkState, es: seq<Node>, path: Path, id: DirId)
    requires Fits(st) && PathHashesUnique(st.dirs) && LookupSound(h, st)
    requires forall i :: 0 <= i < |ReachedBelow(es, path)| ==> HasDirFor(h, st, ReachedBelow(es, path)[i])
    ensures var st2 := VisitEntries(h, st, es, path, id);
      st2.nextDir == st.nextDir && st2.dirs.Keys == st.dirs.Keys
    decreases es, 1
  {
    if es != [] {
      if es[0].Directory? {
        var q := Join(path, es[0].name);
        var a := ReachedDirs(es[0], q);
        var b := ReachedBelow(es[1..], path);
        assert ReachedBelow(es, path) == a + b;
        assert forall i :: 0 <= i < |a| ==> a[i] == (a + b)[i];
        assert forall i :: 0 <= i < |b| ==> b[i] == (a + b)[|a| + i];
        VisitDirReuses(h, st, es[0], q, Some(id));
        VisitDirComplete(h, st, es[0], q, Some(id));
        VisitDirSound(h, st, es[0], q, Some(id));
        var st1 := VisitDir(h, st, es[0], q, Some(id)).0;
        VisitEntriesAfterSubdir(h, st, es, path, id);
        HasDirKept(h, st, st1, b);
        VisitEntriesReuses(h, st1, es[1..], path, id);
      } else {
        assert ReachedBelow(es, path) == [] + ReachedBelow(es[1..], path) == ReachedBelow(es[1..], path);
        VisitEntriesReuses(h, st, es[1..], path, id);
      }
    }
  }

  /**
   * Two sound lookups of the same paths name the same Dirs when the second
   * walk started from Dirs that keep the first one's and their hashes, and
   * ended with one Dir per hash.
   */
  lemma LookupsAgree(h: Hashers, w: WalkState, v0: WalkState, w2: WalkState)
    requires LookupSound(h, w) && LookupSound(h, w2) && LookupPaths(w.lookup) == LookupPaths(w2.lookup)
    requires PathHashesUnique(w2.dirs) && Grows(v0, w2)
    requires v0.dirs.Keys <= w.dirs.Keys && forall id :: id in v0.dirs ==> v0.dirs[id].fullPathHash == w.dirs[id].fullPathHash
    requires forall k :: 0 <= k < |w.lookup| ==> w.lookup[k].1 in v0.dirs
    ensures w2.lookup == w.lookup
  {
    forall k | 0 <= k < |w.lookup|
      ensures w2.lookup[k] == w.lookup[k]
    {
      assert LookupPaths(w.lookup)[k] == LookupPaths(w2.lookup)[k];
      var id := w.lookup[k].1;
      assert w2.dirs[id].fullPathHash == v0.dirs[id].fullPathHash == w.dirs[id].fullPathHash;
    }
  }

  /**
   * Walking the same tree again, over the Dirs the first walk left (or any of
   * them that keep its Dirs, as the reset and the sweep do), never raises,
   * adds no Dir and looks up the same Dirs for the same paths.
   */
  lemma RescanReusesDirs(h: Hashers, dirs: map<DirId, DirRow>, nextDir: nat, root: Node, rootPath: Path, dirs2: map<DirId, DirRow>)
    requires Fits(WalkState(dirs, nextDir, [])) && PathHashesUnique(dirs)
    requires var w := VisitDir(h, WalkState(dirs, nextDir, []), root, rootPath, None).0;
      dirs2.Keys <= w.dirs.Keys && (forall id :: id in dirs2 ==> dirs2[id].fullPathHash == w.dirs[id].fullPathHash)
      && forall k :: 0 <= k < |w.lookup| ==> w.lookup[k].1 in dirs2
    ensures var w := VisitDir(h, WalkState(dirs, nextDir, []), root, rootPath, None).0;
      var (w2, raised) := VisitDir(h, WalkState(dirs2, w.nextDir, []), root, rootPath, None);
      !raised && w2.nextDir == w.nextDir && w2.dirs.Keys == dirs2.Keys && w2.lookup == w.lookup
  {
    var w := VisitDir(h, WalkState(dirs, nextDir, []), root, rootPath, None).0;
    FirstWalkLeavesDirs(h, dirs, nextDir, root, rootPath, dirs2);
    SecondWalkReuses(h, w, WalkState(dirs2, w.nextDir, []), root, rootPath);
  }

  /** What the first walk leaves: a sound lookup of every directory it reaches, over Dirs with distinct hashes. */
  lemma FirstWalkLeavesDirs(h: Hashers, dirs: map<DirId, DirRow>, nextDir: nat, root: Node, rootPath: Path, dirs2: map<DirId, DirRow>)
    requires Fits(WalkState(dirs, nextDir, [])) && PathHashesUnique(dirs)
    requires var w := VisitDir(h, WalkState(dirs, nextDir, []), root, rootPath, None).0;
      dirs2.Keys <= w.dirs.Keys && (forall id :: id in dirs2 ==> dirs2[id].fullPathHash == w.dirs[id].fullPathHash)
    ensures var w := VisitDir(h, WalkState(dirs, nextDir, []), root, rootPath, None).0;
      Fits(WalkState(dirs2, w.nextDir, [])) && PathHashesUnique(dirs2)
      && LookupSound(h, w) && LookupPaths(w.lookup) == ReachedDirs(root, rootPath)
  {
    var w0 := WalkState(dirs, nextDir, []);
    VisitDirComplete(h, w0, root, rootPath, None);
    VisitDirSound(h, w0, root, rootPath, None);
    assert LookupPaths(w0.lookup) == [];
    assert LookupPaths(VisitDir(h, w0, root, rootPath, None).0.lookup) == [] + ReachedDirs(root, rootPath);
  }

  /** The second walk, from Dirs that keep those of a sound lookup `w` of every reached directory. */
  lemma SecondWalkReuses(h: Hashers, w: WalkState, v0: WalkState, root: Node, rootPath: Path)
    requires Fits(v0) && PathHashesUnique(v0.dirs) && v0.lookup == []
    requires LookupSound(h, w) && LookupPaths(w.lookup) == ReachedDirs(root, rootPath)
    requires v0.dirs.Keys <= w.dirs.Keys && (forall id :: id in v0.dirs ==> v0.dirs[id].fullPathHash == w.dirs[id].fullPathHash)
    requires forall k :: 0 <= k < |w.lookup| ==> w.lookup[k].1 in v0.dirs
    ensures var (w2, raised) := VisitDir(h, v0, root, rootPath, None);
      !raised && w2.nextDir == v0.nextDir && w2.dirs.Keys == v0.dirs.Keys && w2.lookup == w.lookup
  {
    var reached := ReachedDirs(root, rootPath);
    forall i | 0 <= i < |reached|
      ensures HasDirFor(h, v0, reached[i])
    {
      assert reached[i] == LookupPaths(w.lookup)[i] == w.lookup[i].0;
      assert v0.dirs[w.lookup[i].1].fullPathHash == ComputeFullPathHash(h, reached[i]);
    }
    assert LookupSound(h, v0) && LookupPaths(v0.lookup) == [];
    VisitDirReuses(h, v0, root, rootPath, None);
    VisitDirComplete(h, v0, root, rootPath, None);
    VisitDirSound(h, v0, root, rootPath, None);
    var w2 := VisitDir(h, v0, root, rootPath, None).0;
    assert LookupPaths(w2.lookup) == [] + reached == LookupPaths(w.lookup);
    LookupsAgree(h, w, v0, w2);
  }

  /** After the start path, the walk of a node reaches only paths strictly below it. */
  lemma ShapeOfSubdir(n: Node, q: Path)
    ensures forall k :: 0 < k < |ReachedDirs(n, q)| ==> |ReachedDirs(n, q)[k]| > |q|
  {
    if !n.Symlink? && n.Directory? && n.listable {
      ReachedBelowUnder(n.entries, q);
      assert forall k :: 0 < k < |ReachedDirs(n, q)| ==> ReachedDirs(n, q)[k] == ReachedBelow(n.entries, q)[k - 1];
    }
  }

  // ===========================================================================
  // The file pass: insert_files_with_progress

  /** One `(entry, dir_obj)` pair of `file_processing_tasks`: the file's path, what reading it yields, its Dir. */
  datatype FileTask = FileTask(path: Path, content: ReadOutcome, dir: DirId)

  /** The tasks one listing contributes: its regular files that are not symbolic links, in listing order. */
  function TasksIn(es: seq<Node>, path: Path, dir: DirId): (r: seq<FileTask>)
    ensures |r| <= |es|
  {
    if es == [] then []
    else
      var last := es[|es| - 1];
      TasksIn(es[..|es| - 1], path, dir)
      + (if last.RegularFile? then [FileTask(Join(path, last.name), last.content, dir)] else [])
  }

  /** Every lookup entry's listing in turn; a directory that cannot be listed contributes nothing. */
  function TasksOf(root: Node, rootPath: Path, lookup: seq<(Path, DirId)>): seq<FileTask>
  {
    if lookup == [] then []
    else
      var (p, d) := lookup[|lookup| - 1];
      TasksOf(root, rootPath, lookup[..|lookup| - 1])
      + match ListDirAt(root, rootPath, p) { case None => [] case Some(es) => TasksIn(es, p, d) }
  }

  /** Lines 204-211: the task list, built from every directory of the lookup. */
  method CollectFileTasks(root: Node, rootPath: Path, lookup: seq<(Path, DirId)>) returns (tasks: seq<FileTask>)
    ensures tasks == TasksOf(root, rootPath, lookup)
  {
    tasks := [];
    for i := 0 to |lookup|
      invariant tasks == TasksOf(root, rootPath, lookup[..i])
    {
      assert lookup[..i + 1][..i] == lookup[..i];
      var (dirPath, dirId) := lookup[i];
      var listing := ListDirAt(root, rootPath, dirPath);
      if listing.Some? {
        var more := ListingTasks(listing.value, dirPath, dirId);
        tasks := tasks + more;
      }
    }
    assert lookup[..|lookup|] == lookup;
  }

  /** The inner loop of lines 208-211 over one listing. */
  method ListingTasks(es: seq<Node>, dirPath: Path, dirId: DirId) returns (tasks: seq<FileTask>)
    ensures tasks == TasksIn(es, dirPath, dirId)
  {
    tasks := [];
    for j := 0 to |es|
      invariant tasks == TasksIn(es[..j], dirPath, dirId)
    {
      assert es[..j + 1][..j] == es[..j];
      if es[j].RegularFile? {
        tasks := tasks + [FileTask(Join(dirPath, es[j].name), es[j].content, dirId)];
      }
    }
    assert es[..|es|] == es;
  }

  /** The file table, the next File id and the scan sessions as the file pass changes them. */
  datatype FileState = FileState(files: map<FileId, FileRow>, nextFile: nat, scans: map<ScanId, ScanRow>)

  /** A task the loop processes: the `is_file()` re-check at line 217 still holds. */
  predicate Counted(t: FileTask)
  {
    !t.content.Vanished?
  }

  /**
   * Lines 219-251 for one file: unreadable files change nothing; an unchanged
   * file revalidates the newest row for its name in its Dir; otherwise a new
   * valid row is added that points back to that newest row, if any, and the
   * scan session joins the ORM session through the new row.
   */
  function FileStep(h: Hashers, st: FileState, t: FileTask, scan: ScanId): (r: FileState)
    requires scan in st.scans
    ensures scan in r.scans
  {
    match GetSizeAndHash(h, t.content)
    case None => st
    case Some((size, hash)) =>
      var existing := NewestBelow(st.files, t.dir, Name(t.path), st.nextFile);
      if existing.Some? && st.files[existing.value].hash == hash then
        st.(files := st.files[existing.value := st.files[existing.value].(isValid := true)])
      else
        FileState(
          st.files[st.nextFile := FileRow(t.dir, Name(t.path), size, hash, false, true, Some(scan), existing)],
          st.nextFile + 1,
          st.scans[scan := st.scans[scan].(attached := true)])
  }

  function FilePass(h: Hashers, st: FileState, ts: seq<FileTask>, scan: ScanId): (r: FileState)
    requires scan in st.scans
    ensures scan in r.scans
  {
    if ts == [] then st
    else FileStep(h, FilePass(h, st, ts[..|ts| - 1], scan), ts[|ts| - 1], scan)
  }

  /** The value `current_files_processed_ref[0]` reaches: tasks not skipped by the re-check. */
  function CountOf(ts: seq<FileTask>): (n: nat)
    ensures n <= |ts|
  {
    if ts == [] then 0 else CountOf(ts[..|ts| - 1]) + (if Counted(ts[|ts| - 1]) then 1 else 0)
  }

  /** The progress calls: the counter after each processed file, capped at the total. */
  function FileReports(count: nat, total: nat): seq<(nat, nat)>
  {
    if count == 0 then [] else FileReports(count - 1, total) + [(Min(count, total), total)]
  }

  /** The k-th progress call reports min(k + 1, total): never above the total, and rising by at most one. */
  lemma {:induction false} FileReportsSpec(count: nat, total: nat)
    ensures |FileReports(count, total)| == count
    ensures forall k :: 0 <= k < count ==> FileReports(count, total)[k] == (Min(k + 1, total), total)
  {
    if count > 0 {
      FileReportsSpec(count - 1, total);
    }
  }

  /**
   * The chunk commits of line 263, each as the number of tasks behind it: task
   * `i` was processed and `(i + 1) % chunk_size == 0`.
   */
  function ChunkCommits(ts: seq<FileTask>, chunkSize: nat): seq<nat>
    requires chunkSize > 0
  {
    if ts == [] then []
    else
      var i := |ts| - 1;
      ChunkCommits(ts[..i], chunkSize) + (if Counted(ts[i]) && (i + 1) % chunkSize == 0 then [i + 1] else [])
  }

  /**
   * Every commit of the file pass, as the number of tasks behind it; the
   * final commit of line 272 has all of them behind it.
   */
  function FileCommitPoints(ts: seq<FileTask>, chunkSize: nat): seq<nat>
    requires chunkSize > 0
  {
    ChunkCommits(ts, chunkSize) + (if CountOf(ts) % chunkSize != 0 || |ts| == 0 then [|ts|] else [])
  }

  /** What a commit makes durable, given the file state at that moment. */
  function Snapshot(dirs: map<DirId, DirRow>, st: FileState): Tables
  {
    Tables(dirs, st.files, Recorded(st.scans))
  }

  /** The session's file-pass view. */
  ghost function FState(db: Db): FileState
    reads db
  {
    FileState(db.files, db.nextFile, db.scans)
  }

  /** Lines 219-251 on the session. */
  method ProcessFile(db: Db, h: Hashers, task: FileTask, scan: ScanId)
    requires db.Valid() && task.dir in db.dirs && scan in db.scans
    modifies db
    ensures db.Valid() && FState(db) == FileStep(h, old(FState(db)), task, scan)
    ensures db.dirs == old(db.dirs) && db.nextDir == old(db.nextDir) && db.nextScan == old(db.nextScan)
    ensures db.durable == old(db.durable) && db.commits == old(db.commits)
  {
    var read := GetSizeAndHash(h, task.content);
    if read.None? {
      return;   // the OSError is logged
    }
    var (size, hashVal) := read.value;
    var existing := NewestBelow(db.files, task.dir, Name(task.path), db.nextFile);
    if existing.Some? && db.files[existing.value].hash == hashVal {
      var id := existing.value;
      db.PutFile(id, db.files[id].(isValid := true));
    } else {
      var _ := db.AddFile(FileRow(task.dir, Name(task.path), size, hashVal, false, true, Some(scan), existing));
    }
  }

  /**
   * One turn of the loop of lines 215-268, for task `i`: the re-check, the
   * file's row, the counter, the progress call and the chunk commit. `st0` is
   * the file state before the loop.
   */
  method FileLoopStep(
    db: Db, h: Hashers, tasks: seq<FileTask>, i: nat, totalFiles: nat, scan: ScanId, chunkSize: nat,
    processed: nat, reports: seq<(nat, nat)>, ghost st0: FileState)
    returns (processed': nat, reports': seq<(nat, nat)>, committed: bool)
    requires db.Valid() && scan in db.scans && scan in st0.scans && chunkSize > 0
    requires i < |tasks| && tasks[i].dir in db.dirs
    requires FState(db) == FilePass(h, st0, tasks[..i], scan)
    requires processed == CountOf(tasks[..i]) && reports == FileReports(processed, totalFiles)
    modifies db
    ensures db.Valid() && db.dirs == old(db.dirs) && db.nextDir == old(db.nextDir) && db.nextScan == old(db.nextScan)
    ensures scan in db.scans && FState(db) == FilePass(h, st0, tasks[..i + 1], scan)
    ensures processed' == CountOf(tasks[..i + 1]) && reports' == FileReports(processed', totalFiles)
    ensures committed == (Counted(tasks[i]) && (i + 1) % chunkSize == 0)
    ensures ChunkCommits(tasks[..i + 1], chunkSize) == ChunkCommits(tasks[..i], chunkSize) + (if committed then [i + 1] else [])
    ensures committed ==> db.durable == Snapshot(db.dirs, FilePass(h, st0, tasks[..i + 1], scan)) && db.commits == old(db.commits) + 1
    ensures !committed ==> db.durable == old(db.durable) && db.commits == old(db.commits)
  {
    assert tasks[..i + 1][..i] == tasks[..i];
    processed', reports', committed := processed, reports, false;
    var task := tasks[i];
    if task.content.Vanished? {
      return;   // `is_symlink() or not is_file()`: skipped without counting
    }
    ProcessFile(db, h, task, scan);
    processed' := processed + 1;
    reports' := reports + [(Min(processed', totalFiles), totalFiles)];
    if (i + 1) % chunkSize == 0 {
      db.Commit();
      committed := true;
    }
  }

  /**
   * The loop of lines 215-268 over the collected tasks: the session ends as
   * the pass over them leaves it, and the last chunk commit, if any, made
   * durable the pass over the tasks up to it.
   */
  method RunFileTasks(db: Db, h: Hashers, tasks: seq<FileTask>, totalFiles: nat, scan: ScanId, chunkSize: nat)
    returns (processed: nat, reports: seq<(nat, nat)>, commitsAt: seq<nat>)
    requires db.Valid() && scan in db.scans && chunkSize > 0
    requires forall k :: 0 <= k < |tasks| ==> tasks[k].dir in db.dirs
    modifies db
    ensures db.Valid() && db.dirs == old(db.dirs) && db.nextDir == old(db.nextDir) && db.nextScan == old(db.nextScan)
    ensures FState(db) == FilePass(h, old(FState(db)), tasks, scan)
    ensures processed == CountOf(tasks) && reports == FileReports(processed, totalFiles)
    ensures commitsAt == ChunkCommits(tasks, chunkSize) && db.commits == old(db.commits) + |commitsAt|
    ensures commitsAt == [] ==> db.durable == old(db.durable)
    ensures commitsAt != [] ==>
      (commitsAt[|commitsAt| - 1] <= |tasks|
       && db.durable == Snapshot(db.dirs, FilePass(h, old(FState(db)), tasks[..commitsAt[|commitsAt| - 1]], scan)))
  {
    ghost var st0 := FState(db);
    ghost var cover: nat := 0;
    processed, reports, commitsAt := 0, [], [];
    for i := 0 to |tasks|
      invariant db.Valid() && db.dirs == old(db.dirs) && db.nextDir == old(db.nextDir) && db.nextScan == old(db.nextScan)
      invariant scan in db.scans && scan in st0.scans
      invariant FState(db) == FilePass(h, st0, tasks[..i], scan)
      invariant processed == CountOf(tasks[..i]) && reports == FileReports(processed, totalFiles)
      invariant commitsAt == ChunkCommits(tasks[..i], chunkSize) && db.commits == old(db.commits) + |commitsAt|
      invariant cover <= i && (commitsAt == [] ==> cover == 0) && (commitsAt != [] ==> commitsAt[|commitsAt| - 1] == cover)
      invariant commitsAt == [] ==> db.durable == old(db.durable)
      invariant commitsAt != [] ==> db.durable == Snapshot(db.dirs, FilePass(h, st0, tasks[..cover], scan))
    {
      var committed;
      processed, reports, committed := FileLoopStep(db, h, tasks, i, totalFiles, scan, chunkSize, processed, reports, st0);
      if committed {
        commitsAt := commitsAt + [i + 1];
        cover := i + 1;
      }
    }
    assert tasks[..|tasks|] == tasks;
  }

  /** Lines 270-273: the final commit, when the counter is not a multiple of the chunk size or there was nothing to do. */
  method FinishFilePass(
    db: Db, h: Hashers, tasks: seq<FileTask>, scan: ScanId, chunkSize: nat,
    processed: nat, chunkCommits: seq<nat>, ghost st0: FileState)
    returns (commitsAt: seq<nat>)
    requires db.Valid() && scan in st0.scans && chunkSize > 0
    requires FState(db) == FilePass(h, st0, tasks, scan) && processed == CountOf(tasks)
    requires chunkCommits == ChunkCommits(tasks, chunkSize)
    requires chunkCommits != [] ==>
      (chunkCommits[|chunkCommits| - 1] <= |tasks|
       && db.durable == Snapshot(db.dirs, FilePass(h, st0, tasks[..chunkCommits[|chunkCommits| - 1]], scan)))
    modifies db
    ensures db.Valid() && db.dirs == old(db.dirs) && db.nextDir == old(db.nextDir) && db.nextScan == old(db.nextScan)
    ensures FState(db) == old(FState(db))
    ensures commitsAt == FileCommitPoints(tasks, chunkSize) && db.commits == old(db.commits) + |commitsAt| - |chunkCommits|
    ensures commitsAt == chunkCommits ==> db.durable == old(db.durable)
    ensures commitsAt != [] ==>
      (commitsAt[|commitsAt| - 1] <= |tasks|
       && db.durable == Snapshot(db.dirs, FilePass(h, st0, tasks[..commitsAt[|commitsAt| - 1]], scan)))
  {
    commitsAt := chunkCommits;
    if processed % chunkSize != 0 || |tasks| == 0 {
      db.Commit();
      assert tasks[..|tasks|] == tasks;
      commitsAt := commitsAt + [|tasks|];
    }
  }

  /**
   * `insert_files_with_progress`: returns the counter, the progress calls and
   * the commit points. `chunk_size` must be positive (zero raises
   * ZeroDivisionError at the first `%`).
   */
  method InsertFilesWithProgress(
    db: Db, h: Hashers, root: Node, rootPath: Path, lookup: seq<(Path, DirId)>,
    totalFiles: nat, scan: ScanId, chunkSize: nat)
    returns (processed: nat, reports: seq<(nat, nat)>, commitsAt: seq<nat>)
    requires db.Valid() && scan in db.scans && chunkSize > 0
    requires forall k :: 0 <= k < |lookup| ==> lookup[k].1 in db.dirs
    modifies db
    ensures db.Valid() && db.dirs == old(db.dirs) && db.nextDir == old(db.nextDir) && db.nextScan == old(db.nextScan)
    ensures var tasks := TasksOf(root, rootPath, lookup);
      FState(db) == FilePass(h, old(FState(db)), tasks, scan)
      && processed == CountOf(tasks)
      && reports == FileReports(processed, totalFiles)
      && commitsAt == FileCommitPoints(tasks, chunkSize)
      && db.commits == old(db.commits) + |commitsAt|
      && (commitsAt == [] ==> db.durable == old(db.durable))
      && (commitsAt != [] ==>
            (commitsAt[|commitsAt| - 1] <= |tasks|
             && db.durable == Snapshot(db.dirs, FilePass(h, old(FState(db)), tasks[..commitsAt[|commitsAt| - 1]], scan))))
  {
    var tasks := CollectFileTasks(root, rootPath, lookup);
    TasksInDirs(root, rootPath, lookup, db.dirs.Keys);
    ghost var st0 := FState(db);
    var chunkCommits;
    processed, reports, chunkCommits := RunFileTasks(db, h, tasks, totalFiles, scan, chunkSize);
    commitsAt := FinishFilePass(db, h, tasks, scan, chunkSize, processed, chunkCommits, st0);
  }

  /** A listing's tasks all belong to its Dir and lie directly inside its path. */
  lemma {:induction false} TasksInShape(es: seq<Node>, path: Path, dir: DirId)
    ensures forall k :: 0 <= k < |TasksIn(es, path, dir)| ==>
      TasksIn(es, path, dir)[k].dir == dir && |TasksIn(es, path, dir)[k].path| == |path| + 1
      && TasksIn(es, path, dir)[k].path[..|path|] == path
  {
    if es != [] {
      TasksInShape(es[..|es| - 1], path, dir);
    }
  }

  /** Every task's Dir is one of the lookup's. */
  lemma {:induction false} TasksInDirs(root: Node, rootPath: Path, lookup: seq<(Path, DirId)>, dirs: set<DirId>)
    requires forall k :: 0 <= k < |lookup| ==> lookup[k].1 in dirs
    ensures forall k :: 0 <= k < |TasksOf(root, rootPath, lookup)| ==> TasksOf(root, rootPath, lookup)[k].dir in dirs
  {
    if lookup != [] {
      var (p, d) := lookup[|lookup| - 1];
      TasksInDirs(root, rootPath, lookup[..|lookup| - 1], dirs);
      match ListDirAt(root, rootPath, p)
      case None =>
      case Some(es) => TasksInShape(es, p, d);
    }
  }

  // ---------------------------------------------------------------------------
  // What the file pass does to the file table

  /** The pair `ux_file_dir_name` is over. */
  function KeyOf(t: FileTask): (DirId, string)
  {
    (t.dir, Name(t.path))
  }

  /** Every File id in use is below the counter. */
  predicate KeysFit(st: FileState)
  {
    forall id :: id in st.files ==> id < st.nextFile
  }

  /**
   * What the pass may do to the file table: an existing row stays, at most
   * turned valid; any other row is new, above the old counter, valid and tied
   * to the scan session.
   */
  predicate Evolves(a: FileState, b: FileState, scan: ScanId)
  {
    a.nextFile <= b.nextFile
    && (forall id :: id in a.files ==> id in b.files && (b.files[id] == a.files[id] || b.files[id] == a.files[id].(isValid := true)))
    && (forall id :: id in b.files && id !in a.files ==>
          a.nextFile <= id < b.nextFile && b.files[id].isValid && b.files[id].session == Some(scan))
  }

  /** A readable task's file has a valid row in its Dir, under its name, with its content hash. */
  predicate Covered(h: Hashers, files: map<FileId, FileRow>, t: FileTask)
  {
    t.content.Readable? ==>
      exists id :: id in files && files[id].dir == t.dir && files[id].name == Name(t.path)
        && files[id].hash == h.contentHash(t.content.data) && files[id].isValid
  }

  /** Each row the pass added points back to the newest older row for its Dir and name. */
  predicate AncestorsLinked(a: FileState, b: FileState)
  {
    forall id :: id in b.files && id !in a.files ==>
      b.files[id].ancestor == NewestBelow(b.files, b.files[id].dir, b.files[id].name, id)
  }

  lemma EvolvesTrans(a: FileState, b: FileState, c: FileState, scan: ScanId)
    requires Evolves(a, b, scan) && Evolves(b, c, scan)
    ensures Evolves(a, c, scan)
  {
    forall id | id in c.files && id !in a.files
      ensures a.nextFile <= id < c.nextFile && c.files[id].isValid && c.files[id].session == Some(scan)
    {
      if id in b.files {
        assert c.files[id] == b.files[id] || c.files[id] == b.files[id].(isValid := true);
      }
    }
  }

  lemma EvolvesCovered(h: Hashers, a: FileState, b: FileState, t: FileTask, scan: ScanId)
    requires Evolves(a, b, scan) && Covered(h, a.files, t)
    ensures Covered(h, b.files, t)
  {
    if t.content.Readable? {
      var id :| id in a.files && a.files[id].dir == t.dir && a.files[id].name == Name(t.path)
        && a.files[id].hash == h.contentHash(t.content.data) && a.files[id].isValid;
      assert id in b.files;
    }
  }

  /** The newest row below `bound` depends only on which ids below it exist and their Dir and name. */
  lemma {:induction false} NewestBelowSameKeys(f1: map<FileId, FileRow>, f2: map<FileId, FileRow>, dir: DirId, name: string, bound: nat)
    requires forall id :: id < bound ==> (id in f1 <==> id in f2)
    requires forall id :: id < bound && id in f1 ==> f1[id].dir == f2[id].dir && f1[id].name == f2[id].name
    ensures NewestBelow(f1, dir, name, bound) == NewestBelow(f2, dir, name, bound)
  {
    if bound > 0 {
      NewestBelowSameKeys(f1, f2, dir, name, bound - 1);
    }
  }

  /** One task: the table evolves, the task's file is covered, a new row links to its predecessor. */
  lemma FileStepEvolves(h: Hashers, st: FileState, t: FileTask, scan: ScanId)
    requires scan in st.scans && KeysFit(st)
    ensures var r := FileStep(h, st, t, scan);
      KeysFit(r) && Evolves(st, r, scan) && Covered(h, r.files, t) && AncestorsLinked(st, r)
  {
    var r := FileStep(h, st, t, scan);
    if t.content.Readable? {
      var hash := h.contentHash(t.content.data);
      var existing := NewestBelow(st.files, t.dir, Name(t.path), st.nextFile);
      if existing.Some? && st.files[existing.value].hash == hash {
        assert r.files[existing.value].hash == hash;
      } else {
        var n := st.nextFile;
        assert r.files[n].hash == hash;
        NewestBelowSameKeys(st.files, r.files, t.dir, Name(t.path), n);
      }
    }
  }

  /** AncestorsLinked survives a later step: rows below a linked row keep their Dir and name. */
  lemma AncestorsLinkedStep(h: Hashers, a: FileState, st: FileState, t: FileTask, scan: ScanId)
    requires scan in st.scans && KeysFit(st) && Evolves(a, st, scan) && AncestorsLinked(a, st)
    ensures AncestorsLinked(a, FileStep(h, st, t, scan))
  {
    var r := FileStep(h, st, t, scan);
    FileStepEvolves(h, st, t, scan);
    forall id | id in r.files && id !in a.files
      ensures r.files[id].ancestor == NewestBelow(r.files, r.files[id].dir, r.files[id].name, id)
    {
      if id in st.files {
        assert r.files[id].ancestor == st.files[id].ancestor && r.files[id].dir == st.files[id].dir
          && r.files[id].name == st.files[id].name;
        NewestBelowSameKeys(st.files, r.files, st.files[id].dir, st.files[id].name, id);
      }
    }
  }

  /**
   * The whole pass: old rows are kept and at most revalidated, new rows are
   * valid versions of this scan linked to their predecessor, and every file
   * that could be read ends with a valid row holding its hash.
   */
  lemma {:induction false} FilePassEvolves(h: Hashers, st: FileState, ts: seq<FileTask>, scan: ScanId)
    requires scan in st.scans && KeysFit(st)
    ensures var r := FilePass(h, st, ts, scan);
      KeysFit(r) && Evolves(st, r, scan) && AncestorsLinked(st, r)
      && forall k :: 0 <= k < |ts| ==> Covered(h, r.files, ts[k])
  {
    if ts != [] {
      var init := ts[..|ts| - 1];
      var mid := FilePass(h, st, init, scan);
      FilePassEvolves(h, st, init, scan);
      var r := FileStep(h, mid, ts[|ts| - 1], scan);
      FileStepEvolves(h, mid, ts[|ts| - 1], scan);
      EvolvesTrans(st, mid, r, scan);
      AncestorsLinkedStep(h, st, mid, ts[|ts| - 1], scan);
      forall k | 0 <= k < |ts|
        ensures Covered(h, r.files, ts[k])
      {
        if k < |ts| - 1 {
          assert ts[k] == init[k];
          EvolvesCovered(h, mid, r, ts[k], scan);
        }
      }
    }
  }

  // ---------------------------------------------------------------------------
  // Change detection

  /**
   * Lines 222-249 for a file that could be read. When the newest row for its
   * Dir and name holds the hash of the bytes just read, that row is only made
   * valid again: no row is added and the scan session stays out of the ORM
   * session. Otherwise (no row yet, or other bytes) exactly one row is added
   * under the counter, every old row is kept as it was, and the new row is a
   * valid version of this scan pointing back to the newest older row.
   */
  lemma FileStepDetectsChange(h: Hashers, st: FileState, t: FileTask, scan: ScanId)
    requires scan in st.scans && KeysFit(st) && t.content.Readable?
    ensures var r := FileStep(h, st, t, scan);
      var e := NewestBelow(st.files, t.dir, Name(t.path), st.nextFile);
      if e.Some? && st.files[e.value].hash == h.contentHash(t.content.data) then
        r.nextFile == st.nextFile && r.scans == st.scans && r.files == st.files[e.value := st.files[e.value].(isValid := true)]
      else
        r.nextFile == st.nextFile + 1 && r.files.Keys == st.files.Keys + {st.nextFile}
        && (forall id :: id in st.files ==> r.files[id] == st.files[id])
        && r.files[st.nextFile].dir == t.dir && r.files[st.nextFile].name == Name(t.path)
        && r.files[st.nextFile].size == |t.content.data| && r.files[st.nextFile].hash == h.contentHash(t.content.data)
        && r.files[st.nextFile].isValid && r.files[st.nextFile].session == Some(scan)
        && r.files[st.nextFile].ancestor == NewestBelow(r.files, t.dir, Name(t.path), st.nextFile)
        && r.scans == st.scans[scan := st.scans[scan].(attached := true)]
  {
    var r := FileStep(h, st, t, scan);
    var e := NewestBelow(st.files, t.dir, Name(t.path), st.nextFile);
    if !(e.Some? && st.files[e.value].hash == h.contentHash(t.content.data)) {
      NewestBelowSameKeys(st.files, r.files, t.dir, Name(t.path), st.nextFile);
    }
  }

  /** The task's bytes hash like the newest row for its Dir and name below `bound`: the file is unchanged. */
  predicate Unchanged(h: Hashers, files: map<FileId, FileRow>, bound: nat, t: FileTask)
  {
    t.content.Readable? ==>
      var e := NewestBelow(files, t.dir, Name(t.path), bound);
      e.Some? && files[e.value].hash == h.contentHash(t.content.data)
  }

  /** The file is unchanged and the newest row for its pair is valid. */
  predicate Current(h: Hashers, files: map<FileId, FileRow>, bound: nat, t: FileTask)
  {
    Unchanged(h, files, bound, t)
    && (t.content.Readable? ==> files[NewestBelow(files, t.dir, Name(t.path), bound).value].isValid)
  }

  /** Dropping rows other than the newest one for a pair does not change which row is the newest. */
  lemma {:induction false} NewestBelowSubset(f1: map<FileId, FileRow>, f2: map<FileId, FileRow>, dir: DirId, name: string, bound: nat)
    requires f2.Keys <= f1.Keys && forall id :: id in f2 ==> f2[id].dir == f1[id].dir && f2[id].name == f1[id].name
    requires NewestBelow(f1, dir, name, bound).Some? && NewestBelow(f1, dir, name, bound).value in f2
    ensures NewestBelow(f2, dir, name, bound) == NewestBelow(f1, dir, name, bound)
  {
    if bound - 1 != NewestBelow(f1, dir, name, bound).value {
      NewestBelowSubset(f1, f2, dir, name, bound - 1);
    }
  }

  /**
   * A pass over files that are all unchanged adds no row and leaves the scan
   * session as it was: it only makes rows valid again.
   */
  lemma {:induction false} FilePassUnchanged(h: Hashers, st: FileState, ts: seq<FileTask>, scan: ScanId)
    requires scan in st.scans && KeysFit(st)
    requires forall k :: 0 <= k < |ts| ==> Unchanged(h, st.files, st.nextFile, ts[k])
    ensures var r := FilePass(h, st, ts, scan);
      r.nextFile == st.nextFile && r.scans == st.scans && r.files.Keys == st.files.Keys
      && forall id :: id in st.files ==> r.files[id] == st.files[id] || r.files[id] == st.files[id].(isValid := true)
  {
    if ts != [] {
      var init := ts[..|ts| - 1];
      var t := ts[|ts| - 1];
      assert forall k :: 0 <= k < |init| ==> init[k] == ts[k];
      FilePassUnchanged(h, st, init, scan);
      var mid := FilePass(h, st, init, scan);
      NewestBelowSameKeys(st.files, mid.files, t.dir, Name(t.path), st.nextFile);
      if t.content.Readable? {
        FileStepDetectsChange(h, mid, t, scan);
      }
    }
  }

  /** After a step, the newest row for its file's pair is valid and holds the file's hash. */
  lemma FileStepLeavesNewest(h: Hashers, st: FileState, t: FileTask, scan: ScanId)
    requires scan in st.scans && KeysFit(st)
    ensures var r := FileStep(h, st, t, scan);
      Current(h, r.files, r.nextFile, t)
  {
    if t.content.Readable? {
      var r := FileStep(h, st, t, scan);
      FileStepDetectsChange(h, st, t, scan);
      NewestBelowSameKeys(st.files, r.files, t.dir, Name(t.path), st.nextFile);
    }
  }

  /** A step for another pair leaves a current file current. */
  lemma FileStepKeepsCurrent(h: Hashers, st: FileState, t: FileTask, scan: ScanId, u: FileTask)
    requires scan in st.scans && KeysFit(st) && KeyOf(u) != KeyOf(t) && Current(h, st.files, st.nextFile, u)
    ensures var r := FileStep(h, st, t, scan);
      Current(h, r.files, r.nextFile, u)
  {
    var r := FileStep(h, st, t, scan);
    NewestBelowSameKeys(st.files, r.files, u.dir, Name(u.path), st.nextFile);
    if t.content.Readable? {
      FileStepDetectsChange(h, st, t, scan);
    }
  }

  /** After a pass over distinct pairs, the newest row for each file read is valid and holds the file's hash. */
  lemma {:induction false} FilePassLeavesNewest(h: Hashers, st: FileState, ts: seq<FileTask>, scan: ScanId)
    requires scan in st.scans && KeysFit(st) && KeysDistinct(ts)
    ensures var r := FilePass(h, st, ts, scan);
      forall k :: 0 <= k < |ts| ==> Current(h, r.files, r.nextFile, ts[k])
  {
    if ts != [] {
      var init := ts[..|ts| - 1];
      var t := ts[|ts| - 1];
      assert forall k :: 0 <= k < |init| ==> init[k] == ts[k];
      FilePassLeavesNewest(h, st, init, scan);
      FilePassEvolves(h, st, init, scan);
      var mid := FilePass(h, st, init, scan);
      FileStepLeavesNewest(h, mid, t, scan);
      forall k | 0 <= k < |init|
        ensures Current(h, FileStep(h, mid, t, scan).files, FileStep(h, mid, t, scan).nextFile, ts[k])
      {
        FileStepKeepsCurrent(h, mid, t, scan, ts[k]);
      }
    }
  }

  /**
   * A rescan of unchanged files: after a pass over distinct pairs, the sweep
   * of the invalid rows and the reset of every valid flag, a second pass over
   * the same tasks adds no row and leaves every scan session, the new one
   * included, as it was.
   */
  lemma FileRescanAddsNothing(h: Hashers, st: FileState, ts: seq<FileTask>, scan: ScanId, st2: FileState, scan2: ScanId)
    requires scan in st.scans && KeysFit(st) && KeysDistinct(ts) && scan2 in st2.scans
    requires var r := FilePass(h, st, ts, scan);
      st2.nextFile == r.nextFile && st2.files.Keys == ValidFiles(r.files).Keys
      && forall id :: id in st2.files ==> st2.files[id] == r.files[id].(isValid := false)
    ensures var r2 := FilePass(h, st2, ts, scan2);
      r2.nextFile == st2.nextFile && r2.files.Keys == st2.files.Keys && r2.scans == st2.scans
  {
    var r := FilePass(h, st, ts, scan);
    FilePassEvolves(h, st, ts, scan);
    FilePassLeavesNewest(h, st, ts, scan);
    forall k | 0 <= k < |ts|
      ensures Unchanged(h, st2.files, st2.nextFile, ts[k])
    {
      if ts[k].content.Readable? {
        NewestBelowSubset(r.files, st2.files, ts[k].dir, Name(ts[k].path), r.nextFile);
      }
    }
    FilePassUnchanged(h, st2, ts, scan2);
  }

  // ---------------------------------------------------------------------------
  // Valid rows stay unique per Dir and name

  /** One file per Dir and name among the tasks. */
  predicate KeysDistinct(ts: seq<FileTask>)
  {
    forall i, j :: 0 <= i < j < |ts| ==> KeyOf(ts[i]) != KeyOf(ts[j])
  }

  /** No valid row for the pair. */
  predicate NoValidRowFor(files: map<FileId, FileRow>, key: (DirId, string))
  {
    forall id :: id in files && files[id].isValid ==> (files[id].dir, files[id].name) != key
  }

  /** Tasks for other pairs never make a row for `key` valid. */
  lemma {:induction false} FilePassKeepsNoValid(h: Hashers, st: FileState, ts: seq<FileTask>, scan: ScanId, key: (DirId, string))
    requires scan in st.scans && NoValidRowFor(st.files, key)
    requires forall k :: 0 <= k < |ts| ==> KeyOf(ts[k]) != key
    ensures NoValidRowFor(FilePass(h, st, ts, scan).files, key)
  {
    if ts != [] {
      var init := ts[..|ts| - 1];
      FilePassKeepsNoValid(h, st, init, scan, key);
    }
  }

  /** A task whose pair has no valid row leaves exactly one valid row per pair. */
  lemma FileStepValidUnique(h: Hashers, st: FileState, t: FileTask, scan: ScanId)
    requires scan in st.scans && KeysFit(st) && ValidFilesUnique(st.files) && NoValidRowFor(st.files, KeyOf(t))
    ensures ValidFilesUnique(FileStep(h, st, t, scan).files)
  {
  }

  /**
   * The pass keeps valid rows unique per Dir and name when, as after
   * `reset_all_valid_flags`, none of the tasks' pairs has a valid row to
   * begin with and no pair is listed twice.
   */
  lemma {:induction false} FilePassValidUnique(h: Hashers, st: FileState, ts: seq<FileTask>, scan: ScanId)
    requires scan in st.scans && KeysFit(st) && ValidFilesUnique(st.files) && KeysDistinct(ts)
    requires forall k :: 0 <= k < |ts| ==> NoValidRowFor(st.files, KeyOf(ts[k]))
    ensures ValidFilesUnique(FilePass(h, st, ts, scan).files)
  {
    if ts != [] {
      var init := ts[..|ts| - 1];
      var t := ts[|ts| - 1];
      FilePassValidUnique(h, st, init, scan);
      FilePassKeepsNoValid(h, st, init, scan, KeyOf(t));
      FilePassEvolves(h, st, init, scan);
      FileStepValidUnique(h, FilePass(h, st, init, scan), t, scan);
    }
  }

  // ---------------------------------------------------------------------------
  // The unique index on (dir_id, name) and the versioning insert

  /**
   * As written, a changed file gets a second row with the same Dir and name
   * while the old row is still there, which `ux_file_dir_name` refuses: here
   * one row for "a" in Dir 1, and the file now holding other bytes.
   */
  lemma ChangedFileBreaksFileIndex()
    ensures var h := Hashers(s => 0, d => if d == [] then seq(16, k => 0) else seq(16, k => 1));
      var row := FileRow(1, "a", 0, seq(16, k => 0));
      var st := FileState(map[1 := row], 2, map[1 := ScanRow(None, false)]);
      var t := FileTask(["a"], Readable([7]), 1);
      FileIndexUnique(st.files) && !FileIndexUnique(FileStep(h, st, t, 1).files)
  {
    var h := Hashers(s => 0, d => if d == [] then seq(16, k => 0) else seq(16, k => 1));
    var row := FileRow(1, "a", 0, seq(16, k => 0));
    var st := FileState(map[1 := row], 2, map[1 := ScanRow(None, false)]);
    var t := FileTask(["a"], Readable([7]), 1);
    assert NewestBelow(st.files, 1, "a", 2) == Some(1);
    assert h.contentHash([7]) != row.hash by {
      assert h.contentHash([7])[0] == 1;
    }
    var r := FileStep(h, st, t, 1);
    assert 1 in r.files && 2 in r.files && r.files[1].dir == r.files[2].dir && r.files[1].name == r.files[2].name;
  }

  /**
   * With the index over valid rows only, the whole pass keeps the File table
   * consistent, and the rows `delete_invalid_entries` leaves satisfy the
   * index over all rows.
   */
  lemma FilePassThenSweepUnique(h: Hashers, st: FileState, ts: seq<FileTask>, scan: ScanId)
    requires scan in st.scans && KeysFit(st) && KeysDistinct(ts)
    requires forall id :: id in st.files ==> !st.files[id].isValid
    ensures FileIndexUnique(ValidFiles(FilePass(h, st, ts, scan).files))
  {
    forall k | 0 <= k < |ts|
      ensures NoValidRowFor(st.files, KeyOf(ts[k]))
    {
    }
    FilePassValidUnique(h, st, ts, scan);
    SweptIndexUnique(FilePass(h, st, ts, scan).files);
  }

  // ---------------------------------------------------------------------------
  // No pair is listed twice

  /** Each task of a listing is named after one of the listing's entries. */
  lemma {:induction false} TasksInNames(es: seq<Node>, path: Path, dir: DirId)
    ensures forall k :: 0 <= k < |TasksIn(es, path, dir)| ==> Name(TasksIn(es, path, dir)[k].path) in EntryNames(es)
  {
    if es != [] {
      var init := es[..|es| - 1];
      TasksInNames(init, path, dir);
      var r := TasksIn(es, path, dir);
      forall k | 0 <= k < |r|
        ensures Name(r[k].path) in EntryNames(es)
      {
        if k < |TasksIn(init, path, dir)| {
          var j :| 0 <= j < |init| && EntryNames(init)[j] == Name(r[k].path);
          assert EntryNames(es)[j] == Name(r[k].path);
        } else {
          assert EntryNames(es)[|es| - 1] == Name(r[k].path);
        }
      }
    }
  }

  /** A listing that names each entry once gives each of its tasks its own name. */
  lemma {:induction false} TasksInKeysDistinct(es: seq<Node>, path: Path, dir: DirId)
    requires NamesUnique(es)
    ensures KeysDistinct(TasksIn(es, path, dir))
  {
    if es != [] {
      var init, last := es[..|es| - 1], es[|es| - 1];
      var head := TasksIn(init, path, dir);
      TasksInKeysDistinct(init, path, dir);
      TasksInNames(init, path, dir);
      forall k | 0 <= k < |head|
        ensures Name(head[k].path) != last.name
      {
        var j :| 0 <= j < |init| && EntryNames(init)[j] == Name(head[k].path);
        assert es[j] == init[j];
      }
    }
  }

  /** The lookup names each Dir once. */
  predicate IdsDistinct(lookup: seq<(Path, DirId)>)
  {
    forall i, j :: 0 <= i < j < |lookup| ==> lookup[i].1 != lookup[j].1
  }

  /**
   * With each Dir looked up once and a well-formed tree, no two tasks share a
   * Dir and a name: tasks of different lookup entries differ in their Dir,
   * tasks of one listing in their name.
   */
  lemma {:induction false} TasksOfKeysDistinct(root: Node, rootPath: Path, lookup: seq<(Path, DirId)>)
    requires WellFormed(root) && IdsDistinct(lookup)
    ensures KeysDistinct(TasksOf(root, rootPath, lookup))
  {
    if lookup != [] {
      var init := lookup[..|lookup| - 1];
      var (p, d) := lookup[|lookup| - 1];
      var ids := set k | 0 <= k < |init| :: init[k].1;
      TasksOfKeysDistinct(root, rootPath, init);
      TasksInDirs(root, rootPath, init, ids);
      assert d !in ids;
      match ListDirAt(root, rootPath, p)
      case None =>
        assert TasksOf(root, rootPath, lookup) == TasksOf(root, rootPath, init) + [];
      case Some(es) =>
        ListDirAtNamesUnique(root, rootPath, p);
        TasksInKeysDistinct(es, p, d);
        TasksInShape(es, p, d);
        KeysDistinctConcat(TasksOf(root, rootPath, init), TasksIn(es, p, d));
    }
  }

  lemma KeysDistinctConcat(a: seq<FileTask>, b: seq<FileTask>)
    requires KeysDistinct(a) && KeysDistinct(b)
    requires forall i, j :: 0 <= i < |a| && 0 <= j < |b| ==> a[i].dir != b[j].dir
    ensures KeysDistinct(a + b)
  {
    forall i, j | 0 <= i < j < |a + b|
      ensures KeyOf((a + b)[i]) != KeyOf((a + b)[j])
    {
      if j < |a| {
      } else if i >= |a| {
        assert (a + b)[i] == b[i - |a|] && (a + b)[j] == b[j - |a|];
      } else {
        assert (a + b)[j] == b[j - |a|];
      }
    }
  }

  /** No two of the paths hash alike: `xxh32` has no collision among them. */
  predicate HashesApart(h: Hashers, ps: seq<Path>)
  {
    forall i, j :: 0 <= i < |ps| && 0 <= j < |ps| && ps[i] != ps[j] ==> ComputeFullPathHash(h, ps[i]) != ComputeFullPathHash(h, ps[j])
  }

  /** A sound lookup of distinct paths whose hashes do not collide holds each Dir once. */
  lemma LookupIdsDistinct(h: Hashers, st: WalkState)
    requires LookupSound(h, st) && Distinct(LookupPaths(st.lookup)) && HashesApart(h, LookupPaths(st.lookup))
    ensures IdsDistinct(st.lookup)
  {
    var ps := LookupPaths(st.lookup);
    forall i, j | 0 <= i < j < |st.lookup|
      ensures st.lookup[i].1 != st.lookup[j].1
    {
      assert ps[i] != ps[j];
    }
  }

  // ---------------------------------------------------------------------------
  // Commit points

  /** The chunk commits come in increasing order, one after each processed task whose number is a multiple of the chunk size. */
  lemma {:induction false} ChunkCommitsSpec(ts: seq<FileTask>, chunkSize: nat)
    requires chunkSize > 0
    ensures forall x :: x in ChunkCommits(ts, chunkSize) <==> 1 <= x <= |ts| && Counted(ts[x - 1]) && x % chunkSize == 0
    ensures forall i, j :: 0 <= i < j < |ChunkCommits(ts, chunkSize)| ==> ChunkCommits(ts, chunkSize)[i] < ChunkCommits(ts, chunkSize)[j]
  {
    if ts != [] {
      var init := ts[..|ts| - 1];
      var c0 := ChunkCommits(init, chunkSize);
      var e := if Counted(ts[|ts| - 1]) && |ts| % chunkSize == 0 then [|ts|] else [];
      var c := ChunkCommits(ts, chunkSize);
      assert c == c0 + e;
      ChunkCommitsSpec(init, chunkSize);
      forall x
        ensures x in c <==> 1 <= x <= |ts| && Counted(ts[x - 1]) && x % chunkSize == 0
      {
        assert x in c <==> x in c0 || x in e;
        if 1 <= x <= |init| {
          assert ts[x - 1] == init[x - 1];
        }
      }
      forall i, j | 0 <= i < j < |c|
        ensures c[i] < c[j]
      {
        if j < |c0| {
          assert c[i] == c0[i] && c[j] == c0[j];
        } else {
          assert c[i] == c0[i] && c0[i] in c0;
        }
      }
    }
  }

  /**
   * As written, the final commit tests the counter while the chunk commits
   * test the task index, so a file can be left after every commit: with a
   * chunk size of 2 and a first task that vanished, the third task is
   * processed, the second task's commit is the last one, and the counter (2)
   * is a multiple of 2, so no final commit follows.
   */
  lemma LastFileLeftUncommitted()
    ensures var ts := [FileTask(["v"], Vanished, 1), FileTask(["a"], Readable([]), 1), FileTask(["b"], Readable([]), 1)];
      Counted(ts[2]) && FileCommitPoints(ts, 2) == [2]
  {
    var ts := [FileTask(["v"], Vanished, 1), FileTask(["a"], Readable([]), 1), FileTask(["b"], Readable([]), 1)];
    assert ts[..2][..1] == ts[..1];
    assert ts[..1][..0] == [];
    assert CountOf(ts[..1]) == 0;
    assert CountOf(ts[..2]) == 1;
    assert ChunkCommits(ts[..1], 2) == [];
    assert ChunkCommits(ts[..2], 2) == [2];
  }

  // ---------------------------------------------------------------------------
  // The scan session and the root Dir

  /**
   * The file pass ties the scan session into the ORM session exactly when it
   * adds a row (the File's `session` relationship cascades); it touches no
   * other session and no count.
   */
  lemma {:induction false} FilePassAttached(h: Hashers, st: FileState, ts: seq<FileTask>, scan: ScanId)
    requires scan in st.scans
    ensures var r := FilePass(h, st, ts, scan);
      st.nextFile <= r.nextFile
      && (r.scans[scan].attached <==> st.scans[scan].attached || r.nextFile > st.nextFile)
      && r.scans[scan].changedFiles == st.scans[scan].changedFiles
      && r.scans.Keys == st.scans.Keys
      && (forall id :: id in st.scans && id != scan ==> r.scans[id] == st.scans[id])
  {
    if ts != [] {
      FilePassAttached(h, st, ts[..|ts| - 1], scan);
    }
  }

  /**
   * The scan root's Dir is added with only the root's last segment as its
   * name and no parent, so its `full_path` is "/<name>" and not the path the
   * scan started from (unless that path has a single segment).
   */
  lemma RootRecordFullPath(h: Hashers, st: WalkState, rootPath: Path)
    requires Fits(st) && ValidPath(rootPath) && rootPath != []
    requires forall id :: id in st.dirs ==> st.dirs[id].fullPathHash != ComputeFullPathHash(h, rootPath)
    ensures var r := Record(h, st, rootPath, None);
      r.Some? && ChainEnds(r.value.0.dirs, r.value.1)
      && FullPath(r.value.0.dirs, r.value.1) == [Name(rootPath)]
      && (|rootPath| > 1 ==> FullPath(r.value.0.dirs, r.value.1) != rootPath)
  {
    var hash := ComputeFullPathHash(h, rootPath);
    NoDirWithHash(st.dirs, hash, st.nextDir);
    var (st1, id) := Record(h, st, rootPath, None).value;
    assert st1.dirs[id] == DirRow(Name(rootPath), hash, None, true);
    assert ParentOf(st1.dirs, id) == None;
    assert ChainWithin(st1.dirs, id, 1) == Some([id]);
    ChainMoreFuel(st1.dirs, id, 1, |st1.dirs|);
    assert NamesOf(st1.dirs, [id]) == [Name(rootPath)];
    assert Reverse([Name(rootPath)]) == [Name(rootPath)];
    assert IsSegment(rootPath[|rootPath| - 1]);
  }

  /** The lookup by hash finds nothing when no Dir carries the hash. */
  lemma {:induction false} NoDirWithHash(dirs: map<DirId, DirRow>, hash: U32, bound: nat)
    requires forall id :: id in dirs ==> dirs[id].fullPathHash != hash
    ensures DirsWithHashBelow(dirs, hash, bound) == []
  {
    if bound > 0 {
      NoDirWithHash(dirs, hash, bound - 1);
    }
  }
}
