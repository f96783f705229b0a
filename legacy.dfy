/**
 * The earlier indexer (`blustash`), which does not reconcile: every scan walks
 * the tree, inserts a fresh Dir for every directory it reaches and a fresh
 * File for every regular file it can read, and commits once. Its tables lack
 * the `is_valid`, `is_safed` and version columns; here its rows are `Store`
 * rows whose extra columns keep their defaults, and its `Dir.full_path`,
 * `compute_full_path_hash`, `set_full_path_hash` and `File.path` are the
 * `Store` ones, which they match line for line.
 */
module Legacy {
  import opened Base
  import opened Paths
  import opened FsTree
  import opened Store
  import Sync

  // ---------------------------------------------------------------------------
  // The Dir pass: insert_dirs and walk_dirs

  /** The Dir table and the next Dir id, as the Dir pass changes them. */
  datatype DirRows = DirRows(dirs: map<DirId, DirRow>, nextDir: nat)

  /** The Dir the walk adds for `path`: its last segment, the hash of the path, the caller's Dir. */
  function NewDir(h: Hashers, path: Path, parent: Option<DirId>): DirRow
  {
    DirRow(Name(path), ComputeFullPathHash(h, path), parent)
  }

  /**
   * The rows `insert_dirs(path, session, parent)` and `walk_dirs(path, parent)`
   * add: nothing for a symbolic link; otherwise a new Dir for `path`, then the
   * same for every real subdirectory of its listing. A listing that fails adds
   * nothing more and keeps the Dir.
   */
  function Insert(h: Hashers, st: DirRows, n: Node, path: Path, parent: Option<DirId>): DirRows
    decreases n
  {
    if n.Symlink? then st
    else
      var id := st.nextDir;
      var st1 := DirRows(st.dirs[id := NewDir(h, path, parent)], id + 1);
      if n.Directory? && n.listable then InsertBelow(h, st1, n.entries, path, id) else st1
  }

  function InsertBelow(h: Hashers, st: DirRows, es: seq<Node>, path: Path, id: DirId): DirRows
    decreases es
  {
    if es == [] then st
    else if es[0].Directory? then InsertBelow(h, Insert(h, st, es[0], Join(path, es[0].name), Some(id)), es[1..], path, id)
    else InsertBelow(h, st, es[1..], path, id)
  }

  /** The `dir_lookup` `walk_dirs` fills: the paths in visiting order, with the ids given out from `from` on. */
  function Numbered(ps: seq<Path>, from: nat): (r: seq<(Path, DirId)>)
    ensures |r| == |ps|
    decreases ps
  {
    if ps == [] then [] else [(ps[0], from)] + Numbered(ps[1..], from + 1)
  }

  /** The parts of the database the Dir pass leaves alone. */
  ghost function FileSide(db: Db): (map<FileId, FileRow>, map<ScanId, ScanRow>, nat, nat, Tables, nat)
    reads db
  {
    (db.files, db.scans, db.nextFile, db.nextScan, db.durable, db.commits)
  }

  /**
   * `insert_dirs`: None for a symbolic link; otherwise the new Dir for `path`,
   * after the Dirs of everything below it were added, one per directory reached.
   */
  method InsertDirs(db: Db, h: Hashers, fs: Node, path: Path, parent: Option<DirId>) returns (dir: Option<DirId>)
    requires db.Valid() && (parent.Some? ==> parent.value < db.nextDir)
    modifies db
    ensures db.Valid() && FileSide(db) == old(FileSide(db))
    ensures DirRows(db.dirs, db.nextDir) == Insert(h, DirRows(old(db.dirs), old(db.nextDir)), fs, path, parent)
    ensures db.nextDir == old(db.nextDir) + |ReachedDirs(fs, path)|
    ensures dir == if fs.Symlink? then None else Some(old(db.nextDir))
    decreases fs, 1
  {
    if fs.Symlink? {
      return None;
    }
    var id := db.AddDir(DirRow(Name(path), ComputeFullPathHash(h, path), parent));
    var listing := Listing(fs);
    if listing.Some? {
      InsertEntries(db, h, listing.value, path, id);
    }
    dir := Some(id);
  }

  /** The loop of `insert_dirs` over one listing, recursing into every real subdirectory. */
  method InsertEntries(db: Db, h: Hashers, es: seq<Node>, path: Path, id: DirId)
    requires db.Valid() && id < db.nextDir
    modifies db
    ensures db.Valid() && FileSide(db) == old(FileSide(db))
    ensures DirRows(db.dirs, db.nextDir) == InsertBelow(h, DirRows(old(db.dirs), old(db.nextDir)), es, path, id)
    ensures db.nextDir == old(db.nextDir) + |ReachedBelow(es, path)|
    decreases es, 0
  {
    ghost var st0 := DirRows(db.dirs, db.nextDir);
    assert es[0..] == es;
    var i := 0;
    while i < |es|
      invariant 0 <= i <= |es|
      invariant db.Valid() && id < db.nextDir && FileSide(db) == old(FileSide(db))
      invariant InsertBelow(h, st0, es, path, id) == InsertBelow(h, DirRows(db.dirs, db.nextDir), es[i..], path, id)
      invariant db.nextDir + |ReachedBelow(es[i..], path)| == old(db.nextDir) + |ReachedBelow(es, path)|
    {
      if es[i].Directory? {
        BelowDir(h, DirRows(db.dirs, db.nextDir), es, i, path, id);
        ReachedBelowDir(es, i, path);
        var _ := InsertDirs(db, h, es[i], Join(path, es[i].name), Some(id));
      } else {
        BelowOther(h, DirRows(db.dirs, db.nextDir), es, i, path, id);
      }
      i := i + 1;
    }
    assert es[i..] == [];
  }

  /** The `dir_lookup` dictionary of `scan_and_store`, which its nested `walk_dirs` fills. */
  class DirLookup {
    var lookup: seq<(Path, DirId)>

    constructor ()
      ensures lookup == []
    {
      lookup := [];
    }

    /**
     * `walk_dirs`: the rows of `insert_dirs`, and each Dir recorded under its
     * path as soon as it has its id.
     */
    method WalkDirs(db: Db, h: Hashers, fs: Node, path: Path, parent: Option<DirId>)
      requires db.Valid() && (parent.Some? ==> parent.value < db.nextDir)
      modifies this, db
      ensures db.Valid() && FileSide(db) == old(FileSide(db))
      ensures DirRows(db.dirs, db.nextDir) == Insert(h, DirRows(old(db.dirs), old(db.nextDir)), fs, path, parent)
      ensures db.nextDir == old(db.nextDir) + |ReachedDirs(fs, path)|
      ensures lookup == old(lookup) + Numbered(ReachedDirs(fs, path), old(db.nextDir))
      decreases fs, 1
    {
      if fs.Symlink? {
        return;
      }
      var id := db.AddDir(DirRow(Name(path), ComputeFullPathHash(h, path), parent));
      lookup := lookup + [(path, id)];
      var listing := Listing(fs);
      if listing.Some? {
        WalkEntries(db, h, listing.value, path, id);
        var below := ReachedBelow(listing.value, path);
        assert ([path] + below)[1..] == below;
        AppendAssoc(old(lookup), [(path, id)], Numbered(below, id + 1));
      } else {
        assert ReachedDirs(fs, path) == [path];
        assert lookup == old(lookup) + Numbered([path], id);
      }
    }

    /** The loop of `walk_dirs` over one listing, recursing into every real subdirectory. */
    method WalkEntries(db: Db, h: Hashers, es: seq<Node>, path: Path, id: DirId)
      requires db.Valid() && id < db.nextDir
      modifies this, db
      ensures db.Valid() && FileSide(db) == old(FileSide(db))
      ensures DirRows(db.dirs, db.nextDir) == InsertBelow(h, DirRows(old(db.dirs), old(db.nextDir)), es, path, id)
      ensures db.nextDir == old(db.nextDir) + |ReachedBelow(es, path)|
      ensures lookup == old(lookup) + Numbered(ReachedBelow(es, path), old(db.nextDir))
      decreases es, 0
    {
      ghost var st0 := DirRows(db.dirs, db.nextDir);
      ghost var total := db.nextDir + |ReachedBelow(es, path)|;
      ghost var target := old(lookup) + Numbered(ReachedBelow(es, path), old(db.nextDir));
      assert es[0..] == es;
      var i := 0;
      while i < |es|
        invariant 0 <= i <= |es|
        invariant db.Valid() && id < db.nextDir && FileSide(db) == old(FileSide(db))
        invariant InsertBelow(h, st0, es, path, id) == InsertBelow(h, DirRows(db.dirs, db.nextDir), es[i..], path, id)
        invariant db.nextDir + |ReachedBelow(es[i..], path)| == total
        invariant Awaits(target, lookup, ReachedBelow(es[i..], path), db.nextDir)
      {
        if es[i].Directory? {
          ghost var st, before := DirRows(db.dirs, db.nextDir), lookup;
          WalkDirs(db, h, es[i], Join(path, es[i].name), Some(id));
          EntryWalked(h, st0, st, DirRows(db.dirs, db.nextDir), es, i, path, id, total, target, before, lookup);
        } else {
          BelowOther(h, DirRows(db.dirs, db.nextDir), es, i, path, id);
        }
        i := i + 1;
      }
      assert es[i..] == [];
      assert lookup + [] == lookup;
    }
  }

  /** The loop invariants of WalkEntries after a subdirectory's walk. */
  lemma EntryWalked(h: Hashers, st0: DirRows, st: DirRows, r: DirRows, es: seq<Node>, i: nat, path: Path, id: DirId,
                    total: nat, target: seq<(Path, DirId)>, before: seq<(Path, DirId)>, after: seq<(Path, DirId)>)
    requires i < |es| && es[i].Directory?
    requires InsertBelow(h, st0, es, path, id) == InsertBelow(h, st, es[i..], path, id)
    requires st.nextDir + |ReachedBelow(es[i..], path)| == total
    requires Awaits(target, before, ReachedBelow(es[i..], path), st.nextDir)
    requires r == Insert(h, st, es[i], Join(path, es[i].name), Some(id))
    requires r.nextDir == st.nextDir + |ReachedDirs(es[i], Join(path, es[i].name))|
    requires after == before + Numbered(ReachedDirs(es[i], Join(path, es[i].name)), st.nextDir)
    ensures InsertBelow(h, st0, es, path, id) == InsertBelow(h, r, es[i + 1..], path, id)
    ensures r.nextDir + |ReachedBelow(es[i + 1..], path)| == total
    ensures Awaits(target, after, ReachedBelow(es[i + 1..], path), r.nextDir)
  {
    BelowDir(h, st, es, i, path, id);
    ReachedBelowDir(es, i, path);
    LookupStep(target, before, after, es, i, path, st.nextDir);
  }

  /** The lookup becomes `target` once the paths `rest` are added, numbered from `next`. */
  ghost predicate Awaits(target: seq<(Path, DirId)>, lookup: seq<(Path, DirId)>, rest: seq<Path>, next: nat)
  {
    target == lookup + Numbered(rest, next)
  }

  /** One real subdirectory of a listing: its Dirs come next, and the rest of the listing follows. */
  lemma BelowDir(h: Hashers, st: DirRows, es: seq<Node>, i: nat, path: Path, id: DirId)
    requires i < |es| && es[i].Directory?
    ensures InsertBelow(h, st, es[i..], path, id)
      == InsertBelow(h, Insert(h, st, es[i], Join(path, es[i].name), Some(id)), es[i + 1..], path, id)
  {
    assert es[i..][1..] == es[i + 1..];
  }

  lemma ReachedBelowDir(es: seq<Node>, i: nat, path: Path)
    requires i < |es| && es[i].Directory?
    ensures ReachedBelow(es[i..], path) == ReachedDirs(es[i], Join(path, es[i].name)) + ReachedBelow(es[i + 1..], path)
  {
    assert es[i..][1..] == es[i + 1..];
  }

  /** Any other entry of a listing adds nothing. */
  lemma BelowOther(h: Hashers, st: DirRows, es: seq<Node>, i: nat, path: Path, id: DirId)
    requires i < |es| && !es[i].Directory?
    ensures InsertBelow(h, st, es[i..], path, id) == InsertBelow(h, st, es[i + 1..], path, id)
    ensures ReachedBelow(es[i..], path) == ReachedBelow(es[i + 1..], path)
  {
    assert es[i..][1..] == es[i + 1..];
  }

  /** One subdirectory's walk, as the loop of `walk_dirs` sees it: its paths come next, numbered on. */
  lemma LookupStep(target: seq<(Path, DirId)>, before: seq<(Path, DirId)>, after: seq<(Path, DirId)>,
                   es: seq<Node>, i: nat, path: Path, next: nat)
    requires i < |es| && es[i].Directory?
    requires Awaits(target, before, ReachedBelow(es[i..], path), next)
    requires after == before + Numbered(ReachedDirs(es[i], Join(path, es[i].name)), next)
    ensures Awaits(target, after, ReachedBelow(es[i + 1..], path), next + |ReachedDirs(es[i], Join(path, es[i].name))|)
  {
    var head := ReachedDirs(es[i], Join(path, es[i].name));
    ReachedBelowDir(es, i, path);
    NumberedAppend(head, ReachedBelow(es[i + 1..], path), next);
    AppendAssoc(before, Numbered(head, next), Numbered(ReachedBelow(es[i + 1..], path), next + |head|));
  }

  lemma {:induction false} NumberedAppend(a: seq<Path>, b: seq<Path>, from: nat)
    ensures Numbered(a + b, from) == Numbered(a, from) + Numbered(b, from + |a|)
    decreases a
  {
    if a == [] {
      assert a + b == b;
    } else {
      assert (a + b)[1..] == a[1..] + b;
      NumberedAppend(a[1..], b, from + 1);
      AppendAssoc([(a[0], from)], Numbered(a[1..], from + 1), Numbered(b, from + |a|));
    }
  }

  /** Entry `k` of the lookup is the `k`-th path with the `k`-th id from `from` on. */
  lemma {:induction false} NumberedAt(ps: seq<Path>, from: nat)
    ensures forall k :: 0 <= k < |ps| ==> Numbered(ps, from)[k] == (ps[k], from + k)
    decreases ps
  {
    if ps != [] {
      NumberedAt(ps[1..], from + 1);
    }
  }

  // ---------------------------------------------------------------------------
  // What the Dir pass does to the Dir table

  /** Keys and parents below the counter: a new Dir's id is not in use and no row points at it yet. */
  predicate Bounded(st: DirRows)
  {
    forall y :: y in st.dirs ==> y < st.nextDir && (st.dirs[y].parent.Some? ==> st.dirs[y].parent.value < st.nextDir)
  }

  /** `r` keeps every row of `st` as it was and adds rows only under ids from `st.nextDir` on. */
  predicate Extends(st: DirRows, r: DirRows)
  {
    st.nextDir <= r.nextDir
    && (forall y :: y in st.dirs ==> y in r.dirs && r.dirs[y] == st.dirs[y])
    && (forall y :: y in r.dirs ==> y in st.dirs || st.nextDir <= y)
  }

  /** Row `id` is the Dir of path `p`: named after it and holding its hash. */
  predicate RowAt(h: Hashers, r: DirRows, id: DirId, p: Path)
  {
    id in r.dirs && r.dirs[id].name == Name(p) && r.dirs[id].fullPathHash == ComputeFullPathHash(h, p)
  }

  /** The rows from id `from` on are the Dirs of `ps`, in order. */
  predicate RowsFor(h: Hashers, r: DirRows, from: nat, ps: seq<Path>)
  {
    forall k :: 0 <= k < |ps| ==> RowAt(h, r, from + k, ps[k])
  }

  lemma ExtendsTrans(a: DirRows, b: DirRows, c: DirRows)
    requires Extends(a, b) && Extends(b, c)
    ensures Extends(a, c)
  {
  }

  lemma RowsForAppend(h: Hashers, r1: DirRows, r: DirRows, from: nat, a: seq<Path>, b: seq<Path>)
    requires RowsFor(h, r1, from, a) && Extends(r1, r) && RowsFor(h, r, from + |a|, b)
    ensures RowsFor(h, r, from, a + b)
  {
    forall k | 0 <= k < |a + b|
      ensures RowAt(h, r, from + k, (a + b)[k])
    {
      if k < |a| {
        assert (a + b)[k] == a[k] && RowAt(h, r1, from + k, a[k]);
      } else {
        var j := k - |a|;
        assert (a + b)[k] == b[j] && RowAt(h, r, from + |a| + j, b[j]);
      }
    }
  }

  /**
   * The Dir pass never reads or changes an existing row: it adds exactly one
   * Dir per directory reached, under consecutive new ids, the first of them
   * for the start path with the caller's Dir as parent, each named after its
   * path and holding the hash of it.
   */
  lemma {:induction false} InsertGrows(h: Hashers, st: DirRows, n: Node, path: Path, parent: Option<DirId>)
    requires Bounded(st) && (parent.Some? ==> parent.value < st.nextDir)
    ensures var r := Insert(h, st, n, path, parent);
      Bounded(r) && Extends(st, r) && r.nextDir == st.nextDir + |ReachedDirs(n, path)|
      && RowsFor(h, r, st.nextDir, ReachedDirs(n, path))
      && (!n.Symlink? ==> st.nextDir in r.dirs && r.dirs[st.nextDir] == NewDir(h, path, parent))
    decreases n
  {
    if !n.Symlink? {
      var id := st.nextDir;
      var st1 := DirRows(st.dirs[id := NewDir(h, path, parent)], id + 1);
      assert Extends(st, st1) && RowsFor(h, st1, id, [path]);
      if n.Directory? && n.listable {
        var r := InsertBelow(h, st1, n.entries, path, id);
        InsertBelowGrows(h, st1, n.entries, path, id);
        ExtendsTrans(st, st1, r);
        RowsForAppend(h, st1, r, id, [path], ReachedBelow(n.entries, path));
      }
    }
  }

  lemma {:induction false} InsertBelowGrows(h: Hashers, st: DirRows, es: seq<Node>, path: Path, id: DirId)
    requires Bounded(st) && id < st.nextDir
    ensures var r := InsertBelow(h, st, es, path, id);
      Bounded(r) && Extends(st, r) && r.nextDir == st.nextDir + |ReachedBelow(es, path)|
      && RowsFor(h, r, st.nextDir, ReachedBelow(es, path))
    decreases es
  {
    if es != [] {
      if es[0].Directory? {
        var q := Join(path, es[0].name);
        var r1 := Insert(h, st, es[0], q, Some(id));
        var r := InsertBelow(h, r1, es[1..], path, id);
        InsertGrows(h, st, es[0], q, Some(id));
        InsertBelowGrows(h, r1, es[1..], path, id);
        ExtendsTrans(st, r1, r);
        RowsForAppend(h, r1, r, st.nextDir, ReachedDirs(es[0], q), ReachedBelow(es[1..], path));
      } else {
        InsertBelowGrows(h, st, es[1..], path, id);
      }
    }
  }

  // ---------------------------------------------------------------------------
  // Full paths of the rows the Dir pass adds

  /** Rows the pass adds leave the parent chains of older rows as they were. */
  lemma {:induction false} ChainWithinKept(st: DirRows, r: DirRows, y: DirId, fuel: nat)
    requires Bounded(st) && Extends(st, r) && y < st.nextDir
    ensures ChainWithin(r.dirs, y, fuel) == ChainWithin(st.dirs, y, fuel)
    decreases fuel
  {
    if y in st.dirs && fuel > 0 {
      assert ParentOf(r.dirs, y) == ParentOf(st.dirs, y);
      if ParentOf(st.dirs, y).Some? {
        ChainWithinKept(st, r, ParentOf(st.dirs, y).value, fuel - 1);
      }
    }
  }

  lemma FullPathKept(st: DirRows, r: DirRows, y: DirId)
    requires Bounded(st) && Extends(st, r) && y in st.dirs && ChainEnds(st.dirs, y)
    ensures ChainEnds(r.dirs, y) && FullPath(r.dirs, y) == FullPath(st.dirs, y)
  {
    assert r.dirs.Keys == st.dirs.Keys + (r.dirs.Keys - st.dirs.Keys);
    DisjointUnionCard(st.dirs.Keys, r.dirs.Keys - st.dirs.Keys);
    ChainMoreFuel(st.dirs, y, |st.dirs|, |r.dirs|);
    ChainWithinKept(st, r, y, |r.dirs|);
    var chain := Chain(st.dirs, y).value;
    assert NamesOf(r.dirs, chain) == NamesOf(st.dirs, chain);
  }

  /** A new Dir's `full_path` is its parent's with its own name appended, or "/" and its name without a parent. */
  lemma FullPathOfNew(st: DirRows, row: DirRow)
    requires Bounded(st) && IsSegment(row.name)
    requires row.parent.Some? ==> row.parent.value in st.dirs && ChainEnds(st.dirs, row.parent.value)
    ensures var dirs := st.dirs[st.nextDir := row];
      ChainEnds(dirs, st.nextDir)
      && FullPath(dirs, st.nextDir) == (if row.parent.Some? then FullPath(st.dirs, row.parent.value) else []) + [row.name]
  {
    var x := st.nextDir;
    var r := DirRows(st.dirs[x := row], x + 1);
    assert Extends(st, r);
    assert |r.dirs| == |st.dirs| + 1 by {
      assert r.dirs.Keys == st.dirs.Keys + {x};
    }
    if row.parent.Some? {
      var p := row.parent.value;
      ChainWithinKept(st, r, p, |st.dirs|);
      assert ParentOf(r.dirs, x) == Some(p);
      FullPathKept(st, r, p);
    } else {
      assert ParentOf(r.dirs, x).None?;
    }
    FullPathOfChild(r.dirs, x);
  }

  /** The rows from id `from` on have chains that end, and their `full_path`s are `top` followed by their paths from index `cut` on. */
  predicate PathsFrom(r: DirRows, from: nat, ps: seq<Path>, top: Path, cut: nat)
  {
    forall k :: 0 <= k < |ps| ==> PathAt(r, from + k, ps[k], top, cut)
  }

  /** Row `id`'s chain ends and its `full_path` is `top` followed by `p` from index `cut` on. */
  predicate PathAt(r: DirRows, id: DirId, p: Path, top: Path, cut: nat)
  {
    id in r.dirs && ChainEnds(r.dirs, id) && |p| >= cut && FullPath(r.dirs, id) == top + p[cut..]
  }

  /** Row `id`'s chain ends and its `full_path` is `top`. */
  predicate Anchored(r: DirRows, id: DirId, top: Path)
  {
    id in r.dirs && ChainEnds(r.dirs, id) && FullPath(r.dirs, id) == top
  }

  /** What the caller's Dir contributes to the `full_path`s below it: nothing without one. */
  predicate Anchor(r: DirRows, parent: Option<DirId>, top: Path)
  {
    match parent
    case None => top == []
    case Some(p) => Anchored(r, p, top)
  }

  /** Directory entries the walk can name: proper names over well-formed subtrees. */
  predicate EntriesFine(es: seq<Node>)
  {
    forall k :: 0 <= k < |es| ==> IsSegment(es[k].name) && WellFormed(es[k])
  }

  /** The paths of the rows of `r1` survive into `r`, and the rows `r` adds after them continue the run. */
  lemma PathsJoin(r1: DirRows, r: DirRows, from: nat, mid: nat, a: seq<Path>, b: seq<Path>, top: Path, cut: nat)
    requires mid == from + |a|
    requires Bounded(r1) && Extends(r1, r) && PathsFrom(r1, from, a, top, cut) && PathsFrom(r, mid, b, top, cut)
    ensures PathsFrom(r, from, a + b, top, cut)
  {
    forall k | 0 <= k < |a + b|
      ensures PathAt(r, from + k, (a + b)[k], top, cut)
    {
      if k < |a| {
        assert (a + b)[k] == a[k] && PathAt(r1, from + k, a[k], top, cut);
        FullPathKept(r1, r, from + k);
      } else {
        var j := k - |a|;
        assert (a + b)[k] == b[j] && PathAt(r, from + |a| + j, b[j], top, cut);
      }
    }
  }

  /**
   * Each Dir the pass adds has as `full_path` the `full_path` of the caller's
   * Dir (nothing without one) followed by the directory's path from the start
   * path's last segment on: the segments above the start path are lost.
   */
  lemma {:induction false} InsertPaths(h: Hashers, st: DirRows, n: Node, path: Path, parent: Option<DirId>, top: Path)
    requires Bounded(st) && WellFormed(n) && path != [] && IsSegment(Name(path)) && Anchor(st, parent, top)
    ensures PathsFrom(Insert(h, st, n, path, parent), st.nextDir, ReachedDirs(n, path), top, |path| - 1)
    decreases n, 1
  {
    if n.Directory? && n.listable {
      ListedPaths(h, st, n, path, parent, top);
    } else if !n.Symlink? {
      FirstRowPath(h, st, path, parent, top);
    }
  }

  /** The start path's own Dir: its `full_path` is the caller's with the start path's last segment appended. */
  lemma FirstRowPath(h: Hashers, st: DirRows, path: Path, parent: Option<DirId>, top: Path)
    requires Bounded(st) && path != [] && IsSegment(Name(path)) && Anchor(st, parent, top)
    ensures var st1 := DirRows(st.dirs[st.nextDir := NewDir(h, path, parent)], st.nextDir + 1);
      Bounded(st1) && Anchored(st1, st.nextDir, top + [Name(path)]) && PathsFrom(st1, st.nextDir, [path], top, |path| - 1)
  {
    FullPathOfNew(st, NewDir(h, path, parent));
    assert path[|path| - 1..] == [Name(path)];
    assert PathAt(DirRows(st.dirs[st.nextDir := NewDir(h, path, parent)], st.nextDir + 1), st.nextDir + 0, [path][0], top, |path| - 1);
  }

  /** InsertPaths for a directory that can be listed: its own Dir, then the Dirs below it. */
  lemma {:induction false} ListedPaths(h: Hashers, st: DirRows, n: Node, path: Path, parent: Option<DirId>, top: Path)
    requires Bounded(st) && WellFormed(n) && path != [] && IsSegment(Name(path)) && Anchor(st, parent, top)
    requires n.Directory? && n.listable
    ensures PathsFrom(Insert(h, st, n, path, parent), st.nextDir, ReachedDirs(n, path), top, |path| - 1)
    decreases n, 0
  {
    var x := st.nextDir;
    var st1 := DirRows(st.dirs[x := NewDir(h, path, parent)], x + 1);
    FirstRowPath(h, st, path, parent, top);
    assert Insert(h, st, n, path, parent) == InsertBelow(h, st1, n.entries, path, x);
    assert ReachedDirs(n, path) == [path] + ReachedBelow(n.entries, path);
    assert EntriesFine(n.entries);
    ListedJoin(h, st1, n.entries, path, x, top);
  }

  /** The start path's Dir `x`, then the Dirs of its listing. */
  lemma ListedJoin(h: Hashers, st1: DirRows, es: seq<Node>, path: Path, x: DirId, top: Path)
    requires Bounded(st1) && path != [] && x + 1 == st1.nextDir && EntriesFine(es)
    requires Anchored(st1, x, top + [Name(path)]) && PathsFrom(st1, x, [path], top, |path| - 1)
    ensures PathsFrom(InsertBelow(h, st1, es, path, x), x, [path] + ReachedBelow(es, path), top, |path| - 1)
    decreases es, 3
  {
    var r := InsertBelow(h, st1, es, path, x);
    BelowPaths(h, st1, es, path, x, top);
    InsertBelowGrows(h, st1, es, path, x);
    PathsJoin(st1, r, x, st1.nextDir, [path], ReachedBelow(es, path), top, |path| - 1);
  }

  /** The Dirs below a listed directory, with their `full_path`s read from one segment earlier. */
  lemma BelowPaths(h: Hashers, st: DirRows, es: seq<Node>, path: Path, id: DirId, top: Path)
    requires Bounded(st) && path != [] && Anchored(st, id, top + [Name(path)]) && EntriesFine(es)
    ensures PathsFrom(InsertBelow(h, st, es, path, id), st.nextDir, ReachedBelow(es, path), top, |path| - 1)
    decreases es, 2
  {
    var r := InsertBelow(h, st, es, path, id);
    var below := ReachedBelow(es, path);
    InsertBelowPaths(h, st, es, path, id, top + [Name(path)]);
    ReachedBelowUnder(es, path);
    forall k | 0 <= k < |below|
      ensures PathAt(r, st.nextDir + k, below[k], top, |path| - 1)
    {
      assert PathAt(r, st.nextDir + k, below[k], top + [Name(path)], |path|);
      assert below[k][..|path|] == path;
      assert below[k][|path| - 1..] == [Name(path)] + below[k][|path|..];
    }
  }

  lemma {:induction false} InsertBelowPaths(h: Hashers, st: DirRows, es: seq<Node>, path: Path, id: DirId, top: Path)
    requires Bounded(st) && Anchored(st, id, top) && EntriesFine(es)
    ensures PathsFrom(InsertBelow(h, st, es, path, id), st.nextDir, ReachedBelow(es, path), top, |path|)
    decreases es, 1
  {
    if es != [] {
      if es[0].Directory? {
        SubdirPaths(h, st, es, path, id, top);
      } else {
        assert forall k :: 0 <= k < |es[1..]| ==> es[1..][k] == es[k + 1];
        InsertBelowPaths(h, st, es[1..], path, id, top);
        assert InsertBelow(h, st, es, path, id) == InsertBelow(h, st, es[1..], path, id);
        assert ReachedBelow(es, path) == ReachedBelow(es[1..], path);
      }
    }
  }

  /** InsertBelowPaths when the first entry is a real subdirectory: its Dirs, then those of the rest of the listing. */
  lemma {:induction false} SubdirPaths(h: Hashers, st: DirRows, es: seq<Node>, path: Path, id: DirId, top: Path)
    requires Bounded(st) && Anchored(st, id, top) && EntriesFine(es) && es != [] && es[0].Directory?
    ensures PathsFrom(InsertBelow(h, st, es, path, id), st.nextDir, ReachedBelow(es, path), top, |path|)
    decreases es, 0
  {
    var q := Join(path, es[0].name);
    var r1 := Insert(h, st, es[0], q, Some(id));
    var r := InsertBelow(h, r1, es[1..], path, id);
    assert |q| - 1 == |path|;
    InsertPaths(h, st, es[0], q, Some(id), top);
    InsertGrows(h, st, es[0], q, Some(id));
    FullPathKept(st, r1, id);
    InsertBelowPaths(h, r1, es[1..], path, id, top);
    InsertBelowGrows(h, r1, es[1..], path, id);
    assert InsertBelow(h, st, es, path, id) == r;
    assert ReachedBelow(es, path) == ReachedDirs(es[0], q) + ReachedBelow(es[1..], path);
    PathsJoin(r1, r, st.nextDir, r1.nextDir, ReachedDirs(es[0], q), ReachedBelow(es[1..], path), top, |path|);
  }

  // ---------------------------------------------------------------------------
  // ux_dir_parent_name across the Dir pass

  /** Besides the start path's own Dir, every row the pass adds hangs below a row it added. */
  predicate ParentsNew(st: DirRows, r: DirRows)
  {
    forall y :: y in r.dirs && y !in st.dirs && y != st.nextDir
      ==> r.dirs[y].parent.Some? && st.nextDir <= r.dirs[y].parent.value
  }

  /** Every row the pass over a listing of Dir `id` adds hangs below `id` or below a row it added. */
  predicate ParentsNewBelow(st: DirRows, r: DirRows, id: DirId)
  {
    forall y :: y in r.dirs && y !in st.dirs
      ==> r.dirs[y].parent.Some? && (r.dirs[y].parent.value == id || st.nextDir <= r.dirs[y].parent.value)
  }

  lemma {:induction false} InsertParents(h: Hashers, st: DirRows, n: Node, path: Path, parent: Option<DirId>)
    requires Bounded(st) && (parent.Some? ==> parent.value < st.nextDir)
    ensures ParentsNew(st, Insert(h, st, n, path, parent))
    decreases n
  {
    if !n.Symlink? && n.Directory? && n.listable {
      var x := st.nextDir;
      var st1 := DirRows(st.dirs[x := NewDir(h, path, parent)], x + 1);
      InsertBelowParents(h, st1, n.entries, path, x);
    }
  }

  lemma {:induction false} InsertBelowParents(h: Hashers, st: DirRows, es: seq<Node>, path: Path, id: DirId)
    requires Bounded(st) && id < st.nextDir
    ensures ParentsNewBelow(st, InsertBelow(h, st, es, path, id), id)
    decreases es
  {
    if es != [] {
      if es[0].Directory? {
        var q := Join(path, es[0].name);
        var r1 := Insert(h, st, es[0], q, Some(id));
        var r := InsertBelow(h, r1, es[1..], path, id);
        InsertGrows(h, st, es[0], q, Some(id));
        InsertParents(h, st, es[0], q, Some(id));
        InsertBelowGrows(h, r1, es[1..], path, id);
        InsertBelowParents(h, r1, es[1..], path, id);
        assert InsertBelow(h, st, es, path, id) == r;
      } else {
        InsertBelowParents(h, st, es[1..], path, id);
      }
    }
  }

  /** No row below Dir `p` is named `name`. */
  predicate NoChildNamed(dirs: map<DirId, DirRow>, p: DirId, name: string)
  {
    forall y :: y in dirs && dirs[y].parent == Some(p) ==> dirs[y].name != name
  }

  /** No row below Dir `id` shares its name with an entry of `es`. */
  predicate NoClash(dirs: map<DirId, DirRow>, id: DirId, es: seq<Node>)
  {
    forall k :: 0 <= k < |es| ==> NoChildNamed(dirs, id, es[k].name)
  }

  /**
   * On a well-formed tree the Dir pass keeps `ux_dir_parent_name`, provided the
   * caller's Dir has no child named like the start path yet: the Dirs it adds
   * below one Dir are the subdirectories of one listing, whose names differ.
   */
  lemma {:induction false} InsertSiblings(h: Hashers, st: DirRows, n: Node, path: Path, parent: Option<DirId>)
    requires Bounded(st) && DirSiblingsUnique(st.dirs) && WellFormed(n)
    requires parent.Some? ==> parent.value < st.nextDir && NoChildNamed(st.dirs, parent.value, Name(path))
    ensures DirSiblingsUnique(Insert(h, st, n, path, parent).dirs)
    decreases n
  {
    if !n.Symlink? {
      var x := st.nextDir;
      var st1 := DirRows(st.dirs[x := NewDir(h, path, parent)], x + 1);
      assert DirSiblingsUnique(st1.dirs);
      if n.Directory? && n.listable {
        assert NoClash(st1.dirs, x, n.entries);
        InsertBelowSiblings(h, st1, n.entries, path, x);
      }
    }
  }

  lemma {:induction false} InsertBelowSiblings(h: Hashers, st: DirRows, es: seq<Node>, path: Path, id: DirId)
    requires Bounded(st) && DirSiblingsUnique(st.dirs) && id < st.nextDir
    requires NamesUnique(es) && (forall k :: 0 <= k < |es| ==> WellFormed(es[k])) && NoClash(st.dirs, id, es)
    ensures DirSiblingsUnique(InsertBelow(h, st, es, path, id).dirs)
    decreases es
  {
    if es != [] {
      if es[0].Directory? {
        SubdirSiblings(h, st, es, path, id);
      } else {
        assert NoClash(st.dirs, id, es[1..]) by {
          forall k | 0 <= k < |es[1..]|
            ensures NoChildNamed(st.dirs, id, es[1..][k].name)
          {
            assert es[1..][k] == es[k + 1];
          }
        }
        InsertBelowSiblings(h, st, es[1..], path, id);
      }
    }
  }

  /** InsertBelowSiblings when the first entry is a real subdirectory. */
  lemma {:induction false} SubdirSiblings(h: Hashers, st: DirRows, es: seq<Node>, path: Path, id: DirId)
    requires Bounded(st) && DirSiblingsUnique(st.dirs) && id < st.nextDir
    requires NamesUnique(es) && (forall k :: 0 <= k < |es| ==> WellFormed(es[k])) && NoClash(st.dirs, id, es)
    requires es != [] && es[0].Directory?
    ensures DirSiblingsUnique(InsertBelow(h, st, es, path, id).dirs)
    decreases es, 0
  {
    var q := Join(path, es[0].name);
    var r1 := Insert(h, st, es[0], q, Some(id));
    assert NoChildNamed(st.dirs, id, es[0].name);
    InsertSiblings(h, st, es[0], q, Some(id));
    InsertGrows(h, st, es[0], q, Some(id));
    InsertParents(h, st, es[0], q, Some(id));
    assert NoClash(r1.dirs, id, es[1..]) by {
      forall k | 0 <= k < |es[1..]|
        ensures NoChildNamed(r1.dirs, id, es[1..][k].name)
      {
        assert es[1..][k] == es[k + 1] && es[0].name != es[k + 1].name;
        assert NoChildNamed(st.dirs, id, es[k + 1].name);
      }
    }
    InsertBelowSiblings(h, r1, es[1..], path, id);
    assert InsertBelow(h, st, es, path, id) == InsertBelow(h, r1, es[1..], path, id);
  }

  // ---------------------------------------------------------------------------
  // The file pass: insert_files

  /** The File table and the next File id, as the file pass changes them. */
  datatype FileRows = FileRows(files: map<FileId, FileRow>, nextFile: nat)

  /**
   * The rows `insert_files` adds for its tasks, in task order: one File per
   * file that could be read, with the number of bytes read and their hash;
   * a file that vanished or could not be read adds nothing.
   */
  function StoreFiles(h: Hashers, st: FileRows, ts: seq<Sync.FileTask>): FileRows
  {
    if ts == [] then st
    else
      var st1 := StoreFiles(h, st, ts[..|ts| - 1]);
      var t := ts[|ts| - 1];
      match Sync.GetSizeAndHash(h, t.content)
      case None => st1
      case Some((size, hash)) => FileRows(st1.files[st1.nextFile := FileRow(t.dir, Name(t.path), size, hash)], st1.nextFile + 1)
  }

  /** The tasks whose file could be read, in task order. */
  function Readables(ts: seq<Sync.FileTask>): (r: seq<Sync.FileTask>)
    ensures forall t :: t in r <==> t in ts && t.content.Readable?
  {
    if ts == [] then []
    else
      var init := ts[..|ts| - 1];
      assert ts == init + [ts[|ts| - 1]];
      Readables(init) + (if ts[|ts| - 1].content.Readable? then [ts[|ts| - 1]] else [])
  }

  /** File `id` records task `t`'s directory, name, size and content hash. */
  predicate FileAt(h: Hashers, r: FileRows, id: FileId, t: Sync.FileTask)
  {
    id in r.files && t.content.Readable?
    && r.files[id] == FileRow(t.dir, Name(t.path), |t.content.data|, h.contentHash(t.content.data))
  }

  /** Every File id in use is below the counter. */
  predicate FilesBounded(st: FileRows)
  {
    forall y :: y in st.files ==> y < st.nextFile
  }

  /**
   * The file pass keeps every existing File and adds exactly one per readable
   * task, under consecutive new ids in task order, recording what was read.
   */
  lemma {:induction false} StoreFilesAdds(h: Hashers, st: FileRows, ts: seq<Sync.FileTask>)
    requires FilesBounded(st)
    ensures var r := StoreFiles(h, st, ts);
      FilesBounded(r) && r.nextFile == st.nextFile + |Readables(ts)|
      && (forall y :: y in st.files ==> y in r.files && r.files[y] == st.files[y])
      && (forall k :: 0 <= k < |Readables(ts)| ==> FileAt(h, r, st.nextFile + k, Readables(ts)[k]))
  {
    if ts != [] {
      var init := ts[..|ts| - 1];
      var t := ts[|ts| - 1];
      var r1 := StoreFiles(h, st, init);
      StoreFilesAdds(h, st, init);
      if t.content.Readable? {
        var R := Readables(ts);
        assert R == Readables(init) + [t];
        forall k | 0 <= k < |R|
          ensures FileAt(h, StoreFiles(h, st, ts), st.nextFile + k, R[k])
        {
          if k < |Readables(init)| {
            assert R[k] == Readables(init)[k] && FileAt(h, r1, st.nextFile + k, R[k]);
          }
        }
      } else {
        assert Readables(ts) == Readables(init);
      }
    }
  }

  /** No File has directory and name `key`. */
  predicate NoRowFor(files: map<FileId, FileRow>, key: (DirId, string))
  {
    forall y :: y in files ==> (files[y].dir, files[y].name) != key
  }

  /** A key no task has, in a directory newer than every existing File's, gets no row. */
  lemma {:induction false} StoreFilesAvoid(h: Hashers, st: FileRows, ts: seq<Sync.FileTask>, bound: nat, key: (DirId, string))
    requires (forall y :: y in st.files ==> st.files[y].dir < bound) && bound <= key.0
    requires forall k :: 0 <= k < |ts| ==> Sync.KeyOf(ts[k]) != key
    ensures NoRowFor(StoreFiles(h, st, ts).files, key)
  {
    if ts != [] {
      var init := ts[..|ts| - 1];
      assert forall k :: 0 <= k < |init| ==> init[k] == ts[k];
      StoreFilesAvoid(h, st, init, bound, key);
    }
  }

  /**
   * `ux_file_dir_name` after the file pass: tasks with pairwise different
   * directory and name, all in directories newer than every existing File's,
   * add no two Files with the same directory and name.
   */
  lemma {:induction false} StoreFilesUnique(h: Hashers, st: FileRows, ts: seq<Sync.FileTask>, bound: nat)
    requires FilesBounded(st) && FileIndexUnique(st.files)
    requires forall y :: y in st.files ==> st.files[y].dir < bound
    requires (forall k :: 0 <= k < |ts| ==> bound <= ts[k].dir) && Sync.KeysDistinct(ts)
    ensures FileIndexUnique(StoreFiles(h, st, ts).files)
  {
    if ts != [] {
      var init := ts[..|ts| - 1];
      var t := ts[|ts| - 1];
      assert forall k :: 0 <= k < |init| ==> init[k] == ts[k];
      StoreFilesUnique(h, st, init, bound);
      StoreFilesAdds(h, st, init);
      StoreFilesAvoid(h, st, init, bound, Sync.KeyOf(t));
    }
  }

  /** The parts of the database the file pass leaves alone. */
  ghost function DirSide(db: Db): (map<DirId, DirRow>, map<ScanId, ScanRow>, nat, nat, Tables, nat)
    reads db
  {
    (db.dirs, db.scans, db.nextDir, db.nextScan, db.durable, db.commits)
  }

  /**
   * `process_file`: nothing when the entry is no longer a regular file or
   * reading it fails (the error is logged); otherwise one new File.
   */
  method ProcessFile(db: Db, h: Hashers, task: Sync.FileTask)
    requires db.Valid() && task.dir < db.nextDir
    modifies db
    ensures db.Valid() && DirSide(db) == old(DirSide(db))
    ensures FileRows(db.files, db.nextFile) == StoreFiles(h, FileRows(old(db.files), old(db.nextFile)), [task])
  {
    assert [task][..0] == [];
    if task.content.Vanished? {
      return;
    }
    var read := Sync.GetSizeAndHash(h, task.content);
    if read.Some? {
      var _ := db.AddFile(FileRow(task.dir, Name(task.path), read.value.0, read.value.1));
    }
  }

  /**
   * `insert_files`: a task for every regular file in the listing of every
   * looked-up directory, then every task run in turn (`asyncio.gather`).
   */
  method InsertFiles(db: Db, h: Hashers, root: Node, rootPath: Path, lookup: seq<(Path, DirId)>)
    requires db.Valid() && forall k :: 0 <= k < |lookup| ==> lookup[k].1 < db.nextDir
    modifies db
    ensures db.Valid() && DirSide(db) == old(DirSide(db))
    ensures FileRows(db.files, db.nextFile)
      == StoreFiles(h, FileRows(old(db.files), old(db.nextFile)), Sync.TasksOf(root, rootPath, lookup))
  {
    var tasks := Sync.CollectFileTasks(root, rootPath, lookup);
    TaskDirsBelow(root, rootPath, lookup, db.nextDir);
    ghost var st0 := FileRows(db.files, db.nextFile);
    for i := 0 to |tasks|
      invariant db.Valid() && DirSide(db) == old(DirSide(db))
      invariant FileRows(db.files, db.nextFile) == StoreFiles(h, st0, tasks[..i])
    {
      StoreFilesSnoc(h, st0, tasks, i);
      ProcessFile(db, h, tasks[i]);
    }
    assert tasks[..|tasks|] == tasks;
  }

  /** Every task's Dir is one the lookup names, so below the Dir counter. */
  lemma TaskDirsBelow(root: Node, rootPath: Path, lookup: seq<(Path, DirId)>, bound: nat)
    requires forall k :: 0 <= k < |lookup| ==> lookup[k].1 < bound
    ensures forall k :: 0 <= k < |Sync.TasksOf(root, rootPath, lookup)| ==> Sync.TasksOf(root, rootPath, lookup)[k].dir < bound
  {
    Sync.TasksInDirs(root, rootPath, lookup, set k | 0 <= k < |lookup| :: lookup[k].1);
  }

  /** One more task: the rows of the tasks before it, then its own. */
  lemma StoreFilesSnoc(h: Hashers, st: FileRows, ts: seq<Sync.FileTask>, i: nat)
    requires i < |ts|
    ensures StoreFiles(h, st, ts[..i + 1]) == StoreFiles(h, StoreFiles(h, st, ts[..i]), [ts[i]])
  {
    assert ts[..i + 1][..i] == ts[..i];
    assert [ts[i]][..0] == [];
  }

  // ---------------------------------------------------------------------------
  // scan_and_store

  /** The Dir pass of `scan_and_store`: `walk_dirs(start_path)` into an empty `dir_lookup`. */
  method WalkFromRoot(db: Db, h: Hashers, root: Node, rootPath: Path) returns (lookup: seq<(Path, DirId)>)
    requires db.Valid()
    modifies db
    ensures db.Valid() && FileSide(db) == old(FileSide(db))
    ensures DirRows(db.dirs, db.nextDir) == Insert(h, DirRows(old(db.dirs), old(db.nextDir)), root, rootPath, None)
    ensures lookup == Numbered(ReachedDirs(root, rootPath), old(db.nextDir))
    ensures forall k :: 0 <= k < |lookup| ==> lookup[k].1 < db.nextDir
  {
    var dirLookup := new DirLookup();
    dirLookup.WalkDirs(db, h, root, rootPath, None);
    lookup := dirLookup.lookup;
    assert lookup == Numbered(ReachedDirs(root, rootPath), old(db.nextDir));
    NumberedAt(ReachedDirs(root, rootPath), old(db.nextDir));
  }

  /**
   * `scan_and_store(start_path)`: the counts for the progress display, the Dir
   * pass from the scan root with no parent, the file pass over its lookup,
   * and one commit. No existing row is read or changed.
   */
  method ScanAndStore(db: Db, h: Hashers, root: Node, rootPath: Path) returns (dirCount: nat, fileCount: nat)
    requires db.Valid()
    modifies db
    ensures db.Valid()
    ensures dirCount == 1 + |DirEntries(Listed(root))| && fileCount == CountedFiles(Listed(root))
    ensures var d := Insert(h, DirRows(old(db.dirs), old(db.nextDir)), root, rootPath, None);
      db.dirs == d.dirs && db.nextDir == d.nextDir
    ensures FileRows(db.files, db.nextFile) == StoreFiles(h, FileRows(old(db.files), old(db.nextFile)),
      Sync.TasksOf(root, rootPath, Numbered(ReachedDirs(root, rootPath), old(db.nextDir))))
    ensures db.scans == old(db.scans) && db.nextScan == old(db.nextScan)
    ensures db.durable == db.Current() && db.commits == old(db.commits) + 1
    ensures WellFormed(root) && DirSiblingsUnique(old(db.dirs)) && FileIndexUnique(old(db.files))
      ==> DirSiblingsUnique(db.dirs) && FileIndexUnique(db.files)
  {
    dirCount, fileCount := CountDirsAndFiles(root);
    if WellFormed(root) && DirSiblingsUnique(db.dirs) && FileIndexUnique(db.files) {
      ScanKeepsIndexes(h, DirRows(db.dirs, db.nextDir), FileRows(db.files, db.nextFile), root, rootPath);
    }
    var lookup := WalkFromRoot(db, h, root, rootPath);
    InsertFiles(db, h, root, rootPath, lookup);
    db.Commit();
  }

  /** Every task's Dir is one the lookup names, so not below the lowest of them. */
  lemma TaskDirsAbove(root: Node, rootPath: Path, lookup: seq<(Path, DirId)>, bound: nat)
    requires forall k :: 0 <= k < |lookup| ==> bound <= lookup[k].1
    ensures forall k :: 0 <= k < |Sync.TasksOf(root, rootPath, lookup)| ==> bound <= Sync.TasksOf(root, rootPath, lookup)[k].dir
  {
    var ids := set k | 0 <= k < |lookup| :: lookup[k].1;
    assert forall d :: d in ids ==> bound <= d;
    Sync.TasksInDirs(root, rootPath, lookup, ids);
  }

  /**
   * On a well-formed tree a scan keeps both unique indexes: `ux_dir_parent_name`
   * because the scan root's Dir has no parent and the Dirs below it follow the
   * listings, and `ux_file_dir_name` because every File it adds lies in a Dir
   * added by the same scan, one per name in a listing.
   */
  lemma ScanKeepsIndexes(h: Hashers, st: DirRows, fst: FileRows, root: Node, rootPath: Path)
    requires Bounded(st) && DirSiblingsUnique(st.dirs) && WellFormed(root)
    requires FilesBounded(fst) && FileIndexUnique(fst.files) && forall y :: y in fst.files ==> fst.files[y].dir < st.nextDir
    ensures DirSiblingsUnique(Insert(h, st, root, rootPath, None).dirs)
    ensures FileIndexUnique(StoreFiles(h, fst, Sync.TasksOf(root, rootPath, Numbered(ReachedDirs(root, rootPath), st.nextDir))).files)
  {
    InsertSiblings(h, st, root, rootPath, None);
    var lookup := Numbered(ReachedDirs(root, rootPath), st.nextDir);
    NumberedAt(ReachedDirs(root, rootPath), st.nextDir);
    assert Sync.IdsDistinct(lookup);
    Sync.TasksOfKeysDistinct(root, rootPath, lookup);
    TaskDirsAbove(root, rootPath, lookup, st.nextDir);
    StoreFilesUnique(h, fst, Sync.TasksOf(root, rootPath, lookup), st.nextDir);
  }

  /**
   * The indexer does not reconcile: scanning the same directory twice leaves
   * two Dirs for its root, with the same name, no parent and the same path
   * hash. Neither unique index objects, since a missing parent never clashes.
   */
  lemma RescanDuplicatesRoot(h: Hashers, st: DirRows, root: Node, rootPath: Path)
    requires Bounded(st) && !root.Symlink?
    ensures var r1 := Insert(h, st, root, rootPath, None);
      var r2 := Insert(h, r1, root, rootPath, None);
      st.nextDir < r1.nextDir && st.nextDir in r2.dirs && r1.nextDir in r2.dirs
      && r2.dirs[st.nextDir] == r2.dirs[r1.nextDir] == DirRow(Name(rootPath), ComputeFullPathHash(h, rootPath), None)
      && !PathHashesUnique(r2.dirs)
  {
    var r1 := Insert(h, st, root, rootPath, None);
    InsertGrows(h, st, root, rootPath, None);
    InsertGrows(h, r1, root, rootPath, None);
  }
}
