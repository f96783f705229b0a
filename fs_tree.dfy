/**
 * The directory tree the scanner reads, as an inductive value, together with
 * the three ways the core looks at it: `os.walk(start, followlinks=False)`
 * (for counting), the depth-first walk over real subdirectories (for the Dir
 * pass) and a directory listing at a path (`Path.iterdir`).
 */
module FsTree {
  import opened Base
  import opened Paths

  /**
   * What reading a regular file yields when the file pass gets to it: its bytes,
   * an OSError (permission, I/O), or nothing because the file was removed
   * after the listing (the `is_file()` re-check fails).
   */
  datatype ReadOutcome = Readable(data: seq<Byte>) | Unreadable | Vanished

  datatype Node =
    | Directory(name: string, entries: seq<Node>, listable: bool)
    | RegularFile(name: string, content: ReadOutcome)
    | Symlink(name: string, toDirectory: bool)
    | Special(name: string)

  /** `entry.is_dir()`: follows symbolic links. */
  predicate IsDirLike(n: Node)
  {
    n.Directory? || (n.Symlink? && n.toDirectory)
  }

  /** A name `os.walk` puts in `files` and that is not a symbolic link. */
  predicate IsCountedFile(n: Node)
  {
    n.RegularFile? || n.Special?
  }

  /** `list(path.iterdir())`: the entries, or None for the OSError of a non-directory or an unreadable one. */
  function Listing(n: Node): (r: Option<seq<Node>>)
    ensures r.Some? <==> n.Directory? && n.listable
  {
    if n.Directory? && n.listable then Some(n.entries) else None
  }

  predicate NamesUnique(es: seq<Node>)
  {
    forall i, j :: 0 <= i < j < |es| ==> es[i].name != es[j].name
  }

  /** Every entry has a proper name and no directory holds two entries of the same name. */
  predicate WellFormed(n: Node)
    decreases n
  {
    n.Directory? ==>
      NamesUnique(n.entries)
      && (forall k :: 0 <= k < |n.entries| ==> IsSegment(n.entries[k].name))
      && (forall k :: 0 <= k < |n.entries| ==> WellFormed(n.entries[k]))
  }

  // ---------------------------------------------------------------------------
  // os.walk(start, followlinks=False)

  /** One `(root, dirs, files)` triple; `root` itself is not needed by the counter. */
  datatype WalkStep = WalkStep(dirs: seq<Node>, nondirs: seq<Node>)

  /** The entries `os.walk` puts in `dirs`: everything `is_dir()` accepts. */
  function DirEntries(es: seq<Node>): (r: seq<Node>)
    ensures |r| <= |es|
    ensures forall k :: 0 <= k < |r| ==> IsDirLike(r[k])
  {
    if es == [] then []
    else
      var last := es[|es| - 1];
      DirEntries(es[..|es| - 1]) + (if IsDirLike(last) then [last] else [])
  }

  /** The entries `os.walk` puts in `files`: everything else, symbolic links to files included. */
  function OtherEntries(es: seq<Node>): (r: seq<Node>)
    ensures |r| <= |es|
    ensures forall k :: 0 <= k < |r| ==> !IsDirLike(r[k])
  {
    if es == [] then []
    else
      var last := es[|es| - 1];
      OtherEntries(es[..|es| - 1]) + (if IsDirLike(last) then [] else [last])
  }

  /** How many entries are non-symlink files (regular or special). */
  function CountedFiles(es: seq<Node>): nat
  {
    if es == [] then 0
    else CountedFiles(es[..|es| - 1]) + (if IsCountedFile(es[|es| - 1]) then 1 else 0)
  }

  /**
   * The triples `os.walk` yields, top-down: one per listable real directory
   * reached, never descending through a symbolic link, skipping directories
   * it cannot list.
   */
  function OsWalk(n: Node): seq<WalkStep>
    decreases n
  {
    if n.Directory? && n.listable then
      [WalkStep(DirEntries(n.entries), OtherEntries(n.entries))] + OsWalkBelow(n.entries)
    else []
  }

  function OsWalkBelow(es: seq<Node>): seq<WalkStep>
    decreases es
  {
    if es == [] then [] else OsWalk(es[0]) + OsWalkBelow(es[1..])
  }

  /** `os.walk` never puts a directory, or a symbolic link to one, among the `files`. */
  predicate SplitByIsDir(w: WalkStep)
  {
    forall m :: 0 <= m < |w.nondirs| ==> !IsDirLike(w.nondirs[m])
  }

  lemma {:induction false} WalkStepsSplit(n: Node)
    ensures forall k :: 0 <= k < |OsWalk(n)| ==> SplitByIsDir(OsWalk(n)[k])
    decreases n
  {
    if n.Directory? && n.listable {
      WalkStepsSplitBelow(n.entries);
    }
  }

  lemma {:induction false} WalkStepsSplitBelow(es: seq<Node>)
    ensures forall k :: 0 <= k < |OsWalkBelow(es)| ==> SplitByIsDir(OsWalkBelow(es)[k])
    decreases es
  {
    if es != [] {
      WalkStepsSplit(es[0]);
      WalkStepsSplitBelow(es[1..]);
    }
  }

  /** Sum of `len(dirs)` over the triples. */
  function SumDirs(ws: seq<WalkStep>): nat
  {
    if ws == [] then 0 else SumDirs(ws[..|ws| - 1]) + |ws[|ws| - 1].dirs|
  }

  /** Sum over the triples of the non-symlink names in `files`. */
  function SumFiles(ws: seq<WalkStep>): nat
  {
    if ws == [] then 0 else SumFiles(ws[..|ws| - 1]) + CountedFiles(ws[|ws| - 1].nondirs)
  }

  // ---------------------------------------------------------------------------
  // The reference: every entry of every directory the walk lists

  /** All entries of every listable real directory reachable from `n`, `n`'s own entries first. */
  function Listed(n: Node): seq<Node>
    decreases n
  {
    if n.Directory? && n.listable then n.entries + ListedBelow(n.entries) else []
  }

  function ListedBelow(es: seq<Node>): seq<Node>
    decreases es
  {
    if es == [] then [] else Listed(es[0]) + ListedBelow(es[1..])
  }

  /**
   * `count_dirs_and_files`: walks the list `os.walk` produced, adding each
   * triple's `len(dirs)` and its non-symlink files, then one for the root.
   * The loop over `dirs` that skips symbolic links changes nothing and is not
   * repeated here: symbolic links to directories are counted.
   */
  method CountDirsAndFiles(start: Node) returns (dirCount: nat, fileCount: nat)
    ensures dirCount == 1 + |DirEntries(Listed(start))|
    ensures fileCount == CountedFiles(Listed(start))
  {
    var walk := OsWalk(start);
    WalkStepsSplit(start);
    dirCount, fileCount := 0, 0;
    var i := 0;
    while i < |walk|
      invariant 0 <= i <= |walk|
      invariant dirCount == SumDirs(walk[..i]) && fileCount == SumFiles(walk[..i])
    {
      assert walk[..i + 1][..i] == walk[..i];
      dirCount := dirCount + |walk[i].dirs|;
      assert SplitByIsDir(walk[i]);
      var n := CountFilesIn(walk[i].nondirs);
      fileCount := fileCount + n;
      i := i + 1;
    }
    assert walk[..i] == walk;
    WalkSums(start);
    dirCount := dirCount + 1;
  }

  /** The inner loop of `count_dirs_and_files`: the names in `files` that are not symbolic links. */
  method CountFilesIn(files: seq<Node>) returns (n: nat)
    requires forall m :: 0 <= m < |files| ==> !IsDirLike(files[m])
    ensures n == CountedFiles(files)
  {
    n := 0;
    var j := 0;
    while j < |files|
      invariant 0 <= j <= |files|
      invariant n == CountedFiles(files[..j])
    {
      assert files[..j + 1][..j] == files[..j];
      if files[j].Symlink? {
        j := j + 1;
        continue;
      }
      n := n + 1;
      j := j + 1;
    }
    assert files[..j] == files;
  }

  lemma {:induction false} DirEntriesAppend(a: seq<Node>, b: seq<Node>)
    ensures DirEntries(a + b) == DirEntries(a) + DirEntries(b)
    ensures OtherEntries(a + b) == OtherEntries(a) + OtherEntries(b)
    ensures CountedFiles(a + b) == CountedFiles(a) + CountedFiles(b)
    decreases |b|
  {
    if b == [] {
      assert a + b == a;
    } else {
      assert (a + b)[..|a + b| - 1] == a + b[..|b| - 1];
      DirEntriesAppend(a, b[..|b| - 1]);
    }
  }

  lemma {:induction false} SumsAppend(a: seq<WalkStep>, b: seq<WalkStep>)
    ensures SumDirs(a + b) == SumDirs(a) + SumDirs(b)
    ensures SumFiles(a + b) == SumFiles(a) + SumFiles(b)
    decreases |b|
  {
    if b == [] {
      assert a + b == a;
    } else {
      assert (a + b)[..|a + b| - 1] == a + b[..|b| - 1];
      SumsAppend(a, b[..|b| - 1]);
    }
  }

  /** Directory entries are never counted as files, so `files` holds every counted file of a listing. */
  lemma {:induction false} CountedFilesOfOther(es: seq<Node>)
    ensures CountedFiles(OtherEntries(es)) == CountedFiles(es)
  {
    if es != [] {
      var init := es[..|es| - 1];
      var last := es[|es| - 1];
      CountedFilesOfOther(init);
      DirEntriesAppend(OtherEntries(init), if IsDirLike(last) then [] else [last]);
      if !IsDirLike(last) {
        assert CountedFiles([last]) == (if IsCountedFile(last) then 1 else 0) by {
          assert [last][..0] == [];
        }
      } else {
        assert OtherEntries(init) + [] == OtherEntries(init);
      }
    }
  }

  /** The sums over the walk's triples are the counts over everything listed. */
  lemma {:induction false} WalkSums(n: Node)
    ensures SumDirs(OsWalk(n)) == |DirEntries(Listed(n))|
    ensures SumFiles(OsWalk(n)) == CountedFiles(Listed(n))
    decreases n
  {
    if n.Directory? && n.listable {
      var step := WalkStep(DirEntries(n.entries), OtherEntries(n.entries));
      SumsAppend([step], OsWalkBelow(n.entries));
      assert [step][..0] == [];
      WalkSumsBelow(n.entries);
      DirEntriesAppend(n.entries, ListedBelow(n.entries));
      CountedFilesOfOther(n.entries);
    }
  }

  lemma {:induction false} WalkSumsBelow(es: seq<Node>)
    ensures SumDirs(OsWalkBelow(es)) == |DirEntries(ListedBelow(es))|
    ensures SumFiles(OsWalkBelow(es)) == CountedFiles(ListedBelow(es))
    decreases es
  {
    if es != [] {
      WalkSums(es[0]);
      WalkSumsBelow(es[1..]);
      SumsAppend(OsWalk(es[0]), OsWalkBelow(es[1..]));
      DirEntriesAppend(Listed(es[0]), ListedBelow(es[1..]));
    }
  }

  // ---------------------------------------------------------------------------
  // The directories the Dir pass reaches, and listing at a path

  /**
   * The paths the depth-first Dir pass visits from `n` at path `p`, in visiting
   * order: nothing for a symbolic link; otherwise `p` itself (even when it is
   * not a directory, whose listing then fails), then every real subdirectory.
   */
  function ReachedDirs(n: Node, p: Path): seq<Path>
    decreases n
  {
    if n.Symlink? then []
    else [p] + (if n.Directory? && n.listable then ReachedBelow(n.entries, p) else [])
  }

  function ReachedBelow(es: seq<Node>, p: Path): seq<Path>
    decreases es
  {
    if es == [] then []
    else (if es[0].Directory? then ReachedDirs(es[0], Join(p, es[0].name)) else []) + ReachedBelow(es[1..], p)
  }

  /** Every reached path lies under the start path. */
  lemma {:induction false} ReachedUnder(n: Node, p: Path)
    ensures forall k :: 0 <= k < |ReachedDirs(n, p)| ==> IsUnder(ReachedDirs(n, p)[k], p)
    decreases n
  {
    if !n.Symlink? && n.Directory? && n.listable {
      ReachedBelowUnder(n.entries, p);
    }
  }

  lemma {:induction false} ReachedBelowUnder(es: seq<Node>, p: Path)
    ensures forall k :: 0 <= k < |ReachedBelow(es, p)| ==>
      IsUnder(ReachedBelow(es, p)[k], p) && |ReachedBelow(es, p)[k]| > |p|
    decreases es
  {
    if es != [] {
      ReachedBelowUnder(es[1..], p);
      if es[0].Directory? {
        var q := Join(p, es[0].name);
        ReachedUnder(es[0], q);
        var head := ReachedDirs(es[0], q);
        forall k | 0 <= k < |head|
          ensures IsUnder(head[k], p) && |head[k]| > |p|
        {
          assert head[k][..|q|] == q;
          assert head[k][..|p|] == q[..|p|];
        }
      }
    }
  }

  /**
   * The Dir pass visits at most `1 + len(dirs)` summed over the walk, the
   * `total_dirs` the count reports; symbolic links to directories make the
   * count larger than the number of directories visited.
   */
  lemma {:induction false} ReachedWithinCount(n: Node, p: Path)
    requires !n.Symlink?
    ensures |ReachedDirs(n, p)| <= 1 + |DirEntries(Listed(n))|
    ensures NoDirSymlink(n) ==> |ReachedDirs(n, p)| == 1 + |DirEntries(Listed(n))|
    decreases n
  {
    if n.Directory? && n.listable {
      ReachedBelowWithinCount(n.entries, p);
      DirEntriesAppend(n.entries, ListedBelow(n.entries));
    }
  }

  /** No entry anywhere below is a symbolic link to a directory. */
  predicate NoDirSymlink(n: Node)
  {
    forall k :: 0 <= k < |Listed(n)| ==> !(Listed(n)[k].Symlink? && Listed(n)[k].toDirectory)
  }

  predicate NoDirSymlinkIn(es: seq<Node>)
  {
    forall k :: 0 <= k < |es| ==> !(es[k].Symlink? && es[k].toDirectory)
  }

  lemma {:induction false} ReachedBelowWithinCount(es: seq<Node>, p: Path)
    ensures |ReachedBelow(es, p)| <= |DirEntries(es)| + |DirEntries(ListedBelow(es))|
    ensures NoDirSymlinkIn(es + ListedBelow(es)) ==>
      |ReachedBelow(es, p)| == |DirEntries(es)| + |DirEntries(ListedBelow(es))|
    decreases es
  {
    if es != [] {
      var head, tail := es[0], es[1..];
      assert es == [head] + tail;
      ReachedBelowWithinCount(tail, p);
      DirEntriesAppend([head], tail);
      DirEntriesAppend(Listed(head), ListedBelow(tail));
      assert [head][..0] == [];
      if head.Directory? {
        ReachedWithinCount(head, Join(p, head.name));
      }
      if NoDirSymlinkIn(es + ListedBelow(es)) {
        NoDirSymlinkSplit(es);
      }
    }
  }

  /** "No symbolic link to a directory" over a listing and below it holds for its parts. */
  lemma NoDirSymlinkSplit(es: seq<Node>)
    requires es != [] && NoDirSymlinkIn(es + ListedBelow(es))
    ensures NoDirSymlinkIn(es[1..] + ListedBelow(es[1..]))
    ensures es[0].Directory? ==> NoDirSymlink(es[0])
    ensures !(es[0].Symlink? && es[0].toDirectory)
  {
    var head, tail := es[0], es[1..];
    var all := es + ListedBelow(es);
    assert ListedBelow(es) == Listed(head) + ListedBelow(tail);
    forall k | 0 <= k < |tail + ListedBelow(tail)|
      ensures !((tail + ListedBelow(tail))[k].Symlink? && (tail + ListedBelow(tail))[k].toDirectory)
    {
      if k < |tail| {
        assert (tail + ListedBelow(tail))[k] == all[k + 1];
      } else {
        assert (tail + ListedBelow(tail))[k] == all[k + 1 + |Listed(head)|];
      }
    }
    forall k | 0 <= k < |Listed(head)|
      ensures !(Listed(head)[k].Symlink? && Listed(head)[k].toDirectory)
    {
      assert Listed(head)[k] == all[|es| + k];
    }
    assert head == all[0];
  }

  /** The names of a listing, in order. */
  function EntryNames(es: seq<Node>): (r: seq<string>)
    ensures |r| == |es| && forall k :: 0 <= k < |es| ==> r[k] == es[k].name
  {
    seq(|es|, k requires 0 <= k < |es| => es[k].name)
  }

  lemma {:induction false} ReachedBelowShape(es: seq<Node>, p: Path)
    ensures forall k :: 0 <= k < |ReachedBelow(es, p)| ==>
      |ReachedBelow(es, p)[k]| > |p| && ReachedBelow(es, p)[k][|p|] in EntryNames(es)
    decreases es
  {
    if es != [] {
      ReachedBelowShape(es[1..], p);
      var tail := ReachedBelow(es[1..], p);
      forall k | 0 <= k < |tail|
        ensures tail[k][|p|] in EntryNames(es)
      {
        var j :| 0 <= j < |es[1..]| && EntryNames(es[1..])[j] == tail[k][|p|];
        assert EntryNames(es)[j + 1] == tail[k][|p|];
      }
      if es[0].Directory? {
        var q := Join(p, es[0].name);
        ReachedUnder(es[0], q);
        var head := ReachedDirs(es[0], q);
        forall k | 0 <= k < |head|
          ensures |head[k]| > |p| && head[k][|p|] == es[0].name
        {
          assert head[k][..|q|] == q;
          assert head[k][|p|] == head[k][..|q|][|p|];
        }
        assert EntryNames(es)[0] == es[0].name;
      }
    }
  }

  /**
   * In a well-formed tree the Dir pass never reaches the same path twice, so
   * the `dir_lookup` dictionary gets one key per directory visited.
   */
  lemma {:induction false} ReachedDistinct(n: Node, p: Path)
    requires WellFormed(n)
    ensures Distinct(ReachedDirs(n, p))
    decreases n
  {
    if !n.Symlink? && n.Directory? && n.listable {
      ReachedBelowDistinct(n.entries, p);
      ReachedBelowShape(n.entries, p);
      DistinctConcat([p], ReachedBelow(n.entries, p));
    }
  }

  lemma {:induction false} ReachedBelowDistinct(es: seq<Node>, p: Path)
    requires NamesUnique(es) && forall k :: 0 <= k < |es| ==> WellFormed(es[k])
    ensures Distinct(ReachedBelow(es, p))
    decreases es
  {
    if es != [] {
      var tail := ReachedBelow(es[1..], p);
      ReachedBelowDistinct(es[1..], p);
      if es[0].Directory? {
        var q := Join(p, es[0].name);
        var head := ReachedDirs(es[0], q);
        ReachedDistinct(es[0], q);
        ReachedUnder(es[0], q);
        ReachedBelowShape(es[1..], p);
        forall i, j | 0 <= i < |head| && 0 <= j < |tail|
          ensures head[i] != tail[j]
        {
          assert head[i][..|q|] == q;
          assert head[i][|p|] == head[i][..|q|][|p|] == es[0].name;
          var m :| 0 <= m < |es[1..]| && EntryNames(es[1..])[m] == tail[j][|p|];
          assert es[m + 1].name == tail[j][|p|];
        }
        DistinctConcat(head, tail);
      } else {
        assert [] + tail == tail;
      }
    }
  }

  /** The node at path `p`, searching from node `n` that sits at path `at`. */
  function NodeAt(n: Node, at: Path, p: Path): Option<Node>
    decreases n
  {
    if p == at then Some(n)
    else if n.Directory? && |p| > |at| && p[..|at|] == at then ChildAt(n.entries, at, p)
    else None
  }

  function ChildAt(es: seq<Node>, at: Path, p: Path): Option<Node>
    requires |p| > |at|
    decreases es
  {
    if es == [] then None
    else if es[0].name == p[|at|] then NodeAt(es[0], Join(at, es[0].name), p)
    else ChildAt(es[1..], at, p)
  }

  /** `list(p.iterdir())` in the tree rooted at `root`, which sits at `rootPath`. */
  function ListDirAt(root: Node, rootPath: Path, p: Path): (r: Option<seq<Node>>)
    ensures r.Some? ==> NodeAt(root, rootPath, p).Some?
  {
    match NodeAt(root, rootPath, p)
    case None => None
    case Some(n) => Listing(n)
  }

  /** Every node inside a well-formed tree is well-formed. */
  lemma {:induction false} NodeAtWellFormed(n: Node, at: Path, p: Path)
    requires WellFormed(n)
    ensures NodeAt(n, at, p).Some? ==> WellFormed(NodeAt(n, at, p).value)
    decreases n, 1
  {
    if p != at && n.Directory? && |p| > |at| && p[..|at|] == at {
      ChildAtWellFormed(n.entries, at, p);
    }
  }

  lemma {:induction false} ChildAtWellFormed(es: seq<Node>, at: Path, p: Path)
    requires |p| > |at| && forall k :: 0 <= k < |es| ==> WellFormed(es[k])
    ensures ChildAt(es, at, p).Some? ==> WellFormed(ChildAt(es, at, p).value)
    decreases es, 0
  {
    if es != [] {
      if es[0].name == p[|at|] {
        NodeAtWellFormed(es[0], Join(at, es[0].name), p);
      } else {
        ChildAtWellFormed(es[1..], at, p);
      }
    }
  }

  /** A listing taken anywhere in a well-formed tree names each entry once. */
  lemma ListDirAtNamesUnique(root: Node, rootPath: Path, p: Path)
    requires WellFormed(root)
    ensures ListDirAt(root, rootPath, p).Some? ==> NamesUnique(ListDirAt(root, rootPath, p).value)
  {
    NodeAtWellFormed(root, rootPath, p);
  }
}
