/**
 * `create_mapping_from_db`: the rows that still need exporting become lines of
 * a `xorriso -map_l` mapping list ("<source> <destination on disc>"), followed
 * by one line for the index database file and one for a small JSON metadata
 * file; the exported rows are then flagged `is_safed`.
 *
 * The query `select(File).join(Dir).where(File.is_valid == True)` is read in
 * ascending id order here (SQLite's usual order for it); file writes are
 * returned as text instead of being written.
 */
module Staging {
  import opened Base
  import opened Text
  import opened Paths
  import opened Store

  /** What one run produces: the mapping lines and their text, the meta file's path and text, the exported ids. */
  datatype Staged = Staged(lines: seq<string>, mapping: string, metaPath: Path, meta: string, fileIds: seq<FileId>)

  const MetaSuffix: string := ".meta.json"
  const MetaName: string := "meta.json"
  const CountKey: string := "  \"file_count\": "

  // ---------------------------------------------------------------------------
  // Which rows are exported

  /** The ids of `files` below `bound`, in ascending order. */
  function IdsBelow(files: map<FileId, FileRow>, bound: nat): (r: seq<FileId>)
    ensures forall id :: id in r <==> id in files && id < bound
    ensures forall i, j :: 0 <= i < j < |r| ==> r[i] < r[j]
  {
    if bound == 0 then []
    else
      var below := IdsBelow(files, bound - 1);
      assert forall k :: 0 <= k < |below| ==> below[k] in below;
      below + (if bound - 1 in files then [bound - 1] else [])
  }

  /** A row the join and the two filters let through: valid, its Dir present, not yet saved. */
  predicate Pending(t: Tables, id: FileId)
  {
    id in t.files && t.files[id].isValid && t.files[id].dir in t.dirs && !t.files[id].isSafed
  }

  /** `file_obj.path` can be computed for every pending row: no parent chain runs in a cycle. */
  predicate PathsEnd(t: Tables)
  {
    forall id :: id in t.files && Pending(t, id) ==> ChainEnds(t.dirs, t.files[id].dir)
  }

  /** A pending row whose path lies under `base`: it gets a data line. */
  predicate Emits(t: Tables, base: Path, id: FileId)
    requires PathsEnd(t)
  {
    Pending(t, id) && IsUnder(FilePath(t, id), base)
  }

  /** The ids the loop exports, in the order it meets them. */
  function Emitted(t: Tables, base: Path, ids: seq<FileId>): (r: seq<FileId>)
    requires PathsEnd(t)
    ensures |r| <= |ids|
    ensures forall k :: 0 <= k < |r| ==> r[k] in ids && Pending(t, r[k])
  {
    if ids == [] then []
    else
      var last := ids[|ids| - 1];
      Emitted(t, base, ids[..|ids| - 1]) + (if Emits(t, base, last) then [last] else [])
  }

  function Members(ids: seq<FileId>): set<FileId>
  {
    set k | 0 <= k < |ids| :: ids[k]
  }

  // ---------------------------------------------------------------------------
  // The lines

  /**
   * `Path("/") / data_dir / src.relative_to(base)`; None where `relative_to`
   * raises. The destination sits under the data directory, and swapping the
   * data directory back for `base` gives the source again.
   */
  function Destination(src: Path, base: Path, dataDir: string): (d: Option<Path>)
    ensures d.Some? <==> IsUnder(src, base)
    ensures d.Some? ==> IsUnder(d.value, Parse(dataDir)) && base + d.value[|Parse(dataDir)|..] == src
  {
    RelativeToSpec(src, base);
    match RelativeTo(src, base)
    case None => None
    case Some(rel) =>
      assert (Parse(dataDir) + rel)[|Parse(dataDir)|..] == rel;
      Some(Parse(dataDir) + rel)
  }

  /** `f"{src} {dest}"` for one exported row. */
  function DataLine(t: Tables, base: Path, dataDir: string, id: FileId): string
    requires PathsEnd(t) && Pending(t, id)
  {
    var src := FilePath(t, id);
    match Destination(src, base, dataDir)
    case None => ""
    case Some(dest) => ToStr(src) + " " + ToStr(dest)
  }

  function DataLines(t: Tables, base: Path, dataDir: string, es: seq<FileId>): (r: seq<string>)
    requires PathsEnd(t) && forall k :: 0 <= k < |es| ==> Pending(t, es[k])
    ensures |r| == |es| && forall k :: 0 <= k < |es| ==> r[k] == DataLine(t, base, dataDir, es[k])
  {
    seq(|es|, k requires 0 <= k < |es| => DataLine(t, base, dataDir, es[k]))
  }

  /** The database file goes to `/<backup_dir>/<its name>`. */
  function DbLine(dbFile: Path, backupDir: string): string
  {
    ToStr(dbFile) + " " + ToStr(Parse(backupDir) + Parse(Name(dbFile)))
  }

  /** The metadata file goes to `/<backup_dir>/meta.json`. */
  function MetaLine(metaPath: Path, backupDir: string): string
  {
    ToStr(metaPath) + " " + ToStr(Parse(backupDir) + [MetaName])
  }

  /** The two lines after the data lines: the database file, then the meta file. */
  function Trailer(dbFile: Path, metaPath: Path, backupDir: string): seq<string>
  {
    [DbLine(dbFile, backupDir), MetaLine(metaPath, backupDir)]
  }

  // ---------------------------------------------------------------------------
  // with_suffix

  /** `name.rfind('.')`: the last index holding '.', or -1. */
  function LastDot(name: string): (i: int)
    ensures -1 <= i < |name|
    ensures i >= 0 ==> name[i] == '.'
    ensures forall k :: i < k < |name| ==> name[k] != '.'
  {
    if name == [] then -1
    else if name[|name| - 1] == '.' then |name| - 1
    else LastDot(name[..|name| - 1])
  }

  /** `PurePath.suffix`: from the last dot, unless that dot leads the name or ends it. */
  function Suffix(name: string): (s: string)
    ensures |s| <= |name| && s == name[|name| - |s|..]
    ensures s != "" ==> s[0] == '.' && '.' !in s[1..] && |s| >= 2 && |s| < |name|
  {
    var i := LastDot(name);
    if 0 < i < |name| - 1 then name[i..] else ""
  }

  function Stem(name: string): (s: string)
    ensures name == s + Suffix(name)
  {
    name[..|name| - |Suffix(name)|]
  }

  /**
   * `Path(output_file).with_suffix(suffix)`: the last suffix of the name is
   * replaced (or the suffix appended); a path with an empty name is a ValueError.
   */
  function WithSuffix(p: Path, suffix: string): (r: Result<Path, string>)
    ensures r.Err? <==> Name(p) == ""
    ensures r.Ok? ==>
      |r.value| == |p| && r.value[..|p| - 1] == p[..|p| - 1] && Name(r.value) == Stem(Name(p)) + suffix
  {
    if Name(p) == "" then Err("has an empty name")
    else Ok(p[..|p| - 1] + [Stem(Name(p)) + suffix])
  }

  /** Giving the mapping file the meta suffix keeps its stem and leaves ".json" as the new suffix. */
  lemma MetaPathSuffix(p: Path)
    requires Name(p) != ""
    ensures var m := Name(WithSuffix(p, MetaSuffix).value);
      Suffix(m) == ".json" && Stem(m) == Stem(Name(p)) + ".meta"
  {
    var stem := Stem(Name(p));
    var m := Name(WithSuffix(p, MetaSuffix).value);
    MetaSuffixParts();
    AppendAssoc(stem, ".meta", ".json");
    assert m == (stem + ".meta") + ".json";
    JsonTail(stem + ".meta");
  }

  lemma MetaSuffixParts()
    ensures MetaSuffix == ".meta" + ".json"
  {
  }

  /** A name ending in ".json" after a non-empty `head` has ".json" as suffix and `head` as stem. */
  lemma JsonTail(head: string)
    requires head != ""
    ensures Suffix(head + ".json") == ".json" && Stem(head + ".json") == head
  {
    var m := head + ".json";
    LastDotOfTail(head, ".json");
    assert m[|head|..] == ".json" && m[..|m| - 5] == head;
  }

  /** A name that ends in a dot followed by no other dot has its last dot there. */
  lemma LastDotOfTail(a: string, b: string)
    requires b != [] && b[0] == '.' && forall k :: 1 <= k < |b| ==> b[k] != '.'
    ensures LastDot(a + b) == |a|
  {
    var j := LastDot(a + b);
    assert (a + b)[|a|] == '.';
    assert forall k :: |a| < k < |a + b| ==> (a + b)[k] == b[k - |a|];
  }

  // ---------------------------------------------------------------------------
  // The metadata file

  /** Text `json.dumps` writes unchanged between quotes: printable ASCII without '"' or '\'. */
  predicate JsonPlain(s: string)
  {
    forall k :: 0 <= k < |s| ==> ' ' <= s[k] <= '~' && s[k] != '"' && s[k] != '\\'
  }

  /** `json.dumps({"timestamp": iso + "Z", "file_count": n}, indent=2)`. */
  function MetaJson(isoTime: string, count: nat): string
  {
    JoinLines(["{", "  \"timestamp\": \"" + isoTime + "Z\",", CountKey + IntToDecimal(count), "}"])
  }

  /** A reader of the meta file: the number on its `file_count` line. */
  function ReadFileCount(json: string): Option<int>
  {
    var ls := SplitLines(json);
    if |ls| == 4 && StartsWith(ls[2], CountKey) then Some(ParseInt(ls[2][|CountKey|..])) else None
  }

  lemma NoLineBreakConcat(a: string, b: string)
    requires NoLineBreak(a) && NoLineBreak(b)
    ensures NoLineBreak(a + b)
  {
    forall k | 0 <= k < |a + b|
      ensures !IsLineBreak((a + b)[k])
    {
      if k >= |a| {
        assert (a + b)[k] == b[k - |a|];
      }
    }
  }

  /** The meta file states the count it was written with. */
  lemma MetaCountReadsBack(isoTime: string, count: nat)
    requires JsonPlain(isoTime)
    ensures ReadFileCount(MetaJson(isoTime, count)) == Some(count)
  {
    var digits := IntToDecimal(count);
    assert NoLineBreak(digits);
    NoLineBreakConcat("  \"timestamp\": \"", isoTime);
    NoLineBreakConcat("  \"timestamp\": \"" + isoTime, "Z\",");
    NoLineBreakConcat(CountKey, digits);
    var ls := ["{", "  \"timestamp\": \"" + isoTime + "Z\",", CountKey + digits, "}"];
    SplitLinesOfJoin(ls);
    assert (CountKey + digits)[|CountKey|..] == digits;
    IntToDecimalRoundTrip(count);
  }

  // ---------------------------------------------------------------------------
  // The operation

  /** One row of the query result: its data line, or None when it is skipped. */
  method LineFor(db: Db, ghost t: Tables, id: FileId, base: Path, dataDir: string) returns (line: Option<string>)
    requires t == db.Current() && PathsEnd(t) && id in t.files
    ensures line.Some? <==> Emits(t, base, id)
    ensures line.Some? ==> Pending(t, id) && line.value == DataLine(t, base, dataDir, id)
  {
    var row := db.files[id];
    if !(row.isValid && row.dir in db.dirs && !row.isSafed) {
      return None;
    }
    var dirPath := db.FullPathOf(row.dir);
    var src := Join(dirPath, row.name);
    assert src == FilePath(t, id);
    var relative := RelativeTo(src, base);
    if relative.None? {
      return None;
    }
    var dest := Parse(dataDir) + relative.value;
    line := Some(ToStr(src) + " " + ToStr(dest));
  }

  /**
   * The loop over the query result: a data line and an id for every pending
   * row whose path `relative_to(base)` accepts; the others are skipped.
   */
  method CollectDataLines(db: Db, base: Path, dataDir: string) returns (lines: seq<string>, fileIds: seq<FileId>)
    requires PathsEnd(db.Current())
    ensures fileIds == Emitted(db.Current(), base, IdsBelow(db.files, db.nextFile))
    ensures lines == DataLines(db.Current(), base, dataDir, fileIds)
  {
    ghost var t := db.Current();
    var ids := IdsBelow(db.files, db.nextFile);
    lines, fileIds := [], [];
    for i := 0 to |ids|
      invariant fileIds == Emitted(t, base, ids[..i])
      invariant lines == DataLines(t, base, dataDir, fileIds)
    {
      var line := LineFor(db, t, ids[i], base, dataDir);
      CollectStep(t, base, dataDir, ids, i, fileIds, lines, line);
      if line.Some? {
        lines := lines + [line.value];
        fileIds := fileIds + [ids[i]];
      }
    }
    assert ids[..|ids|] == ids;
  }

  /** One turn of the loop keeps the lines and ids equal to their specification. */
  lemma CollectStep(t: Tables, base: Path, dataDir: string, ids: seq<FileId>, i: nat,
                    fileIds: seq<FileId>, lines: seq<string>, line: Option<string>)
    requires PathsEnd(t) && i < |ids|
    requires fileIds == Emitted(t, base, ids[..i]) && lines == DataLines(t, base, dataDir, fileIds)
    requires line.Some? <==> Emits(t, base, ids[i])
    requires line.Some? ==> line.value == DataLine(t, base, dataDir, ids[i])
    ensures line.Some? ==>
      fileIds + [ids[i]] == Emitted(t, base, ids[..i + 1])
      && lines + [line.value] == DataLines(t, base, dataDir, fileIds + [ids[i]])
    ensures line.None? ==> fileIds == Emitted(t, base, ids[..i + 1])
  {
    assert ids[..i + 1][..i] == ids[..i];
    if line.Some? {
      DataLinesAppend(t, base, dataDir, fileIds, ids[i]);
    }
  }

  lemma DataLinesAppend(t: Tables, base: Path, dataDir: string, es: seq<FileId>, id: FileId)
    requires PathsEnd(t) && Pending(t, id) && forall k :: 0 <= k < |es| ==> Pending(t, es[k])
    ensures DataLines(t, base, dataDir, es + [id]) == DataLines(t, base, dataDir, es) + [DataLine(t, base, dataDir, id)]
  {
    assert (es + [id])[..|es|] == es;
  }

  /** Lines 74-78: flag the exported rows as saved and commit, only when there are any. */
  method MarkExported(db: Db, fileIds: seq<FileId>)
    requires db.Valid()
    modifies db
    ensures db.Valid()
    ensures db.dirs == old(db.dirs) && db.scans == old(db.scans) && db.nextFile == old(db.nextFile)
    ensures db.files == Safed(old(db.files), Members(fileIds))
    ensures fileIds == [] ==> db.durable == old(db.durable) && db.commits == old(db.commits)
    ensures fileIds != [] ==> db.durable == db.Current() && db.commits == old(db.commits) + 1
  {
    if fileIds != [] {
      db.MarkSafed(Members(fileIds));
      db.Commit();
    } else {
      assert Safed(db.files, {}) == db.files;
    }
  }

  /**
   * `create_mapping_from_db`: one data line per pending row under `base`, in
   * query order, then the database line and the meta line; the meta file
   * counts the data lines. Exactly the exported rows are flagged `is_safed`,
   * and only a run that exported something updates and commits. A mapping
   * file name that `with_suffix` refuses ends the run before anything is
   * written or changed.
   */
  method CreateMappingFromDb(db: Db, base: Path, dbFile: Path, outputFile: Path,
                             backupDir: string, dataDir: string, isoTime: string)
    returns (r: Result<Staged, string>)
    requires db.Valid() && PathsEnd(db.Current())
    modifies db
    ensures db.Valid()
    ensures db.dirs == old(db.dirs) && db.scans == old(db.scans)
    ensures r.Err? <==> Name(outputFile) == ""
    ensures r.Err? ==> db.files == old(db.files) && db.durable == old(db.durable) && db.commits == old(db.commits)
    ensures r.Ok? ==>
      var t := old(db.Current());
      var es := Emitted(t, base, IdsBelow(t.files, old(db.nextFile)));
      var metaPath := WithSuffix(outputFile, MetaSuffix).value;
      && r.value.fileIds == es
      && r.value.lines == DataLines(t, base, dataDir, es) + Trailer(dbFile, metaPath, backupDir)
      && r.value.mapping == JoinLines(r.value.lines)
      && r.value.metaPath == metaPath
      && r.value.meta == MetaJson(isoTime, |es|)
      && db.files == Safed(t.files, Members(es))
      && (es == [] ==> db.durable == old(db.durable) && db.commits == old(db.commits))
      && (es != [] ==> db.durable == db.Current() && db.commits == old(db.commits) + 1)
  {
    var data, fileIds := CollectDataLines(db, base, dataDir);
    var metaPath := WithSuffix(outputFile, MetaSuffix);
    if metaPath.Err? {
      return Err(metaPath.error);
    }
    var lines := data + Trailer(dbFile, metaPath.value, backupDir);
    var staged := Staged(lines, JoinLines(lines), metaPath.value, MetaJson(isoTime, |fileIds|), fileIds);
    MarkExported(db, fileIds);
    r := Ok(staged);
  }

  // ---------------------------------------------------------------------------
  // Properties

  /** A row is exported exactly when the loop meets it, it is pending, and its path lies under `base`. */
  lemma {:induction false} EmittedExactly(t: Tables, base: Path, ids: seq<FileId>, x: FileId)
    requires PathsEnd(t)
    ensures x in Emitted(t, base, ids) <==> x in ids && Emits(t, base, x)
    decreases |ids|
  {
    if ids != [] {
      var init := ids[..|ids| - 1];
      EmittedExactly(t, base, init, x);
      assert ids == init + [ids[|ids| - 1]];
    }
  }

  /** Exported ids keep the query's ascending order, so no row is exported twice. */
  lemma {:induction false} EmittedAscending(t: Tables, base: Path, ids: seq<FileId>)
    requires PathsEnd(t) && Ascending(ids)
    ensures Ascending(Emitted(t, base, ids))
    decreases |ids|
  {
    if ids != [] {
      var init := ids[..|ids| - 1];
      var last := ids[|ids| - 1];
      EmittedAscending(t, base, init);
      var prev := Emitted(t, base, init);
      forall k | 0 <= k < |prev|
        ensures prev[k] < last
      {
        var m :| 0 <= m < |init| && init[m] == prev[k];
        assert ids[m] == init[m];
      }
      if Emits(t, base, last) {
        AscendingSnoc(prev, last);
      }
    }
  }

  /**
   * A second run over the rows the first one left finds nothing to export:
   * every exported row is now saved, and every other row is as it was.
   */
  lemma StagingIdempotent(t: Tables, base: Path, ids: seq<FileId>)
    requires PathsEnd(t)
    ensures var t' := t.(files := Safed(t.files, Members(Emitted(t, base, ids))));
      PathsEnd(t') && Emitted(t', base, ids) == []
  {
    var es := Emitted(t, base, ids);
    var t' := t.(files := Safed(t.files, Members(es)));
    assert forall id :: Pending(t', id) ==> Pending(t, id) && t'.files[id] == t.files[id];
    assert PathsEnd(t');
    var again := Emitted(t', base, ids);
    if again != [] {
      var x := again[0];
      EmittedExactly(t', base, ids, x);
      assert Pending(t', x) && t'.files[x] == t.files[x];
      assert FilePath(t', x) == FilePath(t, x);
      EmittedExactly(t, base, ids, x);
      assert false;
    }
  }

  /**
   * The mapping text splits back into its lines when no path holds a line
   * break: one line per exported row, then the database line, then the meta line.
   */
  lemma MappingSplitsBack(data: seq<string>, dbLine: string, metaLine: string)
    requires forall k :: 0 <= k < |data| ==> NoLineBreak(data[k])
    requires NoLineBreak(dbLine) && NoLineBreak(metaLine) && metaLine != ""
    ensures var ls := SplitLines(JoinLines(data + [dbLine, metaLine]));
      |ls| == |data| + 2 && ls[..|data|] == data && ls[|data|] == dbLine && ls[|data| + 1] == metaLine
  {
    var all := data + [dbLine, metaLine];
    SplitLinesOfJoin(all);
    assert all[..|data|] == data;
  }
}
