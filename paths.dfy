/**
 * POSIX `pathlib` paths as the core uses them. An absolute path is the list of
 * its segments (`/home/tim` is ["home", "tim"], `/` is []), which is how
 * `pathlib` stores it after dropping empty and "." parts.
 */
module Paths {
  import opened Base
  import opened Text

  type Path = seq<string>

  /** A name `iterdir` can return: not empty, not ".", no separator. */
  predicate IsSegment(s: string)
  {
    s != "" && s != "." && '/' !in s
  }

  predicate ValidPath(p: Path)
  {
    forall k :: 0 <= k < |p| ==> IsSegment(p[k])
  }

  /** "/a/b/c" for ["a", "b", "c"], "" for []. */
  function SlashJoin(p: Path): string
  {
    if p == [] then "" else "/" + p[0] + SlashJoin(p[1..])
  }

  /** `str(path)`. */
  function ToStr(p: Path): string
  {
    if p == [] then "/" else SlashJoin(p)
  }

  /** `path.name`: the last segment, "" for the root. */
  function Name(p: Path): string
  {
    if p == [] then "" else p[|p| - 1]
  }

  /** `path / name` for one name returned by `iterdir` (never empty, never holding '/'). */
  function Join(p: Path, name: string): (r: Path)
    ensures |r| == |p| + 1 && r[..|p|] == p && Name(r) == name
  {
    p + [name]
  }

  /** `p` is `q / name` for some name: `q` is `p.parent`. */
  predicate ChildOf(p: Path, q: Path)
  {
    |p| == |q| + 1 && p[..|q|] == q
  }

  /** `Path(*names)` for single names: empty names contribute nothing. */
  function FromNames(names: seq<string>): (p: Path)
    ensures |p| <= |names|
  {
    if names == [] then []
    else if names[0] == "" then FromNames(names[1..])
    else [names[0]] + FromNames(names[1..])
  }

  // ---------------------------------------------------------------------------
  // Parsing a string into segments

  /** The pieces of `s` between '/' characters (`s.split("/")`). */
  function SplitSlash(s: string): (r: seq<string>)
    ensures |r| >= 1
    decreases |s|
  {
    if '/' !in s then [s]
    else
      var i := IndexOfSlash(s);
      [s[..i]] + SplitSlash(s[i + 1..])
  }

  function IndexOfSlash(s: string): (i: nat)
    requires '/' in s
    ensures i < |s| && s[i] == '/' && '/' !in s[..i]
  {
    if s[0] == '/' then 0
    else
      var j := IndexOfSlash(s[1..]);
      assert s[..j + 1] == [s[0]] + s[1..][..j];
      j + 1
  }

  /** Pieces that `pathlib` keeps: not empty and not ".". */
  function KeepParts(parts: seq<string>): (r: Path)
    ensures |r| <= |parts|
  {
    if parts == [] then []
    else if parts[0] == "" || parts[0] == "." then KeepParts(parts[1..])
    else [parts[0]] + KeepParts(parts[1..])
  }

  /** The segments of `Path(s)`; whether `s` was absolute is `StartsWith(s, "/")`. */
  function Parse(s: string): Path
  {
    KeepParts(SplitSlash(s))
  }

  /** A name without '/' followed by '/' is the first piece of the split. */
  lemma SplitSlashCons(a: string, rest: string)
    requires '/' !in a
    ensures SplitSlash(a + "/" + rest) == [a] + SplitSlash(rest)
  {
    var s := a + "/" + rest;
    assert s[|a|] == '/' && s[..|a|] == a && s[|a| + 1..] == rest;
    assert IndexOfSlash(s) == |a|;
  }

  lemma {:induction false} SplitSlashOfJoin(a: string, t: Path)
    requires IsSegment(a) && ValidPath(t)
    ensures KeepParts(SplitSlash(a + SlashJoin(t))) == [a] + t
    decreases |t|
  {
    if t == [] {
      assert a + SlashJoin(t) == a;
    } else {
      var rest := t[0] + SlashJoin(t[1..]);
      assert a + SlashJoin(t) == a + "/" + rest;
      SplitSlashCons(a, rest);
      SplitSlashOfJoin(t[0], t[1..]);
      var pieces := SplitSlash(rest);
      assert ([a] + pieces)[1..] == pieces;
      assert KeepParts([a] + pieces) == [a] + KeepParts(pieces);
      assert [t[0]] + t[1..] == t;
    }
  }

  /** `Path(str(p))` is `p` again: the string form loses nothing. */
  lemma ParseToStr(p: Path)
    requires ValidPath(p)
    ensures Parse(ToStr(p)) == p
  {
    if p != [] {
      var s := ToStr(p);
      assert s == "/" + (p[0] + SlashJoin(p[1..]));
      assert s[0] == '/';
      assert IndexOfSlash(s) == 0;
      assert SplitSlash(s) == [""] + SplitSlash(s[1..]);
      assert ([""] + SplitSlash(s[1..]))[1..] == SplitSlash(s[1..]);
      assert s[1..] == p[0] + SlashJoin(p[1..]);
      SplitSlashOfJoin(p[0], p[1..]);
      var rest := SplitSlash(s[1..]);
      assert KeepParts([""] + rest) == KeepParts(rest);
      assert [p[0]] + p[1..] == p;
    } else {
      assert IndexOfSlash("/") == 0;
      assert "/"[1..] == "";
      assert SplitSlash("/") == ["", ""];
    }
  }

  /** Distinct valid paths have distinct strings, so equal strings mean the same directory. */
  lemma ToStrInjective(p: Path, q: Path)
    requires ValidPath(p) && ValidPath(q) && ToStr(p) == ToStr(q)
    ensures p == q
  {
    ParseToStr(p);
    ParseToStr(q);
  }

  // ---------------------------------------------------------------------------
  // relative_to

  predicate IsUnder(p: Path, base: Path)
  {
    |base| <= |p| && p[..|base|] == base
  }

  /** `p.relative_to(base)`: the rest of `p` when `base` is a prefix of it, else the ValueError. */
  function RelativeTo(p: Path, base: Path): Option<Path>
  {
    if IsUnder(p, base) then Some(p[|base|..]) else None
  }

  /** `relative_to` succeeds exactly under `base`, and `base / relative` is the path again. */
  lemma RelativeToSpec(p: Path, base: Path)
    ensures RelativeTo(p, base).Some? <==> IsUnder(p, base)
    ensures RelativeTo(p, base).Some? ==> base + RelativeTo(p, base).value == p
  {
    if IsUnder(p, base) {
      assert p == p[..|base|] + p[|base|..];
    }
  }
}
