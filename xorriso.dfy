/**
 * The helpers around the `xorriso` disc tool: the mapping list for one
 * session directory, the argument vectors handed to `subprocess.run`, and the
 * reading of `-toc` output. Running the process is not modelled; its standard
 * output is a parameter.
 */
module Xorriso {
  import opened Base
  import opened Text
  import opened Paths

  // ---------------------------------------------------------------------------
  // Paths: a leading or trailing '/' does not change the directory a string names

  lemma {:induction false} KeepPartsDropsLastEmpty(parts: seq<string>)
    ensures KeepParts(parts + [""]) == KeepParts(parts)
    decreases |parts|
  {
    if parts == [] {
      assert KeepParts([""]) == KeepParts([]);
    } else {
      assert (parts + [""])[1..] == parts[1..] + [""];
      KeepPartsDropsLastEmpty(parts[1..]);
    }
  }

  lemma SplitSlashSnocPlain(s: string)
    requires '/' !in s
    ensures SplitSlash(s + "/") == [s, ""]
  {
    SplitSlashCons(s, "");
    assert s + "/" + "" == s + "/";
  }

  lemma SplitSlashSnocStep(s: string)
    requires '/' in s
    ensures var i := IndexOfSlash(s);
      SplitSlash(s + "/") == [s[..i]] + SplitSlash(s[i + 1..] + "/")
  {
    var i := IndexOfSlash(s);
    var head, rest := s[..i], s[i + 1..];
    assert s + "/" == head + "/" + (rest + "/");
    SplitSlashCons(head, rest + "/");
  }

  lemma {:induction false} SplitSlashSnoc(s: string)
    ensures SplitSlash(s + "/") == SplitSlash(s) + [""]
    decreases |s|
  {
    if '/' !in s {
      SplitSlashSnocPlain(s);
    } else {
      SplitSlashSnocStep(s);
      SplitSlashSnoc(s[IndexOfSlash(s) + 1..]);
    }
  }

  lemma ParseLeadingSlash(s: string)
    ensures Parse("/" + s) == Parse(s)
  {
    SplitSlashCons("", s);
    assert "" + "/" + s == "/" + s;
  }

  lemma ParseTrailingSlash(s: string)
    ensures Parse(s + "/") == Parse(s)
  {
    SplitSlashSnoc(s);
    KeepPartsDropsLastEmpty(SplitSlash(s));
  }

  lemma ParseDropFirst(s: string)
    requires s != [] && s[0] == '/'
    ensures Parse(s) == Parse(s[1..])
  {
    assert s == "/" + s[1..];
    ParseLeadingSlash(s[1..]);
  }

  lemma ParseDropLast(s: string)
    requires s != [] && s[|s| - 1] == '/'
    ensures Parse(s) == Parse(s[..|s| - 1])
  {
    assert s == s[..|s| - 1] + "/";
    ParseTrailingSlash(s[..|s| - 1]);
  }

  lemma {:induction false} ParseStripLeft(s: string)
    ensures Parse(StripLeft(s, '/')) == Parse(s)
    decreases |s|
  {
    if s != [] && s[0] == '/' {
      ParseDropFirst(s);
      ParseStripLeft(s[1..]);
    }
  }

  lemma {:induction false} ParseStripRight(s: string)
    ensures Parse(StripRight(s, '/')) == Parse(s)
    decreases |s|
  {
    if s != [] && s[|s| - 1] == '/' {
      ParseDropLast(s);
      ParseStripRight(s[..|s| - 1]);
    }
  }

  /** `session_dir.strip("/")` names the same directory under "/" as `session_dir` itself. */
  lemma StripSessionDirSameDir(sessionDir: string)
    ensures Parse(Strip(sessionDir, '/')) == Parse(sessionDir)
  {
    ParseStripLeft(sessionDir);
    ParseStripRight(StripLeft(sessionDir, '/'));
  }

  // ---------------------------------------------------------------------------
  // build_mapping_list

  /** `Path("/") / session_dir.strip("/") / src.name`. */
  function SessionDestination(src: Path, sessionDir: string): Path
  {
    Parse(Strip(sessionDir, '/')) + Parse(Name(src))
  }

  function MappingLine(src: Path, sessionDir: string): string
  {
    ToStr(src) + " " + ToStr(SessionDestination(src, sessionDir))
  }

  /** A named file lands directly in the session directory under its own name. */
  lemma SessionDestinationKeepsName(src: Path, sessionDir: string)
    requires ValidPath(src) && src != []
    ensures var d := SessionDestination(src, sessionDir);
      |d| == |Parse(sessionDir)| + 1 && d[..|d| - 1] == Parse(sessionDir) && Name(d) == Name(src)
  {
    StripSessionDirSameDir(sessionDir);
    assert IsSegment(src[|src| - 1]);
    ParseSegment(Name(src));
  }

  lemma ParseSegment(name: string)
    requires IsSegment(name)
    ensures Parse(name) == [name]
  {
    assert SplitSlash(name) == [name];
  }

  /**
   * `build_mapping_list` for resolved sources: one line per file, in input
   * order, joined with "\n" and no newline at the end.
   */
  method BuildMappingList(sources: seq<Path>, sessionDir: string) returns (lines: seq<string>, text: string)
    ensures |lines| == |sources|
    ensures forall k :: 0 <= k < |sources| ==> lines[k] == MappingLine(sources[k], sessionDir)
    ensures text == JoinLines(lines)
  {
    var dir := Strip(sessionDir, '/');
    lines := [];
    for i := 0 to |sources|
      invariant |lines| == i
      invariant forall k :: 0 <= k < i ==> lines[k] == MappingLine(sources[k], sessionDir)
    {
      var src := sources[i];
      var dest := Parse(dir) + Parse(Name(src));
      var line := ToStr(src) + " " + ToStr(dest);
      AppendMappingLine(sources, sessionDir, lines, line);
      lines := lines + [line];
    }
    text := JoinLines(lines);
  }

  lemma AppendMappingLine(sources: seq<Path>, sessionDir: string, lines: seq<string>, line: string)
    requires |lines| < |sources| && line == MappingLine(sources[|lines|], sessionDir)
    requires forall k :: 0 <= k < |lines| ==> lines[k] == MappingLine(sources[k], sessionDir)
    ensures forall k :: 0 <= k < |lines| + 1 ==> (lines + [line])[k] == MappingLine(sources[k], sessionDir)
  {
  }

  /** Where no path holds a line break, the written list reads back as one line per source. */
  lemma MappingListSplitsBack(sources: seq<Path>, sessionDir: string, lines: seq<string>)
    requires |lines| == |sources|
    requires forall k :: 0 <= k < |sources| ==> lines[k] == MappingLine(sources[k], sessionDir)
    requires forall k :: 0 <= k < |sources| ==> NoLineBreak(lines[k])
    ensures SplitLines(JoinLines(lines)) == lines
  {
    if lines != [] {
      var last := |lines| - 1;
      assert lines[last][|ToStr(sources[last])|] == ' ';
    }
    SplitLinesOfJoin(lines);
  }

  // ---------------------------------------------------------------------------
  // Argument vectors

  /** `run_xorriso`: write the mapped files as a new session, and close the disc only when asked. */
  function RunXorrisoArgv(device: string, mappingFile: Path, finalize: bool): (argv: seq<string>)
    ensures |argv| >= 7 && argv[..2] == ["sudo", "xorriso"] && argv[2] == "-dev" && argv[3] == device && argv[4] == "-map_l" && argv[5] == ToStr(mappingFile)
    ensures argv[6] == "-commit"
    ensures (argv[7..] == ["-close", "on"]) <==> finalize
    ensures !finalize ==> |argv| == 7
  {
    var cmd := ["sudo", "xorriso", "-dev", device, "-map_l", ToStr(mappingFile), "-commit"];
    if finalize then cmd + ["-close", "on"] else cmd
  }

  /** `list_sessions`: print the table of contents of the medium. */
  function ListSessionsArgv(device: string): (argv: seq<string>)
    ensures |argv| == 5 && argv[..2] == ["sudo", "xorriso"] && argv[2] == "-indev" && argv[3] == device && argv[4] == "-toc"
  {
    ["sudo", "xorriso", "-indev", device, "-toc"]
  }

  /**
   * `extract_session`: load session `n` and copy the whole tree out; the
   * session number travels as its decimal text, which reads back as `n`.
   */
  function ExtractSessionArgv(device: string, n: int, outDir: Path): (argv: seq<string>)
    ensures |argv| == 12 && argv[..2] == ["sudo", "xorriso"] && argv[2] == "-indev" && argv[3] == device
    ensures argv[4] == "-load" && argv[5] == "session_no" && ParseInt(argv[6]) == n
    ensures argv[7] == "-osirrox" && argv[8] == "on" && argv[9] == "-extract" && argv[10] == "/" && argv[11] == ToStr(outDir)
  {
    IntToDecimalRoundTrip(n);
    ["sudo", "xorriso", "-indev", device, "-load", "session_no", IntToDecimal(n),
     "-osirrox", "on", "-extract", "/", ToStr(outDir)]
  }

  /** `verify_disc`: check the MD5 sums recorded on the medium, failing on a mismatch. */
  function VerifyDiscArgv(device: string): (argv: seq<string>)
    ensures |argv| == 6 && argv[..2] == ["sudo", "xorriso"] && argv[2] == "-indev" && argv[3] == device
    ensures argv[4] == "-check_md5" && argv[5] == "FAILURE"
  {
    ["sudo", "xorriso", "-indev", device, "-check_md5", "FAILURE"]
  }

  // ---------------------------------------------------------------------------
  // list_sessions: reading `-toc`

  datatype SessionInfo = SessionInfo(number: string, raw: string)

  const SessionPrefix: string := "ISO session"

  /** A `-toc` line `list_sessions` keeps: it starts with "ISO session" and has at least four words. */
  predicate IsSessionLine(line: string)
  {
    StartsWith(line, SessionPrefix) && |Words(line)| >= 4
  }

  /** The entry for a kept line: the third word without surrounding '#', and the whole line. */
  function SessionOf(line: string): (s: SessionInfo)
    requires IsSessionLine(line)
    ensures s.raw == line
    ensures s.number == [] || (s.number[0] != '#' && s.number[|s.number| - 1] != '#')
  {
    SessionInfo(Strip(Words(line)[2], '#'), line)
  }

  function SessionsIn(lines: seq<string>): (r: seq<SessionInfo>)
    ensures |r| <= |lines|
  {
    if lines == [] then []
    else
      var last := lines[|lines| - 1];
      SessionsIn(lines[..|lines| - 1]) + (if IsSessionLine(last) then [SessionOf(last)] else [])
  }

  /** `list_sessions` on the captured standard output of `xorriso -toc`. */
  method ListSessions(stdout: string) returns (sessions: seq<SessionInfo>)
    ensures sessions == SessionsIn(SplitLines(stdout))
  {
    var lines := SplitLines(stdout);
    sessions := [];
    for i := 0 to |lines|
      invariant sessions == SessionsIn(lines[..i])
    {
      assert lines[..i + 1][..i] == lines[..i];
      var line := lines[i];
      if StartsWith(line, SessionPrefix) {
        var parts := Words(line);
        if |parts| >= 4 {
          sessions := sessions + [SessionInfo(Strip(parts[2], '#'), line)];
        }
      }
    }
    assert lines[..|lines|] == lines;
  }

  /** Reading two stretches of output one after the other gives their entries one after the other. */
  lemma {:induction false} SessionsInAppend(a: seq<string>, b: seq<string>)
    ensures SessionsIn(a + b) == SessionsIn(a) + SessionsIn(b)
    decreases |b|
  {
    if b != [] {
      var init := b[..|b| - 1];
      assert (a + b)[..|a + b| - 1] == a + init;
      var last := b[|b| - 1];
      assert (a + b)[|a + b| - 1] == last;
      SessionsInAppend(a, init);
      var tail := if IsSessionLine(last) then [SessionOf(last)] else [];
      assert SessionsIn(a + b) == (SessionsIn(a) + SessionsIn(init)) + tail;
      assert SessionsIn(b) == SessionsIn(init) + tail;
      assert (SessionsIn(a) + SessionsIn(init)) + tail == SessionsIn(a) + (SessionsIn(init) + tail);
    } else {
      assert a + b == a;
    }
  }

  /** Each entry comes from a kept line, and each kept line gives an entry. */
  lemma {:induction false} SessionsInExactly(lines: seq<string>)
    ensures forall s :: s in SessionsIn(lines) ==> IsSessionLine(s.raw) && s.raw in lines && s == SessionOf(s.raw)
    ensures forall k :: 0 <= k < |lines| && IsSessionLine(lines[k]) ==> SessionOf(lines[k]) in SessionsIn(lines)
    decreases |lines|
  {
    if lines != [] {
      var init := lines[..|lines| - 1];
      SessionsInExactly(init);
      assert lines == init + [lines[|lines| - 1]];
      forall k | 0 <= k < |lines| - 1 && IsSessionLine(lines[k])
        ensures SessionOf(lines[k]) in SessionsIn(lines)
      {
        assert lines[k] == init[k];
      }
    }
  }
}
