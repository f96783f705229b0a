/**
 * The handful of Python `str` operations the core relies on, written out:
 * `"\n".join`, `str.splitlines`, `str.split()` on whitespace, `str.strip(c)`,
 * `str.startswith` and `str(int)`.
 */
module Text {

  // ---------------------------------------------------------------------------
  // Line boundaries and "\n".join

  /** The characters `str.splitlines` treats as line boundaries ("\r\n" counts once). */
  predicate IsLineBreak(c: char)
  {
    c == '\n' || c == '\r' || c == '\U{0B}' || c == '\U{0C}' || c == '\U{1C}' || c == '\U{1D}'
    || c == '\U{1E}' || c == '\U{85}' || c == '\U{2028}' || c == '\U{2029}'
  }

  predicate NoLineBreak(s: string)
  {
    forall k :: 0 <= k < |s| ==> !IsLineBreak(s[k])
  }

  /** `"\n".join(lines)`: no newline before the first line or after the last. */
  function JoinLines(lines: seq<string>): string
  {
    if lines == [] then ""
    else if |lines| == 1 then lines[0]
    else lines[0] + "\n" + JoinLines(lines[1..])
  }

  /** Index of the first line boundary in `s`, or `|s|` when there is none. */
  function FirstLineBreak(s: string): (i: nat)
    ensures i <= |s|
    ensures i < |s| ==> IsLineBreak(s[i])
    ensures NoLineBreak(s[..i])
  {
    if s == [] then 0
    else if IsLineBreak(s[0]) then 0
    else
      var j := FirstLineBreak(s[1..]);
      assert s[..j + 1] == [s[0]] + s[1..][..j];
      j + 1
  }

  /**
   * `str.splitlines()`: the text between boundaries; a boundary at the very end
   * does not open an empty last line, and "\r\n" is one boundary.
   */
  function SplitLines(s: string): seq<string>
    decreases |s|
  {
    if s == [] then []
    else
      var i := FirstLineBreak(s);
      if i == |s| then [s]
      else
        var skip := if s[i] == '\r' && i + 1 < |s| && s[i + 1] == '\n' then 2 else 1;
        [s[..i]] + SplitLines(s[i + skip..])
  }

  lemma {:induction false} FirstLineBreakAfter(a: string, c: char, rest: string)
    requires NoLineBreak(a) && IsLineBreak(c)
    ensures FirstLineBreak(a + [c] + rest) == |a|
    decreases |a|
  {
    var s := a + [c] + rest;
    if a != [] {
      assert s[1..] == a[1..] + [c] + rest;
      FirstLineBreakAfter(a[1..], c, rest);
    }
  }

  lemma {:induction false} FirstLineBreakNone(a: string)
    requires NoLineBreak(a)
    ensures FirstLineBreak(a) == |a|
    decreases |a|
  {
    if a != [] {
      FirstLineBreakNone(a[1..]);
    }
  }

  /**
   * Reading a joined text back with `splitlines` gives the lines again, as long
   * as no line holds a boundary character and the last line is not empty.
   */
  lemma {:induction false} SplitLinesOfJoin(lines: seq<string>)
    requires forall k :: 0 <= k < |lines| ==> NoLineBreak(lines[k])
    requires lines != [] ==> lines[|lines| - 1] != ""
    ensures SplitLines(JoinLines(lines)) == lines
    decreases |lines|
  {
    if lines == [] {
    } else if |lines| == 1 {
      FirstLineBreakNone(lines[0]);
    } else {
      var rest := JoinLines(lines[1..]);
      var s := lines[0] + "\n" + rest;
      FirstLineBreakAfter(lines[0], '\n', rest);
      assert s[..|lines[0]|] == lines[0];
      assert s[|lines[0]| + 1..] == rest;
      SplitLinesOfJoin(lines[1..]);
    }
  }

  // ---------------------------------------------------------------------------
  // str.split() with no separator

  /** The characters `str.isspace` accepts. */
  predicate IsSpace(c: char)
  {
    c == ' ' || ('\t' <= c <= '\r') || ('\U{1C}' <= c <= '\U{1F}') || c == '\U{85}' || c == '\U{A0}'
    || c == '\U{1680}' || ('\U{2000}' <= c <= '\U{200A}') || c == '\U{2028}' || c == '\U{2029}'
    || c == '\U{202F}' || c == '\U{205F}' || c == '\U{3000}'
  }

  /** Length of the leading run of whitespace. */
  function SpaceRun(s: string): (n: nat)
    ensures n <= |s|
    ensures forall k :: 0 <= k < n ==> IsSpace(s[k])
    ensures n < |s| ==> !IsSpace(s[n])
  {
    if s == [] || !IsSpace(s[0]) then 0 else 1 + SpaceRun(s[1..])
  }

  /** Length of the leading run of non-whitespace. */
  function WordRun(s: string): (n: nat)
    ensures n <= |s|
    ensures forall k :: 0 <= k < n ==> !IsSpace(s[k])
    ensures n < |s| ==> IsSpace(s[n])
  {
    if s == [] || IsSpace(s[0]) then 0 else 1 + WordRun(s[1..])
  }

  /** `str.split()`: the maximal runs of non-whitespace, in order. */
  function Words(s: string): (ws: seq<string>)
    ensures forall k :: 0 <= k < |ws| ==> ws[k] != "" && (forall m :: 0 <= m < |ws[k]| ==> !IsSpace(ws[k][m]))
    decreases |s|
  {
    var t := s[SpaceRun(s)..];
    if t == [] then []
    else
      var n := WordRun(t);
      [t[..n]] + Words(t[n..])
  }

  /** `" ".join(ws)`. */
  function JoinWords(ws: seq<string>): string
  {
    if ws == [] then "" else if |ws| == 1 then ws[0] else ws[0] + (" " + JoinWords(ws[1..]))
  }

  /** A non-empty run of non-whitespace, as `str.split()` gives them. */
  predicate IsWord(w: string)
  {
    w != "" && forall m :: 0 <= m < |w| ==> !IsSpace(w[m])
  }

  lemma {:induction false} WordRunOfWord(w: string, rest: string)
    requires forall m :: 0 <= m < |w| ==> !IsSpace(w[m])
    requires rest == [] || IsSpace(rest[0])
    ensures WordRun(w + rest) == |w|
  {
    if w == [] {
      assert w + rest == rest;
    } else {
      assert (w + rest)[1..] == w[1..] + rest;
      WordRunOfWord(w[1..], rest);
    }
  }

  lemma WordsAfterSpace(r: string)
    ensures Words(" " + r) == Words(r)
  {
    assert (" " + r)[1..] == r;
    assert (" " + r)[SpaceRun(" " + r)..] == r[SpaceRun(r)..];
  }

  /** A word followed by nothing or by whitespace is split off first. */
  lemma WordsOfWordThen(w: string, rest: string)
    requires IsWord(w) && (rest == [] || IsSpace(rest[0]))
    ensures Words(w + rest) == [w] + Words(rest)
  {
    assert (w + rest)[0] == w[0];
    assert (w + rest)[0..] == w + rest;
    WordRunOfWord(w, rest);
    assert (w + rest)[..|w|] == w && (w + rest)[|w|..] == rest;
  }

  /** Splitting words joined by single spaces gives back the words. */
  lemma {:induction false} WordsOfJoin(ws: seq<string>)
    requires forall k :: 0 <= k < |ws| ==> IsWord(ws[k])
    ensures Words(JoinWords(ws)) == ws
  {
    if |ws| == 1 {
      WordsOfWordThen(ws[0], "");
      assert ws[0] + "" == ws[0];
    } else if |ws| > 1 {
      assert forall k :: 0 <= k < |ws[1..]| ==> ws[1..][k] == ws[k + 1];
      WordsOfJoin(ws[1..]);
      WordsOfJoinStep(ws);
    }
  }

  /** The step of `WordsOfJoin`: a first word in front of words that split back. */
  lemma WordsOfJoinStep(ws: seq<string>)
    requires |ws| > 1 && IsWord(ws[0]) && Words(JoinWords(ws[1..])) == ws[1..]
    ensures Words(JoinWords(ws)) == ws
  {
    var rest := " " + JoinWords(ws[1..]);
    assert rest[0] == ' ';
    WordsAfterSpace(JoinWords(ws[1..]));
    WordsOfWordThen(ws[0], rest);
    assert [ws[0]] + ws[1..] == ws;
  }

  /** `s` with its whitespace removed. */
  function NonSpace(s: string): string
  {
    if s == [] then "" else (if IsSpace(s[0]) then "" else [s[0]]) + NonSpace(s[1..])
  }

  function Concat(ws: seq<string>): string
  {
    if ws == [] then "" else ws[0] + Concat(ws[1..])
  }

  lemma {:induction false} NonSpaceAppend(a: string, b: string)
    ensures NonSpace(a + b) == NonSpace(a) + NonSpace(b)
  {
    if a != [] {
      assert (a + b)[1..] == a[1..] + b;
      NonSpaceAppend(a[1..], b);
    } else {
      assert a + b == b;
    }
  }

  lemma {:induction false} NonSpaceOfSpaces(s: string)
    requires forall k :: 0 <= k < |s| ==> IsSpace(s[k])
    ensures NonSpace(s) == ""
  {
    if s != [] {
      NonSpaceOfSpaces(s[1..]);
    }
  }

  lemma {:induction false} NonSpaceOfWord(s: string)
    requires forall k :: 0 <= k < |s| ==> !IsSpace(s[k])
    ensures NonSpace(s) == s
  {
    if s != [] {
      NonSpaceOfWord(s[1..]);
      assert s == [s[0]] + s[1..];
    }
  }

  /** Leading whitespace adds nothing to `NonSpace`. */
  lemma SkipSpaces(s: string)
    ensures NonSpace(s) == NonSpace(s[SpaceRun(s)..])
  {
    var sr := SpaceRun(s);
    assert s == s[..sr] + s[sr..];
    NonSpaceAppend(s[..sr], s[sr..]);
    NonSpaceOfSpaces(s[..sr]);
  }

  /** A leading word is kept whole by `NonSpace`. */
  lemma KeepWord(t: string)
    ensures NonSpace(t) == t[..WordRun(t)] + NonSpace(t[WordRun(t)..])
  {
    var n := WordRun(t);
    assert t == t[..n] + t[n..];
    NonSpaceAppend(t[..n], t[n..]);
    NonSpaceOfWord(t[..n]);
  }

  /** The words of `s`, put back together, are exactly the non-whitespace characters of `s`, in order. */
  lemma {:induction false} WordsKeepText(s: string)
    ensures Concat(Words(s)) == NonSpace(s)
    decreases |s|
  {
    var t := s[SpaceRun(s)..];
    SkipSpaces(s);
    if t != [] {
      var n := WordRun(t);
      KeepWord(t);
      WordsKeepText(t[n..]);
      assert Words(s) == [t[..n]] + Words(t[n..]);
      assert Concat(Words(s)) == t[..n] + Concat(Words(t[n..]));
    }
  }

  // ---------------------------------------------------------------------------
  // str.strip(c), str.startswith

  /** `s.lstrip(c)` for a single character `c`. */
  function StripLeft(s: string, c: char): (r: string)
    ensures |r| <= |s| && r == s[|s| - |r|..]
    ensures forall k :: 0 <= k < |s| - |r| ==> s[k] == c
    ensures r == [] || r[0] != c
  {
    if s != [] && s[0] == c then StripLeft(s[1..], c) else s
  }

  /** `s.rstrip(c)` for a single character `c`. */
  function StripRight(s: string, c: char): (r: string)
    ensures |r| <= |s| && r == s[..|r|]
    ensures forall k :: |r| <= k < |s| ==> s[k] == c
    ensures r == [] || r[|r| - 1] != c
  {
    if s != [] && s[|s| - 1] == c then StripRight(s[..|s| - 1], c) else s
  }

  /** `s.strip(c)`: neither end of the result is `c`, and only copies of `c` were removed. */
  function Strip(s: string, c: char): (r: string)
    ensures r == [] || (r[0] != c && r[|r| - 1] != c)
    ensures |r| <= |s|
    ensures exists i :: (0 <= i <= |s| - |r| && s[i..][..|r|] == r
      && (forall k :: 0 <= k < i ==> s[k] == c) && (forall k :: i + |r| <= k < |s| ==> s[k] == c))
  {
    StripTrims(s, c);
    StripRight(StripLeft(s, c), c)
  }

  /** Where `Strip` cuts `s`: after the leading copies of `c`, before the trailing ones. */
  lemma StripTrims(s: string, c: char)
    ensures var l := StripLeft(s, c); var r := StripRight(l, c); var i := |s| - |l|;
      0 <= i <= |s| - |r| && s[i..][..|r|] == r
      && (forall k :: 0 <= k < i ==> s[k] == c) && (forall k :: i + |r| <= k < |s| ==> s[k] == c)
  {
    var l := StripLeft(s, c);
    var i := |s| - |l|;
    var r := StripRight(l, c);
    assert l == s[i..] && l[..|r|] == r;
    forall k | i + |r| <= k < |s|
      ensures s[k] == c
    {
      assert s[k] == l[k - i];
    }
  }

  predicate StartsWith(s: string, prefix: string)
  {
    |prefix| <= |s| && s[..|prefix|] == prefix
  }

  // ---------------------------------------------------------------------------
  // str(int)

  function DigitChar(d: nat): char
    requires d < 10
  {
    "0123456789"[d]
  }

  function DigitValue(c: char): nat
  {
    if '0' <= c <= '9' then (c as int - '0' as int) as nat else 0
  }

  predicate IsDigit(c: char)
  {
    '0' <= c <= '9'
  }

  /** Decimal digits of `n`, most significant first, with no leading zero. */
  function NatToDecimal(n: nat): (s: string)
    ensures s != [] && forall k :: 0 <= k < |s| ==> IsDigit(s[k])
  {
    if n < 10 then [DigitChar(n)] else NatToDecimal(n / 10) + [DigitChar(n % 10)]
  }

  /** `str(n)` for a Python int: a minus sign for negatives, then the digits. */
  function IntToDecimal(n: int): string
  {
    if n < 0 then "-" + NatToDecimal(-n) else NatToDecimal(n)
  }

  /** The value of a string of decimal digits. */
  function ParseDigits(s: string): nat
  {
    if s == [] then 0 else ParseDigits(s[..|s| - 1]) * 10 + DigitValue(s[|s| - 1])
  }

  /** `int(s)` for what `str` produces. */
  function ParseInt(s: string): int
  {
    if s != [] && s[0] == '-' then -(ParseDigits(s[1..]) as int) else ParseDigits(s)
  }

  lemma {:induction false} ParseNatToDecimal(n: nat)
    ensures ParseDigits(NatToDecimal(n)) == n
  {
    if n >= 10 {
      var s := NatToDecimal(n / 10) + [DigitChar(n % 10)];
      assert s[..|s| - 1] == NatToDecimal(n / 10);
      ParseNatToDecimal(n / 10);
    }
  }

  /** `int(str(n)) == n`: the decimal text names exactly the number. */
  lemma IntToDecimalRoundTrip(n: int)
    ensures ParseInt(IntToDecimal(n)) == n
  {
    ParseNatToDecimal(if n < 0 then -n else n);
    if n < 0 {
      assert ("-" + NatToDecimal(-n))[1..] == NatToDecimal(-n);
    } else {
      assert NatToDecimal(n)[0] != '-';
    }
  }
}
