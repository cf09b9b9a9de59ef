/** Text as the toolkit's scanners see it.

    A text is a sequence of UTF-8 code units, one `char` per byte, so that an ASCII literal
    reads as itself. The operations are the ones of Rust's `str` that the rewriters are
    built from: searching, replacing, decimal numerals, and splitting into lines. What is
    proved about them is what the rewriters need: replacement factors at a character that
    the pattern lacks, and lines are read back as they were written. */
module Text {

  predicate IsDigit(c: char) { '0' <= c <= '9' }

  /** An identifier byte, `[A-Za-z0-9_]`. */
  predicate IsIdent(c: char) {
    'a' <= c <= 'z' || 'A' <= c <= 'Z' || IsDigit(c) || c == '_'
  }

  /** A UTF-8 continuation byte, 10xxxxxx. */
  predicate IsContinuation(c: char) { '\U{80}' <= c < '\U{C0}' }

  predicate AllIdent(s: string) { forall i :: 0 <= i < |s| ==> IsIdent(s[i]) }

  /** A nonempty run of identifier bytes. */
  predicate IsWord(s: string) { s != "" && AllIdent(s) }

  /** Where `next_char_boundary` moves to: past position `i` and any continuation bytes. */
  function NextBoundary(s: string, i: nat): (j: nat)
    requires i < |s|
    ensures i < j <= |s|
    ensures forall k :: i < k < j ==> IsContinuation(s[k])
  {
    BoundaryFrom(s, i + 1)
  }

  function BoundaryFrom(s: string, j: nat): (r: nat)
    requires j <= |s|
    ensures j <= r <= |s|
    ensures forall k :: j <= k < r ==> IsContinuation(s[k])
    decreases |s| - j
  {
    if j < |s| && IsContinuation(s[j]) then BoundaryFrom(s, j + 1) else j
  }

  /** `pat` occurs somewhere in `s`. */
  ghost predicate Occurs(pat: string, s: string) {
    exists i :: 0 <= i <= |s| && pat <= s[i..]
  }

  /** `str::find`: the first position at which `pat` matches, or -1. */
  function Find(s: string, pat: string): (r: int)
    ensures -1 <= r <= |s|
  {
    if pat <= s then 0
    else if s == "" then -1
    else
      var r := Find(s[1..], pat);
      if r < 0 then -1 else r + 1
  }

  lemma OccursCons(pat: string, s: string)
    requires s != ""
    ensures Occurs(pat, s) <==> pat <= s || Occurs(pat, s[1..])
  {
    assert s[0..] == s;
    if Occurs(pat, s) && !(pat <= s) {
      var i :| 0 <= i <= |s| && pat <= s[i..];
      assert s[1..][i - 1..] == s[i..];
    }
    if Occurs(pat, s[1..]) { OccursLater(pat, s, 1); }
  }

  lemma {:induction false} FindNone(s: string, pat: string)
    ensures Find(s, pat) < 0 <==> !Occurs(pat, s)
  {
    if s == "" {
      assert s[0..] == s;
    } else {
      OccursCons(pat, s);
      FindNone(s[1..], pat);
    }
  }

  /** What is found is there, in full. */
  lemma {:induction false} FindFits(s: string, pat: string)
    requires Find(s, pat) >= 0
    ensures Find(s, pat) + |pat| <= |s| && pat <= s[Find(s, pat)..]
  {
    if pat <= s {
      assert s[0..] == s;
    } else {
      FindFits(s[1..], pat);
      assert s[1..][Find(s[1..], pat)..] == s[Find(s, pat)..];
    }
  }

  /** `str::replace`: every leftmost, non-overlapping occurrence. */
  function ReplaceAll(s: string, find: string, repl: string): string
    requires find != ""
  {
    if s == "" then ""
    else if find <= s then repl + ReplaceAll(s[|find|..], find, repl)
    else [s[0]] + ReplaceAll(s[1..], find, repl)
  }

  /** `str::matches(find).count()`. */
  function CountMatches(s: string, find: string): nat
    requires find != ""
  {
    if s == "" then 0
    else if find <= s then 1 + CountMatches(s[|find|..], find)
    else CountMatches(s[1..], find)
  }

  lemma OccursLater(pat: string, s: string, k: nat)
    requires k <= |s|
    requires Occurs(pat, s[k..])
    ensures Occurs(pat, s)
  {
    var i :| 0 <= i <= |s[k..]| && pat <= s[k..][i..];
    assert s[k..][i..] == s[k + i..];
  }

  lemma OccursIn(pat: string, a: string, b: string)
    ensures Occurs(pat, a + pat + b)
  {
    var s := a + pat + b;
    assert s[|a|..] == pat + b;
    assert pat <= s[|a|..];
  }

  lemma {:induction false} ReplaceAllAbsent(s: string, find: string, repl: string)
    requires find != "" && !Occurs(find, s)
    ensures ReplaceAll(s, find, repl) == s
    ensures CountMatches(s, find) == 0
    decreases |s|
  {
    if s != "" {
      OccursCons(find, s);
      ReplaceAllAbsent(s[1..], find, repl);
    }
  }

  // ----- what replacement means, in terms of the text between the occurrences -----

  /** The gaps with `sep` between each two. */
  function JoinWith(gaps: seq<string>, sep: string): string
    requires gaps != []
    decreases |gaps|
  {
    if |gaps| == 1 then gaps[0] else gaps[0] + (sep + JoinWith(gaps[1..], sep))
  }

  /** No occurrence of `find` starts in a gap that is followed by one. */
  ghost predicate NoneSooner(gap: string, find: string) {
    forall k :: 0 <= k < |gap| ==> !(find <= (gap + find)[k..])
  }

  /** Between the gaps stand the occurrences that are leftmost, one after the other. */
  ghost predicate LeftmostCut(gaps: seq<string>, find: string) {
    && gaps != []
    && (forall i :: 0 <= i < |gaps| - 1 ==> NoneSooner(gaps[i], find))
    && !Occurs(find, gaps[|gaps| - 1])
  }

  lemma StartsSooner(gap: string, find: string, rest: string, k: nat)
    requires k < |gap| && find <= (gap + (find + rest))[k..]
    ensures find <= (gap + find)[k..]
  {
    assert gap + (find + rest) == gap + find + rest;
    assert (gap + find + rest)[k..] == (gap + find)[k..] + rest;
  }

  lemma {:induction false} SkipsGap(gap: string, find: string, rest: string, repl: string)
    requires find != "" && NoneSooner(gap, find)
    ensures ReplaceAll(gap + (find + rest), find, repl) == gap + (repl + ReplaceAll(rest, find, repl))
    ensures CountMatches(gap + (find + rest), find) == 1 + CountMatches(rest, find)
    decreases |gap|
  {
    var s := gap + (find + rest);
    if gap == "" {
      assert s == find + rest && s[|find|..] == rest;
      assert "" + (repl + ReplaceAll(rest, find, repl)) == repl + ReplaceAll(rest, find, repl);
    } else {
      assert s[0..] == s && s[0] == gap[0] && s[1..] == gap[1..] + (find + rest);
      if find <= s { StartsSooner(gap, find, rest, 0); }
      forall k | 0 <= k < |gap[1..]|
        ensures !(find <= (gap[1..] + find)[k..])
      {
        assert (gap[1..] + find)[k..] == (gap + find)[k + 1..];
      }
      SkipsGap(gap[1..], find, rest, repl);
      Glue([gap[0]], gap[1..], repl + ReplaceAll(rest, find, repl));
      assert [gap[0]] + gap[1..] == gap;
    }
  }

  /** Replacement puts the new text between the same gaps, however the text is cut. */
  lemma {:induction false} ReplaceAllMeans(gaps: seq<string>, find: string, repl: string)
    requires find != "" && LeftmostCut(gaps, find)
    ensures ReplaceAll(JoinWith(gaps, find), find, repl) == JoinWith(gaps, repl)
    ensures CountMatches(JoinWith(gaps, find), find) == |gaps| - 1
    decreases |gaps|
  {
    if |gaps| == 1 {
      ReplaceAllAbsent(gaps[0], find, repl);
    } else {
      ReplaceAllMeans(gaps[1..], find, repl);
      SkipsGap(gaps[0], find, JoinWith(gaps[1..], find), repl);
    }
  }

  /** Every text can be cut. */
  lemma {:induction false} CutAtMatches(s: string, find: string) returns (gaps: seq<string>)
    requires find != ""
    ensures LeftmostCut(gaps, find) && JoinWith(gaps, find) == s
    decreases |s|
  {
    if !Occurs(find, s) {
      gaps := [s];
    } else {
      var gap, tail := FirstMatch(s, find);
      var rest := CutAtMatches(tail, find);
      gaps := [gap] + rest;
      assert gaps[1..] == rest;
    }
  }

  lemma {:induction false} FirstMatch(s: string, find: string) returns (gap: string, tail: string)
    requires find != "" && Occurs(find, s)
    ensures s == gap + (find + tail) && NoneSooner(gap, find)
    decreases |s|
  {
    OccursHere(s, find);
    if find <= s {
      gap, tail := "", s[|find|..];
      assert s == "" + (find + tail);
    } else {
      var g: string;
      g, tail := FirstMatch(s[1..], find);
      gap := [s[0]] + g;
      Glue([s[0]], g, find + tail);
      assert s == [s[0]] + s[1..];
      NoneSoonerCons(s[0], g, find, tail);
    }
  }

  lemma NoneSoonerCons(c: char, gap: string, find: string, rest: string)
    requires NoneSooner(gap, find) && !(find <= [c] + (gap + (find + rest)))
    ensures NoneSooner([c] + gap, find)
  {
    var g := [c] + gap;
    forall i | 0 <= i < |g|
      ensures !(find <= (g + find)[i..])
    {
      if i == 0 {
        assert (g + find)[0..] == g + find;
        assert g + find + rest == [c] + (gap + (find + rest));
      } else {
        assert (g + find)[i..] == (gap + find)[i - 1..];
      }
    }
  }

  lemma OccursHere(s: string, find: string)
    requires find != "" && Occurs(find, s)
    ensures s != "" && (find <= s || Occurs(find, s[1..]))
  {
    if s != "" { OccursCons(find, s); }
  }

  /** Each replacement changes the length by the same amount. */
  lemma {:induction false} ReplaceAllLength(s: string, find: string, repl: string)
    requires find != ""
    ensures |ReplaceAll(s, find, repl)| == |s| + CountMatches(s, find) * (|repl| - |find|)
    decreases |s|
  {
    if s == "" {
    } else if find <= s {
      ReplaceAllLength(s[|find|..], find, repl);
      OneMore(CountMatches(s[|find|..], find), |repl| - |find|);
    } else {
      ReplaceAllLength(s[1..], find, repl);
    }
  }

  lemma OneMore(n: int, d: int)
    ensures (1 + n) * d == d + n * d
  {}

  /** The decimal numeral that `format!("{}", n)` prints. */
  function Decimal(n: nat): (s: string)
    ensures s != "" && forall i :: 0 <= i < |s| ==> IsDigit(s[i])
  {
    if n < 10 then ['0' + n as char] else Decimal(n / 10) + ['0' + (n % 10) as char]
  }

  function DecimalValue(s: string): int {
    if s == "" then 0
    else DecimalValue(s[..|s| - 1]) * 10 + (s[|s| - 1] as int - '0' as int)
  }

  lemma {:induction false} DecimalRoundTrip(n: nat)
    ensures DecimalValue(Decimal(n)) == n
  {
    if n >= 10 {
      DecimalRoundTrip(n / 10);
      var s := Decimal(n);
      assert s[..|s| - 1] == Decimal(n / 10);
    } else {
      var s := Decimal(n);
      assert s[..0] == "";
    }
  }

  lemma DecimalInjective(m: nat, n: nat)
    requires Decimal(m) == Decimal(n)
    ensures m == n
  {
    DecimalRoundTrip(m);
    DecimalRoundTrip(n);
  }

  // ----- replacement factors at a character the pattern lacks -----

  lemma PrefixAtBreak(p: string, a: string, c: char, b: string)
    requires c !in p
    ensures p <= a + ([c] + b) <==> p <= a
  {
    var s := a + ([c] + b);
    assert s[|a|] == c && s[..|a|] == a;
    if p <= s && |p| <= |a| { assert p == a[..|p|]; }
  }

  lemma Glue(x: string, y: string, z: string)
    ensures (x + y) + z == x + (y + z)
  {}

  lemma {:induction false} ReplaceAtBreak(a: string, c: char, b: string, find: string, repl: string)
    requires find != "" && c !in find
    ensures ReplaceAll(a + ([c] + b), find, repl) == ReplaceAll(a, find, repl) + ([c] + ReplaceAll(b, find, repl))
    ensures CountMatches(a + ([c] + b), find) == CountMatches(a, find) + CountMatches(b, find)
    decreases |a|
  {
    var s := a + ([c] + b);
    PrefixAtBreak(find, a, c, b);
    if a == "" {
      assert s == [c] + b && s[1..] == b;
    } else if find <= a {
      assert s[|find|..] == a[|find|..] + ([c] + b);
      ReplaceAtBreak(a[|find|..], c, b, find, repl);
      Glue(repl, ReplaceAll(a[|find|..], find, repl), [c] + ReplaceAll(b, find, repl));
    } else {
      assert s[1..] == a[1..] + ([c] + b);
      ReplaceAtBreak(a[1..], c, b, find, repl);
      Glue([a[0]], ReplaceAll(a[1..], find, repl), [c] + ReplaceAll(b, find, repl));
    }
  }

  // ----- lines -----

  /** Length of the text before the first line feed. */
  function LineLen(s: string): (k: nat)
    ensures k <= |s|
  {
    if s == "" || s[0] == '\n' then 0 else 1 + LineLen(s[1..])
  }

  function StripCr(line: string): string { if EndsInCr(line) then line[..|line| - 1] else line }

  /** `str::lines`: a line ends at a line feed, or at a carriage return followed by one; the
      last line need not be terminated. */
  function Lines(s: string): seq<string>
    decreases |s|
  {
    var k := LineLen(s);
    if s == "" then []
    else if k == |s| then [s]
    else [StripCr(s[..k])] + Lines(s[k + 1..])
  }

  /** Every line followed by a line feed. */
  function Unlines(lines: seq<string>): string {
    if lines == [] then "" else lines[0] + ("\n" + Unlines(lines[1..]))
  }

  function StripAll(lines: seq<string>): seq<string> {
    if lines == [] then [] else [StripCr(lines[0])] + StripAll(lines[1..])
  }

  ghost predicate OneLine(s: string) { forall i :: 0 <= i < |s| ==> s[i] != '\n' }

  ghost predicate AllOneLine(lines: seq<string>) { forall i :: 0 <= i < |lines| ==> OneLine(lines[i]) }

  lemma {:induction false} LineLenOf(line: string, rest: string)
    requires OneLine(line)
    ensures LineLen(line + ("\n" + rest)) == |line|
    decreases |line|
  {
    var s := line + ("\n" + rest);
    if line != "" {
      assert s[1..] == line[1..] + ("\n" + rest);
      LineLenOf(line[1..], rest);
    }
  }

  lemma LinesCons(line: string, rest: string)
    requires OneLine(line)
    ensures Lines(line + ("\n" + rest)) == [StripCr(line)] + Lines(rest)
  {
    var s := line + ("\n" + rest);
    LineLenOf(line, rest);
    assert s[..|line|] == line && s[|line| + 1..] == rest;
  }

  /** A line ends before a line feed, or before a carriage return and a line feed; the last one
      may end with the text. */
  lemma LinesMean(line: string, rest: string)
    requires OneLine(line) && (line != "" ==> line[|line| - 1] != '\r')
    ensures Lines(line + ("\n" + rest)) == [line] + Lines(rest)
    ensures Lines(line + "\r" + ("\n" + rest)) == [line] + Lines(rest)
    ensures Lines("") == [] && (line != "" ==> Lines(line) == [line])
  {
    var cr := line + "\r";
    LinesCons(line, rest);
    assert OneLine(cr);
    LinesCons(cr, rest);
    assert cr[..|cr| - 1] == line && EndsInCr(cr);
    WholeLine(line);
    hide LineLen, StripCr;
  }

  lemma {:induction false} WholeLine(line: string)
    requires OneLine(line)
    ensures LineLen(line) == |line|
  {
    if line != "" { WholeLine(line[1..]); }
  }

  lemma {:induction false} LinesOfUnlines(lines: seq<string>)
    requires AllOneLine(lines)
    ensures Lines(Unlines(lines)) == StripAll(lines)
    decreases |lines|
  {
    if lines != [] {
      LinesOfUnlines(lines[1..]);
      LinesCons(lines[0], Unlines(lines[1..]));
    }
  }

  /** A line whose end, once the line feed is taken off, is a carriage return. */
  predicate EndsInCr(line: string) { line != "" && line[|line| - 1] == '\r' }

  ghost predicate NoCr(lines: seq<string>) { forall i :: 0 <= i < |lines| ==> !EndsInCr(lines[i]) }

  lemma {:induction false} StripNone(lines: seq<string>)
    requires NoCr(lines)
    ensures StripAll(lines) == lines
    decreases |lines|
  {
    if lines != [] {
      StripNone(lines[1..]);
      assert lines == [lines[0]] + lines[1..];
    }
  }

  lemma {:induction false} UnlinesConcat(a: seq<string>, b: seq<string>)
    ensures Unlines(a + b) == Unlines(a) + Unlines(b)
    decreases |a|
  {
    if a == [] {
      assert a + b == b;
    } else {
      assert (a + b)[1..] == a[1..] + b;
      UnlinesConcat(a[1..], b);
      Glue(a[0], "\n" + Unlines(a[1..]), Unlines(b));
      Glue("\n", Unlines(a[1..]), Unlines(b));
    }
  }

  /** Writing one line in front of the lines still to come. */
  lemma WriteLine(out: string, line: string, more: seq<string>)
    ensures out + Unlines([line] + more) == out + line + "\n" + Unlines(more)
  {
    assert ([line] + more)[1..] == more;
  }

  lemma WriteTwo(out: string, a: string, b: string)
    ensures out + Unlines([a, b]) == out + a + "\n" + b + "\n"
  {
    WriteLine(out, a, [b]);
    WriteLine(out + a + "\n", b, []);
    assert [a] + [b] == [a, b] && [b] + [] == [b];
  }

  lemma WriteFour(out: string, a: string, b: string, c: string, d: string)
    ensures out + Unlines([a, b, c, d]) == out + a + "\n" + b + "\n" + c + "\n" + d + "\n"
  {
    hide Unlines;
    UnlinesConcat([a, b], [c, d]);
    assert [a, b] + [c, d] == [a, b, c, d];
    WriteTwo(out, a, b);
    WriteTwo(out + a + "\n" + b + "\n", c, d);
    Glue(out, Unlines([a, b]), Unlines([c, d]));
  }
}
