/** Reading a git unified diff: how many lines it adds and deletes, and which effective
    lines it adds to which file. The reader is set against a printer of diffs. Characters
    are Unicode scalar values here; which of them are alphanumeric is a parameter. */
module DiffReader {
  import opened Wrappers
  import opened Text

  /** The path and line that are hashed into one fingerprint. */
  datatype Fingerprint = Fingerprint(path: string, line: string)

  datatype Summary = Summary(added: nat, deleted: nat, prints: seq<Fingerprint>)

  const GIT := "diff --git "
  const HUNK := "@@ "
  const NEW := "+++ "
  const OLD := "--- "

  // ----- normalisation -----

  /** Unicode White_Space. */
  predicate IsSpace(c: char) {
    || '\U{9}' <= c <= '\U{D}' || c == ' ' || c == '\U{85}' || c == '\U{A0}' || c == '\U{1680}'
    || '\U{2000}' <= c <= '\U{200A}' || c == '\U{2028}' || c == '\U{2029}' || c == '\U{202F}'
    || c == '\U{205F}' || c == '\U{3000}'
  }

  function TrimStart(s: string): string {
    if s != "" && IsSpace(s[0]) then TrimStart(s[1..]) else s
  }

  function TrimEnd(s: string): string {
    if s != "" && IsSpace(s[|s| - 1]) then TrimEnd(s[..|s| - 1]) else s
  }

  function Trim(s: string): string { TrimStart(TrimEnd(s)) }

  function NormalizeDiffPath(path: string): Option<string> {
    var p := Trim(path);
    if p == "/dev/null" then None
    else if "b/" <= p then Some(p[2..])
    else if "a/" <= p then Some(p[2..])
    else Some(p)
  }

  /** Length of the leading run of characters that are no white space. */
  function WordLen(s: string): (k: nat)
    ensures k <= |s|
    ensures k > 0 <==> s != "" && !IsSpace(s[0])
  {
    if s == "" || IsSpace(s[0]) then 0 else 1 + WordLen(s[1..])
  }

  /** `split_whitespace`. */
  function Words(s: string): seq<string>
    decreases |s|
  {
    if s == "" then []
    else if IsSpace(s[0]) then Words(s[1..])
    else [s[..WordLen(s)]] + Words(s[WordLen(s)..])
  }

  function JoinSpace(words: seq<string>): string {
    if words == [] then "" else if |words| == 1 then words[0] else words[0] + " " + JoinSpace(words[1..])
  }

  /** Bytes of a character in UTF-8 (RFC 3629, section 3). */
  function Utf8Len(c: char): nat {
    if c < '\U{80}' then 1 else if c < '\U{800}' then 2 else if c < '\U{10000}' then 3 else 4
  }

  function ByteLen(s: string): nat {
    if s == "" then 0 else Utf8Len(s[0]) + ByteLen(s[1..])
  }

  predicate HasWordChar(s: string, alnum: char -> bool) {
    exists i :: 0 <= i < |s| && (alnum(s[i]) || s[i] == '_')
  }

  function NormalizeEffectiveLine(line: string, alnum: char -> bool): Option<string> {
    var normalized := JoinSpace(Words(line));
    if ByteLen(normalized) <= 3 || !HasWordChar(normalized, alnum) then None else Some(normalized)
  }

  // ----- the reader -----

  datatype Reader = Reader(path: Option<string>, inHunk: bool, sum: Summary)

  function FingerprintOf(path: Option<string>, line: string, alnum: char -> bool): seq<Fingerprint> {
    match (path, NormalizeEffectiveLine(line, alnum))
    case (Some(p), Some(l)) => [Fingerprint(p, l)]
    case _ => []
  }

  function ReadLine(r: Reader, line: string, alnum: char -> bool): Reader {
    var sum := r.sum;
    if GIT <= line then Reader(None, false, sum)
    else if HUNK <= line then r.(inHunk := true)
    else if !r.inHunk && NEW <= line then r.(path := NormalizeDiffPath(line[4..]))
    else if !r.inHunk && OLD <= line then r
    else if "+" <= line then
      r.(sum := sum.(added := sum.added + 1, prints := sum.prints + FingerprintOf(r.path, line[1..], alnum)))
    else if "-" <= line then r.(sum := sum.(deleted := sum.deleted + 1))
    else r
  }

  function ReadLines(r: Reader, lines: seq<string>, alnum: char -> bool): Reader
    decreases |lines|
  {
    if lines == [] then r else ReadLines(ReadLine(r, lines[0], alnum), lines[1..], alnum)
  }

  const START := Reader(None, false, Summary(0, 0, []))

  function ReadDiff(diff: string, alnum: char -> bool): Summary { ReadLines(START, Lines(diff), alnum).sum }

  /** `accepted_line_fingerprints_from_unified_diff`. */
  method AcceptedLineFingerprints(diff: string, alnum: char -> bool) returns (s: Summary)
    ensures s == ReadDiff(diff, alnum)
  {
    var currentPath: Option<string> := None;
    var inHunk := false;
    var added, deleted := 0, 0;
    var prints: seq<Fingerprint> := [];
    var lines := Lines(diff);
    var i := 0;
    while i < |lines|
      invariant 0 <= i <= |lines|
      invariant ReadLines(Reader(currentPath, inHunk, Summary(added, deleted, prints)), lines[i..], alnum)
             == ReadLines(START, lines, alnum)
    {
      var line := lines[i];
      assert lines[i..][0] == line && lines[i..][1..] == lines[i + 1..];
      i := i + 1;
      if GIT <= line {
        currentPath := None;
        inHunk := false;
        continue;
      }
      if HUNK <= line {
        inHunk := true;
        continue;
      }
      if !inHunk && NEW <= line {
        currentPath := NormalizeDiffPath(line[4..]);
        continue;
      }
      if !inHunk && OLD <= line {
        continue;
      }
      if "+" <= line {
        added := added + 1;
        var effective := NormalizeEffectiveLine(line[1..], alnum);
        if currentPath.Some? && effective.Some? {
          prints := prints + [Fingerprint(currentPath.value, effective.value)];
        } else {
          assert prints + [] == prints;
        }
        continue;
      }
      if "-" <= line {
        deleted := deleted + 1;
      }
    }
    s := Summary(added, deleted, prints);
  }

  // ----- the printer -----

  /** Lines of a hunk, as "Diff -u or -U Output Format" of POSIX `diff` prints them. */
  datatype HunkLine = Context(text: string) | Added(text: string) | Deleted(text: string) | NoNewline(text: string)

  datatype Hunk = Hunk(ranges: string, lines: seq<HunkLine>)

  /** The text part of a file's section; `newPath` is None for a deleted file. `pad` is the
      white space that may follow a name. */
  datatype Body = NoText | TextBody(oldName: string, newPath: Option<string>, pad: string, hunks: seq<Hunk>)

  datatype FileDiff = FileDiff(names: string, extended: seq<string>, body: Body)

  function PrintHunkLine(l: HunkLine): string {
    match l
    case Context(t) => " " + t
    case Added(t) => "+" + t
    case Deleted(t) => "-" + t
    case NoNewline(t) => "\\" + t
  }

  function PrintHunkLines(ls: seq<HunkLine>): seq<string> {
    if ls == [] then [] else [PrintHunkLine(ls[0])] + PrintHunkLines(ls[1..])
  }

  function PrintHunks(hs: seq<Hunk>): seq<string> {
    if hs == [] then [] else [HUNK + hs[0].ranges] + PrintHunkLines(hs[0].lines) + PrintHunks(hs[1..])
  }

  function NewName(newPath: Option<string>, pad: string): string {
    match newPath
    case Some(p) => "b/" + p + pad
    case None => "/dev/null" + pad
  }

  function PrintBody(b: Body): seq<string> {
    match b
    case NoText => []
    case TextBody(oldName, newPath, pad, hunks) =>
      [OLD + oldName, NEW + NewName(newPath, pad)] + PrintHunks(hunks)
  }

  function PrintFile(f: FileDiff): seq<string> {
    [GIT + f.names] + f.extended + PrintBody(f.body)
  }

  function PrintFiles(fs: seq<FileDiff>): seq<string> {
    if fs == [] then [] else PrintFile(fs[0]) + PrintFiles(fs[1..])
  }

  // ----- what a diff contains -----

  function Plus(a: Summary, b: Summary): Summary {
    Summary(a.added + b.added, a.deleted + b.deleted, a.prints + b.prints)
  }

  const NOTHING := Summary(0, 0, [])

  function HunkLineContent(path: Option<string>, l: HunkLine, alnum: char -> bool): Summary {
    match l
    case Added(t) => Summary(1, 0, FingerprintOf(path, t, alnum))
    case Deleted(_) => Summary(0, 1, [])
    case _ => NOTHING
  }

  function HunkContent(path: Option<string>, ls: seq<HunkLine>, alnum: char -> bool): Summary {
    if ls == [] then NOTHING else Plus(HunkLineContent(path, ls[0], alnum), HunkContent(path, ls[1..], alnum))
  }

  function HunksContent(path: Option<string>, hs: seq<Hunk>, alnum: char -> bool): Summary {
    if hs == [] then NOTHING else Plus(HunkContent(path, hs[0].lines, alnum), HunksContent(path, hs[1..], alnum))
  }

  function FileContent(f: FileDiff, alnum: char -> bool): Summary {
    match f.body
    case NoText => NOTHING
    case TextBody(_, newPath, _, hunks) => HunksContent(newPath, hunks, alnum)
  }

  function Content(fs: seq<FileDiff>, alnum: char -> bool): Summary {
    if fs == [] then NOTHING else Plus(FileContent(fs[0], alnum), Content(fs[1..], alnum))
  }

  /** A header line git prints between the first line of a section and its text part. */
  predicate ExtendedHeader(line: string) {
    line != "" && line[0] != '+' && line[0] != '-' && !(GIT <= line) && !(HUNK <= line)
  }

  predicate PathOk(p: string) { p == "" || !IsSpace(p[|p| - 1]) }

  ghost predicate FileOk(f: FileDiff) {
    && (forall i :: 0 <= i < |f.extended| ==> ExtendedHeader(f.extended[i]))
    && (f.body.TextBody? ==>
          && (f.body.newPath.Some? ==> PathOk(f.body.newPath.value))
          && forall i :: 0 <= i < |f.body.pad| ==> IsSpace(f.body.pad[i]))
  }

  lemma PlusAssoc(a: Summary, b: Summary, c: Summary)
    ensures Plus(Plus(a, b), c) == Plus(a, Plus(b, c))
  {
    assert a.prints + b.prints + c.prints == a.prints + (b.prints + c.prints);
  }

  lemma PlusNothing(a: Summary)
    ensures Plus(a, NOTHING) == a && Plus(NOTHING, a) == a
  {
    assert a.prints + [] == a.prints && [] + a.prints == a.prints;
  }

  lemma {:induction false} ReadConcat(r: Reader, a: seq<string>, b: seq<string>, alnum: char -> bool)
    ensures ReadLines(r, a + b, alnum) == ReadLines(ReadLines(r, a, alnum), b, alnum)
    decreases |a|
  {
    if a == [] {
      assert a + b == b;
    } else {
      assert (a + b)[1..] == a[1..] + b;
      ReadConcat(ReadLine(r, a[0], alnum), a[1..], b, alnum);
    }
  }

  /** The totals read before only add up. */
  lemma {:induction false} ReadOffset(r: Reader, before: Summary, lines: seq<string>, alnum: char -> bool)
    ensures ReadLines(r.(sum := Plus(before, r.sum)), lines, alnum)
         == var t := ReadLines(r, lines, alnum); t.(sum := Plus(before, t.sum))
    decreases |lines|
  {
    if lines != [] {
      ReadLineOffset(r, before, lines[0], alnum);
      ReadOffset(ReadLine(r, lines[0], alnum), before, lines[1..], alnum);
    }
  }

  lemma ReadLineOffset(r: Reader, before: Summary, line: string, alnum: char -> bool)
    ensures ReadLine(r.(sum := Plus(before, r.sum)), line, alnum)
         == var t := ReadLine(r, line, alnum); t.(sum := Plus(before, t.sum))
  {
    hide GIT, HUNK, NEW, OLD, FingerprintOf, NormalizeDiffPath;
    assert before.prints + (r.sum.prints + FingerprintOf(r.path, if "+" <= line then line[1..] else "", alnum))
        == before.prints + r.sum.prints + FingerprintOf(r.path, if "+" <= line then line[1..] else "", alnum);
  }

  /** Sections are read independently: reading two pieces of a diff, the second of which
      starts with a section header, is the sum of reading each. */
  lemma SectionsAdd(a: seq<string>, b: seq<string>, alnum: char -> bool)
    requires b == [] || GIT <= b[0]
    ensures ReadLines(START, a + b, alnum).sum
         == Plus(ReadLines(START, a, alnum).sum, ReadLines(START, b, alnum).sum)
  {
    hide GIT;
    ReadConcat(START, a, b, alnum);
    var r := ReadLines(START, a, alnum);
    if b == [] {
      PlusNothing(r.sum);
    } else {
      var blank := Reader(None, false, NOTHING);
      assert ReadLine(r, b[0], alnum) == blank.(sum := r.sum);
      assert ReadLine(START, b[0], alnum) == blank;
      PlusNothing(r.sum);
      ReadOffset(blank, r.sum, b[1..], alnum);
    }
  }

  // ----- reading back what was printed -----

  lemma HunkLineRead(r: Reader, l: HunkLine, alnum: char -> bool)
    requires r.inHunk
    ensures ReadLine(r, PrintHunkLine(l), alnum) == r.(sum := Plus(r.sum, HunkLineContent(r.path, l, alnum)))
  {
    var line := PrintHunkLine(l);
    var c := line[0];
    assert line == [c] + l.text && line[1..] == l.text;
    NotHeader(line);
    PlusNothing(r.sum);
    hide GIT, HUNK, NEW, OLD, FingerprintOf;
    match l
    case Added(t) => assert "+" <= line;
    case Deleted(t) => assert !("+" <= line) && "-" <= line; assert r.sum.prints + [] == r.sum.prints;
    case Context(t) => assert !("+" <= line) && !("-" <= line);
    case NoNewline(t) => assert !("+" <= line) && !("-" <= line);
  }

  lemma NotHeader(line: string)
    requires line != "" && line[0] != 'd' && line[0] != '@'
    ensures !(GIT <= line) && !(HUNK <= line)
  {
    assert GIT[0] == 'd' && HUNK[0] == '@';
  }

  lemma {:induction false} HunkLinesRead(r: Reader, ls: seq<HunkLine>, alnum: char -> bool)
    requires r.inHunk
    ensures ReadLines(r, PrintHunkLines(ls), alnum) == r.(sum := Plus(r.sum, HunkContent(r.path, ls, alnum)))
    decreases |ls|
  {
    hide ReadLine, PrintHunkLine, HunkLineContent;
    if ls == [] {
      PlusNothing(r.sum);
    } else {
      var first, rest := HunkLineContent(r.path, ls[0], alnum), HunkContent(r.path, ls[1..], alnum);
      HunkLineRead(r, ls[0], alnum);
      var t := r.(sum := Plus(r.sum, first));
      HunkLinesRead(t, ls[1..], alnum);
      PlusAssoc(r.sum, first, rest);
      assert PrintHunkLines(ls)[1..] == PrintHunkLines(ls[1..]);
    }
  }

  lemma HunkHeaderRead(r: Reader, ranges: string, alnum: char -> bool)
    ensures ReadLine(r, HUNK + ranges, alnum) == r.(inHunk := true)
  {
    assert (HUNK + ranges)[0] == '@' && GIT[0] == 'd';
    assert HUNK <= HUNK + ranges;
  }

  lemma {:induction false} HunksRead(r: Reader, hs: seq<Hunk>, alnum: char -> bool)
    ensures var t := ReadLines(r, PrintHunks(hs), alnum);
            t.path == r.path && t.sum == Plus(r.sum, HunksContent(r.path, hs, alnum))
    decreases |hs|
  {
    hide ReadLine, HunkContent, HUNK;
    if hs == [] {
      PlusNothing(r.sum);
    } else {
      var h, rest := hs[0], PrintHunks(hs[1..]);
      var body := PrintHunkLines(h.lines);
      var head := [HUNK + h.ranges];
      var first := HunkContent(r.path, h.lines, alnum);
      HunkHeaderRead(r, h.ranges, alnum);
      HunkLinesRead(r.(inHunk := true), h.lines, alnum);
      var t := Reader(r.path, true, Plus(r.sum, first));
      HunksRead(t, hs[1..], alnum);
      PlusAssoc(r.sum, first, HunksContent(r.path, hs[1..], alnum));
      ReadConcat(r, head + body, rest, alnum);
      ReadConcat(r, head, body, alnum);
      ReadOne(r, HUNK + h.ranges, alnum);
    }
  }

  lemma ReadOne(r: Reader, line: string, alnum: char -> bool)
    ensures ReadLines(r, [line], alnum) == ReadLine(r, line, alnum)
  {
    assert [line][1..] == [];
  }

  lemma {:induction false} TrimPad(s: string, pad: string)
    requires forall i :: 0 <= i < |pad| ==> IsSpace(pad[i])
    ensures TrimEnd(s + pad) == TrimEnd(s)
    decreases |pad|
  {
    if pad == "" {
      assert s + pad == s;
    } else {
      var n := |pad| - 1;
      assert (s + pad)[..|s| + n] == s + pad[..n];
      TrimPad(s, pad[..n]);
    }
  }

  /** The name in a `+++` line is read back, whatever follows it as padding. */
  lemma NameRead(newPath: Option<string>, pad: string)
    requires newPath.Some? ==> PathOk(newPath.value)
    requires forall i :: 0 <= i < |pad| ==> IsSpace(pad[i])
    ensures NormalizeDiffPath(NewName(newPath, pad)) == newPath
  {
    match newPath
    case None =>
      TrimPad("/dev/null", pad);
    case Some(p) =>
      var name := "b/" + p;
      TrimPad(name, pad);
      assert name[|name| - 1] == if p == "" then '/' else p[|p| - 1];
      assert TrimEnd(name) == name && TrimStart(name) == name;
      assert name[0] == 'b' && "/dev/null"[0] == '/';
      assert name[2..] == p && "b/" <= name;
  }

  lemma NewHeaderRead(r: Reader, name: string, alnum: char -> bool)
    requires !r.inHunk
    ensures ReadLine(r, NEW + name, alnum) == r.(path := NormalizeDiffPath(name))
  {
    var line := NEW + name;
    assert line[0] == '+' && line[4..] == name;
    NotHeader(line);
  }

  lemma OldHeaderRead(r: Reader, name: string, alnum: char -> bool)
    requires !r.inHunk
    ensures ReadLine(r, OLD + name, alnum) == r
  {
    var line := OLD + name;
    assert line[0] == '-' && NEW[0] == '+';
    NotHeader(line);
  }

  lemma {:induction false} ExtendedRead(r: Reader, lines: seq<string>, alnum: char -> bool)
    requires forall i :: 0 <= i < |lines| ==> ExtendedHeader(lines[i])
    ensures ReadLines(r, lines, alnum) == r
    decreases |lines|
  {
    if lines != [] {
      ExtendedLineRead(r, lines[0], alnum);
      ExtendedRead(r, lines[1..], alnum);
    }
  }

  lemma ExtendedLineRead(r: Reader, line: string, alnum: char -> bool)
    requires ExtendedHeader(line)
    ensures ReadLine(r, line, alnum) == r
  {
    assert NEW[0] == '+' && OLD[0] == '-' && "+"[0] == '+' && "-"[0] == '-';
  }

  lemma BodyRead(r: Reader, b: Body, alnum: char -> bool)
    requires !r.inHunk
    requires b.TextBody? ==> NormalizeDiffPath(NewName(b.newPath, b.pad)) == b.newPath
    ensures ReadLines(r, PrintBody(b), alnum).sum
         == Plus(r.sum, match b case NoText => NOTHING case TextBody(_, p, _, hs) => HunksContent(p, hs, alnum))
  {
    hide ReadLine, NewName, NormalizeDiffPath, HunksContent, PrintHunks, NEW, OLD;
    match b
    case NoText => PlusNothing(r.sum);
    case TextBody(oldName, newPath, pad, hunks) =>
      var a, c := OLD + oldName, NEW + NewName(newPath, pad);
      OldHeaderRead(r, oldName, alnum);
      NewHeaderRead(r, NewName(newPath, pad), alnum);
      ReadConcat(r, [a, c], PrintHunks(hunks), alnum);
      assert [a, c] == [a] + [c];
      ReadConcat(r, [a], [c], alnum);
      ReadOne(r, a, alnum);
      ReadOne(r, c, alnum);
      HunksRead(r.(path := newPath), hunks, alnum);
  }

  /** One file's section, read from any state. */
  lemma FileRead(r: Reader, f: FileDiff, alnum: char -> bool)
    requires FileOk(f)
    ensures ReadLines(r, PrintFile(f), alnum).sum == Plus(r.sum, FileContent(f, alnum))
  {
    hide GIT, HUNK, PrintBody, IsSpace;
    var first, blank := [GIT + f.names], Reader(None, false, r.sum);
    if f.body.TextBody? { NameRead(f.body.newPath, f.body.pad); }
    ReadConcat(r, first + f.extended, PrintBody(f.body), alnum);
    ReadConcat(r, first, f.extended, alnum);
    ReadOne(r, GIT + f.names, alnum);
    assert GIT <= GIT + f.names;
    ExtendedRead(blank, f.extended, alnum);
    BodyRead(blank, f.body, alnum);
  }

  lemma {:induction false} FilesRead(r: Reader, fs: seq<FileDiff>, alnum: char -> bool)
    requires forall i :: 0 <= i < |fs| ==> FileOk(fs[i])
    ensures ReadLines(r, PrintFiles(fs), alnum).sum == Plus(r.sum, Content(fs, alnum))
    decreases |fs|
  {
    hide PrintFile, FileContent, FileOk;
    if fs == [] {
      PlusNothing(r.sum);
    } else {
      ReadConcat(r, PrintFile(fs[0]), PrintFiles(fs[1..]), alnum);
      FileRead(r, fs[0], alnum);
      FilesRead(ReadLines(r, PrintFile(fs[0]), alnum), fs[1..], alnum);
      PlusAssoc(r.sum, FileContent(fs[0], alnum), Content(fs[1..], alnum));
    }
  }

  // ----- carriage returns -----

  lemma {:induction false} WordsPad(s: string)
    ensures Words(s + "\r") == Words(s)
    decreases |s|
  {
    var t := s + "\r";
    if s == "" {
      assert t[1..] == "";
    } else if IsSpace(s[0]) {
      assert t[1..] == s[1..] + "\r";
      WordsPad(s[1..]);
    } else {
      WordLenPad(s);
      var k := WordLen(s);
      assert t[..k] == s[..k] && t[k..] == s[k..] + "\r";
      WordsPad(s[k..]);
    }
  }

  lemma {:induction false} WordLenPad(s: string)
    ensures WordLen(s + "\r") == WordLen(s)
    decreases |s|
  {
    if s != "" && !IsSpace(s[0]) {
      assert (s + "\r")[1..] == s[1..] + "\r";
      WordLenPad(s[1..]);
    }
  }

  /** A carriage return at the end of a line makes no difference to the reader. */
  lemma CrIgnored(r: Reader, s: string, alnum: char -> bool)
    ensures ReadLine(r, s + "\r", alnum) == ReadLine(r, s, alnum)
  {
    var t := s + "\r";
    SamePrefix(GIT, s);
    SamePrefix(HUNK, s);
    SamePrefix(NEW, s);
    SamePrefix(OLD, s);
    SamePrefix("+", s);
    SamePrefix("-", s);
    hide GIT, HUNK, FingerprintOf, NormalizeDiffPath;
    if NEW <= s {
      assert t[4..] == s[4..] + "\r";
      PathCr(s[4..]);
    }
    if "+" <= s {
      assert t[1..] == s[1..] + "\r";
      FingerprintCr(r.path, s[1..], alnum);
    }
  }

  lemma SamePrefix(p: string, s: string)
    requires p != "" && p[|p| - 1] != '\r'
    ensures p <= s + "\r" <==> p <= s
  {
    var t := s + "\r";
    assert t[|s|] == '\r' && t[..|s|] == s;
    assert |p| == |t| ==> p[|p| - 1] != t[|t| - 1];
  }

  lemma PathCr(s: string)
    ensures NormalizeDiffPath(s + "\r") == NormalizeDiffPath(s)
  {
    TrimPad(s, "\r");
  }

  lemma FingerprintCr(path: Option<string>, s: string, alnum: char -> bool)
    ensures FingerprintOf(path, s + "\r", alnum) == FingerprintOf(path, s, alnum)
  {
    WordsPad(s);
  }

  lemma {:induction false} StripIgnored(r: Reader, lines: seq<string>, alnum: char -> bool)
    ensures ReadLines(r, StripAll(lines), alnum) == ReadLines(r, lines, alnum)
    decreases |lines|
  {
    hide ReadLine;
    if lines != [] {
      var l := lines[0];
      if StripCr(l) != l {
        assert l == StripCr(l) + "\r";
        CrIgnored(r, StripCr(l), alnum);
      }
      assert StripAll(lines)[1..] == StripAll(lines[1..]);
      StripIgnored(ReadLine(r, l, alnum), lines[1..], alnum);
    }
  }

  // ----- what a diff contains, without the reader's own functions -----

  /** Words between white space: gap, word, gap, word, and a last gap. */
  function LaidOut(gaps: seq<string>, words: seq<string>): string
    requires |gaps| == |words| + 1
    decreases |words|
  {
    if words == [] then gaps[0] else gaps[0] + (words[0] + LaidOut(gaps[1..], words[1..]))
  }

  ghost predicate Blank(s: string) { forall i :: 0 <= i < |s| ==> IsSpace(s[i]) }

  ghost predicate Dark(s: string) { s != "" && forall i :: 0 <= i < |s| ==> !IsSpace(s[i]) }

  /** Words free of white space, with some of it between each two, and perhaps around. */
  ghost predicate Laid(t: string, gaps: seq<string>, words: seq<string>) {
    && |gaps| == |words| + 1 && t == LaidOut(gaps, words)
    && (forall i :: 0 <= i < |gaps| ==> Blank(gaps[i]))
    && (forall i :: 0 <= i < |words| ==> Dark(words[i]))
    && (forall i :: 1 <= i < |words| ==> gaps[i] != "")
  }

  /** The words with one blank between each two. */
  function Spaced(words: seq<string>): string {
    if words == [] then "" else if |words| == 1 then words[0] else words[0] + (" " + Spaced(words[1..]))
  }

  /** The fingerprints of an added line: one of its words with single blanks between, if that is
      more than three bytes and has a character that is alphanumeric or an underscore. */
  ghost predicate PrintsOf(path: Option<string>, t: string, alnum: char -> bool, prints: seq<Fingerprint>) {
    exists gaps, words ::
      && Laid(t, gaps, words)
      && var line := Spaced(words);
         if path.Some? && ByteLen(line) > 3 && exists i :: 0 <= i < |line| && (alnum(line[i]) || line[i] == '_')
         then prints == [Fingerprint(path.value, line)]
         else prints == []
  }

  ghost predicate LineSays(path: Option<string>, l: HunkLine, alnum: char -> bool, sum: Summary) {
    match l
    case Added(t) => sum.added == 1 && sum.deleted == 0 && PrintsOf(path, t, alnum, sum.prints)
    case Deleted(_) => sum.added == 0 && sum.deleted == 1 && sum.prints == []
    case _ => sum.added == 0 && sum.deleted == 0 && sum.prints == []
  }

  ghost predicate Sum(sum: Summary, a: Summary, b: Summary) {
    sum.added == a.added + b.added && sum.deleted == a.deleted + b.deleted && sum.prints == a.prints + b.prints
  }

  ghost predicate LinesSay(path: Option<string>, ls: seq<HunkLine>, alnum: char -> bool, sum: Summary)
    decreases |ls|
  {
    if ls == [] then sum == Summary(0, 0, [])
    else exists a, b :: LineSays(path, ls[0], alnum, a) && LinesSay(path, ls[1..], alnum, b) && Sum(sum, a, b)
  }

  ghost predicate HunksSay(path: Option<string>, hs: seq<Hunk>, alnum: char -> bool, sum: Summary)
    decreases |hs|
  {
    if hs == [] then sum == Summary(0, 0, [])
    else exists a, b :: LinesSay(path, hs[0].lines, alnum, a) && HunksSay(path, hs[1..], alnum, b) && Sum(sum, a, b)
  }

  ghost predicate BodySays(b: Body, alnum: char -> bool, sum: Summary) {
    match b
    case NoText => sum == Summary(0, 0, [])
    case TextBody(_, newPath, _, hunks) => HunksSay(newPath, hunks, alnum, sum)
  }

  ghost predicate FilesSay(fs: seq<FileDiff>, alnum: char -> bool, sum: Summary)
    decreases |fs|
  {
    if fs == [] then sum == Summary(0, 0, [])
    else exists a, b :: BodySays(fs[0].body, alnum, a) && FilesSay(fs[1..], alnum, b) && Sum(sum, a, b)
  }

  /** The white space of Unicode. */
  lemma WhiteSpace(c: char)
    ensures IsSpace(c) <==>
      c in {'\U{9}', '\U{A}', '\U{B}', '\U{C}', '\U{D}', ' ', '\U{85}', '\U{A0}', '\U{1680}',
            '\U{2000}', '\U{2001}', '\U{2002}', '\U{2003}', '\U{2004}', '\U{2005}', '\U{2006}', '\U{2007}',
            '\U{2008}', '\U{2009}', '\U{200A}', '\U{2028}', '\U{2029}', '\U{202F}', '\U{205F}', '\U{3000}'}
  {
    if '\U{2000}' <= c <= '\U{200A}' { assert c as int - 0x2000 < 11; }
  }

  /** How many bytes a character takes (RFC 3629, section 3): seven bits fit in one, eleven in
      two, sixteen in three. */
  lemma CharBytes(c: char)
    ensures ByteLen([c]) == 1 <==> (c as int) < 0x80
    ensures ByteLen([c]) == 2 <==> 0x80 <= (c as int) < 0x800
    ensures ByteLen([c]) == 3 <==> 0x800 <= (c as int) < 0x1_0000
    ensures ByteLen([c]) == 4 <==> 0x1_0000 <= (c as int)
  {
    assert [c][1..] == "";
  }

  lemma {:induction false} BytesAdd(a: string, b: string)
    ensures ByteLen(a + b) == ByteLen(a) + ByteLen(b)
    decreases |a|
  {
    if a == "" {
      assert a + b == b;
    } else {
      assert (a + b)[1..] == a[1..] + b;
      BytesAdd(a[1..], b);
    }
  }

  lemma {:induction false} WordLenSpec(s: string)
    ensures forall i :: 0 <= i < WordLen(s) ==> !IsSpace(s[i])
    ensures WordLen(s) < |s| ==> IsSpace(s[WordLen(s)])
  {
    hide IsSpace;
    if s != "" && !IsSpace(s[0]) { WordLenSpec(s[1..]); }
  }

  lemma LaidSpace(c: char, t: string, gaps: seq<string>, words: seq<string>)
    requires Laid(t, gaps, words) && IsSpace(c)
    ensures |gaps| > 0 && Laid([c] + t, [[c] + gaps[0]] + gaps[1..], words)
  {
    hide IsSpace;
    var more := [[c] + gaps[0]] + gaps[1..];
    assert more[1..] == gaps[1..] && Blank([c] + gaps[0]);
    if words != [] { Glue([c], gaps[0], words[0] + LaidOut(gaps[1..], words[1..])); }
  }

  lemma LaidWord(w: string, t: string, gaps: seq<string>, words: seq<string>)
    requires Laid(t, gaps, words) && Dark(w) && (t != "" ==> IsSpace(t[0]))
    ensures Laid(w + t, [""] + gaps, [w] + words)
  {
    FirstGap(t, gaps, words);
    hide IsSpace, Dark;
    var more, all := [""] + gaps, [w] + words;
    assert more[1..] == gaps && all[1..] == words;
    assert LaidOut(more, all) == "" + (w + t) == w + t;
    assert forall i :: 1 <= i < |more| ==> more[i] == gaps[i - 1];
    assert forall i :: 1 <= i < |all| ==> all[i] == words[i - 1];
  }

  lemma FirstGap(t: string, gaps: seq<string>, words: seq<string>)
    requires Laid(t, gaps, words) && (t != "" ==> IsSpace(t[0]))
    ensures words != [] ==> gaps[0] != ""
  {
    hide IsSpace;
    assert words != [] ==> Dark(words[0]) && t == gaps[0] + (words[0] + LaidOut(gaps[1..], words[1..]));
  }

  /** The words of a line are such words. */
  lemma {:induction false} WordsLaid(s: string) returns (gaps: seq<string>)
    ensures Laid(s, gaps, Words(s))
    decreases |s|
  {
    if s == "" {
      gaps := [""];
    } else if IsSpace(s[0]) {
      gaps := WordsLaid(s[1..]);
      assert Words(s) == Words(s[1..]) && s == [s[0]] + s[1..];
      hide IsSpace, Laid, Words;
      LaidShape(s[1..], gaps, Words(s[1..]));
      LaidSpace(s[0], s[1..], gaps, Words(s[1..]));
      gaps := [[s[0]] + gaps[0]] + gaps[1..];
    } else {
      var k := WordLen(s);
      WordLenSpec(s);
      gaps := WordsLaid(s[k..]);
      assert Words(s) == [s[..k]] + Words(s[k..]) && s == s[..k] + s[k..];
      assert Dark(s[..k]) && (s[k..] != "" ==> IsSpace(s[k..][0]));
      hide IsSpace, Laid, Words, Dark;
      LaidWord(s[..k], s[k..], gaps, Words(s[k..]));
      gaps := [""] + gaps;
    }
  }

  lemma LaidShape(t: string, gaps: seq<string>, words: seq<string>)
    requires Laid(t, gaps, words)
    ensures |gaps| == |words| + 1
  {}

  lemma {:induction false} SpacedIsJoin(words: seq<string>)
    ensures Spaced(words) == JoinSpace(words)
    decreases |words|
  {
    if |words| > 1 {
      SpacedIsJoin(words[1..]);
      Glue(words[0], " ", JoinSpace(words[1..]));
    }
  }

  lemma FingerprintsAre(path: Option<string>, t: string, alnum: char -> bool)
    ensures PrintsOf(path, t, alnum, FingerprintOf(path, t, alnum))
  {
    var gaps := WordsLaid(t);
    SpacedIsJoin(Words(t));
    hide Laid, IsSpace, Words, ByteLen;
    assert Laid(t, gaps, Words(t));
  }

  lemma {:induction false} LinesSaid(path: Option<string>, ls: seq<HunkLine>, alnum: char -> bool)
    ensures LinesSay(path, ls, alnum, HunkContent(path, ls, alnum))
    decreases |ls|
  {
    hide PrintsOf, FingerprintOf;
    if ls != [] {
      LinesSaid(path, ls[1..], alnum);
      if ls[0].Added? { FingerprintsAre(path, ls[0].text, alnum); }
      assert LineSays(path, ls[0], alnum, HunkLineContent(path, ls[0], alnum));
    }
  }

  lemma {:induction false} HunksSaid(path: Option<string>, hs: seq<Hunk>, alnum: char -> bool)
    ensures HunksSay(path, hs, alnum, HunksContent(path, hs, alnum))
    decreases |hs|
  {
    hide LinesSay, HunkContent;
    if hs != [] {
      HunksSaid(path, hs[1..], alnum);
      LinesSaid(path, hs[0].lines, alnum);
    }
  }

  lemma {:induction false} FilesSaid(fs: seq<FileDiff>, alnum: char -> bool)
    ensures FilesSay(fs, alnum, Content(fs, alnum))
    decreases |fs|
  {
    hide HunksSay, HunksContent;
    if fs != [] {
      FilesSaid(fs[1..], alnum);
      if fs[0].body.TextBody? { HunksSaid(fs[0].body.newPath, fs[0].body.hunks, alnum); }
      assert BodySays(fs[0].body, alnum, FileContent(fs[0], alnum));
      assert Sum(Content(fs, alnum), FileContent(fs[0], alnum), Content(fs[1..], alnum));
    }
  }

  /** A name in a header line: white space around it, and one `b/` or `a/` in front, go. */
  lemma PathSpelled(before: string, p: string, after: string)
    requires Blank(before) && Blank(after) && p != "" && !IsSpace(p[0]) && !IsSpace(p[|p| - 1])
    ensures NormalizeDiffPath(before + ("b/" + p) + after) == Some(p)
    ensures NormalizeDiffPath(before + ("a/" + p) + after) == Some(p)
    ensures p != "/dev/null" && !("a/" <= p) && !("b/" <= p) ==> NormalizeDiffPath(before + p + after) == Some(p)
    ensures NormalizeDiffPath(before + "/dev/null" + after) == None
  {
    assert ("b/" + p)[0] == 'b' && ("a/" + p)[0] == 'a' && "/dev/null"[0] == '/';
    assert ("b/" + p)[..2] == "b/" && ("b/" + p)[2..] == p && ("a/" + p)[..2] == "a/" && ("a/" + p)[2..] == p;
    assert ("b/" + p)[|p| + 1] == p[|p| - 1] && ("a/" + p)[|p| + 1] == p[|p| - 1];
    hide IsSpace, TrimStart, TrimEnd, Trim;
    TrimPadded(before, "b/" + p, after);
    TrimPadded(before, "a/" + p, after);
    TrimPadded(before, p, after);
    TrimPadded(before, "/dev/null", after);
  }

  lemma TrimPadded(before: string, text: string, after: string)
    requires Blank(before) && Blank(after) && text != ""
    requires !IsSpace(text[0]) || text[0] == '/' || text[0] == 'a' || text[0] == 'b'
    requires !IsSpace(text[|text| - 1]) || text[|text| - 1] == 'l'
    ensures Trim(before + text + after) == text
  {
    assert !IsSpace('/') && !IsSpace('a') && !IsSpace('b') && !IsSpace('l');
    var s := before + text;
    hide IsSpace;
    TrimPad(s, after);
    assert s[|s| - 1] == text[|text| - 1];
    assert TrimEnd(s) == s;
    TrimLead(before, text);
  }

  lemma {:induction false} TrimLead(before: string, text: string)
    requires Blank(before) && text != "" && !IsSpace(text[0])
    ensures TrimStart(before + text) == text
    decreases |before|
  {
    hide IsSpace;
    if before == "" {
      assert before + text == text;
    } else {
      assert (before + text)[1..] == before[1..] + text;
      TrimLead(before[1..], text);
    }
  }

  /** Reading back a printed diff finds exactly what it contains: the counts of added and
      deleted lines and, in order, the effective added lines with the path of their file.
      Hunk lines may look like any header, and lines may end in a carriage return. */
  lemma ReadPrinted(fs: seq<FileDiff>, alnum: char -> bool)
    requires forall i :: 0 <= i < |fs| ==> FileOk(fs[i])
    requires AllOneLine(PrintFiles(fs))
    ensures FilesSay(fs, alnum, ReadDiff(Unlines(PrintFiles(fs)), alnum))
    ensures ReadDiff(Unlines(PrintFiles(fs)), alnum) == Content(fs, alnum)
  {
    FilesSaid(fs, alnum);
    LinesOfUnlines(PrintFiles(fs));
    StripIgnored(START, PrintFiles(fs), alnum);
    FilesRead(START, fs, alnum);
    PlusNothing(Content(fs, alnum));
  }
}
