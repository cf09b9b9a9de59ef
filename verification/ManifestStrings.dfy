/** Rewriting the quoted strings of a manifest line: a byte-level scan that may damage
    multi-byte characters, its UTF-8-safe form, and when the first agrees with the second.
    Text is its UTF-8 bytes, one `char` each. */
module ManifestStrings {
  import opened Wrappers
  import opened Text

  const QUOTE: char := '"'

  /** A byte above the ASCII range: part of a multi-byte character. */
  predicate IsHigh(c: char) { c >= '\U{80}' }

  type Bytes = s: string | forall i :: 0 <= i < |s| ==> s[i] < '\U{100}'

  function RenamePackage(name: string): string {
    if "codex-" <= name then "lemurclaw-" + name[6..] else name
  }

  function RenameIdent(name: string): string {
    if "codex_" <= name then "lemurclaw_" + name[6..] else name
  }

  /** Where the last `/`-separated segment starts. */
  function LeafStart(rel: string): (k: nat)
    ensures k <= |rel|
  {
    if rel == "" || rel[|rel| - 1] == '/' then |rel| else LeafStart(rel[..|rel| - 1])
  }

  function StripDot(rel: string): string { if "./" <= rel then rel[2..] else rel }

  /** `dst_member_path`: a leading `./` goes, and a `codex-` leaf is renamed. */
  function DstMemberPath(path: string): string {
    var rel := StripDot(path);
    var k := LeafStart(rel);
    rel[..k] + RenamePackage(rel[k..])
  }

  /** The renamed form of a quoted value; None when it stays. */
  function Renamed(inner: string): Option<string> {
    if "codex-" <= inner then Some(RenamePackage(inner))
    else if '/' in inner && DstMemberPath(inner) != inner then Some(DstMemberPath(inner))
    else None
  }

  /** What becomes of a quoted value. */
  function Value(inner: string): string {
    match Renamed(inner)
    case Some(r) => r
    case None => inner
  }

  /** Position of the next quote, -1 when there is none. */
  function NextQuote(s: string): (k: int)
    ensures -1 <= k < |s|
    ensures k >= 0 ==> s[k] == QUOTE
  {
    if s == "" then -1
    else if s[0] == QUOTE then 0
    else
      var k := NextQuote(s[1..]);
      if k < 0 then -1 else k + 1
  }

  /** `s` starts with a quoted value. */
  predicate QuotedAt(s: string) { s != "" && s[0] == QUOTE && NextQuote(s[1..]) >= 0 }

  function Inner(s: string): string
    requires QuotedAt(s)
  {
    s[1..][..NextQuote(s[1..])]
  }

  function AfterQuoted(s: string): (rest: string)
    requires QuotedAt(s)
    ensures |rest| < |s| && |s| == |Inner(s)| + 2 + |rest|
  {
    s[1..][NextQuote(s[1..]) + 1..]
  }

  function Quoted(v: string): string { [QUOTE] + v + [QUOTE] }

  /** Pushing one byte as a `char` writes its UTF-8 form: two bytes for a high one. */
  function PushByte(c: char): string {
    if IsHigh(c) && c < '\U{100}' then [(0xC0 + c as int / 64) as char, (0x80 + c as int % 64) as char] else [c]
  }

  /** The byte-level scan. */
  function FastScan(s: string): string
    decreases |s|
  {
    if s == "" then ""
    else if QuotedAt(s) then Quoted(Value(Inner(s))) + FastScan(AfterQuoted(s))
    else PushByte(s[0]) + FastScan(s[1..])
  }

  /** The safe scan: the same, with every other byte left as it is. */
  function SafeScan(s: string): string
    decreases |s|
  {
    if s == "" then ""
    else if QuotedAt(s) then Quoted(Value(Inner(s))) + SafeScan(AfterQuoted(s))
    else [s[0]] + SafeScan(s[1..])
  }

  /** How many high bytes stand outside quoted values. */
  function OpenHigh(s: string): nat
    decreases |s|
  {
    if s == "" then 0
    else if QuotedAt(s) then OpenHigh(AfterQuoted(s))
    else (if IsHigh(s[0]) then 1 else 0) + OpenHigh(s[1..])
  }

  /** By how much the quoted values grow. */
  function Growth(s: string): int
    decreases |s|
  {
    if s == "" then 0
    else if QuotedAt(s) then |Value(Inner(s))| - |Inner(s)| + Growth(AfterQuoted(s))
    else Growth(s[1..])
  }

  // ----- the special case of library names -----

  predicate IsSpace(c: char) { '\U{9}' <= c <= '\U{D}' || c == ' ' }

  function TrimStart(s: string): string { if s != "" && IsSpace(s[0]) then TrimStart(s[1..]) else s }

  function TrimEnd(s: string): string { if s != "" && IsSpace(s[|s| - 1]) then TrimEnd(s[..|s| - 1]) else s }

  function TrimQuotes(s: string): string { TrimQuotesEnd(TrimQuotesStart(s)) }

  function TrimQuotesStart(s: string): string { if s != "" && s[0] == QUOTE then TrimQuotesStart(s[1..]) else s }

  function TrimQuotesEnd(s: string): string { if s != "" && s[|s| - 1] == QUOTE then TrimQuotesEnd(s[..|s| - 1]) else s }

  lemma NoQuotes(s: string)
    requires QUOTE !in s
    ensures TrimQuotesStart(s + [QUOTE]) == if s == "" then "" else s + [QUOTE]
    ensures TrimQuotesEnd(s) == s
  {
    if s == "" { assert [QUOTE][1..] == ""; assert s + [QUOTE] == [QUOTE]; }
  }

  lemma QuotedValue(s: string)
    requires QUOTE !in s && s != ""
    ensures TrimQuotes(TrimEnd(TrimStart(Quoted(s)))) == s
  {
    var q := Quoted(s);
    assert TrimStart(q) == q && TrimEnd(q) == q;
    NoQuotes(s);
    assert q[1..] == s + [QUOTE];
    assert (s + [QUOTE])[..|s|] == s;
  }

  lemma {:induction false} TrimStartShorter(s: string)
    ensures |TrimStart(s)| <= |s| && s[|s| - |TrimStart(s)|..] == TrimStart(s)
  {
    if s != "" && IsSpace(s[0]) { TrimStartShorter(s[1..]); }
  }

  function Indent(s: string): string {
    TrimStartShorter(s);
    s[..|s| - |TrimStart(s)|]
  }

  /** `name = "codex_x"`: the library name, when the line is one. */
  function LibName(line: string): Option<string> {
    var trimmed := TrimStart(line);
    if "name = " <= trimmed then
      var v := TrimEnd(TrimStart(trimmed[7..]));
      if |v| >= 2 && v[0] == QUOTE && v[|v| - 1] == QUOTE && "codex_" <= v[1..|v| - 1] then Some(v[1..|v| - 1]) else None
    else None
  }

  function LibNameLine(line: string, name: string): string {
    Indent(line) + "name = \"" + RenameIdent(name) + "\""
  }

  /** `rewrite_codex_strings_in_line` as a function of the line. */
  function RewriteLine(line: string): string {
    match LibName(line)
    case Some(name) => LibNameLine(line, name)
    case None => if |FastScan(line)| == |line| then FastScan(line) else SafeScan(line)
  }

  // ----- the scanners -----

  /** `out` accounts for the first `i` bytes. */
  ghost predicate FastDone(line: string, i: nat, out: string)
    requires i <= |line|
  {
    out + FastScan(line[i..]) == FastScan(line)
  }

  ghost predicate SafeDone(line: string, i: nat, out: string)
    requires i <= |line|
  {
    out + SafeScan(line[i..]) == SafeScan(line)
  }

  method RewriteCodexStringsInLine(line: string) returns (out: string)
    ensures out == RewriteLine(line)
  {
    hide FastScan, SafeScan, Renamed, NextQuote, LibName, LibNameLine, PushByte;
    var name := LibName(line);
    if name.Some? {
      return LibNameLine(line, name.value);
    }
    out := "";
    var i := 0;
    assert line[0..] == line;
    while i < |line|
      invariant 0 <= i <= |line| && FastDone(line, i, out)
    {
      var endRel := if line[i] == QUOTE then NextQuote(line[i + 1..]) else -1;
      if endRel >= 0 {
        var end := i + 1 + endRel;
        var inner := line[i + 1..end];
        FastQuoted(line, i, endRel, out);
        match Renamed(inner) {
          case Some(r) => out := out + Quoted(r);
          case None => out := out + line[i..end + 1];
        }
        i := end + 1;
        continue;
      }
      FastByte(line, i, out);
      out := out + PushByte(line[i]);
      i := i + 1;
    }
    FastAll(line, out);
    if |out| == |line| {
      return;
    }
    out := RewriteCodexStringsInLineSafe(line);
  }

  method RewriteCodexStringsInLineSafe(line: string) returns (out: string)
    ensures out == SafeScan(line)
  {
    hide SafeScan, Renamed, NextQuote, SafeDone, QuotedAt;
    out := "";
    var i := 0;
    SafeStart(line);
    while i < |line|
      invariant 0 <= i <= |line| && SafeDone(line, i, out)
    {
      var endRel := if line[i] == QUOTE then NextQuote(line[i + 1..]) else -1;
      if endRel >= 0 {
        var end := i + 1 + endRel;
        var inner := line[i + 1..end];
        SafeQuoted(line, i, endRel, out);
        match Renamed(inner) {
          case Some(r) => out := out + Quoted(r);
          case None => out := out + line[i..end + 1];
        }
        i := end + 1;
        continue;
      }
      // One character: its first byte and the continuation bytes after it.
      var chEnd := NextBoundary(line, i);
      SafeChar(line, i, chEnd, out);
      out := out + line[i..chEnd];
      i := chEnd;
    }
    SafeAll(line, out);
  }

  lemma SafeStart(line: string)
    ensures SafeDone(line, 0, "")
  {
    assert line[0..] == line;
  }

  lemma FastAll(line: string, out: string)
    requires FastDone(line, |line|, out)
    ensures out == FastScan(line)
  {
    assert line[|line|..] == "" && FastScan("") == "";
    hide FastScan;
    assert out + "" == out;
  }

  lemma SafeAll(line: string, out: string)
    requires SafeDone(line, |line|, out)
    ensures out == SafeScan(line)
  {
    assert line[|line|..] == "" && SafeScan("") == "";
    hide SafeScan;
    assert out + "" == out;
  }

  lemma QuotedIndices(line: string, i: nat, k: nat)
    requires i < |line| && line[i] == QUOTE && NextQuote(line[i + 1..]) == k
    ensures i + 1 + k < |line| && line[i + 1 + k] == QUOTE
    ensures QuotedAt(line[i..]) && Inner(line[i..]) == line[i + 1..i + 1 + k] && AfterQuoted(line[i..]) == line[i + k + 2..]
    ensures line[i..i + k + 2] == Quoted(line[i + 1..i + 1 + k])
  {
    assert line[i..][1..] == line[i + 1..];
    assert line[i + 1..][k] == line[i + 1 + k];
  }

  lemma Insert(out: string, a: string, rest: string, s: string, total: string)
    requires out + s == total && s == a + rest
    ensures out + a + rest == total
  {}

  lemma FastQuoted(line: string, i: nat, k: nat, out: string)
    requires i < |line| && line[i] == QUOTE && NextQuote(line[i + 1..]) == k && FastDone(line, i, out)
    ensures i + k + 2 <= |line| && line[i..i + k + 2] == Quoted(line[i + 1..i + 1 + k])
    ensures FastDone(line, i + k + 2, out + Quoted(Value(line[i + 1..i + 1 + k])))
  {
    QuotedIndices(line, i, k);
    assert FastScan(line[i..]) == Quoted(Value(Inner(line[i..]))) + FastScan(AfterQuoted(line[i..]));
    hide FastScan, Value, Quoted, QuotedAt, Inner, AfterQuoted, NextQuote;
    Insert(out, Quoted(Value(line[i + 1..i + 1 + k])), FastScan(line[i + k + 2..]), FastScan(line[i..]), FastScan(line));
  }

  lemma FastByte(line: string, i: nat, out: string)
    requires i < |line| && FastDone(line, i, out)
    requires (if line[i] == QUOTE then NextQuote(line[i + 1..]) else -1) < 0
    ensures FastDone(line, i + 1, out + PushByte(line[i]))
  {
    assert line[i..][1..] == line[i + 1..];
    assert FastScan(line[i..]) == PushByte(line[i]) + FastScan(line[i + 1..]);
    hide FastScan, PushByte, NextQuote;
    Insert(out, PushByte(line[i]), FastScan(line[i + 1..]), FastScan(line[i..]), FastScan(line));
  }

  lemma SafeQuoted(line: string, i: nat, k: nat, out: string)
    requires i < |line| && line[i] == QUOTE && NextQuote(line[i + 1..]) == k && SafeDone(line, i, out)
    ensures i + k + 2 <= |line| && line[i..i + k + 2] == Quoted(line[i + 1..i + 1 + k])
    ensures SafeDone(line, i + k + 2, out + Quoted(Value(line[i + 1..i + 1 + k])))
  {
    QuotedIndices(line, i, k);
    assert SafeScan(line[i..]) == Quoted(Value(Inner(line[i..]))) + SafeScan(AfterQuoted(line[i..]));
    hide SafeScan, Value, Quoted, QuotedAt, Inner, AfterQuoted, NextQuote;
    Insert(out, Quoted(Value(line[i + 1..i + 1 + k])), SafeScan(line[i + k + 2..]), SafeScan(line[i..]), SafeScan(line));
  }

  lemma SafeByte(line: string, i: nat, out: string)
    requires i < |line| && SafeDone(line, i, out)
    requires (if line[i] == QUOTE then NextQuote(line[i + 1..]) else -1) < 0
    ensures SafeDone(line, i + 1, out + [line[i]])
  {
    assert line[i..][1..] == line[i + 1..];
    assert SafeScan(line[i..]) == [line[i]] + SafeScan(line[i + 1..]);
    hide SafeScan, NextQuote;
    Insert(out, [line[i]], SafeScan(line[i + 1..]), SafeScan(line[i..]), SafeScan(line));
  }

  lemma {:induction false} SafeChar(line: string, i: nat, j: nat, out: string)
    requires i < j <= |line| && SafeDone(line, i, out)
    requires (if line[i] == QUOTE then NextQuote(line[i + 1..]) else -1) < 0
    requires forall k :: i < k < j ==> IsContinuation(line[k])
    ensures SafeDone(line, j, out + line[i..j])
    decreases j - i
  {
    hide SafeDone, NextQuote;
    SafeByte(line, i, out);
    if i + 1 < j {
      SafeChar(line, i + 1, j, out + [line[i]]);
      assert out + [line[i]] + line[i + 1..j] == out + line[i..j];
    } else {
      assert line[i..j] == [line[i]];
    }
  }

  // ----- when the fast path agrees with the safe one -----

  lemma {:induction false} ScanLengths(s: string)
    requires forall i :: 0 <= i < |s| ==> s[i] < '\U{100}'
    ensures |SafeScan(s)| == |s| + Growth(s)
    ensures |FastScan(s)| == |s| + Growth(s) + OpenHigh(s)
    decreases |s|
  {
    if s == "" {
    } else if QuotedAt(s) {
      var rest := AfterQuoted(s);
      assert forall i :: 0 <= i < |rest| ==> rest[i] == s[|s| - |rest| + i];
      ScanLengths(rest);
    } else {
      ScanLengths(s[1..]);
    }
  }

  lemma {:induction false} NoHighSame(s: string)
    requires OpenHigh(s) == 0
    ensures FastScan(s) == SafeScan(s)
    decreases |s|
  {
    if s == "" {
    } else if QuotedAt(s) {
      NoHighSame(AfterQuoted(s));
    } else {
      NoHighSame(s[1..]);
    }
  }

  /** The fast path gives the safe result except in one case: high bytes outside quoted
      values whose extra bytes are made up for, exactly, by quoted values getting shorter. */
  lemma FastPathRefines(line: Bytes)
    requires LibName(line).None?
    ensures RewriteLine(line) == SafeScan(line) <==> !(OpenHigh(line) > 0 && OpenHigh(line) + Growth(line) == 0)
  {
    ScanLengths(line);
    if OpenHigh(line) == 0 { NoHighSame(line); }
  }

  predicate Ascii(s: string) { forall i :: 0 <= i < |s| ==> !IsHigh(s[i]) }

  lemma {:induction false} AsciiNoHigh(s: string)
    requires Ascii(s)
    ensures OpenHigh(s) == 0
    decreases |s|
  {
    if s == "" {
    } else if QuotedAt(s) {
      var rest := AfterQuoted(s);
      assert forall i :: 0 <= i < |rest| ==> rest[i] == s[|s| - |rest| + i];
      AsciiNoHigh(rest);
    } else {
      AsciiNoHigh(s[1..]);
    }
  }

  /** No quoted value starts with `./`. */
  predicate NoDotValues(s: string)
    decreases |s|
  {
    if s == "" then true
    else if QuotedAt(s) then !("./" <= Inner(s)) && NoDotValues(AfterQuoted(s))
    else NoDotValues(s[1..])
  }

  lemma ValueGrows(inner: string)
    requires !("./" <= inner)
    ensures |Value(inner)| >= |inner|
  {}

  lemma {:induction false} NoDotGrowth(s: string)
    requires NoDotValues(s)
    ensures Growth(s) >= 0
    decreases |s|
  {
    if s == "" {
    } else if QuotedAt(s) {
      ValueGrows(Inner(s));
      NoDotGrowth(AfterQuoted(s));
    } else {
      NoDotGrowth(s[1..]);
    }
  }

  /** In particular it does on every ASCII line, and on every line without a `./` value. */
  lemma FastPathSafe(line: Bytes)
    requires LibName(line).None? && (Ascii(line) || NoDotValues(line))
    ensures RewriteLine(line) == SafeScan(line)
  {
    FastPathRefines(line);
    if Ascii(line) { AsciiNoHigh(line); } else { NoDotGrowth(line); }
  }

  lemma {:induction false} NoQuote(s: string)
    requires QUOTE !in s
    ensures NextQuote(s) < 0
  {
    if s != "" { NoQuote(s[1..]); }
  }

  lemma {:induction false} QuoteAfter(v: string, rest: string)
    requires QUOTE !in v
    ensures NextQuote(v + ([QUOTE] + rest)) == |v|
    decreases |v|
  {
    var s := v + ([QUOTE] + rest);
    if v != "" {
      assert s[1..] == v[1..] + ([QUOTE] + rest);
      QuoteAfter(v[1..], rest);
    }
  }

  /** The case does occur: a `./` value loses two bytes, and a two-byte character after it
      is written as four. */
  lemma MangledLine(a: char, b: char)
    requires '\U{80}' <= a < '\U{100}' && '\U{80}' <= b < '\U{100}'
    ensures var line := "\"./b/c\"" + [a, b]; RewriteLine(line) != SafeScan(line)
  {
    var inner, rest := "./b/c", [a, b];
    var line := "\"./b/c\"" + rest;
    assert forall i :: 0 <= i < 7 ==> line[i] == "\"./b/c\""[i] < '\U{80}';
    assert line == [QUOTE] + (inner + ([QUOTE] + rest));
    assert line[1..] == inner + ([QUOTE] + rest);
    QuoteAfter(inner, rest);
    assert Inner(line) == inner && AfterQuoted(line) == rest;
    assert rest[1..] == [b] && [b][1..] == "";
    assert OpenHigh([b]) == 1 && Growth([b]) == 0;
    assert OpenHigh(rest) == 2 && Growth(rest) == 0;
    DotValue();
    assert TrimStart(line) == line;
    assert line[0] == QUOTE && "name = "[0] == 'n';
    FastPathRefines(line);
  }

  lemma DotValue()
    ensures Value("./b/c") == "b/c"
  {
    var inner := "./b/c";
    assert inner[0] == '.' && "codex-"[0] == 'c';
    assert inner[1] == '/' && inner[..2] == "./" && inner[2..] == "b/c";
    var rel := "b/c";
    assert rel[..2] == "b/" && "b/"[1] == '/';
    assert LeafStart(rel) == 2;
    assert rel[2..] == "c";
    assert rel[..2] + "c" == rel;
  }

  // ----- names, paths and lines, spelled out -----

  /** Package names change their `codex-`, crate identifiers their `codex_`. */
  lemma NamesSpelled(rest: string)
    ensures RenamePackage("codex-" + rest) == "lemurclaw-" + rest
    ensures RenameIdent("codex_" + rest) == "lemurclaw_" + rest
    ensures !("codex-" <= rest) ==> RenamePackage(rest) == rest
    ensures !("codex_" <= rest) ==> RenameIdent(rest) == rest
  {
    assert ("codex-" + rest)[6..] == rest && ("codex_" + rest)[6..] == rest;
  }

  lemma {:induction false} LeafBehind(parent: string, leaf: string)
    requires (parent == "" || parent[|parent| - 1] == '/') && forall i :: 0 <= i < |leaf| ==> leaf[i] != '/'
    ensures LeafStart(parent + leaf) == |parent|
    decreases |leaf|
  {
    var s := parent + leaf;
    if leaf == "" {
      assert s == parent;
    } else {
      var n := |leaf| - 1;
      assert s[|s| - 1] == leaf[n] && s[..|s| - 1] == parent + leaf[..n];
      LeafBehind(parent, leaf[..n]);
    }
  }

  /** A member path loses one `./`, and its last segment is renamed like a package. */
  lemma PathSpelled(parent: string, leaf: string)
    requires (parent == "" || parent[|parent| - 1] == '/') && forall i :: 0 <= i < |leaf| ==> leaf[i] != '/'
    ensures !("./" <= parent + leaf) ==> DstMemberPath(parent + leaf) == parent + RenamePackage(leaf)
    ensures DstMemberPath("./" + (parent + leaf)) == parent + RenamePackage(leaf)
  {
    var s := parent + leaf;
    LeafBehind(parent, leaf);
    assert s[..|parent|] == parent && s[|parent|..] == leaf;
    assert ("./" + s)[..2] == "./" && ("./" + s)[2..] == s;
    hide LeafStart, RenamePackage;
  }

  /** Quoted values with other text around them. */
  function Interleave(gaps: seq<string>, values: seq<string>): string
    requires |gaps| == |values| + 1
    decreases |values|
  {
    if values == [] then gaps[0]
    else gaps[0] + ("\"" + (values[0] + ("\"" + Interleave(gaps[1..], values[1..]))))
  }

  function NewValues(values: seq<string>): seq<string> {
    if values == [] then []
    else
      var v := values[0];
      [if "codex-" <= v then "lemurclaw-" + v[6..] else if '/' in v then DstMemberPath(v) else v] + NewValues(values[1..])
  }

  function PushAll(gaps: seq<string>): seq<string> { if gaps == [] then [] else [Pushed(gaps[0])] + PushAll(gaps[1..]) }

  function Pushed(s: string): string { if s == "" then "" else PushByte(s[0]) + Pushed(s[1..]) }

  ghost predicate Unquoted(ss: seq<string>) { forall i :: 0 <= i < |ss| ==> QUOTE !in ss[i] }

  lemma {:induction false} NewLength(values: seq<string>, gaps: seq<string>)
    ensures |NewValues(values)| == |values| && |PushAll(gaps)| == |gaps|
    decreases |values| + |gaps|
  {
    if values != [] { NewLength(values[1..], gaps); } else if gaps != [] { NewLength(values, gaps[1..]); }
  }

  lemma NewValue(v: string)
    ensures Value(v) == if "codex-" <= v then "lemurclaw-" + v[6..] else if '/' in v then DstMemberPath(v) else v
  {
    hide DstMemberPath;
  }

  lemma {:induction false} SafeGap(g: string, rest: string)
    requires QUOTE !in g
    ensures SafeScan(g + rest) == g + SafeScan(rest)
    decreases |g|
  {
    if g == "" {
      assert g + rest == rest;
    } else {
      assert (g + rest)[0] == g[0] && (g + rest)[1..] == g[1..] + rest;
      SafeGap(g[1..], rest);
      assert g == [g[0]] + g[1..];
    }
  }

  lemma {:induction false} FastGap(g: string, rest: string)
    requires QUOTE !in g
    ensures FastScan(g + rest) == Pushed(g) + FastScan(rest)
    decreases |g|
  {
    if g == "" {
      assert g + rest == rest;
    } else {
      assert (g + rest)[0] == g[0] && (g + rest)[1..] == g[1..] + rest;
      FastGap(g[1..], rest);
      Glue(PushByte(g[0]), Pushed(g[1..]), FastScan(rest));
    }
  }

  lemma QuotedPiece(v: string, rest: string)
    requires QUOTE !in v
    ensures var s := "\"" + (v + ("\"" + rest));
            QuotedAt(s) && Inner(s) == v && AfterQuoted(s) == rest
  {
    var s := "\"" + (v + ("\"" + rest));
    QuoteAfter(v, rest);
    assert s[0] == QUOTE && s[1..] == v + ([QUOTE] + rest);
    assert s[1..][..|v|] == v && s[1..][|v| + 1..] == rest;
  }

  lemma QuotedScans(v: string, rest: string)
    requires QUOTE !in v
    ensures var s := "\"" + (v + ("\"" + rest));
            && SafeScan(s) == "\"" + (Value(v) + ("\"" + SafeScan(rest)))
            && FastScan(s) == "\"" + (Value(v) + ("\"" + FastScan(rest)))
  {
    QuotedPiece(v, rest);
    var s := "\"" + (v + ("\"" + rest));
    assert SafeScan(s) == Quoted(Value(v)) + SafeScan(rest) && FastScan(s) == Quoted(Value(v)) + FastScan(rest);
    hide SafeScan, FastScan, Value;
    QuotedParts(Value(v), SafeScan(rest));
    QuotedParts(Value(v), FastScan(rest));
  }

  lemma QuotedParts(v: string, rest: string)
    ensures Quoted(v) + rest == "\"" + (v + ("\"" + rest))
  {}

  /** The safe scan of a line renames its quoted values and keeps all other text; the fast scan
      does the same with every other byte pushed as a character. */
  lemma {:induction false} ScansSpelled(gaps: seq<string>, values: seq<string>)
    requires |gaps| == |values| + 1 && Unquoted(gaps) && Unquoted(values)
    ensures |NewValues(values)| == |values| && |PushAll(gaps)| == |gaps|
    ensures SafeScan(Interleave(gaps, values)) == Interleave(gaps, NewValues(values))
    ensures FastScan(Interleave(gaps, values)) == Interleave(PushAll(gaps), NewValues(values))
    decreases |values|
  {
    NewLength(values, gaps);
    if values == [] {
      SafeGap(gaps[0], "");
      FastGap(gaps[0], "");
      assert gaps[0] + "" == gaps[0] && Pushed(gaps[0]) + "" == Pushed(gaps[0]);
    } else {
      ScansStep(gaps, values);
      ScansSpelled(gaps[1..], values[1..]);
      NewLength(values[1..], gaps[1..]);
      InterleaveNew(gaps, values);
      hide SafeScan, FastScan, Interleave, NewValues, PushAll, Pushed, Value;
    }
  }

  lemma ScansStep(gaps: seq<string>, values: seq<string>)
    requires |gaps| == |values| + 1 && Unquoted(gaps) && Unquoted(values) && values != []
    ensures Unquoted(gaps[1..]) && Unquoted(values[1..])
    ensures var rest := Interleave(gaps[1..], values[1..]);
            && SafeScan(Interleave(gaps, values)) == gaps[0] + ("\"" + (Value(values[0]) + ("\"" + SafeScan(rest))))
            && FastScan(Interleave(gaps, values)) == Pushed(gaps[0]) + ("\"" + (Value(values[0]) + ("\"" + FastScan(rest))))
  {
    var rest := Interleave(gaps[1..], values[1..]);
    var tail := "\"" + (values[0] + ("\"" + rest));
    assert Interleave(gaps, values) == gaps[0] + tail;
    hide SafeScan, FastScan, Interleave, Value, Pushed;
    SafeGap(gaps[0], tail);
    FastGap(gaps[0], tail);
    QuotedScans(values[0], rest);
  }

  lemma InterleaveNew(gaps: seq<string>, values: seq<string>)
    requires |gaps| == |values| + 1 && values != [] && |NewValues(values)| == |values| && |PushAll(gaps)| == |gaps|
    requires |NewValues(values[1..])| == |values| - 1 && |PushAll(gaps[1..])| == |gaps| - 1
    ensures Interleave(gaps, NewValues(values))
         == gaps[0] + ("\"" + (Value(values[0]) + ("\"" + Interleave(gaps[1..], NewValues(values[1..])))))
    ensures Interleave(PushAll(gaps), NewValues(values))
         == Pushed(gaps[0]) + ("\"" + (Value(values[0]) + ("\"" + Interleave(PushAll(gaps[1..]), NewValues(values[1..])))))
  {
    NewValue(values[0]);
    assert NewValues(values)[1..] == NewValues(values[1..]) && PushAll(gaps)[1..] == PushAll(gaps[1..]);
    hide Value, DstMemberPath, Pushed;
  }

  /** A byte of a multi-byte character comes out as two bytes, as if it were a character. */
  lemma PushSpelled(c: char)
    requires c < '\U{100}'
    ensures c < '\U{80}' ==> PushByte(c) == [c]
    ensures '\U{80}' <= c < '\U{C0}' ==> PushByte(c) == ['\U{C2}', c]
    ensures '\U{C0}' <= c ==> PushByte(c) == ['\U{C3}', (c as int - 0x40) as char]
  {}

  /** A library name line keeps its indentation and gets the new identifier. */
  lemma LibNameSpelled(indent: string, x: string)
    requires forall i :: 0 <= i < |indent| ==> indent[i] == ' ' || indent[i] == '\t'
    ensures RewriteLine(indent + ("name = \"codex_" + x + "\"")) == indent + ("name = \"lemurclaw_" + x + "\"")
  {
    var name := "codex_" + x;
    LibNameFound(indent, x);
    NamesSpelled(x);
    hide LibName, RenameIdent, Indent, TrimStart;
    assert "name = \"" + ("lemurclaw_" + x) + "\"" == "name = \"lemurclaw_" + x + "\"";
    Glue(indent, "name = \"" + ("lemurclaw_" + x), "\"");
    Glue(indent, "name = \"", "lemurclaw_" + x);
  }

  lemma LibNameFound(indent: string, x: string)
    requires forall i :: 0 <= i < |indent| ==> indent[i] == ' ' || indent[i] == '\t'
    ensures var line := indent + ("name = \"codex_" + x + "\"");
            LibName(line) == Some("codex_" + x) && Indent(line) == indent
  {
    var name, body := "codex_" + x, "name = \"codex_" + x + "\"";
    assert body[0] == 'n' && body[..7] == "name = " && body[7..] == Quoted(name);
    IndentLead(indent, body);
    QuotedEnds(name);
    assert Quoted(name)[0] == QUOTE && Quoted(name)[|Quoted(name)| - 1] == QUOTE;
    assert Quoted(name)[1..|Quoted(name)| - 1] == name && name[..6] == "codex_";
    hide TrimStart, TrimEnd, Indent;
  }

  lemma QuotedEnds(name: string)
    ensures TrimEnd(TrimStart(Quoted(name))) == Quoted(name)
  {
    assert Quoted(name)[|Quoted(name)| - 1] == QUOTE;
  }

  lemma {:induction false} IndentLead(indent: string, body: string)
    requires forall i :: 0 <= i < |indent| ==> indent[i] == ' ' || indent[i] == '\t'
    requires body != "" && !IsSpace(body[0])
    ensures TrimStart(indent + body) == body && Indent(indent + body) == indent
    decreases |indent|
  {
    if indent == "" {
      assert indent + body == body;
    } else {
      assert (indent + body)[1..] == indent[1..] + body;
      IndentLead(indent[1..], body);
    }
    assert (indent + body)[..|indent|] == indent;
  }
}
