/** Rewriting a lockfile line by line: package blocks that are not published are dropped,
    everything else is renamed. A package's header is held back until its name decides. */
module Lockfile {
  import opened Text
  import opened ManifestStrings

  const HEADER := "[[package]]"
  const NAME := "name = "
  const OLD_DASH := "codex-"
  const NEW_DASH := "lemurclaw-"
  const OLD_UNDER := "codex_"
  const NEW_UNDER := "lemurclaw_"

  predicate IsHeader(line: string) { HEADER <= TrimStart(line) }

  predicate IsName(line: string) { !IsHeader(line) && NAME <= TrimStart(line) }

  /** The package name on a name line. */
  function NameOf(line: string): string
    requires IsName(line)
  {
    TrimQuotes(TrimEnd(TrimStart(TrimStart(line)[7..])))
  }

  /** `line_renamed_package_name`. */
  function RenamedNameLine(line: string, name: string): string {
    ReplaceAll(line, Quoted(name), Quoted(RenamePackage(name)))
  }

  function Renamed2(line: string): string {
    ReplaceAll(ReplaceAll(line, OLD_DASH, NEW_DASH), OLD_UNDER, NEW_UNDER)
  }

  /** A renamed package that is not published. */
  predicate Dropped(name: string, keep: set<string>) {
    NEW_DASH <= RenamePackage(name) && RenamePackage(name) !in keep
  }

  // ----- the state machine -----

  /** The output lines from a state on. */
  function RunLines(lines: seq<string>, skip: bool, pending: bool, keep: set<string>): seq<string>
    decreases |lines|
  {
    if lines == [] then []
    else
      var line, rest := lines[0], lines[1..];
      if IsHeader(line) then RunLines(rest, skip, true, keep)
      else if IsName(line) then
        var name := NameOf(line);
        if Dropped(name, keep) then RunLines(rest, true, false, keep)
        else (if pending then [HEADER] else []) + [RenamedNameLine(line, name)] + RunLines(rest, false, false, keep)
      else if skip then RunLines(rest, skip, pending, keep)
      else [Renamed2(line)] + RunLines(rest, skip, false, keep)
  }

  /** `rewrite_lockfile`. */
  method RewriteLockfile(lock: string, keep: set<string>) returns (out: string)
    ensures out == Unlines(RunLines(Lines(lock), false, false, keep))
  {
    hide IsHeader, IsName, NameOf, RenamedNameLine, Renamed2, Dropped, Unlines;
    out := "";
    var lines := Lines(lock);
    var skip, pending := false, false;
    var i := 0;
    assert lines[0..] == lines;
    while i < |lines|
      invariant 0 <= i <= |lines|
      invariant out + Unlines(RunLines(lines[i..], skip, pending, keep)) == Unlines(RunLines(lines, false, false, keep))
    {
      var line := lines[i];
      ghost var rest := lines[i + 1..];
      assert lines[i..][0] == line && lines[i..][1..] == rest;
      i := i + 1;
      if IsHeader(line) {
        pending := true;
        continue;
      }
      if IsName(line) {
        var name := NameOf(line);
        if Dropped(name, keep) {
          skip, pending := true, false;
          continue;
        }
        EmitName(out, if pending then [HEADER] else [], RenamedNameLine(line, name), RunLines(rest, false, false, keep));
        skip := false;
        if pending {
          out := out + HEADER + "\n";
          pending := false;
        }
        out := out + RenamedNameLine(line, name) + "\n";
        continue;
      }
      if skip {
        continue;
      }
      WriteLine(out, Renamed2(line), RunLines(rest, skip, false, keep));
      pending := false;
      out := out + Renamed2(line) + "\n";
    }
    assert lines[|lines|..] == [];
    EmitNone(out);
  }

  lemma EmitNone(out: string)
    ensures out + Unlines([]) == out
  {}

  lemma EmitName(out: string, head: seq<string>, line: string, more: seq<string>)
    requires |head| <= 1
    ensures out + Unlines(head + [line] + more)
         == (if head == [] then out else out + head[0] + "\n") + line + "\n" + Unlines(more)
  {
    if head == [] {
      assert head + [line] + more == [line] + more;
      WriteLine(out, line, more);
    } else {
      assert head + [line] + more == [head[0]] + ([line] + more);
      WriteLine(out, head[0], [line] + more);
      WriteLine(out + head[0] + "\n", line, more);
    }
  }

  // ----- block by block -----

  /** Every header has its name line right after it, and there are no other name lines. */
  predicate Regular(lines: seq<string>) {
    && (forall i :: 0 <= i < |lines| && IsHeader(lines[i]) ==> i + 1 < |lines| && IsName(lines[i + 1]))
    && (forall i :: 0 <= i < |lines| && IsName(lines[i]) ==> i > 0 && IsHeader(lines[i - 1]))
  }

  /** Number of lines before the next header. */
  function BodyLen(lines: seq<string>): (n: nat)
    ensures n <= |lines|
  {
    if lines == [] || IsHeader(lines[0]) then 0 else 1 + BodyLen(lines[1..])
  }

  function RenameAll(lines: seq<string>): seq<string> {
    if lines == [] then [] else [Renamed2(lines[0])] + RenameAll(lines[1..])
  }

  /** A block is kept whole, rewritten, or dropped whole. */
  function BlockOut(nameLine: string, body: seq<string>, keep: set<string>): seq<string>
    requires IsName(nameLine)
  {
    if Dropped(NameOf(nameLine), keep) then []
    else [HEADER, RenamedNameLine(nameLine, NameOf(nameLine))] + RenameAll(body)
  }

  /** The blocks of lines that start with a header, filtered and mapped in order. */
  function FilterBlocks(lines: seq<string>, keep: set<string>): seq<string>
    requires Regular(lines) && (lines == [] || IsHeader(lines[0]))
    decreases |lines|
  {
    if lines == [] then []
    else
      var n := BodyLen(lines[2..]);
      var rest := lines[2 + n..];
      RegularRest(lines);
      BlockOut(lines[1], lines[2..][..n], keep) + FilterBlocks(rest, keep)
  }

  lemma {:induction false} BodySpec(lines: seq<string>)
    ensures forall i :: 0 <= i < BodyLen(lines) ==> !IsHeader(lines[i])
    ensures BodyLen(lines) < |lines| ==> IsHeader(lines[BodyLen(lines)])
    decreases |lines|
  {
    hide IsHeader;
    if lines != [] && !IsHeader(lines[0]) {
      BodySpec(lines[1..]);
    }
  }

  lemma RegularFrom(lines: seq<string>, k: nat)
    requires Regular(lines) && k <= |lines| && (k < |lines| ==> !IsName(lines[k]))
    ensures Regular(lines[k..])
  {
    hide IsHeader, IsName;
    var t := lines[k..];
    forall i | 0 <= i < |t| && IsHeader(t[i])
      ensures i + 1 < |t| && IsName(t[i + 1])
    {
      assert lines[k + i] == t[i];
    }
    forall i | 0 <= i < |t| && IsName(t[i])
      ensures i > 0 && IsHeader(t[i - 1])
    {
      assert lines[k + i] == t[i];
      assert IsHeader(lines[k + i - 1]);
    }
  }

  lemma RegularRest(lines: seq<string>)
    requires Regular(lines) && lines != [] && IsHeader(lines[0])
    ensures |lines| >= 2 && IsName(lines[1])
    ensures var k := 2 + BodyLen(lines[2..]); Regular(lines[k..]) && (k < |lines| ==> IsHeader(lines[k]))
  {
    BodySpec(lines[2..]);
    var k := 2 + BodyLen(lines[2..]);
    assert k < |lines| ==> lines[2..][k - 2] == lines[k];
    RegularFrom(lines, k);
  }

  /** The body of a block: no header and no name line, so it is copied or skipped. */
  lemma {:induction false} RunBody(body: seq<string>, rest: seq<string>, skip: bool, keep: set<string>)
    requires forall i :: 0 <= i < |body| ==> !IsHeader(body[i]) && !IsName(body[i])
    ensures RunLines(body + rest, skip, false, keep)
         == (if skip then [] else RenameAll(body)) + RunLines(rest, skip, false, keep)
    decreases |body|
  {
    hide IsHeader, IsName, Renamed2, Dropped, NameOf;
    var tail := RunLines(rest, skip, false, keep);
    if body == [] {
      assert body + rest == rest;
      assert [] + tail == tail;
    } else {
      assert (body + rest)[0] == body[0] && (body + rest)[1..] == body[1..] + rest;
      RunBody(body[1..], rest, skip, keep);
      assert [Renamed2(body[0])] + (RenameAll(body[1..]) + tail) == [Renamed2(body[0])] + RenameAll(body[1..]) + tail;
    }
  }

  lemma RunBlock(lines: seq<string>, skip: bool, body: seq<string>, rest: seq<string>, keep: set<string>)
    requires |lines| >= 2 && IsHeader(lines[0]) && IsName(lines[1]) && lines[2..] == body + rest
    requires forall i :: 0 <= i < |body| ==> !IsHeader(body[i]) && !IsName(body[i])
    ensures RunLines(lines, skip, false, keep)
         == BlockOut(lines[1], body, keep) + RunLines(rest, Dropped(NameOf(lines[1]), keep), false, keep)
  {
    hide IsHeader, Renamed2, RenamedNameLine, Dropped, NameOf;
    var name := NameOf(lines[1]);
    var tail := RunLines(rest, Dropped(name, keep), false, keep);
    assert lines[1..][0] == lines[1] && lines[1..][1..] == lines[2..];
    RunBody(body, rest, Dropped(name, keep), keep);
    var line := RenamedNameLine(lines[1], name);
    assert [HEADER] + [line] + (RenameAll(body) + tail) == [HEADER, line] + RenameAll(body) + tail;
    assert [] + tail == tail;
  }

  /** The state machine filters and maps blocks, whatever block came before. */
  lemma {:induction false} RunIsFilter(lines: seq<string>, skip: bool, keep: set<string>)
    requires Regular(lines) && (lines == [] || IsHeader(lines[0]))
    ensures RunLines(lines, skip, false, keep) == FilterBlocks(lines, keep)
    decreases |lines|
  {
    if lines != [] {
      var n := BodyLen(lines[2..]);
      var body, rest := lines[2..][..n], lines[2 + n..];
      RegularRest(lines);
      BlockBody(lines);
      assert lines[2..] == body + rest;
      RunBlock(lines, skip, body, rest, keep);
      RunIsFilter(rest, Dropped(NameOf(lines[1]), keep), keep);
    }
  }

  lemma BlockBody(lines: seq<string>)
    requires Regular(lines) && lines != [] && IsHeader(lines[0]) && |lines| >= 2
    ensures var body := lines[2..][..BodyLen(lines[2..])];
            forall i :: 0 <= i < |body| ==> !IsHeader(body[i]) && !IsName(body[i])
  {
    hide IsHeader, IsName;
    BodySpec(lines[2..]);
    assert IsName(lines[1]) && !IsHeader(lines[1]) by { NameNoHeader(lines[1]); }
    var body := lines[2..][..BodyLen(lines[2..])];
    forall i | 0 <= i < |body|
      ensures !IsHeader(body[i]) && !IsName(body[i])
    {
      assert body[i] == lines[i + 2];
      assert i > 0 ==> lines[i + 1] == body[i - 1];
    }
  }

  lemma NameNoHeader(line: string)
    requires IsName(line)
    ensures !IsHeader(line)
  {}

  /** For a lockfile whose headers have their name lines, the output is the rewritten
      preamble and then exactly the rewritten blocks of the packages that are kept. */
  lemma LockfileIsFilter(lines: seq<string>, keep: set<string>)
    requires Regular(lines)
    ensures var n := BodyLen(lines);
            && Regular(lines[n..]) && (lines[n..] == [] || IsHeader(lines[n..][0]))
            && RunLines(lines, false, false, keep) == RenameAll(lines[..n]) + FilterBlocks(lines[n..], keep)
  {
    var n := BodyLen(lines);
    BodySpec(lines);
    RegularFrom(lines, n);
    hide IsHeader, IsName;
    assert lines == lines[..n] + lines[n..];
    forall i | 0 <= i < n
      ensures !IsHeader(lines[..n][i]) && !IsName(lines[..n][i])
    {
      assert lines[..n][i] == lines[i];
      if i > 0 { assert !IsHeader(lines[i - 1]); }
    }
    RunBody(lines[..n], lines[n..], false, keep);
    RunIsFilter(lines[n..], false, keep);
  }

  // ----- line by line -----

  /** The last name line before line `i` is one of a dropped package. */
  predicate SkipAt(lines: seq<string>, i: nat, keep: set<string>)
    requires i <= |lines|
  {
    i > 0 && if IsName(lines[i - 1]) then Dropped(NameOf(lines[i - 1]), keep) else SkipAt(lines, i - 1, keep)
  }

  /** A header is held back when line `i` is reached. */
  predicate PendingAt(lines: seq<string>, i: nat, keep: set<string>)
    requires i <= |lines|
  {
    i > 0 && (IsHeader(lines[i - 1]) || (!IsName(lines[i - 1]) && SkipAt(lines, i - 1, keep) && PendingAt(lines, i - 1, keep)))
  }

  /** What comes of line `i`, judged by the lines before it. */
  function LineByPlace(lines: seq<string>, i: nat, keep: set<string>): seq<string>
    requires i < |lines|
  {
    if IsHeader(lines[i]) then []
    else if IsName(lines[i]) then
      if Dropped(NameOf(lines[i]), keep) then []
      else (if PendingAt(lines, i, keep) then ["[[package]]"] else []) + [RenamedNameLine(lines[i], NameOf(lines[i]))]
    else if SkipAt(lines, i, keep) then []
    else [Renamed2(lines[i])]
  }

  function ByPlace(lines: seq<string>, i: nat, keep: set<string>): seq<string>
    requires i <= |lines|
    decreases |lines| - i
  {
    if i == |lines| then [] else LineByPlace(lines, i, keep) + ByPlace(lines, i + 1, keep)
  }

  lemma StepByPlace(lines: seq<string>, i: nat, keep: set<string>)
    requires i < |lines|
    ensures RunLines(lines[i..], SkipAt(lines, i, keep), PendingAt(lines, i, keep), keep)
         == LineByPlace(lines, i, keep)
            + RunLines(lines[i + 1..], SkipAt(lines, i + 1, keep), PendingAt(lines, i + 1, keep), keep)
  {
    assert lines[i..][0] == lines[i] && lines[i..][1..] == lines[i + 1..];
    NameNoHeaderIf(lines[i]);
    hide IsHeader, IsName, NameOf, Dropped, RenamedNameLine, Renamed2;
  }

  lemma NameNoHeaderIf(line: string)
    ensures IsName(line) ==> !IsHeader(line)
  {}

  /** The output of any lockfile, line by line. */
  lemma {:induction false} RunByPlace(lines: seq<string>, i: nat, keep: set<string>)
    requires i <= |lines|
    ensures RunLines(lines[i..], SkipAt(lines, i, keep), PendingAt(lines, i, keep), keep) == ByPlace(lines, i, keep)
    decreases |lines| - i
  {
    hide SkipAt, PendingAt, LineByPlace;
    if i < |lines| {
      StepByPlace(lines, i, keep);
      RunByPlace(lines, i + 1, keep);
    }
  }

  /** Neither a header nor a name line stands between the two lines. */
  ghost predicate NoneBetween(lines: seq<string>, h: nat, n: nat)
    requires n <= |lines|
  {
    forall j :: h < j < n ==> !IsHeader(lines[j]) && !IsName(lines[j])
  }

  /** The header on line `h` reaches line `n`: the lines between are skipped. */
  ghost predicate Reaches(lines: seq<string>, h: nat, n: nat, keep: set<string>)
    requires n <= |lines|
  {
    h < n && IsHeader(lines[h]) && NoneBetween(lines, h, n) && (n == h + 1 || SkipAt(lines, h, keep))
  }

  lemma {:induction false} SkipSame(lines: seq<string>, h: nat, n: nat, keep: set<string>)
    requires h < n <= |lines| && IsHeader(lines[h]) && NoneBetween(lines, h, n)
    ensures SkipAt(lines, n, keep) == SkipAt(lines, h, keep)
    decreases n
  {
    NameNoHeaderIf(lines[h]);
    hide IsHeader, IsName, Dropped, NameOf;
    if n > h + 1 { SkipSame(lines, h, n - 1, keep); }
  }

  lemma {:induction false} PendingDecided(lines: seq<string>, n: nat, keep: set<string>)
    requires n <= |lines|
    ensures PendingAt(lines, n, keep) <==> exists h :: Reaches(lines, h, n, keep)
    decreases n
  {
    hide IsHeader, IsName, SkipAt;
    if n > 0 {
      PendingDecided(lines, n - 1, keep);
      if IsHeader(lines[n - 1]) {
        assert Reaches(lines, n - 1, n, keep);
      } else if PendingAt(lines, n, keep) {
        var h :| Reaches(lines, h, n - 1, keep);
        SkipSame(lines, h, n - 1, keep);
        assert Reaches(lines, h, n, keep);
      } else if exists h :: Reaches(lines, h, n, keep) {
        var h :| Reaches(lines, h, n, keep);
        ReachesBack(lines, h, n, keep);
      }
    }
  }

  lemma ReachesBack(lines: seq<string>, h: nat, n: nat, keep: set<string>)
    requires n <= |lines| && Reaches(lines, h, n, keep) && !IsHeader(lines[n - 1])
    ensures Reaches(lines, h, n - 1, keep) && SkipAt(lines, n - 1, keep) && !IsName(lines[n - 1])
  {
    SkipSame(lines, h, n - 1, keep);
    hide IsHeader, IsName, SkipAt;
  }

  lemma OneHeader(lines: seq<string>, h: nat, g: nat, n: nat)
    requires h < n <= |lines| && g < n && IsHeader(lines[h]) && IsHeader(lines[g])
    requires NoneBetween(lines, h, n) && NoneBetween(lines, g, n)
    ensures h == g
  {}

  /** The header of a kept package is written if and only if its name comes right after it or
      the lines between belong to a dropped package; whatever else the lockfile holds. */
  lemma HeaderWritten(lines: seq<string>, h: nat, n: nat, keep: set<string>)
    requires h < n < |lines| && IsHeader(lines[h]) && NoneBetween(lines, h, n)
    requires IsName(lines[n]) && !Dropped(NameOf(lines[n]), keep)
    ensures RunLines(lines, false, false, keep) == ByPlace(lines, 0, keep)
    ensures var name := RenamedNameLine(lines[n], NameOf(lines[n]));
            && (LineByPlace(lines, n, keep) == ["[[package]]", name] <==> n == h + 1 || SkipAt(lines, h, keep))
            && (LineByPlace(lines, n, keep) == [name] <==> !(n == h + 1 || SkipAt(lines, h, keep)))
  {
    assert lines[0..] == lines;
    RunByPlace(lines, 0, keep);
    PendingDecided(lines, n, keep);
    NameNoHeaderIf(lines[n]);
    hide IsHeader, IsName, Dropped, NameOf, RenamedNameLine, SkipAt, PendingAt;
    if exists g :: Reaches(lines, g, n, keep) {
      var g :| Reaches(lines, g, n, keep);
      OneHeader(lines, h, g, n);
    } else {
      assert !Reaches(lines, h, n, keep);
    }
    var name := RenamedNameLine(lines[n], NameOf(lines[n]));
    assert [HEADER] + [name] == [HEADER, name] && |[] + [name]| == 1;
  }

  /** Every header in the output is the one of the package it stands in front of. */
  lemma HeaderHasOrigin(lines: seq<string>, n: nat, keep: set<string>)
    requires n < |lines| && |LineByPlace(lines, n, keep)| == 2
    ensures LineByPlace(lines, n, keep)[0] == "[[package]]" && IsName(lines[n]) && !Dropped(NameOf(lines[n]), keep)
    ensures exists h :: Reaches(lines, h, n, keep)
  {
    PendingDecided(lines, n, keep);
    hide Reaches, PendingAt;
  }

  /** So it is lost when a line that is not skipped comes in between. */
  lemma HeaderLost(line: string, name: string, rest: seq<string>, keep: set<string>)
    requires !IsHeader(line) && !IsName(line) && IsName(name) && !Dropped(NameOf(name), keep)
    ensures RunLines([HEADER, line, name] + rest, false, false, keep)
         == [Renamed2(line), RenamedNameLine(name, NameOf(name))] + RunLines(rest, false, false, keep)
  {
    assert IsHeader(HEADER) by { assert HEADER[0] == '['; assert TrimStart(HEADER) == HEADER; }
    NameNoHeaderIf(name);
    var a, b, c := [HEADER, line, name] + rest, [line, name] + rest, [name] + rest;
    assert a[1..] == b && b[1..] == c && c[1..] == rest;
    hide IsHeader, IsName, Dropped, NameOf, RenamedNameLine, Renamed2;
    var tail := RunLines(rest, false, false, keep);
    assert RunLines(a, false, false, keep) == RunLines(b, false, true, keep);
    assert RunLines(c, false, false, keep) == [] + [RenamedNameLine(name, NameOf(name))] + tail;
  }

  // ----- references keep matching names -----

  /** A pattern that cannot start inside `a` occurs in `a + b` only inside `b`. */
  lemma {:induction false} OccursBehind(p: string, a: string, b: string)
    requires forall i :: 0 <= i < |a| ==> !(p <= (a + b)[i..])
    ensures Occurs(p, a + b) <==> Occurs(p, b)
    decreases |a|
  {
    var s := a + b;
    if a == "" {
      assert s == b;
    } else {
      assert s[0..] == s && s[1..] == a[1..] + b;
      forall i | 0 <= i < |a| - 1
        ensures !(p <= (a[1..] + b)[i..])
      {
        assert (a[1..] + b)[i..] == s[i + 1..];
      }
      OccursBehind(p, a[1..], b);
      OccursCons(p, s);
    }
  }

  lemma UnderBehind(rest: string)
    ensures Occurs(OLD_UNDER, NEW_DASH + rest) <==> Occurs(OLD_UNDER, rest)
    ensures Occurs(OLD_UNDER, OLD_DASH + rest) <==> Occurs(OLD_UNDER, rest)
  {
    assert OLD_UNDER[0] == 'c' && OLD_UNDER[1] == 'o' && OLD_UNDER[5] == '_';
    forall i | 0 <= i < |NEW_DASH|
      ensures !(OLD_UNDER <= (NEW_DASH + rest)[i..])
    {
      assert (NEW_DASH + rest)[i] == NEW_DASH[i];
      assert i == 5 ==> (NEW_DASH + rest)[6] == 'l';
    }
    OccursBehind(OLD_UNDER, NEW_DASH, rest);
    forall i | 0 <= i < |OLD_DASH|
      ensures !(OLD_UNDER <= (OLD_DASH + rest)[i..])
    {
      assert (OLD_DASH + rest)[i] == OLD_DASH[i];
      assert i == 0 ==> (OLD_DASH + rest)[5] == '-';
    }
    OccursBehind(OLD_UNDER, OLD_DASH, rest);
  }

  lemma {:induction false} CountZero(s: string, p: string)
    requires p != ""
    ensures CountMatches(s, p) == 0 <==> !Occurs(p, s)
    decreases |s|
  {
    if s == "" {
    } else if p <= s {
      assert s[0..] == s;
    } else {
      OccursCons(p, s);
      CountZero(s[1..], p);
    }
  }

  /** `codex-` occurs in the name at most as its prefix, and `codex_` not at all. */
  ghost predicate PlainName(name: string) {
    && !Occurs(OLD_UNDER, name)
    && (if OLD_DASH <= name then !Occurs(OLD_DASH, name[6..]) else !Occurs(OLD_DASH, name))
  }

  lemma PrefixSplit(name: string)
    requires OLD_DASH <= name
    ensures name == OLD_DASH + name[6..]
    ensures ReplaceAll(name, OLD_DASH, NEW_DASH) == NEW_DASH + ReplaceAll(name[6..], OLD_DASH, NEW_DASH)
    ensures CountMatches(name, OLD_DASH) == 1 + CountMatches(name[6..], OLD_DASH)
  {}

  lemma PlainRenamed(name: string)
    requires PlainName(name)
    ensures Renamed2(name) == RenamePackage(name)
  {
    if OLD_DASH <= name {
      var rest := name[6..];
      PrefixSplit(name);
      ReplaceAllAbsent(rest, OLD_DASH, NEW_DASH);
      UnderBehind(rest);
      ReplaceAllAbsent(NEW_DASH + rest, OLD_UNDER, NEW_UNDER);
    } else {
      ReplaceAllAbsent(name, OLD_DASH, NEW_DASH);
      ReplaceAllAbsent(name, OLD_UNDER, NEW_UNDER);
    }
  }

  /** Renamed text is longer by four for every occurrence of either pattern. */
  lemma RenamedLength(name: string)
    ensures var once := ReplaceAll(name, OLD_DASH, NEW_DASH);
            |Renamed2(name)| == |name| + 4 * (CountMatches(name, OLD_DASH) + CountMatches(once, OLD_UNDER))
  {
    var once := ReplaceAll(name, OLD_DASH, NEW_DASH);
    ReplaceAllLength(name, OLD_DASH, NEW_DASH);
    ReplaceAllLength(once, OLD_UNDER, NEW_UNDER);
  }

  lemma PrefixedMatch(name: string)
    requires OLD_DASH <= name && Renamed2(name) == RenamePackage(name)
    ensures PlainName(name)
  {
    var rest := name[6..];
    var once := ReplaceAll(name, OLD_DASH, NEW_DASH);
    RenamedLength(name);
    PrefixSplit(name);
    hide Renamed2, ReplaceAll, CountMatches;
    assert |RenamePackage(name)| == |name| + 4;
    assert CountMatches(rest, OLD_DASH) == 0 && CountMatches(once, OLD_UNDER) == 0;
    CountZero(rest, OLD_DASH);
    CountZero(once, OLD_UNDER);
    ReplaceAllAbsent(rest, OLD_DASH, NEW_DASH);
    UnderBehind(rest);
  }

  lemma UnprefixedMatch(name: string)
    requires !(OLD_DASH <= name) && Renamed2(name) == RenamePackage(name)
    ensures PlainName(name)
  {
    var once := ReplaceAll(name, OLD_DASH, NEW_DASH);
    RenamedLength(name);
    hide Renamed2, ReplaceAll, CountMatches;
    assert CountMatches(name, OLD_DASH) == 0 && CountMatches(once, OLD_UNDER) == 0;
    CountZero(name, OLD_DASH);
    CountZero(once, OLD_UNDER);
    ReplaceAllAbsent(name, OLD_DASH, NEW_DASH);
  }

  /** The renaming of references agrees with the renaming of names for plain names only. */
  lemma ReferencesMatch(name: string)
    ensures Renamed2(name) == RenamePackage(name) <==> PlainName(name)
  {
    hide Renamed2, PlainName, RenamePackage;
    if PlainName(name) {
      PlainRenamed(name);
    } else if Renamed2(name) == RenamePackage(name) {
      if OLD_DASH <= name { PrefixedMatch(name); } else { UnprefixedMatch(name); }
    }
  }

  /** A line with the name between a quote and a quote or space: the reference in the output
      line reads as the name itself does when it is renamed. */
  lemma ReferenceInLine(before: string, name: string, close: char, after: string)
    requires close == QUOTE || close == ' '
    ensures Renamed2(before + ([QUOTE] + (name + ([close] + after))))
         == Renamed2(before) + ([QUOTE] + (Renamed2(name) + ([close] + Renamed2(after))))
  {
    Renamed2AtBreak(before, QUOTE, name + ([close] + after));
    Renamed2AtBreak(name, close, after);
  }

  lemma Renamed2AtBreak(a: string, c: char, b: string)
    requires c == QUOTE || c == ' '
    ensures Renamed2(a + ([c] + b)) == Renamed2(a) + ([c] + Renamed2(b))
  {
    assert c !in OLD_DASH && c !in OLD_UNDER;
    ReplaceAtBreak(a, c, b, OLD_DASH, NEW_DASH);
    ReplaceAtBreak(ReplaceAll(a, OLD_DASH, NEW_DASH), c, ReplaceAll(b, OLD_DASH, NEW_DASH), OLD_UNDER, NEW_UNDER);
  }

  /** The name line of a kept package carries its renamed name. */
  lemma NameLineRenamed(name: string)
    requires QUOTE !in name && name != ""
    ensures RenamedNameLine(NAME + Quoted(name), name) == NAME + Quoted(RenamePackage(name))
  {
    var find, repl := Quoted(name), Quoted(RenamePackage(name));
    var line := NAME + Quoted(name);
    SkipTo(NAME, find, find, repl);
    assert find[|find|..] == "";
    assert ReplaceAll(find, find, repl) == repl + "" == repl;
  }

  lemma {:induction false} SkipTo(a: string, s: string, find: string, repl: string)
    requires find != "" && find[0] == QUOTE && QUOTE !in a
    ensures ReplaceAll(a + s, find, repl) == a + ReplaceAll(s, find, repl)
    decreases |a|
  {
    var t := a + s;
    if a == "" {
      assert t == s;
    } else {
      assert t[0] == a[0] && t[1..] == a[1..] + s;
      SkipTo(a[1..], s, find, repl);
      Glue([a[0]], a[1..], ReplaceAll(s, find, repl));
      assert a == [a[0]] + a[1..];
    }
  }

  // ----- references and names of one lockfile -----

  lemma {:induction false} InOutput(lines: seq<string>, i: nat, n: nat, x: string, keep: set<string>)
    requires i <= n < |lines| && x in LineByPlace(lines, n, keep)
    ensures x in ByPlace(lines, i, keep)
    decreases n - i
  {
    hide LineByPlace;
    if i < n { InOutput(lines, i + 1, n, x, keep); }
  }

  lemma NameRead(name: string)
    requires name != "" && QUOTE !in name
    ensures IsName(NAME + Quoted(name)) && NameOf(NAME + Quoted(name)) == name
  {
    var line := NAME + Quoted(name);
    assert line[0] == NAME[0] == 'n' && HEADER[0] == '[';
    assert TrimStart(line) == line;
    assert line[7..] == Quoted(name);
    QuotedValue(name);
  }

  /** In any lockfile, a reference in a line that is kept and the name line of a kept package
      both come out renamed, and they agree if and only if the name is plain. */
  lemma ReferencesInLockfile(lines: seq<string>, keep: set<string>, n: nat, r: nat, name: string,
                             before: string, close: char, after: string)
    requires n < |lines| && r < |lines| && name != "" && QUOTE !in name && (close == QUOTE || close == ' ')
    requires lines[n] == NAME + Quoted(name) && !Dropped(name, keep)
    requires lines[r] == before + ([QUOTE] + (name + ([close] + after)))
    requires !IsHeader(lines[r]) && !IsName(lines[r]) && !SkipAt(lines, r, keep)
    ensures var o := RunLines(lines, false, false, keep);
            && NAME + Quoted(RenamePackage(name)) in o
            && Renamed2(before) + ([QUOTE] + (Renamed2(name) + ([close] + Renamed2(after)))) in o
            && (Renamed2(name) == RenamePackage(name) <==> PlainName(name))
  {
    NameRead(name);
    NameNoHeaderIf(lines[n]);
    NameLineRenamed(name);
    ReferenceInLine(before, name, close, after);
    ReferencesMatch(name);
    assert lines[0..] == lines;
    RunByPlace(lines, 0, keep);
    hide IsHeader, IsName, NameOf, Dropped, RenamedNameLine, Renamed2, SkipAt, PendingAt, RunLines, ByPlace, PlainName, RenamePackage, NAME, Quoted;
    InOutput(lines, 0, n, NAME + Quoted(RenamePackage(name)), keep);
    InOutput(lines, 0, r, Renamed2(lines[r]), keep);
  }

  // ----- spelled out -----

  /** A package is dropped when its published name is one of the toolkit's and is not kept; all
      other packages stay. */
  lemma DroppedSpelled(name: string, keep: set<string>)
    ensures "codex-" <= name ==> (Dropped(name, keep) <==> "lemurclaw-" + name[6..] !in keep)
    ensures "lemurclaw-" <= name ==> (Dropped(name, keep) <==> name !in keep)
    ensures !("codex-" <= name) && !("lemurclaw-" <= name) ==> !Dropped(name, keep)
  {
    assert "codex-"[0] == 'c' && "lemurclaw-"[0] == 'l';
  }

  /** Header and name lines, behind white space. */
  lemma LinesSpelled(indent: string, rest: string)
    requires forall i :: 0 <= i < |indent| ==> indent[i] == ' ' || indent[i] == '\t'
    ensures IsHeader(indent + ("[[package]]" + rest)) && !IsName(indent + ("[[package]]" + rest))
    ensures IsName(indent + ("name = " + rest)) && !IsHeader(indent + ("name = " + rest))
  {
    var header, name := "[[package]]" + rest, "name = " + rest;
    assert header[0] == '[' && name[0] == 'n' && header[..11] == "[[package]]" && name[..7] == "name = ";
    IndentLead(indent, header);
    IndentLead(indent, name);
    hide TrimStart;
  }

  /** Every other line that stays has both prefixes replaced throughout. */
  lemma OtherSpelled(line: string)
    ensures Renamed2(line) == ReplaceAll(ReplaceAll(line, "codex-", "lemurclaw-"), "codex_", "lemurclaw_")
  {}
}
