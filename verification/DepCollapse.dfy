/** The dependency lines of a cluster's member crates become one dependency on the merged
    package. */
module DepCollapse {
  import opened Text
  import opened Wrappers
  import opened ManifestStrings
  import opened LineMachine
  import opened TomlLines

  const EQ := " = "
  const ALIAS := "package = \""

  /** `extract_dep_key`. */
  function DepKey(trimmed: string): Option<string> {
    var eq := Find(trimmed, EQ);
    if eq < 0 then None else Some(TrimEnd(TrimStart(trimmed[..eq])))
  }

  /** The package a line names as an alias. */
  function AliasOf(trimmed: string): Option<string> {
    var at := Find(trimmed, ALIAS);
    if at < 0 then None
    else
      FindFits(trimmed, ALIAS);
      var rest := trimmed[at + |ALIAS|..];
      if NextQuote(rest) < 0 then None else Some(rest[..NextQuote(rest)])
  }

  datatype Cluster = Cluster(members: set<string>, merged: string)

  predicate IsMember(line: string, c: Cluster) {
    var trimmed := TrimStart(line);
    && DepKey(trimmed).Some?
    && (DepKey(trimmed).value in c.members || (AliasOf(trimmed).Some? && AliasOf(trimmed).value in c.members))
  }

  predicate IsMerged(line: string, c: Cluster) { !IsMember(line, c) && DepKey(TrimStart(line)) == Some(c.merged) }

  /** A line that stands for the merged package. */
  predicate Hit(line: string, c: Cluster) { IsMember(line, c) || IsMerged(line, c) }

  const REST := "{ workspace = true }"
  const SUFFIX := EQ + REST

  function Entry(c: Cluster): string { c.merged + SUFFIX }

  /** What the first such line becomes. */
  function First(line: string, c: Cluster): string {
    if IsMember(line, c) then Indent(line) + Entry(c) else line
  }

  function StepLine(line: string, emitted: bool, c: Cluster): (seq<string>, bool) {
    if !Hit(line, c) then ([line], emitted) else if emitted then ([], true) else ([First(line, c)], true)
  }

  function Step(c: Cluster): (string, bool) -> (seq<string>, bool) {
    (line: string, emitted: bool) => StepLine(line, emitted, c)
  }

  lemma StepCases(line: string, emitted: bool, c: Cluster)
    ensures IsMember(line, c) ==> Step(c)(line, emitted) == (if emitted then [] else [Indent(line) + Entry(c)], true)
    ensures IsMerged(line, c) ==> Step(c)(line, emitted) == (if emitted then [] else [line], true)
    ensures !Hit(line, c) ==> Step(c)(line, emitted) == ([line], emitted)
  {
    hide IsMember, DepKey, AliasOf, Indent, TrimStart;
  }

  /** `collapse_deps_in_manifest`, as a function of the manifest text. */
  method CollapseDepsInManifest(raw: string, c: Cluster) returns (out: string)
    ensures out == Rewrite(Step(c), raw, false)
  {
    hide DepKey, AliasOf, Unlines, Written, Indent, TrimStart;
    out := "";
    var lines := Lines(raw);
    var emitted := false;
    var i := 0;
    WrittenStart(Step(c), lines, false);
    while i < |lines|
      invariant 0 <= i <= |lines|
      invariant Written(Step(c), lines, false, i, emitted, out)
    {
      var line := lines[i];
      WrittenLine(Step(c), lines, false, i, emitted, out);
      StepCases(line, emitted, c);
      i := i + 1;
      var trimmed := TrimStart(line);
      var pkg := DepKey(trimmed);
      if pkg.Some? {
        var keyIsMember := pkg.value in c.members;
        var aliasIsMember := AliasOf(trimmed).Some? && AliasOf(trimmed).value in c.members;
        if keyIsMember || aliasIsMember {
          if !emitted {
            out := out + (Indent(line) + Entry(c)) + "\n";
            emitted := true;
          }
          continue;
        }
        if pkg.value == c.merged {
          if !emitted {
            out := out + line + "\n";
            emitted := true;
          }
          continue;
        }
      }
      out := out + line + "\n";
    }
    WrittenAll(Step(c), lines, false, emitted, out);
  }

  // ----- what comes out -----

  /** The lines that have nothing to do with the cluster. */
  function Others(lines: seq<string>, c: Cluster): seq<string> {
    if lines == [] then []
    else (if Hit(lines[0], c) then [] else [lines[0]]) + Others(lines[1..], c)
  }

  lemma {:induction false} AfterFirst(lines: seq<string>, c: Cluster)
    ensures Out(Step(c), lines, true) == Others(lines, c)
    decreases |lines|
  {
    hide Hit;
    if lines != [] { AfterFirst(lines[1..], c); }
  }

  lemma {:induction false} NoHits(lines: seq<string>, rest: seq<string>, c: Cluster)
    requires forall i :: 0 <= i < |lines| ==> !Hit(lines[i], c)
    ensures Out(Step(c), lines + rest, false) == lines + Out(Step(c), rest, false)
    decreases |lines|
  {
    hide Hit;
    if lines == [] {
      assert lines + rest == rest;
      assert lines + Out(Step(c), rest, false) == Out(Step(c), rest, false);
    } else {
      assert (lines + rest)[0] == lines[0] && (lines + rest)[1..] == lines[1..] + rest;
      NoHits(lines[1..], rest, c);
      var more := Out(Step(c), rest, false);
      assert [lines[0]] + (lines[1..] + more) == lines + more;
    }
  }

  /** Without a line of the cluster nothing changes. Otherwise one line stands for the merged
      package, in the place of the first of the cluster's lines; of those, wherever in the
      manifest they stand, no other is left, and every line else stays. */
  lemma CollapseSpec(lines: seq<string>, c: Cluster, k: nat)
    requires k <= |lines| && (forall i :: 0 <= i < k ==> !Hit(lines[i], c)) && (k < |lines| ==> Hit(lines[k], c))
    ensures Out(Step(c), lines, false)
         == if k == |lines| then lines else lines[..k] + [First(lines[k], c)] + Others(lines[k + 1..], c)
  {
    hide Hit, First;
    var rest := lines[k..];
    assert lines == lines[..k] + rest;
    NoHits(lines[..k], rest, c);
    if k < |lines| {
      assert rest[0] == lines[k] && rest[1..] == lines[k + 1..];
      AfterFirst(lines[k + 1..], c);
      var more := Others(lines[k + 1..], c);
      assert lines[..k] + ([First(lines[k], c)] + more) == lines[..k] + [First(lines[k], c)] + more;
    } else {
      assert rest == [] && lines[..k] == lines;
    }
  }

  // ----- running it again -----

  /** The merged package has a package name. */
  ghost predicate PackageName(name: string) {
    name != "" && QUOTE !in name && '=' !in name && forall i :: 0 <= i < |name| ==> !IsSpace(name[i]) && name[i] != '\n'
  }

  lemma {:induction false} FindEq(a: string, rest: string)
    requires '=' !in a && (a == "" || a[|a| - 1] != ' ')
    ensures Find(a + (EQ + rest), EQ) == |a|
    decreases |a|
  {
    var s := a + (EQ + rest);
    if a == "" {
      assert s[..3] == EQ;
    } else {
      assert s[1..] == a[1..] + (EQ + rest);
      assert EQ[0] == ' ' && EQ[1] == '=';
      if |a| == 1 { assert s[0] == a[0]; } else { assert s[1] == a[1]; }
      FindEq(a[1..], rest);
    }
  }

  lemma NoQuoteNoAlias(s: string)
    requires QUOTE !in s
    ensures AliasOf(s).None?
  {
    assert ALIAS[10] == QUOTE;
    if Find(s, ALIAS) >= 0 {
      FindFits(s, ALIAS);
    }
  }

  lemma Trimmed(s: string)
    requires s != "" && !IsSpace(s[0]) && !IsSpace(s[|s| - 1])
    ensures TrimEnd(TrimStart(s)) == s
  {}

  /** The collapsed line stands for the merged package itself. */
  lemma EntryKey(c: Cluster)
    requires PackageName(c.merged)
    ensures DepKey(Entry(c)) == Some(c.merged) && AliasOf(Entry(c)).None?
    ensures !IsSpace(Entry(c)[0])
  {
    EntryFind(c.merged);
    var name := c.merged;
    assert Entry(c)[..|name|] == name;
    assert QUOTE !in Entry(c) by {
      assert QUOTE !in SUFFIX;
    }
    NoQuoteNoAlias(Entry(c));
    hide Find, AliasOf;
    Trimmed(name);
  }

  lemma EntryFind(name: string)
    requires PackageName(name)
    ensures Find(name + SUFFIX, EQ) == |name|
  {
    assert '=' !in name && name[|name| - 1] != ' ';
    hide PackageName;
    FindEq(name, REST);
    assert SUFFIX == EQ + REST;
  }

  lemma FirstTwice(line: string, c: Cluster)
    requires PackageName(c.merged) && Hit(line, c)
    ensures Hit(First(line, c), c) && First(First(line, c), c) == First(line, c)
  {
    if IsMember(line, c) {
      EntryKey(c);
      hide DepKey, AliasOf, Entry, Indent, TrimStart;
      Reindent(line, Entry(c));
    }
  }

  predicate Same(s: bool, t: bool) { s == t }

  lemma CollapseStable(c: Cluster)
    requires PackageName(c.merged)
    ensures Stable(Step(c), Same)
  {
    forall l: string, s: bool, t: bool | Same(s, t)
      ensures StableStep(Step(c), Same, l, s, t)
    {
      if Hit(l, c) { FirstTwice(l, c); }
      hide Hit, First;
      OutOne(Step(c), l, s);
      OutOne(Step(c), First(l, c), s);
    }
  }

  /** Collapsing twice is collapsing once, whether or not the merged package is itself named
      among the members. */
  lemma CollapseIdempotent(lines: seq<string>, c: Cluster)
    requires PackageName(c.merged)
    ensures Out(Step(c), Out(Step(c), lines, false), false) == Out(Step(c), lines, false)
  {
    CollapseStable(c);
    Idempotent(Step(c), Same, lines, false, false);
  }

  lemma FirstTidy(line: string, c: Cluster)
    requires PackageName(c.merged) && OneLine(line)
    ensures OneLine(First(line, c)) && TrailingCr(First(line, c)) <= TrailingCr(line)
  {
    if IsMember(line, c) {
      assert EndsInBrace(Entry(c)) by {
        assert OneLine(SUFFIX);
      }
      IndentSpec(line);
      hide IsMember, Entry, Indent, TrimStart, TrailingCr, EndsInBrace;
      IndentTidy(Indent(line), TrimStart(line), Entry(c));
    }
  }

  lemma CollapseTidy(c: Cluster)
    requires PackageName(c.merged)
    ensures Tidy(Step(c))
  {
    forall l: string, s: bool | OneLine(l)
      ensures TidyLines(Step(c)(l, s).0, l)
    {
      FirstTidy(l, c);
      hide Hit, First, TidyLines, TrailingCr;
      TidyNone(l);
      TidyOne(l, l);
      TidyOne(First(l, c), l);
    }
  }

  /** What comes of a line, judged by the lines before it. */
  function LineByPlace(lines: seq<string>, i: nat, c: Cluster): seq<string>
    requires i < |lines|
  {
    if !Hit(lines[i], c) then [lines[i]]
    else if HitBefore(lines, i, c) then []
    else [First(lines[i], c)]
  }

  predicate HitBefore(lines: seq<string>, i: nat, c: Cluster)
    requires i <= |lines|
  {
    exists j :: 0 <= j < i && Hit(lines[j], c)
  }

  lemma StepByPlace(lines: seq<string>, i: nat, c: Cluster)
    requires i < |lines|
    ensures StepLine(lines[i], HitBefore(lines, i, c), c) == (LineByPlace(lines, i, c), HitBefore(lines, i + 1, c))
  {
    hide Hit, First;
    assert HitBefore(lines, i + 1, c) == (HitBefore(lines, i, c) || Hit(lines[i], c));
  }

  lemma {:induction false} CleanByPlace(lines: seq<string>, i: nat, c: Cluster)
    requires i <= |lines|
    ensures CleanRun(Step(c), lines[i..], HitBefore(lines, i, c))
       <==> forall j :: i <= j < |lines| ==> NoCr(LineByPlace(lines, j, c))
    decreases |lines| - i
  {
    hide StepLine, HitBefore, LineByPlace, NoCr;
    if i < |lines| {
      assert lines[i..][0] == lines[i] && lines[i..][1..] == lines[i + 1..];
      CleanByPlace(lines, i + 1, c);
      StepByPlace(lines, i, c);
    }
  }

  lemma CleanLine(lines: seq<string>, i: nat, c: Cluster)
    requires i < |lines| && PackageName(c.merged)
    ensures NoCr(LineByPlace(lines, i, c))
       <==> (LineByPlace(lines, i, c) == [lines[i]] ==> !EndsInCr(lines[i]))
  {
    NoneEnds();
    NoCrOne(lines[i]);
    NoCrOne(First(lines[i], c));
    assert !EndsInCr(Indent(lines[i]) + Entry(c));
    hide NoCr, Indent, Entry, Hit, IsMember;
    assert [First(lines[i], c)] == [lines[i]] <==> First(lines[i], c) == lines[i];
  }

  /** As a function of the text the collapsing is idempotent exactly when no line that stays as
      it is ends in a stray carriage return. */
  lemma CollapseTwice(raw: string, c: Cluster)
    requires PackageName(c.merged)
    ensures var lines := Lines(raw);
            Rewrite(Step(c), Rewrite(Step(c), raw, false), false) == Rewrite(Step(c), raw, false)
            <==> forall i :: 0 <= i < |lines| && LineByPlace(lines, i, c) == [lines[i]] ==> !EndsInCr(lines[i])
  {
    var lines := Lines(raw);
    CollapseStable(c);
    CollapseTidy(c);
    RewriteTwice(Step(c), Same, raw, false);
    assert lines[0..] == lines && !HitBefore(lines, 0, c);
    CleanByPlace(lines, 0, c);
    hide CleanRun, Rewrite, LineByPlace, HitBefore;
    forall i | 0 <= i < |lines|
      ensures NoCr(LineByPlace(lines, i, c)) <==> (LineByPlace(lines, i, c) == [lines[i]] ==> !EndsInCr(lines[i]))
    {
      CleanLine(lines, i, c);
    }
  }

  // ----- section by section -----

  /** The header of the section that line `i` stands in; a line of the cluster opens none. */
  function SectionAt(lines: seq<string>, i: nat, c: Cluster): string
    requires i <= |lines|
  {
    if i < |lines| && IsHeader(lines[i]) && !Hit(lines[i], c) then TrimStart(lines[i])
    else if i == 0 then ""
    else SectionAt(lines, i - 1, c)
  }

  /** Some line of the cluster stands in the section. */
  ghost predicate HitIn(lines: seq<string>, section: string, c: Cluster) {
    exists i :: 0 <= i < |lines| && Hit(lines[i], c) && SectionAt(lines, i, c) == section
  }

  ghost predicate OneSection(lines: seq<string>, c: Cluster) {
    forall i, j :: 0 <= i < |lines| && 0 <= j < |lines| && Hit(lines[i], c) && Hit(lines[j], c) ==>
      SectionAt(lines, i, c) == SectionAt(lines, j, c)
  }

  lemma {:induction false} SectionPrefix(a: seq<string>, x: seq<string>, y: seq<string>, i: nat, c: Cluster)
    requires i < |a|
    ensures SectionAt(a + x, i, c) == SectionAt(a + y, i, c)
    decreases i
  {
    hide Hit, IsHeader, TrimStart;
    assert (a + x)[i] == a[i] == (a + y)[i];
    if i > 0 { SectionPrefix(a, x, y, i - 1, c); }
  }

  /** A line of the cluster is in the section of the lines before it. */
  lemma SectionOfHit(a: seq<string>, line: string, x: seq<string>, line': string, y: seq<string>, c: Cluster)
    requires Hit(line, c) && Hit(line', c)
    ensures SectionAt(a + ([line] + x), |a|, c) == SectionAt(a + ([line'] + y), |a|, c)
  {
    hide Hit, IsHeader, TrimStart;
    assert (a + ([line] + x))[|a|] == line && (a + ([line'] + y))[|a|] == line';
    if a != [] { SectionPrefix(a, [line] + x, [line'] + y, |a| - 1, c); }
  }

  lemma {:induction false} OthersMissed(lines: seq<string>, c: Cluster)
    ensures forall i :: 0 <= i < |Others(lines, c)| ==> !Hit(Others(lines, c)[i], c)
    decreases |lines|
  {
    hide Hit;
    if lines != [] { OthersMissed(lines[1..], c); }
  }

  /** The one line of the cluster in the output stands in the section of the first in the
      input. */
  lemma OutputHit(lines: seq<string>, c: Cluster, k: nat)
    requires PackageName(c.merged) && k < |lines| && Hit(lines[k], c) && forall i :: 0 <= i < k ==> !Hit(lines[i], c)
    ensures var o := Out(Step(c), lines, false);
            && k < |o| && Hit(o[k], c) && SectionAt(o, k, c) == SectionAt(lines, k, c)
            && forall i :: 0 <= i < |o| && Hit(o[i], c) ==> i == k
  {
    var a, others := lines[..k], Others(lines[k + 1..], c);
    CollapseSpec(lines, c, k);
    FirstTwice(lines[k], c);
    OthersMissed(lines[k + 1..], c);
    hide Hit, First, Out, SectionAt, PackageName, Others;
    SplitBefore(lines, k, c);
    ShapeHit(lines, a, lines[k], lines[k + 1..], Out(Step(c), lines, false), First(lines[k], c), others, c);
  }

  lemma SplitBefore(lines: seq<string>, k: nat, c: Cluster)
    requires k < |lines| && forall i :: 0 <= i < k ==> !Hit(lines[i], c)
    ensures lines == lines[..k] + ([lines[k]] + lines[k + 1..])
    ensures forall i :: 0 <= i < |lines[..k]| ==> !Hit(lines[..k][i], c)
  {
    hide Hit;
  }

  lemma ShapeHit(lines: seq<string>, a: seq<string>, line: string, x: seq<string>,
                 o: seq<string>, first: string, others: seq<string>, c: Cluster)
    requires lines == a + ([line] + x) && o == a + [first] + others && Hit(line, c) && Hit(first, c)
    requires (forall i :: 0 <= i < |a| ==> !Hit(a[i], c)) && forall i :: 0 <= i < |others| ==> !Hit(others[i], c)
    ensures var k := |a|;
            && k < |o| && Hit(o[k], c) && SectionAt(o, k, c) == SectionAt(lines, k, c)
            && forall i :: 0 <= i < |o| && Hit(o[i], c) ==> i == k
  {
    hide Hit, SectionAt;
    assert o == a + ([first] + others);
    SectionOfHit(a, line, x, first, others, c);
    OnlyHit(a, first, others, c);
  }

  lemma OnlyHit(a: seq<string>, first: string, others: seq<string>, c: Cluster)
    requires Hit(first, c) && (forall i :: 0 <= i < |a| ==> !Hit(a[i], c)) && forall i :: 0 <= i < |others| ==> !Hit(others[i], c)
    ensures var o := a + ([first] + others);
            o[|a|] == first && forall i :: 0 <= i < |o| && Hit(o[i], c) ==> i == |a|
  {
    hide Hit;
    var o := a + ([first] + others);
    assert forall i :: 0 <= i < |a| ==> o[i] == a[i];
    assert forall i :: |a| < i < |o| ==> o[i] == others[i - |a| - 1];
  }

  lemma {:induction false} FirstHit(lines: seq<string>, c: Cluster) returns (k: nat)
    ensures k <= |lines| && (forall i :: 0 <= i < k ==> !Hit(lines[i], c)) && (k < |lines| ==> Hit(lines[k], c))
    decreases |lines|
  {
    hide Hit;
    if lines == [] || Hit(lines[0], c) {
      k := 0;
    } else {
      k := FirstHit(lines[1..], c);
      k := k + 1;
    }
  }

  /** Every section with a line of the cluster still has one after the collapse if and only if
      all those lines stand in one section. */
  lemma SectionsServed(lines: seq<string>, c: Cluster)
    requires PackageName(c.merged)
    ensures (forall section :: HitIn(lines, section, c) ==> HitIn(Out(Step(c), lines, false), section, c))
       <==> OneSection(lines, c)
  {
    var k := FirstHit(lines, c);
    var o := Out(Step(c), lines, false);
    if k < |lines| {
      OutputHit(lines, c, k);
      hide Hit, SectionAt, Out, PackageName;
      var home := SectionAt(lines, k, c);
      assert forall section :: HitIn(o, section, c) <==> section == home;
      if forall section :: HitIn(lines, section, c) ==> HitIn(o, section, c) {
        forall i | 0 <= i < |lines| && Hit(lines[i], c)
          ensures SectionAt(lines, i, c) == home
        {
          assert HitIn(lines, SectionAt(lines, i, c), c);
        }
      }
    }
  }

  lemma MemberEntry(m: string, c: Cluster)
    requires PackageName(m) && m in c.members
    ensures IsMember(m + SUFFIX, c) && TrimStart(m + SUFFIX) == m + SUFFIX
  {
    var entry := Cluster({}, m);
    EntryKey(entry);
    assert Entry(entry) == m + SUFFIX;
    hide DepKey, AliasOf, SUFFIX;
  }

  lemma TwoHeaders(c: Cluster)
    ensures var d, e := "[dependencies]", "[dev-dependencies]";
            && IsHeader(d) && IsHeader(e) && TrimStart(d) == d && TrimStart(e) == e && !Hit(d, c) && !Hit(e, c) && d != e
  {
    var d, e := "[dependencies]", "[dev-dependencies]";
    assert d[0] == '[' && e[0] == '[' && d[13] == ']' && e[17] == ']' && |d| != |e|;
    NoEq(d);
    NoEq(e);
  }

  lemma NoEq(s: string)
    requires '=' !in s
    ensures DepKey(s).None?
  {
    assert EQ[1] == '=';
    if Find(s, EQ) >= 0 { FindFits(s, EQ); }
  }

  lemma OthersTwo(a: string, b: string, c: Cluster)
    requires !Hit(a, c) && Hit(b, c)
    ensures Others([a, b], c) == [a]
  {
    hide Hit;
    assert [a, b][1..] == [b] && [b][1..] == [];
    assert Others([b], c) == [] + Others([], c) == [];
  }

  lemma TwoSections(d: string, e: string, line: string, c: Cluster)
    requires PackageName(c.merged) && Hit(line, c) && d != e
    requires IsHeader(d) && IsHeader(e) && TrimStart(d) == d && TrimStart(e) == e && !Hit(d, c) && !Hit(e, c)
    ensures var lines := [d, line, e, line];
            && HitIn(lines, e, c)
            && Out(Step(c), lines, false) == [d, First(line, c), e]
            && !HitIn(Out(Step(c), lines, false), e, c)
  {
    var lines := [d, line, e, line];
    hide IsHeader, TrimStart, First, Out, PackageName, Hit, Others;
    CollapseSpec(lines, c, 1);
    OutputHit(lines, c, 1);
    OthersTwo(e, line, c);
    assert lines[..1] == [d] && lines[2..] == [e, line];
    assert SectionAt(lines, 1, c) == SectionAt(lines, 0, c) == d;
    assert SectionAt(lines, 3, c) == SectionAt(lines, 2, c) == e;
    hide SectionAt;
    assert Hit(lines[3], c);
  }

  /** A member that two sections depend on is kept for the first of them only. */
  lemma SecondSectionLost(m: string, c: Cluster)
    requires PackageName(m) && m in c.members && PackageName(c.merged)
    ensures var d, e, line := "[dependencies]", "[dev-dependencies]", m + SUFFIX;
            var lines := [d, line, e, line];
            && HitIn(lines, e, c)
            && Out(Step(c), lines, false) == [d, Entry(c), e]
            && !HitIn(Out(Step(c), lines, false), e, c)
  {
    var line := m + SUFFIX;
    MemberEntry(m, c);
    TwoHeaders(c);
    assert Indent(line) == "";
    assert First(line, c) == "" + Entry(c) == Entry(c);
    hide IsHeader, TrimStart, IsMember, IsMerged, First, Entry, Out, SUFFIX, PackageName, HitIn;
    TwoSections("[dependencies]", "[dev-dependencies]", line, c);
  }

  // ----- dependency lines, spelled out -----

  /** The key is what stands before the equals sign. */
  lemma KeySpelled(key: string, rest: string)
    requires PackageName(key)
    ensures DepKey(key + (" = " + rest)) == Some(key)
  {
    var s := key + (" = " + rest);
    FindEq(key, rest);
    assert s[..|key|] == key;
    Trimmed(key);
    hide Find, TrimStart, TrimEnd;
  }

  lemma {:induction false} FindBehind(before: string, pat: string, after: string)
    requires pat != "" && NoneSooner(before, pat)
    ensures Find(before + (pat + after), pat) == |before|
    decreases |before|
  {
    var s := before + (pat + after);
    if before == "" {
      assert s == pat + after && pat <= s;
    } else {
      assert s[0..] == s;
      if pat <= s { StartsSooner(before, pat, after, 0); }
      assert s[1..] == before[1..] + (pat + after);
      forall k | 0 <= k < |before[1..]|
        ensures !(pat <= (before[1..] + pat)[k..])
      {
        assert (before[1..] + pat)[k..] == (before + pat)[k + 1..];
      }
      FindBehind(before[1..], pat, after);
    }
  }

  /** The alias is the first value of the key `package`. */
  lemma AliasSpelled(before: string, package: string, after: string)
    requires NoneSooner(before, "package = \"") && QUOTE !in package
    ensures AliasOf(before + ("package = \"" + (package + ("\"" + after)))) == Some(package)
    ensures !Occurs("package = \"", before) ==> AliasOf(before).None?
  {
    var rest := package + ("\"" + after);
    var s := before + ("package = \"" + rest);
    FindBehind(before, ALIAS, rest);
    FindFits(s, ALIAS);
    assert s[|before| + |ALIAS|..] == rest;
    QuoteAfter(package, after);
    assert rest == package + ([QUOTE] + after) && rest[..|package|] == package;
    FindNone(before, ALIAS);
    hide Find, NextQuote;
  }

  /** Which lines belong to the cluster, and what the first of them becomes. */
  lemma MembersSpelled(indent: string, key: string, rest: string, c: Cluster)
    requires Blanks(indent) && PackageName(key)
    ensures var body := key + (" = " + rest);
            var line := indent + body;
            && (IsMember(line, c) <==> key in c.members || (AliasOf(body).Some? && AliasOf(body).value in c.members))
            && (IsMerged(line, c) <==> !IsMember(line, c) && key == c.merged)
            && (IsMember(line, c) ==> First(line, c) == indent + (c.merged + " = { workspace = true }"))
            && (!IsMember(line, c) ==> First(line, c) == line)
  {
    var body := key + (" = " + rest);
    assert body[0] == key[0];
    IndentedLine(indent, body);
    KeySpelled(key, rest);
    assert SUFFIX == " = { workspace = true }";
    hide DepKey, AliasOf, TrimStart, Indent, PackageName;
  }

  /** Lines that are no assignments never do. */
  lemma NoAssignment(line: string, c: Cluster)
    requires !Occurs(" = ", TrimStart(line))
    ensures !Hit(line, c)
  {
    FindNone(TrimStart(line), EQ);
  }
}
