/** The manifest of a forked crate, rewritten for publication under its own package name:
    the package is renamed, the library name pinned, and dependencies on sibling forks are
    aliased to their published packages. */
module ForkManifest {
  import opened Text
  import opened Wrappers
  import opened ManifestStrings
  import opened LineMachine
  import opened TomlLines

  /** The part of a fork's specification that its manifest depends on. */
  datatype Fork = Fork(upstream: string, lib: string, deps: seq<Alias>)

  const PACKAGE_SECTION := "[package]"
  const LIB_SECTION := "[lib]"
  const NAME := "name = "
  const DEP_PREFIX := "[dependencies."
  const DEV_PREFIX := "[dev-dependencies."
  const BUILD_PREFIX := "[build-dependencies."

  /** What is left of a section header between a prefix and its closing bracket. */
  function Between(header: string, prefix: string): Option<string> {
    if prefix <= header && |prefix| < |header| && header[|header| - 1] == ']' then Some(header[|prefix|..|header| - 1]) else None
  }

  /** `find_fork_dep_subtable`. */
  function SubtableDep(header: string): Option<string> {
    if Between(header, DEP_PREFIX).Some? then Between(header, DEP_PREFIX)
    else if Between(header, DEV_PREFIX).Some? then Between(header, DEV_PREFIX)
    else Between(header, BUILD_PREFIX)
  }

  function DepVersion(dep: string): string {
    if dep == "crossterm" then "0.28.1" else if dep == "tungstenite" then "0.27.0" else "0.0.0"
  }

  function DepIndex(dep: string, deps: seq<Alias>): (i: nat)
    ensures i <= |deps|
    ensures i < |deps| ==> deps[i].key == dep
  {
    if deps == [] || deps[0].key == dep then 0 else 1 + DepIndex(dep, deps[1..])
  }

  /** The fork dependency whose sub-table a header opens; None for any other header. */
  function ForkSub(header: string, f: Fork): Option<Alias> {
    var dep := SubtableDep(header);
    if dep.Some? && DepIndex(dep.value, f.deps) < |f.deps| then Some(f.deps[DepIndex(dep.value, f.deps)]) else None
  }

  function Header(a: Alias): string { DEP_PREFIX + a.key + "]" }

  function VersionLine(a: Alias): string { "version = \"" + DepVersion(a.key) + "\"" }

  function PackageLine(a: Alias): string { "package = \"" + a.package + "\"" }

  const NO_DEFAULTS := "default-features = false"

  /** The sub-table that replaces the one for a fork dependency. */
  function Subtable(indent: string, a: Alias): seq<string> {
    [indent + Header(a), indent + VersionLine(a), indent + PackageLine(a), indent + NO_DEFAULTS]
  }

  function NameLine(name: string): string { NAME + Quoted(name) }

  function NewName(f: Fork): string { "lemurclaw-" + f.upstream }

  predicate IsName(line: string) { NAME <= TrimStart(line) }

  /** The value on a name line. */
  function NameValue(line: string): string
    requires IsName(line)
  {
    TrimQuotes(TrimEnd(TrimStart(TrimStart(line)[7..])))
  }

  predicate IsUpstreamName(line: string, f: Fork) { IsName(line) && NameValue(line) == f.upstream }

  /** `rewrite_inline_fork_dep`. */
  function InlineDep(trimmed: string, f: Fork): Option<string> {
    var i := FirstAlias(trimmed, f.deps, false);
    if i == |f.deps| then None else InjectPackage(trimmed, f.deps[i].package)
  }

  function WithAlias(line: string, f: Fork): string {
    match InlineDep(TrimStart(line), f)
    case Some(r) => Indent(line) + r
    case None => line
  }

  /** Inside a fork dependency's sub-table; the section; a library section has been seen and
      its name written. */
  datatype State = State(inSub: bool, section: string, lib: bool)

  const START := State(false, "", false)

  function StepHeader(line: string, s: State, f: Fork): (seq<string>, State) {
    var trimmed := TrimStart(line);
    var sub := ForkSub(trimmed, f);
    if sub.Some? then (Subtable(Indent(line), sub.value), State(true, trimmed, s.lib))
    else if trimmed == LIB_SECTION then
      (if s.lib then [line] else [line, Indent(line) + NameLine(f.lib)], State(false, trimmed, true))
    else ([line], State(false, trimmed, s.lib))
  }

  function StepBody(line: string, s: State, f: Fork): seq<string> {
    if s.inSub then []
    else if s.section == PACKAGE_SECTION && IsUpstreamName(line, f) then [Indent(line) + NameLine(NewName(f))]
    else if s.section == LIB_SECTION && IsName(line) then []
    else [WithAlias(line, f)]
  }

  function StepLine(line: string, s: State, f: Fork): (seq<string>, State) {
    if IsHeader(line) then StepHeader(line, s, f) else (StepBody(line, s, f), s)
  }

  function Step(f: Fork): (string, State) -> (seq<string>, State) {
    (line: string, s: State) => StepLine(line, s, f)
  }

  /** The library section that is put at the end of a manifest without one. */
  function Tail(s: State, f: Fork): seq<string> { if s.lib then [] else ["", LIB_SECTION, NameLine(f.lib)] }

  /** The rewritten manifest. */
  function Whole(lines: seq<string>, f: Fork): seq<string> {
    Out(Step(f), lines, START) + Tail(End(Step(f), lines, START), f)
  }

  function RewriteFork(raw: string, f: Fork): string { Unlines(Whole(Lines(raw), f)) }

  lemma SubNotLib(f: Fork)
    ensures ForkSub(LIB_SECTION, f).None?
  {
    assert LIB_SECTION[1] == 'l' && DEP_PREFIX[1] == 'd' && DEV_PREFIX[1] == 'd' && BUILD_PREFIX[1] == 'b';
  }

  /** `rewrite_fork_manifest`. */
  method RewriteForkManifest(raw: string, f: Fork) returns (out: string)
    ensures out == RewriteFork(raw, f)
  {
    hide IsHeader, IsUpstreamName, IsName, ForkSub, Unlines, Written, TrimStart, Indent, InlineDep;
    out := "";
    var lines := Lines(raw);
    var inSub, section := false, "";
    var ensuredLibName, sawLibSection, atLibStart := false, false, false;
    var i := 0;
    WrittenStart(Step(f), lines, START);
    while i < |lines|
      invariant 0 <= i <= |lines|
      invariant ensuredLibName == sawLibSection && !atLibStart
      invariant Written(Step(f), lines, START, i, State(inSub, section, sawLibSection), out)
    {
      var line := lines[i];
      var trimmed := TrimStart(line);
      var indent := Indent(line);
      WrittenLine(Step(f), lines, START, i, State(inSub, section, sawLibSection), out);
      i := i + 1;
      if IsHeader(line) {
        inSub, section := false, trimmed;
        SubNotLib(f);
        if trimmed == LIB_SECTION {
          sawLibSection, atLibStart := true, true;
        }
        var sub := ForkSub(trimmed, f);
        if sub.Some? {
          inSub := true;
          WriteFour(out, indent + Header(sub.value), indent + VersionLine(sub.value), indent + PackageLine(sub.value), indent + NO_DEFAULTS);
          out := out + (indent + Header(sub.value)) + "\n";
          out := out + (indent + VersionLine(sub.value)) + "\n";
          out := out + (indent + PackageLine(sub.value)) + "\n";
          out := out + (indent + NO_DEFAULTS) + "\n";
          continue;
        }
        WriteTwo(out, line, indent + NameLine(f.lib));
        out := out + line + "\n";
        if atLibStart && !ensuredLibName {
          out := out + (indent + NameLine(f.lib)) + "\n";
          ensuredLibName := true;
        }
        atLibStart := false;
        continue;
      }
      if inSub {
        continue;
      }
      if section == PACKAGE_SECTION && IsUpstreamName(line, f) {
        out := out + (indent + NameLine(NewName(f))) + "\n";
        continue;
      }
      if section == LIB_SECTION && IsName(line) {
        continue;
      }
      var rewritten := InlineDep(trimmed, f);
      if rewritten.Some? {
        out := out + (indent + rewritten.value) + "\n";
        continue;
      }
      out := out + line + "\n";
    }
    WrittenAll(Step(f), lines, START, State(inSub, section, sawLibSection), out);
    var s := End(Step(f), lines, START);
    UnlinesConcat(Out(Step(f), lines, START), Tail(s, f));
    WriteTail(out, f);
    if !sawLibSection {
      out := out + "\n" + LIB_SECTION + "\n";
      out := out + NameLine(f.lib) + "\n";
      ensuredLibName := true;
    }
    assert ensuredLibName;
  }

  lemma WriteTail(out: string, f: Fork)
    ensures out + Unlines([]) == out
    ensures out + Unlines(["", LIB_SECTION, NameLine(f.lib)]) == out + "\n" + LIB_SECTION + "\n" + NameLine(f.lib) + "\n"
  {
    var lines := ["", LIB_SECTION, NameLine(f.lib)];
    WriteLine(out, "", [LIB_SECTION, NameLine(f.lib)]);
    assert [""] + [LIB_SECTION, NameLine(f.lib)] == lines;
    assert out + "" == out;
    WriteTwo(out + "\n", LIB_SECTION, NameLine(f.lib));
  }

  // ----- lines of the output, read again -----

  /** Names are bare words, and no sibling crate is called `name`. */
  ghost predicate ForkOk(f: Fork) {
    && AliasesOk(f.deps)
    && (forall i :: 0 <= i < |f.deps| ==> f.deps[i].key != "name")
    && OneLine(f.upstream) && QUOTE !in f.upstream
    && OneLine(f.lib)
  }

  lemma HeaderText(a: Alias)
    ensures Header(a) != "" && Header(a)[0] == '[' && Header(a)[|Header(a)| - 1] == ']' && Header(a)[1] == 'd'
    ensures SubtableDep(Header(a)) == Some(a.key)
  {
    assert Header(a)[..14] == DEP_PREFIX;
    assert Header(a)[14..|Header(a)| - 1] == a.key;
  }

  lemma ForkSubText(header: string, f: Fork)
    requires ForkSub(header, f).Some?
    ensures header[..2] == "[d" || header[..2] == "[b"
    ensures ForkSub(Header(ForkSub(header, f).value), f) == ForkSub(header, f)
    ensures ForkSub(header, f).value in f.deps
  {
    var a := ForkSub(header, f).value;
    HeaderText(a);
    assert DEP_PREFIX[..2] == "[d" && DEV_PREFIX[..2] == "[d" && BUILD_PREFIX[..2] == "[b";
    assert header[..2] == DEP_PREFIX[..2] || header[..2] == DEV_PREFIX[..2] || header[..2] == BUILD_PREFIX[..2];
  }

  lemma SubLines(a: Alias)
    ensures VersionLine(a)[0] == 'v' && PackageLine(a)[0] == 'p' && NO_DEFAULTS[0] == 'd'
  {}

  lemma SubtableLines(line: string, a: Alias)
    ensures var sub := Subtable(Indent(line), a);
            && IsHeader(sub[0]) && TrimStart(sub[0]) == Header(a) && Indent(sub[0]) == Indent(line)
            && !IsHeader(sub[1]) && !IsHeader(sub[2]) && !IsHeader(sub[3])
            && TrimStart(sub[1]) == VersionLine(a) && TrimStart(sub[2]) == PackageLine(a) && TrimStart(sub[3]) == NO_DEFAULTS
  {
    HeaderText(a);
    SubLines(a);
    Reindent(line, Header(a));
    NotHeader(line, VersionLine(a));
    NotHeader(line, PackageLine(a));
    NotHeader(line, NO_DEFAULTS);
    hide Header, VersionLine, PackageLine, Indent, TrimStart;
    Reindent(line, VersionLine(a));
    Reindent(line, PackageLine(a));
    Reindent(line, NO_DEFAULTS);
  }

  lemma NameLineText(line: string, name: string)
    ensures var l := Indent(line) + NameLine(name);
            !IsHeader(l) && TrimStart(l) == NameLine(name) && IsName(l) && Indent(l) == Indent(line)
  {
    assert NAME[0] == 'n' && NameLine(name)[0] == 'n';
    Reindent(line, NameLine(name));
    NotHeader(line, NameLine(name));
  }

  lemma NewNameValue(line: string, f: Fork)
    requires ForkOk(f)
    ensures var l := Indent(line) + NameLine(NewName(f)); IsName(l) && NameValue(l) == NewName(f) && !IsUpstreamName(l, f)
  {
    NameLineText(line, NewName(f));
    assert NameLine(NewName(f))[7..] == Quoted(NewName(f));
    assert QUOTE !in NewName(f) by { assert QUOTE !in "lemurclaw-"; }
    QuotedValue(NewName(f));
  }

  /** A name line declares no fork dependency. */
  lemma NameDeclaresNone(trimmed: string, f: Fork)
    requires ForkOk(f) && NAME <= trimmed
    ensures FirstAlias(trimmed, f.deps, false) == |f.deps|
  {
    var i := FirstAlias(trimmed, f.deps, false);
    if i < |f.deps| {
      DeclaresSpace(trimmed, f.deps[i].key, false);
      assert AliasOk(f.deps[i]);
      assert "name" + " " == NAME[..5];
      SameKey("name", f.deps[i].key, trimmed);
    }
  }

  /** A dependency line with its alias, or an inline table that goes on to the next line. */
  predicate Aliased(line: string, f: Fork) {
    var trimmed := TrimStart(line);
    FirstAlias(trimmed, f.deps, false) < |f.deps| ==> HasPackage(trimmed) || LastBrace(trimmed) < 0
  }

  lemma AliasTwice(line: string, f: Fork)
    requires ForkOk(f)
    ensures WithAlias(WithAlias(line, f), f) == WithAlias(line, f) && Aliased(WithAlias(line, f), f)
    ensures WithAlias(line, f) == line || (!IsHeader(WithAlias(line, f)) && !IsName(WithAlias(line, f)))
  {
    var trimmed := TrimStart(line);
    var i := FirstAlias(trimmed, f.deps, false);
    if i < |f.deps| && InlineDep(trimmed, f).Some? {
      var key := f.deps[i].key;
      assert AliasOk(f.deps[i]);
      InjectKeeps(key, trimmed, f.deps[i].package);
      var body := InlineDep(trimmed, f).value;
      hide FirstAlias, HasPackage, InjectPackage, Indent, TrimStart;
      assert body[0] == Inline(key)[0] == key[0];
      Reindent(line, body);
      NotHeader(line, body);
      FirstAliasSame(trimmed, body, f.deps, false);
      InjectSame(body, f.deps[i].package);
      if NAME <= body { NameDeclaresNone(body, f); }
    }
  }

  // ----- running it again -----

  predicate Rel(s: State, t: State) {
    s.inSub == t.inSub && s.lib == t.lib && (!s.inSub ==> s.section == t.section)
  }

  lemma OutTwo<S>(step: (string, S) -> (seq<string>, S), a: string, b: string, s: S)
    ensures var (o, s') := step(a, s); var (p, s'') := step(b, s');
            Out(step, [a, b], s) == o + p && End(step, [a, b], s) == s''
  {
    assert [a, b] == [a] + [b];
    OutConcat(step, [a], [b], s);
    OutOne(step, a, s);
    OutOne(step, b, step(a, s).1);
  }

  lemma SubtableAgain(line: string, a: Alias, f: Fork, t: State)
    requires ForkSub(Header(a), f) == Some(a)
    ensures var sub := Subtable(Indent(line), a);
            Out(Step(f), sub, t) == sub && End(Step(f), sub, t) == State(true, Header(a), t.lib)
  {
    var sub := Subtable(Indent(line), a);
    SubtableLines(line, a);
    hide Header, VersionLine, PackageLine, Indent, TrimStart, ForkSub, IsHeader;
    var t' := State(true, Header(a), t.lib);
    assert StepLine(sub[0], t, f) == (sub, t');
    assert StepLine(sub[1], t', f) == ([], t') && StepLine(sub[2], t', f) == ([], t') && StepLine(sub[3], t', f) == ([], t');
    OutTwo(Step(f), sub[0], sub[1], t);
    OutTwo(Step(f), sub[2], sub[3], t');
    assert sub == [sub[0], sub[1]] + [sub[2], sub[3]];
    OutConcat(Step(f), [sub[0], sub[1]], [sub[2], sub[3]], t);
  }

  lemma LibHeaderAgain(line: string, f: Fork, t: State)
    requires IsHeader(line) && TrimStart(line) == LIB_SECTION && !t.lib
    ensures var a := [line, Indent(line) + NameLine(f.lib)];
            Out(Step(f), a, t) == a && End(Step(f), a, t) == State(false, LIB_SECTION, true)
  {
    var name := Indent(line) + NameLine(f.lib);
    NameLineText(line, f.lib);
    SubNotLib(f);
    hide Indent, TrimStart, ForkSub, IsHeader, IsName, NameLine;
    var t' := State(false, LIB_SECTION, true);
    assert StepLine(line, t, f) == ([line, name], t');
    assert StepLine(name, t', f).0 == [];
    OutTwo(Step(f), line, name, t);
  }

  lemma HeaderStable(l: string, s: State, t: State, f: Fork)
    requires IsHeader(l) && Rel(s, t)
    ensures StableStep(Step(f), Rel, l, s, t)
  {
    var trimmed := TrimStart(l);
    var sub := ForkSub(trimmed, f);
    if sub.Some? { ForkSubText(trimmed, f); }
    hide ForkSub, IsHeader, Indent, TrimStart, Subtable;
    if sub.Some? {
      SubtableAgain(l, sub.value, f, t);
    } else if trimmed == LIB_SECTION && !s.lib {
      LibHeaderAgain(l, f, t);
    } else {
      OutOne(Step(f), l, t);
    }
  }

  lemma RenamedStays(l: string, t: State, f: Fork)
    requires ForkOk(f) && !t.inSub && t.section == PACKAGE_SECTION
    ensures var renamed := Indent(l) + NameLine(NewName(f)); StepLine(renamed, t, f) == ([renamed], t)
  {
    var renamed := Indent(l) + NameLine(NewName(f));
    NewNameValue(l, f);
    NameLineText(l, NewName(f));
    NameKeeps(renamed, f);
    assert PACKAGE_SECTION[1] == 'p' && LIB_SECTION[1] == 'l';
    hide IsHeader, IsName, IsUpstreamName, WithAlias, Indent, TrimStart, NameLine, ForkOk;
  }

  /** A name line is no dependency line. */
  lemma NameKeeps(line: string, f: Fork)
    requires ForkOk(f) && IsName(line)
    ensures WithAlias(line, f) == line
  {
    NameDeclaresNone(TrimStart(line), f);
    hide FirstAlias, TrimStart, ForkOk, InjectPackage;
  }

  lemma BodyStays(l: string, t: State, f: Fork)
    requires ForkOk(f) && !IsHeader(l) && StepBody(l, t, f) != []
    ensures StepLine(StepBody(l, t, f)[0], t, f) == (StepBody(l, t, f), t)
  {
    if t.section == PACKAGE_SECTION && IsUpstreamName(l, f) {
      RenamedStays(l, t, f);
    } else {
      AliasTwice(l, f);
      assert IsUpstreamName(WithAlias(l, f), f) ==> IsName(WithAlias(l, f));
      hide IsHeader, IsName, IsUpstreamName, WithAlias, ForkOk;
    }
  }

  lemma BodyStable(l: string, s: State, t: State, f: Fork)
    requires ForkOk(f) && !IsHeader(l) && Rel(s, t)
    ensures StableStep(Step(f), Rel, l, s, t)
  {
    assert StepBody(l, s, f) == StepBody(l, t, f) && |StepBody(l, s, f)| <= 1;
    assert StepLine(l, s, f) == (StepBody(l, s, f), s);
    if StepBody(l, t, f) != [] {
      BodyStays(l, t, f);
      hide StepBody, StepLine;
      OutOne(Step(f), StepBody(l, t, f)[0], t);
    }
  }

  lemma ForkStable(f: Fork)
    requires ForkOk(f)
    ensures Stable(Step(f), Rel)
  {
    forall l: string, s: State, t: State | Rel(s, t)
      ensures StableStep(Step(f), Rel, l, s, t)
    {
      if IsHeader(l) { HeaderStable(l, s, t, f); } else { BodyStable(l, s, t, f); }
    }
  }

  /** Reading the added library section again. */
  lemma TailAgain(e: State, f: Fork)
    requires ForkOk(f) && !e.lib
    ensures var tail := Tail(e, f);
            && Out(Step(f), tail, e) == (if e.inSub then tail[1..] else tail)
            && End(Step(f), tail, e) == State(false, LIB_SECTION, true)
  {
    var name := NameLine(f.lib);
    NoIndent("");
    NoIndent(LIB_SECTION);
    assert TrimStart("") == "" && !IsHeader("") && !IsName("");
    assert FirstAlias("", f.deps, false) == |f.deps| by { NothingDeclared(f.deps); }
    assert IsHeader(LIB_SECTION) && TrimStart(LIB_SECTION) == LIB_SECTION;
    assert StepLine("", e, f) == (if e.inSub then [] else [""], e);
    LibHeaderAgain(LIB_SECTION, f, e);
    hide IsHeader, IsName, WithAlias, Indent, TrimStart, NameLine, ForkOk;
    assert "" + name == name;
    OutOne(Step(f), "", e);
    var tail := Tail(e, f);
    assert tail == [""] + [LIB_SECTION, name];
    OutConcat(Step(f), [""], [LIB_SECTION, name], e);
    assert tail[1..] == [LIB_SECTION, name];
    assert [] + tail[1..] == tail[1..];
  }

  lemma NoIndent(s: string)
    requires s == "" || !IsSpace(s[0])
    ensures TrimStart(s) == s && Indent(s) == ""
  {}

  lemma {:induction false} NothingDeclared(deps: seq<Alias>)
    ensures FirstAlias("", deps, false) == |deps|
    decreases |deps|
  {
    if deps != [] { NothingDeclared(deps[1..]); }
  }

  /** A manifest that has a library section, or does not end in a fork dependency's
      sub-table. */
  ghost predicate Settled(lines: seq<string>, f: Fork) {
    || (exists i :: 0 <= i < |lines| && IsHeader(lines[i]) && TrimStart(lines[i]) == LIB_SECTION)
    || ForkSub(LastSection(lines), f).None?
  }

  function LastSection(lines: seq<string>): string { SectionOf(lines, |lines|) }

  lemma SectionFrame(a: seq<string>, l: string, k: nat)
    requires k < |a| + 1
    ensures k < |a| ==> SectionOf(a + [l], k) == SectionOf(a, k)
  {
    hide IsHeader, TrimStart;
    if 0 < k < |a| { SectionFrame(a, l, k - 1); }
  }

  lemma LastSectionSnoc(a: seq<string>, l: string)
    ensures LastSection(a + [l]) == if IsHeader(l) then TrimStart(l) else LastSection(a)
  {
    hide IsHeader, TrimStart;
    var b := a + [l];
    assert b[|a|] == l && |b| == |a| + 1;
    assert LastSection(b) == SectionOf(b, |a|);
    if a != [] {
      SectionFrame(a, l, |a| - 1);
      assert LastSection(a) == SectionOf(a, |a| - 1);
    }
  }

  lemma NoSectionNoSub(f: Fork)
    ensures ForkSub("", f).None?
  {}

  /** What the state remembers at the end. */
  lemma {:induction false} EndState(lines: seq<string>, f: Fork)
    ensures var e := End(Step(f), lines, START);
            && (e.lib <==> exists i :: 0 <= i < |lines| && IsHeader(lines[i]) && TrimStart(lines[i]) == LIB_SECTION)
            && (e.inSub <==> ForkSub(LastSection(lines), f).Some?)
    decreases |lines|
  {
    if lines == [] {
      NoSectionNoSub(f);
    } else {
      var n := |lines| - 1;
      var a, l := lines[..n], lines[n];
      assert lines == a + [l];
      EndState(a, f);
      OutConcat(Step(f), a, [l], START);
      OutOne(Step(f), l, End(Step(f), a, START));
      LastSectionSnoc(a, l);
      SubNotLib(f);
      hide IsHeader, TrimStart, ForkSub, LastSection;
      assert forall i :: 0 <= i < n ==> lines[i] == a[i];
    }
  }

  /** Rewriting a manifest that was rewritten before. */
  lemma WholeAgain(lines: seq<string>, f: Fork)
    requires ForkOk(f)
    ensures var e, o := End(Step(f), lines, START), Out(Step(f), lines, START);
            Whole(Whole(lines, f), f) == if e.lib || !e.inSub then Whole(lines, f) else o + Tail(e, f)[1..]
  {
    var o := Out(Step(f), lines, START);
    var e := End(Step(f), lines, START);
    ForkStable(f);
    Idempotent(Step(f), Rel, lines, START, START);
    var e' := End(Step(f), o, START);
    var tail := Tail(e, f);
    OutConcat(Step(f), o, tail, START);
    if e.lib {
      assert o + tail == o && o + [] == o;
    } else {
      assert tail == Tail(e', f);
      TailAgain(e', f);
      assert Tail(End(Step(f), tail, e'), f) == [];
    }
  }

  /** The rewrite is idempotent exactly for settled manifests: in the other case the added
      section's blank line is taken for a line of the sub-table before it. */
  lemma ForkIdempotent(lines: seq<string>, f: Fork)
    requires ForkOk(f)
    ensures Whole(Whole(lines, f), f) == Whole(lines, f) <==> Settled(lines, f)
  {
    WholeAgain(lines, f);
    EndState(lines, f);
    hide Out, End, ForkSub, IsHeader, TrimStart;
  }

  /** A third rewrite never changes anything. */
  lemma ForkSettles(lines: seq<string>, f: Fork)
    requires ForkOk(f)
    ensures var twice := Whole(Whole(lines, f), f); Whole(twice, f) == twice
  {
    var once := Whole(lines, f);
    var o := Out(Step(f), lines, START);
    var e := End(Step(f), lines, START);
    WholeAgain(lines, f);
    WholeAgain(once, f);
    ForkStable(f);
    Idempotent(Step(f), Rel, lines, START, START);
    OutConcat(Step(f), o, Tail(e, f), START);
    if !e.lib { TailAgain(End(Step(f), o, START), f); }
  }

  /** The case occurs for every fork with a sibling. */
  lemma NotSettled(f: Fork)
    requires ForkOk(f) && f.deps != []
    ensures Whole(Whole([Header(f.deps[0])], f), f) != Whole([Header(f.deps[0])], f)
  {
    var a := f.deps[0];
    var lines := [Header(a)];
    HeaderText(a);
    NoIndent(Header(a));
    assert LastSection(lines) == Header(a) by {
      LastSectionSnoc([], Header(a));
      assert [] + [Header(a)] == lines;
    }
    assert ForkSub(Header(a), f).Some?;
    hide ForkSub, SubtableDep;
    ForkIdempotent(lines, f);
  }

  // ----- the library's name -----

  /** Collects the name lines of library sections. */
  function NameStep(line: string, section: string): (seq<string>, string) {
    if IsHeader(line) then ([], TrimStart(line))
    else (if section == LIB_SECTION && IsName(line) then [line] else [], section)
  }

  /** `n` name lines, each giving the fork's library name. */
  predicate Names(found: seq<string>, n: nat, f: Fork) {
    |found| == n && forall i :: 0 <= i < n ==> TrimStart(found[i]) == NameLine(f.lib)
  }

  /** The section a reader of the output is in, for a state of the rewriter. */
  predicate InSection(s: State, section: string) {
    if s.inSub then section != LIB_SECTION else section == s.section
  }

  function One(b: bool): nat { if b then 1 else 0 }

  lemma SubtableNames(line: string, a: Alias, section: string)
    ensures var sub := Subtable(Indent(line), a);
            Out(NameStep, sub, section) == [] && End(NameStep, sub, section) == Header(a)
  {
    var sub := Subtable(Indent(line), a);
    SubtableLines(line, a);
    assert Header(a) != LIB_SECTION by { HeaderText(a); assert LIB_SECTION[1] == 'l'; }
    hide Header, VersionLine, PackageLine, Indent, TrimStart, IsHeader;
    assert NameStep(sub[0], section) == ([], Header(a));
    OutTwo(NameStep, sub[0], sub[1], section);
    OutTwo(NameStep, sub[2], sub[3], Header(a));
    assert sub == [sub[0], sub[1]] + [sub[2], sub[3]];
    OutConcat(NameStep, [sub[0], sub[1]], [sub[2], sub[3]], section);
  }

  /** What a reader finds in the lines `a` that take the rewriter from `s` to `s'`. */
  ghost predicate NamesFound(a: seq<string>, s: State, s': State, section: string, f: Fork) {
    && One(s'.lib) >= One(s.lib)
    && Names(Out(NameStep, a, section), One(s'.lib) - One(s.lib), f)
    && InSection(s', End(NameStep, a, section))
  }

  lemma NamesOfHeader(line: string, s: State, section: string, f: Fork)
    requires IsHeader(line)
    ensures NamesFound(StepLine(line, s, f).0, s, StepLine(line, s, f).1, section, f)
  {
    var sub := ForkSub(TrimStart(line), f);
    if sub.Some? {
      SubtableNames(line, sub.value, section);
      HeaderText(sub.value);
      assert LIB_SECTION[1] == 'l';
      hide ForkSub, Header, Indent, TrimStart, IsHeader, Subtable, NameStep;
    } else {
      PlainHeaderNames(line, section, f);
      hide ForkSub, Indent, TrimStart, IsHeader, NameLine, NameStep;
    }
  }

  lemma PlainHeaderNames(line: string, section: string, f: Fork)
    requires IsHeader(line)
    ensures var name := Indent(line) + NameLine(f.lib);
            && TrimStart(name) == NameLine(f.lib)
            && Out(NameStep, [line], section) == [] && End(NameStep, [line], section) == TrimStart(line)
            && (TrimStart(line) == LIB_SECTION ==>
                  Out(NameStep, [line, name], section) == [name] && End(NameStep, [line, name], section) == LIB_SECTION)
  {
    var name := Indent(line) + NameLine(f.lib);
    NameLineText(line, f.lib);
    assert NameStep(line, section) == ([], TrimStart(line));
    assert NameStep(name, LIB_SECTION) == ([name], LIB_SECTION);
    hide Indent, TrimStart, IsHeader, IsName, NameLine, NameStep;
    OutTwo(NameStep, line, name, section);
    OutOne(NameStep, line, section);
  }

  /** What is emitted for an ordinary line is no header, and no name line in a library section. */
  lemma BodyEmits(line: string, s: State, f: Fork)
    requires ForkOk(f) && !IsHeader(line)
    ensures |StepBody(line, s, f)| <= 1
    ensures StepBody(line, s, f) != [] ==>
              !s.inSub && !IsHeader(StepBody(line, s, f)[0]) && (s.section == LIB_SECTION ==> !IsName(StepBody(line, s, f)[0]))
  {
    NameLineText(line, NewName(f));
    AliasTwice(line, f);
    assert PACKAGE_SECTION[1] == 'p' && LIB_SECTION[1] == 'l';
    hide Indent, TrimStart, IsHeader, IsName, IsUpstreamName, WithAlias, NameLine, ForkOk;
  }

  lemma NamesOfBody(line: string, s: State, section: string, f: Fork)
    requires ForkOk(f) && !IsHeader(line) && InSection(s, section)
    ensures NamesFound(StepLine(line, s, f).0, s, StepLine(line, s, f).1, section, f)
  {
    BodyEmits(line, s, f);
    BodyOfStep(line, s, f);
    var a := StepBody(line, s, f);
    assert StepLine(line, s, f).1 == s;
    hide IsHeader, IsName, StepBody, StepLine, ForkOk, TrimStart, NameLine;
    if a != [] {
      assert a == [a[0]];
      assert NameStep(a[0], section) == ([], section);
      OutOne(NameStep, a[0], section);
    }
  }

  lemma NamesOfStep(line: string, s: State, section: string, f: Fork)
    requires ForkOk(f) && InSection(s, section)
    ensures NamesFound(StepLine(line, s, f).0, s, StepLine(line, s, f).1, section, f)
  {
    hide StepLine, NamesFound, InSection;
    if IsHeader(line) { NamesOfHeader(line, s, section, f); } else { NamesOfBody(line, s, section, f); }
  }

  lemma {:induction false} NamesOfRun(lines: seq<string>, s: State, section: string, f: Fork)
    requires ForkOk(f) && InSection(s, section)
    ensures NamesFound(Out(Step(f), lines, s), s, End(Step(f), lines, s), section, f)
    decreases |lines|
  {
    hide StepLine, NameStep, TrimStart, NameLine;
    if lines != [] {
      var (a, s') := StepLine(lines[0], s, f);
      NamesOfStep(lines[0], s, section, f);
      NamesOfRun(lines[1..], s', End(NameStep, a, section), f);
      OutConcat(NameStep, a, Out(Step(f), lines[1..], s'), section);
    }
  }

  /** The library sections of the output hold exactly one name line, with the fork's library
      name, however many the manifest had. */
  lemma LibNamedOnce(lines: seq<string>, f: Fork)
    requires ForkOk(f)
    ensures Names(Out(NameStep, Whole(lines, f), ""), 1, f)
  {
    var o, e := Out(Step(f), lines, START), End(Step(f), lines, START);
    NamesOfRun(lines, START, "", f);
    OutConcat(NameStep, o, Tail(e, f), "");
    if !e.lib {
      TailNames(e, End(NameStep, o, ""), f);
    } else {
      assert o + [] == o;
    }
  }

  lemma BareNameLine(name: string)
    ensures TrimStart(NameLine(name)) == NameLine(name) && !IsHeader(NameLine(name)) && IsName(NameLine(name))
  {
    NameLineText("", name);
    assert Indent("") == "";
    hide NameLine, TrimStart, Indent, IsHeader, IsName;
    assert "" + NameLine(name) == NameLine(name);
  }

  lemma TailSteps(section: string, name: string)
    ensures NameStep("", section) == ([], section)
    ensures NameStep(LIB_SECTION, section) == ([], LIB_SECTION)
    ensures NameStep(NameLine(name), LIB_SECTION) == ([NameLine(name)], LIB_SECTION)
  {
    BareNameLine(name);
    hide NameLine;
    NoIndent("");
    NoIndent(LIB_SECTION);
  }

  lemma TailNames(e: State, section: string, f: Fork)
    requires !e.lib
    ensures Out(NameStep, Tail(e, f), section) == [NameLine(f.lib)] && TrimStart(NameLine(f.lib)) == NameLine(f.lib)
  {
    var name := NameLine(f.lib);
    BareNameLine(f.lib);
    TailSteps(section, f.lib);
    hide IsHeader, TrimStart, IsName, NameLine, NameStep;
    OutOne(NameStep, "", section);
    OutTwo(NameStep, LIB_SECTION, name, section);
    assert Tail(e, f) == [""] + [LIB_SECTION, name];
    OutConcat(NameStep, [""], [LIB_SECTION, name], section);
  }

  // ----- what every line of the output is like -----

  /** A line the rewriter puts into a sub-table. */
  ghost predicate Generated(trimmed: string, f: Fork) {
    || trimmed == NO_DEFAULTS
    || trimmed == ""
    || exists a :: a in f.deps && (trimmed == VersionLine(a) || trimmed == PackageLine(a))
  }

  /** Sub-tables of fork dependencies are plain dependency tables without source location; the
      package does not have its old name; inline fork dependencies have their alias. */
  ghost predicate GoodLine(line: string, t: State, f: Fork) {
    if IsHeader(line) then
      var sub := ForkSub(TrimStart(line), f);
      sub.Some? ==> TrimStart(line) == Header(sub.value)
    else if t.inSub then Generated(TrimStart(line), f)
    else (t.section == PACKAGE_SECTION ==> !IsUpstreamName(line, f)) && Aliased(line, f)
  }

  ghost function Good(f: Fork): (string, State) -> bool { (line: string, t: State) => GoodLine(line, t, f) }

  lemma GoodTwo(a: string, b: string, t: State, f: Fork)
    requires GoodLine(a, t, f) && GoodLine(b, StepLine(a, t, f).1, f)
    ensures AllGood(Step(f), Good(f), [a, b], t)
  {
    hide GoodLine, StepLine;
    assert [a, b][1..] == [b] && [b][1..] == [];
    assert AllGood(Step(f), Good(f), [b], StepLine(a, t, f).1);
  }

  lemma GoodOne(a: string, t: State, f: Fork)
    requires GoodLine(a, t, f)
    ensures AllGood(Step(f), Good(f), [a], t)
  {
    hide GoodLine, StepLine;
    assert [a][1..] == [];
  }

  lemma GoodSubtable(line: string, a: Alias, t: State, f: Fork)
    requires ForkSub(Header(a), f) == Some(a) && a in f.deps
    ensures AllGood(Step(f), Good(f), Subtable(Indent(line), a), t)
  {
    var sub := Subtable(Indent(line), a);
    SubtableLines(line, a);
    hide Header, VersionLine, PackageLine, Indent, TrimStart, ForkSub, IsHeader;
    var t' := State(true, Header(a), t.lib);
    assert StepLine(sub[0], t, f).1 == t';
    assert StepLine(sub[1], t', f).1 == t' && StepLine(sub[2], t', f).1 == t';
    GoodTwo(sub[0], sub[1], t, f);
    GoodTwo(sub[2], sub[3], t', f);
    OutTwo(Step(f), sub[0], sub[1], t);
    assert sub == [sub[0], sub[1]] + [sub[2], sub[3]];
    GoodConcat(Step(f), Good(f), [sub[0], sub[1]], [sub[2], sub[3]], t);
  }

  lemma GoodName(line: string, t: State, f: Fork)
    requires ForkOk(f)
    ensures t.section == LIB_SECTION && !t.inSub ==> GoodLine(Indent(line) + NameLine(f.lib), t, f)
    ensures t.section == PACKAGE_SECTION && !t.inSub ==> GoodLine(Indent(line) + NameLine(NewName(f)), t, f)
  {
    NameLineText(line, f.lib);
    NameLineText(line, NewName(f));
    NewNameValue(line, f);
    NameDeclaresNone(NameLine(f.lib), f);
    NameDeclaresNone(NameLine(NewName(f)), f);
    assert PACKAGE_SECTION[1] == 'p' && LIB_SECTION[1] == 'l';
    hide IsHeader, IsUpstreamName, FirstAlias, HasPackage, Indent, TrimStart, NameLine, ForkOk;
  }

  lemma GoodStep(l: string, s: State, t: State, f: Fork)
    requires ForkOk(f) && Rel(s, t)
    ensures AllGood(Step(f), Good(f), StepLine(l, s, f).0, t)
  {
    var sub := ForkSub(TrimStart(l), f);
    if sub.Some? { ForkSubText(TrimStart(l), f); }
    SubNotLib(f);
    AliasTwice(l, f);
    GoodName(l, t, f);
    GoodName(l, State(false, LIB_SECTION, true), f);
    hide ForkSub, IsHeader, IsName, IsUpstreamName, Subtable, Indent, TrimStart, WithAlias, Aliased, NameLine, ForkOk;
    var name := Indent(l) + NameLine(f.lib);
    if IsHeader(l) {
      if sub.Some? {
        GoodSubtable(l, sub.value, t, f);
      } else if TrimStart(l) == LIB_SECTION && !s.lib {
        assert StepLine(l, t, f).1 == State(false, LIB_SECTION, true);
        GoodTwo(l, name, t, f);
      } else {
        GoodOne(l, t, f);
      }
    } else if StepBody(l, s, f) != [] {
      var x := StepBody(l, s, f)[0];
      GoodBody(l, s, t, f);
      GoodOne(x, t, f);
    }
  }

  lemma GoodBody(l: string, s: State, t: State, f: Fork)
    requires ForkOk(f) && Rel(s, t) && !IsHeader(l) && StepBody(l, s, f) != []
    ensures GoodLine(StepBody(l, s, f)[0], t, f)
  {
    AliasTwice(l, f);
    GoodName(l, t, f);
    hide ForkSub, IsHeader, IsName, Indent, TrimStart, WithAlias, Aliased, NameLine, ForkOk, NameValue;
  }

  /** Every line of the output is good where it stands. */
  lemma ForkOutputGood(lines: seq<string>, f: Fork)
    requires ForkOk(f)
    ensures AllGood(Step(f), Good(f), Whole(lines, f), START)
  {
    ForkStable(f);
    forall l: string, s: State, t: State | Rel(s, t)
      ensures AllGood(Step(f), Good(f), Step(f)(l, s).0, t)
    {
      GoodStep(l, s, t, f);
    }
    OutputGood(Step(f), Rel, Good(f), lines, START, START);
    Idempotent(Step(f), Rel, lines, START, START);
    var o, e := Out(Step(f), lines, START), End(Step(f), lines, START);
    var e' := End(Step(f), o, START);
    GoodTail(e', f);
    GoodConcat(Step(f), Good(f), o, Tail(e, f), START);
  }

  lemma GoodTail(e: State, f: Fork)
    requires ForkOk(f)
    ensures AllGood(Step(f), Good(f), Tail(e, f), e)
  {
    if !e.lib {
      var name := NameLine(f.lib);
      NoIndent("");
      NoIndent(LIB_SECTION);
      GoodName("", State(false, LIB_SECTION, true), f);
      assert "" + name == name;
      NothingDeclared(f.deps);
      SubNotLib(f);
      assert !IsHeader("") && !IsName("") && IsHeader(LIB_SECTION);
      hide ForkSub, IsHeader, IsName, Indent, TrimStart, NameLine, ForkOk, FirstAlias;
      assert StepLine("", e, f).1 == e;
      assert StepLine(LIB_SECTION, e, f).1 == State(false, LIB_SECTION, true);
      GoodOne("", e, f);
      GoodTwo(LIB_SECTION, name, e, f);
      assert Tail(e, f) == [""] + [LIB_SECTION, name];
      OutOne(Step(f), "", e);
      GoodConcat(Step(f), Good(f), [""], [LIB_SECTION, name], e);
    }
  }

  // ----- as a function of the text -----

  ghost predicate Ends(s: string) { OneLine(s) && s != "" && s[|s| - 1] != '\r' }

  lemma IndentEnds(line: string, body: string)
    requires OneLine(line) && Ends(body)
    ensures Ends(Indent(line) + body) && TrailingCr(Indent(line) + body) == 0
  {
    IndentSpec(line);
    var indent, l := Indent(line), Indent(line) + body;
    forall i | 0 <= i < |l|
      ensures l[i] != '\n'
    {
      assert i < |indent| ==> l[i] == line[i];
    }
  }

  lemma NameEnds(name: string)
    requires OneLine(name)
    ensures Ends(NameLine(name))
  {
    var l := NameLine(name);
    assert l[|l| - 1] == QUOTE;
    assert OneLine(NAME);
  }

  lemma LineEnds(a: Alias)
    requires AliasOk(a)
    ensures Ends(Header(a)) && Ends(VersionLine(a)) && Ends(PackageLine(a)) && Ends(NO_DEFAULTS)
  {
    assert OneLine(DEP_PREFIX) && OneLine("version = \"") && OneLine("package = \"") && OneLine(NO_DEFAULTS);
    assert OneLine(DepVersion(a.key));
  }

  lemma TwoTidy(a: string, b: string, l: string)
    requires OneLine(a) && OneLine(b) && TrailingCr(a) + TrailingCr(b) <= TrailingCr(l)
    ensures TidyLines([a, b], l)
  {
    hide TrailingCr;
    assert [a, b][1..] == [b] && [b][1..] == [];
    assert StrayCr([b]) == TrailingCr(b);
  }

  lemma SubtableTidy(line: string, a: Alias)
    requires OneLine(line) && AliasOk(a)
    ensures TidyLines(Subtable(Indent(line), a), line)
  {
    LineEnds(a);
    var sub := Subtable(Indent(line), a);
    hide Indent, TrailingCr, Header, VersionLine, PackageLine, AliasOk, Ends;
    IndentEnds(line, Header(a));
    IndentEnds(line, VersionLine(a));
    IndentEnds(line, PackageLine(a));
    IndentEnds(line, NO_DEFAULTS);
    assert forall i :: 0 <= i < 4 ==> Ends(sub[i]) && TrailingCr(sub[i]) == 0;
    AllEnd(sub, line);
  }

  lemma {:induction false} AllEnd(sub: seq<string>, line: string)
    requires forall i :: 0 <= i < |sub| ==> Ends(sub[i]) && TrailingCr(sub[i]) == 0
    ensures TidyLines(sub, line)
    decreases |sub|
  {
    hide TrailingCr;
    if sub != [] {
      AllEnd(sub[1..], line);
      ZeroStray(sub[1..]);
    }
  }

  lemma {:induction false} ZeroStray(sub: seq<string>)
    requires forall i :: 0 <= i < |sub| ==> TrailingCr(sub[i]) == 0
    ensures StrayCr(sub) == 0
    decreases |sub|
  {
    hide TrailingCr;
    if sub != [] { ZeroStray(sub[1..]); }
  }

  lemma WithAliasTidy(line: string, f: Fork)
    requires ForkOk(f) && OneLine(line)
    ensures OneLine(WithAlias(line, f)) && TrailingCr(WithAlias(line, f)) <= TrailingCr(line)
  {
    var trimmed := TrimStart(line);
    var i := FirstAlias(trimmed, f.deps, false);
    IndentSpec(line);
    NoBreaks(line);
    if i < |f.deps| && InlineDep(trimmed, f).Some? {
      assert AliasOk(f.deps[i]);
      hide FirstAlias, HasPackage, InjectPackage, Indent, TrimStart, TrailingCr, Inline;
      if HasPackage(trimmed) {
        InjectSame(trimmed, f.deps[i].package);
      } else {
        InjectEnds(f.deps[i].key, trimmed, f.deps[i].package);
        IndentTidy(Indent(line), trimmed, InlineDep(trimmed, f).value);
      }
    }
  }

  lemma StepTidy(l: string, s: State, f: Fork)
    requires ForkOk(f) && OneLine(l)
    ensures TidyLines(StepLine(l, s, f).0, l)
  {
    var sub := ForkSub(TrimStart(l), f);
    if sub.Some? {
      ForkSubText(TrimStart(l), f);
      assert AliasOk(sub.value);
      SubtableTidy(l, sub.value);
    }
    assert OneLine(NewName(f)) by { assert OneLine("lemurclaw-"); }
    NameEnds(f.lib);
    NameEnds(NewName(f));
    IndentEnds(l, NameLine(f.lib));
    IndentEnds(l, NameLine(NewName(f)));
    WithAliasTidy(l, f);
    hide ForkSub, IsHeader, IsName, IsUpstreamName, Subtable, Indent, TrimStart, WithAlias, NameLine, ForkOk, TrailingCr, TidyLines;
    TidyNone(l);
    TidyOne(l, l);
    TidyOne(WithAlias(l, f), l);
    TidyOne(Indent(l) + NameLine(NewName(f)), l);
    TwoTidy(l, Indent(l) + NameLine(f.lib), l);
  }

  lemma ForkTidy(f: Fork)
    requires ForkOk(f)
    ensures Tidy(Step(f))
  {
    forall l: string, s: State | OneLine(l)
      ensures TidyLines(Step(f)(l, s).0, l)
    {
      StepTidy(l, s, f);
    }
  }

  lemma TailTidy(e: State, f: Fork)
    requires OneLine(f.lib)
    ensures AllOneLine(Tail(e, f)) && StrayCr(Tail(e, f)) == 0
  {
    NameEnds(f.lib);
    hide NameLine;
    assert TrailingCr("") == 0 && TrailingCr(LIB_SECTION) == 0 && TrailingCr(NameLine(f.lib)) == 0;
    ZeroStray(Tail(e, f));
  }

  lemma WholeTidy(lines: seq<string>, f: Fork)
    requires ForkOk(f) && AllOneLine(lines)
    ensures AllOneLine(Whole(lines, f)) && StrayCr(Whole(lines, f)) <= StrayCr(lines)
  {
    ForkTidy(f);
    OutTidy(Step(f), lines, START);
    var e := End(Step(f), lines, START);
    TailTidy(e, f);
    hide Out, End, Tail, StrayCr;
    StrayConcat(Out(Step(f), lines, START), Tail(e, f));
  }

  /** A line that is copied, judged by its section. */
  predicate Copied(lines: seq<string>, i: nat, f: Fork)
    requires i < |lines|
  {
    var section := SectionOf(lines, i);
    && !IsHeader(lines[i])
    && ForkSub(section, f).None?
    && !(section == PACKAGE_SECTION && IsUpstreamName(lines[i], f))
    && !(section == LIB_SECTION && IsName(lines[i]))
    && WithAlias(lines[i], f) == lines[i]
  }

  lemma {:induction false} EndSection(lines: seq<string>, f: Fork)
    ensures End(Step(f), lines, START).section == LastSection(lines)
    decreases |lines|
  {
    if lines != [] {
      var n := |lines| - 1;
      var a, l := lines[..n], lines[n];
      assert lines == a + [l];
      EndSection(a, f);
      OutConcat(Step(f), a, [l], START);
      OutOne(Step(f), l, End(Step(f), a, START));
      LastSectionSnoc(a, l);
      hide IsHeader, TrimStart, ForkSub, LastSection;
    }
  }

  lemma WithAliasEnd(line: string, f: Fork)
    requires ForkOk(f) && OneLine(line)
    ensures EndsInCr(WithAlias(line, f)) ==> WithAlias(line, f) == line
  {
    var trimmed := TrimStart(line);
    var i := FirstAlias(trimmed, f.deps, false);
    IndentSpec(line);
    NoBreaks(line);
    if i < |f.deps| && InlineDep(trimmed, f).Some? {
      assert AliasOk(f.deps[i]);
      hide FirstAlias, HasPackage, InjectPackage, Indent, TrimStart, Inline;
      if HasPackage(trimmed) {
        InjectSame(trimmed, f.deps[i].package);
      } else {
        InjectEnds(f.deps[i].key, trimmed, f.deps[i].package);
      }
    }
  }

  lemma HeaderEnd(line: string)
    requires IsHeader(line)
    ensures !EndsInCr(line)
  {
    IndentSpec(line);
  }

  lemma CleanHeader(line: string, s: State, f: Fork)
    requires ForkOk(f) && OneLine(line) && IsHeader(line)
    ensures NoCr(StepLine(line, s, f).0)
  {
    var sub := ForkSub(TrimStart(line), f);
    HeaderEnd(line);
    NameEnds(f.lib);
    IndentEnds(line, NameLine(f.lib));
    if sub.Some? {
      ForkSubText(TrimStart(line), f);
      assert AliasOk(sub.value);
      LineEnds(sub.value);
      IndentEnds(line, Header(sub.value));
      IndentEnds(line, VersionLine(sub.value));
      IndentEnds(line, PackageLine(sub.value));
      IndentEnds(line, NO_DEFAULTS);
    }
    hide ForkSub, IsHeader, Indent, TrimStart, Header, VersionLine, PackageLine, NameLine, ForkOk;
  }

  lemma CleanBody(lines: seq<string>, i: nat, s: State, f: Fork)
    requires ForkOk(f) && i < |lines| && OneLine(lines[i]) && !IsHeader(lines[i])
    requires s.section == SectionOf(lines, i) && (s.inSub <==> ForkSub(SectionOf(lines, i), f).Some?)
    ensures NoCr(StepBody(lines[i], s, f)) <==> (Copied(lines, i, f) ==> !EndsInCr(lines[i]))
  {
    var l := lines[i];
    WithAliasEnd(l, f);
    assert OneLine(NewName(f)) by { assert OneLine("lemurclaw-"); }
    NameEnds(NewName(f));
    IndentEnds(l, NameLine(NewName(f)));
    NoneEnds();
    NoCrOne(WithAlias(l, f));
    NoCrOne(Indent(l) + NameLine(NewName(f)));
    assert !EndsInCr(Indent(l) + NameLine(NewName(f)));
    hide ForkSub, IsHeader, IsName, IsUpstreamName, Indent, TrimStart, WithAlias, NameLine, ForkOk, NoCr, SectionOf;
  }

  lemma CleanStep(a: seq<string>, l: string, f: Fork)
    requires ForkOk(f) && OneLine(l)
    ensures NoCr(StepLine(l, End(Step(f), a, START), f).0) <==> (Copied(a + [l], |a|, f) ==> !EndsInCr(l))
  {
    var e := End(Step(f), a, START);
    EndState(a, f);
    EndSection(a, f);
    assert (a + [l])[|a|] == l;
    hide Out, End, NoCr, EndsInCr, Copied, ForkOk, StepLine, IsHeader;
    if IsHeader(l) {
      CleanHeader(l, e, f);
      NotCopied(a + [l], |a|, f);
    } else {
      SameSection(a, l);
      CleanBody(a + [l], |a|, e, f);
      BodyOfStep(l, e, f);
    }
  }

  /** No copied line ends in a carriage return. */
  ghost predicate CopiesClean(lines: seq<string>, f: Fork) {
    forall i :: 0 <= i < |lines| && Copied(lines, i, f) ==> !EndsInCr(lines[i])
  }

  lemma CopiesCleanSnoc(a: seq<string>, l: string, f: Fork)
    ensures CopiesClean(a + [l], f) <==> CopiesClean(a, f) && (Copied(a + [l], |a|, f) ==> !EndsInCr(l))
  {
    CopiedFrame(a, l, f);
    hide Copied, EndsInCr;
    var b := a + [l];
    assert b[|a|] == l && forall i :: 0 <= i < |a| ==> b[i] == a[i];
  }

  lemma {:induction false} CleanOut(lines: seq<string>, f: Fork)
    requires ForkOk(f) && AllOneLine(lines)
    ensures NoCr(Out(Step(f), lines, START)) <==> CopiesClean(lines, f)
    decreases |lines|
  {
    NoneEnds();
    if lines != [] {
      var n := |lines| - 1;
      var a, l := lines[..n], lines[n];
      assert lines == a + [l];
      CleanOut(a, f);
      OutConcat(Step(f), a, [l], START);
      OutOne(Step(f), l, End(Step(f), a, START));
      hide Out, End, NoCr, EndsInCr, Copied, CopiesClean, ForkOk, StepLine;
      NoCrConcat(Out(Step(f), a, START), StepLine(l, End(Step(f), a, START), f).0);
      CleanStep(a, l, f);
      CopiesCleanSnoc(a, l, f);
    }
  }

  lemma BodyOfStep(l: string, e: State, f: Fork)
    requires !IsHeader(l)
    ensures StepLine(l, e, f).0 == StepBody(l, e, f)
  {}

  lemma NotCopied(lines: seq<string>, i: nat, f: Fork)
    requires i < |lines| && IsHeader(lines[i])
    ensures !Copied(lines, i, f)
  {}

  lemma SameSection(a: seq<string>, l: string)
    requires !IsHeader(l)
    ensures SectionOf(a + [l], |a|) == LastSection(a)
  {
    LastSectionSnoc(a, l);
    hide IsHeader, TrimStart;
    assert (a + [l])[|a|] == l;
  }

  lemma CopiedFrame(a: seq<string>, l: string, f: Fork)
    ensures forall i :: 0 <= i < |a| ==> Copied(a + [l], i, f) == Copied(a, i, f)
  {
    forall i | 0 <= i < |a|
      ensures Copied(a + [l], i, f) == Copied(a, i, f)
    {
      SectionFrame(a, l, i);
      assert (a + [l])[i] == a[i];
      hide IsHeader, TrimStart, SectionOf, ForkSub, IsUpstreamName, IsName, WithAlias;
    }
  }

  lemma CleanTail(e: State, f: Fork)
    requires ForkOk(f)
    ensures NoCr(Tail(e, f))
  {
    NameEnds(f.lib);
    hide NameLine;
  }

  /** As a function of the text, the rewrite is idempotent exactly for settled manifests of
      which no copied line ends in a stray carriage return. */
  lemma ForkTwice(raw: string, f: Fork)
    requires ForkOk(f)
    ensures var lines := Lines(raw);
            RewriteFork(RewriteFork(raw, f), f) == RewriteFork(raw, f)
            <==> Settled(lines, f) && CopiesClean(lines, f)
  {
    var o := Whole(Lines(raw), f);
    LinesOneLine(raw);
    WholeTidy(Lines(raw), f);
    StripOneLine(o);
    WholeTidy(StripAll(o), f);
    TextFixed(o, Whole(StripAll(o), f));
    ForkIdempotent(Lines(raw), f);
    var e := End(Step(f), Lines(raw), START);
    CleanOut(Lines(raw), f);
    CleanTail(e, f);
    NoCrConcat(Out(Step(f), Lines(raw), START), Tail(e, f));
    hide ForkOk, Out, End, Tail, NoCr, CopiesClean, Settled, StripAll;
  }

  // ----- the forks that are published -----

  const CROSSTERM := Fork("crossterm", "crossterm", [])
  const TUNGSTENITE := Fork("tungstenite", "tungstenite", [])
  const RATATUI := Fork("ratatui", "ratatui", [Alias("crossterm", "lemurclaw-crossterm")])
  const TOKIO_TUNGSTENITE := Fork("tokio-tungstenite", "tokio_tungstenite", [Alias("tungstenite", "lemurclaw-tungstenite")])

  predicate Wordy(s: string) { forall i :: 0 <= i < |s| ==> s[i] == '_' || s[i] == '-' || 'a' <= s[i] <= 'z' }

  lemma WordyNames()
    ensures Wordy("crossterm") && Wordy("lemurclaw-crossterm") && Wordy("tungstenite") && Wordy("lemurclaw-tungstenite")
    ensures Wordy("ratatui") && Wordy("tokio-tungstenite") && Wordy("tokio_tungstenite")
  {}

  lemma WordyFork(f: Fork)
    requires Wordy(f.upstream) && Wordy(f.lib)
    requires forall i :: 0 <= i < |f.deps| ==>
      Wordy(f.deps[i].key) && Wordy(f.deps[i].package) && |f.deps[i].key| > 4
    ensures ForkOk(f)
  {
    forall i | 0 <= i < |f.deps|
      ensures AliasOk(f.deps[i]) && f.deps[i].key != "name"
    {
      assert Wordy(f.deps[i].key);
    }
  }

  /** The published forks meet the conditions above. */
  lemma PublishedForksOk()
    ensures ForkOk(CROSSTERM) && ForkOk(TUNGSTENITE) && ForkOk(RATATUI) && ForkOk(TOKIO_TUNGSTENITE)
  {
    WordyNames();
    hide Wordy, ForkOk;
    WordyFork(CROSSTERM);
    WordyFork(TUNGSTENITE);
    WordyFork(RATATUI);
    WordyFork(TOKIO_TUNGSTENITE);
  }
}
