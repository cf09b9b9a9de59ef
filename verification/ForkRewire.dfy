/** The publish workspace manifest without its `[patch.…]` sections: the forked
    dependencies are aliased to their published packages instead. */
module ForkRewire {
  import opened Text
  import opened Wrappers
  import opened ManifestStrings
  import opened LineMachine
  import opened TomlLines

  const RATATUI := Alias("ratatui", "lemurclaw-ratatui")
  const CROSSTERM := Alias("crossterm", "lemurclaw-crossterm")
  const TOKIO_TUNGSTENITE := Alias("tokio-tungstenite", "lemurclaw-tokio-tungstenite")
  const TUNGSTENITE := Alias("tungstenite", "lemurclaw-tungstenite")

  const FORK_ALIASES := [RATATUI, CROSSTERM, TOKIO_TUNGSTENITE, TUNGSTENITE]

  lemma PlainNames()
    ensures Plain("ratatui") && Plain("lemurclaw-ratatui") && Plain("crossterm") && Plain("lemurclaw-crossterm")
  {}

  lemma PlainNames2()
    ensures Plain("tokio-tungstenite") && Plain("lemurclaw-tokio-tungstenite")
    ensures Plain("tungstenite") && Plain("lemurclaw-tungstenite")
  {}

  lemma ForkAliasesOk()
    ensures AliasesOk(FORK_ALIASES)
  {
    PlainNames();
    PlainNames2();
    hide Plain, AliasOk;
    PlainKey(RATATUI);
    PlainKey(CROSSTERM);
    PlainKey(TOKIO_TUNGSTENITE);
    PlainKey(TUNGSTENITE);
  }

  const PATCH := "[patch."
  const DEPS := "[workspace.dependencies]"

  /** A bare version turned into an inline table. */
  function Tabled(trimmed: string, alias: Alias): string
    requires Bare(alias.key) <= trimmed
  {
    var version := TrimQuotes(TrimEnd(TrimStart(trimmed[|alias.key| + 3..])));
    Inline(alias.key) + " version = \"" + version + "\", " + Closing(alias.package)
  }

  /** `rewrite_workspace_fork_dep_line`. */
  function RewriteDep(line: string): Option<string> {
    var trimmed := TrimStart(line);
    var i := FirstAlias(trimmed, FORK_ALIASES, true);
    if i == |FORK_ALIASES| then None
    else if Bare(FORK_ALIASES[i].key) <= trimmed then Some(Indent(line) + Tabled(trimmed, FORK_ALIASES[i]))
    else match InjectPackage(trimmed, FORK_ALIASES[i].package)
      case None => None
      case Some(r) => Some(Indent(line) + r)
  }

  function Rewired(line: string): string {
    match RewriteDep(line)
    case Some(r) => r
    case None => line
  }

  datatype State = State(inPatch: bool, inDeps: bool)

  function Step(line: string, s: State): (seq<string>, State) {
    if IsHeader(line) then
      var patch := PATCH <= TrimStart(line);
      (if patch then [] else [line], State(patch, TrimStart(line) == DEPS))
    else if s.inPatch then ([], s)
    else if s.inDeps then ([Rewired(line)], s)
    else ([line], s)
  }

  const START := State(false, false)

  /** `rewrite_publish_workspace_for_forks`. */
  method RewritePublishWorkspaceForForks(raw: string) returns (out: string)
    ensures out == Rewrite(Step, raw, START)
  {
    hide IsHeader, RewriteDep, Unlines, Written;
    out := "";
    var lines := Lines(raw);
    var inPatch, inDeps := false, false;
    var i := 0;
    WrittenStart(Step, lines, START);
    while i < |lines|
      invariant 0 <= i <= |lines|
      invariant Written(Step, lines, START, i, State(inPatch, inDeps), out)
    {
      var line := lines[i];
      WrittenLine(Step, lines, START, i, State(inPatch, inDeps), out);
      i := i + 1;
      if IsHeader(line) {
        inPatch := PATCH <= TrimStart(line);
        inDeps := TrimStart(line) == DEPS;
        if inPatch {
          continue;
        }
        out := out + line + "\n";
        continue;
      }
      if inPatch {
        continue;
      }
      if inDeps {
        var rewritten := RewriteDep(line);
        if rewritten.Some? {
          out := out + rewritten.value + "\n";
          continue;
        }
      }
      out := out + line + "\n";
    }
    WrittenAll(Step, lines, START, State(inPatch, inDeps), out);
  }

  // ----- dependency lines, spelled out -----

  /** The published packages of the forks. */
  lemma AliasTable(a: Alias)
    ensures a in FORK_ALIASES
       <==> a == Alias("ratatui", "lemurclaw-ratatui") || a == Alias("crossterm", "lemurclaw-crossterm")
            || a == Alias("tokio-tungstenite", "lemurclaw-tokio-tungstenite") || a == Alias("tungstenite", "lemurclaw-tungstenite")
  {
    hide RATATUI, CROSSTERM, TOKIO_TUNGSTENITE, TUNGSTENITE;
    AliasConsts();
  }

  lemma AliasConsts()
    ensures RATATUI == Alias("ratatui", "lemurclaw-ratatui") && CROSSTERM == Alias("crossterm", "lemurclaw-crossterm")
    ensures TOKIO_TUNGSTENITE == Alias("tokio-tungstenite", "lemurclaw-tokio-tungstenite")
    ensures TUNGSTENITE == Alias("tungstenite", "lemurclaw-tungstenite")
  {}

  lemma OneAlias(a: Alias, b: Alias)
    requires a in FORK_ALIASES && b in FORK_ALIASES && a.key == b.key
    ensures a == b
  {
    KeysApart();
    hide RATATUI, CROSSTERM, TOKIO_TUNGSTENITE, TUNGSTENITE;
  }

  lemma KeysApart()
    ensures RATATUI.key[0] == 'r' && CROSSTERM.key[0] == 'c' && TOKIO_TUNGSTENITE.key[1] == 'o' && TUNGSTENITE.key[1] == 'u'
    ensures TOKIO_TUNGSTENITE.key[0] == 't' && TUNGSTENITE.key[0] == 't'
  {}

  /** A line that declares the key of an alias picks that alias. */
  lemma PicksAlias(a: Alias, line: string)
    requires a in FORK_ALIASES && Declares(line, a.key, true)
    ensures IsKey(a.key)
    ensures var i := FirstAlias(line, FORK_ALIASES, true); i < |FORK_ALIASES| && FORK_ALIASES[i] == a
  {
    ForkAliasesOk();
    var j :| 0 <= j < |FORK_ALIASES| && FORK_ALIASES[j] == a;
    var i := FirstAlias(line, FORK_ALIASES, true);
    FirstAtMost(line, FORK_ALIASES, true, j);
    hide FORK_ALIASES, FirstAlias, Declares;
    assert AliasOk(FORK_ALIASES[i]) && AliasOk(a);
    DeclaresSpace(line, a.key, true);
    DeclaresSpace(line, FORK_ALIASES[i].key, true);
    SameKey(a.key, FORK_ALIASES[i].key, line);
    OneAlias(a, FORK_ALIASES[i]);
  }

  lemma {:induction false} FirstAtMost(line: string, aliases: seq<Alias>, bare: bool, j: nat)
    requires j < |aliases| && Declares(line, aliases[j].key, bare)
    ensures FirstAlias(line, aliases, bare) <= j
    decreases |aliases|
  {
    hide Declares;
    if !Declares(line, aliases[0].key, bare) { FirstAtMost(line, aliases[1..], bare, j - 1); }
  }

  /** A bare version becomes an inline table with that version and the alias. */
  lemma BareSpelled(indent: string, a: Alias, version: string)
    requires Blanks(indent) && a in FORK_ALIASES && version != "" && QUOTE !in version
    ensures Rewired(indent + (a.key + " = \"" + version + "\""))
         == indent + (a.key + " = { version = \"" + version + "\", package = \"" + a.package + "\" }")
  {
    var body := a.key + " = \"" + version + "\"";
    assert Bare(a.key) <= body;
    PicksAlias(a, body);
    assert body[0] == a.key[0];
    IndentedLine(indent, body);
    BareVersion(a, version);
    hide FORK_ALIASES, FirstAlias, Tabled, Declares, TrimStart, Indent, Bare, Inline;
  }

  lemma BareVersion(a: Alias, version: string)
    requires version != "" && QUOTE !in version
    ensures var body := a.key + " = \"" + version + "\"";
            && Bare(a.key) <= body
            && Tabled(body, a) == a.key + " = { version = \"" + version + "\", package = \"" + a.package + "\" }"
  {
    var body := a.key + " = \"" + version + "\"";
    assert body[|a.key| + 3..] == Quoted(version);
    QuotedValue(version);
    assert Bare(a.key) <= body;
    hide TrimQuotes, TrimEnd, TrimStart;
    assert Tabled(body, a) == Inline(a.key) + " version = \"" + version + "\", " + Closing(a.package);
    Reassociate(a.key, version, a.package);
  }

  lemma Reassociate(key: string, version: string, package: string)
    ensures Inline(key) + " version = \"" + version + "\", " + Closing(package)
         == key + " = { version = \"" + version + "\", package = \"" + package + "\" }"
  {
    assert " = {" + " version = \"" == " = { version = \"";
    assert Inline(key) + " version = \"" == key + " = { version = \"";
    assert "\", " + "package = \"" == "\", package = \"";
    assert "\", " + Closing(package) == "\", package = \"" + package + "\" }";
    var a := key + " = { version = \"" + version;
    Glue(a, "\", ", Closing(package));
    Glue(a, "\", package = \"" + package, "\" }");
    Glue(a, "\", package = \"", package);
  }

  /** An inline table gets the alias before its closing brace. */
  lemma TableSpelled(indent: string, a: Alias, entries: string)
    requires Blanks(indent) && a in FORK_ALIASES && entries != "" && entries[|entries| - 1] != ','
    requires !IsSpace(entries[|entries| - 1]) && entries[|entries| - 1] != '{'
    requires !HasPackage(a.key + " = {" + entries + " }")
    ensures Rewired(indent + (a.key + " = {" + entries + " }"))
         == indent + (a.key + " = {" + entries + ", package = \"" + a.package + "\" }")
  {
    var body := a.key + " = {" + entries + " }";
    assert Inline(a.key) <= body;
    PicksAlias(a, body);
    TableInjected(a, entries);
    hide FORK_ALIASES, FirstAlias, InjectPackage, HasPackage, Declares, TrimStart, Indent, Inline, Bare;
    InlineNotBare(a.key, body);
    IndentedLine(indent, body);
  }

  lemma TableInjected(a: Alias, entries: string)
    requires entries != "" && entries[|entries| - 1] != ',' && !IsSpace(entries[|entries| - 1]) && entries[|entries| - 1] != '{'
    requires !HasPackage(a.key + " = {" + entries + " }")
    ensures InjectPackage(a.key + " = {" + entries + " }", a.package)
         == Some(a.key + " = {" + entries + ", package = \"" + a.package + "\" }")
  {
    var table := a.key + " = {" + entries;
    assert table + " }" == table + " " + ("}" + "") && table[|table| - 1] == entries[|entries| - 1];
    hide HasPackage, InjectPackage;
    InjectSpelled(table, " ", "", a.package);
    assert ", " + "package = \"" == ", package = \"";
    Glue(table, ", ", "package = \"");
  }

  /** A table that has an alias stays. */
  lemma AliasStays(indent: string, a: Alias, entries: string)
    requires Blanks(indent) && a in FORK_ALIASES && Occurs("package =", a.key + " = {" + entries)
    ensures Rewired(indent + (a.key + " = {" + entries)) == indent + (a.key + " = {" + entries)
  {
    var body := a.key + " = {" + entries;
    assert Inline(a.key) <= body;
    PicksAlias(a, body);
    assert body[0] == a.key[0];
    IndentedLine(indent, body);
    InlineNotBare(a.key, body);
    PackageSet(body);
    InjectSame(body, a.package);
    hide FORK_ALIASES, FirstAlias, InjectPackage, HasPackage, Declares, TrimStart, Indent, Bare, Inline;
  }

  /** Lines of other dependencies stay. */
  lemma OthersStay(indent: string, key: string, rest: string)
    requires Blanks(indent) && key != "" && ' ' !in key && !IsSpace(key[0])
    requires key != "ratatui" && key != "crossterm" && key != "tokio-tungstenite" && key != "tungstenite"
    ensures Rewired(indent + (key + (" " + rest))) == indent + (key + (" " + rest))
  {
    ForkAliasesOk();
    AliasConsts();
    var body := key + (" " + rest);
    assert body[0] == key[0];
    IndentedLine(indent, body);
    OtherKey(key, rest, FORK_ALIASES, true);
    hide FirstAlias, TrimStart, Indent;
  }

  // ----- section by section -----

  /** What line `i` becomes, judged by its section alone. */
  function LineBySection(lines: seq<string>, i: nat): seq<string>
    requires i < |lines|
  {
    if "[patch." <= SectionOf(lines, i) then []
    else if SectionOf(lines, i) == "[workspace.dependencies]" && !IsHeader(lines[i]) then [Rewired(lines[i])]
    else [lines[i]]
  }

  function BySection(lines: seq<string>, i: nat): seq<string>
    requires i <= |lines|
    decreases |lines| - i
  {
    if i == |lines| then [] else LineBySection(lines, i) + BySection(lines, i + 1)
  }

  function StateOf(section: string): State { State(PATCH <= section, section == DEPS) }

  lemma NoSection()
    ensures StateOf("") == START
  {}

  function StateBefore(lines: seq<string>, i: nat): State
    requires i <= |lines|
  {
    if i == 0 then START else StateOf(SectionOf(lines, i - 1))
  }

  lemma DepsNotPatch()
    ensures !(PATCH <= DEPS)
  {
    assert PATCH[1] == 'p' && DEPS[1] == 'w';
  }

  lemma StepBySection(lines: seq<string>, i: nat)
    requires i < |lines|
    ensures Step(lines[i], StateBefore(lines, i)) == (LineBySection(lines, i), StateBefore(lines, i + 1))
  {
    hide IsHeader, Rewired;
    DepsNotPatch();
    NoSection();
  }

  /** The rewriter drops exactly the lines of `[patch.…]` sections, rewrites exactly the lines
      of `[workspace.dependencies]` and keeps the others as they are, in order. */
  lemma {:induction false} RewireBySection(lines: seq<string>, i: nat)
    requires i <= |lines|
    ensures Out(Step, lines[i..], StateBefore(lines, i)) == BySection(lines, i)
    decreases |lines| - i
  {
    hide Step;
    if i < |lines| {
      assert lines[i..][0] == lines[i] && lines[i..][1..] == lines[i + 1..];
      StepBySection(lines, i);
      RewireBySection(lines, i + 1);
    }
  }

  // ----- running it again -----

  /** A fork dependency with its alias, or an inline table that goes on to the next line. */
  predicate Aliased(line: string) {
    var trimmed := TrimStart(line);
    var i := FirstAlias(trimmed, FORK_ALIASES, true);
    i < |FORK_ALIASES| ==> HasPackage(trimmed) || (Inline(FORK_ALIASES[i].key) <= trimmed && LastBrace(trimmed) < 0)
  }

  lemma TabledKeeps(trimmed: string, alias: Alias)
    requires Bare(alias.key) <= trimmed
    ensures Inline(alias.key) <= Tabled(trimmed, alias) && HasPackage(Tabled(trimmed, alias))
  {
    hide HasPackage, Closing, TrimQuotes;
    var version := TrimQuotes(TrimEnd(TrimStart(trimmed[|alias.key| + 3..])));
    ClosingHasPackage(Inline(alias.key) + " version = \"" + version + "\", ", alias.package);
  }

  /** The body of a rewritten line declares the same key, and has its alias. */
  lemma RewrittenBody(line: string)
    requires RewriteDep(line).Some?
    ensures var i := FirstAlias(TrimStart(line), FORK_ALIASES, true);
            i < |FORK_ALIASES| && IsKey(FORK_ALIASES[i].key)
    ensures exists body :: RewriteDep(line).value == Indent(line) + body && HasPackage(body)
              && Inline(FORK_ALIASES[FirstAlias(TrimStart(line), FORK_ALIASES, true)].key) <= body
  {
    ForkAliasesOk();
    hide FORK_ALIASES, HasPackage, Tabled, FirstAlias;
    var trimmed := TrimStart(line);
    var i := FirstAlias(trimmed, FORK_ALIASES, true);
    assert i < |FORK_ALIASES|;
    var alias := FORK_ALIASES[i];
    assert AliasOk(alias);
    if Bare(alias.key) <= trimmed {
      TabledKeeps(trimmed, alias);
      assert RewriteDep(line).value == Indent(line) + Tabled(trimmed, alias);
    } else {
      assert Inline(alias.key) <= trimmed;
      hide InjectPackage;
      InjectKeeps(alias.key, trimmed, alias.package);
    }
  }

  lemma InlineNotBare(key: string, body: string)
    requires IsKey(key) && Inline(key) <= body
    ensures !(Bare(key) <= body)
    ensures body != "" && !IsSpace(body[0]) && body[0] != '['
  {
    assert Inline(key)[|key| + 3] == '{' && Bare(key)[|key| + 3] == QUOTE;
    assert Inline(key)[0] == key[0];
  }

  lemma RewiredTwice(line: string)
    ensures Rewired(Rewired(line)) == Rewired(line) && Aliased(Rewired(line))
    ensures !IsHeader(line) ==> !IsHeader(Rewired(line))
  {
    if RewriteDep(line).Some? {
      RewrittenBody(line);
      ForkAliasesOk();
      var trimmed := TrimStart(line);
      var i := FirstAlias(trimmed, FORK_ALIASES, true);
      var key := FORK_ALIASES[i].key;
      hide FORK_ALIASES, HasPackage, Tabled, FirstAlias, Inline, Bare, IsKey, Indent, TrimStart, IsHeader;
      var body :| RewriteDep(line).value == Indent(line) + body && HasPackage(body) && Inline(key) <= body;
      InlineNotBare(key, body);
      Reindent(line, body);
      NotHeader(line, body);
      FirstAliasSame(trimmed, body, FORK_ALIASES, true);
    }
  }

  predicate Rel(s: State, t: State) { !t.inPatch && (!s.inPatch ==> s.inDeps == t.inDeps) }

  lemma RewireStableStep(l: string, s: State, t: State)
    requires Rel(s, t)
    ensures StableStep(Step, Rel, l, s, t)
  {
    RewiredTwice(l);
    hide IsHeader, Rewired, Aliased;
    OutOne(Step, l, t);
    OutOne(Step, Rewired(l), t);
  }

  lemma RewireStable()
    ensures Stable(Step, Rel)
  {
    forall l: string, s: State, t: State | Rel(s, t)
      ensures StableStep(Step, Rel, l, s, t)
    {
      RewireStableStep(l, s, t);
    }
  }

  /** A header that is kept opens no patch section, and every fork dependency has its alias. */
  predicate Good(line: string, t: State) {
    if IsHeader(line) then !(PATCH <= TrimStart(line)) else t.inDeps ==> Aliased(line)
  }

  lemma RewireEmitsGood()
    ensures EmitsGood(Step, Rel, Good)
  {
    forall l: string, s: State, t: State | Rel(s, t)
      ensures AllGood(Step, Good, Step(l, s).0, t)
    {
      RewiredTwice(l);
      hide IsHeader, Rewired, Aliased;
      assert forall x: string :: [x][1..] == [];
    }
  }

  /** Rewiring twice is rewiring once, and the rewired manifest has no patch section left
      and no fork dependency without its alias. */
  lemma RewireIdempotent(lines: seq<string>)
    ensures var o := Out(Step, lines, START);
            Out(Step, o, START) == o && AllGood(Step, Good, o, START)
  {
    RewireStable();
    RewireEmitsGood();
    Idempotent(Step, Rel, lines, START, START);
    OutputGood(Step, Rel, Good, lines, START, START);
  }

  lemma TabledTidy(trimmed: string, alias: Alias)
    requires Bare(alias.key) <= trimmed && AliasOk(alias) && OneLine(trimmed)
    ensures EndsInBrace(Tabled(trimmed, alias))
  {
    var v := trimmed[|alias.key| + 3..];
    NoBreaks(v);
    NoBreaks(TrimStart(v));
    NoBreaks(TrimEnd(TrimStart(v)));
  }

  /** The body of a rewritten line ends in a brace, or the line is as it was. */
  lemma RewrittenTidy(trimmed: string, alias: Alias)
    requires AliasOk(alias) && OneLine(trimmed) && Declares(trimmed, alias.key, true)
    ensures Bare(alias.key) <= trimmed ==> EndsInBrace(Tabled(trimmed, alias))
    ensures !(Bare(alias.key) <= trimmed) && InjectPackage(trimmed, alias.package).Some? ==>
              InjectPackage(trimmed, alias.package).value == trimmed || EndsInBrace(InjectPackage(trimmed, alias.package).value)
  {
    hide HasPackage, Tabled, InjectPackage, Bare, Inline;
    if Bare(alias.key) <= trimmed {
      TabledTidy(trimmed, alias);
    } else if HasPackage(trimmed) {
      InjectSame(trimmed, alias.package);
    } else if InjectPackage(trimmed, alias.package).Some? {
      InjectEnds(alias.key, trimmed, alias.package);
    }
  }

  /** A line that is altered gets a new body, which ends in a brace. */
  lemma AlteredBody(line: string) returns (body: string)
    requires OneLine(line) && Rewired(line) != line
    ensures Rewired(line) == Indent(line) + body && EndsInBrace(body)
  {
    ForkAliasesOk();
    var trimmed := TrimStart(line);
    var i := FirstAlias(trimmed, FORK_ALIASES, true);
    IndentSpec(line);
    NoBreaks(line);
    hide FORK_ALIASES, Tabled, FirstAlias, InjectPackage, Indent, TrimStart, Bare, Inline, EndsInBrace;
    assert i < |FORK_ALIASES|;
    assert AliasOk(FORK_ALIASES[i]);
    RewrittenTidy(trimmed, FORK_ALIASES[i]);
    body := if Bare(FORK_ALIASES[i].key) <= trimmed then Tabled(trimmed, FORK_ALIASES[i])
            else InjectPackage(trimmed, FORK_ALIASES[i].package).value;
  }

  lemma RewiredTidy(line: string)
    requires OneLine(line)
    ensures OneLine(Rewired(line)) && TrailingCr(Rewired(line)) <= TrailingCr(line)
  {
    if Rewired(line) != line {
      var body := AlteredBody(line);
      IndentSpec(line);
      hide Rewired, Indent, TrimStart, TrailingCr;
      IndentTidy(Indent(line), TrimStart(line), body);
    }
  }

  lemma RewireTidy()
    ensures Tidy(Step)
  {
    forall l: string, s: State | OneLine(l)
      ensures TidyLines(Step(l, s).0, l)
    {
      RewiredTidy(l);
      hide IsHeader, Rewired, TrailingCr, TidyLines;
      TidyOne(l, l);
      TidyNone(l);
      TidyOne(Rewired(l), l);
    }
  }

  /** A rewritten line ends in a carriage return only if it is the old line. */
  lemma RewiredEnd(line: string)
    requires OneLine(line)
    ensures EndsInCr(Rewired(line)) ==> Rewired(line) == line
  {
    if Rewired(line) != line {
      var body := AlteredBody(line);
      hide Rewired, Indent;
      assert (Indent(line) + body)[|Indent(line) + body| - 1] == body[|body| - 1];
    }
  }

  lemma CleanLine(lines: seq<string>, i: nat)
    requires i < |lines| && OneLine(lines[i])
    ensures NoCr(LineBySection(lines, i)) <==> (LineBySection(lines, i) == [lines[i]] ==> !EndsInCr(lines[i]))
  {
    RewiredEnd(lines[i]);
    NoneEnds();
    NoCrOne(lines[i]);
    NoCrOne(Rewired(lines[i]));
    hide Rewired, EndsInCr, NoCr, SectionOf, IsHeader, PATCH, DEPS;
    assert [Rewired(lines[i])][0] == Rewired(lines[i]);
  }

  lemma {:induction false} CleanBySection(lines: seq<string>, i: nat)
    requires i <= |lines| && AllOneLine(lines)
    ensures NoCr(BySection(lines, i))
       <==> forall j :: i <= j < |lines| && LineBySection(lines, j) == [lines[j]] ==> !EndsInCr(lines[j])
    decreases |lines| - i
  {
    hide LineBySection, EndsInCr, NoCr;
    if i == |lines| {
      NoneEnds();
    } else {
      CleanBySection(lines, i + 1);
      NoCrConcat(LineBySection(lines, i), BySection(lines, i + 1));
      CleanLine(lines, i);
    }
  }

  /** As a function of the text the rewiring is idempotent exactly when no line that stays as
      it is ends in a stray carriage return. */
  lemma RewireTwice(raw: string)
    ensures var lines := Lines(raw);
            Rewrite(Step, Rewrite(Step, raw, START), START) == Rewrite(Step, raw, START)
            <==> forall i :: 0 <= i < |lines| && LineBySection(lines, i) == [lines[i]] ==> !EndsInCr(lines[i])
  {
    var lines := Lines(raw);
    RewireStable();
    RewireTidy();
    RewriteTwice(Step, Rel, raw, START);
    CleanOutput(Step, lines, START);
    assert lines[0..] == lines;
    RewireBySection(lines, 0);
    LinesOneLine(raw);
    CleanBySection(lines, 0);
  }
}
