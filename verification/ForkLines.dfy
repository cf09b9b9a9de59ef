/** A rewritten fork manifest line by line: what comes of each line is decided by the section
    it stands in, and spelled out here. */
module ForkLines {
  import opened Text
  import opened Wrappers
  import opened ManifestStrings
  import opened LineMachine
  import opened TomlLines
  import opened ForkManifest

  /** A library section opens before line `i`. */
  predicate LibBefore(lines: seq<string>, i: nat)
    requires i <= |lines|
  {
    exists j :: 0 <= j < i && IsHeader(lines[j]) && TrimStart(lines[j]) == "[lib]"
  }

  /** The sub-table of a fork dependency: version and published package, nothing else. */
  function NewTable(indent: string, a: Alias): seq<string> {
    var version := if a.key == "crossterm" then "0.28.1" else if a.key == "tungstenite" then "0.27.0" else "0.0.0";
    [indent + ("[dependencies." + a.key + "]"),
     indent + ("version = \"" + version + "\""),
     indent + ("package = \"" + a.package + "\""),
     indent + "default-features = false"]
  }

  /** What comes of line `i`. */
  function LineOf(lines: seq<string>, i: nat, f: Fork): seq<string>
    requires i < |lines|
  {
    var line, section := lines[i], SectionOf(lines, i);
    if IsHeader(line) then
      match ForkSub(section, f)
      case Some(a) => NewTable(Indent(line), a)
      case None =>
        [line] + if section == "[lib]" && !LibBefore(lines, i) then [Indent(line) + ("name = \"" + f.lib + "\"")] else []
    else if ForkSub(section, f).Some? then []
    else if section == "[package]" && IsUpstreamName(line, f) then
      [Indent(line) + ("name = \"lemurclaw-" + f.upstream + "\"")]
    else if section == "[lib]" && IsName(line) then []
    else [WithAlias(line, f)]
  }

  function LinesFrom(lines: seq<string>, i: nat, f: Fork): seq<string>
    requires i <= |lines|
    decreases |lines| - i
  {
    if i == |lines| then [] else LineOf(lines, i, f) + LinesFrom(lines, i + 1, f)
  }

  lemma {:induction false} SectionPrefix(a: seq<string>, x: seq<string>, k: nat)
    requires k < |a|
    ensures SectionOf(a + x, k) == SectionOf(a, k)
    decreases k
  {
    hide IsHeader, TrimStart;
    assert (a + x)[k] == a[k];
    if k > 0 { SectionPrefix(a, x, k - 1); }
  }

  lemma SectionBefore(lines: seq<string>, i: nat)
    requires i < |lines|
    ensures SectionOf(lines, i) == if IsHeader(lines[i]) then TrimStart(lines[i]) else LastSection(lines[..i])
  {
    var a := lines[..i];
    assert lines == a + lines[i..];
    hide IsHeader, TrimStart;
    if !IsHeader(lines[i]) && i > 0 {
      SectionPrefix(a, lines[i..], i - 1);
      assert LastSection(a) == SectionOf(a, i - 1);
    }
  }

  lemma NamesSame(indent: string, f: Fork)
    ensures indent + NameLine(f.lib) == indent + ("name = \"" + f.lib + "\"")
    ensures indent + NameLine(NewName(f)) == indent + ("name = \"lemurclaw-" + f.upstream + "\"")
  {
    NameText(f.lib);
    NameText("lemurclaw-" + f.upstream);
    hide NameLine;
    Glue("name = \"lemurclaw-", f.upstream, "\"");
    assert "name = \"" + ("lemurclaw-" + f.upstream) == "name = \"lemurclaw-" + f.upstream;
  }

  lemma NameText(name: string)
    ensures NameLine(name) == "name = \"" + name + "\""
  {}

  lemma TableSame(indent: string, a: Alias)
    ensures Subtable(indent, a) == NewTable(indent, a)
  {}

  lemma StepAt(lines: seq<string>, i: nat, f: Fork)
    requires i < |lines|
    ensures StepLine(lines[i], End(Step(f), lines[..i], START), f).0 == LineOf(lines, i, f)
  {
    var line, a := lines[i], lines[..i];
    var e := End(Step(f), a, START);
    EndState(a, f);
    EndSection(a, f);
    SectionBefore(lines, i);
    NamesSame(Indent(line), f);
    SubNotLib(f);
    assert LibBefore(lines, i) == e.lib by {
      assert forall j :: 0 <= j < i ==> lines[j] == a[j];
      hide IsHeader, TrimStart, End;
    }
    hide End, IsHeader, TrimStart, Indent, IsName, IsUpstreamName, WithAlias, NameLine, LibBefore, LastSection, SectionOf, Subtable, NewTable, ForkSub;
    if ForkSub(TrimStart(line), f).Some? { TableSame(Indent(line), ForkSub(TrimStart(line), f).value); }
  }

  lemma {:induction false} OutByPlace(lines: seq<string>, i: nat, f: Fork)
    requires i <= |lines|
    ensures Out(Step(f), lines[i..], End(Step(f), lines[..i], START)) == LinesFrom(lines, i, f)
    decreases |lines| - i
  {
    hide StepLine, LineOf;
    if i < |lines| {
      var a := lines[..i];
      assert lines[i..][0] == lines[i] && lines[i..][1..] == lines[i + 1..];
      assert lines[..i + 1] == a + [lines[i]];
      OutConcat(Step(f), a, [lines[i]], START);
      OutOne(Step(f), lines[i], End(Step(f), a, START));
      StepAt(lines, i, f);
      OutByPlace(lines, i + 1, f);
    }
  }

  /** The rewritten manifest: every line judged by its section, and a library section at the
      end if there is none. */
  lemma WholeByPlace(lines: seq<string>, f: Fork)
    ensures Whole(lines, f)
         == LinesFrom(lines, 0, f)
            + if LibBefore(lines, |lines|) then [] else ["", "[lib]", "name = \"" + f.lib + "\""]
  {
    assert lines[0..] == lines && lines[..0] == [];
    OutByPlace(lines, 0, f);
    EndState(lines, f);
    NameText(f.lib);
    hide Out, End, LinesFrom, IsHeader, TrimStart, NameLine;
  }

  // ----- the lines themselves -----

  /** A header of a fork dependency's sub-table, of any kind, opens it; no other header does. */
  lemma SubSpelled(a: Alias, f: Fork, header: string)
    requires a in f.deps && forall b :: b in f.deps && b.key == a.key ==> b == a
    ensures ForkSub("[dependencies." + a.key + "]", f) == Some(a)
    ensures ForkSub("[dev-dependencies." + a.key + "]", f) == Some(a)
    ensures ForkSub("[build-dependencies." + a.key + "]", f) == Some(a)
    ensures ForkSub(header, f).Some? ==>
              exists b :: b in f.deps && (header == "[dependencies." + b.key + "]" || header == "[dev-dependencies." + b.key + "]"
                                          || header == "[build-dependencies." + b.key + "]")
  {
    HeaderText(a);
    KindsText(a.key);
    Indexed(a, f.deps);
    if ForkSub(header, f).Some? {
      var b := f.deps[DepIndex(SubtableDep(header).value, f.deps)];
      KindOf(header);
      assert b in f.deps;
    }
    hide SubtableDep;
  }

  lemma {:induction false} Indexed(a: Alias, deps: seq<Alias>)
    requires a in deps && forall b :: b in deps && b.key == a.key ==> b == a
    ensures DepIndex(a.key, deps) < |deps| && deps[DepIndex(a.key, deps)] == a
    decreases |deps|
  {
    if deps[0].key != a.key {
      assert deps == [deps[0]] + deps[1..];
      Indexed(a, deps[1..]);
    } else {
      assert deps[0] in deps;
    }
  }

  lemma KindsText(key: string)
    ensures SubtableDep("[dependencies." + key + "]") == Some(key)
    ensures SubtableDep("[dev-dependencies." + key + "]") == Some(key)
    ensures SubtableDep("[build-dependencies." + key + "]") == Some(key)
  {
    Around("[dependencies.", key);
    Around("[dev-dependencies.", key);
    Around("[build-dependencies.", key);
    assert "[dev-dependencies."[3] == 'v' && "[dependencies."[3] == 'p' && "[build-dependencies."[1] == 'b';
    var dev, build := "[dev-dependencies." + key + "]", "[build-dependencies." + key + "]";
    assert dev[3] == 'v' && dev[1] == 'd' && build[1] == 'b';
  }

  lemma Around(prefix: string, key: string)
    ensures Between(prefix + key + "]", prefix) == Some(key)
  {
    var header := prefix + key + "]";
    assert header[..|prefix|] == prefix && header[|prefix|..|header| - 1] == key;
  }

  lemma KindOf(header: string)
    requires SubtableDep(header).Some?
    ensures var key := SubtableDep(header).value;
            header == "[dependencies." + key + "]" || header == "[dev-dependencies." + key + "]" || header == "[build-dependencies." + key + "]"
  {
    Inside(header, "[dependencies.");
    Inside(header, "[dev-dependencies.");
    Inside(header, "[build-dependencies.");
    hide Between;
  }

  lemma Inside(header: string, prefix: string)
    ensures Between(header, prefix).Some? ==> header == prefix + Between(header, prefix).value + "]"
  {
    if Between(header, prefix).Some? {
      var n := |header| - 1;
      assert header == header[..|prefix|] + header[|prefix|..n] + header[n..];
    }
  }

  /** A name line with a quoted value is one, and has that value. */
  lemma NameSpelled(indent: string, value: string, f: Fork)
    requires Blanks(indent) && value != "" && QUOTE !in value
    ensures var line := indent + ("name = \"" + value + "\"");
            && !IsHeader(line) && IsName(line) && Indent(line) == indent
            && (IsUpstreamName(line, f) <==> value == f.upstream)
  {
    var body := "name = \"" + value + "\"";
    assert body[0] == 'n' && body[..7] == "name = " && body[7..] == Quoted(value);
    IndentedLine(indent, body);
    QuotedValue(value);
    hide TrimStart, TrimEnd, TrimQuotes, Indent;
  }

  /** A dependency on a sibling gets its alias before the closing brace. */
  lemma AliasSpelled(indent: string, a: Alias, f: Fork, entries: string)
    requires Blanks(indent) && ForkOk(f) && a in f.deps && forall b :: b in f.deps && b.key == a.key ==> b == a
    requires entries != "" && entries[|entries| - 1] != ',' && !IsSpace(entries[|entries| - 1]) && entries[|entries| - 1] != '{'
    requires !Occurs("package =", a.key + " = {" + entries + " }")
    ensures WithAlias(indent + (a.key + " = {" + entries + " }"), f)
         == indent + (a.key + " = {" + entries + ", package = \"" + a.package + "\" }")
  {
    var table, body := a.key + " = {" + entries, a.key + " = {" + entries + " }";
    hide HasPackage, InjectPackage, FirstAlias, TrimStart, Indent, ForkOk, Occurs;
    PackageSet(body);
    Picks(a, body, f);
    assert body[0] == a.key[0];
    IndentedLine(indent, body);
    assert body == table + " " + ("}" + "") && table[|table| - 1] == entries[|entries| - 1];
    InjectSpelled(table, " ", "", a.package);
    Comma(table, a.package);
  }

  lemma Comma(table: string, package: string)
    ensures (table + ", ") + "package = \"" + package + "\" }" == table + ", package = \"" + package + "\" }"
  {
    assert ", " + "package = \"" == ", package = \"";
    Glue(table, ", ", "package = \"");
  }

  lemma Picks(a: Alias, body: string, f: Fork)
    requires ForkOk(f) && a in f.deps && Inline(a.key) <= body && forall b :: b in f.deps && b.key == a.key ==> b == a
    ensures IsKey(a.key)
    ensures var i := FirstAlias(body, f.deps, false); i < |f.deps| && f.deps[i] == a
  {
    var j :| 0 <= j < |f.deps| && f.deps[j] == a;
    AtMost(body, f.deps, j);
    var i := FirstAlias(body, f.deps, false);
    assert AliasOk(f.deps[i]) && AliasOk(a);
    assert Declares(body, a.key, false) && Declares(body, f.deps[i].key, false);
    hide FirstAlias, Declares;
    DeclaresSpace(body, a.key, false);
    DeclaresSpace(body, f.deps[i].key, false);
    SameKey(a.key, f.deps[i].key, body);
    assert f.deps[i] in f.deps;
  }

  lemma {:induction false} AtMost(line: string, aliases: seq<Alias>, j: nat)
    requires j < |aliases| && Declares(line, aliases[j].key, false)
    ensures FirstAlias(line, aliases, false) <= j
    decreases |aliases|
  {
    hide Declares;
    if !Declares(line, aliases[0].key, false) { AtMost(line, aliases[1..], j - 1); }
  }

  /** Every other line stays. */
  lemma OthersStay(indent: string, key: string, rest: string, f: Fork)
    requires Blanks(indent) && ForkOk(f) && key != "" && ' ' !in key && !IsSpace(key[0])
    requires forall a :: a in f.deps ==> a.key != key
    ensures WithAlias(indent + (key + (" " + rest)), f) == indent + (key + (" " + rest))
  {
    var body := key + (" " + rest);
    assert body[0] == key[0];
    IndentedLine(indent, body);
    OtherKey(key, rest, f.deps, false);
    hide FirstAlias, TrimStart, Indent, ForkOk;
  }
}
