/** Lines of a manifest as the line scanners see them.

    A line is its indentation and the rest; the rest may be a section header, or declare a
    dependency as a bare version or as an inline table. A dependency line can be given a
    `package = "…"` alias, and this module says what the altered line reads as when it is
    scanned again. */
module TomlLines {
  import opened Text
  import opened Wrappers
  import opened ManifestStrings
  import opened LineMachine

  ghost predicate AllSpace(s: string) { forall i :: 0 <= i < |s| ==> IsSpace(s[i]) }

  lemma {:induction false} TrimStartSpec(s: string)
    ensures TrimStart(s) == "" || !IsSpace(TrimStart(s)[0])
    ensures |TrimStart(s)| <= |s| && AllSpace(s[..|s| - |TrimStart(s)|]) && s[|s| - |TrimStart(s)|..] == TrimStart(s)
  {
    if s != "" && IsSpace(s[0]) {
      TrimStartSpec(s[1..]);
      var k := |s| - |TrimStart(s)|;
      forall i | 0 <= i < k
        ensures IsSpace(s[..k][i])
      {
        if i > 0 { assert s[i] == s[1..][..k - 1][i - 1]; }
      }
    }
  }

  lemma IndentSpec(line: string)
    ensures line == Indent(line) + TrimStart(line)
    ensures AllSpace(Indent(line))
    ensures TrimStart(line) == "" || !IsSpace(TrimStart(line)[0])
  {
    TrimStartSpec(line);
  }

  lemma {:induction false} TrimIndented(indent: string, body: string)
    requires AllSpace(indent) && (body == "" || !IsSpace(body[0]))
    ensures TrimStart(indent + body) == body
    decreases |indent|
  {
    var s := indent + body;
    if indent == "" {
      assert s == body;
    } else {
      assert s[1..] == indent[1..] + body;
      TrimIndented(indent[1..], body);
    }
  }

  /** Putting another body behind a line's indentation. */
  lemma Reindent(line: string, body: string)
    requires body != "" && !IsSpace(body[0])
    ensures TrimStart(Indent(line) + body) == body
    ensures Indent(Indent(line) + body) == Indent(line)
  {
    IndentSpec(line);
    TrimIndented(Indent(line), body);
    IndentSpec(Indent(line) + body);
  }

  /** A section header, as far as the scanners look. */
  predicate IsHeader(line: string) {
    var t := TrimStart(line);
    t != "" && t[0] == '[' && t[|t| - 1] == ']'
  }

  lemma NotHeader(line: string, body: string)
    requires body != "" && !IsSpace(body[0]) && body[0] != '['
    ensures !IsHeader(Indent(line) + body)
  {
    Reindent(line, body);
  }

  /** The header of the section that line `i` stands in; a header is in its own section. */
  function SectionOf(lines: seq<string>, i: nat): string
    requires i <= |lines|
  {
    if i < |lines| && IsHeader(lines[i]) then TrimStart(lines[i]) else if i == 0 then "" else SectionOf(lines, i - 1)
  }

  // ----- dependency lines -----

  /** Position of the last closing brace, or -1. */
  function LastBrace(s: string): (k: int)
    ensures -1 <= k < |s|
    ensures k >= 0 ==> s[k] == '}'
  {
    if s == "" then -1 else if s[|s| - 1] == '}' then |s| - 1 else LastBrace(s[..|s| - 1])
  }

  function TrimCommas(s: string): string { if s != "" && s[|s| - 1] == ',' then TrimCommas(s[..|s| - 1]) else s }

  lemma {:induction false} TrimEndKeeps(p: string, s: string)
    requires p != "" && p <= s && !IsSpace(p[|p| - 1])
    ensures p <= TrimEnd(s)
    ensures OneLine(s) ==> OneLine(TrimEnd(s))
    decreases |s|
  {
    if IsSpace(s[|s| - 1]) {
      assert |p| < |s|;
      TrimEndKeeps(p, s[..|s| - 1]);
    }
  }

  lemma {:induction false} TrimCommasKeeps(p: string, s: string)
    requires p != "" && p <= s && p[|p| - 1] != ','
    ensures p <= TrimCommas(s)
    ensures OneLine(s) ==> OneLine(TrimCommas(s))
    decreases |s|
  {
    if s[|s| - 1] == ',' {
      assert |p| < |s|;
      TrimCommasKeeps(p, s[..|s| - 1]);
    }
  }

  const PACKAGE := "package ="

  predicate HasPackage(s: string) { Find(s, PACKAGE) >= 0 }

  function Closing(name: string): string { "package = \"" + name + "\" }" }

  function Opened(before: string): string {
    if before != "" && before[|before| - 1] != '{' then before + ", " else before
  }

  /** An inline table with the alias put in before its closing brace; None when it has no
      closing brace on the line. */
  function InjectPackage(trimmed: string, name: string): Option<string> {
    if HasPackage(trimmed) then Some(trimmed)
    else if LastBrace(trimmed) < 0 then None
    else Some(Opened(TrimCommas(TrimEnd(trimmed[..LastBrace(trimmed)]))) + Closing(name))
  }

  /** A dependency key: one word that starts no section header. */
  predicate IsKey(key: string) { key != "" && key[0] != '[' && ' ' !in key && '}' !in key && !IsSpace(key[0]) && '\n' !in key }

  function Inline(key: string): string { key + " = {" }

  function Bare(key: string): string { key + " = \"" }

  lemma ClosingHasPackage(before: string, name: string)
    ensures HasPackage(before + Closing(name))
  {
    var rest := " \"" + name + "\" }";
    assert Closing(name) == PACKAGE + rest;
    OccursIn(PACKAGE, before, rest);
    assert before + PACKAGE + rest == before + Closing(name);
    FindNone(before + Closing(name), PACKAGE);
  }

  lemma InjectKeeps(key: string, trimmed: string, name: string)
    requires IsKey(key) && Inline(key) <= trimmed && InjectPackage(trimmed, name).Some?
    ensures var r := InjectPackage(trimmed, name).value;
            Inline(key) <= r && HasPackage(r)
  {
    hide HasPackage, TrimEnd, TrimCommas, Closing;
    if !HasPackage(trimmed) {
      var p, k := Inline(key), LastBrace(trimmed);
      assert '}' !in p;
      var body := trimmed[..k];
      assert p <= body;
      TrimEndKeeps(p, body);
      TrimCommasKeeps(p, TrimEnd(body));
      var before := Opened(TrimCommas(TrimEnd(body)));
      ClosingHasPackage(before, name);
    }
  }

  /** Nothing but the end of the line changes: what an alias is added to stays in front. */
  lemma InjectEnds(key: string, trimmed: string, name: string)
    requires IsKey(key) && Inline(key) <= trimmed && !HasPackage(trimmed) && InjectPackage(trimmed, name).Some?
    requires '\n' !in name && OneLine(trimmed)
    ensures EndsInBrace(InjectPackage(trimmed, name).value)
  {
    hide HasPackage, TrimEnd, TrimCommas;
    var p, k := Inline(key), LastBrace(trimmed);
    assert '}' !in p;
    var body := trimmed[..k];
    assert p <= body;
    TrimEndKeeps(p, body);
    TrimCommasKeeps(p, TrimEnd(body));
    ClosedTidy(TrimCommas(TrimEnd(body)), name);
  }

  lemma ClosedTidy(before: string, name: string)
    requires OneLine(before) && '\n' !in name
    ensures EndsInBrace(Opened(before) + Closing(name))
  {
    var c := Closing(name);
    assert OneLine(Opened(before));
    assert c[|c| - 1] == '}';
    assert OneLine(c);
  }

  ghost predicate EndsInBrace(s: string) { OneLine(s) && s != "" && s[|s| - 1] == '}' }

  lemma IndentTidy(indent: string, trimmed: string, body: string)
    requires OneLine(indent + trimmed) && EndsInBrace(body)
    ensures OneLine(indent + body) && TrailingCr(indent + body) == 0
  {
    assert OneLine(indent) by {
      forall i | 0 <= i < |indent|
        ensures indent[i] != '\n'
      {
        assert (indent + trimmed)[i] == indent[i];
      }
    }
  }

  lemma NoBreaks(s: string)
    requires OneLine(s)
    ensures OneLine(TrimStart(s)) && OneLine(TrimEnd(s)) && OneLine(TrimQuotes(s))
  {
    TrimStartShorter(s);
    PartsOneLine(s);
    PartsOneLine(TrimQuotesStart(s));
  }

  lemma {:induction false} PartsOneLine(s: string)
    requires OneLine(s)
    ensures OneLine(TrimEnd(s)) && OneLine(TrimQuotesStart(s)) && OneLine(TrimQuotesEnd(s))
    decreases |s|
  {
    if s != "" {
      PartsOneLine(s[1..]);
      PartsOneLine(s[..|s| - 1]);
    }
  }

  lemma InjectSame(trimmed: string, name: string)
    requires HasPackage(trimmed)
    ensures InjectPackage(trimmed, name) == Some(trimmed)
  {}

  datatype Alias = Alias(key: string, package: string)

  /** The trimmed line declares the key, as an inline table or (if `bare`) a version string. */
  predicate Declares(trimmed: string, key: string, bare: bool) {
    Inline(key) <= trimmed || (bare && Bare(key) <= trimmed)
  }

  /** Position of the first alias whose key the line declares; the number of aliases if none. */
  function FirstAlias(trimmed: string, aliases: seq<Alias>, bare: bool): (i: nat)
    ensures i <= |aliases|
    ensures i < |aliases| ==> Declares(trimmed, aliases[i].key, bare)
  {
    if aliases == [] || Declares(trimmed, aliases[0].key, bare) then 0
    else 1 + FirstAlias(trimmed, aliases[1..], bare)
  }

  ghost predicate AliasOk(alias: Alias) { IsKey(alias.key) && '\n' !in alias.package }

  predicate Plain(s: string) { forall i :: 0 <= i < |s| ==> s[i] == '-' || 'a' <= s[i] <= 'z' }

  lemma PlainKey(alias: Alias)
    requires alias.key != "" && Plain(alias.key) && Plain(alias.package)
    ensures AliasOk(alias)
  {}

  ghost predicate AliasesOk(aliases: seq<Alias>) {
    forall i :: 0 <= i < |aliases| ==> AliasOk(aliases[i])
  }

  lemma SameKey(a: string, b: string, s: string)
    requires ' ' !in a && ' ' !in b && a + " " <= s && b + " " <= s
    ensures a == b
  {
    assert s[|a|] == (a + " ")[|a|] && s[|b|] == (b + " ")[|b|];
    assert a == s[..|a|] && b == s[..|b|];
    assert ' ' !in s[..|a|] && ' ' !in s[..|b|];
  }

  lemma DeclaresSpace(s: string, key: string, bare: bool)
    requires Declares(s, key, bare)
    ensures key + " " <= s
  {
    assert Inline(key)[..|key| + 1] == key + " " == Bare(key)[..|key| + 1];
  }

  /** A line that declares the same key picks the same alias. */
  lemma {:induction false} FirstAliasSame(s: string, t: string, aliases: seq<Alias>, bare: bool)
    requires AliasesOk(aliases)
    requires var i := FirstAlias(s, aliases, bare); i < |aliases| && Declares(t, aliases[i].key, bare)
    ensures FirstAlias(t, aliases, bare) == FirstAlias(s, aliases, bare)
    decreases |aliases|
  {
    var i := FirstAlias(s, aliases, bare);
    hide Declares;
    var first := aliases[0];
    if !Declares(s, first.key, bare) {
      var rest := aliases[1..];
      assert aliases[i] == rest[i - 1];
      if Declares(t, first.key, bare) {
        DeclaresSpace(t, first.key, bare);
        DeclaresSpace(t, aliases[i].key, bare);
        SameKey(first.key, aliases[i].key, t);
      }
      FirstAliasSame(s, t, rest, bare);
    }
  }

  // ----- lines, spelled out -----

  ghost predicate Blanks(s: string) { forall i :: 0 <= i < |s| ==> s[i] == ' ' || s[i] == '\t' }

  /** A line behind its indentation. */
  lemma IndentedLine(indent: string, body: string)
    requires Blanks(indent) && body != "" && !IsSpace(body[0])
    ensures TrimStart(indent + body) == body && Indent(indent + body) == indent
  {
    IndentLead(indent, body);
  }

  /** What counts as a section header. */
  lemma HeaderSpelled(indent: string, name: string, body: string)
    requires Blanks(indent) && body != "" && !IsSpace(body[0])
    ensures IsHeader(indent + ("[" + name + "]")) && TrimStart(indent + ("[" + name + "]")) == "[" + name + "]"
    ensures IsHeader(indent + body) <==> body[0] == '[' && body[|body| - 1] == ']'
  {
    var header := "[" + name + "]";
    assert header[0] == '[' && header[|header| - 1] == ']';
    IndentedLine(indent, header);
    IndentedLine(indent, body);
  }

  lemma {:induction false} LastBraceAfter(s: string, tail: string)
    requires '}' !in tail
    ensures LastBrace(s + ("}" + tail)) == |s|
    decreases |tail|
  {
    var t := s + ("}" + tail);
    if tail == "" {
      assert t[|t| - 1] == '}';
    } else {
      var n := |tail| - 1;
      assert t[|t| - 1] == tail[n] && t[..|t| - 1] == s + ("}" + tail[..n]);
      LastBraceAfter(s, tail[..n]);
    }
  }

  /** A table has its alias when the key `package` is set in it. */
  lemma PackageSet(s: string)
    ensures HasPackage(s) <==> Occurs("package =", s)
  {
    FindNone(s, PACKAGE);
  }

  /** The alias goes in front of the closing brace, after a comma unless the table is empty;
      blanks and commas before the brace go, and what comes after it too. */
  lemma InjectSpelled(table: string, pad: string, tail: string, name: string)
    requires table != "" && !IsSpace(table[|table| - 1]) && table[|table| - 1] != ','
    requires Blanks(pad) && '}' !in tail && !HasPackage(table + pad + ("}" + tail))
    ensures InjectPackage(table + pad + ("}" + tail), name)
         == Some((if table[|table| - 1] == '{' then table else table + ", ") + "package = \"" + name + "\" }")
  {
    var s := table + pad;
    LastBraceAfter(s, tail);
    var t := s + ("}" + tail);
    assert t[..|s|] == s;
    TrimPadding(table, pad);
    assert TrimCommas(table) == table;
    hide HasPackage, LastBrace, TrimEnd, TrimCommas;
    Glue(Opened(table), "package = \"" + name, "\" }");
    Glue(Opened(table), "package = \"", name);
  }

  lemma {:induction false} TrimPadding(s: string, pad: string)
    requires s != "" && !IsSpace(s[|s| - 1]) && Blanks(pad)
    ensures TrimEnd(s + pad) == s
    decreases |pad|
  {
    if pad == "" {
      assert s + pad == s;
    } else {
      var n := |pad| - 1;
      assert (s + pad)[|s| + n] == pad[n] && (s + pad)[..|s| + n] == s + pad[..n];
      TrimPadding(s, pad[..n]);
    }
  }

  /** A line whose key is none of the aliases' declares none of them. */
  lemma {:induction false} OtherKey(key: string, rest: string, aliases: seq<Alias>, bare: bool)
    requires AliasesOk(aliases) && ' ' !in key && forall i :: 0 <= i < |aliases| ==> aliases[i].key != key
    ensures FirstAlias(key + (" " + rest), aliases, bare) == |aliases|
    decreases |aliases|
  {
    hide Declares;
    if aliases != [] {
      var s := key + (" " + rest);
      assert aliases[0].key != key && AliasOk(aliases[0]);
      if Declares(s, aliases[0].key, bare) {
        DeclaresSpace(s, aliases[0].key, bare);
        assert s == key + " " + rest;
        SameKey(aliases[0].key, key, s);
      }
      assert forall i :: 0 <= i < |aliases| - 1 ==> aliases[1..][i] == aliases[i + 1];
      OtherKey(key, rest, aliases[1..], bare);
    }
  }
}
