/** Which sections a rewritten fork manifest has: one for each of the manifest's own, with
    the three kinds of dependency sub-table merged into one. */
module ForkHeaders {
  import opened Text
  import opened Wrappers
  import opened ManifestStrings
  import opened LineMachine
  import opened TomlLines
  import opened ForkManifest

  /** The section headers of a manifest, in order, without their indentation. */
  function Headers(lines: seq<string>): seq<string> {
    if lines == [] then []
    else (if IsHeader(lines[0]) then [TrimStart(lines[0])] else []) + Headers(lines[1..])
  }

  /** What a header becomes. */
  function Mapped(header: string, f: Fork): string {
    match ForkSub(header, f)
    case Some(a) => Header(a)
    case None => header
  }

  function MapAll(headers: seq<string>, f: Fork): seq<string> {
    if headers == [] then [] else [Mapped(headers[0], f)] + MapAll(headers[1..], f)
  }

  lemma {:induction false} HeadersConcat(a: seq<string>, b: seq<string>)
    ensures Headers(a + b) == Headers(a) + Headers(b)
    decreases |a|
  {
    hide IsHeader, TrimStart;
    if a == [] {
      assert a + b == b;
    } else {
      assert (a + b)[1..] == a[1..] + b;
      HeadersConcat(a[1..], b);
    }
  }

  lemma HeadersOne(line: string)
    ensures Headers([line]) == if IsHeader(line) then [TrimStart(line)] else []
  {
    assert [line][1..] == [];
  }

  lemma HeadersTwo(a: string, b: string)
    ensures Headers([a, b]) == Headers([a]) + Headers([b])
  {
    assert [a] + [b] == [a, b];
    HeadersConcat([a], [b]);
  }

  lemma SubtableHeaders(line: string, a: Alias)
    ensures Headers(Subtable(Indent(line), a)) == [Header(a)]
  {
    var sub := Subtable(Indent(line), a);
    SubtableLines(line, a);
    hide Header, VersionLine, PackageLine, Indent, TrimStart, IsHeader;
    assert sub == [sub[0], sub[1]] + [sub[2], sub[3]];
    HeadersConcat([sub[0], sub[1]], [sub[2], sub[3]]);
    HeadersTwo(sub[0], sub[1]);
    HeadersTwo(sub[2], sub[3]);
    HeadersOne(sub[0]);
    HeadersOne(sub[1]);
    HeadersOne(sub[2]);
    HeadersOne(sub[3]);
  }

  lemma HeaderStep(line: string, s: State, f: Fork)
    requires IsHeader(line)
    ensures Headers(StepLine(line, s, f).0) == [Mapped(TrimStart(line), f)]
  {
    var sub := ForkSub(TrimStart(line), f);
    var name := Indent(line) + NameLine(f.lib);
    if sub.Some? { SubtableHeaders(line, sub.value); }
    NameLineText(line, f.lib);
    HeadersOne(line);
    HeadersOne(name);
    HeadersTwo(line, name);
    hide ForkSub, Header, Indent, TrimStart, IsHeader, Subtable, NameLine, Headers;
  }

  lemma BodyStep(line: string, s: State, f: Fork)
    requires ForkOk(f) && !IsHeader(line)
    ensures Headers(StepBody(line, s, f)) == []
  {
    var renamed := Indent(line) + NameLine(NewName(f));
    NameLineText(line, NewName(f));
    AliasTwice(line, f);
    HeadersOne(renamed);
    HeadersOne(WithAlias(line, f));
    assert Headers([]) == [];
    hide Indent, TrimStart, IsHeader, IsName, IsUpstreamName, WithAlias, NameLine, ForkOk, Headers;
  }

  lemma StepHeaders(line: string, s: State, f: Fork)
    requires ForkOk(f)
    ensures Headers(StepLine(line, s, f).0) == if IsHeader(line) then [Mapped(TrimStart(line), f)] else []
  {
    hide IsHeader, TrimStart, Mapped, StepHeader, StepBody, Headers, ForkOk;
    if IsHeader(line) { HeaderStep(line, s, f); } else { BodyStep(line, s, f); }
  }

  lemma {:induction false} RunHeaders(lines: seq<string>, s: State, f: Fork)
    requires ForkOk(f)
    ensures Headers(Out(Step(f), lines, s)) == MapAll(Headers(lines), f)
    decreases |lines|
  {
    hide StepLine, TrimStart, IsHeader, Mapped;
    if lines != [] {
      var (a, s') := StepLine(lines[0], s, f);
      StepHeaders(lines[0], s, f);
      RunHeaders(lines[1..], s', f);
      HeadersConcat(a, Out(Step(f), lines[1..], s'));
      if IsHeader(lines[0]) {
        assert Headers(lines)[1..] == Headers(lines[1..]);
      } else {
        assert Headers(lines) == Headers(lines[1..]);
        assert [] + MapAll(Headers(lines[1..]), f) == MapAll(Headers(lines[1..]), f);
      }
    }
  }

  /** The sections of the output: those of the manifest in order, each fork dependency's
      sub-table as a plain dependency table whatever kind it was, and a library section at the
      end if there was none. */
  lemma WholeHeaders(lines: seq<string>, f: Fork)
    requires ForkOk(f)
    ensures Headers(Whole(lines, f))
         == MapAll(Headers(lines), f) + if LIB_SECTION in Headers(lines) then [] else [LIB_SECTION]
  {
    var o, e := Out(Step(f), lines, START), End(Step(f), lines, START);
    RunHeaders(lines, START, f);
    EndState(lines, f);
    LibHeader(lines);
    HeadersConcat(o, Tail(e, f));
    if !e.lib { TailHeaders(f); }
    hide Out, End, ForkSub, IsHeader, TrimStart;
  }

  lemma {:induction false} LibHeader(lines: seq<string>)
    ensures LIB_SECTION in Headers(lines)
       <==> exists i :: 0 <= i < |lines| && IsHeader(lines[i]) && TrimStart(lines[i]) == LIB_SECTION
    decreases |lines|
  {
    hide IsHeader, TrimStart;
    if lines != [] {
      LibHeader(lines[1..]);
      assert forall i :: 0 < i < |lines| ==> lines[i] == lines[1..][i - 1];
    }
  }

  lemma TailHeaders(f: Fork)
    ensures Headers(["", LIB_SECTION, NameLine(f.lib)]) == [LIB_SECTION]
  {
    var name := NameLine(f.lib);
    NoIndent(LIB_SECTION);
    BareNameLine(f.lib);
    assert !IsHeader("") && IsHeader(LIB_SECTION);
    hide IsHeader, TrimStart, NameLine;
    assert ["", LIB_SECTION, name] == [""] + [LIB_SECTION, name];
    HeadersConcat([""], [LIB_SECTION, name]);
    HeadersTwo(LIB_SECTION, name);
    HeadersOne("");
    HeadersOne(LIB_SECTION);
    HeadersOne(name);
  }

  // ----- how often a sub-table occurs -----

  /** How often `h` is among the headers. */
  function Times(headers: seq<string>, h: string): nat {
    if headers == [] then 0 else (if headers[0] == h then 1 else 0) + Times(headers[1..], h)
  }

  /** How many sub-tables of the fork dependency there are, of any of the three kinds. */
  function SubTables(headers: seq<string>, a: Alias, f: Fork): nat {
    if headers == [] then 0 else (if ForkSub(headers[0], f) == Some(a) then 1 else 0) + SubTables(headers[1..], a, f)
  }

  /** `a` is the entry of the fork's dependency list that is found for its key. */
  ghost predicate Listed(a: Alias, f: Fork) { ForkSub(Header(a), f) == Some(a) }

  lemma MappedToSub(h: string, a: Alias, f: Fork)
    requires Listed(a, f)
    ensures Mapped(h, f) == Header(a) <==> ForkSub(h, f) == Some(a)
  {
    HeaderText(a);
    if ForkSub(h, f).Some? {
      var b := ForkSub(h, f).value;
      ForkSubText(h, f);
      HeaderText(b);
      hide ForkSub, Header;
    }
  }

  lemma {:induction false} TimesConcat(xs: seq<string>, ys: seq<string>, h: string)
    ensures Times(xs + ys, h) == Times(xs, h) + Times(ys, h)
    decreases |xs|
  {
    if xs == [] {
      assert xs + ys == ys;
    } else {
      assert (xs + ys)[1..] == xs[1..] + ys;
      TimesConcat(xs[1..], ys, h);
    }
  }

  lemma {:induction false} MappedTimes(headers: seq<string>, a: Alias, f: Fork)
    requires Listed(a, f)
    ensures Times(MapAll(headers, f), Header(a)) == SubTables(headers, a, f)
    decreases |headers|
  {
    hide Mapped, ForkSub, Header;
    if headers != [] {
      MappedToSub(headers[0], a, f);
      MappedTimes(headers[1..], a, f);
    }
  }

  /** The output has as many tables for a fork dependency as the manifest has sub-tables of it,
      of whatever kind. */
  lemma TablesCounted(lines: seq<string>, a: Alias, f: Fork)
    requires ForkOk(f) && Listed(a, f)
    ensures Times(Headers(Whole(lines, f)), Header(a)) == SubTables(Headers(lines), a, f)
  {
    hide Header, Whole, Headers, MapAll, ForkSub, ForkOk;
    WholeHeaders(lines, f);
    MappedTimes(Headers(lines), a, f);
    var tail: seq<string> := if LIB_SECTION in Headers(lines) then [] else [LIB_SECTION];
    TimesConcat(MapAll(Headers(lines), f), tail, Header(a));
    HeaderText(a);
    assert LIB_SECTION[1] == 'l';
    assert [LIB_SECTION][1..] == [];
  }

  /** A table for a fork dependency is written at most once if and only if the manifest has at
      most one sub-table of it, all three kinds together. */
  lemma TableOnce(lines: seq<string>, f: Fork)
    requires ForkOk(f)
    ensures (forall a :: Listed(a, f) ==> Times(Headers(Whole(lines, f)), Header(a)) <= 1)
       <==> forall a :: Listed(a, f) ==> SubTables(Headers(lines), a, f) <= 1
  {
    forall a | Listed(a, f)
      ensures Times(Headers(Whole(lines, f)), Header(a)) == SubTables(Headers(lines), a, f)
    {
      TablesCounted(lines, a, f);
    }
    hide Times, SubTables, Listed, Whole, Headers;
  }

  /** Two kinds of sub-table for one dependency become the same table twice. */
  lemma TableTwice(f: Fork)
    requires ForkOk(f) && f.deps != []
    ensures var a := f.deps[0];
            var lines := [DEP_PREFIX + a.key + "]", DEV_PREFIX + a.key + "]"];
            Headers(lines) == lines && Times(Headers(Whole(lines, f)), Header(a)) == 2
  {
    var a := f.deps[0];
    var dev := DEV_PREFIX + a.key + "]";
    BothSubs(f);
    hide Header, ForkSub, TrimStart, IsHeader, DEV_PREFIX, ForkOk, Whole;
    var lines := [Header(a), dev];
    HeadersTwo(Header(a), dev);
    HeadersOne(Header(a));
    HeadersOne(dev);
    assert Headers(lines) == lines;
    TablesCounted(lines, a, f);
    assert lines[1..] == [dev] && [dev][1..] == [];
    assert SubTables([dev], a, f) == 1;
  }

  lemma BothSubs(f: Fork)
    requires ForkOk(f) && f.deps != []
    ensures var a := f.deps[0];
            var dev := DEV_PREFIX + a.key + "]";
            && Header(a) == DEP_PREFIX + a.key + "]"
            && IsHeader(Header(a)) && TrimStart(Header(a)) == Header(a) && IsHeader(dev) && TrimStart(dev) == dev
            && ForkSub(Header(a), f) == Some(a) && ForkSub(dev, f) == Some(a)
  {
    var a := f.deps[0];
    HeaderText(a);
    DevText(a);
    NoIndent(Header(a));
    NoIndent(DEV_PREFIX + a.key + "]");
    assert DepIndex(a.key, f.deps) == 0;
    hide SubtableDep, Header;
  }

  lemma DevText(a: Alias)
    ensures var dev := DEV_PREFIX + a.key + "]";
            dev[0] == '[' && dev[|dev| - 1] == ']' && SubtableDep(dev) == Some(a.key) && !(DEP_PREFIX <= dev)
  {
    var dev := DEV_PREFIX + a.key + "]";
    assert dev[..18] == DEV_PREFIX;
    assert dev[18..|dev| - 1] == a.key;
    assert dev[3] == DEV_PREFIX[3] == 'v' && DEP_PREFIX[3] == 'p';
  }

  // ----- the kind of a sub-table -----

  /** A header stays as it is exactly when it is no fork dependency's, or a plain one. */
  lemma MappedKept(h: string, f: Fork)
    ensures Mapped(h, f) == h <==> (ForkSub(h, f).Some? ==> DEP_PREFIX <= h)
  {
    var sub := ForkSub(h, f);
    if sub.Some? {
      var a := sub.value;
      assert DEP_PREFIX <= Header(a);
      assert SubtableDep(h) == Some(a.key);
      if DEP_PREFIX <= h {
        PlainHeader(h);
        assert Header(a) == h;
      }
    }
  }

  lemma PlainHeader(h: string)
    requires DEP_PREFIX <= h && SubtableDep(h).Some?
    ensures h == DEP_PREFIX + SubtableDep(h).value + "]"
  {
    assert DEP_PREFIX[3] == 'p' && DEV_PREFIX[3] == 'v' && BUILD_PREFIX[1] == 'b' && DEP_PREFIX[1] == 'd';
    assert h[3] == 'p' && h[1] == 'd';
    var n := |DEP_PREFIX|;
    assert h == h[..n] + h[n..|h| - 1] + h[|h| - 1..];
    assert h[..n] == DEP_PREFIX;
  }

  lemma {:induction false} MapKept(headers: seq<string>, f: Fork)
    ensures MapAll(headers, f) == headers
       <==> forall h :: h in headers && ForkSub(h, f).Some? ==> DEP_PREFIX <= h
    decreases |headers|
  {
    hide Mapped, ForkSub;
    if headers != [] {
      MappedKept(headers[0], f);
      MapKept(headers[1..], f);
      assert headers == [headers[0]] + headers[1..];
      assert MapAll(headers, f)[0] == Mapped(headers[0], f) && MapAll(headers, f)[1..] == MapAll(headers[1..], f);
    }
  }

  /** Every section keeps its header if and only if no fork dependency has a sub-table of the
      development or build kind. */
  lemma KindsKept(lines: seq<string>, f: Fork)
    requires ForkOk(f)
    ensures (Headers(Whole(lines, f))
             == Headers(lines) + if LIB_SECTION in Headers(lines) then [] else [LIB_SECTION])
       <==> forall h :: h in Headers(lines) && ForkSub(h, f).Some? ==> DEP_PREFIX <= h
  {
    WholeHeaders(lines, f);
    MapKept(Headers(lines), f);
    hide Whole, Headers, ForkSub, MapAll;
    var tail: seq<string> := if LIB_SECTION in Headers(lines) then [] else [LIB_SECTION];
    SameTail(MapAll(Headers(lines), f), Headers(lines), tail);
  }

  lemma SameTail(xs: seq<string>, ys: seq<string>, tail: seq<string>)
    ensures xs + tail == ys + tail <==> xs == ys
  {
    if xs + tail == ys + tail {
      assert |xs| == |ys|;
      assert xs == (xs + tail)[..|xs|] && ys == (ys + tail)[..|ys|];
    }
  }
}
