/** Whole-word rewriting of identifiers: two scanners and the member-by-member rewrite of a
    merged crate, all related to one simultaneous map over maximal identifier runs. */
module Idents {
  import opened Text

  /** Length of the maximal identifier run at the start of `s`. */
  function RunLen(s: string): (k: nat)
    ensures k <= |s|
  {
    if s == "" || !IsIdent(s[0]) then 0 else 1 + RunLen(s[1..])
  }

  /** The maximal identifier run at the start of `s`. */
  function Run(s: string): string { s[..RunLen(s)] }

  /** What follows that run. */
  function AfterRun(s: string): (rest: string)
    ensures |rest| == |s| - RunLen(s)
  {
    s[RunLen(s)..]
  }

  lemma {:induction false} RunSpec(s: string)
    ensures AllIdent(Run(s)) && s == Run(s) + AfterRun(s)
    ensures AfterRun(s) != "" ==> !IsIdent(AfterRun(s)[0])
    ensures Run(s) != "" <==> s != "" && IsIdent(s[0])
  {
    if s != "" && IsIdent(s[0]) {
      RunSpec(s[1..]);
      RunStep(s);
    }
  }

  lemma RunStep(s: string)
    requires s != "" && IsIdent(s[0])
    ensures Run(s) == [s[0]] + Run(s[1..]) && AfterRun(s) == AfterRun(s[1..])
  {}

  lemma NoRun(s: string)
    requires s == "" || !IsIdent(s[0])
    ensures Run(s) == "" && AfterRun(s) == s
  {}

  function Lookup(t: map<string, string>, w: string): string {
    if w in t then t[w] else w
  }

  /** Replace every maximal identifier run of `s` by its image under `t`, all at once;
      every other character stays where it is. */
  function MapRuns(s: string, t: map<string, string>): string
    decreases |s|
  {
    if s == "" then ""
    else if IsIdent(s[0]) then Lookup(t, Run(s)) + MapRuns(AfterRun(s), t)
    else [s[0]] + MapRuns(s[1..], t)
  }

  /** How many maximal identifier runs of `s` are exactly `w`. */
  function CountRuns(s: string, w: string): nat
    decreases |s|
  {
    if s == "" then 0
    else if IsIdent(s[0]) then (if Run(s) == w then 1 else 0) + CountRuns(AfterRun(s), w)
    else CountRuns(s[1..], w)
  }

  // ----- the scanner -----

  /** `needle` matches at the start of `s` as a whole word; `prev` tells whether the byte
      before `s` is an identifier byte. */
  predicate WholeAt(prev: bool, s: string, needle: string) {
    !prev && needle <= s && (|s| == |needle| || !IsIdent(s[|needle|]))
  }

  /** Left-to-right replacement of whole-word matches, for any needle. */
  function ReplaceWhole(prev: bool, s: string, needle: string, repl: string): string
    requires needle != ""
    decreases |s|
  {
    if s == "" then ""
    else if WholeAt(prev, s, needle) then
      repl + ReplaceWhole(IsIdent(needle[|needle| - 1]), s[|needle|..], needle, repl)
    else [s[0]] + ReplaceWhole(IsIdent(s[0]), s[1..], needle, repl)
  }

  function CountWhole(prev: bool, s: string, needle: string): nat
    requires needle != ""
    decreases |s|
  {
    if s == "" then 0
    else if WholeAt(prev, s, needle) then
      1 + CountWhole(IsIdent(needle[|needle| - 1]), s[|needle|..], needle)
    else CountWhole(IsIdent(s[0]), s[1..], needle)
  }

  predicate IdentBefore(s: string, i: nat)
    requires i <= |s|
  {
    i > 0 && IsIdent(s[i - 1])
  }

  lemma {:induction false} NoRoom(prev: bool, s: string, needle: string, repl: string)
    requires needle != "" && !Occurs(needle, s)
    ensures ReplaceWhole(prev, s, needle, repl) == s
    ensures CountWhole(prev, s, needle) == 0
    decreases |s|
  {
    if s != "" {
      OccursCons(needle, s);
      NoRoom(IsIdent(s[0]), s[1..], needle, repl);
    }
  }

  /** What the scanners' loops maintain: `out` and `count` account for the first `i` bytes. */
  ghost predicate Scanned(s: string, i: nat, needle: string, repl: string, out: string, count: nat)
    requires needle != "" && i <= |s|
  {
    && out + ReplaceWhole(IdentBefore(s, i), s[i..], needle, repl) == ReplaceWhole(false, s, needle, repl)
    && count + CountWhole(IdentBefore(s, i), s[i..], needle) == CountWhole(false, s, needle)
  }

  lemma CopyByte(s: string, i: nat, needle: string, repl: string, out: string, count: nat)
    requires needle != "" && i < |s| && !WholeAt(IdentBefore(s, i), s[i..], needle)
    requires Scanned(s, i, needle, repl, out, count)
    ensures Scanned(s, i + 1, needle, repl, out + [s[i]], count)
  {
    assert s[i..][1..] == s[i + 1..];
    var tail := ReplaceWhole(IdentBefore(s, i + 1), s[i + 1..], needle, repl);
    assert out + ([s[i]] + tail) == out + [s[i]] + tail;
  }

  /** Where no word starts, the scanner copies bytes up to the next boundary unchanged. */
  lemma {:induction false} CopyStep(s: string, i: nat, j: nat, needle: string, repl: string, out: string, count: nat)
    requires needle != "" && !IsContinuation(needle[0])
    requires i < j <= |s| && !WholeAt(IdentBefore(s, i), s[i..], needle)
    requires forall k :: i < k < j ==> IsContinuation(s[k])
    requires Scanned(s, i, needle, repl, out, count)
    ensures Scanned(s, j, needle, repl, out + s[i..j], count)
    decreases j - i
  {
    CopyByte(s, i, needle, repl, out, count);
    if i + 1 < j {
      assert s[i + 1..][0] == s[i + 1];
      CopyStep(s, i + 1, j, needle, repl, out + [s[i]], count);
      assert out + s[i..j] == out + [s[i]] + s[i + 1..j];
    } else {
      assert s[i..j] == [s[i]];
    }
  }

  /** The scanner's index tests amount to `WholeAt` on the suffix. */
  lemma WholeAtIndex(s: string, i: nat, needle: string)
    requires needle != "" && i < |s|
    ensures WholeAt(IdentBefore(s, i), s[i..], needle)
       <==> i + |needle| <= |s| && s[i..i + |needle|] == needle && !IdentBefore(s, i)
            && (i + |needle| == |s| || !IsIdent(s[i + |needle|]))
  {
    if i + |needle| <= |s| {
      assert s[i..][..|needle|] == s[i..i + |needle|];
    }
  }

  lemma MatchStep(s: string, i: nat, needle: string, repl: string, out: string, count: nat)
    requires needle != "" && i < |s| && WholeAt(IdentBefore(s, i), s[i..], needle)
    requires Scanned(s, i, needle, repl, out, count)
    ensures i + |needle| <= |s| && Scanned(s, i + |needle|, needle, repl, out + repl, count + 1)
  {
    assert s[i..][|needle|..] == s[i + |needle|..];
    assert needle[|needle| - 1] == s[i..][|needle| - 1];
  }

  lemma ScannedFrom(s: string, needle: string, repl: string)
    requires needle != ""
    ensures Scanned(s, 0, needle, repl, "", 0)
  {
    assert s[0..] == s;
    hide ReplaceWhole, CountWhole;
  }

  lemma ScannedAll(s: string, needle: string, repl: string, out: string, count: nat)
    requires needle != "" && Scanned(s, |s|, needle, repl, out, count)
    ensures out == ReplaceWhole(false, s, needle, repl) && count == CountWhole(false, s, needle)
  {
    assert s[|s|..] == "" && out + "" == out;
  }

  method ReplaceIdentWhole(haystack: string, needle: string, replacement: string) returns (out: string)
    requires needle != "" ==> !IsContinuation(needle[0])
    ensures needle == "" ==> out == haystack
    ensures needle != "" ==> out == ReplaceWhole(false, haystack, needle, replacement)
    ensures IsWord(needle) ==> out == MapRuns(haystack, map[needle := replacement])
  {
    if needle == "" || |haystack| < |needle| {
      if needle != "" { NoRoom(false, haystack, needle, replacement); }
      if IsWord(needle) { WholeIsMapRuns(haystack, needle, replacement); }
      return haystack;
    }
    out := "";
    var i := 0;
    ghost var count := 0;
    hide Scanned, ReplaceWhole, CountWhole, MapRuns, CountRuns;
    ScannedFrom(haystack, needle, replacement);
    while i < |haystack|
      invariant 0 <= i <= |haystack|
      invariant Scanned(haystack, i, needle, replacement, out, count)
    {
      WholeAtIndex(haystack, i, needle);
      if i + |needle| <= |haystack| && haystack[i..i + |needle|] == needle {
        var beforeOk := i == 0 || !IsIdent(haystack[i - 1]);
        var afterIdx := i + |needle|;
        var afterOk := afterIdx >= |haystack| || !IsIdent(haystack[afterIdx]);
        if beforeOk && afterOk {
          MatchStep(haystack, i, needle, replacement, out, count);
          out := out + replacement;
          i := afterIdx;
          count := count + 1;
          continue;
        }
      }
      var chEnd := NextBoundary(haystack, i);
      CopyStep(haystack, i, chEnd, needle, replacement, out, count);
      out := out + haystack[i..chEnd];
      i := chEnd;
    }
    ScannedAll(haystack, needle, replacement, out, count);
    if IsWord(needle) { WholeIsMapRuns(haystack, needle, replacement); }
  }

  /** `replace_word_boundary`; `occ` is the caller's running count. */
  method ReplaceWordBoundary(s: string, needle: string, repl: string, occ: nat) returns (out: string, occ': nat)
    requires needle != "" ==> !IsContinuation(needle[0])
    ensures needle == "" ==> out == s && occ' == occ
    ensures needle != "" ==> out == ReplaceWhole(false, s, needle, repl) && occ' == occ + CountWhole(false, s, needle)
    ensures IsWord(needle) ==> out == MapRuns(s, map[needle := repl]) && occ' == occ + CountRuns(s, needle)
  {
    FindNone(s, needle);
    if needle == "" || Find(s, needle) < 0 {
      if needle != "" { NoRoom(false, s, needle, repl); }
      if IsWord(needle) { WholeIsMapRuns(s, needle, repl); }
      return s, occ;
    }
    out := "";
    var i, count := 0, 0;
    hide Scanned, ReplaceWhole, CountWhole, MapRuns, CountRuns;
    ScannedFrom(s, needle, repl);
    while i < |s|
      invariant 0 <= i <= |s|
      invariant Scanned(s, i, needle, repl, out, count)
    {
      WholeAtIndex(s, i, needle);
      if i + |needle| <= |s| && s[i..i + |needle|] == needle {
        var leftOk := i == 0 || !IsIdent(s[i - 1]);
        var rightOk := if i + |needle| == |s| then true else !IsIdent(s[i + |needle|]);
        if leftOk && rightOk {
          MatchStep(s, i, needle, repl, out, count);
          out := out + repl;
          i := i + |needle|;
          count := count + 1;
          continue;
        }
      }
      var chEnd := NextBoundary(s, i);
      CopyStep(s, i, chEnd, needle, repl, out, count);
      out := out + s[i..chEnd];
      i := chEnd;
    }
    ScannedAll(s, needle, repl, out, count);
    occ' := occ + count;
    if IsWord(needle) { WholeIsMapRuns(s, needle, repl); }
  }

  // ----- the scanner computes a map over runs -----

  lemma NoWordHere(prev: bool, s: string, needle: string, repl: string)
    requires IsWord(needle) && (s == "" || !IsIdent(s[0]))
    ensures ReplaceWhole(prev, s, needle, repl) == ReplaceWhole(false, s, needle, repl)
    ensures CountWhole(prev, s, needle) == CountWhole(false, s, needle)
  {
    if s != "" { assert needle[0] != s[0]; }
  }

  lemma RunByte(s: string, needle: string, repl: string)
    requires IsWord(needle) && s != "" && IsIdent(s[0])
    requires ReplaceWhole(true, s[1..], needle, repl) == Run(s[1..]) + ReplaceWhole(false, AfterRun(s[1..]), needle, repl)
    ensures ReplaceWhole(true, s, needle, repl) == Run(s) + ReplaceWhole(false, AfterRun(s), needle, repl)
  {
    RunStep(s);
    Glue([s[0]], Run(s[1..]), ReplaceWhole(false, AfterRun(s), needle, repl));
  }

  lemma RunEnd(s: string, needle: string, repl: string)
    requires IsWord(needle) && (s == "" || !IsIdent(s[0]))
    ensures ReplaceWhole(true, s, needle, repl) == Run(s) + ReplaceWhole(false, AfterRun(s), needle, repl)
    ensures CountWhole(true, s, needle) == CountWhole(false, AfterRun(s), needle)
  {
    NoRun(s);
    NoWordHere(true, s, needle, repl);
    assert "" + ReplaceWhole(false, s, needle, repl) == ReplaceWhole(false, s, needle, repl);
  }

  /** Inside a run, and up to its end, no word can start. */
  lemma {:induction false} RestOfRun(s: string, needle: string, repl: string)
    requires IsWord(needle)
    ensures ReplaceWhole(true, s, needle, repl) == Run(s) + ReplaceWhole(false, AfterRun(s), needle, repl)
    ensures CountWhole(true, s, needle) == CountWhole(false, AfterRun(s), needle)
    decreases |s|
  {
    if s != "" && IsIdent(s[0]) {
      RestOfRun(s[1..], needle, repl);
      RunByte(s, needle, repl);
      RunStep(s);
    } else {
      RunEnd(s, needle, repl);
    }
  }

  lemma RunMatches(s: string, needle: string, repl: string)
    requires IsWord(needle) && s != "" && WholeAt(false, s, needle)
    ensures IsIdent(s[0]) && Run(s) == needle
    ensures ReplaceWhole(false, s, needle, repl) == repl + ReplaceWhole(false, AfterRun(s), needle, repl)
    ensures CountWhole(false, s, needle) == 1 + CountWhole(false, AfterRun(s), needle)
  {
    WordIsRun(s, needle);
    assert IsIdent(s[0]) by { assert s[0] == needle[0]; }
    NoWordHere(true, AfterRun(s), needle, repl);
  }

  lemma RunDiffers(s: string, needle: string, repl: string)
    requires IsWord(needle) && s != "" && IsIdent(s[0]) && !WholeAt(false, s, needle)
    ensures Run(s) != needle
    ensures ReplaceWhole(false, s, needle, repl) == Run(s) + ReplaceWhole(false, AfterRun(s), needle, repl)
    ensures CountWhole(false, s, needle) == CountWhole(false, AfterRun(s), needle)
  {
    assert Run(s) <= s;
    RunSpec(s);
    assert |s| > RunLen(s) ==> s[RunLen(s)] == AfterRun(s)[0];
    RunStep(s);
    RestOfRun(s[1..], needle, repl);
    Glue([s[0]], Run(s[1..]), ReplaceWhole(false, AfterRun(s), needle, repl));
  }

  lemma {:induction false} WholeIsMapRuns(s: string, needle: string, repl: string)
    requires IsWord(needle)
    ensures ReplaceWhole(false, s, needle, repl) == MapRuns(s, map[needle := repl])
    ensures CountWhole(false, s, needle) == CountRuns(s, needle)
    decreases |s|
  {
    if s == "" {
    } else if IsIdent(s[0]) {
      WholeIsMapRuns(AfterRun(s), needle, repl);
      if WholeAt(false, s, needle) {
        RunMatches(s, needle, repl);
      } else {
        RunDiffers(s, needle, repl);
      }
    } else {
      WholeIsMapRuns(s[1..], needle, repl);
      assert needle[0] != s[0];
    }
  }

  /** A word delimited by a non-identifier is exactly the leading run. */
  lemma {:induction false} WordIsRun(s: string, w: string)
    requires AllIdent(w) && w <= s && (|s| == |w| || !IsIdent(s[|w|]))
    ensures Run(s) == w && AfterRun(s) == s[|w|..]
    decreases |w|
  {
    if w != "" {
      assert s[0] == w[0];
      WordIsRun(s[1..], w[1..]);
      RunStep(s);
      assert w == [w[0]] + w[1..];
    } else {
      NoRun(s);
    }
  }

  // ----- algebra of simultaneous maps -----

  lemma MapWord(w: string, t: map<string, string>)
    requires IsWord(w)
    ensures MapRuns(w, t) == Lookup(t, w)
  {
    WordIsRun(w, w);
  }

  /** The leading run of a concatenation that does not split a run. */
  lemma RunOfConcat(a: string, b: string)
    requires a != "" && IsIdent(a[0]) && (b == "" || !IsIdent(a[|a| - 1]) || !IsIdent(b[0]))
    ensures Run(a + b) == Run(a) && AfterRun(a + b) == AfterRun(a) + b
    ensures AfterRun(a) == "" || AfterRun(a)[|AfterRun(a)| - 1] == a[|a| - 1]
    ensures AfterRun(a) == "" ==> b == "" || !IsIdent(b[0])
  {
    var w := Run(a);
    RunSpec(a);
    assert w <= a + b;
    assert AllIdent(w);
    if AfterRun(a) == "" { assert a[|a| - 1] == w[|w| - 1]; }
    WordIsRun(a + b, w);
  }

  /** Maps over runs factor at any place that is not inside a run. */
  lemma {:induction false} MapRunsConcat(a: string, b: string, t: map<string, string>)
    requires a == "" || b == "" || !IsIdent(a[|a| - 1]) || !IsIdent(b[0])
    ensures MapRuns(a + b, t) == MapRuns(a, t) + MapRuns(b, t)
    decreases |a|
  {
    if a == "" {
      assert a + b == b;
    } else if IsIdent(a[0]) {
      RunOfConcat(a, b);
      MapRunsConcat(AfterRun(a), b, t);
      Glue(Lookup(t, Run(a)), MapRuns(AfterRun(a), t), MapRuns(b, t));
    } else {
      assert (a + b)[1..] == a[1..] + b;
      MapRunsConcat(a[1..], b, t);
      Glue([a[0]], MapRuns(a[1..], t), MapRuns(b, t));
    }
  }

  /** First `t`, then `u`, as one table. */
  function Then(t: map<string, string>, u: map<string, string>): map<string, string> {
    map w | w in t.Keys + u.Keys :: MapRuns(Lookup(t, w), u)
  }

  lemma {:induction false} MapRunsCompose(s: string, t: map<string, string>, u: map<string, string>)
    ensures MapRuns(MapRuns(s, t), u) == MapRuns(s, Then(t, u))
    decreases |s|
  {
    if s == "" {
    } else if IsIdent(s[0]) {
      RunSpec(s);
      MapRunsCompose(AfterRun(s), t, u);
      MapRunsConcat(Lookup(t, Run(s)), MapRuns(AfterRun(s), t), u);
      MapWord(Run(s), u);
    } else {
      MapRunsCompose(s[1..], t, u);
      MapRunsConcat([s[0]], MapRuns(s[1..], t), u);
      assert MapRuns([s[0]], u) == [s[0]];
    }
  }

  lemma {:induction false} MapRunsAgree(s: string, t: map<string, string>, u: map<string, string>)
    requires forall w :: IsWord(w) ==> Lookup(t, w) == Lookup(u, w)
    ensures MapRuns(s, t) == MapRuns(s, u)
    decreases |s|
  {
    if s == "" {
    } else if IsIdent(s[0]) {
      RunSpec(s);
      MapRunsAgree(AfterRun(s), t, u);
    } else {
      MapRunsAgree(s[1..], t, u);
    }
  }

  // ----- what the map over runs means, piece by piece -----

  function Concat(ps: seq<string>): string { if ps == [] then "" else ps[0] + Concat(ps[1..]) }

  /** The pieces are maximal identifier runs and single other bytes. */
  ghost predicate Maximal(ps: seq<string>) {
    && (forall i :: 0 <= i < |ps| ==> IsWord(ps[i]) || (|ps[i]| == 1 && !IsIdent(ps[i][0])))
    && (forall i :: 0 <= i < |ps| - 1 && IsWord(ps[i]) ==> !IsWord(ps[i + 1]))
  }

  function Images(ps: seq<string>, t: map<string, string>): seq<string> {
    if ps == [] then [] else [if IsWord(ps[0]) && ps[0] in t then t[ps[0]] else ps[0]] + Images(ps[1..], t)
  }

  function Equal(ps: seq<string>, w: string): nat {
    if ps == [] then 0 else (if ps[0] == w then 1 else 0) + Equal(ps[1..], w)
  }

  lemma MaximalRest(ps: seq<string>)
    requires Maximal(ps) && ps != []
    ensures Maximal(ps[1..]) && (IsWord(ps[0]) ==> Concat(ps[1..]) == "" || !IsIdent(Concat(ps[1..])[0]))
  {
    hide IsWord;
    var rest := ps[1..];
    assert forall i :: 0 <= i < |rest| ==> rest[i] == ps[i + 1];
    if IsWord(ps[0]) && rest != [] { assert !IsWord(ps[1]) && Concat(rest)[0] == rest[0][0]; }
  }

  /** The rewrite maps each run and leaves each other byte, however it is put. */
  lemma {:induction false} MapRunsMeans(ps: seq<string>, t: map<string, string>)
    requires Maximal(ps)
    ensures MapRuns(Concat(ps), t) == Concat(Images(ps, t))
    decreases |ps|
  {
    if ps != [] {
      var p, rest := ps[0], Concat(ps[1..]);
      MaximalRest(ps);
      MapRunsMeans(ps[1..], t);
      assert Images(ps, t)[1..] == Images(ps[1..], t);
      if IsWord(p) {
        assert (p + rest)[|p|..] == rest;
        WordIsRun(p + rest, p);
      } else {
        assert (p + rest)[1..] == rest && p == [p[0]];
      }
    }
  }

  lemma {:induction false} CountRunsMeans(ps: seq<string>, w: string)
    requires Maximal(ps) && IsWord(w)
    ensures CountRuns(Concat(ps), w) == Equal(ps, w)
    decreases |ps|
  {
    if ps != [] {
      var p, rest := ps[0], Concat(ps[1..]);
      MaximalRest(ps);
      CountRunsMeans(ps[1..], w);
      if IsWord(p) {
        assert (p + rest)[|p|..] == rest;
        WordIsRun(p + rest, p);
      } else {
        assert (p + rest)[1..] == rest && p == [p[0]] && p != w;
      }
    }
  }

  /** Every text is made of such pieces. */
  lemma {:induction false} CutAtRuns(s: string) returns (ps: seq<string>)
    ensures Maximal(ps) && Concat(ps) == s
    ensures s != "" ==> ps != [] && (IsWord(ps[0]) <==> IsIdent(s[0]))
    decreases |s|
  {
    if s == "" {
      ps := [];
    } else {
      RunSpec(s);
      var first := if IsIdent(s[0]) then Run(s) else [s[0]];
      var rest := CutAtRuns(s[|first|..]);
      ps := [first] + rest;
      assert ps[1..] == rest;
      assert s == first + s[|first|..];
      assert forall i :: 1 <= i < |ps| ==> ps[i] == rest[i - 1];
    }
  }

  /** Identifier bytes are ASCII letters, digits and the underscore. */
  lemma IdentBytes(c: char)
    ensures IsIdent(c) <==> 'a' <= c <= 'z' || 'A' <= c <= 'Z' || '0' <= c <= '9' || c == '_'
  {}

  // ----- the member-by-member rewrite -----

  datatype SubCrate = SubCrate(dir: string, package: string, modName: string)

  /** `package.replace('-', "_")`. */
  function Underscored(s: string): (r: string)
    ensures |r| == |s| && '-' !in r
    ensures forall i :: 0 <= i < |s| ==> r[i] == if s[i] == '-' then '_' else s[i]
  {
    seq(|s|, i requires 0 <= i < |s| => if s[i] == '-' then '_' else s[i])
  }

  function LibIdent(m: SubCrate): string { Underscored(m.package) }

  function ModPath(prefix: string, m: SubCrate): string { prefix + "::" + m.modName }

  /** The words of the rewrite are words, and no crate identifier is also the path prefix
      or a module name. */
  ghost predicate Separated(prefix: string, members: seq<SubCrate>) {
    && IsWord(prefix)
    && (forall m :: m in members ==> IsWord(LibIdent(m)) && IsWord(m.modName) && LibIdent(m) != prefix)
    && (forall m, n :: m in members && n in members ==> LibIdent(m) != n.modName)
  }

  /** Each member's identifier with the path that replaces it. */
  function MemberTable(prefix: string, members: seq<SubCrate>): map<string, string> {
    if members == [] then map[]
    else MemberTable(prefix, members[1..])[LibIdent(members[0]) := ModPath(prefix, members[0])]
  }

  /** `rewrite_rs`: one pass of the scanner per member, in order. */
  method RewriteRs(src: string, prefix: string, members: seq<SubCrate>) returns (out: string)
    requires Separated(prefix, members)
    ensures out == MapRuns(src, MemberTable(prefix, members))
  {
    out := src;
    var i := 0;
    assert members[0..] == members;
    while i < |members|
      invariant 0 <= i <= |members|
      invariant MapRuns(out, MemberTable(prefix, members[i..])) == MapRuns(src, MemberTable(prefix, members))
    {
      var sc := members[i];
      assert sc in members && IsWord(LibIdent(sc));
      ghost var before := out;
      out := ReplaceIdentWhole(out, LibIdent(sc), ModPath(prefix, sc));
      assert members[i..][0] == sc && members[i..][1..] == members[i + 1..];
      assert Separated(prefix, members[i..]);
      PeelMember(before, prefix, members[i..]);
      i := i + 1;
    }
    MapRunsEmpty(out);
  }

  lemma {:induction false} MapRunsEmpty(s: string)
    ensures MapRuns(s, map[]) == s
    decreases |s|
  {
    if s == "" {
    } else if IsIdent(s[0]) {
      MapRunsEmpty(AfterRun(s));
      assert s == Run(s) + AfterRun(s);
    } else {
      MapRunsEmpty(s[1..]);
    }
  }

  /** A rewritten path holds no member identifier, so any member table leaves it alone. */
  lemma ModPathStable(prefix: string, m: SubCrate, t: map<string, string>)
    requires IsWord(prefix) && IsWord(m.modName) && prefix !in t && m.modName !in t
    ensures MapRuns(ModPath(prefix, m), t) == ModPath(prefix, m)
  {
    MapRunsConcat(prefix + "::", m.modName, t);
    MapRunsConcat(prefix, "::", t);
    MapWord(prefix, t);
    MapWord(m.modName, t);
    assert "::"[1..] == ":";
    assert MapRuns("::", t) == "::";
  }

  lemma {:induction false} TableKeys(prefix: string, members: seq<SubCrate>)
    ensures forall w :: w in MemberTable(prefix, members) ==>
              exists m :: m in members && w == LibIdent(m) && MemberTable(prefix, members)[w] == ModPath(prefix, m)
    ensures forall m :: m in members ==> LibIdent(m) in MemberTable(prefix, members)
  {
    if members != [] {
      TableKeys(prefix, members[1..]);
      assert forall m :: m in members ==> m == members[0] || m in members[1..];
      assert forall m :: m in members[1..] ==> m in members;
    }
  }

  lemma PeelMember(s: string, prefix: string, members: seq<SubCrate>)
    requires members != [] && Separated(prefix, members)
    ensures MapRuns(MapRuns(s, map[LibIdent(members[0]) := ModPath(prefix, members[0])]), MemberTable(prefix, members[1..]))
         == MapRuns(s, MemberTable(prefix, members))
  {
    var m, t := members[0], MemberTable(prefix, members[1..]);
    var first := map[LibIdent(m) := ModPath(prefix, m)];
    TableKeys(prefix, members[1..]);
    assert m in members;
    ModPathStable(prefix, m, t);
    MapRunsCompose(s, first, t);
    forall w | IsWord(w)
      ensures Lookup(Then(first, t), w) == Lookup(MemberTable(prefix, members), w)
    {
      MapWord(w, t);
    }
    MapRunsAgree(s, Then(first, t), MemberTable(prefix, members));
  }

  /** Rewriting twice changes nothing more. */
  lemma RewriteIdempotent(src: string, prefix: string, members: seq<SubCrate>)
    requires Separated(prefix, members)
    ensures var t := MemberTable(prefix, members); MapRuns(MapRuns(src, t), t) == MapRuns(src, t)
  {
    var t := MemberTable(prefix, members);
    TableKeys(prefix, members);
    MapRunsCompose(src, t, t);
    forall w | IsWord(w)
      ensures Lookup(Then(t, t), w) == Lookup(t, w)
    {
      MapWord(w, t);
      if w in t {
        var m :| m in members && w == LibIdent(m) && t[w] == ModPath(prefix, m);
        ModPathStable(prefix, m, t);
      }
    }
    MapRunsAgree(src, Then(t, t), t);
  }

  /** The order in which the members are listed does not matter. */
  lemma RewriteOrderIndependent(src: string, prefix: string, xs: seq<SubCrate>, ys: seq<SubCrate>)
    requires forall m :: m in xs <==> m in ys
    requires forall m, n :: m in xs && n in xs && LibIdent(m) == LibIdent(n) ==> m == n
    ensures MapRuns(src, MemberTable(prefix, xs)) == MapRuns(src, MemberTable(prefix, ys))
  {
    TableKeys(prefix, xs);
    TableKeys(prefix, ys);
    var t, u := MemberTable(prefix, xs), MemberTable(prefix, ys);
    forall w
      ensures Lookup(t, w) == Lookup(u, w)
    {
      if w in t || w in u {
        var m :| m in xs && w == LibIdent(m);
        assert w in t && w in u;
      }
    }
    MapRunsAgree(src, t, u);
  }

  /** The table sends the identifier of each member, its package name with underscores, to the
      member's module below the prefix, and nothing else. */
  lemma {:induction false} TableMeans(prefix: string, members: seq<SubCrate>, w: string)
    requires forall m, n :: m in members && n in members && LibIdent(m) == LibIdent(n) ==> m == n
    ensures w in MemberTable(prefix, members) <==> exists m :: m in members && Underscored(m.package) == w
    ensures forall m :: m in members && Underscored(m.package) == w ==>
              w in MemberTable(prefix, members) && MemberTable(prefix, members)[w] == prefix + "::" + m.modName
    decreases |members|
  {
    hide Underscored;
    if members != [] {
      var rest := members[1..];
      assert forall m :: m in members <==> m == members[0] || m in rest;
      TableMeans(prefix, rest, w);
    }
  }
}
