/** Paths under the rules of the app-server's platform, which is told from the path itself.
    Joining a segment and splitting into components agree, as long as the joined path is
    still taken for a path of the same platform. */
module AppServerPath {

  predicate IsAlpha(c: char) { 'a' <= c <= 'z' || 'A' <= c <= 'Z' }

  predicate IsWindowsAbsolute(p: string) {
    || (|p| >= 3 && IsAlpha(p[0]) && p[1] == ':' && (p[2] == '\\' || p[2] == '/'))
    || (|p| >= 2 && p[0] == '\\' && p[1] == '\\')
    || (|p| >= 2 && p[0] == '/' && p[1] == '/')
  }

  predicate IsAbsolute(p: string) { (p != "" && p[0] == '/') || IsWindowsAbsolute(p) }

  predicate IsSep(c: char, windows: bool) { c == '/' || (windows && c == '\\') }

  /** `split`: the pieces between separators, empty ones included. */
  function Split(s: string, windows: bool): (pieces: seq<string>)
    ensures pieces != []
  {
    if s == "" then [""]
    else
      var rest := Split(s[1..], windows);
      if IsSep(s[0], windows) then [""] + rest else [[s[0]] + rest[0]] + rest[1..]
  }

  function NonEmpty(pieces: seq<string>): seq<string> {
    if pieces == [] then []
    else (if pieces[0] == "" then [] else [pieces[0]]) + NonEmpty(pieces[1..])
  }

  function Parts(s: string, windows: bool): seq<string> { NonEmpty(Split(s, windows)) }

  function Components(p: string): seq<string> { Parts(p, IsWindowsAbsolute(p)) }

  function TrimSeps(s: string, windows: bool): string {
    if s != "" && IsSep(s[|s| - 1], windows) then TrimSeps(s[..|s| - 1], windows) else s
  }

  function Separator(windows: bool): char { if windows then '\\' else '/' }

  function Join(p: string, segment: string): string {
    var windows := IsWindowsAbsolute(p);
    TrimSeps(p, windows) + [Separator(windows)] + segment
  }

  lemma {:induction false} NonEmptyConcat(a: seq<string>, b: seq<string>)
    ensures NonEmpty(a + b) == NonEmpty(a) + NonEmpty(b)
    decreases |a|
  {
    if a == [] {
      assert a + b == b;
    } else {
      assert (a + b)[1..] == a[1..] + b;
      NonEmptyConcat(a[1..], b);
    }
  }

  lemma {:induction false} SplitAtSep(a: string, c: char, b: string, windows: bool)
    requires IsSep(c, windows)
    ensures Split(a + [c] + b, windows) == Split(a, windows) + Split(b, windows)
    decreases |a|
  {
    var s := a + [c] + b;
    if a == "" {
      assert s[0] == c && s[1..] == b;
    } else {
      assert s[0] == a[0] && s[1..] == a[1..] + [c] + b;
      SplitAtSep(a[1..], c, b, windows);
      SplitStep(s, Split(a[1..], windows), Split(b, windows), windows);
    }
  }

  lemma SplitStep(s: string, x: seq<string>, y: seq<string>, windows: bool)
    requires s != "" && x != [] && Split(s[1..], windows) == x + y
    ensures Split(s, windows) == (if IsSep(s[0], windows) then [""] + x else [[s[0]] + x[0]] + x[1..]) + y
  {
    assert (x + y)[1..] == x[1..] + y;
  }

  lemma PartsAtSep(a: string, c: char, b: string, windows: bool)
    requires IsSep(c, windows)
    ensures Parts(a + [c] + b, windows) == Parts(a, windows) + Parts(b, windows)
  {
    SplitAtSep(a, c, b, windows);
    NonEmptyConcat(Split(a, windows), Split(b, windows));
  }

  lemma PartsEmpty(windows: bool)
    ensures Parts("", windows) == []
  {
    assert [""][1..] == [];
  }

  lemma {:induction false} TrimKeepsParts(s: string, windows: bool)
    ensures Parts(TrimSeps(s, windows), windows) == Parts(s, windows)
    decreases |s|
  {
    var n := |s| - 1;
    if s != "" && IsSep(s[n], windows) {
      TrimKeepsParts(s[..n], windows);
      assert s == s[..n] + [s[n]] + "";
      PartsAtSep(s[..n], s[n], "", windows);
      PartsEmpty(windows);
    }
  }

  /** Under either set of separators the joined path has the parts of both. */
  lemma JoinedParts(p: string, segment: string)
    ensures var w := IsWindowsAbsolute(p);
            Parts(Join(p, segment), w) == Components(p) + Parts(segment, w)
  {
    var w := IsWindowsAbsolute(p);
    TrimKeepsParts(p, w);
    PartsAtSep(TrimSeps(p, w), Separator(w), segment, w);
  }

  lemma {:induction false} TrimSpec(s: string, windows: bool)
    ensures TrimSeps(s, windows) <= s
    ensures var t := TrimSeps(s, windows);
            && (t != "" ==> !IsSep(t[|t| - 1], windows))
            && forall i :: |t| <= i < |s| ==> IsSep(s[i], windows)
    decreases |s|
  {
    var n := |s| - 1;
    if s != "" && IsSep(s[n], windows) {
      TrimSpec(s[..n], windows);
    }
  }

  lemma {:induction false} NoParts(s: string, windows: bool)
    ensures Parts(s, windows) == [] <==> forall i :: 0 <= i < |s| ==> IsSep(s[i], windows)
    decreases |s|
  {
    if s == "" {
      PartsEmpty(windows);
    } else {
      NoParts(s[1..], windows);
      var rest := Split(s[1..], windows);
      if !IsSep(s[0], windows) {
        assert Split(s, windows)[0] == [s[0]] + rest[0];
      } else {
        assert ([""] + rest)[1..] == rest;
        assert forall i :: 1 <= i < |s| ==> s[i] == s[1..][i - 1];
        assert forall i :: 0 <= i < |s[1..]| ==> s[1..][i] == s[i + 1];
      }
    }
  }

  /** When the joined path is taken for a path of the same platform. A path that is only
      separators has nothing left after trimming, and then the segment decides; a relative
      drive name turns into a Windows path. */
  predicate KeepsPlatform(p: string, segment: string) {
    var w := IsWindowsAbsolute(p);
    var t := TrimSeps(p, w);
    if t == "" then (segment != "" && segment[0] == Separator(w)) <==> w
    else !w ==> !(|t| == 2 && IsAlpha(t[0]) && t[1] == ':')
  }

  lemma PlatformKept(p: string, segment: string)
    ensures IsWindowsAbsolute(Join(p, segment)) == IsWindowsAbsolute(p) <==> KeepsPlatform(p, segment)
  {
    var w := IsWindowsAbsolute(p);
    var t, j := TrimSeps(p, w), Join(p, segment);
    TrimSpec(p, w);
    assert forall i :: 0 <= i < |t| ==> j[i] == t[i] == p[i];
    assert j[|t|] == Separator(w);
    assert segment != "" ==> j[|t| + 1] == segment[0];
  }

  /** Components of a joined path, for every absolute path with a component: those of the
      path, then the nonempty parts of the segment; and the platform stays the same. */
  lemma JoinComponents(p: string, segment: string)
    requires IsAbsolute(p) && Components(p) != []
    ensures IsWindowsAbsolute(Join(p, segment)) == IsWindowsAbsolute(p)
    ensures Components(Join(p, segment)) == Components(p) + Parts(segment, IsWindowsAbsolute(p))
  {
    var w := IsWindowsAbsolute(p);
    TrimSpec(p, w);
    NoParts(p, w);
    PlatformKept(p, segment);
    JoinedParts(p, segment);
  }

  /** Without a component it can fail: joining onto the root changes the platform when the
      segment starts with a slash. */
  lemma RootJoin(segment: string)
    ensures IsWindowsAbsolute(Join("/", segment)) <==> segment != "" && segment[0] == '/'
  {
    assert TrimSeps("/", false) == "" by { assert "/"[..0] == ""; }
    PlatformKept("/", segment);
  }

  // ----- spelled out -----

  /** Which paths are of the Windows kind: a drive letter, a colon and a separator, or two
      separators of one kind in front. */
  lemma WindowsPaths(drive: char, rest: string)
    ensures IsWindowsAbsolute([drive] + ":\\" + rest) <==> 'a' <= drive <= 'z' || 'A' <= drive <= 'Z'
    ensures IsWindowsAbsolute([drive] + ":/" + rest) <==> 'a' <= drive <= 'z' || 'A' <= drive <= 'Z'
    ensures IsWindowsAbsolute("\\\\" + rest) && IsWindowsAbsolute("//" + rest)
    ensures rest == "" || rest[0] != '/' ==> !IsWindowsAbsolute("/" + rest) && IsAbsolute("/" + rest)
  {
    assert ("/" + rest)[0] == '/';
    if rest != "" { assert ("/" + rest)[1] == rest[0]; }
  }

  /** Separators at the end of the path go, whatever their number, and one is put in front of
      the segment. */
  lemma JoinSpelled(p: string, seps: string, segment: string)
    requires IsWindowsAbsolute(p + seps) == IsWindowsAbsolute(p)
    requires p == "" || (p[|p| - 1] != '/' && (IsWindowsAbsolute(p) ==> p[|p| - 1] != '\\'))
    requires forall i :: 0 <= i < |seps| ==> seps[i] == '/' || (IsWindowsAbsolute(p) && seps[i] == '\\')
    ensures Join(p + seps, segment) == p + (if IsWindowsAbsolute(p) then "\\" else "/") + segment
  {
    TrimAll(p, seps, IsWindowsAbsolute(p));
  }

  lemma {:induction false} TrimAll(p: string, seps: string, windows: bool)
    requires p == "" || !IsSep(p[|p| - 1], windows)
    requires forall i :: 0 <= i < |seps| ==> IsSep(seps[i], windows)
    ensures TrimSeps(p + seps, windows) == p
    decreases |seps|
  {
    if seps == "" {
      assert p + seps == p;
    } else {
      var n := |seps| - 1;
      assert (p + seps)[|p| + n] == seps[n] && (p + seps)[..|p| + n] == p + seps[..n];
      TrimAll(p, seps[..n], windows);
    }
  }

  /** Pieces with separators between them. */
  function Separated(gaps: seq<string>, names: seq<string>): string
    requires |gaps| == |names| + 1
    decreases |names|
  {
    if names == [] then gaps[0] else gaps[0] + (names[0] + Separated(gaps[1..], names[1..]))
  }

  /** The components are the nonempty names between runs of separators. */
  lemma {:induction false} PartsSpelled(gaps: seq<string>, names: seq<string>, windows: bool)
    requires |gaps| == |names| + 1
    requires forall i, j :: 0 <= i < |gaps| && 0 <= j < |gaps[i]| ==> gaps[i][j] == '/' || (windows && gaps[i][j] == '\\')
    requires forall i :: 0 <= i < |names| ==> names[i] != ""
    requires forall i, j :: 0 <= i < |names| && 0 <= j < |names[i]| ==> names[i][j] != '/' && !(windows && names[i][j] == '\\')
    requires forall i :: 1 <= i < |names| ==> gaps[i] != ""
    ensures Parts(Separated(gaps, names), windows) == names
    decreases |names|
  {
    hide Parts, Split, NonEmpty;
    if names == [] {
      OnlySeps(gaps[0], "", windows);
      assert gaps[0] + "" == gaps[0];
      NoneLeft(windows);
    } else {
      var rest := Separated(gaps[1..], names[1..]);
      assert forall i :: 0 <= i < |gaps[1..]| ==> gaps[1..][i] == gaps[i + 1];
      assert forall i :: 0 <= i < |names[1..]| ==> names[1..][i] == names[i + 1];
      PartsSpelled(gaps[1..], names[1..], windows);
      OnlySeps(gaps[0], names[0] + rest, windows);
      if names[1..] == [] && gaps[1] == "" {
        assert rest == "" && names[0] + rest == names[0];
        OneName(names[0], windows);
        assert names == [names[0]];
      } else {
        assert rest != "" && rest[0] == gaps[1][0];
        NameThen(names[0], rest, windows);
        assert names == [names[0]] + names[1..];
      }
    }
  }

  lemma NoneLeft(windows: bool)
    ensures Parts("", windows) == []
  {
    assert [""][1..] == [];
    assert NonEmpty([""]) == [] + NonEmpty([]);
  }

  lemma {:induction false} OnlySeps(seps: string, rest: string, windows: bool)
    requires forall j :: 0 <= j < |seps| ==> IsSep(seps[j], windows)
    ensures Parts(seps + rest, windows) == Parts(rest, windows)
    decreases |seps|
  {
    if seps == "" {
      assert seps + rest == rest;
    } else {
      assert (seps + rest)[0] == seps[0] && (seps + rest)[1..] == seps[1..] + rest;
      OnlySeps(seps[1..], rest, windows);
      var more := Split(seps[1..] + rest, windows);
      assert ([""] + more)[1..] == more;
    }
  }

  lemma {:induction false} SplitName(name: string, windows: bool)
    requires forall j :: 0 <= j < |name| ==> !IsSep(name[j], windows)
    ensures Split(name, windows) == [name]
    decreases |name|
  {
    if name != "" {
      SplitName(name[1..], windows);
      assert name == [name[0]] + name[1..];
    }
  }

  lemma OneName(name: string, windows: bool)
    requires name != "" && forall j :: 0 <= j < |name| ==> !IsSep(name[j], windows)
    ensures Parts(name, windows) == [name]
  {
    SplitName(name, windows);
    assert [name][1..] == [];
    assert NonEmpty([name]) == [name] + NonEmpty([]) == [name];
  }

  lemma NameThen(name: string, rest: string, windows: bool)
    requires name != "" && forall j :: 0 <= j < |name| ==> !IsSep(name[j], windows)
    requires rest != "" && IsSep(rest[0], windows)
    ensures Parts(name + rest, windows) == [name] + Parts(rest, windows)
  {
    var tail := rest[1..];
    assert rest == [rest[0]] + tail;
    assert name + rest == name + [rest[0]] + tail;
    SplitAtSep(name, rest[0], tail, windows);
    NonEmptyConcat(Split(name, windows), Split(tail, windows));
    OnlySeps([rest[0]], tail, windows);
    OneName(name, windows);
  }
}
