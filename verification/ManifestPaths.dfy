/** Path values in manifests: a crate directory whose last segment is `codex-*` is renamed
    when it is copied, and every path value that leads to it has to lead to the new place. */
module ManifestPaths {
  import opened Text
  import opened Wrappers
  import opened ManifestStrings

  /** A path as its `/`-separated segments. */
  function Segments(s: string): (segs: seq<string>)
    ensures segs != []
    decreases |s|
  {
    var k := LeafStart(s);
    if k == 0 then [s] else Segments(s[..k - 1]) + [s[k..]]
  }

  function JoinSlash(segs: seq<string>): string {
    if segs == [] then ""
    else if |segs| == 1 then segs[0]
    else JoinSlash(segs[..|segs| - 1]) + ("/" + segs[|segs| - 1])
  }

  /** Only the last segment takes part in the renaming. */
  function RenameLeaf(segs: seq<string>): seq<string> {
    if segs == [] then [] else segs[..|segs| - 1] + [RenamePackage(segs[|segs| - 1])]
  }

  ghost predicate SlashFree(s: string) { forall i :: 0 <= i < |s| ==> s[i] != '/' }

  /** An ordinary segment: no separator, not empty, not `.` and not `..`. */
  ghost predicate IsName(s: string) { SlashFree(s) && s != "" && s != "." && s != ".." }

  ghost predicate AllNames(segs: seq<string>) { forall i :: 0 <= i < |segs| ==> IsName(segs[i]) }

  /** Lexical resolution of a relative path from a directory; None above the root. */
  function Resolve(dir: seq<string>, rel: seq<string>): Option<seq<string>>
    decreases |rel|
  {
    if rel == [] then Some(dir)
    else if rel[0] == ".." then if dir == [] then None else Resolve(dir[..|dir| - 1], rel[1..])
    else if rel[0] == "" || rel[0] == "." then Resolve(dir, rel[1..])
    else Resolve(dir + [rel[0]], rel[1..])
  }

  /** The place a path value in the manifest of crate directory `dir` leads to. */
  function Place(dir: string, value: string): Option<string> {
    match Resolve(Segments(dir), Segments(value))
    case Some(segs) => Some(JoinSlash(segs))
    case None => None
  }

  // ----- segments and text -----

  lemma {:induction false} LeafSpec(s: string)
    ensures var k := LeafStart(s); SlashFree(s[k..]) && (k == 0 || s[k - 1] == '/')
    decreases |s|
  {
    if s != "" && s[|s| - 1] != '/' {
      var n := |s| - 1;
      LeafSpec(s[..n]);
      var k := LeafStart(s);
      assert s[k..] == s[..n][k..] + [s[n]];
    }
  }

  lemma {:induction false} LeafOf(a: string, leaf: string)
    requires SlashFree(leaf) && (a == "" || a[|a| - 1] == '/')
    ensures LeafStart(a + leaf) == |a|
    decreases |leaf|
  {
    var s := a + leaf;
    if leaf == "" {
      assert s == a;
    } else {
      var n := |leaf| - 1;
      assert s[..|s| - 1] == a + leaf[..n];
      LeafOf(a, leaf[..n]);
    }
  }

  lemma SegmentsSnoc(a: string, leaf: string)
    requires SlashFree(leaf)
    ensures Segments(a + ("/" + leaf)) == Segments(a) + [leaf]
  {
    var s := a + ("/" + leaf);
    assert s == (a + "/") + leaf;
    LeafOf(a + "/", leaf);
    assert s[..|a|] == a && s[|a| + 1..] == leaf;
  }

  lemma SegmentsOne(leaf: string)
    requires SlashFree(leaf)
    ensures Segments(leaf) == [leaf]
  {
    assert "" + leaf == leaf;
    LeafOf("", leaf);
  }

  lemma {:induction false} SegmentsOfJoin(segs: seq<string>)
    requires segs != [] && forall i :: 0 <= i < |segs| ==> SlashFree(segs[i])
    ensures Segments(JoinSlash(segs)) == segs
    decreases |segs|
  {
    hide Segments, LeafStart;
    var n := |segs| - 1;
    if n == 0 {
      SegmentsOne(segs[0]);
    } else {
      SegmentsOfJoin(segs[..n]);
      SegmentsSnoc(JoinSlash(segs[..n]), segs[n]);
    }
  }

  lemma {:induction false} JoinOfSegments(s: string)
    ensures JoinSlash(Segments(s)) == s
    ensures forall i :: 0 <= i < |Segments(s)| ==> SlashFree(Segments(s)[i])
    decreases |s|
  {
    var k := LeafStart(s);
    SegmentsSplit(s);
    hide Segments, LeafStart, SlashFree;
    if k == 0 {
      OneSlashFree(s);
    } else {
      var front := Segments(s[..k - 1]);
      JoinOfSegments(s[..k - 1]);
      JoinSnoc(front, s[k..]);
      SlashFreeSnoc(front, s[k..]);
    }
  }

  lemma SegmentsSplit(s: string)
    ensures var k := LeafStart(s);
            if k == 0 then Segments(s) == [s] && SlashFree(s) && JoinSlash([s]) == s
            else s == s[..k - 1] + ("/" + s[k..]) && SlashFree(s[k..]) && Segments(s) == Segments(s[..k - 1]) + [s[k..]]
  {
    LeafSpec(s);
    assert s[0..] == s;
  }

  lemma OneSlashFree(s: string)
    requires SlashFree(s)
    ensures forall i :: 0 <= i < |[s]| ==> SlashFree([s][i])
  {
    hide SlashFree;
  }

  lemma SlashFreeSnoc(segs: seq<string>, leaf: string)
    requires SlashFree(leaf) && forall i :: 0 <= i < |segs| ==> SlashFree(segs[i])
    ensures forall i :: 0 <= i < |segs + [leaf]| ==> SlashFree((segs + [leaf])[i])
  {
    hide SlashFree;
  }

  lemma JoinSnoc(segs: seq<string>, leaf: string)
    requires segs != []
    ensures JoinSlash(segs + [leaf]) == JoinSlash(segs) + ("/" + leaf)
  {
    assert (segs + [leaf])[..|segs|] == segs;
  }

  /** On a path that does not start with `./`, `dst_member_path` renames the last segment. */
  lemma DstSegments(s: string)
    requires !("./" <= s)
    ensures Segments(DstMemberPath(s)) == RenameLeaf(Segments(s))
  {
    var k := LeafStart(s);
    var leaf := s[k..];
    LeafSpec(s);
    var leaf' := RenamePackage(leaf);
    RenameSlashFree(leaf);
    if k == 0 {
      assert leaf == s && s[..0] + leaf' == leaf';
      SegmentsOne(leaf');
    } else {
      assert s[..k] + leaf' == s[..k - 1] + ("/" + leaf');
      SegmentsSnoc(s[..k - 1], leaf');
      assert Segments(s)[..|Segments(s)| - 1] == Segments(s[..k - 1]);
    }
  }

  lemma RenameSlashFree(leaf: string)
    requires SlashFree(leaf)
    ensures SlashFree(RenamePackage(leaf))
  {
    if "codex-" <= leaf {
      assert SlashFree(leaf[6..]);
      assert SlashFree("lemurclaw-");
    }
  }

  lemma RenameName(leaf: string)
    requires IsName(leaf)
    ensures IsName(RenamePackage(leaf))
  {
    RenameSlashFree(leaf);
    if "codex-" <= leaf {
      assert |RenamePackage(leaf)| > 2;
    }
  }

  // ----- resolution -----

  function Ups(k: nat): seq<string> { if k == 0 then [] else [".."] + Ups(k - 1) }

  /** A relative path of `k` times `..` and then names. */
  function UpAndDown(k: nat, names: seq<string>): seq<string> { Ups(k) + names }

  lemma {:induction false} ResolveNames(dir: seq<string>, names: seq<string>)
    requires AllNames(names)
    ensures Resolve(dir, names) == Some(dir + names)
    decreases |names|
  {
    if names == [] {
      assert dir + [] == dir;
    } else {
      ResolveNames(dir + [names[0]], names[1..]);
      assert dir + names == dir + [names[0]] + names[1..];
    }
  }

  lemma {:induction false} ResolveUps(dir: seq<string>, k: nat, names: seq<string>)
    requires AllNames(names)
    ensures Resolve(dir, UpAndDown(k, names)) == if k <= |dir| then Some(dir[..|dir| - k] + names) else None
    decreases k
  {
    var rel := UpAndDown(k, names);
    if k == 0 {
      assert rel == names && dir[..|dir|] == dir;
      ResolveNames(dir, names);
    } else {
      assert rel[0] == ".." && rel[1..] == UpAndDown(k - 1, names);
      if dir != [] {
        ResolveUps(dir[..|dir| - 1], k - 1, names);
        if k <= |dir| { assert dir[..|dir| - 1][..|dir| - k] == dir[..|dir| - k]; }
      }
    }
  }

  /** The last segment is one that is renamed. */
  predicate CodexLeaf(segs: seq<string>) { segs != [] && "codex-" <= segs[|segs| - 1] }

  lemma LeafRenamed(segs: seq<string>)
    ensures RenameLeaf(segs) == segs <==> !CodexLeaf(segs)
  {
    if segs != [] {
      var n := |segs| - 1;
      RenamedDiffers(segs[n]);
      assert segs == segs[..n] + [segs[n]];
      assert RenameLeaf(segs)[n] == RenamePackage(segs[n]);
    }
  }

  lemma RenamedDiffers(leaf: string)
    ensures RenamePackage(leaf) == leaf <==> !("codex-" <= leaf)
  {
    assert "codex-"[0] == 'c' && "lemurclaw-"[0] == 'l';
    if "codex-" <= leaf { assert RenamePackage(leaf)[0] == 'l' && leaf[0] == 'c'; }
  }

  /** The rewritten value starts with `codex-` and has more than one segment: then the first
      segment is renamed, not the last. */
  predicate HeadRenamed(dotted: bool, k: nat, names: seq<string>) {
    !dotted && k == 0 && |names| > 1 && "codex-" <= names[0]
  }

  /** The segments of the rewritten value, a leading `./` aside. */
  function NewRel(dotted: bool, k: nat, names: seq<string>): seq<string> {
    if HeadRenamed(dotted, k, names) then [RenamePackage(names[0])] + names[1..] else RenameLeaf(UpAndDown(k, names))
  }

  /** When a path value still leads to its target. A path that goes up and down again always
      does. One that only goes down does not from a renamed crate directory, and not if its
      first segment is renamed for its last. One that only goes up does not if it leads to a
      renamed directory. */
  predicate Follows(dir: seq<string>, dotted: bool, k: nat, names: seq<string>) {
    if names == [] then k > |dir| || !CodexLeaf(dir[..|dir| - k])
    else k >= 1 || (!CodexLeaf(dir) && !HeadRenamed(dotted, k, names))
  }

  function MapLeaf(t: Option<seq<string>>): Option<seq<string>> {
    match t
    case Some(segs) => Some(RenameLeaf(segs))
    case None => None
  }

  lemma DownOnly(dir: seq<string>, dotted: bool, names: seq<string>)
    requires AllNames(names) && names != []
    ensures Resolve(RenameLeaf(dir), NewRel(dotted, 0, names)) == Some(RenameLeaf(dir + names))
       <==> !CodexLeaf(dir) && !HeadRenamed(dotted, 0, names)
  {
    var rel := NewRel(dotted, 0, names);
    assert UpAndDown(0, names) == names;
    RenameNames(names);
    RenamedNames(names);
    ResolveNames(RenameLeaf(dir), rel);
    RenameLeafBehind(dir, names);
    LeafRenamed(dir);
    var got, want := RenameLeaf(dir) + rel, dir + RenameLeaf(names);
    if HeadRenamed(dotted, 0, names) {
      RenamedDiffers(names[0]);
      assert got[|dir|] == RenamePackage(names[0]) && want[|dir|] == names[0];
    } else if got == want {
      assert got[..|dir|] == RenameLeaf(dir) && want[..|dir|] == dir;
    }
  }

  lemma RenamedNames(names: seq<string>)
    requires AllNames(names) && names != []
    ensures AllNames([RenamePackage(names[0])] + names[1..])
  {
    RenameName(names[0]);
    hide IsName, RenamePackage;
  }

  lemma UpsKept(k: nat)
    requires k >= 1
    ensures RenameLeaf(UpAndDown(k, [])) == UpAndDown(k, [])
  {
    LastUp(k);
    LeafRenamed(UpAndDown(k, []));
    assert "codex-"[0] == 'c' && ".."[0] == '.';
  }

  lemma {:induction false} LastUp(k: nat)
    requires k >= 1
    ensures Ups(k) + [] == Ups(k) && |Ups(k)| == k && Ups(k)[k - 1] == ".."
  {
    if k > 1 { LastUp(k - 1); }
  }

  /** Renaming and resolving commute exactly under that condition. */
  lemma ResolveRenamed(dir: seq<string>, dotted: bool, k: nat, names: seq<string>)
    requires AllNames(names) && k + |names| >= 1
    ensures Resolve(RenameLeaf(dir), NewRel(dotted, k, names)) == MapLeaf(Resolve(dir, UpAndDown(k, names)))
       <==> Follows(dir, dotted, k, names)
  {
    if k == 0 {
      ResolveUps(dir, 0, names);
      assert dir[..|dir|] == dir;
      DownOnly(dir, dotted, names);
    } else if names == [] {
      UpOnly(dir, k);
    } else {
      UpThenDown(dir, k, names);
    }
  }

  lemma UpOnly(dir: seq<string>, k: nat)
    requires k >= 1
    ensures Resolve(RenameLeaf(dir), RenameLeaf(UpAndDown(k, []))) == MapLeaf(Resolve(dir, UpAndDown(k, [])))
       <==> k > |dir| || !CodexLeaf(dir[..|dir| - k])
  {
    UpsKept(k);
    RenameLength(dir);
    UpTo(dir, k);
    UpTo(RenameLeaf(dir), k);
    if k <= |dir| {
      AboveLeaf(dir, k);
      LeafRenamed(dir[..|dir| - k]);
    }
    hide UpAndDown, Resolve, RenamePackage, CodexLeaf, RenameLeaf;
  }

  lemma UpTo(dir: seq<string>, k: nat)
    ensures Resolve(dir, UpAndDown(k, [])) == if k <= |dir| then Some(dir[..|dir| - k]) else None
  {
    ResolveUps(dir, k, []);
    hide Resolve, UpAndDown;
    if k <= |dir| { assert dir[..|dir| - k] + [] == dir[..|dir| - k]; }
  }

  /** Renaming the last segment does not show further up. */
  lemma AboveLeaf(dir: seq<string>, k: nat)
    requires 1 <= k <= |dir|
    ensures |RenameLeaf(dir)| == |dir| && RenameLeaf(dir)[..|dir| - k] == dir[..|dir| - k]
  {
    hide RenamePackage;
  }

  lemma UpThenDown(dir: seq<string>, k: nat, names: seq<string>)
    requires AllNames(names) && names != [] && k >= 1
    ensures Resolve(RenameLeaf(dir), RenameLeaf(UpAndDown(k, names))) == MapLeaf(Resolve(dir, UpAndDown(k, names)))
  {
    RenameNames(names);
    RenameLeafBehind(Ups(k), names);
    hide AllNames, Resolve, RenamePackage;
    ResolveUps(dir, k, names);
    ResolveUps(RenameLeaf(dir), k, RenameLeaf(names));
    if k <= |dir| {
      var base := dir[..|dir| - k];
      AboveLeaf(dir, k);
      hide RenameLeaf, Ups;
      RenameLeafBehind(base, names);
    }
  }

  lemma RenameNames(names: seq<string>)
    requires AllNames(names) && names != []
    ensures AllNames(RenameLeaf(names))
  {
    RenameName(names[|names| - 1]);
    hide IsName, RenamePackage;
  }

  lemma RenameLeafBehind(base: seq<string>, names: seq<string>)
    requires names != []
    ensures RenameLeaf(base + names) == base + RenameLeaf(names)
  {
    hide RenamePackage;
    assert (base + names)[..|base + names| - 1] == base + names[..|names| - 1];
  }

  // ----- the text of a value -----

  /** The segments of a value: perhaps a `.`, then upward steps, then names. */
  function ValueSegments(dotted: bool, k: nat, names: seq<string>): seq<string> {
    (if dotted then ["."] else []) + UpAndDown(k, names)
  }

  ghost predicate AllSlashFree(segs: seq<string>) { forall i :: 0 <= i < |segs| ==> SlashFree(segs[i]) }

  lemma {:induction false} UpsSlashFree(k: nat, names: seq<string>)
    requires AllNames(names)
    ensures AllSlashFree(UpAndDown(k, names))
    ensures k >= 1 ==> UpAndDown(k, names)[0] == ".."
    ensures k == 0 ==> UpAndDown(k, names) == names
    ensures |UpAndDown(k, names)| == k + |names|
    decreases k
  {
    if k > 0 {
      UpsSlashFree(k - 1, names);
      UpMore(k, names);
      UpBefore(UpAndDown(k - 1, names));
    }
  }

  lemma UpMore(k: nat, names: seq<string>)
    requires k > 0
    ensures UpAndDown(k, names) == [".."] + UpAndDown(k - 1, names)
  {}

  lemma UpBefore(segs: seq<string>)
    requires AllSlashFree(segs)
    ensures AllSlashFree([".."] + segs)
  {}

  lemma {:induction false} JoinCons(first: string, segs: seq<string>)
    requires segs != []
    ensures JoinSlash([first] + segs) == first + ("/" + JoinSlash(segs))
    decreases |segs|
  {
    var n := |segs| - 1;
    var all := [first] + segs;
    assert all[..n + 1] == [first] + segs[..n];
    if n == 0 {
      assert all[..1] == [first];
    } else {
      JoinCons(first, segs[..n]);
      Glue(first, "/" + JoinSlash(segs[..n]), "/" + segs[n]);
      Glue("/", JoinSlash(segs[..n]), "/" + segs[n]);
    }
  }

  /** No segment list of a value without a leading `.` reads as one with it. */
  lemma NoDot(value: string)
    requires Segments(value)[0] == ".." || IsName(Segments(value)[0])
    ensures !("./" <= value)
  {
    JoinOfSegments(value);
    JoinStarts(Segments(value));
    if Segments(value)[0] == ".." {
      assert value[1] == '.' && "./"[1] == '/';
    } else {
      NoDotStart(value, Segments(value)[0]);
    }
  }

  /** A value with a leading `./` loses it, and its last segment is renamed. */
  lemma DottedValue(value: string, rel: seq<string>)
    requires Segments(value) == ["."] + rel && rel != [] && AllSlashFree(rel) && (rel[0] == ".." || IsName(rel[0]))
    ensures Segments(Value(value)) == RenameLeaf(rel)
  {
    var tail := JoinSlash(rel);
    DottedText(value, rel);
    SegmentsOfJoin(rel);
    hide Segments, JoinSlash, SlashFree, IsName;
    NoDot(tail);
    DstSegments(tail);
    WithoutDot(tail);
    RenameLength(rel);
    hide DstMemberPath, RenameLeaf;
    assert |Segments(DstMemberPath(value))| == |rel| < |Segments(value)|;
    assert DstMemberPath(value) != value;
    DottedChanged(value);
  }

  lemma RenameLength(segs: seq<string>)
    ensures |RenameLeaf(segs)| == |segs|
  {}

  lemma DottedText(value: string, rel: seq<string>)
    requires Segments(value) == ["."] + rel && rel != []
    ensures value == "./" + JoinSlash(rel)
  {
    JoinOfSegments(value);
    JoinCons(".", rel);
    hide Segments, JoinSlash;
    Glue(".", "/", JoinSlash(rel));
    assert "." + "/" == "./";
  }

  lemma WithoutDot(tail: string)
    requires !("./" <= tail)
    ensures DstMemberPath("./" + tail) == DstMemberPath(tail)
  {
    var value := "./" + tail;
    assert value[..2] == "./" && value[2..] == tail;
    assert StripDot(value) == tail && StripDot(tail) == tail;
    hide StripDot, LeafStart, RenamePackage;
  }

  lemma DottedChanged(value: string)
    requires "./" <= value && DstMemberPath(value) != value
    ensures Value(value) == DstMemberPath(value)
  {
    assert value[0] == '.' && value[1] == '/' && "codex-"[0] == 'c';
    hide DstMemberPath;
  }

  /** A value that does not start with `codex-` has its last segment renamed. */
  lemma PlainValue(value: string)
    requires !("codex-" <= value) && (Segments(value)[0] == ".." || IsName(Segments(value)[0]))
    ensures Segments(Value(value)) == RenameLeaf(Segments(value))
  {
    hide DstMemberPath, Segments, IsName, RenameLeaf;
    NoDot(value);
    DstSegments(value);
    if '/' !in value {
      SegmentsOne(value);
      LeafPlain(value);
    }
  }

  lemma LeafPlain(value: string)
    requires !("codex-" <= value)
    ensures RenameLeaf([value]) == [value]
  {}

  /** A value that starts with `codex-` is renamed there. */
  lemma CodexValue(value: string, names: seq<string>)
    requires Segments(value) == names && AllNames(names) && "codex-" <= names[0]
    ensures "codex-" <= value && Segments(Value(value)) == [RenamePackage(names[0])] + names[1..]
  {
    var first, rest := names[0], names[1..];
    JoinOfSegments(value);
    JoinStarts(names);
    assert first <= value;
    var renamed := [RenamePackage(first)] + rest;
    assert names == [first] + rest;
    RenamedNames(names);
    SegmentsOfJoin(renamed);
    if rest != [] {
      JoinCons(first, rest);
      JoinCons(RenamePackage(first), rest);
      RenameHead(first, "/" + JoinSlash(rest));
    }
    assert RenamePackage(value) == JoinSlash(renamed);
    hide Segments, JoinSlash, RenamePackage;
  }

  lemma RenameHead(first: string, rest: string)
    requires "codex-" <= first
    ensures RenamePackage(first + rest) == RenamePackage(first) + rest
  {
    assert (first + rest)[6..] == first[6..] + rest;
    Glue("lemurclaw-", first[6..], rest);
  }

  lemma CodexHead(value: string, first: string)
    requires first <= value && SlashFree(first) && "codex-" <= value && (|first| < |value| ==> value[|first|] == '/')
    ensures "codex-" <= first
  {
    assert forall i :: 0 <= i < 6 ==> "codex-"[i] != '/';
    assert forall i :: 0 <= i < 6 ==> value[i] == "codex-"[i];
  }

  lemma LeafOne(name: string)
    ensures RenameLeaf([name]) == [RenamePackage(name)] + []
  {
    assert [name][..0] == [];
  }

  /** The segments of the rewritten value. */
  lemma NewSegments(value: string, dotted: bool, k: nat, names: seq<string>)
    requires Segments(value) == ValueSegments(dotted, k, names) && AllNames(names) && k + |names| >= 1
    ensures Segments(Value(value)) == NewRel(dotted, k, names)
  {
    hide UpAndDown, Segments, Value, RenameLeaf, RenamePackage, IsName, SlashFree, AllSlashFree;
    var rel := UpAndDown(k, names);
    UpsSlashFree(k, names);
    assert [] + rel == rel;
    if dotted {
      DottedValue(value, rel);
    } else if k == 0 && "codex-" <= names[0] {
      CodexValue(value, names);
      if |names| == 1 {
        LeafOne(names[0]);
        assert names == [names[0]] && names[1..] == [];
      }
    } else {
      NoCodexStart(value, k, names);
      PlainValue(value);
    }
  }

  lemma NoCodexStart(value: string, k: nat, names: seq<string>)
    requires Segments(value) == UpAndDown(k, names) && AllNames(names) && k + |names| >= 1
    requires k == 0 ==> !("codex-" <= names[0])
    ensures !("codex-" <= value)
  {
    var rel := UpAndDown(k, names);
    UpsSlashFree(k, names);
    if k == 0 {
      NoCodexDown(value, names);
    } else {
      JoinOfSegments(value);
      JoinStarts(rel);
      hide Segments, JoinSlash, UpAndDown;
      assert "codex-"[0] == 'c' && value[0] == ".."[0] == '.';
    }
  }

  lemma NoCodexDown(value: string, names: seq<string>)
    requires Segments(value) == names && AllNames(names) && !("codex-" <= names[0])
    ensures !("codex-" <= value)
  {
    var first, rest := names[0], names[1..];
    hide Segments;
    hide SlashFree, JoinSlash;
    JoinOfSegments(value);
    assert names == [first] + rest && IsName(names[0]);
    if rest == [] {
      JoinOne(first);
    } else {
      JoinCons(first, rest);
      if "codex-" <= value { CodexHead(value, first); }
    }
  }

  lemma JoinOne(first: string)
    ensures JoinSlash([first]) == first
  {}

  lemma {:induction false} JoinStarts(segs: seq<string>)
    requires segs != []
    ensures segs[0] <= JoinSlash(segs)
    decreases |segs|
  {
    if |segs| > 1 { JoinStarts(segs[..|segs| - 1]); }
  }

  lemma ResolveDot(dir: seq<string>, dotted: bool, k: nat, names: seq<string>)
    ensures Resolve(dir, ValueSegments(dotted, k, names)) == Resolve(dir, UpAndDown(k, names))
  {
    var rel := UpAndDown(k, names);
    assert [] + rel == rel && (["."] + rel)[1..] == rel;
  }

  /** Renaming directories and rewriting path values: from the renamed crate directory, the
      rewritten value leads to the renamed target of the original value if and only if the
      condition above holds. */
  lemma PathsFollowDirectories(dir: string, value: string, dotted: bool, k: nat, names: seq<string>)
    requires AllNames(Segments(dir)) && AllNames(names) && k + |names| >= 1
    requires Segments(value) == ValueSegments(dotted, k, names)
    ensures Place(DstMemberPath(dir), Value(value))
         == (match Place(dir, value) case Some(p) => Some(DstMemberPath(p)) case None => None)
       <==> Follows(Segments(dir), dotted, k, names)
  {
    var d, rel := Segments(dir), UpAndDown(k, names);
    RenamedDir(dir);
    NewSegments(value, dotted, k, names);
    ResolveDot(d, dotted, k, names);
    ResolveRenamed(d, dotted, k, names);
    hide Segments, JoinSlash, Resolve, DstMemberPath, Value, UpAndDown, RenameLeaf, NewRel, Follows, AllNames, ValueSegments;
    var got, target := Resolve(RenameLeaf(d), NewRel(dotted, k, names)), Resolve(d, rel);
    if target.Some? {
      TargetNames(d, k, names);
      TargetText(target.value);
      if got.Some? {
        GotNames(d, dotted, k, names);
        JoinInjective(got.value, RenameLeaf(target.value));
      }
    }
  }

  /** Below a crate directory that is renamed, a value that only goes down is led astray. */
  lemma BelowRenamedDir(dir: string, value: string, names: seq<string>)
    requires AllNames(Segments(dir)) && CodexLeaf(Segments(dir))
    requires AllNames(names) && names != [] && Segments(value) == names
    ensures Place(dir, value) == Some(JoinSlash(Segments(dir) + names))
    ensures Place(DstMemberPath(dir), Value(value)) != Some(DstMemberPath(JoinSlash(Segments(dir) + names)))
  {
    var d := Segments(dir);
    assert UpAndDown(0, names) == names && [] + names == names;
    ResolveNames(d, names);
    PathsFollowDirectories(dir, value, false, 0, names);
    hide Segments, JoinSlash, Resolve, DstMemberPath, Value, UpAndDown, AllNames;
  }

  lemma TargetNames(d: seq<string>, k: nat, names: seq<string>)
    requires AllNames(d) && AllNames(names) && Resolve(d, UpAndDown(k, names)).Some?
    ensures var t := Resolve(d, UpAndDown(k, names)).value; AllNames(t) && AllNames(RenameLeaf(t))
  {
    hide IsName;
    ResolveUps(d, k, names);
    var t := Resolve(d, UpAndDown(k, names)).value;
    assert AllNames(t);
    if t != [] { RenameNames(t); }
  }

  lemma LeafNames(d: seq<string>)
    requires AllNames(d)
    ensures AllNames(RenameLeaf(d))
  {
    if d != [] { RenameNames(d); }
  }

  lemma GotNames(d: seq<string>, dotted: bool, k: nat, names: seq<string>)
    requires AllNames(d) && AllNames(names) && k + |names| >= 1 && Resolve(RenameLeaf(d), NewRel(dotted, k, names)).Some?
    ensures AllNames(Resolve(RenameLeaf(d), NewRel(dotted, k, names)).value)
  {
    hide IsName, Resolve, RenameLeaf, RenamePackage, Ups;
    var d' := RenameLeaf(d);
    LeafNames(d);
    if HeadRenamed(dotted, k, names) {
      RenamedNames(names);
      ResolveNames(d', NewRel(dotted, k, names));
    } else if names == [] {
      UpsKept(k);
      ResolveUps(d', k, []);
    } else {
      RenameNames(names);
      RenameLeafBehind(Ups(k), names);
      ResolveUps(d', k, RenameLeaf(names));
    }
  }

  lemma JoinInjective(a: seq<string>, b: seq<string>)
    requires AllNames(a) && AllNames(b)
    ensures JoinSlash(a) == JoinSlash(b) <==> a == b
  {
    if a != [] {
      SegmentsOfJoin(a);
      JoinStarts(a);
    }
    if b != [] {
      SegmentsOfJoin(b);
      JoinStarts(b);
    }
    hide JoinSlash, Segments;
    assert a != [] ==> a[0] != "";
    assert b != [] ==> b[0] != "";
    assert JoinSlash([]) == "" by { JoinNone(); }
  }

  lemma JoinNone()
    ensures JoinSlash([]) == ""
  {}

  lemma RenamedDir(dir: string)
    requires AllNames(Segments(dir))
    ensures Segments(DstMemberPath(dir)) == RenameLeaf(Segments(dir)) && Segments(dir) != []
  {
    JoinOfSegments(dir);
    JoinStarts(Segments(dir));
    NoDotStart(dir, Segments(dir)[0]);
    DstSegments(dir);
  }

  lemma TargetText(t: seq<string>)
    requires AllNames(t)
    ensures DstMemberPath(JoinSlash(t)) == JoinSlash(RenameLeaf(t))
  {
    if t == [] { return; }
    var p := JoinSlash(t);
    SegmentsOfJoin(t);
    JoinStarts(t);
    NoDotStart(p, t[0]);
    DstSegments(p);
    JoinOfSegments(DstMemberPath(p));
  }

  lemma NoDotStart(p: string, first: string)
    requires IsName(first) && first <= p
    ensures !("./" <= p)
  {
    assert "./"[0] == '.' && "./"[1] == '/';
    assert p[0] == first[0];
    if |first| == 1 { assert first == [first[0]]; } else { assert p[1] == first[1]; }
  }

  // ----- the workspace manifest -----

  /** A workspace dependency: its key and, for a path dependency, the path. */
  datatype Dep = Dep(key: string, path: Option<string>)

  /** The source members that are published, in order and under their new paths. */
  function KeptMembers(srcMembers: seq<string>, keep: seq<string>): seq<string> {
    if srcMembers == [] then []
    else
      var dst := DstMemberPath(srcMembers[0]);
      (if dst in keep then [dst] else []) + KeptMembers(srcMembers[1..], keep)
  }

  predicate KeptDep(d: Dep, keep: seq<string>) { d.path.Some? ==> DstMemberPath(d.path.value) in keep }

  function EmittedDep(d: Dep): Dep {
    Dep(RenamePackage(d.key), match d.path case Some(p) => Some(DstMemberPath(p)) case None => None)
  }

  /** The source's dependencies that are published, in order and renamed. */
  function KeptDeps(deps: seq<Dep>, keep: seq<string>): seq<Dep> {
    if deps == [] then []
    else (if KeptDep(deps[0], keep) then [EmittedDep(deps[0])] else []) + KeptDeps(deps[1..], keep)
  }

  /** Entry by entry: a dependency without a path always stays, one with a path stays if its
      new path is kept, and its key is renamed as a package. */
  lemma DepSpelled(d: Dep, rest: seq<Dep>, keep: seq<string>)
    ensures var key := if "codex-" <= d.key then "lemurclaw-" + d.key[6..] else d.key;
            KeptDeps([d] + rest, keep)
            == (match d.path
                case None => [Dep(key, None)]
                case Some(p) => if DstMemberPath(p) in keep then [Dep(key, Some(DstMemberPath(p)))] else [])
               + KeptDeps(rest, keep)
  {
    hide DstMemberPath;
    assert ([d] + rest)[1..] == rest;
  }

  lemma MemberSpelled(m: string, rest: seq<string>, keep: seq<string>)
    ensures KeptMembers([m] + rest, keep)
         == (if DstMemberPath(m) in keep then [DstMemberPath(m)] else []) + KeptMembers(rest, keep)
    ensures KeptMembers([], keep) == []
  {
    hide DstMemberPath;
    assert ([m] + rest)[1..] == rest;
  }

  lemma {:induction false} KeptMembersSnoc(ms: seq<string>, m: string, keep: seq<string>)
    ensures KeptMembers(ms + [m], keep)
         == KeptMembers(ms, keep) + if DstMemberPath(m) in keep then [DstMemberPath(m)] else []
    decreases |ms|
  {
    hide DstMemberPath, KeptMembers;
    MemberSpelled(m, [], keep);
    if ms == [] {
      assert ms + [m] == [m] + [];
    } else {
      KeptMembersSnoc(ms[1..], m, keep);
      MemberSpelled(ms[0], ms[1..], keep);
      MemberSpelled(ms[0], ms[1..] + [m], keep);
      assert ms + [m] == [ms[0]] + (ms[1..] + [m]) && ms == [ms[0]] + ms[1..];
    }
  }

  lemma {:induction false} KeptDepsSnoc(ds: seq<Dep>, d: Dep, keep: seq<string>)
    ensures KeptDeps(ds + [d], keep) == KeptDeps(ds, keep) + if KeptDep(d, keep) then [EmittedDep(d)] else []
    decreases |ds|
  {
    hide KeptDep, EmittedDep, KeptDeps;
    KeptDepsCons(d, [], keep);
    if ds == [] {
      assert ds + [d] == [d] + [];
    } else {
      KeptDepsSnoc(ds[1..], d, keep);
      KeptDepsCons(ds[0], ds[1..], keep);
      KeptDepsCons(ds[0], ds[1..] + [d], keep);
      assert ds + [d] == [ds[0]] + (ds[1..] + [d]) && ds == [ds[0]] + ds[1..];
    }
  }

  lemma KeptDepsCons(d: Dep, rest: seq<Dep>, keep: seq<string>)
    ensures KeptDeps([d] + rest, keep) == (if KeptDep(d, keep) then [EmittedDep(d)] else []) + KeptDeps(rest, keep)
    ensures KeptDeps([], keep) == []
  {
    hide KeptDep, EmittedDep;
    assert ([d] + rest)[1..] == rest;
  }

  /** What `rewrite_workspace_manifest` writes under `members`. */
  method EmitMembers(srcMembers: seq<string>, keep: seq<string>, ownMembers: seq<string>) returns (members: seq<string>)
    ensures members == KeptMembers(srcMembers, keep) + ownMembers
  {
    hide DstMemberPath;
    members := [];
    for i := 0 to |srcMembers|
      invariant members == KeptMembers(srcMembers[..i], keep)
    {
      assert srcMembers[..i + 1] == srcMembers[..i] + [srcMembers[i]];
      KeptMembersSnoc(srcMembers[..i], srcMembers[i], keep);
      var dst := DstMemberPath(srcMembers[i]);
      if dst in keep {
        members := members + [dst];
      }
    }
    assert srcMembers[..|srcMembers|] == srcMembers;
    members := members + ownMembers;
  }

  /** What it writes as workspace dependencies: those of the source, then the toolkit's own
      crates by path, then the external ones these need. */
  method EmitDeps(deps: seq<Dep>, keep: seq<string>, ownDeps: seq<Dep>, externalDeps: seq<Dep>) returns (entries: seq<Dep>)
    ensures entries == KeptDeps(deps, keep) + ownDeps + externalDeps
  {
    hide KeptDep, EmittedDep;
    entries := [];
    for i := 0 to |deps|
      invariant entries == KeptDeps(deps[..i], keep)
    {
      assert deps[..i + 1] == deps[..i] + [deps[i]];
      KeptDepsSnoc(deps[..i], deps[i], keep);
      if KeptDep(deps[i], keep) {
        entries := entries + [EmittedDep(deps[i])];
      }
    }
    assert deps[..|deps|] == deps;
    entries := entries + ownDeps + externalDeps;
  }

  lemma {:induction false} InKeptMembers(ms: seq<string>, keep: seq<string>, m: string)
    ensures m in KeptMembers(ms, keep) <==> m in keep && exists s :: s in ms && DstMemberPath(s) == m
    decreases |ms|
  {
    hide DstMemberPath;
    if ms != [] {
      InKeptMembers(ms[1..], keep, m);
      assert forall s :: s in ms <==> s == ms[0] || s in ms[1..];
    }
  }

  lemma {:induction false} InKeptDeps(ds: seq<Dep>, keep: seq<string>, e: Dep)
    ensures e in KeptDeps(ds, keep) <==> exists d :: d in ds && KeptDep(d, keep) && EmittedDep(d) == e
    decreases |ds|
  {
    hide KeptDep, EmittedDep;
    if ds != [] {
      InKeptDeps(ds[1..], keep, e);
      assert forall d :: d in ds <==> d == ds[0] || d in ds[1..];
    }
  }

  /** A directory that is listed: one of the toolkit's own, or a source member's. */
  ghost predicate Listed(path: string, srcMembers: seq<string>, keep: seq<string>, ownMembers: seq<string>) {
    path in ownMembers || (path in keep && exists s :: s in srcMembers && DstMemberPath(s) == path)
  }

  /** Every path dependency of the manifest leads to one of its members, exactly when the
      toolkit's own paths are listed and every kept directory that a source dependency names
      is a source member's or one of the toolkit's own. */
  lemma PathDepsAreMembers(srcMembers: seq<string>, keep: seq<string>, ownMembers: seq<string>,
                           deps: seq<Dep>, ownDeps: seq<Dep>, externalDeps: seq<Dep>)
    requires forall e :: e in externalDeps ==> e.path.None?
    ensures var members := KeptMembers(srcMembers, keep) + ownMembers;
            var entries := KeptDeps(deps, keep) + ownDeps + externalDeps;
            (forall e :: e in entries && e.path.Some? ==> e.path.value in members)
            <==> (forall d :: d in deps && d.path.Some? && DstMemberPath(d.path.value) in keep ==>
                    Listed(DstMemberPath(d.path.value), srcMembers, keep, ownMembers))
                 && forall d :: d in ownDeps && d.path.Some? ==> Listed(d.path.value, srcMembers, keep, ownMembers)
  {
    var members := KeptMembers(srcMembers, keep) + ownMembers;
    var entries := KeptDeps(deps, keep) + ownDeps + externalDeps;
    hide DstMemberPath, RenamePackage, KeptMembers, KeptDeps;
    forall m
      ensures m in members <==> Listed(m, srcMembers, keep, ownMembers)
    {
      InKeptMembers(srcMembers, keep, m);
    }
    forall e
      ensures e in entries <==> e in ownDeps || e in externalDeps || exists d :: d in deps && KeptDep(d, keep) && EmittedDep(d) == e
    {
      InKeptDeps(deps, keep, e);
    }
    hide Listed;
    if forall e :: e in entries && e.path.Some? ==> e.path.value in members {
      forall d | d in deps && d.path.Some? && DstMemberPath(d.path.value) in keep
        ensures DstMemberPath(d.path.value) in members
      {
        assert EmittedDep(d) in entries;
      }
    }
  }
}
