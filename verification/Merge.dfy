/** Folding crates into modules of one crate: first `crate::X` gets the crate's own module as
    a prefix, then member identifiers become paths below `crate`; when paths keep meaning. */
module Merge {
  import opened Wrappers
  import opened Text
  import opened Idents

  const CRATE := "crate"
  const CRATE_PREFIX := "crate::"
  const MACRO_EXPORT := "feedback_tags"

  /** The members being folded in, and the crate they are folded into, if there is one.
      The host becomes a module as well but is not a member. */
  datatype Cluster = Cluster(members: seq<SubCrate>, host: seq<SubCrate>) {
    function Crates(): seq<SubCrate> { members + host }

    function ModuleNames(): set<string> { set m | m in members :: m.modName }
  }

  /** What `fix_self_refs_in_src` is told about the crate whose source it rewrites. */
  datatype Env = Env(modName: string, modules: set<string>, localMods: set<string>) {
    predicate IsSelf(segment: string) {
      (segment in localMods || segment !in modules || segment == modName) && segment != MACRO_EXPORT
    }
  }

  // ----- prefixing self references -----

  /** `s` goes on with `::` and an identifier. */
  predicate Continues(s: string) { |s| > 2 && s[0] == ':' && s[1] == ':' && IsIdent(s[2]) }

  /** A whole word `crate`, then `::`, then a segment that is a self reference; `prev`
      tells whether the byte before `s` is an identifier byte. */
  predicate SelfRefAt(prev: bool, s: string, env: Env) {
    && !prev && Run(s) == CRATE && Continues(AfterRun(s))
    && env.IsSelf(Run(AfterRun(s)[2..]))
  }

  function FixRefs(prev: bool, s: string, env: Env): string
    decreases |s|
  {
    if s == "" then ""
    else if SelfRefAt(prev, s, env) then
      var t := AfterRun(s)[2..];
      CRATE + "::" + env.modName + "::" + Run(t) + FixRefs(true, AfterRun(t), env)
    else [s[0]] + FixRefs(IsIdent(s[0]), s[1..], env)
  }

  /** `out` accounts for the first `i` bytes. */
  ghost predicate Fixed(src: string, i: nat, env: Env, out: string)
    requires i <= |src|
  {
    out + FixRefs(IdentBefore(src, i), src[i..], env) == FixRefs(false, src, env)
  }

  lemma FixByte(src: string, i: nat, env: Env, out: string)
    requires i < |src| && !SelfRefAt(IdentBefore(src, i), src[i..], env) && Fixed(src, i, env, out)
    ensures Fixed(src, i + 1, env, out + [src[i]])
  {
    assert src[i..][1..] == src[i + 1..];
    var tail := FixRefs(IdentBefore(src, i + 1), src[i + 1..], env);
    assert out + ([src[i]] + tail) == out + [src[i]] + tail;
  }

  lemma {:induction false} FixChar(src: string, i: nat, j: nat, env: Env, out: string)
    requires i < j <= |src| && !SelfRefAt(IdentBefore(src, i), src[i..], env) && Fixed(src, i, env, out)
    requires forall k :: i < k < j ==> IsContinuation(src[k])
    ensures Fixed(src, j, env, out + src[i..j])
    decreases j - i
  {
    FixByte(src, i, env, out);
    if i + 1 < j {
      assert src[i + 1..][0] == src[i + 1];
      NoRefHere(true, src[i + 1..], env);
      NoRefHere(false, src[i + 1..], env);
      FixChar(src, i + 1, j, env, out + [src[i]]);
      assert out + src[i..j] == out + [src[i]] + src[i + 1..j];
    } else {
      assert src[i..j] == [src[i]];
    }
  }

  lemma NoRefHere(prev: bool, s: string, env: Env)
    requires s == "" || !IsIdent(s[0])
    ensures !SelfRefAt(prev, s, env)
  {
    assert Run(s) == "";
  }

  lemma FixMatch(src: string, i: nat, j: nat, t: string, env: Env, out: string)
    requires i <= |src| && j <= |src|
    requires SelfRefAt(IdentBefore(src, i), src[i..], env) && Fixed(src, i, env, out)
    requires t == AfterRun(src[i..])[2..] && src[j..] == AfterRun(t) && IdentBefore(src, j)
    ensures Fixed(src, j, env, out + (CRATE + "::" + env.modName + "::" + Run(t)))
  {
    FixSelfStep(src[i..], env);
    FixedStep(src, i, j, env, out, CRATE + "::" + env.modName + "::" + Run(t));
  }

  lemma FixMatchAt(src: string, i: nat, j: nat, env: Env, out: string)
    requires i + 7 <= |src| && j == i + 7 + RunLen(src[i + 7..]) && j > i + 7
    requires SelfRefAt(IdentBefore(src, i), src[i..], env) && Fixed(src, i, env, out)
    requires AfterRun(src[i..])[2..] == src[i + 7..]
    ensures j <= |src| && Fixed(src, j, env, out + (CRATE + "::" + env.modName + "::" + src[i + 7..j]))
  {
    RunIndices(src, i + 7);
    FixMatch(src, i, j, src[i + 7..], env, out);
  }

  lemma FixedStep(src: string, i: nat, j: nat, env: Env, out: string, head: string)
    requires i <= |src| && j <= |src| && Fixed(src, i, env, out)
    requires FixRefs(IdentBefore(src, i), src[i..], env) == head + FixRefs(IdentBefore(src, j), src[j..], env)
    ensures Fixed(src, j, env, out + head)
  {
    Glue(out, head, FixRefs(IdentBefore(src, j), src[j..], env));
  }

  lemma FixSelfStep(s: string, env: Env)
    requires SelfRefAt(false, s, env)
    ensures var t := AfterRun(s)[2..];
            RunLen(t) > 0
            && FixRefs(false, s, env) == CRATE + "::" + env.modName + "::" + Run(t) + FixRefs(true, AfterRun(t), env)
  {}

  lemma RunIndices(src: string, k: nat)
    requires k <= |src|
    ensures var j := k + RunLen(src[k..]);
            && j <= |src| && src[j..] == AfterRun(src[k..]) && src[k..j] == Run(src[k..])
            && (j > k ==> IdentBefore(src, j))
  {
    var j := k + RunLen(src[k..]);
    RunSpec(src[k..]);
    if j > k { assert src[j - 1] == Run(src[k..])[j - 1 - k]; }
  }

  /** The byte comparison with `crate::` in terms of runs. */
  lemma CrateRun(s: string)
    requires CRATE_PREFIX <= s
    ensures Run(s) == CRATE && AfterRun(s) == s[5..]
    ensures Continues(s[5..]) <==> RunLen(s[7..]) > 0
    ensures s[5..][2..] == s[7..]
  {
    assert s[..5] == CRATE_PREFIX[..5] == CRATE;
    assert s[5] == CRATE_PREFIX[5] == ':' && s[6] == CRATE_PREFIX[6] == ':';
    WordIsRun(s, s[..5]);
  }

  lemma CrateBytes(s: string)
    requires Run(s) == CRATE && Continues(AfterRun(s))
    ensures CRATE_PREFIX <= s
  {
    assert s[..7] == CRATE + "::";
    assert CRATE + "::" == CRATE_PREFIX;
  }

  lemma PrefixHere(src: string, i: nat)
    requires i + 7 <= |src| && src[i..i + 7] == CRATE_PREFIX
    ensures var s := src[i..];
            Run(s) == CRATE && |AfterRun(s)| >= 2 && AfterRun(s)[2..] == src[i + 7..]
            && (Continues(AfterRun(s)) <==> RunLen(src[i + 7..]) > 0)
  {
    var s := src[i..];
    assert s[..7] == CRATE_PREFIX;
    assert CRATE_PREFIX <= s;
    CrateRun(s);
    assert s[7..] == src[i + 7..];
  }

  /** The index tests of the scanner amount to `SelfRefAt` on the suffix. */
  lemma ByteTest(src: string, i: nat, env: Env)
    requires i < |src|
    ensures SelfRefAt(IdentBefore(src, i), src[i..], env)
       <==> && i + 7 <= |src| && src[i..i + 7] == CRATE_PREFIX && !IdentBefore(src, i)
            && RunLen(src[i + 7..]) > 0 && env.IsSelf(src[i + 7..i + 7 + RunLen(src[i + 7..])])
    ensures SelfRefAt(IdentBefore(src, i), src[i..], env) ==> AfterRun(src[i..])[2..] == src[i + 7..]
  {
    var s := src[i..];
    assert i + 7 <= |src| ==> s[..7] == src[i..i + 7];
    if i + 7 <= |src| && src[i..i + 7] == CRATE_PREFIX {
      PrefixHere(src, i);
      assert Run(src[i + 7..]) == src[i + 7..i + 7 + RunLen(src[i + 7..])];
    } else if Run(s) == CRATE && Continues(AfterRun(s)) {
      CrateBytes(s);
    }
  }

  /** `fix_self_refs_in_src`. */
  method FixSelfRefsInSrc(src: string, env: Env) returns (out: string)
    ensures out == FixRefs(false, src, env)
  {
    out := "";
    var i := 0;
    assert src[0..] == src;
    while i < |src|
      invariant 0 <= i <= |src|
      invariant Fixed(src, i, env, out)
    {
      ByteTest(src, i, env);
      if i + 7 <= |src| && src[i..i + 7] == CRATE_PREFIX {
        var beforeOk := i == 0 || !IsIdent(src[i - 1]);
        var segStart := i + 7;
        var segEnd := segStart + RunLen(src[segStart..]);
        if beforeOk && segEnd > segStart {
          var segment := src[segStart..segEnd];
          if env.IsSelf(segment) {
            FixMatchAt(src, i, segEnd, env, out);
            out := out + (CRATE + "::" + env.modName + "::" + segment);
            i := segEnd;
            continue;
          }
        }
      }
      var chEnd := NextBoundary(src, i);
      FixChar(src, i, chEnd, env, out);
      out := out + src[i..chEnd];
      i := chEnd;
    }
    assert src[i..] == "";
  }

  // ----- text as paths and other characters -----

  /** Source text cut into maximal paths `a::b::c` and single non-identifier characters. */
  datatype Source = End | Sym(c: char, rest: Source) | Path(segs: seq<string>, rest: Source)

  function JoinSegs(segs: seq<string>): string {
    if segs == [] then ""
    else if |segs| == 1 then segs[0]
    else segs[0] + "::" + JoinSegs(segs[1..])
  }

  ghost predicate Segments(segs: seq<string>) {
    segs != [] && forall i :: 0 <= i < |segs| ==> IsWord(segs[i])
  }

  /** The maximal path at the start of `s`. */
  function TakePath(s: string): (segs: seq<string>)
    ensures segs != [] && segs[0] == Run(s)
    decreases |s|
  {
    if Continues(AfterRun(s)) && Run(s) != "" then [Run(s)] + TakePath(AfterRun(s)[2..]) else [Run(s)]
  }

  /** What follows that path. */
  function AfterPath(s: string): (rest: string)
    ensures |rest| <= |s| && |rest| <= |AfterRun(s)|
    decreases |s|
  {
    if Continues(AfterRun(s)) && Run(s) != "" then AfterPath(AfterRun(s)[2..]) else AfterRun(s)
  }

  lemma SplitRun(s: string)
    ensures s == Run(s) + AfterRun(s)
    ensures Continues(AfterRun(s)) ==> AfterRun(s) == "::" + AfterRun(s)[2..]
  {}

  lemma {:induction false} TakePathSpec(s: string)
    requires s != "" && IsIdent(s[0])
    ensures Segments(TakePath(s))
    ensures AfterPath(s) == "" || !IsIdent(AfterPath(s)[0])
    ensures !Continues(AfterPath(s))
    decreases |s|
  {
    RunSpec(s);
    if Continues(AfterRun(s)) {
      TakePathSpec(AfterRun(s)[2..]);
    }
  }

  lemma {:induction false} PathText(s: string)
    requires s != "" && IsIdent(s[0])
    ensures s == JoinSegs(TakePath(s)) + AfterPath(s)
    decreases |s|
  {
    SplitRun(s);
    if Continues(AfterRun(s)) {
      var t := AfterRun(s)[2..];
      PathText(t);
      JoinConsText(Run(s), TakePath(t), AfterPath(t));
    }
  }

  lemma JoinCons(w: string, segs: seq<string>)
    requires segs != []
    ensures JoinSegs([w] + segs) == w + "::" + JoinSegs(segs)
  {
    assert ([w] + segs)[1..] == segs;
  }

  lemma JoinConsText(w: string, segs: seq<string>, rest: string)
    requires segs != []
    ensures w + ("::" + (JoinSegs(segs) + rest)) == JoinSegs([w] + segs) + rest
  {
    JoinCons(w, segs);
  }

  function Parse(s: string): Source
    decreases |s|
  {
    if s == "" then End
    else if IsIdent(s[0]) then
      Path(TakePath(s), Parse(AfterPath(s)))
    else Sym(s[0], Parse(s[1..]))
  }

  function Render(x: Source): string {
    match x
    case End => ""
    case Sym(c, rest) => [c] + Render(rest)
    case Path(segs, rest) => JoinSegs(segs) + Render(rest)
  }

  predicate PathFollows(x: Source) {
    x.Path? || (x.Sym? && x.c == ':' && x.rest.Sym? && x.rest.c == ':' && x.rest.rest.Path?)
  }

  /** The shape of what `Parse` returns: paths are maximal. */
  ghost predicate Canonical(x: Source) {
    match x
    case End => true
    case Sym(c, rest) => !IsIdent(c) && Canonical(rest)
    case Path(segs, rest) => Segments(segs) && !PathFollows(rest) && Canonical(rest)
  }

  lemma {:induction false} ParseCanonical(s: string)
    ensures Canonical(Parse(s)) && Render(Parse(s)) == s
    ensures Parse(s).Path? <==> s != "" && IsIdent(s[0])
    ensures PathFollows(Parse(s)) <==> (s != "" && IsIdent(s[0])) || Continues(s)
    decreases |s|
  {
    if s == "" {
    } else if IsIdent(s[0]) {
      TakePathSpec(s);
      PathText(s);
      ParseCanonical(AfterPath(s));
    } else {
      ParseCanonical(s[1..]);
      if |s| > 1 && !IsIdent(s[1]) {
        ParseCanonical(s[2..]);
        assert s[1..][1..] == s[2..];
      }
    }
  }

  lemma JoinHead(segs: seq<string>)
    requires Segments(segs)
    ensures JoinSegs(segs) != "" && IsIdent(JoinSegs(segs)[0])
  {
    assert JoinSegs(segs)[0] == segs[0][0];
  }

  lemma {:induction false} TakeJoined(segs: seq<string>, rest: string)
    requires Segments(segs)
    requires (rest == "" || !IsIdent(rest[0])) && !Continues(rest)
    ensures var s := JoinSegs(segs) + rest; TakePath(s) == segs && AfterPath(s) == rest
    decreases |segs|
  {
    var w := segs[0];
    if |segs| == 1 {
      RunOfWord(w, rest);
    } else {
      var t := JoinSegs(segs[1..]) + rest;
      JoinHead(segs[1..]);
      TakeJoined(segs[1..], rest);
      JoinConsText(w, segs[1..], rest);
      assert [w] + segs[1..] == segs;
      RunOfWord(w, "::" + t);
      assert ("::" + t)[2..] == t;
    }
  }

  lemma RunOfWord(w: string, rest: string)
    requires IsWord(w) && (rest == "" || !IsIdent(rest[0]))
    ensures Run(w + rest) == w && AfterRun(w + rest) == rest
  {
    WordIsRun(w + rest, w);
  }

  lemma RenderHead(x: Source)
    requires Canonical(x)
    ensures Render(x) != "" && IsIdent(Render(x)[0]) <==> x.Path?
    ensures Continues(Render(x)) ==> PathFollows(x)
  {
    match x
    case End =>
    case Path(segs, rest) => JoinHead(segs);
    case Sym(c, rest) =>
      match rest {
        case End =>
        case Path(segs, r) => JoinHead(segs); assert Render(x)[1] == JoinSegs(segs)[0];
        case Sym(d, r) =>
          assert Render(x) == [c, d] + Render(r);
          match r {
            case End =>
            case Sym(e, q) => assert Render(x)[2] == e;
            case Path(segs, q) =>
          }
      }
  }

  /** Canonical pieces are recovered from their text. */
  lemma {:induction false} ParseRender(x: Source)
    requires Canonical(x)
    ensures Parse(Render(x)) == x
  {
    match x
    case End =>
    case Sym(c, rest) =>
      ParseRender(rest);
      assert Render(x)[1..] == Render(rest);
    case Path(segs, rest) =>
      ParseRender(rest);
      RenderHead(rest);
      JoinHead(segs);
      TakeJoined(segs, Render(rest));
  }

  // ----- both passes act on each path separately -----

  function FixPath(segs: seq<string>, env: Env): seq<string> {
    if segs == [] then []
    else if |segs| >= 2 && segs[0] == CRATE && env.IsSelf(segs[1]) then
      [CRATE, env.modName, segs[1]] + FixPath(segs[2..], env)
    else [segs[0]] + FixPath(segs[1..], env)
  }

  /** The member whose library identifier is `w`. */
  function Owner(w: string, members: seq<SubCrate>): Option<SubCrate> {
    if members == [] then None
    else if LibIdent(members[0]) == w then Some(members[0])
    else Owner(w, members[1..])
  }

  function RewritePath(segs: seq<string>, members: seq<SubCrate>): seq<string> {
    if segs == [] then []
    else Image(segs[0], members) + RewritePath(segs[1..], members)
  }

  function FixSource(x: Source, env: Env): Source {
    match x
    case End => End
    case Sym(c, rest) => Sym(c, FixSource(rest, env))
    case Path(segs, rest) => Path(FixPath(segs, env), FixSource(rest, env))
  }

  function RewriteSource(x: Source, members: seq<SubCrate>): Source {
    match x
    case End => End
    case Sym(c, rest) => Sym(c, RewriteSource(rest, members))
    case Path(segs, rest) => Path(RewritePath(segs, members), RewriteSource(rest, members))
  }

  lemma FixNonIdent(prev: bool, s: string, env: Env)
    requires s == "" || !IsIdent(s[0])
    ensures FixRefs(prev, s, env) == FixRefs(false, s, env)
  {
    NoRefHere(prev, s, env);
    NoRefHere(false, s, env);
  }

  lemma FixColons(s: string, env: Env)
    requires Continues(s)
    ensures FixRefs(true, s, env) == "::" + FixRefs(false, s[2..], env)
  {
    NoRefHere(true, s, env);
    NoRefHere(false, s[1..], env);
    assert s[1..][0] == ':' && s[1..][1..] == s[2..];
  }

  lemma FixRunByte(s: string, env: Env)
    requires s != "" && IsIdent(s[0])
    requires FixRefs(true, s[1..], env) == Run(s[1..]) + FixRefs(true, AfterRun(s[1..]), env)
    ensures FixRefs(true, s, env) == Run(s) + FixRefs(true, AfterRun(s), env)
  {
    RunStep(s);
    Glue([s[0]], Run(s[1..]), FixRefs(true, AfterRun(s), env));
  }

  lemma FixRunEnd(s: string, env: Env)
    requires s == "" || !IsIdent(s[0])
    ensures FixRefs(true, s, env) == Run(s) + FixRefs(true, AfterRun(s), env)
  {
    NoRun(s);
    assert "" + FixRefs(true, s, env) == FixRefs(true, s, env);
  }

  /** Past its first byte, a run is copied. */
  lemma {:induction false} FixRestOfRun(s: string, env: Env)
    ensures FixRefs(true, s, env) == Run(s) + FixRefs(true, AfterRun(s), env)
    decreases |s|
  {
    if s != "" && IsIdent(s[0]) {
      FixRestOfRun(s[1..], env);
      FixRunByte(s, env);
    } else {
      FixRunEnd(s, env);
    }
  }

  lemma FixPlainRun(s: string, env: Env)
    requires s != "" && IsIdent(s[0]) && !SelfRefAt(false, s, env)
    ensures FixRefs(false, s, env) == Run(s) + FixRefs(true, AfterRun(s), env)
  {
    RunStep(s);
    FixRestOfRun(s[1..], env);
    Glue([s[0]], Run(s[1..]), FixRefs(true, AfterRun(s), env));
  }

  lemma FixPathNonEmpty(segs: seq<string>, env: Env)
    requires segs != []
    ensures FixPath(segs, env) != []
  {}

  lemma {:induction false} FixOnPath(s: string, env: Env)
    requires s != "" && IsIdent(s[0])
    ensures FixRefs(false, s, env) == JoinSegs(FixPath(TakePath(s), env)) + FixRefs(false, AfterPath(s), env)
    decreases |s|
  {
    if SelfRefAt(false, s, env) {
      var u := AfterRun(AfterRun(s)[2..]);
      FixSelfTail(AfterRun(s)[2..], env);
      if Continues(u) { FixOnPath(u[2..], env); }
      FixAfterSelfRef(s, env);
    } else {
      if Continues(AfterRun(s)) { FixOnPath(AfterRun(s)[2..], env); }
      FixAfterPlainRun(s, env);
    }
  }

  lemma FixAfterPlainRun(s: string, env: Env)
    requires s != "" && IsIdent(s[0]) && !SelfRefAt(false, s, env)
    requires Continues(AfterRun(s)) ==>
               var t := AfterRun(s)[2..];
               FixRefs(false, t, env) == JoinSegs(FixPath(TakePath(t), env)) + FixRefs(false, AfterPath(t), env)
    ensures FixRefs(false, s, env) == JoinSegs(FixPath(TakePath(s), env)) + FixRefs(false, AfterPath(s), env)
  {
    FixPlainRun(s, env);
    RunSpec(s);
    if Continues(AfterRun(s)) {
      var t := AfterRun(s)[2..];
      var tail := TakePath(t);
      FixColons(AfterRun(s), env);
      FixPathPlain(Run(s), tail, env);
      FixPathNonEmpty(tail, env);
      JoinConsText(Run(s), FixPath(tail, env), FixRefs(false, AfterPath(t), env));
    } else {
      FixNonIdent(true, AfterRun(s), env);
      assert FixPath([Run(s)], env) == [Run(s)];
    }
  }

  lemma FixPathPlain(w: string, tail: seq<string>, env: Env)
    requires tail != [] && !(w == CRATE && env.IsSelf(tail[0]))
    ensures FixPath([w] + tail, env) == [w] + FixPath(tail, env)
  {
    assert ([w] + tail)[1..] == tail && ([w] + tail)[1] == tail[0];
  }

  lemma FixPathSelf(X: string, tail: seq<string>, env: Env)
    requires env.IsSelf(X)
    ensures FixPath([CRATE, X] + tail, env) == [CRATE, env.modName, X] + FixPath(tail, env)
    ensures tail == [] ==> FixPath([CRATE, X] + tail, env) == [CRATE, env.modName, X]
  {
    assert ([CRATE, X] + tail)[2..] == tail && ([CRATE, X] + tail)[1] == X;
  }

  /** After the segment `Run(t)`: the path ends, or goes on with `::`. */
  lemma FixSelfTail(t: string, env: Env)
    ensures var u := AfterRun(t);
            FixRefs(true, u, env) == if Continues(u) then "::" + FixRefs(false, u[2..], env) else FixRefs(false, u, env)
  {
    var u := AfterRun(t);
    RunSpec(t);
    if Continues(u) { FixColons(u, env); } else { FixNonIdent(true, u, env); }
  }

  lemma FixAfterSelfRef(s: string, env: Env)
    requires SelfRefAt(false, s, env) && s != "" && IsIdent(s[0])
    requires var u := AfterRun(AfterRun(s)[2..]);
             FixRefs(true, u, env)
             == if Continues(u) then "::" + (JoinSegs(FixPath(TakePath(u[2..]), env)) + FixRefs(false, AfterPath(u[2..]), env))
                else FixRefs(false, u, env)
    ensures FixRefs(false, s, env) == JoinSegs(FixPath(TakePath(s), env)) + FixRefs(false, AfterPath(s), env)
  {
    var t := AfterRun(s)[2..];
    var u := AfterRun(t);
    SelfPath(s, env);
    if Continues(u) {
      FixPathNonEmpty(TakePath(u[2..]), env);
      JoinThree(env.modName, Run(t), FixPath(TakePath(u[2..]), env), FixRefs(false, AfterPath(u[2..]), env));
    } else {
      JoinHead3(env.modName, Run(t));
    }
  }

  /** The path at a self reference, before and after. */
  lemma SelfPath(s: string, env: Env)
    requires SelfRefAt(false, s, env)
    ensures var t := AfterRun(s)[2..];
            var u := AfterRun(t);
            if Continues(u) then
              FixPath(TakePath(s), env) == [CRATE, env.modName, Run(t)] + FixPath(TakePath(u[2..]), env)
              && AfterPath(s) == AfterPath(u[2..])
            else FixPath(TakePath(s), env) == [CRATE, env.modName, Run(t)] && AfterPath(s) == u
  {
    var t := AfterRun(s)[2..];
    var tail := if Continues(AfterRun(t)) then TakePath(AfterRun(t)[2..]) else [];
    SelfPathSegments(s, env);
    FixPathSelf(Run(t), tail, env);
  }

  lemma SelfPathSegments(s: string, env: Env)
    requires SelfRefAt(false, s, env)
    ensures var t := AfterRun(s)[2..];
            var u := AfterRun(t);
            && TakePath(s) == [CRATE, Run(t)] + (if Continues(u) then TakePath(u[2..]) else [])
            && AfterPath(s) == if Continues(u) then AfterPath(u[2..]) else u
  {
    var t := AfterRun(s)[2..];
    assert Run(s) != "" && Run(t) != "";
    PathStep(s);
    PathStep(t);
    Prepend(CRATE, Run(t), if Continues(AfterRun(t)) then TakePath(AfterRun(t)[2..]) else []);
  }

  lemma Prepend(a: string, b: string, tail: seq<string>)
    ensures [a] + ([b] + tail) == [a, b] + tail
  {}

  lemma PathStep(s: string)
    requires Run(s) != ""
    ensures var u := AfterRun(s);
            && TakePath(s) == [Run(s)] + (if Continues(u) then TakePath(u[2..]) else [])
            && AfterPath(s) == if Continues(u) then AfterPath(u[2..]) else u
  {}

  lemma JoinHead3(m: string, X: string)
    ensures JoinSegs([CRATE, m, X]) == CRATE + "::" + m + "::" + X
  {
    JoinCons(m, [X]);
    JoinCons(CRATE, [m, X]);
    assert [CRATE] + [m, X] == [CRATE, m, X] && [m] + [X] == [m, X];
  }

  lemma JoinThree(m: string, X: string, segs: seq<string>, rest: string)
    requires segs != []
    ensures CRATE + "::" + m + "::" + X + ("::" + (JoinSegs(segs) + rest)) == JoinSegs([CRATE, m, X] + segs) + rest
  {
    JoinAppend([CRATE, m, X], segs);
    JoinHead3(m, X);
  }

  /** The first pass rewrites each path and nothing else. */
  lemma {:induction false} FixActsOnPaths(s: string, env: Env)
    ensures FixRefs(false, s, env) == Render(FixSource(Parse(s), env))
    decreases |s|
  {
    if s == "" {
    } else if IsIdent(s[0]) {
      FixOnPath(s, env);
      TakePathSpec(s);
      FixActsOnPaths(AfterPath(s), env);
    } else {
      NoRefHere(false, s, env);
      FixActsOnPaths(s[1..], env);
    }
  }

  lemma {:induction false} TableOwner(members: seq<SubCrate>, w: string)
    ensures Lookup(MemberTable(CRATE, members), w)
         == match Owner(w, members) case Some(m) => ModPath(CRATE, m) case None => w
    ensures Owner(w, members).Some? ==> Owner(w, members).value in members && LibIdent(Owner(w, members).value) == w
    ensures Owner(w, members).None? <==> forall m :: m in members ==> LibIdent(m) != w
  {
    if members != [] {
      TableOwner(members[1..], w);
      assert members == [members[0]] + members[1..];
    }
  }

  function Image(w: string, members: seq<SubCrate>): seq<string> {
    match Owner(w, members)
    case Some(m) => [CRATE, m.modName]
    case None => [w]
  }

  lemma ImageText(w: string, members: seq<SubCrate>)
    requires IsWord(w)
    ensures MapRuns(w, MemberTable(CRATE, members)) == JoinSegs(Image(w, members))
  {
    TableOwner(members, w);
    MapWord(w, MemberTable(CRATE, members));
    if Owner(w, members).Some? {
      JoinCons(CRATE, [Owner(w, members).value.modName]);
    }
  }

  lemma {:induction false} RewriteOnPath(segs: seq<string>, members: seq<SubCrate>)
    requires Segments(segs)
    ensures MapRuns(JoinSegs(segs), MemberTable(CRATE, members)) == JoinSegs(RewritePath(segs, members))
    ensures RewritePath(segs, members) != []
    decreases |segs|
  {
    var t := MemberTable(CRATE, members);
    var w := segs[0];
    assert segs == [w] + segs[1..];
    ImageText(w, members);
    if |segs| == 1 {
      assert RewritePath(segs, members) == Image(w, members) + [] == Image(w, members);
    } else {
      var tail := segs[1..];
      RewriteOnPath(tail, members);
      MapJoined(w, tail, t);
      JoinAppend(Image(w, members), RewritePath(tail, members));
    }
  }

  lemma MapJoined(w: string, tail: seq<string>, t: map<string, string>)
    requires tail != []
    ensures MapRuns(JoinSegs([w] + tail), t) == MapRuns(w, t) + "::" + MapRuns(JoinSegs(tail), t)
  {
    var rest := JoinSegs(tail);
    JoinCons(w, tail);
    Glue(w, "::", rest);
    MapRunsConcat(w, "::" + rest, t);
    MapColons(rest, t);
    Glue(MapRuns(w, t), "::", MapRuns(rest, t));
  }

  lemma MapColons(s: string, t: map<string, string>)
    ensures MapRuns("::" + s, t) == "::" + MapRuns(s, t)
  {
    assert ("::" + s)[1..] == ":" + s;
    assert (":" + s)[1..] == s;
  }

  lemma {:induction false} JoinAppend(a: seq<string>, b: seq<string>)
    requires a != [] && b != []
    ensures JoinSegs(a + b) == JoinSegs(a) + "::" + JoinSegs(b)
    decreases |a|
  {
    if |a| == 1 {
      JoinCons(a[0], b);
      assert a == [a[0]];
    } else {
      JoinAppend(a[1..], b);
      assert (a + b)[1..] == a[1..] + b;
    }
  }

  /** The second pass rewrites each path and nothing else. */
  lemma {:induction false} RewriteActsOnPaths(x: Source, members: seq<SubCrate>)
    requires Canonical(x)
    ensures MapRuns(Render(x), MemberTable(CRATE, members)) == Render(RewriteSource(x, members))
  {
    var t := MemberTable(CRATE, members);
    match x
    case End =>
    case Sym(c, rest) =>
      RewriteActsOnPaths(rest, members);
      assert Render(x)[1..] == Render(rest);
    case Path(segs, rest) =>
      RewriteActsOnPaths(rest, members);
      RewriteOnPath(segs, members);
      RenderHead(rest);
      MapRunsConcat(JoinSegs(segs), Render(rest), t);
  }

  lemma {:induction false} FixKeepsSegments(segs: seq<string>, env: Env)
    requires IsWord(env.modName) && forall i :: 0 <= i < |segs| ==> IsWord(segs[i])
    ensures forall i :: 0 <= i < |FixPath(segs, env)| ==> IsWord(FixPath(segs, env)[i])
    decreases |segs|
  {
    if segs == [] {
    } else if |segs| >= 2 && segs[0] == CRATE && env.IsSelf(segs[1]) {
      FixKeepsSegments(segs[2..], env);
    } else {
      FixKeepsSegments(segs[1..], env);
    }
  }

  lemma {:induction false} RewriteKeepsSegments(segs: seq<string>, members: seq<SubCrate>)
    requires Separated(CRATE, members) && forall i :: 0 <= i < |segs| ==> IsWord(segs[i])
    ensures forall i :: 0 <= i < |RewritePath(segs, members)| ==> IsWord(RewritePath(segs, members)[i])
    decreases |segs|
  {
    if segs != [] {
      TableOwner(members, segs[0]);
      RewriteKeepsSegments(segs[1..], members);
    }
  }

  lemma {:induction false} FixKeepsCanonical(x: Source, env: Env)
    requires Canonical(x) && IsWord(env.modName)
    ensures Canonical(FixSource(x, env)) && (PathFollows(FixSource(x, env)) <==> PathFollows(x))
  {
    match x
    case End =>
    case Sym(c, rest) => FixKeepsCanonical(rest, env);
    case Path(segs, rest) =>
      FixKeepsCanonical(rest, env);
      FixKeepsSegments(segs, env);
      FixPathNonEmpty(segs, env);
  }

  lemma {:induction false} RewriteKeepsCanonical(x: Source, members: seq<SubCrate>)
    requires Canonical(x) && Separated(CRATE, members)
    ensures Canonical(RewriteSource(x, members)) && (PathFollows(RewriteSource(x, members)) <==> PathFollows(x))
  {
    match x
    case End =>
    case Sym(c, rest) => RewriteKeepsCanonical(rest, members);
    case Path(segs, rest) =>
      RewriteKeepsCanonical(rest, members);
      RewriteKeepsSegments(segs, members);
      RewriteOnPath(segs, members);
  }

  // ----- what paths resolve to -----

  /** What a path names: items of one of the folded crates, a macro exported at the crate
      root, something at the root of the merged crate, or something outside. */
  datatype Target =
    | Item(package: string, items: seq<string>)
    | ExportedMacro(items: seq<string>)
    | MergedRoot(items: seq<string>)
    | Elsewhere(segs: seq<string>)

  /** The crate that lives in module `m` of the merged crate. */
  function ModuleOwner(m: string, crates: seq<SubCrate>): Option<SubCrate> {
    if crates == [] then None
    else if crates[0].modName == m then Some(crates[0])
    else ModuleOwner(m, crates[1..])
  }

  /** Resolution in the source of `self`, while every folded crate is still its own crate.
      A `rooted` path is one with a `::` in front. */
  function ResolveBefore(rooted: bool, segs: seq<string>, self: SubCrate, c: Cluster): Target
    requires segs != []
  {
    if segs[0] == CRATE && !rooted then
      if |segs| >= 2 && segs[1] == MACRO_EXPORT then ExportedMacro(segs[1..]) else Item(self.package, segs[1..])
    else
      match Owner(segs[0], c.members)
      case Some(y) => Item(y.package, segs[1..])
      case None => Elsewhere(segs)
  }

  /** Resolution inside the merged crate, where the folded crates are modules and their
      old identifiers name nothing. */
  function ResolveAfter(rooted: bool, segs: seq<string>, c: Cluster): Target
    requires segs != []
  {
    if segs[0] == CRATE && !rooted then
      if |segs| == 1 then MergedRoot([])
      else if segs[1] == MACRO_EXPORT then ExportedMacro(segs[1..])
      else
        match ModuleOwner(segs[1], c.Crates())
        case Some(y) => Item(y.package, segs[2..])
        case None => MergedRoot(segs[1..])
    else Elsewhere(segs)
  }

  /** The names of a mergeable cluster: words, module names that tell the folded crates
      apart, and no crate identifier that is also `crate` or a module name. */
  ghost predicate Mergeable(self: SubCrate, c: Cluster) {
    && Separated(CRATE, c.members)
    && self in c.Crates()
    && (forall x :: x in c.Crates() ==> IsWord(x.modName) && x.modName != MACRO_EXPORT)
    && (forall x, y :: x in c.Crates() && y in c.Crates() && x.modName == y.modName ==> x == y)
    && (forall x, y :: x in c.members && y in c.Crates() ==> LibIdent(x) != y.modName)
    && (forall x, y :: x in c.members && y in c.members && LibIdent(x) == LibIdent(y) ==> x == y)
  }

  function EnvOf(self: SubCrate, c: Cluster, localMods: set<string>): Env {
    Env(self.modName, c.ModuleNames(), localMods)
  }

  function MergePath(segs: seq<string>, self: SubCrate, c: Cluster, localMods: set<string>): seq<string> {
    RewritePath(FixPath(segs, EnvOf(self, c, localMods)), c.members)
  }

  /** Crate names stand only at the head of a path (Rust Reference, "Paths"). */
  ghost predicate CrateNamesAtHead(segs: seq<string>, c: Cluster) {
    forall i :: 1 <= i < |segs| ==> segs[i] != CRATE && Owner(segs[i], c.members).None?
  }

  /** The guard for a path to keep its meaning. A path with `::` in front must not start
      with a member, nor look like a self reference. Otherwise `crate` must be followed by a
      segment, and that segment must not be the name of a sibling's module, unless it is
      declared locally, is the crate's own module, or is the exported macro. */
  predicate Kept(rooted: bool, segs: seq<string>, self: SubCrate, c: Cluster, localMods: set<string>)
    requires segs != []
  {
    if rooted then
      && (forall m :: m in c.members ==> LibIdent(m) != segs[0])
      && !(|segs| >= 2 && segs[0] == "crate" && segs[1] != "feedback_tags"
           && (segs[1] in localMods || segs[1] == self.modName || forall m :: m in c.members ==> m.modName != segs[1]))
    else
      segs[0] == "crate" ==>
        |segs| >= 2
        && (segs[1] in localMods || segs[1] == self.modName || segs[1] == "feedback_tags"
            || forall m :: m in c.members ==> m.modName != segs[1])
  }

  lemma {:induction false} CleanUntouched(segs: seq<string>, env: Env, members: seq<SubCrate>)
    requires forall i :: 0 <= i < |segs| ==> segs[i] != CRATE && Owner(segs[i], members).None?
    ensures FixPath(segs, env) == segs && RewritePath(segs, members) == segs
    decreases |segs|
  {
    if segs != [] {
      CleanUntouched(segs[1..], env, members);
      assert segs == [segs[0]] + segs[1..];
    }
  }

  lemma {:induction false} FindModule(x: SubCrate, crates: seq<SubCrate>)
    requires x in crates
    requires forall a, b :: a in crates && b in crates && a.modName == b.modName ==> a == b
    ensures ModuleOwner(x.modName, crates) == Some(x)
  {
    if crates[0].modName != x.modName {
      assert crates == [crates[0]] + crates[1..];
      FindModule(x, crates[1..]);
    }
  }

  lemma {:induction false} FindModuleNone(m: string, crates: seq<SubCrate>)
    ensures ModuleOwner(m, crates).Some? ==> ModuleOwner(m, crates).value in crates
  {
    if crates != [] && crates[0].modName != m { FindModuleNone(m, crates[1..]); }
  }

  /** The merged form of a path. */
  lemma MergePathShape(segs: seq<string>, self: SubCrate, c: Cluster, localMods: set<string>)
    requires segs != [] && Mergeable(self, c) && CrateNamesAtHead(segs, c)
    ensures var env := EnvOf(self, c, localMods);
            MergePath(segs, self, c, localMods)
            == if |segs| >= 2 && segs[0] == CRATE && env.IsSelf(segs[1]) then [CRATE, self.modName] + segs[1..]
               else Image(segs[0], c.members) + segs[1..]
  {
    var env := EnvOf(self, c, localMods);
    var tail := segs[1..];
    assert segs == [segs[0]] + tail;
    assert forall i :: 0 <= i < |tail| ==> tail[i] == segs[i + 1];
    CleanUntouched(tail, env, c.members);
    if |segs| >= 2 && segs[0] == CRATE && env.IsSelf(segs[1]) {
      FixSelfHead(tail, env, c);
      RewriteSelfHead(tail, self, c);
    } else {
      assert FixPath(segs, env) == segs;
      RewriteCons(segs[0], tail, c.members);
    }
  }

  lemma FixSelfHead(tail: seq<string>, env: Env, c: Cluster)
    requires tail != [] && env.IsSelf(tail[0])
    requires forall i :: 0 <= i < |tail| ==> tail[i] != CRATE && Owner(tail[i], c.members).None?
    ensures FixPath([CRATE] + tail, env) == [CRATE, env.modName] + tail
  {
    CleanUntouched(tail[1..], env, c.members);
    FixPathSelf(tail[0], tail[1..], env);
    Regroup(CRATE, env.modName, tail);
  }

  lemma Regroup(a: string, b: string, tail: seq<string>)
    requires tail != []
    ensures [a] + tail == [a, tail[0]] + tail[1..]
    ensures [a, b] + tail == [a, b, tail[0]] + tail[1..]
  {}

  lemma RewriteSelfHead(tail: seq<string>, self: SubCrate, c: Cluster)
    requires Mergeable(self, c) && RewritePath(tail, c.members) == tail
    ensures RewritePath([CRATE, self.modName] + tail, c.members) == [CRATE, self.modName] + tail
  {
    TableOwner(c.members, CRATE);
    TableOwner(c.members, self.modName);
    RewriteCons(self.modName, tail, c.members);
    RewriteCons(CRATE, [self.modName] + tail, c.members);
    assert [CRATE, self.modName] + tail == [CRATE] + ([self.modName] + tail);
  }

  lemma RewriteCons(w: string, tail: seq<string>, members: seq<SubCrate>)
    ensures RewritePath([w] + tail, members) == Image(w, members) + RewritePath(tail, members)
  {
    assert ([w] + tail)[1..] == tail;
  }

  /** Merging keeps what a path resolves to exactly when the path passes the guard. */
  lemma PathResolution(rooted: bool, segs: seq<string>, self: SubCrate, c: Cluster, localMods: set<string>)
    requires segs != [] && Mergeable(self, c) && CrateNamesAtHead(segs, c)
    ensures MergePath(segs, self, c, localMods) != []
    ensures ResolveAfter(rooted, MergePath(segs, self, c, localMods), c) == ResolveBefore(rooted, segs, self, c)
       <==> Kept(rooted, segs, self, c, localMods)
  {
    MergePathShape(segs, self, c, localMods);
    var merged := MergePath(segs, self, c, localMods);
    TableOwner(c.members, segs[0]);
    TableOwner(c.members, CRATE);
    FindModule(self, c.Crates());
    var tail := segs[1..];
    if |segs| >= 2 && segs[0] == CRATE && EnvOf(self, c, localMods).IsSelf(segs[1]) {
      assert merged == [CRATE, self.modName] + tail && merged[2..] == tail;
    } else {
      match Owner(segs[0], c.members)
      case Some(y) =>
        assert y in c.Crates();
        FindModule(y, c.Crates());
        assert merged == [CRATE, y.modName] + tail && merged[2..] == tail;
      case None =>
        assert merged == segs;
        assert |segs| >= 2 ==> |segs[2..]| < |tail|;
    }
  }

  // ----- the whole text -----

  /** A path of the text; `rooted` when two colons stand in front of it. */
  datatype Occurrence = Occurrence(rooted: bool, segs: seq<string>)

  function Paths(x: Source, colons: nat): seq<Occurrence> {
    match x
    case End => []
    case Sym(ch, rest) => Paths(rest, if ch == ':' then colons + 1 else 0)
    case Path(segs, rest) => [Occurrence(colons >= 2, segs)] + Paths(rest, 0)
  }

  /** What one path of the text becomes, and whether it still names the same thing. */
  ghost predicate MergedPath(p: Occurrence, q: Occurrence, self: SubCrate, c: Cluster, localMods: set<string>) {
    && p.segs != [] && q.segs != []
    && q == Occurrence(p.rooted, MergePath(p.segs, self, c, localMods))
    && (CrateNamesAtHead(p.segs, c) ==>
          (ResolveAfter(q.rooted, q.segs, c) == ResolveBefore(p.rooted, p.segs, self, c)
           <==> Kept(p.rooted, p.segs, self, c, localMods)))
  }

  ghost predicate MergedPaths(ps: seq<Occurrence>, qs: seq<Occurrence>, self: SubCrate, c: Cluster, localMods: set<string>) {
    |qs| == |ps| && forall i :: 0 <= i < |ps| ==> MergedPath(ps[i], qs[i], self, c, localMods)
  }

  /** The text with every path blanked out. */
  function Skeleton(x: Source): seq<Option<char>> {
    match x
    case End => []
    case Sym(c, rest) => [Some(c)] + Skeleton(rest)
    case Path(_, rest) => [None] + Skeleton(rest)
  }

  lemma MergedHead(p: Occurrence, ps: seq<Occurrence>, q: Occurrence, qs: seq<Occurrence>,
                   self: SubCrate, c: Cluster, localMods: set<string>)
    requires MergedPath(p, q, self, c, localMods) && MergedPaths(ps, qs, self, c, localMods)
    ensures MergedPaths([p] + ps, [q] + qs, self, c, localMods)
  {
    hide MergedPath;
  }

  lemma OneMerged(rooted: bool, segs: seq<string>, self: SubCrate, c: Cluster, localMods: set<string>)
    requires segs != [] && Mergeable(self, c)
    ensures MergedPath(Occurrence(rooted, segs), Occurrence(rooted, MergePath(segs, self, c, localMods)), self, c, localMods)
  {
    FixPathNonEmpty(segs, EnvOf(self, c, localMods));
    if CrateNamesAtHead(segs, c) { PathResolution(rooted, segs, self, c, localMods); }
  }

  /** Every path of a source file becomes its merged form and nothing else changes; each path
      on its own resolves as before exactly when it passes its guard. */
  lemma {:induction false} SourceResolution(x: Source, colons: nat, self: SubCrate, c: Cluster, localMods: set<string>)
    requires Canonical(x) && Mergeable(self, c)
    ensures var y := RewriteSource(FixSource(x, EnvOf(self, c, localMods)), c.members);
            Skeleton(y) == Skeleton(x) && MergedPaths(Paths(x, colons), Paths(y, colons), self, c, localMods)
  {
    hide MergedPath, Mergeable, MergePath, EnvOf;
    match x
    case End =>
    case Sym(ch, rest) =>
      SourceResolution(rest, if ch == ':' then colons + 1 else 0, self, c, localMods);
    case Path(segs, rest) =>
      SourceResolution(rest, 0, self, c, localMods);
      OneMerged(colons >= 2, segs, self, c, localMods);
      var y := RewriteSource(FixSource(rest, EnvOf(self, c, localMods)), c.members);
      var q := MergePath(segs, self, c, localMods);
      MergedSource(segs, rest, self, c, localMods);
      MergedHead(Occurrence(colons >= 2, segs), Paths(rest, 0), Occurrence(colons >= 2, q), Paths(y, 0), self, c, localMods);
  }

  lemma MergedSource(segs: seq<string>, rest: Source, self: SubCrate, c: Cluster, localMods: set<string>)
    ensures RewriteSource(FixSource(Path(segs, rest), EnvOf(self, c, localMods)), c.members)
         == Path(MergePath(segs, self, c, localMods), RewriteSource(FixSource(rest, EnvOf(self, c, localMods)), c.members))
  {}

  /** Both passes over one source file of `self`, in the order of the toolkit: first the
      self references, then the member identifiers. The outcome differs from the source in
      its paths only, and each path resolves as before exactly when it passes its guard. */
  method MergeFile(src: string, self: SubCrate, c: Cluster, localMods: set<string>) returns (out: string)
    requires Mergeable(self, c)
    ensures Parse(out) == RewriteSource(FixSource(Parse(src), EnvOf(self, c, localMods)), c.members)
    ensures Skeleton(Parse(out)) == Skeleton(Parse(src))
    ensures MergedPaths(Paths(Parse(src), 0), Paths(Parse(out), 0), self, c, localMods)
  {
    var env := EnvOf(self, c, localMods);
    out := FixSelfRefsInSrc(src, env);
    out := RewriteRs(out, CRATE, c.members);
    ghost var x := Parse(src);
    ParseCanonical(src);
    FixActsOnPaths(src, env);
    FixKeepsCanonical(x, env);
    RewriteActsOnPaths(FixSource(x, env), c.members);
    RewriteKeepsCanonical(FixSource(x, env), c.members);
    ParseRender(RewriteSource(FixSource(x, env), c.members));
    SourceResolution(x, 0, self, c, localMods);
  }

  // ----- why the passes run once, and in this order -----

  /** Which segments after `crate::` are references into the crate itself: all but the
      exported macro and the module names of siblings that are not declared locally. */
  lemma SelfReferences(x: string, self: SubCrate, c: Cluster, localMods: set<string>)
    ensures EnvOf(self, c, localMods).IsSelf(x)
       <==> x != "feedback_tags" && (x in localMods || x == self.modName || forall m :: m in c.members ==> m.modName != x)
  {}

  /** What the prefixing pass does to the text of a reference. */
  lemma ReferenceText(x: string, after: string, self: SubCrate, c: Cluster, localMods: set<string>)
    requires IsWord(x) && (after == "" || !IsIdent(after[0]))
    ensures var env := EnvOf(self, c, localMods);
            FixRefs(false, "crate::" + (x + after), env)
            == if x != "feedback_tags" && (x in localMods || x == self.modName || forall m :: m in c.members ==> m.modName != x)
               then "crate::" + self.modName + "::" + x + FixRefs(true, after, env)
               else "crate::" + FixRefs(false, x + after, env)
  {
    var env := EnvOf(self, c, localMods);
    SelfReferences(x, self, c, localMods);
    assert env.modName == self.modName;
    hide EnvOf, FixRefs;
    if env.IsSelf(x) { SelfText(x, after, env); } else { OtherText(x, after, env); }
  }

  lemma ReferenceRuns(x: string, after: string)
    requires IsWord(x) && (after == "" || !IsIdent(after[0]))
    ensures var s := "crate::" + (x + after);
            && s != "" && IsIdent(s[0]) && Run(s) == CRATE && AfterRun(s) == s[5..] && Continues(s[5..])
            && s[5..][2..] == x + after && Run(x + after) == x && AfterRun(x + after) == after
  {
    var s, t := "crate::" + (x + after), x + after;
    assert x == t[..|x|] && t[|x|..] == after;
    WordIsRun(t, x);
    assert s[..7] == CRATE_PREFIX && s[7..] == t;
    hide Run, AfterRun, Continues;
    CrateRun(s);
    assert t[0] == x[0];
    RunSpec(t);
  }

  lemma SelfText(x: string, after: string, env: Env)
    requires IsWord(x) && (after == "" || !IsIdent(after[0])) && env.IsSelf(x)
    ensures FixRefs(false, "crate::" + (x + after), env) == "crate::" + env.modName + "::" + x + FixRefs(true, after, env)
  {
    var s := "crate::" + (x + after);
    ReferenceRuns(x, after);
    assert FixRefs(false, s, env) == CRATE + "::" + env.modName + "::" + x + FixRefs(true, after, env);
    hide FixRefs;
    assert CRATE + "::" == "crate::";
  }

  lemma OtherText(x: string, after: string, env: Env)
    requires IsWord(x) && (after == "" || !IsIdent(after[0])) && !env.IsSelf(x)
    ensures FixRefs(false, "crate::" + (x + after), env) == "crate::" + FixRefs(false, x + after, env)
  {
    var s := "crate::" + (x + after);
    ReferenceRuns(x, after);
    assert !SelfRefAt(false, s, env);
    hide FixRefs, SelfRefAt, Run, AfterRun, Continues;
    FixPlainRun(s, env);
    FixColons(s[5..], env);
    Glue("crate", "::", FixRefs(false, x + after, env));
    assert "crate" + "::" == "crate::";
  }

  /** A path refers to its own crate. */
  predicate SelfHead(segs: seq<string>, env: Env) { |segs| >= 2 && segs[0] == CRATE && env.IsSelf(segs[1]) }

  /** A clean path after the prefixing pass. */
  lemma FixShape(segs: seq<string>, self: SubCrate, c: Cluster, localMods: set<string>)
    requires segs != [] && Mergeable(self, c) && CrateNamesAtHead(segs, c)
    ensures var env := EnvOf(self, c, localMods);
            FixPath(segs, env) == if SelfHead(segs, env) then [CRATE, self.modName] + segs[1..] else segs
  {
    var env := EnvOf(self, c, localMods);
    var tail := segs[1..];
    assert segs == [segs[0]] + tail;
    assert forall i :: 0 <= i < |tail| ==> tail[i] == segs[i + 1];
    CleanUntouched(tail, env, c.members);
    if SelfHead(segs, env) { FixSelfHead(tail, env, c); }
  }

  /** No module is called `crate`, which is a keyword. */
  ghost predicate NoKeyword(c: Cluster) { forall x :: x in c.Crates() ==> x.modName != CRATE }

  lemma PrefixedIsClean(segs: seq<string>, self: SubCrate, c: Cluster, m: SubCrate)
    requires NoKeyword(c) && segs != [] && Mergeable(self, c) && CrateNamesAtHead(segs, c) && m in c.Crates()
    ensures CrateNamesAtHead([CRATE, m.modName] + segs[1..], c)
  {
    TableOwner(c.members, m.modName);
    var path := [CRATE, m.modName] + segs[1..];
    assert forall i :: 2 <= i < |path| ==> path[i] == segs[i - 1];
  }

  /** The prefixing pass is idempotent on a path exactly when it leaves it alone. */
  lemma PrefixingDecided(segs: seq<string>, self: SubCrate, c: Cluster, localMods: set<string>)
    requires NoKeyword(c) && segs != [] && Mergeable(self, c) && CrateNamesAtHead(segs, c)
    ensures var env := EnvOf(self, c, localMods);
            FixPath(FixPath(segs, env), env) == FixPath(segs, env)
            <==> !(|segs| >= 2 && segs[0] == "crate" && segs[1] != "feedback_tags"
                   && (segs[1] in localMods || segs[1] == self.modName || forall m :: m in c.members ==> m.modName != segs[1]))
  {
    var env := EnvOf(self, c, localMods);
    if |segs| >= 2 { SelfReferences(segs[1], self, c, localMods); }
    FixShape(segs, self, c, localMods);
    if SelfHead(segs, env) {
      var once := [CRATE, self.modName] + segs[1..];
      PrefixedIsClean(segs, self, c, self);
      FixShape(once, self, c, localMods);
      assert |FixPath(once, env)| == |once| + 1;
    }
  }

  /** The order of the passes makes no difference to a path exactly when it does not start with
      a member whose module name reads as a self reference. */
  lemma OrderDecided(segs: seq<string>, self: SubCrate, c: Cluster, localMods: set<string>)
    requires NoKeyword(c) && segs != [] && Mergeable(self, c) && CrateNamesAtHead(segs, c)
    ensures FixPath(RewritePath(segs, c.members), EnvOf(self, c, localMods)) == MergePath(segs, self, c, localMods)
       <==> forall y :: y in c.members && LibIdent(y) == segs[0] ==> y.modName !in localMods && y.modName != self.modName
  {
    var env, tail := EnvOf(self, c, localMods), segs[1..];
    forall y | y in c.members
      ensures env.IsSelf(y.modName) <==> y.modName in localMods || y.modName == self.modName
    {
      SelfReferences(y.modName, self, c, localMods);
      assert y in c.Crates();
    }
    MergePathShape(segs, self, c, localMods);
    FixShape(segs, self, c, localMods);
    TableOwner(c.members, segs[0]);
    TableOwner(c.members, CRATE);
    assert segs == [segs[0]] + tail;
    assert forall i :: 0 <= i < |tail| ==> tail[i] == segs[i + 1];
    CleanUntouched(tail, env, c.members);
    RewriteCons(segs[0], tail, c.members);
    match Owner(segs[0], c.members)
    case Some(y) =>
      var swapped := [CRATE, y.modName] + tail;
      assert y in c.Crates();
      PrefixedIsClean(segs, self, c, y);
      FixShape(swapped, self, c, localMods);
      assert SelfHead(swapped, env) ==> |FixPath(swapped, env)| == |swapped| + 1;
    case None =>
      assert RewritePath(segs, c.members) == segs;
  }

  /** In the other order, a reference to a member whose module name is also declared
      locally ends up inside the referring crate. */
  lemma OtherOrderMisresolves(y: SubCrate, item: string, self: SubCrate, c: Cluster, localMods: set<string>)
    requires Mergeable(self, c) && y in c.members && y.modName in localMods && self != y
    requires item != CRATE && Owner(item, c.members).None?
    ensures var segs := [LibIdent(y), item];
            var swapped := FixPath(RewritePath(segs, c.members), EnvOf(self, c, localMods));
            && swapped != []
            && ResolveAfter(false, swapped, c) == Item(self.package, [y.modName, item])
            && ResolveAfter(false, MergePath(segs, self, c, localMods), c) == ResolveBefore(false, segs, self, c)
  {
    var segs := [LibIdent(y), item];
    var env := EnvOf(self, c, localMods);
    PathResolution(false, segs, self, c, localMods);
    TableOwner(c.members, LibIdent(y));
    assert Owner(LibIdent(y), c.members).value == y;
    FindModule(self, c.Crates());
    CleanUntouched([item], env, c.members);
    RewriteCons(LibIdent(y), [item], c.members);
    assert segs == [LibIdent(y)] + [item];
    FixPathSelf(y.modName, [item], env);
    SwappedPath(y.modName, item, self, c);
  }

  lemma SwappedPath(m: string, item: string, self: SubCrate, c: Cluster)
    requires ModuleOwner(self.modName, c.Crates()) == Some(self) && self.modName != MACRO_EXPORT
    ensures var segs := [CRATE, self.modName, m] + [item];
            ResolveAfter(false, segs, c) == Item(self.package, [m, item])
  {
    assert ([CRATE, self.modName, m] + [item])[2..] == [m, item];
  }

  /** The prefixing pass is not idempotent: a second run would prefix again. */
  lemma PrefixingTwice(item: string, self: SubCrate, c: Cluster, localMods: set<string>)
    requires Mergeable(self, c) && item != CRATE && EnvOf(self, c, localMods).IsSelf(item)
    ensures var env := EnvOf(self, c, localMods);
            var once := FixPath([CRATE, item], env);
            once == [CRATE, self.modName, item] && FixPath(once, env) == [CRATE, self.modName, self.modName, item]
  {
    var env := EnvOf(self, c, localMods);
    var m := self.modName;
    assert [CRATE, item][2..] == [];
    assert FixPath([CRATE, item], env) == [CRATE, m, item] + [] == [CRATE, m, item];
    assert [CRATE, m, item][2..] == [item] && [item][1..] == [];
    assert FixPath([item], env) == [item];
    assert FixPath([CRATE, m, item], env) == [CRATE, m, m] + [item];
  }
}
