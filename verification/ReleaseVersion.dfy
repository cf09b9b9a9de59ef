/** Converting between PEP 440 versions and release tags. The regular expressions are
    written out as functions that work from the end of the string, each set against the
    decomposition its pattern describes. */
module ReleaseVersion {
  import opened Wrappers

  predicate IsDigit(c: char) { '0' <= c <= '9' }

  predicate AllDigits(s: string) { forall i :: 0 <= i < |s| ==> IsDigit(s[i]) }

  predicate Digits(s: string) { s != "" && AllDigits(s) }

  predicate IsSpace(c: char) {
    || '\U{9}' <= c <= '\U{D}' || '\U{1C}' <= c <= '\U{20}' || c == '\U{85}' || c == '\U{A0}' || c == '\U{1680}'
    || '\U{2000}' <= c <= '\U{200A}' || c == '\U{2028}' || c == '\U{2029}' || c == '\U{202F}'
    || c == '\U{205F}' || c == '\U{3000}'
  }

  function StripStart(s: string): string { if s != "" && IsSpace(s[0]) then StripStart(s[1..]) else s }

  function StripEnd(s: string): string { if s != "" && IsSpace(s[|s| - 1]) then StripEnd(s[..|s| - 1]) else s }

  function Strip(s: string): string { StripStart(StripEnd(s)) }

  function RemovePrefix(s: string): string {
    if "rust-v" <= s then s[6..] else if "v" <= s then s[1..] else s
  }

  // ----- substitutions anchored at the end -----

  predicate EndsWith(s: string, t: string) { |t| <= |s| && s[|s| - |t|..] == t }

  function DropEnd(s: string, n: nat): string
    requires n <= |s|
  {
    s[..|s| - n]
  }

  /** Number of digits at the end. */
  function TailDigits(s: string): (n: nat)
    ensures n <= |s|
  {
    if s != "" && IsDigit(s[|s| - 1]) then 1 + TailDigits(s[..|s| - 1]) else 0
  }

  function Tail(s: string): string { s[|s| - TailDigits(s)..] }

  function Front(s: string): (f: string)
    ensures |f| <= |s|
  {
    s[..|s| - TailDigits(s)]
  }

  function DropDot(s: string): string { if EndsWith(s, ".") then DropEnd(s, 1) else s }

  /** `-<name>\.?([0-9]+)$`: what stands before it, and the digits. */
  function MatchPre(s: string, name: string): Option<(string, string)> {
    var f := DropDot(Front(s));
    if TailDigits(s) > 0 && EndsWith(f, name) then Some((DropEnd(f, |name|), Tail(s))) else None
  }

  /** `-alpha\.?([0-9]+)\.([0-9]+)$`. */
  function MatchHotfix(s: string): Option<(string, string, string)> {
    if TailDigits(s) > 0 && EndsWith(Front(s), ".") then
      match MatchPre(DropEnd(Front(s), 1), "-alpha")
      case Some((before, alpha)) => Some((before, alpha, Tail(s)))
      case None => None
    else None
  }

  function SubHotfix(s: string): string {
    match MatchHotfix(s)
    case Some((before, alpha, hotfix)) => before + "a" + alpha + ".post" + hotfix
    case None => s
  }

  function SubPre(s: string, name: string, short: string): string {
    match MatchPre(s, name)
    case Some((before, number)) => before + short + number
    case None => s
  }

  /** All substitutions, in order. */
  function Substituted(s: string): string {
    SubPre(SubPre(SubPre(SubHotfix(s), "-alpha", "a"), "-beta", "b"), "-rc", "rc")
  }

  // ----- the grammar of normalised versions -----

  /** `kind` is "", "a", "b" or "rc"; `post` is "" when there is no post-release. */
  datatype Version = Version(base: string, kind: string, number: string, post: string)

  function HeadDigits(s: string): (n: nat)
    ensures n <= |s|
  {
    if s != "" && IsDigit(s[0]) then 1 + HeadDigits(s[1..]) else 0
  }

  predicate DigitAt(s: string, i: nat) { i < |s| && IsDigit(s[i]) }

  /** Length of `[0-9]+(\.[0-9]+)*` at the start; 0 when there is none. */
  function BaseLen(s: string): (n: nat)
    ensures n <= |s|
    decreases |s|
  {
    var n := HeadDigits(s);
    if n > 0 && n < |s| && s[n] == '.' && DigitAt(s, n + 1) then n + 1 + BaseLen(s[n + 1..]) else n
  }

  /** Which of a, b, rc follows, with a digit after it. */
  function KindAt(s: string): string {
    if "a" <= s && DigitAt(s, 1) then "a"
    else if "b" <= s && DigitAt(s, 1) then "b"
    else if "rc" <= s && DigitAt(s, 2) then "rc"
    else ""
  }

  /** `(?:\.post[0-9]+)?` to the end. */
  function ParsePost(s: string): Option<string> {
    if s == "" then Some("")
    else if ".post" <= s && HeadDigits(s[5..]) > 0 && HeadDigits(s[5..]) == |s| - 5 then Some(s[5..])
    else None
  }

  /** Full match of `[0-9]+(?:\.[0-9]+)*(?:(?:a|b|rc)[0-9]+)?(?:\.post[0-9]+)?`. */
  function ParseVersion(s: string): Option<Version> {
    var n := BaseLen(s);
    var rest := s[n..];
    var kind := KindAt(rest);
    var tail := if |kind| <= |rest| then rest[|kind|..] else "";
    var number := if kind == "" then "" else tail[..HeadDigits(tail)];
    if n == 0 || |kind| + |number| > |rest| then None
    else
      match ParsePost(rest[|kind| + |number|..])
      case Some(post) => Some(Version(s[..n], kind, number, post))
      case None => None
  }

  function ShowPost(post: string): string { if post == "" then "" else ".post" + post }

  function Show(v: Version): string { v.base + (v.kind + (v.number + ShowPost(v.post))) }

  predicate IsBase(s: string) { s != "" && BaseLen(s) == |s| }

  ghost predicate WellFormed(v: Version) {
    && IsBase(v.base)
    && (v.kind == "" || v.kind == "a" || v.kind == "b" || v.kind == "rc")
    && (if v.kind == "" then v.number == "" else Digits(v.number))
    && AllDigits(v.post)
  }

  // ----- the functions of the module -----

  function Normalize(version: string): Result<string> {
    var normalized := Substituted(RemovePrefix(Strip(version)));
    if ParseVersion(normalized).Some? then Ok(normalized) else Err
  }

  function LongName(kind: string): string {
    if kind == "a" then "-alpha" else if kind == "b" then "-beta" else "-rc"
  }

  /** The release name of a normalised version. */
  function ReleaseName(v: Version): string {
    if v.kind == "a" && v.post != "" then v.base + "-alpha." + v.number + "." + v.post
    else if v.kind != "" && v.post == "" then v.base + LongName(v.kind) + "." + v.number
    else Show(v)
  }

  function CodexReleaseVersion(version: string): Result<string> {
    match Normalize(version)
    case Ok(n) =>
      (match ParseVersion(n)
       case Some(v) => Ok(ReleaseName(v))
       case None => Ok(n))
    case Err => Err
  }

  function CodexReleaseTag(version: string): Result<string> {
    match CodexReleaseVersion(version)
    case Ok(r) => Ok("rust-v" + r)
    case Err => Err
  }

  // ----- digits at the ends -----

  lemma {:induction false} TailOf(a: string, d: string)
    requires AllDigits(d) && (a == "" || !IsDigit(a[|a| - 1]))
    ensures TailDigits(a + d) == |d| && Tail(a + d) == d && Front(a + d) == a
    decreases |d|
  {
    var s := a + d;
    if d == "" {
      assert s == a;
    } else {
      var n := |d| - 1;
      assert s[..|s| - 1] == a + d[..n];
      TailOf(a, d[..n]);
    }
  }

  lemma {:induction false} TailSpec(s: string)
    ensures AllDigits(Tail(s)) && s == Front(s) + Tail(s)
    ensures Front(s) == "" || !IsDigit(Front(s)[|Front(s)| - 1])
    decreases |s|
  {
    if s != "" && IsDigit(s[|s| - 1]) {
      TailSpec(s[..|s| - 1]);
      TailStep(s);
    }
  }

  lemma TailStep(s: string)
    requires s != "" && IsDigit(s[|s| - 1])
    ensures var n := |s| - 1; Front(s) == Front(s[..n]) && Tail(s) == Tail(s[..n]) + [s[n]]
  {}

  lemma {:induction false} HeadOf(d: string, b: string)
    requires AllDigits(d) && (b == "" || !IsDigit(b[0]))
    ensures HeadDigits(d + b) == |d|
    decreases |d|
  {
    if d == "" {
      assert d + b == b;
    } else {
      assert (d + b)[1..] == d[1..] + b;
      HeadOf(d[1..], b);
    }
  }

  lemma {:induction false} HeadSpec(s: string)
    ensures AllDigits(s[..HeadDigits(s)])
    ensures HeadDigits(s) < |s| ==> !IsDigit(s[HeadDigits(s)])
    ensures DigitAt(s, 0) ==> HeadDigits(s) > 0
    decreases |s|
  {
    if s != "" && IsDigit(s[0]) {
      HeadSpec(s[1..]);
      assert s[..HeadDigits(s)] == [s[0]] + s[1..][..HeadDigits(s[1..])];
    }
  }

  // ----- what the patterns describe -----

  /** `s` is `before`, the name, maybe a dot, and digits to the end. */
  ghost predicate PreShape(s: string, name: string, before: string, dot: string, number: string) {
    (dot == "" || dot == ".") && Digits(number) && s == before + name + dot + number
  }

  lemma EndOf(a: string, t: string)
    ensures EndsWith(a + t, t) && DropEnd(a + t, |t|) == a
  {}

  /** A name that ends in a letter is found in front of the digits, with or without a dot. */
  lemma MatchPreFinds(s: string, name: string, before: string, dot: string, number: string)
    requires PreShape(s, name, before, dot, number)
    requires name != "" && !IsDigit(name[|name| - 1]) && name[|name| - 1] != '.'
    ensures MatchPre(s, name) == Some((before, number))
  {
    var f := before + name + dot;
    TailOf(f, number);
    EndOf(before + name, dot);
    EndOf(before, name);
    if dot == "" { assert f == before + name; }
  }

  /** The function matches exactly the strings the pattern describes, and returns the groups. */
  lemma MatchPreSpec(s: string, name: string)
    requires name != "" && !IsDigit(name[|name| - 1]) && name[|name| - 1] != '.'
    ensures forall before, dot, number :: PreShape(s, name, before, dot, number) ==>
              MatchPre(s, name) == Some((before, number))
    ensures forall before, number :: MatchPre(s, name) == Some((before, number)) ==>
              PreShape(s, name, before, "", number) || PreShape(s, name, before, ".", number)
  {
    forall before, dot, number | PreShape(s, name, before, dot, number)
      ensures MatchPre(s, name) == Some((before, number))
    {
      MatchPreFinds(s, name, before, dot, number);
    }
    if MatchPre(s, name).Some? { MatchPreOnly(s, name); }
  }

  lemma MatchPreOnly(s: string, name: string)
    requires MatchPre(s, name).Some?
    ensures var (before, number) := MatchPre(s, name).value;
            PreShape(s, name, before, "", number) || PreShape(s, name, before, ".", number)
  {
    var (before, number) := MatchPre(s, name).value;
    TailSpec(s);
    var f := DropDot(Front(s));
    assert f == before + name;
    if EndsWith(Front(s), ".") {
      assert Front(s) == f + ".";
      assert s == before + name + "." + number;
    } else {
      assert s == before + name + "" + number;
    }
  }

  ghost predicate HotfixShape(s: string, before: string, dot: string, alpha: string, hotfix: string) {
    (dot == "" || dot == ".") && Digits(alpha) && Digits(hotfix)
    && s == before + "-alpha" + dot + alpha + "." + hotfix
  }

  lemma MatchHotfixFinds(s: string, before: string, dot: string, alpha: string, hotfix: string)
    requires HotfixShape(s, before, dot, alpha, hotfix)
    ensures MatchHotfix(s) == Some((before, alpha, hotfix))
  {
    var p := before + "-alpha" + dot + alpha;
    TailOf(p + ".", hotfix);
    EndOf(p, ".");
    assert PreShape(p, "-alpha", before, dot, alpha);
    MatchPreFinds(p, "-alpha", before, dot, alpha);
  }

  lemma MatchHotfixSpec(s: string)
    ensures forall before, dot, alpha, hotfix :: HotfixShape(s, before, dot, alpha, hotfix) ==>
              MatchHotfix(s) == Some((before, alpha, hotfix))
    ensures forall before, alpha, hotfix :: MatchHotfix(s) == Some((before, alpha, hotfix)) ==>
              HotfixShape(s, before, "", alpha, hotfix) || HotfixShape(s, before, ".", alpha, hotfix)
  {
    forall before, dot, alpha, hotfix | HotfixShape(s, before, dot, alpha, hotfix)
      ensures MatchHotfix(s) == Some((before, alpha, hotfix))
    {
      MatchHotfixFinds(s, before, dot, alpha, hotfix);
    }
    if MatchHotfix(s).Some? { MatchHotfixOnly(s); }
  }

  lemma MatchHotfixOnly(s: string)
    requires MatchHotfix(s).Some?
    ensures var (before, alpha, hotfix) := MatchHotfix(s).value;
            HotfixShape(s, before, "", alpha, hotfix) || HotfixShape(s, before, ".", alpha, hotfix)
  {
    var p := DropEnd(Front(s), 1);
    TailSpec(s);
    MatchPreOnly(p, "-alpha");
    assert s == p + "." + Tail(s);
    hide MatchPre, Front, Tail, TailDigits;
  }

  // ----- the grammar and its printer undo each other -----

  lemma {:induction false} BaseThen(base: string, rest: string)
    requires IsBase(base) && BaseStops(rest)
    ensures BaseLen(base + rest) == |base|
    decreases |base|
  {
    var n := HeadDigits(base);
    HeadSpec(base);
    HeadThen(base, n, rest);
    if n < |base| {
      BaseThen(base[n + 1..], rest);
      assert (base + rest)[n + 1..] == base[n + 1..] + rest;
    }
  }

  lemma HeadThen(base: string, n: nat, rest: string)
    requires n <= |base| && AllDigits(base[..n]) && (n < |base| ==> !IsDigit(base[n]))
    requires n == |base| ==> rest == "" || !IsDigit(rest[0])
    ensures HeadDigits(base + rest) == n
  {
    assert base + rest == base[..n] + (base[n..] + rest);
    HeadOf(base[..n], base[n..] + rest);
  }

  /** No digit and no further component follows. */
  predicate BaseStops(rest: string) { rest == "" || (!IsDigit(rest[0]) && !(rest[0] == '.' && DigitAt(rest, 1))) }

  lemma {:induction false} BaseSpec(s: string)
    requires BaseLen(s) > 0
    ensures IsBase(s[..BaseLen(s)]) && BaseStops(s[BaseLen(s)..])
    decreases |s|
  {
    var n := HeadDigits(s);
    HeadSpec(s);
    if n < |s| && s[n] == '.' && DigitAt(s, n + 1) {
      HeadSpec(s[n + 1..]);
      BaseSpec(s[n + 1..]);
      BaseMore(s, n);
    } else {
      BaseLast(s, n);
    }
  }

  lemma BaseLast(s: string, n: nat)
    requires 0 < n <= |s| && AllDigits(s[..n]) && BaseLen(s) == n
    ensures IsBase(s[..n])
  {
    assert s[..n] + "" == s[..n];
    HeadOf(s[..n], "");
  }

  lemma BaseMore(s: string, n: nat)
    requires 0 < n < |s| && s[n] == '.' && AllDigits(s[..n])
    requires var t := s[n + 1..];
             BaseLen(s) == n + 1 + BaseLen(t) && IsBase(t[..BaseLen(t)]) && BaseStops(t[BaseLen(t)..])
    ensures IsBase(s[..BaseLen(s)]) && BaseStops(s[BaseLen(s)..])
  {
    hide BaseLen, IsBase, BaseStops;
    var k := BaseLen(s[n + 1..]);
    BaseGlue(s[..n], s[n + 1..][..k]);
    BaseSlices(s, n, k);
  }

  lemma BaseSlices(s: string, n: nat, k: nat)
    requires n + 1 + k <= |s| && s[n] == '.'
    ensures s[..n + 1 + k] == s[..n] + ("." + s[n + 1..][..k])
    ensures s[n + 1 + k..] == s[n + 1..][k..]
  {}

  lemma BaseGlue(d: string, base: string)
    requires Digits(d) && IsBase(base)
    ensures IsBase(d + ("." + base))
  {
    HeadOf(d, "." + base);
    var s := d + ("." + base);
    assert s[|d| + 1..] == base;
    HeadSpec(base);
  }

  lemma PostParses(post: string)
    requires AllDigits(post)
    ensures ParsePost(ShowPost(post)) == Some(post)
  {
    if post != "" {
      var s := ".post" + post;
      assert s[5..] == post;
      assert post + "" == post;
      HeadOf(post, "");
    }
  }

  lemma PostHead(post: string)
    ensures var s := ShowPost(post); s == "" || (s[0] == '.' && !DigitAt(s, 1) && !IsDigit(s[0]))
    ensures KindAt(ShowPost(post)) == ""
  {}

  /** What follows the base of a well-formed version. */
  lemma AfterBase(v: Version)
    requires WellFormed(v)
    ensures var rest := v.kind + (v.number + ShowPost(v.post));
            && BaseStops(rest)
            && KindAt(rest) == v.kind
            && (v.kind != "" ==> HeadDigits(rest[|v.kind|..]) == |v.number|)
  {
    var rest := v.kind + (v.number + ShowPost(v.post));
    PostHead(v.post);
    if v.kind == "" {
      assert rest == ShowPost(v.post);
    } else {
      assert rest[|v.kind|..] == v.number + ShowPost(v.post);
      assert rest[0] == v.kind[0] && rest[|v.kind|] == v.number[0];
      HeadOf(v.number, ShowPost(v.post));
    }
  }

  lemma ParseShow(v: Version)
    requires WellFormed(v)
    ensures ParseVersion(Show(v)) == Some(v)
  {
    AfterBase(v);
    BaseThen(v.base, v.kind + (v.number + ShowPost(v.post)));
    PostParses(v.post);
    var rest := v.kind + (v.number + ShowPost(v.post));
    hide BaseLen, KindAt, HeadDigits, ParsePost, ShowPost, BaseStops, WellFormed;
    Cut(v.base, v.kind, v.number, ShowPost(v.post));
    ParsePieces(v.base + rest, |v.base|, rest, v.kind, |v.number|, v.post);
  }

  lemma ParsePieces(s: string, n: nat, rest: string, kind: string, k: nat, post: string)
    requires 0 < n <= |s| && BaseLen(s) == n && s[n..] == rest && KindAt(rest) == kind
    requires |kind| + k <= |rest| && k == if kind == "" then 0 else HeadDigits(rest[|kind|..])
    requires ParsePost(rest[|kind| + k..]) == Some(post)
    ensures ParseVersion(s) == Some(Version(s[..n], kind, rest[|kind|..][..k], post))
  {
    hide BaseLen, KindAt, HeadDigits, ParsePost;
  }

  lemma Cut(base: string, kind: string, number: string, post: string)
    ensures var rest := kind + (number + post);
            var s := base + rest;
            && s[..|base|] == base && s[|base|..] == rest
            && rest[|kind|..] == number + post && rest[|kind|..][..|number|] == number
            && rest[|kind| + |number|..] == post
  {}

  lemma PostSpec(p: string)
    requires ParsePost(p).Some?
    ensures AllDigits(ParsePost(p).value) && p == ShowPost(ParsePost(p).value)
  {
    if p != "" {
      HeadSpec(p[5..]);
      assert p[5..][..|p| - 5] == p[5..];
      assert p == ".post" + p[5..];
    }
  }

  lemma KindSpec(rest: string)
    ensures var kind := KindAt(rest);
            && kind <= rest && (kind == "" || kind == "a" || kind == "b" || kind == "rc")
            && (kind != "" ==> HeadDigits(rest[|kind|..]) > 0)
  {}

  lemma ShowParse(s: string)
    requires ParseVersion(s).Some?
    ensures WellFormed(ParseVersion(s).value) && Show(ParseVersion(s).value) == s
  {
    var v := ParseVersion(s).value;
    ParsedPieces(s);
    hide ParseVersion, WellFormed;
    Pieces(s, v.base, v.kind, v.number, ShowPost(v.post));
  }

  /** The parts of an accepted version are those of its text. */
  lemma ParsedPieces(s: string)
    requires ParseVersion(s).Some?
    ensures var v := ParseVersion(s).value;
            && WellFormed(v)
            && |v.base| <= |s| && v.base == s[..|v.base|]
            && var rest := s[|v.base|..];
               && v.kind <= rest && |v.kind| + |v.number| <= |rest|
               && v.number == rest[|v.kind|..][..|v.number|] && ShowPost(v.post) == rest[|v.kind| + |v.number|..]
  {
    var v := ParseVersion(s).value;
    var rest := s[BaseLen(s)..];
    BaseSpec(s);
    KindSpec(rest);
    HeadSpec(rest[|v.kind|..]);
    PostSpec(rest[|v.kind| + |v.number|..]);
  }

  lemma Pieces(s: string, base: string, kind: string, number: string, post: string)
    requires |base| <= |s| && base == s[..|base|]
    requires var rest := s[|base|..];
             && kind <= rest && |kind| + |number| <= |rest| && number == rest[|kind|..][..|number|]
             && post == rest[|kind| + |number|..]
    ensures base + (kind + (number + post)) == s
  {
    var rest := s[|base|..];
    assert rest[|kind|..] == number + post;
    assert rest == kind + (number + post);
  }

  // ----- what normalising does to the strings it produces itself -----

  predicate PlainChar(c: char) { IsDigit(c) || c == '.' || 'a' <= c <= 'z' }

  ghost predicate Plain(s: string) { forall i :: 0 <= i < |s| ==> PlainChar(s[i]) }

  lemma {:induction false} BasePlain(s: string)
    requires IsBase(s)
    ensures Plain(s) && IsDigit(s[0]) && IsDigit(s[|s| - 1])
    decreases |s|
  {
    var n := HeadDigits(s);
    HeadSpec(s);
    assert forall i :: 0 <= i < n ==> IsDigit(s[..n][i]) && s[..n][i] == s[i];
    if n < |s| {
      BasePlain(s[n + 1..]);
      assert forall i :: n + 1 <= i < |s| ==> s[i] == s[n + 1..][i - n - 1];
    }
  }

  lemma ShowPlain(v: Version)
    requires WellFormed(v)
    ensures Plain(Show(v)) && IsDigit(Show(v)[0])
    ensures IsDigit(Show(v)[|Show(v)| - 1])
  {
    BasePlain(v.base);
    assert Plain(v.kind) && Plain(v.number) && Plain(ShowPost(v.post));
    var s := Show(v);
    if v.post != "" {
      assert s[|s| - 1] == v.post[|v.post| - 1];
    } else if v.number != "" {
      assert s[|s| - 1] == v.number[|v.number| - 1];
    } else {
      assert s == v.base;
    }
  }

  lemma StripNone(s: string)
    requires s != "" && !IsSpace(s[0]) && !IsSpace(s[|s| - 1])
    ensures Strip(s) == s
  {}

  /** Without a hyphen no substitution applies. */
  lemma NoHyphen(s: string, name: string, short: string)
    requires Plain(s) && name != "" && name[0] == '-'
    ensures SubPre(s, name, short) == s && SubHotfix(s) == s
  {
    PlainNoPre(s, name);
    if TailDigits(s) > 0 && EndsWith(Front(s), ".") {
      PlainNoPre(DropEnd(Front(s), 1), "-alpha");
    }
  }

  lemma PlainNoPre(s: string, name: string)
    requires Plain(s) && name != "" && name[0] == '-'
    ensures MatchPre(s, name).None?
  {
    var f := DropDot(Front(s));
    assert Plain(f) by { assert f <= s; }
    assert |name| <= |f| ==> f[|f| - |name|..][0] == f[|f| - |name|];
  }

  /** The substitutions leave a normalised version as it is. */
  lemma SubsKeep(v: Version)
    requires WellFormed(v)
    ensures var s := Show(v);
            && SubHotfix(s) == s && SubPre(s, "-alpha", "a") == s && SubPre(s, "-beta", "b") == s
            && SubPre(s, "-rc", "rc") == s
  {
    ShowPlain(v);
    NoHyphen(Show(v), "-alpha", "a");
    NoHyphen(Show(v), "-beta", "b");
    NoHyphen(Show(v), "-rc", "rc");
  }

  lemma HotfixNameSubstituted(v: Version)
    requires WellFormed(v) && v.kind == "a" && v.post != ""
    ensures Substituted(ReleaseName(v)) == Show(v)
  {
    assert ReleaseName(v) == v.base + "-alpha" + "." + v.number + "." + v.post;
    assert v == Version(v.base, "a", v.number, v.post);
    hide Substituted, ReleaseName, Show, IsBase;
    HotfixAnyDot(v.base, ".", v.number, v.post);
  }

  lemma PreNameSubstituted(v: Version)
    requires WellFormed(v) && v.kind != "" && v.post == ""
    ensures Substituted(ReleaseName(v)) == Show(v)
  {
    var s, name := ReleaseName(v), LongName(v.kind);
    assert v.base + v.kind + v.number == Show(v);
    assert PreShape(s, name, v.base, ".", v.number);
    MatchPreFinds(s, name, v.base, ".", v.number);
    NotHotfix(v.base + name, v.number);
    OtherNames(v.base, name, v.number);
    hide MatchPre, MatchHotfix, Show, ReleaseName;
    SubsKeep(v);
  }

  /** The release name goes back to the version it came from. */
  lemma NameSubstituted(v: Version)
    requires WellFormed(v)
    ensures Substituted(ReleaseName(v)) == Show(v) && Substituted(Show(v)) == Show(v)
  {
    hide Substituted;
    if v.kind == "a" && v.post != "" {
      HotfixNameSubstituted(v);
    } else if v.kind != "" && v.post == "" {
      PreNameSubstituted(v);
    }
    ShownSubstituted(v);
  }

  lemma ShownSubstituted(v: Version)
    requires WellFormed(v)
    ensures Substituted(Show(v)) == Show(v)
  {
    SubsKeep(v);
  }

  /** A single number after a name is no hotfix. */
  lemma NotHotfix(p: string, number: string)
    requires Digits(number) && p != "" && !IsDigit(p[|p| - 1])
    ensures MatchHotfix(p + "." + number).None?
  {
    var s := p + "." + number;
    TailOf(p + ".", number);
    EndOf(p, ".");
    TailOf(p, "");
    assert p + "" == p;
  }

  /** The three names are told apart. */
  lemma OtherNames(base: string, name: string, number: string)
    requires Digits(number) && (name == "-alpha" || name == "-beta" || name == "-rc")
    ensures var s := base + name + "." + number;
            && (name != "-alpha" ==> MatchPre(s, "-alpha").None?)
            && (name != "-beta" ==> MatchPre(s, "-beta").None?)
            && (name != "-rc" ==> MatchPre(s, "-rc").None?)
  {
    var f := base + name;
    TailOf(f + ".", number);
    EndOf(f, ".");
    assert forall t: string :: EndsWith(f, t) && |t| >= 2 ==> f[|f| - 2] == t[|t| - 2];
    assert |name| >= 2 && f[|f| - 2] == name[|name| - 2];
  }

  lemma NormalizeShown(prefix: string, v: Version, text: string)
    requires WellFormed(v) && (prefix == "" || prefix == "v" || prefix == "rust-v")
    requires text == Show(v) || text == ReleaseName(v)
    ensures Normalize(prefix + text) == Ok(Show(v))
  {
    NameEnds(v);
    ShowPlain(v);
    Unwrapped(prefix, text);
    ParseShow(v);
    NameSubstituted(v);
    hide ParseVersion, Strip, RemovePrefix, Show, ReleaseName, SubHotfix, SubPre, WellFormed;
    NormalizeFrom(prefix + text, text);
  }

  lemma NormalizeFrom(version: string, text: string)
    requires RemovePrefix(Strip(version)) == text && ParseVersion(Substituted(text)).Some?
    ensures Normalize(version) == Ok(Substituted(text))
  {}

  lemma Unwrapped(prefix: string, text: string)
    requires text != "" && IsDigit(text[0]) && IsDigit(text[|text| - 1])
    requires prefix == "" || prefix == "v" || prefix == "rust-v"
    ensures RemovePrefix(Strip(prefix + text)) == text
  {
    var s := prefix + text;
    assert s[0] == if prefix == "" then text[0] else prefix[0];
    assert s[|s| - 1] == text[|text| - 1];
    StripNone(s);
    PrefixRemoved(prefix, text);
  }

  lemma NameEnds(v: Version)
    requires WellFormed(v)
    ensures var s := ReleaseName(v); s != "" && IsDigit(s[0]) && IsDigit(s[|s| - 1])
  {
    BasePlain(v.base);
    ShowPlain(v);
    var s := ReleaseName(v);
    if v.kind == "a" && v.post != "" {
      assert s[|s| - 1] == v.post[|v.post| - 1];
    } else if v.kind != "" && v.post == "" {
      assert s[|s| - 1] == v.number[|v.number| - 1];
    }
    assert s[0] == v.base[0];
  }

  lemma PrefixRemoved(prefix: string, text: string)
    requires text != "" && IsDigit(text[0]) && (prefix == "" || prefix == "v" || prefix == "rust-v")
    ensures RemovePrefix(prefix + text) == text
  {
    var s := prefix + text;
    assert s[|prefix|..] == text;
    if prefix == "" {
      assert s == text && "rust-v"[0] == 'r' && "v"[0] == 'v';
    } else if prefix == "v" {
      assert s[0] == 'v' && "rust-v"[0] == 'r';
    } else {
      assert s[..6] == "rust-v";
    }
  }

  /** For every accepted version: its tag normalises to the same version as it does. */
  lemma TagRoundTrip(version: string)
    requires Normalize(version).Ok?
    ensures CodexReleaseTag(version).Ok?
    ensures Normalize(CodexReleaseTag(version).value) == Normalize(version)
  {
    var n := Normalize(version).value;
    ShowParse(n);
    NormalizeShown("rust-v", ParseVersion(n).value, ReleaseName(ParseVersion(n).value));
  }

  /** Normalising is idempotent, so different normalised versions have different tags. */
  lemma TagInjective(a: string, b: string)
    requires CodexReleaseTag(a).Ok? && CodexReleaseTag(a) == CodexReleaseTag(b)
    ensures Normalize(a) == Normalize(b)
  {
    TagRoundTrip(a);
    TagRoundTrip(b);
  }

  lemma NormalizeIdempotent(version: string)
    requires Normalize(version).Ok?
    ensures Normalize(Normalize(version).value) == Normalize(version)
  {
    var n := Normalize(version).value;
    ShowParse(n);
    NormalizeShown("", ParseVersion(n).value, n);
    assert "" + n == n;
  }

  // ----- versions and tags, letter by letter -----

  ghost predicate Numeral(s: string) { s != "" && forall i :: 0 <= i < |s| ==> '0' <= s[i] <= '9' }

  ghost predicate Numerals(groups: seq<string>) { groups != [] && forall i :: 0 <= i < |groups| ==> Numeral(groups[i]) }

  function JoinDots(groups: seq<string>): string
    requires groups != []
    decreases |groups|
  {
    if |groups| == 1 then groups[0] else groups[0] + "." + JoinDots(groups[1..])
  }

  lemma {:induction false} GroupsAreBase(groups: seq<string>)
    requires Numerals(groups)
    ensures IsBase(JoinDots(groups))
    decreases |groups|
  {
    hide IsBase;
    var first := groups[0];
    assert Numeral(first) && AllDigits(first);
    if |groups| == 1 {
      DigitsAreBase(first);
    } else {
      assert Numerals(groups[1..]);
      GroupsAreBase(groups[1..]);
      BaseGlue(first, JoinDots(groups[1..]));
      Assoc(first, ".", JoinDots(groups[1..]));
    }
  }

  lemma DigitsAreBase(d: string)
    requires Digits(d)
    ensures IsBase(d)
  {
    assert d + "" == d;
    HeadOf(d, "");
  }

  /** Every base is numerals with dots between. */
  lemma {:induction false} BaseIsGroups(s: string) returns (groups: seq<string>)
    requires IsBase(s)
    ensures Numerals(groups) && JoinDots(groups) == s
    decreases |s|
  {
    var n := HeadDigits(s);
    HeadSpec(s);
    var first := s[..n];
    assert Numeral(first);
    if n < |s| && s[n] == '.' && DigitAt(s, n + 1) {
      var rest := s[n + 1..];
      assert BaseLen(s) == n + 1 + BaseLen(rest);
      var more := BaseIsGroups(rest);
      groups := [first] + more;
      assert groups[1..] == more;
      assert s == first + "." + rest;
    } else {
      groups := [first];
      assert first == s;
    }
  }

  /** The tag of each form of a normalised version. */
  lemma TagSpelled(groups: seq<string>, number: string, post: string)
    requires Numerals(groups) && Numeral(number) && Numeral(post)
    ensures var base := JoinDots(groups);
            && CodexReleaseTag(base + "a" + number + ".post" + post) == Ok("rust-v" + base + "-alpha." + number + "." + post)
            && CodexReleaseTag(base + "a" + number) == Ok("rust-v" + base + "-alpha." + number)
            && CodexReleaseTag(base + "b" + number) == Ok("rust-v" + base + "-beta." + number)
            && CodexReleaseTag(base + "rc" + number) == Ok("rust-v" + base + "-rc." + number)
            && CodexReleaseTag(base) == Ok("rust-v" + base)
            && CodexReleaseTag(base + ".post" + post) == Ok("rust-v" + base + ".post" + post)
            && CodexReleaseTag(base + "b" + number + ".post" + post) == Ok("rust-v" + base + "b" + number + ".post" + post)
            && CodexReleaseTag(base + "rc" + number + ".post" + post) == Ok("rust-v" + base + "rc" + number + ".post" + post)
  {
    var base := JoinDots(groups);
    GroupsAreBase(groups);
    assert AllDigits(number) && AllDigits(post) && number != "" && post != "";
    NameSpelled(base, number, post);
    ShowSpelled(base, number, post);
    hide JoinDots, IsBase, ReleaseName, Show, CodexReleaseTag;
    TagOf(Version(base, "a", number, post));
    TagOf(Version(base, "a", number, ""));
    TagOf(Version(base, "b", number, ""));
    TagOf(Version(base, "rc", number, ""));
    TagOf(Version(base, "", "", ""));
    TagOf(Version(base, "", "", post));
    TagOf(Version(base, "b", number, post));
    TagOf(Version(base, "rc", number, post));
  }

  lemma TagOf(v: Version)
    requires WellFormed(v)
    ensures CodexReleaseTag(Show(v)) == Ok("rust-v" + ReleaseName(v)) && Normalize(Show(v)) == Ok(Show(v))
  {
    ParseShow(v);
    assert "" + Show(v) == Show(v);
    NormalizeShown("", v, Show(v));
    hide Normalize, Show, ReleaseName, ParseVersion, WellFormed;
  }

  lemma ShowSpelled(base: string, number: string, post: string)
    requires number != "" && post != ""
    ensures Show(Version(base, "a", number, post)) == base + "a" + number + ".post" + post
    ensures Show(Version(base, "a", number, "")) == base + "a" + number
    ensures Show(Version(base, "b", number, "")) == base + "b" + number
    ensures Show(Version(base, "rc", number, "")) == base + "rc" + number
    ensures Show(Version(base, "", "", "")) == base
    ensures Show(Version(base, "", "", post)) == base + ".post" + post
    ensures Show(Version(base, "b", number, post)) == base + "b" + number + ".post" + post
    ensures Show(Version(base, "rc", number, post)) == base + "rc" + number + ".post" + post
  {}

  lemma Assoc(a: string, b: string, c: string)
    ensures (a + b) + c == a + (b + c)
  {}

  lemma NameSpelled(base: string, number: string, post: string)
    requires number != "" && post != ""
    ensures "rust-v" + ReleaseName(Version(base, "a", number, post)) == "rust-v" + base + "-alpha." + number + "." + post
    ensures "rust-v" + ReleaseName(Version(base, "a", number, "")) == "rust-v" + base + "-alpha." + number
    ensures "rust-v" + ReleaseName(Version(base, "b", number, "")) == "rust-v" + base + "-beta." + number
    ensures "rust-v" + ReleaseName(Version(base, "rc", number, "")) == "rust-v" + base + "-rc." + number
    ensures "rust-v" + ReleaseName(Version(base, "", "", "")) == "rust-v" + base
    ensures "rust-v" + ReleaseName(Version(base, "", "", post)) == "rust-v" + base + ".post" + post
    ensures "rust-v" + ReleaseName(Version(base, "b", number, post)) == "rust-v" + base + "b" + number + ".post" + post
    ensures "rust-v" + ReleaseName(Version(base, "rc", number, post)) == "rust-v" + base + "rc" + number + ".post" + post
  {
    PreSpelled(base, number, post);
    PostSpelled(base, number, post);
  }

  lemma PreSpelled(base: string, number: string, post: string)
    requires number != "" && post != ""
    ensures "rust-v" + ReleaseName(Version(base, "a", number, post)) == "rust-v" + base + "-alpha." + number + "." + post
    ensures "rust-v" + ReleaseName(Version(base, "a", number, "")) == "rust-v" + base + "-alpha." + number
    ensures "rust-v" + ReleaseName(Version(base, "b", number, "")) == "rust-v" + base + "-beta." + number
    ensures "rust-v" + ReleaseName(Version(base, "rc", number, "")) == "rust-v" + base + "-rc." + number
    ensures "rust-v" + ReleaseName(Version(base, "", "", "")) == "rust-v" + base
  {
    assert ReleaseName(Version(base, "a", number, post)) == base + "-alpha." + number + "." + post;
    assert ReleaseName(Version(base, "a", number, "")) == base + "-alpha" + "." + number;
    assert ReleaseName(Version(base, "b", number, "")) == base + "-beta" + "." + number;
    assert ReleaseName(Version(base, "rc", number, "")) == base + "-rc" + "." + number;
    assert ReleaseName(Version(base, "", "", "")) == base;
    hide ReleaseName;
    Dotted(base, "-alpha", number);
    Dotted(base, "-beta", number);
    Dotted(base, "-rc", number);
    FourParts("rust-v", base, "-alpha." + number, "." + post);
    Assoc(base, "-alpha.", number);
    Assoc(base + ("-alpha." + number), ".", post);
    Assoc("rust-v" + base, "-alpha.", number);
    Assoc("rust-v" + base + "-alpha." + number, ".", post);
  }

  lemma FourParts(a: string, b: string, c: string, d: string)
    ensures a + (b + c + d) == a + b + c + d
  {}

  lemma Dotted(base: string, name: string, number: string)
    ensures "rust-v" + (base + name + "." + number) == "rust-v" + base + (name + ".") + number
  {}

  lemma PostSpelled(base: string, number: string, post: string)
    requires number != "" && post != ""
    ensures "rust-v" + ReleaseName(Version(base, "", "", post)) == "rust-v" + base + ".post" + post
    ensures "rust-v" + ReleaseName(Version(base, "b", number, post)) == "rust-v" + base + "b" + number + ".post" + post
    ensures "rust-v" + ReleaseName(Version(base, "rc", number, post)) == "rust-v" + base + "rc" + number + ".post" + post
  {
    ShowSpelled(base, number, post);
    assert ReleaseName(Version(base, "", "", post)) == Show(Version(base, "", "", post));
    assert ReleaseName(Version(base, "b", number, post)) == Show(Version(base, "b", number, post));
    assert ReleaseName(Version(base, "rc", number, post)) == Show(Version(base, "rc", number, post));
    hide ReleaseName, Show;
    FourParts("rust-v", base, ".post", post);
    FiveParts("rust-v", base, "b", number, ".post", post);
    FiveParts("rust-v", base, "rc", number, ".post", post);
  }

  lemma FiveParts(a: string, b: string, c: string, d: string, e: string, f: string)
    ensures a + (b + c + d + e + f) == a + b + c + d + e + f
  {}

  /** And nothing else is accepted. */
  lemma AcceptedSpelled(version: string) returns (groups: seq<string>, kind: string, number: string, post: string)
    requires Normalize(version).Ok?
    ensures Numerals(groups) && (kind == "" || kind == "a" || kind == "b" || kind == "rc")
    ensures if kind == "" then number == "" else Numeral(number)
    ensures post == "" || Numeral(post)
    ensures Normalize(version).value == JoinDots(groups) + kind + number + (if post == "" then "" else ".post" + post)
  {
    var v := ParseVersion(Normalize(version).value).value;
    AcceptedForm(version);
    hide Normalize, ParseVersion, IsBase, BaseLen, Show;
    groups := BaseIsGroups(v.base);
    kind, number, post := v.kind, v.number, v.post;
    DigitsAreNumeral(number);
    DigitsAreNumeral(post);
  }

  lemma DigitsAreNumeral(d: string)
    requires AllDigits(d)
    ensures d != "" ==> Numeral(d)
  {}

  lemma AcceptedForm(version: string)
    requires Normalize(version).Ok?
    ensures ParseVersion(Normalize(version).value).Some?
    ensures var v := ParseVersion(Normalize(version).value).value;
            && IsBase(v.base) && (v.kind == "" || v.kind == "a" || v.kind == "b" || v.kind == "rc")
            && (if v.kind == "" then v.number == "" else Digits(v.number)) && AllDigits(v.post) && AllDigits(v.number)
            && Normalize(version).value == v.base + v.kind + v.number + (if v.post == "" then "" else ".post" + v.post)
  {
    var n := Normalize(version).value;
    ShowParse(n);
    ShowLeft(ParseVersion(n).value);
    hide ParseVersion, Show;
  }

  lemma ShowLeft(v: Version)
    ensures Show(v) == v.base + v.kind + v.number + (if v.post == "" then "" else ".post" + v.post)
  {
    Assoc(v.base, v.kind, v.number + ShowPost(v.post));
    Assoc(v.base + v.kind, v.number, ShowPost(v.post));
  }

  lemma {:induction false} StripPadded(before: string, text: string, after: string)
    requires forall i :: 0 <= i < |before| ==> IsSpace(before[i])
    requires forall i :: 0 <= i < |after| ==> IsSpace(after[i])
    requires text != "" && !IsSpace(text[0]) && !IsSpace(text[|text| - 1])
    ensures Strip(before + (text + after)) == text
    decreases |before| + |after|
  {
    hide IsSpace;
    var s := before + (text + after);
    if after != "" {
      var n := |after| - 1;
      assert s[|s| - 1] == after[n] && s[..|s| - 1] == before + (text + after[..n]);
      StripPadded(before, text, after[..n]);
    } else {
      assert text + after == text;
      assert s[|s| - 1] == text[|text| - 1];
      StripStartPadded(before, text);
    }
  }

  lemma {:induction false} StripStartPadded(before: string, text: string)
    requires forall i :: 0 <= i < |before| ==> IsSpace(before[i])
    requires text != "" && !IsSpace(text[0])
    ensures StripStart(before + text) == text
    decreases |before|
  {
    hide IsSpace;
    if before == "" {
      assert before + text == text;
    } else {
      assert (before + text)[1..] == before[1..] + text;
      StripStartPadded(before[1..], text);
    }
  }

  /** The forms that are normalised: white space around, a `v` or `rust-v` in front, and the
      long names with or without a dot. */
  lemma NormalizeSpelled(before: string, prefix: string, groups: seq<string>, dot: string, number: string, post: string,
                         after: string)
    requires forall i :: 0 <= i < |before| ==> before[i] == ' ' || before[i] == '\n' || before[i] == '\t'
    requires forall i :: 0 <= i < |after| ==> after[i] == ' ' || after[i] == '\n' || after[i] == '\t'
    requires (prefix == "" || prefix == "v" || prefix == "rust-v") && (dot == "" || dot == ".")
    requires Numerals(groups) && Numeral(number) && Numeral(post)
    ensures var base := JoinDots(groups);
            && Normalize(before + (prefix + (base + "-alpha" + dot + number) + after)) == Ok(base + "a" + number)
            && Normalize(before + (prefix + (base + "-beta" + dot + number) + after)) == Ok(base + "b" + number)
            && Normalize(before + (prefix + (base + "-rc" + dot + number) + after)) == Ok(base + "rc" + number)
            && Normalize(before + (prefix + (base + "-alpha" + dot + number + "." + post) + after)) == Ok(base + "a" + number + ".post" + post)
            && Normalize(before + (prefix + (base + "a" + number) + after)) == Ok(base + "a" + number)
            && Normalize(before + (prefix + base + after)) == Ok(base)
  {
    var base := JoinDots(groups);
    GroupsAreBase(groups);
    hide JoinDots, IsBase, Show, Normalize;
    ShowSpelled(base, number, post);
    PaddedPre(before, prefix, base, "-alpha", "a", dot, number, after);
    PaddedPre(before, prefix, base, "-beta", "b", dot, number, after);
    PaddedPre(before, prefix, base, "-rc", "rc", dot, number, after);
    PaddedHotfix(before, prefix, base, dot, number, post, after);
    PaddedShort(before, prefix, base, number, after);
  }

  lemma PaddedPre(before: string, prefix: string, base: string, name: string, kind: string, dot: string, number: string,
                  after: string)
    requires forall i :: 0 <= i < |before| ==> before[i] == ' ' || before[i] == '\n' || before[i] == '\t'
    requires forall i :: 0 <= i < |after| ==> after[i] == ' ' || after[i] == '\n' || after[i] == '\t'
    requires (prefix == "" || prefix == "v" || prefix == "rust-v") && (dot == "" || dot == ".")
    requires IsBase(base) && Numeral(number)
    requires (name == "-alpha" && kind == "a") || (name == "-beta" && kind == "b") || (name == "-rc" && kind == "rc")
    ensures Normalize(before + (prefix + (base + name + dot + number) + after)) == Ok(Show(Version(base, kind, number, "")))
  {
    BaseEnds(base);
    PreAnyDot(base, name, kind, dot, number);
    hide IsBase, Substituted, Show, Normalize;
    Padded(before, prefix, base + name + dot + number, after, Version(base, kind, number, ""));
  }

  lemma PaddedHotfix(before: string, prefix: string, base: string, dot: string, number: string, post: string, after: string)
    requires forall i :: 0 <= i < |before| ==> before[i] == ' ' || before[i] == '\n' || before[i] == '\t'
    requires forall i :: 0 <= i < |after| ==> after[i] == ' ' || after[i] == '\n' || after[i] == '\t'
    requires (prefix == "" || prefix == "v" || prefix == "rust-v") && (dot == "" || dot == ".")
    requires IsBase(base) && Numeral(number) && Numeral(post)
    ensures Normalize(before + (prefix + (base + "-alpha" + dot + number + "." + post) + after))
         == Ok(Show(Version(base, "a", number, post)))
  {
    BaseEnds(base);
    HotfixAnyDot(base, dot, number, post);
    hide IsBase, Substituted, Show, Normalize;
    Padded(before, prefix, base + "-alpha" + dot + number + "." + post, after, Version(base, "a", number, post));
  }

  lemma PaddedShort(before: string, prefix: string, base: string, number: string, after: string)
    requires forall i :: 0 <= i < |before| ==> before[i] == ' ' || before[i] == '\n' || before[i] == '\t'
    requires forall i :: 0 <= i < |after| ==> after[i] == ' ' || after[i] == '\n' || after[i] == '\t'
    requires prefix == "" || prefix == "v" || prefix == "rust-v"
    requires IsBase(base) && Numeral(number)
    ensures Normalize(before + (prefix + (base + "a" + number) + after)) == Ok(Show(Version(base, "a", number, "")))
    ensures Normalize(before + (prefix + base + after)) == Ok(base)
  {
    BaseEnds(base);
    ShowSpelled(base, number, number);
    ShownSubstituted(Version(base, "a", number, ""));
    ShownSubstituted(Version(base, "", "", ""));
    hide IsBase, Substituted, Show, Normalize;
    Padded(before, prefix, base + "a" + number, after, Version(base, "a", number, ""));
    Padded(before, prefix, base, after, Version(base, "", "", ""));
  }

  lemma BaseEnds(base: string)
    requires IsBase(base)
    ensures IsDigit(base[0]) && IsDigit(base[|base| - 1])
  {
    ShowPlain(Version(base, "", "", ""));
    assert Show(Version(base, "", "", "")) == base;
  }

  lemma Padded(before: string, prefix: string, text: string, after: string, v: Version)
    requires forall i :: 0 <= i < |before| ==> before[i] == ' ' || before[i] == '\n' || before[i] == '\t'
    requires forall i :: 0 <= i < |after| ==> after[i] == ' ' || after[i] == '\n' || after[i] == '\t'
    requires prefix == "" || prefix == "v" || prefix == "rust-v"
    requires text != "" && IsDigit(text[0]) && IsDigit(text[|text| - 1])
    requires WellFormed(v) && Substituted(text) == Show(v)
    ensures Normalize(before + (prefix + text + after)) == Ok(Show(v))
  {
    var s := prefix + text;
    Ends(prefix, text);
    hide IsSpace, IsDigit;
    StripPadded(before, s, after);
    PrefixRemovedHere(prefix, text);
    ParseShow(v);
    hide Strip, RemovePrefix, Substituted, Show, ParseVersion, WellFormed;
    NormalizeFrom(before + (s + after), text);
  }

  lemma Ends(prefix: string, text: string)
    requires prefix == "" || prefix == "v" || prefix == "rust-v"
    requires text != "" && IsDigit(text[0]) && IsDigit(text[|text| - 1])
    ensures var s := prefix + text; s != "" && !IsSpace(s[0]) && !IsSpace(s[|s| - 1])
    ensures IsSpace(' ') && IsSpace('\n') && IsSpace('\t')
  {
    var s := prefix + text;
    assert s[0] == if prefix == "" then text[0] else prefix[0];
    assert s[|s| - 1] == text[|text| - 1];
  }

  lemma PrefixRemovedHere(prefix: string, text: string)
    requires text != "" && IsDigit(text[0]) && (prefix == "" || prefix == "v" || prefix == "rust-v")
    ensures RemovePrefix(prefix + text) == text
  {
    PrefixRemoved(prefix, text);
  }

  lemma PreAnyDot(base: string, name: string, kind: string, dot: string, number: string)
    requires IsBase(base) && Digits(number) && (dot == "" || dot == ".")
    requires (name == "-alpha" && kind == "a") || (name == "-beta" && kind == "b") || (name == "-rc" && kind == "rc")
    ensures Substituted(base + name + dot + number) == Show(Version(base, kind, number, ""))
  {
    var v := Version(base, kind, number, "");
    var s := base + name + dot + number;
    assert base + kind + number == Show(v);
    assert PreShape(s, name, base, dot, number);
    MatchPreFinds(s, name, base, dot, number);
    NotHotfixAnyDot(base + name, dot, number);
    OtherNamesAnyDot(base, name, dot, number);
    hide MatchPre, MatchHotfix, Show;
    SubsKeep(v);
  }

  lemma NotHotfixAnyDot(p: string, dot: string, number: string)
    requires Digits(number) && p != "" && !IsDigit(p[|p| - 1]) && p[|p| - 1] != '.' && (dot == "" || dot == ".")
    ensures MatchHotfix(p + dot + number).None?
  {
    if dot == "." {
      NotHotfix(p, number);
    } else {
      assert p + dot == p;
      TailOf(p, number);
      NoDotEnd(p);
    }
  }

  lemma NoDotEnd(p: string)
    requires p != "" && p[|p| - 1] != '.'
    ensures !EndsWith(p, ".")
  {
    assert p[|p| - 1..][0] == p[|p| - 1];
  }

  lemma OtherEnd(f: string, t: string)
    requires |f| >= 2 && |t| >= 2 && f[|f| - 2] != t[|t| - 2]
    ensures !EndsWith(f, t)
  {
    assert |t| <= |f| ==> f[|f| - |t|..][|t| - 2] == f[|f| - 2];
  }

  lemma OtherNamesAnyDot(base: string, name: string, dot: string, number: string)
    requires Digits(number) && (dot == "" || dot == ".") && (name == "-alpha" || name == "-beta" || name == "-rc")
    ensures var s := base + name + dot + number;
            && (name != "-alpha" ==> MatchPre(s, "-alpha").None?)
            && (name != "-beta" ==> MatchPre(s, "-beta").None?)
            && (name != "-rc" ==> MatchPre(s, "-rc").None?)
  {
    if dot == "." {
      OtherNames(base, name, number);
    } else {
      var f := base + name;
      assert f + dot == f;
      TailOf(f, number);
      assert f[|f| - 1] == name[|name| - 1] != '.';
      NoDotEnd(f);
      assert f[|f| - 2] == name[|name| - 2];
      assert "-alpha"[4] == 'h' && "-beta"[3] == 't' && "-rc"[1] == 'r';
      hide EndsWith, TailDigits;
      if name != "-alpha" { OtherEnd(f, "-alpha"); }
      if name != "-beta" { OtherEnd(f, "-beta"); }
      if name != "-rc" { OtherEnd(f, "-rc"); }
    }
  }

  lemma HotfixAnyDot(base: string, dot: string, number: string, post: string)
    requires IsBase(base) && Digits(number) && Digits(post) && (dot == "" || dot == ".")
    ensures Substituted(base + "-alpha" + dot + number + "." + post) == Show(Version(base, "a", number, post))
  {
    var v := Version(base, "a", number, post);
    var s := base + "-alpha" + dot + number + "." + post;
    assert HotfixShape(s, base, dot, number, post);
    MatchHotfixFinds(s, base, dot, number, post);
    ShowSpelled(base, number, post);
    assert SubHotfix(s) == Show(v);
    hide MatchHotfix, SubHotfix, HotfixShape, Show;
    OnlyHotfix(s, v);
  }

  lemma OnlyHotfix(s: string, v: Version)
    requires WellFormed(v) && SubHotfix(s) == Show(v)
    ensures Substituted(s) == Show(v)
  {
    SubsKeep(v);
    hide SubHotfix, SubPre, Show;
  }
}
