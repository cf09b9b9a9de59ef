/** Rewriting brand text while protected tokens are stashed behind numbered markers: the
    rewriting factors around the tokens. */
module Brand {
  import opened Text
  import opened Idents

  const NUL: char := '\0'
  const TAG: string := "BRAND_PROTECT_"

  function Body(n: nat): string { TAG + Decimal(n) }

  function Marker(n: nat): string { [NUL] + Body(n) + [NUL] }

  /** One replacement rule: `str::replace`, or the word-boundary form for prose. */
  datatype Rule = Literal(find: string, repl: string) | Word(find: string, repl: string)

  predicate RuleFinds(r: Rule) { r.find != "" && (r.Word? ==> IsWord(r.find)) }

  function Apply(s: string, r: Rule): string
    requires RuleFinds(r)
  {
    match r
    case Literal(find, repl) => ReplaceAll(s, find, repl)
    case Word(find, repl) => MapRuns(s, map[find := repl])
  }

  function CountRule(s: string, r: Rule): nat
    requires RuleFinds(r)
  {
    match r
    case Literal(find, _) => CountMatches(s, find)
    case Word(find, _) => CountRuns(s, find)
  }

  ghost predicate AllFind(rules: seq<Rule>) { forall i :: 0 <= i < |rules| ==> RuleFinds(rules[i]) }

  ghost predicate NoneEmpty(tokens: seq<string>) { forall i :: 0 <= i < |tokens| ==> tokens[i] != "" }

  /** The whole rule pipeline, in order. */
  function ApplyAll(s: string, rules: seq<Rule>): string
    requires AllFind(rules)
    decreases |rules|
  {
    if rules == [] then s else ApplyAll(Apply(s, rules[0]), rules[1..])
  }

  function CountAll(s: string, rules: seq<Rule>): nat
    requires AllFind(rules)
    decreases |rules|
  {
    if rules == [] then 0 else CountRule(s, rules[0]) + CountAll(Apply(s, rules[0]), rules[1..])
  }

  // ----- what the rules do to a text -----

  /** `t` is the text `s` after the rule, which fired `n` times. A literal rule puts its text
      between the same gaps, in the place of the leftmost occurrences; a word rule puts it in
      the place of the identifier runs that are the word. */
  ghost predicate RuleRun(s: string, r: Rule, t: string, n: int) {
    match r
    case Literal(find, repl) =>
      exists gaps :: LeftmostCut(gaps, find) && s == JoinWith(gaps, find) && t == JoinWith(gaps, repl) && n == |gaps| - 1
    case Word(find, repl) =>
      exists ps :: Maximal(ps) && s == Concat(ps) && t == Concat(Images(ps, map[find := repl])) && n == Equal(ps, find)
  }

  /** The rules one after the other, each on the text the one before it left. */
  ghost predicate RulesRun(s: string, rules: seq<Rule>, t: string, n: int)
    decreases |rules|
  {
    if rules == [] then t == s && n == 0
    else exists mid, k :: RuleRun(s, rules[0], mid, k) && RulesRun(mid, rules[1..], t, n - k)
  }

  lemma ApplyRuns(s: string, r: Rule)
    requires RuleFinds(r)
    ensures RuleRun(s, r, Apply(s, r), CountRule(s, r))
  {
    match r
    case Literal(find, repl) =>
      var gaps := CutAtMatches(s, find);
      ReplaceAllMeans(gaps, find, repl);
      hide ReplaceAll, CountMatches, LeftmostCut, JoinWith;
    case Word(find, repl) =>
      var ps := CutAtRuns(s);
      MapRunsMeans(ps, map[find := repl]);
      CountRunsMeans(ps, find);
      hide MapRuns, CountRuns, Maximal, Concat, Images, Equal;
  }

  /** There is only one such text and count. */
  lemma RunsOnce(s: string, r: Rule, t: string, n: int)
    requires RuleFinds(r) && RuleRun(s, r, t, n)
    ensures t == Apply(s, r) && n == CountRule(s, r)
  {
    match r
    case Literal(find, repl) =>
      var gaps :| LeftmostCut(gaps, find) && s == JoinWith(gaps, find) && t == JoinWith(gaps, repl) && n == |gaps| - 1;
      ReplaceAllMeans(gaps, find, repl);
    case Word(find, repl) =>
      var ps :| Maximal(ps) && s == Concat(ps) && t == Concat(Images(ps, map[find := repl])) && n == Equal(ps, find);
      MapRunsMeans(ps, map[find := repl]);
      CountRunsMeans(ps, find);
  }

  lemma {:induction false} ApplyAllRuns(s: string, rules: seq<Rule>)
    requires AllFind(rules)
    ensures RulesRun(s, rules, ApplyAll(s, rules), CountAll(s, rules))
    decreases |rules|
  {
    hide Apply, CountRule, RuleRun;
    if rules != [] {
      ApplyRuns(s, rules[0]);
      ApplyAllRuns(Apply(s, rules[0]), rules[1..]);
    }
  }

  lemma {:induction false} AllRunOnce(s: string, rules: seq<Rule>, t: string, n: int)
    requires AllFind(rules) && RulesRun(s, rules, t, n)
    ensures t == ApplyAll(s, rules) && n == CountAll(s, rules)
    decreases |rules|
  {
    hide Apply, CountRule, RuleRun;
    if rules != [] {
      var mid, k :| RuleRun(s, rules[0], mid, k) && RulesRun(mid, rules[1..], t, n - k);
      RunsOnce(s, rules[0], mid, k);
      AllRunOnce(mid, rules[1..], t, n - k);
    }
  }

  /** A further rule works on the text of the rules before it. */
  lemma {:induction false} OneMoreRule(s: string, rules: seq<Rule>, r: Rule, mid: string, k: int, t: string, n: int)
    requires AllFind(rules) && RuleFinds(r) && RulesRun(s, rules, mid, k) && RuleRun(mid, r, t, n)
    ensures RulesRun(s, rules + [r], t, k + n)
    decreases |rules|
  {
    hide RuleRun;
    var more := rules + [r];
    if rules == [] {
      assert more[0] == r && more[1..] == [];
      assert RulesRun(t, more[1..], t, 0);
    } else {
      var x, j :| RuleRun(s, rules[0], x, j) && RulesRun(x, rules[1..], mid, k - j);
      assert more[0] == rules[0] && more[1..] == rules[1..] + [r];
      OneMoreRule(x, rules[1..], r, mid, k - j, t, n);
    }
  }

  // ----- the text-level passes -----

  /** Every occurrence of `tok`, left to right, becomes the next numbered marker. */
  function StashScan(s: string, tok: string, next: nat): string
    requires tok != ""
  {
    if s == "" then ""
    else if tok <= s then Marker(next) + StashScan(s[|tok|..], tok, next + 1)
    else [s[0]] + StashScan(s[1..], tok, next)
  }

  function Repeat(tok: string, n: nat): seq<string> { if n == 0 then [] else [tok] + Repeat(tok, n - 1) }

  lemma {:induction false} RepeatSpec(tok: string, n: nat)
    ensures |Repeat(tok, n)| == n && forall i :: 0 <= i < n ==> Repeat(tok, n)[i] == tok
  {
    if n > 0 { RepeatSpec(tok, n - 1); }
  }

  function StashAll(s: string, stashed: seq<string>, protected: seq<string>): (r: (string, seq<string>))
    requires NoneEmpty(protected)
    decreases |protected|
  {
    if protected == [] then (s, stashed)
    else
      var tok := protected[0];
      StashAll(StashScan(s, tok, |stashed|), stashed + Repeat(tok, CountMatches(s, tok)), protected[1..])
  }

  function RestoreAll(s: string, stashed: seq<string>, i: nat): string
    requires i <= |stashed|
    decreases |stashed| - i
  {
    if i == |stashed| then s else RestoreAll(ReplaceAll(s, Marker(i), stashed[i]), stashed, i + 1)
  }

  /** `rewrite_brand_full_text`, pass by pass. */
  function BrandText(raw: string, protected: seq<string>, rules: seq<Rule>): string
    requires NoneEmpty(protected)
    requires AllFind(rules)
  {
    var (working, stashed) := StashAll(raw, [], protected);
    RestoreAll(ApplyAll(working, rules), stashed, 0)
  }

  lemma {:induction false} StashAbsent(s: string, tok: string, next: nat)
    requires tok != "" && !Occurs(tok, s)
    ensures StashScan(s, tok, next) == s && CountMatches(s, tok) == 0
    decreases |s|
  {
    if s != "" {
      OccursCons(tok, s);
      StashAbsent(s[1..], tok, next);
    }
  }

  /** Up to the first occurrence the scan copies. */
  lemma {:induction false} StashFirst(s: string, tok: string, next: nat, k: nat)
    requires tok != "" && Find(s, tok) == k
    ensures k + |tok| <= |s|
    ensures StashScan(s, tok, next) == s[..k] + (Marker(next) + StashScan(s[k + |tok|..], tok, next + 1))
    ensures CountMatches(s, tok) == 1 + CountMatches(s[k + |tok|..], tok)
    decreases |s|
  {
    hide Marker, StashScan, CountMatches;
    if tok <= s {
      StashFirstHere(s, tok, next);
    } else {
      StashFirst(s[1..], tok, next, k - 1);
      StashFirstStep(s, tok, next, k - 1);
    }
  }

  lemma StashFirstHere(s: string, tok: string, next: nat)
    requires tok != "" && tok <= s
    ensures StashScan(s, tok, next) == s[..0] + (Marker(next) + StashScan(s[0 + |tok|..], tok, next + 1))
    ensures CountMatches(s, tok) == 1 + CountMatches(s[0 + |tok|..], tok)
  {
    ScanStashes(s, tok, next);
    hide Marker, StashScan, CountMatches;
    NoGap(Marker(next) + StashScan(s[|tok|..], tok, next + 1));
    assert s[..0] == "";
  }

  lemma StashFirstStep(s: string, tok: string, next: nat, k: nat)
    requires tok != "" && s != "" && !(tok <= s) && k + |tok| <= |s[1..]|
    requires StashScan(s[1..], tok, next) == s[1..][..k] + (Marker(next) + StashScan(s[1..][k + |tok|..], tok, next + 1))
    requires CountMatches(s[1..], tok) == 1 + CountMatches(s[1..][k + |tok|..], tok)
    ensures StashScan(s, tok, next) == s[..k + 1] + (Marker(next) + StashScan(s[k + 1 + |tok|..], tok, next + 1))
    ensures CountMatches(s, tok) == 1 + CountMatches(s[k + 1 + |tok|..], tok)
  {
    hide Marker, StashScan, CountMatches;
    ScanCopies(s, tok, next);
    TailSlices(s, k, |tok|);
    var tail, rest := s[1..], s[k + 1 + |tok|..];
    assert tail[k + |tok|..] == rest;
    var scanned, more := StashScan(tail, tok, next), Marker(next) + StashScan(rest, tok, next + 1);
    assert scanned == tail[..k] + more;
    Extend([s[0]], tail[..k], more, scanned, StashScan(s, tok, next), s[..k + 1]);
  }

  lemma ScanCopies(s: string, tok: string, next: nat)
    requires tok != "" && s != "" && !(tok <= s)
    ensures StashScan(s, tok, next) == [s[0]] + StashScan(s[1..], tok, next)
    ensures CountMatches(s, tok) == CountMatches(s[1..], tok)
  {}

  lemma ScanStashes(s: string, tok: string, next: nat)
    requires tok != "" && tok <= s
    ensures StashScan(s, tok, next) == Marker(next) + StashScan(s[|tok|..], tok, next + 1)
    ensures CountMatches(s, tok) == 1 + CountMatches(s[|tok|..], tok)
  {}

  lemma TailSlices(s: string, k: nat, n: nat)
    requires s != "" && k + n <= |s[1..]|
    ensures s[1..][k + n..] == s[k + 1 + n..] && s[..k + 1] == [s[0]] + s[1..][..k]
  {}

  /** What the loop over `match_indices` maintains: the first `last` bytes are in `buf`. */
  ghost predicate Stashing(cur: string, tok: string, stashed: seq<string>, last: nat, buf: string, stashed': seq<string>)
    requires tok != "" && last <= |cur|
  {
    && buf + StashScan(cur[last..], tok, |stashed'|) == StashScan(cur, tok, |stashed|)
    && stashed' + Repeat(tok, CountMatches(cur[last..], tok)) == stashed + Repeat(tok, CountMatches(cur, tok))
  }

  lemma StashStep(cur: string, tok: string, stashed: seq<string>, last: nat, buf: string, stashed': seq<string>, k: nat)
    requires tok != "" && last <= |cur| && Find(cur[last..], tok) == k
    requires Stashing(cur, tok, stashed, last, buf, stashed')
    ensures last + k + |tok| <= |cur|
    ensures Stashing(cur, tok, stashed, last + k + |tok|, buf + cur[last..last + k] + Marker(|stashed'|), stashed' + [tok])
  {
    hide StashScan, CountMatches, Marker, Repeat, Find;
    var n := |stashed'|;
    StashFound(cur, tok, last, n, k);
    assert |stashed' + [tok]| == n + 1;
    var rest := cur[last + k + |tok|..];
    Insert(buf, StashScan(cur[last..], tok, n), cur[last..last + k], Marker(n), StashScan(rest, tok, n + 1),
           StashScan(cur, tok, |stashed|));
    RepeatMore(stashed', tok, CountMatches(rest, tok), CountMatches(cur[last..], tok),
               stashed + Repeat(tok, CountMatches(cur, tok)));
  }

  lemma StashFound(cur: string, tok: string, last: nat, n: nat, k: nat)
    requires tok != "" && last <= |cur| && Find(cur[last..], tok) == k
    ensures last + k + |tok| <= |cur|
    ensures var rest := cur[last + k + |tok|..];
            && StashScan(cur[last..], tok, n) == cur[last..last + k] + (Marker(n) + StashScan(rest, tok, n + 1))
            && CountMatches(cur[last..], tok) == 1 + CountMatches(rest, tok)
  {
    hide StashScan, CountMatches, Marker, Find;
    StashFirst(cur[last..], tok, n, k);
    Slices(cur, last, k, |tok|);
  }

  lemma Insert(buf: string, s: string, gap: string, m: string, rest: string, total: string)
    requires buf + s == total && s == gap + (m + rest)
    ensures buf + gap + m + rest == total
  {}

  lemma RepeatMore(stashed: seq<string>, tok: string, n: nat, m: nat, total: seq<string>)
    requires m == 1 + n && stashed + Repeat(tok, m) == total
    ensures stashed + [tok] + Repeat(tok, n) == total
  {
    assert Repeat(tok, m) == [tok] + Repeat(tok, n);
  }

  lemma Slices(cur: string, last: nat, k: nat, n: nat)
    requires last + k + n <= |cur|
    ensures cur[last..][..k] == cur[last..last + k] && cur[last..][k + n..] == cur[last + k + n..]
  {}

  lemma StashDone(cur: string, tok: string, stashed: seq<string>, last: nat, buf: string, stashed': seq<string>)
    requires tok != "" && last <= |cur| && Find(cur[last..], tok) < 0
    requires Stashing(cur, tok, stashed, last, buf, stashed')
    ensures buf + cur[last..] == StashScan(cur, tok, |stashed|)
    ensures stashed' == stashed + Repeat(tok, CountMatches(cur, tok))
  {
    FindNone(cur[last..], tok);
    StashAbsent(cur[last..], tok, |stashed'|);
    assert stashed' + Repeat(tok, 0) == stashed';
  }

  /** One protected token: the loop over `match_indices`. */
  method StashToken(cur: string, tok: string, stashed: seq<string>) returns (buf: string, stashed': seq<string>)
    requires tok != ""
    ensures buf == StashScan(cur, tok, |stashed|)
    ensures stashed' == stashed + Repeat(tok, CountMatches(cur, tok))
  {
    hide Marker, StashScan, CountMatches;
    buf, stashed' := "", stashed;
    var last := 0;
    assert cur[0..] == cur;
    var found := Find(cur[last..], tok);
    while found >= 0
      invariant 0 <= last <= |cur| && found == Find(cur[last..], tok)
      invariant Stashing(cur, tok, stashed, last, buf, stashed')
      decreases |cur| - last
    {
      StashStep(cur, tok, stashed, last, buf, stashed', found);
      var idx := last + found;
      buf := buf + cur[last..idx];
      buf := buf + Marker(|stashed'|);
      stashed' := stashed' + [tok];
      last := idx + |tok|;
      found := Find(cur[last..], tok);
    }
    StashDone(cur, tok, stashed, last, buf, stashed');
    buf := buf + cur[last..];
  }

  /** `rewrite_brand_full_text`; the prose rules run only outside `.rs` files. */
  method RewriteBrandFullText(raw: string, ext: string, protected: seq<string>, rules: seq<Rule>,
                              proseRules: seq<Rule>, occ: nat)
    returns (out: string, occ': nat)
    requires NoneEmpty(protected)
    requires AllFind(rules) && AllFind(proseRules)
    ensures var active := if ext == "rs" then rules else rules + proseRules;
            && AllFind(active)
            && out == BrandText(raw, protected, active)
            && occ' == occ + CountAll(StashAll(raw, [], protected).0, active)
    ensures var active := if ext == "rs" then rules else rules + proseRules;
            && (protected == [] ==> RulesRun(raw, active, out, occ' - occ))
            && (TablesOk(protected, active) && NulFree(raw) && NoneForged(Protect(Last(raw), protected, 0), 0) ==>
                  GapsRun(Protect(Last(raw), protected, 0), active, out, occ' - occ))
  {
    BothFind(rules, proseRules);
    ghost var running := if ext == "rs" then rules else rules + proseRules;
    BrandRuns(raw, protected, running);
    hide AllFind, NoneEmpty, BrandText, Find, ReplaceAll;
    hide RulesRun, GapsRun, Protect, NoneForged, TablesOk, NulFree, StashAll, StashScan, CountMatches, Repeat, RestoreAll, Marker, ApplyAll, CountAll;
    var cur, stashed := raw, [];
    var i := 0;
    assert protected[0..] == protected;
    while i < |protected|
      invariant 0 <= i <= |protected| && NoneEmpty(protected[i..])
      invariant StashAll(cur, stashed, protected[i..]) == StashAll(raw, [], protected)
    {
      var tok := protected[i];
      NextToken(cur, stashed, protected, i);
      if Find(cur, tok) >= 0 {
        cur, stashed := StashToken(cur, tok, stashed);
      } else {
        SkipToken(cur, tok, stashed);
      }
      i := i + 1;
    }
    var active := if ext == "rs" then rules else rules + proseRules;
    assert protected[i..] == [];
    NoMoreTokens(cur, stashed);
    TextIs(raw, protected, running, cur, stashed);
    out, occ' := RunRules(cur, active, occ);
    RestoreEnd(out, stashed);
    if stashed == [] { return; }
    i := 0;
    ghost var rewritten := out;
    while i < |stashed|
      invariant 0 <= i <= |stashed|
      invariant RestoreAll(out, stashed, i) == RestoreAll(rewritten, stashed, 0)
    {
      var marker := Marker(i);
      NextMarker(out, stashed, i);
      if Find(out, marker) >= 0 {
        out := ReplaceAll(out, marker, stashed[i]);
      }
      i := i + 1;
    }
    RestoreEnd(out, stashed);
  }

  lemma BothFind(rules: seq<Rule>, more: seq<Rule>)
    requires AllFind(rules) && AllFind(more)
    ensures AllFind(rules + more)
  {}

  lemma TextIs(raw: string, protected: seq<string>, rules: seq<Rule>, working: string, stashed: seq<string>)
    requires NoneEmpty(protected) && AllFind(rules) && StashAll(raw, [], protected) == (working, stashed)
    ensures BrandText(raw, protected, rules) == RestoreAll(ApplyAll(working, rules), stashed, 0)
  {}

  lemma NoMoreTokens(cur: string, stashed: seq<string>)
    ensures StashAll(cur, stashed, []) == (cur, stashed)
  {}

  lemma RestoreEnd(s: string, stashed: seq<string>)
    ensures RestoreAll(s, stashed, |stashed|) == s
  {}

  lemma NextToken(cur: string, stashed: seq<string>, protected: seq<string>, i: nat)
    requires i < |protected| && NoneEmpty(protected[i..])
    ensures protected[i] != "" && NoneEmpty(protected[i + 1..])
    ensures StashAll(cur, stashed, protected[i..])
         == StashAll(StashScan(cur, protected[i], |stashed|), stashed + Repeat(protected[i], CountMatches(cur, protected[i])),
                     protected[i + 1..])
  {
    hide StashScan, CountMatches, Repeat;
    var left := protected[i..];
    assert left[0] == protected[i] && left[1..] == protected[i + 1..];
  }

  lemma SkipToken(cur: string, tok: string, stashed: seq<string>)
    requires tok != "" && Find(cur, tok) < 0
    ensures StashScan(cur, tok, |stashed|) == cur && stashed + Repeat(tok, CountMatches(cur, tok)) == stashed
  {
    FindNone(cur, tok);
    StashAbsent(cur, tok, |stashed|);
    hide Find, StashScan, CountMatches;
    assert stashed + Repeat(tok, 0) == stashed;
  }

  lemma NextMarker(s: string, stashed: seq<string>, i: nat)
    requires i < |stashed|
    ensures RestoreAll(s, stashed, i) == RestoreAll(ReplaceAll(s, Marker(i), stashed[i]), stashed, i + 1)
    ensures Marker(i) != "" && (Find(s, Marker(i)) < 0 ==> ReplaceAll(s, Marker(i), stashed[i]) == s)
  {
    if Find(s, Marker(i)) < 0 {
      FindNone(s, Marker(i));
      ReplaceAllAbsent(s, Marker(i), stashed[i]);
    }
  }

  method RunRules(s: string, rules: seq<Rule>, occ: nat) returns (out: string, occ': nat)
    requires AllFind(rules)
    ensures out == ApplyAll(s, rules) && occ' == occ + CountAll(s, rules)
  {
    out, occ' := s, occ;
    var i := 0;
    assert rules[0..] == rules;
    while i < |rules|
      invariant 0 <= i <= |rules|
      invariant ApplyAll(out, rules[i..]) == ApplyAll(s, rules)
      invariant occ' + CountAll(out, rules[i..]) == occ + CountAll(s, rules)
    {
      var r := rules[i];
      assert rules[i..][0] == r && rules[i..][1..] == rules[i + 1..];
      match r {
        case Literal(find, repl) =>
          if Find(out, find) >= 0 {
            occ' := occ' + CountMatches(out, find);
            out := ReplaceAll(out, find, repl);
          } else {
            FindNone(out, find);
            ReplaceAllAbsent(out, find, repl);
          }
        case Word(find, repl) =>
          out, occ' := WordRule(out, find, repl, occ');
      }
      i := i + 1;
    }
  }

  method WordRule(s: string, find: string, repl: string, occ: nat) returns (out: string, occ': nat)
    requires IsWord(find)
    ensures out == MapRuns(s, map[find := repl]) && occ' == occ + CountRuns(s, find)
  {
    assert !IsContinuation(find[0]);
    out, occ' := ReplaceWordBoundary(s, find, repl, occ);
  }

  // ----- the gap-by-gap form -----

  /** A text as gaps and protected tokens. The number is the one in the token's marker. */
  datatype Layout = Last(gap: string) | Cons(gap: string, tok: string, id: nat, rest: Layout)

  /** The text itself. */
  function Plain(l: Layout): string {
    match l
    case Last(g) => g
    case Cons(g, t, _, rest) => g + (t + Plain(rest))
  }

  /** The text with each token behind its marker. */
  function Marked(l: Layout): string {
    match l
    case Last(g) => g
    case Cons(g, _, id, rest) => g + (Marker(id) + Marked(rest))
  }

  /** The rules run on every gap on its own, the tokens untouched. */
  function Weave(l: Layout, rules: seq<Rule>): string
    requires AllFind(rules)
  {
    match l
    case Last(g) => ApplyAll(g, rules)
    case Cons(g, t, _, rest) => ApplyAll(g, rules) + (t + Weave(rest, rules))
  }

  function CountGaps(l: Layout, rules: seq<Rule>): nat
    requires AllFind(rules)
  {
    match l
    case Last(g) => CountAll(g, rules)
    case Cons(g, _, _, rest) => CountAll(g, rules) + CountGaps(rest, rules)
  }

  function PrependChar(c: char, l: Layout): Layout {
    match l
    case Last(g) => Last([c] + g)
    case Cons(g, t, id, rest) => Cons([c] + g, t, id, rest)
  }

  /** Cut a gap at every occurrence of `tok`. */
  function Cut(s: string, tok: string, next: nat): Layout
    requires tok != ""
    decreases |s|
  {
    if s == "" then Last("")
    else if tok <= s then Cons("", tok, next, Cut(s[|tok|..], tok, next + 1))
    else PrependChar(s[0], Cut(s[1..], tok, next))
  }

  function Attach(l: Layout, tok: string, id: nat, rest: Layout): Layout {
    match l
    case Last(g) => Cons(g, tok, id, rest)
    case Cons(g, t, i, r) => Cons(g, t, i, Attach(r, tok, id, rest))
  }

  /** Cut every gap at every occurrence of `tok`, numbering from `next`. */
  function Refine(l: Layout, tok: string, next: nat): Layout
    requires tok != ""
  {
    match l
    case Last(g) => Cut(g, tok, next)
    case Cons(g, t, id, rest) =>
      Attach(Cut(g, tok, next), t, id, Refine(rest, tok, next + CountMatches(g, tok)))
  }

  function GapMatches(l: Layout, tok: string): nat
    requires tok != ""
  {
    match l
    case Last(g) => CountMatches(g, tok)
    case Cons(g, _, _, rest) => CountMatches(g, tok) + GapMatches(rest, tok)
  }

  /** The text cut at all protected tokens, in the order of the token list. */
  function Protect(l: Layout, protected: seq<string>, next: nat): Layout
    requires NoneEmpty(protected)
    decreases |protected|
  {
    if protected == [] then l
    else Protect(Refine(l, protected[0], next), protected[1..], next + GapMatches(l, protected[0]))
  }

  // ----- side conditions -----

  predicate NulFree(s: string) { NUL !in s }

  /** `p` is no part of the text between the NULs of a marker. */
  ghost predicate NotInMarkers(p: string) { forall n: nat :: !Occurs(p, Body(n)) }

  ghost predicate TokenOk(t: string) { t != "" && NulFree(t) && NotInMarkers(t) }

  ghost predicate RuleOk(r: Rule) {
    RuleFinds(r) && NulFree(r.find) && NotInMarkers(r.find) && NulFree(r.repl) && NotInMarkers(r.repl)
  }

  /** What the token and rule tables have to satisfy. */
  ghost predicate TablesOk(protected: seq<string>, rules: seq<Rule>) {
    (forall i :: 0 <= i < |protected| ==> TokenOk(protected[i])) && (forall i :: 0 <= i < |rules| ==> RuleOk(rules[i]))
  }

  ghost predicate GoodLayout(l: Layout) {
    match l
    case Last(g) => NulFree(g)
    case Cons(g, t, _, rest) => NulFree(g) && TokenOk(t) && GoodLayout(rest)
  }

  /** Between two markers stands the text of marker `i` itself, when `i` is restored before
      them: with the NULs next to it, it reads as that marker. */
  predicate ForgedAt(l: Layout, i: nat) {
    match l
    case Last(_) => false
    case Cons(_, _, id, rest) =>
      (rest.Cons? && rest.gap == Body(i) && i < id && i <= rest.id) || ForgedAt(rest, i)
  }

  ghost predicate GapsNulFree(l: Layout) {
    match l
    case Last(g) => NulFree(g)
    case Cons(g, _, _, rest) => NulFree(g) && GapsNulFree(rest)
  }

  /** Every cell's number leads to its token, and no number below `from` is left. */
  ghost predicate Numbered(l: Layout, stashed: seq<string>, from: nat) {
    match l
    case Last(_) => true
    case Cons(_, t, id, rest) => from <= id < |stashed| && stashed[id] == t && Numbered(rest, stashed, from)
  }

  /** No gap contains `p`. */
  ghost predicate GapsFreeOf(l: Layout, p: string) {
    match l
    case Last(g) => !Occurs(p, g)
    case Cons(g, _, _, rest) => !Occurs(p, g) && GapsFreeOf(rest, p)
  }

  // ----- replacement factors at a NUL -----

  lemma {:induction false} CountRunsConcat(a: string, b: string, w: string)
    requires a == "" || b == "" || !IsIdent(a[|a| - 1]) || !IsIdent(b[0])
    ensures CountRuns(a + b, w) == CountRuns(a, w) + CountRuns(b, w)
    decreases |a|
  {
    if a == "" {
      assert a + b == b;
    } else if IsIdent(a[0]) {
      RunOfConcat(a, b);
      CountRunsConcat(AfterRun(a), b, w);
    } else {
      assert (a + b)[1..] == a[1..] + b;
      CountRunsConcat(a[1..], b, w);
    }
  }

  lemma WordAtNul(a: string, b: string, find: string, repl: string)
    ensures var t := map[find := repl]; MapRuns(a + ([NUL] + b), t) == MapRuns(a, t) + ([NUL] + MapRuns(b, t))
    ensures CountRuns(a + ([NUL] + b), find) == CountRuns(a, find) + CountRuns(b, find)
  {
    assert ([NUL] + b)[1..] == b;
    MapRunsConcat(a, [NUL] + b, map[find := repl]);
    CountRunsConcat(a, [NUL] + b, find);
  }

  lemma ApplyAtNul(a: string, b: string, r: Rule)
    requires RuleOk(r)
    ensures Apply(a + ([NUL] + b), r) == Apply(a, r) + ([NUL] + Apply(b, r))
    ensures CountRule(a + ([NUL] + b), r) == CountRule(a, r) + CountRule(b, r)
  {
    match r
    case Literal(find, repl) => ReplaceAtBreak(a, NUL, b, find, repl);
    case Word(find, repl) => WordAtNul(a, b, find, repl);
  }

  lemma BodyIsWord(n: nat)
    ensures IsWord(Body(n)) && NulFree(Body(n))
  {
    var b := Body(n);
    forall i | 0 <= i < |b|
      ensures IsIdent(b[i])
    {
      if i >= |TAG| { assert b[i] == Decimal(n)[i - |TAG|]; }
    }
  }

  lemma ApplyBody(n: nat, r: Rule)
    requires RuleOk(r)
    ensures Apply(Body(n), r) == Body(n) && CountRule(Body(n), r) == 0
  {
    assert !Occurs(r.find, Body(n));
    match r
    case Literal(find, repl) => ReplaceAllAbsent(Body(n), find, repl);
    case Word(find, repl) =>
      BodyIsWord(n);
      assert Body(n) <= Body(n)[0..];
      MapWord(Body(n), map[find := repl]);
      WordIsRun(Body(n), Body(n));
      assert find != Body(n);
      assert CountRuns("", find) == 0;
  }

  /** A marker passes through a rule, and the text on either side is rewritten on its own. */
  lemma ApplyAtMarker(a: string, n: nat, b: string, r: Rule)
    requires RuleOk(r)
    ensures Apply(a + (Marker(n) + b), r) == Apply(a, r) + (Marker(n) + Apply(b, r))
    ensures CountRule(a + (Marker(n) + b), r) == CountRule(a, r) + CountRule(b, r)
  {
    MarkerText(a, n, b);
    ApplyAtNul(a, Body(n) + ([NUL] + b), r);
    ApplyAtNul(Body(n), b, r);
    ApplyBody(n, r);
    MarkerText(Apply(a, r), n, Apply(b, r));
  }

  lemma MarkerText(a: string, n: nat, b: string)
    ensures a + (Marker(n) + b) == a + ([NUL] + (Body(n) + ([NUL] + b)))
  {}

  // ----- the three passes on layouts -----

  function ApplyGaps(l: Layout, r: Rule): Layout
    requires RuleFinds(r)
  {
    match l
    case Last(g) => Last(Apply(g, r))
    case Cons(g, t, id, rest) => Cons(Apply(g, r), t, id, ApplyGaps(rest, r))
  }

  function RuleGapCount(l: Layout, r: Rule): nat
    requires RuleFinds(r)
  {
    match l
    case Last(g) => CountRule(g, r)
    case Cons(g, _, _, rest) => CountRule(g, r) + RuleGapCount(rest, r)
  }

  /** A rule on the marked text is the rule on each gap. */
  lemma {:induction false} ApplyMarked(l: Layout, r: Rule)
    requires RuleOk(r)
    ensures Apply(Marked(l), r) == Marked(ApplyGaps(l, r))
    ensures CountRule(Marked(l), r) == RuleGapCount(l, r)
  {
    match l
    case Last(_) =>
    case Cons(g, t, id, rest) =>
      ApplyMarked(rest, r);
      ApplyAtMarker(g, id, Marked(rest), r);
  }

  /** A NUL cuts the text in two that are scanned one after the other. */
  ghost predicate ScansApart(a: string, b: string, tok: string, next: nat)
    requires tok != ""
  {
    && StashScan(a + ([NUL] + b), tok, next)
       == StashScan(a, tok, next) + ([NUL] + StashScan(b, tok, next + CountMatches(a, tok)))
    && CountMatches(a + ([NUL] + b), tok) == CountMatches(a, tok) + CountMatches(b, tok)
  }

  lemma Extend(h: string, x: string, r: string, shorter: string, longer: string, hx: string)
    requires shorter == x + r && longer == h + shorter && hx == h + x
    ensures longer == hx + r
  {}

  lemma DropOfConcat(a: string, c: string, n: nat)
    requires n <= |a|
    ensures n <= |a + c| && (a + c)[n..] == a[n..] + c
  {}

  lemma ApartFound(a: string, b: string, tok: string, next: nat)
    requires tok != "" && tok <= a && tok <= a + ([NUL] + b) && ScansApart(a[|tok|..], b, tok, next + 1)
    ensures ScansApart(a, b, tok, next)
  {
    hide StashScan, CountMatches, Marker;
    var s := a + ([NUL] + b);
    ScanStashes(s, tok, next);
    ScanStashes(a, tok, next);
    DropOfConcat(a, [NUL] + b, |tok|);
    var a', s' := a[|tok|..], s[|tok|..];
    var tail := [NUL] + StashScan(b, tok, next + CountMatches(a, tok));
    assert next + 1 + CountMatches(a', tok) == next + CountMatches(a, tok);
    assert StashScan(s', tok, next + 1) == StashScan(a', tok, next + 1) + tail;
    Extend(Marker(next), StashScan(a', tok, next + 1), tail,
           StashScan(s', tok, next + 1), StashScan(s, tok, next), StashScan(a, tok, next));
  }

  lemma ApartCopied(a: string, b: string, tok: string, next: nat)
    requires tok != "" && a != "" && !(tok <= a) && !(tok <= a + ([NUL] + b)) && ScansApart(a[1..], b, tok, next)
    ensures ScansApart(a, b, tok, next)
  {
    var s := a + ([NUL] + b);
    ScanCopies(s, tok, next);
    ScanCopies(a, tok, next);
    DropOfConcat(a, [NUL] + b, 1);
    var a' := a[1..];
    hide StashScan, CountMatches, Marker;
    Extend([a[0]], StashScan(a', tok, next), [NUL] + StashScan(b, tok, next + CountMatches(a, tok)),
           StashScan(s[1..], tok, next), StashScan(s, tok, next), StashScan(a, tok, next));
  }

  lemma ApartEmpty(b: string, tok: string, next: nat)
    requires tok != "" && !(tok <= [NUL] + b)
    ensures ScansApart("", b, tok, next)
  {
    var s := [NUL] + b;
    assert "" + ([NUL] + b) == s && s[1..] == b;
    ScanCopies(s, tok, next);
    assert StashScan("", tok, next) == "" && CountMatches("", tok) == 0;
    hide StashScan, CountMatches;
    assert "" + ([NUL] + StashScan(b, tok, next)) == [NUL] + StashScan(b, tok, next);
  }

  lemma {:induction false} StashAtNul(a: string, b: string, tok: string, next: nat)
    requires tok != "" && NulFree(tok)
    ensures ScansApart(a, b, tok, next)
    decreases |a|
  {
    PrefixAtBreak(tok, a, NUL, b);
    assert "" + ([NUL] + b) == [NUL] + b;
    hide ScansApart;
    if a == "" {
      ApartEmpty(b, tok, next);
    } else if tok <= a {
      StashAtNul(a[|tok|..], b, tok, next + 1);
      ApartFound(a, b, tok, next);
    } else {
      StashAtNul(a[1..], b, tok, next);
      ApartCopied(a, b, tok, next);
    }
  }

  lemma StashBody(n: nat, b: string, tok: string, next: nat)
    requires tok != "" && NulFree(tok) && !Occurs(tok, Body(n))
    ensures StashScan(Body(n) + ([NUL] + b), tok, next) == Body(n) + ([NUL] + StashScan(b, tok, next))
    ensures CountMatches(Body(n) + ([NUL] + b), tok) == CountMatches(b, tok)
  {
    hide Body, Occurs, NulFree, StashScan, CountMatches;
    StashAtNul(Body(n), b, tok, next);
    StashAbsent(Body(n), tok, next);
  }

  lemma StashAtMarker(a: string, n: nat, b: string, tok: string, next: nat)
    requires tok != "" && NulFree(tok) && !Occurs(tok, Body(n))
    ensures StashScan(a + (Marker(n) + b), tok, next)
         == StashScan(a, tok, next) + (Marker(n) + StashScan(b, tok, next + CountMatches(a, tok)))
    ensures CountMatches(a + (Marker(n) + b), tok) == CountMatches(a, tok) + CountMatches(b, tok)
  {
    hide Marker, Body, Occurs, NulFree, StashScan, CountMatches;
    var m := next + CountMatches(a, tok);
    var x := Body(n) + ([NUL] + b);
    MarkerText(a, n, b);
    StashAtNul(a, x, tok, next);
    StashBody(n, b, tok, m);
    MarkerText(StashScan(a, tok, next), n, StashScan(b, tok, m));
  }

  lemma PrependMarked(c: char, l: Layout)
    ensures Marked(PrependChar(c, l)) == [c] + Marked(l) && Plain(PrependChar(c, l)) == [c] + Plain(l)
  {
    hide Marker;
    match l
    case Last(_) =>
    case Cons(g, t, id, rest) =>
      Glue([c], g, Marker(id) + Marked(rest));
      Glue([c], g, t + Plain(rest));
  }

  lemma CutHere(s: string, tok: string, next: nat)
    requires tok != "" && s != "" && tok <= s
    requires var l := Cut(s[|tok|..], tok, next + 1);
             Marked(l) == StashScan(s[|tok|..], tok, next + 1) && Plain(l) == s[|tok|..]
    ensures Marked(Cut(s, tok, next)) == StashScan(s, tok, next) && Plain(Cut(s, tok, next)) == s
  {
    hide Marker;
    var l := Cut(s[|tok|..], tok, next + 1);
    NoGap(Marker(next) + Marked(l));
    NoGap(tok + Plain(l));
    assert s == tok + s[|tok|..];
  }

  lemma NoGap(s: string)
    ensures "" + s == s
  {}

  lemma {:induction false} CutMarked(s: string, tok: string, next: nat)
    requires tok != ""
    ensures Marked(Cut(s, tok, next)) == StashScan(s, tok, next)
    ensures Plain(Cut(s, tok, next)) == s
    decreases |s|
  {
    hide Marker;
    if s == "" {
    } else if tok <= s {
      CutMarked(s[|tok|..], tok, next + 1);
      CutHere(s, tok, next);
    } else {
      CutMarked(s[1..], tok, next);
      PrependMarked(s[0], Cut(s[1..], tok, next));
    }
  }

  lemma {:induction false} AttachMarked(l: Layout, tok: string, id: nat, rest: Layout)
    ensures Marked(Attach(l, tok, id, rest)) == Marked(l) + (Marker(id) + Marked(rest))
    ensures Plain(Attach(l, tok, id, rest)) == Plain(l) + (tok + Plain(rest))
  {
    match l
    case Last(_) =>
    case Cons(g, t, i, r) =>
      AttachMarked(r, tok, id, rest);
      Assoc3(g, Marker(i), Marked(r), Marker(id) + Marked(rest));
      Assoc3(g, t, Plain(r), tok + Plain(rest));
  }

  lemma Assoc3(a: string, b: string, c: string, d: string)
    ensures a + (b + (c + d)) == (a + (b + c)) + d
  {}

  lemma {:induction false} StashMarked(l: Layout, tok: string, next: nat)
    requires TokenOk(tok)
    ensures StashScan(Marked(l), tok, next) == Marked(Refine(l, tok, next))
    ensures Plain(Refine(l, tok, next)) == Plain(l)
    ensures CountMatches(Marked(l), tok) == GapMatches(l, tok)
  {
    match l
    case Last(g) => CutMarked(g, tok, next);
    case Cons(g, t, id, rest) =>
      StashMarked(rest, tok, next + CountMatches(g, tok));
      StashMarkedCell(g, t, id, rest, tok, next);
  }

  lemma StashMarkedCell(g: string, t: string, id: nat, rest: Layout, tok: string, next: nat)
    requires TokenOk(tok)
    requires var m := next + CountMatches(g, tok);
             StashScan(Marked(rest), tok, m) == Marked(Refine(rest, tok, m)) && Plain(Refine(rest, tok, m)) == Plain(rest)
    requires CountMatches(Marked(rest), tok) == GapMatches(rest, tok)
    ensures var l := Cons(g, t, id, rest);
            && StashScan(Marked(l), tok, next) == Marked(Refine(l, tok, next))
            && Plain(Refine(l, tok, next)) == Plain(l)
            && CountMatches(Marked(l), tok) == GapMatches(l, tok)
  {
    hide Marker, Body, NulFree, StashScan, CountMatches;
    CutMarked(g, tok, next);
    StashAtMarker(g, id, Marked(rest), tok, next);
    AttachMarked(Cut(g, tok, next), t, id, Refine(rest, tok, next + CountMatches(g, tok)));
  }

  /** Numbers stay right when the stash grows. */
  lemma {:induction false} NumberedMore(l: Layout, stashed: seq<string>, more: seq<string>, from: nat)
    requires Numbered(l, stashed, from)
    ensures Numbered(l, stashed + more, from)
  {
    match l
    case Last(_) =>
    case Cons(_, _, _, rest) => NumberedMore(rest, stashed, more, from);
  }

  lemma {:induction false} CutNumbered(s: string, tok: string, next: nat, stashed: seq<string>)
    requires tok != "" && next + CountMatches(s, tok) <= |stashed|
    requires forall i :: next <= i < next + CountMatches(s, tok) ==> stashed[i] == tok
    ensures Numbered(Cut(s, tok, next), stashed, 0)
    decreases |s|
  {
    if s == "" {
    } else if tok <= s {
      CutNumbered(s[|tok|..], tok, next + 1, stashed);
    } else {
      CutNumbered(s[1..], tok, next, stashed);
    }
  }

  lemma {:induction false} AttachNumbered(l: Layout, tok: string, id: nat, rest: Layout, stashed: seq<string>)
    requires Numbered(l, stashed, 0) && Numbered(rest, stashed, 0) && id < |stashed| && stashed[id] == tok
    ensures Numbered(Attach(l, tok, id, rest), stashed, 0)
  {
    match l
    case Last(_) =>
    case Cons(_, _, _, r) => AttachNumbered(r, tok, id, rest, stashed);
  }

  lemma {:induction false} RefineNumbered(l: Layout, tok: string, next: nat, stashed: seq<string>)
    requires tok != "" && Numbered(l, stashed, 0) && next + GapMatches(l, tok) <= |stashed|
    requires forall i :: next <= i < next + GapMatches(l, tok) ==> stashed[i] == tok
    ensures Numbered(Refine(l, tok, next), stashed, 0)
  {
    match l
    case Last(g) => CutNumbered(g, tok, next, stashed);
    case Cons(g, t, id, rest) =>
      var m := next + CountMatches(g, tok);
      CutNumbered(g, tok, next, stashed);
      RefineNumbered(rest, tok, m, stashed);
      AttachNumbered(Cut(g, tok, next), t, id, Refine(rest, tok, m), stashed);
  }

  /** All stashing passes together. */
  lemma {:induction false} StashAllMarked(l: Layout, stashed: seq<string>, protected: seq<string>)
    requires NoneEmpty(protected)
    requires (forall i :: 0 <= i < |protected| ==> TokenOk(protected[i])) && Numbered(l, stashed, 0)
    ensures var (working, stashed') := StashAll(Marked(l), stashed, protected);
            var l' := Protect(l, protected, |stashed|);
            working == Marked(l') && Plain(l') == Plain(l) && Numbered(l', stashed', 0)
    decreases |protected|
  {
    hide Marker;
    if protected != [] {
      var tok := protected[0];
      var n := GapMatches(l, tok);
      StashMarked(l, tok, |stashed|);
      RepeatSpec(tok, n);
      NumberedMore(l, stashed, Repeat(tok, n), 0);
      RefineNumbered(l, tok, |stashed|, stashed + Repeat(tok, n));
      StashAllMarked(Refine(l, tok, |stashed|), stashed + Repeat(tok, n), protected[1..]);
    }
  }

  // ----- restoring -----

  function PrependText(s: string, l: Layout): Layout {
    match l
    case Last(g) => Last(s + g)
    case Cons(g, t, id, rest) => Cons(s + g, t, id, rest)
  }

  /** Put token number `i` back: its cells become part of the surrounding gap. */
  function Merge(l: Layout, i: nat): Layout {
    match l
    case Last(_) => l
    case Cons(g, t, id, rest) =>
      if id == i then PrependText(g + t, Merge(rest, i)) else Cons(g, t, id, Merge(rest, i))
  }

  lemma PrependTextMarked(s: string, l: Layout)
    ensures Marked(PrependText(s, l)) == s + Marked(l) && Plain(PrependText(s, l)) == s + Plain(l)
  {
    hide Marker;
    match l
    case Last(_) =>
    case Cons(g, t, id, rest) =>
      Glue(s, g, Marker(id) + Marked(rest));
      Glue(s, g, t + Plain(rest));
  }

  /** Text without a NUL is passed over when looking for a marker. */
  lemma {:induction false} SkipGap(g: string, rest: string, m: string, tok: string)
    requires NulFree(g) && m != "" && m[0] == NUL
    ensures ReplaceAll(g + rest, m, tok) == g + ReplaceAll(rest, m, tok)
    decreases |g|
  {
    if g == "" {
      assert g + rest == rest;
    } else {
      var s := g + rest;
      assert s[0] == g[0] && s[1..] == g[1..] + rest;
      SkipGap(g[1..], rest, m, tok);
      SkipStep(s, g, ReplaceAll(rest, m, tok), m, tok);
    }
  }

  lemma SkipStep(s: string, g: string, tail: string, m: string, tok: string)
    requires s != "" && g != "" && s[0] == g[0] != NUL && m != "" && m[0] == NUL
    requires ReplaceAll(s[1..], m, tok) == g[1..] + tail
    ensures ReplaceAll(s, m, tok) == g + tail
  {
    assert !(m <= s);
    assert g == [g[0]] + g[1..];
    Glue([g[0]], g[1..], tail);
  }

  /** Text that starts with a NUL starts with a marker only if the field after it is the
      marker's body. */
  lemma MarkerAhead(i: nat, field: string, rest: string)
    requires NulFree(field) && field != Body(i)
    requires rest != "" ==> rest[0] == NUL
    ensures !(Marker(i) <= [NUL] + (field + rest))
  {
    BodyIsWord(i);
    var s, m, b := [NUL] + (field + rest), Marker(i), Body(i);
    assert m[1..] == b + [NUL] && s[1..] == field + rest;
    assert m <= s ==> m[1..] <= s[1..];
    hide Body, Marker;
    if b + [NUL] <= field + rest { FieldAhead(field, rest, b); }
  }

  lemma FieldAhead(field: string, rest: string, b: string)
    requires NulFree(field) && NulFree(b) && b + [NUL] <= field + rest
    requires rest != "" ==> rest[0] == NUL
    ensures field == b
  {
    var s := field + rest;
    assert s[|b|] == (b + [NUL])[|b|] == NUL;
    assert s[..|field|] == field && s[..|b|] == (b + [NUL])[..|b|] == b;
    assert |b| >= |field|;
    assert rest != "" ==> s[|field|] == NUL;
    assert NUL !in s[..|b|];
  }

  function FirstGap(l: Layout): string { l.gap }

  lemma CopyNul(x: string, m: string, tok: string)
    requires m != "" && !(m <= [NUL] + x)
    ensures ReplaceAll([NUL] + x, m, tok) == [NUL] + ReplaceAll(x, m, tok)
  {
    assert ([NUL] + x)[1..] == x;
  }

  lemma BodyInjective(m: nat, n: nat)
    requires Body(m) == Body(n)
    ensures m == n
  {
    assert Body(m)[|TAG|..] == Decimal(m) && Body(n)[|TAG|..] == Decimal(n);
    DecimalInjective(m, n);
  }

  lemma TakeMarker(i: nat, x: string, tok: string)
    ensures ReplaceAll(Marker(i) + x, Marker(i), tok) == tok + ReplaceAll(x, Marker(i), tok)
  {
    hide Body;
    assert (Marker(i) + x)[|Marker(i)|..] == x;
  }

  lemma EmptyTail(g: string, m: string, tok: string)
    requires m != "" && ReplaceAll(g + "", m, tok) == g + ReplaceAll("", m, tok)
    ensures ReplaceAll(g, m, tok) == g
  {
    assert g + "" == g;
  }

  // ----- the text as fields between NULs -----

  /** Gaps and marker bodies in turn. */
  function Fields(l: Layout): seq<string> {
    match l
    case Last(g) => [g]
    case Cons(g, _, id, rest) => [g, Body(id)] + Fields(rest)
  }

  function JoinNul(fs: seq<string>): string
    requires fs != []
    decreases |fs|
  {
    if |fs| == 1 then fs[0] else fs[0] + ([NUL] + JoinNul(fs[1..]))
  }

  ghost predicate AllNulFree(fs: seq<string>) { forall k :: 0 <= k < |fs| ==> NulFree(fs[k]) }

  lemma JoinCons(f: string, fs: seq<string>)
    requires fs != []
    ensures JoinNul([f] + fs) == f + ([NUL] + JoinNul(fs))
  {
    assert ([f] + fs)[1..] == fs;
  }

  lemma {:induction false} FieldsOfMarked(l: Layout)
    ensures Fields(l) != [] && Fields(l)[0] == l.gap
    ensures JoinNul(Fields(l)) == Marked(l)
    ensures GoodLayout(l) ==> AllNulFree(Fields(l))
  {
    match l
    case Last(_) =>
    case Cons(g, t, id, rest) =>
      FieldsOfMarked(rest);
      BodyIsWord(id);
      var tail := [Body(id)] + Fields(rest);
      hide Body, NulFree, TokenOk;
      assert Fields(l) == [g] + tail;
      JoinCons(Body(id), Fields(rest));
      JoinCons(g, tail);
      MarkerText(g, id, Marked(rest));
  }

  /** Restoring marker `i`, field by field: a field that is its body goes, with both NULs,
      wherever it stands. */
  function ScanFields(fs: seq<string>, i: nat, tok: string): (r: seq<string>)
    requires fs != []
    ensures r != []
    decreases |fs|
  {
    if |fs| < 3 then fs
    else if fs[1] == Body(i) then
      var r := ScanFields(fs[2..], i, tok);
      [fs[0] + (tok + r[0])] + r[1..]
    else [fs[0]] + ScanFields(fs[1..], i, tok)
  }

  lemma {:induction false} ScanNulFree(fs: seq<string>, i: nat, tok: string)
    requires fs != [] && AllNulFree(fs) && NulFree(tok)
    ensures AllNulFree(ScanFields(fs, i, tok))
    decreases |fs|
  {
    hide Body;
    if |fs| >= 3 {
      if fs[1] == Body(i) { ScanNulFree(fs[2..], i, tok); } else { ScanNulFree(fs[1..], i, tok); }
    }
  }

  lemma JoinGrown(a: string, r: seq<string>)
    requires r != []
    ensures JoinNul([a + r[0]] + r[1..]) == a + JoinNul(r)
  {
    var grown := [a + r[0]] + r[1..];
    assert grown[1..] == r[1..];
    if |r| > 1 { Glue(a, r[0], [NUL] + JoinNul(r[1..])); }
  }

  lemma NoMarkerLeft(i: nat, field: string)
    requires NulFree(field)
    ensures !(Marker(i) <= [NUL] + field)
  {
    var m, s := Marker(i), [NUL] + field;
    assert m[|m| - 1] == NUL && |m| > 1;
    assert forall k :: 1 <= k < |s| ==> s[k] != NUL;
  }

  lemma ScanTwo(f: string, g: string, i: nat, tok: string)
    requires NulFree(f) && NulFree(g)
    ensures ReplaceAll(f + ([NUL] + g), Marker(i), tok) == f + ([NUL] + g)
  {
    NoMarkerLeft(i, g);
    hide Body;
    SkipGap(f, [NUL] + g, Marker(i), tok);
    CopyNul(g, Marker(i), tok);
    SkipGap(g, "", Marker(i), tok);
    EmptyTail(g, Marker(i), tok);
  }

  lemma ScanFound(f: string, rest: string, i: nat, tok: string)
    requires NulFree(f)
    ensures ReplaceAll(f + ([NUL] + (Body(i) + ([NUL] + rest))), Marker(i), tok)
         == f + (tok + ReplaceAll(rest, Marker(i), tok))
  {
    MarkerText("", i, rest);
    NoGap(Marker(i) + rest);
    NoGap([NUL] + (Body(i) + ([NUL] + rest)));
    TakeMarker(i, rest, tok);
    SkipGap(f, Marker(i) + rest, Marker(i), tok);
    hide ReplaceAll, Body, Marker;
  }

  lemma ScanOther(f: string, g: string, rest: string, i: nat, tok: string)
    requires NulFree(f) && NulFree(g) && g != Body(i)
    ensures ReplaceAll(f + ([NUL] + (g + ([NUL] + rest))), Marker(i), tok)
         == f + ([NUL] + ReplaceAll(g + ([NUL] + rest), Marker(i), tok))
  {
    MarkerAhead(i, g, [NUL] + rest);
    hide Body;
    SkipGap(f, [NUL] + (g + ([NUL] + rest)), Marker(i), tok);
    CopyNul(g + ([NUL] + rest), Marker(i), tok);
  }

  /** Restoring a marker in the text is restoring it among the fields. */
  lemma {:induction false} ScanText(fs: seq<string>, i: nat, tok: string)
    requires fs != [] && AllNulFree(fs)
    ensures ReplaceAll(JoinNul(fs), Marker(i), tok) == JoinNul(ScanFields(fs, i, tok))
    decreases |fs|
  {
    hide Body, Marker, ReplaceAll, NulFree;
    assert NulFree(fs[0]);
    if |fs| == 1 {
      NothingLeft(i, tok);
      SkipGap(fs[0], "", Marker(i), tok);
      EmptyTail(fs[0], Marker(i), tok);
    } else if |fs| == 2 {
      assert fs[1..] == [fs[1]];
      ScanTwo(fs[0], fs[1], i, tok);
    } else {
      var rest := JoinNul(fs[2..]);
      assert fs[1..][1..] == fs[2..];
      if fs[1] == Body(i) {
        var r := ScanFields(fs[2..], i, tok);
        ScanText(fs[2..], i, tok);
        ScanFound(fs[0], rest, i, tok);
        JoinGrown(fs[0] + tok, r);
        Glue(fs[0], tok, r[0]);
        Glue(fs[0], tok, JoinNul(r));
      } else {
        ScanText(fs[1..], i, tok);
        ScanOther(fs[0], fs[1], rest, i, tok);
        JoinCons(fs[0], ScanFields(fs[1..], i, tok));
      }
    }
  }

  lemma NothingLeft(i: nat, tok: string)
    ensures Marker(i) != "" && Marker(i)[0] == NUL && ReplaceAll("", Marker(i), tok) == ""
  {}

  // ----- restoring where nothing is forged -----

  lemma WithToken(a: string, t: string, b: string, n: nat)
    requires TokenOk(t)
    ensures a + (t + b) != Body(n)
  {
    hide Body;
    OccursIn(t, a, b);
    assert !Occurs(t, Body(n));
    Glue(a, t, b);
  }

  lemma FieldsGrown(x: string, l: Layout)
    ensures Fields(PrependText(x, l)) == [x + l.gap] + Fields(l)[1..]
  {
    match l
    case Last(_) =>
    case Cons(g, t, id, rest) =>
      assert Fields(l)[1..] == [Body(id)] + Fields(rest);
  }

  lemma {:induction false} ScanMerges(l: Layout, stashed: seq<string>, i: nat)
    requires GoodLayout(l) && Numbered(l, stashed, i) && i < |stashed| && !ForgedAt(l, i)
    ensures Fields(l) != [] && ScanFields(Fields(l), i, stashed[i]) == Fields(Merge(l, i))
  {
    hide Body, TokenOk, NulFree;
    FieldsOfMarked(l);
    match l
    case Last(_) =>
    case Cons(g, t, id, rest) =>
      ScanMerges(rest, stashed, i);
      if id == i {
        MergesHere(g, t, rest, i);
      } else {
        NotForgedHere(l, stashed, i);
        PassesHere(g, t, id, rest, i, stashed[i]);
      }
  }

  lemma NotForgedHere(l: Layout, stashed: seq<string>, i: nat)
    requires l.Cons? && Numbered(l, stashed, i) && l.id != i && !ForgedAt(l, i)
    ensures l.rest.Cons? ==> l.rest.gap != Body(i)
  {
    hide Body;
  }

  lemma MergesHere(g: string, t: string, rest: Layout, i: nat)
    requires Fields(rest) != [] && ScanFields(Fields(rest), i, t) == Fields(Merge(rest, i))
    ensures ScanFields([g, Body(i)] + Fields(rest), i, t) == Fields(PrependText(g + t, Merge(rest, i)))
  {
    hide Body;
    var fs, m := [g, Body(i)] + Fields(rest), Merge(rest, i);
    FieldsOfMarked(m);
    FieldsGrown(g + t, m);
    assert fs[2..] == Fields(rest) && |fs| >= 3;
    Glue(g, t, m.gap);
  }

  lemma PassesHere(g: string, t: string, id: nat, rest: Layout, i: nat, tok: string)
    requires id != i && (rest.Cons? ==> rest.gap != Body(i))
    requires Fields(rest) != [] && ScanFields(Fields(rest), i, tok) == Fields(Merge(rest, i))
    ensures ScanFields([g, Body(id)] + Fields(rest), i, tok) == Fields(Cons(g, t, id, Merge(rest, i)))
  {
    if Body(id) == Body(i) { BodyInjective(id, i); }
    hide Body;
    var fs, tail := [g, Body(id)] + Fields(rest), [Body(id)] + Fields(rest);
    assert fs[1..] == tail && |fs| >= 3 && fs[1] == Body(id);
    ScanPast(id, rest, i, tok);
    assert [g] + ([Body(id)] + Fields(Merge(rest, i))) == [g, Body(id)] + Fields(Merge(rest, i));
  }

  /** A marker body that stays, and then the rest. */
  lemma ScanPast(id: nat, rest: Layout, i: nat, tok: string)
    requires rest.Cons? ==> rest.gap != Body(i)
    ensures Fields(rest) != [] && ScanFields([Body(id)] + Fields(rest), i, tok) == [Body(id)] + ScanFields(Fields(rest), i, tok)
  {
    hide Body;
    FieldsOfMarked(rest);
    var fs := [Body(id)] + Fields(rest);
    assert fs[1..] == Fields(rest) && fs[1] == rest.gap;
  }

  lemma {:induction false} MergeKeeps(l: Layout, stashed: seq<string>, i: nat)
    requires GoodLayout(l) && Numbered(l, stashed, i)
    ensures GoodLayout(Merge(l, i)) && Numbered(Merge(l, i), stashed, i + 1) && Plain(Merge(l, i)) == Plain(l)
  {
    hide Body, TokenOk;
    match l
    case Last(_) =>
    case Cons(g, t, id, rest) =>
      MergeKeeps(rest, stashed, i);
      if id == i {
        var r := Merge(rest, i);
        PrependTextMarked(g + t, r);
        Glue(g, t, Plain(r));
        TokenNulFree(t);
      }
  }

  lemma TokenNulFree(t: string)
    requires TokenOk(t)
    ensures NulFree(t)
  {}

  /** A gap that has swallowed a token is no marker body, and the others stay as they are. */
  lemma {:induction false} MergeForges(l: Layout, stashed: seq<string>, i: nat, j: nat)
    requires GoodLayout(l) && Numbered(l, stashed, i) && i < j
    ensures ForgedAt(Merge(l, i), j) <==> ForgedAt(l, j)
  {
    hide Body, TokenOk, NulFree;
    match l
    case Last(_) =>
    case Cons(g, t, id, rest) =>
      MergeForges(rest, stashed, i, j);
      if id == i {
        PrependForges(g + t, Merge(rest, i), j);
      } else if rest.Cons? && rest.id == i {
        WithToken(rest.gap, rest.tok, Merge(rest.rest, i).gap, j);
        Glue(rest.gap, rest.tok, Merge(rest.rest, i).gap);
      }
  }

  lemma PrependForges(x: string, l: Layout, j: nat)
    ensures ForgedAt(PrependText(x, l), j) == ForgedAt(l, j)
  {}

  // ----- what a forged marker leaves behind -----

  /** A field with a token in it is no marker body. */
  ghost predicate Dead(f: string) { exists t :: TokenOk(t) && Occurs(t, f) }

  /** Such a field stands at an odd place, or (if not `odd`) at an even one. */
  ghost predicate DeadAt(fs: seq<string>, odd: bool)
    decreases |fs|
  {
    fs != [] && ((!odd && Dead(fs[0])) || DeadAt(fs[1..], !odd))
  }

  lemma DeadNoBody(f: string, n: nat)
    requires Dead(f)
    ensures f != Body(n)
  {
    hide Body, Occurs;
    var t :| TokenOk(t) && Occurs(t, f);
    assert !Occurs(t, Body(n));
  }

  lemma DeadGrows(a: string, f: string, b: string)
    requires Dead(f)
    ensures Dead(a + (f + b))
  {
    var t :| TokenOk(t) && Occurs(t, f);
    var k :| 0 <= k <= |f| && t <= f[k..];
    var whole := a + (f + b);
    assert whole[|a| + k..] == f[k..] + b;
    assert t <= whole[|a| + k..];
  }

  /** Restoring other markers does not bring it to life. */
  lemma {:induction false} ScanKeepsDead(fs: seq<string>, i: nat, tok: string, odd: bool)
    requires DeadAt(fs, odd)
    ensures DeadAt(ScanFields(fs, i, tok), odd)
    decreases |fs|
  {
    hide Body, Dead;
    if |fs| >= 3 {
      assert fs[1..][1..] == fs[2..] && fs[1..][0] == fs[1];
      if fs[1] == Body(i) {
        if Dead(fs[1]) { DeadNoBody(fs[1], i); }
        var r := ScanFields(fs[2..], i, tok);
        var grown := [fs[0] + (tok + r[0])] + r[1..];
        assert grown[1..] == r[1..];
        if !odd && Dead(fs[0]) {
          GrowsRight(fs[0], tok + r[0]);
        } else {
          ScanKeepsDead(fs[2..], i, tok, odd);
          if !odd && Dead(r[0]) { GrowsLeft(fs[0], tok, r[0]); }
        }
      } else {
        var r := ScanFields(fs[1..], i, tok);
        assert ([fs[0]] + r)[1..] == r;
        if odd || !Dead(fs[0]) { ScanKeepsDead(fs[1..], i, tok, !odd); }
      }
    }
  }

  lemma GrowsRight(f: string, b: string)
    requires Dead(f)
    ensures Dead(f + b)
  {
    DeadGrows("", f, b);
    NoGap(f + b);
  }

  lemma GrowsLeft(a: string, tok: string, f: string)
    requires Dead(f)
    ensures Dead(a + (tok + f))
  {
    DeadGrows(a + tok, f, "");
    assert f + "" == f;
    Glue(a, tok, f);
  }

  lemma TokenDead(a: string, tok: string, b: string)
    requires TokenOk(tok)
    ensures Dead(a + (tok + b))
  {
    OccursIn(tok, a, b);
    Glue(a, tok, b);
  }

  /** Restoring a forged marker leaves one. */
  lemma {:induction false} ForgedDies(l: Layout, stashed: seq<string>, i: nat)
    requires GoodLayout(l) && Numbered(l, stashed, i) && i < |stashed| && TokenOk(stashed[i]) && ForgedAt(l, i)
    ensures Fields(l) != [] && DeadAt(ScanFields(Fields(l), i, stashed[i]), true)
  {
    hide Body, TokenOk, NulFree, Dead;
    FieldsOfMarked(l);
    var Cons(g, t, id, rest) := l;
    var tok := stashed[i];
    var fs, tail := Fields(l), [Body(id)] + Fields(rest);
    FieldsOfMarked(rest);
    assert fs[1..] == tail && fs[2..] == Fields(rest) && tail[1..] == Fields(rest);
    if id == i {
      ForgedDies(rest, stashed, i);
      var r := ScanFields(Fields(rest), i, tok);
      assert ([g + (tok + r[0])] + r[1..])[1..] == r[1..];
    } else {
      if Body(id) == Body(i) { BodyInjective(id, i); }
      var r := ScanFields(tail, i, tok);
      assert ([g] + r)[1..] == r;
      if rest.Cons? && rest.gap == Body(i) {
        DiesHere(id, rest, i, tok);
      } else {
        ForgedDies(rest, stashed, i);
        ScanPast(id, rest, i, tok);
        var q := ScanFields(Fields(rest), i, tok);
        assert ([Body(id)] + q)[1..] == q;
      }
    }
  }

  lemma DiesHere(id: nat, rest: Layout, i: nat, tok: string)
    requires rest.Cons? && rest.gap == Body(i) && TokenOk(tok)
    ensures Fields(rest) != [] && DeadAt(ScanFields([Body(id)] + Fields(rest), i, tok), false)
  {
    hide Body, TokenOk, Dead;
    FieldsOfMarked(rest);
    FieldsOfMarked(rest.rest);
    var tail := [Body(id)] + Fields(rest);
    assert tail[1] == rest.gap && |tail| >= 3;
    var r := ScanFields(tail[2..], i, tok);
    TokenDead(Body(id), tok, r[0]);
  }

  /** What is left has a NUL in it. */
  lemma DeadText(fs: seq<string>)
    requires fs != [] && DeadAt(fs, true)
    ensures NUL in JoinNul(fs)
  {
    assert fs[1..] != [];
    assert JoinNul(fs)[|fs[0]|] == NUL;
  }

  lemma {:induction false} DeadStays(fs: seq<string>, stashed: seq<string>, i: nat)
    requires fs != [] && AllNulFree(fs) && DeadAt(fs, true) && i <= |stashed|
    requires forall k :: 0 <= k < |stashed| ==> TokenOk(stashed[k])
    ensures NUL in RestoreAll(JoinNul(fs), stashed, i)
    decreases |stashed| - i
  {
    hide Marker, Body, NulFree, TokenOk, Dead;
    if i == |stashed| {
      DeadText(fs);
    } else {
      TokenNulFree(stashed[i]);
      ScanText(fs, i, stashed[i]);
      ScanNulFree(fs, i, stashed[i]);
      ScanKeepsDead(fs, i, stashed[i], true);
      DeadStays(ScanFields(fs, i, stashed[i]), stashed, i + 1);
    }
  }

  // ----- restoring, all in all -----

  ghost predicate NoneForged(l: Layout, from: nat) { forall j: nat :: j >= from ==> !ForgedAt(l, j) }

  lemma MergeNoneForged(l: Layout, stashed: seq<string>, i: nat)
    requires GoodLayout(l) && Numbered(l, stashed, i) && !ForgedAt(l, i)
    ensures NoneForged(Merge(l, i), i + 1) <==> NoneForged(l, i)
  {
    hide GoodLayout, Numbered, ForgedAt, Merge;
    forall j: nat | j > i
      ensures ForgedAt(Merge(l, i), j) <==> ForgedAt(l, j)
    {
      MergeForges(l, stashed, i, j);
    }
  }

  /** Restoring puts every token back if and only if no gap forges a marker. */
  lemma {:induction false} RestoreAllMarked(l: Layout, stashed: seq<string>, i: nat)
    requires GoodLayout(l) && i <= |stashed| && Numbered(l, stashed, i)
    requires forall k :: 0 <= k < |stashed| ==> TokenOk(stashed[k])
    ensures RestoreAll(Marked(l), stashed, i) == Plain(l) <==> NoneForged(l, i)
    decreases |stashed| - i
  {
    hide Marker, Body, TokenOk, Merge;
    FieldsOfMarked(l);
    if i == |stashed| {
      assert l.Last?;
    } else {
      ScanText(Fields(l), i, stashed[i]);
      if ForgedAt(l, i) {
        TokenNulFree(stashed[i]);
        ScanNulFree(Fields(l), i, stashed[i]);
        ForgedDies(l, stashed, i);
        DeadStays(ScanFields(Fields(l), i, stashed[i]), stashed, i + 1);
        PlainNulFree(l);
      } else {
        ScanMerges(l, stashed, i);
        MergeKeeps(l, stashed, i);
        FieldsOfMarked(Merge(l, i));
        RestoreAllMarked(Merge(l, i), stashed, i + 1);
        MergeNoneForged(l, stashed, i);
      }
    }
  }

  lemma {:induction false} PlainNulFree(l: Layout)
    requires GoodLayout(l)
    ensures NUL !in Plain(l)
  {
    match l
    case Last(_) =>
    case Cons(_, t, _, rest) =>
      TokenNulFree(t);
      PlainNulFree(rest);
  }

  // ----- rules keep gaps from looking like markers -----

  lemma {:induction false} ReplaceNulFree(s: string, find: string, repl: string)
    requires find != "" && NulFree(s) && NulFree(repl)
    ensures NulFree(ReplaceAll(s, find, repl))
    decreases |s|
  {
    if s == "" {
    } else if find <= s {
      ReplaceNulFree(s[|find|..], find, repl);
    } else {
      ReplaceNulFree(s[1..], find, repl);
    }
  }

  lemma {:induction false} MapNulFree(s: string, find: string, repl: string)
    requires NulFree(s) && NulFree(repl)
    ensures NulFree(MapRuns(s, map[find := repl]))
    decreases |s|
  {
    if s == "" {
    } else if IsIdent(s[0]) {
      RunSpec(s);
      assert NulFree(Run(s));
      MapNulFree(AfterRun(s), find, repl);
    } else {
      MapNulFree(s[1..], find, repl);
    }
  }

  lemma OccursAppend(p: string, a: string, b: string)
    requires Occurs(p, b)
    ensures Occurs(p, a + b)
  {
    assert (a + b)[|a|..] == b;
    OccursLater(p, a + b, |a|);
  }

  /** Where a rule changes the text, its replacement is in the result. */
  lemma {:induction false} ReplaceLeavesTrace(s: string, find: string, repl: string)
    requires find != ""
    ensures ReplaceAll(s, find, repl) == s || Occurs(repl, ReplaceAll(s, find, repl))
    decreases |s|
  {
    if s == "" {
    } else if find <= s {
      OccursIn(repl, "", ReplaceAll(s[|find|..], find, repl));
      NoGap(repl);
    } else {
      ReplaceLeavesTrace(s[1..], find, repl);
      if Occurs(repl, ReplaceAll(s[1..], find, repl)) {
        OccursAppend(repl, [s[0]], ReplaceAll(s[1..], find, repl));
      } else {
        assert s == [s[0]] + s[1..];
      }
    }
  }

  lemma {:induction false} MapLeavesTrace(s: string, find: string, repl: string)
    ensures var r := MapRuns(s, map[find := repl]); r == s || Occurs(repl, r)
    decreases |s|
  {
    if s == "" {
    } else if IsIdent(s[0]) {
      var tail := MapRuns(AfterRun(s), map[find := repl]);
      MapLeavesTrace(AfterRun(s), find, repl);
      RunSpec(s);
      if Run(s) == find {
        OccursIn(repl, "", tail);
        NoGap(repl);
      } else if Occurs(repl, tail) {
        OccursAppend(repl, Run(s), tail);
      }
    } else {
      var tail := MapRuns(s[1..], map[find := repl]);
      MapLeavesTrace(s[1..], find, repl);
      if Occurs(repl, tail) {
        OccursAppend(repl, [s[0]], tail);
      } else {
        assert s == [s[0]] + s[1..];
      }
    }
  }

  lemma ApplyNulFree(g: string, r: Rule)
    requires NulFree(g) && RuleOk(r)
    ensures NulFree(Apply(g, r))
  {
    match r
    case Literal(find, repl) => ReplaceNulFree(g, find, repl);
    case Word(find, repl) => MapNulFree(g, find, repl);
  }

  /** A rule neither makes a marker body nor changes one. */
  lemma ApplyKeepsBody(g: string, r: Rule, n: nat)
    requires RuleOk(r)
    ensures Apply(g, r) == Body(n) <==> g == Body(n)
  {
    ApplyBody(n, r);
    assert !Occurs(r.repl, Body(n));
    hide Body;
    match r
    case Literal(find, repl) => ReplaceLeavesTrace(g, find, repl);
    case Word(find, repl) => MapLeavesTrace(g, find, repl);
  }

  lemma {:induction false} ApplyKeepsForged(l: Layout, r: Rule, i: nat)
    requires RuleOk(r)
    ensures ForgedAt(ApplyGaps(l, r), i) <==> ForgedAt(l, i)
  {
    hide Body, Apply, RuleOk;
    match l
    case Last(_) =>
    case Cons(_, _, _, rest) =>
      ApplyKeepsForged(rest, r, i);
      ApplyKeepsBody(rest.gap, r, i);
  }

  lemma ApplyKeepsNone(l: Layout, r: Rule)
    requires RuleOk(r)
    ensures NoneForged(ApplyGaps(l, r), 0) <==> NoneForged(l, 0)
  {
    hide ForgedAt, NotInMarkers;
    forall i: nat
      ensures ForgedAt(ApplyGaps(l, r), i) <==> ForgedAt(l, i)
    {
      ApplyKeepsForged(l, r, i);
    }
  }

  lemma {:induction false} ApplyGapsKeeps(l: Layout, r: Rule, stashed: seq<string>, from: nat)
    requires GoodLayout(l) && RuleOk(r) && Numbered(l, stashed, from)
    ensures GoodLayout(ApplyGaps(l, r)) && Numbered(ApplyGaps(l, r), stashed, from)
  {
    hide TokenOk, Apply, NulFree;
    match l
    case Last(g) => ApplyNulFree(g, r);
    case Cons(g, t, id, rest) =>
      ApplyNulFree(g, r);
      ApplyGapsKeeps(rest, r, stashed, from);
  }

  function ApplyAllGaps(l: Layout, rules: seq<Rule>): Layout
    requires AllFind(rules)
    decreases |rules|
  {
    if rules == [] then l else ApplyAllGaps(ApplyGaps(l, rules[0]), rules[1..])
  }

  lemma {:induction false} WeaveStep(l: Layout, rules: seq<Rule>)
    requires rules != [] && AllFind(rules)
    ensures Weave(l, rules) == Weave(ApplyGaps(l, rules[0]), rules[1..])
    ensures CountGaps(l, rules) == RuleGapCount(l, rules[0]) + CountGaps(ApplyGaps(l, rules[0]), rules[1..])
  {
    match l
    case Last(_) =>
    case Cons(g, t, id, rest) => WeaveStep(rest, rules);
  }

  lemma {:induction false} WeavePlain(l: Layout)
    ensures Weave(l, []) == Plain(l) && CountGaps(l, []) == 0
  {
    match l
    case Last(_) =>
    case Cons(_, _, _, rest) => WeavePlain(rest);
  }

  /** The whole pipeline on the marked text is the pipeline on each gap. */
  lemma {:induction false} PipelineMarked(l: Layout, rules: seq<Rule>, stashed: seq<string>)
    requires AllFind(rules) && (forall i :: 0 <= i < |rules| ==> RuleOk(rules[i]))
    requires GoodLayout(l) && Numbered(l, stashed, 0)
    ensures var l' := ApplyAllGaps(l, rules);
            && ApplyAll(Marked(l), rules) == Marked(l') && Plain(l') == Weave(l, rules)
            && CountAll(Marked(l), rules) == CountGaps(l, rules)
            && GoodLayout(l') && Numbered(l', stashed, 0)
            && (NoneForged(l', 0) <==> NoneForged(l, 0))
    decreases |rules|
  {
    hide Marker, Apply, CountRule, NulFree, TokenOk, ForgedAt;
    if rules == [] {
      WeavePlain(l);
    } else {
      ApplyKeepsNone(l, rules[0]);
      ApplyMarked(l, rules[0]);
      ApplyGapsKeeps(l, rules[0], stashed, 0);
      PipelineMarked(ApplyGaps(l, rules[0]), rules[1..], stashed);
      WeaveStep(l, rules);
    }
  }

  // ----- the cut text -----

  lemma {:induction false} CutPrefix(s: string, tok: string, next: nat)
    requires tok != ""
    ensures FirstGap(Cut(s, tok, next)) <= s
    decreases |s|
  {
    if s != "" && !(tok <= s) { CutPrefix(s[1..], tok, next); }
  }

  /** Copying one more byte brings no new occurrence into the first gap. */
  lemma PrependFree(s: string, tok: string, next: nat, p: string)
    requires tok != "" && s != "" && !(p <= s) && GapsFreeOf(Cut(s[1..], tok, next), p)
    ensures GapsFreeOf(PrependChar(s[0], Cut(s[1..], tok, next)), p)
  {
    var g := FirstGap(Cut(s[1..], tok, next));
    CutPrefix(s[1..], tok, next);
    var h := [s[0]] + g;
    assert h[1..] == g;
    OccursCons(p, h);
    assert h <= s;
  }

  lemma NotInEmpty(p: string)
    requires p != ""
    ensures !Occurs(p, "")
  {}

  /** What a text does not contain, its cut pieces do not contain. */
  lemma {:induction false} CutFree(s: string, tok: string, next: nat, p: string)
    requires tok != "" && p != "" && (p == tok || !Occurs(p, s))
    ensures GapsFreeOf(Cut(s, tok, next), p)
    decreases |s|
  {
    NotInEmpty(p);
    if s == "" {
    } else if tok <= s {
      if Occurs(p, s[|tok|..]) { OccursLater(p, s, |tok|); }
      CutFree(s[|tok|..], tok, next + 1, p);
    } else {
      OccursCons(p, s);
      CutFree(s[1..], tok, next, p);
      PrependFree(s, tok, next, p);
    }
  }

  lemma {:induction false} AttachFree(l: Layout, tok: string, id: nat, rest: Layout, p: string)
    requires GapsFreeOf(l, p) && GapsFreeOf(rest, p)
    ensures GapsFreeOf(Attach(l, tok, id, rest), p)
  {
    match l
    case Last(_) =>
    case Cons(_, _, _, r) => AttachFree(r, tok, id, rest, p);
  }

  lemma {:induction false} RefineFree(l: Layout, tok: string, next: nat, p: string)
    requires tok != "" && p != "" && (p == tok || GapsFreeOf(l, p))
    ensures GapsFreeOf(Refine(l, tok, next), p)
  {
    match l
    case Last(g) => CutFree(g, tok, next, p);
    case Cons(g, t, id, rest) =>
      var m := next + CountMatches(g, tok);
      CutFree(g, tok, next, p);
      RefineFree(rest, tok, m, p);
      AttachFree(Cut(g, tok, next), t, id, Refine(rest, tok, m), p);
  }

  /** After all cuts no gap contains a token of the list, nor what the text lacked. */
  lemma {:induction false} ProtectFree(l: Layout, protected: seq<string>, next: nat, p: string)
    requires NoneEmpty(protected) && p != "" && (p in protected || GapsFreeOf(l, p))
    ensures GapsFreeOf(Protect(l, protected, next), p)
    decreases |protected|
  {
    if protected != [] {
      var n := GapMatches(l, protected[0]);
      if p == protected[0] || GapsFreeOf(l, p) {
        RefineFree(l, protected[0], next, p);
      }
      ProtectFree(Refine(l, protected[0], next), protected[1..], next + n, p);
    }
  }

  ghost predicate TokensFrom(l: Layout, tokens: set<string>) {
    match l
    case Last(_) => true
    case Cons(_, t, _, rest) => t in tokens && TokensFrom(rest, tokens)
  }

  lemma {:induction false} CutTokens(s: string, tok: string, next: nat, tokens: set<string>)
    requires tok != "" && tok in tokens
    ensures TokensFrom(Cut(s, tok, next), tokens)
    decreases |s|
  {
    if s == "" {
    } else if tok <= s {
      CutTokens(s[|tok|..], tok, next + 1, tokens);
    } else {
      CutTokens(s[1..], tok, next, tokens);
    }
  }

  lemma {:induction false} AttachTokens(l: Layout, tok: string, id: nat, rest: Layout, tokens: set<string>)
    requires TokensFrom(l, tokens) && TokensFrom(rest, tokens) && tok in tokens
    ensures TokensFrom(Attach(l, tok, id, rest), tokens)
  {
    match l
    case Last(_) =>
    case Cons(_, _, _, r) => AttachTokens(r, tok, id, rest, tokens);
  }

  lemma {:induction false} RefineTokens(l: Layout, tok: string, next: nat, tokens: set<string>)
    requires tok != "" && tok in tokens && TokensFrom(l, tokens)
    ensures TokensFrom(Refine(l, tok, next), tokens)
  {
    match l
    case Last(g) => CutTokens(g, tok, next, tokens);
    case Cons(g, t, id, rest) =>
      var m := next + CountMatches(g, tok);
      CutTokens(g, tok, next, tokens);
      RefineTokens(rest, tok, m, tokens);
      AttachTokens(Cut(g, tok, next), t, id, Refine(rest, tok, m), tokens);
  }

  lemma {:induction false} ProtectTokens(l: Layout, protected: seq<string>, next: nat, tokens: set<string>)
    requires NoneEmpty(protected) && (forall i :: 0 <= i < |protected| ==> protected[i] in tokens) && TokensFrom(l, tokens)
    ensures TokensFrom(Protect(l, protected, next), tokens)
    decreases |protected|
  {
    if protected != [] {
      RefineTokens(l, protected[0], next, tokens);
      ProtectTokens(Refine(l, protected[0], next), protected[1..], next + GapMatches(l, protected[0]), tokens);
    }
  }

  lemma {:induction false} PiecesNulFree(l: Layout)
    requires NulFree(Plain(l))
    ensures GapsNulFree(l)
  {
    match l
    case Last(_) =>
    case Cons(g, t, _, rest) =>
      var s := g + (t + Plain(rest));
      assert forall i :: 0 <= i < |g| ==> s[i] == g[i];
      assert forall i :: 0 <= i < |Plain(rest)| ==> s[|g| + |t| + i] == Plain(rest)[i];
      PiecesNulFree(rest);
  }

  lemma {:induction false} PiecesGood(l: Layout, tokens: set<string>)
    requires GapsNulFree(l) && TokensFrom(l, tokens) && forall t :: t in tokens ==> TokenOk(t)
    ensures GoodLayout(l)
  {
    hide TokenOk, NulFree;
    match l
    case Last(_) =>
    case Cons(_, _, _, rest) => PiecesGood(rest, tokens);
  }

  lemma {:induction false} TagFreeUnforged(l: Layout, i: nat)
    requires GapsFreeOf(l, TAG)
    ensures !ForgedAt(l, i)
  {
    OccursIn(TAG, "", Decimal(i));
    NoGap(TAG);
    match l
    case Last(_) =>
    case Cons(_, _, _, rest) =>
      TagFreeUnforged(rest, i);
      assert rest.gap != Body(i);
  }

  lemma StashedTokens(l: Layout, stashed: seq<string>, protected: seq<string>)
    requires NoneEmpty(protected) && (forall i :: 0 <= i < |protected| ==> TokenOk(protected[i]))
    requires forall k :: 0 <= k < |stashed| ==> TokenOk(stashed[k])
    ensures var stashed' := StashAll(Marked(l), stashed, protected).1;
            forall k :: 0 <= k < |stashed'| ==> TokenOk(stashed'[k])
  {
    StashOk(Marked(l), stashed, protected);
  }

  lemma {:induction false} StashOk(s: string, stashed: seq<string>, protected: seq<string>)
    requires NoneEmpty(protected) && (forall i :: 0 <= i < |protected| ==> TokenOk(protected[i]))
    requires forall k :: 0 <= k < |stashed| ==> TokenOk(stashed[k])
    ensures var stashed' := StashAll(s, stashed, protected).1;
            forall k :: 0 <= k < |stashed'| ==> TokenOk(stashed'[k])
    decreases |protected|
  {
    hide TokenOk, StashScan, CountMatches;
    if protected != [] {
      var tok := protected[0];
      var more := stashed + Repeat(tok, CountMatches(s, tok));
      RepeatSpec(tok, CountMatches(s, tok));
      assert TokenOk(tok);
      forall k | 0 <= k < |more|
        ensures TokenOk(more[k])
      {
        if k >= |stashed| { assert more[k] == Repeat(tok, CountMatches(s, tok))[k - |stashed|]; }
      }
      StashOk(StashScan(s, tok, |stashed|), more, protected[1..]);
      assert StashAll(s, stashed, protected) == StashAll(StashScan(s, tok, |stashed|), more, protected[1..]);
    }
  }

  /** The brand rewrite factors around the protected tokens: the text splits into gaps and
      tokens, no gap contains a token of the list, and the output is the tokens unchanged
      between the gaps, each gap rewritten on its own, if and only if no gap forges a marker.
      The count is the sum over the gaps. */
  lemma BrandFactors(raw: string, protected: seq<string>, rules: seq<Rule>)
    requires NoneEmpty(protected) && AllFind(rules) && TablesOk(protected, rules)
    requires NulFree(raw)
    ensures var l := Protect(Last(raw), protected, 0);
            && Plain(l) == raw
            && TokensFrom(l, set t | t in protected)
            && (forall t :: t in protected ==> GapsFreeOf(l, t))
            && (BrandText(raw, protected, rules) == Weave(l, rules) <==> NoneForged(l, 0))
            && CountAll(StashAll(raw, [], protected).0, rules) == CountGaps(l, rules)
  {
    hide Marker, Body, ForgedAt;
    var l := Protect(Last(raw), protected, 0);
    var tokens := set t | t in protected;
    ProtectTokens(Last(raw), protected, 0, tokens);
    forall t | t in protected
      ensures GapsFreeOf(l, t)
    {
      ProtectFree(Last(raw), protected, 0, t);
    }
    PlainProtected(raw, protected);
    PiecesNulFree(l);
    PiecesGood(l, tokens);
    hide Protect, GapsFreeOf, TokensFrom, GoodLayout, NoneForged, BrandText, CountAll, CountGaps, Weave, NulFree, NoneEmpty, AllFind;
    BrandRestored(raw, protected, rules);
  }

  lemma PlainProtected(raw: string, protected: seq<string>)
    requires NoneEmpty(protected) && forall i :: 0 <= i < |protected| ==> TokenOk(protected[i])
    ensures Plain(Protect(Last(raw), protected, 0)) == raw
  {
    hide TokenOk;
    StashAllMarked(Last(raw), [], protected);
  }

  lemma BrandRestored(raw: string, protected: seq<string>, rules: seq<Rule>)
    requires NoneEmpty(protected) && AllFind(rules) && TablesOk(protected, rules)
    requires GoodLayout(Protect(Last(raw), protected, 0))
    ensures var l := Protect(Last(raw), protected, 0);
            && (BrandText(raw, protected, rules) == Weave(l, rules) <==> NoneForged(l, 0))
            && CountAll(StashAll(raw, [], protected).0, rules) == CountGaps(l, rules)
  {
    var l := Protect(Last(raw), protected, 0);
    assert Numbered(Last(raw), [], 0);
    hide Marker, Body, ForgedAt, TokenOk, RuleOk, NoneForged, GoodLayout, Numbered, Protect;
    StashAllMarked(Last(raw), [], protected);
    StashedTokens(Last(raw), [], protected);
    var (working, stashed) := StashAll(raw, [], protected);
    PipelineMarked(l, rules, stashed);
    RestoreAllMarked(ApplyAllGaps(l, rules), stashed, 0);
  }

  /** The tokens, unchanged, between what the rules make of each gap on its own. */
  ghost predicate GapsRun(l: Layout, rules: seq<Rule>, out: string, n: int) {
    match l
    case Last(g) => RulesRun(g, rules, out, n)
    case Cons(g, t, _, rest) =>
      exists x, y, k :: out == x + (t + y) && RulesRun(g, rules, x, k) && GapsRun(rest, rules, y, n - k)
  }

  lemma {:induction false} WeaveRuns(l: Layout, rules: seq<Rule>)
    requires AllFind(rules)
    ensures GapsRun(l, rules, Weave(l, rules), CountGaps(l, rules))
  {
    hide RulesRun;
    match l
    case Last(g) => ApplyAllRuns(g, rules);
    case Cons(g, t, _, rest) =>
      ApplyAllRuns(g, rules);
      WeaveRuns(rest, rules);
  }

  /** The outcome in terms of the rules: without tokens they run on the whole text, otherwise on
      every gap. */
  lemma BrandRuns(raw: string, protected: seq<string>, rules: seq<Rule>)
    requires NoneEmpty(protected) && AllFind(rules)
    ensures var out, n := BrandText(raw, protected, rules), CountAll(StashAll(raw, [], protected).0, rules);
            && (protected == [] ==> RulesRun(raw, rules, out, n))
            && (TablesOk(protected, rules) && NulFree(raw) && NoneForged(Protect(Last(raw), protected, 0), 0) ==>
                  GapsRun(Protect(Last(raw), protected, 0), rules, out, n))
  {
    if protected == [] { ApplyAllRuns(raw, rules); }
    var l := Protect(Last(raw), protected, 0);
    if TablesOk(protected, rules) && NulFree(raw) && NoneForged(l, 0) {
      hide Protect, BrandText, CountAll, CountGaps, Weave, NoneForged, GapsRun, RulesRun;
      BrandFactors(raw, protected, rules);
      WeaveRuns(l, rules);
    }
  }

  /** In particular it does for every text that holds no part of a marker. */
  lemma BrandFactorsClean(raw: string, protected: seq<string>, rules: seq<Rule>)
    requires NoneEmpty(protected) && AllFind(rules) && TablesOk(protected, rules)
    requires NulFree(raw) && !Occurs(TAG, raw)
    ensures BrandText(raw, protected, rules) == Weave(Protect(Last(raw), protected, 0), rules)
  {
    var l := Protect(Last(raw), protected, 0);
    BrandFactors(raw, protected, rules);
    ProtectFree(Last(raw), protected, 0, TAG);
    hide ForgedAt, BrandText, Weave, GapsFreeOf, Protect;
    assert NoneForged(l, 0) by {
      forall i: nat
        ensures !ForgedAt(l, i)
      {
        TagFreeUnforged(l, i);
      }
    }
  }

  /** A text without a NUL that forges a marker: the gap between the second and the third
      token reads as the first marker. */
  lemma ForgedGap(tok: string)
    requires TokenOk(tok) && 'a' <= tok[0] <= 'z'
    ensures var raw := tok + (tok + (Body(0) + tok));
            NulFree(raw) && BrandText(raw, [tok], []) != raw
  {
    var raw := tok + (tok + (Body(0) + tok));
    var l := Cons("", tok, 0, Cons("", tok, 1, Cons(Body(0), tok, 2, Last(""))));
    BodyIsWord(0);
    ForgedCut(tok);
    hide Body;
    assert NoneEmpty([tok]) && AllFind([]) && TablesOk([tok], []);
    BrandFactors(raw, [tok], []);
    WeavePlain(l);
    assert ForgedAt(l, 0);
  }

  lemma NotInBody(tok: string)
    requires TokenOk(tok) && 'a' <= tok[0] <= 'z'
    ensures forall k :: 0 <= k < |Body(0)| ==> !(tok <= Body(0)[k..] + tok)
  {
    var b := Body(0);
    forall k | 0 <= k < |b|
      ensures !(tok <= b[k..] + tok)
    {
      if k >= |TAG| { assert b[k] == Decimal(0)[k - |TAG|]; }
      assert (b[k..] + tok)[0] == b[k];
    }
  }

  lemma ForgedCut(tok: string)
    requires TokenOk(tok) && 'a' <= tok[0] <= 'z'
    ensures Protect(Last(tok + (tok + (Body(0) + tok))), [tok], 0)
         == Cons("", tok, 0, Cons("", tok, 1, Cons(Body(0), tok, 2, Last(""))))
  {
    hide Body, Cut, Protect, TokenOk;
    var b := Body(0);
    NotInBody(tok);
    assert tok != "" by { TokenThere(tok); }
    CutItself(tok, 2);
    CutAbsent(b, tok, tok, 2);
    assert b + "" == b;
    CutTok(b + tok, tok, 1);
    CutTok(tok + (b + tok), tok, 0);
    ProtectOne(tok + (tok + (b + tok)), tok);
  }

  lemma TokenThere(tok: string)
    requires TokenOk(tok)
    ensures tok != ""
  {}

  lemma CutItself(tok: string, n: nat)
    requires tok != ""
    ensures Cut(tok, tok, n) == Cons("", tok, n, Last(""))
  {
    assert tok[|tok|..] == "";
  }

  lemma ProtectOne(s: string, tok: string)
    requires tok != ""
    ensures Protect(Last(s), [tok], 0) == Cut(s, tok, 0)
  {
    assert [tok][1..] == [];
  }

  lemma CutTok(g: string, tok: string, n: nat)
    requires tok != ""
    ensures Cut(tok + g, tok, n) == Cons("", tok, n, Cut(g, tok, n + 1))
  {
    assert (tok + g)[|tok|..] == g;
  }

  /** Text in which the token does not start, and then the token. */
  lemma {:induction false} CutAbsent(b: string, tok: string, rest: string, n: nat)
    requires TokenOk(tok) && tok <= rest
    requires forall k :: 0 <= k < |b| ==> !(tok <= b[k..] + rest)
    ensures Cut(b + rest, tok, n) == PrependText(b, Cut(rest, tok, n))
    decreases |b|
  {
    var l := Cut(rest, tok, n);
    if b == "" {
      assert b + rest == rest && b + l.gap == l.gap;
    } else {
      var s := b + rest;
      assert b[0..] == b;
      assert s[0] == b[0] && s[1..] == b[1..] + rest;
      forall k | 0 <= k < |b| - 1
        ensures !(tok <= b[1..][k..] + rest)
      {
        assert b[1..][k..] == b[k + 1..];
      }
      CutAbsent(b[1..], tok, rest, n);
      Glue([b[0]], b[1..], l.gap);
      assert [b[0]] + b[1..] == b;
    }
  }

  /** Without the condition on the input the tokens are not kept apart: a marker that was
      already in the text is replaced by the token with its number, with no rule at all. */
  lemma ForgedMarker(tok: string)
    requires TokenOk(tok)
    ensures BrandText(tok + Marker(0), [tok], []) == tok + tok
    ensures tok + tok != tok + Marker(0)
  {
    var l := Cons("", tok, 0, Cons("", tok, 0, Last("")));
    var inner := Cons("", tok, 0, Last(""));
    StashForged(tok);
    assert GoodLayout(inner) && Numbered(inner, [tok], 0);
    assert GoodLayout(l) && Numbered(l, [tok], 0);
    forall i: nat
      ensures !ForgedAt(l, i)
    {
      BodyIsWord(i);
      assert !ForgedAt(inner, i);
    }
    RestoreAllMarked(l, [tok], 0);
    ForgedPlain(tok);
    assert (tok + Marker(0))[|tok|] == NUL && (tok + tok)[|tok|] == tok[0];
  }

  lemma StashForged(tok: string)
    requires TokenOk(tok)
    ensures StashAll(tok + Marker(0), [], [tok]) == (Marked(Cons("", tok, 0, Cons("", tok, 0, Last("")))), [tok])
  {
    var raw := tok + (Marker(0) + "");
    assert !Occurs(tok, Body(0));
    hide Body;
    StashAtMarker(tok, 0, "", tok, 0);
    assert StashScan(tok, tok, 0) == Marker(0) by { assert tok[|tok|..] == ""; }
    assert CountMatches(tok, tok) == 1;
    assert raw == tok + Marker(0);
    var inner := Cons("", tok, 0, Last(""));
    assert Marked(inner) == Marker(0) + "" == Marker(0);
    assert Marked(Cons("", tok, 0, inner)) == Marker(0) + Marked(inner);
    assert Repeat(tok, 1) == [tok] + Repeat(tok, 0);
    assert [] + Repeat(tok, 1) == [tok];
    assert [tok][1..] == [];
  }

  lemma ForgedPlain(tok: string)
    ensures Plain(Cons("", tok, 0, Cons("", tok, 0, Last("")))) == tok + tok
  {
    assert Plain(Cons("", tok, 0, Last(""))) == tok;
  }
}
