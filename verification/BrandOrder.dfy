/** When the order of the protected tokens matters to the brand rewrite, and when every
    occurrence of a token is really protected. Both are decided by the token list alone. */
module BrandOrder {
  import opened Text
  import opened Brand

  /** The same cut, marker numbers aside. */
  function Erase(l: Layout): Layout {
    match l
    case Last(g) => Last(g)
    case Cons(g, t, _, rest) => Cons(g, t, 0, Erase(rest))
  }

  /** Position of the first token of the list that `s` starts with; their number if none. */
  function FirstToken(s: string, tokens: seq<string>): (k: nat)
    ensures k <= |tokens|
    ensures k < |tokens| ==> tokens[k] <= s
    ensures forall i :: 0 <= i < k ==> !(tokens[i] <= s)
  {
    if tokens == [] || tokens[0] <= s then 0 else 1 + FirstToken(s, tokens[1..])
  }

  /** All tokens cut at once, from left to right. */
  function CutAll(s: string, tokens: seq<string>): Layout
    requires NoneEmpty(tokens)
    decreases |s|
  {
    if s == "" then Last("")
    else
      var k := FirstToken(s, tokens);
      if k < |tokens| then Cons("", tokens[k], 0, CutAll(s[|tokens[k]|..], tokens))
      else PrependChar(s[0], CutAll(s[1..], tokens))
  }

  /** A proper suffix of `s` starts `t`. */
  ghost predicate Overlaps(s: string, t: string) { exists k :: 0 < k < |s| && s[k..] <= t }

  /** Occurrences of the two can share text: one contains the other, or they overlap. */
  ghost predicate Meet(s: string, t: string) { (s != t && Occurs(s, t)) || Overlaps(s, t) }

  /** No two different tokens meet. */
  ghost predicate OrderFree(tokens: seq<string>) {
    forall s, t :: s in tokens && t in tokens && s != t ==> !Meet(s, t)
  }

  /** No token meets another one, or overlaps itself. */
  ghost predicate Apart(tokens: seq<string>) {
    forall s, t :: s in tokens && t in tokens ==> !Meet(s, t)
  }

  // ----- cutting one by one is cutting all at once -----

  lemma {:induction false} EraseCut(s: string, tok: string, m: nat, n: nat)
    requires tok != ""
    ensures Erase(Cut(s, tok, m)) == Erase(Cut(s, tok, n))
    decreases |s|
  {
    if s == "" {
    } else if tok <= s {
      EraseCut(s[|tok|..], tok, m + 1, n + 1);
    } else {
      EraseCut(s[1..], tok, m, n);
      ErasePrepend(s[0], Cut(s[1..], tok, m));
      ErasePrepend(s[0], Cut(s[1..], tok, n));
    }
  }

  lemma ErasePrepend(c: char, l: Layout)
    ensures Erase(PrependChar(c, l)) == PrependChar(c, Erase(l))
  {}

  lemma {:induction false} EraseAttach(l: Layout, tok: string, id: nat, rest: Layout)
    ensures Erase(Attach(l, tok, id, rest)) == Attach(Erase(l), tok, 0, Erase(rest))
  {
    match l
    case Last(_) =>
    case Cons(_, _, _, r) => EraseAttach(r, tok, id, rest);
  }

  lemma {:induction false} EraseRefine(l: Layout, tok: string, m: nat, n: nat)
    requires tok != ""
    ensures Erase(Refine(l, tok, m)) == Erase(Refine(Erase(l), tok, n))
  {
    match l
    case Last(g) => EraseCut(g, tok, m, n);
    case Cons(g, t, id, rest) =>
      var d := CountMatches(g, tok);
      EraseCut(g, tok, m, n);
      EraseRefine(rest, tok, m + d, n + d);
      EraseAttach(Cut(g, tok, m), t, id, Refine(rest, tok, m + d));
      EraseAttach(Cut(g, tok, n), t, 0, Refine(Erase(rest), tok, n + d));
  }

  lemma {:induction false} EraseCutAll(s: string, tokens: seq<string>)
    requires NoneEmpty(tokens)
    ensures Erase(CutAll(s, tokens)) == CutAll(s, tokens)
    ensures FirstGap(CutAll(s, tokens)) <= s
    decreases |s|
  {
    if s != "" {
      var k := FirstToken(s, tokens);
      if k < |tokens| {
        EraseCutAll(s[|tokens[k]|..], tokens);
      } else {
        EraseCutAll(s[1..], tokens);
        ErasePrepend(s[0], CutAll(s[1..], tokens));
      }
    }
  }

  lemma AttachPrepend(c: char, l: Layout, tok: string, id: nat, rest: Layout)
    ensures Attach(PrependChar(c, l), tok, id, rest) == PrependChar(c, Attach(l, tok, id, rest))
  {}

  lemma CutCopies(c: char, g: string, tok: string, n: nat)
    requires tok != "" && !(tok <= [c] + g)
    ensures Cut([c] + g, tok, n) == PrependChar(c, Cut(g, tok, n))
    ensures CountMatches([c] + g, tok) == CountMatches(g, tok)
  {
    assert ([c] + g)[1..] == g;
  }

  lemma RefinePrepend(c: char, l: Layout, tok: string, n: nat)
    requires tok != "" && !(tok <= [c] + FirstGap(l))
    ensures Refine(PrependChar(c, l), tok, n) == PrependChar(c, Refine(l, tok, n))
  {
    CutCopies(c, l.gap, tok, n);
    match l
    case Last(_) =>
    case Cons(g, t, id, rest) =>
      AttachPrepend(c, Cut(g, tok, n), t, id, Refine(rest, tok, n + CountMatches(g, tok)));
  }

  lemma CutStarts(g: string, tok: string, n: nat)
    requires tok != ""
    ensures Cut(tok + g, tok, n) == Cons("", tok, n, Cut(g, tok, n + 1))
    ensures CountMatches(tok + g, tok) == 1 + CountMatches(g, tok)
  {
    assert (tok + g)[|tok|..] == g;
  }

  lemma RefineStarts(l: Layout, tok: string, n: nat)
    requires tok != ""
    ensures Refine(PrependText(tok, l), tok, n) == Cons("", tok, n, Refine(l, tok, n + 1))
  {
    CutStarts(l.gap, tok, n);
  }

  /** Where no token starts, the text is copied. */
  lemma {:induction false} CopyThrough(s: string, k: nat, tokens: seq<string>)
    requires NoneEmpty(tokens) && k <= |s|
    requires forall j, t :: 0 <= j < k && t in tokens ==> !(t <= s[j..])
    ensures CutAll(s, tokens) == PrependText(s[..k], CutAll(s[k..], tokens))
    decreases k
  {
    var l := CutAll(s[k..], tokens);
    if k == 0 {
      assert s[0..] == s && s[..0] + l.gap == l.gap;
    } else {
      assert s[0..] == s;
      forall i | 0 <= i < |tokens|
        ensures !(tokens[i] <= s)
      {
        assert tokens[i] in tokens && !(tokens[i] <= s[0..]);
      }
      assert FirstToken(s, tokens) == |tokens|;
      forall j, t | 0 <= j < k - 1 && t in tokens
        ensures !(t <= s[1..][j..])
      {
        assert s[1..][j..] == s[j + 1..];
      }
      CopyThrough(s[1..], k - 1, tokens);
      assert s[1..][k - 1..] == s[k..];
      assert [s[0]] + s[1..][..k - 1] == s[..k];
      Glue([s[0]], s[1..][..k - 1], l.gap);
    }
  }

  /** A token that starts inside an occurrence of another one meets it. */
  lemma StartsInside(s: string, t: string, a: string, j: nat)
    requires t <= s && j < |t| && a <= s[j..] && a != t && a != ""
    ensures Meet(a, t) || Meet(t, a)
  {
    assert t == s[..|t|];
    if j + |a| <= |t| {
      assert a <= t[j..];
    } else if j == 0 {
      assert s[0..] == s && a[0..] == a;
      assert t <= a[0..];
    } else {
      assert t[j..] <= a;
    }
  }

  /** Cutting the next token out of the gaps of a simultaneous cut. */
  lemma {:induction false} RefineCutAll(s: string, tokens: seq<string>, t: string, n: nat)
    requires NoneEmpty(tokens) && t != "" && NoneEmpty(tokens + [t])
    requires forall a :: a in tokens && a != t ==> !Meet(a, t) && !Meet(t, a)
    ensures Erase(Refine(CutAll(s, tokens), t, n)) == CutAll(s, tokens + [t])
    decreases |s|
  {
    var more := tokens + [t];
    FirstTokenMore(s, tokens, t);
    var k := FirstToken(s, tokens);
    if s == "" {
    } else if k < |tokens| {
      RefineCutAll(s[|tokens[k]|..], tokens, t, n);
      RefineHead(tokens[k], CutAll(s[|tokens[k]|..], tokens), t, n);
    } else if t <= s {
      forall j, a | 0 <= j < |t| && a in tokens
        ensures !(a <= s[j..])
      {
        if a != t && a <= s[j..] { StartsInside(s, t, a, j); }
      }
      CopyThrough(s, |t|, tokens);
      assert s[..|t|] == t;
      RefineStarts(CutAll(s[|t|..], tokens), t, n);
      RefineCutAll(s[|t|..], tokens, t, n + 1);
    } else {
      var l := CutAll(s[1..], tokens);
      EraseCutAll(s[1..], tokens);
      PrefixOnly(t, s, FirstGap(l));
      RefinePrepend(s[0], l, t, n);
      RefineCutAll(s[1..], tokens, t, n);
      ErasePrepend(s[0], Refine(l, t, n));
    }
  }

  lemma PrefixOnly(t: string, s: string, g: string)
    requires s != "" && g <= s[1..] && !(t <= s)
    ensures !(t <= [s[0]] + g)
  {
    assert [s[0]] + g <= s;
  }

  lemma RefineHead(a: string, l: Layout, t: string, n: nat)
    requires t != ""
    ensures Refine(Cons("", a, 0, l), t, n) == Cons("", a, 0, Refine(l, t, n))
  {}

  lemma {:induction false} FirstTokenMore(s: string, tokens: seq<string>, t: string)
    ensures FirstToken(s, tokens + [t])
         == if FirstToken(s, tokens) < |tokens| then FirstToken(s, tokens) else if t <= s then |tokens| else |tokens| + 1
    decreases |tokens|
  {
    if tokens == [] {
      assert tokens + [t] == [t] && [t][1..] == [];
    } else {
      assert (tokens + [t])[1..] == tokens[1..] + [t];
      FirstTokenMore(s, tokens[1..], t);
    }
  }

  lemma {:induction false} CutAllNone(s: string)
    ensures CutAll(s, []) == Last(s)
  {
    if s != "" {
      CutAllNone(s[1..]);
      assert [s[0]] + s[1..] == s;
    }
  }

  lemma {:induction false} ProtectMore(l: Layout, s: string, done: seq<string>, todo: seq<string>, n: nat)
    requires NoneEmpty(done) && NoneEmpty(todo) && NoneEmpty(done + todo) && OrderFree(done + todo)
    requires Erase(l) == CutAll(s, done)
    ensures Erase(Protect(l, todo, n)) == CutAll(s, done + todo)
    decreases |todo|
  {
    hide Meet, OrderFree, Refine, Protect, Erase, CutAll;
    if todo == [] {
      assert done + todo == done;
      NothingTodo(l, n);
    } else {
      var t := todo[0];
      assert done + todo == done + [t] + todo[1..];
      MoreTokens(done, todo);
      EraseRefine(l, t, n, n);
      RefineCutAll(s, done, t, n);
      ProtectMore(Refine(l, t, n), s, done + [t], todo[1..], n + GapMatches(l, t));
      ProtectStep(l, todo, n);
    }
  }

  lemma NothingTodo(l: Layout, n: nat)
    ensures Protect(l, [], n) == l
  {}

  lemma ProtectStep(l: Layout, todo: seq<string>, n: nat)
    requires NoneEmpty(todo) && todo != []
    ensures Protect(l, todo, n) == Protect(Refine(l, todo[0], n), todo[1..], n + GapMatches(l, todo[0]))
  {}

  lemma MoreTokens(done: seq<string>, todo: seq<string>)
    requires NoneEmpty(done + todo) && OrderFree(done + todo) && todo != []
    ensures NoneEmpty(done) && NoneEmpty(todo[1..]) && NoneEmpty(done + [todo[0]])
    ensures forall a :: a in done && a != todo[0] ==> !Meet(a, todo[0]) && !Meet(todo[0], a)
  {
    hide Meet;
    var all := done + todo;
    assert forall a :: a in done ==> a in all;
    assert todo[0] in all;
    assert forall i :: 0 <= i < |todo| ==> all[|done| + i] == todo[i];
    assert forall i :: 0 <= i < |done| ==> all[i] == done[i];
  }

  /** If no two different tokens meet, cutting them one by one is cutting them all at once. */
  lemma ProtectIsCutAll(raw: string, tokens: seq<string>)
    requires NoneEmpty(tokens) && OrderFree(tokens)
    ensures Erase(Protect(Last(raw), tokens, 0)) == CutAll(raw, tokens)
  {
    assert [] + tokens == tokens;
    CutAllNone(raw);
    ProtectMore(Last(raw), raw, [], tokens, 0);
  }

  ghost predicate SameTokens(xs: seq<string>, ys: seq<string>) { forall t :: t in xs <==> t in ys }

  /** Only the set of tokens matters then. */
  lemma {:induction false} CutAllSame(s: string, xs: seq<string>, ys: seq<string>)
    requires NoneEmpty(xs) && NoneEmpty(ys) && OrderFree(xs) && SameTokens(xs, ys)
    ensures CutAll(s, xs) == CutAll(s, ys)
    decreases |s|
  {
    if s != "" {
      var i, j := FirstToken(s, xs), FirstToken(s, ys);
      if i < |xs| { assert xs[i] in ys; }
      if j < |ys| { assert ys[j] in xs; }
      if i < |xs| && j < |ys| {
        if xs[i] != ys[j] { StartsInside(s, xs[i], ys[j], 0); }
        CutAllSame(s[|xs[i]|..], xs, ys);
      } else {
        CutAllSame(s[1..], xs, ys);
      }
    }
  }

  // ----- where the tokens are -----

  /** A cell of `l` holds `t`, starting at position `i` of the text. */
  predicate CellAt(l: Layout, i: int, t: string) {
    match l
    case Last(_) => false
    case Cons(g, u, _, rest) => (i == |g| && t == u) || (i >= |g| + |u| && CellAt(rest, i - |g| - |u|, t))
  }

  lemma {:induction false} CellErased(l: Layout, i: int, t: string)
    ensures CellAt(Erase(l), i, t) == CellAt(l, i, t)
  {
    match l
    case Last(_) =>
    case Cons(g, u, _, rest) => CellErased(rest, i - |g| - |u|, t);
  }

  lemma {:induction false} CellsDisjoint(l: Layout, i: int, s: string, j: int, t: string)
    requires CellAt(l, i, s) && CellAt(l, j, t) && i <= j
    ensures (i == j && s == t) || i + |s| <= j || (s == "" || t == "")
  {
    match l
    case Cons(g, u, _, rest) =>
      if i > |g| || s != u || i >= |g| + |u| {
        if i >= |g| + |u| && CellAt(rest, i - |g| - |u|, s) && CellAt(rest, j - |g| - |u|, t) {
          CellsDisjoint(rest, i - |g| - |u|, s, j - |g| - |u|, t);
        }
      }
  }

  lemma CellPrepend(c: char, l: Layout, i: int, t: string)
    ensures CellAt(PrependChar(c, l), i + 1, t) == CellAt(l, i, t)
  {}

  lemma {:induction false} CellAttached(l: Layout, tok: string, id: nat, rest: Layout, i: int, t: string)
    requires (i >= |Plain(l)| + |tok| && CellAt(rest, i - |Plain(l)| - |tok|, t)) || (i == |Plain(l)| && t == tok)
    ensures CellAt(Attach(l, tok, id, rest), i, t)
  {
    match l
    case Last(_) =>
    case Cons(g, u, _, r) => CellAttached(r, tok, id, rest, i - |g| - |u|, t);
  }

  /** Cells are never cut again. */
  lemma {:induction false} CellRefined(l: Layout, tok: string, n: nat, i: int, t: string)
    requires tok != "" && CellAt(l, i, t)
    ensures CellAt(Refine(l, tok, n), i, t)
  {
    match l
    case Cons(g, u, id, rest) =>
      var m := n + CountMatches(g, tok);
      CutMarked(g, tok, n);
      if i >= |g| + |u| && CellAt(rest, i - |g| - |u|, t) { CellRefined(rest, tok, m, i - |g| - |u|, t); }
      CellAttached(Cut(g, tok, n), u, id, Refine(rest, tok, m), i, t);
  }

  lemma {:induction false} CellProtected(l: Layout, tokens: seq<string>, n: nat, i: int, t: string)
    requires NoneEmpty(tokens) && CellAt(l, i, t)
    ensures CellAt(Protect(l, tokens, n), i, t)
    decreases |tokens|
  {
    if tokens != [] {
      CellRefined(l, tokens[0], n, i, t);
      CellProtected(Refine(l, tokens[0], n), tokens[1..], n + GapMatches(l, tokens[0]), i, t);
    }
  }

  lemma {:induction false} FirstCell(s: string, tok: string, n: nat)
    requires tok != "" && Find(s, tok) >= 0
    ensures CellAt(Cut(s, tok, n), Find(s, tok), tok)
    decreases |s|
  {
    if !(tok <= s) {
      FirstCell(s[1..], tok, n);
      CellPrepend(s[0], Cut(s[1..], tok, n), Find(s[1..], tok), tok);
    }
  }

  lemma {:induction false} FindFirst(s: string, pat: string, i: nat)
    requires i <= |s| && pat <= s[i..]
    ensures 0 <= Find(s, pat) <= i
  {
    if i == 0 {
      assert s[0..] == s;
    } else if !(pat <= s) {
      assert s[1..][i - 1..] == s[i..];
      FindFirst(s[1..], pat, i - 1);
    }
  }

  /** The token that is listed first is cut at its first occurrence, whatever follows. */
  lemma ListedFirst(raw: string, tokens: seq<string>, i: nat)
    requires NoneEmpty(tokens) && tokens != [] && i <= |raw| && tokens[0] <= raw[i..]
    ensures 0 <= Find(raw, tokens[0]) <= i
    ensures CellAt(Protect(Last(raw), tokens, 0), Find(raw, tokens[0]), tokens[0])
  {
    FindFirst(raw, tokens[0], i);
    FirstCell(raw, tokens[0], 0);
    CellProtected(Cut(raw, tokens[0], 0), tokens[1..], GapMatches(Last(raw), tokens[0]), Find(raw, tokens[0]), tokens[0]);
  }

  /** Two tokens that meet do so in some text, in which one starts inside the other. */
  lemma MeetingText(s: string, t: string) returns (raw: string, k: nat)
    requires Overlaps(s, t)
    ensures 0 < k < |s| && k <= |raw| && s <= raw && t <= raw[k..]
  {
    k :| 0 < k < |s| && s[k..] <= t;
    var n := |s| - k;
    raw := s + t[n..];
    assert raw[k..] == s[k..] + t[n..];
    assert t == t[..n] + t[n..] && t[..n] == s[k..];
  }

  // ----- the order of the list -----

  /** The list with `t` put first. */
  lemma PutFirst(t: string, tokens: seq<string>) returns (moved: seq<string>)
    requires t in tokens
    ensures moved != [] && moved[0] == t && multiset(moved) == multiset(tokens) && SameTokens(tokens, moved)
  {
    var i :| 0 <= i < |tokens| && tokens[i] == t;
    moved := [t] + tokens[..i] + tokens[i + 1..];
    assert tokens == tokens[..i] + [t] + tokens[i + 1..];
    assert multiset(moved) == multiset(tokens);
    forall u
      ensures u in tokens <==> u in moved
    {
      assert u in tokens <==> u in multiset(tokens);
      assert u in moved <==> u in multiset(moved);
    }
  }

  lemma SameNoneEmpty(xs: seq<string>, ys: seq<string>)
    requires NoneEmpty(xs) && SameTokens(xs, ys)
    ensures NoneEmpty(ys)
  {
    forall i | 0 <= i < |ys|
      ensures ys[i] != ""
    {
      assert ys[i] in xs;
    }
  }

  /** Every order of the list cuts the text in the same places. */
  ghost predicate OrderIrrelevant(tokens: seq<string>)
    requires NoneEmpty(tokens)
  {
    forall raw: string, order: seq<string> :: multiset(order) == multiset(tokens) && NoneEmpty(order) ==>
      Erase(Protect(Last(raw), order, 0)) == Erase(Protect(Last(raw), tokens, 0))
  }

  lemma SameMultiset(xs: seq<string>, ys: seq<string>)
    requires multiset(xs) == multiset(ys)
    ensures SameTokens(xs, ys)
  {
    forall t
      ensures t in xs <==> t in ys
    {
      assert t in xs <==> t in multiset(xs);
      assert t in ys <==> t in multiset(ys);
    }
  }

  /** Two different tokens that meet are cut differently, depending on which is listed first. */
  lemma OrderMatters(s: string, t: string, tokens: seq<string>)
    requires NoneEmpty(tokens) && s in tokens && t in tokens && s != t && Meet(s, t)
    ensures !OrderIrrelevant(tokens)
  {
    assert s != "" && t != "";
    var raw, k, i, j: nat;
    if Overlaps(s, t) {
      raw, k := MeetingText(s, t);
      i, j := 0, k;
    } else {
      k :| 0 <= k <= |t| && s <= t[k..];
      raw, i, j := t, k, 0;
    }
    assert raw[0..] == raw;
    var sFirst := PutFirst(s, tokens);
    var tFirst := PutFirst(t, tokens);
    SameNoneEmpty(tokens, sFirst);
    SameNoneEmpty(tokens, tFirst);
    ListedFirst(raw, sFirst, i);
    ListedFirst(raw, tFirst, j);
    var a, b := Protect(Last(raw), sFirst, 0), Protect(Last(raw), tFirst, 0);
    var p, q := Find(raw, s), Find(raw, t);
    if OrderIrrelevant(tokens) {
      assert Erase(a) == Erase(Protect(Last(raw), tokens, 0)) == Erase(b);
      CellErased(a, p, s);
      CellErased(b, p, s);
      if p <= q { CellsDisjoint(b, p, s, q, t); } else { CellsDisjoint(b, q, t, p, s); }
    }
  }

  /** The order of the list matters only for the numbers of the markers if and only if no
      token contains a different one and none overlaps a different one. */
  lemma OrderDecided(tokens: seq<string>)
    requires NoneEmpty(tokens)
    ensures OrderIrrelevant(tokens) <==> OrderFree(tokens)
  {
    if OrderFree(tokens) {
      forall raw: string, order: seq<string> | multiset(order) == multiset(tokens) && NoneEmpty(order)
        ensures Erase(Protect(Last(raw), order, 0)) == Erase(Protect(Last(raw), tokens, 0))
      {
        SameMultiset(order, tokens);
        ProtectIsCutAll(raw, tokens);
        ProtectIsCutAll(raw, order);
        CutAllSame(raw, tokens, order);
      }
    } else {
      var s, t :| s in tokens && t in tokens && s != t && Meet(s, t);
      OrderMatters(s, t, tokens);
    }
  }

  // ----- which occurrences are protected -----

  /** Every occurrence of a token in the text is a cell of the cut. */
  ghost predicate AllProtected(raw: string, tokens: seq<string>)
    requires NoneEmpty(tokens)
  {
    forall i, t :: 0 <= i <= |raw| && t in tokens && t <= raw[i..] ==> CellAt(Protect(Last(raw), tokens, 0), i, t)
  }

  lemma {:induction false} CutAllProtects(raw: string, tokens: seq<string>, i: nat, t: string)
    requires NoneEmpty(tokens) && Apart(tokens) && i <= |raw| && t in tokens && t <= raw[i..]
    ensures CellAt(CutAll(raw, tokens), i, t)
    decreases |raw|
  {
    hide Meet;
    var k := FirstToken(raw, tokens);
    assert t != "";
    if k < |tokens| {
      var a := tokens[k];
      assert a in tokens;
      assert raw[0..] == raw;
      if i < |a| {
        if t != a { StartsInside(raw, a, t, i); }
        if 0 < i { SelfOverlap(raw, a, i); }
      } else {
        assert raw[|a|..][i - |a|..] == raw[i..];
        CutAllProtects(raw[|a|..], tokens, i - |a|, t);
      }
    } else {
      NotFirst(raw, tokens, t);
      assert raw[0..] == raw;
      assert i > 0;
      assert raw[1..][i - 1..] == raw[i..];
      CutAllProtects(raw[1..], tokens, i - 1, t);
      CellPrepend(raw[0], CutAll(raw[1..], tokens), i - 1, t);
    }
  }

  lemma NotFirst(s: string, tokens: seq<string>, t: string)
    requires FirstToken(s, tokens) == |tokens| && t in tokens
    ensures !(t <= s)
  {
    var i :| 0 <= i < |tokens| && tokens[i] == t;
  }

  lemma SelfOverlap(s: string, a: string, i: nat)
    requires a <= s && 0 < i < |a| && a <= s[i..]
    ensures Meet(a, a)
  {
    assert a == s[..|a|];
    assert a[i..] <= a;
  }

  /** An occurrence of one token that starts inside an occurrence of another cannot be a cell
      together with it. */
  lemma NotBothCells(s: string, t: string, tokens: seq<string>) returns (raw: string)
    requires NoneEmpty(tokens) && s in tokens && t in tokens && Meet(s, t)
    ensures !AllProtected(raw, tokens)
  {
    assert s != "" && t != "";
    var k: nat;
    if Overlaps(s, t) {
      raw, k := MeetingText(s, t);
      assert raw[0..] == raw;
      var l := Protect(Last(raw), tokens, 0);
      if CellAt(l, 0, s) && CellAt(l, k, t) { CellsDisjoint(l, 0, s, k, t); }
    } else {
      k :| 0 <= k <= |t| && s <= t[k..];
      raw := t;
      assert raw[0..] == raw;
      var l := Protect(Last(raw), tokens, 0);
      if CellAt(l, 0, t) && CellAt(l, k, s) { CellsDisjoint(l, 0, t, k, s); }
    }
  }

  /** Every occurrence of a token is protected, in every text, if and only if no token
      contains a different one and no proper suffix of a token starts one. */
  lemma ProtectionDecided(tokens: seq<string>)
    requires NoneEmpty(tokens)
    ensures (forall raw :: AllProtected(raw, tokens)) <==> Apart(tokens)
  {
    if Apart(tokens) {
      forall raw: string
        ensures AllProtected(raw, tokens)
      {
        ApartOrderFree(tokens);
        ProtectIsCutAll(raw, tokens);
        forall i: int, t: string | 0 <= i <= |raw| && t in tokens && t <= raw[i..]
          ensures CellAt(Protect(Last(raw), tokens, 0), i, t)
        {
          CutAllProtects(raw, tokens, i, t);
          CellErased(Protect(Last(raw), tokens, 0), i, t);
        }
      }
    } else {
      var s, t :| s in tokens && t in tokens && Meet(s, t);
      var raw := NotBothCells(s, t, tokens);
    }
  }

  lemma ApartOrderFree(tokens: seq<string>)
    requires Apart(tokens)
    ensures OrderFree(tokens)
  {
    hide Meet;
  }

  /** Both at once: any order of the list protects the same places and every occurrence is
      protected, if and only if the tokens are apart. */
  lemma TokensDecide(tokens: seq<string>)
    requires NoneEmpty(tokens)
    ensures OrderIrrelevant(tokens) && (forall raw :: AllProtected(raw, tokens)) <==> Apart(tokens)
  {
    OrderDecided(tokens);
    ProtectionDecided(tokens);
    if Apart(tokens) { ApartOrderFree(tokens); }
  }

  // ----- the output -----

  lemma {:induction false} WeaveAttach(l: Layout, tok: string, id: nat, rest: Layout, rules: seq<Rule>)
    requires AllFind(rules)
    ensures Weave(Attach(l, tok, id, rest), rules) == Weave(l, rules) + (tok + Weave(rest, rules))
  {
    match l
    case Last(_) =>
    case Cons(g, t, _, r) =>
      WeaveAttach(r, tok, id, rest, rules);
      Assoc3(ApplyAll(g, rules), t, Weave(r, rules), tok + Weave(rest, rules));
  }

  /** A cell takes the text apart. */
  lemma {:induction false} SplitAtCell(l: Layout, i: nat, t: string) returns (before: Layout, id: nat, after: Layout)
    requires CellAt(l, i, t)
    ensures l == Attach(before, t, id, after) && |Plain(before)| == i
  {
    match l
    case Cons(g, u, n, rest) =>
      if i == |g| && t == u {
        before, id, after := Last(g), n, rest;
      } else {
        before, id, after := SplitAtCell(rest, i - |g| - |u|, t);
        before := Cons(g, u, n, before);
      }
  }

  /** With tokens that are apart, every occurrence of a token is in the output, between what
      the rest of the text becomes. */
  lemma OccurrenceSurvives(raw: string, tokens: seq<string>, rules: seq<Rule>, i: nat, t: string)
      returns (before: Layout, after: Layout)
    requires NoneEmpty(tokens) && AllFind(rules) && TablesOk(tokens, rules)
    requires NulFree(raw) && NoneForged(Protect(Last(raw), tokens, 0), 0)
    requires Apart(tokens) && t in tokens && i <= |raw| && t <= raw[i..]
    ensures Plain(before) == raw[..i] && Plain(after) == raw[i + |t|..]
    ensures BrandText(raw, tokens, rules) == Weave(before, rules) + (t + Weave(after, rules))
  {
    var l := Protect(Last(raw), tokens, 0);
    BrandFactors(raw, tokens, rules);
    ProtectionDecided(tokens);
    assert AllProtected(raw, tokens);
    hide Apart, TablesOk, Occurs, BrandText, CountAll, StashAll, TokensFrom, GapsFreeOf;
    var id: nat;
    before, id, after := SplitAtCell(l, i, t);
    WeaveAttach(before, t, id, after, rules);
    AttachMarked(before, t, id, after);
    Slices3(raw, Plain(before), t, Plain(after));
  }

  lemma Slices3(s: string, a: string, t: string, b: string)
    requires s == a + (t + b)
    ensures s[..|a|] == a && s[|a| + |t|..] == b
  {}

  // ----- lists that clash -----

  /** A list with these two entries, as the published one, clashes: one text holds both. */
  lemma PublishedTokensClash(tokens: seq<string>)
    requires NoneEmpty(tokens) && "openai/codex" in tokens && "codex-cli" in tokens
    ensures !OrderIrrelevant(tokens)
  {
    var s, t := "openai/codex", "codex-cli";
    assert s[0] == 'o' && t[0] == 'c';
    assert s[7..] == "codex" && "codex" == t[..5];
    assert s[7..] <= t;
    OrderMatters(s, t, tokens);
  }

  lemma LowerCaseOk(t: string)
    requires t != "" && forall i :: 0 <= i < |t| ==> 'a' <= t[i] <= 'z'
    ensures TokenOk(t)
  {
    forall n: nat
      ensures !Occurs(t, Body(n))
    {
      var b := Body(n);
      forall i | 0 <= i < |b|
        ensures !('a' <= b[i] <= 'z')
      {
        if i >= |TAG| { assert b[i] == Decimal(n)[i - |TAG|]; }
      }
      forall i | 0 <= i <= |b|
        ensures !(t <= b[i..])
      {
        if i < |b| { assert b[i..][0] == b[i]; }
      }
    }
  }

  /** A token of the list that does not survive: `xy` is cut by `x` when that is listed first,
      and what is left of it is rewritten. */
  lemma TokenLost()
    ensures BrandText("xy", ["x", "xy"], [Literal("y", "z")]) == "xz"
    ensures BrandText("xy", ["xy", "x"], [Literal("y", "z")]) == "xy"
  {
    ShortFirst('x', 'y', 'z');
    LongFirst('x', 'y', 'z');
  }

  lemma LettersOk(x: char, y: char, z: char)
    requires 'a' <= x <= 'z' && 'a' <= y <= 'z' && 'a' <= z <= 'z'
    ensures TokenOk([x]) && TokenOk([x, y]) && TokenOk([y]) && TokenOk([z])
    ensures NulFree([x, y]) && !Occurs(TAG, [x, y])
  {
    LowerCaseOk([x]);
    LowerCaseOk([x, y]);
    LowerCaseOk([y]);
    LowerCaseOk([z]);
    forall i | 0 <= i <= 2
      ensures !(TAG <= [x, y][i..])
    {
      assert |TAG| > |[x, y][i..]|;
    }
  }

  lemma ShortFirst(x: char, y: char, z: char)
    requires 'a' <= x <= 'z' && 'a' <= y <= 'z' && 'a' <= z <= 'z' && x != y
    ensures BrandText([x, y], [[x], [x, y]], [Literal([y], [z])]) == [x, z]
  {
    var tokens, rules := [[x], [x, y]], [Literal([y], [z])];
    LettersOk(x, y, z);
    CutShort(x, y);
    RewriteGaps(y, z, rules);
    hide TokenOk, NulFree, Occurs, Protect, ApplyAll;
    BrandFactorsClean([x, y], tokens, rules);
    assert Weave(Last([y]), rules) == [z];
    assert "" + ([x] + [z]) == [x, z];
  }

  lemma LongFirst(x: char, y: char, z: char)
    requires 'a' <= x <= 'z' && 'a' <= y <= 'z' && 'a' <= z <= 'z' && x != y
    ensures BrandText([x, y], [[x, y], [x]], [Literal([y], [z])]) == [x, y]
  {
    var tokens, rules := [[x, y], [x]], [Literal([y], [z])];
    LettersOk(x, y, z);
    CutLong(x, y);
    RewriteGaps(y, z, rules);
    hide TokenOk, NulFree, Occurs, Protect, ApplyAll;
    BrandFactorsClean([x, y], tokens, rules);
    assert Weave(Last(""), rules) == "";
    assert "" + ([x, y] + "") == [x, y];
  }

  lemma CutOne(c: char, tok: string, n: nat)
    requires tok != "" && !(tok <= [c])
    ensures Cut([c], tok, n) == Last([c])
  {
    assert [c][1..] == "";
    assert [c] + "" == [c];
  }

  lemma ProtectTwo(raw: string, a: string, b: string)
    requires a != "" && b != ""
    ensures NoneEmpty([a, b])
    ensures Protect(Last(raw), [a, b], 0) == Refine(Cut(raw, a, 0), b, CountMatches(raw, a))
  {
    assert [a, b][1..] == [b] && [b][1..] == [];
    assert NoneEmpty([b]);
    ProtectStep(Last(raw), [a, b], 0);
    ProtectStep(Cut(raw, a, 0), [b], CountMatches(raw, a));
  }

  lemma CutShort(x: char, y: char)
    requires x != y
    ensures Protect(Last([x, y]), [[x], [x, y]], 0) == Cons("", [x], 0, Last([y]))
  {
    var s := [x, y];
    ProtectTwo(s, [x], s);
    assert s[1..] == [y] && [x] == s[..1];
    assert [x][0] == x && [y][0] == y;
    CutOne(y, [x], 1);
    assert Cut(s, [x], 0) == Cons("", [x], 0, Last([y]));
    CutOne(y, s, 1);
    CutOne(y, s, CountMatches(s, [x]));
    RefineHead([x], Last([y]), s, CountMatches(s, [x]));
    hide Protect;
  }

  lemma CutLong(x: char, y: char)
    ensures Protect(Last([x, y]), [[x, y], [x]], 0) == Cons("", [x, y], 0, Last(""))
  {
    var s := [x, y];
    ProtectTwo(s, s, [x]);
    assert s[2..] == "";
    assert Cut(s, s, 0) == Cons("", s, 0, Last(""));
    RefineHead(s, Last(""), [x], CountMatches(s, s));
    hide Protect;
  }

  lemma RewriteGaps(y: char, z: char, rules: seq<Rule>)
    requires rules == [Literal([y], [z])]
    ensures AllFind(rules) && ApplyAll("", rules) == "" && ApplyAll([y], rules) == [z]
  {
    assert rules[1..] == [];
    assert [y][1..] == "";
    assert ReplaceAll([y], [y], [z]) == [z] + ReplaceAll("", [y], [z]) == [z];
    hide ReplaceAll;
  }
}
