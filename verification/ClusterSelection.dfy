/** Choosing the crates of the `core` cluster (reachability, a fixed point, minus proc-macros)
    and whether contracting them to one crate brings a dependency cycle. */
module ClusterSelection {

  const CODEX := "codex-"
  const CORE := "codex-core"

  datatype PackageInfo = PackageInfo(deps: seq<string>, isProcMacro: bool)

  type Graph = map<string, PackageInfo>

  predicate IsCodex(n: string) { CODEX <= n }

  predicate IsCandidate(n: string) {
    "codex-utils-" <= n || n == "codex-lmstudio" || n == "codex-ollama"
  }

  /** The loader keeps only `codex-` dependencies. */
  ghost predicate Loaded(g: Graph) {
    forall a, b :: DependsOn(g, a, b) ==> IsCodex(b)
  }

  predicate DependsOn(g: Graph, a: string, b: string) { a in g && b in g[a].deps }

  // ----- reachability -----

  ghost predicate IsPath(g: Graph, p: seq<string>) {
    p != [] && forall i :: 0 <= i < |p| - 1 ==> DependsOn(g, p[i], p[i + 1])
  }

  ghost predicate PathBetween(g: Graph, p: seq<string>, a: string, b: string) {
    IsPath(g, p) && p[0] == a && p[|p| - 1] == b
  }

  ghost predicate Reachable(g: Graph, a: string, b: string) { exists p :: PathBetween(g, p, a, b) }

  lemma ReachStep(g: Graph, a: string, b: string, c: string)
    requires Reachable(g, a, b) && DependsOn(g, b, c)
    ensures Reachable(g, a, c)
  {
    var p :| PathBetween(g, p, a, b);
    assert PathBetween(g, p + [c], a, c);
  }

  /** A set that holds the start of a path and every successor holds its end. */
  lemma {:induction false} ClosedHoldsPath(g: Graph, s: set<string>, p: seq<string>)
    requires IsPath(g, p) && p[0] in s
    requires forall a, b :: a in s && DependsOn(g, a, b) ==> b in s
    ensures p[|p| - 1] in s
    decreases |p|
  {
    if |p| > 1 {
      assert DependsOn(g, p[0], p[1]);
      assert forall i :: 0 <= i < |p| - 2 ==> DependsOn(g, p[1..][i], p[1..][i + 1]) by {
        forall i | 0 <= i < |p| - 2
          ensures DependsOn(g, p[1..][i], p[1..][i + 1])
        {
          assert DependsOn(g, p[i + 1], p[i + 2]);
        }
      }
      ClosedHoldsPath(g, s, p[1..]);
    }
  }

  ghost function Universe(g: Graph, start: string): set<string> {
    {start} + set n, d | n in g && d in g[n].deps :: d
  }

  /** `transitive_closure`: depth first, with an explicit stack. */
  method TransitiveClosure(g: Graph, start: string) returns (closure: set<string>)
    ensures forall n :: n in closure <==> Reachable(g, start, n)
  {
    closure := {};
    var stack := [start];
    assert PathBetween(g, [start], start, start);
    while stack != []
      invariant start in closure || start in stack
      invariant forall n :: n in closure || n in stack ==> Reachable(g, start, n) && n in Universe(g, start)
      invariant forall n, d :: n in closure && DependsOn(g, n, d) ==> d in closure || d in stack
      decreases Universe(g, start) - closure, |stack|
    {
      var node := stack[|stack| - 1];
      ghost var before := stack;
      stack := stack[..|stack| - 1];
      assert forall n :: n in before ==> n in stack || n == node;
      assert node in before;
      assert forall n :: n in stack ==> n in before;
      if node in closure {
        continue;
      }
      closure := closure + {node};
      if node in g {
        var deps := g[node].deps;
        ghost var popped := stack;
        for i := 0 to |deps|
          invariant forall n :: n in popped ==> n in stack
          invariant forall n :: n in stack ==> n in popped || DependsOn(g, node, n)
          invariant forall j :: 0 <= j < i ==> deps[j] in closure || deps[j] in stack
        {
          if deps[i] !in closure {
            stack := stack + [deps[i]];
          }
        }
        forall n | n in stack
          ensures Reachable(g, start, n) && n in Universe(g, start)
        {
          if n !in popped { ReachStep(g, start, node, n); }
        }
      }
    }
    forall n | Reachable(g, start, n)
      ensures n in closure
    {
      var p :| PathBetween(g, p, start, n);
      ClosedHoldsPath(g, closure, p);
    }
  }

  // ----- the fixed point -----

  predicate CodexDepsIn(info: PackageInfo, s: set<string>) {
    forall i :: 0 <= i < |info.deps| && IsCodex(info.deps[i]) ==> info.deps[i] in s
  }

  /** Every candidate crate whose `codex-` dependencies are all in `s` is in `s`. */
  ghost predicate ClosedUnder(g: Graph, s: set<string>) {
    forall n :: n in g && IsCandidate(n) && CodexDepsIn(g[n], s) ==> n in s
  }

  ghost predicate LeastExtension(g: Graph, base: set<string>, s: set<string>) {
    base <= s && ClosedUnder(g, s) && forall t: set<string> :: base <= t && ClosedUnder(g, t) ==> s <= t
  }

  /** Candidate crates listed so that each one's `codex-` dependencies come before it or are in
      the base. */
  ghost predicate Chain(g: Graph, base: set<string>, q: seq<string>) {
    forall i :: 0 <= i < |q| ==> Follows(g, base, q, i)
  }

  ghost predicate Follows(g: Graph, base: set<string>, q: seq<string>, i: nat)
    requires i < |q|
  {
    q[i] in g && IsCandidate(q[i])
    && forall j :: 0 <= j < |g[q[i]].deps| && IsCodex(g[q[i]].deps[j]) ==> g[q[i]].deps[j] in base || g[q[i]].deps[j] in q[..i]
  }

  ghost predicate Derived(g: Graph, base: set<string>, n: string) {
    n in base || exists q :: Chain(g, base, q) && n in q
  }

  lemma ChainConcat(g: Graph, base: set<string>, p: seq<string>, q: seq<string>)
    requires Chain(g, base, p) && Chain(g, base, q)
    ensures Chain(g, base, p + q)
  {
    var r := p + q;
    forall i | 0 <= i < |r|
      ensures Follows(g, base, r, i)
    {
      if i < |p| {
        assert r[..i] == p[..i] && Follows(g, base, p, i);
      } else {
        assert r[..i] == p + q[..i - |p|] && Follows(g, base, q, i - |p|);
      }
    }
  }

  lemma {:induction false} ChainInside(g: Graph, base: set<string>, q: seq<string>, s: set<string>)
    requires Chain(g, base, q) && base <= s && ClosedUnder(g, s)
    ensures forall n :: n in q ==> n in s
    decreases |q|
  {
    if q != [] {
      var k := |q| - 1;
      var p := q[..k];
      forall i | 0 <= i < k
        ensures Follows(g, base, p, i)
      {
        assert p[..i] == q[..i] && Follows(g, base, q, i);
      }
      ChainInside(g, base, p, s);
      assert Follows(g, base, q, k);
      assert CodexDepsIn(g[q[k]], s);
      assert q == p + [q[k]];
    }
  }

  /** One chain for the first `k` dependencies together. */
  lemma {:induction false} CommonChain(g: Graph, base: set<string>, deps: seq<string>, k: nat) returns (q: seq<string>)
    requires k <= |deps| && forall j :: 0 <= j < k && IsCodex(deps[j]) ==> Derived(g, base, deps[j])
    ensures Chain(g, base, q) && forall j :: 0 <= j < k && IsCodex(deps[j]) ==> deps[j] in base || deps[j] in q
    decreases k
  {
    if k == 0 {
      q := [];
    } else {
      q := CommonChain(g, base, deps, k - 1);
      var d := deps[k - 1];
      if IsCodex(d) && d !in base {
        var p :| Chain(g, base, p) && d in p;
        ChainConcat(g, base, q, p);
        q := q + p;
      }
    }
  }

  lemma DerivedNext(g: Graph, base: set<string>, n: string)
    requires n in g && IsCandidate(n) && forall j :: 0 <= j < |g[n].deps| && IsCodex(g[n].deps[j]) ==> Derived(g, base, g[n].deps[j])
    ensures Derived(g, base, n)
  {
    var q := CommonChain(g, base, g[n].deps, |g[n].deps|);
    var r := q + [n];
    forall i | 0 <= i < |r|
      ensures Follows(g, base, r, i)
    {
      if i < |q| {
        assert r[..i] == q[..i] && Follows(g, base, q, i);
      } else {
        assert r[..i] == q;
      }
    }
    assert Chain(g, base, r) && n in r;
  }

  /** The least extension holds exactly what can be derived, in whatever order the crates are
      looked at; so there is only one. */
  lemma LeastIsDerived(g: Graph, base: set<string>, s: set<string>)
    requires LeastExtension(g, base, s)
    ensures forall n :: n in s <==> Derived(g, base, n)
  {
    var t := base + set n | n in g.Keys && Derived(g, base, n);
    forall n | n in g && IsCandidate(n) && CodexDepsIn(g[n], t)
      ensures n in t
    {
      DerivedNext(g, base, n);
    }
    assert ClosedUnder(g, t);
    assert s <= t;
    forall n | Derived(g, base, n)
      ensures n in s
    {
      if n !in base {
        var q :| Chain(g, base, q) && n in q;
        ChainInside(g, base, q, s);
      }
    }
  }

  /** Every member's `codex-` dependencies are members. */
  ghost predicate DepClosed(g: Graph, s: set<string>) {
    forall n :: n in s && n in g ==> CodexDepsIn(g[n], s)
  }

  /** The fixed-point loop; each pass visits the map in some order of its own. */
  method ExtendToFixedPoint(g: Graph, base: set<string>) returns (s: set<string>)
    ensures LeastExtension(g, base, s)
    ensures s <= base + g.Keys
    ensures DepClosed(g, base) ==> DepClosed(g, s)
    ensures forall n :: n in s && n !in base ==>
              n in g && ("codex-utils-" <= n || n == "codex-lmstudio" || n == "codex-ollama")
    ensures forall n ::
              (n in g && ("codex-utils-" <= n || n == "codex-lmstudio" || n == "codex-ollama")
               && forall d :: d in g[n].deps && "codex-" <= d ==> d in s) ==> n in s
  {
    s := base;
    while true
      invariant base <= s <= base + g.Keys
      invariant forall t: set<string> :: base <= t && ClosedUnder(g, t) ==> s <= t
      invariant DepClosed(g, base) ==> DepClosed(g, s)
      decreases g.Keys - s
    {
      var added := false;
      var todo := g.Keys;
      ghost var start := s;
      while todo != {}
        invariant todo <= g.Keys && start <= s
        invariant base <= s <= base + g.Keys
        invariant forall t: set<string> :: base <= t && ClosedUnder(g, t) ==> s <= t
        invariant DepClosed(g, base) ==> DepClosed(g, s)
        invariant !added ==> s == start
        invariant added ==> exists n :: n in s && n in g.Keys && n !in start
        invariant !added ==> forall n :: n in g.Keys - todo && IsCandidate(n) && CodexDepsIn(g[n], s) ==> n in s
        decreases todo
      {
        var pkg :| pkg in todo;
        todo := todo - {pkg};
        if pkg in s || !IsCandidate(pkg) {
          continue;
        }
        if CodexDepsIn(g[pkg], s) {
          forall t: set<string> | base <= t && ClosedUnder(g, t)
            ensures s + {pkg} <= t
          {
            assert CodexDepsIn(g[pkg], t);
          }
          s := s + {pkg};
          added := true;
        }
      }
      if !added {
        break;
      }
      ghost var n :| n in s && n in g.Keys && n !in start;
      assert n in g.Keys - start && n !in g.Keys - s;
    }
    LeastInNames(g, base, s);
  }

  /** Who is in a least extension, with the names written out. */
  lemma LeastInNames(g: Graph, base: set<string>, s: set<string>)
    requires LeastExtension(g, base, s)
    ensures forall n :: n in s && n !in base ==>
              n in g && ("codex-utils-" <= n || n == "codex-lmstudio" || n == "codex-ollama")
    ensures forall n ::
              (n in g && ("codex-utils-" <= n || n == "codex-lmstudio" || n == "codex-ollama")
               && forall d :: d in g[n].deps && "codex-" <= d ==> d in s) ==> n in s
  {
    LeastIsDerived(g, base, s);
    forall n | n in s && n !in base
      ensures n in g && ("codex-utils-" <= n || n == "codex-lmstudio" || n == "codex-ollama")
    {
      assert Derived(g, base, n);
      var q :| Chain(g, base, q) && n in q;
      var i :| 0 <= i < |q| && q[i] == n;
      assert Follows(g, base, q, i);
    }
    forall n | n in g && ("codex-utils-" <= n || n == "codex-lmstudio" || n == "codex-ollama")
                && (forall d :: d in g[n].deps && "codex-" <= d ==> d in s)
      ensures n in s
    {
      assert CodexDepsIn(g[n], s);
    }
  }

  // ----- selection -----

  ghost predicate Macros(g: Graph, s: set<string>, ms: set<string>) {
    forall n :: n in ms <==> n in s && n in g && g[n].isProcMacro
  }

  /** The lines the cycle check prints: member, outside dependency, back to member. */
  ghost predicate CycleRisk(g: Graph, merged: set<string>, pkg: string, dep: string, back: string) {
    && pkg in merged && DependsOn(g, pkg, dep) && IsCodex(dep) && dep !in merged
    && DependsOn(g, dep, back) && back in merged
  }

  type Warning = (string, string, string)

  /** The nested loops of the check, for one member. */
  method WarningsOf(g: Graph, merged: set<string>, pkg: string) returns (ws: set<Warning>)
    requires pkg in merged && pkg in g
    ensures forall w :: w in ws <==> w.0 == pkg && CycleRisk(g, merged, pkg, w.1, w.2)
  {
    ws := {};
    var deps := g[pkg].deps;
    for i := 0 to |deps|
      invariant forall w :: w in ws <==> w.0 == pkg && w.1 in deps[..i] && CycleRisk(g, merged, pkg, w.1, w.2)
    {
      var dep := deps[i];
      assert deps[..i + 1] == deps[..i] + [dep];
      if !IsCodex(dep) || dep in merged || dep !in g {
        continue;
      }
      var backs := g[dep].deps;
      ghost var before := ws;
      for j := 0 to |backs|
        invariant forall w :: w in ws <==> w in before || (w.0 == pkg && w.1 == dep && w.2 in backs[..j] && w.2 in merged)
      {
        assert backs[..j + 1] == backs[..j] + [backs[j]];
        if backs[j] in merged {
          ws := ws + {(pkg, dep, backs[j])};
        }
      }
      assert backs[..|backs|] == backs;
    }
    assert deps[..|deps|] == deps;
  }

  /** The reachable crates are the least set with `codex-core` that dependencies do not leave. */
  lemma ClosureInNames(g: Graph, closure: set<string>)
    requires forall n :: n in closure <==> Reachable(g, CORE, n)
    ensures "codex-core" in closure
    ensures forall n, d :: n in closure && n in g && d in g[n].deps ==> d in closure
    ensures forall t: set<string> :: "codex-core" in t && (forall n, d :: n in t && n in g && d in g[n].deps ==> d in t)
              ==> closure <= t
  {
    assert PathBetween(g, [CORE], CORE, CORE);
    forall n, d | n in closure && n in g && d in g[n].deps
      ensures d in closure
    {
      assert DependsOn(g, n, d);
      ReachStep(g, CORE, n, d);
    }
    forall t: set<string> | "codex-core" in t && (forall n, d :: n in t && n in g && d in g[n].deps ==> d in t)
      ensures closure <= t
    {
      forall n | n in closure
        ensures n in t
      {
        var p :| PathBetween(g, p, CORE, n);
        ClosedHoldsPath(g, t, p);
      }
    }
  }

  datatype Outcome =
    | Bailed
    | Panicked
    | Selected(closure: set<string>, merged: set<string>, excluded: set<string>, warnings: set<Warning>)

  /** `core_cluster`. Indexing the graph with a member it does not hold panics. */
  method CoreCluster(g: Graph) returns (r: Outcome)
    ensures !r.Bailed?
    ensures r.Panicked? <==> exists n :: Reachable(g, CORE, n) && n !in g
    ensures r.Selected? ==>
              && (forall n :: n in r.closure <==> Reachable(g, CORE, n))
              && r.merged !! r.excluded
              && LeastExtension(g, r.closure, r.merged + r.excluded)
              && Macros(g, r.merged + r.excluded, r.excluded)
              && DepClosed(g, r.merged + r.excluded)
              && (forall w :: w in r.warnings <==> CycleRisk(g, r.merged, w.0, w.1, w.2))
    ensures r.Selected? ==>
              && "codex-core" in r.closure
              && (forall n, d :: n in r.closure && n in g && d in g[n].deps ==> d in r.closure)
              && (forall t: set<string> :: "codex-core" in t && (forall n, d :: n in t && n in g && d in g[n].deps ==> d in t)
                    ==> r.closure <= t)
    ensures r.Selected? ==>
              && (forall n :: n in r.merged + r.excluded && n !in r.closure ==>
                    n in g && ("codex-utils-" <= n || n == "codex-lmstudio" || n == "codex-ollama"))
              && (forall n :: n in g && ("codex-utils-" <= n || n == "codex-lmstudio" || n == "codex-ollama")
                    && (forall d :: d in g[n].deps && "codex-" <= d ==> d in r.merged + r.excluded)
                    ==> n in r.merged + r.excluded)
              && (forall n :: n in r.merged + r.excluded ==> (n in r.excluded <==> n in g && g[n].isProcMacro))
              && (forall a, b, c :: (a, b, c) in r.warnings <==>
                    a in r.merged && a in g && b in g[a].deps && "codex-" <= b && b !in r.merged
                    && b in g && c in g[b].deps && c in r.merged)
  {
    var closure := TransitiveClosure(g, CORE);
    assert PathBetween(g, [CORE], CORE, CORE);
    ClosureInNames(g, closure);
    if CORE !in closure {
      return Bailed;
    }
    forall n | n in closure && n in g
      ensures CodexDepsIn(g[n], closure)
    {
      forall i | 0 <= i < |g[n].deps| && IsCodex(g[n].deps[i])
        ensures g[n].deps[i] in closure
      {
        ReachStep(g, CORE, n, g[n].deps[i]);
      }
    }
    var all := ExtendToFixedPoint(g, closure);
    var excluded := set n | n in all && n in g && g[n].isProcMacro;
    var merged := all - excluded;
    assert merged + excluded == all;
    var todo := merged;
    var warnings: set<Warning> := {};
    while todo != {}
      invariant todo <= merged
      invariant forall n :: n in merged - todo ==> n in g
      invariant forall w :: w in warnings <==> w.0 in merged - todo && CycleRisk(g, merged, w.0, w.1, w.2)
      decreases todo
    {
      var pkg :| pkg in todo;
      if pkg !in g {
        assert pkg in closure;
        return Panicked;
      }
      var ws := WarningsOf(g, merged, pkg);
      warnings := warnings + ws;
      todo := todo - {pkg};
    }
    assert forall n :: Reachable(g, CORE, n) ==> n in merged || n in excluded;
    r := Selected(closure, merged, excluded, warnings);
  }

  // ----- contraction -----

  datatype Node = Merged | Pkg(name: string)

  /** Dependencies between the crates of the workspace once `m` is a single crate. */
  ghost predicate Edge(g: Graph, m: set<string>, x: Node, y: Node) {
    match (x, y)
    case (Pkg(a), Pkg(b)) => a !in m && b !in m && DependsOn(g, a, b)
    case (Merged, Pkg(b)) => b !in m && exists a :: a in m && DependsOn(g, a, b)
    case (Pkg(a), Merged) => a !in m && exists b :: b in m && DependsOn(g, a, b)
    case (Merged, Merged) => false
  }

  ghost predicate IsCycle(g: Graph, p: seq<string>) {
    |p| >= 2 && IsPath(g, p) && p[0] == p[|p| - 1]
  }

  ghost predicate Acyclic(g: Graph) { forall p :: !IsCycle(g, p) }

  ghost predicate IsWalk(g: Graph, m: set<string>, p: seq<Node>) {
    p != [] && forall i :: 0 <= i < |p| - 1 ==> Edge(g, m, p[i], p[i + 1])
  }

  ghost predicate IsContractedCycle(g: Graph, m: set<string>, p: seq<Node>) {
    |p| >= 2 && IsWalk(g, m, p) && p[0] == p[|p| - 1]
  }

  ghost predicate ContractedAcyclic(g: Graph, m: set<string>) { forall p :: !IsContractedCycle(g, m, p) }

  /** A dependency path that leaves `m` and comes back. */
  ghost predicate Detour(g: Graph, m: set<string>, p: seq<string>) {
    && |p| >= 3 && IsPath(g, p) && p[0] in m && p[|p| - 1] in m
    && forall i :: 1 <= i < |p| - 1 ==> p[i] !in m
  }

  ghost function Contract(m: set<string>, p: seq<string>): seq<Node> {
    seq(|p|, i requires 0 <= i < |p| => if p[i] in m then Merged else Pkg(p[i]))
  }

  /** A detour is a cycle through the merged crate. */
  lemma DetourIsCycle(g: Graph, m: set<string>, p: seq<string>)
    requires Detour(g, m, p)
    ensures IsContractedCycle(g, m, Contract(m, p))
  {
    var q := Contract(m, p);
    forall i | 0 <= i < |q| - 1
      ensures Edge(g, m, q[i], q[i + 1])
    {
      assert DependsOn(g, p[i], p[i + 1]);
    }
  }

  /** A walk among outside crates, as a path of the source graph. */
  ghost function Names(p: seq<Node>): seq<string>
    requires forall i :: 0 <= i < |p| ==> p[i].Pkg?
  {
    seq(|p|, i requires 0 <= i < |p| => p[i].name)
  }

  lemma OutsideCycle(g: Graph, m: set<string>, p: seq<Node>)
    requires IsContractedCycle(g, m, p) && forall i :: 0 <= i < |p| ==> p[i].Pkg?
    ensures IsCycle(g, Names(p))
  {
    var q := Names(p);
    forall i | 0 <= i < |q| - 1
      ensures DependsOn(g, q[i], q[i + 1])
    {
      assert Edge(g, m, p[i], p[i + 1]);
    }
  }

  /** A walk from the merged crate back to it, with only outside crates between. */
  lemma WalkIsDetour(g: Graph, m: set<string>, p: seq<Node>) returns (d: seq<string>)
    requires IsWalk(g, m, p) && |p| >= 2 && p[0] == Merged && p[|p| - 1] == Merged
    requires forall i :: 1 <= i < |p| - 1 ==> p[i].Pkg?
    ensures Detour(g, m, d) && |d| == |p| && forall i :: 1 <= i < |p| - 1 ==> d[i] == p[i].name
  {
    var n := |p|;
    assert Edge(g, m, p[0], p[1]);
    assert p[1].Pkg? && n >= 3;
    assert Edge(g, m, p[n - 2], p[n - 1]);
    var a :| a in m && DependsOn(g, a, p[1].name);
    var b :| b in m && DependsOn(g, p[n - 2].name, b);
    d := [a] + Names(p[1..n - 1]) + [b];
    forall i | 0 <= i < n - 1
      ensures DependsOn(g, d[i], d[i + 1])
    {
      assert Edge(g, m, p[i], p[i + 1]);
    }
    forall i | 1 <= i < n - 1
      ensures d[i] !in m
    {
      assert Edge(g, m, p[i - 1], p[i]);
    }
  }

  /** In a cycle through the merged crate, one round trip from it to its next occurrence. */
  lemma RoundTrip(g: Graph, m: set<string>, p: seq<Node>, k: nat) returns (w: seq<Node>)
    requires IsContractedCycle(g, m, p) && k < |p| && p[k] == Merged
    ensures IsWalk(g, m, w) && |w| >= 2 && w[0] == Merged && w[|w| - 1] == Merged
    ensures forall i :: 1 <= i < |w| - 1 ==> w[i].Pkg?
  {
    var n := |p| - 1;
    var twice := p[..n] + p;
    forall i | 0 <= i < |twice| - 1
      ensures Edge(g, m, twice[i], twice[i + 1])
    {
      if i < n { assert Edge(g, m, p[i], p[i + 1]); } else { assert Edge(g, m, p[i - n], p[i - n + 1]); }
    }
    var first := if k == n then 0 else k;
    assert twice[first] == Merged && twice[first + n] == Merged;
    var j := first + 1;
    while twice[j] != Merged
      invariant first < j <= first + n
      invariant forall i :: first < i < j ==> twice[i].Pkg?
      decreases first + n - j
    {
      j := j + 1;
    }
    w := twice[first..j + 1];
    forall i | 0 <= i < |w| - 1
      ensures Edge(g, m, w[i], w[i + 1])
    {
      assert Edge(g, m, twice[first + i], twice[first + i + 1]);
    }
  }

  /** Contracting any set of an acyclic graph leaves it acyclic exactly when no dependency
      path leaves the set and comes back. */
  lemma ContractionAcyclic(g: Graph, m: set<string>)
    requires Acyclic(g)
    ensures ContractedAcyclic(g, m) <==> forall p :: !Detour(g, m, p)
  {
    forall p | Detour(g, m, p)
      ensures !ContractedAcyclic(g, m)
    {
      DetourIsCycle(g, m, p);
    }
    forall p | IsContractedCycle(g, m, p)
      ensures exists d :: Detour(g, m, d)
    {
      if k :| 0 <= k < |p| && p[k] == Merged {
        var w := RoundTrip(g, m, p, k);
        var d := WalkIsDetour(g, m, w);
      } else {
        OutsideCycle(g, m, p);
      }
    }
  }

  /** No removed proc-macro depends on another removed one. */
  ghost predicate MacrosApart(g: Graph, excluded: set<string>) {
    forall a, b :: a in excluded && b in excluded ==> !DependsOn(g, a, b)
  }

  /** On a detour of the selected set, everything outside is a removed proc-macro. */
  lemma {:induction false} DetourThroughMacros(g: Graph, merged: set<string>, excluded: set<string>, p: seq<string>, k: nat)
    requires Loaded(g) && DepClosed(g, merged + excluded) && Detour(g, merged, p) && 1 <= k < |p| - 1
    ensures p[k] in excluded
  {
    assert DependsOn(g, p[k - 1], p[k]);
    if k > 1 { DetourThroughMacros(g, merged, excluded, p, k - 1); }
    assert p[k - 1] in merged + excluded;
    var i :| 0 <= i < |g[p[k - 1]].deps| && g[p[k - 1]].deps[i] == p[k];
  }

  /** The printed check is one step deep. Where no removed proc-macro depends on another,
      that is enough: the merge brings a cycle exactly when a warning is printed. */
  lemma WarningsDecide(g: Graph, merged: set<string>, excluded: set<string>)
    requires Loaded(g) && Acyclic(g) && DepClosed(g, merged + excluded) && MacrosApart(g, excluded)
    ensures ContractedAcyclic(g, merged) <==> forall a, b, c :: !CycleRisk(g, merged, a, b, c)
  {
    ContractionAcyclic(g, merged);
    forall a, b, c | CycleRisk(g, merged, a, b, c)
      ensures Detour(g, merged, [a, b, c])
    {}
    forall p | Detour(g, merged, p)
      ensures CycleRisk(g, merged, p[0], p[1], p[2])
    {
      assert DependsOn(g, p[0], p[1]) && DependsOn(g, p[1], p[2]);
      DetourThroughMacros(g, merged, excluded, p, 1);
    }
  }

  /** With macros that depend on each other the exact condition is a chain of them. */
  lemma MacroChainsDecide(g: Graph, merged: set<string>, excluded: set<string>)
    requires Loaded(g) && Acyclic(g) && DepClosed(g, merged + excluded) && merged !! excluded
    ensures ContractedAcyclic(g, merged)
       <==> forall p :: |p| >= 3 && IsPath(g, p) && p[0] in merged && p[|p| - 1] in merged
                        ==> exists i :: 1 <= i < |p| - 1 && p[i] !in excluded
  {
    ContractionAcyclic(g, merged);
    forall p | Detour(g, merged, p)
      ensures forall i :: 1 <= i < |p| - 1 ==> p[i] in excluded
    {
      forall i | 1 <= i < |p| - 1 ensures p[i] in excluded { DetourThroughMacros(g, merged, excluded, p, i); }
    }
    forall p | |p| >= 3 && IsPath(g, p) && p[0] in merged && p[|p| - 1] in merged
               && forall i :: 1 <= i < |p| - 1 ==> p[i] in excluded
      ensures Detour(g, merged, p)
    {}
  }

  const TwoMacros: Graph :=
    map[CORE := PackageInfo(["codex-m"], false),
        "codex-m" := PackageInfo(["codex-n"], true),
        "codex-n" := PackageInfo(["codex-b"], true),
        "codex-b" := PackageInfo([], false)]

  lemma {:induction false} RanksFall(g: Graph, rank: map<string, nat>, p: seq<string>)
    requires forall a, b :: DependsOn(g, a, b) ==> a in rank && b in rank && rank[b] < rank[a]
    requires IsPath(g, p) && |p| >= 2
    ensures p[0] in rank && p[|p| - 1] in rank && rank[p[|p| - 1]] < rank[p[0]]
    decreases |p|
  {
    var n := |p| - 1;
    assert DependsOn(g, p[n - 1], p[n]);
    if n > 1 {
      assert IsPath(g, p[..n]) by {
        forall i | 0 <= i < n - 1 ensures DependsOn(g, p[..n][i], p[..n][i + 1]) { assert DependsOn(g, p[i], p[i + 1]); }
      }
      RanksFall(g, rank, p[..n]);
    }
  }

  /** A cycle the check does not see: it leads through two proc-macros. */
  lemma UnnoticedCycle()
    ensures var (merged, excluded) := ({CORE, "codex-b"}, {"codex-m", "codex-n"});
            && Loaded(TwoMacros) && Acyclic(TwoMacros)
            && LeastExtension(TwoMacros, merged + excluded, merged + excluded)
            && (forall n :: Reachable(TwoMacros, CORE, n) <==> n in merged + excluded)
            && Macros(TwoMacros, merged + excluded, excluded)
            && !ContractedAcyclic(TwoMacros, merged)
            && forall a, b, c :: !CycleRisk(TwoMacros, merged, a, b, c)
  {
    var g := TwoMacros;
    var m, n, b := "codex-m", "codex-n", "codex-b";
    assert CORE != m && CORE != n && CORE != b by { assert CORE[6] == 'c' == CORE[6]; assert |CORE| == 10; }
    assert m[6] != n[6] && m[6] != b[6] && n[6] != b[6];
    var merged := {CORE, b};
    var p := [CORE, m, n, b];
    assert DependsOn(g, p[0], p[1]) && DependsOn(g, p[1], p[2]) && DependsOn(g, p[2], p[3]);
    assert Detour(g, merged, p);
    DetourIsCycle(g, merged, p);
    var rank: map<string, nat> := map[CORE := 3, m := 2, n := 1, b := 0];
    forall q | IsCycle(g, q) ensures false { RanksFall(g, rank, q); }
    assert PathBetween(g, [CORE], CORE, CORE);
    ReachStep(g, CORE, CORE, m);
    ReachStep(g, CORE, m, n);
    ReachStep(g, CORE, n, b);
    forall x | Reachable(g, CORE, x)
      ensures x in g.Keys
    {
      var q :| PathBetween(g, q, CORE, x);
      ClosedHoldsPath(g, g.Keys, q);
    }
  }
}
