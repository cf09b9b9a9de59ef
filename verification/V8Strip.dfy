/** The publish workspace manifest without V8: removed crates leave the members array, and
    their dependency lines go with V8's own. */
module V8Strip {
  import opened Text
  import opened Wrappers
  import opened ManifestStrings
  import opened LineMachine
  import opened TomlLines

  const MEMBERS := "members = ["
  const DEPS := "[workspace.dependencies]"
  const V8 := "v8"
  const ICU := "deno_core_icudata"

  /** `removed_member_should_skip`. */
  predicate MemberSkipped(trimmed: string, removed: seq<string>) {
    StartsWithAny(TrimQuotesStart(TrimEnd(TrimStart(trimmed))), removed)
  }

  predicate StartsWithAny(s: string, removed: seq<string>) {
    exists i :: 0 <= i < |removed| && removed[i] <= s
  }

  /** `dep_key_on_line`. */
  function DepKey(trimmed: string): Option<string> {
    var eq := Find(trimmed, "=");
    if eq < 0 then None
    else
      var key := TrimEnd(TrimStart(trimmed[..eq]));
      if key == "" || key[0] == '[' then None else Some(key)
  }

  /** The dependency key of a removed crate. */
  function KeyOf(crateDir: string): string { RenamePackage("codex-" + crateDir) }

  predicate DepRemoved(trimmed: string, removed: seq<string>) {
    var key := DepKey(trimmed);
    key.Some? && (key.value == V8 || key.value == ICU || exists i :: 0 <= i < |removed| && KeyOf(removed[i]) == key.value)
  }

  datatype State = State(inDeps: bool, inMembers: bool)

  const START := State(false, false)

  predicate OpensMembers(line: string) { MEMBERS <= TrimStart(line) }

  predicate ClosesMembers(line: string) { "]" <= TrimStart(line) }

  predicate Drops(line: string, s: State, removed: seq<string>) {
    && !IsHeader(line)
    && !OpensMembers(line)
    && if s.inMembers then !ClosesMembers(line) && MemberSkipped(TrimStart(line), removed)
       else s.inDeps && DepRemoved(TrimStart(line), removed)
  }

  function Next(line: string, s: State): State {
    if IsHeader(line) then State(TrimStart(line) == DEPS, false)
    else if OpensMembers(line) then s.(inMembers := ']' !in TrimStart(line))
    else if s.inMembers && ClosesMembers(line) then s.(inMembers := false)
    else s
  }

  function Step(removed: seq<string>): (string, State) -> (seq<string>, State) {
    (line: string, s: State) => (if Drops(line, s, removed) then [] else [line], Next(line, s))
  }

  /** `rewrite_workspace_manifest`, as a function of the manifest text. */
  method RewriteWorkspaceManifest(raw: string, removed: seq<string>) returns (out: string)
    ensures out == Rewrite(Step(removed), raw, START)
  {
    hide IsHeader, OpensMembers, ClosesMembers, MemberSkipped, DepRemoved, Unlines, Written;
    out := "";
    var lines := Lines(raw);
    var inDeps, inMembers := false, false;
    var i := 0;
    WrittenStart(Step(removed), lines, START);
    while i < |lines|
      invariant 0 <= i <= |lines|
      invariant Written(Step(removed), lines, START, i, State(inDeps, inMembers), out)
    {
      var line := lines[i];
      WrittenLine(Step(removed), lines, START, i, State(inDeps, inMembers), out);
      i := i + 1;
      if IsHeader(line) {
        inDeps := TrimStart(line) == DEPS;
        inMembers := false;
        out := out + line + "\n";
        continue;
      }
      if OpensMembers(line) {
        inMembers := ']' !in TrimStart(line);
        out := out + line + "\n";
        continue;
      }
      if inMembers {
        if ClosesMembers(line) {
          inMembers := false;
          out := out + line + "\n";
          continue;
        }
        if MemberSkipped(TrimStart(line), removed) {
          continue;
        }
        out := out + line + "\n";
        continue;
      }
      if inDeps {
        if DepRemoved(TrimStart(line), removed) {
          continue;
        }
      }
      out := out + line + "\n";
    }
    WrittenAll(Step(removed), lines, START, State(inDeps, inMembers), out);
  }

  // ----- by place in the manifest -----

  /** Line `i` comes inside a members array: the nearest earlier line that says anything about
      it opened one without closing it. */
  predicate InArray(lines: seq<string>, i: nat)
    requires i <= |lines|
  {
    i > 0
    && !IsHeader(lines[i - 1])
    && if "members = [" <= TrimStart(lines[i - 1]) then ']' !in TrimStart(lines[i - 1])
       else !("]" <= TrimStart(lines[i - 1])) && InArray(lines, i - 1)
  }

  /** Line `i` is to go, judged by where it stands. */
  predicate Goes(lines: seq<string>, i: nat, removed: seq<string>)
    requires i < |lines|
  {
    && !IsHeader(lines[i])
    && !("members = [" <= TrimStart(lines[i]))
    && if InArray(lines, i) then !("]" <= TrimStart(lines[i])) && MemberSkipped(TrimStart(lines[i]), removed)
       else SectionOf(lines, i) == "[workspace.dependencies]" && DepRemoved(TrimStart(lines[i]), removed)
  }

  function Stays(lines: seq<string>, i: nat, removed: seq<string>): seq<string>
    requires i <= |lines|
    decreases |lines| - i
  {
    if i == |lines| then [] else (if Goes(lines, i, removed) then [] else [lines[i]]) + Stays(lines, i + 1, removed)
  }

  function StateBefore(lines: seq<string>, i: nat): State
    requires i <= |lines|
  {
    State(i > 0 && SectionOf(lines, i - 1) == DEPS, InArray(lines, i))
  }

  lemma StepByPlace(lines: seq<string>, i: nat, removed: seq<string>)
    requires i < |lines|
    ensures Step(removed)(lines[i], StateBefore(lines, i))
         == (if Goes(lines, i, removed) then [] else [lines[i]], StateBefore(lines, i + 1))
  {
    hide IsHeader, MemberSkipped, DepRemoved, TrimStart;
  }

  /** The rewriter drops exactly the removed members inside members arrays and the removed
      dependencies of the workspace's dependency table; nothing else changes. */
  lemma {:induction false} StripByPlace(lines: seq<string>, i: nat, removed: seq<string>)
    requires i <= |lines|
    ensures Out(Step(removed), lines[i..], StateBefore(lines, i)) == Stays(lines, i, removed)
    decreases |lines| - i
  {
    hide Step, Goes, StateBefore;
    if i < |lines| {
      assert lines[i..][0] == lines[i] && lines[i..][1..] == lines[i + 1..];
      StepByPlace(lines, i, removed);
      StripByPlace(lines, i + 1, removed);
    }
  }

  // ----- running it again -----

  predicate Same(s: State, t: State) { s == t }

  lemma StripStable(removed: seq<string>)
    ensures Stable(Step(removed), Same)
  {
    forall l: string, s: State, t: State | Same(s, t)
      ensures StableStep(Step(removed), Same, l, s, t)
    {
      hide IsHeader, OpensMembers, ClosesMembers, MemberSkipped, DepRemoved;
      if !Drops(l, s, removed) { OutOne(Step(removed), l, s); }
    }
  }

  lemma StripTidy(removed: seq<string>)
    ensures Tidy(Step(removed))
  {
    forall l: string, s: State | OneLine(l)
      ensures TidyLines(Step(removed)(l, s).0, l)
    {
      hide Drops, TidyLines;
      TidyNone(l);
      TidyOne(l, l);
    }
  }

  function Good(removed: seq<string>): (string, State) -> bool { (line: string, s: State) => !Drops(line, s, removed) }

  lemma StripEmitsGood(removed: seq<string>)
    ensures EmitsGood(Step(removed), Same, Good(removed))
  {
    forall l: string, s: State, t: State | Same(s, t)
      ensures AllGood(Step(removed), Good(removed), Step(removed)(l, s).0, t)
    {
      hide Drops, Next;
      assert [l][1..] == [];
    }
  }

  /** Stripping twice is stripping once, and nothing that was to go is left. */
  lemma StripIdempotent(lines: seq<string>, removed: seq<string>)
    ensures var o := Out(Step(removed), lines, START);
            Out(Step(removed), o, START) == o && AllGood(Step(removed), Good(removed), o, START)
  {
    StripStable(removed);
    StripEmitsGood(removed);
    Idempotent(Step(removed), Same, lines, START, START);
    OutputGood(Step(removed), Same, Good(removed), lines, START, START);
  }

  lemma {:induction false} CleanByPlace(lines: seq<string>, i: nat, removed: seq<string>)
    requires i <= |lines|
    ensures NoCr(Stays(lines, i, removed))
       <==> forall j :: i <= j < |lines| && !Goes(lines, j, removed) ==> !EndsInCr(lines[j])
    decreases |lines| - i
  {
    hide Goes, EndsInCr, NoCr;
    NoneEnds();
    if i < |lines| {
      CleanByPlace(lines, i + 1, removed);
      NoCrConcat(if Goes(lines, i, removed) then [] else [lines[i]], Stays(lines, i + 1, removed));
      NoCrOne(lines[i]);
    }
  }

  /** As a function of the text the stripping is idempotent exactly when no line that stays
      ends in a stray carriage return. */
  lemma StripTwice(raw: string, removed: seq<string>)
    ensures var lines := Lines(raw);
            Rewrite(Step(removed), Rewrite(Step(removed), raw, START), START) == Rewrite(Step(removed), raw, START)
            <==> forall i :: 0 <= i < |lines| && !Goes(lines, i, removed) ==> !EndsInCr(lines[i])
  {
    var lines := Lines(raw);
    StripStable(removed);
    StripTidy(removed);
    RewriteTwice(Step(removed), Same, raw, START);
    CleanOutput(Step(removed), lines, START);
    assert lines[0..] == lines;
    StripByPlace(lines, 0, removed);
    CleanByPlace(lines, 0, removed);
  }

  // ----- which crates go -----

  ghost predicate CrateDir(name: string) {
    name != "" && QUOTE !in name && '=' !in name && forall i :: 0 <= i < |name| ==> !IsSpace(name[i])
  }

  /** The entry line of crate directory `name`, with whatever follows on the line. */
  function Entry(name: string, tail: string): string { Quoted(name) + tail }

  lemma EntryText(name: string, tail: string)
    requires CrateDir(name)
    ensures name + [QUOTE] <= TrimQuotesStart(TrimEnd(TrimStart(Entry(name, tail))))
  {
    var line := Entry(name, tail);
    assert TrimStart(line) == line;
    TrimEndKeeps(Quoted(name), line);
    var t := TrimEnd(line);
    assert t[0] == Quoted(name)[0] == QUOTE && t[1] == Quoted(name)[1] == name[0];
    assert Quoted(name)[1..] == name + [QUOTE];
    assert t[1..][..|name| + 1] == t[..|name| + 2][1..];
    assert TrimQuotesStart(t[1..]) == t[1..];
  }

  lemma PrefixOfEntry(r: string, name: string, s: string)
    requires name + [QUOTE] <= s && QUOTE !in r
    ensures r <= s <==> r <= name
  {
    assert s[|name|] == (name + [QUOTE])[|name|] == QUOTE;
    assert name == s[..|name|];
  }

  /** A member is dropped when its name starts with a removed name. */
  lemma EntrySkipped(name: string, tail: string, removed: seq<string>)
    requires CrateDir(name) && forall i :: 0 <= i < |removed| ==> CrateDir(removed[i])
    ensures MemberSkipped(Entry(name, tail), removed) <==> exists i :: 0 <= i < |removed| && removed[i] <= name
  {
    EntryText(name, tail);
    var s := TrimQuotesStart(TrimEnd(TrimStart(Entry(name, tail))));
    forall i | 0 <= i < |removed|
      ensures removed[i] <= s <==> removed[i] <= name
    {
      assert CrateDir(removed[i]);
      PrefixOfEntry(removed[i], name, s);
    }
  }

  /** So exactly the removed members are dropped, on every crate of a workspace, if and only
      if no other crate's name starts with a removed one. */
  lemma MembersExact(crates: set<string>, tail: string, removed: seq<string>)
    requires (forall c :: c in crates ==> CrateDir(c)) && forall i :: 0 <= i < |removed| ==> CrateDir(removed[i])
    ensures (forall c :: c in crates ==> (MemberSkipped(Entry(c, tail), removed) <==> c in removed))
       <==> forall c, i :: c in crates && 0 <= i < |removed| && removed[i] <= c ==> c in removed
  {
    forall c | c in crates
      ensures MemberSkipped(Entry(c, tail), removed) <==> exists i :: 0 <= i < |removed| && removed[i] <= c
    {
      EntrySkipped(c, tail, removed);
    }
    hide MemberSkipped, Entry, CrateDir;
    forall c | c in removed
      ensures exists i :: 0 <= i < |removed| && removed[i] <= c
    {
      var i :| 0 <= i < |removed| && removed[i] == c;
      assert removed[i] <= c;
    }
  }

  /** A crate that is kept and loses its entry. */
  lemma LongerNameDropped()
    ensures MemberSkipped(Entry("code-mode-host-api", ","), ["code-mode-host", "v8-poc"])
  {
    var name, removed := "code-mode-host-api", ["code-mode-host", "v8-poc"];
    assert CrateDir(name);
    EntryText(name, ",");
    assert removed[0] == "code-mode-host" == name[..14];
    assert removed[0] <= TrimQuotesStart(TrimEnd(TrimStart(Entry(name, ","))));
  }

  lemma {:induction false} FindAfter(a: string, rest: string)
    requires '=' !in a
    ensures Find(a + ("=" + rest), "=") == |a|
    decreases |a|
  {
    var s := a + ("=" + rest);
    if a == "" {
      assert s[0] == '=';
    } else {
      assert s[0] == a[0] && s[1..] == a[1..] + ("=" + rest);
      assert !("=" <= s);
      FindAfter(a[1..], rest);
    }
  }

  /** The dependency line of a removed crate is recognised by its renamed package name. */
  lemma RemovedDepDropped(removed: seq<string>, i: nat, rest: string)
    requires i < |removed| && CrateDir(removed[i])
    ensures DepRemoved("lemurclaw-" + removed[i] + (" =" + rest), removed)
  {
    var dir := removed[i];
    var key := "lemurclaw-" + dir;
    assert KeyOf(dir) == key by {
      assert ("codex-" + dir)[6..] == dir;
    }
    var line := key + (" =" + rest);
    assert line == (key + " ") + ("=" + rest);
    assert '=' !in key + " " by {
      assert '=' !in "lemurclaw-";
    }
    FindAfter(key + " ", rest);
    assert line[..|key| + 1] == key + " ";
    assert key[0] == 'l';
    assert TrimStart(key + " ") == key + " ";
    assert (key + " ")[..|key|] == key;
    assert key[|key| - 1] == dir[|dir| - 1];
    assert TrimEnd(key) == key;
    assert TrimEnd(key + " ") == key;
    assert DepKey(line) == Some(key);
  }

  /** Which dependency lines go: those of V8, of its data, and of the removed crates under their
      published names. All others stay. */
  lemma DepsSpelled(key: string, rest: string, removed: seq<string>)
    requires CrateDir(key) && key[0] != '['
    ensures DepRemoved(key + (" =" + rest), removed)
       <==> key == "v8" || key == "deno_core_icudata" || exists i :: 0 <= i < |removed| && key == "lemurclaw-" + removed[i]
  {
    var line := key + (" =" + rest);
    assert line == (key + " ") + ("=" + rest);
    assert '=' !in key + " ";
    FindAfter(key + " ", rest);
    assert line[..|key| + 1] == key + " ";
    KeyTrimmed(key);
    assert DepKey(line) == Some(key);
    forall i | 0 <= i < |removed|
      ensures KeyOf(removed[i]) == "lemurclaw-" + removed[i]
    {
      NamesSpelled(removed[i]);
    }
    hide DepKey, KeyOf, CrateDir;
  }

  lemma KeyTrimmed(key: string)
    requires CrateDir(key)
    ensures TrimEnd(TrimStart(key + " ")) == key
  {
    var s := key + " ";
    assert s[0] == key[0] && TrimStart(s) == s;
    assert s[..|key|] == key && s[|key|] == ' ';
    assert TrimEnd(key) == key;
  }
}
