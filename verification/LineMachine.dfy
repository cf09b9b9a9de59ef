/** Rewriters that go through a text line by line with a little state: each step turns one
    line into the lines it emits and the next state.

    What all of them share is proved here once: when a second run over the output changes
    nothing, and what holds of every emitted line. */
module LineMachine {
  import opened Text

  /** The lines emitted from state `s` on. */
  function Out<S>(step: (string, S) -> (seq<string>, S), lines: seq<string>, s: S): seq<string>
    decreases |lines|
  {
    if lines == [] then [] else step(lines[0], s).0 + Out(step, lines[1..], step(lines[0], s).1)
  }

  /** The state after the last line. */
  function End<S>(step: (string, S) -> (seq<string>, S), lines: seq<string>, s: S): S
    decreases |lines|
  {
    if lines == [] then s else End(step, lines[1..], step(lines[0], s).1)
  }

  lemma {:induction false} OutConcat<S>(step: (string, S) -> (seq<string>, S), a: seq<string>, b: seq<string>, s: S)
    ensures Out(step, a + b, s) == Out(step, a, s) + Out(step, b, End(step, a, s))
    ensures End(step, a + b, s) == End(step, b, End(step, a, s))
    decreases |a|
  {
    if a == [] {
      assert a + b == b;
    } else {
      assert (a + b)[0] == a[0] && (a + b)[1..] == a[1..] + b;
      OutConcat(step, a[1..], b, step(a[0], s).1);
    }
  }

  lemma OutOne<S>(step: (string, S) -> (seq<string>, S), l: string, s: S)
    ensures Out(step, [l], s) == step(l, s).0 && End(step, [l], s) == step(l, s).1
  {
    assert [l][1..] == [];
    assert Out(step, [l][1..], step(l, s).1) == [];
  }

  /** What one step emits is emitted again, unchanged, by a run from a related state, and the
      states are related afterwards. */
  ghost predicate Stable<S(!new)>(step: (string, S) -> (seq<string>, S), rel: (S, S) -> bool) {
    forall l: string, s: S, t: S :: rel(s, t) ==> StableStep(step, rel, l, s, t)
  }

  ghost predicate StableStep<S(!new)>(step: (string, S) -> (seq<string>, S), rel: (S, S) -> bool, l: string, s: S, t: S) {
    var (a, s') := step(l, s);
    Out(step, a, t) == a && rel(s', End(step, a, t))
  }

  /** A second run changes nothing. */
  lemma {:induction false} Idempotent<S(!new)>(step: (string, S) -> (seq<string>, S), rel: (S, S) -> bool,
                                               lines: seq<string>, s: S, t: S)
    requires Stable(step, rel) && rel(s, t)
    ensures Out(step, Out(step, lines, s), t) == Out(step, lines, s)
    ensures rel(End(step, lines, s), End(step, Out(step, lines, s), t))
    decreases |lines|
  {
    if lines != [] {
      var (a, s') := step(lines[0], s);
      assert StableStep(step, rel, lines[0], s, t);
      Idempotent(step, rel, lines[1..], s', End(step, a, t));
      OutConcat(step, a, Out(step, lines[1..], s'), t);
    }
  }

  /** Every line is good in the state a run has reached when it gets there. */
  ghost predicate AllGood<S(!new)>(step: (string, S) -> (seq<string>, S), good: (string, S) -> bool, lines: seq<string>, s: S)
    decreases |lines|
  {
    lines == [] || (good(lines[0], s) && AllGood(step, good, lines[1..], step(lines[0], s).1))
  }

  lemma {:induction false} GoodConcat<S(!new)>(step: (string, S) -> (seq<string>, S), good: (string, S) -> bool,
                                               a: seq<string>, b: seq<string>, s: S)
    requires AllGood(step, good, a, s) && AllGood(step, good, b, End(step, a, s))
    ensures AllGood(step, good, a + b, s)
    decreases |a|
  {
    if a == [] {
      assert a + b == b;
    } else {
      assert (a + b)[0] == a[0] && (a + b)[1..] == a[1..] + b;
      GoodConcat(step, good, a[1..], b, step(a[0], s).1);
    }
  }

  /** Each step emits only good lines, as a run from a related state sees them. */
  ghost predicate EmitsGood<S(!new)>(step: (string, S) -> (seq<string>, S), rel: (S, S) -> bool, good: (string, S) -> bool) {
    forall l: string, s: S, t: S :: rel(s, t) ==> AllGood(step, good, step(l, s).0, t)
  }

  lemma {:induction false} OutputGood<S(!new)>(step: (string, S) -> (seq<string>, S), rel: (S, S) -> bool,
                                               good: (string, S) -> bool, lines: seq<string>, s: S, t: S)
    requires Stable(step, rel) && EmitsGood(step, rel, good) && rel(s, t)
    ensures AllGood(step, good, Out(step, lines, s), t)
    decreases |lines|
  {
    if lines != [] {
      var (a, s') := step(lines[0], s);
      assert StableStep(step, rel, lines[0], s, t);
      assert AllGood(step, good, a, t);
      OutputGood(step, rel, good, lines[1..], s', End(step, a, t));
      GoodConcat(step, good, a, Out(step, lines[1..], s'), t);
    }
  }

  // ----- from lines back to text -----

  /** How many carriage returns end the line. */
  function TrailingCr(l: string): nat {
    if EndsInCr(l) then 1 + TrailingCr(l[..|l| - 1]) else 0
  }

  /** How many carriage returns end lines. */
  function StrayCr(lines: seq<string>): nat {
    if lines == [] then 0 else TrailingCr(lines[0]) + StrayCr(lines[1..])
  }

  lemma {:induction false} StrayConcat(a: seq<string>, b: seq<string>)
    ensures StrayCr(a + b) == StrayCr(a) + StrayCr(b)
    decreases |a|
  {
    if a == [] {
      assert a + b == b;
    } else {
      assert (a + b)[1..] == a[1..] + b;
      StrayConcat(a[1..], b);
    }
  }

  /** Splitting the lines again loses one carriage return of every line that ends in one. */
  lemma {:induction false} StripStray(lines: seq<string>)
    ensures StrayCr(StripAll(lines)) <= StrayCr(lines)
    ensures StrayCr(StripAll(lines)) == StrayCr(lines) ==> NoCr(lines)
    decreases |lines|
  {
    if lines != [] {
      StripStray(lines[1..]);
      var rest := StripAll(lines[1..]);
      assert ([StripCr(lines[0])] + rest)[1..] == rest;
      if StrayCr(StripAll(lines)) == StrayCr(lines) {
        forall i | 0 <= i < |lines|
          ensures !EndsInCr(lines[i])
        {
          if i > 0 { assert lines[i] == lines[1..][i - 1]; }
        }
      }
    }
  }

  /** A step ends lines in no new carriage returns and breaks no line. */
  ghost predicate Tidy<S(!new)>(step: (string, S) -> (seq<string>, S)) {
    forall l: string, s: S :: OneLine(l) ==> TidyLines(step(l, s).0, l)
  }

  ghost predicate TidyLines(a: seq<string>, l: string) { AllOneLine(a) && StrayCr(a) <= TrailingCr(l) }

  lemma TidyOne(x: string, l: string)
    requires OneLine(x) && TrailingCr(x) <= TrailingCr(l)
    ensures TidyLines([x], l)
  {
    hide TrailingCr;
    assert [x][1..] == [];
    assert StrayCr([x][1..]) == 0;
  }

  lemma TidyNone(l: string)
    ensures TidyLines([], l)
  {}

  lemma {:induction false} OutTidy<S(!new)>(step: (string, S) -> (seq<string>, S), lines: seq<string>, s: S)
    requires Tidy(step) && AllOneLine(lines)
    ensures AllOneLine(Out(step, lines, s)) && StrayCr(Out(step, lines, s)) <= StrayCr(lines)
    decreases |lines|
  {
    if lines != [] {
      var (a, s') := step(lines[0], s);
      assert TidyLines(a, lines[0]);
      OutTidy(step, lines[1..], s');
      StrayConcat(a, Out(step, lines[1..], s'));
    }
  }

  lemma {:induction false} UnlinesInjective(a: seq<string>, b: seq<string>)
    requires AllOneLine(a) && AllOneLine(b) && Unlines(a) == Unlines(b)
    ensures a == b
    decreases |a|
  {
    if a != [] && b != [] {
      LineLenOf(a[0], Unlines(a[1..]));
      LineLenOf(b[0], Unlines(b[1..]));
      assert a[0] == Unlines(a)[..|a[0]|] && b[0] == Unlines(b)[..|b[0]|];
      assert Unlines(a[1..]) == Unlines(a)[|a[0]| + 1..] && Unlines(b[1..]) == Unlines(b)[|b[0]| + 1..];
      UnlinesInjective(a[1..], b[1..]);
      assert a == [a[0]] + a[1..] && b == [b[0]] + b[1..];
    }
  }

  lemma {:induction false} LinesOneLine(s: string)
    ensures AllOneLine(Lines(s))
    decreases |s|
  {
    var k := LineLen(s);
    LineLenOneLine(s);
    if s != "" && k < |s| {
      LinesOneLine(s[k + 1..]);
      assert OneLine(StripCr(s[..k]));
    } else if s != "" {
      assert s[..k] == s;
    }
  }

  lemma {:induction false} LineLenOneLine(s: string)
    ensures OneLine(s[..LineLen(s)])
  {
    if s != "" && s[0] != '\n' {
      LineLenOneLine(s[1..]);
      var t := s[..LineLen(s)];
      assert forall i :: 0 < i < |t| ==> t[i] == s[1..][..LineLen(s[1..])][i - 1];
    }
  }

  /** Writing `o`, splitting it again and running once more: the text `o2` that comes out is
      the same only if no line of `o` ends in a carriage return, and then `o` was run on. */
  lemma TextFixed(o: seq<string>, o2: seq<string>)
    requires AllOneLine(o) && AllOneLine(o2) && StrayCr(o2) <= StrayCr(StripAll(o))
    ensures Lines(Unlines(o)) == StripAll(o)
    ensures Unlines(o2) == Unlines(o) ==> NoCr(o) && o2 == o
    ensures NoCr(o) ==> StripAll(o) == o
  {
    LinesOfUnlines(o);
    StripStray(o);
    if NoCr(o) { StripNone(o); }
    if Unlines(o2) == Unlines(o) { UnlinesInjective(o2, o); }
  }

  /** The rewriter as a function of the text. */
  function Rewrite<S>(step: (string, S) -> (seq<string>, S), raw: string, s: S): string {
    Unlines(Out(step, Lines(raw), s))
  }

  lemma NoCrConcat(a: seq<string>, b: seq<string>)
    ensures NoCr(a + b) <==> NoCr(a) && NoCr(b)
  {
    var c := a + b;
    assert forall i :: 0 <= i < |a| ==> c[i] == a[i];
    assert forall i :: 0 <= i < |b| ==> c[|a| + i] == b[i];
  }

  lemma NoCrOne(line: string)
    ensures NoCr([line]) <==> !EndsInCr(line)
  {
    hide EndsInCr;
    assert [line][0] == line;
  }

  /** Going through the input, no step emits a line that ends in a carriage return. */
  ghost predicate CleanRun<S>(step: (string, S) -> (seq<string>, S), lines: seq<string>, s: S)
    decreases |lines|
  {
    lines == [] || (NoCr(step(lines[0], s).0) && CleanRun(step, lines[1..], step(lines[0], s).1))
  }

  lemma {:induction false} CleanOutput<S>(step: (string, S) -> (seq<string>, S), lines: seq<string>, s: S)
    ensures NoCr(Out(step, lines, s)) <==> CleanRun(step, lines, s)
    decreases |lines|
  {
    hide NoCr;
    if lines == [] {
      NoCrConcat([], []);
      NoneEnds();
    } else {
      var (a, s') := step(lines[0], s);
      CleanOutput(step, lines[1..], s');
      NoCrConcat(a, Out(step, lines[1..], s'));
    }
  }

  lemma NoneEnds()
    ensures NoCr([])
  {}

  /** As a function of the text, a stable machine is idempotent exactly on the texts on which
      none of its steps emits a line that ends in a carriage return. */
  lemma RewriteTwice<S(!new)>(step: (string, S) -> (seq<string>, S), rel: (S, S) -> bool, raw: string, s: S)
    requires Stable(step, rel) && rel(s, s) && Tidy(step)
    ensures Rewrite(step, Rewrite(step, raw, s), s) == Rewrite(step, raw, s) <==> CleanRun(step, Lines(raw), s)
  {
    CleanOutput(step, Lines(raw), s);
    var o := Out(step, Lines(raw), s);
    LinesOneLine(raw);
    OutTidy(step, Lines(raw), s);
    LinesOfUnlines(o);
    StripOneLine(o);
    OutTidy(step, StripAll(o), s);
    TextFixed(o, Out(step, StripAll(o), s));
    Idempotent(step, rel, Lines(raw), s, s);
  }

  lemma {:induction false} StripOneLine(lines: seq<string>)
    requires AllOneLine(lines)
    ensures AllOneLine(StripAll(lines))
    decreases |lines|
  {
    if lines != [] {
      StripOneLine(lines[1..]);
      assert OneLine(StripCr(lines[0]));
    }
  }

  /** `out` is what the machine has written when it is about to read line `i` in state `s`. */
  ghost predicate Written<S>(step: (string, S) -> (seq<string>, S), lines: seq<string>, start: S, i: nat, s: S, out: string)
    requires i <= |lines|
  {
    && out + Unlines(Out(step, lines[i..], s)) == Unlines(Out(step, lines, start))
    && End(step, lines[i..], s) == End(step, lines, start)
  }

  lemma WrittenStart<S>(step: (string, S) -> (seq<string>, S), lines: seq<string>, start: S)
    ensures Written(step, lines, start, 0, start, "")
  {
    assert lines[0..] == lines;
  }

  lemma WrittenLine<S>(step: (string, S) -> (seq<string>, S), lines: seq<string>, start: S, i: nat, s: S, out: string)
    requires i < |lines| && Written(step, lines, start, i, s, out)
    ensures var (a, s') := step(lines[i], s);
            && Written(step, lines, start, i + 1, s', out + Unlines(a))
            && (|a| == 0 ==> Written(step, lines, start, i + 1, s', out))
            && (|a| == 1 ==> Written(step, lines, start, i + 1, s', out + a[0] + "\n"))
  {
    var (a, s') := step(lines[i], s);
    assert lines[i..][0] == lines[i] && lines[i..][1..] == lines[i + 1..];
    var more := Out(step, lines[i + 1..], s');
    UnlinesConcat(a, more);
    Glue(out, Unlines(a), Unlines(more));
    if |a| == 0 {
      assert a == [] && out + Unlines(a) == out;
    } else if |a| == 1 {
      assert a == [a[0]];
      UnlinesFew(a[0]);
      Glue(out, a[0], "\n");
    }
  }

  lemma WrittenAll<S>(step: (string, S) -> (seq<string>, S), lines: seq<string>, start: S, s: S, out: string)
    requires Written(step, lines, start, |lines|, s, out)
    ensures out == Unlines(Out(step, lines, start)) && s == End(step, lines, start)
  {
    assert lines[|lines|..] == [];
    assert out + "" == out;
  }

  /** The text of no line, of one line. */
  lemma UnlinesFew(line: string)
    ensures Unlines([]) == "" && Unlines([line]) == line + "\n"
  {
    assert [line][1..] == [];
    assert "\n" + "" == "\n";
  }
}
