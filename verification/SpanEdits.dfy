/** Applying identifier renames as span edits on the original text. Spans come as packed
    line and column pairs, are turned back into byte offsets through a table of line
    starts, and are applied from the last to the first. */
module SpanEdits {
  import opened Wrappers
  import Text

  const LINE_UNIT: nat := 1_000_000

  /** `encode_lc` and `decode_lc`: lines count from 1, columns from 0. */
  function EncodeLc(line: nat, column: nat): nat { line * LINE_UNIT + column }

  function DecodeLc(packed: nat): (nat, nat) { (packed / LINE_UNIT, packed % LINE_UNIT) }

  function RenameIdent(name: string): string {
    if "codex_" <= name then "lemurclaw_" + name[6..] else name
  }

  datatype SpanEdit = SpanEdit(start: nat, end: nat, oldIdent: string)

  /** A span in byte offsets with its replacement. */
  datatype Edit = Edit(start: nat, end: nat, text: string)

  datatype Outcome = OutOfRange | Panicked | Rewritten(text: string)

  // ----- the table of line starts -----

  /** Line starts among the first `n` bytes, with the start of the text. */
  function LineStartsTo(src: string, n: nat): (starts: seq<nat>)
    requires n <= |src|
    ensures starts != []
  {
    if n == 0 then [0]
    else if src[n - 1] == '\n' then LineStartsTo(src, n - 1) + [n]
    else LineStartsTo(src, n - 1)
  }

  method LineStarts(src: string) returns (starts: seq<nat>)
    ensures starts == LineStartsTo(src, |src|)
  {
    starts := [0];
    for i := 0 to |src|
      invariant starts == LineStartsTo(src, i)
    {
      if src[i] == '\n' {
        starts := starts + [i + 1];
      }
    }
  }

  /** How many line breaks stand before offset `o`. */
  function LinesBefore(src: string, o: nat): nat
    requires o <= |src|
  {
    if o == 0 then 0 else LinesBefore(src, o - 1) + (if src[o - 1] == '\n' then 1 else 0)
  }

  /** How many bytes stand between offset `o` and the line break before it. */
  function ColumnOf(src: string, o: nat): (c: nat)
    requires o <= |src|
    ensures c <= o
  {
    if o == 0 || src[o - 1] == '\n' then 0 else ColumnOf(src, o - 1) + 1
  }

  lemma {:induction false} TableAt(src: string, o: nat, n: nat)
    requires o <= n <= |src|
    ensures LinesBefore(src, o) < |LineStartsTo(src, n)|
    ensures LineStartsTo(src, n)[LinesBefore(src, o)] + ColumnOf(src, o) == o
    ensures n == o ==> |LineStartsTo(src, n)| == LinesBefore(src, o) + 1
    ensures forall k :: LinesBefore(src, o) < k < |LineStartsTo(src, n)| ==> LineStartsTo(src, n)[k] > o
    decreases n
  {
    if o < n {
      TableAt(src, o, n - 1);
    } else if o > 0 {
      TableAt(src, o - 1, o - 1);
    }
  }

  /** The offset a packed position leads to; None when its line is not in the table. */
  function OffsetOf(starts: seq<nat>, packed: nat): Option<nat> {
    var (line, column) := DecodeLc(packed);
    if line == 0 || line > |starts| then None else Some(starts[line - 1] + column)
  }

  function PackedOf(src: string, o: nat): nat
    requires o <= |src|
  {
    EncodeLc(LinesBefore(src, o) + 1, ColumnOf(src, o))
  }

  lemma DecodeSum(line: nat, column: nat)
    ensures DecodeLc(EncodeLc(line, column)) == (line + column / LINE_UNIT, column % LINE_UNIT)
  {
    var p := EncodeLc(line, column);
    var q, r := column / LINE_UNIT, column % LINE_UNIT;
    assert p == (line + q) * LINE_UNIT + r;
  }

  /** A packed position on the line of `o`, no further along it. */
  lemma PackedFound(src: string, o: nat, column: nat)
    requires o <= |src| && column <= ColumnOf(src, o)
    ensures OffsetOf(LineStartsTo(src, |src|), EncodeLc(LinesBefore(src, o) + 1, column)) == Some(o)
       <==> column == ColumnOf(src, o) && column < LINE_UNIT
  {
    TableAt(src, o, |src|);
    var starts, line := LineStartsTo(src, |src|), LinesBefore(src, o);
    DecodeSum(line + 1, column);
    Quotient(column);
    var q, r := column / LINE_UNIT, column % LINE_UNIT;
    hide ColumnOf, LinesBefore, LineStartsTo, EncodeLc, DecodeLc;
    assert OffsetOf(starts, EncodeLc(line + 1, column))
        == if line + 1 + q > |starts| then None else Some(starts[line + q] + r);
    hide OffsetOf;
    if q >= 1 && line + q < |starts| { assert starts[line + q] > o; }
  }

  lemma Quotient(column: nat)
    ensures column < LINE_UNIT ==> column / LINE_UNIT == 0 && column % LINE_UNIT == column
    ensures column >= LINE_UNIT ==> column / LINE_UNIT >= 1
  {}

  /** Packing and unpacking find the offset again exactly when its column fits. */
  lemma OffsetRecovered(src: string, o: nat)
    requires o <= |src|
    ensures OffsetOf(LineStartsTo(src, |src|), PackedOf(src, o)) == Some(o) <==> ColumnOf(src, o) < 1_000_000
  {
    hide OffsetOf, LineStartsTo, EncodeLc, LinesBefore;
    PackedFound(src, o, ColumnOf(src, o));
  }

  /** The column as a span library that counts characters gives it: continuation bytes do not
      count. */
  function CharColumn(src: string, o: nat): (c: nat)
    requires o <= |src|
    ensures c <= ColumnOf(src, o)
  {
    if o == 0 || src[o - 1] == '\n' then 0
    else CharColumn(src, o - 1) + if Text.IsContinuation(src[o - 1]) then 0 else 1
  }

  /** Every byte of the line up to `o` is a character of its own. */
  ghost predicate SingleBytes(src: string, o: nat)
    requires o <= |src|
  {
    forall p :: o - ColumnOf(src, o) <= p < o ==> !Text.IsContinuation(src[p])
  }

  lemma {:induction false} CharColumns(src: string, o: nat)
    requires o <= |src|
    ensures CharColumn(src, o) == ColumnOf(src, o) <==> SingleBytes(src, o)
    decreases o
  {
    if o > 0 && src[o - 1] != '\n' { CharColumns(src, o - 1); }
  }

  /** With columns counted in characters, the offset is found again exactly when no multi-byte
      character stands before it on its line (and the column fits). */
  lemma OffsetByCharacters(src: string, o: nat)
    requires o <= |src|
    ensures OffsetOf(LineStartsTo(src, |src|), EncodeLc(LinesBefore(src, o) + 1, CharColumn(src, o))) == Some(o)
       <==> SingleBytes(src, o) && ColumnOf(src, o) < 1_000_000
  {
    CharColumns(src, o);
    hide OffsetOf, LineStartsTo, EncodeLc, LinesBefore, SingleBytes;
    PackedFound(src, o, CharColumn(src, o));
  }

  // ----- sorting -----

  /** Stable insertion, latest start first, as `sort_by` orders the edits. */
  function Insert(e: Edit, es: seq<Edit>): seq<Edit> {
    if es == [] || es[0].start <= e.start then [e] + es else [es[0]] + Insert(e, es[1..])
  }

  function SortDescending(es: seq<Edit>): seq<Edit> {
    if es == [] then [] else Insert(es[0], SortDescending(es[1..]))
  }

  ghost predicate Descending(es: seq<Edit>) { forall i, j :: 0 <= i < j < |es| ==> es[i].start >= es[j].start }

  lemma {:induction false} InsertSpec(e: Edit, es: seq<Edit>)
    requires Descending(es)
    ensures Descending(Insert(e, es)) && forall x :: x in Insert(e, es) <==> x == e || x in es
    decreases |es|
  {
    if es != [] && es[0].start > e.start {
      InsertSpec(e, es[1..]);
      assert es == [es[0]] + es[1..];
      var r := Insert(e, es[1..]);
      forall j | 0 <= j < |r|
        ensures es[0].start >= r[j].start
      {
        assert r[j] in r;
      }
    }
  }

  lemma {:induction false} SortSpec(es: seq<Edit>)
    ensures Descending(SortDescending(es)) && forall x :: x in SortDescending(es) <==> x in es
    decreases |es|
  {
    if es != [] {
      SortSpec(es[1..]);
      InsertSpec(es[0], SortDescending(es[1..]));
      assert es == [es[0]] + es[1..];
    }
  }

  // ----- applying -----

  /** Nonempty spans inside the text, any two of them identical or disjoint. */
  ghost predicate Consistent(src: string, es: seq<Edit>) {
    && (forall e :: e in es ==> e.start < e.end <= |src|)
    && (forall e, f :: e in es && f in es ==> e == f || e.end <= f.start || f.end <= e.start)
  }

  /** The simultaneous substitution, reading the original text from `i` on: at the start of
      a span its replacement, elsewhere the byte itself. */
  ghost function Substitute(src: string, es: set<Edit>, i: nat): string
    requires i <= |src|
    requires forall e :: e in es ==> e.start < e.end <= |src|
    decreases |src| - i
  {
    if e :| e in es && e.start == i then e.text + Substitute(src, es, e.end)
    else if i < |src| then [src[i]] + Substitute(src, es, i + 1)
    else ""
  }

  lemma {:induction false} CopyUntil(src: string, es: set<Edit>, i: nat, j: nat)
    requires i <= j <= |src|
    requires forall e :: e in es ==> e.start < e.end <= |src|
    requires forall e :: e in es ==> !(i <= e.start < j)
    ensures Substitute(src, es, i) == src[i..j] + Substitute(src, es, j)
    decreases j - i
  {
    if i < j {
      CopyUntil(src, es, i + 1, j);
      assert src[i..j] == [src[i]] + src[i + 1..j];
    }
  }

  lemma SubstituteAt(src: string, es: set<Edit>, e: Edit)
    requires e in es && forall f :: f in es ==> f.start < f.end <= |src|
    requires forall f :: f in es && f.start == e.start ==> f == e
    ensures Substitute(src, es, e.start) == e.text + Substitute(src, es, e.end)
  {}

  ghost function EditSet(es: seq<Edit>): set<Edit> { set e | e in es }

  /** One `replace_range` below everything replaced so far. */
  lemma ReplaceStep(src: string, es: set<Edit>, last: nat, out: string, e: Edit)
    requires forall f :: f in es ==> f.start < f.end <= |src|
    requires forall f :: f in es && f.start == e.start ==> f == e
    requires e in es && e.end <= last <= |src|
    requires forall f :: f in es ==> !(e.end <= f.start < last)
    requires out == src[..last] + Substitute(src, es, last)
    ensures out[..e.start] + e.text + out[e.end..] == src[..e.start] + Substitute(src, es, e.start)
  {
    CopyUntil(src, es, e.end, last);
    SubstituteAt(src, es, e);
    assert out[..e.start] == src[..e.start];
    assert out[e.end..] == src[e.end..last] + Substitute(src, es, last);
  }

  /** The first `i` edits are applied, the last of them at `lastStart`. */
  ghost predicate Applied(src: string, es: seq<Edit>, i: nat, lastStart: Option<nat>, out: string)
    requires Consistent(src, es) && i <= |es|
  {
    match lastStart
    case None => i == 0 && out == src
    case Some(last) =>
      && last <= |src| && out == src[..last] + Substitute(src, EditSet(es), last)
      && (forall j :: 0 <= j < i ==> es[j].start >= last)
      && (exists j :: 0 <= j < i && es[j].start == last)
  }

  lemma ApplyText(src: string, es: seq<Edit>, i: nat, lastStart: Option<nat>, out: string)
    requires Consistent(src, es) && Descending(es) && i < |es| && Applied(src, es, i, lastStart, out)
    requires lastStart.Some? ==> es[i].start < lastStart.value
    ensures var e := es[i];
            && e.start < e.end <= |src| && e.end <= |out|
            && out[..e.start] + e.text + out[e.end..] == src[..e.start] + Substitute(src, EditSet(es), e.start)
  {
    var e, all := es[i], EditSet(es);
    assert e in es;
    if lastStart.None? {
      assert Substitute(src, all, |src|) == "";
      assert out == src[..|src|] + "";
      EndFits(src, es, i, |src|, false);
      ReplaceStep(src, all, |src|, out, e);
    } else {
      EndFits(src, es, i, lastStart.value, true);
      ReplaceStep(src, all, lastStart.value, out, e);
    }
  }

  lemma ApplyNext(src: string, es: seq<Edit>, i: nat, lastStart: Option<nat>, out: string)
    requires Consistent(src, es) && Descending(es) && i < |es| && Applied(src, es, i, lastStart, out)
    requires lastStart.Some? ==> es[i].start < lastStart.value
    ensures var e := es[i];
            && e.start <= e.end <= |out|
            && Applied(src, es, i + 1, Some(e.start), out[..e.start] + e.text + out[e.end..])
  {
    ApplyText(src, es, i, lastStart, out);
    hide Substitute, EditSet, Consistent;
    assert forall j :: 0 <= j < i + 1 ==> es[j].start >= es[i].start;
  }

  lemma AppliedAll(src: string, es: seq<Edit>, lastStart: Option<nat>, out: string)
    requires Consistent(src, es) && Applied(src, es, |es|, lastStart, out)
    ensures out == Substitute(src, EditSet(es), 0)
  {
    var last := if lastStart.Some? then lastStart.value else |src|;
    forall e | e in EditSet(es)
      ensures e.start >= last
    {
      var j :| 0 <= j < |es| && es[j] == e;
    }
    CopyUntil(src, EditSet(es), 0, last);
    assert src[0..last] == src[..last];
    if lastStart.None? {
      assert Substitute(src, EditSet(es), |src|) == "";
      assert src[..|src|] + "" == src;
    }
  }

  /** The loop over the sorted edits; before the first one `last_start` is the largest
      `usize`, above every start. */
  method ApplySorted(src: string, es: seq<Edit>) returns (r: Outcome)
    requires Descending(es)
    ensures Consistent(src, es) ==> r == Rewritten(Substitute(src, EditSet(es), 0))
    ensures !r.OutOfRange?
  {
    var out := src;
    var lastStart: Option<nat> := None;
    for i := 0 to |es|
      invariant Consistent(src, es) ==> Applied(src, es, i, lastStart, out)
    {
      var e := es[i];
      if lastStart.Some? && e.start >= lastStart.value {
        continue;
      }
      if Consistent(src, es) { ApplyNext(src, es, i, lastStart, out); }
      if e.start > e.end || e.end > |out| {
        return Panicked;
      }
      lastStart := Some(e.start);
      out := out[..e.start] + e.text + out[e.end..];
    }
    if Consistent(src, es) { AppliedAll(src, es, lastStart, out); }
    r := Rewritten(out);
  }

  /** The next edit ends before everything replaced so far, and no edit starts between. */
  lemma EndFits(src: string, es: seq<Edit>, i: nat, last: nat, started: bool)
    requires Consistent(src, es) && Descending(es) && i < |es| && last <= |src|
    requires forall j :: 0 <= j < i ==> es[j].start >= last
    requires if started then (exists j :: 0 <= j < i && es[j].start == last) && es[i].start < last
             else i == 0 && last == |src|
    ensures es[i].end <= last
    ensures forall f :: f in EditSet(es) ==> !(es[i].end <= f.start < last)
    ensures forall f :: f in EditSet(es) && f.start == es[i].start ==> f == es[i]
  {
    var e := es[i];
    assert e in es;
    if started {
      var j :| 0 <= j < i && es[j].start == last;
      assert es[j] in es;
    }
    forall f | f in EditSet(es)
      ensures !(e.end <= f.start < last)
    {
      var k :| 0 <= k < |es| && es[k] == f;
    }
  }

  /** The edits of a span list, or None when a span's line is not in the table. */
  function EditsOf(starts: seq<nat>, spans: seq<SpanEdit>): Option<seq<Edit>> {
    if spans == [] then Some([])
    else
      match (OffsetOf(starts, spans[0].start), OffsetOf(starts, spans[0].end), EditsOf(starts, spans[1..]))
      case (Some(s), Some(e), Some(rest)) => Some([Edit(s, e, RenameIdent(spans[0].oldIdent))] + rest)
      case _ => None
  }

  lemma {:induction false} EditsSnoc(starts: seq<nat>, spans: seq<SpanEdit>, n: nat)
    requires n < |spans|
    ensures EditsOf(starts, spans[..n + 1])
         == match (EditsOf(starts, spans[..n]), OffsetOf(starts, spans[n].start), OffsetOf(starts, spans[n].end))
            case (Some(es), Some(s), Some(e)) => Some(es + [Edit(s, e, RenameIdent(spans[n].oldIdent))])
            case _ => None
    decreases n
  {
    if n == 0 {
      assert spans[..1][1..] == [] && spans[..1][0] == spans[0];
      forall x: Edit ensures [x] + [] == [] + [x] {}
    } else {
      assert spans[..n + 1][1..] == spans[1..][..n] && spans[..n][1..] == spans[1..][..n - 1];
      EditsSnoc(starts, spans[1..], n - 1);
      assert spans[1..][..n - 1 + 1] == spans[1..][..n] && spans[1..][n - 1] == spans[n];
      match (EditsOf(starts, spans[1..][..n - 1]), OffsetOf(starts, spans[0].start), OffsetOf(starts, spans[0].end),
             OffsetOf(starts, spans[n].start), OffsetOf(starts, spans[n].end)) {
        case (Some(es), Some(s), Some(e), Some(s'), Some(e')) =>
          var a, x := Edit(s, e, RenameIdent(spans[0].oldIdent)), Edit(s', e', RenameIdent(spans[n].oldIdent));
          assert [a] + (es + [x]) == [a] + es + [x];
        case _ =>
      }
    }
  }

  lemma {:induction false} EditsNone(starts: seq<nat>, spans: seq<SpanEdit>, n: nat)
    requires n <= |spans| && EditsOf(starts, spans[..n]).None?
    ensures EditsOf(starts, spans).None?
    decreases n
  {
    if n > 0 {
      assert spans[..n][1..] == spans[1..][..n - 1];
      if EditsOf(starts, spans[..n][1..]).None? { EditsNone(starts, spans[1..], n - 1); }
    }
  }

  /** `apply_spans_via_linecol`. */
  method ApplySpans(src: string, spans: seq<SpanEdit>) returns (r: Outcome)
    ensures var edits := EditsOf(LineStartsTo(src, |src|), spans);
            && (r.OutOfRange? <==> edits.None?)
            && (edits.Some? && Consistent(src, edits.value) ==>
                  r == Rewritten(Substitute(src, EditSet(edits.value), 0)))
  {
    var starts := LineStarts(src);
    var edits: seq<Edit> := [];
    for i := 0 to |spans|
      invariant EditsOf(starts, spans[..i]) == Some(edits)
    {
      EditsSnoc(starts, spans, i);
      var (sl, sc) := DecodeLc(spans[i].start);
      var (el, ec) := DecodeLc(spans[i].end);
      if sl == 0 || sl > |starts| || el == 0 || el > |starts| {
        EditsNone(starts, spans, i + 1);
        return OutOfRange;
      }
      edits := edits + [Edit(starts[sl - 1] + sc, starts[el - 1] + ec, RenameIdent(spans[i].oldIdent))];
    }
    assert spans[..|spans|] == spans;
    SortSpec(edits);
    var sorted := SortDescending(edits);
    assert Consistent(src, edits) ==> Consistent(src, sorted);
    assert EditSet(sorted) == EditSet(edits);
    r := ApplySorted(src, sorted);
  }

  // ----- from identifiers in the text to the rewritten text -----

  /** An identifier occurrence by its byte offsets. */
  datatype Occurrence = Occurrence(start: nat, end: nat)

  ghost predicate InText(src: string, ids: seq<Occurrence>) {
    && (forall d :: d in ids ==> d.start < d.end <= |src|)
    && (forall d :: d in ids ==> ColumnOf(src, d.start) < LINE_UNIT && ColumnOf(src, d.end) < LINE_UNIT)
    && (forall d, f :: d in ids && f in ids ==> d == f || d.end <= f.start || f.end <= d.start)
  }

  /** What the visitor records for each occurrence. */
  function Recorded(src: string, ids: seq<Occurrence>): seq<SpanEdit>
    requires forall d :: d in ids ==> d.start < d.end <= |src|
  {
    if ids == [] then []
    else
      var d := ids[0];
      assert forall f :: f in ids[1..] ==> f in ids;
      [SpanEdit(PackedOf(src, d.start), PackedOf(src, d.end), src[d.start..d.end])] + Recorded(src, ids[1..])
  }

  ghost function Renames(src: string, ids: seq<Occurrence>): set<Edit>
    requires forall d :: d in ids ==> d.start < d.end <= |src|
  {
    set d | d in ids :: Edit(d.start, d.end, RenameIdent(src[d.start..d.end]))
  }

  lemma {:induction false} RecordedEdits(src: string, ids: seq<Occurrence>)
    requires InText(src, ids)
    ensures var edits := EditsOf(LineStartsTo(src, |src|), Recorded(src, ids));
            edits.Some? && EditSet(edits.value) == Renames(src, ids)
    decreases |ids|
  {
    if ids != [] {
      var d, rest := ids[0], ids[1..];
      assert forall f :: f in rest ==> f in ids;
      RecordedEdits(src, rest);
      RecordedHead(src, ids);
    }
  }

  lemma EditsHead(starts: seq<nat>, x: SpanEdit, xs: seq<SpanEdit>, s: nat, e: nat, es: seq<Edit>)
    requires OffsetOf(starts, x.start) == Some(s) && OffsetOf(starts, x.end) == Some(e)
    requires EditsOf(starts, xs) == Some(es)
    ensures EditsOf(starts, [x] + xs) == Some([Edit(s, e, RenameIdent(x.oldIdent))] + es)
  {
    hide OffsetOf, RenameIdent;
    assert ([x] + xs)[1..] == xs;
  }

  lemma RecordedHead(src: string, ids: seq<Occurrence>)
    requires InText(src, ids) && ids != [] && InText(src, ids[1..])
    requires var edits := EditsOf(LineStartsTo(src, |src|), Recorded(src, ids[1..]));
             edits.Some? && EditSet(edits.value) == Renames(src, ids[1..])
    ensures var edits := EditsOf(LineStartsTo(src, |src|), Recorded(src, ids));
            edits.Some? && EditSet(edits.value) == Renames(src, ids)
  {
    hide ColumnOf, LinesBefore, LineStartsTo, PackedOf, OffsetOf, EditsOf, RenameIdent;
    var d, rest := ids[0], ids[1..];
    var starts := LineStartsTo(src, |src|);
    assert d in ids;
    assert forall f :: f in ids <==> f == d || f in rest by { assert ids == [d] + rest; }
    OffsetRecovered(src, d.start);
    OffsetRecovered(src, d.end);
    var tail := EditsOf(starts, Recorded(src, rest)).value;
    var x := SpanEdit(PackedOf(src, d.start), PackedOf(src, d.end), src[d.start..d.end]);
    var e := Edit(d.start, d.end, RenameIdent(x.oldIdent));
    assert Recorded(src, ids) == [x] + Recorded(src, rest);
    hide Recorded, InText;
    EditsHead(starts, x, Recorded(src, rest), d.start, d.end, tail);
    EditSetCons(e, tail);
    RenamesCons(src, ids);
  }

  lemma EditSetCons(e: Edit, tail: seq<Edit>)
    ensures EditSet([e] + tail) == {e} + EditSet(tail)
  {}

  lemma RenamesCons(src: string, ids: seq<Occurrence>)
    requires (forall d :: d in ids ==> d.start < d.end <= |src|) && ids != []
    ensures (forall d :: d in ids[1..] ==> d.start < d.end <= |src|) && ids[0].start < ids[0].end <= |src|
    ensures Renames(src, ids)
         == {Edit(ids[0].start, ids[0].end, RenameIdent(src[ids[0].start..ids[0].end]))} + Renames(src, ids[1..])
  {
    hide RenameIdent;
    assert ids == [ids[0]] + ids[1..];
  }

  /** Recording identifier occurrences, in any order and however often, and applying the
      spans renames each occurrence once, in place, and keeps every other byte. */
  lemma OccurrencesRenamed(src: string, ids: seq<Occurrence>)
    requires InText(src, ids)
    ensures var edits := EditsOf(LineStartsTo(src, |src|), Recorded(src, ids));
            && edits.Some? && Consistent(src, edits.value)
            && Substitute(src, EditSet(edits.value), 0) == Substitute(src, Renames(src, ids), 0)
  {
    RecordedEdits(src, ids);
    var edits := EditsOf(LineStartsTo(src, |src|), Recorded(src, ids)).value;
    forall e | e in edits
      ensures e in Renames(src, ids)
    {
      assert e in EditSet(edits);
    }
  }

  // ----- the renamed text, spelled out -----

  /** A text as identifiers with other text around them. */
  function Around(gaps: seq<string>, idents: seq<string>): string
    requires |gaps| == |idents| + 1
    decreases |idents|
  {
    if idents == [] then gaps[0] else gaps[0] + (idents[0] + Around(gaps[1..], idents[1..]))
  }

  /** Where the identifiers stand, when the text starts at `at`. */
  function Places(gaps: seq<string>, idents: seq<string>, at: nat): seq<Occurrence>
    requires |gaps| == |idents| + 1
    decreases |idents|
  {
    if idents == [] then []
    else
      var start := at + |gaps[0]|;
      [Occurrence(start, start + |idents[0]|)] + Places(gaps[1..], idents[1..], start + |idents[0]|)
  }

  function Spelled(idents: seq<string>): seq<string> {
    if idents == [] then []
    else [if "codex_" <= idents[0] then "lemurclaw_" + idents[0][6..] else idents[0]] + Spelled(idents[1..])
  }

  ghost predicate NoneBlank(idents: seq<string>) { forall i :: 0 <= i < |idents| ==> idents[i] != "" }

  lemma {:induction false} SpelledLength(idents: seq<string>)
    ensures |Spelled(idents)| == |idents|
    decreases |idents|
  {
    if idents != [] { SpelledLength(idents[1..]); }
  }

  /** Nonempty places, one after the other. */
  ghost predicate Ordered(places: seq<Occurrence>, at: nat)
    decreases |places|
  {
    places == [] || (at <= places[0].start < places[0].end && Ordered(places[1..], places[0].end))
  }

  lemma {:induction false} PlacesOrdered(gaps: seq<string>, idents: seq<string>, at: nat)
    requires |gaps| == |idents| + 1 && NoneBlank(idents)
    ensures Ordered(Places(gaps, idents, at), at)
    decreases |idents|
  {
    if idents != [] {
      var places := Places(gaps, idents, at);
      var end := at + |gaps[0]| + |idents[0]|;
      assert NoneBlank(idents[1..]);
      PlacesOrdered(gaps[1..], idents[1..], end);
      assert idents[0] != "" && places[1..] == Places(gaps[1..], idents[1..], end);
    }
  }

  lemma {:induction false} OrderedFrom(places: seq<Occurrence>, at: nat)
    requires Ordered(places, at)
    ensures forall d :: d in places ==> at <= d.start < d.end
    decreases |places|
  {
    if places != [] {
      OrderedFrom(places[1..], places[0].end);
      assert forall d :: d in places ==> d == places[0] || d in places[1..];
    }
  }

  /** From `at` on the edits are those of the places. */
  ghost predicate EditsAt(src: string, es: set<Edit>, places: seq<Occurrence>, at: nat) {
    && (forall e :: e in es ==> e.start < e.end <= |src| && e.text == RenameIdent(src[e.start..e.end]))
    && (forall e :: e in es && e.start >= at ==> Occurrence(e.start, e.end) in places)
    && (forall d :: d in places ==> exists e :: e in es && e.start == d.start && e.end == d.end)
  }

  lemma NextPlace(src: string, es: set<Edit>, places: seq<Occurrence>, at: nat)
    requires EditsAt(src, es, places, at) && Ordered(places, at) && places != []
    ensures var d := places[0];
            && at <= d.start < d.end <= |src| && EditsAt(src, es, places[1..], d.end)
            && Substitute(src, es, at) == src[at..d.start] + (RenameIdent(src[d.start..d.end]) + Substitute(src, es, d.end))
  {
    var d, rest := places[0], places[1..];
    PlaceEdits(src, es, places, at);
    hide RenameIdent, EditsAt, Ordered;
    var e := Edit(d.start, d.end, RenameIdent(src[d.start..d.end]));
    CopyUntil(src, es, at, d.start);
    SubstituteAt(src, es, e);
    hide Substitute;
  }

  /** The edit of the first place, and where the others are. */
  lemma PlaceEdits(src: string, es: set<Edit>, places: seq<Occurrence>, at: nat)
    requires EditsAt(src, es, places, at) && Ordered(places, at) && places != []
    ensures var d := places[0];
            && at <= d.start < d.end <= |src| && EditsAt(src, es, places[1..], d.end)
            && (forall e :: e in es ==> e.start < e.end <= |src|)
            && Edit(d.start, d.end, RenameIdent(src[d.start..d.end])) in es
            && (forall f :: f in es ==> !(at <= f.start < d.start))
            && forall f :: f in es && f.start == d.start ==> f == Edit(d.start, d.end, RenameIdent(src[d.start..d.end]))
  {
    var d, rest := places[0], places[1..];
    hide RenameIdent;
    assert d in places && forall f :: f in places <==> f == d || f in rest;
    OrderedFrom(rest, d.end);
    var e :| e in es && e.start == d.start && e.end == d.end;
  }

  lemma {:induction false} SubstituteAround(src: string, es: set<Edit>, at: nat, gaps: seq<string>, idents: seq<string>)
    requires |gaps| == |idents| + 1 && NoneBlank(idents) && at <= |src| && src[at..] == Around(gaps, idents)
    requires EditsAt(src, es, Places(gaps, idents, at), at)
    ensures |Spelled(idents)| == |idents| && EditsOk(src, es) && Substitute(src, es, at) == Around(gaps, Spelled(idents))
    decreases |idents|
  {
    SpelledLength(idents);
    EditsAtOk(src, es, Places(gaps, idents, at), at);
    if idents == [] {
      NoPlaces(src, es, at, gaps[0]);
    } else {
      hide Substitute, EditsAt, Places, Around, Spelled, RenameIdent, NoneBlank, EditsOk;
      StepAround(src, es, at, gaps, idents);
      AroundSpelled(gaps, idents);
      NoneBlankRest(idents);
      SubstituteAround(src, es, at + |gaps[0]| + |idents[0]|, gaps[1..], idents[1..]);
    }
  }

  ghost predicate EditsOk(src: string, es: set<Edit>) { forall e :: e in es ==> e.start < e.end <= |src| }

  lemma EditsAtOk(src: string, es: set<Edit>, places: seq<Occurrence>, at: nat)
    requires EditsAt(src, es, places, at)
    ensures EditsOk(src, es)
  {}

  /** The first gap and identifier. */
  lemma StepAround(src: string, es: set<Edit>, at: nat, gaps: seq<string>, idents: seq<string>)
    requires |gaps| == |idents| + 1 && NoneBlank(idents) && idents != [] && at <= |src| && src[at..] == Around(gaps, idents)
    requires EditsAt(src, es, Places(gaps, idents, at), at)
    ensures var end := at + |gaps[0]| + |idents[0]|;
            && end <= |src| && src[end..] == Around(gaps[1..], idents[1..])
            && EditsAt(src, es, Places(gaps[1..], idents[1..], end), end) && EditsOk(src, es)
            && Substitute(src, es, at) == gaps[0] + (RenameIdent(idents[0]) + Substitute(src, es, end))
  {
    hide Ordered, Places, Around, RenameIdent, NoneBlank, Substitute, EditsAt, EditsOk;
    PlacesOrdered(gaps, idents, at);
    PlacesHead(gaps, idents, at);
    AroundHead(gaps, idents);
    EditsAtOk(src, es, Places(gaps, idents, at), at);
    Pieces(src, at, gaps[0], idents[0], Around(gaps[1..], idents[1..]));
    NextPlace(src, es, Places(gaps, idents, at), at);
  }

  lemma AroundHead(gaps: seq<string>, idents: seq<string>)
    requires |gaps| == |idents| + 1 && idents != []
    ensures Around(gaps, idents) == gaps[0] + (idents[0] + Around(gaps[1..], idents[1..]))
  {}

  lemma NoneBlankRest(idents: seq<string>)
    requires NoneBlank(idents) && idents != []
    ensures NoneBlank(idents[1..])
  {}

  lemma NoPlaces(src: string, es: set<Edit>, at: nat, g: string)
    requires at <= |src| && src[at..] == g && EditsAt(src, es, [], at)
    ensures Substitute(src, es, at) == g
  {
    hide RenameIdent;
    CopyUntil(src, es, at, |src|);
    assert src[at..|src|] == g && g + "" == g;
  }

  lemma PlacesHead(gaps: seq<string>, idents: seq<string>, at: nat)
    requires |gaps| == |idents| + 1 && idents != []
    ensures var end := at + |gaps[0]| + |idents[0]|;
            var places := Places(gaps, idents, at);
            places != [] && places[0] == Occurrence(at + |gaps[0]|, end) && places[1..] == Places(gaps[1..], idents[1..], end)
  {}

  lemma AroundSpelled(gaps: seq<string>, idents: seq<string>)
    requires |gaps| == |idents| + 1 && idents != [] && |Spelled(idents)| == |idents|
    ensures |Spelled(idents[1..])| == |idents| - 1
    ensures Around(gaps, Spelled(idents)) == gaps[0] + (RenameIdent(idents[0]) + Around(gaps[1..], Spelled(idents[1..])))
  {
    assert Spelled(idents)[1..] == Spelled(idents[1..]);
  }

  lemma Pieces(src: string, at: nat, g: string, id: string, rest: string)
    requires at <= |src| && src[at..] == g + (id + rest)
    ensures var end := at + |g| + |id|;
            end <= |src| && src[at..at + |g|] == g && src[at + |g|..end] == id && src[end..] == rest
  {
    var tail := src[at..];
    assert tail[..|g|] == g && tail[|g|..|g| + |id|] == id && tail[|g| + |id|..] == rest;
  }

  /** For recorded identifiers, in any order and however often: each that starts with `codex_`
      starts with `lemurclaw_` in the output, and all other text stays. */
  lemma OccurrencesSpelled(gaps: seq<string>, idents: seq<string>, ids: seq<Occurrence>)
    requires |gaps| == |idents| + 1 && NoneBlank(idents) && InText(Around(gaps, idents), ids)
    requires forall d :: d in ids <==> d in Places(gaps, idents, 0)
    ensures var src := Around(gaps, idents);
            var edits := EditsOf(LineStartsTo(src, |src|), Recorded(src, ids));
            && edits.Some? && Consistent(src, edits.value) && |Spelled(idents)| == |idents|
            && Substitute(src, EditSet(edits.value), 0) == Around(gaps, Spelled(idents))
  {
    var src := Around(gaps, idents);
    OccurrencesRenamed(src, ids);
    assert src[0..] == src;
    RenamesAt(src, ids, Places(gaps, idents, 0));
    hide EditsOf, Consistent, LineStartsTo, Recorded, InText, Substitute, EditSet, Renames, EditsAt;
    SubstituteAround(src, Renames(src, ids), 0, gaps, idents);
  }

  lemma RenamesAt(src: string, ids: seq<Occurrence>, places: seq<Occurrence>)
    requires InText(src, ids) && forall d :: d in ids <==> d in places
    ensures EditsAt(src, Renames(src, ids), places, 0)
  {
    hide RenameIdent;
    forall d | d in places
      ensures exists e :: e in Renames(src, ids) && e.start == d.start && e.end == d.end
    {
      assert d in ids;
      assert Edit(d.start, d.end, RenameIdent(src[d.start..d.end])) in Renames(src, ids);
    }
  }
}
