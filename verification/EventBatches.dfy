/** Cutting a list of analytics events into requests: in order, isolated events alone, and
    in as few requests as possible. */
module EventBatches {

  datatype Event = AcceptedLines(payload: int) | Other(payload: int)

  predicate Isolated(e: Event) { e.AcceptedLines? }

  function Flatten(batches: seq<seq<Event>>): seq<Event> {
    if batches == [] then [] else Flatten(batches[..|batches| - 1]) + batches[|batches| - 1]
  }

  /** A request is never empty, and an isolated event shares it with no other. */
  ghost predicate Sendable(batch: seq<Event>) {
    batch != [] && forall i :: 0 <= i < |batch| && Isolated(batch[i]) ==> |batch| == 1
  }

  ghost predicate IsSplit(batches: seq<seq<Event>>, events: seq<Event>) {
    Flatten(batches) == events && forall i :: 0 <= i < |batches| ==> Sendable(batches[i])
  }

  /** How many requests the events need: one starts at the first event, at each isolated
      event and right after one. */
  function Needed(events: seq<Event>): nat {
    var n := |events| - 1;
    if events == [] then 0
    else Needed(events[..n]) + (if n == 0 || Isolated(events[n]) || Isolated(events[n - 1]) then 1 else 0)
  }

  lemma {:induction false} NeededConcat(a: seq<Event>, b: seq<Event>)
    ensures Needed(a + b) <= Needed(a) + Needed(b)
    decreases |b|
  {
    if b == [] {
      assert a + b == a;
    } else {
      var n := |b| - 1;
      NeededConcat(a, b[..n]);
      assert (a + b)[..|a| + n] == a + b[..n];
    }
  }

  lemma {:induction false} NeededShared(b: seq<Event>)
    requires forall i :: 0 <= i < |b| ==> !Isolated(b[i])
    ensures Needed(b) <= 1
    decreases |b|
  {
    if |b| > 1 { NeededShared(b[..|b| - 1]); }
  }

  lemma NeededSendable(b: seq<Event>)
    requires Sendable(b)
    ensures Needed(b) <= 1
  {
    if |b| == 1 {
      assert b[..0] == [];
    } else {
      NeededShared(b);
    }
  }

  /** No split uses fewer requests. */
  lemma {:induction false} NeededIsLeast(batches: seq<seq<Event>>)
    requires forall i :: 0 <= i < |batches| ==> Sendable(batches[i])
    ensures Needed(Flatten(batches)) <= |batches|
    decreases |batches|
  {
    if batches != [] {
      var n := |batches| - 1;
      NeededIsLeast(batches[..n]);
      NeededSendable(batches[n]);
      NeededConcat(Flatten(batches[..n]), batches[n]);
    }
  }

  lemma FlattenAppend(batches: seq<seq<Event>>, b: seq<Event>)
    ensures Flatten(batches + [b]) == Flatten(batches) + b
  {
    assert (batches + [b])[..|batches|] == batches;
  }

  /** What the loop maintains about the first events. */
  ghost predicate Packed(done: seq<Event>, batches: seq<seq<Event>>, current: seq<Event>) {
    && Flatten(batches) + current == done
    && (forall i :: 0 <= i < |batches| ==> Sendable(batches[i]))
    && (forall i :: 0 <= i < |current| ==> !Isolated(current[i]))
    && (current == [] ==> done == [] || Isolated(done[|done| - 1]))
    && Needed(done) == |batches| + if current == [] then 0 else 1
  }

  lemma PackShared(done: seq<Event>, batches: seq<seq<Event>>, current: seq<Event>, e: Event)
    requires Packed(done, batches, current) && !Isolated(e)
    ensures Packed(done + [e], batches, current + [e])
  {
    assert (done + [e])[..|done|] == done;
    assert Flatten(batches) + (current + [e]) == Flatten(batches) + current + [e];
    if current != [] { assert done[|done| - 1] == current[|current| - 1]; }
  }

  lemma PackIsolated(done: seq<Event>, batches: seq<seq<Event>>, current: seq<Event>, e: Event)
    requires Packed(done, batches, current) && Isolated(e)
    ensures var closed := if current == [] then batches else batches + [current];
            Packed(done + [e], closed + [[e]], [])
  {
    hide Packed, Closed;
    ClosePacked(done, batches, current);
    AddIsolated(done, if current == [] then batches else batches + [current], e);
  }

  /** Nothing is left open. */
  ghost predicate Closed(done: seq<Event>, closed: seq<seq<Event>>) {
    Flatten(closed) == done && (forall i :: 0 <= i < |closed| ==> Sendable(closed[i])) && Needed(done) == |closed|
  }

  lemma ClosePacked(done: seq<Event>, batches: seq<seq<Event>>, current: seq<Event>)
    requires Packed(done, batches, current)
    ensures Closed(done, if current == [] then batches else batches + [current])
  {
    hide Needed, Isolated;
    if current == [] {
      assert Flatten(batches) + [] == Flatten(batches);
    } else {
      FlattenAppend(batches, current);
      assert Sendable(current);
    }
  }

  lemma AddIsolated(done: seq<Event>, closed: seq<seq<Event>>, e: Event)
    requires Closed(done, closed) && Isolated(e)
    ensures Packed(done + [e], closed + [[e]], [])
  {
    FlattenAppend(closed, [e]);
    NeededIsolated(done, e);
    assert Sendable([e]);
    hide Needed, Flatten, Isolated, Sendable;
    assert Flatten(closed + [[e]]) + [] == done + [e];
  }

  lemma NeededIsolated(done: seq<Event>, e: Event)
    requires Isolated(e)
    ensures Needed(done + [e]) == Needed(done) + 1
  {
    assert (done + [e])[..|done|] == done;
  }

  /** `track_event_request_batches`: order kept, nothing lost, isolated events alone, and as
      few requests as any such split can have. */
  method TrackEventRequestBatches(events: seq<Event>) returns (batches: seq<seq<Event>>)
    ensures IsSplit(batches, events)
    ensures forall other :: IsSplit(other, events) ==> |batches| <= |other|
    ensures forall i, j :: 0 <= i < |batches| && 0 <= j < |batches[i]| && batches[i][j].AcceptedLines? ==> |batches[i]| == 1
    ensures forall i :: 0 <= i < |batches| ==> |batches[i]| > 0
    ensures forall i :: 0 <= i < |batches| - 1 ==> batches[i][0].AcceptedLines? || batches[i + 1][0].AcceptedLines?
  {
    batches := [];
    var current: seq<Event> := [];
    for i := 0 to |events|
      invariant Packed(events[..i], batches, current)
    {
      var event := events[i];
      assert events[..i + 1] == events[..i] + [event];
      if Isolated(event) {
        PackIsolated(events[..i], batches, current, event);
        if current != [] {
          batches := batches + [current];
          current := [];
        }
        batches := batches + [[event]];
      } else {
        PackShared(events[..i], batches, current, event);
        current := current + [event];
      }
    }
    assert events[..|events|] == events;
    ClosePacked(events, batches, current);
    if current != [] {
      batches := batches + [current];
    }
    hide Packed, Closed, Isolated, Needed, Flatten;
    FewestRequests(events, batches);
  }

  /** As many requests as needed are a split, and a split without a joinable pair. */
  lemma FewestRequests(events: seq<Event>, batches: seq<seq<Event>>)
    requires Closed(events, batches)
    ensures IsSplit(batches, events)
    ensures forall other :: IsSplit(other, events) ==> |batches| <= |other|
    ensures forall i, j :: 0 <= i < |batches| && 0 <= j < |batches[i]| && batches[i][j].AcceptedLines? ==> |batches[i]| == 1
    ensures forall i :: 0 <= i < |batches| ==> |batches[i]| > 0
    ensures forall i :: 0 <= i < |batches| - 1 ==> batches[i][0].AcceptedLines? || batches[i + 1][0].AcceptedLines?
  {
    hide Needed, Flatten;
    forall other | IsSplit(other, events)
      ensures |batches| <= |other|
    {
      NeededIsLeast(other);
    }
    assert forall i :: 0 <= i < |batches| ==> Sendable(batches[i]);
    forall i | 0 <= i < |batches| - 1
      ensures batches[i][0].AcceptedLines? || batches[i + 1][0].AcceptedLines?
    {
      if !batches[i][0].AcceptedLines? && !batches[i + 1][0].AcceptedLines? {
        var other := JoinNext(batches, i, events);
      }
    }
  }

  lemma Reassociate(a: seq<Event>, b: seq<Event>, c: seq<Event>)
    ensures (a + b) + c == a + (b + c)
  {}

  lemma {:induction false} FlattenConcat(a: seq<seq<Event>>, b: seq<seq<Event>>)
    ensures Flatten(a + b) == Flatten(a) + Flatten(b)
    decreases |b|
  {
    if b == [] {
      assert a + b == a;
    } else {
      var n := |b| - 1;
      FlattenConcat(a, b[..n]);
      FlattenAppend(a + b[..n], b[n]);
      FlattenAppend(b[..n], b[n]);
      hide Flatten;
      assert a + b == (a + b[..n]) + [b[n]] && b == b[..n] + [b[n]];
      Reassociate(Flatten(a), Flatten(b[..n]), b[n]);
    }
  }

  /** Two neighbouring requests without an isolated event could be one. */
  lemma JoinNext(batches: seq<seq<Event>>, i: nat, events: seq<Event>) returns (other: seq<seq<Event>>)
    requires IsSplit(batches, events) && i + 1 < |batches|
    requires Sendable(batches[i]) && Sendable(batches[i + 1]) && !Isolated(batches[i][0]) && !Isolated(batches[i + 1][0])
    ensures IsSplit(other, events) && |other| == |batches| - 1
  {
    var a, x, y, b := batches[..i], batches[i], batches[i + 1], batches[i + 2..];
    other := a + [x + y] + b;
    assert batches == a + [x] + [y] + b;
    FlattenConcat(a + [x] + [y], b);
    FlattenConcat(a + [x], [y]);
    FlattenConcat(a, [x]);
    FlattenConcat(a + [x + y], b);
    FlattenConcat(a, [x + y]);
    FlattenOne(x);
    FlattenOne(y);
    FlattenOne(x + y);
    assert Flatten(a) + (x + y) == Flatten(a) + x + y;
    NoneIsolated(x);
    NoneIsolated(y);
    forall k | 0 <= k < |other|
      ensures Sendable(other[k])
    {
      if k < i {
        assert other[k] == batches[k];
      } else if k > i {
        assert other[k] == batches[k + 1];
      } else {
        assert forall j :: 0 <= j < |x + y| ==> !Isolated((x + y)[j]);
      }
    }
  }

  lemma FlattenOne(x: seq<Event>)
    ensures Flatten([x]) == x
  {
    assert [x][..0] == [];
    assert [] + x == x;
  }

  lemma NoneIsolated(x: seq<Event>)
    requires Sendable(x) && !Isolated(x[0])
    ensures forall j :: 0 <= j < |x| ==> !Isolated(x[j])
  {}
}
