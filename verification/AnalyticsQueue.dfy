/** The analytics event queue as a state machine.

    Callers offer facts to a bounded channel and may request a flush; one worker receives. A
    step is one atomic action of one party, so a run is an interleaving of all of them. */
module AnalyticsQueue {

  const QUEUE_SIZE: nat := 256

  datatype Message = Fact(fact: int) | Flush(id: nat)

  /** The worker is waiting, is feeding a fact to the reducer, or is sending its events. */
  datatype Worker = Idle | Ingesting(fact: int) | Sending(fact: int)

  /** `pending` and `reserved` are the facts and flushes of senders that hold a permit of the
      channel and have not put their message in yet; `waiting` are flush senders without a
      permit, in the order in which they will get one. `requested` says how many facts had
      been accepted when a flush was requested. */
  datatype State = State(
    buffer: seq<Message>,
    pending: seq<int>,
    reserved: seq<nat>,
    waiting: seq<nat>,
    worker: Worker,
    processed: seq<int>,
    accepted: seq<int>,
    dropped: seq<int>,
    offered: seq<int>,
    requested: map<nat, nat>,
    abandoned: set<nat>,
    acked: set<nat>)
  {
    /** Permits in use. */
    function Used(): nat { |buffer| + |pending| + |reserved| }
  }

  const INIT := State([], [], [], [], Idle, [], [], [], [], map[], {}, {})

  datatype Step =
    | TrySend(fact: int)      // ask for a permit; without one the fact is dropped
    | PutFact(at: nat)        // put a fact that has its permit
    | RequestFlush(id: nat)
    | PutFlush(at: nat)
    | Timeout(id: nat)        // the caller of a flush stops waiting
    | Receive
    | Ingested
    | Sent

  function Without<T>(s: seq<T>, i: nat): seq<T>
    requires i < |s|
  {
    s[..i] + s[i + 1..]
  }

  function IndexOf(s: seq<nat>, x: nat): (i: nat)
    requires x in s
    ensures i < |s| && s[i] == x
  {
    if s[0] == x then 0 else IndexOf(s[1..], x) + 1
  }

  predicate Enabled(s: State, step: Step) {
    match step
    case TrySend(_) => true
    case PutFact(i) => i < |s.pending|
    case RequestFlush(id) => id !in s.requested
    case PutFlush(i) => i < |s.reserved|
    case Timeout(id) => id in s.requested && id !in s.acked && id !in s.abandoned
    case Receive => s.worker.Idle? && s.buffer != []
    case Ingested => s.worker.Ingesting?
    case Sent => s.worker.Sending?
  }

  /** A permit comes back: the first waiting sender gets it, if there is one. */
  function Release(s: State): State {
    if s.waiting == [] then s
    else s.(waiting := s.waiting[1..], reserved := s.reserved + [s.waiting[0]])
  }

  function Next(s: State, step: Step): State
    requires Enabled(s, step)
  {
    match step
    case TrySend(f) =>
      var t := s.(offered := s.offered + [f]);
      if s.Used() < QUEUE_SIZE then t.(pending := s.pending + [f]) else t.(dropped := s.dropped + [f])
    case PutFact(i) =>
      var f := s.pending[i];
      s.(pending := Without(s.pending, i), buffer := s.buffer + [Fact(f)], accepted := s.accepted + [f])
    case RequestFlush(id) =>
      var t := s.(requested := s.requested[id := |s.accepted|]);
      if s.Used() < QUEUE_SIZE then t.(reserved := s.reserved + [id]) else t.(waiting := s.waiting + [id])
    case PutFlush(i) =>
      s.(reserved := Without(s.reserved, i), buffer := s.buffer + [Flush(s.reserved[i])])
    case Timeout(id) =>
      var t := s.(abandoned := s.abandoned + {id});
      if id in s.waiting then t.(waiting := Without(s.waiting, IndexOf(s.waiting, id)))
      else if id in s.reserved then Release(t.(reserved := Without(s.reserved, IndexOf(s.reserved, id))))
      else t
    case Receive =>
      var t := Release(s.(buffer := s.buffer[1..]));
      match s.buffer[0] {
        case Fact(f) => t.(worker := Ingesting(f))
        case Flush(id) => if id in s.abandoned then t else t.(acked := s.acked + {id})
      }
    case Ingested => s.(worker := Sending(s.worker.fact))
    case Sent => s.(worker := Idle, processed := s.processed + [s.worker.fact])
  }

  // ----- runs -----

  /** A party whose step is not enabled waits: nothing happens. */
  function Do(s: State, step: Step): State { if Enabled(s, step) then Next(s, step) else s }

  /** The state after a run; every sequence of steps is one. */
  function After(steps: seq<Step>): State {
    if steps == [] then INIT else Do(After(steps[..|steps| - 1]), steps[|steps| - 1])
  }

  lemma AfterSnoc(steps: seq<Step>, step: Step)
    ensures After(steps + [step]) == Do(After(steps), step)
  {
    assert (steps + [step])[..|steps|] == steps;
  }

  // ----- what every step keeps -----

  function FactsOf(b: seq<Message>): seq<int> {
    if b == [] then [] else FactsOf(b[..|b| - 1]) + FactOf(b[|b| - 1])
  }

  function InFlight(w: Worker): seq<int> {
    match w
    case Idle => []
    case Ingesting(f) => [f]
    case Sending(f) => [f]
  }

  /** How many facts the worker finishes before it gets to message `k`. */
  function Ahead(s: State, k: nat): nat
    requires k <= |s.buffer|
  {
    |s.processed| + |InFlight(s.worker)| + |FactsOf(s.buffer[..k])|
  }

  ghost predicate Ordered(s: State) {
    s.processed + InFlight(s.worker) + FactsOf(s.buffer) == s.accepted
  }

  ghost predicate Bounded(s: State) {
    s.Used() <= QUEUE_SIZE && (s.waiting != [] ==> s.Used() == QUEUE_SIZE)
  }

  ghost predicate Conserved(s: State) {
    multiset(s.offered) == multiset(s.accepted) + multiset(s.dropped) + multiset(s.pending)
  }

  /** A flush was requested when at most the facts in front of it had been accepted. */
  ghost predicate FlushesBehind(s: State) {
    && (forall k :: 0 <= k < |s.buffer| && s.buffer[k].Flush? ==>
          s.buffer[k].id in s.requested && s.requested[s.buffer[k].id] <= Ahead(s, k))
    && (forall i :: 0 <= i < |s.reserved| ==> s.reserved[i] in s.requested)
    && (forall i :: 0 <= i < |s.waiting| ==> s.waiting[i] in s.requested)
    && (forall id :: id in s.requested ==> s.requested[id] <= |s.accepted|)
  }

  ghost predicate AcksHold(s: State) {
    forall id :: id in s.acked ==> id in s.requested && s.requested[id] <= |s.processed|
  }

  ghost predicate Inv(s: State) {
    Ordered(s) && Bounded(s) && Conserved(s) && FlushesBehind(s) && AcksHold(s)
  }

  lemma FactsAppend(b: seq<Message>, m: Message)
    ensures FactsOf(b + [m]) == FactsOf(b) + FactOf(m)
  {
    assert (b + [m])[..|b|] == b;
  }

  function FactOf(m: Message): seq<int> {
    match m
    case Fact(f) => [f]
    case Flush(_) => []
  }

  lemma {:induction false} FactsPop(b: seq<Message>)
    requires b != []
    ensures FactsOf(b) == FactOf(b[0]) + FactsOf(b[1..])
    decreases |b|
  {
    var n := |b| - 1;
    if n == 0 {
      assert b[..0] == [] && b[1..] == [];
    } else {
      FactsPop(b[..n]);
      FactsPopStep(b);
    }
  }

  lemma FactsPush(b: seq<Message>)
    requires b != []
    ensures FactsOf(b) == FactsOf(b[..|b| - 1]) + FactOf(b[|b| - 1])
  {}

  lemma FactsPopStep(b: seq<Message>)
    requires |b| > 1 && FactsOf(b[..|b| - 1]) == FactOf(b[0]) + FactsOf(b[..|b| - 1][1..])
    ensures FactsOf(b) == FactOf(b[0]) + FactsOf(b[1..])
  {
    var n := |b| - 1;
    assert b[..n][1..] == b[1..][..n - 1] && b[1..][n - 1] == b[n];
    FactsPush(b);
    FactsPush(b[1..]);
    hide FactsOf, FactOf;
    Regroup(FactOf(b[0]), FactsOf(b[1..][..n - 1]), FactOf(b[n]));
  }

  lemma Regroup(a: seq<int>, b: seq<int>, c: seq<int>)
    ensures a + b + c == a + (b + c)
  {}

  lemma WithoutMultiset<T>(s: seq<T>, i: nat)
    requires i < |s|
    ensures multiset(s) == multiset(Without(s, i)) + multiset{s[i]}
  {
    assert s == s[..i] + [s[i]] + s[i + 1..];
  }

  lemma KeepsOrder(s: State, step: Step)
    requires Ordered(s) && Enabled(s, step)
    ensures Ordered(Next(s, step))
  {
    hide FactsOf, Without, IndexOf;
    var done, flying, queued := s.processed, InFlight(s.worker), FactsOf(s.buffer);
    match step
    case PutFact(i) =>
      FactsAppend(s.buffer, Fact(s.pending[i]));
      Regroup(done + flying, queued, [s.pending[i]]);
    case PutFlush(i) =>
      FactsAppend(s.buffer, Flush(s.reserved[i]));
      assert queued + [] == queued;
    case Receive =>
      FactsPop(s.buffer);
      assert done + [] + queued == done + FactOf(s.buffer[0]) + FactsOf(s.buffer[1..]);
    case Sent =>
      assert done + flying + [] == done + flying;
    case _ =>
  }

  lemma KeepsBounded(s: State, step: Step)
    requires Bounded(s) && Enabled(s, step)
    ensures Bounded(Next(s, step))
  {}

  lemma KeepsConserved(s: State, step: Step)
    requires Conserved(s) && Enabled(s, step)
    ensures Conserved(Next(s, step))
  {
    hide Without, IndexOf;
    if step.PutFact? { WithoutMultiset(s.pending, step.at); }
  }

  lemma ReleaseFlushes(s: State)
    requires forall i :: 0 <= i < |s.reserved| ==> s.reserved[i] in s.requested
    requires forall i :: 0 <= i < |s.waiting| ==> s.waiting[i] in s.requested
    ensures var t := Release(s);
            && (forall i :: 0 <= i < |t.reserved| ==> t.reserved[i] in s.requested)
            && (forall i :: 0 <= i < |t.waiting| ==> t.waiting[i] in s.requested)
  {}

  lemma KeepsFlushesPut(s: State, step: Step)
    requires Ordered(s) && FlushesBehind(s) && Enabled(s, step) && (step.PutFact? || step.PutFlush?)
    ensures FlushesBehind(Next(s, step))
  {
    var t := Next(s, step);
    forall k | 0 <= k < |t.buffer| && t.buffer[k].Flush?
      ensures t.buffer[k].id in t.requested && t.requested[t.buffer[k].id] <= Ahead(t, k)
    {
      assert t.buffer[..k] == s.buffer[..k];
      if k == |s.buffer| {
        assert s.buffer[..k] == s.buffer;
        assert |s.accepted| == Ahead(s, k);
      }
    }
  }

  lemma KeepsFlushesReceive(s: State)
    requires FlushesBehind(s) && Enabled(s, Receive)
    ensures FlushesBehind(Next(s, Receive))
  {
    hide FactsOf, Ahead;
    var t := Next(s, Receive);
    ReleaseFlushes(s.(buffer := s.buffer[1..]));
    assert t.buffer == s.buffer[1..] && t.requested == s.requested && t.accepted == s.accepted;
    forall k | 0 <= k < |t.buffer| && t.buffer[k].Flush?
      ensures t.buffer[k].id in t.requested && t.requested[t.buffer[k].id] <= Ahead(t, k)
    {
      assert t.buffer[k] == s.buffer[k + 1];
      ReceiveAhead(s, k);
    }
  }

  /** The message that is taken is still ahead of those behind it. */
  lemma ReceiveAhead(s: State, k: nat)
    requires Enabled(s, Receive) && k < |s.buffer| - 1
    ensures Next(s, Receive).buffer == s.buffer[1..] && Ahead(Next(s, Receive), k) == Ahead(s, k + 1)
  {
    var a := s.buffer[..k + 1];
    FactsPop(a);
    hide FactsOf;
    assert a[1..] == s.buffer[1..][..k] && a[0] == s.buffer[0];
  }

  /** Steps that do not touch the buffer, nor the facts in front of it. */
  lemma KeepsFlushesElsewhere(s: State, step: Step)
    requires Ordered(s) && FlushesBehind(s) && Enabled(s, step)
    requires !step.PutFact? && !step.PutFlush? && !step.Receive?
    ensures FlushesBehind(Next(s, step))
  {
    hide FactsOf, IndexOf;
    var t := Next(s, step);
    assert t.buffer == s.buffer;
    forall k | 0 <= k < |s.buffer| && s.buffer[k].Flush?
      ensures Ahead(t, k) == Ahead(s, k) && s.buffer[k].id in s.requested
      ensures t.requested[s.buffer[k].id] == s.requested[s.buffer[k].id]
    {}
  }

  lemma KeepsFlushes(s: State, step: Step)
    requires Ordered(s) && FlushesBehind(s) && Enabled(s, step)
    ensures FlushesBehind(Next(s, step))
  {
    hide Ordered, FlushesBehind, Next;
    match step
    case PutFact(_) => KeepsFlushesPut(s, step);
    case PutFlush(_) => KeepsFlushesPut(s, step);
    case Receive => KeepsFlushesReceive(s);
    case _ => KeepsFlushesElsewhere(s, step);
  }

  lemma KeepsAcks(s: State, step: Step)
    requires AcksHold(s) && FlushesBehind(s) && Enabled(s, step)
    ensures AcksHold(Next(s, step))
  {
    if step.Receive? && s.buffer[0].Flush? {
      assert s.buffer[..0] == [];
      assert Ahead(s, 0) == |s.processed|;
    }
  }

  lemma {:induction false} RunsKeepInv(steps: seq<Step>)
    ensures Inv(After(steps))
    decreases |steps|
  {
    if steps != [] {
      var before, step := steps[..|steps| - 1], steps[|steps| - 1];
      var s := After(before);
      RunsKeepInv(before);
      if Enabled(s, step) {
        KeepsOrder(s, step);
        KeepsBounded(s, step);
        KeepsConserved(s, step);
        KeepsFlushes(s, step);
        KeepsAcks(s, step);
      }
    }
  }

  // ----- what follows for runs -----

  /** `t` comes after `s`: facts are accepted for good, and the count noted at a request
      does not change. */
  ghost predicate Later(s: State, t: State) {
    && s.accepted <= t.accepted
    && forall id :: id in s.requested ==> id in t.requested && t.requested[id] == s.requested[id]
  }

  lemma StepIsLater(s: State, step: Step)
    ensures Later(s, Do(s, step))
  {}

  lemma {:induction false} History(steps: seq<Step>, i: nat)
    requires i <= |steps|
    ensures Later(After(steps[..i]), After(steps))
    decreases |steps|
  {
    hide Do;
    if i == |steps| {
      assert steps[..i] == steps;
    } else {
      History(steps[..|steps| - 1], i);
      assert steps[..|steps| - 1][..i] == steps[..i];
      StepIsLater(After(steps[..|steps| - 1]), steps[|steps| - 1]);
    }
  }

  /** The queue delivers in order: what is processed, then what is in flight, then what is
      queued, is what was accepted, and nothing offered is lost unless it was dropped. */
  lemma InOrder(steps: seq<Step>)
    ensures var s := After(steps);
            && s.processed + InFlight(s.worker) + FactsOf(s.buffer) == s.accepted
            && multiset(s.offered) == multiset(s.accepted) + multiset(s.dropped) + multiset(s.pending)
            && |s.buffer| <= 256
  {
    RunsKeepInv(steps);
  }

  /** A fact is dropped exactly when every permit of the channel is in use. */
  lemma DropsWhenFull(steps: seq<Step>, f: int)
    ensures var s := After(steps);
            var t := After(steps + [TrySend(f)]);
            && (t.dropped == s.dropped + [f] <==> |s.buffer| + |s.pending| + |s.reserved| == 256)
            && (t.dropped == s.dropped <==> t.pending == s.pending + [f])
  {
    RunsKeepInv(steps);
    AfterSnoc(steps, TrySend(f));
  }

  lemma RequestNoted(steps: seq<Step>, i: nat, id: nat)
    requires i < |steps| && steps[i] == RequestFlush(id) && id !in After(steps[..i]).requested
    ensures id in After(steps).requested && After(steps).requested[id] == |After(steps[..i]).accepted|
  {
    assert steps[..i + 1] == steps[..i] + [RequestFlush(id)];
    AfterSnoc(steps[..i], RequestFlush(id));
    History(steps, i + 1);
  }

  lemma ShorterPrefix(a: seq<int>, p: seq<int>, rest: seq<int>, whole: seq<int>)
    requires whole == p + rest && a <= whole && |a| <= |p|
    ensures a <= p
  {}

  /** Flush is a barrier: once it is acknowledged, every fact that was accepted before the
      flush was requested has been ingested and its events sent, in order. */
  lemma FlushBarrier(steps: seq<Step>, i: nat, id: nat)
    requires i < |steps| && steps[i] == RequestFlush(id) && id !in After(steps[..i]).requested
    requires id in After(steps).acked
    ensures After(steps[..i]).accepted <= After(steps).processed
  {
    hide After, FactsOf;
    var s := After(steps);
    RequestNoted(steps, i, id);
    History(steps, i);
    RunsKeepInv(steps);
    Regroup(s.processed, InFlight(s.worker), FactsOf(s.buffer));
    ShorterPrefix(After(steps[..i]).accepted, s.processed, InFlight(s.worker) + FactsOf(s.buffer), s.accepted);
  }

  // ----- the worker gets everywhere -----

  predicate WorkerStep(step: Step) { step.Receive? || step.Ingested? || step.Sent? }

  /** What is left for the worker to do. */
  function Work(s: State): nat {
    3 * |s.buffer| + (match s.worker case Idle => 0 case Ingesting(_) => 2 case Sending(_) => 1)
  }

  function WorkerNext(s: State): Step {
    match s.worker
    case Idle => Receive
    case Ingesting(_) => Ingested
    case Sending(_) => Sent
  }

  lemma WorkerAdvances(s: State)
    requires !s.worker.Idle? || s.buffer != []
    ensures Enabled(s, WorkerNext(s))
    ensures var t := Next(s, WorkerNext(s));
            && Work(t) < Work(s) && t.accepted == s.accepted && s.acked <= t.acked && t.abandoned == s.abandoned
            && forall id :: Flush(id) in s.buffer && id !in s.abandoned ==> Flush(id) in t.buffer || id in t.acked
  {
    if s.worker.Idle? {
      assert s.buffer == [s.buffer[0]] + s.buffer[1..];
    }
  }

  /** Left to itself the worker empties the queue, processes every accepted fact, and
      acknowledges every queued flush whose caller has not given up. */
  lemma {:induction false} WorkerDrains(steps: seq<Step>) returns (more: seq<Step>)
    ensures forall j :: 0 <= j < |more| ==> WorkerStep(more[j])
    ensures var s, t := After(steps), After(steps + more);
            && t.buffer == [] && t.worker.Idle? && t.accepted == s.accepted && t.processed == s.accepted
            && s.acked <= t.acked && t.abandoned == s.abandoned
            && forall id :: Flush(id) in s.buffer && id !in s.abandoned ==> id in t.acked
    decreases Work(After(steps))
  {
    hide After, Next, Work;
    var s := After(steps);
    if s.worker.Idle? && s.buffer == [] {
      more := [];
      assert steps + [] == steps;
      RunsKeepInv(steps);
    } else {
      var step := WorkerNext(s);
      WorkerAdvances(s);
      AfterSnoc(steps, step);
      var rest := WorkerDrains(steps + [step]);
      more := [step] + rest;
      assert steps + more == steps + [step] + rest;
    }
  }

  // ----- nobody is forgotten -----

  /** A requested flush waits somewhere, is answered, or was given up. */
  ghost predicate Tracked(s: State) {
    forall id :: id in s.requested ==>
      id in s.abandoned || id in s.acked || id in s.waiting || id in s.reserved || Flush(id) in s.buffer
  }

  lemma InWithout<T>(s: seq<T>, i: nat, x: T)
    requires i < |s| && x in s && x != s[i]
    ensures x in Without(s, i)
  {
    assert s == s[..i] + [s[i]] + s[i + 1..];
  }

  lemma ReleaseTracks(s: State, id: nat)
    requires id in s.waiting || id in s.reserved
    ensures id in Release(s).waiting || id in Release(s).reserved
  {
    if s.waiting != [] { assert s.waiting == [s.waiting[0]] + s.waiting[1..]; }
  }

  lemma TimeoutKeeps(s: State, id: nat)
    requires Enabled(s, Timeout(id))
    ensures var t := Next(s, Timeout(id)); t.requested == s.requested && id in t.abandoned
  {}

  lemma TracksOne(s: State, step: Step, id: nat)
    requires Tracked(s) && Enabled(s, step) && id in Next(s, step).requested
    ensures var t := Next(s, step);
            id in t.abandoned || id in t.acked || id in t.waiting || id in t.reserved || Flush(id) in t.buffer
  {
    hide Without, IndexOf, Release;
    match step {
      case PutFlush(i) =>
        if id in s.reserved && id != s.reserved[i] { InWithout(s.reserved, i, id); }
      case Timeout(other) =>
        TimeoutKeeps(s, other);
        if id != other { TracksOthers(s, other, id); }
      case Receive =>
        assert s.buffer == [s.buffer[0]] + s.buffer[1..];
        var r := s.(buffer := s.buffer[1..]);
        if id in s.waiting || id in s.reserved { ReleaseTracks(r, id); }
        ReleaseKeeps(r);
      case _ =>
    }
  }

  lemma ReleaseKeeps(s: State)
    ensures var t := Release(s);
            t.buffer == s.buffer && t.abandoned == s.abandoned && t.acked == s.acked && t.requested == s.requested
  {}

  lemma TracksOthers(s: State, other: nat, id: nat)
    requires Tracked(s) && Enabled(s, Timeout(other)) && id in s.requested && id != other
    ensures var t := Next(s, Timeout(other));
            id in t.abandoned || id in t.acked || id in t.waiting || id in t.reserved || Flush(id) in t.buffer
  {
    hide Release;
    if other in s.waiting {
      if id in s.waiting { InWithout(s.waiting, IndexOf(s.waiting, other), id); }
    } else if other in s.reserved {
      var i := IndexOf(s.reserved, other);
      var r := s.(abandoned := s.abandoned + {other}, reserved := Without(s.reserved, i));
      if id in s.reserved { InWithout(s.reserved, i, id); }
      if id in s.waiting || id in s.reserved { ReleaseTracks(r, id); }
      ReleaseKeeps(r);
    }
  }

  lemma {:induction false} RunsTrack(steps: seq<Step>)
    ensures Tracked(After(steps))
    decreases |steps|
  {
    hide Next;
    if steps != [] {
      var before, step := steps[..|steps| - 1], steps[|steps| - 1];
      var s := After(before);
      RunsTrack(before);
      if Enabled(s, step) {
        forall id | id in Next(s, step).requested
          ensures var t := Next(s, step);
                  id in t.abandoned || id in t.acked || id in t.waiting || id in t.reserved || Flush(id) in t.buffer
        {
          TracksOne(s, step, id);
        }
      }
    }
  }

  /** What is left to do for senders and worker together. */
  function Left(s: State): nat { 5 * |s.waiting| + 4 * (|s.pending| + |s.reserved|) + Work(s) }

  function ServeNext(s: State): Step {
    if s.pending != [] then PutFact(0) else if s.reserved != [] then PutFlush(0) else WorkerNext(s)
  }

  lemma ServeAdvances(s: State)
    requires s.pending != [] || s.reserved != [] || s.buffer != [] || !s.worker.Idle?
    ensures Enabled(s, ServeNext(s))
    ensures var t := Next(s, ServeNext(s));
            && Left(t) < Left(s) && t.offered == s.offered && t.dropped == s.dropped
            && t.requested == s.requested && t.abandoned == s.abandoned
  {}

  /** From every reachable state all parties can finish: every fact that was not dropped is
      accepted and processed, and every flush that was not given up is acknowledged. */
  lemma {:induction false} AllServed(steps: seq<Step>) returns (more: seq<Step>)
    ensures forall j :: 0 <= j < |more| ==> more[j].PutFact? || more[j].PutFlush? || WorkerStep(more[j])
    ensures var s, t := After(steps), After(steps + more);
            && t.processed == t.accepted && t.pending == [] && t.dropped == s.dropped
            && multiset(t.accepted) + multiset(s.dropped) == multiset(s.offered)
            && forall id :: id in s.requested ==> id in s.abandoned || id in t.acked
    decreases Left(After(steps))
  {
    hide After, Next, Work, Enabled;
    var s := After(steps);
    RunsKeepInv(steps);
    if s.pending == [] && s.reserved == [] && s.buffer == [] && s.worker.Idle? {
      more := [];
      assert steps + [] == steps;
      RunsTrack(steps);
      assert s.processed + [] + [] == s.processed;
    } else {
      var step := ServeNext(s);
      ServeAdvances(s);
      AfterSnoc(steps, step);
      var rest := AllServed(steps + [step]);
      more := [step] + rest;
      assert steps + more == steps + [step] + rest;
    }
  }
}
