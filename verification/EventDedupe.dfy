/** The sets of keys that suppress repeated app and plugin events, over whole runs of the
    two checks of the analytics client. */
module EventDedupe {
  import opened Wrappers

  const MAX_KEYS: nat := 4096

  type Key = (string, string)

  function Cleared(s: set<Key>): set<Key> { if |s| >= MAX_KEYS then {} else s }

  /** What one call does to the set of emitted keys, and whether the event goes out. A call
      for an app without a connector does not look at the set; a call for a plugin without
      an id may still clear it. */
  function AppStep(s: set<Key>, key: Option<Key>): (set<Key>, bool) {
    match key
    case None => (s, true)
    case Some(k) => (Cleared(s) + {k}, k !in Cleared(s))
  }

  function PluginStep(s: set<Key>, key: Option<Key>): (set<Key>, bool) {
    match key
    case None => (Cleared(s), true)
    case Some(k) => (Cleared(s) + {k}, k !in Cleared(s))
  }

  /** The part of the queue object the two checks share between its clones. */
  class AnalyticsEventsQueue {
    var appUsedEmittedKeys: set<Key>
    var pluginUsedEmittedKeys: set<Key>

    constructor ()
      ensures appUsedEmittedKeys == {} && pluginUsedEmittedKeys == {}
    {
      appUsedEmittedKeys := {};
      pluginUsedEmittedKeys := {};
    }

    method ShouldEnqueueAppUsed(turnId: string, connectorId: Option<string>) returns (send: bool)
      modifies this`appUsedEmittedKeys
      ensures var key := if connectorId.None? then None else Some((turnId, connectorId.value));
              (appUsedEmittedKeys, send) == AppStep(old(appUsedEmittedKeys), key)
      ensures var before := if |old(appUsedEmittedKeys)| >= 4096 then {} else old(appUsedEmittedKeys);
              match connectorId
              case None => send && appUsedEmittedKeys == old(appUsedEmittedKeys)
              case Some(id) => send == ((turnId, id) !in before) && appUsedEmittedKeys == before + {(turnId, id)}
    {
      if connectorId.None? {
        return true;
      }
      if |appUsedEmittedKeys| >= MAX_KEYS {
        appUsedEmittedKeys := {};
      }
      var key := (turnId, connectorId.value);
      send := key !in appUsedEmittedKeys;
      appUsedEmittedKeys := appUsedEmittedKeys + {key};
    }

    method ShouldEnqueuePluginUsed(turnId: string, pluginId: Option<string>, remotePluginId: Option<string>)
      returns (send: bool)
      modifies this`pluginUsedEmittedKeys
      ensures var id := if pluginId.Some? then pluginId else remotePluginId;
              var key := if id.None? then None else Some((turnId, id.value));
              (pluginUsedEmittedKeys, send) == PluginStep(old(pluginUsedEmittedKeys), key)
      ensures var before := if |old(pluginUsedEmittedKeys)| >= 4096 then {} else old(pluginUsedEmittedKeys);
              match (pluginId, remotePluginId)
              case (None, None) => send && pluginUsedEmittedKeys == before
              case (Some(id), _) => send == ((turnId, id) !in before) && pluginUsedEmittedKeys == before + {(turnId, id)}
              case (None, Some(id)) => send == ((turnId, id) !in before) && pluginUsedEmittedKeys == before + {(turnId, id)}
    {
      if |pluginUsedEmittedKeys| >= MAX_KEYS {
        pluginUsedEmittedKeys := {};
      }
      var id := if pluginId.Some? then pluginId else remotePluginId;
      if id.None? {
        return true;
      }
      var key := (turnId, id.value);
      send := key !in pluginUsedEmittedKeys;
      pluginUsedEmittedKeys := pluginUsedEmittedKeys + {key};
    }
  }

  // ----- runs of calls -----

  datatype Check = App | Plugin

  function StepOf(c: Check, s: set<Key>, key: Option<Key>): (set<Key>, bool) {
    if c == App then AppStep(s, key) else PluginStep(s, key)
  }

  /** The set after a run of calls of one check. */
  function SetAfter(c: Check, calls: seq<Option<Key>>): set<Key> {
    var n := |calls| - 1;
    if calls == [] then {} else StepOf(c, SetAfter(c, calls[..n]), calls[n]).0
  }

  /** The keyed calls that were let through, cut into epochs at the clears: the completed
      epochs and the running one. */
  function Epochs(c: Check, calls: seq<Option<Key>>): (seq<seq<Key>>, seq<Key>) {
    var n := |calls| - 1;
    if calls == [] then ([], [])
    else
      var (done, current) := Epochs(c, calls[..n]);
      var s := SetAfter(c, calls[..n]);
      if c == App && calls[n].None? then (done, current)
      else
        var (done', current') := if |s| >= MAX_KEYS then (done + [current], []) else (done, current);
        if calls[n].Some? && StepOf(c, s, calls[n]).1 then (done', current' + [calls[n].value])
        else (done', current')
  }

  /** The keys let through by a run, in order. */
  function Admitted(c: Check, calls: seq<Option<Key>>): seq<Key> {
    var n := |calls| - 1;
    if calls == [] then []
    else
      var before := Admitted(c, calls[..n]);
      if calls[n].Some? && StepOf(c, SetAfter(c, calls[..n]), calls[n]).1 then before + [calls[n].value] else before
  }

  function Concat(epochs: seq<seq<Key>>): seq<Key> {
    if epochs == [] then [] else Concat(epochs[..|epochs| - 1]) + epochs[|epochs| - 1]
  }

  ghost predicate Distinct(keys: seq<Key>) { forall i, j :: 0 <= i < j < |keys| ==> keys[i] != keys[j] }

  ghost predicate Holds(s: set<Key>, keys: seq<Key>) {
    Distinct(keys) && |s| == |keys| && forall k :: k in s <==> k in keys
  }

  lemma HoldsMore(s: set<Key>, keys: seq<Key>, k: Key)
    requires Holds(s, keys) && k !in s
    ensures Holds(s + {k}, keys + [k])
  {}

  /** What the epochs of a run have to do with the set and the admitted keys. */
  ghost predicate EpochsHold(s: set<Key>, done: seq<seq<Key>>, current: seq<Key>, admitted: seq<Key>) {
    && |s| <= MAX_KEYS && Holds(s, current) && Concat(done) + current == admitted
    && forall i :: 0 <= i < |done| ==> Distinct(done[i]) && |done[i]| == 4096
  }

  lemma ConcatAppend(epochs: seq<seq<Key>>, e: seq<Key>)
    ensures Concat(epochs + [e]) == Concat(epochs) + e
  {
    assert (epochs + [e])[..|epochs|] == epochs;
  }

  lemma EpochsClear(s: set<Key>, done: seq<seq<Key>>, current: seq<Key>, admitted: seq<Key>)
    requires EpochsHold(s, done, current, admitted)
    ensures if |s| >= MAX_KEYS then EpochsHold(Cleared(s), done + [current], [], admitted) && Cleared(s) == {}
            else EpochsHold(Cleared(s), done, current, admitted) && |Cleared(s)| < MAX_KEYS
  {
    if |s| >= MAX_KEYS {
      ConcatAppend(done, current);
      assert Concat(done + [current]) + [] == admitted;
    }
  }

  lemma EpochsAdmit(s: set<Key>, done: seq<seq<Key>>, current: seq<Key>, admitted: seq<Key>, k: Key)
    requires EpochsHold(s, done, current, admitted) && |s| < MAX_KEYS
    ensures if k in s then EpochsHold(s + {k}, done, current, admitted)
            else EpochsHold(s + {k}, done, current + [k], admitted + [k])
  {
    if k in s {
      assert s + {k} == s;
    } else {
      HoldsMore(s, current, k);
      assert Concat(done) + (current + [k]) == Concat(done) + current + [k];
    }
  }

  lemma {:induction false} RunEpochs(c: Check, calls: seq<Option<Key>>)
    ensures var (done, current) := Epochs(c, calls);
            EpochsHold(SetAfter(c, calls), done, current, Admitted(c, calls))
    decreases |calls|
  {
    hide EpochsHold;
    if calls == [] {
      EpochsStart();
    } else {
      var before, call := calls[..|calls| - 1], calls[|calls| - 1];
      RunEpochs(c, before);
      var s, admitted := SetAfter(c, before), Admitted(c, before);
      var (done, current) := Epochs(c, before);
      if c == Plugin || call.Some? {
        EpochsClear(s, done, current, admitted);
        if call.Some? {
          if |s| >= MAX_KEYS {
            EpochsAdmit(Cleared(s), done + [current], [], admitted, call.value);
          } else {
            EpochsAdmit(Cleared(s), done, current, admitted, call.value);
          }
        }
      }
    }
  }

  lemma EpochsStart()
    ensures EpochsHold({}, [], [], [])
  {}

  /** Over every run the set stays within its bound and holds exactly the running epoch's
      keys; the admitted keys are the epochs one after the other; within an epoch no key is
      admitted twice, and every completed epoch has exactly as many keys as the bound. */
  lemma EpochsOfRun(c: Check, calls: seq<Option<Key>>)
    ensures var (done, current) := Epochs(c, calls);
            && |SetAfter(c, calls)| <= 4096
            && Holds(SetAfter(c, calls), current)
            && Concat(done) + current == Admitted(c, calls)
            && forall i :: 0 <= i < |done| ==> Distinct(done[i]) && |done[i]| == 4096
  {
    RunEpochs(c, calls);
  }

  /** A keyed event goes out exactly when its key has not gone out in the running epoch. */
  lemma SentOncePerEpoch(c: Check, calls: seq<Option<Key>>, k: Key)
    ensures var current := if |SetAfter(c, calls)| >= MAX_KEYS then [] else Epochs(c, calls).1;
            StepOf(c, SetAfter(c, calls), Some(k)).1 <==> k !in current
  {
    EpochsOfRun(c, calls);
  }
}
