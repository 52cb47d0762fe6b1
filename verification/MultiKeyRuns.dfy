/** What whole runs of key-management requests do to the channel status, on any stored row. */
module MultiKeyRuns {
  import opened Text
  import opened Options
  import opened KeyList
  import opened MultiKeyRow

  /** The old indices a request leaves, if it deletes anything and is not refused. */
  function Survivors(row: Row, a: Action, json: JsonArray): (kept: Option<seq<nat>>)
    ensures kept.Some? ==> forall k :: 0 <= k < |kept.value| ==> 0 <= kept.value[k] < |GetKeys(row.key, json)|
  {
    var n := |GetKeys(row.key, json)|;
    match a
    case DeleteKey(i) =>
      if 0 <= i < row.size && Kept(n, {i}) != [] then Some(Kept(n, {i})) else None
    case DeleteDisabledKeys =>
      var kept := Kept(n, AutoDisabled(row.statuses, n));
      if |kept| == n then None else Some(kept)
    case _ => None
  }

  /** The deletions that break the coupling. Either the rewritten text is empty and so not written,
      which brings the old keys back; or no key was enabled and the rewritten text reads as more
      keys than it was made of, the last of which have no status. */
  predicate BreaksCoupling(row: Row, a: Action, json: JsonArray) {
    var keys, kept := GetKeys(row.key, json), Survivors(row, a, json);
    && kept.Some?
    && var text := Join(Pick(keys, kept.value), '\n');
       if text == "" then HasEnabledKey(row, json) || |kept.value| < |keys|
       else !HasEnabledKey(row, json) && |GetKeys(text, json)| > |kept.value|
  }

  /** Writing a row under a text that is stored keeps every key's status. */
  lemma WrittenStatuses(stored: Row, edited: Row, json: JsonArray)
    requires edited.key != "" || stored.key == ""
    ensures var after := Persist(stored, edited, json);
            && after.key == edited.key && after.status == edited.status && after.statusReason == edited.statusReason
            && (HasEnabledKey(after, json) <==> HasEnabledKey(edited, json))
  {
    var after := Persist(stored, edited, json);
    CountCoversKeys(edited.key, json);
    hide CountKeys; hide GetKeys;
    assert forall i :: 0 <= i < after.size ==> KeyStatus(after.statuses, i) == KeyStatus(edited.statuses, i);
  }

  /** An edit that disables couples exactly when it enables no key of a channel that had none. */
  lemma DisablingCouplesExactly(stored: Row, edited: Row, json: JsonArray, now: int)
    requires Coupled(stored, json) && edited.status == stored.status && edited.statusReason == stored.statusReason
    requires edited.key != "" || stored.key == ""
    ensures Coupled(Persist(stored, DisableIfUnavailable(edited, json, now), json), json)
       <==> (HasEnabledKey(edited, json) ==> HasEnabledKey(stored, json))
  {
    hide GetKeys; hide CountKeys; hide Persist;
    var d := DisableIfUnavailable(edited, json, now);
    assert HasEnabledKey(d, json) <==> HasEnabledKey(edited, json);
    WrittenStatuses(stored, d, json);
  }

  lemma RestoringCouples(stored: Row, edited: Row, json: JsonArray, now: int)
    requires Coupled(stored, json) && edited.status == stored.status && edited.statusReason == stored.statusReason
    requires edited.key == stored.key && (HasEnabledKey(stored, json) ==> HasEnabledKey(edited, json))
    ensures Coupled(Persist(stored, RestoreIfAvailable(edited, json, now), json), json)
  {
    hide GetKeys; hide CountKeys; hide Persist;
    var r := RestoreIfAvailable(edited, json, now);
    assert HasEnabledKey(r, json) <==> HasEnabledKey(edited, json);
    WrittenStatuses(stored, r, json);
  }

  lemma DisableKeyCouples(row: Row, i: int, json: JsonArray, now: int)
    requires Coupled(row, json)
    ensures Coupled(Apply(row, DisableKey(i), json, now), json)
  {
    hide CountKeys; hide GetKeys; hide Persist; hide DisableIfUnavailable;
    if 0 <= i < row.size {
      var edited := row.(statuses := row.statuses[i := MANUALLY_DISABLED]);
      assert forall j :: KeyStatus(edited.statuses, j) == ENABLED ==> KeyStatus(row.statuses, j) == ENABLED;
      DisablingCouplesExactly(row, edited, json, now);
    }
  }

  lemma DisableAllCouples(row: Row, json: JsonArray, now: int)
    requires Coupled(row, json)
    ensures Coupled(Apply(row, DisableAllKeys, json, now), json)
  {
    hide CountKeys; hide GetKeys; hide Persist; hide DisableIfUnavailable;
    if !(forall i :: 0 <= i < row.size ==> KeyStatus(row.statuses, i) != ENABLED) {
      var edited := DisableEverything(row);
      assert forall j :: KeyStatus(edited.statuses, j) == ENABLED ==> KeyStatus(row.statuses, j) == ENABLED;
      DisablingCouplesExactly(row, edited, json, now);
    }
  }

  lemma EnableKeyCouples(row: Row, i: int, json: JsonArray, now: int)
    requires Coupled(row, json)
    ensures Coupled(Apply(row, EnableKey(i), json, now), json)
  {
    hide CountKeys; hide GetKeys; hide Persist; hide RestoreIfAvailable;
    if 0 <= i < row.size {
      var edited := row.(statuses := row.statuses - {i}, times := row.times - {i}, reasons := row.reasons - {i});
      assert forall j :: KeyStatus(row.statuses, j) == ENABLED ==> KeyStatus(edited.statuses, j) == ENABLED;
      RestoringCouples(row, edited, json, now);
    }
  }

  lemma EnableAllCouples(row: Row, json: JsonArray, now: int)
    requires Coupled(row, json)
    ensures Coupled(Apply(row, EnableAllKeys, json, now), json)
  {
    hide CountKeys; hide GetKeys; hide Persist; hide RestoreIfAvailable;
    var edited := row.(statuses := map[], times := map[], reasons := map[]);
    assert forall j :: KeyStatus(edited.statuses, j) == ENABLED;
    if HasEnabledKey(row, json) {
      var i :| 0 <= i < |GetKeys(row.key, json)| && KeyStatus(row.statuses, i) == ENABLED;
      assert KeyStatus(edited.statuses, i) == ENABLED;
    }
    RestoringCouples(row, edited, json, now);
  }

  /** A compaction finds an enabled key where there was none exactly when its text reads as more
      keys than it kept. */
  lemma CompactedEnables(row: Row, json: JsonArray, kept: seq<nat>, disabledOnly: bool)
    requires forall k :: 0 <= k < |kept| ==> 0 <= kept[k] < |GetKeys(row.key, json)|
    ensures var c := Compact(row, json, kept, disabledOnly);
            ((HasEnabledKey(c, json) ==> HasEnabledKey(row, json))
             <==> (HasEnabledKey(row, json) || |GetKeys(c.key, json)| <= |kept|))
  {
    hide GetKeys; hide Join;
    var c := Compact(row, json, kept, disabledOnly);
    if HasEnabledKey(c, json) && |GetKeys(c.key, json)| <= |kept| {
      var k :| 0 <= k < |kept| && KeyStatus(c.statuses, k) == ENABLED;
      ReindexedStatus(row.statuses, kept, k);
      assert KeyStatus(row.statuses, kept[k]) == ENABLED;
    }
    if |GetKeys(c.key, json)| > |kept| {
      assert KeyStatus(c.statuses, |kept|) == ENABLED;
    }
  }

  /** An empty text is not written: the statuses of the survivors now stand beside all keys. */
  lemma EmptyTextUncouples(row: Row, json: JsonArray, kept: seq<nat>, disabledOnly: bool, now: int)
    requires Coupled(row, json) && |kept| <= |GetKeys(row.key, json)|
    requires forall k :: 0 <= k < |kept| ==> 0 <= kept[k] < |GetKeys(row.key, json)|
    requires |kept| == |GetKeys(row.key, json)| ==> forall k :: 0 <= k < |kept| ==> kept[k] == k
    requires Join(Pick(GetKeys(row.key, json), kept), '\n') == ""
    ensures var after := Persist(row, DisableIfUnavailable(Compact(row, json, kept, disabledOnly), json, now), json);
            Coupled(after, json) <==> !(HasEnabledKey(row, json) || |kept| < |GetKeys(row.key, json)|)
  {
    var c := Compact(row, json, kept, disabledOnly);
    assert !HasEnabledKey(c, json);
    var d := DisableIfUnavailable(c, json, now);
    assert d.status == MANUALLY_DISABLED && d.statusReason == ALL_KEYS_DISABLED;
    CountCoversKeys(row.key, json);
    WrittenKey(row, c, json, now);
    var after := Persist(row, d, json);
    hide GetKeys; hide CountKeys; hide Join;
    forall i | 0 <= i < |GetKeys(row.key, json)|
      ensures KeyStatus(after.statuses, i) == if i < |kept| then KeyStatus(row.statuses, kept[i]) else ENABLED
    {
      if i < |kept| {
        ReindexedStatus(row.statuses, kept, i);
      }
    }
    if |kept| < |GetKeys(row.key, json)| {
      assert KeyStatus(after.statuses, |kept|) == ENABLED;
    } else {
      assert forall i :: 0 <= i < |kept| ==> KeyStatus(after.statuses, i) == KeyStatus(row.statuses, i);
    }
  }

  lemma DeletionCouplesExactly(row: Row, json: JsonArray, kept: seq<nat>, disabledOnly: bool, now: int)
    requires Coupled(row, json) && |kept| <= |GetKeys(row.key, json)|
    requires forall k :: 0 <= k < |kept| ==> 0 <= kept[k] < |GetKeys(row.key, json)|
    requires |kept| == |GetKeys(row.key, json)| ==> forall k :: 0 <= k < |kept| ==> kept[k] == k
    ensures var after := Persist(row, DisableIfUnavailable(Compact(row, json, kept, disabledOnly), json, now), json);
            var text := Join(Pick(GetKeys(row.key, json), kept), '\n');
            Coupled(after, json) <==>
              !(if text == "" then HasEnabledKey(row, json) || |kept| < |GetKeys(row.key, json)|
                else !HasEnabledKey(row, json) && |GetKeys(text, json)| > |kept|)
  {
    hide Coupled; hide GetKeys; hide CountKeys; hide Join; hide HasEnabledKey; hide Persist; hide DisableIfUnavailable;
    var text := Join(Pick(GetKeys(row.key, json), kept), '\n');
    if text == "" {
      EmptyTextUncouples(row, json, kept, disabledOnly, now);
    } else {
      CompactedEnables(row, json, kept, disabledOnly);
      DisablingCouplesExactly(row, Compact(row, json, kept, disabledOnly), json, now);
    }
  }

  lemma DeleteKeyCouplesExactly(row: Row, i: int, json: JsonArray, now: int)
    requires Coupled(row, json)
    ensures Coupled(Apply(row, DeleteKey(i), json, now), json) <==> !BreaksCoupling(row, DeleteKey(i), json)
  {
    hide Coupled; hide GetKeys; hide CountKeys; hide Join; hide HasEnabledKey; hide Persist; hide DisableIfUnavailable; hide Compact;
    var n := |GetKeys(row.key, json)|;
    if 0 <= i < row.size && Kept(n, {i}) != [] {
      AllButOne(n, i);
      DeletionCouplesExactly(row, json, Kept(n, {i}), false, now);
    }
  }

  lemma DeleteDisabledCouplesExactly(row: Row, json: JsonArray, now: int)
    requires Coupled(row, json)
    ensures Coupled(Apply(row, DeleteDisabledKeys, json, now), json) <==> !BreaksCoupling(row, DeleteDisabledKeys, json)
  {
    hide Coupled; hide GetKeys; hide CountKeys; hide Join; hide HasEnabledKey; hide Persist; hide DisableIfUnavailable; hide Compact;
    var n := |GetKeys(row.key, json)|;
    var kept := Kept(n, AutoDisabled(row.statuses, n));
    KeptAll(n, AutoDisabled(row.statuses, n));
    if |kept| < n {
      DeletionCouplesExactly(row, json, kept, true, now);
    }
  }

  /** On any stored row, one request keeps "enabled iff some key is enabled", except exactly the
      deletions above. Disabling and enabling keys always keeps it. */
  lemma StepCouplesExactly(row: Row, a: Action, json: JsonArray, now: int)
    requires Coupled(row, json)
    ensures Coupled(Apply(row, a, json, now), json) <==> !BreaksCoupling(row, a, json)
  {
    hide Apply; hide Coupled;
    match a
    case DisableKey(i) => DisableKeyCouples(row, i, json, now);
    case EnableKey(i) => EnableKeyCouples(row, i, json, now);
    case EnableAllKeys => EnableAllCouples(row, json, now);
    case DisableAllKeys => DisableAllCouples(row, json, now);
    case DeleteKey(i) => DeleteKeyCouplesExactly(row, i, json, now);
    case DeleteDisabledKeys => DeleteDisabledCouplesExactly(row, json, now);
  }

  /** On plain keys the only breaking request is the one that deletes all of them at once. */
  lemma PlainBreaksExactly(row: Row, a: Action, json: JsonArray)
    requires Sound(row, json)
    ensures BreaksCoupling(row, a, json) <==> EmptiesTheList(row, a, json)
  {
    hide GetKeys; hide CountKeys; hide Join; hide Plain; hide HasEnabledKey; hide AutoDisabled;
    var keys, kept := GetKeys(row.key, json), Survivors(row, a, json);
    if a.DeleteDisabledKeys? {
      DeletesAllExactly(row, json);
      KeptAll(|keys|, AutoDisabled(row.statuses, |keys|));
    }
    if kept.Some? && kept.value != [] {
      PickedPlain(keys, kept.value);
      PlainReadsBack(Pick(keys, kept.value), json);
    }
    if kept.Some? && kept.value == [] {
      assert Join(Pick(keys, kept.value), '\n') == "" by { EmptyJoin(); assert Pick(keys, []) == []; }
    }
  }

  lemma EmptyJoin()
    ensures Join([], '\n') == ""
  {
  }

  lemma DeletesAllExactly(row: Row, json: JsonArray)
    ensures var n := |GetKeys(row.key, json)|;
            Kept(n, AutoDisabled(row.statuses, n)) == [] <==> EmptiesTheList(row, DeleteDisabledKeys, json)
  {
    hide GetKeys;
    var n := |GetKeys(row.key, json)|;
    var dropped := AutoDisabled(row.statuses, n);
    KeptExactly(n, dropped);
    if Kept(n, dropped) == [] {
      forall k | 0 <= k < n
        ensures KeyStatus(row.statuses, k) == AUTO_DISABLED
      {
        assert k !in Kept(n, dropped);
      }
    } else {
      assert KeyStatus(row.statuses, Kept(n, dropped)[0]) != AUTO_DISABLED;
    }
  }

  datatype Request = Request(action: Action, now: int)

  function After(row: Row, requests: seq<Request>, json: JsonArray): Row
    decreases |requests|
  {
    if requests == [] then row else After(Apply(row, requests[0].action, json, requests[0].now), requests[1..], json)
  }

  /** The coupling holds before the run and after each of its requests. */
  ghost predicate AlwaysCoupled(row: Row, requests: seq<Request>, json: JsonArray)
    decreases |requests|
  {
    && Coupled(row, json)
    && (requests == [] || AlwaysCoupled(Apply(row, requests[0].action, json, requests[0].now), requests[1..], json))
  }

  /** No request of the run is a breaking deletion where it is made. */
  ghost predicate NeverBreaks(row: Row, requests: seq<Request>, json: JsonArray)
    decreases |requests|
  {
    requests == []
    || (!BreaksCoupling(row, requests[0].action, json)
        && NeverBreaks(Apply(row, requests[0].action, json, requests[0].now), requests[1..], json))
  }

  /** From a coupled channel, a run keeps the coupling throughout exactly when it makes none of the
      breaking deletions. */
  lemma {:induction false} RunStaysCoupledExactly(row: Row, requests: seq<Request>, json: JsonArray)
    requires Coupled(row, json)
    ensures AlwaysCoupled(row, requests, json) <==> NeverBreaks(row, requests, json)
    decreases |requests|
  {
    hide Apply; hide Coupled; hide BreaksCoupling;
    if requests != [] {
      StepCouplesExactly(row, requests[0].action, json, requests[0].now);
      if !BreaksCoupling(row, requests[0].action, json) {
        RunStaysCoupledExactly(Apply(row, requests[0].action, json, requests[0].now), requests[1..], json);
      }
    }
  }

  /** A channel disabled for any other reason is never re-enabled, whatever is stored. */
  lemma {:induction false} OtherwiseDisabledStays(row: Row, requests: seq<Request>, json: JsonArray)
    requires OtherwiseDisabled(row)
    ensures var after := After(row, requests, json);
            OtherwiseDisabled(after) && after.status == row.status && after.statusReason == row.statusReason
    decreases |requests|
  {
    if requests != [] {
      StepKeepsOtherwiseDisabled(row, requests[0].action, json, requests[0].now);
      OtherwiseDisabledStays(Apply(row, requests[0].action, json, requests[0].now), requests[1..], json);
    }
  }

  lemma StepKeepsOtherwiseDisabled(row: Row, a: Action, json: JsonArray, now: int)
    requires OtherwiseDisabled(row)
    ensures var after := Apply(row, a, json, now);
            after.status == row.status && after.statusReason == row.statusReason
  {
    hide GetKeys; hide CountKeys; hide HasEnabledKey; hide Join; hide Kept; hide Reindex; hide AutoDisabled;
  }

  /** Two keys, both disabled, and with them the channel. */
  function AllOff(text: string): Row {
    Row(text, 2, map[0 := MANUALLY_DISABLED, 1 := AUTO_DISABLED], map[], map[], MANUALLY_DISABLED, ALL_KEYS_DISABLED, 0)
  }

  /** A JSON array of keys, one of which holds a line break: deleting the other leaves one key that
      reads as two, the second of them enabled under a channel that stays disabled. */
  lemma LineBreakBreaksCoupling(text: string, other: string, a: string, b: string, json: JsonArray, now: int)
    requires TakenForJson(text, json) && json(TrimSpace(text)) == Some([other, a + ['\n'] + b])
    requires Plain(a) && Plain(b)
    ensures var row := AllOff(text);
            var after := Apply(row, DeleteKey(0), json, now);
            && Coupled(row, json) && row.size == CountKeys(row.key, json) && !EmptiesTheList(row, DeleteKey(0), json)
            && GetKeys(after.key, json) == [a, b] && HasEnabledKey(after, json) && after.status == MANUALLY_DISABLED
  {
    hide GetKeys; hide CountKeys; hide Join; hide Plain; hide Persist; hide DisableIfUnavailable; hide TrimSpace; hide TakenForJson; hide AllPlain;
    var keys := [other, a + ['\n'] + b];
    var row, kept := AllOff(text), Kept(2, {0});
    TakenKeys(text, keys, json);
    SecondKept(keys, other, a, b);
    PairReadsBack(a, b, json);
    assert row.statuses[0] != ENABLED && row.statuses[1] != ENABLED;
    assert Survivors(row, DeleteKey(0), json) == Some(kept);
    StepCouplesExactly(row, DeleteKey(0), json, now);
    WrittenKey(row, Compact(row, json, kept, false), json, now);
    StaysOff(row, json, now);
  }

  lemma PairReadsBack(a: string, b: string, json: JsonArray)
    requires Plain(a) && Plain(b)
    ensures GetKeys(Join([a, b], '\n'), json) == [a, b] && Join([a, b], '\n') != ""
  {
    hide GetKeys; hide Join; hide Plain;
    PlainReadsBack([a, b], json);
  }

  lemma TakenKeys(text: string, keys: seq<string>, json: JsonArray)
    requires TakenForJson(text, json) && json(TrimSpace(text)) == Some(keys) && keys != []
    ensures GetKeys(text, json) == keys && CountKeys(text, json) == |keys|
  {
    assert TrimSpace("") == "";
  }

  lemma SecondKept(keys: seq<string>, other: string, a: string, b: string)
    requires keys == [other, a + ['\n'] + b]
    ensures Kept(2, {0}) == [1] && Pick(keys, Kept(2, {0})) == [a + ['\n'] + b]
    ensures Join(Pick(keys, Kept(2, {0})), '\n') == a + ['\n'] + b == Join([a, b], '\n')
  {
    AllButOne(2, 0);
    var kept := Kept(2, {0});
    assert kept == [1];
    assert Pick(keys, kept) == [a + ['\n'] + b];
    assert [a, b][1..] == [b];
  }

  lemma StaysOff(row: Row, json: JsonArray, now: int)
    requires row.status == MANUALLY_DISABLED
    ensures Apply(row, DeleteKey(0), json, now).status == MANUALLY_DISABLED
    ensures Apply(row, DeleteKey(0), json, now).statusReason == row.statusReason
  {
    hide GetKeys; hide CountKeys; hide Join; hide Reindex; hide Kept; hide HasEnabledKey;
  }

  /** The breaking run can be reached from an enabled channel with an enabled key: disable it,
      delete it, then delete the auto-disabled rest. The last key is back, the channel is not. */
  lemma CouplingCanBreak(live: string, dead: string, json: JsonArray)
    requires Plain(live) && Plain(dead)
    ensures var row := Row(Join([live, dead], '\n'), 2, map[1 := AUTO_DISABLED], map[], map[], ENABLED, "", 0);
            var run := [Request(DisableKey(0), 1), Request(DeleteKey(0), 2), Request(DeleteDisabledKeys, 3)];
            var after := After(row, run, json);
            && Sound(row, json) && Coupled(row, json)
            && GetKeys(after.key, json) == [dead] && HasEnabledKey(after, json) && after.status == MANUALLY_DISABLED
  {
    hide GetKeys; hide CountKeys; hide Plain; hide Join; hide Apply;
    var row := Row(Join([live, dead], '\n'), 2, map[1 := AUTO_DISABLED], map[], map[], ENABLED, "", 0);
    PlainReadsBack([live, dead], json);
    assert KeyStatus(row.statuses, 0) == ENABLED;
    var row1 := FirstStep(row, live, dead, json);
    DeleteKeyCompacts(row1, 0, json, 2);
    var row2 := Apply(row1, DeleteKey(0), json, 2);
    SecondStep(row1, row2, json, dead);
    EmptiedListComesBack(row2, json, 3);
    var row3 := Apply(row2, DeleteDisabledKeys, json, 3);
    var run := [Request(DisableKey(0), 1), Request(DeleteKey(0), 2), Request(DeleteDisabledKeys, 3)];
    assert run[1..] == [Request(DeleteKey(0), 2), Request(DeleteDisabledKeys, 3)];
    assert run[1..][1..] == [Request(DeleteDisabledKeys, 3)];
    assert run[1..][1..][1..] == [];
    assert After(row, run, json) == row3;
  }

  lemma FirstStep(row: Row, live: string, dead: string, json: JsonArray) returns (after: Row)
    requires Sound(row, json) && GetKeys(row.key, json) == [live, dead]
    requires row.statuses == map[1 := AUTO_DISABLED] && row.status == ENABLED
    ensures after == Apply(row, DisableKey(0), json, 1)
    ensures Sound(after, json) && GetKeys(after.key, json) == [live, dead] && !HasEnabledKey(after, json)
    ensures after.statuses == map[0 := MANUALLY_DISABLED, 1 := AUTO_DISABLED]
    ensures after.status == MANUALLY_DISABLED && after.statusReason == ALL_KEYS_DISABLED
  {
    hide GetKeys; hide CountKeys; hide AllPlain;
    after := Apply(row, DisableKey(0), json, 1);
    var edited := row.(statuses := map[0 := MANUALLY_DISABLED, 1 := AUTO_DISABLED]);
    assert row.statuses[0 := MANUALLY_DISABLED] == edited.statuses;
    assert !HasEnabledKey(edited, json);
    KeyTextOf(row, json);
  }

  lemma KeyTextOf(row: Row, json: JsonArray)
    requires Sound(row, json)
    ensures row.key != ""
  {
  }

  lemma SecondStep(row1: Row, row2: Row, json: JsonArray, dead: string)
    requires Sound(row1, json) && row1.size == 2 && GetKeys(row1.key, json)[1] == dead
    requires row1.statuses == map[0 := MANUALLY_DISABLED, 1 := AUTO_DISABLED]
    requires row1.status == MANUALLY_DISABLED && row1.statusReason == ALL_KEYS_DISABLED
    requires row2 == Apply(row1, DeleteKey(0), json, 2)
    requires CompactedTo(row1, row2, json, Kept(2, {0}), false) && Sound(row2, json)
    ensures GetKeys(row2.key, json) == [dead] && row2.status == MANUALLY_DISABLED
    ensures EmptiesTheList(row2, DeleteDisabledKeys, json)
  {
    hide GetKeys; hide CountKeys; hide AllPlain; hide Follows; hide SameEntries;
    AllButOne(2, 0);
    var kept := Kept(2, {0});
    assert kept == [1];
    assert KeyStatus(row2.statuses, 0) == AUTO_DISABLED;
  }
}
