/** What each key-management request does to each key, said about the stored maps and the numbers
    in them: 1 is enabled, 2 manually disabled, 3 auto-disabled, and no entry is enabled. */
module MultiKeyActions {
  import opened Options
  import opened Text
  import opened KeyList
  import opened MultiKeyRow

  predicate EnabledAt(row: Row, i: nat) {
    i !in row.statuses || row.statuses[i] == 1
  }

  predicate SomeEnabled(row: Row, json: JsonArray) {
    exists i: nat :: i < |GetKeys(row.key, json)| && EnabledAt(row, i)
  }

  /** Two maps agree on one index, present or absent. */
  predicate SameAt<T(==)>(a: map<nat, T>, b: map<nat, T>, i: nat) {
    (i in a <==> i in b) && (i in a ==> a[i] == b[i])
  }

  /** A key has kept its status, disabled time and reason. */
  predicate Kept1(row: Row, after: Row, i: nat) {
    SameAt(row.statuses, after.statuses, i) && SameAt(row.times, after.times, i) && SameAt(row.reasons, after.reasons, i)
  }

  /** The keys are the ones that were there, counted anew, with no status beyond them. */
  predicate SameKeys(row: Row, after: Row, json: JsonArray) {
    && after.key == row.key && GetKeys(after.key, json) == GetKeys(row.key, json)
    && after.size == CountKeys(row.key, json) && (forall i :: i in after.statuses ==> i < after.size)
  }

  /** The channel status a disabling leaves: off, with the reason and the time, when the channel was on
      and no key is enabled any more. */
  predicate TurnedOff(row: Row, after: Row, json: JsonArray, now: int) {
    if row.status == 1 && !SomeEnabled(after, json) then after.status == 2 && after.statusReason == "All keys are disabled" && after.statusTime == now
    else after.status == row.status && after.statusReason == row.statusReason && after.statusTime == row.statusTime
  }

  predicate TurnedOn(row: Row, after: Row, json: JsonArray, now: int) {
    if row.status == 2 && row.statusReason == "All keys are disabled" && SomeEnabled(after, json)
    then after.status == 1 && after.statusReason == "" && after.statusTime == now
    else after.status == row.status && after.statusReason == row.statusReason && after.statusTime == row.statusTime
  }

  lemma SomeEnabledIs(row: Row, json: JsonArray)
    ensures HasEnabledKey(row, json) <==> SomeEnabled(row, json)
  {
    hide GetKeys;
    if HasEnabledKey(row, json) {
      var i :| 0 <= i < |GetKeys(row.key, json)| && KeyStatus(row.statuses, i) == ENABLED;
      assert EnabledAt(row, i);
    }
    if SomeEnabled(row, json) {
      var i: nat :| i < |GetKeys(row.key, json)| && EnabledAt(row, i);
      assert KeyStatus(row.statuses, i) == ENABLED;
    }
  }

  /** The coupling, in these terms: on exactly when some key is, and off for that reason. */
  lemma CoupledMeans(row: Row, json: JsonArray)
    ensures Coupled(row, json) <==>
              if SomeEnabled(row, json) then row.status == 1 else row.status == 2 && row.statusReason == "All keys are disabled"
  {
    SomeEnabledIs(row, json);
  }

  /** Writing a row back under the keys it has. */
  lemma WrittenSame(row: Row, edited: Row, json: JsonArray)
    requires edited.key == row.key
    ensures var after := Persist(row, edited, json);
            && SameKeys(row, after, json)
            && (forall i: nat :: i < after.size ==> SameAt(edited.statuses, after.statuses, i))
            && after.times == edited.times && after.reasons == edited.reasons
            && after.status == edited.status && after.statusReason == edited.statusReason && after.statusTime == edited.statusTime
            && (SomeEnabled(after, json) <==> SomeEnabled(edited, json))
  {
    CountCoversKeys(row.key, json);
    hide GetKeys; hide CountKeys;
    var after := Persist(row, edited, json);
    assert forall i: nat :: i < after.size ==> (EnabledAt(after, i) <==> EnabledAt(edited, i));
  }

  lemma DisabledAndWritten(row: Row, edited: Row, json: JsonArray, now: int)
    requires edited.key == row.key && edited.status == row.status && edited.statusReason == row.statusReason && edited.statusTime == row.statusTime
    ensures var after := Persist(row, DisableIfUnavailable(edited, json, now), json);
            && SameKeys(row, after, json) && TurnedOff(row, after, json, now)
            && (forall i: nat :: i < after.size ==> SameAt(edited.statuses, after.statuses, i))
            && after.times == edited.times && after.reasons == edited.reasons
  {
    var d := DisableIfUnavailable(edited, json, now);
    SomeEnabledIs(edited, json);
    assert SomeEnabled(d, json) <==> SomeEnabled(edited, json) by {
      assert forall i: nat :: EnabledAt(d, i) <==> EnabledAt(edited, i);
    }
    WrittenSame(row, d, json);
    hide Persist; hide HasEnabledKey; hide SomeEnabled; hide SameKeys;
  }

  lemma RestoredAndWritten(row: Row, edited: Row, json: JsonArray, now: int)
    requires edited.key == row.key && edited.status == row.status && edited.statusReason == row.statusReason && edited.statusTime == row.statusTime
    ensures var after := Persist(row, RestoreIfAvailable(edited, json, now), json);
            && SameKeys(row, after, json) && TurnedOn(row, after, json, now)
            && (forall i: nat :: i < after.size ==> SameAt(edited.statuses, after.statuses, i))
            && after.times == edited.times && after.reasons == edited.reasons
  {
    var d := RestoreIfAvailable(edited, json, now);
    SomeEnabledIs(edited, json);
    assert SomeEnabled(d, json) <==> SomeEnabled(edited, json) by {
      assert forall i: nat :: EnabledAt(d, i) <==> EnabledAt(edited, i);
    }
    WrittenSame(row, d, json);
    hide Persist; hide HasEnabledKey; hide SomeEnabled; hide SameKeys;
  }

  /** Enabling a key: it has no status, time or reason any more, every other key keeps its own. */
  lemma EnableKeyExactly(row: Row, i: int, json: JsonArray, now: int)
    requires 0 <= i < row.size
    ensures var after := Apply(row, EnableKey(i), json, now);
            && SameKeys(row, after, json) && TurnedOn(row, after, json, now)
            && i !in after.statuses && i !in after.times && i !in after.reasons
            && forall j: nat :: j != i && j < after.size ==> Kept1(row, after, j)
  {
    var edited := row.(statuses := row.statuses - {i}, times := row.times - {i}, reasons := row.reasons - {i});
    RestoredAndWritten(row, edited, json, now);
    hide Persist; hide RestoreIfAvailable; hide SomeEnabled;
    var after := Apply(row, EnableKey(i), json, now);
    assert i < after.size ==> SameAt(edited.statuses, after.statuses, i);
  }

  /** Disabling a key: its status is 2, times and reasons stay, every other key keeps its own. */
  lemma DisableKeyExactly(row: Row, i: int, json: JsonArray, now: int)
    requires 0 <= i < row.size
    ensures var after := Apply(row, DisableKey(i), json, now);
            && SameKeys(row, after, json) && TurnedOff(row, after, json, now)
            && (i < after.size ==> i in after.statuses && after.statuses[i] == 2)
            && after.times == row.times && after.reasons == row.reasons
            && forall j: nat :: j != i && j < after.size ==> Kept1(row, after, j)
  {
    var edited := row.(statuses := row.statuses[i := MANUALLY_DISABLED]);
    DisabledAndWritten(row, edited, json, now);
    hide Persist; hide DisableIfUnavailable; hide SomeEnabled;
    var after := Apply(row, DisableKey(i), json, now);
    assert i < after.size ==> SameAt(edited.statuses, after.statuses, i);
  }

  /** Enabling all keys leaves no status, time or reason at all. */
  lemma EnableAllExactly(row: Row, json: JsonArray, now: int)
    ensures var after := Apply(row, EnableAllKeys, json, now);
            && SameKeys(row, after, json) && TurnedOn(row, after, json, now)
            && after.statuses == map[] && after.times == map[] && after.reasons == map[]
  {
    var edited := row.(statuses := map[], times := map[], reasons := map[]);
    RestoredAndWritten(row, edited, json, now);
    hide Persist; hide RestoreIfAvailable; hide SomeEnabled;
    var after := Apply(row, EnableAllKeys, json, now);
    assert forall j: nat :: j < after.size ==> SameAt(edited.statuses, after.statuses, j);
  }

  /** Disabling all keys: refused without an enabled one, and otherwise exactly those that were
      enabled have status 2 and the others keep theirs. */
  lemma DisableAllExactly(row: Row, json: JsonArray, now: int)
    ensures var after := Apply(row, DisableAllKeys, json, now);
            if forall i: nat :: i < row.size ==> !EnabledAt(row, i) then after == row
            else
              && SameKeys(row, after, json) && TurnedOff(row, after, json, now)
              && after.times == row.times && after.reasons == row.reasons
              && forall j: nat :: j < after.size ==>
                   if j < row.size && EnabledAt(row, j) then j in after.statuses && after.statuses[j] == 2
                   else SameAt(row.statuses, after.statuses, j)
  {
    assert forall i: nat :: EnabledAt(row, i) <==> KeyStatus(row.statuses, i) == ENABLED;
    if i: nat :| i < row.size && EnabledAt(row, i) {
      var edited := DisableEverything(row);
      DisabledAndWritten(row, edited, json, now);
      hide Persist; hide DisableIfUnavailable; hide SomeEnabled;
      var after := Apply(row, DisableAllKeys, json, now);
      forall j: nat | j < after.size
        ensures if j < row.size && EnabledAt(row, j) then j in after.statuses && after.statuses[j] == 2
                else SameAt(row.statuses, after.statuses, j)
      {
        assert SameAt(edited.statuses, after.statuses, j);
      }
    }
  }

  /** A request that is refused leaves the row as it is. */
  lemma RefusedExactly(row: Row, i: int, json: JsonArray, now: int)
    ensures !(0 <= i < row.size) ==>
              Apply(row, DisableKey(i), json, now) == row && Apply(row, EnableKey(i), json, now) == row && Apply(row, DeleteKey(i), json, now) == row
    ensures i == 0 && |GetKeys(row.key, json)| <= 1 ==> Apply(row, DeleteKey(i), json, now) == row
  {
    hide GetKeys; hide CountKeys; hide Persist; hide DisableIfUnavailable; hide RestoreIfAvailable; hide Compact;
    if i == 0 && |GetKeys(row.key, json)| <= 1 {
      AllButOne(|GetKeys(row.key, json)|, i);
    }
  }

  /** What a stable compaction says about the stored maps: each survivor brings along a status that
      is not 1, and its time and its reason - after a deletion of disabled keys, only if it has such a
      status; nothing else is left, and the channel goes off if no key is enabled. */
  lemma CompactedMeans(row: Row, after: Row, json: JsonArray, kept: seq<nat>, disabledOnly: bool, k: nat)
    requires CompactedTo(row, after, json, kept, disabledOnly) && k < |kept|
    ensures GetKeys(after.key, json)[k] == GetKeys(row.key, json)[kept[k]]
    ensures EnabledAt(after, k) <==> EnabledAt(row, kept[k])
    ensures !EnabledAt(row, kept[k]) ==> SameStatus(row, kept[k], after, k)
    ensures k in after.times <==> kept[k] in row.times && (disabledOnly ==> !EnabledAt(row, kept[k]))
    ensures k in after.times ==> after.times[k] == row.times[kept[k]]
    ensures k in after.reasons <==> kept[k] in row.reasons && (disabledOnly ==> !EnabledAt(row, kept[k]))
    ensures k in after.reasons ==> after.reasons[k] == row.reasons[kept[k]]
  {
    hide GetKeys;
    assert KeyStatus(after.statuses, k) == KeyStatus(row.statuses, kept[k]);
  }

  predicate SameStatus(row: Row, i: nat, after: Row, k: nat) {
    i in row.statuses && k in after.statuses && after.statuses[k] == row.statuses[i]
  }

  /** A deletion whose text is written leaves the channel on or off as its keys say. */
  lemma DeletionTurnsOff(row: Row, json: JsonArray, kept: seq<nat>, disabledOnly: bool, now: int)
    requires forall k :: 0 <= k < |kept| ==> 0 <= kept[k] < |GetKeys(row.key, json)|
    requires Join(Pick(GetKeys(row.key, json), kept), '\n') != ""
    ensures TurnedOff(row, Persist(row, DisableIfUnavailable(Compact(row, json, kept, disabledOnly), json, now), json), json, now)
  {
    hide GetKeys; hide CountKeys; hide Join; hide Reindex;
    var c := Compact(row, json, kept, disabledOnly);
    var d := DisableIfUnavailable(c, json, now);
    var after := Persist(row, d, json);
    SomeEnabledIs(c, json);
    CountCoversKeys(c.key, json);
    assert forall i: nat :: i < after.size ==> (EnabledAt(after, i) <==> EnabledAt(c, i));
    hide HasEnabledKey;
  }

  /** Which deletions are made: of a key in range unless it is the last one, and of the keys with
      status 3 if there are any. */
  lemma DeletionsExactly(row: Row, json: JsonArray, now: int)
    ensures var n := |GetKeys(row.key, json)|;
            var kept := Kept(n, AutoDisabled(row.statuses, n));
            && (forall i: nat :: i < n ==> (i in kept <==> !(i in row.statuses && row.statuses[i] == 3)))
            && (forall i, j :: 0 <= i < j < |kept| ==> kept[i] < kept[j])
            && ((forall i: nat :: i < n ==> !(i in row.statuses && row.statuses[i] == 3)) <==> |kept| == n)
            && (|kept| == n ==> Apply(row, DeleteDisabledKeys, json, now) == row)
  {
    hide GetKeys; hide CountKeys; hide Persist; hide DisableIfUnavailable; hide Compact;
    var n := |GetKeys(row.key, json)|;
    var dropped := AutoDisabled(row.statuses, n);
    KeptExactly(n, dropped);
    KeptAll(n, dropped);
    assert forall i: nat :: i < n ==> (i in dropped <==> i in row.statuses && row.statuses[i] == 3);
    if forall i: nat :: i < n ==> i !in dropped {
      KeptEverything(n, dropped);
    }
  }

  lemma {:induction false} KeptEverything(n: nat, dropped: set<nat>)
    requires forall i: nat :: i < n ==> i !in dropped
    ensures |Kept(n, dropped)| == n
  {
    if n > 0 {
      KeptEverything(n - 1, dropped);
    }
  }
}
