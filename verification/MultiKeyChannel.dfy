/** The key-management requests as they edit a loaded channel object and write it back. */
module MultiKeyChannel {
  import opened Text
  import opened Options
  import opened KeyList
  import opened MultiKeyRow

  class Channel {
    var key: string
    var size: int
    var statuses: map<nat, int>
    var times: map<nat, int>
    var reasons: map<nat, string>
    var status: int
    var statusReason: string
    var statusTime: int

    constructor Load(row: Row)
      ensures Value() == row
    {
      key, size, statuses, times, reasons := row.key, row.size, row.statuses, row.times, row.reasons;
      status, statusReason, statusTime := row.status, row.statusReason, row.statusTime;
    }

    function Value(): Row
      reads this
    {
      Row(key, size, statuses, times, reasons, status, statusReason, statusTime)
    }

    method FindEnabledKey(json: JsonArray) returns (found: bool)
      ensures found == HasEnabledKey(Value(), json)
    {
      hide GetKeys;
      var keys := GetKeys(key, json);
      assert keys == GetKeys(Value().key, json) && statuses == Value().statuses;
      for i := 0 to |keys|
        invariant forall j :: 0 <= j < i ==> KeyStatus(statuses, j) != ENABLED
      {
        if i !in statuses || statuses[i] == ENABLED {
          assert KeyStatus(Value().statuses, i) == ENABLED;
          return true;
        }
      }
      return false;
    }

    /** Also tells the caller whether active connections must be closed. */
    method DisableIfNoKeyLeft(json: JsonArray, now: int) returns (unavailable: bool)
      modifies this
      ensures Value() == DisableIfUnavailable(old(Value()), json, now)
      ensures unavailable == !HasEnabledKey(old(Value()), json)
    {
      var found := FindEnabledKey(json);
      if found {
        return false;
      }
      if status != ENABLED {
        return true;
      }
      status := MANUALLY_DISABLED;
      statusReason := ALL_KEYS_DISABLED;
      statusTime := now;
      return true;
    }

    method RestoreIfKeyAvailable(json: JsonArray, now: int)
      modifies this
      ensures Value() == RestoreIfAvailable(old(Value()), json, now)
    {
      var found := FindEnabledKey(json);
      if status != MANUALLY_DISABLED || !found {
        return;
      }
      if statusReason != ALL_KEYS_DISABLED {
        return;
      }
      status := ENABLED;
      statusReason := "";
      statusTime := now;
    }

    /** Recompute the size, drop statuses beyond it, write the row and read it back. */
    method Update(stored: Row, json: JsonArray)
      modifies this
      ensures Value() == Persist(stored, old(Value()), json)
    {
      hide CountKeys;
      var text := if key != "" then key else stored.key;
      size := CountKeys(text, json);
      PruneStatuses();
      key := text;
    }

    method PruneStatuses()
      modifies this`statuses
      ensures statuses == map i | i in old(statuses) && i < size :: old(statuses)[i]
    {
      var indices: set<nat> := statuses.Keys;
      ghost var was := statuses;
      while indices != {}
        invariant indices <= was.Keys
        invariant forall i :: i in statuses <==> i in was && (i in indices || i < size)
        invariant forall i :: i in statuses ==> statuses[i] == was[i]
        decreases indices
      {
        HasElement(indices);
        var i: nat :| i in indices;
        indices := indices - {i};
        if i >= size {
          statuses := statuses - {i};
        }
      }
      SameEntriesSameMap(statuses, map i | i in was && i < size :: was[i]);
    }

    method DisableKey(index: int, json: JsonArray, now: int) returns (ok: bool)
      modifies this
      ensures Value() == Apply(old(Value()), Action.DisableKey(index), json, now) && ok == (0 <= index < old(size))
    {
      if index < 0 || index >= size {
        return false;
      }
      var stored := Value();
      statuses := statuses[index := MANUALLY_DISABLED];
      var _ := DisableIfNoKeyLeft(json, now);
      Update(stored, json);
      return true;
    }

    method EnableKey(index: int, json: JsonArray, now: int) returns (ok: bool)
      modifies this
      ensures Value() == Apply(old(Value()), Action.EnableKey(index), json, now) && ok == (0 <= index < old(size))
    {
      if index < 0 || index >= size {
        return false;
      }
      var stored := Value();
      statuses := statuses - {index};
      times := times - {index};
      reasons := reasons - {index};
      RestoreIfKeyAvailable(json, now);
      Update(stored, json);
      return true;
    }

    method EnableAllKeys(json: JsonArray, now: int) returns (enabledCount: nat)
      modifies this
      ensures Value() == Apply(old(Value()), Action.EnableAllKeys, json, now) && enabledCount == |old(statuses)|
    {
      enabledCount := |statuses|;
      var stored := Value();
      statuses, times, reasons := map[], map[], map[];
      RestoreIfKeyAvailable(json, now);
      Update(stored, json);
    }

    /** The loop of the next method. */
    method DisableEach() returns (disabledCount: nat)
      modifies this`statuses
      ensures statuses == DisableFirst(old(statuses), size)
      ensures disabledCount == EnabledCount(old(statuses), if size < 0 then 0 else size)
    {
      ghost var was := statuses;
      hide DisableFirst; hide KeyStatus;
      disabledCount := 0;
      var i := 0;
      DisableNone(was, size);
      while i < size
        invariant 0 <= i && i <= (if size < 0 then 0 else size)
        invariant statuses == DisableFirst(was, if size < 0 then size else i)
        invariant disabledCount == EnabledCount(was, i)
      {
        DisableOneMore(was, i);
        var keyStatus := KeyStatus(statuses, i);
        if keyStatus == ENABLED {
          statuses := statuses[i := MANUALLY_DISABLED];
          disabledCount := disabledCount + 1;
        }
        i := i + 1;
      }
    }

    /** Refused, with nothing written, when no key is enabled. */
    method DisableAllKeys(json: JsonArray, now: int) returns (disabledCount: nat)
      modifies this
      ensures Value() == Apply(old(Value()), Action.DisableAllKeys, json, now)
      ensures disabledCount == EnabledCount(old(statuses), if old(size) < 0 then 0 else old(size))
    {
      var stored := Value();
      disabledCount := DisableEach();
      NoneCounted(stored.statuses, if size < 0 then 0 else size);
      if disabledCount == 0 {
        DisableNothing(stored.statuses, size);
        return;
      }
      assert Value() == DisableEverything(stored);
      hide EnabledCount; hide DisableEverything;
      var _ := DisableIfNoKeyLeft(json, now);
      Update(stored, json);
    }

    /** The shared body of both deletions: walk the keys with a running new index. */
    method CompactKeys(dropped: set<nat>, disabledOnly: bool, json: JsonArray)
      modifies this
      ensures Value() == Compact(old(Value()), json, Kept(|GetKeys(old(key), json)|, dropped), disabledOnly)
    {
      hide GetKeys; hide Join; hide KeyStatus; hide Reindex;
      var keys := GetKeys(key, json);
      var remaining: seq<string> := [];
      var newStatuses: map<nat, int> := map[];
      var newTimes: map<nat, int> := map[];
      var newReasons: map<nat, string> := map[];
      var newIndex := 0;
      ReindexNothing(statuses, statuses, true);
      ReindexNothing(times, statuses, disabledOnly);
      ReindexNothing(reasons, statuses, disabledOnly);
      for i := 0 to |keys|
        modifies {}
        invariant newIndex == |Kept(i, dropped)| && remaining == Pick(keys, Kept(i, dropped))
        invariant newStatuses == Reindex(statuses, Kept(i, dropped), statuses, true)
        invariant newTimes == Reindex(times, Kept(i, dropped), statuses, disabledOnly)
        invariant newReasons == Reindex(reasons, Kept(i, dropped), statuses, disabledOnly)
      {
        if i in dropped {
          continue;
        }
        remaining := remaining + [keys[i]];
        ReindexOneMore(statuses, Kept(i, dropped), i, statuses, true);
        ReindexOneMore(times, Kept(i, dropped), i, statuses, disabledOnly);
        ReindexOneMore(reasons, Kept(i, dropped), i, statuses, disabledOnly);
        var keyStatus := KeyStatus(statuses, i);
        if i in statuses && keyStatus != ENABLED {
          newStatuses := newStatuses[newIndex := statuses[i]];
        }
        if !disabledOnly || keyStatus != ENABLED {
          if i in times {
            newTimes := newTimes[newIndex := times[i]];
          }
          if i in reasons {
            newReasons := newReasons[newIndex := reasons[i]];
          }
        }
        newIndex := newIndex + 1;
      }
      key := Join(remaining, '\n');
      size := newIndex;
      statuses, times, reasons := newStatuses, newTimes, newReasons;
    }

    /** The last key cannot be deleted. */
    method DeleteKey(index: int, json: JsonArray, now: int) returns (ok: bool)
      modifies this
      ensures Value() == Apply(old(Value()), Action.DeleteKey(index), json, now)
      ensures var n := |GetKeys(old(key), json)|;
              ok <==> 0 <= index < old(size) && n > if index < n then 1 else 0
    {
      if index < 0 || index >= size {
        return false;
      }
      var n := |GetKeys(key, json)|;
      AllButOne(n, index);
      if Kept(n, {index}) == [] {
        return false;
      }
      var stored := Value();
      CompactKeys({index}, false, json);
      var _ := DisableIfNoKeyLeft(json, now);
      Update(stored, json);
      return true;
    }

    method DeleteDisabledKeys(json: JsonArray, now: int) returns (deletedCount: nat)
      modifies this
      ensures Value() == Apply(old(Value()), Action.DeleteDisabledKeys, json, now)
      ensures var keys := GetKeys(old(key), json);
              deletedCount == |keys| - |Kept(|keys|, AutoDisabled(old(statuses), |keys|))|
    {
      hide GetKeys; hide Compact; hide Persist; hide DisableIfUnavailable;
      var keys := GetKeys(key, json);
      var dropped := AutoDisabled(statuses, |keys|);
      KeptAll(|keys|, dropped);
      deletedCount := |keys| - |Kept(|keys|, dropped)|;
      if deletedCount == 0 {
        return;
      }
      var stored := Value();
      CompactKeys(dropped, true, json);
      var _ := DisableIfNoKeyLeft(json, now);
      Update(stored, json);
    }
  }

  lemma DisableNone(statuses: map<nat, int>, n: int)
    ensures DisableFirst(statuses, 0) == statuses && (n < 0 ==> DisableFirst(statuses, n) == statuses)
  {
  }

  /** The loop meets every key with the status it had. */
  lemma DisableOneMore(statuses: map<nat, int>, i: nat)
    ensures var before := DisableFirst(statuses, i);
            && KeyStatus(before, i) == KeyStatus(statuses, i)
            && DisableFirst(statuses, i + 1) == if KeyStatus(statuses, i) == ENABLED then before[i := MANUALLY_DISABLED] else before
  {
  }

  /** Where nothing is enabled nothing changes. */
  lemma DisableNothing(statuses: map<nat, int>, n: int)
    requires forall i :: 0 <= i < n ==> KeyStatus(statuses, i) != ENABLED
    ensures DisableFirst(statuses, n) == statuses
  {
  }

  lemma {:induction false} NoneCounted(statuses: map<nat, int>, n: nat)
    ensures EnabledCount(statuses, n) == 0 <==> forall i :: 0 <= i < n ==> KeyStatus(statuses, i) != ENABLED
  {
    if n > 0 {
      NoneCounted(statuses, n - 1);
    }
  }

  lemma HasElement(s: set<nat>)
    requires s != {}
    ensures exists i :: i in s
  {
  }

  lemma SameEntriesSameMap(a: map<nat, int>, b: map<nat, int>)
    requires forall i: nat :: i in a <==> i in b
    requires forall i: nat :: i in a ==> a[i] == b[i]
    ensures a == b
  {
  }

  lemma ReindexNothing<T>(side: map<nat, T>, statuses: map<nat, int>, disabledOnly: bool)
    ensures Reindex(side, [], statuses, disabledOnly) == map[]
  {
  }

  /** Keeping one more key extends a side map by at most that key's entry. */
  lemma ReindexOneMore<T>(side: map<nat, T>, kept: seq<nat>, i: nat, statuses: map<nat, int>, disabledOnly: bool)
    ensures Reindex(side, kept + [i], statuses, disabledOnly)
         == var r := Reindex(side, kept, statuses, disabledOnly);
            if i in side && (disabledOnly ==> KeyStatus(statuses, i) != ENABLED) then r[|kept| := side[i]] else r
  {
  }
}
