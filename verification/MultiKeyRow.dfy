/** A multi-key channel as it is stored, what each key-management action makes of it, and what
    runs of those actions keep. Nil side maps read as empty, so they are plain maps here. */
module MultiKeyRow {
  import opened Text
  import opened Options
  import opened KeyList

  const ENABLED := 1
  const MANUALLY_DISABLED := 2
  const AUTO_DISABLED := 3

  /** `ChannelStatusReasonAllKeysDisabled`. */
  const ALL_KEYS_DISABLED := "All keys are disabled"

  datatype Row = Row(
    key: string,
    size: int,
    statuses: map<nat, int>,
    times: map<nat, int>,
    reasons: map<nat, string>,
    status: int,
    statusReason: string,
    statusTime: int)

  /** A key without an entry is enabled. */
  function KeyStatus(statuses: map<nat, int>, i: int): int {
    if i in statuses then statuses[i] else ENABLED
  }

  predicate HasEnabledKey(row: Row, json: JsonArray) {
    exists i :: 0 <= i < |GetKeys(row.key, json)| && KeyStatus(row.statuses, i) == ENABLED
  }

  /** `disableMultiKeyChannelIfUnavailable`. */
  function DisableIfUnavailable(row: Row, json: JsonArray, now: int): Row {
    if HasEnabledKey(row, json) || row.status != ENABLED then row
    else row.(status := MANUALLY_DISABLED, statusReason := ALL_KEYS_DISABLED, statusTime := now)
  }

  /** `restoreMultiKeyChannelIfAvailable`. */
  function RestoreIfAvailable(row: Row, json: JsonArray, now: int): Row {
    if row.status != MANUALLY_DISABLED || !HasEnabledKey(row, json) || row.statusReason != ALL_KEYS_DISABLED then row
    else row.(status := ENABLED, statusReason := "", statusTime := now)
  }

  /** `Channel.Update`: an empty key text is not written, so the stored one stays and is counted;
      statuses beyond the count are dropped. */
  function Persist(stored: Row, edited: Row, json: JsonArray): Row {
    var key := if edited.key != "" then edited.key else stored.key;
    var size := CountKeys(key, json);
    edited.(key := key, size := size, statuses := map i | i in edited.statuses && i < size :: edited.statuses[i])
  }

  datatype Action =
    | DisableKey(index: int)
    | EnableKey(index: int)
    | EnableAllKeys
    | DisableAllKeys
    | DeleteKey(index: int)
    | DeleteDisabledKeys

  /** The old indices a deletion keeps, in order. */
  function Kept(n: nat, dropped: set<nat>): (kept: seq<nat>)
    ensures forall k :: 0 <= k < |kept| ==> 0 <= kept[k] < n && kept[k] !in dropped
  {
    if n == 0 then []
    else
      var before := Kept(n - 1, dropped);
      if n - 1 in dropped then before else before + [n - 1]
  }

  function AutoDisabled(statuses: map<nat, int>, n: nat): set<nat> {
    set i: nat | 0 <= i < n && KeyStatus(statuses, i) == AUTO_DISABLED
  }

  /** How many of the first keys are enabled. */
  function EnabledCount(statuses: map<nat, int>, n: nat): nat {
    if n == 0 then 0 else EnabledCount(statuses, n - 1) + (if KeyStatus(statuses, n - 1) == ENABLED then 1 else 0)
  }

  function Pick(keys: seq<string>, kept: seq<nat>): (picked: seq<string>)
    requires forall k :: 0 <= k < |kept| ==> 0 <= kept[k] < |keys|
    ensures |picked| == |kept| && forall k :: 0 <= k < |kept| ==> picked[k] == keys[kept[k]]
  {
    seq(|kept|, k requires 0 <= k < |kept| => keys[kept[k]])
  }

  /** A side map under the new indices: an entry follows its key, or only a disabled key's does. */
  function Reindex<T>(side: map<nat, T>, kept: seq<nat>, statuses: map<nat, int>, disabledOnly: bool): map<nat, T> {
    map k: nat | 0 <= k < |kept| && kept[k] in side && (disabledOnly ==> KeyStatus(statuses, kept[k]) != ENABLED) :: side[kept[k]]
  }

  function Compact(row: Row, json: JsonArray, kept: seq<nat>, disabledOnly: bool): Row
    requires forall k :: 0 <= k < |kept| ==> 0 <= kept[k] < |GetKeys(row.key, json)|
  {
    row.(key := Join(Pick(GetKeys(row.key, json), kept), '\n'), size := |kept|,
         statuses := Reindex(row.statuses, kept, row.statuses, true),
         times := Reindex(row.times, kept, row.statuses, disabledOnly),
         reasons := Reindex(row.reasons, kept, row.statuses, disabledOnly))
  }

  /** The enabled ones among the first keys are disabled. */
  function DisableFirst(statuses: map<nat, int>, n: int): map<nat, int> {
    statuses + map i: nat | 0 <= i < n && KeyStatus(statuses, i) == ENABLED :: MANUALLY_DISABLED
  }

  function DisableEverything(row: Row): Row {
    row.(statuses := DisableFirst(row.statuses, row.size))
  }

  /** One request: the stored row is loaded, edited, and - unless refused - written back. */
  function Apply(row: Row, a: Action, json: JsonArray, now: int): Row {
    var keys := GetKeys(row.key, json);
    match a
    case DisableKey(i) =>
      if !(0 <= i < row.size) then row
      else Persist(row, DisableIfUnavailable(row.(statuses := row.statuses[i := MANUALLY_DISABLED]), json, now), json)
    case EnableKey(i) =>
      if !(0 <= i < row.size) then row
      else Persist(row, RestoreIfAvailable(
             row.(statuses := row.statuses - {i}, times := row.times - {i}, reasons := row.reasons - {i}), json, now), json)
    case EnableAllKeys =>
      Persist(row, RestoreIfAvailable(row.(statuses := map[], times := map[], reasons := map[]), json, now), json)
    case DisableAllKeys =>
      if forall i :: 0 <= i < row.size ==> KeyStatus(row.statuses, i) != ENABLED then row
      else Persist(row, DisableIfUnavailable(DisableEverything(row), json, now), json)
    case DeleteKey(i) =>
      if !(0 <= i < row.size) then row
      else
        var kept := Kept(|keys|, {i});
        if kept == [] then row
        else Persist(row, DisableIfUnavailable(Compact(row, json, kept, false), json, now), json)
    case DeleteDisabledKeys =>
      var kept := Kept(|keys|, AutoDisabled(row.statuses, |keys|));
      if |kept| == |keys| then row
      else Persist(row, DisableIfUnavailable(Compact(row, json, kept, true), json, now), json)
  }

  /** A stored row whose keys stay apart when rewritten, with the recomputed size. */
  ghost predicate Sound(row: Row, json: JsonArray) {
    var keys := GetKeys(row.key, json);
    keys != [] && AllPlain(keys) && row.size == |keys| == CountKeys(row.key, json)
  }

  /** The channel is enabled if and only if some key is, and its own disabling says so. */
  ghost predicate Coupled(row: Row, json: JsonArray) {
    if HasEnabledKey(row, json) then row.status == ENABLED
    else row.status == MANUALLY_DISABLED && row.statusReason == ALL_KEYS_DISABLED
  }

  /** Disabled by anything else than these requests finding no enabled key. This includes a channel
      that the relay auto-disabled when its last key failed: the reason is the same, the status is
      not, and enabling keys does not restore it. */
  ghost predicate OtherwiseDisabled(row: Row) {
    row.status != ENABLED && !(row.status == MANUALLY_DISABLED && row.statusReason == ALL_KEYS_DISABLED)
  }

  /** The one request that breaks the coupling: every key is auto-disabled and all are deleted. */
  ghost predicate EmptiesTheList(row: Row, a: Action, json: JsonArray) {
    a.DeleteDisabledKeys? && forall i :: 0 <= i < |GetKeys(row.key, json)| ==> KeyStatus(row.statuses, i) == AUTO_DISABLED
  }

  lemma PickedPlain(keys: seq<string>, kept: seq<nat>)
    requires AllPlain(keys) && forall k :: 0 <= k < |kept| ==> 0 <= kept[k] < |keys|
    ensures AllPlain(Pick(keys, kept))
  {
  }

  ghost predicate Follows<T>(side: map<nat, T>, after: map<nat, T>, kept: seq<nat>, statuses: map<nat, int>, disabledOnly: bool) {
    forall k :: k in after <==> 0 <= k < |kept| && kept[k] in side && (disabledOnly ==> KeyStatus(statuses, kept[k]) != ENABLED)
  }

  ghost predicate SameEntries<T>(side: map<nat, T>, after: map<nat, T>, kept: seq<nat>) {
    forall k :: k in after && 0 <= k < |kept| && kept[k] in side ==> after[k] == side[kept[k]]
  }

  /** A stable compaction: survivors keep their order and effective status, disabled time and
      reason follow the key, and nothing is left under an index outside the new size. */
  ghost predicate CompactedTo(row: Row, after: Row, json: JsonArray, kept: seq<nat>, disabledOnly: bool) {
    var keys := GetKeys(row.key, json);
    && (forall k :: 0 <= k < |kept| ==> 0 <= kept[k] < |keys|)
    && GetKeys(after.key, json) == Pick(keys, kept) && after.size == |kept|
    && (forall k :: 0 <= k < |kept| ==> KeyStatus(after.statuses, k) == KeyStatus(row.statuses, kept[k]))
    && (forall k :: k in after.statuses ==> 0 <= k < |kept|)
    && Follows(row.times, after.times, kept, row.statuses, disabledOnly) && SameEntries(row.times, after.times, kept)
    && Follows(row.reasons, after.reasons, kept, row.statuses, disabledOnly) && SameEntries(row.reasons, after.reasons, kept)
  }

  lemma ReindexFollows<T>(side: map<nat, T>, kept: seq<nat>, statuses: map<nat, int>, disabledOnly: bool)
    ensures Follows(side, Reindex(side, kept, statuses, disabledOnly), kept, statuses, disabledOnly)
    ensures SameEntries(side, Reindex(side, kept, statuses, disabledOnly), kept)
  {
  }

  /** Writing back a non-empty list changes nothing but, possibly, the channel status. */
  lemma WrittenBack(row: Row, edited: Row, json: JsonArray, now: int)
    requires edited.key != "" && edited.size == CountKeys(edited.key, json)
    requires forall k :: k in edited.statuses ==> k < edited.size
    ensures var after := Persist(row, DisableIfUnavailable(edited, json, now), json);
            && after.key == edited.key && after.size == edited.size && after.statuses == edited.statuses
            && after.times == edited.times && after.reasons == edited.reasons
  {
    hide HasEnabledKey; hide CountKeys;
  }

  lemma ReindexedStatus(statuses: map<nat, int>, kept: seq<nat>, k: int)
    requires 0 <= k < |kept|
    ensures KeyStatus(Reindex(statuses, kept, statuses, true), k) == KeyStatus(statuses, kept[k])
  {
  }

  lemma CompactedFields(row: Row, after: Row, json: JsonArray, kept: seq<nat>, disabledOnly: bool)
    requires forall k :: 0 <= k < |kept| ==> 0 <= kept[k] < |GetKeys(row.key, json)|
    requires GetKeys(after.key, json) == Pick(GetKeys(row.key, json), kept) && after.size == |kept|
    requires after.statuses == Reindex(row.statuses, kept, row.statuses, true)
    requires after.times == Reindex(row.times, kept, row.statuses, disabledOnly)
    requires after.reasons == Reindex(row.reasons, kept, row.statuses, disabledOnly)
    ensures CompactedTo(row, after, json, kept, disabledOnly)
  {
    hide GetKeys; hide Follows; hide SameEntries; hide KeyStatus;
    ReindexFollows(row.times, kept, row.statuses, disabledOnly);
    ReindexFollows(row.reasons, kept, row.statuses, disabledOnly);
    forall k | 0 <= k < |kept| ensures KeyStatus(after.statuses, k) == KeyStatus(row.statuses, kept[k]) {
      ReindexedStatus(row.statuses, kept, k);
    }
  }

  lemma Compaction(row: Row, json: JsonArray, kept: seq<nat>, disabledOnly: bool, now: int)
    requires Sound(row, json) && kept != []
    requires forall k :: 0 <= k < |kept| ==> 0 <= kept[k] < |GetKeys(row.key, json)|
    ensures var after := Persist(row, DisableIfUnavailable(Compact(row, json, kept, disabledOnly), json, now), json);
            Sound(after, json) && CompactedTo(row, after, json, kept, disabledOnly)
  {
    hide GetKeys; hide CountKeys; hide Join; hide Plain; hide Persist; hide DisableIfUnavailable; hide CompactedTo;
    var keys, c := Pick(GetKeys(row.key, json), kept), Compact(row, json, kept, disabledOnly);
    PickedPlain(GetKeys(row.key, json), kept);
    PlainReadsBack(keys, json);
    assert forall k :: k in c.statuses ==> k < c.size;
    WrittenBack(row, c, json, now);
    CompactedFields(row, Persist(row, DisableIfUnavailable(c, json, now), json), json, kept, disabledOnly);
  }

  /** On any row at all: a deletion is such a compaction exactly when the rewritten text reads as
      the keys it was made of - as a JSON array if it decodes as one, and otherwise because no
      remaining key holds a line break and neither the first nor the last is blank. */
  lemma CompactsExactly(row: Row, json: JsonArray, kept: seq<nat>, disabledOnly: bool, now: int)
    requires 0 < |kept| < |GetKeys(row.key, json)|
    requires forall k :: 0 <= k < |kept| ==> 0 <= kept[k] < |GetKeys(row.key, json)|
    ensures var after := Persist(row, DisableIfUnavailable(Compact(row, json, kept, disabledOnly), json, now), json);
            var keys := Pick(GetKeys(row.key, json), kept);
            CompactedTo(row, after, json, kept, disabledOnly) <==> ReadsAs(Join(keys, '\n'), keys, json)
  {
    var keys, c := Pick(GetKeys(row.key, json), kept), Compact(row, json, kept, disabledOnly);
    var after := Persist(row, DisableIfUnavailable(c, json, now), json);
    ReadsBackExactly(keys, json);
    WrittenKey(row, c, json, now);
    if GetKeys(c.key, json) == keys {
      CountIsKeys(c.key, json);
      assert c.key != "";
      hide GetKeys; hide CountKeys; hide Join; hide Persist; hide DisableIfUnavailable; hide LooksLikeJson; hide ReadsAs;
      assert forall k :: k in c.statuses ==> k < c.size;
      WrittenBack(row, c, json, now);
      hide CompactedTo; hide Compact;
      CompactedFields(row, after, json, kept, disabledOnly);
    } else {
      hide Join; hide Persist; hide DisableIfUnavailable; hide Follows; hide SameEntries; hide KeyStatus;
      assert after.key == c.key || (c.key == "" && after.key == row.key);
    }
  }

  /** Three lines that together are no JSON array can leave two that are: deleting the middle key
      turns the others into different ones. */
  lemma DeletionCanMakeJson(row: Row, json: JsonArray, now: int)
    requires row.key == "[1,\nx\n2]" && row.size == 3
    requires json("[1,\nx\n2]").None? && json("[1,\n2]") == Some(["1", "2"])
    ensures GetKeys(row.key, json) == ["[1,", "x", "2]"]
    ensures GetKeys(Apply(row, DeleteKey(1), json, now).key, json) == ["1", "2"]
  {
    hide Apply; hide Trim; hide Join; hide Split;
    ThreeLines(json);
    NoSpaceAround("[1,\n2]");
    Decoded("[1,\n2]", ["1", "2"], json);
    MiddleDeleted(row, "[1,", "x", "2]", json, now);
    assert "[1," + ['\n'] + "2]" == "[1,\n2]";
  }

  lemma ThreeLines(json: JsonArray)
    requires json("[1,\nx\n2]").None?
    ensures GetKeys("[1,\nx\n2]", json) == ["[1,", "x", "2]"]
  {
    var keys, text := ["[1,", "x", "2]"], "[1,\nx\n2]";
    assert Join(keys, '\n') == text by {
      assert keys[1..] == ["x", "2]"] && keys[1..][1..] == ["2]"];
      assert "x" + ['\n'] + "2]" == "x\n2]";
      assert "[1," + ['\n'] + "x\n2]" == text;
    }
    NoSpaceAround(text);
    assert Storable(keys, '\n');
    hide Join; hide TrimSpace;
    ReadsBackExactly(keys, json);
  }

  lemma MiddleDeleted(row: Row, a: string, x: string, b: string, json: JsonArray, now: int)
    requires GetKeys(row.key, json) == [a, x, b] && row.size == 3
    ensures Apply(row, DeleteKey(1), json, now).key == a + ['\n'] + b
  {
    hide GetKeys; hide CountKeys; hide DisableIfUnavailable; hide Persist;
    AllButOne(3, 1);
    var kept := Kept(3, {1});
    assert |kept| == 2 && kept[0] == 0 && kept[1] == 2;
    assert Pick([a, x, b], kept) == [a, b];
    assert [a, b][1..] == [b];
    assert Join([a, b], '\n') == a + ['\n'] + b;
    assert Compact(row, json, kept, false).key == Join([a, b], '\n');
    WrittenKey(row, Compact(row, json, kept, false), json, now);
  }

  lemma NoSpaceAround(text: string)
    requires text != "" && text[0] !in SPACES && text[|text| - 1] !in SPACES
    ensures TrimSpace(text) == text
  {
  }

  lemma Decoded(text: string, keys: seq<string>, json: JsonArray)
    requires text != "" && TrimSpace(text) == text && HasPrefix(text, "[") && json(text) == Some(keys)
    ensures GetKeys(text, json) == keys
  {
  }

  lemma WrittenKey(row: Row, edited: Row, json: JsonArray, now: int)
    ensures Persist(row, DisableIfUnavailable(edited, json, now), json).key == if edited.key != "" then edited.key else row.key
  {
    hide HasEnabledKey; hide CountKeys;
  }

  /** Deleting one key of several: exactly that key goes, the others close up around it. */
  lemma DeleteKeyCompacts(row: Row, i: int, json: JsonArray, now: int)
    requires Sound(row, json) && 0 <= i < row.size && row.size > 1
    ensures var keys, after, kept := GetKeys(row.key, json), Apply(row, DeleteKey(i), json, now), Kept(row.size, {i});
            && Sound(after, json) && CompactedTo(row, after, json, kept, false)
            && GetKeys(after.key, json) == keys[..i] + keys[i + 1..]
            && forall k :: 0 <= k < |kept| ==> kept[k] == if k < i then k else k + 1
  {
    hide GetKeys; hide CountKeys; hide Persist; hide Compact; hide DisableIfUnavailable; hide Follows; hide SameEntries; hide AllPlain;
    hide Join; hide Plain; hide KeyStatus; hide Reindex;
    var keys, kept := GetKeys(row.key, json), Kept(row.size, {i});
    AllButOne(row.size, i);
    Compaction(row, json, kept, false, now);
    PickAllBut(keys, kept, i);
  }

  /** The same on any row whose keys are counted right: a stable compaction without exactly that key,
      exactly when the rewritten text reads as the others. */
  lemma DeleteKeyCompactsExactly(row: Row, i: int, json: JsonArray, now: int)
    requires 0 <= i < row.size == |GetKeys(row.key, json)| && row.size > 1
    ensures var keys, after, kept := GetKeys(row.key, json), Apply(row, DeleteKey(i), json, now), Kept(row.size, {i});
            var rest := keys[..i] + keys[i + 1..];
            && |kept| == row.size - 1 && (forall k :: 0 <= k < |kept| ==> kept[k] == if k < i then k else k + 1)
            && (CompactedTo(row, after, json, kept, false) <==> ReadsAs(Join(rest, '\n'), rest, json))
  {
    hide GetKeys; hide CountKeys; hide Persist; hide Compact; hide DisableIfUnavailable; hide CompactedTo; hide ReadsAs; hide Join;
    var keys, kept := GetKeys(row.key, json), Kept(row.size, {i});
    AllButOne(row.size, i);
    PickAllBut(keys, kept, i);
    CompactsExactly(row, json, kept, false, now);
  }

  /** And on any row at all: exactly the auto-disabled keys go, as a stable compaction exactly when
      the rewritten text reads as the others; with none of them nothing changes. */
  lemma DeleteDisabledCompactsExactly(row: Row, json: JsonArray, now: int)
    ensures var keys, after := GetKeys(row.key, json), Apply(row, DeleteDisabledKeys, json, now);
            var kept := Kept(|keys|, AutoDisabled(row.statuses, |keys|));
            && (forall k :: 0 <= k < |keys| ==> (k in kept <==> KeyStatus(row.statuses, k) != AUTO_DISABLED))
            && (|kept| == |keys| ==> after == row)
            && (0 < |kept| < |keys| ==>
                  (CompactedTo(row, after, json, kept, true) <==> ReadsAs(Join(Pick(keys, kept), '\n'), Pick(keys, kept), json)))
  {
    hide GetKeys; hide CountKeys; hide Persist; hide Compact; hide DisableIfUnavailable; hide CompactedTo; hide ReadsAs; hide Join;
    var n := |GetKeys(row.key, json)|;
    var kept := Kept(n, AutoDisabled(row.statuses, n));
    KeptExactly(n, AutoDisabled(row.statuses, n));
    if 0 < |kept| < n {
      CompactsExactly(row, json, kept, true, now);
    }
  }

  lemma PickAllBut(keys: seq<string>, kept: seq<nat>, i: nat)
    requires i < |keys| && |kept| == |keys| - 1
    requires forall k :: 0 <= k < |kept| ==> kept[k] == if k < i then k else k + 1
    ensures Pick(keys, kept) == keys[..i] + keys[i + 1..]
  {
  }

  lemma {:induction false} AllButOne(n: nat, i: int)
    requires 0 <= i
    ensures var kept := Kept(n, {i});
            && |kept| == (if i < n then n - 1 else n)
            && forall k :: 0 <= k < |kept| ==> kept[k] == if k < i then k else k + 1
  {
    if n > 0 {
      AllButOne(n - 1, i);
    }
  }

  /** Deleting the auto-disabled keys: exactly they go, provided some key is left. */
  lemma DeleteDisabledCompacts(row: Row, json: JsonArray, now: int)
    requires Sound(row, json) && !EmptiesTheList(row, DeleteDisabledKeys, json)
    ensures var after, kept := Apply(row, DeleteDisabledKeys, json, now), Kept(row.size, AutoDisabled(row.statuses, row.size));
            && Sound(after, json)
            && (|kept| < row.size ==> CompactedTo(row, after, json, kept, true))
            && (|kept| == row.size ==> after == row)
            && (forall k :: 0 <= k < row.size ==> (k in kept <==> KeyStatus(row.statuses, k) != AUTO_DISABLED))
  {
    hide GetKeys; hide CountKeys; hide Persist; hide Compact; hide DisableIfUnavailable; hide CompactedTo; hide AllPlain;
    var kept := Kept(row.size, AutoDisabled(row.statuses, row.size));
    KeptExactly(row.size, AutoDisabled(row.statuses, row.size));
    var some :| 0 <= some < row.size && KeyStatus(row.statuses, some) != AUTO_DISABLED;
    assert some in kept;
    KeptAll(row.size, AutoDisabled(row.statuses, row.size));
    if |kept| < row.size {
      Compaction(row, json, kept, true, now);
    }
  }

  /** After that deletion no key is auto-disabled any more. */
  lemma NoAutoDisabledLeft(row: Row, json: JsonArray, now: int)
    ensures var after := Apply(row, DeleteDisabledKeys, json, now);
            forall k :: 0 <= k < |GetKeys(after.key, json)| ==> KeyStatus(after.statuses, k) != AUTO_DISABLED
  {
    hide GetKeys; hide CountKeys; hide Join; hide HasEnabledKey;
    var n := |GetKeys(row.key, json)|;
    var dropped := AutoDisabled(row.statuses, n);
    var kept := Kept(n, dropped);
    KeptAll(n, dropped);
    if |kept| == n {
      forall k | 0 <= k < n
        ensures KeyStatus(row.statuses, k) != AUTO_DISABLED
      {
        assert k !in dropped;
      }
    } else {
      ReindexedNotAuto(row.statuses, kept, n);
    }
  }

  /** No survivor of the deletion carries the status it deletes. */
  lemma ReindexedNotAuto(statuses: map<nat, int>, kept: seq<nat>, n: nat)
    requires forall k :: 0 <= k < |kept| ==> 0 <= kept[k] < n && kept[k] !in AutoDisabled(statuses, n)
    ensures forall k :: k in Reindex(statuses, kept, statuses, true) ==> Reindex(statuses, kept, statuses, true)[k] != AUTO_DISABLED
  {
  }

  lemma {:induction false} KeptExactly(n: nat, dropped: set<nat>)
    ensures forall i :: i in Kept(n, dropped) <==> 0 <= i < n && i !in dropped
    ensures forall i, j :: 0 <= i < j < |Kept(n, dropped)| ==> Kept(n, dropped)[i] < Kept(n, dropped)[j]
  {
    if n > 0 {
      KeptExactly(n - 1, dropped);
    }
  }

  lemma {:induction false} KeptAll(n: nat, dropped: set<nat>)
    ensures |Kept(n, dropped)| <= n
    ensures |Kept(n, dropped)| == n ==> forall k :: 0 <= k < n ==> k !in dropped
  {
    if n > 0 {
      KeptAll(n - 1, dropped);
    }
  }

  lemma {:induction false} KeptNone(n: nat, dropped: set<nat>)
    requires forall k :: 0 <= k < n ==> k in dropped
    ensures Kept(n, dropped) == []
  {
    if n > 0 {
      KeptNone(n - 1, dropped);
    }
  }

  /** When every key is auto-disabled the emptied key text is not written but the cleared statuses
      are: all keys are back and enabled, under a channel that is not. */
  lemma EmptiedListComesBack(row: Row, json: JsonArray, now: int)
    requires GetKeys(row.key, json) != [] && EmptiesTheList(row, DeleteDisabledKeys, json)
    ensures var after := Apply(row, DeleteDisabledKeys, json, now);
            && after.key == row.key && after.size == CountKeys(row.key, json) && after.statuses == map[]
            && HasEnabledKey(after, json)
            && after.status == (if row.status == ENABLED then MANUALLY_DISABLED else row.status)
            && after.statusReason == (if row.status == ENABLED then ALL_KEYS_DISABLED else row.statusReason)
  {
    hide CountKeys;
    var keys := GetKeys(row.key, json);
    var dropped := AutoDisabled(row.statuses, |keys|);
    KeptNone(|keys|, dropped);
    assert Pick(keys, []) == [];
    assert Compact(row, json, [], true).key == "";
    var after := Apply(row, DeleteDisabledKeys, json, now);
    assert after.key == row.key;
    assert KeyStatus(after.statuses, 0) == ENABLED;
  }
}
