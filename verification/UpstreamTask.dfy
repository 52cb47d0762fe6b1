/** The task around detection: the channel object it updates, automatic synchronisation, and the
    keyset-paged scan over all enabled channels. */
module UpstreamTask {
  import opened Text
  import opened ModelNames
  import opened UpstreamUpdates

  /** What asking the upstream for its models came to. */
  datatype Fetched = Fetched(models: seq<string>) | FetchFailed

  datatype Outcome = TooSoon | Failed | Checked

  class ChannelRecord {
    var models: string
    var settings: Settings
    var lastCheckTime: int

    function Value(): Channel
      reads this
    {
      Channel(models, settings)
    }

    constructor (ch: Channel)
      ensures Value() == ch
    {
      models, settings, lastCheckTime := ch.models, ch.settings, 0;
    }

    /** Apply an administrator's selection; the results tell what was done and what is left. */
    method ApplyUpdates(sel: Selection, now: int)
      returns (added: seq<string>, removed: seq<string>, remaining: seq<string>, remainingRemove: seq<string>, modelsChanged: bool)
      modifies this
      ensures Value() == UpstreamUpdates.ApplyUpdates(old(Value()), sel) && lastCheckTime == now
      ensures added == Adds(old(Value()), sel) && removed == Removes(old(Value()), sel)
      ensures remaining == settings.detected && remainingRemove == settings.removed
      ensures modelsChanged <==> LocalModels(old(Value())) != ApplySelected(LocalModels(old(Value())), added, removed)
      ensures !modelsChanged ==> models == old(models)
    {
      hide Normalize; hide Merge; hide Subtract; hide Intersect; hide GetModels;
      var pendingAdd := Normalize(settings.detected);
      var pendingRemove := Normalize(settings.removed);
      added := Intersect(sel.add, pendingAdd);
      var ignored := Intersect(sel.ignore, pendingAdd);
      removed := Subtract(Intersect(sel.remove, pendingRemove), added);
      var origin := Normalize(GetModels(models));
      var next := ApplySelected(origin, added, removed);
      modelsChanged := origin != next;
      if modelsChanged {
        models := Join(next, ',');
      }
      var rules := MergeModelNames(settings.ignored, ignored);
      if |added| > 0 {
        rules := Subtract(rules, added);
      }
      remaining := Subtract(pendingAdd, added + ignored);
      remainingRemove := Subtract(pendingRemove, removed);
      settings := Settings(rules, remaining, remainingRemove);
      lastCheckTime := now;
    }

    /** One detection, unless the last one is too recent and this one is not forced; with automatic
        synchronisation the additions are adopted at once. A failed fetch only leaves its time. */
    method CheckAndPersist(fetched: Fetched, mapping: map<string, string>, rx: Regex, force: bool, minInterval: int, autoSync: bool, now: int)
      returns (outcome: Outcome, modelsChanged: bool, autoAdded: nat)
      modifies this
      ensures outcome == (if !force && old(lastCheckTime) > 0 && now - old(lastCheckTime) < minInterval then TooSoon
                          else if fetched.FetchFailed? then Failed else Checked)
      ensures lastCheckTime == if outcome.TooSoon? then old(lastCheckTime) else now
      ensures !outcome.Checked? ==> Value() == old(Value()) && autoAdded == 0
      ensures outcome.Checked? ==>
                && Value() == (if autoSync then Synchronised(old(Value()), fetched.models, mapping, rx)
                               else Detect(old(Value()), fetched.models, mapping, rx))
                && autoAdded == (if autoSync then |PendingAdds(old(Value()), fetched.models, mapping, rx)| else 0)
      ensures modelsChanged <==> autoAdded > 0
    {
      hide Normalize; hide PendingAdds; hide PendingRemoves; hide GetModels; hide Merge;
      modelsChanged, autoAdded := false, 0;
      if !force {
        if lastCheckTime > 0 && now - lastCheckTime < minInterval {
          return TooSoon, false, 0;
        }
      }
      lastCheckTime := now;
      if fetched.FetchFailed? {
        return Failed, false, 0;
      }
      ghost var before := Value();
      var adds := PendingAdds(Value(), fetched.models, mapping, rx);
      var removes := PendingRemoves(Value(), fetched.models, mapping);
      if autoSync && |adds| > 0 {
        var origin := Normalize(GetModels(models));
        var merged := MergeModelNames(origin, adds);
        MergedWithPending(before, fetched.models, mapping, rx);
        if |merged| > |origin| {
          models := Join(merged, ',');
          autoAdded := |merged| - |origin|;
          modelsChanged := true;
        }
        settings := settings.(detected := []);
      } else {
        settings := settings.(detected := adds);
      }
      settings := settings.(removed := removes);
      outcome := Checked;
    }
  }

  /** A detection whose additions were adopted. */
  function Synchronised(ch: Channel, upstream: seq<string>, mapping: map<string, string>, rx: Regex): Channel {
    var adds := PendingAdds(ch, upstream, mapping, rx);
    Channel(if adds == [] then ch.models else Join(LocalModels(ch) + adds, ','),
            ch.settings.(detected := [], removed := PendingRemoves(ch, upstream, mapping)))
  }

  /** Pending additions are new, so merging appends all of them. */
  lemma MergedWithPending(ch: Channel, upstream: seq<string>, mapping: map<string, string>, rx: Regex)
    ensures Merge(LocalModels(ch), PendingAdds(ch, upstream, mapping, rx)) == LocalModels(ch) + PendingAdds(ch, upstream, mapping, rx)
    ensures Normal(LocalModels(ch) + PendingAdds(ch, upstream, mapping, rx))
  {
    hide Normalize; hide Clean; hide PendingAdds; hide LocalModels; hide PendingRemoves; hide Ignored;
    var local, adds := LocalModels(ch), PendingAdds(ch, upstream, mapping, rx);
    LocalIsNormal(ch);
    PendingSpec(ch, upstream, mapping, rx);
    PendingRespectsMapping(ch, upstream, mapping, rx);
    OnNormal(local, adds);
    FilterAll(adds, x => x !in local);
    ConcatNormal(local, adds);
  }

  /** After synchronising, the same upstream has nothing more to add exactly when no adopted name
      holds a comma; then the models are the old ones and the adopted ones, and the staged removals
      are what would be found again. */
  lemma SynchronisingConvergesExactly(ch: Channel, upstream: seq<string>, mapping: map<string, string>, rx: Regex)
    ensures var adds, after := PendingAdds(ch, upstream, mapping, rx), Synchronised(ch, upstream, mapping, rx);
            && (PendingAdds(after, upstream, mapping, rx) == [] <==> forall x :: x in adds ==> ',' !in x)
            && (PendingAdds(after, upstream, mapping, rx) == [] ==>
                  && LocalModels(after) == LocalModels(ch) + adds
                  && PendingRemoves(after, upstream, mapping) == after.settings.removed)
  {
    hide Normalize; hide Clean; hide PendingAdds; hide PendingRemoves; hide Ignored; hide LocalModels;
    var adds, after := PendingAdds(ch, upstream, mapping, rx), Synchronised(ch, upstream, mapping, rx);
    if x :| x in adds && ',' in x {
      PendingSpec(ch, upstream, mapping, rx);
      PendingSpec(after, upstream, mapping, rx);
      LocalIsNormal(after);
      assert x in PendingAdds(after, upstream, mapping, rx);
    } else {
      SynchronisingConverges(ch, upstream, mapping, rx);
    }
  }

  lemma SynchronisingConverges(ch: Channel, upstream: seq<string>, mapping: map<string, string>, rx: Regex)
    requires forall x :: x in PendingAdds(ch, upstream, mapping, rx) ==> ',' !in x
    ensures var after := Synchronised(ch, upstream, mapping, rx);
            && LocalModels(after) == LocalModels(ch) + PendingAdds(ch, upstream, mapping, rx)
            && PendingAdds(after, upstream, mapping, rx) == []
            && PendingRemoves(after, upstream, mapping) == after.settings.removed
  {
    hide Normalize; hide Clean; hide PendingAdds; hide PendingRemoves; hide Ignored; hide GetModels;
    var after, adds, up := Synchronised(ch, upstream, mapping, rx), PendingAdds(ch, upstream, mapping, rx), Normalize(upstream);
    PendingSpec(ch, upstream, mapping, rx);
    LocalIsNormal(ch);
    MergedWithPending(ch, upstream, mapping, rx);
    ModelsReadBack(ch, LocalModels(ch) + adds);
    assert LocalModels(ch) + [] == LocalModels(ch);
    PendingSpec(after, upstream, mapping, rx);
    FilterAll(up, x => MissesLocally(LocalModels(after), after.settings.ignored, mapping, rx, x));
    FilterConcat(LocalModels(ch), adds, x => GoneUpstream(up, mapping, x));
    FilterAll(adds, x => GoneUpstream(up, mapping, x));
  }

  const BATCH_SIZE: nat := 100

  /** `WHERE enabled AND id >= from ORDER BY id LIMIT limit`, over identifiers up to a maximum. */
  function Page(enabled: nat -> bool, from: nat, maxId: nat, limit: nat): (page: seq<nat>)
    ensures |page| <= limit
    decreases maxId + 1 - from
  {
    if from > maxId || limit == 0 then []
    else if enabled(from) then [from] + Page(enabled, from + 1, maxId, limit - 1)
    else Page(enabled, from + 1, maxId, limit)
  }

  ghost predicate Ascending(ids: seq<nat>) {
    forall i, j :: 0 <= i < j < |ids| ==> ids[i] < ids[j]
  }

  lemma PrependAscending(first: nat, rest: seq<nat>)
    requires Ascending(rest) && forall id: nat :: id in rest ==> first < id
    ensures Ascending([first] + rest)
  {
    assert forall i :: 0 <= i < |rest| ==> rest[i] in rest;
  }

  lemma {:induction false} PageOrdered(enabled: nat -> bool, from: nat, maxId: nat, limit: nat)
    ensures Ascending(Page(enabled, from, maxId, limit))
    ensures forall id: nat :: id in Page(enabled, from, maxId, limit) ==> from <= id <= maxId && enabled(id)
    decreases maxId + 1 - from
  {
    hide Ascending;
    if from > maxId || limit == 0 {
      NothingVisited();
    } else {
      if enabled(from) {
        PageOrdered(enabled, from + 1, maxId, limit - 1);
        var rest := Page(enabled, from + 1, maxId, limit - 1);
        PrependAscending(from, rest);
        assert Page(enabled, from, maxId, limit) == [from] + rest;
      } else {
        PageOrdered(enabled, from + 1, maxId, limit);
      }
    }
  }

  /** A page lists every enabled identifier up to its last one; a short page lists all. */
  lemma {:induction false} PageComplete(enabled: nat -> bool, from: nat, maxId: nat, limit: nat, id: nat)
    requires from <= id <= maxId && enabled(id)
    ensures var page := Page(enabled, from, maxId, limit);
            |page| < limit || (page != [] && id <= page[|page| - 1]) ==> id in page
    decreases maxId + 1 - from
  {
    if limit > 0 && from < id {
      var rest := Page(enabled, from + 1, maxId, if enabled(from) then limit - 1 else limit);
      PageComplete(enabled, from + 1, maxId, if enabled(from) then limit - 1 else limit, id);
      if enabled(from) {
        assert Page(enabled, from, maxId, limit) == [from] + rest;
      }
    }
  }

  /** An identifier enabled at every query. */
  ghost predicate Steady(enabled: (nat, nat) -> bool, id: nat) {
    forall k: nat :: enabled(k, id)
  }

  /** An identifier enabled at some query. */
  ghost predicate Sometime(enabled: (nat, nat) -> bool, id: nat) {
    exists k: nat :: enabled(k, id)
  }

  /** One query for the channels after the last one seen. */
  method QueryAfter(enabled: (nat, nat) -> bool, query: nat, lastId: nat, maxId: nat) returns (page: seq<nat>)
    ensures |page| <= BATCH_SIZE && Ascending(page)
    ensures forall id: nat :: id in page ==> lastId < id <= maxId && Sometime(enabled, id)
    ensures forall id: nat :: lastId < id <= maxId && Steady(enabled, id) ==>
              (|page| < BATCH_SIZE || id <= page[|page| - 1] ==> id in page)
  {
    var now := (id: nat) => enabled(query, id);
    page := Page(now, lastId + 1, maxId, BATCH_SIZE);
    PageOrdered(now, lastId + 1, maxId, BATCH_SIZE);
    forall id: nat | id in page ensures Sometime(enabled, id) {
      assert enabled(query, id);
    }
    forall id: nat | lastId < id <= maxId && Steady(enabled, id) && (|page| < BATCH_SIZE || id <= page[|page| - 1])
      ensures id in page {
      PageComplete(now, lastId + 1, maxId, BATCH_SIZE, id);
    }
  }

  /** The loop over one page; it stops where the context is found cancelled: before a channel, or
      while it waits out the interval behind one. */
  method VisitPage(page: seq<nat>, before: seq<nat>, cancelled: nat -> bool, paced: bool, made: nat)
    returns (visited: seq<nat>, finished: bool, checks: nat)
    ensures finished ==> visited == before + page
    ensures exists n :: 0 <= n <= |page| && visited == before + page[..n]
    ensures !finished ==> exists n: nat :: cancelled(n)
  {
    visited, checks := before, made;
    for i := 0 to |page|
      invariant visited == before + page[..i]
    {
      if cancelled(checks) {
        return visited, false, checks + 1;
      }
      checks := checks + 1;
      visited := visited + [page[i]];
      assert visited == before + page[..i + 1];
      if paced {
        if cancelled(checks) {
          return visited, false, checks + 1;
        }
        checks := checks + 1;
      }
    }
    assert page[..|page|] == page;
    finished := true;
  }

  /** The scan loop. The table may change between queries: `enabled(k, id)` is the state at query
      k; `cancelled(n)` is what the n-th look at the context finds. No channel is visited twice, none
      that was never enabled, and unless cancelled none is missed that stayed enabled. */
  method ScanEnabled(enabled: (nat, nat) -> bool, maxId: nat, cancelled: nat -> bool, paced: bool) returns (visited: seq<nat>, complete: bool)
    ensures Ascending(visited)
    ensures forall id: nat :: id in visited ==> 1 <= id <= maxId && Sometime(enabled, id)
    ensures complete ==> forall id: nat :: 1 <= id <= maxId && Steady(enabled, id) ==> id in visited
    ensures !complete ==> exists n: nat :: cancelled(n)
  {
    hide Steady; hide Sometime; hide Ascending;
    visited := [];
    var lastId: nat := 0;
    var query: nat := 0;
    var checks: nat := 0;
    NothingVisited();
    while true
      invariant lastId <= maxId && Ascending(visited)
      invariant forall id: nat :: id in visited ==> 1 <= id <= lastId && Sometime(enabled, id)
      invariant forall id: nat :: 1 <= id <= lastId && Steady(enabled, id) ==> id in visited
      decreases maxId - lastId
    {
      if cancelled(checks) {
        return visited, false;
      }
      checks := checks + 1;
      ghost var before := visited;
      var page := QueryAfter(enabled, query, lastId, maxId);
      if |page| == 0 {
        return visited, true;
      }
      assert page[|page| - 1] in page;
      var finished;
      visited, finished, checks := VisitPage(page, visited, cancelled, paced, checks);
      ghost var n :| 0 <= n <= |page| && visited == before + page[..n];
      VisitedSoFar(before, page, n, lastId);
      if !finished {
        return visited, false;
      }
      lastId := page[|page| - 1];
      LastIsGreatest(page);
      if |page| < BATCH_SIZE {
        return visited, true;
      }
      query := query + 1;
    }
  }

  lemma NothingVisited()
    ensures Ascending([])
  {
  }

  lemma LastIsGreatest(page: seq<nat>)
    requires Ascending(page) && page != []
    ensures forall id: nat :: id in page ==> id <= page[|page| - 1]
  {
  }

  lemma VisitedSoFar(before: seq<nat>, page: seq<nat>, n: nat, last: nat)
    requires Ascending(before) && Ascending(page) && n <= |page|
    requires (forall id: nat :: id in before ==> id <= last) && forall id: nat :: id in page ==> last < id
    ensures Ascending(before + page[..n])
    ensures forall id: nat :: id in before + page[..n] ==> id in before || id in page
  {
    var all := before + page[..n];
    assert forall i :: 0 <= i < |all| ==> all[i] == if i < |before| then before[i] else page[i - |before|];
    assert forall i :: 0 <= i < |before| ==> before[i] in before;
    assert forall i :: 0 <= i < n ==> page[i] in page;
  }
}
