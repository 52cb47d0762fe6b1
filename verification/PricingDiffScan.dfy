/** `buildDifferences` as it runs: maps filled and pruned in place, in any iteration order. */
module PricingDiffScan {
  import opened Pricing
  import opened PricingDiff

  method CollectModels(local: Data, channels: seq<Channel>) returns (models: set<string>)
    ensures models == AllModels(local, channels)
  {
    models := Names(local);
    assert channels[..0] == [];
    for i := 0 to |channels|
      invariant models == AllModels(local, channels[..i])
    {
      assert channels[..i + 1][..i] == channels[..i];
      models := models + Names(channels[i].data);
    }
    assert channels[..|channels|] == channels;
  }

  method TrustOf(data: Data, m: string) returns (trusted: bool)
    ensures trusted == !Placeholder(data, m)
  {
    trusted := true;
    var ratios, completions := Entries(data, ModelRatio), Entries(data, CompletionRatio);
    if m in ratios && m in completions {
      var ratio := AsFloat64(NormalizeSyncValue(ModelRatio, ratios[m]));
      var completion := AsFloat64(NormalizeSyncValue(CompletionRatio, completions[m]));
      if ratio.Some? && completion.Some? && NearlyEqual(ratio.value, Fin(37.5)) && NearlyEqual(completion.value, Fin(1.0)) {
        trusted := false;
      }
    }
  }

  lemma PlaceholderNeedsBoth(data: Data)
    ensures |Entries(data, ModelRatio)| == 0 || |Entries(data, CompletionRatio)| == 0 ==> forall m :: !Placeholder(data, m)
  {
  }

  /** One channel's trust column. Only a channel with both maps non-empty can be distrusted. */
  method TrustColumn(data: Data, models: set<string>) returns (column: map<string, bool>)
    ensures column.Keys == models
    ensures forall m :: m in models ==> column[m] == !Placeholder(data, m)
  {
    column := map[];
    var ratios, completions := Entries(data, ModelRatio), Entries(data, CompletionRatio);
    var guarded := |ratios| > 0 && |completions| > 0;
    PlaceholderNeedsBoth(data);
    hide Placeholder;
    var rest := models;
    while rest != {}
      invariant rest <= models && column.Keys == models - rest
      invariant forall m :: m in column ==> column[m] == !Placeholder(data, m)
      decreases rest
    {
      var m :| m in rest;
      rest := rest - {m};
      var trusted := true;
      if guarded {
        trusted := TrustOf(data, m);
      }
      column := column[m := trusted];
    }
  }

  method TrustTable(channels: seq<Channel>, models: set<string>) returns (table: map<string, map<string, bool>>)
    ensures forall i :: 0 <= i < |channels| ==> channels[i].name in table
    ensures forall n, m :: n in table && m in models ==> m in table[n] && table[n][m] == Trusted(channels, n, m)
  {
    hide Placeholder;
    table := map[];
    for i := 0 to |channels|
      invariant forall j :: 0 <= j < i ==> channels[j].name in table
      invariant forall n, m :: n in table && m in models ==> m in table[n] && table[n][m] == Trusted(channels[..i], n, m)
    {
      assert channels[..i + 1][..i] == channels[..i];
      var column := TrustColumn(channels[i].data, models);
      table := table[channels[i].name := column];
    }
    assert channels[..|channels|] == channels;
  }

  /** The loop body: what one considered channel shows and which flags it raises. */
  method Contribution(current: Value, ch: Channel, f: Field, m: string) returns (upstream: Value, present: bool, differs: bool)
    ensures upstream == Shown(current, ch, f, m)
    ensures present <==> m in Entries(ch.data, f)
    ensures current != Null ==> (differs <==> present && !ValuesEqual(current, Lookup(ch.data, f, m)))
  {
    upstream, present, differs := Null, false, false;
    if m in Entries(ch.data, f) {
      upstream := NormalizeSyncValue(f, Entries(ch.data, f)[m]);
      present := true;
      if current != Null && !ValuesEqual(current, upstream) {
        differs := true;
      } else if ValuesEqual(current, upstream) {
        upstream := SAME;
      }
    }
    if upstream == Null && current == Null {
      upstream := SAME;
    }
    if current == Null && upstream != Null && upstream != SAME {
      differs := true;
    }
  }

  /** Some considered channel among these has a value here. */
  predicate AnyPresent(channels: seq<Channel>, priority: bool, f: Field, m: string) {
    channels != [] &&
    var ch := channels[|channels| - 1];
    AnyPresent(channels[..|channels| - 1], priority, f, m) || (Considered(ch, priority, m) && m in Entries(ch.data, f))
  }

  /** Some considered channel among these has a value here that differs from the local one. */
  predicate AnyUnequal(current: Value, channels: seq<Channel>, priority: bool, f: Field, m: string) {
    channels != [] &&
    var ch := channels[|channels| - 1];
    || AnyUnequal(current, channels[..|channels| - 1], priority, f, m)
    || (Considered(ch, priority, m) && m in Entries(ch.data, f) && !ValuesEqual(current, Lookup(ch.data, f, m)))
  }

  lemma {:induction false} AnyPresentMeans(channels: seq<Channel>, priority: bool, f: Field, m: string)
    ensures AnyPresent(channels, priority, f, m)
       <==> exists i :: 0 <= i < |channels| && Considered(channels[i], priority, m) && m in Entries(channels[i].data, f)
  {
    hide Considered; hide Entries;
    if channels != [] {
      AnyPresentMeans(channels[..|channels| - 1], priority, f, m);
    }
  }

  lemma {:induction false} AnyUnequalMeans(current: Value, channels: seq<Channel>, priority: bool, f: Field, m: string)
    ensures AnyUnequal(current, channels, priority, f, m)
       <==> exists i :: 0 <= i < |channels| && Considered(channels[i], priority, m) && m in Entries(channels[i].data, f)
              && !ValuesEqual(current, Lookup(channels[i].data, f, m))
  {
    hide Considered; hide Entries; hide ValuesEqual; hide Lookup;
    if channels != [] {
      AnyUnequalMeans(current, channels[..|channels| - 1], priority, f, m);
    }
  }

  lemma DiffersByFlags(local: Data, channels: seq<Channel>, f: Field, m: string)
    requires !(ExpressionPriority(local, channels, m) && IsNumeric(f))
    ensures var priority, current := ExpressionPriority(local, channels, m), Lookup(local, f, m);
            Differs(local, channels, f, m) <==>
              if current != Null then AnyUnequal(current, channels, priority, f, m) else AnyPresent(channels, priority, f, m)
  {
    hide AnyPresent; hide AnyUnequal; hide ValuesEqual; hide Considered; hide Entries; hide ExpressionPriority; hide Lookup;
    AnyPresentMeans(channels, ExpressionPriority(local, channels, m), f, m);
    AnyUnequalMeans(Lookup(local, f, m), channels, ExpressionPriority(local, channels, m), f, m);
  }

  /** The three columns with no channel, and with one channel more. */
  lemma NoChannels(current: Value, channels: seq<Channel>, priority: bool, f: Field, m: string)
    ensures Upstreams(current, channels[..0], priority, f, m) == map[]
    ensures !AnyPresent(channels[..0], priority, f, m) && !AnyUnequal(current, channels[..0], priority, f, m)
  {
  }

  lemma OneMore(current: Value, channels: seq<Channel>, i: nat, priority: bool, f: Field, m: string)
    requires i < |channels|
    ensures var ch, before, now := channels[i], channels[..i], channels[..i + 1];
            var here, present := Considered(channels[i], priority, m), m in Entries(channels[i].data, f);
            && Upstreams(current, now, priority, f, m)
               == (var u := Upstreams(current, before, priority, f, m); if here then u[ch.name := Shown(current, ch, f, m)] else u)
            && (AnyPresent(now, priority, f, m) <==> AnyPresent(before, priority, f, m) || (here && present))
            && (AnyUnequal(current, now, priority, f, m)
                <==> (AnyUnequal(current, before, priority, f, m)
                      || (here && present && !ValuesEqual(current, Lookup(ch.data, f, m)))))
  {
    hide Considered; hide Entries; hide ValuesEqual; hide Lookup; hide Shown; hide AnyPresent; hide AnyUnequal; hide Upstreams;
    assert channels[..i + 1][..i] == channels[..i];
    OneMoreUpstream(current, channels[..i + 1], priority, f, m);
    OneMoreFlags(current, channels[..i + 1], priority, f, m);
  }

  lemma OneMoreUpstream(current: Value, channels: seq<Channel>, priority: bool, f: Field, m: string)
    requires channels != []
    ensures var last := |channels| - 1;
            var ch, u := channels[last], Upstreams(current, channels[..last], priority, f, m);
            Upstreams(current, channels, priority, f, m)
              == if Considered(ch, priority, m) then u[ch.name := Shown(current, ch, f, m)] else u
  {
    hide Considered; hide Shown;
  }

  lemma OneMoreFlags(current: Value, channels: seq<Channel>, priority: bool, f: Field, m: string)
    requires channels != []
    ensures var last := |channels| - 1; var ch := channels[last];
            var counts := Considered(ch, priority, m) && m in Entries(ch.data, f);
            && (AnyPresent(channels, priority, f, m) <==> AnyPresent(channels[..last], priority, f, m) || counts)
            && (AnyUnequal(current, channels, priority, f, m)
                <==> (AnyUnequal(current, channels[..last], priority, f, m)
                      || (counts && !ValuesEqual(current, Lookup(ch.data, f, m)))))
  {
    hide Considered; hide Entries; hide ValuesEqual; hide Lookup;
  }

  /** The channel loop for one (model, field). */
  method CompareField(local: Data, channels: seq<Channel>, table: map<string, map<string, bool>>, f: Field, m: string)
    returns (included: bool, item: Item)
    requires !(ExpressionPriority(local, channels, m) && IsNumeric(f))
    requires forall i :: 0 <= i < |channels| ==>
               channels[i].name in table && m in table[channels[i].name]
               && table[channels[i].name][m] == Trusted(channels, channels[i].name, m)
    ensures included == Differs(local, channels, f, m) && item == ItemOf(local, channels, f, m)
  {
    var priority := ExpressionPriority(local, channels, m);
    var current := Lookup(local, f, m);
    var upstreams: map<string, Value> := map[];
    var confidence: map<string, bool> := map[];
    var hasUpstreamValue, hasDifference := false, false;
    hide ExpressionPriority; hide Trusted; hide ValuesEqual; hide Shown; hide Lookup; hide Considered; hide Entries; hide Differs;
    hide AnyPresent; hide AnyUnequal; hide Upstreams;
    NoChannels(current, channels, priority, f, m);
    for i := 0 to |channels|
      invariant upstreams == Upstreams(current, channels[..i], priority, f, m)
      invariant confidence.Keys == upstreams.Keys
      invariant forall n :: n in confidence ==> confidence[n] == Trusted(channels, n, m)
      invariant hasUpstreamValue <==> AnyPresent(channels[..i], priority, f, m)
      invariant current != Null ==> (hasDifference <==> AnyUnequal(current, channels[..i], priority, f, m))
    {
      var ch := channels[i];
      OneMore(current, channels, i, priority, f, m);
      if Considered(ch, priority, m) {
        var upstream, present, differs := Contribution(current, ch, f, m);
        hasUpstreamValue := hasUpstreamValue || present;
        hasDifference := hasDifference || differs;
        upstreams := upstreams[ch.name := upstream];
        confidence := confidence[ch.name := table[ch.name][m]];
      }
    }
    assert channels[..|channels|] == channels;
    item := Item(current, upstreams, confidence);
    DiffersByFlags(local, channels, f, m);
    included := if current != Null then hasDifference else hasUpstreamValue;
  }

  /** The field loop for one model; numeric fields are skipped under expression priority. */
  method CompareModel(local: Data, channels: seq<Channel>, table: map<string, map<string, bool>>, m: string)
    returns (row: map<Field, Item>)
    requires forall i :: 0 <= i < |channels| ==>
               channels[i].name in table && m in table[channels[i].name]
               && table[channels[i].name][m] == Trusted(channels, channels[i].name, m)
    ensures row == CandidateRow(local, channels, m)
  {
    hide ItemOf; hide Trusted; hide ExpressionPriority;
    row := map[];
    for i := 0 to |FIELDS|
      invariant forall f: Field :: f in row <==> f in FIELDS[..i] && Differs(local, channels, f, m)
      invariant forall f: Field :: f in row ==> row[f] == ItemOf(local, channels, f, m)
    {
      var f := FIELDS[i];
      assert FIELDS[..i + 1] == FIELDS[..i] + [f];
      if !(ExpressionPriority(local, channels, m) && IsNumeric(f)) {
        var included, item := CompareField(local, channels, table, f, m);
        if included {
          row := row[f := item];
        }
      }
    }
    EveryField();
    assert FIELDS[..|FIELDS|] == FIELDS;
  }

  method CollectCandidates(local: Data, channels: seq<Channel>) returns (d: Differences)
    ensures d == Candidates(local, channels)
  {
    hide CandidateRow; hide Trusted;
    var models := CollectModels(local, channels);
    var table := TrustTable(channels, models);
    d := map[];
    var rest := models;
    while rest != {}
      invariant rest <= models
      invariant forall m :: m in d <==> m in models - rest && CandidateRow(local, channels, m) != map[]
      invariant forall m :: m in d ==> d[m] == CandidateRow(local, channels, m)
      decreases rest
    {
      var m :| m in rest;
      rest := rest - {m};
      var row := CompareModel(local, channels, table, m);
      if row != map[] {
        d := d[m := row];
      }
    }
  }

  /** The marking pass: every channel with a visible value somewhere, one item at a time. */
  method MarkItem(item: Item, marked: set<string>) returns (shown: set<string>)
    ensures forall n :: n in shown <==> n in marked || HasSomething(item, n)
  {
    hide Visible;
    shown := marked;
    var rest := item.upstreams.Keys;
    while rest != {}
      invariant rest <= item.upstreams.Keys
      invariant forall n :: n in shown <==> n in marked || (HasSomething(item, n) && n !in rest)
      decreases rest
    {
      var name :| name in rest;
      rest := rest - {name};
      if Visible(item.upstreams[name]) {
        shown := shown + {name};
      }
    }
  }

  method MarkRow(row: map<Field, Item>, marked: set<string>) returns (shown: set<string>)
    ensures forall n :: n in shown <==> n in marked || exists f :: f in row && HasSomething(row[f], n)
  {
    hide HasSomething;
    shown := marked;
    var rest := row.Keys;
    while rest != {}
      invariant rest <= row.Keys
      invariant forall n :: n in shown <==> n in marked || exists f :: f in row && f !in rest && HasSomething(row[f], n)
      decreases rest
    {
      var f :| f in rest;
      rest := rest - {f};
      shown := MarkItem(row[f], shown);
    }
  }

  /** Some item of this row shows something of the channel. */
  ghost predicate RowShows(row: map<Field, Item>, n: string) {
    exists f :: f in row && HasSomething(row[f], n)
  }

  method MarkChannels(d: Differences) returns (shown: set<string>)
    ensures shown == ChannelsWithDiff(d)
  {
    hide HasSomething;
    shown := {};
    var rest := d.Keys;
    while rest != {}
      invariant rest <= d.Keys
      invariant forall n :: n in shown <==> exists m :: m in d && m !in rest && RowShows(d[m], n)
      decreases rest
    {
      var m :| m in rest;
      rest := rest - {m};
      shown := MarkRow(d[m], shown);
    }
    MarkedExactly(d, shown);
  }

  lemma MarkedExactly(d: Differences, shown: set<string>)
    requires forall n :: n in shown <==> exists m :: m in d && RowShows(d[m], n)
    ensures shown == ChannelsWithDiff(d)
  {
    forall n
      ensures n in shown <==> n in ChannelsWithDiff(d)
    {
      if n in shown {
        var m :| m in d && RowShows(d[m], n);
        var f :| f in d[m] && HasSomething(d[m][f], n);
      }
      if n in ChannelsWithDiff(d) {
        var m, f :| m in d && f in d[m] && n in d[m][f].upstreams && HasSomething(d[m][f], n);
        assert RowShows(d[m], n);
      }
    }
  }

  /** The prune deletes from an item's maps while ranging over its channels. */
  method PruneChannels(item: Item, shown: set<string>) returns (pruned: Item)
    ensures pruned == PruneItem(item, shown)
  {
    var upstreams, confidence := item.upstreams, item.confidence;
    var rest := item.upstreams.Keys;
    while rest != {}
      invariant rest <= item.upstreams.Keys
      invariant upstreams == map n | n in item.upstreams && (n in rest || n in shown) :: item.upstreams[n]
      invariant confidence == map n | n in item.confidence && (n in rest || n in shown || n !in item.upstreams) :: item.confidence[n]
      decreases rest
    {
      var name :| name in rest;
      rest := rest - {name};
      if name !in shown {
        upstreams := upstreams - {name};
        confidence := confidence - {name};
      }
    }
    pruned := Item(item.current, upstreams, confidence);
  }

  method AllSame(item: Item) returns (allSame: bool)
    ensures allSame == !Survives(item)
  {
    allSame := true;
    var rest := item.upstreams.Keys;
    while rest != {}
      invariant rest <= item.upstreams.Keys
      invariant allSame ==> forall n :: n in item.upstreams && n !in rest ==> item.upstreams[n] == SAME
      invariant !allSame ==> Survives(item)
      decreases rest
    {
      var name :| name in rest;
      rest := rest - {name};
      if item.upstreams[name] != SAME {
        allSame := false;
        break;
      }
    }
  }

  /** The prune loop over one model's fields. */
  method PruneFields(row: map<Field, Item>, shown: set<string>) returns (pruned: map<Field, Item>)
    ensures pruned == PruneRow(row, shown)
  {
    hide PruneItem; hide Survives;
    pruned := row;
    var rest := row.Keys;
    while rest != {}
      invariant rest <= row.Keys
      invariant forall f :: f in pruned <==> f in row && (f in rest || Survives(PruneItem(row[f], shown)))
      invariant forall f :: f in pruned ==> pruned[f] == if f in rest then row[f] else PruneItem(row[f], shown)
      decreases rest
    {
      var f :| f in rest;
      rest := rest - {f};
      var item := PruneChannels(pruned[f], shown);
      var allSame := AllSame(item);
      if allSame {
        pruned := pruned - {f};
      } else {
        pruned := pruned[f := item];
      }
    }
  }

  method PruneModels(candidates: Differences, shown: set<string>) returns (d: Differences)
    ensures d == Prune(candidates, shown)
  {
    hide PruneRow;
    d := candidates;
    var rest := candidates.Keys;
    while rest != {}
      invariant rest <= candidates.Keys
      invariant forall m :: m in d <==> m in candidates && (m in rest || PruneRow(candidates[m], shown) != map[])
      invariant forall m :: m in d ==> d[m] == if m in rest then candidates[m] else PruneRow(candidates[m], shown)
      decreases rest
    {
      var m :| m in rest;
      rest := rest - {m};
      var row := PruneFields(d[m], shown);
      if row == map[] {
        d := d - {m};
      } else {
        d := d[m := row];
      }
    }
  }

  /** All passes together: the result is the function `Report`, whatever the map order. */
  method BuildDifferences(localData: Data, channels: seq<Channel>) returns (differences: Differences)
    ensures differences == Report(localData, channels)
  {
    hide Effective; hide Candidates; hide Prune; hide ChannelsWithDiff;
    var local := EffectivePricingSyncData(localData);
    var normalized: seq<Channel> := [];
    for i := 0 to |channels|
      invariant normalized == Normalized(channels)[..i]
    {
      var data := EffectivePricingSyncData(channels[i].data);
      normalized := normalized + [Channel(channels[i].name, data)];
    }
    assert normalized == Normalized(channels);
    differences := CollectCandidates(local, normalized);
    var shown := MarkChannels(differences);
    differences := PruneModels(differences, shown);
  }
}
