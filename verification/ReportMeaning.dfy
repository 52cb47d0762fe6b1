/** What a report contains, said about the effective entries with no use of the passes that build
    it: which fields are in it, what each item shows for each channel, and what it trusts. */
module ReportMeaning {
  import opened Pricing
  import opened PricingDiff
  import opened PricingMeaning

  /** Two effective values within the tolerance of each other. */
  predicate Close(a: Value, b: Value) {
    if a.F64? && a.f.Fin? && b.F64? && b.f.Fin? then -0.000000001 < a.f.r - b.f.r < 0.000000001 else a == b
  }

  predicate ByExpression(local: Data, channels: seq<Channel>, m: string) {
    RawTiered(local, m) || exists i :: 0 <= i < |channels| && RawTiered(channels[i].data, m)
  }

  /** Once some side bills the model by an expression, prices are left out and so are the channels
      that do not. */
  predicate TakesPart(local: Data, channels: seq<Channel>, i: nat, f: Field, m: string) {
    && i < |channels|
    && (ByExpression(local, channels, m) ==> IsTextField(f) && RawTiered(channels[i].data, m))
  }

  predicate DiffersAt(local: Data, channels: seq<Channel>, i: nat, f: Field, m: string) {
    && TakesPart(local, channels, i, f, m)
    && HasEntry(channels[i].data, f, m)
    && (HasEntry(local, f, m) ==> !Close(local[f][m], channels[i].data[f][m]))
  }

  /** The pricing endpoint's placeholder. */
  predicate LooksUnset(data: Data, m: string) {
    && HasEntry(data, ModelRatio, m) && Close(data[ModelRatio][m], F64(Fin(37.5)))
    && HasEntry(data, CompletionRatio, m) && Close(data[CompletionRatio][m], F64(Fin(1.0)))
  }

  /** What the item of a field should show for a channel that takes part in it. */
  function ShouldShow(local: Data, channels: seq<Channel>, i: nat, f: Field, m: string): Value
    requires i < |channels|
  {
    if DiffersAt(local, channels, i, f, m) then channels[i].data[f][m]
    else if HasEntry(channels[i].data, f, m) || !HasEntry(local, f, m) then Str("same")
    else Null
  }

  ghost predicate AllSettled(local: Data, channels: seq<Channel>) {
    Settled(local) && forall i :: 0 <= i < |channels| ==> Settled(channels[i].data)
  }

  lemma LookupIs(data: Data, f: Field, m: string)
    requires Settled(data)
    ensures m in Entries(data, f) <==> HasEntry(data, f, m)
    ensures HasEntry(data, f, m) ==> Lookup(data, f, m) == data[f][m] && data[f][m] != Null
    ensures !HasEntry(data, f, m) ==> Lookup(data, f, m) == Null
  {
    if m in Entries(data, f) {
      SettledLookup(data, f, m);
    }
  }

  lemma CloseIsEqual(a: Data, b: Data, f: Field, m: string)
    requires Settled(a) && Settled(b) && HasEntry(a, f, m) && HasEntry(b, f, m)
    ensures ValuesEqual(a[f][m], b[f][m]) <==> Close(a[f][m], b[f][m])
  {
    assert m in Entries(a, f) && m in Entries(b, f);
    if IsNumeric(f) {
      assert Usable(Entries(a, f)[m]) && Usable(Entries(b, f)[m]);
    } else if f == BillingMode {
      assert Entries(a, f)[m] in {TIERED, RATIO};
    } else {
      assert Entries(a, f)[m].Str?;
    }
  }

  lemma PriorityIs(local: Data, channels: seq<Channel>, m: string)
    ensures ExpressionPriority(local, channels, m) <==> ByExpression(local, channels, m)
    ensures forall i: nat, f: Field :: i < |channels| ==>
              (TakesPart(local, channels, i, f, m)
               <==> && !(ExpressionPriority(local, channels, m) && IsNumeric(f))
                    && Considered(channels[i], ExpressionPriority(local, channels, m), m))
  {
    forall d: Data
      ensures IsTiered(d, m) <==> RawTiered(d, m)
    {
    }
  }

  lemma DiffersAtIs(local: Data, channels: seq<Channel>, i: nat, f: Field, m: string)
    requires AllSettled(local, channels) && i < |channels|
    ensures DiffersAt(local, channels, i, f, m)
       <==> TakesPart(local, channels, i, f, m) && Differs1(Lookup(local, f, m), channels[i], f, m)
    ensures TakesPart(local, channels, i, f, m) ==>
              Shown(Lookup(local, f, m), channels[i], f, m) == ShouldShow(local, channels, i, f, m)
  {
    LookupIs(local, f, m);
    LookupIs(channels[i].data, f, m);
    if HasEntry(local, f, m) && HasEntry(channels[i].data, f, m) {
      CloseIsEqual(local, channels[i].data, f, m);
    }
    hide Lookup; hide Entries; hide Settled; hide ValuesEqual; hide Close; hide TakesPart;
  }

  lemma DiffersExactly(local: Data, channels: seq<Channel>, f: Field, m: string)
    requires AllSettled(local, channels)
    ensures Differs(local, channels, f, m) <==> exists i: nat :: DiffersAt(local, channels, i, f, m)
  {
    PriorityIs(local, channels, m);
    forall i: nat | i < |channels|
      ensures DiffersAt(local, channels, i, f, m)
         <==> TakesPart(local, channels, i, f, m) && Differs1(Lookup(local, f, m), channels[i], f, m)
    {
      DiffersAtIs(local, channels, i, f, m);
    }
    hide Differs1; hide Considered; hide AllSettled; hide ExpressionPriority; hide Lookup;
    if Differs(local, channels, f, m) {
      var priority := ExpressionPriority(local, channels, m);
      var i: nat :| i < |channels| && Considered(channels[i], priority, m) && Differs1(Lookup(local, f, m), channels[i], f, m);
      assert DiffersAt(local, channels, i, f, m);
    }
    if i: nat :| DiffersAt(local, channels, i, f, m) {
      assert i < |channels|;
    }
  }

  /** The upstream column before the prune, channel by channel. */
  lemma ColumnIs(local: Data, channels: seq<Channel>, f: Field, m: string, i: nat)
    requires AllSettled(local, channels) && DistinctNames(NamesOf(channels)) && i < |channels|
    requires !(ExpressionPriority(local, channels, m) && IsNumeric(f))
    ensures var u := ItemOf(local, channels, f, m).upstreams;
            && (channels[i].name in u <==> TakesPart(local, channels, i, f, m))
            && (channels[i].name in u ==> u[channels[i].name] == ShouldShow(local, channels, i, f, m))
  {
    PriorityIs(local, channels, m);
    DiffersAtIs(local, channels, i, f, m);
    hide ShouldShow; hide AllSettled; hide TakesPart; hide Shown; hide Considered; hide ExpressionPriority; hide Upstreams; hide Lookup;
    var priority, current := ExpressionPriority(local, channels, m), Lookup(local, f, m);
    assert forall j :: 0 <= j < |channels| && j != i ==> NamesOf(channels)[j] != NamesOf(channels)[i];
    if Considered(channels[i], priority, m) {
      UpstreamsAt(current, channels, priority, f, m, i);
    }
    if channels[i].name in Upstreams(current, channels, priority, f, m) {
      var j := UpstreamsFrom(current, channels, priority, f, m, channels[i].name);
    }
  }

  /** A channel shows something in an item exactly where it differs. */
  lemma VisibleExactly(local: Data, channels: seq<Channel>, f: Field, m: string, i: nat)
    requires AllSettled(local, channels) && NoMarker(channels) && DistinctNames(NamesOf(channels)) && i < |channels|
    requires !(ExpressionPriority(local, channels, m) && IsNumeric(f))
    ensures HasSomething(ItemOf(local, channels, f, m), channels[i].name) <==> DiffersAt(local, channels, i, f, m)
  {
    ColumnIs(local, channels, f, m, i);
    LookupIs(channels[i].data, f, m);
    hide ItemOf; hide TakesPart; hide DistinctNames; hide Lookup; hide Close; hide ExpressionPriority;
  }

  /** The marked channels are those that differ anywhere. */
  lemma MarkedExactly(local: Data, channels: seq<Channel>, i: nat)
    requires AllSettled(local, channels) && NoMarker(channels) && DistinctNames(NamesOf(channels)) && i < |channels|
    ensures channels[i].name in ChannelsWithDiff(Candidates(local, channels))
       <==> exists f: Field, m :: DiffersAt(local, channels, i, f, m)
  {
    hide AllSettled; hide NoMarker; hide DistinctNames; hide ItemOf; hide DiffersAt; hide Candidates; hide AllModels; hide HasSomething; hide Differs;
    var d, name := Candidates(local, channels), channels[i].name;
    if name in ChannelsWithDiff(d) {
      var m, f :| m in d && f in d[m] && HasSomething(d[m][f], name);
      CandidatesAreDifferences(local, channels, f, m);
      NotSkipped(local, channels, f, m);
      VisibleExactly(local, channels, f, m, i);
    }
    if f: Field, m :| DiffersAt(local, channels, i, f, m) {
      DiffersExactly(local, channels, f, m);
      NotSkipped(local, channels, f, m);
      VisibleExactly(local, channels, f, m, i);
      HasModel(local, channels, i, f, m);
      CandidatesAreDifferences(local, channels, f, m);
      MarkedWhenVisible(d, f, m, name);
    }
  }

  lemma NotSkipped(local: Data, channels: seq<Channel>, f: Field, m: string)
    requires Differs(local, channels, f, m)
    ensures !(ExpressionPriority(local, channels, m) && IsNumeric(f))
  {
    hide ExpressionPriority;
  }

  lemma HasModel(local: Data, channels: seq<Channel>, i: nat, f: Field, m: string)
    requires DiffersAt(local, channels, i, f, m)
    ensures m in AllModels(local, channels)
  {
    assert m in Entries(channels[i].data, f);
    ModelsInclude(local, channels, i, f, m);
  }

  lemma UnsetIs(data: Data, m: string)
    requires Settled(data)
    ensures Placeholder(data, m) <==> LooksUnset(data, m)
  {
    LookupIs(data, ModelRatio, m);
    LookupIs(data, CompletionRatio, m);
    if HasEntry(data, ModelRatio, m) {
      assert Usable(Entries(data, ModelRatio)[m]);
    }
    if HasEntry(data, CompletionRatio, m) {
      assert Usable(Entries(data, CompletionRatio)[m]);
    }
    hide Lookup; hide Settled;
  }

  lemma {:induction false} TrustedIs(channels: seq<Channel>, i: nat, m: string)
    requires DistinctNames(NamesOf(channels)) && i < |channels|
    ensures Trusted(channels, channels[i].name, m) == !Placeholder(channels[i].data, m)
  {
    hide Placeholder;
    var n := |channels| - 1;
    if i < n {
      assert NamesOf(channels)[n] != NamesOf(channels)[i];
      assert forall j :: 0 <= j < n ==> NamesOf(channels[..n])[j] == NamesOf(channels)[j];
      TrustedIs(channels[..n], i, m);
    }
  }

  /** On settled data: the item of a reported field. */
  ghost predicate ShowsRight(item: Item, local: Data, channels: seq<Channel>, f: Field, m: string) {
    && item.current == (if HasEntry(local, f, m) then local[f][m] else Null)
    && (forall n :: n in item.upstreams ==> exists i :: 0 <= i < |channels| && channels[i].name == n)
    && item.confidence.Keys == item.upstreams.Keys
    && forall i: nat :: i < |channels| ==> ShowsChannel(item, local, channels, i, f, m)
  }

  /** A channel is in the item exactly when it takes part and differs anywhere in the report; then
      with what it should show, and trusted unless it looks unset. */
  ghost predicate ShowsChannel(item: Item, local: Data, channels: seq<Channel>, i: nat, f: Field, m: string)
    requires i < |channels|
  {
    var name := channels[i].name;
    && (name in item.upstreams <==> TakesPart(local, channels, i, f, m) && DiffersAnywhere(local, channels, i))
    && (name in item.upstreams ==> item.upstreams[name] == ShouldShow(local, channels, i, f, m))
    && (name in item.confidence ==> item.confidence[name] == !LooksUnset(channels[i].data, m))
  }

  ghost predicate DiffersAnywhere(local: Data, channels: seq<Channel>, i: nat) {
    exists f: Field, m :: DiffersAt(local, channels, i, f, m)
  }

  lemma PrunedItemShowsRight(local: Data, channels: seq<Channel>, f: Field, m: string)
    requires AllSettled(local, channels) && NoMarker(channels) && DistinctNames(NamesOf(channels))
    requires Differs(local, channels, f, m)
    ensures ShowsRight(PruneItem(ItemOf(local, channels, f, m), ChannelsWithDiff(Candidates(local, channels))), local, channels, f, m)
  {
    var shown := ChannelsWithDiff(Candidates(local, channels));
    var whole := ItemOf(local, channels, f, m);
    var item := PruneItem(whole, shown);
    LookupIs(local, f, m);
    WholeItem(local, channels, f, m);
    PrunedKeys(whole, shown);
    hide AllSettled; hide NoMarker; hide DistinctNames; hide Differs; hide Lookup; hide ShowsChannel; hide ChannelsWithDiff; hide Candidates; hide ItemOf; hide PruneItem;
    forall i: nat | i < |channels|
      ensures ShowsChannel(item, local, channels, i, f, m)
    {
      PrunedChannelShowsRight(local, channels, f, m, i);
    }
  }

  lemma WholeItem(local: Data, channels: seq<Channel>, f: Field, m: string)
    ensures var item := ItemOf(local, channels, f, m);
            && item.current == Lookup(local, f, m) && item.confidence.Keys == item.upstreams.Keys
            && forall n :: n in item.upstreams ==> exists i :: 0 <= i < |channels| && channels[i].name == n
  {
    hide Upstreams; hide ExpressionPriority; hide Lookup; hide Trusted;
    var item := ItemOf(local, channels, f, m);
    forall n | n in item.upstreams
      ensures exists i :: 0 <= i < |channels| && channels[i].name == n
    {
      var i := UpstreamsFrom(Lookup(local, f, m), channels, ExpressionPriority(local, channels, m), f, m, n);
    }
  }

  lemma PrunedKeys(item: Item, shown: set<string>)
    requires item.confidence.Keys == item.upstreams.Keys
    ensures var pruned := PruneItem(item, shown);
            && pruned.current == item.current && pruned.confidence.Keys == pruned.upstreams.Keys
            && pruned.upstreams.Keys <= item.upstreams.Keys
  {
  }

  lemma PrunedChannelShowsRight(local: Data, channels: seq<Channel>, f: Field, m: string, i: nat)
    requires AllSettled(local, channels) && NoMarker(channels) && DistinctNames(NamesOf(channels))
    requires Differs(local, channels, f, m) && i < |channels|
    ensures ShowsChannel(PruneItem(ItemOf(local, channels, f, m), ChannelsWithDiff(Candidates(local, channels))), local, channels, i, f, m)
  {
    NotSkipped(local, channels, f, m);
    ColumnIs(local, channels, f, m, i);
    MarkedExactly(local, channels, i);
    TrustedIs(channels, i, m);
    UnsetIs(channels[i].data, m);
    hide AllSettled; hide NoMarker; hide DistinctNames; hide Differs; hide Upstreams; hide ExpressionPriority; hide ChannelsWithDiff; hide Candidates;
    hide Placeholder; hide LooksUnset; hide Trusted; hide ShouldShow; hide TakesPart; hide DiffersAt; hide Lookup;
  }

  /** The whole report: with distinct names and no expression that reads "same", a field is in it
      exactly when some channel differs there, and every item shows local's entry and, for each
      channel that takes part and differs anywhere, its own entry where it differs, the marker where
      it agrees or both have none, and nothing where only local has one. */
  lemma ReportExactly(localData: Data, channels: seq<Channel>, f: Field, m: string)
    requires DistinctNames(NamesOf(channels)) && NoSameExpression(channels)
    ensures var local, effective, d := Effective(localData), Normalized(channels), Report(localData, channels);
            && (Reported(d, f, m) <==> exists i: nat :: DiffersAt(local, effective, i, f, m))
            && (Reported(d, f, m) ==> ShowsRight(d[m][f], local, effective, f, m))
  {
    var local, effective := Effective(localData), Normalized(channels);
    EffectiveIsSettled(localData);
    forall i | 0 <= i < |effective| ensures Settled(effective[i].data) {
      EffectiveIsSettled(channels[i].data);
    }
    NoMarkerAfterNormalizing(channels);
    assert NamesOf(effective) == NamesOf(channels);
    hide Effective; hide Settled; hide NoMarker; hide DistinctNames; hide NoSameExpression; hide Normalized; hide ShowsRight; hide DiffersAt; hide Differs;
    PruneKeepsIncluded(local, effective, f, m);
    DiffersExactly(local, effective, f, m);
    if Differs(local, effective, f, m) {
      PrunedItemShowsRight(local, effective, f, m);
      CandidatesAreDifferences(local, effective, f, m);
      hide Candidates; hide ItemOf; hide PruneItem; hide ChannelsWithDiff; hide Survives;
    }
  }
}
