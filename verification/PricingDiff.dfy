/** The comparison of local and upstream pricing: a first pass collects the fields worth
    reporting, a second finds the channels with anything to show, a third prunes in place. */
module PricingDiff {
  import opened Text
  import opened Pricing

  datatype Channel = Channel(name: string, data: Data)

  datatype Item = Item(current: Value, upstreams: map<string, Value>, confidence: map<string, bool>)

  type Differences = map<string, map<Field, Item>>

  /** The marker for an upstream value that equals the local one. */
  const SAME := Str("same")

  const EPSILON := 0.000000001

  predicate NearlyEqual(a: Float, b: Float) {
    a.Fin? && b.Fin? && if a.r > b.r then a.r - b.r < EPSILON else b.r - a.r < EPSILON
  }

  predicate ValuesEqual(a: Value, b: Value) {
    if a.F64? && b.F64? then NearlyEqual(a.f, b.f) else a == b
  }

  /** A model's value in a field, `nil` when it has none. */
  function Lookup(data: Data, f: Field, m: string): Value {
    if m in Entries(data, f) then NormalizeSyncValue(f, Entries(data, f)[m]) else Null
  }

  predicate IsTiered(data: Data, m: string) {
    m in Entries(data, BillingMode) && Entries(data, BillingMode)[m] == TIERED
  }

  predicate ExpressionPriority(local: Data, channels: seq<Channel>, m: string) {
    IsTiered(local, m) || exists i :: 0 <= i < |channels| && IsTiered(channels[i].data, m)
  }

  /** Under expression priority only tiered channels and non-numeric fields take part. */
  predicate Considered(ch: Channel, priority: bool, m: string) {
    !priority || IsTiered(ch.data, m)
  }

  /** What one channel contributes to an item. */
  function Shown(local: Value, ch: Channel, f: Field, m: string): Value {
    var upstream := Lookup(ch.data, f, m);
    if m in Entries(ch.data, f) && ValuesEqual(local, upstream) then SAME
    else if upstream == Null && local == Null then SAME
    else upstream
  }

  predicate Differs1(local: Value, ch: Channel, f: Field, m: string) {
    m in Entries(ch.data, f) && (local == Null || !ValuesEqual(local, Lookup(ch.data, f, m)))
  }

  /** The upstream column of an item; channels sharing a name overwrite each other. */
  function Upstreams(local: Value, channels: seq<Channel>, priority: bool, f: Field, m: string): map<string, Value> {
    if channels == [] then map[]
    else
      var ch := channels[|channels| - 1];
      var rest := Upstreams(local, channels[..|channels| - 1], priority, f, m);
      if Considered(ch, priority, m) then rest[ch.name := Shown(local, ch, f, m)] else rest
  }

  /** The pricing endpoint's placeholder: model ratio 37.5 with completion ratio 1. */
  predicate Placeholder(data: Data, m: string) {
    var ratio, completion := AsFloat64(Lookup(data, ModelRatio, m)), AsFloat64(Lookup(data, CompletionRatio, m));
    && m in Entries(data, ModelRatio) && m in Entries(data, CompletionRatio)
    && ratio.Some? && completion.Some?
    && NearlyEqual(ratio.value, Fin(37.5)) && NearlyEqual(completion.value, Fin(1.0))
  }

  /** The trust table by channel name; a later channel of the same name replaces an earlier one. */
  function Trusted(channels: seq<Channel>, name: string, m: string): bool {
    if channels == [] then false
    else if channels[|channels| - 1].name == name then !Placeholder(channels[|channels| - 1].data, m)
    else Trusted(channels[..|channels| - 1], name, m)
  }

  function ItemOf(local: Data, channels: seq<Channel>, f: Field, m: string): Item {
    var current := Lookup(local, f, m);
    var upstreams := Upstreams(current, channels, ExpressionPriority(local, channels, m), f, m);
    Item(current, upstreams, map n | n in upstreams :: Trusted(channels, n, m))
  }

  /** Some considered channel has a value here that local lacks or that differs beyond the
      tolerance: what a report of (m, f) means. */
  predicate Differs(local: Data, channels: seq<Channel>, f: Field, m: string) {
    var priority := ExpressionPriority(local, channels, m);
    && !(priority && IsNumeric(f))
    && exists i :: 0 <= i < |channels| && Considered(channels[i], priority, m) && Differs1(Lookup(local, f, m), channels[i], f, m)
  }

  function AllModels(local: Data, channels: seq<Channel>): set<string> {
    if channels == [] then Names(local)
    else AllModels(local, channels[..|channels| - 1]) + Names(channels[|channels| - 1].data)
  }

  function CandidateRow(local: Data, channels: seq<Channel>, m: string): map<Field, Item> {
    map f: Field | Differs(local, channels, f, m) :: ItemOf(local, channels, f, m)
  }

  function Candidates(local: Data, channels: seq<Channel>): Differences {
    map m | m in AllModels(local, channels) && CandidateRow(local, channels, m) != map[] :: CandidateRow(local, channels, m)
  }

  predicate Visible(v: Value) {
    v != Null && v != SAME
  }

  predicate HasSomething(item: Item, name: string) {
    name in item.upstreams && Visible(item.upstreams[name])
  }

  /** The channels that have a visible value in some item. */
  function ChannelsWithDiff(d: Differences): set<string> {
    set m, f, n | m in d && f in d[m] && n in d[m][f].upstreams && HasSomething(d[m][f], n) :: n
  }

  function PruneItem(item: Item, shown: set<string>): Item {
    item.(upstreams := map n | n in item.upstreams && n in shown :: item.upstreams[n],
          confidence := map n | n in item.confidence && (n in shown || n !in item.upstreams) :: item.confidence[n])
  }

  predicate Survives(item: Item) {
    exists n :: n in item.upstreams && item.upstreams[n] != SAME
  }

  function PruneRow(row: map<Field, Item>, shown: set<string>): map<Field, Item> {
    map f | f in row && Survives(PruneItem(row[f], shown)) :: PruneItem(row[f], shown)
  }

  function Prune(d: Differences, shown: set<string>): Differences {
    map m | m in d && PruneRow(d[m], shown) != map[] :: PruneRow(d[m], shown)
  }

  function Normalized(channels: seq<Channel>): (normalized: seq<Channel>)
    ensures |normalized| == |channels|
    ensures forall i :: 0 <= i < |channels| ==> normalized[i] == Channel(channels[i].name, Effective(channels[i].data))
  {
    seq(|channels|, i requires 0 <= i < |channels| => Channel(channels[i].name, Effective(channels[i].data)))
  }

  /** What `buildDifferences` returns. */
  function Report(localData: Data, channels: seq<Channel>): Differences {
    var local, normalized := Effective(localData), Normalized(channels);
    var d := Candidates(local, normalized);
    Prune(d, ChannelsWithDiff(d))
  }

  predicate Reported(d: Differences, f: Field, m: string) {
    m in d && f in d[m]
  }

  predicate DistinctNames(names: seq<string>) {
    forall i, j :: 0 <= i < j < |names| ==> names[i] != names[j]
  }

  function NamesOf(channels: seq<Channel>): (names: seq<string>)
    ensures |names| == |channels|
    ensures forall i :: 0 <= i < |channels| ==> names[i] == channels[i].name
  {
    seq(|channels|, i requires 0 <= i < |channels| => channels[i].name)
  }

  /** A value the normaliser can leave behind. */
  ghost predicate Settled(data: Data) {
    && (forall f: Field, m :: m in Entries(data, f) ==> Entries(data, f)[m] != Null)
    && (forall f: Field, m :: m in Entries(data, f) && IsNumeric(f) ==> Usable(Entries(data, f)[m]))
    && (forall m :: m in Entries(data, BillingMode) ==> Entries(data, BillingMode)[m] in {TIERED, RATIO})
    && (forall m :: m in Entries(data, BillingExpr) ==> Entries(data, BillingExpr)[m].Str?)
  }

  lemma EffectiveIsSettled(data: Data)
    ensures Settled(Effective(data))
  {
    hide Effective; hide RowOf; hide TieredForm; hide PriceForm; hide RatioForm;
    forall f: Field, m | m in Entries(Effective(data), f)
      ensures var v := Entries(Effective(data), f)[m];
              && v != Null && (IsNumeric(f) ==> Usable(v))
              && (f == BillingMode ==> v in {TIERED, RATIO}) && (f == BillingExpr ==> v.Str?) {
      assert m in Names(Effective(data));
      EveryModelHasOneForm(data, m);
      EntryOfRow(Effective(data), f, m);
      FormIsSettled(RowOf(Effective(data), m), f);
    }
  }

  lemma FormIsSettled(row: Row, f: Field)
    requires f in row && (TieredForm(row) || PriceForm(row) || RatioForm(row))
    ensures row[f] != Null && (IsNumeric(f) ==> Usable(row[f]))
    ensures (f == BillingMode ==> row[f] in {TIERED, RATIO}) && (f == BillingExpr ==> row[f].Str?)
  {
  }

  lemma EntryOfRow(data: Data, f: Field, m: string)
    ensures m in Entries(data, f) <==> f in RowOf(data, m)
    ensures m in Entries(data, f) ==> Entries(data, f)[m] == RowOf(data, m)[f]
  {
  }

  lemma SettledLookup(data: Data, f: Field, m: string)
    requires Settled(data) && m in Entries(data, f)
    ensures Lookup(data, f, m) == Entries(data, f)[m] != Null
  {
  }

  lemma {:induction false} UpstreamsAt(local: Value, channels: seq<Channel>, priority: bool, f: Field, m: string, i: nat)
    requires i < |channels| && Considered(channels[i], priority, m)
    requires forall j :: i < j < |channels| ==> channels[j].name != channels[i].name
    ensures var u := Upstreams(local, channels, priority, f, m);
            channels[i].name in u && u[channels[i].name] == Shown(local, channels[i], f, m)
  {
    if i < |channels| - 1 {
      UpstreamsAt(local, channels[..|channels| - 1], priority, f, m, i);
    }
  }

  lemma {:induction false} UpstreamsFrom(local: Value, channels: seq<Channel>, priority: bool, f: Field, m: string, name: string) returns (i: nat)
    requires name in Upstreams(local, channels, priority, f, m)
    ensures i < |channels| && channels[i].name == name && Considered(channels[i], priority, m)
    ensures Upstreams(local, channels, priority, f, m)[name] == Shown(local, channels[i], f, m)
    ensures forall j :: i < j < |channels| && Considered(channels[j], priority, m) ==> channels[j].name != name
  {
    hide Shown;
    var n := |channels| - 1;
    if Considered(channels[n], priority, m) && channels[n].name == name {
      i := n;
    } else {
      i := UpstreamsFrom(local, channels[..n], priority, f, m, name);
    }
  }

  lemma {:induction false} ModelsInclude(local: Data, channels: seq<Channel>, i: nat, f: Field, m: string)
    requires i < |channels| && m in Entries(channels[i].data, f)
    ensures m in AllModels(local, channels)
  {
    var n := |channels| - 1;
    if i < n {
      ModelsInclude(local, channels[..n], i, f, m);
    } else {
      assert m in Names(channels[n].data);
    }
  }

  /** No upstream value that reaches the comparison is the literal marker. */
  ghost predicate NoMarker(channels: seq<Channel>) {
    forall i, f: Field, m :: 0 <= i < |channels| && m in Entries(channels[i].data, f) ==> Lookup(channels[i].data, f, m) != SAME
  }

  /** What a channel shows where it differs. */
  lemma DifferenceIsVisible(current: Value, ch: Channel, f: Field, m: string)
    requires Settled(ch.data) && Differs1(current, ch, f, m) && Lookup(ch.data, f, m) != SAME
    ensures Visible(Shown(current, ch, f, m))
  {
    SettledLookup(ch.data, f, m);
    hide Settled; hide NormalizeSyncValue; hide NearlyEqual;
  }

  /** An included item shows a visible value of the channel that differs. */
  lemma IncludedIsVisible(local: Data, channels: seq<Channel>, f: Field, m: string) returns (name: string)
    requires Settled(local) && (forall i :: 0 <= i < |channels| ==> Settled(channels[i].data))
    requires DistinctNames(NamesOf(channels)) && NoMarker(channels)
    requires Differs(local, channels, f, m)
    ensures HasSomething(ItemOf(local, channels, f, m), name)
    ensures m in AllModels(local, channels)
  {
    hide Settled; hide Visible; hide Shown; hide Lookup; hide Considered; hide Upstreams; hide AllModels; hide Trusted; hide ExpressionPriority;
    var priority, current := ExpressionPriority(local, channels, m), Lookup(local, f, m);
    var i :| 0 <= i < |channels| && Considered(channels[i], priority, m) && Differs1(current, channels[i], f, m);
    name := channels[i].name;
    assert forall j :: i < j < |channels| ==> NamesOf(channels)[j] != NamesOf(channels)[i];
    DifferenceIsVisible(current, channels[i], f, m);
    UpstreamsAt(current, channels, priority, f, m, i);
    ModelsInclude(local, channels, i, f, m);
  }

  /** An item that shows something of a marked channel outlives the prune. */
  lemma VisibleSurvives(d: Differences, shown: set<string>, f: Field, m: string, name: string)
    requires Reported(d, f, m) && HasSomething(d[m][f], name) && name in shown
    ensures Reported(Prune(d, shown), f, m)
  {
    assert PruneItem(d[m][f], shown).upstreams[name] == d[m][f].upstreams[name];
    assert Survives(PruneItem(d[m][f], shown));
    assert f in PruneRow(d[m], shown);
  }

  lemma PruneAddsNothing(d: Differences, shown: set<string>, f: Field, m: string)
    requires Reported(Prune(d, shown), f, m)
    ensures Reported(d, f, m)
  {
    hide PruneItem; hide Survives;
  }

  lemma CandidatesAreDifferences(local: Data, channels: seq<Channel>, f: Field, m: string)
    ensures Reported(Candidates(local, channels), f, m) <==> m in AllModels(local, channels) && Differs(local, channels, f, m)
    ensures Reported(Candidates(local, channels), f, m) ==> Candidates(local, channels)[m][f] == ItemOf(local, channels, f, m)
  {
    hide ItemOf; hide AllModels; hide Differs;
    if Differs(local, channels, f, m) {
      assert f in CandidateRow(local, channels, m);
    }
  }

  /** The prune never drops an included item, so what is reported is what was included. */
  lemma PruneKeepsIncluded(local: Data, channels: seq<Channel>, f: Field, m: string)
    requires Settled(local) && (forall i :: 0 <= i < |channels| ==> Settled(channels[i].data))
    requires DistinctNames(NamesOf(channels)) && NoMarker(channels)
    ensures var d := Candidates(local, channels);
            Reported(Prune(d, ChannelsWithDiff(d)), f, m) <==> Differs(local, channels, f, m)
  {
    hide Differs; hide ItemOf; hide AllModels; hide NoMarker; hide Settled; hide DistinctNames; hide Candidates; hide Prune; hide HasSomething;
    var d := Candidates(local, channels);
    var shown := ChannelsWithDiff(d);
    CandidatesAreDifferences(local, channels, f, m);
    if Differs(local, channels, f, m) {
      var name := IncludedIsVisible(local, channels, f, m);
      MarkedWhenVisible(d, f, m, name);
      VisibleSurvives(d, shown, f, m, name);
    }
    if Reported(Prune(d, shown), f, m) {
      PruneAddsNothing(d, shown, f, m);
    }
  }

  lemma MarkedWhenVisible(d: Differences, f: Field, m: string, name: string)
    requires Reported(d, f, m) && HasSomething(d[m][f], name)
    ensures name in ChannelsWithDiff(d)
  {
    hide Visible;
  }

  /** The channels' raw expressions never read "same" once trimmed. */
  ghost predicate NoSameExpression(channels: seq<Channel>) {
    forall i, m :: 0 <= i < |channels| && m in Entries(channels[i].data, BillingExpr) ==>
      var v := Entries(channels[i].data, BillingExpr)[m]; v.Str? ==> TrimSpace(v.s) != "same"
  }

  lemma EffectiveExpression(data: Data, m: string)
    requires m in Entries(Effective(data), BillingExpr)
    ensures m in Entries(data, BillingExpr) && Entries(data, BillingExpr)[m].Str?
    ensures Entries(Effective(data), BillingExpr)[m] == Str(TrimSpace(Entries(data, BillingExpr)[m].s))
  {
    hide Effective; hide RowOf; hide CleanRow; hide Resolve;
    RowOfEffective(data, m);
    EntryOfRow(Effective(data), BillingExpr, m);
    EntryOfRow(data, BillingExpr, m);
    ResolvedExpression(CleanRow(RowOf(data, m)));
    CleanedExpression(RowOf(data, m));
  }

  lemma ResolvedExpression(row: Row)
    requires BillingExpr in Resolve(row)
    ensures BillingExpr in row && row[BillingExpr].Str?
    ensures Resolve(row)[BillingExpr] == Str(TrimSpace(row[BillingExpr].s))
  {
    assert TrimSpace("") == "";
  }

  lemma CleanedExpression(row: Row)
    ensures BillingExpr in CleanRow(row) ==> BillingExpr in row && CleanRow(row)[BillingExpr] == row[BillingExpr]
  {
  }

  lemma NoMarkerAfterNormalizing(channels: seq<Channel>)
    requires NoSameExpression(channels)
    ensures NoMarker(Normalized(channels))
  {
    hide Effective;
    var normalized := Normalized(channels);
    forall i, f: Field, m | 0 <= i < |normalized| && m in Entries(normalized[i].data, f)
      ensures Lookup(normalized[i].data, f, m) != SAME {
      EffectiveIsSettled(channels[i].data);
      SettledLookup(normalized[i].data, f, m);
      if f == BillingExpr {
        EffectiveExpression(channels[i].data, m);
      }
    }
  }

  /** Every (model, field) is reported if and only if it really differs. */
  ghost predicate Faithful(localData: Data, channels: seq<Channel>) {
    forall f: Field, m ::
      Reported(Report(localData, channels), f, m) <==> Differs(Effective(localData), Normalized(channels), f, m)
  }

  lemma DistinctAndUnmarkedIsFaithful(localData: Data, channels: seq<Channel>)
    requires DistinctNames(NamesOf(channels)) && NoSameExpression(channels)
    ensures Faithful(localData, channels)
  {
    hide Effective; hide Settled; hide NoMarker; hide Differs; hide Candidates; hide Prune;
    var local, normalized := Effective(localData), Normalized(channels);
    EffectiveIsSettled(localData);
    forall i | 0 <= i < |normalized| ensures Settled(normalized[i].data) {
      EffectiveIsSettled(channels[i].data);
    }
    NoMarkerAfterNormalizing(channels);
    assert NamesOf(normalized) == NamesOf(channels);
    forall f: Field, m ensures Reported(Report(localData, channels), f, m) <==> Differs(local, normalized, f, m) {
      PruneKeepsIncluded(local, normalized, f, m);
    }
  }

  /** No model entry is empty, and none is there without reason: a reported model really differs in
      some field. */
  lemma ReportedModelDiffers(localData: Data, channels: seq<Channel>, m: string)
    requires DistinctNames(NamesOf(channels)) && NoSameExpression(channels)
    ensures m in Report(localData, channels)
       <==> exists f: Field :: Differs(Effective(localData), Normalized(channels), f, m)
    ensures m in Report(localData, channels) ==>
              exists f: Field :: f in Report(localData, channels)[m] && Differs(Effective(localData), Normalized(channels), f, m)
  {
    DistinctAndUnmarkedIsFaithful(localData, channels);
    hide Effective; hide Differs; hide Normalized; hide Report;
    if m in Report(localData, channels) {
      var f := SomeField(localData, channels, m);
      assert Reported(Report(localData, channels), f, m);
    }
    if f: Field :| Differs(Effective(localData), Normalized(channels), f, m) {
      assert Reported(Report(localData, channels), f, m);
    }
  }

  lemma SomeField(localData: Data, channels: seq<Channel>, m: string) returns (f: Field)
    requires m in Report(localData, channels)
    ensures f in Report(localData, channels)[m]
  {
    hide Effective; hide Candidates; hide ChannelsWithDiff; hide Normalized; hide PruneRow;
    var row := Report(localData, channels)[m];
    assert row != map[];
    f :| f in row;
  }

  /** Data compared with itself, under any channel names, yields an empty report. */
  lemma SelfComparisonIsEmpty(data: Data, channels: seq<Channel>)
    requires forall i :: 0 <= i < |channels| ==> channels[i].data == data
    ensures Report(data, channels) == map[]
  {
    hide Effective;
    var local, normalized := Effective(data), Normalized(channels);
    EffectiveIsSettled(data);
    forall m ensures CandidateRow(local, normalized, m) == map[] {
      forall f: Field ensures !Differs(local, normalized, f, m) {
        if m in Entries(local, f) {
          SettledLookup(local, f, m);
        }
      }
    }
    assert Candidates(local, normalized) == map[];
  }

  /** Nothing is reported at (m, f) when every contribution is the marker. */
  lemma AllMarkersIsPruned(local: Data, channels: seq<Channel>, f: Field, m: string, shown: set<string>)
    requires var priority := ExpressionPriority(local, channels, m); var current := Lookup(local, f, m);
             forall n :: n in Upstreams(current, channels, priority, f, m) ==> Upstreams(current, channels, priority, f, m)[n] == SAME
    ensures !Reported(Prune(Candidates(local, channels), shown), f, m)
  {
    hide Differs; hide AllModels; hide Upstreams; hide ExpressionPriority;
    assert !Survives(PruneItem(ItemOf(local, channels, f, m), shown));
  }

  function Single(f: Field, m: string, v: Value): Data {
    map[f := map[m := v]]
  }

  lemma SingleRatio(m: string, r: real)
    requires r >= 0.0
    ensures RowOf(Effective(Single(ModelRatio, m, F64(Fin(r)))), m) == map[ModelRatio := F64(Fin(r)), BillingMode := RATIO]
  {
    hide Effective; hide RowOf; hide CleanRow; hide Resolve;
    var d, row := Single(ModelRatio, m, F64(Fin(r))), map[ModelRatio := F64(Fin(r))];
    RowOfEffective(d, m);
    RowIs(d, m, row);
    RatioRow(row);
  }

  lemma RowIs(data: Data, m: string, row: Row)
    requires forall f: Field :: f in row <==> m in Entries(data, f)
    requires forall f: Field :: f in row ==> row[f] == Entries(data, f)[m]
    ensures RowOf(data, m) == row
  {
  }

  lemma RatioRow(row: Row)
    requires row.Keys == {ModelRatio} && Usable(row[ModelRatio])
    ensures EffectiveRow(row) == row[BillingMode := RATIO]
  {
    assert CleanRow(row) == row;
    assert Minus(row, [BillingExpr]) == row;
  }

  /** With a repeated name, a later agreeing channel hides an earlier differing one. */
  lemma RepeatedNameHidesADifference(names: seq<string>) returns (localData: Data, channels: seq<Channel>)
    requires !DistinctNames(names)
    ensures NamesOf(channels) == names && !Faithful(localData, channels)
    ensures forall i :: 0 <= i < |channels| ==> BillingExpr !in channels[i].data
  {
    hide Effective; hide Faithful;
    var at, later :| 0 <= at < later < |names| && names[at] == names[later];
    var one, two := Single(ModelRatio, "m", F64(Fin(1.0))), Single(ModelRatio, "m", F64(Fin(2.0)));
    localData := one;
    channels := seq(|names|, i requires 0 <= i < |names| => Channel(names[i], if i == at then two else one));
    assert NamesOf(channels) == names;
    SingleEntries("m", 1.0);
    SingleEntries("m", 2.0);
    HiddenDifference(localData, channels, "m", at, later);
  }

  lemma SingleEntries(m: string, r: real)
    requires r >= 0.0
    ensures var d := Effective(Single(ModelRatio, m, F64(Fin(r))));
            && m in Entries(d, ModelRatio) && Entries(d, ModelRatio)[m] == F64(Fin(r)) && !IsTiered(d, m)
  {
    hide Effective; hide RowOf;
    SingleRatio(m, r);
    EntryOfRow(Effective(Single(ModelRatio, m, F64(Fin(r)))), ModelRatio, m);
    EntryOfRow(Effective(Single(ModelRatio, m, F64(Fin(r)))), BillingMode, m);
  }

  ghost predicate PlainRatio(data: Data, m: string, r: real) {
    m in Entries(data, ModelRatio) && Entries(data, ModelRatio)[m] == F64(Fin(r)) && !IsTiered(data, m)
  }

  lemma HiddenDifference(localData: Data, channels: seq<Channel>, m: string, at: nat, later: nat)
    requires at < later < |channels| && channels[at].name == channels[later].name
    requires PlainRatio(Effective(localData), m, 1.0)
    requires forall i :: 0 <= i < |channels| ==> PlainRatio(Effective(channels[i].data), m, if i == at then 2.0 else 1.0)
    ensures !Faithful(localData, channels)
  {
    hide Effective; hide Candidates; hide Prune; hide ChannelsWithDiff;
    var local, normalized := Effective(localData), Normalized(channels);
    assert forall i :: 0 <= i < |normalized| ==> PlainRatio(normalized[i].data, m, if i == at then 2.0 else 1.0);
    assert !ExpressionPriority(local, normalized, m);
    var current := Lookup(local, ModelRatio, m);
    assert Differs1(current, normalized[at], ModelRatio, m);
    assert Differs(local, normalized, ModelRatio, m);
    assert normalized[later].name == normalized[at].name && Considered(normalized[later], false, m);
    forall n | n in Upstreams(current, normalized, false, ModelRatio, m)
      ensures Upstreams(current, normalized, false, ModelRatio, m)[n] == SAME {
      var i := UpstreamsFrom(current, normalized, false, ModelRatio, m, n);
      assert i != at;
    }
    AllMarkersIsPruned(local, normalized, ModelRatio, m, ChannelsWithDiff(Candidates(local, normalized)));
  }

  lemma SingleTiered(m: string, expression: string)
    requires TrimSpace(expression) == "same"
    ensures RowOf(Effective(map[BillingMode := map[m := TIERED], BillingExpr := map[m := Str(expression)]]), m)
         == map[BillingMode := TIERED, BillingExpr := SAME]
  {
    hide Effective; hide RowOf; hide CleanRow; hide Resolve;
    var d := map[BillingMode := map[m := TIERED], BillingExpr := map[m := Str(expression)]];
    var row := map[BillingMode := TIERED, BillingExpr := Str(expression)];
    RowOfEffective(d, m);
    RowIs(d, m, row);
    TieredRow(row);
  }

  lemma TieredRow(row: Row)
    requires row.Keys == {BillingMode, BillingExpr} && row[BillingMode] == TIERED
    requires row[BillingExpr].Str? && TrimSpace(row[BillingExpr].s) == "same"
    ensures EffectiveRow(row) == row[BillingExpr := SAME]
  {
    hide TrimSpace;
    assert CleanRow(row) == row;
    assert Minus(row[BillingExpr := SAME], NumericFields()) == row[BillingExpr := SAME];
  }

  /** An upstream expression that reads "same" is taken for the marker, and a model local does
      not have is missing its expression in the report. */
  lemma MarkerExpressionIsLost(names: seq<string>, expression: string) returns (channels: seq<Channel>)
    requires names != [] && TrimSpace(expression) == "same"
    ensures NamesOf(channels) == names && !Faithful(map[], channels)
    ensures forall i, m :: 0 <= i < |channels| && m in Entries(channels[i].data, BillingExpr) ==>
              Entries(channels[i].data, BillingExpr)[m] == Str(expression)
  {
    hide Effective; hide RowOf; hide Candidates; hide Prune; hide ChannelsWithDiff;
    var d := map[BillingMode := map["m" := TIERED], BillingExpr := map["m" := Str(expression)]];
    channels := seq(|names|, i requires 0 <= i < |names| => Channel(names[i], d));
    var local, normalized := Effective(map[]), Normalized(channels);
    SingleTiered("m", expression);
    EntryOfRow(Effective(d), BillingMode, "m");
    EntryOfRow(Effective(d), BillingExpr, "m");
    EmptyStaysEmpty("m");
    EntryOfRow(local, BillingExpr, "m");
    assert Lookup(local, BillingExpr, "m") == Null;
    assert IsTiered(normalized[0].data, "m");
    assert ExpressionPriority(local, normalized, "m");
    assert Differs1(Null, normalized[0], BillingExpr, "m");
    assert Differs(local, normalized, BillingExpr, "m");
    forall n | n in Upstreams(Null, normalized, true, BillingExpr, "m")
      ensures Upstreams(Null, normalized, true, BillingExpr, "m")[n] == SAME {
      var i := UpstreamsFrom(Null, normalized, true, BillingExpr, "m", n);
    }
    AllMarkersIsPruned(local, normalized, BillingExpr, "m", ChannelsWithDiff(Candidates(local, normalized)));
    assert NamesOf(channels) == names;
  }

  lemma EmptyStaysEmpty(m: string)
    ensures RowOf(Effective(map[]), m) == map[]
  {
    RowOfEffective(map[], m);
    assert RowOf(map[], m) == map[];
    NothingIsFixed();
  }

  /** Upstream expressions drawn from a given set of texts. */
  ghost predicate Uses(channels: seq<Channel>, allowed: string -> bool) {
    forall i, m :: 0 <= i < |channels| && m in Entries(channels[i].data, BillingExpr) ==>
      var v := Entries(channels[i].data, BillingExpr)[m]; v.Str? ==> allowed(v.s)
  }

  /** The report is faithful on all data of a given shape exactly when the channel names are
      distinct and no allowed expression reads "same". */
  lemma FaithfulExactly(names: seq<string>, allowed: string -> bool)
    ensures (forall localData, channels :: NamesOf(channels) == names && Uses(channels, allowed) ==> Faithful(localData, channels))
       <==> (DistinctNames(names) && (names == [] || forall e :: allowed(e) ==> TrimSpace(e) != "same"))
  {
    hide Faithful;
    if DistinctNames(names) && (names == [] || forall e :: allowed(e) ==> TrimSpace(e) != "same") {
      forall localData, channels | NamesOf(channels) == names && Uses(channels, allowed) ensures Faithful(localData, channels) {
        assert NoSameExpression(channels);
        DistinctAndUnmarkedIsFaithful(localData, channels);
      }
    } else if !DistinctNames(names) {
      var localData, channels := RepeatedNameHidesADifference(names);
      assert Uses(channels, allowed);
    } else {
      var e :| allowed(e) && TrimSpace(e) == "same";
      var channels := MarkerExpressionIsLost(names, e);
      assert Uses(channels, allowed);
    }
  }
}
