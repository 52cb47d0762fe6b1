/** What detection stages and what applying a selection leaves, name by name, said about the stored
    lists and texts. */
module UpstreamMeaning {
  import opened Text
  import opened ModelNames
  import opened UpstreamUpdates
  import opened UpstreamTask

  /** An ignore rule takes this name: literally, or behind its prefix through its trimmed body only. */
  predicate TakenBy(rule: string, name: string, rx: Regex) {
    if |rule| >= 6 && rule[..6] == "regex:" then rx(TrimSpace(rule[6..]), name) else rule == name
  }

  lemma TakenIs(rule: string, name: string, rx: Regex)
    ensures TakenBy(rule, name, rx) <==> Matches(rule, name, rx)
  {
    assert HasPrefix(rule, REGEX_PREFIX) <==> |rule| >= 6 && rule[..6] == "regex:";
  }

  /** The local models are the trimmed, non-blank pieces of the model text between commas. */
  lemma LocalExactly(ch: Channel, x: string)
    ensures x in LocalModels(ch) <==>
              x != "" && ch.models != "" && exists piece :: piece in Split(Trim(ch.models, {','}), ',') && TrimSpace(piece) == x
  {
    hide TrimSpace; hide Normalize;
    NormalizeIsNormal(GetModels(ch.models));
  }

  /** Detection, name by name: a local name is pending for removal exactly when the upstream no longer
      has it and it is no alias; an upstream name for addition exactly when it is not local, no
      redirect target, and no rule takes it. */
  lemma PendingExactly(ch: Channel, upstream: seq<string>, mapping: map<string, string>, rx: Regex, x: string)
    ensures x in PendingRemoves(ch, upstream, mapping)
       <==> x in LocalModels(ch) && x !in mapping && x !in Normalize(upstream)
    ensures x in PendingAdds(ch, upstream, mapping, rx)
       <==> && x in Normalize(upstream) && x !in LocalModels(ch) && x !in mapping.Values
            && forall rule :: rule in Normalize(ch.settings.ignored) ==> !TakenBy(rule, x, rx)
  {
    hide Normalize; hide Clean; hide LocalModels; hide TakenBy; hide Matches; hide Ignored; hide PendingAdds; hide PendingRemoves;
    PendingSpec(ch, upstream, mapping, rx);
    IgnoredByMember(Normalize(ch.settings.ignored), x, rx);
    forall rule
      ensures TakenBy(rule, x, rx) <==> Matches(rule, x, rx)
    {
      TakenIs(rule, x, rx);
    }
  }

  /** The names keep the order they had. */
  ghost predicate SameOrder(names: seq<string>, all: seq<string>) {
    forall i, j :: 0 <= i < j < |names| ==> Ahead(names[i], names[j], all)
  }

  ghost predicate Ahead(x: string, y: string, all: seq<string>) {
    exists p, q :: 0 <= p < q < |all| && all[p] == x && all[q] == y
  }

  lemma {:induction false} FilterInOrder(names: seq<string>, keep: string -> bool)
    ensures SameOrder(Filter(names, keep), names)
  {
    if names != [] {
      var n := |names| - 1;
      FilterInOrder(names[..n], keep);
      FilterSpec(names[..n], keep);
      hide SameOrder;
      OrderGrows(Filter(names[..n], keep), names[..n], names[n]);
      assert names[..n] + [names[n]] == names;
    }
  }

  lemma OrderGrows(kept: seq<string>, before: seq<string>, last: string)
    requires SameOrder(kept, before) && forall x :: x in kept ==> x in before
    ensures SameOrder(kept, before + [last]) && SameOrder(kept + [last], before + [last])
  {
    hide Ahead;
    forall i, j | 0 <= i < j < |kept|
      ensures Ahead(kept[i], kept[j], before + [last])
    {
      AheadInMore(kept[i], kept[j], before, last);
    }
    var more := kept + [last];
    forall i, j | 0 <= i < j < |more|
      ensures Ahead(more[i], more[j], before + [last])
    {
      if j == |kept| {
        assert kept[i] in kept;
        assert (before + [last])[..|before|] == before;
        AheadOfLast(kept[i], before + [last]);
      } else {
        AheadInMore(kept[i], kept[j], before, last);
      }
    }
  }

  lemma AheadInMore(x: string, y: string, all: seq<string>, last: string)
    requires Ahead(x, y, all)
    ensures Ahead(x, y, all + [last])
  {
    var p, q :| 0 <= p < q < |all| && all[p] == x && all[q] == y;
    assert (all + [last])[p] == x && (all + [last])[q] == y;
  }

  lemma AheadOfLast(x: string, all: seq<string>)
    requires all != [] && x in all[..|all| - 1]
    ensures Ahead(x, all[|all| - 1], all)
  {
    var p :| 0 <= p < |all| - 1 && all[..|all| - 1][p] == x;
    assert all[p] == x;
  }

  /** Both pending lists come in the order of the list they are taken from. */
  lemma PendingInOrder(ch: Channel, upstream: seq<string>, mapping: map<string, string>, rx: Regex)
    ensures SameOrder(PendingAdds(ch, upstream, mapping, rx), Normalize(upstream))
    ensures SameOrder(PendingRemoves(ch, upstream, mapping), LocalModels(ch))
  {
    hide Normalize; hide Clean; hide LocalModels; hide Ignored; hide PendingAdds; hide PendingRemoves; hide SameOrder;
    PendingSpec(ch, upstream, mapping, rx);
    FilterInOrder(Normalize(upstream), x => MissesLocally(LocalModels(ch), ch.settings.ignored, mapping, rx, x));
    FilterInOrder(LocalModels(ch), x => GoneUpstream(Normalize(upstream), mapping, x));
  }

  /** The name comes up here for the first time. */
  predicate FirstAt(models: seq<string>, x: string, p: nat) {
    p < |models| && TrimSpace(models[p]) == x && forall q: nat :: q < p ==> TrimSpace(models[q]) != x
  }

  /** Normalising keeps first occurrences, in their order. */
  lemma {:induction false} NormalizeInOrder(models: seq<string>, i: nat, j: nat) returns (p: nat, q: nat)
    requires i < j < |Normalize(models)|
    ensures p < q && FirstAt(models, Normalize(models)[i], p) && FirstAt(models, Normalize(models)[j], q)
  {
    hide TrimSpace; hide FirstAt;
    p := FirstPlace(models, i);
    q := FirstPlace(models, j);
    FirstPlacesInOrder(models, i, j, p, q);
  }

  lemma NormalizeStep(models: seq<string>)
    requires models != []
    ensures var n := |models| - 1; var name, before := TrimSpace(models[n]), Normalize(models[..n]);
            Normalize(models) == if name == "" || name in before then before else before + [name]
  {
    hide TrimSpace;
    var n := |models| - 1;
    var name, trimmed := TrimSpace(models[n]), TrimmedNames(models[..n]);
    if name != "" {
      assert (trimmed + [name])[..|trimmed|] == trimmed;
    }
  }

  lemma {:induction false} FirstPlace(models: seq<string>, i: nat) returns (p: nat)
    requires i < |Normalize(models)|
    ensures FirstAt(models, Normalize(models)[i], p)
  {
    assert models == [] ==> Normalize(models) == [];
    hide TrimSpace; hide Normalize;
    var n := |models| - 1;
    NormalizeStep(models);
    var before := Normalize(models[..n]);
    if i < |before| {
      p := FirstPlace(models[..n], i);
      assert forall q: nat :: q < n ==> models[..n][q] == models[q];
    } else {
      p := n;
      NormalizeIsNormal(models[..n]);
      forall q: nat | q < n
        ensures TrimSpace(models[q]) != TrimSpace(models[n])
      {
        assert models[..n][q] == models[q] && models[..n][q] in models[..n];
      }
    }
  }

  lemma {:induction false} FirstPlacesInOrder(models: seq<string>, i: nat, j: nat, p: nat, q: nat)
    requires i < j < |Normalize(models)|
    requires FirstAt(models, Normalize(models)[i], p) && FirstAt(models, Normalize(models)[j], q)
    ensures p < q
  {
    hide TrimSpace; hide Normalize;
    if models != [] {
      var n := |models| - 1;
      NormalizeStep(models);
      var before := Normalize(models[..n]);
      assert forall k: nat :: k < n ==> models[..n][k] == models[k];
      if j < |before| {
        var p' := FirstPlace(models[..n], i);
        var q' := FirstPlace(models[..n], j);
        assert p' == p && q' == q by {
          OneFirst(models, before[i], p', p);
          OneFirst(models, before[j], q', q);
        }
        FirstPlacesInOrder(models[..n], i, j, p, q);
      } else {
        var p' := FirstPlace(models[..n], i);
        OneFirst(models, before[i], p', p);
        NormalizeIsNormal(models[..n]);
        assert TrimSpace(models[n]) !in before;
        assert forall k: nat :: k < n ==> models[..n][k] in models[..n];
      }
    }
  }

  lemma OneFirst(models: seq<string>, x: string, p: nat, q: nat)
    requires FirstAt(models, x, p) && FirstAt(models, x, q)
    ensures p == q
  {
    hide TrimSpace;
  }

  /** The selected lists, name by name. */
  lemma SelectedExactly(ch: Channel, sel: Selection, x: string)
    ensures x in Adds(ch, sel) <==> x in Normalize(sel.add) && x in Normalize(ch.settings.detected)
    ensures x in Ignores(ch, sel) <==> x in Normalize(sel.ignore) && x in Normalize(ch.settings.detected)
    ensures x in Removes(ch, sel)
       <==> x in Normalize(sel.remove) && x in Normalize(ch.settings.removed) && !(x in Normalize(sel.add) && x in Normalize(ch.settings.detected))
  {
    hide Normalize; hide Clean;
    NormalizeIsNormal(ch.settings.detected);
    NormalizeIsNormal(ch.settings.removed);
    IntersectSpec(sel.add, Normalize(ch.settings.detected));
    IntersectSpec(sel.ignore, Normalize(ch.settings.detected));
    IntersectSpec(sel.remove, Normalize(ch.settings.removed));
    var r := Intersect(sel.remove, Normalize(ch.settings.removed));
    OnNormal(r, Adds(ch, sel));
    FilterSpec(r, y => y !in Adds(ch, sel));
  }

  /** What applying a selection leaves staged and ruled, name by name. */
  lemma SettingsExactly(ch: Channel, sel: Selection, x: string)
    ensures var after := ApplyUpdates(ch, sel).settings;
            && (x in after.detected <==> x in Normalize(ch.settings.detected) && x !in Normalize(sel.add) && x !in Normalize(sel.ignore))
            && (x in after.removed <==> && x in Normalize(ch.settings.removed)
                                        && (x in Normalize(sel.remove) ==> x in Normalize(sel.add) && x in Normalize(ch.settings.detected)))
            && (x in Normalize(after.ignored)
                <==> && (x in Normalize(ch.settings.ignored) || (x in Normalize(sel.ignore) && x in Normalize(ch.settings.detected)))
                     && !(x in Normalize(sel.add) && x in Normalize(ch.settings.detected)))
  {
    hide Normalize; hide Clean; hide Adds; hide Ignores; hide Removes; hide LocalModels; hide ApplySelected;
    SelectedExactly(ch, sel, x);
    SelectedSpec(ch, sel);
    NewRules(ch, sel);
    var detected, removed := Normalize(ch.settings.detected), Normalize(ch.settings.removed);
    NormalizeIsNormal(ch.settings.detected);
    NormalizeIsNormal(ch.settings.removed);
    SubtractLeft(detected, Adds(ch, sel) + Ignores(ch, sel));
    SubtractLeft(removed, Removes(ch, sel));
    NormalizeKeepsNormal(detected);
    NormalizeKeepsNormal(removed);
    FilterSpec(detected, y => y !in Adds(ch, sel) + Ignores(ch, sel));
    FilterSpec(removed, y => y !in Removes(ch, sel));
  }

  /** The models after applying, name by name, when no addition holds a comma. */
  lemma ModelsExactly(ch: Channel, sel: Selection, upstream: seq<string>, mapping: map<string, string>, rx: Regex, x: string)
    requires Detected(ch, upstream, mapping, rx) && forall y :: y in Adds(ch, sel) ==> ',' !in y
    ensures x in LocalModels(ApplyUpdates(ch, sel))
       <==> || (x in Normalize(sel.add) && x in ch.settings.detected)
            || (x in LocalModels(ch) && !(x in Normalize(sel.remove) && x in ch.settings.removed))
  {
    hide Normalize; hide Clean; hide Adds; hide Ignores; hide Removes; hide LocalModels; hide ApplyUpdates; hide PendingAdds; hide PendingRemoves; hide Ignored;
    AppliedChannel(ch, sel, upstream, mapping, rx);
    SelectedExactly(ch, sel, x);
    PendingSpec(ch, upstream, mapping, rx);
    NormalizeKeepsNormal(ch.settings.detected);
    NormalizeKeepsNormal(ch.settings.removed);
    PendingRespectsMapping(ch, upstream, mapping, rx);
    FilterSpec(LocalModels(ch), y => y !in Removes(ch, sel));
  }

  /** What a check stages: models and rules stay, the lists are the pending ones, and after automatic
      adoption none is left to add. */
  lemma CheckStages(ch: Channel, upstream: seq<string>, mapping: map<string, string>, rx: Regex, x: string)
    ensures var d := Detect(ch, upstream, mapping, rx);
            && d.models == ch.models && d.settings.ignored == ch.settings.ignored
            && (x in d.settings.removed <==> x in LocalModels(ch) && x !in mapping && x !in Normalize(upstream))
            && (x in d.settings.detected
                <==> && x in Normalize(upstream) && x !in LocalModels(ch) && x !in mapping.Values
                     && forall rule :: rule in Normalize(ch.settings.ignored) ==> !TakenBy(rule, x, rx))
    ensures var a := Synchronised(ch, upstream, mapping, rx);
            && a.settings.ignored == ch.settings.ignored && a.settings.detected == []
            && (x in a.settings.removed <==> x in LocalModels(ch) && x !in mapping && x !in Normalize(upstream))
            && (PendingAdds(ch, upstream, mapping, rx) == [] ==> a.models == ch.models)
  {
    hide Normalize; hide LocalModels; hide TakenBy; hide PendingAdds; hide PendingRemoves;
    PendingExactly(ch, upstream, mapping, rx, x);
  }

  /** Merging leaves the base in front, as it is, and the new names behind it in their order. */
  lemma MergeInOrder(base: seq<string>, appended: seq<string>)
    ensures var merged, n := Merge(base, appended), |Normalize(base)|;
            n <= |merged| && merged[..n] == Normalize(base) && SameOrder(merged[n..], Normalize(appended))
  {
    hide Normalize; hide SameOrder;
    FilterInOrder(Normalize(appended), x => x !in Normalize(base));
    assert Merge(base, appended)[|Normalize(base)|..] == Filter(Normalize(appended), x => x !in Normalize(base));
  }
}
