/** Detecting the difference between a channel's models and its upstream's, and applying what a
    administrator selected. Regular expressions are a parameter: `rx(pattern, name)`. */
module UpstreamUpdates {
  import opened Text
  import opened ModelNames

  type Regex = (string, string) -> bool

  const REGEX_PREFIX := "regex:"

  function CutRegex(rule: string): string
    requires HasPrefix(rule, REGEX_PREFIX)
  {
    TrimSpace(rule[|REGEX_PREFIX|..])
  }

  predicate Matches(rule: string, name: string, rx: Regex) {
    if HasPrefix(rule, REGEX_PREFIX) then rx(CutRegex(rule), name) else rule == name
  }

  predicate Ignored(rules: seq<string>, name: string, rx: Regex) {
    exists i :: 0 <= i < |rules| && Matches(rules[i], name, rx)
  }

  datatype Settings = Settings(ignored: seq<string>, detected: seq<string>, removed: seq<string>)

  /** A channel's comma-separated model text and its update settings. */
  datatype Channel = Channel(models: string, settings: Settings)

  /** `Channel.GetModels`. */
  function GetModels(models: string): seq<string> {
    ReadList(models, ',')
  }

  function LocalModels(ch: Channel): seq<string> {
    Normalize(GetModels(ch.models))
  }

  /** The tests of `collectPendingUpstreamModelChangesFromModels`. */
  predicate MissesLocally(local: seq<string>, ignored: seq<string>, mapping: map<string, string>, rx: Regex, name: string) {
    name !in local && name !in mapping.Values && !Ignored(Normalize(ignored), name, rx)
  }

  predicate GoneUpstream(upstream: seq<string>, mapping: map<string, string>, name: string) {
    name !in mapping && name !in upstream
  }

  function PendingAdds(ch: Channel, upstream: seq<string>, mapping: map<string, string>, rx: Regex): seq<string> {
    Normalize(Filter(Normalize(upstream), x => MissesLocally(LocalModels(ch), ch.settings.ignored, mapping, rx, x)))
  }

  function PendingRemoves(ch: Channel, upstream: seq<string>, mapping: map<string, string>): seq<string> {
    Normalize(Filter(LocalModels(ch), x => GoneUpstream(Normalize(upstream), mapping, x)))
  }

  /** A detection that only stages what it found. */
  function Detect(ch: Channel, upstream: seq<string>, mapping: map<string, string>, rx: Regex): Channel {
    ch.(settings := ch.settings.(detected := PendingAdds(ch, upstream, mapping, rx), removed := PendingRemoves(ch, upstream, mapping)))
  }

  /** `applySelectedModelChanges`: add wins over remove. */
  function ApplySelected(origin: seq<string>, add: seq<string>, remove: seq<string>): seq<string> {
    var normalizedAdd := Normalize(add);
    var normalizedRemove := Subtract(Normalize(remove), normalizedAdd);
    Subtract(Merge(origin, normalizedAdd), normalizedRemove)
  }

  /** What an administrator ticked. */
  datatype Selection = Selection(add: seq<string>, ignore: seq<string>, remove: seq<string>)

  function Adds(ch: Channel, sel: Selection): seq<string> {
    Intersect(sel.add, Normalize(ch.settings.detected))
  }

  function Ignores(ch: Channel, sel: Selection): seq<string> {
    Intersect(sel.ignore, Normalize(ch.settings.detected))
  }

  function Removes(ch: Channel, sel: Selection): seq<string> {
    Subtract(Intersect(sel.remove, Normalize(ch.settings.removed)), Adds(ch, sel))
  }

  /** `applyChannelUpstreamModelUpdates` on a channel whose write succeeds. */
  function ApplyUpdates(ch: Channel, sel: Selection): Channel {
    var adds, ignores, removes := Adds(ch, sel), Ignores(ch, sel), Removes(ch, sel);
    var origin := LocalModels(ch);
    var next := ApplySelected(origin, adds, removes);
    var merged := Merge(ch.settings.ignored, ignores);
    Channel(
      if origin == next then ch.models else Join(next, ','),
      Settings(
        if adds == [] then merged else Subtract(merged, adds),
        Subtract(Normalize(ch.settings.detected), adds + ignores),
        Subtract(Normalize(ch.settings.removed), removes)))
  }

  /** As a rule this name ignores itself and nothing else. Any name that does not start with the
      regex prefix does; one that does start with it depends on what its body matches. */
  ghost predicate ExactRule(name: string, rx: Regex) {
    forall x :: Clean(x) ==> (Matches(name, x, rx) <==> x == name)
  }

  /** What is added holds no comma, and the names that become rules, or stop being rules, are exact. */
  ghost predicate PlainSelection(ch: Channel, sel: Selection, rx: Regex) {
    && (forall x :: x in Adds(ch, sel) ==> ',' !in x)
    && (forall x :: x in Adds(ch, sel) && x in Normalize(ch.settings.ignored) ==> ExactRule(x, rx))
    && (forall x :: x in Ignores(ch, sel) ==> ExactRule(x, rx))
  }

  /** The staged lists are what a detection found. */
  ghost predicate Detected(ch: Channel, upstream: seq<string>, mapping: map<string, string>, rx: Regex) {
    && ch.settings.detected == PendingAdds(ch, upstream, mapping, rx)
    && ch.settings.removed == PendingRemoves(ch, upstream, mapping)
  }

  lemma LocalIsNormal(ch: Channel)
    ensures Normal(LocalModels(ch)) && forall x :: x in LocalModels(ch) ==> ',' !in x
  {
    hide TrimSpace;
    NormalizeIsNormal(GetModels(ch.models));
    forall x | x in LocalModels(ch) ensures ',' !in x {
      var m :| m in GetModels(ch.models) && TrimSpace(m) == x;
      NoCommaRead(ch.models, m);
      TrimKeepsChars(m);
    }
  }

  lemma TrimKeepsChars(m: string)
    ensures forall c :: c in TrimSpace(m) ==> c in m
  {
    TrimIsTrimmed(m, SPACES);
  }

  lemma NoCommaRead(models: string, m: string)
    requires m in GetModels(models)
    ensures ',' !in m
  {
    SplitPieces(Trim(models, {','}), ',');
  }

  /** Detection, on normal lists: the pending lists and what they are made of. */
  lemma PendingSpec(ch: Channel, upstream: seq<string>, mapping: map<string, string>, rx: Regex)
    ensures var p := PendingAdds(ch, upstream, mapping, rx);
            && p == Filter(Normalize(upstream), x => MissesLocally(LocalModels(ch), ch.settings.ignored, mapping, rx, x))
            && Normal(p)
            && forall x :: x in p <==> x in Normalize(upstream) && MissesLocally(LocalModels(ch), ch.settings.ignored, mapping, rx, x)
    ensures var r := PendingRemoves(ch, upstream, mapping);
            && r == Filter(LocalModels(ch), x => GoneUpstream(Normalize(upstream), mapping, x))
            && Normal(r)
            && forall x :: x in r <==> x in LocalModels(ch) && GoneUpstream(Normalize(upstream), mapping, x)
  {
    hide Normalize; hide MissesLocally; hide GoneUpstream; hide Clean;
    NormalizeIsNormal(upstream);
    LocalIsNormal(ch);
    var missing := x => MissesLocally(LocalModels(ch), ch.settings.ignored, mapping, rx, x);
    var gone := x => GoneUpstream(Normalize(upstream), mapping, x);
    FilterSpec(Normalize(upstream), missing);
    FilterSpec(LocalModels(ch), gone);
    NormalizeKeepsNormal(Filter(Normalize(upstream), missing));
    NormalizeKeepsNormal(Filter(LocalModels(ch), gone));
  }

  /** A redirect source is an alias and never a pending removal; a redirect target is never a
      pending addition; neither list names an ignored or a present model. */
  lemma PendingRespectsMapping(ch: Channel, upstream: seq<string>, mapping: map<string, string>, rx: Regex)
    ensures forall x :: x in PendingRemoves(ch, upstream, mapping) ==> x !in mapping && x in LocalModels(ch) && x !in Normalize(upstream)
    ensures forall x :: x in PendingAdds(ch, upstream, mapping, rx) ==>
              x !in mapping.Values && x !in LocalModels(ch) && x in Normalize(upstream) && !Ignored(Normalize(ch.settings.ignored), x, rx)
  {
    hide Ignored; hide LocalModels;
    PendingSpec(ch, upstream, mapping, rx);
  }

  /** The selected lists are normal and taken from the staged ones. */
  lemma SelectedSpec(ch: Channel, sel: Selection)
    ensures Normal(Adds(ch, sel)) && Normal(Ignores(ch, sel)) && Normal(Removes(ch, sel))
    ensures forall x :: x in Adds(ch, sel) ==> x in Normalize(ch.settings.detected)
    ensures forall x :: x in Ignores(ch, sel) ==> x in Normalize(ch.settings.detected)
    ensures forall x :: x in Removes(ch, sel) ==> x in Normalize(ch.settings.removed) && x !in Adds(ch, sel)
  {
    hide Normalize; hide Clean;
    NormalizeIsNormal(ch.settings.detected);
    NormalizeIsNormal(ch.settings.removed);
    IntersectSpec(sel.add, Normalize(ch.settings.detected));
    IntersectSpec(sel.ignore, Normalize(ch.settings.detected));
    IntersectSpec(sel.remove, Normalize(ch.settings.removed));
    var r := Intersect(sel.remove, Normalize(ch.settings.removed));
    OnNormal(r, Adds(ch, sel));
    FilterSpec(r, x => x !in Adds(ch, sel));
  }

  lemma IntersectSpec(base: seq<string>, allowed: seq<string>)
    ensures Normal(Intersect(base, allowed))
    ensures Normal(allowed) ==> forall x :: x in Intersect(base, allowed) <==> x in Normalize(base) && x in allowed
  {
    hide Clean;
    NormalizeIsNormal(base);
    FilterSpec(Normalize(base), x => x in Normalize(allowed));
    if Normal(allowed) {
      NormalizeKeepsNormal(allowed);
    }
  }

  /** The new model list: retained local names in their order, then the added ones. */
  lemma AppliedModels(origin: seq<string>, add: seq<string>, remove: seq<string>)
    requires Normal(origin) && Normal(add) && Normal(remove)
    requires (forall x :: x in add ==> x !in origin) && (forall x :: x in remove ==> x !in add)
    ensures ApplySelected(origin, add, remove) == Filter(origin, x => x !in remove) + add
    ensures Normal(ApplySelected(origin, add, remove))
  {
    hide Normalize; hide Clean;
    NormalizeKeepsNormal(add);
    NormalizeKeepsNormal(remove);
    OnNormal(remove, add);
    FilterAll(remove, x => x !in add);
    assert Subtract(Normalize(remove), Normalize(add)) == remove;
    OnNormal(origin, add);
    FilterAll(add, x => x !in origin);
    assert Merge(origin, add) == origin + add;
    ConcatNormal(origin, add);
    OnNormal(origin + add, remove);
    FilterConcat(origin, add, x => x !in remove);
    FilterAll(add, x => x !in remove);
    FilterSpec(origin + add, x => x !in remove);
  }

  /** After the new text is stored, reading it gives the new list. */
  lemma ModelsReadBack(ch: Channel, next: seq<string>)
    requires Normal(next) && forall x :: x in next ==> ',' !in x
    ensures Normalize(GetModels(if LocalModels(ch) == next then ch.models else Join(next, ','))) == next
  {
    ReadListOfJoin(next, ',');
    assert Storable(next, ',') by {
      assert forall i :: 0 <= i < |next| ==> next[i] in next;
    }
    NormalizeKeepsNormal(next);
  }

  /** Which names the new rules ignore: the old ones, and the freshly ignored unless added. */
  lemma RulesAfter(ch: Channel, sel: Selection, rx: Regex, x: string)
    requires PlainSelection(ch, sel, rx) && Clean(x) && x !in Adds(ch, sel)
    ensures Ignored(Normalize(ApplyUpdates(ch, sel).settings.ignored), x, rx)
       <==> Ignored(Normalize(ch.settings.ignored), x, rx) || x in Ignores(ch, sel)
  {
    hide Clean; hide Matches;
    var adds, ignores := Adds(ch, sel), Ignores(ch, sel);
    var merged, before, after := Merge(ch.settings.ignored, ignores), Normalize(ch.settings.ignored), ApplyUpdates(ch, sel).settings.ignored;
    SelectedSpec(ch, sel);
    NewRules(ch, sel);
    IgnoredByMember(Normalize(after), x, rx);
    IgnoredByMember(before, x, rx);
    forall g | g in Normalize(after) && Matches(g, x, rx) ensures Ignored(before, x, rx) || x in ignores {
      PlainRule(ch, sel, g, x, rx);
    }
    forall g | g in before && Matches(g, x, rx) ensures g in Normalize(after) {
      PlainRule(ch, sel, g, x, rx);
    }
    if x in ignores {
      PlainRule(ch, sel, x, x, rx);
    }
  }

  /** A selected name matches only itself where it acts as a rule. */
  lemma PlainRule(ch: Channel, sel: Selection, g: string, x: string, rx: Regex)
    requires PlainSelection(ch, sel, rx) && Clean(x)
    ensures g in Ignores(ch, sel) || (g in Adds(ch, sel) && g in Normalize(ch.settings.ignored)) ==> (Matches(g, x, rx) <==> g == x)
  {
    hide Matches; hide Clean;
  }

  lemma IgnoredByMember(rules: seq<string>, x: string, rx: Regex)
    ensures Ignored(rules, x, rx) <==> exists g :: g in rules && Matches(g, x, rx)
  {
    hide Matches;
    if g :| g in rules && Matches(g, x, rx) {
      var i :| 0 <= i < |rules| && rules[i] == g;
    }
  }

  lemma NewRules(ch: Channel, sel: Selection)
    ensures forall g :: g in Normalize(ApplyUpdates(ch, sel).settings.ignored)
              <==> (g in Normalize(ch.settings.ignored) || g in Ignores(ch, sel)) && g !in Adds(ch, sel)
  {
    hide Clean; hide Normalize; hide Adds; hide Ignores; hide Removes; hide ApplySelected; hide LocalModels;
    var adds, ignores := Adds(ch, sel), Ignores(ch, sel);
    var merged := Merge(ch.settings.ignored, ignores);
    SelectedSpec(ch, sel);
    MergeSpec(ch.settings.ignored, ignores);
    NormalizeKeepsNormal(ignores);
    OnNormal(merged, adds);
    FilterSpec(merged, x => x !in adds);
    NormalizeKeepsNormal(merged);
    NormalizeKeepsNormal(Filter(merged, x => x !in adds));
  }

  /** Applying keeps the list normal, the retained local names in order, and every alias. */
  lemma AppliedChannel(ch: Channel, sel: Selection, upstream: seq<string>, mapping: map<string, string>, rx: Regex)
    requires Detected(ch, upstream, mapping, rx) && forall x :: x in Adds(ch, sel) ==> ',' !in x
    ensures var next := LocalModels(ApplyUpdates(ch, sel));
            && next == Filter(LocalModels(ch), x => x !in Removes(ch, sel)) + Adds(ch, sel)
            && Normal(next)
            && (forall x :: x in mapping && x in LocalModels(ch) ==> x in next)
            && (forall x :: x in Adds(ch, sel) ==> x in Normalize(upstream) && x !in LocalModels(ch))
            && (forall x :: x in Removes(ch, sel) ==> x in LocalModels(ch) && x !in Normalize(upstream) && x !in mapping)
  {
    hide Clean; hide Normalize; hide Adds; hide Ignores; hide Removes; hide ApplySelected; hide GetModels; hide Ignored;
    var adds, removes, origin := Adds(ch, sel), Removes(ch, sel), LocalModels(ch);
    PendingSpec(ch, upstream, mapping, rx);
    NormalizeKeepsNormal(ch.settings.detected);
    NormalizeKeepsNormal(ch.settings.removed);
    PendingRespectsMapping(ch, upstream, mapping, rx);
    SelectedSpec(ch, sel);
    LocalIsNormal(ch);
    AppliedModels(origin, adds, removes);
    FilterSpec(origin, x => x !in removes);
    ModelsReadBack(ch, ApplySelected(origin, adds, removes));
  }

  /** The new list reads back as retained names followed by the added ones exactly when no addition
      holds a comma. Whatever is selected, only upstream names are added, and only names that are
      gone upstream and no aliases are removed. */
  lemma AppliedChannelExactly(ch: Channel, sel: Selection, upstream: seq<string>, mapping: map<string, string>, rx: Regex)
    requires Detected(ch, upstream, mapping, rx)
    ensures var next := LocalModels(ApplyUpdates(ch, sel));
            && Normal(next)
            && (next == Filter(LocalModels(ch), x => x !in Removes(ch, sel)) + Adds(ch, sel) <==> forall x :: x in Adds(ch, sel) ==> ',' !in x)
            && (forall x :: x in Adds(ch, sel) ==> x in Normalize(upstream) && x !in LocalModels(ch))
            && (forall x :: x in Removes(ch, sel) ==> x in LocalModels(ch) && x !in Normalize(upstream) && x !in mapping)
  {
    hide Clean; hide Normalize; hide Adds; hide Ignores; hide Removes; hide ApplyUpdates; hide LocalModels; hide Ignored; hide PendingAdds; hide PendingRemoves;
    var next := LocalModels(ApplyUpdates(ch, sel));
    LocalIsNormal(ApplyUpdates(ch, sel));
    PendingSpec(ch, upstream, mapping, rx);
    NormalizeKeepsNormal(ch.settings.detected);
    NormalizeKeepsNormal(ch.settings.removed);
    PendingRespectsMapping(ch, upstream, mapping, rx);
    SelectedSpec(ch, sel);
    if forall x :: x in Adds(ch, sel) ==> ',' !in x {
      AppliedChannel(ch, sel, upstream, mapping, rx);
    } else {
      var x :| x in Adds(ch, sel) && ',' in x;
      assert x in Filter(LocalModels(ch), x => x !in Removes(ch, sel)) + Adds(ch, sel) && x !in next;
    }
  }

  /** Detection after applying a plain selection finds exactly what was left over: the stored
      remaining lists are what the same upstream, mapping and rules would stage again. */
  lemma RedetectionFindsTheRest(ch: Channel, sel: Selection, upstream: seq<string>, mapping: map<string, string>, rx: Regex)
    requires Detected(ch, upstream, mapping, rx) && PlainSelection(ch, sel, rx)
    ensures Detected(ApplyUpdates(ch, sel), upstream, mapping, rx)
  {
    RedetectedAdds(ch, sel, upstream, mapping, rx);
    RedetectedRemoves(ch, sel, upstream, mapping, rx);
  }

  lemma RedetectedAdds(ch: Channel, sel: Selection, upstream: seq<string>, mapping: map<string, string>, rx: Regex)
    requires Detected(ch, upstream, mapping, rx) && PlainSelection(ch, sel, rx)
    ensures PendingAdds(ApplyUpdates(ch, sel), upstream, mapping, rx) == ApplyUpdates(ch, sel).settings.detected
  {
    hide Clean; hide Normalize; hide Adds; hide Ignores; hide Removes; hide LocalModels; hide Ignored; hide PendingAdds; hide PendingRemoves; hide ApplySelected;
    var after, adds, ignores, up := ApplyUpdates(ch, sel), Adds(ch, sel), Ignores(ch, sel), Normalize(upstream);
    var pending := ch.settings.detected;
    PendingSpec(ch, upstream, mapping, rx);
    PendingSpec(after, upstream, mapping, rx);
    NormalizeKeepsNormal(pending);
    NormalizeIsNormal(upstream);
    SelectedSpec(ch, sel);
    AppliedChannel(ch, sel, upstream, mapping, rx);
    FilterSpec(LocalModels(ch), x => x !in Removes(ch, sel));
    var missing := x => MissesLocally(LocalModels(ch), ch.settings.ignored, mapping, rx, x);
    var left := x => x !in adds + ignores;
    var missingAfter := x => MissesLocally(LocalModels(after), after.settings.ignored, mapping, rx, x);
    forall x | x in up ensures missingAfter(x) <==> missing(x) && left(x) {
      assert Clean(x);
      if x !in adds {
        RulesAfter(ch, sel, rx, x);
      }
    }
    FilterTwice(up, missing, left, missingAfter);
    SubtractLeft(pending, adds + ignores);
  }

  lemma SubtractLeft(pending: seq<string>, taken: seq<string>)
    requires Normal(pending) && forall x :: x in taken ==> Clean(x)
    ensures Subtract(Normalize(pending), taken) == Filter(pending, x => x !in taken)
  {
    hide Clean; hide Normalize;
    NormalizeKeepsNormal(pending);
    NormalizeIsNormal(taken);
    CleanSame(taken);
    FilterSame(pending, x => x !in Normalize(taken), x => x !in taken);
  }

  lemma CleanSame(names: seq<string>)
    requires forall x :: x in names ==> Clean(x)
    ensures forall x :: x in Normalize(names) <==> x in names
  {
    TrimmedKeepsClean(names);
    UniqIsDistinct(names);
  }

  lemma RedetectedRemoves(ch: Channel, sel: Selection, upstream: seq<string>, mapping: map<string, string>, rx: Regex)
    requires Detected(ch, upstream, mapping, rx) && forall x :: x in Adds(ch, sel) ==> ',' !in x
    ensures PendingRemoves(ApplyUpdates(ch, sel), upstream, mapping) == ApplyUpdates(ch, sel).settings.removed
  {
    hide Clean; hide Normalize; hide Adds; hide Ignores; hide Removes; hide LocalModels; hide Ignored; hide PendingAdds; hide PendingRemoves; hide ApplySelected;
    var after, adds, removes, up := ApplyUpdates(ch, sel), Adds(ch, sel), Removes(ch, sel), Normalize(upstream);
    var pending, origin := ch.settings.removed, LocalModels(ch);
    PendingSpec(ch, upstream, mapping, rx);
    PendingSpec(after, upstream, mapping, rx);
    NormalizeKeepsNormal(pending);
    SelectedSpec(ch, sel);
    AppliedChannel(ch, sel, upstream, mapping, rx);
    var gone := x => GoneUpstream(up, mapping, x);
    var stays := x => x !in removes;
    FilterConcat(Filter(origin, stays), adds, gone);
    FilterAll(adds, gone);
    FilterTwice(origin, stays, gone, x => gone(x) && stays(x));
    FilterTwice(origin, gone, stays, x => gone(x) && stays(x));
    SubtractLeft(pending, removes);
  }

  /** What is left of the staged lists and of the rules after everything was applied. */
  lemma AllApplied(ch: Channel, upstream: seq<string>, mapping: map<string, string>, rx: Regex)
    requires Detected(ch, upstream, mapping, rx)
    ensures var after := ApplyUpdates(ch, Everything(ch));
            && after.settings.detected == [] && after.settings.removed == []
            && forall g :: g in Normalize(after.settings.ignored) <==> g in Normalize(ch.settings.ignored) && g !in ch.settings.detected
  {
    hide Normalize; hide Clean; hide LocalModels; hide PendingAdds; hide PendingRemoves; hide ApplySelected; hide Adds; hide Ignores; hide Removes;
    PendingSpec(ch, upstream, mapping, rx);
    var p, r := ch.settings.detected, ch.settings.removed;
    SelectAll(ch, upstream, mapping, rx);
    NewRules(ch, Everything(ch));
    SubtractLeft(p, p + []);
    FilterAll(p, x => x !in p + []);
    SubtractLeft(r, r);
    FilterAll(r, x => x !in r);
  }

  function Everything(ch: Channel): Selection {
    Selection(ch.settings.detected, [], ch.settings.removed)
  }

  /** Every upstream name that is kept out by a rule is kept out by one that is not itself about to
      become a model. */
  ghost predicate StillIgnored(ch: Channel, upstream: seq<string>, mapping: map<string, string>, rx: Regex) {
    forall y :: y in Normalize(upstream) && y !in LocalModels(ch) && y !in mapping.Values && y !in ch.settings.detected ==>
      exists g :: g in Normalize(ch.settings.ignored) && g !in ch.settings.detected && Matches(g, y, rx)
  }

  /** Which names are pending once everything was applied. */
  lemma PendingAfterAll(ch: Channel, upstream: seq<string>, mapping: map<string, string>, rx: Regex, y: string)
    requires Detected(ch, upstream, mapping, rx)
    ensures var after := ApplyUpdates(ch, Everything(ch));
            (y in PendingAdds(after, upstream, mapping, rx)
             <==> && y in Normalize(upstream) && y !in LocalModels(after) && y !in mapping.Values
                  && !exists g :: g in Normalize(ch.settings.ignored) && g !in ch.settings.detected && Matches(g, y, rx))
  {
    hide Normalize; hide Clean; hide LocalModels; hide PendingAdds; hide Matches; hide Ignored; hide ApplyUpdates; hide Detected;
    var after := ApplyUpdates(ch, Everything(ch));
    AllApplied(ch, upstream, mapping, rx);
    PendingSpec(after, upstream, mapping, rx);
    IgnoredByMember(Normalize(after.settings.ignored), y, rx);
  }

  /** Applying everything pending leaves nothing to find exactly when no pending name holds a comma
      and no rule is lost to a model of the same name that was still needed. */
  lemma ApplyingAllConvergesExactly(ch: Channel, upstream: seq<string>, mapping: map<string, string>, rx: Regex)
    requires Detected(ch, upstream, mapping, rx)
    ensures var after := ApplyUpdates(ch, Everything(ch));
            && after.settings.detected == [] && after.settings.removed == []
            && (PendingAdds(after, upstream, mapping, rx) == [] && PendingRemoves(after, upstream, mapping) == []
                <==> (forall x :: x in ch.settings.detected ==> ',' !in x) && StillIgnored(ch, upstream, mapping, rx))
  {
    hide Normalize; hide Clean; hide LocalModels; hide PendingAdds; hide PendingRemoves; hide Matches; hide Ignored; hide ApplyUpdates;
    var after, p := ApplyUpdates(ch, Everything(ch)), ch.settings.detected;
    AllApplied(ch, upstream, mapping, rx);
    SelectAll(ch, upstream, mapping, rx);
    PendingRespectsMapping(ch, upstream, mapping, rx);
    if x :| x in p && ',' in x {
      CommaStaysPending(ch, upstream, mapping, rx, x);
    } else {
      AppliedChannel(ch, Everything(ch), upstream, mapping, rx);
      RedetectedRemoves(ch, Everything(ch), upstream, mapping, rx);
      FilterSpec(LocalModels(ch), x => x !in ch.settings.removed);
      forall y
        ensures y in PendingAdds(after, upstream, mapping, rx)
           <==> && y in Normalize(upstream) && y !in LocalModels(ch) && y !in mapping.Values && y !in p
                && !exists g :: g in Normalize(ch.settings.ignored) && g !in p && Matches(g, y, rx)
      {
        PendingAfterAll(ch, upstream, mapping, rx, y);
      }
      SomethingIn(PendingAdds(after, upstream, mapping, rx));
    }
  }

  lemma CommaStaysPending(ch: Channel, upstream: seq<string>, mapping: map<string, string>, rx: Regex, x: string)
    requires Detected(ch, upstream, mapping, rx) && x in ch.settings.detected && ',' in x
    ensures x in PendingAdds(ApplyUpdates(ch, Everything(ch)), upstream, mapping, rx)
  {
    hide Normalize; hide Clean; hide LocalModels; hide PendingAdds; hide Matches; hide Ignored; hide ApplyUpdates;
    PendingRespectsMapping(ch, upstream, mapping, rx);
    PendingAfterAll(ch, upstream, mapping, rx, x);
    LocalIsNormal(ApplyUpdates(ch, Everything(ch)));
    IgnoredByMember(Normalize(ch.settings.ignored), x, rx);
  }

  /** In particular it converges on names without a comma or the regex prefix. */
  lemma ApplyingAllConverges(ch: Channel, upstream: seq<string>, mapping: map<string, string>, rx: Regex)
    requires Detected(ch, upstream, mapping, rx)
    requires forall x :: x in ch.settings.detected ==> ',' !in x && !HasPrefix(x, REGEX_PREFIX)
    ensures var after := ApplyUpdates(ch, Everything(ch));
            PendingAdds(after, upstream, mapping, rx) == [] && PendingRemoves(after, upstream, mapping) == []
  {
    hide Normalize; hide Clean; hide LocalModels; hide PendingAdds; hide PendingRemoves; hide Ignored; hide ApplyUpdates;
    ApplyingAllConvergesExactly(ch, upstream, mapping, rx);
    PendingSpec(ch, upstream, mapping, rx);
    forall y | y in Normalize(upstream) && y !in LocalModels(ch) && y !in mapping.Values && y !in ch.settings.detected
      ensures exists g :: g in Normalize(ch.settings.ignored) && g !in ch.settings.detected && Matches(g, y, rx)
    {
      IgnoredByMember(Normalize(ch.settings.ignored), y, rx);
      var g :| g in Normalize(ch.settings.ignored) && Matches(g, y, rx);
      assert g in ch.settings.detected ==> g == y;
    }
  }

  lemma SelectAll(ch: Channel, upstream: seq<string>, mapping: map<string, string>, rx: Regex)
    requires Detected(ch, upstream, mapping, rx)
    ensures var sel := Selection(ch.settings.detected, [], ch.settings.removed);
            Adds(ch, sel) == ch.settings.detected && Ignores(ch, sel) == [] && Removes(ch, sel) == ch.settings.removed
  {
    hide Normalize; hide Clean; hide LocalModels; hide PendingAdds; hide PendingRemoves; hide Ignored;
    PendingSpec(ch, upstream, mapping, rx);
    PendingRespectsMapping(ch, upstream, mapping, rx);
    var p, r := ch.settings.detected, ch.settings.removed;
    NormalizeKeepsNormal(p);
    NormalizeKeepsNormal(r);
    NormalizeKeepsNormal([]);
    OnNormal(p, p);
    OnNormal(r, r);
    OnNormal([], p);
    FilterAll(p, x => x in p);
    FilterAll(r, x => x in r);
    FilterAll([], x => x in p);
    OnNormal(r, p);
    FilterAll(r, x => x !in p);
  }

  /** Selections that add or ignore nothing but one given name. */
  ghost predicate OnlyAbout(sel: Selection, name: string) {
    (forall x :: x in Normalize(sel.add) ==> x == name) && (forall x :: x in Normalize(sel.ignore) ==> x == name)
  }

  /** Whatever the channel and the upstream, a selection about this name leaves what is staged in
      step with what a detection finds. */
  ghost predicate AlwaysConsistent(name: string, rx: Regex) {
    forall ch, sel, upstream, mapping ::
      Detected(ch, upstream, mapping, rx) && OnlyAbout(sel, name) ==> Detected(ApplyUpdates(ch, sel), upstream, mapping, rx)
  }

  lemma OnlyAboutPlain(ch: Channel, sel: Selection, name: string, rx: Regex)
    requires OnlyAbout(sel, name) && ',' !in name && ExactRule(name, rx)
    ensures PlainSelection(ch, sel, rx)
  {
    hide Normalize; hide ExactRule;
    FilterSpec(Normalize(sel.add), x => x in Normalize(Normalize(ch.settings.detected)));
    FilterSpec(Normalize(sel.ignore), x => x in Normalize(Normalize(ch.settings.detected)));
  }

  lemma PlainNameIsExact(name: string, rx: Regex)
    requires !HasPrefix(name, REGEX_PREFIX)
    ensures ExactRule(name, rx)
  {
    hide Clean;
  }

  /** Under any matcher, selecting a name always leaves a consistent channel exactly when it holds no
      comma and, as a rule, ignores itself and nothing else. */
  lemma ConsistentExactly(name: string, rx: Regex)
    requires Clean(name)
    ensures AlwaysConsistent(name, rx) <==> ',' !in name && ExactRule(name, rx)
  {
    hide Detected; hide OnlyAbout; hide ApplyUpdates; hide Matches; hide Clean;
    if ',' in name {
      var ch, sel := CommaBreaks(name, rx);
      assert Detected(ch, [name], map[], rx) && OnlyAbout(sel, name);
    } else if ExactRule(name, rx) {
      forall ch, sel, upstream, mapping | Detected(ch, upstream, mapping, rx) && OnlyAbout(sel, name)
        ensures Detected(ApplyUpdates(ch, sel), upstream, mapping, rx) {
        OnlyAboutPlain(ch, sel, name, rx);
        RedetectionFindsTheRest(ch, sel, upstream, mapping, rx);
      }
    } else if !Matches(name, name, rx) {
      var ch, sel := UnmatchedRuleBreaks(name, rx);
      assert Detected(ch, [name], map[], rx) && OnlyAbout(sel, name);
    } else {
      var other :| Clean(other) && !(Matches(name, other, rx) <==> other == name);
      var ch, sel := BroadRuleBreaks(name, other, rx);
      assert Detected(ch, [name, other], map[], rx) && OnlyAbout(sel, name);
    }
  }

  /** Names that are no rules: consistent under every matcher unless they hold a comma. */
  lemma PlainNameIsConsistent(name: string, rx: Regex)
    requires Clean(name) && !HasPrefix(name, REGEX_PREFIX)
    ensures AlwaysConsistent(name, rx) <==> ',' !in name
  {
    PlainNameIsExact(name, rx);
    hide ExactRule; hide Clean; hide AlwaysConsistent;
    ConsistentExactly(name, rx);
  }

  lemma SingleNormal(name: string)
    requires Clean(name)
    ensures Normal([name]) && Normalize([name]) == [name]
  {
    NormalizeKeepsNormal([name]);
  }

  lemma EmptyLocal(settings: Settings)
    ensures LocalModels(Channel("", settings)) == [] && Normalize([]) == []
  {
  }

  /** A name with a comma falls apart when the model text is read back. */
  lemma CommaBreaks(name: string, rx: Regex) returns (ch: Channel, sel: Selection)
    requires Clean(name) && ',' in name
    ensures Detected(ch, [name], map[], rx) && OnlyAbout(sel, name)
    ensures !Detected(ApplyUpdates(ch, sel), [name], map[], rx)
  {
    hide Clean; hide Normalize; hide LocalModels; hide Matches;
    ch := Channel("", Settings([], [name], []));
    sel := Selection([name], [], []);
    SingleNormal(name);
    EmptyLocal(ch.settings);
    AllPending(ch, [name], rx);
    SelectAll(ch, [name], map[], rx);
    var after := ApplyUpdates(ch, sel);
    LocalIsNormal(after);
    assert name !in LocalModels(after);
    NewRules(ch, sel);
    assert name !in Normalize(after.settings.ignored);
    assert Normalize(after.settings.ignored) == [] by {
      SomethingIn(Normalize(after.settings.ignored));
    }
    PendingSpec(after, [name], map[], rx);
    assert name in PendingAdds(after, [name], map[], rx);
    SubtractLeft([name], [name] + []);
    FilterAll([name], x => x !in [name] + []);
  }

  lemma SomethingIn(names: seq<string>)
    ensures names != [] ==> exists x :: x in names
  {
    if names != [] {
      assert names[0] in names;
    }
  }

  /** A name that, as a rule, does not match itself is found again after it was ignored. */
  lemma UnmatchedRuleBreaks(name: string, rx: Regex) returns (ch: Channel, sel: Selection)
    requires Clean(name) && !Matches(name, name, rx)
    ensures Detected(ch, [name], map[], rx) && OnlyAbout(sel, name)
    ensures !Detected(ApplyUpdates(ch, sel), [name], map[], rx)
  {
    hide Clean; hide Normalize; hide LocalModels; hide Matches;
    SingleNormal(name);
    ch, sel := Staged([name], name, rx);
    var after := ApplyUpdates(ch, sel);
    OnlyRule(ch, sel, name, rx);
    PendingSpec(after, [name], map[], rx);
    assert name in PendingAdds(after, [name], map[], rx);
    SubtractLeft([name], [] + [name]);
    FilterSpec([name], x => x !in [] + [name]);
  }

  /** A name that, as a rule, matches another one hides that one once it was ignored. */
  lemma BroadRuleBreaks(name: string, other: string, rx: Regex) returns (ch: Channel, sel: Selection)
    requires Clean(name) && Clean(other) && name != other && Matches(name, other, rx)
    ensures Detected(ch, [name, other], map[], rx) && OnlyAbout(sel, name)
    ensures !Detected(ApplyUpdates(ch, sel), [name, other], map[], rx)
  {
    hide Clean; hide Normalize; hide LocalModels; hide Matches;
    var up := [name, other];
    TwoNormal(name, other);
    ch, sel := Staged(up, name, rx);
    var after := ApplyUpdates(ch, sel);
    OnlyRule(ch, sel, name, rx);
    IgnoredByMember(Normalize(after.settings.ignored), other, rx);
    PendingSpec(after, up, map[], rx);
    assert other !in PendingAdds(after, up, map[], rx);
    SubtractLeft(up, [] + [name]);
    FilterSpec(up, x => x !in [] + [name]);
    assert other in up;
  }

  /** A channel without models or rules for which these names are pending, and the request to
      ignore one of them. */
  lemma Staged(up: seq<string>, name: string, rx: Regex) returns (ch: Channel, sel: Selection)
    requires Normal(up) && name in up && Normal([name]) && Normalize([name]) == [name]
    ensures ch == Channel("", Settings([], up, [])) && sel == Selection([], [name], [])
    ensures Detected(ch, up, map[], rx) && OnlyAbout(sel, name)
    ensures Adds(ch, sel) == [] && Ignores(ch, sel) == [name] && LocalModels(ch) == []
  {
    hide Clean; hide Normalize; hide LocalModels; hide Matches; hide PendingAdds; hide PendingRemoves; hide Adds; hide Ignores;
    ch := Channel("", Settings([], up, []));
    sel := Selection([], [name], []);
    EmptyLocal(ch.settings);
    AllPending(ch, up, rx);
    NothingButIgnored(ch, sel, name);
  }

  lemma AllPending(ch: Channel, up: seq<string>, rx: Regex)
    requires Normal(up) && ch == Channel("", Settings([], up, []))
    ensures Detected(ch, up, map[], rx)
  {
    hide Clean; hide Normalize; hide LocalModels; hide Matches; hide PendingAdds; hide PendingRemoves;
    EmptyLocal(ch.settings);
    NormalizeKeepsNormal(up);
    PendingSpec(ch, up, map[], rx);
    FilterAll(up, x => MissesLocally(LocalModels(ch), ch.settings.ignored, map[], rx, x));
    FilterAll([], x => GoneUpstream(up, map[], x));
  }

  lemma NothingButIgnored(ch: Channel, sel: Selection, name: string)
    requires Normal(ch.settings.detected) && name in ch.settings.detected && Normal([name])
    requires sel == Selection([], [name], [])
    ensures Adds(ch, sel) == [] && Ignores(ch, sel) == [name]
  {
    hide Clean; hide Normalize;
    var up := ch.settings.detected;
    NormalizeKeepsNormal(up);
    OnNormal([], up);
    OnNormal([name], up);
    FilterAll([], x => x in up);
    FilterAll([name], x => x in up);
  }

  /** The ignored name is then the channel's only rule. */
  lemma OnlyRule(ch: Channel, sel: Selection, name: string, rx: Regex)
    requires Adds(ch, sel) == [] && Ignores(ch, sel) == [name] && ch.settings.ignored == [] && LocalModels(ch) == []
    requires ch.models == ""
    ensures name in Normalize(ApplyUpdates(ch, sel).settings.ignored)
    ensures forall x :: Ignored(Normalize(ApplyUpdates(ch, sel).settings.ignored), x, rx) <==> Matches(name, x, rx)
    ensures LocalModels(ApplyUpdates(ch, sel)) == []
  {
    hide Clean; hide Matches;
    NewRules(ch, sel);
    EmptyLocal(ch.settings);
    forall x
      ensures Ignored(Normalize(ApplyUpdates(ch, sel).settings.ignored), x, rx) <==> Matches(name, x, rx)
    {
      IgnoredByMember(Normalize(ApplyUpdates(ch, sel).settings.ignored), x, rx);
    }
  }

  lemma TwoNormal(name: string, other: string)
    requires Clean(name) && Clean(other) && name != other
    ensures Normal([name, other]) && Normalize([name]) == [name] && Normal([name])
  {
    hide Clean; hide Normalize;
    NormalizeKeepsNormal([name]);
  }
}
