/** Choosing one price per model among the providers models.dev lists. Costs are compared with
    a tolerance that is not transitive, so what the scan selects depends on the order it keeps. */
module ModelsDev {
  import opened Options
  import opened Pricing
  import opened PricingDiff

  datatype Cost = Cost(input: Option<Float>, output: Option<Float>, cacheRead: Option<Float>)

  datatype Candidate = Candidate(provider: string, input: real, output: Option<real>, cacheRead: Option<real>)

  predicate IsValidNonNegativeCost(v: Float) {
    v.Fin? && v.r >= 0.0
  }

  /** `buildModelsDevCandidate`: None when the entry cannot be turned into local ratios. */
  function BuildCandidate(provider: string, cost: Cost): Option<Candidate> {
    if cost.input.None? || !IsValidNonNegativeCost(cost.input.value) then None
    else if cost.output.Some? && !IsValidNonNegativeCost(cost.output.value) then None
    else if cost.input.value.r == 0.0 && cost.output.Some? && cost.output.value.r > 0.0 then None
    else
      Some(Candidate(provider, cost.input.value.r,
                     if cost.output.Some? then Some(cost.output.value.r) else None,
                     if cost.cacheRead.Some? && IsValidNonNegativeCost(cost.cacheRead.value)
                     then Some(cost.cacheRead.value.r) else None))
  }

  /** Go's string order: code points, first difference decides, a proper prefix comes first. */
  predicate Before(a: string, b: string) {
    if b == "" then false
    else if a == "" then true
    else if a[0] != b[0] then a[0] < b[0]
    else Before(a[1..], b[1..])
  }

  predicate ShouldReplace(current: Candidate, next: Candidate) {
    var currentNonZero, nextNonZero := current.input > 0.0, next.input > 0.0;
    if currentNonZero != nextNonZero then nextNonZero
    else if nextNonZero && !NearlyEqual(Fin(next.input), Fin(current.input)) then next.input < current.input
    else Before(next.provider, current.provider)
  }

  /** The scan over one model's candidates. */
  function Select(candidates: seq<Candidate>): (selected: Candidate)
    requires candidates != []
  {
    var n := |candidates| - 1;
    if n == 0 then candidates[0]
    else
      var current := Select(candidates[..n]);
      if ShouldReplace(current, candidates[n]) then candidates[n] else current
  }

  predicate ByProvider(candidates: seq<Candidate>) {
    forall i, j :: 0 <= i < j < |candidates| ==> Before(candidates[i].provider, candidates[j].provider)
  }

  lemma {:induction false} BeforeIsStrict(a: string, b: string)
    ensures Before(a, b) ==> a != b && !Before(b, a)
    ensures a == b || Before(a, b) || Before(b, a)
    decreases |a|
  {
    if a != "" && b != "" {
      assert a == [a[0]] + a[1..] && b == [b[0]] + b[1..];
      BeforeIsStrict(a[1..], b[1..]);
    }
  }

  lemma {:induction false} BeforeIsTransitive(a: string, b: string, c: string)
    requires Before(a, b) && Before(b, c)
    ensures Before(a, c)
    decreases |a|
  {
    if a != "" && a[0] == b[0] && b[0] == c[0] {
      BeforeIsTransitive(a[1..], b[1..], c[1..]);
    }
  }

  lemma {:induction false} SelectIsListed(candidates: seq<Candidate>) returns (i: nat)
    requires candidates != []
    ensures i < |candidates| && Select(candidates) == candidates[i]
  {
    var n := |candidates| - 1;
    if n == 0 || ShouldReplace(Select(candidates[..n]), candidates[n]) {
      i := n;
    } else {
      i := SelectIsListed(candidates[..n]);
    }
  }

  /** In provider order the selection is non-zero whenever some candidate is, and undercuts
      every non-zero candidate up to the tolerance, and every earlier one strictly, however
      long the scan. */
  lemma {:induction false} SelectsCheapestNonZero(candidates: seq<Candidate>)
    requires candidates != [] && ByProvider(candidates)
    ensures forall i :: 0 <= i < |candidates| && candidates[i].input > 0.0 ==>
              0.0 < Select(candidates).input < candidates[i].input + EPSILON
    ensures Select(candidates) in candidates
    ensures forall i :: 0 <= i < |candidates| && candidates[i] == Select(candidates) ==>
              forall j :: 0 <= j < i && candidates[j].input > 0.0 ==> candidates[i].input < candidates[j].input
  {
    var n := |candidates| - 1;
    if n > 0 {
      SelectsCheapestNonZero(candidates[..n]);
      var current := Select(candidates[..n]);
      var at := SelectIsListed(candidates[..n]);
      BeforeIsStrict(candidates[at].provider, candidates[n].provider);
      forall i | 0 <= i <= n && candidates[i] == Select(candidates)
        ensures forall j :: 0 <= j < i && candidates[j].input > 0.0 ==> candidates[i].input < candidates[j].input {
        if i == n {
          assert candidates[at].provider != candidates[n].provider;
        } else {
          BeforeIsStrict(candidates[i].provider, candidates[n].provider);
        }
      }
    }
  }

  /** Out of provider order the bound is lost: near-equal steps add up. */
  lemma OutOfOrderDrifts()
    ensures var drift := [Candidate("c", 1.0, None, None),
                          Candidate("b", 1.0 + 0.9 * EPSILON, None, None),
                          Candidate("a", 1.0 + 1.8 * EPSILON, None, None)];
            Select(drift).input > drift[0].input + EPSILON
  {
    var c, b, a := Candidate("c", 1.0, None, None), Candidate("b", 1.0 + 0.9 * EPSILON, None, None), Candidate("a", 1.0 + 1.8 * EPSILON, None, None);
    assert [c, b, a][..2] == [c, b] && [c, b][..1] == [c];
    assert Select([c, b]) == b;
    assert Select([c, b, a]) == a;
  }

  predicate SortedStrings(s: seq<string>) {
    forall i, j :: 0 <= i < j < |s| ==> Before(s[i], s[j])
  }

  /** s lists exactly the given keys, in order. */
  ghost predicate Lists(s: seq<string>, keys: set<string>) {
    SortedStrings(s) && (forall k :: k in s <==> k in keys)
  }

  function Insert(s: seq<string>, k: string): seq<string> {
    if s == [] || Before(k, s[0]) then [k] + s else [s[0]] + Insert(s[1..], k)
  }

  lemma {:induction false} InsertKeepsSorted(s: seq<string>, k: string)
    requires SortedStrings(s) && k !in s
    ensures SortedStrings(Insert(s, k))
    ensures forall x :: x in Insert(s, k) <==> x in s || x == k
  {
    if s != [] {
      BeforeIsStrict(k, s[0]);
      if Before(k, s[0]) {
        forall j | 0 <= j < |s| ensures Before(k, s[j]) {
          if j > 0 {
            BeforeIsTransitive(k, s[0], s[j]);
          }
        }
      } else {
        InsertKeepsSorted(s[1..], k);
        var t := Insert(s[1..], k);
        forall j | 0 <= j < |t| ensures Before(s[0], t[j]) {
          assert t[j] in t;
        }
      }
    }
  }

  /** Go's idiom of collecting a map's keys in iteration order and sorting them. */
  method SortedKeys(keys: set<string>) returns (sorted: seq<string>)
    ensures Lists(sorted, keys)
  {
    sorted := [];
    var rest := keys;
    while rest != {}
      invariant rest <= keys && Lists(sorted, keys - rest)
      decreases rest
    {
      var k :| k in rest;
      InsertKeepsSorted(sorted, k);
      sorted := Insert(sorted, k);
      rest := rest - {k};
    }
  }

  lemma SomethingIn(s: seq<string>)
    ensures s != [] ==> exists k :: k in s
  {
    if s != [] {
      assert s[0] in s;
    }
  }

  /** There is only one way to list keys in order. */
  lemma {:induction false} ListingIsUnique(s: seq<string>, t: seq<string>, keys: set<string>)
    requires Lists(s, keys) && Lists(t, keys)
    ensures s == t
    decreases |s|
  {
    if s == [] {
      SomethingIn(t);
    } else {
      SomethingIn(t);
      assert s[0] in s;
      FirstsAgree(s, t, keys);
      var rest := keys - {s[0]};
      TailLists(s, keys);
      TailLists(t, keys);
      ListingIsUnique(s[1..], t[1..], rest);
    }
  }

  lemma FirstsAgree(s: seq<string>, t: seq<string>, keys: set<string>)
    requires Lists(s, keys) && Lists(t, keys) && s != [] && t != []
    ensures s[0] == t[0]
  {
    assert s[0] in s && t[0] in t;
    var i :| 0 <= i < |s| && s[i] == t[0];
    var j :| 0 <= j < |t| && t[j] == s[0];
    if i > 0 && j > 0 {
      BeforeIsStrict(s[0], s[i]);
    }
  }

  lemma TailLists(s: seq<string>, keys: set<string>)
    requires Lists(s, keys) && s != []
    ensures Lists(s[1..], keys - {s[0]})
  {
    forall k ensures k in s[1..] <==> k in keys - {s[0]} {
      if k in s[1..] {
        var i :| 0 <= i < |s[1..]| && s[1..][i] == k;
        BeforeIsStrict(s[0], s[i + 1]);
      }
    }
  }

  type Catalogue = map<string, map<string, Cost>>

  /** One model's usable candidates, in the given provider order. */
  function CandidatesFor(data: Catalogue, providers: seq<string>, m: string): seq<Candidate> {
    if providers == [] then []
    else
      var p := providers[|providers| - 1];
      var rest := CandidatesFor(data, providers[..|providers| - 1], m);
      if p in data && m in data[p] && BuildCandidate(p, data[p][m]).Some?
      then rest + [BuildCandidate(p, data[p][m]).value] else rest
  }

  lemma {:induction false} CandidatesByProvider(data: Catalogue, providers: seq<string>, m: string)
    requires SortedStrings(providers)
    ensures ByProvider(CandidatesFor(data, providers, m))
    ensures forall c :: c in CandidatesFor(data, providers, m) ==> c.provider in providers
  {
    if providers != [] {
      var n := |providers| - 1;
      CandidatesByProvider(data, providers[..n], m);
      var rest := CandidatesFor(data, providers[..n], m);
      forall i | 0 <= i < |rest| ensures Before(rest[i].provider, providers[n]) {
        assert rest[i] in rest;
        var j :| 0 <= j < n && providers[j] == rest[i].provider;
      }
    }
  }

  /** Every model is priced from the scan over its own candidates. */
  ghost predicate SelectedFrom(selected: map<string, Candidate>, data: Catalogue, providers: seq<string>) {
    forall m :: var candidates := CandidatesFor(data, providers, m);
      && (m in selected <==> candidates != [])
      && (candidates != [] ==> selected[m] == Select(candidates))
  }

  /** The provider loop of the conversion: inner keys come in sorted order, too. */
  method SelectCandidates(data: Catalogue) returns (selected: map<string, Candidate>)
    ensures forall providers :: Lists(providers, data.Keys) ==> SelectedFrom(selected, data, providers)
  {
    var providers := SortedKeys(data.Keys);
    selected := map[];
    for i := 0 to |providers|
      invariant SelectedFrom(selected, data, providers[..i])
    {
      var provider := providers[i];
      assert provider in data.Keys;
      selected := AddProvider(data, providers, i, selected);
    }
    assert providers[..|providers|] == providers;
    forall other | Lists(other, data.Keys) ensures SelectedFrom(selected, data, other) {
      ListingIsUnique(providers, other, data.Keys);
    }
  }

  method AddProvider(data: Catalogue, providers: seq<string>, i: nat, before: map<string, Candidate>) returns (selected: map<string, Candidate>)
    requires i < |providers| && providers[i] in data && SelectedFrom(before, data, providers[..i])
    ensures SelectedFrom(selected, data, providers[..i + 1])
  {
    hide Select; hide ShouldReplace; hide BuildCandidate;
    var provider := providers[i];
    var names := SortedKeys(data[provider].Keys);
    selected := before;
    for j := 0 to |names|
      invariant forall m :: m in names[..j] ==> (m in selected <==> CandidatesFor(data, providers[..i + 1], m) != [])
      invariant forall m :: m in names[..j] && m in selected ==> selected[m] == Select(CandidatesFor(data, providers[..i + 1], m))
      invariant forall m :: m !in names[..j] ==> (m in selected <==> m in before) && (m in before ==> selected[m] == before[m])
    {
      var m := names[j];
      assert names[..j + 1] == names[..j] + [m];
      assert m !in names[..j] by {
        forall k | 0 <= k < j ensures names[k] != m {
          BeforeIsStrict(names[k], m);
        }
      }
      assert m in names;
      var candidate := BuildCandidate(provider, data[provider][m]);
      OneMoreProvider(data, providers, i, m);
      if candidate.Some? {
        if m !in selected || ShouldReplace(selected[m], candidate.value) {
          selected := selected[m := candidate.value];
        }
      }
    }
    assert names[..|names|] == names;
    forall m ensures var candidates := CandidatesFor(data, providers[..i + 1], m);
        (m in selected <==> candidates != []) && (candidates != [] ==> selected[m] == Select(candidates)) {
      OneMoreProvider(data, providers, i, m);
    }
  }

  lemma OneMoreProvider(data: Catalogue, providers: seq<string>, i: nat, m: string)
    requires i < |providers| && providers[i] in data
    ensures var before, now := CandidatesFor(data, providers[..i], m), CandidatesFor(data, providers[..i + 1], m);
            if m in data[providers[i]] && BuildCandidate(providers[i], data[providers[i]][m]).Some? then
              var next := BuildCandidate(providers[i], data[providers[i]][m]).value;
              && now == before + [next]
              && Select(now) == if before == [] || ShouldReplace(Select(before), next) then next else Select(before)
            else now == before
  {
    assert providers[..i + 1][..i] == providers[..i];
    var before, now := CandidatesFor(data, providers[..i], m), CandidatesFor(data, providers[..i + 1], m);
    if now != before {
      assert now[..|now| - 1] == before;
    }
  }

  /** The whole conversion, for any two enumerations of the same catalogue: the selections are
      equal, and each is within the tolerance of the cheapest non-zero candidate. */
  lemma SelectionIsDeterminedAndCheap(data: Catalogue, providers: seq<string>, s: map<string, Candidate>, t: map<string, Candidate>, m: string)
    requires Lists(providers, data.Keys) && SelectedFrom(s, data, providers) && SelectedFrom(t, data, providers)
    ensures s == t
    ensures m in s <==> exists p :: p in data && m in data[p] && BuildCandidate(p, data[p][m]).Some?
    ensures m in s ==> forall p :: p in data && m in data[p] && BuildCandidate(p, data[p][m]).Some? ==>
              var cost := BuildCandidate(p, data[p][m]).value.input; cost > 0.0 ==> 0.0 < s[m].input < cost + 0.000000001
  {
    hide Select; hide BuildCandidate;
    forall k ensures k in s <==> k in t {
    }
    CandidatesByProvider(data, providers, m);
    var candidates := CandidatesFor(data, providers, m);
    if candidates != [] {
      SelectsCheapestNonZero(candidates);
    }
    CandidatesAre(data, providers, m);
  }

  lemma {:induction false} CandidatesAre(data: Catalogue, providers: seq<string>, m: string)
    ensures forall p :: p in providers && p in data && m in data[p] && BuildCandidate(p, data[p][m]).Some? ==>
              BuildCandidate(p, data[p][m]).value in CandidatesFor(data, providers, m)
    ensures CandidatesFor(data, providers, m) != [] ==>
              exists p :: p in providers && p in data && m in data[p] && BuildCandidate(p, data[p][m]).Some?
  {
    hide BuildCandidate;
    if providers != [] {
      CandidatesAre(data, providers[..|providers| - 1], m);
    }
  }

  predicate IsCost(v: Option<Float>, cost: real) {
    v.Some? && v.value == Fin(cost) && cost >= 0.0
  }

  predicate IsRejected(v: Option<Float>) {
    v.Some? && !(v.value.Fin? && v.value.r >= 0.0)
  }

  /** What becomes a candidate, and with which costs: a usable input cost, an output cost that is
      absent or usable, and not a free input with a priced output; a cache cost only if usable. */
  lemma CandidateExactly(provider: string, cost: Cost)
    ensures var candidate := BuildCandidate(provider, cost);
            && (candidate.Some?
                <==> && (exists input :: IsCost(cost.input, input)) && !IsRejected(cost.output)
                     && !(cost.input == Some(Fin(0.0)) && cost.output.Some? && cost.output.value.r > 0.0))
            && (candidate.Some? ==>
                  && candidate.value.provider == provider && cost.input == Some(Fin(candidate.value.input))
                  && (if cost.output.None? then candidate.value.output.None? else candidate.value.output == Some(cost.output.value.r))
                  && (if cost.cacheRead.None? || IsRejected(cost.cacheRead) then candidate.value.cacheRead.None?
                      else candidate.value.cacheRead == Some(cost.cacheRead.value.r)))
  {
    if BuildCandidate(provider, cost).Some? {
      assert IsCost(cost.input, cost.input.value.r);
    }
  }

  /** What is selected is what some provider lists, costs and all. */
  lemma SelectionIsListed(data: Catalogue, providers: seq<string>, s: map<string, Candidate>, m: string)
    requires Lists(providers, data.Keys) && SelectedFrom(s, data, providers) && m in s
    ensures exists p :: p in data && m in data[p] && BuildCandidate(p, data[p][m]) == Some(s[m])
  {
    hide BuildCandidate; hide Select;
    var candidates := CandidatesFor(data, providers, m);
    var i := SelectIsListed(candidates);
    assert candidates[i] in candidates;
    CandidatesComeFrom(data, providers, m);
  }

  lemma {:induction false} CandidatesComeFrom(data: Catalogue, providers: seq<string>, m: string)
    ensures forall c :: c in CandidatesFor(data, providers, m) ==>
              exists p :: p in data && m in data[p] && BuildCandidate(p, data[p][m]) == Some(c)
  {
    hide BuildCandidate;
    if providers != [] {
      CandidatesComeFrom(data, providers[..|providers| - 1], m);
    }
  }

  /** When every candidate is free the first provider's is kept. */
  lemma {:induction false} FreeSelectsFirst(candidates: seq<Candidate>)
    requires candidates != [] && ByProvider(candidates)
    requires forall i :: 0 <= i < |candidates| ==> candidates[i].input <= 0.0
    ensures Select(candidates) == candidates[0]
  {
    var n := |candidates| - 1;
    if n > 0 {
      FreeSelectsFirst(candidates[..n]);
      BeforeIsStrict(candidates[0].provider, candidates[n].provider);
    }
  }
}
