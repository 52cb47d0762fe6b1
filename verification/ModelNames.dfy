/** Ordered-set algebra over model names: every operation normalises its inputs first. */
module ModelNames {
  import opened Text

  function TrimmedNames(models: seq<string>): seq<string> {
    if models == [] then []
    else
      var n := |models| - 1;
      var name := TrimSpace(models[n]);
      if name == "" then TrimmedNames(models[..n]) else TrimmedNames(models[..n]) + [name]
  }

  /** First occurrences only. */
  function Uniq(names: seq<string>): seq<string> {
    if names == [] then []
    else
      var n := |names| - 1;
      var before := Uniq(names[..n]);
      if names[n] in before then before else before + [names[n]]
  }

  /** `normalizeModelNames`. */
  function Normalize(models: seq<string>): seq<string> {
    Uniq(TrimmedNames(models))
  }

  /** `lo.Filter`. */
  function Filter(names: seq<string>, keep: string -> bool): seq<string> {
    if names == [] then []
    else
      var n := |names| - 1;
      if keep(names[n]) then Filter(names[..n], keep) + [names[n]] else Filter(names[..n], keep)
  }

  /** `subtractModelNames`. */
  function Subtract(base: seq<string>, removed: seq<string>): seq<string> {
    Filter(Normalize(base), x => x !in Normalize(removed))
  }

  /** `intersectModelNames`. */
  function Intersect(base: seq<string>, allowed: seq<string>): seq<string> {
    Filter(Normalize(base), x => x in Normalize(allowed))
  }

  function Merge(base: seq<string>, appended: seq<string>): seq<string> {
    Normalize(base) + Filter(Normalize(appended), x => x !in Normalize(base))
  }

  predicate Clean(name: string) {
    name != "" && TrimSpace(name) == name
  }

  /** A list normalising leaves alone: trimmed, non-blank names without repetition. */
  ghost predicate Normal(names: seq<string>) {
    && (forall x :: x in names ==> Clean(x))
    && (forall i, j :: 0 <= i < j < |names| ==> names[i] != names[j])
  }

  lemma {:induction false} TrimmedAreClean(models: seq<string>)
    ensures forall x :: x in TrimmedNames(models) ==> Clean(x)
    ensures forall x :: x in TrimmedNames(models) <==> x != "" && exists m :: m in models && TrimSpace(m) == x
  {
    hide TrimSpace;
    if models != [] {
      var n := |models| - 1;
      TrimmedAreClean(models[..n]);
      CleanAfterTrim(models[n]);
      assert models == models[..n] + [models[n]];
    }
  }

  lemma CleanAfterTrim(m: string)
    ensures TrimSpace(TrimSpace(m)) == TrimSpace(m)
  {
    TrimIsTrimmed(m, SPACES);
  }

  lemma {:induction false} UniqIsDistinct(names: seq<string>)
    ensures forall i, j :: 0 <= i < j < |Uniq(names)| ==> Uniq(names)[i] != Uniq(names)[j]
    ensures forall x :: x in Uniq(names) <==> x in names
  {
    if names != [] {
      var n := |names| - 1;
      UniqIsDistinct(names[..n]);
      assert names == names[..n] + [names[n]];
    }
  }

  /** Normalising yields a normal list with the same visible names. */
  lemma NormalizeIsNormal(models: seq<string>)
    ensures Normal(Normalize(models))
    ensures forall x :: x in Normalize(models) <==> x != "" && exists m :: m in models && TrimSpace(m) == x
  {
    hide TrimSpace;
    TrimmedAreClean(models);
    UniqIsDistinct(TrimmedNames(models));
  }

  lemma {:induction false} NormalizeKeepsNormal(names: seq<string>)
    requires Normal(names)
    ensures Normalize(names) == names
  {
    hide TrimSpace;
    TrimmedKeepsClean(names);
    UniqKeepsDistinct(names);
  }

  lemma {:induction false} TrimmedKeepsClean(names: seq<string>)
    requires forall x :: x in names ==> Clean(x)
    ensures TrimmedNames(names) == names
  {
    hide TrimSpace;
    if names != [] {
      var n := |names| - 1;
      assert names == names[..n] + [names[n]];
      assert Clean(names[n]);
      TrimmedKeepsClean(names[..n]);
    }
  }

  lemma {:induction false} UniqKeepsDistinct(names: seq<string>)
    requires forall i, j :: 0 <= i < j < |names| ==> names[i] != names[j]
    ensures Uniq(names) == names
  {
    if names != [] {
      var n := |names| - 1;
      assert names == names[..n] + [names[n]];
      UniqKeepsDistinct(names[..n]);
    }
  }

  lemma {:induction false} FilterSpec(names: seq<string>, keep: string -> bool)
    ensures forall x :: x in Filter(names, keep) <==> x in names && keep(x)
    ensures Normal(names) ==> Normal(Filter(names, keep))
  {
    hide Clean;
    if names != [] {
      var n := |names| - 1;
      assert names == names[..n] + [names[n]];
      FilterSpec(names[..n], keep);
      if Normal(names) {
        assert Normal(names[..n]);
        assert names[n] !in names[..n];
      }
    }
  }

  lemma {:induction false} FilterTwice(names: seq<string>, first: string -> bool, second: string -> bool, both: string -> bool)
    requires forall x :: x in names ==> (both(x) <==> first(x) && second(x))
    ensures Filter(Filter(names, first), second) == Filter(names, both)
  {
    if names != [] {
      var n := |names| - 1;
      assert names == names[..n] + [names[n]];
      FilterTwice(names[..n], first, second, both);
      if first(names[n]) {
        var f := Filter(names[..n], first);
        assert (f + [names[n]])[..|f|] == f;
      }
    }
  }

  lemma {:induction false} FilterSame(names: seq<string>, p: string -> bool, q: string -> bool)
    requires forall x :: x in names ==> (p(x) <==> q(x))
    ensures Filter(names, p) == Filter(names, q)
  {
    if names != [] {
      var n := |names| - 1;
      assert names == names[..n] + [names[n]];
      FilterSame(names[..n], p, q);
    }
  }

  lemma {:induction false} FilterConcat(a: seq<string>, b: seq<string>, keep: string -> bool)
    ensures Filter(a + b, keep) == Filter(a, keep) + Filter(b, keep)
    decreases |b|
  {
    if b == [] {
      assert a + b == a;
    } else {
      var n := |b| - 1;
      assert (a + b)[..|a + b| - 1] == a + b[..n];
      FilterConcat(a, b[..n], keep);
    }
  }

  lemma {:induction false} FilterAll(names: seq<string>, keep: string -> bool)
    ensures (forall x :: x in names ==> keep(x)) ==> Filter(names, keep) == names
    ensures (forall x :: x in names ==> !keep(x)) ==> Filter(names, keep) == []
  {
    if names != [] {
      var n := |names| - 1;
      assert names == names[..n] + [names[n]];
      FilterAll(names[..n], keep);
    }
  }

  /** The three set operations on lists that are already normal. */
  lemma OnNormal(a: seq<string>, b: seq<string>)
    requires Normal(a) && Normal(b)
    ensures Subtract(a, b) == Filter(a, x => x !in b)
    ensures Intersect(a, b) == Filter(a, x => x in b)
    ensures Merge(a, b) == a + Filter(b, x => x !in a)
  {
    NormalizeKeepsNormal(a);
    NormalizeKeepsNormal(b);
    FilterSame(a, x => x !in Normalize(b), x => x !in b);
    FilterSame(a, x => x in Normalize(b), x => x in b);
    FilterSame(b, x => x !in Normalize(a), x => x !in a);
  }

  lemma NormalizedDistinct(models: seq<string>)
    ensures forall j, k :: 0 <= j < k < |Normalize(models)| ==> Normalize(models)[j] != Normalize(models)[k]
  {
    NormalizeIsNormal(models);
  }

  lemma MergeSpec(base: seq<string>, appended: seq<string>)
    ensures Normal(Merge(base, appended))
    ensures forall x :: x in Merge(base, appended) <==> x in Normalize(base) || x in Normalize(appended)
  {
    hide Normalize; hide Clean;
    NormalizeIsNormal(base);
    NormalizeIsNormal(appended);
    FilterSpec(Normalize(appended), x => x !in Normalize(base));
    ConcatNormal(Normalize(base), Filter(Normalize(appended), x => x !in Normalize(base)));
  }

  lemma ConcatNormal(a: seq<string>, b: seq<string>)
    requires Normal(a) && Normal(b) && forall x :: x in b ==> x !in a
    ensures Normal(a + b)
  {
    hide Clean;
    var c := a + b;
    assert forall i :: 0 <= i < |c| ==> c[i] == if i < |a| then a[i] else b[i - |a|];
    assert forall i :: |a| <= i < |c| ==> c[i] in b;
    assert forall i :: 0 <= i < |a| ==> c[i] in a;
  }

  /** `mergeModelNames` with its seen map: base names first, then the new ones, all normal. */
  method MergeModelNames(base: seq<string>, appended: seq<string>) returns (merged: seq<string>)
    ensures merged == Merge(base, appended)
    ensures Normal(merged)
    ensures forall x :: x in merged <==> x in Normalize(base) || x in Normalize(appended)
  {
    hide Normalize; hide Normal;
    var first, more := Normalize(base), Normalize(appended);
    ghost var isNew := x => x !in first;
    NormalizedDistinct(appended);
    merged := first;
    var seen := set x | x in merged;
    assert more[..0] == [];
    for i := 0 to |more|
      invariant merged == first + Filter(more[..i], isNew)
      invariant forall x :: x in seen <==> x in first || x in more[..i]
    {
      assert more[..i + 1][..i] == more[..i];
      assert more[..i + 1] == more[..i] + [more[i]];
      assert more[i] !in more[..i];
      if more[i] in seen {
        continue;
      }
      seen := seen + {more[i]};
      merged := merged + [more[i]];
    }
    assert more[..|more|] == more;
    FilterSame(more, isNew, x => x !in Normalize(base));
    MergeSpec(base, appended);
  }
}
