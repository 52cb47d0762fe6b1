/** What normalised pricing data and a report contain, said about the raw entries with no use of
    the passes that compute them. */
module PricingMeaning {
  import opened Options
  import opened Text
  import opened Pricing
  import opened PricingDiff

  predicate IsTextField(f: Field) {
    f == BillingMode || f == BillingExpr
  }

  /** A raw value the billing engine can use: a finite number that is not negative. */
  predicate PricedAt(v: Value, price: real) {
    && price >= 0.0
    && (v == F64(Fin(price)) || v == F32(Fin(price)) || (v.Int? && v.i as real == price)
        || (v.Number? && v.parsed.Some? && v.parsed.value == Fin(price)))
  }

  predicate HasEntry(data: Data, f: Field, m: string) {
    f in data && m in data[f]
  }

  ghost predicate HasPrice(data: Data, f: Field, m: string) {
    HasEntry(data, f, m) && exists price :: PricedAt(data[f][m], price)
  }

  predicate RawTiered(data: Data, m: string) {
    HasEntry(data, BillingMode, m) && data[BillingMode][m] == Str("tiered_expr")
  }

  function RawExpression(data: Data, m: string): string {
    if HasEntry(data, BillingExpr, m) && data[BillingExpr][m].Str? then TrimSpace(data[BillingExpr][m].s) else ""
  }

  /** The models that can be billed. */
  ghost predicate Billable(data: Data, m: string) {
    if RawTiered(data, m) then RawExpression(data, m) != ""
    else HasPrice(data, ModelPrice, m) || HasPrice(data, ModelRatio, m)
  }

  lemma CleanNumber(f: Field, v: Value)
    requires !IsTextField(f)
    ensures Clean(f, v).Some? <==> exists price :: PricedAt(v, price)
    ensures forall price :: PricedAt(v, price) ==> Clean(f, v) == Some(F64(Fin(price)))
  {
    var n := NormalizeSyncValue(f, v);
    if Usable(n) {
      assert PricedAt(v, n.f.r);
    }
  }

  lemma CleanText(f: Field, v: Value)
    requires IsTextField(f)
    ensures Clean(f, v) == Some(v)
  {
  }

  /** One model's clean row, entry by entry. */
  lemma CleanRowIs(data: Data, m: string, f: Field)
    ensures var c := CleanRow(RowOf(data, m));
            if IsTextField(f) then (f in c <==> HasEntry(data, f, m)) && (f in c ==> c[f] == data[f][m])
            else (f in c <==> HasPrice(data, f, m))
                 && (f in c ==> forall price :: PricedAt(data[f][m], price) ==> c[f] == F64(Fin(price)))
  {
    var row := RowOf(data, m);
    assert f in row <==> HasEntry(data, f, m);
    if f in row {
      assert row[f] == data[f][m];
      if IsTextField(f) {
        CleanText(f, row[f]);
      } else {
        CleanNumber(f, row[f]);
      }
    }
  }

  /** The fields a billable model keeps. */
  ghost predicate Keeps(data: Data, f: Field, m: string) {
    if f == BillingMode then true
    else if f == BillingExpr then RawTiered(data, m)
    else !RawTiered(data, m) && HasPrice(data, f, m) && (HasPrice(data, ModelPrice, m) ==> f == ModelPrice)
  }

  /** Every entry of the normalised data: a model has entries exactly when it can be billed; its mode
      is one of two, its expression the trimmed one, and every price kept is the one that was there. */
  lemma EffectiveEntries(data: Data, f: Field, m: string)
    ensures HasEntry(Effective(data), f, m) <==> Billable(data, m) && Keeps(data, f, m)
    ensures HasEntry(Effective(data), f, m) ==>
              var v := Effective(data)[f][m];
              if f == BillingMode then v == Str(if RawTiered(data, m) then "tiered_expr" else "ratio")
              else if f == BillingExpr then v == Str(RawExpression(data, m))
              else forall price :: PricedAt(data[f][m], price) ==> v == F64(Fin(price))
  {
    hide Effective; hide TrimSpace; hide Clean;
    var c := CleanRow(RowOf(data, m));
    RowOfEffective(data, m);
    EntryOfRow(Effective(data), f, m);
    CleanRowIs(data, m, f);
    CleanRowIs(data, m, BillingMode);
    CleanRowIs(data, m, BillingExpr);
    CleanRowIs(data, m, ModelPrice);
    CleanRowIs(data, m, ModelRatio);
    hide CleanRow; hide RowOf; hide PricedAt; hide HasPrice; hide Usable;
    ResolvedEntry(c, f);
    hide Resolve;
  }

  /** What resolving the modes makes of one entry. */
  lemma ResolvedEntry(c: Row, f: Field)
    ensures var r, tiered := Resolve(c), BillingMode in c && c[BillingMode] == Str("tiered_expr");
            var expression := if BillingExpr in c && c[BillingExpr].Str? then TrimSpace(c[BillingExpr].s) else "";
            && (f in r <==>
                  if tiered then expression != "" && IsTextField(f)
                  else (ModelPrice in c || ModelRatio in c)
                       && (f == BillingMode || (!IsTextField(f) && f in c && (ModelPrice in c ==> f == ModelPrice))))
            && (f in r ==> r[f] == if f == BillingMode then Str(if tiered then "tiered_expr" else "ratio")
                                   else if f == BillingExpr then Str(expression) else c[f])
  {
    assert TrimSpace("") == "";
    hide TrimSpace;
  }
}
