/** Pricing data as the synchronisation code sees it: per field, a map from model names to
    loosely typed values, and the normaliser that keeps only what the billing engine would use. */
module Pricing {
  import opened Options
  import opened Text

  /** float64, with rounding left out. */
  datatype Float = Fin(r: real) | NaN | Inf(positive: bool)

  /** The dynamic values JSON decoding and the local settings can put into an `any`. */
  datatype Value =
    | F64(f: Float)
    | F32(f: Float)
    | Int(i: int)
    | Number(text: string, parsed: Option<Float>)
    | Str(s: string)
    | Null
    | Other(id: int)

  /** `pricingSyncFields`, in order. */
  datatype Field =
    | ModelRatio | CompletionRatio | CacheRatio | CreateCacheRatio | ImageRatio
    | AudioRatio | AudioCompletionRatio | ModelPrice | BillingMode | BillingExpr

  const FIELDS: seq<Field> := [ModelRatio, CompletionRatio, CacheRatio, CreateCacheRatio, ImageRatio,
                               AudioRatio, AudioCompletionRatio, ModelPrice, BillingMode, BillingExpr]

  /** `numericPricingSyncFields`. */
  predicate IsNumeric(f: Field) {
    !f.BillingMode? && !f.BillingExpr?
  }

  const TIERED := Str("tiered_expr")
  const RATIO := Str("ratio")

  type Data = map<Field, map<string, Value>>
  type Row = map<Field, Value>

  /** `valueMap(data[field])`: an absent or ill-typed field reads as empty. */
  function Entries(data: Data, f: Field): map<string, Value> {
    if f in data then data[f] else map[]
  }

  /** `modelPricingSyncValues`: one model's values across the fields. */
  function RowOf(data: Data, name: string): Row {
    map f: Field | name in Entries(data, f) :: Entries(data, f)[name]
  }

  function AsFloat64(v: Value): Option<Float> {
    match v
    case F64(f) => Some(f)
    case F32(f) => Some(f)
    case Int(i) => Some(Fin(i as real))
    case Number(_, parsed) => parsed
    case _ => None
  }

  function NormalizeSyncValue(f: Field, v: Value): Value {
    if IsNumeric(f) && AsFloat64(v).Some? then F64(AsFloat64(v).value) else v
  }

  predicate Usable(v: Value) {
    v.F64? && v.f.Fin? && v.f.r >= 0.0
  }

  /** The entry a raw value becomes; numeric fields drop what is not a finite price. */
  function Clean(f: Field, v: Value): Option<Value> {
    var n := NormalizeSyncValue(f, v);
    if IsNumeric(f) && !Usable(n) then None else Some(n)
  }

  function CleanRow(row: Row): Row {
    map f | f in row && Clean(f, row[f]).Some? :: Clean(f, row[f]).value
  }

  function Expression(row: Row): string {
    if BillingExpr in row && row[BillingExpr].Str? then row[BillingExpr].s else ""
  }

  /** A row without some fields. */
  function Minus(row: Row, fields: seq<Field>): Row {
    map f | f in row && f !in fields :: row[f]
  }

  function NumericFields(): (fields: seq<Field>)
    ensures forall f :: f in fields <==> IsNumeric(f)
  {
    [ModelRatio, CompletionRatio, CacheRatio, CreateCacheRatio, ImageRatio, AudioRatio, AudioCompletionRatio, ModelPrice]
  }

  /** The numeric fields a fixed price overrides. */
  function TokenFields(): (fields: seq<Field>)
    ensures forall f :: f in fields <==> IsNumeric(f) && f != ModelPrice
  {
    [ModelRatio, CompletionRatio, CacheRatio, CreateCacheRatio, ImageRatio, AudioRatio, AudioCompletionRatio]
  }

  /** The mode precedence of the billing engine, on one model's clean values. */
  function Resolve(row: Row): Row {
    if BillingMode in row && row[BillingMode] == TIERED then
      var expression := TrimSpace(Expression(row));
      if expression == "" then map[] else Minus(row[BillingExpr := Str(expression)], NumericFields())
    else
      var ratio := Minus(row, [BillingExpr])[BillingMode := RATIO];
      if ModelPrice in row then Minus(ratio, TokenFields())
      else if ModelRatio in row then ratio
      else map[]
  }

  function EffectiveRow(row: Row): Row {
    Resolve(CleanRow(row))
  }

  /** The rows of the given models, field by field. */
  function FromRows(names: set<string>, row: string -> Row): Data {
    map f: Field | IsNumeric(f) || f == BillingMode || f == BillingExpr :: map name | name in names && f in row(name) :: row(name)[f]
  }

  function Names(data: Data): set<string> {
    set f: Field, name | name in Entries(data, f) :: name
  }

  /** What `effectivePricingSyncData` returns. */
  function Effective(data: Data): Data {
    FromRows(Names(data), name => EffectiveRow(RowOf(data, name)))
  }

  ghost predicate TieredForm(row: Row) {
    && (forall f :: f in row <==> f == BillingMode || f == BillingExpr) && row[BillingMode] == TIERED
    && row[BillingExpr].Str? && row[BillingExpr].s != "" && Trimmed(row[BillingExpr].s, SPACES)
  }

  ghost predicate PriceForm(row: Row) {
    && (forall f :: f in row <==> f == BillingMode || f == ModelPrice)
    && row[BillingMode] == RATIO && Usable(row[ModelPrice])
  }

  ghost predicate RatioForm(row: Row) {
    && BillingMode in row && row[BillingMode] == RATIO && ModelRatio in row
    && ModelPrice !in row && BillingExpr !in row
    && forall f :: f in row && IsNumeric(f) ==> Usable(row[f])
  }

  /** Every model is left with nothing or in exactly one of the three billable forms. */
  lemma EffectiveRowForms(row: Row)
    ensures var r := EffectiveRow(row);
            && (r == map[] || TieredForm(r) || PriceForm(r) || RatioForm(r))
            && !(TieredForm(r) && PriceForm(r)) && !(TieredForm(r) && RatioForm(r)) && !(PriceForm(r) && RatioForm(r))
  {
    var c := CleanRow(row);
    assert forall f :: f in c && IsNumeric(f) ==> Usable(c[f]);
    ResolvedForms(c);
    hide Resolve; hide CleanRow;
  }

  lemma ResolvedForms(c: Row)
    requires forall f :: f in c && IsNumeric(f) ==> Usable(c[f])
    ensures var r := Resolve(c); r == map[] || TieredForm(r) || PriceForm(r) || RatioForm(r)
  {
    hide Resolve; hide TieredForm; hide PriceForm; hide RatioForm;
    if BillingMode in c && c[BillingMode] == TIERED {
      TieredResolved(c);
    } else if ModelPrice in c {
      PriceResolved(c);
    } else {
      RatioResolved(c);
    }
  }

  lemma TieredResolved(c: Row)
    requires BillingMode in c && c[BillingMode] == TIERED
    ensures Resolve(c) == map[] || TieredForm(Resolve(c))
  {
    TrimIsTrimmed(Expression(c), SPACES);
    assert Trimmed(TrimSpace(Expression(c)), SPACES);
    hide Expression; hide TrimSpace; hide Trimmed;
    if TrimSpace(Expression(c)) != "" {
      assert TieredForm(Resolve(c));
    }
  }

  lemma PriceResolved(c: Row)
    requires !(BillingMode in c && c[BillingMode] == TIERED) && ModelPrice in c && Usable(c[ModelPrice])
    ensures PriceForm(Resolve(c))
  {
    hide Usable;
  }

  lemma RatioResolved(c: Row)
    requires !(BillingMode in c && c[BillingMode] == TIERED) && ModelPrice !in c
    requires forall f :: f in c && IsNumeric(f) ==> Usable(c[f])
    ensures Resolve(c) == map[] || RatioForm(Resolve(c))
  {
    hide Usable;
  }

  /** A model is dropped exactly when the billing engine could not price it. */
  lemma DroppedExactlyWhenUnpriced(row: Row)
    ensures var c := CleanRow(row);
            EffectiveRow(row) == map[] <==>
              if BillingMode in c && c[BillingMode] == TIERED then TrimSpace(Expression(c)) == ""
              else ModelPrice !in c && ModelRatio !in c
  {
    var c := CleanRow(row);
    if BillingMode in c && c[BillingMode] == TIERED {
      assert TrimSpace(Expression(c)) != "" ==> BillingExpr in EffectiveRow(row);
    } else if ModelPrice in c || ModelRatio in c {
      assert BillingMode in EffectiveRow(row);
    }
  }

  lemma TieredIsFixed(r: Row)
    requires TieredForm(r)
    ensures EffectiveRow(r) == r
  {
    assert CleanRow(r) == r;
    TrimIsTrimmed(r[BillingExpr].s, SPACES);
    assert r[BillingExpr := r[BillingExpr]] == r;
    assert Minus(r, NumericFields()) == r;
  }

  lemma RatioIsFixed(r: Row)
    requires PriceForm(r) || RatioForm(r)
    ensures EffectiveRow(r) == r
  {
    assert CleanRow(r) == r;
    assert Minus(r, [BillingExpr]) == r;
    assert r[BillingMode := RATIO] == r;
    if PriceForm(r) {
      assert Minus(r, TokenFields()) == r;
    }
  }

  lemma EffectiveRowIdempotent(row: Row)
    ensures EffectiveRow(EffectiveRow(row)) == EffectiveRow(row)
  {
    hide EffectiveRow; hide TieredForm; hide PriceForm; hide RatioForm;
    var r := EffectiveRow(row);
    EffectiveRowForms(row);
    if TieredForm(r) {
      TieredIsFixed(r);
    } else if PriceForm(r) || RatioForm(r) {
      RatioIsFixed(r);
    } else {
      NothingIsFixed();
    }
  }

  lemma NothingIsFixed()
    ensures EffectiveRow(map[]) == map[]
  {
    assert CleanRow(map[]) == map[];
  }

  lemma RowOfRows(names: set<string>, row: string -> Row, name: string)
    ensures RowOf(FromRows(names, row), name) == if name in names then row(name) else map[]
  {
    var d := FromRows(names, row);
    forall f: Field ensures name in Entries(d, f) <==> name in names && f in row(name) {
    }
  }

  /** Reading one model out of the normalised data is normalising that model's values. */
  lemma RowOfEffective(data: Data, name: string)
    ensures RowOf(Effective(data), name) == EffectiveRow(RowOf(data, name))
  {
    RowOfRows(Names(data), n => EffectiveRow(RowOf(data, n)), name);
    if name !in Names(data) {
      assert RowOf(data, name) == map[];
      NothingIsFixed();
    }
  }

  /** After normalisation every model has one billable form, or no entry in any field. */
  lemma EveryModelHasOneForm(data: Data, name: string)
    ensures var r := RowOf(Effective(data), name);
            name !in Names(Effective(data)) || TieredForm(r) || PriceForm(r) || RatioForm(r)
    ensures name in Names(Effective(data)) ==> name in Names(data)
  {
    hide EffectiveRow; hide TieredForm; hide PriceForm; hide RatioForm; hide Effective;
    RowOfEffective(data, name);
    EffectiveRowForms(RowOf(data, name));
    if name in Names(Effective(data)) {
      var f: Field :| name in Entries(Effective(data), f);
      assert f in RowOf(Effective(data), name);
      if name !in Names(data) {
        assert RowOf(data, name) == map[];
        NothingIsFixed();
      }
    }
  }

  ghost predicate Full(data: Data) {
    forall f: Field :: f in data
  }

  /** Data over all ten fields is determined by its rows. */
  lemma RowsDetermine(d: Data, e: Data)
    requires Full(d) && Full(e)
    requires forall name :: RowOf(d, name) == RowOf(e, name)
    ensures d == e
  {
    forall f: Field ensures d[f] == e[f] {
      forall name ensures name in d[f] <==> name in e[f] {
        assert f in RowOf(d, name) <==> f in RowOf(e, name);
      }
      forall name | name in d[f] ensures d[f][name] == e[f][name] {
        assert RowOf(d, name)[f] == RowOf(e, name)[f];
      }
    }
  }

  /** Callers normalise the same data twice; the second time changes nothing. */
  lemma EffectiveIsIdempotent(data: Data)
    ensures Effective(Effective(data)) == Effective(data)
  {
    hide EffectiveRow;
    forall name ensures RowOf(Effective(Effective(data)), name) == RowOf(Effective(data), name) {
      RowOfEffective(data, name);
      RowOfEffective(Effective(data), name);
      EffectiveRowIdempotent(RowOf(data, name));
    }
    RowsDetermine(Effective(Effective(data)), Effective(data));
  }

  /** One model's new row, everything else as before. */
  ghost predicate OnlyRow(before: Data, after: Data, name: string, row: Row) {
    && Full(after)
    && RowOf(after, name) == row
    && forall n :: n != name ==> RowOf(after, n) == RowOf(before, n)
  }

  /** Field by field: after agrees with before except under one name. */
  lemma SameElsewhere(before: Data, after: Data, name: string)
    requires Full(before) && Full(after)
    requires forall f: Field, n :: n != name ==> (n in after[f] <==> n in before[f]) && (n in before[f] ==> after[f][n] == before[f][n])
    ensures forall n :: n != name ==> RowOf(after, n) == RowOf(before, n)
  {
  }

  /** `delete(result[field], name)` for each listed field. */
  method DeleteFields(data: Data, fields: seq<Field>, name: string) returns (result: Data)
    requires Full(data)
    ensures OnlyRow(data, result, name, Minus(RowOf(data, name), fields))
  {
    result := data;
    var i := 0;
    while i < |fields|
      invariant 0 <= i <= |fields| && Full(result)
      invariant forall f: Field :: result[f] == if f in fields[..i] then data[f] - {name} else data[f]
    {
      var f := fields[i];
      assert fields[..i + 1] == fields[..i] + [f];
      result := result[f := result[f] - {name}];
      i := i + 1;
    }
    assert fields[..i] == fields;
    SameElsewhere(data, result, name);
    assert RowOf(result, name) == Minus(RowOf(data, name), fields);
  }

  method SetEntry(data: Data, f: Field, name: string, v: Value) returns (result: Data)
    requires Full(data)
    ensures OnlyRow(data, result, name, RowOf(data, name)[f := v])
  {
    result := data[f := data[f][name := v]];
    SameElsewhere(data, result, name);
    assert RowOf(result, name) == RowOf(data, name)[f := v];
  }

  /** The usable entries of one field. */
  /** The clean values of the names already dealt with. */
  function CleanOutside(f: Field, raw: map<string, Value>, rest: set<string>): map<string, Value> {
    map name | name in raw && name !in rest && Clean(f, raw[name]).Some? :: Clean(f, raw[name]).value
  }

  function CleanEntries(data: Data, f: Field): map<string, Value> {
    CleanOutside(f, Entries(data, f), {})
  }

  lemma CleanDecides(f: Field, v: Value)
    ensures var value := NormalizeSyncValue(f, v);
            Clean(f, v) == if !IsNumeric(f) || Usable(value) then Some(value) else None
  {
  }

  lemma CleanOneMore(f: Field, raw: map<string, Value>, rest: set<string>, name: string)
    requires name in raw && name !in rest
    ensures var before, clean := CleanOutside(f, raw, rest + {name}), Clean(f, raw[name]);
            CleanOutside(f, raw, rest) == if clean.Some? then before[name := clean.value] else before
  {
    hide Clean;
  }

  /** The first loop body: copy one field's usable entries, in whatever order they come. */
  method CopyField(data: Data, f: Field, names: set<string>) returns (entries: map<string, Value>, names': set<string>)
    ensures entries == CleanEntries(data, f) && names' == names + entries.Keys
  {
    var raw := Entries(data, f);
    entries, names' := map[], names;
    var rest := raw.Keys;
    hide Clean; hide Entries; hide NormalizeSyncValue; hide Usable;
    assert CleanOutside(f, raw, rest) == map[];
    hide CleanOutside;
    while rest != {}
      invariant rest <= raw.Keys
      invariant entries == CleanOutside(f, raw, rest)
      invariant names' == names + entries.Keys
      decreases rest
    {
      var name :| name in rest;
      assert rest - {name} + {name} == rest;
      rest := rest - {name};
      var value := NormalizeSyncValue(f, raw[name]);
      CleanDecides(f, raw[name]);
      CleanOneMore(f, raw, rest, name);
      if !IsNumeric(f) || Usable(value) {
        entries := entries[name := value];
        names' := names' + {name};
      }
    }
  }

  /** The second loop body: one model's mode precedence, in place. */
  method ResolveName(data: Data, name: string) returns (result: Data)
    requires Full(data)
    ensures OnlyRow(data, result, name, Resolve(RowOf(data, name)))
  {
    ghost var row := RowOf(data, name);
    var modes, expressions := data[BillingMode], data[BillingExpr];
    assert name in modes <==> BillingMode in row;
    assert name in expressions <==> BillingExpr in row;
    var expression := if name in expressions && expressions[name].Str? then expressions[name].s else "";
    assert expression == Expression(row);
    if name in modes && modes[name] == TIERED {
      if TrimSpace(expression) == "" {
        result := DeleteFields(data, FIELDS, name);
        EveryField();
        assert Minus(row, FIELDS) == map[];
        return;
      }
      result := SetEntry(data, BillingExpr, name, Str(TrimSpace(expression)));
      result := DeleteFields(result, NumericFields(), name);
      return;
    }
    result := DeleteFields(data, [BillingExpr], name);
    result := SetEntry(result, BillingMode, name, RATIO);
    ghost var ratio := Minus(row, [BillingExpr])[BillingMode := RATIO];
    assert RowOf(result, name) == ratio;
    var fixed := name in result[ModelPrice];
    var token := name in result[ModelRatio];
    assert fixed <==> ModelPrice in ratio;
    assert token <==> ModelRatio in ratio;
    if !fixed && !token {
      result := DeleteFields(result, FIELDS, name);
      EveryField();
      assert Minus(ratio, FIELDS) == map[];
      return;
    }
    if fixed {
      result := DeleteFields(result, TokenFields(), name);
    }
  }

  lemma EveryField()
    ensures forall f: Field :: f in FIELDS
  {
    forall f: Field ensures f in FIELDS {
      match f
      case ModelRatio => assert FIELDS[0] == f;
      case CompletionRatio => assert FIELDS[1] == f;
      case CacheRatio => assert FIELDS[2] == f;
      case CreateCacheRatio => assert FIELDS[3] == f;
      case ImageRatio => assert FIELDS[4] == f;
      case AudioRatio => assert FIELDS[5] == f;
      case AudioCompletionRatio => assert FIELDS[6] == f;
      case ModelPrice => assert FIELDS[7] == f;
      case BillingMode => assert FIELDS[8] == f;
      case BillingExpr => assert FIELDS[9] == f;
    }
  }

  /** The first loop: every field's usable entries, and the names seen in any of them. */
  method CleanData(data: Data) returns (result: Data, names: set<string>)
    ensures Full(result)
    ensures forall name :: RowOf(result, name) == CleanRow(RowOf(data, name))
    ensures forall name :: name !in names ==> RowOf(result, name) == map[]
  {
    result, names := map[], {};
    var i := 0;
    while i < |FIELDS|
      invariant 0 <= i <= |FIELDS|
      invariant forall f: Field :: f in result <==> f in FIELDS[..i]
      invariant forall f: Field :: f in result ==> result[f] == CleanEntries(data, f) && result[f].Keys <= names
    {
      var f := FIELDS[i];
      var entries, seen := CopyField(data, f, names);
      assert FIELDS[..i + 1] == FIELDS[..i] + [f];
      result, names := result[f := entries], seen;
      i := i + 1;
    }
    assert FIELDS[..i] == FIELDS;
    EveryField();
    assert Full(result);
    forall name ensures RowOf(result, name) == CleanRow(RowOf(data, name)) {
      CleanRowOf(data, result, name);
    }
  }

  lemma CleanRowOf(data: Data, clean: Data, name: string)
    requires Full(clean) && forall f: Field :: clean[f] == CleanEntries(data, f)
    ensures RowOf(clean, name) == CleanRow(RowOf(data, name))
  {
  }

  /** The normaliser. Map iteration is an arbitrary choice here, and the result is the function
      `Effective`, so it does not depend on the order. */
  method EffectivePricingSyncData(data: Data) returns (result: Data)
    ensures result == Effective(data)
  {
    hide Resolve; hide CleanRow; hide RowOf; hide Full; hide Effective;
    var names;
    result, names := CleanData(data);
    ghost var clean := result;
    var rest := names;
    while rest != {}
      invariant rest <= names && Full(result)
      invariant forall name :: RowOf(result, name) ==
                  if name in names - rest then Resolve(RowOf(clean, name)) else RowOf(clean, name)
      decreases rest
    {
      var name :| name in rest;
      rest := rest - {name};
      result := ResolveName(result, name);
    }
    ResolveNothing();
    forall name ensures RowOf(result, name) == RowOf(Effective(data), name) {
      RowOfEffective(data, name);
    }
    EffectiveIsFull(data);
    RowsDetermine(result, Effective(data));
  }

  lemma ResolveNothing()
    ensures Resolve(map[]) == map[]
  {
  }

  lemma EffectiveIsFull(data: Data)
    ensures Full(Effective(data))
  {
  }
}
