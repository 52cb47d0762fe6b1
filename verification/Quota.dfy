/** Quota conversion with saturation, and the charge a channel test composes from three of them.
    Decimals and float64 are reals here, with the NaN and the infinities a float64 can be. */
module Quota {
  import opened Options
  import opened Pricing

  const MAX_QUOTA := 0x7FFF_FFFF
  const MIN_QUOTA := -0x8000_0000
  const MAX_WALLET_QUOTA := 0x1F_FFFF_FFFF_FFFF
  const QUOTA_PER_UNIT := 500_000.0

  datatype ClampKind = Overflow | Underflow | NotANumber

  datatype Clamp = Clamp(kind: ClampKind, original: Float, clamped: int)

  datatype Conversion = Conversion(quota: int, clamp: Option<Clamp>)

  datatype Strict = Accepted(quota: int) | Rejected(clamp: Clamp)

  /** Go's float-to-int conversion: toward zero. */
  function Truncate(r: real): int {
    if r >= 0.0 then r.Floor else -((-r).Floor)
  }

  /** `math.Round` on a finite value: half away from zero. */
  function HalfAway(r: real): int {
    if r >= 0.0 then (r + 0.5).Floor else -((-r + 0.5).Floor)
  }

  function Round(v: Float): Float {
    if v.Fin? then Fin(HalfAway(v.r) as real) else v
  }

  predicate Above(v: Float, bound: int) {
    match v
    case Fin(r) => r > bound as real
    case NaN => false
    case Inf(positive) => positive
  }

  predicate Below(v: Float, bound: int) {
    match v
    case Fin(r) => r < bound as real
    case NaN => false
    case Inf(positive) => !positive
  }

  /** `saturateQuotaBounded`. */
  function SaturateBounded(v: Float, max: int, min: int): Conversion {
    if v.NaN? then Conversion(0, Some(Clamp(NotANumber, v, 0)))
    else if Above(v, max) then Conversion(max, Some(Clamp(Overflow, v, max)))
    else if Below(v, min) then Conversion(min, Some(Clamp(Underflow, v, min)))
    else Conversion(Truncate(v.r), None)
  }

  function ToStrict(c: Conversion): Strict {
    if c.clamp.Some? then Rejected(c.clamp.value) else Accepted(c.quota)
  }

  function QuotaFromFloatChecked(v: Float): Conversion {
    SaturateBounded(v, MAX_QUOTA, MIN_QUOTA)
  }

  function QuotaRoundChecked(v: Float): Conversion {
    SaturateBounded(Round(v), MAX_QUOTA, MIN_QUOTA)
  }

  function WalletQuotaChecked(d: real): Conversion {
    SaturateBounded(Fin(HalfAway(d) as real), MAX_WALLET_QUOTA, -MAX_WALLET_QUOTA)
  }

  function QuotaRound(r: real): int {
    QuotaRoundChecked(Fin(r)).quota
  }

  function QuotaFromFloat(r: real): int {
    QuotaFromFloatChecked(Fin(r)).quota
  }

  /** The result is always in the domain, and a clamp is reported exactly for what is outside. */
  lemma SaturationIsReported(v: Float, max: int, min: int)
    requires min <= 0 <= max
    ensures var c := SaturateBounded(v, max, min);
            && min <= c.quota <= max
            && (c.clamp.None? <==> v.Fin? && min as real <= v.r <= max as real)
            && (c.clamp.Some? ==> c.clamp.value.original == v && c.clamp.value.clamped == c.quota && c.quota in {0, max, min})
            && (c.clamp.None? ==> -1.0 < c.quota as real - v.r < 1.0 && (v.r >= 0.0 ==> c.quota as real <= v.r) && (v.r <= 0.0 ==> v.r <= c.quota as real))
  {
  }

  lemma HalfAwayIsNearest(r: real)
    ensures -0.5 <= HalfAway(r) as real - r <= 0.5
    ensures r >= 0.0 ==> HalfAway(r) as real - r > -0.5 && HalfAway(r) >= 0
    ensures r <= 0.0 ==> HalfAway(r) as real - r < 0.5 && HalfAway(r) <= 0
    ensures HalfAway(-r) == -HalfAway(r)
  {
  }

  lemma HalfAwayOfInteger(i: int)
    ensures HalfAway(i as real) == i && Truncate(i as real) == i
  {
  }

  lemma HalfAwayMonotone(a: real, b: real)
    requires a <= b
    ensures HalfAway(a) <= HalfAway(b)
  {
    HalfAwayIsNearest(a);
    HalfAwayIsNearest(b);
  }

  /** The strict roundings reject exactly what does not round into the domain. */
  lemma StrictRoundingExactly(v: Float)
    ensures ToStrict(QuotaRoundChecked(v)).Accepted?
       <==> v.Fin? && -2147483648.5 < v.r < 2147483647.5
    ensures ToStrict(QuotaRoundChecked(v)).Accepted? ==> ToStrict(QuotaRoundChecked(v)).quota == HalfAway(v.r)
    ensures var c := QuotaRoundChecked(v);
            ToStrict(c).Rejected? ==>
              && c.clamp == Some(ToStrict(c).clamp)
              && (c.clamp.value.kind.NotANumber? <==> v.NaN?)
              && (c.clamp.value.kind.Overflow? <==> c.quota == MAX_QUOTA)
              && (c.clamp.value.kind.Underflow? <==> c.quota == MIN_QUOTA)
  {
    if v.Fin? {
      HalfAwayIsNearest(v.r);
      HalfAwayOfInteger(HalfAway(v.r));
    }
  }

  lemma StrictWalletExactly(d: real)
    ensures ToStrict(WalletQuotaChecked(d)).Accepted?
       <==> -9007199254740991.5 < d < 9007199254740991.5
    ensures ToStrict(WalletQuotaChecked(d)).Accepted? ==> ToStrict(WalletQuotaChecked(d)).quota == HalfAway(d)
  {
    HalfAwayIsNearest(d);
    HalfAwayOfInteger(HalfAway(d));
  }

  /** The truncating conversion compares before it truncates, so it rejects values whose
      truncation would fit. */
  lemma StrictTruncationExactly(v: Float)
    ensures ToStrict(QuotaFromFloatChecked(v)).Accepted? <==> v.Fin? && -2147483648.0 <= v.r <= 2147483647.0
    ensures ToStrict(QuotaFromFloatChecked(v)).Accepted? ==>
              var q := ToStrict(QuotaFromFloatChecked(v)).quota as real;
              if v.r >= 0.0 then v.r - 1.0 < q <= v.r else v.r <= q < v.r + 1.0
    ensures forall r: real :: 2147483647.0 < r < 2147483648.0 ==>
              Truncate(r) == 0x7FFF_FFFF && ToStrict(QuotaFromFloatChecked(Fin(r))).Rejected?
  {
  }

  /** Kept as a name of its own so that the rounding proofs see products as plain values. */
  function Times(a: real, b: real): real {
    a * b
  }

  /** The three nested conversions of the ratio branch of a test charge. */
  function CompletionQuota(completionTokens: int, completionRatio: real): int {
    QuotaRound(Times(completionTokens as real, completionRatio))
  }

  function TokenQuota(promptTokens: int, completionQuota: int): int {
    QuotaRound(promptTokens as real + completionQuota as real)
  }

  /** The last one is raised to one when the model is not free. */
  function ModelQuota(tokens: int, modelRatio: real): int {
    var quota := QuotaRound(Times(tokens as real, modelRatio));
    if modelRatio != 0.0 && quota <= 0 then 1 else quota
  }

  function RatioCharge(promptTokens: int, completionTokens: int, completionRatio: real, modelRatio: real): int {
    ModelQuota(TokenQuota(promptTokens, CompletionQuota(completionTokens, completionRatio)), modelRatio)
  }

  /** The charge of a channel test that is not settled by an expression. */
  function SettleTestQuota(usePrice: bool, modelPrice: real, promptTokens: int, completionTokens: int, completionRatio: real, modelRatio: real): int {
    if !usePrice then RatioCharge(promptTokens, completionTokens, completionRatio, modelRatio)
    else QuotaFromFloat(modelPrice * QUOTA_PER_UNIT)
  }

  lemma QuotaRoundSpec(r: real)
    ensures MIN_QUOTA <= QuotaRound(r) <= MAX_QUOTA
    ensures QuotaRound(r) == if HalfAway(r) > MAX_QUOTA then MAX_QUOTA else if HalfAway(r) < MIN_QUOTA then MIN_QUOTA else HalfAway(r)
    ensures r >= 0.0 ==> QuotaRound(r) >= 0
  {
    HalfAwayOfInteger(HalfAway(r));
    HalfAwayIsNearest(r);
  }

  lemma QuotaRoundMonotone(a: real, b: real)
    requires a <= b
    ensures QuotaRound(a) <= QuotaRound(b)
  {
    QuotaRoundSpec(a);
    QuotaRoundSpec(b);
    HalfAwayMonotone(a, b);
  }

  lemma ProductMonotone(a: real, b: real, x: real, y: real)
    requires 0.0 <= a <= b && 0.0 <= x <= y
    ensures 0.0 <= Times(a, x) <= Times(b, y)
  {
    assert a * x <= b * x;
    assert b * x <= b * y;
  }

  /** Rounding a product is monotone in both factors. */
  lemma RoundedProductMonotone(a: nat, b: nat, x: real, y: real)
    requires a <= b && 0.0 <= x <= y
    ensures 0 <= QuotaRound(Times(a as real, x)) <= QuotaRound(Times(b as real, y)) <= MAX_QUOTA
  {
    hide Times; hide QuotaRound;
    ProductMonotone(a as real, b as real, x, y);
    QuotaRoundMonotone(Times(a as real, x), Times(b as real, y));
    QuotaRoundSpec(Times(a as real, x));
    QuotaRoundSpec(Times(b as real, y));
  }

  lemma CompletionQuotaMonotone(c: nat, c': nat, cr: real, cr': real)
    requires c <= c' && 0.0 <= cr <= cr'
    ensures 0 <= CompletionQuota(c, cr) <= CompletionQuota(c', cr') <= MAX_QUOTA
  {
    hide Times; hide QuotaRound;
    RoundedProductMonotone(c, c', cr, cr');
  }

  lemma TokenQuotaMonotone(p: nat, p': nat, q: nat, q': nat)
    requires p <= p' && q <= q'
    ensures 0 <= TokenQuota(p, q) <= TokenQuota(p', q') <= MAX_QUOTA
  {
    hide QuotaRound;
    QuotaRoundMonotone(p as real + q as real, p' as real + q' as real);
    QuotaRoundSpec(p as real + q as real);
    QuotaRoundSpec(p' as real + q' as real);
  }

  lemma ModelQuotaMonotone(t: nat, t': nat, mr: real, mr': real)
    requires t <= t' && 0.0 <= mr <= mr'
    ensures 0 <= ModelQuota(t, mr) <= ModelQuota(t', mr') <= MAX_QUOTA
    ensures mr != 0.0 ==> ModelQuota(t, mr) >= 1
    ensures mr == 0.0 ==> ModelQuota(t, mr) == 0
  {
    hide Times; hide QuotaRound;
    RoundedProductMonotone(t, t', mr, mr');
    if mr == 0.0 {
      TimesZero(t as real);
      QuotaRoundSpec(0.0);
    }
  }

  lemma TimesZero(a: real)
    ensures Times(a, 0.0) == 0.0
  {
  }

  /** The charge stays in the domain, is positive whenever the model costs anything, and is zero
      for a free model. */
  lemma ChargeBounds(modelPrice: real, promptTokens: nat, completionTokens: nat, completionRatio: real, modelRatio: real)
    requires completionRatio >= 0.0 && modelRatio >= 0.0
    ensures var charge := SettleTestQuota(false, modelPrice, promptTokens, completionTokens, completionRatio, modelRatio);
            0 <= charge <= 0x7FFF_FFFF && (modelRatio != 0.0 ==> charge >= 1) && (modelRatio == 0.0 ==> charge == 0)
  {
    hide CompletionQuota; hide TokenQuota; hide ModelQuota;
    CompletionQuotaMonotone(completionTokens, completionTokens, completionRatio, completionRatio);
    var q := CompletionQuota(completionTokens, completionRatio);
    TokenQuotaMonotone(promptTokens, promptTokens, q, q);
    ModelQuotaMonotone(TokenQuota(promptTokens, q), TokenQuota(promptTokens, q), modelRatio, modelRatio);
  }

  /** More tokens or higher ratios never charge less, through rounding and saturation. */
  lemma ChargeMonotone(price: real, price': real, p: nat, p': nat, c: nat, c': nat, cr: real, cr': real, mr: real, mr': real)
    requires p <= p' && c <= c' && 0.0 <= cr <= cr' && 0.0 <= mr <= mr'
    ensures SettleTestQuota(false, price, p, c, cr, mr) <= SettleTestQuota(false, price', p', c', cr', mr')
  {
    hide CompletionQuota; hide TokenQuota; hide ModelQuota;
    CompletionQuotaMonotone(c, c', cr, cr');
    var q, q' := CompletionQuota(c, cr), CompletionQuota(c', cr');
    TokenQuotaMonotone(p, p', q, q');
    ModelQuotaMonotone(TokenQuota(p, q), TokenQuota(p', q'), mr, mr');
  }

  /** Away from saturation the charge is within half the model ratio plus one half of the exact
      price, unless it was raised to one: of the three roundings only two can lose anything. */
  lemma ChargeIsAccurate(price: real, p: nat, c: nat, cr: real, mr: real)
    requires 0.0 <= cr && 0.0 < mr
    requires HalfAway(Times(c as real, cr)) <= MAX_QUOTA && p + HalfAway(Times(c as real, cr)) <= MAX_QUOTA
    requires HalfAway(Times((p + HalfAway(Times(c as real, cr))) as real, mr)) <= MAX_QUOTA
    ensures var exact, charge := Times(p as real + Times(c as real, cr), mr), SettleTestQuota(false, price, p, c, cr, mr);
            charge == 1 || (exact - (mr + 1.0) / 2.0 <= charge as real <= exact + (mr + 1.0) / 2.0)
  {
    hide QuotaRound; hide HalfAway; hide Times;
    var product := Times(c as real, cr);
    var q := HalfAway(product);
    ProductMonotone(0.0, c as real, 0.0, cr);
    TimesZero(0.0);
    QuotaRoundSpec(product);
    HalfAwayIsNearest(product);
    assert CompletionQuota(c, cr) == q;
    HalfAwayOfInteger(p + q);
    assert p as real + q as real == (p + q) as real;
    QuotaRoundSpec((p + q) as real);
    assert TokenQuota(p, q) == p + q;
    var scaled := Times((p + q) as real, mr);
    ProductMonotone(0.0, (p + q) as real, 0.0, mr);
    QuotaRoundSpec(scaled);
    HalfAwayIsNearest(scaled);
    RoundingErrorScales(p as real, product, q as real, mr);
  }

  lemma RoundingErrorScales(p: real, product: real, q: real, mr: real)
    requires -0.5 <= q - product <= 0.5 && 0.0 < mr
    ensures -mr / 2.0 <= Times(p + q, mr) - Times(p + product, mr) <= mr / 2.0
  {
    var error := q - product;
    assert Times(p + q, mr) - Times(p + product, mr) == error * mr;
    ProductMonotone(0.0, error + 0.5, 0.0, mr);
    ProductMonotone(0.0, 0.5 - error, 0.0, mr);
    assert (error + 0.5) * mr == error * mr + 0.5 * mr;
    assert (0.5 - error) * mr == 0.5 * mr - error * mr;
  }

  /** The price branch truncates: it stays in the domain, never charges more than the price, and
      grows with it. */
  lemma PriceChargeMonotone(price: real, price': real, p: int, c: int, cr: real, mr: real)
    requires 0.0 <= price <= price'
    ensures var charge := SettleTestQuota(true, price, p, c, cr, mr);
            && 0 <= charge <= SettleTestQuota(true, price', p, c, cr, mr) <= 0x7FFF_FFFF
            && charge as real <= price * 500_000.0
            && (charge as real > price * 500_000.0 - 1.0 || charge == 0x7FFF_FFFF)
  {
  }
}
