/** Deal scoring (src/logic/scoring.ts): which offers concern a staple, and
    for each of them the base price, the one discount it grants, the net
    cost, the savings, an urgency factor, a value score, a BUY/WAIT call and
    the ordered reasons behind it. */
module Scoring {
  import opened Types
  import Text
  import Utils
  import Storage

  /** An offer tag concerns a staple when it occurs in the staple's
      lower-cased name or is one of the staple's own tags. */
  predicate TagConcerns(s: Staple, t: string) {
    Text.Includes(Text.Lower(s.name), t) || t in s.tags
  }

  predicate Relevant(s: Staple, o: Offer) {
    exists i :: 0 <= i < |o.productTags| && TagConcerns(s, o.productTags[i])
  }

  /** The relevance filter of `evaluateStapleOffers`: the offers concerning
      the staple, in input order. */
  function RelevantOffers(s: Staple, offers: seq<Offer>): (r: seq<Offer>)
    ensures |r| <= |offers|
    ensures forall o :: o in r <==> o in offers && Relevant(s, o)
    ensures (forall i :: 0 <= i < |offers| ==> Relevant(s, offers[i])) ==> r == offers
  {
    if offers == [] then []
    else (if Relevant(s, offers[0]) then [offers[0]] else []) + RelevantOffers(s, offers[1..])
  }

  /** Filtering keeps the input order: it distributes over concatenation. */
  lemma {:induction false} RelevantOffersConcat(s: Staple, a: seq<Offer>, b: seq<Offer>)
    ensures RelevantOffers(s, a + b) == RelevantOffers(s, a) + RelevantOffers(s, b)
  {
    if a != [] {
      RelevantOffersConcat(s, a[1..], b);
      RelevantOffersHead(s, a, b);
    } else {
      assert a + b == b;
    }
  }

  /** The first offer of `a` is kept or dropped alike from `a` and `a + b`. */
  lemma RelevantOffersHead(s: Staple, a: seq<Offer>, b: seq<Offer>)
    requires a != []
    ensures var head := if Relevant(s, a[0]) then [a[0]] else [];
            && RelevantOffers(s, a + b) == head + RelevantOffers(s, a[1..] + b)
            && RelevantOffers(s, a) == head + RelevantOffers(s, a[1..])
  {
    assert (a + b)[0] == a[0];
    assert (a + b)[1..] == a[1..] + b;
  }

  /** The empty string occurs in every name, so an offer carrying an empty
      tag concerns every staple. */
  lemma EmptyTagRelevant(s: Staple, o: Offer)
    requires "" in o.productTags
    ensures Relevant(s, o)
  {
    var i :| 0 <= i < |o.productTags| && o.productTags[i] == "";
    Text.EmptyIncluded(Text.Lower(s.name));
    assert TagConcerns(s, o.productTags[i]);
  }

  /** `offer.basePrice ?? staple.avgPrice ?? staple.lastLowPrice ?? 0`. */
  function BasePrice(s: Staple, o: Offer): (r: real)
    ensures o.basePrice.Some? ==> r == o.basePrice.value
    ensures o.basePrice.None? && s.avgPrice.Some? ==> r == s.avgPrice.value
    ensures o.basePrice.None? && s.avgPrice.None? && s.lastLowPrice.Some? ==> r == s.lastLowPrice.value
    ensures o.basePrice.None? && s.avgPrice.None? && s.lastLowPrice.None? ==> r == 0.0
  {
    o.basePrice.GetOr(s.avgPrice.GetOr(s.lastLowPrice.GetOr(0.0)))
  }

  /** `stackRules?.giftSplitCount ?? 1`. */
  function GiftSplit(o: Offer): real {
    if o.stackRules.Some? then o.stackRules.value.giftSplitCount.GetOr(1.0) else 1.0
  }

  /** The threshold trigger; absent means the source's `Infinity`, which no
      scope total reaches. */
  function Trigger(o: Offer): Option<real> {
    if o.stackRules.Some? then o.stackRules.value.thresholdTrigger else None
  }

  /** `stackRules?.thresholdScopeTotal ?? base`. */
  function ScopeTotal(o: Offer, base: real): real {
    if o.stackRules.Some? then o.stackRules.value.thresholdScopeTotal.GetOr(base) else base
  }

  predicate ThresholdApplies(o: Offer, base: real) {
    Trigger(o).Some? && ScopeTotal(o, base) >= Trigger(o).value
  }

  /** The divisions the source performs have non-zero divisors. */
  predicate Payable(o: Offer, base: real) {
    && (o.valueType == GiftCard ==> GiftSplit(o) != 0.0)
    && (o.valueType == Threshold && ThresholdApplies(o, base) ==> ScopeTotal(o, base) != 0.0)
  }

  /** The one discount component the offer's type selects; the other four
      components of the source stay at zero. */
  function Discount(o: Offer, base: real): (r: real)
    requires Payable(o, base)
    ensures o.valueType == Flat || o.valueType == Rebate ==> r == o.valueAmount
    ensures o.valueType == Percent ==> r * 100.0 == o.valueAmount * base
    ensures o.valueType == GiftCard ==> r * GiftSplit(o) == o.valueAmount
    ensures o.valueType == Threshold && !ThresholdApplies(o, base) ==> r == 0.0
    ensures o.valueType == Threshold && ThresholdApplies(o, base) ==> r * ScopeTotal(o, base) == o.valueAmount * base
  {
    match o.valueType
    case Flat => o.valueAmount
    case Percent => (o.valueAmount / 100.0) * base
    case Rebate => o.valueAmount
    case GiftCard =>
      DivTimes(o.valueAmount, GiftSplit(o));
      o.valueAmount / GiftSplit(o)
    case Threshold =>
      if ThresholdApplies(o, base) then
        DivTimes(o.valueAmount * base, ScopeTotal(o, base));
        (o.valueAmount * base) / ScopeTotal(o, base)
      else 0.0
  }

  /** A flat coupon and a rebate are worth their face amount. */
  lemma DiscountFixed(o: Offer, base: real)
    requires o.valueType == Flat || o.valueType == Rebate
    ensures Discount(o, base) == o.valueAmount
  {
  }

  /** A percentage between 0 and 100 of a non-negative base takes off
      between nothing and the whole base. */
  lemma DiscountPercent(o: Offer, base: real)
    requires o.valueType == Percent && 0.0 <= o.valueAmount <= 100.0 && base >= 0.0
    ensures 0.0 <= Discount(o, base) <= base
  {
    var f := o.valueAmount / 100.0;
    assert 0.0 <= f <= 1.0;
    assert Discount(o, base) == f * base;
    PercentOfBase(f, base);
  }

  /** A gift card is shared evenly among the items it is split across. */
  lemma DiscountGiftCard(o: Offer, base: real)
    requires o.valueType == GiftCard && GiftSplit(o) != 0.0
    ensures Discount(o, base) * GiftSplit(o) == o.valueAmount
    ensures GiftSplit(o) == 1.0 ==> Discount(o, base) == o.valueAmount
  {
    DivTimes(o.valueAmount, GiftSplit(o));
  }

  /** A threshold reward is nothing below the trigger; once triggered it is
      the item's share, by price, of the reward over the whole scope. */
  lemma DiscountThreshold(o: Offer, base: real)
    requires o.valueType == Threshold && Payable(o, base)
    ensures !ThresholdApplies(o, base) ==> Discount(o, base) == 0.0
    ensures ThresholdApplies(o, base) ==> Discount(o, base) * ScopeTotal(o, base) == o.valueAmount * base
    ensures ThresholdApplies(o, base) && ScopeTotal(o, base) == base ==> Discount(o, base) == o.valueAmount
  {
    if ThresholdApplies(o, base) {
      DivTimes(o.valueAmount * base, ScopeTotal(o, base));
    }
  }

  lemma PercentOfBase(f: real, base: real)
    requires 0.0 <= f <= 1.0 && base >= 0.0
    ensures 0.0 <= f * base <= base
  {
    assert base - f * base == (1.0 - f) * base;
    Utils.MulNonNeg(1.0 - f, base);
    Utils.MulNonNeg(f, base);
  }

  /** Units on hand times the consumption interval, with the defaults 0
      units and 30 days. */
  function Interval(s: Staple): real { s.consumptionIntervalDays.GetOr(30.0) }
  function CoverageDays(s: Staple): real { s.unitsOnHand.GetOr(0.0) * Interval(s) }

  /** Low stock: the days covered fall short of the configured share of one
      interval. */
  predicate Urgent(s: Staple, settings: Settings) {
    CoverageDays(s) < Interval(s) * settings.urgencyLowCoverageRatio
  }

  function Urgency(s: Staple, settings: Settings): (r: real)
    ensures r == 1.0 || r == 1.3
    ensures r > 1.0 <==> Urgent(s, settings)
  {
    if Urgent(s, settings) then 1.3 else 1.0
  }

  /** Plenty of stock at a price well above the last low: the reason to
      wait that overrides every reason to buy. */
  predicate Plenty(s: Staple, settings: Settings, base: real) {
    CoverageDays(s) > settings.waitCoverageDays
    && base > s.lastLowPrice.GetOr(base) * settings.waitPriceMultiplier
  }

  /** With a positive interval, low stock means fewer units on hand than the
      configured coverage ratio. */
  lemma UrgentUnits(s: Staple, settings: Settings)
    requires Interval(s) > 0.0
    ensures Urgent(s, settings) <==> s.unitsOnHand.GetOr(0.0) < settings.urgencyLowCoverageRatio
  {
    var u, i, q := s.unitsOnHand.GetOr(0.0), Interval(s), settings.urgencyLowCoverageRatio;
    assert i * q - u * i == i * (q - u);
  }

  /** Without a recorded low price the item's own price stands in for it, so
      with a multiplier of at least one the plenty rule never applies to a
      non-negative price. */
  lemma PlentyNeedsLow(s: Staple, settings: Settings, base: real)
    requires s.lastLowPrice.None? && settings.waitPriceMultiplier >= 1.0 && base >= 0.0
    ensures !Plenty(s, settings, base)
  {
    assert base * settings.waitPriceMultiplier - base == base * (settings.waitPriceMultiplier - 1.0);
    Utils.MulNonNeg(base, settings.waitPriceMultiplier - 1.0);
  }

  /** `settings.timeCostByType[type] ?? 1`. */
  function TimeCost(settings: Settings, t: ValueType): (r: real)
    ensures t in settings.timeCostByType ==> r == settings.timeCostByType[t]
    ensures t !in settings.timeCostByType ==> r == 1.0
  {
    if t in settings.timeCostByType then settings.timeCostByType[t] else 1.0
  }

  predicate Scorable(s: Staple, o: Offer, settings: Settings) {
    Payable(o, BasePrice(s, o)) && TimeCost(settings, o.valueType) != -1.0
  }

  /** The reason tag the offer's type contributes, if any. */
  function TypeTags(o: Offer, base: real): (r: seq<Tag>)
    ensures |r| <= 1
    ensures forall t :: t in r ==> TagRank(t) == 0
    ensures RebateTag in r <==> o.valueType == Rebate
    ensures GiftCardTag in r <==> o.valueType == GiftCard
    ensures ThresholdTag in r <==> o.valueType == Threshold && ThresholdApplies(o, base)
  {
    match o.valueType
    case Rebate => [RebateTag]
    case GiftCard => [GiftCardTag]
    case Threshold => if ThresholdApplies(o, base) then [ThresholdTag] else []
    case _ => []
  }

  /** The position of a tag in the order reasons are given. */
  function TagRank(t: Tag): nat {
    match t
    case RebateTag => 0
    case GiftCardTag => 0
    case ThresholdTag => 0
    case LowStock => 1
    case HighValue => 2
    case PlentyStock => 3
    case HighPercentOff => 4
    case RawSavings => 5
  }

  predicate InTagOrder(ts: seq<Tag>) {
    forall i, j :: 0 <= i < j < |ts| ==> TagRank(ts[i]) < TagRank(ts[j])
  }

  /** The conditions under which the later reasons are given. */
  datatype Conditions = Conditions(urgent: bool, high: bool, plenty: bool, pctHigh: bool, rawHigh: bool)

  /** Whether a candidate reason is given: each later reason on its
      condition, the type's own tag always. */
  predicate Kept(t: Tag, c: Conditions) {
    match t
    case LowStock => c.urgent
    case HighValue => c.high
    case PlentyStock => c.plenty
    case HighPercentOff => c.pctHigh
    case RawSavings => c.rawHigh
    case _ => true
  }

  /** The candidates given under `c`, in their original order. */
  function Pick(cands: seq<Tag>, c: Conditions): (r: seq<Tag>)
    ensures forall t :: t in r <==> t in cands && Kept(t, c)
  {
    if cands == [] then []
    else (if Kept(cands[0], c) then [cands[0]] else []) + Pick(cands[1..], c)
  }

  /** Picking keeps candidates in tag order. */
  lemma {:induction false} PickInOrder(cands: seq<Tag>, c: Conditions)
    requires InTagOrder(cands)
    ensures InTagOrder(Pick(cands, c))
  {
    if cands != [] {
      var rest := Pick(cands[1..], c);
      assert InTagOrder(cands[1..]);
      PickInOrder(cands[1..], c);
      HeadFirst(cands);
      assert Pick(cands, c) == (if Kept(cands[0], c) then [cands[0]] else []) + rest;
      if Kept(cands[0], c) {
        ConsInTagOrder(cands[0], rest);
      }
    }
  }

  /** The head of a sequence in tag order ranks below everything after it. */
  lemma HeadFirst(cands: seq<Tag>)
    requires InTagOrder(cands) && cands != []
    ensures forall t :: t in cands[1..] ==> TagRank(cands[0]) < TagRank(t)
  {
    forall t | t in cands[1..]
      ensures TagRank(cands[0]) < TagRank(t)
    {
      var k :| 0 <= k < |cands[1..]| && cands[1..][k] == t;
      assert cands[k + 1] == t;
    }
  }

  /** A tag ranking below every tag of a sequence in tag order can go in
      front of it. */
  lemma ConsInTagOrder(x: Tag, rest: seq<Tag>)
    requires InTagOrder(rest)
    requires forall t :: t in rest ==> TagRank(x) < TagRank(t)
    ensures InTagOrder([x] + rest)
  {
    var r := [x] + rest;
    forall i, j | 0 <= i < j < |r|
      ensures TagRank(r[i]) < TagRank(r[j])
    {
      assert r[j] == rest[j - 1];
      if i > 0 {
        assert r[i] == rest[i - 1];
      } else {
        assert rest[j - 1] in rest;
      }
    }
  }

  /** The reasons after the type's own tag, in the order they are given. */
  const LaterReasons: seq<Tag> := [LowStock, HighValue, PlentyStock, HighPercentOff, RawSavings]

  /** The reasons in the order the source gives them: the type's own tag,
      then low stock, high value, plenty of stock, a high percentage off and
      high raw savings, each present exactly when its condition holds. */
  function Reasons(kind: seq<Tag>, urgent: bool, high: bool, plenty: bool, pctHigh: bool, rawHigh: bool): (r: seq<Tag>)
    requires |kind| <= 1 && forall i :: 0 <= i < |kind| ==> TagRank(kind[i]) == 0
    ensures forall t :: TagRank(t) == 0 ==> (t in r <==> t in kind)
    ensures LowStock in r <==> urgent
    ensures HighValue in r <==> high
    ensures PlentyStock in r <==> plenty
    ensures HighPercentOff in r <==> pctHigh
    ensures RawSavings in r <==> rawHigh
    ensures InTagOrder(r)
  {
    var c := Conditions(urgent, high, plenty, pctHigh, rawHigh);
    Candidates(kind);
    PickInOrder(kind + LaterReasons, c);
    PickKind(kind, c);
    PickLater(kind, c, LowStock);
    PickLater(kind, c, HighValue);
    PickLater(kind, c, PlentyStock);
    PickLater(kind, c, HighPercentOff);
    PickLater(kind, c, RawSavings);
    Pick(kind + LaterReasons, c)
  }

  /** The type's own tag is given exactly when the type has one. */
  lemma PickKind(kind: seq<Tag>, c: Conditions)
    requires |kind| <= 1 && forall i :: 0 <= i < |kind| ==> TagRank(kind[i]) == 0
    ensures forall t :: TagRank(t) == 0 ==> (t in Pick(kind + LaterReasons, c) <==> t in kind)
  {
    Candidates(kind);
  }

  /** A later reason is given exactly when its condition holds. */
  lemma PickLater(kind: seq<Tag>, c: Conditions, t: Tag)
    requires |kind| <= 1 && forall i :: 0 <= i < |kind| ==> TagRank(kind[i]) == 0
    requires TagRank(t) != 0
    ensures t in Pick(kind + LaterReasons, c) <==> Kept(t, c)
  {
    Candidates(kind);
  }

  /** The candidate reasons are in tag order, hold every later reason, and
      hold exactly the type tags of `kind`. */
  lemma Candidates(kind: seq<Tag>)
    requires |kind| <= 1 && forall i :: 0 <= i < |kind| ==> TagRank(kind[i]) == 0
    ensures InTagOrder(kind + LaterReasons)
    ensures forall t :: TagRank(t) == 0 ==> (t in kind + LaterReasons <==> t in kind)
    ensures forall t :: TagRank(t) != 0 ==> t in kind + LaterReasons
  {
    var cands := kind + LaterReasons;
    assert cands[|kind|] == LowStock && cands[|kind| + 1] == HighValue && cands[|kind| + 2] == PlentyStock;
    assert cands[|kind| + 3] == HighPercentOff && cands[|kind| + 4] == RawSavings;
  }

  /** `computeEvaluation`. */
  function ComputeEvaluation(s: Staple, o: Offer, settings: Settings): (e: DealEvaluation)
    requires Scorable(s, o, settings)
    ensures e.offer == o && e.staple == s
    ensures e.rawSavings == Discount(o, BasePrice(s, o))
    ensures e.netEffectiveCost >= 0.0
    ensures e.netEffectiveCost == Max(BasePrice(s, o) - e.rawSavings, 0.0)
    ensures BasePrice(s, o) == 0.0 ==> e.savingsPercent == 0.0
    ensures BasePrice(s, o) != 0.0 ==> e.savingsPercent == e.rawSavings / BasePrice(s, o) * 100.0
    ensures e.valueScore == ValueScore(e.rawSavings, o.confidence, Urgency(s, settings), TimeCost(settings, o.valueType))
    ensures e.recommendation == Buy <==>
              !Plenty(s, settings, BasePrice(s, o))
              && (e.savingsPercent >= 25.0 || e.rawSavings >= settings.minRawSavings || Urgent(s, settings))
  {
    var base := BasePrice(s, o);
    var d := Discount(o, base);
    var net := base - d;
    var raw := d;
    var pct := if base == 0.0 then 0.0 else ((base - net) / base) * 100.0;
    var urgency := Urgency(s, settings);
    var score := ValueScore(raw, o.confidence, urgency, TimeCost(settings, o.valueType));
    var high := pct >= 25.0 || raw >= settings.minRawSavings || urgency > 1.0;
    var plenty := Plenty(s, settings, base);
    var recommendation := if plenty then Wait else if high then Buy else Wait;
    var rationale := Reasons(TypeTags(o, base), urgency > 1.0, high, plenty, pct >= 25.0,
                             raw >= settings.minRawSavings);
    DealEvaluation(o, s, Max(net, 0.0), raw, pct, score, recommendation, rationale)
  }

  /** Each reason is given exactly when its condition holds, whatever the
      final call, and the reasons come in the source's order. */
  lemma EvaluationReasons(s: Staple, o: Offer, settings: Settings)
    requires Scorable(s, o, settings)
    ensures var e := ComputeEvaluation(s, o, settings);
            && (RebateTag in e.rationale <==> o.valueType == Rebate)
            && (GiftCardTag in e.rationale <==> o.valueType == GiftCard)
            && (ThresholdTag in e.rationale <==> o.valueType == Threshold && ThresholdApplies(o, BasePrice(s, o)))
            && (LowStock in e.rationale <==> Urgent(s, settings))
            && (HighValue in e.rationale <==>
                  e.savingsPercent >= 25.0 || e.rawSavings >= settings.minRawSavings || Urgent(s, settings))
            && (PlentyStock in e.rationale <==> Plenty(s, settings, BasePrice(s, o)))
            && (HighPercentOff in e.rationale <==> e.savingsPercent >= 25.0)
            && (RawSavings in e.rationale <==> e.rawSavings >= settings.minRawSavings)
            && InTagOrder(e.rationale)
  {
  }

  /** The value score: the savings scaled by the confidence and the
      urgency, per minute of effort plus one. It is not negative when none
      of its inputs is. */
  function ValueScore(raw: real, confidence: real, urgency: real, timeCost: real): (r: real)
    requires timeCost != -1.0
    ensures r * (timeCost + 1.0) == raw * confidence * urgency
    ensures raw >= 0.0 && confidence >= 0.0 && urgency >= 0.0 && timeCost >= 0.0 ==> r >= 0.0
  {
    var x := raw * confidence * urgency;
    var k := timeCost + 1.0;
    assert raw >= 0.0 && confidence >= 0.0 && urgency >= 0.0 ==> x >= 0.0 by {
      if raw >= 0.0 && confidence >= 0.0 && urgency >= 0.0 {
        Utils.MulNonNeg(raw, confidence);
        Utils.MulNonNeg(raw * confidence, urgency);
      }
    }
    DivTimes(x, k);
    x / k
  }

  lemma DivTimes(x: real, k: real)
    requires k != 0.0
    ensures (x / k) * k == x
    ensures x >= 0.0 && k > 0.0 ==> x / k >= 0.0
  {
  }

  /** `evaluateStapleOffers`: one evaluation per relevant offer, in order. */
  function EvaluateStapleOffers(s: Staple, offers: seq<Offer>, settings: Settings): (r: seq<DealEvaluation>)
    requires forall o :: o in offers && Relevant(s, o) ==> Scorable(s, o, settings)
    ensures |r| == |RelevantOffers(s, offers)|
    ensures forall i :: 0 <= i < |r| ==> r[i].offer == RelevantOffers(s, offers)[i] && r[i].staple == s
    ensures forall i :: 0 <= i < |r| ==> r[i] == ComputeEvaluation(s, r[i].offer, settings)
  {
    var relevant := RelevantOffers(s, offers);
    Evaluations(s, relevant, settings)
  }

  function Evaluations(s: Staple, offers: seq<Offer>, settings: Settings): (r: seq<DealEvaluation>)
    requires forall o :: o in offers ==> Scorable(s, o, settings)
    ensures |r| == |offers|
    ensures forall i :: 0 <= i < |r| ==> r[i].offer == offers[i] && r[i].staple == s
    ensures forall i :: 0 <= i < |r| ==> Scorable(s, offers[i], settings) && r[i] == ComputeEvaluation(s, offers[i], settings)
  {
    seq(|offers|, i requires 0 <= i < |offers| => ComputeEvaluation(s, offers[i], settings))
  }

  /** A percent offer on a non-zero base saves exactly its percentage. */
  lemma PercentSavings(s: Staple, o: Offer, settings: Settings)
    requires Scorable(s, o, settings)
    requires o.valueType == Percent && BasePrice(s, o) != 0.0
    ensures ComputeEvaluation(s, o, settings).savingsPercent == o.valueAmount
  {
    var b := BasePrice(s, o);
    var e := ComputeEvaluation(s, o, settings);
    assert e.rawSavings == (o.valueAmount / 100.0) * b;
    TimesDiv(o.valueAmount / 100.0, b);
  }

  lemma TimesDiv(f: real, b: real)
    requires b != 0.0
    ensures (f * b) / b == f
  {
  }

  /** A staple just created holds no units, so it is low on stock under any
      positive coverage ratio. */
  lemma FreshStapleUrgent(id: string, name: string, settings: Settings)
    requires settings.urgencyLowCoverageRatio > 0.0
    ensures Urgent(Storage.CreateStaple(id, name), settings)
  {
    var s := Storage.CreateStaple(id, name);
    assert CoverageDays(s) == 0.0;
    assert Interval(s) == 30.0;
  }
}
