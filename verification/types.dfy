/** The records the coupon optimizer keeps: offers, staples, receipt lines,
    resale items, user settings and the derived deal evaluations
    (src/models/types.ts). Every optional TypeScript field is an `Option`. */
module Types {

  datatype Option<+T> = None | Some(value: T) {
    /** The `??` operator: the carried value, or `default` when absent. */
    function GetOr(default: T): T {
      match this
      case Some(v) => v
      case None => default
    }
  }

  datatype Store = Target | Walmart

  /** The five mutually exclusive kinds of discount an offer can carry. */
  datatype ValueType = Flat | Percent | GiftCard | Threshold | Rebate

  /** Type-specific parameters; an absent `thresholdTrigger` (the source's
      `Infinity` default) means the threshold discount is disabled. */
  datatype StackRules = StackRules(
    giftSplitCount: Option<real>,
    thresholdTrigger: Option<real>,
    thresholdScopeTotal: Option<real>)

  datatype Offer = Offer(
    id: string,
    store: Store,
    title: string,
    productTags: seq<string>,
    valueType: ValueType,
    valueAmount: real,
    basePrice: Option<real>,
    startDate: Option<string>,
    endDate: Option<string>,
    confidence: real,
    notes: Option<string>,
    stackRules: Option<StackRules>)

  /** Calendar dates of purchases, as day numbers. */
  type Day = int

  datatype Staple = Staple(
    id: string,
    name: string,
    tags: seq<string>,
    avgPrice: Option<real>,
    lastLowPrice: Option<real>,
    lastPurchaseDate: Option<Day>,
    consumptionIntervalDays: Option<real>,
    unitsOnHand: Option<real>,
    priorityScore: Option<real>)

  datatype ReceiptLine = ReceiptLine(
    id: string,
    date: Day,
    store: Store,
    name: string,
    price: real,
    qty: real,
    matchedStapleId: Option<string>)

  datatype ResaleItem = ResaleItem(
    id: string,
    stapleId: string,
    acquiredUnitCost: real,
    desiredMarkupPercent: real,
    expectedSalePrice: real,
    projectedProfit: real,
    listed: Option<bool>,
    soldUnits: real,
    revenueCollected: real)

  /** Scoring configuration; `timeCostByType` may lack a key once a snapshot
      has been imported, in which case scoring falls back to one minute. */
  datatype Settings = Settings(
    waitCoverageDays: real,
    waitPriceMultiplier: real,
    minRawSavings: real,
    urgencyLowCoverageRatio: real,
    timeCostByType: map<ValueType, real>)

  datatype AppData = AppData(
    offers: seq<Offer>,
    staples: seq<Staple>,
    receipts: seq<ReceiptLine>,
    resaleInventory: seq<ResaleItem>,
    settings: Settings)

  datatype Recommendation = Buy | Wait

  /** Rationale tags attached to an evaluation. */
  datatype Tag =
    | RebateTag | GiftCardTag | ThresholdTag
    | LowStock | HighValue | PlentyStock | HighPercentOff | RawSavings
  {
    /** The label the user interface shows. */
    function Label(): string {
      match this
      case RebateTag => "Rebate"
      case GiftCardTag => "Gift Card"
      case ThresholdTag => "Threshold Allocation"
      case LowStock => "Low Stock"
      case HighValue => "High Value"
      case PlentyStock => "Plenty Stock"
      case HighPercentOff => "High % Off"
      case RawSavings => "Raw Savings"
    }
  }

  datatype DealEvaluation = DealEvaluation(
    offer: Offer,
    staple: Staple,
    netEffectiveCost: real,
    rawSavings: real,
    savingsPercent: real,
    valueScore: real,
    recommendation: Recommendation,
    rationale: seq<Tag>)

  function Max(a: real, b: real): real { if a >= b then a else b }
  function Min(a: real, b: real): real { if a <= b then a else b }
}
