/** Persistence and the record constructors (src/logic/storage.ts): the
    default settings, reading a stored snapshot back with the defaults laid
    under its settings, importing a snapshot by overwriting or by merging it
    id by id, and the `create*` helpers that fill in defaults.

    The browser storage itself and JSON text are not modelled: a stored
    snapshot is either absent, unreadable, or an already parsed `Document`,
    and an import receives the parsed document or `None` for text that does
    not parse. */
module Storage {
  import opened Types
  import Keyed

  /** `defaultSettings()`. */
  function DefaultSettings(): (s: Settings)
    ensures s.waitCoverageDays == 14.0 && s.waitPriceMultiplier == 1.1
    ensures s.minRawSavings == 3.0 && s.urgencyLowCoverageRatio == 0.3
    ensures HasEveryType(s.timeCostByType)
    ensures forall t :: t in s.timeCostByType ==> s.timeCostByType[t] > 0.0
    ensures s.timeCostByType[Flat] == s.timeCostByType[Percent] < s.timeCostByType[GiftCard]
              < s.timeCostByType[Threshold] < s.timeCostByType[Rebate]
    ensures s.timeCostByType.Keys == {Flat, Percent, GiftCard, Threshold, Rebate}
    ensures s.timeCostByType[Flat] == 0.5 && s.timeCostByType[Percent] == 0.5
    ensures s.timeCostByType[GiftCard] == 1.5 && s.timeCostByType[Threshold] == 2.0
    ensures s.timeCostByType[Rebate] == 2.5
  {
    Settings(14.0, 1.1, 3.0, 0.3,
             map[Flat := 0.5, Percent := 0.5, GiftCard := 1.5, Threshold := 2.0, Rebate := 2.5])
  }

  /** The time-cost table names every kind of offer. */
  predicate HasEveryType(m: map<ValueType, real>) {
    Flat in m && Percent in m && GiftCard in m && Threshold in m && Rebate in m
  }

  /** A settings object as it appears in a parsed snapshot: any key may be
      missing. */
  datatype SettingsPatch = SettingsPatch(
    waitCoverageDays: Option<real>,
    waitPriceMultiplier: Option<real>,
    minRawSavings: Option<real>,
    urgencyLowCoverageRatio: Option<real>,
    timeCostByType: Option<map<ValueType, real>>)

  /** The object with no keys. */
  const NoKeys := SettingsPatch(None, None, None, None, None)

  predicate HasAllKeys(p: SettingsPatch) {
    && p.waitCoverageDays.Some? && p.waitPriceMultiplier.Some? && p.minRawSavings.Some?
    && p.urgencyLowCoverageRatio.Some? && p.timeCostByType.Some?
  }

  /** A complete settings object, every key present. */
  function AllKeys(s: Settings): (p: SettingsPatch)
    ensures HasAllKeys(p)
  {
    SettingsPatch(Some(s.waitCoverageDays), Some(s.waitPriceMultiplier), Some(s.minRawSavings),
                  Some(s.urgencyLowCoverageRatio), Some(s.timeCostByType))
  }

  /** `{ ...s, ...p }`: the keys of `p` win, the others keep their value in
      `s`; the time-cost table is one key, replaced as a whole. A patch with
      no keys changes nothing and a complete one leaves nothing of `s`. */
  function Overlay(s: Settings, p: SettingsPatch): (r: Settings)
    ensures p == NoKeys ==> r == s
    ensures p == AllKeys(r) || !HasAllKeys(p)
    ensures r.waitCoverageDays
            == (if p.waitCoverageDays.Some? then p.waitCoverageDays.value else s.waitCoverageDays)
    ensures r.waitPriceMultiplier
            == (if p.waitPriceMultiplier.Some? then p.waitPriceMultiplier.value else s.waitPriceMultiplier)
    ensures r.minRawSavings
            == (if p.minRawSavings.Some? then p.minRawSavings.value else s.minRawSavings)
    ensures r.urgencyLowCoverageRatio
            == (if p.urgencyLowCoverageRatio.Some? then p.urgencyLowCoverageRatio.value else s.urgencyLowCoverageRatio)
    ensures p.timeCostByType.Some? ==> r.timeCostByType == p.timeCostByType.value
    ensures p.timeCostByType.None? ==> r.timeCostByType == s.timeCostByType
  {
    Settings(
      p.waitCoverageDays.GetOr(s.waitCoverageDays),
      p.waitPriceMultiplier.GetOr(s.waitPriceMultiplier),
      p.minRawSavings.GetOr(s.minRawSavings),
      p.urgencyLowCoverageRatio.GetOr(s.urgencyLowCoverageRatio),
      p.timeCostByType.GetOr(s.timeCostByType))
  }

  /** `{ ...p, ...q }` on two settings objects. Laying `p` and then `q` over
      any settings is laying this one patch. */
  function Then(p: SettingsPatch, q: SettingsPatch): (r: SettingsPatch)
    ensures forall s :: Overlay(Overlay(s, p), q) == Overlay(s, r)
    ensures HasAllKeys(p) || HasAllKeys(q) ==> HasAllKeys(r)
  {
    SettingsPatch(
      if q.waitCoverageDays.Some? then q.waitCoverageDays else p.waitCoverageDays,
      if q.waitPriceMultiplier.Some? then q.waitPriceMultiplier else p.waitPriceMultiplier,
      if q.minRawSavings.Some? then q.minRawSavings else p.minRawSavings,
      if q.urgencyLowCoverageRatio.Some? then q.urgencyLowCoverageRatio else p.urgencyLowCoverageRatio,
      if q.timeCostByType.Some? then q.timeCostByType else p.timeCostByType)
  }

  /** A parsed snapshot: the four collections and a settings object that may
      lack keys (an export from an older version, say). */
  datatype Document = Document(
    offers: seq<Offer>,
    staples: seq<Staple>,
    receipts: seq<ReceiptLine>,
    resaleInventory: seq<ResaleItem>,
    settings: SettingsPatch)

  /** What the storage slot holds: nothing (or the empty string), text that
      does not parse, or a parsed snapshot. */
  datatype Stored = Absent | Unreadable | Saved(doc: Document)

  function EmptyData(): AppData {
    AppData([], [], [], [], DefaultSettings())
  }

  /** `loadData`: empty collections and the default settings when nothing
      readable is stored; otherwise the stored collections, and the stored
      settings laid over the defaults so that keys added since are filled in. */
  function LoadData(stored: Stored): (r: AppData)
    ensures !stored.Saved? ==> r == EmptyData()
    ensures stored.Saved? ==> r.offers == stored.doc.offers && r.staples == stored.doc.staples
                              && r.receipts == stored.doc.receipts
                              && r.resaleInventory == stored.doc.resaleInventory
    ensures stored.Saved? ==> r.settings == Overlay(DefaultSettings(), stored.doc.settings)
    ensures stored.Saved? && stored.doc.settings.timeCostByType.None? ==>
              r.settings.timeCostByType == DefaultSettings().timeCostByType
  {
    match stored
    case Saved(d) =>
      AppData(d.offers, d.staples, d.receipts, d.resaleInventory,
              Overlay(DefaultSettings(), d.settings))
    case _ => EmptyData()
  }

  /** `saveData` / `exportData` followed by a parse: every key is written, so
      loading what was saved gives the same data back. */
  function ToDocument(d: AppData): (r: Document)
    ensures LoadData(Saved(r)) == d
    ensures HasAllKeys(r.settings)
  {
    Document(d.offers, d.staples, d.receipts, d.resaleInventory, AllKeys(d.settings))
  }

  function OfferId(o: Offer): string { o.id }
  function StapleId(s: Staple): string { s.id }
  function ReceiptId(l: ReceiptLine): string { l.id }
  function ResaleId(r: ResaleItem): string { r.id }

  datatype ImportMode = Merge | Overwrite

  /** The merge branch of `importData`: each collection merged by id with
      the incoming records winning, and the incoming settings laid over the
      current ones. */
  function MergeData(current: AppData, incoming: Document): (r: AppData)
    ensures UniqueIds(r)
    ensures forall k :: Keyed.Has(r.offers, k, OfferId) <==>
                          Keyed.Has(current.offers, k, OfferId) || Keyed.Has(incoming.offers, k, OfferId)
    ensures forall k :: Keyed.Has(r.staples, k, StapleId) <==>
                          Keyed.Has(current.staples, k, StapleId) || Keyed.Has(incoming.staples, k, StapleId)
    ensures forall k :: Keyed.Has(r.receipts, k, ReceiptId) <==>
                          Keyed.Has(current.receipts, k, ReceiptId) || Keyed.Has(incoming.receipts, k, ReceiptId)
    ensures forall k :: Keyed.Has(r.resaleInventory, k, ResaleId) <==>
                          Keyed.Has(current.resaleInventory, k, ResaleId)
                          || Keyed.Has(incoming.resaleInventory, k, ResaleId)
  {
    AppData(
      Keyed.MergeById(current.offers, incoming.offers, OfferId),
      Keyed.MergeById(current.staples, incoming.staples, StapleId),
      Keyed.MergeById(current.receipts, incoming.receipts, ReceiptId),
      Keyed.MergeById(current.resaleInventory, incoming.resaleInventory, ResaleId),
      Overlay(current.settings, incoming.settings))
  }

  /** Merging into data whose ids are unique merges each collection as
      `MergedFrom` describes, keeps the ids unique and lays the incoming
      settings keys over the current settings. */
  lemma MergeDataMerges(current: AppData, incoming: Document)
    requires UniqueIds(current)
    ensures var r := MergeData(current, incoming);
            && MergedFrom(r.offers, current.offers, incoming.offers, OfferId)
            && MergedFrom(r.staples, current.staples, incoming.staples, StapleId)
            && MergedFrom(r.receipts, current.receipts, incoming.receipts, ReceiptId)
            && MergedFrom(r.resaleInventory, current.resaleInventory, incoming.resaleInventory, ResaleId)
            && r.settings == Overlay(current.settings, incoming.settings)
            && UniqueIds(r)
  {
    MergeByIdMerges(current.offers, incoming.offers, OfferId);
    MergeByIdMerges(current.staples, incoming.staples, StapleId);
    MergeByIdMerges(current.receipts, incoming.receipts, ReceiptId);
    MergeByIdMerges(current.resaleInventory, incoming.resaleInventory, ResaleId);
  }

  /** `importData`: `None` when the text does not parse (the source throws
      before saving anything); in overwrite mode the incoming snapshot itself,
      verbatim; in merge mode the merge with what `loadData` reads, written
      out in full. The result is also what gets saved. */
  function ImportData(stored: Stored, incoming: Option<Document>, mode: ImportMode): (r: Option<Document>)
    ensures r.Some? <==> incoming.Some?
    ensures mode == Overwrite ==> r == incoming
    ensures mode == Merge && r.Some? ==> HasAllKeys(r.value.settings)
  {
    match incoming
    case None => None
    case Some(doc) =>
      if mode == Overwrite then Some(doc)
      else Some(ToDocument(MergeData(LoadData(stored), doc)))
  }

  /** The storage slot after an import: unchanged when the text does not
      parse, otherwise holding the imported result. */
  function StoredAfterImport(stored: Stored, incoming: Option<Document>, mode: ImportMode): (r: Stored)
    ensures incoming.None? ==> r == stored
    ensures incoming.Some? ==> r.Saved? && Some(r.doc) == ImportData(stored, incoming, mode)
  {
    match ImportData(stored, incoming, mode)
    case None => stored
    case Some(doc) => Saved(doc)
  }

  predicate UniqueIds(d: AppData) {
    && Keyed.UniqueKeys(d.offers, OfferId)
    && Keyed.UniqueKeys(d.staples, StapleId)
    && Keyed.UniqueKeys(d.receipts, ReceiptId)
    && Keyed.UniqueKeys(d.resaleInventory, ResaleId)
  }

  /** What a merge promises for one collection: ids stay unique; an id the
      incoming side carries takes the whole last incoming record with it; any
      other id keeps the current record; the ids are exactly those of both
      sides; the current records keep their places and the new ones follow,
      in the order their ids first appear in the incoming list. */
  ghost predicate MergedFrom<T>(r: seq<T>, current: seq<T>, incoming: seq<T>, key: T -> string) {
    && Keyed.UniqueKeys(r, key)
    && (forall k :: Keyed.Has(incoming, k, key) ==>
          Keyed.Lookup(r, k, key) == Keyed.LookupLast(incoming, k, key))
    && (forall k :: !Keyed.Has(incoming, k, key) ==>
          Keyed.Lookup(r, k, key) == Keyed.Lookup(current, k, key))
    && (forall k :: Keyed.Has(r, k, key) <==> Keyed.Has(current, k, key) || Keyed.Has(incoming, k, key))
    && |r| >= |current|
    && (forall i :: 0 <= i < |current| ==> key(r[i]) == key(current[i]))
    && (forall i :: |current| <= i < |r| ==> !Keyed.Has(current, key(r[i]), key))
    && (forall i, j :: |current| <= i < j < |r| ==>
          Keyed.Pos(incoming, key(r[i]), key) < Keyed.Pos(incoming, key(r[j]), key))
  }

  lemma MergeByIdMerges<T>(current: seq<T>, incoming: seq<T>, key: T -> string)
    requires Keyed.UniqueKeys(current, key)
    ensures MergedFrom(Keyed.MergeById(current, incoming, key), current, incoming, key)
  {
    Keyed.MergeProperties(current, incoming, key);
    Keyed.MergeIsUpsert(current, incoming, key);
    Keyed.UpsertAllTailKeys(current, incoming, key);
    Keyed.UpsertAllTailOrder(current, incoming, key);
  }

  /** A successful merge import, read back, is each collection merged by id
      as `MergedFrom` describes and the incoming settings keys laid over the
      current settings. */
  lemma {:induction false} ImportMergeProperties(stored: Stored, incoming: Document)
    requires UniqueIds(LoadData(stored))
    ensures var cur := LoadData(stored);
            var r := LoadData(Saved(ImportData(stored, Some(incoming), Merge).value));
            && MergedFrom(r.offers, cur.offers, incoming.offers, OfferId)
            && MergedFrom(r.staples, cur.staples, incoming.staples, StapleId)
            && MergedFrom(r.receipts, cur.receipts, incoming.receipts, ReceiptId)
            && MergedFrom(r.resaleInventory, cur.resaleInventory, incoming.resaleInventory, ResaleId)
            && r.settings == Overlay(cur.settings, incoming.settings)
            && UniqueIds(r)
  {
    MergeDataMerges(LoadData(stored), incoming);
  }

  /** Importing, in merge mode, the very snapshot that is stored leaves it as
      it was, provided its ids are unique and its settings complete. */
  lemma ImportMergeSelf(d: Document)
    requires UniqueIds(LoadData(Saved(d)))
    requires HasAllKeys(d.settings)
    ensures ImportData(Saved(d), Some(d), Merge) == Some(d)
  {
    Keyed.MergeSelf(d.offers, OfferId);
    Keyed.MergeSelf(d.staples, StapleId);
    Keyed.MergeSelf(d.receipts, ReceiptId);
    Keyed.MergeSelf(d.resaleInventory, ResaleId);
  }

  /** The fields `createOffer` may be given; every one may be missing. */
  datatype OfferPartial = OfferPartial(
    store: Option<Store>,
    title: Option<string>,
    productTags: Option<seq<string>>,
    valueType: Option<ValueType>,
    valueAmount: Option<real>,
    basePrice: Option<real>,
    startDate: Option<string>,
    endDate: Option<string>,
    confidence: Option<real>,
    notes: Option<string>,
    stackRules: Option<StackRules>)

  /** The partial that lists every field of `o`. */
  function PartialOf(o: Offer): OfferPartial {
    OfferPartial(Some(o.store), Some(o.title), Some(o.productTags), Some(o.valueType),
                 Some(o.valueAmount), o.basePrice, o.startDate, o.endDate, Some(o.confidence),
                 o.notes, o.stackRules)
  }

  /** `createOffer`: a missing or empty title becomes "Untitled", missing
      tags `[]`, a missing type flat, a missing amount 0 and a missing
      confidence 0.6; the optional fields pass through. The store is always
      Target, whatever the partial says. */
  function CreateOffer(id: string, p: OfferPartial): (r: Offer)
    ensures r.id == id && r.store == Target
    ensures r.title != ""
    ensures r.title == (if p.title.Some? && p.title.value != "" then p.title.value else "Untitled")
    ensures p.productTags.Some? ==> r.productTags == p.productTags.value
    ensures p.productTags.None? ==> r.productTags == []
    ensures p.valueType.Some? ==> r.valueType == p.valueType.value
    ensures p.valueType.None? ==> r.valueType == Flat
    ensures p.valueAmount.Some? ==> r.valueAmount == p.valueAmount.value
    ensures p.valueAmount.None? ==> r.valueAmount == 0.0
    ensures p.confidence.Some? ==> r.confidence == p.confidence.value
    ensures p.confidence.None? ==> r.confidence == 0.6
    ensures r.basePrice == p.basePrice && r.endDate == p.endDate && r.notes == p.notes
    ensures r.startDate == p.startDate && r.stackRules == p.stackRules
  {
    Offer(
      id,
      Target,
      if p.title.Some? && p.title.value != "" then p.title.value else "Untitled",
      p.productTags.GetOr([]),
      p.valueType.GetOr(Flat),
      p.valueAmount.GetOr(0.0),
      p.basePrice,
      p.startDate,
      p.endDate,
      p.confidence.GetOr(0.6),
      p.notes,
      p.stackRules)
  }

  /** An offer with a title and the Target store is rebuilt exactly from its
      own fields; a Walmart offer comes back as a Target one. */
  lemma CreateOfferRebuilds(o: Offer)
    requires o.title != ""
    ensures CreateOffer(o.id, PartialOf(o)) == o.(store := Target)
  {
  }

  /** `createStaple`: no tags, nothing on hand, no interval estimate yet. */
  function CreateStaple(id: string, name: string): (r: Staple)
    ensures r.id == id && r.name == name && r.tags == []
    ensures r.unitsOnHand == Some(0.0)
    ensures r.consumptionIntervalDays.None? && r.lastPurchaseDate.None? && r.lastLowPrice.None?
  {
    Staple(id, name, [], None, None, None, None, Some(0.0), None)
  }

  datatype ReceiptPartial = ReceiptPartial(
    date: Option<Day>,
    store: Option<Store>,
    name: Option<string>,
    price: Option<real>,
    qty: Option<real>,
    matchedStapleId: Option<string>)

  /** `createReceiptLine`: the date defaults to `today`, the store to
      Target, a missing or empty name to "Item", the price to 0 and the
      quantity to 1. */
  function CreateReceiptLine(id: string, today: Day, p: ReceiptPartial): (r: ReceiptLine)
    ensures r.id == id && r.name != ""
    ensures r.name == (if p.name.Some? && p.name.value != "" then p.name.value else "Item")
    ensures p.date.Some? ==> r.date == p.date.value
    ensures p.date.None? ==> r.date == today
    ensures p.store.Some? ==> r.store == p.store.value
    ensures p.store.None? ==> r.store == Target
    ensures p.price.Some? ==> r.price == p.price.value
    ensures p.price.None? ==> r.price == 0.0
    ensures p.qty.Some? ==> r.qty == p.qty.value
    ensures p.qty.None? ==> r.qty == 1.0
    ensures r.matchedStapleId == p.matchedStapleId
  {
    ReceiptLine(
      id,
      p.date.GetOr(today),
      p.store.GetOr(Target),
      if p.name.Some? && p.name.value != "" then p.name.value else "Item",
      p.price.GetOr(0.0),
      p.qty.GetOr(1.0),
      p.matchedStapleId)
  }

  /** A receipt line with a name is rebuilt exactly from its own fields. */
  lemma CreateReceiptLineRebuilds(l: ReceiptLine, today: Day)
    requires l.name != ""
    ensures CreateReceiptLine(l.id, today, ReceiptPartial(Some(l.date), Some(l.store), Some(l.name),
                                                          Some(l.price), Some(l.qty), l.matchedStapleId)) == l
  {
  }
}
