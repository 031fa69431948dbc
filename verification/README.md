# Coupon stacking and staple tracking, modelled in Dafny

This project models the logic core of a small offline coupon app. The app:

- keeps a list of **staples**: household products with units on hand, a consumption interval, a last purchase date and a last low price;
- keeps a list of **offers**: flat, percent, rebate, gift-card and threshold discounts with a base price and a confidence;
- records **receipt lines**;
- ranks every staple/offer pair by a value score.

The modules follow the source files:

- `Types`: the records of `src/models/types.ts`, plus `Option`.
- `Text`: the JavaScript string operations the core relies on: `toLowerCase`, `split` on a character or on whitespace runs, `trim`, `filter(Boolean)`, `includes`, `join`.
- `Utils`: `ema`, `clamp` and `fuzzyMatch` of `src/logic/utils.ts`.
- `Keyed`: id-keyed list operations shared by two places:
  - `upsertStaple` and the `filter` deletions of `src/App.tsx`;
  - `mergeById` of `importData`, including the insertion order of a JavaScript `Map`.
- `Storage`: `defaultSettings`, `loadData`, `importData` and the `create*` helpers of `src/logic/storage.ts`. Local storage becomes a `Stored` value, and saved JSON becomes a `Document`.
- `Parser`: `parseBulkOffers` of `src/logic/parser.ts`, including:
  - the six regular expressions, as hand-written matchers with JavaScript's leftmost-match rule;
  - `parseFloat` of the captured text;
  - the per-type emission of offers, with the zero-valued anchor offer.
- `Scoring`: `evaluateStapleOffers` and `computeEvaluation` of `src/logic/scoring.ts`: the discount, net cost, savings percent, urgency, value score, recommendation and rationale tags.
- `Ranking`: the dashboard's `topActions`. This is a stable sort by value score, highest first, keeping the first five.
- `App`: the data updates of `src/App.tsx`: `upsertStaple`, `deleteOffer`, `deleteStaple` and `addReceipt`.
- `ParserSample` and `ScoringSample`: the two test files' scenarios, proved on the model.

Other modelling notes:

- **Numbers** are `real`.
- **Dates**:
  - Dates of staples and receipts are whole day numbers.
  - Offer dates stay strings, because the core never computes with them.
- **Ids** from `makeId` are a parameter. `ParseBulkOffers` takes `newId: nat -> string`, and the k-th offer created gets `newId(k)`.
- **Offer store**: `createOffer` always sets the store to `Target`. The store that `parseBulkOffers` reads from the line is overwritten. The model keeps that behaviour; see `Storage.CreateOffer`.

## Model

| member | source | states |
|---|---|---|
| Text.Lower | src/logic/parser.ts:48 | same length; every character lower-cased pointwise (ASCII letters) |
| Text.LowerIdempotent | src/logic/parser.ts:48 | lower-casing twice is lower-casing once |
| Text.Split | src/logic/parser.ts:27 | splitting on the bar character yields at least one piece, and no piece holds the separator |
| Text.JoinSplit | src/logic/parser.ts:27 | joining the pieces of a split with the separator gives back the input |
| Text.SplitJoin | src/logic/parser.ts:27 | splitting a join of separator-free pieces gives back the pieces |
| Text.JoinEnds | src/logic/parser.ts:98 | a join starts with the first piece and the separator and ends with the last piece; no pieces give the empty string |
| Text.SplitFree | src/logic/parser.ts:27 | a string without the separator splits into itself alone |
| Text.SplitConcat | src/logic/parser.ts:21 | splitting two texts joined by a separator character gives the pieces of the first followed by those of the second |
| Text.TrimStart | src/logic/parser.ts:22 | the result is a suffix of the input; the dropped prefix is all whitespace; the result does not start with whitespace |
| Text.TrimEnd | src/logic/parser.ts:22 | the result is a prefix of the input; the dropped suffix is all whitespace; the result does not end with whitespace |
| Text.Trim | src/logic/parser.ts:22 | the result neither starts nor ends with whitespace |
| Text.TrimRemovesSpace | src/logic/parser.ts:22 | `trim` returns a slice of the input with only whitespace on either side |
| Text.TrimIdempotent | src/logic/parser.ts:22 | trimming twice is trimming once |
| Text.TrimPadded | src/logic/parser.ts:27 | a trimmed string padded with whitespace trims back to itself |
| Text.NonEmpty | src/logic/parser.ts:23 | `filter(Boolean)` keeps exactly the non-empty strings and no others |
| Text.NonEmptyConcat | src/logic/parser.ts:23 | `filter(Boolean)` distributes over concatenation |
| Text.NonEmptyOne | src/logic/parser.ts:23 | a single string is kept exactly when it is non-empty |
| Text.NonEmptyKeepsAll | src/logic/parser.ts:23 | a list of non-empty strings passes the filter unchanged |
| Text.TrimAll | src/logic/parser.ts:27 | `map(p => p.trim())` trims every piece and keeps the count |
| Text.TrimAllConcat | src/logic/parser.ts:22 | trimming every piece distributes over concatenation |
| Text.TrimAllTrimmed | src/logic/parser.ts:22 | pieces already trimmed are left as they are |
| Text.SplitOnSpaceRuns | src/logic/parser.ts:35 | `split(/\s+/)` gives whitespace-free pieces; the empty string gives `[""]`; a trimmed non-empty string gives no empty piece |
| Text.SplitOnSpaceRunsPair | src/logic/parser.ts:35 | two words separated by one space split into exactly those two words |
| Text.SplitOnSpaceRunsPieces | src/logic/parser.ts:35 | on a trimmed non-empty text, `split(/\s+/)` gives the non-empty pieces of a split at every whitespace character |
| Text.SepPrefix | src/logic/utils.ts:23 | a leading run of separators adds only an empty first piece |
| Text.BlankPieces | src/logic/utils.ts:23 | a text made only of separators has no non-empty piece |
| Text.PaddedPieces | src/logic/utils.ts:23 | separators around a text add no non-empty piece |
| Text.SplitWeave | src/logic/parser.ts:35 | words joined by runs of separators split back into exactly those words once the empty pieces are dropped |
| Text.WeaveTrimmed | src/logic/parser.ts:35 | space-free words woven with gaps form a non-empty trimmed text |
| Text.SplitOnSpaceRunsWeave | src/logic/parser.ts:35 | space-free words joined by whitespace runs split back into exactly those words |
| Text.JoinWeave | src/logic/parser.ts:35 | joining with a separator is weaving with that separator in every gap |
| Text.SplitOnSpaceRunsJoin | src/logic/parser.ts:35 | non-empty space-free words joined by single spaces split back into exactly those words |
| Text.LowerConcat | src/logic/parser.ts:35 | lower-casing distributes over concatenation |
| Text.LowerAll | src/logic/utils.ts:23 | each piece lower-cased, the count kept |
| Text.LowerWeave | src/logic/utils.ts:23 | lower-casing woven text lower-cases the words and the gaps |
| Text.EmptyIncluded | src/logic/scoring.ts:14 | every string `includes` the empty string |
| Utils.Ema | src/logic/utils.ts:13-16 | no previous value gives the current one; otherwise the step is alpha times the gap, and the result lies between the two values for alpha in [0, 1] |
| Utils.Clamp | src/logic/utils.ts:40-42 | inside [min, max] when min <= max; the value itself when inside; the nearer bound when outside; `max` when the bounds cross |
| Utils.Normalize | src/logic/utils.ts:22-23 | tokens contain only lower-case letters and digits; there is at least one; none is empty unless the whole result is `[""]` |
| Utils.NormalizeBlank | src/logic/utils.ts:22-23 | a text with no letter or digit normalizes to the single empty token |
| Utils.NormalizeWords | src/logic/utils.ts:22-23 | words separated and surrounded by non-alphanumeric runs normalize to the lower-cased words |
| Utils.NormalizeJoin | src/logic/utils.ts:22-23 | words whose lower-cased forms are alphanumeric, joined by spaces, normalize back to the lower-cased words |
| Utils.CountIn | src/logic/utils.ts:27-30 | the count of tokens found is at most the token count: all found gives all, none found gives zero |
| Utils.Share | src/logic/utils.ts:27-31 | the share of known tokens lies in [0, 1]: 1 when every one of at least one token is known, 0 when none is |
| Utils.MatchScore | src/logic/utils.ts:22-31 | a candidate's score lies in [0, 1]; 1 when the input has all its normalized tokens, 0 when it has none |
| Utils.Score | src/logic/utils.ts:27-31 | a candidate's overlap score lies in [0, 1] |
| Utils.FuzzyMatch | src/logic/utils.ts:21-35 | a result is a candidate scoring at least 0.5 and no lower than any candidate, and it is the first to reach that score; none is returned exactly when every candidate scores below 0.5 |
| Utils.HighestFirst | src/logic/utils.ts:25-33 | the strict `>` scan returns the first index of a maximal score above 0, or none with best score 0 |
| Keyed.IndexOf | src/App.tsx:62 | `findIndex` is found exactly when some element has the key; the index holds that key and no earlier element does |
| Keyed.Lookup | src/App.tsx:91 | `find` by id succeeds exactly when the id is present, and returns an element with that id |
| Keyed.LookupUnique | src/App.tsx:62 | with unique ids, looking up an element's own id finds that element at its own index |
| Keyed.Upsert | src/App.tsx:59-67 | the length is unchanged when the id is present and one more otherwise; the new element is found by its id; other ids keep their positions and elements; unique ids stay unique |
| Keyed.UpsertLookupOther | src/App.tsx:59-67 | an upsert does not change what any other id looks up |
| Keyed.LookupLast | src/logic/storage.ts:53 | the last element with the key is found exactly when the key occurs |
| Keyed.UpsertAllLookup | src/logic/storage.ts:51-55 | after `map.set` over a list, an id looks up the last incoming element with it, or else the original |
| Keyed.UpsertAll | src/logic/storage.ts:51-55 | the `for … of` loop of `map.set`: existing ids keep their positions at the front; unique ids stay unique |
| Keyed.UpsertAllHas | src/logic/storage.ts:51-55 | an id is present afterwards exactly when it was in either list |
| Keyed.UpsertAllConcat | src/logic/storage.ts:53 | setting two lists in turn is setting their concatenation |
| Keyed.UpsertAllFresh | src/logic/storage.ts:51-55 | when no id repeats, the merge is plain concatenation |
| Keyed.UpsertAllPresent | src/logic/storage.ts:51-55 | re-setting elements already present changes nothing |
| Keyed.UpsertAllTailKeys | src/logic/storage.ts:54 | elements past the original length carry ids that are new, taken from the incoming list |
| Keyed.UpsertAllTailOrder | src/logic/storage.ts:54 | new ids appear in the order of their first occurrence in the incoming list, as `Map` iteration does |
| Keyed.MergeIsUpsert | src/logic/storage.ts:51-55 | `mergeById(a, b)` over ids unique in `a` is `a` updated by `b` |
| Keyed.MergeById | src/logic/storage.ts:51-55 | the merged list never repeats an id, even when an input does; every id looks up the last record with it in `a` followed by `b`; the ids are those of either list |
| Keyed.HasConcat | src/logic/storage.ts:52-53 | an id occurs in a concatenation exactly when it occurs in either part |
| Keyed.MergeSelf | src/logic/storage.ts:51-55 | merging a list of unique ids with itself returns it unchanged |
| Keyed.MergeProperties | src/logic/storage.ts:51-55 | the merge has unique ids; incoming ids resolve to the last incoming element; other ids resolve to the current element; the id set is the union; current ids keep their positions |
| Keyed.RemoveKey | src/App.tsx:74 | `filter(o => o.id !== id)` keeps exactly the elements with another id; the id is then absent; nothing changes when the id was absent |
| Keyed.RemoveKeyConcat | src/App.tsx:74 | filtering distributes over concatenation |
| Storage.DefaultSettings | src/logic/storage.ts:6-20 | 14 days, multiplier 1.1, minimum savings 3 and ratio 0.3; time costs for exactly the five types: flat 0.5, percent 0.5, gift card 1.5, threshold 2 and rebate 2.5 |
| Storage.Overlay | src/logic/storage.ts:28 | key by key, each of the five settings is the patch's value when the patch has that key and the base value otherwise; an empty patch changes nothing |
| Storage.Then | src/logic/storage.ts:61 | overlaying two patches in turn equals overlaying their combination; full stays full |
| Storage.LoadData | src/logic/storage.ts:22-33 | nothing saved, or unparsable text, gives the empty data with default settings; saved lists are returned verbatim; the settings are the saved keys laid over the defaults |
| Storage.ToDocument | src/logic/storage.ts:35-41 | saving then loading returns the same data |
| Storage.ImportData | src/logic/storage.ts:43-65 | a result exists exactly when the incoming text parses; overwrite returns the incoming data verbatim; a merge stores every settings key |
| Storage.StoredAfterImport | src/logic/storage.ts:43-65 | a parse failure leaves the store untouched; otherwise the store holds the import's result |
| Storage.MergeByIdMerges | src/logic/storage.ts:51-55 | `mergeById` yields the merge described by `Keyed.MergeProperties` |
| Storage.ImportMergeProperties | src/logic/storage.ts:56-62 | a merge import merges each of the four lists by id, overlays the incoming settings on the current ones, and keeps ids unique |
| Storage.MergeData | src/logic/storage.ts:56-62 | the merged data never repeats an id in any of its four lists, and each list holds exactly the ids of the current or the incoming list |
| Storage.MergeDataMerges | src/logic/storage.ts:56-62 | over current data with unique ids, each list is merged as `mergeById` promises and the incoming settings keys are laid over the current ones |
| Storage.ImportMergeSelf | src/logic/storage.ts:43-65 | importing the saved document into itself by merge changes nothing |
| Storage.CreateOffer | src/logic/storage.ts:80-95 | the new id and store `Target`; the title is the given one unless missing or empty, then `Untitled`; given tags, type, amount and confidence are copied, missing ones become none, flat, 0 and 0.6; base price, start and end dates, notes and stacking rules are copied |
| Storage.CreateOfferRebuilds | src/logic/storage.ts:80-95 | an offer rebuilt from all its own fields equals it, except that the store becomes `Target` |
| Storage.CreateStaple | src/logic/storage.ts:70-78 | the given id and name; no tags; 0 units; no interval, purchase date or low price |
| Storage.CreateReceiptLine | src/logic/storage.ts:97-107 | the name is the given one unless missing or empty, then `Item`; given date, store, price and quantity are copied, missing ones become today, `Target`, 0 and 1; the matched staple id is copied |
| Storage.CreateReceiptLineRebuilds | src/logic/storage.ts:97-107 | a line rebuilt from all its own fields equals it |
| Parser.RunEnd | src/logic/parser.ts:50 | a greedy character-class run such as `[\d.]+`: every character up to the end is in the class, and the end is not |
| Parser.RunEndAt | src/logic/parser.ts:50 | any maximal run is the greedy run |
| Parser.DollarAt | src/logic/parser.ts:50 | a `\$([\d.]+)` capture starts at a `$` and is a non-empty run of digits and dots |
| Parser.CaptureAt | src/logic/parser.ts:50-80 | a base match starts at `$` and a flat match at `-$`; every amount capture is a non-empty run of digits and dots; an end-date capture is a ten-character `dddd-dd-dd` date |
| Parser.FirstFrom | src/logic/parser.ts:50 | a regex match position is a position at or after the start where the pattern matches |
| Parser.FirstFromLeftmost | src/logic/parser.ts:50 | the match found is leftmost: no earlier position matches, and no match means no position matches |
| Parser.Match | src/logic/parser.ts:50-80 | `token.match(re)` succeeds exactly when the pattern matches at some position of the token, and its capture is that of the leftmost such position |
| Parser.Classify | src/logic/parser.ts:49-85 | a token is a note exactly when none of the six patterns matches; otherwise it is the first pattern in source order that matches, with that pattern's capture |
| Parser.ParseFloat | src/logic/parser.ts:52 | `parseFloat` of a capture is non-negative |
| Parser.ParseFloatWhole | src/logic/parser.ts:58 | digits followed by neither a digit nor a dot read as their integer value |
| Parser.ParseFloatDecimal | src/logic/parser.ts:52 | digits, a dot and digits read as that decimal, whatever non-digit follows |
| Parser.ParseFloatAt | src/logic/parser.ts:52 | a capture with its first dot at a given place reads as the decimal the two digit runs spell |
| Parser.KindsOf | src/logic/parser.ts:47-48 | each token's kind is the classification of its lower-cased text |
| Parser.LastCapture | src/logic/parser.ts:80-83 | the last capture of a pattern is one of the token captures, and is absent exactly when no token matched that pattern |
| Parser.NotesOf | src/logic/parser.ts:85 | notes are raw tokens, at most one per token |
| Parser.Step | src/logic/parser.ts:47-86 | one token adds its amount to the total of its own kind only; a base price or end date replaces the earlier one; an unmatched token is appended to the notes in its original spelling |
| Parser.ScanTotals | src/logic/parser.ts:39-76 | the flat, percent, rebate and gift-card totals are the sums of the matching tokens' amounts |
| Parser.ScanLast | src/logic/parser.ts:43-83 | the base price and end date come from the last token of their kind, or stay unset |
| Parser.ScanNotes | src/logic/parser.ts:85 | the notes are exactly the unmatched raw tokens, in order |
| Parser.ScanClosedForm | src/logic/parser.ts:39-86 | the token loop over a line yields the four totals as sums over the tokens, the base price and end date of the last token carrying one, and the unmatched tokens as notes |
| Parser.EmittedTypes | src/logic/parser.ts:89-155 | one to four types in flat, percent, rebate, gift-card order, never threshold; a type appears exactly when its total is non-zero, or it is the flat anchor when all totals are zero |
| Parser.MakeOffer | src/logic/parser.ts:91-100 | the offer carries the line's title, tags, confidence, base price, end date and notes, plus the type and its total |
| Parser.OffersFor | src/logic/parser.ts:89-137 | one offer per type, in order, numbered consecutively, each with its type's total |
| Parser.EmitLine | src/logic/parser.ts:89-156 | no base price gives no offers; otherwise 1 to 4 offers in type order, consecutive ids, each with its total; every non-zero total is emitted; all zero gives the single flat 0 anchor |
| Parser.OffersShape | src/logic/parser.ts:89-155 | the emitted offers have 1 to 4 entries in type order, carry shared fields and totals, and reduce to the anchor when every total is zero |
| Parser.OffersCoverAll | src/logic/parser.ts:90-137 | each non-zero total is emitted as an offer of its type |
| Parser.OffersNonZero | src/logic/parser.ts:90-137 | with some total non-zero, no emitted offer has amount 0 |
| Parser.StoreOf | src/logic/parser.ts:33 | the store is Walmart exactly when the first part is `Walmart` |
| Parser.HeaderOf | src/logic/parser.ts:32-37 | the store is Walmart exactly when the first part is `Walmart`; the title is the second part; the tags are at least one whitespace-free piece of it |
| Parser.Parts | src/logic/parser.ts:27 | a line splits on bars into at least one trimmed part |
| Parser.PartsJoin | src/logic/parser.ts:27 | trimmed bar-free fields joined by space-bar-space split back into those fields |
| Parser.ParseLine | src/logic/parser.ts:26-157 | at most four offers per line; fewer than two parts gives none; every offer is a parser offer numbered from the line's start |
| Parser.NoBaseNoOffers | src/logic/parser.ts:89 | a line with no base-price token gives no offers |
| Parser.NoBaseScan | src/logic/parser.ts:43-54 | with no base-price token the base price stays unset |
| Parser.Lines | src/logic/parser.ts:20-23 | every line kept is non-empty and trimmed |
| Parser.SingleLine | src/logic/parser.ts:20-23 | a trimmed non-empty input without a newline is a single line |
| Parser.NoLines | src/logic/parser.ts:20-23 | the empty text has no lines |
| Parser.LinesConcat | src/logic/parser.ts:20-23 | the lines of two texts joined by a newline are the lines of the first followed by those of the second |
| Parser.LinesJoin | src/logic/parser.ts:20-23 | non-empty trimmed newline-free lines joined by newlines split back into exactly those lines |
| Parser.ParseLinesConcat | src/logic/parser.ts:26-157 | the loop over two runs of lines is the loop over the first followed by the loop over the second, numbered on from where the first stopped |
| Parser.ParseLinesSplit | src/logic/parser.ts:26-157 | the loop over a list that is the concatenation of two parts equals the loop over each part in turn |
| Parser.ParseLinesNumbered | src/logic/parser.ts:26-157 | over all lines, at most four offers per line and ids numbered consecutively from the start |
| Parser.ParseBulkOffers | src/logic/parser.ts:19-160 | at most four offers per line of input; every offer is a parser offer, and the k-th has the k-th created id |
| Parser.ParseBulkOffersEmpty | src/logic/parser.ts:19-23 | the empty text gives no offers |
| Parser.ParseBulkOffersLine | src/logic/parser.ts:19-28 | a non-empty trimmed text without a newline parses as that one line |
| Parser.ParseOneLine | src/logic/parser.ts:26-27 | the loop over one line gives that line's offers |
| Parser.ParseBulkOffersConcat | src/logic/parser.ts:19-160 | two texts joined by a newline parse into the offers of the first followed by those of the second's lines, with ids continuing after the first's |
| Parser.ParseLinesOfConcat | src/logic/parser.ts:19-160 | the loop over the lines of two texts joined by a newline runs over the first's lines and then the second's |
| Parser.LineParser | src/logic/parser.ts:26-157 | the per-line parse gives at most four offers numbered from its start |
| ParserSample.NoMatchWithout | src/logic/parser.ts:50-80 | a pattern needing `$` or `%` cannot match a token without it |
| ParserSample.ClassifyAs | src/logic/parser.ts:49-85 | a token matched by a pattern and by none earlier is classified by it |
| ParserSample.BaseToken | src/logic/parser.ts:48-54 | `$14.99 base` is a base-price token capturing `14.99` |
| ParserSample.BaseMatch | src/logic/parser.ts:50 | the base pattern captures `14.99` in `$14.99 base` |
| ParserSample.FlatToken | src/logic/parser.ts:48-60 | `-$3 manufacturer` is a flat token capturing `3` |
| ParserSample.FlatMatch | src/logic/parser.ts:56 | the flat pattern captures `3` |
| ParserSample.PercentToken | src/logic/parser.ts:48-66 | `10% Circle` is a percent token capturing `10` |
| ParserSample.RebateToken | src/logic/parser.ts:48-72 | `Ibotta $1.25` is a rebate token capturing `1.25` |
| ParserSample.RebateMatch | src/logic/parser.ts:68 | the rebate pattern captures `1.25` |
| ParserSample.EndsToken | src/logic/parser.ts:48-84 | `Ends 2025-11-30` is an end-date token capturing the date |
| ParserSample.EndsMatch | src/logic/parser.ts:80 | the end-date pattern captures `2025-11-30` |
| ParserSample.BaseAmount | src/logic/parser.ts:52 | `14.99` reads as 14.99 |
| ParserSample.RebateAmount | src/logic/parser.ts:70 | `1.25` reads as 1.25 |
| ParserSample.WholeAmounts | src/logic/parser.ts:58-64 | `3` and `10` read as 3 and 10 |
| ParserSample.SampleParts | src/logic/parser.ts:27 | the sample line splits into its seven fields |
| ParserSample.SampleTags | src/logic/parser.ts:35 | the title `Tide 64-load` gives the tags `tide` and `64-load` |
| ParserSample.SampleKinds | src/logic/parser.ts:47-84 | the five sample tokens classify as base, flat, percent, rebate and end date |
| ParserSample.SampleScan | src/logic/parser.ts:39-86 | scanning the sample tokens gives base 14.99, flat 3, percent 10, rebate 1.25, the end date and no notes |
| ParserSample.SampleIsOneLine | src/logic/parser.ts:20-23 | the sample input is one line |
| ParserSample.SampleEmit | src/logic/parser.ts:89-155 | the sample accumulator emits flat 3, percent 10 and rebate 1.25 |
| ParserSample.SampleOffers | tests/parser.test.ts:5-15 | the sample line parses into exactly three offers: flat 3, percent 10 and rebate 1.25, with ids `newId(0)` to `newId(2)`, store Target, base price 14.99, the end date and an empty note |
| ParserSample.SampleFailsTestBound | tests/parser.test.ts:5-9 | the test's `offers.length >= 4` does not hold for its sample line: the code gives fewer than four offers |
| Scoring.RelevantOffers | src/logic/scoring.ts:13-15 | keeps exactly the offers with a tag in the lower-cased staple name or among the staple's tags; all relevant keeps all |
| Scoring.RelevantOffersConcat | src/logic/scoring.ts:13-15 | the relevance filter distributes over concatenation |
| Scoring.EmptyTagRelevant | src/logic/scoring.ts:14 | an offer with an empty tag is relevant to every staple |
| Scoring.BasePrice | src/logic/scoring.ts:33 | the offer's base price when present, else the staple's average price, else its last low price, else 0 |
| Scoring.Discount | src/logic/scoring.ts:42-68 | flat and rebate save their amount; a percent saving times 100 is amount times base; a gift-card saving times the split count is the amount; a threshold saves nothing untriggered and its saving times the scope is amount times base once triggered |
| Scoring.DiscountFixed | src/logic/scoring.ts:42-52 | flat and rebate offers save their amount |
| Scoring.DiscountPercent | src/logic/scoring.ts:46-48 | a percent offer of 0 to 100 saves between 0 and the base |
| Scoring.DiscountGiftCard | src/logic/scoring.ts:53-58 | a gift card saves its amount divided by the split count, which is the full amount for one share |
| Scoring.DiscountThreshold | src/logic/scoring.ts:59-68 | below the trigger, or with no trigger, it saves nothing; once triggered, the amount is prorated by base over scope, the full amount when the scope is the base |
| Scoring.Urgency | src/logic/scoring.ts:88-92 | the multiplier is 1.3 or 1.0, and above 1 exactly when the staple is low on stock |
| Scoring.UrgentUnits | src/logic/scoring.ts:88-92 | with a positive interval, low stock means fewer units on hand than the coverage ratio |
| Scoring.PlentyNeedsLow | src/logic/scoring.ts:106-110 | without a last low price and with a multiplier of at least 1, the plenty rule never fires on a non-negative price |
| Scoring.TimeCost | src/logic/scoring.ts:96 | the configured time cost for the offer's type, 1 when none is configured |
| Scoring.TypeTags | src/logic/scoring.ts:49-68 | at most one tag, ranked first: Rebate exactly for rebates, Gift Card exactly for gift cards, Threshold Allocation exactly for triggered thresholds |
| Scoring.Pick | src/logic/scoring.ts:94-121 | a reason is kept exactly when it is a candidate whose condition holds |
| Scoring.PickInOrder | src/logic/scoring.ts:94-121 | picking keeps the tags in push order |
| Scoring.Reasons | src/logic/scoring.ts:51-121 | the type tag is kept; each later tag is present exactly when its condition holds; tags stay in push order |
| Scoring.ComputeEvaluation | src/logic/scoring.ts:28-133 | the raw savings are the type's discount; the net cost is `max(base - savings, 0)`; the savings percent is 0 for base 0 and savings over base otherwise; the value score; BUY exactly when there is not plenty of stock and one buy reason holds |
| Scoring.EvaluationReasons | src/logic/scoring.ts:51-121 | each rationale tag appears exactly when its condition holds, in push order |
| Scoring.ValueScore | src/logic/scoring.ts:96-99 | the score times (time cost + 1) is savings times confidence times urgency; non-negative inputs give a non-negative score |
| Scoring.EvaluateStapleOffers | src/logic/scoring.ts:8-17 | one evaluation per relevant offer, in order, each the evaluation of that offer for the staple |
| Scoring.Evaluations | src/logic/scoring.ts:16 | `map(computeEvaluation)` evaluates every offer in order |
| Scoring.PercentSavings | src/logic/scoring.ts:46-86 | a percent offer on a non-zero base saves exactly its percentage |
| Scoring.FreshStapleUrgent | src/logic/scoring.ts:88-94 | a newly created staple (0 units) is low on stock for any positive ratio |
| ScoringSample.PodsRelevant | tests/scoring.test.ts:20-34 | an offer tagged `tide` is relevant to `Tide Pods` |
| ScoringSample.SampleRelevant | tests/scoring.test.ts:29-54 | both test offers are relevant and kept in order |
| ScoringSample.SampleFlat | tests/scoring.test.ts:52-56 | the flat offer saves 3, costs 11.99 net and is BUY |
| ScoringSample.SamplePercent | tests/scoring.test.ts:57-58 | the percent offer saves 1.499 and is BUY |
| ScoringSample.SampleEvaluations | tests/scoring.test.ts:52-64 | two evaluations, `o1` then `o2`, saving 3 and 1.499, both BUY |
| ScoringSample.SampleShape | tests/scoring.test.ts:52-54 | the evaluations are those of the two offers in order |
| Ranking.Insert | src/App.tsx:57 | insertion keeps the elements (as a multiset) and adds one |
| Ranking.InsertDescending | src/App.tsx:57 | inserting into a descending list keeps it descending |
| Ranking.SortByScore | src/App.tsx:57 | the sort is a permutation of its input |
| Ranking.SortDescending | src/App.tsx:57 | the sort orders by value score, highest first |
| Ranking.AllEvaluations | src/App.tsx:54-56 | every evaluation is the evaluation of a listed staple with a listed offer relevant to it, and every such relevant pair is evaluated |
| Ranking.StapleEvaluations | src/App.tsx:54-55 | one staple's evaluations are exactly the evaluations of the offers relevant to it |
| Ranking.AllEvaluationsConcat | src/App.tsx:54 | `flatMap` over two runs of staples is the concatenation of the two |
| Ranking.TopOf | src/App.tsx:57 | `sort(...).slice(0, 5)` keeps min(n, 5) evaluations, highest first, drawn from the input; no left-out evaluation scores above a kept one |
| Ranking.TakeTop | src/App.tsx:57 | a prefix of a descending list is descending, drawn from it, and outranks the rest |
| Ranking.TopActions | src/App.tsx:54-57 | min(n, 5) of the n evaluations, highest score first, drawn from them, with no left-out evaluation scoring above a kept one; each a listed staple with a listed, relevant offer |
| App.MatchedId | src/App.tsx:90 | an empty matched id counts as no match; a non-empty one is the line's match |
| App.NamedStaple | src/App.tsx:90-92 | a line without a matched id, or naming an unknown staple, updates nothing; a known id finds its staple |
| App.UpsertStaple | src/App.tsx:59-67 | the staple is found by its id afterwards; other staples keep their places; the length grows only for a new id |
| App.DiffDays | src/App.tsx:101-103 | days between purchases are at least 1 and equal the day difference when that is at least 1 |
| App.ApplyLine | src/App.tsx:93-115 | units grow by the quantity; the purchase date becomes the line's; the low price is the minimum of the old low and the line price; the interval changes only with a previous date, and then becomes the 0.4 EMA of days per unit |
| App.IntervalBetween | src/App.tsx:104-107 | the updated interval lies between the old interval and the new days-per-unit sample |
| App.Step | src/App.tsx:89-116 | one line updates only the staple it names, found in the snapshot, which afterwards looks up as that staple with the line applied; a line naming no known staple changes nothing; ids keep their positions |
| App.StaleFold | src/App.tsx:89-116 | the loop as written grows the list by at most one staple per line, keeps the ids in place and leaves every staple no line names as it was |
| App.SequentialFold | src/App.tsx:89-116 | the corrected loop grows the list by at most one staple per line, keeps the ids in place and leaves every staple no line names as it was |
| App.AddReceipt | src/App.tsx:86-117 | all lines are appended to the receipts; offers, resale items and settings are unchanged; the staples keep their ids and order |
| App.StaleFoldKeys | src/App.tsx:89-116 | the update loop as written keeps the staple ids and their order |
| App.StaleLastWins | src/App.tsx:91-115 | as written, each staple ends as its pre-batch record updated by the last line naming it only |
| App.StaleIsSequential | src/App.tsx:86-117 | when no matched id, whether or not a staple has it, is named by two lines of the batch, the as-written update equals the sequential one |
| App.StaleLosesUnits | src/App.tsx:91-93 | two lines of quantity 1 naming one staple with 0 units leave 1 unit as written; the sequential version gives 2 |
| App.AddReceiptSequential | src/App.tsx:86-117 | the corrected `addReceipt` appends the lines and keeps everything else and the staple ids |
| App.SequentialFoldKeys | src/App.tsx:89-116 | the corrected loop keeps the staple ids and their order |
| App.SequentialUnitsAccumulate | src/App.tsx:93 | with each line applied to the latest staple, units grow by the total quantity of the lines naming it |
| App.DeleteOffer | src/App.tsx:73-75 | keeps exactly the offers with another id; an absent id changes nothing; the rest of the data is untouched |
| App.DeleteStaple | src/App.tsx:82-84 | keeps exactly the staples with another id; an absent id changes nothing; the rest of the data is untouched |

## Left out

- **Outside the logic**: the React user interface, the hash router, the components, the service worker and the build configuration.
- **Storage**: `localStorage` and JSON text. The store is a `Stored` value; JSON parsing is an `Option<Document>`; `saveData` and `exportData` are `ToDocument`.
- **Ids, clock and dates**: `makeId` (random UUIDs) and `todayISO`/`Date` are parameters. Days are whole day numbers, not millisecond timestamps divided by a day.
- **Resale**: `createResaleItem` and resale creation are not part of this model. Resale items are carried through merges and updates untouched.
- **Floating point**: numbers are exact reals. IEEE rounding, `NaN` and `Infinity` are not modelled.
- Parser.ParseFloat: any capture whose first character is `.` not followed by a digit (such as `.` or `..5`) reads as 0, where JavaScript gives `NaN`. In the source a `NaN` total still emits its offer with a `NaN` amount (src/logic/parser.ts:90-100) and, since `NaN === 0` is false, suppresses the flat anchor (src/logic/parser.ts:139-144); the model adds 0 instead and may emit the flat 0 anchor. Exponents cannot occur in a `[\d.]+` capture.
- Scoring.ComputeEvaluation: it requires the divisions to have non-zero divisors: the gift split count, the threshold scope when triggered, and time cost + 1. JavaScript's `Infinity` and `NaN` results are not modelled.
- App.AddReceipt: it requires a non-zero quantity on every line that names a staple (`Divisible`), because the interval update divides by it.
- App.AddReceiptSequential: it has the same `Divisible` requirement.
- App.ApplyLine: it requires a non-zero quantity when the staple has an earlier purchase date, for the same division.
- App.Step: it requires a non-zero quantity on a line that names a staple, for the same division.
- App.StaleFold: it has the same `Divisible` requirement.
- App.SequentialFold: it has the same `Divisible` requirement.
- Ranking.AllEvaluations: it requires every relevant staple and offer pair to be `Scorable`, the divisor requirement of `Scoring.ComputeEvaluation`.
- Scoring.DiscountPercent: the bound is proved only for percentages in [0, 100] on a non-negative base. Outside that range, the exact value is given by `Discount`.
- Ranking.TopOf: the sort is stable by construction, but the contract states only order, permutation and the top-five choice, not stability.
- Ranking.TopActions: it has the `Scorable` requirement of `Ranking.AllEvaluations` and, like `Ranking.TopOf`, does not state the order of evaluations with equal scores.
- **Regular expressions**: the six patterns of the parser, `[^a-z0-9]+` and `\s+` are matched by hand-written matchers for those fixed patterns, not by a general regex engine.
- **Input line splitting**: `split(/\n+/)` followed by `filter(Boolean)` is modelled as a split on every newline followed by the same filter. The two give the same non-empty lines.
- Text.Lower: only ASCII letters are lower-cased. Unicode case mapping is not modelled.
- Text.NonEmpty: its own contract states membership only. Order and multiplicity are stated by Text.NonEmptyConcat and Text.NonEmptyOne, which together fix the result for every list.
- Text.SplitOnSpaceRuns: its own contract states the shape of the pieces. That the pieces are the input's maximal non-space runs is stated by Text.SplitOnSpaceRunsPieces, Text.SplitOnSpaceRunsWeave and Text.SplitOnSpaceRunsJoin, for trimmed non-empty input.
- Utils.Normalize: its own contract states the token shape. That the tokens are the lower-cased alphanumeric runs is stated by Utils.NormalizeWords, Utils.NormalizeJoin and Utils.NormalizeBlank, for input written as words and separator runs.
- Parser.Lines: its own contract states that lines are non-empty and trimmed. Which lines, in which order, is stated by Parser.LinesConcat, Parser.LinesJoin, Parser.NoLines and Parser.SingleLine.
- Parser.ParseBulkOffers: its own contract states the bound, well-formedness and ids. The offers' content is stated line by line by Parser.ParseBulkOffersEmpty, Parser.ParseBulkOffersLine and Parser.ParseBulkOffersConcat, with each line's offers given by Parser.ParseLine and Parser.EmitLine.
- **Whitespace**: JavaScript's `\s` and `trim` whitespace set is modelled by code point.
- **Map order**: the `Map` order of `mergeById` is modelled as insertion order of first occurrence, which is what the source relies on.

## Findings

| source | as written | input that shows it | evidently intended | confidence | as-written member | corrected member |
|---|---|---|---|---|---|---|
| src/App.tsx:91 | each receipt line reads the staple from `data.staples`, the list from before the batch, so an update from an earlier line for the same staple is overwritten | one staple with 0 units; two receipt lines of quantity 1, both matched to it | units end at 2: each line applies to the staple as updated by the earlier lines | not executed | App.StaleLosesUnits | App.SequentialUnitsAccumulate |
| tests/parser.test.ts:9 | the test asserts at least four offers from its sample line, while src/logic/parser.ts emits one offer per non-zero discount total, three for that line | the test's Target line for Tide 64-load, with the fields `$14.99 base`, `-$3 manufacturer`, `10% Circle`, `Ibotta $1.25` and `Ends 2025-11-30` | one offer per discount, as the test's own comment says: three, flat 3, percent 10 and rebate 1.25; the test's bound is the part in error | not executed; medium, since which side is wrong is read from the test's comment | ParserSample.SampleFailsTestBound | ParserSample.SampleOffers |
