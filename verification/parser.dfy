/** The bulk offer parser (src/logic/parser.ts): pasted text becomes
    offers, one line at a time. A line is `store | title | token | …`; each
    token is recognised by the first of six patterns that matches its
    lower-cased text, its amounts are added into per-kind totals, and a line
    that names a base price yields one offer per non-zero total, or a single
    zero-value "anchor" offer when every total is zero.

    The six regular expressions are modelled by what they can match: for
    each start position the capture the pattern produces there, and the
    leftmost start position wins, as `String.prototype.match` without the
    global flag does. Each pattern is greedy and cannot backtrack into a
    different capture (a shorter `[\d.]+` or `\s*` run would leave a digit,
    a dot or a blank where a literal is expected), so one capture per
    position is exact. */
module Parser {
  import opened Types
  import Text
  import Storage

  predicate IsDigit(c: char) {
    '0' <= c <= '9'
  }

  /** The character classes the patterns repeat: `\d`, `[\d.]` and `\s`. */
  datatype CharClass = Digit | NumChar | White

  predicate InClass(cls: CharClass, c: char) {
    match cls
    case Digit => IsDigit(c)
    case NumChar => IsDigit(c) || c == '.'
    case White => Text.IsSpace(c)
  }

  /** The end of the longest run of `cls` characters starting at `i`. */
  function RunEnd(t: string, i: nat, cls: CharClass): (j: nat)
    requires i <= |t|
    ensures i <= j <= |t|
    ensures forall k :: i <= k < j ==> InClass(cls, t[k])
    ensures j == |t| || !InClass(cls, t[j])
    decreases |t| - i
  {
    if i < |t| && InClass(cls, t[i]) then RunEnd(t, i + 1, cls) else i
  }

  /** A run is found to end where the class first stops. */
  lemma {:induction false} RunEndAt(t: string, i: nat, j: nat, cls: CharClass)
    requires i <= j <= |t|
    requires forall k :: i <= k < j ==> InClass(cls, t[k])
    requires j == |t| || !InClass(cls, t[j])
    ensures RunEnd(t, i, cls) == j
    decreases j - i
  {
    if i < j {
      RunEndAt(t, i + 1, j, cls);
    }
  }

  /** The literal `lit` occurs in `t` at position `p`. */
  predicate LitAt(t: string, p: nat, lit: string)
    decreases |lit|
  {
    lit == [] || (p < |t| && t[p] == lit[0] && LitAt(t, p + 1, lit[1..]))
  }

  /** `\$([\d.]+)` at `q`: the captured amount text. */
  function DollarAt(t: string, q: nat): (r: Option<string>)
    requires q <= |t|
    ensures r.Some? ==> q < |t| && t[q] == '$' && r.value != []
    ensures r.Some? ==> forall k :: 0 <= k < |r.value| ==> InClass(NumChar, r.value[k])
  {
    if q < |t| && t[q] == '$' then
      var j := RunEnd(t, q + 1, NumChar);
      if j > q + 1 then Some(t[q + 1..j]) else None
    else None
  }

  /** `\d{4}-\d{2}-\d{2}` at `q`. */
  predicate DateAt(t: string, q: nat) {
    && q + 10 <= |t|
    && IsDigit(t[q]) && IsDigit(t[q + 1]) && IsDigit(t[q + 2]) && IsDigit(t[q + 3])
    && t[q + 4] == '-' && IsDigit(t[q + 5]) && IsDigit(t[q + 6])
    && t[q + 7] == '-' && IsDigit(t[q + 8]) && IsDigit(t[q + 9])
  }

  /** The token patterns, in the order they are tried. */
  datatype Rule = BaseRule | FlatRule | PercentRule | RebateRule | GiftCardRule | EndsRule

  function Rank(rule: Rule): nat {
    match rule
    case BaseRule => 0
    case FlatRule => 1
    case PercentRule => 2
    case RebateRule => 3
    case GiftCardRule => 4
    case EndsRule => 5
  }

  /** What each pattern captures when a match starts at position `p`:
      `\$([\d.]+)\s*base`, `-\$([\d.]+)`, `([\d.]+)%`,
      `ibotta\s*\$([\d.]+)`, `(gift\s*card|gc)\s*\$([\d.]+)` (the amount,
      group 2) and `ends\s*(\d{4}-\d{2}-\d{2})`. */
  function CaptureAt(rule: Rule, t: string, p: nat): (r: Option<string>)
    requires p <= |t|
    ensures rule == BaseRule && r.Some? ==> p < |t| && t[p] == '$'
    ensures rule == FlatRule && r.Some? ==> p + 1 < |t| && t[p] == '-' && t[p + 1] == '$'
    ensures rule != EndsRule && r.Some? ==>
              r.value != [] && forall k :: 0 <= k < |r.value| ==> InClass(NumChar, r.value[k])
    ensures rule == EndsRule && r.Some? ==> |r.value| == 10 && DateAt(r.value, 0)
  {
    match rule
    case BaseRule =>
      (match DollarAt(t, p)
       case Some(c) => if LitAt(t, RunEnd(t, p + 1 + |c|, White), "base") then Some(c) else None
       case None => None)
    case FlatRule =>
      if LitAt(t, p, "-") then DollarAt(t, p + 1) else None
    case PercentRule =>
      var j := RunEnd(t, p, NumChar);
      if p < j < |t| && t[j] == '%' then Some(t[p..j]) else None
    case RebateRule =>
      if LitAt(t, p, "ibotta") then DollarAt(t, RunEnd(t, p + 6, White)) else None
    case GiftCardRule =>
      if LitAt(t, p, "gift") && LitAt(t, RunEnd(t, p + 4, White), "card") then
        DollarAt(t, RunEnd(t, RunEnd(t, p + 4, White) + 4, White))
      else if LitAt(t, p, "gc") then DollarAt(t, RunEnd(t, p + 2, White))
      else None
    case EndsRule =>
      if LitAt(t, p, "ends") then
        var q := RunEnd(t, p + 4, White);
        if DateAt(t, q) then
          var d := t[q..q + 10];
          assert forall k :: 0 <= k < 10 ==> d[k] == t[q + k];
          Some(d)
        else None
      else None
  }

  /** The first position from `p` up to `n` at which `f` yields something,
      with what it yields there. */
  function FirstFrom<T>(f: nat -> Option<T>, p: nat, n: nat): (r: Option<(nat, T)>)
    ensures r.Some? ==> p <= r.value.0 <= n && f(r.value.0) == Some(r.value.1)
    decreases n + 1 - p
  {
    if p > n then None
    else
      match f(p)
      case Some(c) => Some((p, c))
      case None => FirstFrom(f, p + 1, n)
  }

  /** What `FirstFrom` finds is the leftmost: `f` yields nothing before it,
      and when it finds nothing `f` yields nothing anywhere in range. */
  lemma {:induction false} FirstFromLeftmost<T>(f: nat -> Option<T>, p: nat, n: nat)
    ensures var r := FirstFrom(f, p, n);
            && (r.Some? ==> forall q :: p <= q < r.value.0 ==> f(q).None?)
            && (r.None? ==> forall q :: p <= q <= n ==> f(q).None?)
    decreases n + 1 - p
  {
    if p <= n && f(p).None? {
      FirstFromLeftmost(f, p + 1, n);
    }
  }

  /** The capture of a pattern at each position of `t`. */
  function Captures(rule: Rule, t: string): nat -> Option<string> {
    (q: nat) => if q <= |t| then CaptureAt(rule, t, q) else None
  }

  /** `t.match(pattern)`: the capture of the leftmost match, if any. */
  function Match(rule: Rule, t: string): (r: Option<string>)
    ensures r.Some? <==> exists p :: 0 <= p <= |t| && CaptureAt(rule, t, p).Some?
    ensures r.Some? ==> exists p :: 0 <= p <= |t| && CaptureAt(rule, t, p) == r
                                   && forall q :: 0 <= q < p ==> CaptureAt(rule, t, q).None?
  {
    var f := Captures(rule, t);
    FirstFromLeftmost(f, 0, |t|);
    assert forall p :: 0 <= p <= |t| ==> f(p) == CaptureAt(rule, t, p);
    match FirstFrom(f, 0, |t|)
    case Some(m) =>
      assert CaptureAt(rule, t, m.0) == Some(m.1);
      Some(m.1)
    case None => None
  }

  /** No pattern of rank below `n` matches `t`. */
  predicate NoneMatch(t: string, n: nat) {
    && (n > 0 ==> Match(BaseRule, t).None?)
    && (n > 1 ==> Match(FlatRule, t).None?)
    && (n > 2 ==> Match(PercentRule, t).None?)
    && (n > 3 ==> Match(RebateRule, t).None?)
    && (n > 4 ==> Match(GiftCardRule, t).None?)
    && (n > 5 ==> Match(EndsRule, t).None?)
  }

  /** How a token was recognised: by a pattern, with its capture, or not at
      all (a note). */
  datatype TokenKind = Note | Hit(rule: Rule, capture: string)

  /** The first pattern, in the fixed order, that matches the lower-cased
      token decides; a token no pattern matches is a note. */
  function Classify(t: string): (k: TokenKind)
    ensures k.Note? <==> NoneMatch(t, 6)
    ensures k.Hit? ==> Match(k.rule, t) == Some(k.capture) && NoneMatch(t, Rank(k.rule))
  {
    if Match(BaseRule, t).Some? then Hit(BaseRule, Match(BaseRule, t).value)
    else if Match(FlatRule, t).Some? then Hit(FlatRule, Match(FlatRule, t).value)
    else if Match(PercentRule, t).Some? then Hit(PercentRule, Match(PercentRule, t).value)
    else if Match(RebateRule, t).Some? then Hit(RebateRule, Match(RebateRule, t).value)
    else if Match(GiftCardRule, t).Some? then Hit(GiftCardRule, Match(GiftCardRule, t).value)
    else if Match(EndsRule, t).Some? then Hit(EndsRule, Match(EndsRule, t).value)
    else Note
  }

  function DigitValue(c: char): nat
    requires IsDigit(c)
  {
    c as int - '0' as int
  }

  /** The number a string of decimal digits spells. */
  function DigitsValue(ds: string): nat
    requires forall k :: 0 <= k < |ds| ==> IsDigit(ds[k])
  {
    if ds == [] then 0 else 10 * DigitsValue(ds[..|ds| - 1]) + DigitValue(ds[|ds| - 1])
  }

  function Pow10(n: nat): (r: nat)
    ensures r >= 1
  {
    if n == 0 then 1 else 10 * Pow10(n - 1)
  }

  /** `whole.frac`, the fraction written with `places` digits. */
  function Decimal(whole: nat, frac: nat, places: nat): (r: real)
    ensures r >= whole as real
  {
    whole as real + frac as real / Pow10(places) as real
  }

  /** `parseFloat` of a `[\d.]+` capture: the integer digits, then, after a
      first dot, the fraction digits; anything from a second dot on is
      ignored. A capture with no digit before or after the first dot (such
      as ".") reads as 0 here. */
  function ParseFloat(s: string): (r: real)
    ensures r >= 0.0
  {
    var i := RunEnd(s, 0, Digit);
    var whole := DigitsValue(s[..i]);
    if i < |s| && s[i] == '.' then
      var j := RunEnd(s, i + 1, Digit);
      Decimal(whole, DigitsValue(s[i + 1..j]), j - i - 1)
    else whole as real
  }

  predicate AllDigits(s: string) {
    forall k :: 0 <= k < |s| ==> IsDigit(s[k])
  }

  /** A run of digits read on its own, or stopped by anything but a digit or
      a dot, is its integer value. */
  lemma ParseFloatWhole(a: string, rest: string)
    requires AllDigits(a)
    requires rest == [] || (!IsDigit(rest[0]) && rest[0] != '.')
    ensures ParseFloat(a + rest) == DigitsValue(a) as real
  {
    var s := a + rest;
    RunEndAt(s, 0, |a|, Digit);
    assert s[..|a|] == a;
  }

  /** Digits, a dot and digits read as the decimal number they spell,
      whatever follows that is not a digit (a second dot included). */
  lemma ParseFloatDecimal(a: string, b: string, rest: string)
    requires AllDigits(a) && AllDigits(b)
    requires rest == [] || !IsDigit(rest[0])
    ensures ParseFloat(a + "." + b + rest) == Decimal(DigitsValue(a), DigitsValue(b), |b|)
  {
    var s := a + "." + b + rest;
    var i := |a|;
    var j := |a| + 1 + |b|;
    assert s[..i] == a;
    assert s[i] == '.';
    assert s[i + 1..j] == b;
    assert forall k :: 0 <= k < |b| ==> s[i + 1 + k] == b[k];
    assert j < |s| ==> s[j] == rest[0];
    ParseFloatAt(s, i, j);
  }

  lemma ParseFloatAt(s: string, i: nat, j: nat)
    requires i < j <= |s| && s[i] == '.'
    requires AllDigits(s[..i]) && AllDigits(s[i + 1..j])
    requires j == |s| || !IsDigit(s[j])
    ensures ParseFloat(s) == Decimal(DigitsValue(s[..i]), DigitsValue(s[i + 1..j]), j - i - 1)
  {
    DecimalRuns(s, i, j);
  }

  /** Where the digit runs around the dot end. */
  lemma DecimalRuns(s: string, i: nat, j: nat)
    requires i < j <= |s| && s[i] == '.'
    requires AllDigits(s[..i]) && AllDigits(s[i + 1..j])
    requires j == |s| || !IsDigit(s[j])
    ensures RunEnd(s, 0, Digit) == i && RunEnd(s, i + 1, Digit) == j
  {
    assert forall k :: 0 <= k < i ==> s[k] == s[..i][k];
    RunEndAt(s, 0, i, Digit);
    assert forall k :: i + 1 <= k < j ==> s[k] == s[i + 1..j][k - i - 1];
    RunEndAt(s, i + 1, j, Digit);
  }

  /** The totals and the last-seen values a line's tokens build up. */
  datatype Acc = Acc(
    flat: real,
    percent: real,
    rebate: real,
    giftCard: real,
    basePrice: Option<real>,
    endDate: Option<string>,
    notes: seq<string>)

  const Start := Acc(0.0, 0.0, 0.0, 0.0, None, None, [])

  /** How the lower-cased token is recognised. */
  function KindOf(raw: string): TokenKind {
    Classify(Text.Lower(raw))
  }

  function KindsOf(tokens: seq<string>): (ks: seq<TokenKind>)
    ensures |ks| == |tokens|
    ensures forall i :: 0 <= i < |tokens| ==> ks[i] == KindOf(tokens[i])
  {
    seq(|tokens|, i requires 0 <= i < |tokens| => KindOf(tokens[i]))
  }

  /** One pass of the token loop, given how the token was recognised: a
      base price or end date replaces the one seen before, a discount amount
      is added to its total, an unrecognised token is kept as a note in its
      original spelling. */
  function Step(a: Acc, raw: string, k: TokenKind): (r: Acc)
    ensures r.flat == a.flat + AmountOf(k, FlatRule)
    ensures r.percent == a.percent + AmountOf(k, PercentRule)
    ensures r.rebate == a.rebate + AmountOf(k, RebateRule)
    ensures r.giftCard == a.giftCard + AmountOf(k, GiftCardRule)
    ensures r.basePrice == (if IsHit(k, BaseRule) then Some(ParseFloat(k.capture)) else a.basePrice)
    ensures r.endDate == (if IsHit(k, EndsRule) then Some(k.capture) else a.endDate)
    ensures r.notes == a.notes + (if k.Note? then [raw] else [])
  {
    match k
    case Note => a.(notes := a.notes + [raw])
    case Hit(rule, c) =>
      match rule
      case BaseRule => a.(basePrice := Some(ParseFloat(c)))
      case FlatRule => a.(flat := a.flat + ParseFloat(c))
      case PercentRule => a.(percent := a.percent + ParseFloat(c))
      case RebateRule => a.(rebate := a.rebate + ParseFloat(c))
      case GiftCardRule => a.(giftCard := a.giftCard + ParseFloat(c))
      case EndsRule => a.(endDate := Some(c))
  }

  /** The token loop, front to back, each token with its kind. */
  function ScanKinds(a: Acc, tokens: seq<string>, kinds: seq<TokenKind>): Acc
    requires |kinds| == |tokens|
    decreases |tokens|
  {
    if tokens == [] then a else ScanKinds(Step(a, tokens[0], kinds[0]), tokens[1..], kinds[1..])
  }

  /** The token loop over the tokens after the title. */
  function Scan(tokens: seq<string>): Acc {
    ScanKinds(Start, tokens, KindsOf(tokens))
  }

  /** What a token of kind `k` adds to the total of `rule`. */
  function AmountOf(k: TokenKind, rule: Rule): real {
    match k
    case Hit(r, c) => if r == rule then ParseFloat(c) else 0.0
    case Note => 0.0
  }

  /** The sum, over all tokens, of what each adds to the total of `rule`. */
  function Total(kinds: seq<TokenKind>, rule: Rule): real {
    if kinds == [] then 0.0 else AmountOf(kinds[0], rule) + Total(kinds[1..], rule)
  }

  predicate IsHit(k: TokenKind, rule: Rule) {
    k.Hit? && k.rule == rule
  }

  /** The capture of the last token recognised by `rule`. */
  function LastCapture(kinds: seq<TokenKind>, rule: Rule): (r: Option<string>)
    ensures r.Some? ==> exists i :: 0 <= i < |kinds| && kinds[i] == Hit(rule, r.value)
    ensures r.None? ==> forall i :: 0 <= i < |kinds| ==> !IsHit(kinds[i], rule)
  {
    if kinds == [] then None
    else
      var rest := LastCapture(kinds[1..], rule);
      assert forall i :: 1 <= i < |kinds| ==> kinds[i] == kinds[1..][i - 1];
      if rest.Some? then rest
      else if IsHit(kinds[0], rule) then Some(kinds[0].capture)
      else None
  }

  /** The tokens no pattern recognised, in input order. */
  function NotesOf(tokens: seq<string>, kinds: seq<TokenKind>): (r: seq<string>)
    requires |kinds| == |tokens|
    ensures |r| <= |tokens|
    ensures forall x :: x in r ==> x in tokens
  {
    if tokens == [] then []
    else (if kinds[0].Note? then [tokens[0]] else []) + NotesOf(tokens[1..], kinds[1..])
  }

  /** Each discount total the loop computes is the sum of that kind's
      amounts over all tokens. */
  lemma {:induction false} ScanTotals(a: Acc, tokens: seq<string>, kinds: seq<TokenKind>)
    requires |kinds| == |tokens|
    ensures var r := ScanKinds(a, tokens, kinds);
            && r.flat == a.flat + Total(kinds, FlatRule)
            && r.percent == a.percent + Total(kinds, PercentRule)
            && r.rebate == a.rebate + Total(kinds, RebateRule)
            && r.giftCard == a.giftCard + Total(kinds, GiftCardRule)
    decreases |tokens|
  {
    if tokens != [] {
      ScanTotals(Step(a, tokens[0], kinds[0]), tokens[1..], kinds[1..]);
    }
  }

  /** The base price and end date the loop leaves are those of the last
      token carrying one, or the ones it started with when no token does. */
  lemma {:induction false} ScanLast(a: Acc, tokens: seq<string>, kinds: seq<TokenKind>)
    requires |kinds| == |tokens|
    ensures var r := ScanKinds(a, tokens, kinds);
            && r.basePrice == (match LastCapture(kinds, BaseRule)
                               case Some(c) => Some(ParseFloat(c))
                               case None => a.basePrice)
            && r.endDate == (if LastCapture(kinds, EndsRule).Some? then LastCapture(kinds, EndsRule)
                             else a.endDate)
    decreases |tokens|
  {
    if tokens != [] {
      ScanLast(Step(a, tokens[0], kinds[0]), tokens[1..], kinds[1..]);
    }
  }

  /** The notes the loop leaves are the unrecognised tokens, in order, after
      the ones it started with. */
  lemma {:induction false} ScanNotes(a: Acc, tokens: seq<string>, kinds: seq<TokenKind>)
    requires |kinds| == |tokens|
    ensures ScanKinds(a, tokens, kinds).notes == a.notes + NotesOf(tokens, kinds)
    decreases |tokens|
  {
    if tokens != [] {
      var a' := Step(a, tokens[0], kinds[0]);
      ScanNotes(a', tokens[1..], kinds[1..]);
      var x := if kinds[0].Note? then [tokens[0]] else [];
      assert NotesOf(tokens, kinds) == x + NotesOf(tokens[1..], kinds[1..]);
      assert a'.notes == a.notes + x;
      assert a.notes + (x + NotesOf(tokens[1..], kinds[1..])) == (a.notes + x) + NotesOf(tokens[1..], kinds[1..]);
    }
  }

  /** The token loop in closed form: each discount total is the sum of its
      kind's amounts, the base price and end date come from the last token
      carrying one, and the notes are the unrecognised tokens in order. */
  lemma ScanClosedForm(tokens: seq<string>)
    ensures var ks := KindsOf(tokens);
            var r := Scan(tokens);
            && r.flat == Total(ks, FlatRule) && r.percent == Total(ks, PercentRule)
            && r.rebate == Total(ks, RebateRule) && r.giftCard == Total(ks, GiftCardRule)
            && r.basePrice == (match LastCapture(ks, BaseRule)
                               case Some(c) => Some(ParseFloat(c))
                               case None => None)
            && r.endDate == LastCapture(ks, EndsRule)
            && r.notes == NotesOf(tokens, ks)
  {
    var ks := KindsOf(tokens);
    ScanTotals(Start, tokens, ks);
    ScanLast(Start, tokens, ks);
    ScanNotes(Start, tokens, ks);
    assert [] + NotesOf(tokens, ks) == NotesOf(tokens, ks);
  }

  /** The kinds of offer a line can produce, in the order they are emitted. */
  function TypeRank(t: ValueType): nat {
    match t
    case Flat => 0
    case Percent => 1
    case Rebate => 2
    case GiftCard => 3
    case Threshold => 4
  }

  function AmountFor(a: Acc, t: ValueType): real {
    match t
    case Flat => a.flat
    case Percent => a.percent
    case Rebate => a.rebate
    case GiftCard => a.giftCard
    case Threshold => 0.0
  }

  predicate AllZero(a: Acc) {
    a.flat == 0.0 && a.percent == 0.0 && a.rebate == 0.0 && a.giftCard == 0.0
  }

  /** The types of the offers a line emits: one per non-zero total, in the
      fixed order, or just the flat anchor when every total is zero. */
  function EmittedTypes(a: Acc): (r: seq<ValueType>)
    ensures 1 <= |r| <= 4
    ensures forall i, j :: 0 <= i < j < |r| ==> TypeRank(r[i]) < TypeRank(r[j])
    ensures forall i :: 0 <= i < |r| ==> r[i] != Threshold
    ensures forall t :: t != Threshold ==> (t in r <==> AmountFor(a, t) != 0.0 || (AllZero(a) && t == Flat))
  {
    (if a.flat != 0.0 then [Flat] else [])
    + (if a.percent != 0.0 then [Percent] else [])
    + (if a.rebate != 0.0 then [Rebate] else [])
    + (if a.giftCard != 0.0 then [GiftCard] else [])
    + (if AllZero(a) then [Flat] else [])
  }

  /** The store, title and tags every offer of a line shares. */
  datatype Header = Header(store: Store, title: string, tags: seq<string>)

  /** The fields every offer of a line carries, whatever its kind. */
  predicate SharedFields(o: Offer, h: Header, a: Acc) {
    && o.store == Target
    && o.title == (if h.title != "" then h.title else "Untitled")
    && o.productTags == h.tags
    && o.basePrice == a.basePrice
    && o.endDate == a.endDate
    && o.notes == Some(Text.Join(a.notes, "; "))
    && o.confidence == 0.6
    && o.startDate.None? && o.stackRules.None?
  }

  /** The `createOffer` call for one emitted kind. */
  function MakeOffer(h: Header, a: Acc, t: ValueType, id: string): (o: Offer)
    ensures SharedFields(o, h, a) && o.id == id && o.valueType == t && o.valueAmount == AmountFor(a, t)
  {
    Storage.CreateOffer(id, Storage.OfferPartial(
      Some(h.store), Some(h.title), Some(h.tags), Some(t), Some(AmountFor(a, t)), a.basePrice,
      None, a.endDate, Some(0.6), Some(Text.Join(a.notes, "; ")), None))
  }

  /** The offers of one line, numbered from `start`: none without a base
      price; otherwise one per non-zero total, in the order flat, percent,
      rebate, gift card, each carrying its total, or one flat anchor of
      amount 0 when all totals are zero. */
  function EmitLine(h: Header, a: Acc, newId: nat -> string, start: nat): (r: seq<Offer>)
    ensures a.basePrice.None? ==> r == []
    ensures a.basePrice.Some? ==> 1 <= |r| <= 4
    ensures forall i :: 0 <= i < |r| ==> SharedFields(r[i], h, a) && r[i].id == newId(start + i)
    ensures forall i :: 0 <= i < |r| ==> r[i].valueType != Threshold && r[i].valueAmount == AmountFor(a, r[i].valueType)
    ensures forall i, j :: 0 <= i < j < |r| ==> TypeRank(r[i].valueType) < TypeRank(r[j].valueType)
    ensures a.basePrice.Some? ==> forall t :: t != Threshold && AmountFor(a, t) != 0.0 ==>
              exists i :: 0 <= i < |r| && r[i].valueType == t
    ensures !AllZero(a) ==> forall i :: 0 <= i < |r| ==> r[i].valueAmount != 0.0
    ensures AllZero(a) && a.basePrice.Some? ==> |r| == 1 && r[0].valueType == Flat && r[0].valueAmount == 0.0
  {
    if a.basePrice.None? then []
    else
      OffersShape(h, a, newId, start);
      OffersCoverAll(h, a, newId, start);
      if !AllZero(a) then
        OffersNonZero(h, a, newId, start);
        OffersFor(h, a, EmittedTypes(a), newId, start)
      else
        OffersFor(h, a, EmittedTypes(a), newId, start)
  }

  /** The offers of a line with a base price: ranked, never threshold, each
      carrying its kind's total, and the single flat anchor when every total
      is zero. */
  lemma OffersShape(h: Header, a: Acc, newId: nat -> string, start: nat)
    ensures var r := OffersFor(h, a, EmittedTypes(a), newId, start);
            && 1 <= |r| <= 4
            && (forall i :: 0 <= i < |r| ==> SharedFields(r[i], h, a) && r[i].id == newId(start + i))
            && (forall i :: 0 <= i < |r| ==> r[i].valueType != Threshold && r[i].valueAmount == AmountFor(a, r[i].valueType))
            && (forall i, j :: 0 <= i < j < |r| ==> TypeRank(r[i].valueType) < TypeRank(r[j].valueType))
            && (AllZero(a) ==> |r| == 1 && r[0].valueType == Flat && r[0].valueAmount == 0.0)
  {
    var types := EmittedTypes(a);
    var r := OffersFor(h, a, types, newId, start);
    assert forall i :: 0 <= i < |r| ==> r[i].valueType == types[i];
  }

  /** Every kind with a non-zero total has an offer. */
  lemma OffersCoverAll(h: Header, a: Acc, newId: nat -> string, start: nat)
    ensures forall t :: t != Threshold && AmountFor(a, t) != 0.0 ==>
              exists i :: 0 <= i < |OffersFor(h, a, EmittedTypes(a), newId, start)|
                          && OffersFor(h, a, EmittedTypes(a), newId, start)[i].valueType == t
  {
    forall t | t != Threshold && AmountFor(a, t) != 0.0
      ensures exists i :: 0 <= i < |OffersFor(h, a, EmittedTypes(a), newId, start)|
                          && OffersFor(h, a, EmittedTypes(a), newId, start)[i].valueType == t
    {
      OffersCoverTotals(h, a, newId, start, t);
    }
  }

  /** Every kind with a non-zero total has an offer. */
  lemma OffersCoverTotals(h: Header, a: Acc, newId: nat -> string, start: nat, t: ValueType)
    requires t != Threshold && AmountFor(a, t) != 0.0
    ensures exists i :: 0 <= i < |OffersFor(h, a, EmittedTypes(a), newId, start)|
                        && OffersFor(h, a, EmittedTypes(a), newId, start)[i].valueType == t
  {
    var types := EmittedTypes(a);
    var r := OffersFor(h, a, types, newId, start);
    assert t in types;
    var i :| 0 <= i < |types| && types[i] == t;
    assert r[i].valueType == t;
  }

  /** Unless every total is zero, every offer carries a non-zero amount. */
  lemma OffersNonZero(h: Header, a: Acc, newId: nat -> string, start: nat)
    requires !AllZero(a)
    ensures forall i :: 0 <= i < |OffersFor(h, a, EmittedTypes(a), newId, start)| ==>
              OffersFor(h, a, EmittedTypes(a), newId, start)[i].valueAmount != 0.0
  {
    var types := EmittedTypes(a);
    var r := OffersFor(h, a, types, newId, start);
    forall i | 0 <= i < |r|
      ensures r[i].valueAmount != 0.0
    {
      assert types[i] in types;
    }
  }

  /** One offer per listed kind, numbered on from `start`. */
  function OffersFor(h: Header, a: Acc, types: seq<ValueType>, newId: nat -> string, start: nat): (r: seq<Offer>)
    ensures |r| == |types|
    ensures forall i :: 0 <= i < |r| ==> r[i].valueType == types[i] && r[i].id == newId(start + i)
    ensures forall i :: 0 <= i < |r| ==> SharedFields(r[i], h, a) && r[i].valueAmount == AmountFor(a, types[i])
    decreases |types|
  {
    if types == [] then []
    else [MakeOffer(h, a, types[0], newId(start))] + OffersFor(h, a, types[1..], newId, start + 1)
  }

  /** The store a line names: Walmart only for exactly "Walmart". */
  function StoreOf(part: string): (s: Store)
    ensures s == Walmart <==> part == "Walmart"
  {
    if part == "Walmart" then Walmart else Target
  }

  /** The trimmed `|`-separated parts of a line. */
  function Parts(line: string): (r: seq<string>)
    ensures |r| >= 1
    ensures forall i :: 0 <= i < |r| ==> Text.IsTrimmed(r[i])
  {
    Text.TrimAll(Text.Split(line, Text.Char('|')))
  }

  /** Trimmed `|`-free fields written with " | " between them are read
      back as the same parts. */
  lemma {:induction false} PartsJoin(xs: seq<string>)
    requires |xs| >= 1
    requires forall i :: 0 <= i < |xs| ==> Text.IsTrimmed(xs[i]) && Text.FreeOf(xs[i], Text.Char('|'))
    ensures Parts(Text.Join(xs, " | ")) == xs
  {
    if |xs| == 1 {
      Text.SplitFree(xs[0], Text.Char('|'));
      Text.TrimOfTrimmed(xs[0]);
    } else {
      PartsJoin(xs[1..]);
      PartsJoinCons(xs[0], xs[1..]);
      assert [xs[0]] + xs[1..] == xs;
    }
  }

  /** One more field in front: the step of `PartsJoin`. */
  lemma PartsJoinCons(x: string, xs: seq<string>)
    requires |xs| >= 1
    requires Text.IsTrimmed(x) && Text.FreeOf(x, Text.Char('|'))
    requires Parts(Text.Join(xs, " | ")) == xs
    ensures Parts(Text.Join([x] + xs, " | ")) == [x] + xs
  {
    var bar := Text.Char('|');
    var j := Text.Join(xs, " | ");
    var q := Text.Split(j, bar);
    assert Text.Join([x] + xs, " | ") == x + " | " + j by {
      assert ([x] + xs)[1..] == xs;
    }
    var r := Text.Split(x + " | " + j, bar);
    assert r == [x + " "] + ([" " + q[0]] + q[1..]) by {
      SplitAtBar(x, j);
    }
    TrimAfterBar(x, q, xs);
  }

  /** Trimming the pieces `SplitAtBar` describes. */
  lemma TrimAfterBar(x: string, q: seq<string>, xs: seq<string>)
    requires Text.IsTrimmed(x) && |q| >= 1 && Text.TrimAll(q) == xs
    ensures Text.TrimAll([x + " "] + ([" " + q[0]] + q[1..])) == [x] + xs
  {
    var m := [" " + q[0]] + q[1..];
    assert Text.TrimAll(m) == xs by {
      TrimAllCons(" " + q[0], q[1..]);
      Text.TrimSpaceBefore(q[0]);
      TrimAllCons(q[0], q[1..]);
      assert [q[0]] + q[1..] == q;
    }
    assert Text.Trim(x + " ") == x by {
      Text.TrimPadded("", x, " ");
      assert "" + x + " " == x + " ";
    }
    TrimAllCons(x + " ", m);
  }

  lemma TrimAllCons(x: string, xs: seq<string>)
    ensures Text.TrimAll([x] + xs) == [Text.Trim(x)] + Text.TrimAll(xs)
  {
    assert ([x] + xs)[1..] == xs;
  }

  /** How a `|`-free field followed by " | " and the rest splits. */
  lemma SplitAtBar(x: string, j: string)
    requires Text.FreeOf(x, Text.Char('|'))
    ensures var q := Text.Split(j, Text.Char('|'));
            Text.Split(x + " | " + j, Text.Char('|')) == [x + " "] + ([" " + q[0]] + q[1..])
  {
    var bar := Text.Char('|');
    var b := "|" + (" " + j);
    assert x + " | " + j == (x + " ") + b;
    assert Text.Split(b, bar) == [""] + Text.Split(" " + j, bar) by {
      assert b[1..] == " " + j;
    }
    assert Text.FreeOf(x + " ", bar) by {
      forall k | 0 <= k < |x + " "|
        ensures !Text.IsSep(bar, (x + " ")[k])
      {
        if k < |x| {
          assert (x + " ")[k] == x[k];
        }
      }
    }
    Text.SplitFreePrefix(x + " ", b, bar);
    assert (x + " ") + "" == x + " ";
    Text.SplitFreePrefix(" ", j, bar);
  }

  /** The fields the title part and the store part give every offer of a
      line. */
  function HeaderOf(parts: seq<string>): (h: Header)
    requires |parts| >= 2
    ensures h.store == Walmart <==> parts[0] == "Walmart"
    ensures h.title == parts[1]
    ensures |h.tags| >= 1 && forall i :: 0 <= i < |h.tags| ==> Text.FreeOf(h.tags[i], Text.Space)
  {
    Header(StoreOf(parts[0]), parts[1], Text.SplitOnSpaceRuns(Text.Lower(parts[1])))
  }

  /** What every parsed offer satisfies: the given id, the Target store,
      confidence 0.6 and a kind other than threshold. */
  predicate Emitted(o: Offer, id: string) {
    o.id == id && o.store == Target && o.confidence == 0.6 && o.valueType != Threshold
  }

  /** One line: nothing for fewer than two parts; otherwise the tokens after
      the title, scanned, and the line's offers emitted. */
  function ParseLine(line: string, newId: nat -> string, start: nat): (r: seq<Offer>)
    ensures |r| <= 4
    ensures |Parts(line)| < 2 ==> r == []
    ensures forall i :: 0 <= i < |r| ==> Emitted(r[i], newId(start + i))
  {
    var parts := Parts(line);
    if |parts| < 2 then []
    else
      var h := HeaderOf(parts);
      var a := Scan(parts[2..]);
      EmitNumbered(h, a, newId, start);
      EmitLine(h, a, newId, start)
  }

  /** The offers of a line are at most four, each well formed and numbered
      from `start`. */
  lemma EmitNumbered(h: Header, a: Acc, newId: nat -> string, start: nat)
    ensures |EmitLine(h, a, newId, start)| <= 4
    ensures forall i :: 0 <= i < |EmitLine(h, a, newId, start)| ==>
              Emitted(EmitLine(h, a, newId, start)[i], newId(start + i))
  {
  }

  /** A line none of whose tokens is recognised as a base price yields no
      offer, whatever discounts it lists. */
  lemma NoBaseNoOffers(line: string, newId: nat -> string, start: nat)
    requires forall i :: 2 <= i < |Parts(line)| ==> !IsHit(KindOf(Parts(line)[i]), BaseRule)
    ensures ParseLine(line, newId, start) == []
  {
    var parts := Parts(line);
    if |parts| >= 2 {
      NoBaseTail(parts);
      LineEmits(line, newId, start);
    }
  }

  lemma NoBaseTail(parts: seq<string>)
    requires |parts| >= 2
    requires forall i :: 2 <= i < |parts| ==> !IsHit(KindOf(parts[i]), BaseRule)
    ensures Scan(parts[2..]).basePrice.None?
  {
    var tokens := parts[2..];
    assert forall i :: 0 <= i < |tokens| ==> !IsHit(KindOf(tokens[i]), BaseRule) by {
      forall i | 0 <= i < |tokens|
        ensures !IsHit(KindOf(tokens[i]), BaseRule)
      {
        assert tokens[i] == parts[i + 2];
      }
    }
    NoBaseScan(tokens);
  }

  lemma LineEmits(line: string, newId: nat -> string, start: nat)
    requires |Parts(line)| >= 2
    ensures ParseLine(line, newId, start) == EmitLine(HeaderOf(Parts(line)), Scan(Parts(line)[2..]), newId, start)
  {
  }

  lemma NoBaseScan(tokens: seq<string>)
    requires forall i :: 0 <= i < |tokens| ==> !IsHit(KindOf(tokens[i]), BaseRule)
    ensures Scan(tokens).basePrice.None?
  {
    var kinds := KindsOf(tokens);
    ScanLast(Start, tokens, kinds);
    assert LastCapture(kinds, BaseRule).None?;
  }

  /** `input.split(/\n+/).map(trim).filter(Boolean)`. Cutting at every
      newline instead of at runs of them only adds empty pieces, which the
      filter drops. */
  function Lines(input: string): (r: seq<string>)
    ensures forall i :: 0 <= i < |r| ==> r[i] != "" && Text.IsTrimmed(r[i])
  {
    var trimmed := Text.TrimAll(Text.Split(input, Text.Char('\n')));
    var r := Text.NonEmpty(trimmed);
    assert forall i :: 0 <= i < |r| ==> Text.IsTrimmed(r[i]) by {
      forall i | 0 <= i < |r|
        ensures Text.IsTrimmed(r[i])
      {
        assert r[i] in trimmed;
      }
    }
    r
  }

  /** The offers of each line in turn, numbered on from where the previous
      line stopped. */
  function ParseLines(lines: seq<string>, parse: (string, nat) -> seq<Offer>, start: nat): seq<Offer> {
    if lines == [] then []
    else
      var first := parse(lines[0], start);
      first + ParseLines(lines[1..], parse, start + |first|)
  }

  /** The offers of a stretch of output, each well formed and carrying the
      id numbered from `start`. */
  predicate NumberedFrom(xs: seq<Offer>, newId: nat -> string, start: nat) {
    forall i :: 0 <= i < |xs| ==> Emitted(xs[i], newId(start + i))
  }

  /** Numbering survives concatenating the lines: when each line's offers
      are numbered from where that line starts, so is the whole output. */
  lemma {:induction false} ParseLinesNumbered(lines: seq<string>, parse: (string, nat) -> seq<Offer>,
                                              newId: nat -> string, start: nat)
    requires forall line, s :: |parse(line, s)| <= 4 && NumberedFrom(parse(line, s), newId, s)
    ensures |ParseLines(lines, parse, start)| <= 4 * |lines|
    ensures NumberedFrom(ParseLines(lines, parse, start), newId, start)
  {
    if lines != [] {
      var first := parse(lines[0], start);
      var rest := ParseLines(lines[1..], parse, start + |first|);
      ParseLinesNumbered(lines[1..], parse, newId, start + |first|);
      var r := first + rest;
      assert r == ParseLines(lines, parse, start);
      forall i | 0 <= i < |r|
        ensures Emitted(r[i], newId(start + i))
      {
        if i < |first| {
          assert r[i] == first[i];
        } else {
          assert r[i] == rest[i - |first|];
        }
      }
    }
  }

  /** A non-empty trimmed text without a line break is a single line. */
  lemma SingleLine(input: string)
    requires input != "" && Text.IsTrimmed(input) && Text.FreeOf(input, Text.Char('\n'))
    ensures Lines(input) == [input]
  {
    Text.SplitFree(input, Text.Char('\n'));
    Text.TrimOfTrimmed(input);
  }

  /** Lines distribute over a line break: the lines of the text before it,
      then the lines of the text after it. */
  lemma LinesConcat(a: string, b: string)
    ensures Lines(a + "\n" + b) == Lines(a) + Lines(b)
  {
    var nl := Text.Char('\n');
    assert a + "\n" + b == a + ['\n'] + b;
    Text.SplitConcat(a, b, '\n', nl);
    Text.TrimAllConcat(Text.Split(a, nl), Text.Split(b, nl));
    Text.NonEmptyConcat(Text.TrimAll(Text.Split(a, nl)), Text.TrimAll(Text.Split(b, nl)));
  }

  /** Non-empty trimmed lines joined by line breaks are read back as those
      lines. */
  lemma LinesJoin(ls: seq<string>)
    requires forall i :: 0 <= i < |ls| ==> ls[i] != "" && Text.IsTrimmed(ls[i]) && Text.FreeOf(ls[i], Text.Char('\n'))
    ensures Lines(Text.Join(ls, "\n")) == ls
  {
    if ls == [] {
      NoLines();
    } else {
      var nl := Text.Char('\n');
      var j := Text.Join(ls, "\n");
      Text.SplitJoin(ls, '\n');
      assert Text.Split(j, nl) == ls;
      Text.TrimAllTrimmed(ls);
      Text.NonEmptyKeepsAll(ls);
      assert Lines(j) == Text.NonEmpty(Text.TrimAll(Text.Split(j, nl)));
    }
  }

  /** The empty text has no lines. */
  lemma NoLines()
    ensures Lines("") == []
  {
    Text.SplitFree("", Text.Char('\n'));
    Text.TrimOfTrimmed("");
    Text.NonEmptyOne("");
  }


  /** The offers of two runs of lines are those of the first run followed by
      those of the second, numbered on. */
  lemma {:induction false} ParseLinesConcat(xs: seq<string>, ys: seq<string>, parse: (string, nat) -> seq<Offer>, start: nat)
    ensures ParseLines(xs + ys, parse, start)
            == ParseLines(xs, parse, start) + ParseLines(ys, parse, start + |ParseLines(xs, parse, start)|)
  {
    if xs == [] {
      assert xs + ys == ys;
    } else {
      assert (xs + ys)[0] == xs[0];
      assert (xs + ys)[1..] == xs[1..] + ys;
      var first := parse(xs[0], start);
      ParseLinesConcat(xs[1..], ys, parse, start + |first|);
    }
  }

  /** `parseBulkOffers`; `newId(k)` is the id `makeId` hands the k-th offer. */
  function ParseBulkOffers(input: string, newId: nat -> string): (r: seq<Offer>)
    ensures |r| <= 4 * |Lines(input)|
    ensures forall i :: 0 <= i < |r| ==> Emitted(r[i], newId(i))
  {
    var parse := LineParser(newId);
    ParseLinesNumbered(Lines(input), parse, newId, 0);
    ParseLines(Lines(input), parse, 0)
  }

  /** The empty text yields no offer. */
  lemma ParseBulkOffersEmpty(newId: nat -> string)
    ensures ParseBulkOffers("", newId) == []
  {
    NoLines();
  }

  /** A single non-empty trimmed line parses as that line. */
  lemma ParseBulkOffersLine(line: string, newId: nat -> string)
    requires line != "" && Text.IsTrimmed(line) && Text.FreeOf(line, Text.Char('\n'))
    ensures ParseBulkOffers(line, newId) == ParseLine(line, newId, 0)
  {
    SingleLine(line);
    ParseOneLine(line, LineParser(newId));
  }

  /** One line parses into what the line parser gives it from 0. */
  lemma ParseOneLine(line: string, parse: (string, nat) -> seq<Offer>)
    ensures ParseLines([line], parse, 0) == parse(line, 0)
  {
    var first := parse(line, 0);
    assert ParseLines([line], parse, 0) == first + ParseLines([], parse, |first|);
    assert first + [] == first;
  }

  /** Two texts joined by a line break parse into the offers of the first
      followed by the offers of the second, whose ids continue where the
      first's stopped. */
  lemma ParseBulkOffersConcat(a: string, b: string, newId: nat -> string)
    ensures ParseBulkOffers(a + "\n" + b, newId)
            == ParseBulkOffers(a, newId) + ParseLines(Lines(b), LineParser(newId), |ParseBulkOffers(a, newId)|)
  {
    ParseLinesOfConcat(a, b, LineParser(newId));
  }

  lemma ParseLinesOfConcat(a: string, b: string, parse: (string, nat) -> seq<Offer>)
    ensures ParseLines(Lines(a + "\n" + b), parse, 0)
            == ParseLines(Lines(a), parse, 0) + ParseLines(Lines(b), parse, |ParseLines(Lines(a), parse, 0)|)
  {
    LinesConcat(a, b);
    ParseLinesSplit(Lines(a + "\n" + b), Lines(a), Lines(b), parse);
  }

  lemma ParseLinesSplit(ls: seq<string>, xs: seq<string>, ys: seq<string>, parse: (string, nat) -> seq<Offer>)
    requires ls == xs + ys
    ensures ParseLines(ls, parse, 0) == ParseLines(xs, parse, 0) + ParseLines(ys, parse, |ParseLines(xs, parse, 0)|)
  {
    ParseLinesConcat(xs, ys, parse, 0);
  }

  /** `ParseLine` with the id source fixed: at most four offers a line,
      numbered from where the line starts. */
  function LineParser(newId: nat -> string): (parse: (string, nat) -> seq<Offer>)
    ensures forall line, s :: |parse(line, s)| <= 4 && NumberedFrom(parse(line, s), newId, s)
  {
    (line: string, s: nat) => ParseLine(line, newId, s)
  }
}
