/** The sample line from the parser's documentation, worked through: each
    token's recognition, the line's totals and the offers it yields. */
module ParserSample {
  import opened Types
  import opened Parser
  import Text

  /** `c` does not occur in `t`. */
  predicate Lacks(t: string, c: char) {
    forall k :: 0 <= k < |t| ==> t[k] != c
  }

  lemma {:induction false} LitHas(t: string, p: nat, lit: string, k: nat)
    requires LitAt(t, p, lit) && k < |lit|
    ensures p + k < |t| && t[p + k] == lit[k]
    decreases k
  {
    if k > 0 {
      LitHas(t, p + 1, lit[1..], k - 1);
    }
  }

  /** A literal matches wherever the text holds its characters. */
  lemma {:induction false} LitFrom(t: string, p: nat, lit: string)
    requires p + |lit| <= |t| && t[p..p + |lit|] == lit
    ensures LitAt(t, p, lit)
    decreases |lit|
  {
    if lit != [] {
      assert t[p] == t[p..p + |lit|][0];
      assert t[p + 1..p + 1 + |lit[1..]|] == t[p..p + |lit|][1..];
      LitFrom(t, p + 1, lit[1..]);
    }
  }

  /** Characters every match of a pattern contains: `$` for the four
      patterns ending in a dollar amount, a letter of their keyword, `-`
      and `%` for the flat and percent patterns, `-` and `n` for the date. */
  predicate Needs(rule: Rule, c: char) {
    match rule
    case BaseRule => c == '$' || c == 'b' || c == 'e'
    case FlatRule => c == '-' || c == '$'
    case PercentRule => c == '%'
    case RebateRule => c == '$' || c == 'i'
    case GiftCardRule => c == '$' || c == 'g'
    case EndsRule => c == '-' || c == 'n'
  }

  lemma CaptureNeeds(rule: Rule, t: string, p: nat, c: char)
    requires p <= |t| && Needs(rule, c) && CaptureAt(rule, t, p).Some?
    ensures !Lacks(t, c)
  {
    match rule
    case BaseRule =>
      var d := DollarAt(t, p).value;
      var q := RunEnd(t, p + 1 + |d|, White);
      LitHas(t, q, "base", 0);
      LitHas(t, q, "base", 3);
    case FlatRule =>
      LitHas(t, p, "-", 0);
    case PercentRule =>
    case RebateRule =>
      LitHas(t, p, "ibotta", 0);
    case GiftCardRule =>
      if LitAt(t, p, "gift") && LitAt(t, RunEnd(t, p + 4, White), "card") {
        LitHas(t, p, "gift", 0);
      } else {
        LitHas(t, p, "gc", 0);
      }
    case EndsRule =>
      LitHas(t, p, "ends", 1);
  }

  /** A pattern cannot match a token lacking one of its characters. */
  lemma NoMatchWithout(rule: Rule, t: string, c: char)
    requires Needs(rule, c) && Lacks(t, c)
    ensures Match(rule, t).None?
  {
    forall p | 0 <= p <= |t|
      ensures CaptureAt(rule, t, p).None?
    {
      if CaptureAt(rule, t, p).Some? {
        CaptureNeeds(rule, t, p, c);
      }
    }
  }

  /** A match at the very start is the leftmost one. */
  lemma MatchAtStart(rule: Rule, t: string, c: string)
    requires CaptureAt(rule, t, 0) == Some(c)
    ensures Match(rule, t) == Some(c)
  {
  }

  /** The first pattern that matches decides. */
  lemma ClassifyAs(t: string, rule: Rule, c: string)
    requires NoneMatch(t, Rank(rule)) && Match(rule, t) == Some(c)
    ensures Classify(t) == Hit(rule, c)
  {
  }

  /** The fields of the sample line of the parser's documentation and test. */
  const Fields: seq<string> := ["Target", "Tide 64-load", "$14.99 base", "-$3 manufacturer",
                                "10% Circle", "Ibotta $1.25", "Ends 2025-11-30"]

  /** The sample line itself:
      `Target | Tide 64-load | $14.99 base | -$3 manufacturer | 10% Circle | Ibotta $1.25 | Ends 2025-11-30`. */
  const Sample: string := Text.Join(Fields, " | ")

  lemma BaseToken(raw: string, t: string)
    requires raw == "$14.99 base" && t == "$14.99 base"
    ensures KindOf(raw) == Hit(BaseRule, "14.99")
  {
    BaseLower(raw, t);
    BaseClassify(t);
  }
  lemma BaseLower(raw: string, t: string)
    requires raw == "$14.99 base" && t == "$14.99 base"
    ensures Text.Lower(raw) == t
  {
  }


  lemma BaseClassify(t: string)
    requires t == "$14.99 base"
    ensures Classify(t) == Hit(BaseRule, "14.99")
  {
    BaseMatch(t);
    ClassifyAs(t, BaseRule, "14.99");
  }

  lemma BaseMatch(t: string)
    requires t == "$14.99 base"
    ensures Match(BaseRule, t) == Some("14.99")
  {
    RunEndAt(t, 1, 6, NumChar);
    assert DollarAt(t, 0) == Some(t[1..6]);
    assert t[1..6] == "14.99";
    RunEndAt(t, 6, 7, White);
    assert t[7..11] == "base";
    LitFrom(t, 7, "base");
    MatchAtStart(BaseRule, t, "14.99");
  }

  lemma FlatToken(raw: string, t: string)
    requires raw == "-$3 manufacturer" && t == "-$3 manufacturer"
    ensures KindOf(raw) == Hit(FlatRule, "3")
  {
    FlatLower(raw, t);
    FlatClassify(t);
  }
  lemma FlatLower(raw: string, t: string)
    requires raw == "-$3 manufacturer" && t == "-$3 manufacturer"
    ensures Text.Lower(raw) == t
  {
  }


  lemma FlatClassify(t: string)
    requires t == "-$3 manufacturer"
    ensures Classify(t) == Hit(FlatRule, "3")
  {
    NoMatchWithout(BaseRule, t, 'b');
    FlatMatch(t);
    ClassifyAs(t, FlatRule, "3");
  }

  lemma FlatMatch(t: string)
    requires t == "-$3 manufacturer"
    ensures Match(FlatRule, t) == Some("3")
  {
    RunEndAt(t, 2, 3, NumChar);
    assert DollarAt(t, 1) == Some(t[2..3]);
    assert t[2..3] == "3";
    MatchAtStart(FlatRule, t, "3");
  }

  lemma PercentToken(raw: string, t: string)
    requires raw == "10% Circle" && t == "10% circle"
    ensures KindOf(raw) == Hit(PercentRule, "10")
  {
    PercentLower(raw, t);
    PercentClassify(t);
  }
  lemma PercentLower(raw: string, t: string)
    requires raw == "10% Circle" && t == "10% circle"
    ensures Text.Lower(raw) == t
  {
  }


  lemma PercentClassify(t: string)
    requires t == "10% circle"
    ensures Classify(t) == Hit(PercentRule, "10")
  {
    NoMatchWithout(BaseRule, t, '$');
    NoMatchWithout(FlatRule, t, '$');
    RunEndAt(t, 0, 2, NumChar);
    assert CaptureAt(PercentRule, t, 0) == Some(t[0..2]);
    assert t[0..2] == "10";
    MatchAtStart(PercentRule, t, "10");
    ClassifyAs(t, PercentRule, "10");
  }

  lemma RebateToken(raw: string, t: string)
    requires raw == "Ibotta $1.25" && t == "ibotta $1.25"
    ensures KindOf(raw) == Hit(RebateRule, "1.25")
  {
    RebateLower(raw, t);
    RebateClassify(t);
  }
  lemma RebateLower(raw: string, t: string)
    requires raw == "Ibotta $1.25" && t == "ibotta $1.25"
    ensures Text.Lower(raw) == t
  {
  }


  lemma RebateClassify(t: string)
    requires t == "ibotta $1.25"
    ensures Classify(t) == Hit(RebateRule, "1.25")
  {
    NoMatchWithout(BaseRule, t, 'e');
    NoMatchWithout(FlatRule, t, '-');
    NoMatchWithout(PercentRule, t, '%');
    RebateMatch();
    ClassifyAs(t, RebateRule, "1.25");
  }

  lemma RebateMatch()
    ensures Match(RebateRule, "ibotta $1.25") == Some("1.25")
  {
    var t := "ibotta $1.25";
    RunEndAt(t, 6, 7, White);
    RunEndAt(t, 8, 12, NumChar);
    assert t[0..6] == "ibotta";
    LitFrom(t, 0, "ibotta");
    assert DollarAt(t, 7) == Some(t[8..12]);
    assert t[8..12] == "1.25" by {
      assert t[8] == '1' && t[9] == '.' && t[10] == '2' && t[11] == '5';
    }
    MatchAtStart(RebateRule, t, "1.25");
  }

  lemma EndsToken(raw: string, t: string)
    requires raw == "Ends 2025-11-30" && t == "ends 2025-11-30"
    ensures KindOf(raw) == Hit(EndsRule, "2025-11-30")
  {
    EndsLower(raw, t);
    EndsClassify(t);
  }
  lemma EndsLower(raw: string, t: string)
    requires raw == "Ends 2025-11-30" && t == "ends 2025-11-30"
    ensures Text.Lower(raw) == t
  {
  }


  lemma EndsClassify(t: string)
    requires t == "ends 2025-11-30"
    ensures Classify(t) == Hit(EndsRule, "2025-11-30")
  {
    EndsLacks(t);
    EndsEarlier(t);
    EndsMatch();
    ClassifyAs(t, EndsRule, "2025-11-30");
  }

  /** A token with neither a dollar nor a percent sign matches none of the
      patterns ranked before the end date. */
  lemma EndsEarlier(t: string)
    requires Lacks(t, '$') && Lacks(t, '%')
    ensures NoneMatch(t, 5)
  {
    NoMatchWithout(BaseRule, t, '$');
    NoMatchWithout(FlatRule, t, '$');
    NoMatchWithout(PercentRule, t, '%');
    NoMatchWithout(RebateRule, t, '$');
    NoMatchWithout(GiftCardRule, t, '$');
  }

  lemma EndsLacks(t: string)
    requires t == "ends 2025-11-30"
    ensures Lacks(t, '$') && Lacks(t, '%')
  {
  }

  lemma EndsMatch()
    ensures Match(EndsRule, "ends 2025-11-30") == Some("2025-11-30")
  {
    var t := "ends 2025-11-30";
    RunEndAt(t, 4, 5, White);
    assert t[0..4] == "ends";
    LitFrom(t, 0, "ends");
    assert DateAt(t, 5);
    assert CaptureAt(EndsRule, t, 0) == Some(t[5..15]);
    assert t[5..15] == "2025-11-30";
    MatchAtStart(EndsRule, t, "2025-11-30");
  }

  /** The sample is non-empty, trimmed and free of line breaks. */
  lemma SampleIsLine(input: string, fs: seq<string>)
    requires fs == Fields && input == Text.Join(fs, " | ")
    ensures input != "" && Text.IsTrimmed(input) && Text.FreeOf(input, Text.Char('\n'))
  {
    FieldsTrimmed(fs);
    FieldsFree(fs, '\n');
    Text.JoinTrimmed(fs, " | ");
    Text.JoinFreeOf(fs, " | ", Text.Char('\n'));
  }

  /** The sample's parts are its seven fields. */
  lemma SampleParts(input: string, fs: seq<string>)
    requires fs == Fields && input == Text.Join(fs, " | ")
    ensures Parts(input) == fs
  {
    FieldsTrimmed(fs);
    FieldsFree(fs, '|');
    PartsJoin(fs);
  }

  lemma FieldsTrimmed(fs: seq<string>)
    requires fs == Fields
    ensures forall i :: 0 <= i < |fs| ==> fs[i] != "" && Text.IsTrimmed(fs[i])
  {
    assert Text.IsTrimmed(fs[0]);
    assert Text.IsTrimmed(fs[1]);
    assert Text.IsTrimmed(fs[2]);
    assert Text.IsTrimmed(fs[3]);
    assert Text.IsTrimmed(fs[4]);
    assert Text.IsTrimmed(fs[5]);
    assert Text.IsTrimmed(fs[6]);
  }

  lemma FieldsFree(fs: seq<string>, c: char)
    requires fs == Fields && (c == '|' || c == '\n')
    ensures forall i :: 0 <= i < |fs| ==> Text.FreeOf(fs[i], Text.Char(c))
  {
    assert Text.FreeOf(fs[0], Text.Char(c));
    assert Text.FreeOf(fs[1], Text.Char(c));
    assert Text.FreeOf(fs[2], Text.Char(c));
    assert Text.FreeOf(fs[3], Text.Char(c));
    assert Text.FreeOf(fs[4], Text.Char(c));
    assert Text.FreeOf(fs[5], Text.Char(c));
    assert Text.FreeOf(fs[6], Text.Char(c));
  }

  /** The amounts the sample's tokens capture. */
  lemma BaseAmount()
    ensures ParseFloat("14.99") == 14.99
  {
    ParseFloatDecimal("14", "99", "");
    assert "14" + "." + "99" + "" == "14.99";
    DecimalOf("14", "99", 14, 99);
    assert 14.0 + 99.0 / 100.0 == 14.99;
  }

  lemma RebateAmount()
    ensures ParseFloat("1.25") == 1.25
  {
    ParseFloatDecimal("1", "25", "");
    assert "1" + "." + "25" + "" == "1.25";
    DecimalOf("1", "25", 1, 25);
    assert 1.0 + 25.0 / 100.0 == 1.25;
  }

  /** Two-digit fractions: the digits' values over a hundred. */
  lemma DecimalOf(a: string, b: string, x: nat, y: nat)
    requires AllDigits(a) && AllDigits(b) && |b| == 2
    requires DigitsValue(a) == x && DigitsValue(b) == y
    ensures Decimal(DigitsValue(a), DigitsValue(b), |b|) == x as real + y as real / 100.0
  {
    assert Pow10(2) == 100;
  }

  lemma WholeAmounts()
    ensures ParseFloat("3") == 3.0 && ParseFloat("10") == 10.0
  {
    ParseFloatWhole("3", "");
    assert "3" + "" == "3";
    ParseFloatWhole("10", "");
    assert "10" + "" == "10";
  }

  /** How each of the sample's tokens after the title is recognised. */
  lemma SampleKinds(tokens: seq<string>)
    requires |tokens| == 5 && tokens[0] == "$14.99 base" && tokens[1] == "-$3 manufacturer"
    requires tokens[2] == "10% Circle" && tokens[3] == "Ibotta $1.25" && tokens[4] == "Ends 2025-11-30"
    ensures var ks := KindsOf(tokens);
            && ks[0] == Hit(BaseRule, "14.99") && ks[1] == Hit(FlatRule, "3") && ks[2] == Hit(PercentRule, "10")
            && ks[3] == Hit(RebateRule, "1.25") && ks[4] == Hit(EndsRule, "2025-11-30")
  {
    BaseToken(tokens[0], "$14.99 base");
    FlatToken(tokens[1], "-$3 manufacturer");
    PercentToken(tokens[2], "10% circle");
    RebateToken(tokens[3], "ibotta $1.25");
    EndsToken(tokens[4], "ends 2025-11-30");
  }

  /** The sample's totals: flat 3, percent 10, rebate 1.25, no gift card,
      base price 14.99, end date 2025-11-30 and no notes. */
  const SampleAcc := Acc(3.0, 10.0, 1.25, 0.0, Some(14.99), Some("2025-11-30"), [])

  lemma SampleScan(tokens: seq<string>)
    requires |tokens| == 5 && tokens[0] == "$14.99 base" && tokens[1] == "-$3 manufacturer"
    requires tokens[2] == "10% Circle" && tokens[3] == "Ibotta $1.25" && tokens[4] == "Ends 2025-11-30"
    ensures Scan(tokens) == SampleAcc
  {
    SampleKinds(tokens);
    ScanOfKinds(tokens, KindsOf(tokens));
  }

  /** The loop over five tokens recognised as the sample's are. */
  lemma ScanOfKinds(tokens: seq<string>, kinds: seq<TokenKind>)
    requires |tokens| == 5 && |kinds| == 5
    requires && kinds[0] == Hit(BaseRule, "14.99") && kinds[1] == Hit(FlatRule, "3")
             && kinds[2] == Hit(PercentRule, "10") && kinds[3] == Hit(RebateRule, "1.25")
             && kinds[4] == Hit(EndsRule, "2025-11-30")
    ensures ScanKinds(Start, tokens, kinds) == SampleAcc
  {
    BaseAmount();
    RebateAmount();
    WholeAmounts();
    var a1 := Step(Start, tokens[0], kinds[0]);
    var a2 := Step(a1, tokens[1], kinds[1]);
    var a3 := Step(a2, tokens[2], kinds[2]);
    var a4 := Step(a3, tokens[3], kinds[3]);
    var a5 := Step(a4, tokens[4], kinds[4]);
    assert a5 == SampleAcc;
    assert ScanKinds(a5, tokens[5..], kinds[5..]) == a5;
    assert ScanKinds(a4, tokens[4..], kinds[4..]) == a5;
    assert ScanKinds(a3, tokens[3..], kinds[3..]) == a5;
    assert ScanKinds(a2, tokens[2..], kinds[2..]) == a5;
    assert ScanKinds(a1, tokens[1..], kinds[1..]) == a5;
  }

  /** The sample's title gives the tags "tide" and "64-load". */
  lemma SampleTags(title: string)
    requires title == "Tide 64-load"
    ensures Text.SplitOnSpaceRuns(Text.Lower(title)) == ["tide", "64-load"]
  {
    TitleLower(title);
    TitleWords();
  }

  lemma TitleLower(title: string)
    requires title == "Tide 64-load"
    ensures Text.Lower(title) == "tide" + " " + "64-load"
  {
  }

  lemma TitleWords()
    ensures Text.SplitOnSpaceRuns("tide" + " " + "64-load") == ["tide", "64-load"]
  {
    assert Text.FreeOf("tide", Text.Space);
    assert Text.FreeOf("64-load", Text.Space);
    Text.SplitOnSpaceRunsPair("tide", "64-load");
  }

  const SampleHeader := Header(Target, "Tide 64-load", ["tide", "64-load"])

  /** An offer of the sample: the given kind, amount and id, the sample's
      title, tags, base price and end date, and an empty note. */
  predicate SampleOffer(o: Offer, t: ValueType, amount: real, id: string) {
    && o.valueType == t && o.valueAmount == amount && o.id == id
    && o.store == Target && o.title == "Tide 64-load" && o.productTags == ["tide", "64-load"]
    && o.basePrice == Some(14.99) && o.endDate == Some("2025-11-30")
    && o.notes == Some("") && o.confidence == 0.6
  }

  /** The sample is parsed as its one line. */
  lemma SampleIsOneLine(input: string, newId: nat -> string)
    requires input == Sample
    ensures ParseBulkOffers(input, newId) == ParseLine(input, newId, 0)
  {
    SampleIsLine(input, Fields);
    ParseBulkOffersLine(input, newId);
  }

  /** The line's header and totals. */
  lemma SampleLineParts(input: string, newId: nat -> string)
    requires input == Sample
    ensures ParseLine(input, newId, 0) == EmitLine(SampleHeader, SampleAcc, newId, 0)
  {
    SampleHeaderOf(input);
    SampleScanOf(input);
    LineEmits(input, newId, 0);
  }

  lemma SampleHeaderOf(input: string)
    requires input == Sample
    ensures |Parts(input)| >= 2 && HeaderOf(Parts(input)) == SampleHeader
  {
    SampleParts(input, Fields);
    SampleTags(Parts(input)[1]);
  }

  lemma SampleScanOf(input: string)
    requires input == Sample
    ensures |Parts(input)| >= 2 && Scan(Parts(input)[2..]) == SampleAcc
  {
    SampleParts(input, Fields);
    SampleScan(Parts(input)[2..]);
  }

  /** The offers the sample's totals yield: flat, percent and rebate. */
  lemma SampleEmit(h: Header, a: Acc, newId: nat -> string)
    requires h == SampleHeader && a == SampleAcc
    ensures var r := EmitLine(h, a, newId, 0);
            && |r| == 3
            && SampleOffer(r[0], Flat, 3.0, newId(0))
            && SampleOffer(r[1], Percent, 10.0, newId(1))
            && SampleOffer(r[2], Rebate, 1.25, newId(2))
  {
    assert EmittedTypes(a) == [Flat, Percent, Rebate];
    assert Text.Join([], "; ") == "";
  }

  /** The sample line yields exactly three offers, flat 3, percent 10 and
      rebate 1.25, each with base price 14.99 and end date 2025-11-30. The
      test of this line expects at least four. */
  lemma SampleOffers(newId: nat -> string)
    ensures var r := ParseBulkOffers(Sample, newId);
            && |r| == 3
            && SampleOffer(r[0], Flat, 3.0, newId(0))
            && SampleOffer(r[1], Percent, 10.0, newId(1))
            && SampleOffer(r[2], Rebate, 1.25, newId(2))
  {
    SampleIsOneLine(Sample, newId);
    SampleLineParts(Sample, newId);
    SampleEmit(SampleHeader, SampleAcc, newId);
  }

  /** The test's count assertion, `offers.length >= 4`, does not hold for the
      sample line: the code gives one offer per discount, three in all. */
  lemma SampleFailsTestBound(newId: nat -> string)
    ensures |ParseBulkOffers(Sample, newId)| < 4
  {
    SampleOffers(newId);
  }
}
