/** The scoring example of tests/scoring.test.ts: a "Tide Pods" staple with
    nothing on hand and two Tide offers on a 14.99 base, scored under the
    default settings. */
module ScoringSample {
  import opened Types
  import opened Scoring
  import Storage

  const Pods := Staple("s1", "Tide Pods", ["tide", "pods"], None, Some(14.0), None, Some(30.0), Some(0.0), None)

  const FlatOffer := Offer("o1", Target, "Tide 64-load $14.99 -$3", ["tide"], Flat, 3.0, Some(14.99),
                           None, None, 0.6, None, None)

  const PercentOffer := Offer("o2", Target, "Tide 10% Circle", ["tide"], Percent, 10.0, Some(14.99),
                              None, None, 0.6, None, None)

  lemma PodsRelevant(o: Offer)
    requires o.productTags == ["tide"]
    ensures Relevant(Pods, o)
  {
    assert TagConcerns(Pods, o.productTags[0]);
  }

  /** Both offers concern the staple, in their given order. */
  lemma SampleRelevant()
    ensures RelevantOffers(Pods, [FlatOffer, PercentOffer]) == [FlatOffer, PercentOffer]
  {
    PodsRelevant(FlatOffer);
    PodsRelevant(PercentOffer);
  }

  /** Flat 3 off 14.99 saves 3 and costs 11.99; the staple is out of stock,
      so the call is BUY. */
  lemma SampleFlat()
    ensures Scorable(Pods, FlatOffer, Storage.DefaultSettings())
    ensures var e := ComputeEvaluation(Pods, FlatOffer, Storage.DefaultSettings());
            e.rawSavings == 3.0 && e.netEffectiveCost == 11.99 && e.recommendation == Buy
  {
    var settings := Storage.DefaultSettings();
    assert Urgent(Pods, settings);
  }

  /** Ten percent of 14.99 saves 1.499; low stock again makes it a BUY. */
  lemma SamplePercent()
    ensures Scorable(Pods, PercentOffer, Storage.DefaultSettings())
    ensures var e := ComputeEvaluation(Pods, PercentOffer, Storage.DefaultSettings());
            e.rawSavings == 1.499 && e.recommendation == Buy
  {
    var settings := Storage.DefaultSettings();
    assert Urgent(Pods, settings);
  }

  /** The test's expectations: two evaluations, raw savings 3 and 1.499,
      and at least one BUY. */
  lemma SampleEvaluations()
    ensures forall o :: o in [FlatOffer, PercentOffer] ==> Scorable(Pods, o, Storage.DefaultSettings())
    ensures var r := EvaluateStapleOffers(Pods, [FlatOffer, PercentOffer], Storage.DefaultSettings());
            && |r| == 2
            && r[0].offer.id == "o1" && r[0].rawSavings == 3.0 && r[0].netEffectiveCost == 11.99
            && r[1].offer.id == "o2" && r[1].rawSavings == 1.499
            && r[0].recommendation == Buy && r[1].recommendation == Buy
  {
    SampleFlat();
    SamplePercent();
    SampleShape();
  }

  lemma SampleShape()
    requires forall o :: o in [FlatOffer, PercentOffer] ==> Scorable(Pods, o, Storage.DefaultSettings())
    ensures var settings := Storage.DefaultSettings();
            var r := EvaluateStapleOffers(Pods, [FlatOffer, PercentOffer], settings);
            |r| == 2 && r[0] == ComputeEvaluation(Pods, FlatOffer, settings)
            && r[1] == ComputeEvaluation(Pods, PercentOffer, settings)
  {
    SampleRelevant();
  }
}
