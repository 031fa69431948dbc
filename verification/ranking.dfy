/** The top actions of the dashboard (src/App.tsx:54-57): every staple's
    evaluations against all offers, sorted by value score from the highest
    down, the first five kept. The sort is stable, as JavaScript's
    `Array.prototype.sort` is. */
module Ranking {
  import opened Types
  import Scoring

  /** How many actions the dashboard shows. */
  const TopCount: nat := 5

  predicate Descending(es: seq<DealEvaluation>) {
    forall i, j :: 0 <= i < j < |es| ==> es[i].valueScore >= es[j].valueScore
  }

  /** `e` placed after every evaluation scoring strictly more and before
      the rest, so that among equal scores it comes first. */
  function Insert(e: DealEvaluation, es: seq<DealEvaluation>): (r: seq<DealEvaluation>)
    ensures multiset(r) == multiset(es) + multiset{e}
    ensures |r| == |es| + 1
  {
    if es == [] || es[0].valueScore <= e.valueScore then [e] + es
    else
      assert es == [es[0]] + es[1..];
      [es[0]] + Insert(e, es[1..])
  }

  lemma {:induction false} InsertDescending(e: DealEvaluation, es: seq<DealEvaluation>)
    requires Descending(es)
    ensures Descending(Insert(e, es))
  {
    if es != [] && es[0].valueScore > e.valueScore {
      var rest := Insert(e, es[1..]);
      InsertDescending(e, es[1..]);
      assert forall x :: x in es[1..] ==> x.valueScore <= es[0].valueScore by {
        forall x | x in es[1..]
          ensures x.valueScore <= es[0].valueScore
        {
          var j :| 0 <= j < |es[1..]| && es[1..][j] == x;
          assert es[j + 1] == x;
        }
      }
      InsertBound(e, es[1..], es[0].valueScore);
      ConsDescending(es[0], rest);
    }
  }

  /** Inserting keeps every score at or below a common bound. */
  lemma InsertBound(e: DealEvaluation, es: seq<DealEvaluation>, b: real)
    requires e.valueScore <= b
    requires forall x :: x in es ==> x.valueScore <= b
    ensures forall x :: x in Insert(e, es) ==> x.valueScore <= b
  {
    forall x | x in Insert(e, es)
      ensures x.valueScore <= b
    {
      assert x in multiset(Insert(e, es));
      if x != e {
        assert x in multiset(es);
      }
    }
  }

  /** A descending sequence headed by a score at least as high as all of
      it is descending. */
  lemma ConsDescending(x: DealEvaluation, rest: seq<DealEvaluation>)
    requires Descending(rest)
    requires forall y :: y in rest ==> y.valueScore <= x.valueScore
    ensures Descending([x] + rest)
  {
    var r := [x] + rest;
    forall i, j | 0 <= i < j < |r|
      ensures r[i].valueScore >= r[j].valueScore
    {
      assert r[j] == rest[j - 1];
      if i == 0 {
        assert rest[j - 1] in rest;
      } else {
        assert r[i] == rest[i - 1];
      }
    }
  }

  /** Insertion sort by value score, highest first, stable. */
  function SortByScore(es: seq<DealEvaluation>): (r: seq<DealEvaluation>)
    ensures multiset(r) == multiset(es)
    ensures |r| == |es|
  {
    if es == [] then []
    else
      assert es == [es[0]] + es[1..];
      Insert(es[0], SortByScore(es[1..]))
  }

  lemma {:induction false} SortDescending(es: seq<DealEvaluation>)
    ensures Descending(SortByScore(es))
  {
    if es != [] {
      SortDescending(es[1..]);
      InsertDescending(es[0], SortByScore(es[1..]));
    }
  }

  /** Every offer relevant to a staple can be scored for it. */
  predicate AllScorable(staples: seq<Staple>, offers: seq<Offer>, settings: Settings) {
    forall s, o :: s in staples && o in offers && Scoring.Relevant(s, o) ==> Scoring.Scorable(s, o, settings)
  }

  /** `staples.flatMap(staple => evaluateStapleOffers(staple, offers, settings))`:
      exactly the evaluations of the relevant pairs, each computed by
      `computeEvaluation`, and every relevant pair evaluated. */
  function AllEvaluations(staples: seq<Staple>, offers: seq<Offer>, settings: Settings): (r: seq<DealEvaluation>)
    requires AllScorable(staples, offers, settings)
    ensures forall e :: e in r ==> e.staple in staples && e.offer in offers && Scoring.Relevant(e.staple, e.offer)
    ensures forall e :: e in r ==>
              Scoring.Scorable(e.staple, e.offer, settings) && e == Scoring.ComputeEvaluation(e.staple, e.offer, settings)
    ensures forall s, o :: s in staples && o in offers && Scoring.Relevant(s, o) ==>
              Scoring.ComputeEvaluation(s, o, settings) in r
  {
    if staples == [] then []
    else
      var first := Scoring.EvaluateStapleOffers(staples[0], offers, settings);
      StapleEvaluations(staples[0], offers, settings);
      var rest := AllEvaluations(staples[1..], offers, settings);
      assert forall s :: s in staples ==> s == staples[0] || s in staples[1..];
      first + rest
  }

  /** One staple's evaluations are those of its relevant offers, each the
      `computeEvaluation` of its pair, and every relevant offer is
      evaluated. */
  lemma StapleEvaluations(s: Staple, offers: seq<Offer>, settings: Settings)
    requires forall o :: o in offers && Scoring.Relevant(s, o) ==> Scoring.Scorable(s, o, settings)
    ensures var r := Scoring.EvaluateStapleOffers(s, offers, settings);
            && (forall e :: e in r ==> e.staple == s && e.offer in offers && Scoring.Relevant(s, e.offer)
                                       && Scoring.Scorable(s, e.offer, settings)
                                       && e == Scoring.ComputeEvaluation(s, e.offer, settings))
            && (forall o :: o in offers && Scoring.Relevant(s, o) ==> Scoring.ComputeEvaluation(s, o, settings) in r)
  {
    StapleEvaluationsSound(s, offers, settings);
    StapleEvaluationsComplete(s, offers, settings);
  }

  lemma StapleEvaluationsSound(s: Staple, offers: seq<Offer>, settings: Settings)
    requires forall o :: o in offers && Scoring.Relevant(s, o) ==> Scoring.Scorable(s, o, settings)
    ensures forall e :: e in Scoring.EvaluateStapleOffers(s, offers, settings) ==>
              e.staple == s && e.offer in offers && Scoring.Relevant(s, e.offer)
  {
    var r := Scoring.EvaluateStapleOffers(s, offers, settings);
    var rel := Scoring.RelevantOffers(s, offers);
    forall e | e in r
      ensures e.staple == s && e.offer in offers && Scoring.Relevant(s, e.offer)
    {
      var i :| 0 <= i < |r| && r[i] == e;
      assert rel[i] in rel;
    }
  }

  lemma StapleEvaluationsComplete(s: Staple, offers: seq<Offer>, settings: Settings)
    requires forall o :: o in offers && Scoring.Relevant(s, o) ==> Scoring.Scorable(s, o, settings)
    ensures forall o :: o in offers && Scoring.Relevant(s, o) ==>
              Scoring.ComputeEvaluation(s, o, settings) in Scoring.EvaluateStapleOffers(s, offers, settings)
  {
    var r := Scoring.EvaluateStapleOffers(s, offers, settings);
    var rel := Scoring.RelevantOffers(s, offers);
    forall o | o in offers && Scoring.Relevant(s, o)
      ensures Scoring.ComputeEvaluation(s, o, settings) in r
    {
      var i :| 0 <= i < |rel| && rel[i] == o;
      assert r[i].offer == o;
    }
  }

  /** Evaluations come staple by staple: those of a run of staples are
      those of its first part followed by those of the rest. */
  lemma {:induction false} AllEvaluationsConcat(a: seq<Staple>, b: seq<Staple>, offers: seq<Offer>, settings: Settings)
    requires AllScorable(a + b, offers, settings)
    ensures AllScorable(a, offers, settings) && AllScorable(b, offers, settings)
    ensures AllEvaluations(a + b, offers, settings) == AllEvaluations(a, offers, settings) + AllEvaluations(b, offers, settings)
  {
    if a != [] {
      assert (a + b)[0] == a[0];
      assert (a + b)[1..] == a[1..] + b;
      AllEvaluationsConcat(a[1..], b, offers, settings);
    } else {
      assert a + b == b;
    }
  }

  /** The first five of `evals` by value score: no more than five (fewer
      only when there are fewer), highest first, drawn from `evals`, and
      none left out scores above one kept. */
  function TopOf(evals: seq<DealEvaluation>): (r: seq<DealEvaluation>)
    ensures |r| == (if |evals| < TopCount then |evals| else TopCount)
    ensures Descending(r)
    ensures multiset(r) <= multiset(evals)
    ensures forall e, i :: e in multiset(evals) - multiset(r) && 0 <= i < |r| ==> e.valueScore <= r[i].valueScore
  {
    var sorted := SortByScore(evals);
    var n := if |sorted| < TopCount then |sorted| else TopCount;
    SortDescending(evals);
    TakeTop(sorted, n);
    sorted[..n]
  }

  /** `topActions` of the dashboard: the best five of all evaluations, each
      pairing a listed staple with a listed offer relevant to it. */
  function TopActions(staples: seq<Staple>, offers: seq<Offer>, settings: Settings): (r: seq<DealEvaluation>)
    requires AllScorable(staples, offers, settings)
    ensures var evals := AllEvaluations(staples, offers, settings);
            && |r| == (if |evals| < TopCount then |evals| else TopCount)
            && Descending(r)
            && multiset(r) <= multiset(evals)
            && (forall e, i :: e in multiset(evals) - multiset(r) && 0 <= i < |r| ==> e.valueScore <= r[i].valueScore)
    ensures forall e :: e in r ==> e.staple in staples && e.offer in offers && Scoring.Relevant(e.staple, e.offer)
  {
    var evals := AllEvaluations(staples, offers, settings);
    var r := TopOf(evals);
    assert forall e :: e in r ==> e in evals by {
      forall e | e in r
        ensures e in evals
      {
        assert e in multiset(r);
      }
    }
    r
  }

  /** A prefix of a descending sequence is descending, is part of it, and
      outranks everything after it. */
  lemma TakeTop(sorted: seq<DealEvaluation>, n: nat)
    requires Descending(sorted) && n <= |sorted|
    ensures Descending(sorted[..n])
    ensures multiset(sorted[..n]) <= multiset(sorted)
    ensures forall e, i :: e in multiset(sorted) - multiset(sorted[..n]) && 0 <= i < n ==>
              e.valueScore <= sorted[i].valueScore
  {
    assert sorted == sorted[..n] + sorted[n..];
    assert multiset(sorted) - multiset(sorted[..n]) == multiset(sorted[n..]);
    forall e, i | e in multiset(sorted) - multiset(sorted[..n]) && 0 <= i < n
      ensures e.valueScore <= sorted[i].valueScore
    {
      assert e in sorted[n..];
      var j :| 0 <= j < |sorted[n..]| && sorted[n..][j] == e;
      assert sorted[n + j] == e;
    }
    forall i, j | 0 <= i < j < n
      ensures sorted[..n][i].valueScore >= sorted[..n][j].valueScore
    {
    }
  }
}
