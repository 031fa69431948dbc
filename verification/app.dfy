/** The staple bookkeeping of the application shell (src/App.tsx): a receipt
    updates the stock, last purchase date, lowest price and consumption
    interval of each staple it names; staples are upserted by id; offers and
    staples are deleted by id.

    `addReceipt` reads each line's staple from the list as it was before the
    batch while applying the updates one after another, so a staple named
    twice in one receipt keeps only the last line's update. `AddReceipt`
    models that; `AddReceiptSequential` reads the current list instead. */
module App {
  import opened Types
  import Keyed
  import Utils
  import Storage

  /** The staple a line names: `!line.matchedStapleId` treats an empty id as
      no match. */
  function MatchedId(l: ReceiptLine): (r: Option<string>)
    ensures r != Some("")
    ensures r.Some? ==> r == l.matchedStapleId
    ensures l.matchedStapleId.Some? && l.matchedStapleId.value != "" ==> r.Some?
  {
    if l.matchedStapleId.Some? && l.matchedStapleId.value != "" then l.matchedStapleId else None
  }

  /** The staple a line updates, looked up in `staples` (`find`). */
  function NamedStaple(staples: seq<Staple>, l: ReceiptLine): (r: Option<Staple>)
    ensures r.Some? ==> MatchedId(l) == Some(r.value.id) && r.value in staples
    ensures MatchedId(l).Some? && Keyed.Has(staples, MatchedId(l).value, Storage.StapleId) ==> r.Some?
  {
    match MatchedId(l)
    case None => None
    case Some(k) => Keyed.Lookup(staples, k, Storage.StapleId)
  }

  /** `upsertStaple`. */
  function UpsertStaple(staples: seq<Staple>, s: Staple): (r: seq<Staple>)
    ensures |staples| <= |r| <= |staples| + 1
    ensures Keyed.Lookup(r, s.id, Storage.StapleId) == Some(s)
    ensures forall i :: 0 <= i < |staples| ==> r[i].id == staples[i].id
    ensures forall i :: 0 <= i < |staples| && staples[i].id != s.id ==> r[i] == staples[i]
    ensures Keyed.Has(staples, s.id, Storage.StapleId) ==> |r| == |staples|
  {
    Keyed.Upsert(staples, s, Storage.StapleId)
  }

  /** Days between the previous purchase and this one, at least one. */
  function DiffDays(previous: Day, current: Day): (r: real)
    ensures r >= 1.0
    ensures current - previous >= 1 ==> r == (current - previous) as real
  {
    Max(1.0, (current - previous) as real)
  }

  /** The staple after one line naming it: the units add up, the date moves
      to the line's, the lowest price takes the line's price into account,
      and, when there was an earlier purchase, the interval moves towards
      the days per unit of this purchase. */
  function ApplyLine(s: Staple, l: ReceiptLine): (r: Staple)
    requires s.lastPurchaseDate.Some? ==> l.qty != 0.0
    ensures r.id == s.id && r.name == s.name && r.tags == s.tags
    ensures r.avgPrice == s.avgPrice && r.priorityScore == s.priorityScore
    ensures r.unitsOnHand == Some(s.unitsOnHand.GetOr(0.0) + l.qty)
    ensures r.lastPurchaseDate == Some(l.date)
    ensures r.lastLowPrice.Some? && r.lastLowPrice.value <= l.price
    ensures s.lastLowPrice.Some? ==> r.lastLowPrice.value <= s.lastLowPrice.value
    ensures r.lastLowPrice.value == l.price || r.lastLowPrice == s.lastLowPrice
    ensures s.lastPurchaseDate.None? ==> r.consumptionIntervalDays == s.consumptionIntervalDays
    ensures s.lastPurchaseDate.Some? ==>
              r.consumptionIntervalDays ==
                Some(Utils.Ema(s.consumptionIntervalDays, DiffDays(s.lastPurchaseDate.value, l.date) / l.qty, 0.4))
  {
    var newUnits := s.unitsOnHand.GetOr(0.0) + l.qty;
    var lastLow := s.lastLowPrice.GetOr(l.price);
    var updatedLow := Min(lastLow, l.price);
    var interval :=
      if s.lastPurchaseDate.Some? then
        var sample := DiffDays(s.lastPurchaseDate.value, l.date) / l.qty;
        if s.consumptionIntervalDays.None? then Some(sample)
        else Some(0.4 * sample + 0.6 * s.consumptionIntervalDays.value)
      else s.consumptionIntervalDays;
    s.(unitsOnHand := Some(newUnits), lastPurchaseDate := Some(l.date),
       lastLowPrice := Some(updatedLow), consumptionIntervalDays := interval)
  }

  /** With an earlier purchase and an earlier estimate, the new interval lies
      between that estimate and the days per unit of this purchase. */
  lemma IntervalBetween(s: Staple, l: ReceiptLine)
    requires s.lastPurchaseDate.Some? && s.consumptionIntervalDays.Some? && l.qty != 0.0
    ensures var sample := DiffDays(s.lastPurchaseDate.value, l.date) / l.qty;
            var v := ApplyLine(s, l).consumptionIntervalDays.value;
            Min(s.consumptionIntervalDays.value, sample) <= v <= Max(s.consumptionIntervalDays.value, sample)
  {
  }

  /** Each line naming a staple has a non-zero quantity, so the days per
      unit are defined. */
  predicate Divisible(lines: seq<ReceiptLine>) {
    forall i :: 0 <= i < |lines| && MatchedId(lines[i]).Some? ==> lines[i].qty != 0.0
  }

  /** No line of the batch names staple `k`. */
  predicate Unnamed(lines: seq<ReceiptLine>, k: string) {
    forall j :: 0 <= j < |lines| ==> MatchedId(lines[j]) != Some(k)
  }

  /** One line of the batch: the staple is read from `snapshot` and the
      update is upserted into `cur`. */
  function Step(snapshot: seq<Staple>, cur: seq<Staple>, l: ReceiptLine): (r: seq<Staple>)
    requires MatchedId(l).Some? ==> l.qty != 0.0
    ensures NamedStaple(snapshot, l).None? ==> r == cur
    ensures NamedStaple(snapshot, l).Some? ==>
              var s := NamedStaple(snapshot, l).value;
              Keyed.Lookup(r, s.id, Storage.StapleId) == Some(ApplyLine(s, l))
    ensures |cur| <= |r| <= |cur| + 1
    ensures forall i :: 0 <= i < |cur| ==> r[i].id == cur[i].id
    ensures forall i :: 0 <= i < |cur| && MatchedId(l) != Some(cur[i].id) ==> r[i] == cur[i]
  {
    match NamedStaple(snapshot, l)
    case None => cur
    case Some(s) => UpsertStaple(cur, ApplyLine(s, l))
  }

  /** The `forEach` of `addReceipt`: every line reads the pre-batch list. */
  function StaleFold(snapshot: seq<Staple>, cur: seq<Staple>, lines: seq<ReceiptLine>): (r: seq<Staple>)
    requires Divisible(lines)
    ensures |cur| <= |r| <= |cur| + |lines|
    ensures forall i :: 0 <= i < |cur| ==> r[i].id == cur[i].id
    ensures forall i :: 0 <= i < |cur| && Unnamed(lines, cur[i].id) ==> r[i] == cur[i]
    decreases |lines|
  {
    if lines == [] then cur
    else StaleFold(snapshot, Step(snapshot, cur, lines[0]), lines[1..])
  }

  /** The same loop with each line reading the list as updated so far. */
  function SequentialFold(cur: seq<Staple>, lines: seq<ReceiptLine>): (r: seq<Staple>)
    requires Divisible(lines)
    ensures |cur| <= |r| <= |cur| + |lines|
    ensures forall i :: 0 <= i < |cur| ==> r[i].id == cur[i].id
    ensures forall i :: 0 <= i < |cur| && Unnamed(lines, cur[i].id) ==> r[i] == cur[i]
    decreases |lines|
  {
    if lines == [] then cur
    else SequentialFold(Step(cur, cur, lines[0]), lines[1..])
  }

  /** `addReceipt` as written: all lines are appended to the receipts, and
      each line naming a known staple upserts the update of that staple as
      it was before the batch. */
  function AddReceipt(d: AppData, lines: seq<ReceiptLine>): (r: AppData)
    requires Divisible(lines)
    ensures r.receipts == d.receipts + lines
    ensures r.offers == d.offers && r.resaleInventory == d.resaleInventory && r.settings == d.settings
    ensures |r.staples| == |d.staples|
    ensures forall i :: 0 <= i < |d.staples| ==> r.staples[i].id == d.staples[i].id
  {
    StaleFoldKeys(d.staples, d.staples, lines);
    d.(receipts := d.receipts + lines, staples := StaleFold(d.staples, d.staples, lines))
  }

  /** `addReceipt` with each line reading the current list. */
  function AddReceiptSequential(d: AppData, lines: seq<ReceiptLine>): (r: AppData)
    requires Divisible(lines)
    ensures r.receipts == d.receipts + lines
    ensures r.offers == d.offers && r.resaleInventory == d.resaleInventory && r.settings == d.settings
    ensures |r.staples| == |d.staples|
    ensures forall i :: 0 <= i < |d.staples| ==> r.staples[i].id == d.staples[i].id
  {
    SequentialFoldKeys(d.staples, lines);
    d.(receipts := d.receipts + lines, staples := SequentialFold(d.staples, lines))
  }

  /** Same length and the same id at every position. */
  predicate SameIds(xs: seq<Staple>, ys: seq<Staple>) {
    |xs| == |ys| && forall i :: 0 <= i < |xs| ==> xs[i].id == ys[i].id
  }

  /** Updating a staple found in a list with the same ids as `cur` keeps
      the ids of `cur`. */
  lemma StepKeys(snapshot: seq<Staple>, cur: seq<Staple>, l: ReceiptLine)
    requires SameIds(snapshot, cur)
    requires MatchedId(l).Some? ==> l.qty != 0.0
    ensures SameIds(cur, Step(snapshot, cur, l))
  {
    match NamedStaple(snapshot, l)
    case None =>
    case Some(s) =>
      var k := s.id;
      var i :| 0 <= i < |snapshot| && snapshot[i] == s;
      assert cur[i].id == k;
      assert Keyed.Has(cur, ApplyLine(s, l).id, Storage.StapleId);
  }

  lemma {:induction false} StaleFoldKeys(snapshot: seq<Staple>, cur: seq<Staple>, lines: seq<ReceiptLine>)
    requires Divisible(lines)
    requires SameIds(snapshot, cur)
    ensures SameIds(cur, StaleFold(snapshot, cur, lines))
    decreases |lines|
  {
    if lines != [] {
      var next := Step(snapshot, cur, lines[0]);
      StepKeys(snapshot, cur, lines[0]);
      StaleFoldKeys(snapshot, next, lines[1..]);
    }
  }

  lemma {:induction false} SequentialFoldKeys(cur: seq<Staple>, lines: seq<ReceiptLine>)
    requires Divisible(lines)
    ensures SameIds(cur, SequentialFold(cur, lines))
    decreases |lines|
  {
    if lines != [] {
      var next := Step(cur, cur, lines[0]);
      StepKeys(cur, cur, lines[0]);
      SequentialFoldKeys(next, lines[1..]);
    }
  }

  /** No two lines name the same staple. */
  predicate DistinctMatches(lines: seq<ReceiptLine>) {
    forall i, j :: 0 <= i < j < |lines| && MatchedId(lines[i]).Some? ==> MatchedId(lines[i]) != MatchedId(lines[j])
  }

  /** While the staples the remaining lines name are still as in the
      snapshot, reading the snapshot and reading the current list agree. */
  lemma {:induction false} StaleIsSequentialFrom(snapshot: seq<Staple>, cur: seq<Staple>, lines: seq<ReceiptLine>)
    requires Divisible(lines) && DistinctMatches(lines)
    requires forall i :: 0 <= i < |lines| && MatchedId(lines[i]).Some? ==>
               NamedStaple(cur, lines[i]) == NamedStaple(snapshot, lines[i])
    ensures StaleFold(snapshot, cur, lines) == SequentialFold(cur, lines)
    decreases |lines|
  {
    if lines != [] {
      var l := lines[0];
      var next := Step(snapshot, cur, l);
      assert Step(cur, cur, l) == next;
      var rest := lines[1..];
      forall i | 0 <= i < |rest| && MatchedId(rest[i]).Some?
        ensures NamedStaple(next, rest[i]) == NamedStaple(snapshot, rest[i])
      {
        assert rest[i] == lines[i + 1];
        match NamedStaple(snapshot, l)
        case None =>
        case Some(s) =>
          assert MatchedId(rest[i]) != MatchedId(l);
          Keyed.UpsertLookupOther(cur, ApplyLine(s, l), MatchedId(rest[i]).value, Storage.StapleId);
      }
      StaleIsSequentialFrom(snapshot, next, rest);
    }
  }

  /** When no staple is named twice, `addReceipt` as written agrees with the
      sequential reading. */
  lemma StaleIsSequential(d: AppData, lines: seq<ReceiptLine>)
    requires Divisible(lines) && DistinctMatches(lines)
    ensures AddReceipt(d, lines) == AddReceiptSequential(d, lines)
  {
    StaleIsSequentialFrom(d.staples, d.staples, lines);
  }

  /** The last line naming staple `k`. */
  function LastMatch(lines: seq<ReceiptLine>, k: string): (r: Option<ReceiptLine>)
    ensures r.Some? ==> r.value in lines && MatchedId(r.value) == Some(k)
    ensures r.None? ==> forall i :: 0 <= i < |lines| ==> MatchedId(lines[i]) != Some(k)
  {
    if lines == [] then None
    else
      var rest := LastMatch(lines[1..], k);
      if rest.Some? then rest
      else if MatchedId(lines[0]) == Some(k) then Some(lines[0])
      else
        assert forall i :: 1 <= i < |lines| ==> lines[i] == lines[1..][i - 1];
        None
  }

  /** As written, the staple `k` ends up as the pre-batch staple updated by
      the last line naming it alone; earlier lines naming it are lost. */
  lemma {:induction false} StaleLastWins(snapshot: seq<Staple>, cur: seq<Staple>, lines: seq<ReceiptLine>, k: string)
    requires Divisible(lines)
    ensures var r := Keyed.Lookup(StaleFold(snapshot, cur, lines), k, Storage.StapleId);
            var s0 := Keyed.Lookup(snapshot, k, Storage.StapleId);
            var last := LastMatch(lines, k);
            if s0.Some? && last.Some? then last.value.qty != 0.0 && r == Some(ApplyLine(s0.value, last.value))
            else r == Keyed.Lookup(cur, k, Storage.StapleId)
    decreases |lines|
  {
    if lines != [] {
      var l := lines[0];
      var next := Step(snapshot, cur, l);
      assert StaleFold(snapshot, cur, lines) == StaleFold(snapshot, next, lines[1..]);
      StaleLastWins(snapshot, next, lines[1..], k);
      if LastMatch(lines[1..], k).None? {
        StepLookup(snapshot, cur, l, k);
      }
    }
  }

  /** One step replaces staple `k` by the update of its snapshot version
      when the line names it, and leaves it alone otherwise. */
  lemma StepLookup(snapshot: seq<Staple>, cur: seq<Staple>, l: ReceiptLine, k: string)
    requires MatchedId(l).Some? ==> l.qty != 0.0
    ensures var s0 := Keyed.Lookup(snapshot, k, Storage.StapleId);
            Keyed.Lookup(Step(snapshot, cur, l), k, Storage.StapleId) ==
              if s0.Some? && MatchedId(l) == Some(k) then Some(ApplyLine(s0.value, l))
              else Keyed.Lookup(cur, k, Storage.StapleId)
  {
    match NamedStaple(snapshot, l)
    case None =>
    case Some(s) =>
      if s.id != k {
        Keyed.UpsertLookupOther(cur, ApplyLine(s, l), k, Storage.StapleId);
      }
  }

  /** The quantities of the lines naming staple `k`. */
  function QtyFor(lines: seq<ReceiptLine>, k: string): real {
    if lines == [] then 0.0
    else (if MatchedId(lines[0]) == Some(k) then lines[0].qty else 0.0) + QtyFor(lines[1..], k)
  }

  /** Read sequentially, a staple's stock grows by the quantity of every
      line naming it. */
  lemma {:induction false} SequentialUnitsAccumulate(cur: seq<Staple>, lines: seq<ReceiptLine>, k: string)
    requires Divisible(lines)
    requires Keyed.Has(cur, k, Storage.StapleId)
    ensures var before := Keyed.Lookup(cur, k, Storage.StapleId).value;
            var after := Keyed.Lookup(SequentialFold(cur, lines), k, Storage.StapleId);
            after.Some? && after.value.unitsOnHand.GetOr(0.0) == before.unitsOnHand.GetOr(0.0) + QtyFor(lines, k)
    decreases |lines|
  {
    if lines != [] {
      var l := lines[0];
      StepUnits(cur, l, k);
      SequentialUnitsAccumulate(Step(cur, cur, l), lines[1..], k);
    }
  }

  /** One step adds the line's quantity to the staple it names and leaves
      the others' stock alone. */
  lemma StepUnits(cur: seq<Staple>, l: ReceiptLine, k: string)
    requires MatchedId(l).Some? ==> l.qty != 0.0
    requires Keyed.Has(cur, k, Storage.StapleId)
    ensures var next := Keyed.Lookup(Step(cur, cur, l), k, Storage.StapleId);
            next.Some? && next.value.unitsOnHand.GetOr(0.0) ==
              Keyed.Lookup(cur, k, Storage.StapleId).value.unitsOnHand.GetOr(0.0)
              + (if MatchedId(l) == Some(k) then l.qty else 0.0)
  {
    match NamedStaple(cur, l)
    case None =>
      assert MatchedId(l) != Some(k);
    case Some(s) =>
      if s.id != k {
        Keyed.UpsertLookupOther(cur, ApplyLine(s, l), k, Storage.StapleId);
      }
  }

  /** A staple holding nothing and a receipt naming it on two lines of one
      unit each: as written the stock ends at one unit, sequentially at two. */
  const Soap := Staple("s", "Soap", [], None, None, None, None, Some(0.0), None)
  const SoapLine := ReceiptLine("r", 0, Target, "Soap", 2.0, 1.0, Some("s"))

  lemma StaleLosesUnits()
    ensures var d := AppData([], [Soap], [], [], Storage.DefaultSettings());
            && AddReceipt(d, [SoapLine, SoapLine]).staples[0].unitsOnHand == Some(1.0)
            && AddReceiptSequential(d, [SoapLine, SoapLine]).staples[0].unitsOnHand == Some(2.0)
  {
    var d := AppData([], [Soap], [], [], Storage.DefaultSettings());
    var once := ApplyLine(Soap, SoapLine);
    assert NamedStaple([Soap], SoapLine) == Some(Soap) by {
      assert Keyed.IndexOf([Soap], "s", Storage.StapleId) == Some(0);
    }
    assert Step([Soap], [Soap], SoapLine) == [once] by {
      assert Keyed.IndexOf([Soap], once.id, Storage.StapleId) == Some(0);
    }
    assert Step([Soap], [once], SoapLine) == [once] by {
      assert Keyed.IndexOf([once], once.id, Storage.StapleId) == Some(0);
    }
    assert [SoapLine, SoapLine][1..] == [SoapLine];
    var twice := ApplyLine(once, SoapLine);
    assert NamedStaple([once], SoapLine) == Some(once) by {
      assert Keyed.IndexOf([once], "s", Storage.StapleId) == Some(0);
    }
    assert Step([once], [once], SoapLine) == [twice] by {
      assert Keyed.IndexOf([once], twice.id, Storage.StapleId) == Some(0);
    }
    assert StaleFold([Soap], [Soap], [SoapLine, SoapLine]) == [once] by {
      assert StaleFold([Soap], [Soap], [SoapLine, SoapLine]) == StaleFold([Soap], [once], [SoapLine]);
      assert StaleFold([Soap], [once], [SoapLine]) == StaleFold([Soap], [once], []);
    }
    assert SequentialFold([Soap], [SoapLine, SoapLine]) == [twice] by {
      assert SequentialFold([Soap], [SoapLine, SoapLine]) == SequentialFold([once], [SoapLine]);
      assert SequentialFold([once], [SoapLine]) == SequentialFold([twice], []);
    }
  }

  /** `deleteOffer`: the offers without the given id, in order; nothing
      else changes. */
  function DeleteOffer(d: AppData, id: string): (r: AppData)
    ensures forall o :: o in r.offers <==> o in d.offers && o.id != id
    ensures |r.offers| <= |d.offers|
    ensures !Keyed.Has(d.offers, id, Storage.OfferId) ==> r == d
    ensures r.staples == d.staples && r.receipts == d.receipts && r.resaleInventory == d.resaleInventory
    ensures r.settings == d.settings
  {
    d.(offers := Keyed.RemoveKey(d.offers, id, Storage.OfferId))
  }

  /** `deleteStaple`: the staples without the given id, in order; nothing
      else changes. */
  function DeleteStaple(d: AppData, id: string): (r: AppData)
    ensures forall s :: s in r.staples <==> s in d.staples && s.id != id
    ensures |r.staples| <= |d.staples|
    ensures !Keyed.Has(d.staples, id, Storage.StapleId) ==> r == d
    ensures r.offers == d.offers && r.receipts == d.receipts && r.resaleInventory == d.resaleInventory
    ensures r.settings == d.settings
  {
    d.(staples := Keyed.RemoveKey(d.staples, id, Storage.StapleId))
  }
}
