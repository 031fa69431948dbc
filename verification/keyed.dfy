/** Sequences of records identified by a string key: the `findIndex`/`find`
    lookups, the replace-or-append update of `upsertStaple`, the
    `Map`-based `mergeById` of `importData`, and delete-by-id
    (src/App.tsx, src/logic/storage.ts). A JavaScript `Map` keeps its keys
    in first-insertion order and `set` on a present key replaces the value
    in place, which is exactly `Upsert` below. */
module Keyed {
  import opened Types

  /** Some record holds key `k`. */
  predicate Has<T>(xs: seq<T>, k: string, key: T -> string) {
    exists i :: 0 <= i < |xs| && key(xs[i]) == k
  }

  predicate UniqueKeys<T>(xs: seq<T>, key: T -> string) {
    forall i, j :: 0 <= i < j < |xs| ==> key(xs[i]) != key(xs[j])
  }

  /** `findIndex(x => key(x) === k)`: the first position holding key `k`. */
  function IndexOf<T>(xs: seq<T>, k: string, key: T -> string): (r: Option<nat>)
    ensures r.Some? <==> Has(xs, k, key)
    ensures r.Some? ==> r.value < |xs| && key(xs[r.value]) == k
    ensures r.Some? ==> forall j :: 0 <= j < r.value ==> key(xs[j]) != k
  {
    if xs == [] then None
    else if key(xs[0]) == k then Some(0)
    else
      match IndexOf(xs[1..], k, key)
      case None =>
        assert forall j :: 1 <= j < |xs| ==> xs[j] == xs[1..][j - 1];
        None
      case Some(i) => Some(i + 1)
  }

  /** `find(x => key(x) === k)`: the first record holding key `k`. */
  function Lookup<T>(xs: seq<T>, k: string, key: T -> string): (r: Option<T>)
    ensures r.Some? <==> Has(xs, k, key)
    ensures r.Some? ==> key(r.value) == k && r.value in xs
  {
    match IndexOf(xs, k, key)
    case Some(i) => Some(xs[i])
    case None => None
  }

  /** In a key-unique sequence the lookup finds the one record with that key. */
  lemma LookupUnique<T>(xs: seq<T>, i: nat, key: T -> string)
    requires UniqueKeys(xs, key) && i < |xs|
    ensures IndexOf(xs, key(xs[i]), key) == Some(i)
    ensures Lookup(xs, key(xs[i]), key) == Some(xs[i])
  {
  }

  /** Replace the first record with the same key in place, or append. The
      list grows by at most one, and only when the key is new; the record
      becomes the one found under its key; every other key is found at the
      same position as before; the keys already present keep their
      positions; key uniqueness is preserved. */
  function Upsert<T>(xs: seq<T>, x: T, key: T -> string): (r: seq<T>)
    ensures |r| == (if Has(xs, key(x), key) then |xs| else |xs| + 1)
    ensures Lookup(r, key(x), key) == Some(x)
    ensures forall k :: k != key(x) ==> IndexOf(r, k, key) == IndexOf(xs, k, key)
    ensures forall i :: 0 <= i < |xs| ==> key(r[i]) == key(xs[i])
    ensures forall i :: 0 <= i < |xs| && key(xs[i]) != key(x) ==> r[i] == xs[i]
    ensures UniqueKeys(xs, key) ==> UniqueKeys(r, key)
  {
    match IndexOf(xs, key(x), key)
    case Some(i) =>
      var r := xs[i := x];
      forall k
        ensures IndexOf(r, k, key) == IndexOf(xs, k, key)
      {
        IndexOfSameKeys(xs, r, k, key);
      }
      r
    case None =>
      var r := xs + [x];
      forall k
        ensures IndexOf(r, k, key) == (if IndexOf(xs, k, key).Some? then IndexOf(xs, k, key)
                                       else if key(x) == k then Some(|xs|) else None)
      {
        IndexOfAppend(xs, x, k, key);
      }
      r
  }

  /** An upsert leaves the lookup of every other key as it was. */
  lemma UpsertLookupOther<T>(xs: seq<T>, x: T, k: string, key: T -> string)
    requires k != key(x)
    ensures Lookup(Upsert(xs, x, key), k, key) == Lookup(xs, k, key)
  {
    var r := Upsert(xs, x, key);
    var i := IndexOf(xs, k, key);
    assert IndexOf(r, k, key) == i;
    if i.Some? {
      assert r[i.value] == xs[i.value];
    }
  }

  /** Two sequences with the same key at every position answer every key
      lookup with the same position. */
  lemma IndexOfSameKeys<T>(xs: seq<T>, ys: seq<T>, k: string, key: T -> string)
    requires |xs| == |ys|
    requires forall j :: 0 <= j < |xs| ==> key(xs[j]) == key(ys[j])
    ensures IndexOf(xs, k, key) == IndexOf(ys, k, key)
  {
    var a := IndexOf(xs, k, key);
    var b := IndexOf(ys, k, key);
    if a.Some? {
      assert key(ys[a.value]) == k;
    }
    if b.Some? {
      assert key(xs[b.value]) == k;
    }
  }

  lemma IndexOfAppend<T>(xs: seq<T>, x: T, k: string, key: T -> string)
    ensures IndexOf(xs + [x], k, key) ==
              (if IndexOf(xs, k, key).Some? then IndexOf(xs, k, key)
               else if key(x) == k then Some(|xs|) else None)
  {
    var ys := xs + [x];
    var r := IndexOf(ys, k, key);
    var a := IndexOf(xs, k, key);
    assert forall j :: 0 <= j < |xs| ==> ys[j] == xs[j];
    if a.Some? {
      assert key(ys[a.value]) == k;
    } else if key(x) == k {
      assert key(ys[|xs|]) == k;
    }
  }

  /** Upserts every record of `ys` in order (a `for … of` loop of `Map.set`):
      every earlier key keeps its position and key uniqueness survives. */
  function UpsertAll<T>(xs: seq<T>, ys: seq<T>, key: T -> string): (r: seq<T>)
    ensures |r| >= |xs|
    ensures forall i :: 0 <= i < |xs| ==> key(r[i]) == key(xs[i])
    ensures UniqueKeys(xs, key) ==> UniqueKeys(r, key)
    decreases |ys|
  {
    if ys == [] then xs else UpsertAll(Upsert(xs, ys[0], key), ys[1..], key)
  }

  /** The last record of `ys` holding key `k`. */
  function LookupLast<T>(ys: seq<T>, k: string, key: T -> string): (r: Option<T>)
    ensures r.Some? <==> Has(ys, k, key)
    ensures r.Some? ==> key(r.value) == k && r.value in ys
  {
    if ys == [] then None
    else
      var rest := LookupLast(ys[1..], k, key);
      assert forall j :: 1 <= j < |ys| ==> ys[j] == ys[1..][j - 1];
      if rest.Some? then rest
      else if key(ys[0]) == k then Some(ys[0])
      else None
  }

  /** After upserting `ys`, a key of `ys` finds its last record there and any
      other key finds what it found before. */
  lemma {:induction false} UpsertAllLookup<T>(xs: seq<T>, ys: seq<T>, k: string, key: T -> string)
    ensures Lookup(UpsertAll(xs, ys, key), k, key) ==
              (if Has(ys, k, key) then LookupLast(ys, k, key) else Lookup(xs, k, key))
    decreases |ys|
  {
    if ys != [] {
      var xs' := Upsert(xs, ys[0], key);
      UpsertAllLookup(xs', ys[1..], k, key);
      assert forall j :: 1 <= j < |ys| ==> ys[j] == ys[1..][j - 1];
      if k != key(ys[0]) {
        var i := IndexOf(xs, k, key);
        if i.Some? {
          assert xs'[i.value] == xs[i.value];
        }
      }
    }
  }

  /** A key is present after upserting `ys` iff it was present before or
      occurs in `ys`. */
  lemma UpsertAllHas<T>(xs: seq<T>, ys: seq<T>, k: string, key: T -> string)
    ensures Has(UpsertAll(xs, ys, key), k, key) <==> Has(xs, k, key) || Has(ys, k, key)
  {
    UpsertAllLookup(xs, ys, k, key);
  }

  /** `mergeById`: a map built from `current`, then every `incoming` record
      set by key, read back in insertion order. */
  function MergeById<T>(current: seq<T>, incoming: seq<T>, key: T -> string): (r: seq<T>)
    ensures UniqueKeys(r, key)
    ensures forall k :: Lookup(r, k, key) == LookupLast(current + incoming, k, key)
    ensures forall k :: Has(r, k, key) <==> Has(current, k, key) || Has(incoming, k, key)
  {
    var ys := current + incoming;
    forall k
      ensures Lookup(UpsertAll([], ys, key), k, key) == LookupLast(ys, k, key)
      ensures Has(ys, k, key) <==> Has(current, k, key) || Has(incoming, k, key)
    {
      UpsertAllLookup([], ys, k, key);
      HasConcat(current, incoming, k, key);
    }
    UpsertAll([], ys, key)
  }

  /** A key occurs in a concatenation iff it occurs in either part. */
  lemma HasConcat<T>(a: seq<T>, b: seq<T>, k: string, key: T -> string)
    ensures Has(a + b, k, key) <==> Has(a, k, key) || Has(b, k, key)
  {
    if Has(a + b, k, key) {
      var i :| 0 <= i < |a + b| && key((a + b)[i]) == k;
      if i >= |a| {
        assert b[i - |a|] == (a + b)[i];
      }
    }
    if Has(b, k, key) {
      var i :| 0 <= i < |b| && key(b[i]) == k;
      assert (a + b)[|a| + i] == b[i];
    }
    if Has(a, k, key) {
      var i :| 0 <= i < |a| && key(a[i]) == k;
      assert (a + b)[i] == a[i];
    }
  }

  lemma {:induction false} UpsertAllConcat<T>(xs: seq<T>, ys: seq<T>, zs: seq<T>, key: T -> string)
    ensures UpsertAll(xs, ys + zs, key) == UpsertAll(UpsertAll(xs, ys, key), zs, key)
    decreases |ys|
  {
    if ys != [] {
      assert (ys + zs)[0] == ys[0];
      assert (ys + zs)[1..] == ys[1..] + zs;
      UpsertAllConcat(Upsert(xs, ys[0], key), ys[1..], zs, key);
    } else {
      assert ys + zs == zs;
    }
  }

  /** Upserting records whose keys are all new appends them unchanged. */
  lemma {:induction false} UpsertAllFresh<T>(xs: seq<T>, ys: seq<T>, key: T -> string)
    requires UniqueKeys(xs + ys, key)
    ensures UpsertAll(xs, ys, key) == xs + ys
    decreases |ys|
  {
    if ys != [] {
      var zs := xs + ys;
      assert !Has(xs, key(ys[0]), key) by {
        assert forall j :: 0 <= j < |xs| ==> zs[j] == xs[j] && key(zs[j]) != key(zs[|xs|]);
      }
      var xs' := Upsert(xs, ys[0], key);
      assert xs' == xs + [ys[0]];
      assert xs' + ys[1..] == zs;
      UpsertAllFresh(xs', ys[1..], key);
    } else {
      assert xs + ys == xs;
    }
  }

  /** Upserting records already present in a key-unique sequence changes
      nothing. */
  lemma {:induction false} UpsertAllPresent<T>(xs: seq<T>, ys: seq<T>, key: T -> string)
    requires UniqueKeys(xs, key)
    requires forall j :: 0 <= j < |ys| ==> ys[j] in xs
    ensures UpsertAll(xs, ys, key) == xs
    decreases |ys|
  {
    if ys != [] {
      var i :| 0 <= i < |xs| && xs[i] == ys[0];
      LookupUnique(xs, i, key);
      assert Upsert(xs, ys[0], key) == xs[i := ys[0]] == xs;
      UpsertAllPresent(xs, ys[1..], key);
    }
  }

  /** Merging a key-unique collection with itself gives it back. */
  lemma MergeSelf<T>(a: seq<T>, key: T -> string)
    requires UniqueKeys(a, key)
    ensures MergeById(a, a, key) == a
  {
    UpsertAllConcat([], a, a, key);
    UpsertAllFresh([], a, key);
    assert [] + a == a;
    UpsertAllPresent(a, a, key);
  }

  /** Merging into a key-unique collection is upserting the incoming records
      into it. */
  lemma MergeIsUpsert<T>(current: seq<T>, incoming: seq<T>, key: T -> string)
    requires UniqueKeys(current, key)
    ensures MergeById(current, incoming, key) == UpsertAll(current, incoming, key)
  {
    UpsertAllConcat([], current, incoming, key);
    UpsertAllFresh([], current, key);
    assert [] + current == current;
  }

  /** What `mergeById` promises: each key once; a key present in `incoming`
      finds the last incoming record with it (incoming wins, whole records);
      any other key finds the current record; the keys are exactly those of
      either side; the current records keep their positions. */
  lemma MergeProperties<T>(current: seq<T>, incoming: seq<T>, key: T -> string)
    requires UniqueKeys(current, key)
    ensures var r := MergeById(current, incoming, key);
            && UniqueKeys(r, key)
            && (forall k :: Has(incoming, k, key) ==> Lookup(r, k, key) == LookupLast(incoming, k, key))
            && (forall k :: !Has(incoming, k, key) ==> Lookup(r, k, key) == Lookup(current, k, key))
            && (forall k :: Has(r, k, key) <==> Has(current, k, key) || Has(incoming, k, key))
            && |r| >= |current|
            && (forall i :: 0 <= i < |current| ==> key(r[i]) == key(current[i]))
  {
    MergeIsUpsert(current, incoming, key);
    forall k
      ensures Lookup(UpsertAll(current, incoming, key), k, key) ==
                (if Has(incoming, k, key) then LookupLast(incoming, k, key) else Lookup(current, k, key))
    {
      UpsertAllLookup(current, incoming, k, key);
    }
  }

  /** The position of the first record holding `k`, or the length when
      there is none. */
  function Pos<T>(ys: seq<T>, k: string, key: T -> string): (p: nat)
    ensures p <= |ys|
    ensures p < |ys| <==> Has(ys, k, key)
  {
    match IndexOf(ys, k, key)
    case Some(i) => i
    case None => |ys|
  }

  lemma PosCons<T>(ys: seq<T>, k: string, key: T -> string)
    requires ys != []
    ensures Pos(ys, key(ys[0]), key) == 0
    ensures k != key(ys[0]) ==> Pos(ys, k, key) == Pos(ys[1..], k, key) + 1
  {
  }

  /** Keys found in a sequence are still found in one that keeps its keys at
      their positions. */
  lemma HasKeptKeys<T>(xs: seq<T>, r: seq<T>, k: string, key: T -> string)
    requires |r| >= |xs|
    requires forall i :: 0 <= i < |xs| ==> key(r[i]) == key(xs[i])
    ensures Has(xs, k, key) ==> Has(r, k, key)
  {
    if Has(xs, k, key) {
      var i :| 0 <= i < |xs| && key(xs[i]) == k;
      assert key(r[i]) == k;
    }
  }

  /** The records appended after the current ones carry keys that only
      `ys` has. */
  lemma {:induction false} UpsertAllTailKeys<T>(xs: seq<T>, ys: seq<T>, key: T -> string)
    ensures forall i :: |xs| <= i < |UpsertAll(xs, ys, key)| ==>
              Has(ys, key(UpsertAll(xs, ys, key)[i]), key) && !Has(xs, key(UpsertAll(xs, ys, key)[i]), key)
    decreases |ys|
  {
    if ys != [] {
      var y := ys[0];
      var xs' := Upsert(xs, y, key);
      var r := UpsertAll(xs', ys[1..], key);
      UpsertAllTailKeys(xs', ys[1..], key);
      assert |r| >= |xs'|;
      assert forall j :: 1 <= j < |ys| ==> ys[j] == ys[1..][j - 1];
      forall i | |xs| <= i < |r|
        ensures Has(ys, key(r[i]), key) && !Has(xs, key(r[i]), key)
      {
        HasKeptKeys(xs, xs', key(r[i]), key);
        if i >= |xs'| {
          assert Has(ys[1..], key(r[i]), key);
        } else {
          assert i == |xs| && |xs'| == |xs| + 1;
          assert key(r[i]) == key(xs'[i]) == key(y);
        }
      }
    }
  }

  /** The records appended after the current ones follow the order in which
      their keys first appear in `ys`. */
  lemma {:induction false} UpsertAllTailOrder<T>(xs: seq<T>, ys: seq<T>, key: T -> string)
    ensures forall i, j :: |xs| <= i < j < |UpsertAll(xs, ys, key)| ==>
              Pos(ys, key(UpsertAll(xs, ys, key)[i]), key) < Pos(ys, key(UpsertAll(xs, ys, key)[j]), key)
    decreases |ys|
  {
    if ys != [] {
      var y := ys[0];
      var xs' := Upsert(xs, y, key);
      var r := UpsertAll(xs', ys[1..], key);
      UpsertAllTailOrder(xs', ys[1..], key);
      UpsertAllTailKeys(xs', ys[1..], key);
      assert |r| >= |xs'|;
      forall i | |xs'| <= i < |r|
        ensures key(r[i]) != key(y)
        ensures Pos(ys, key(r[i]), key) == Pos(ys[1..], key(r[i]), key) + 1
      {
        assert Has(xs', key(y), key) by {
          assert Lookup(xs', key(y), key) == Some(y);
        }
        PosCons(ys, key(r[i]), key);
      }
      forall i, j | |xs| <= i < j < |r|
        ensures Pos(ys, key(r[i]), key) < Pos(ys, key(r[j]), key)
      {
        if i < |xs'| {
          assert i == |xs| && |xs'| == |xs| + 1;
          assert key(r[i]) == key(xs'[i]) == key(y);
          PosCons(ys, key(y), key);
        }
      }
    }
  }

  /** `filter(x => key(x) !== k)`: every record with key `k` dropped, all
      others kept. */
  function RemoveKey<T(!new)>(xs: seq<T>, k: string, key: T -> string): (r: seq<T>)
    ensures forall x :: x in r <==> x in xs && key(x) != k
    ensures !Has(r, k, key)
    ensures |r| <= |xs|
    ensures !Has(xs, k, key) ==> r == xs
  {
    if xs == [] then []
    else
      var rest := RemoveKey(xs[1..], k, key);
      assert forall j :: 1 <= j < |xs| ==> xs[j] == xs[1..][j - 1];
      if key(xs[0]) == k then rest
      else
        var r := [xs[0]] + rest;
        assert !Has(r, k, key) by {
          assert forall j :: 1 <= j < |r| ==> r[j] == rest[j - 1];
        }
        assert !Has(xs, k, key) ==> r == xs by {
          if !Has(xs, k, key) {
            assert !Has(xs[1..], k, key);
            assert [xs[0]] + xs[1..] == xs;
          }
        }
        r
  }

  /** Deleting keeps the relative order: it distributes over concatenation. */
  lemma {:induction false} RemoveKeyConcat<T(!new)>(xs: seq<T>, ys: seq<T>, k: string, key: T -> string)
    ensures RemoveKey(xs + ys, k, key) == RemoveKey(xs, k, key) + RemoveKey(ys, k, key)
    decreases |xs|
  {
    if xs == [] {
      assert xs + ys == ys;
    } else {
      assert (xs + ys)[0] == xs[0];
      assert (xs + ys)[1..] == xs[1..] + ys;
      RemoveKeyConcat(xs[1..], ys, k, key);
      if key(xs[0]) != k {
        assert [xs[0]] + RemoveKey(xs[1..], k, key) + RemoveKey(ys, k, key)
            == [xs[0]] + (RemoveKey(xs[1..], k, key) + RemoveKey(ys, k, key));
      }
    }
  }
}
