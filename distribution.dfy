/**
 * `WeightedSelection<T>`: the items of positive weight, in input order, with
 * the running totals of their weights (the cumulative distribution); a 1-based
 * sample in [1, TotalWeights] picks an item by binary search over the totals.
 *
 * The weight function is a parameter of the class.  Being a Dafny function it
 * is pure, so `Remove` sees the weight each item had at construction.
 */
module Distribution {
  import opened Wrappers

  /** The items of positive weight, in input order. */
  function Kept<T>(items: seq<T>, weight: T -> int): (r: seq<T>)
    ensures |r| <= |items|
    ensures forall k :: 0 <= k < |r| ==> weight(r[k]) > 0
  {
    if items == [] then []
    else
      var init, x := items[..|items| - 1], items[|items| - 1];
      if weight(x) > 0 then Kept(init, weight) + [x] else Kept(init, weight)
  }

  /** The kept items are exactly the input items of positive weight. */
  lemma {:induction false} KeptMembers<T>(items: seq<T>, weight: T -> int, x: T)
    ensures x in Kept(items, weight) <==> x in items && weight(x) > 0
  {
    if items != [] {
      var init, y := items[..|items| - 1], items[|items| - 1];
      assert items == init + [y];
      KeptMembers(init, weight, x);
    }
  }

  /** The weight of each item, position by position. */
  function Weights<T>(items: seq<T>, weight: T -> int): (ws: seq<int>)
    ensures |ws| == |items|
  {
    if items == [] then [] else Weights(items[..|items| - 1], weight) + [weight(items[|items| - 1])]
  }

  function Sum(ws: seq<int>): int
  {
    if ws == [] then 0 else Sum(ws[..|ws| - 1]) + ws[|ws| - 1]
  }

  /** The running totals: entry k is the sum of the first k + 1 weights. */
  function PrefixSums(ws: seq<int>): (r: seq<int>)
    ensures |r| == |ws|
  {
    if ws == [] then [] else PrefixSums(ws[..|ws| - 1]) + [Sum(ws)]
  }

  /** Entry k of the running totals is the sum of the first k + 1 weights. */
  lemma {:induction false} PrefixSumsAt(ws: seq<int>, k: int)
    requires 0 <= k < |ws|
    ensures PrefixSums(ws)[k] == Sum(ws[..k + 1])
    decreases |ws|
  {
    var init := ws[..|ws| - 1];
    if k < |init| {
      PrefixSumsAt(init, k);
      assert init[..k + 1] == ws[..k + 1];
    } else {
      assert ws[..k + 1] == ws;
    }
  }

  predicate StrictlyIncreasing(s: seq<int>)
  {
    forall j, k :: 0 <= j < k < |s| ==> s[j] < s[k]
  }

  lemma SumSnoc(ws: seq<int>, x: int)
    ensures Sum(ws + [x]) == Sum(ws) + x
  {
    assert (ws + [x])[..|ws|] == ws;
  }

  /** Positive weights give strictly increasing running totals, the last of
   *  which is the total weight. */
  lemma {:induction false} PrefixSumsIncrease(ws: seq<int>)
    requires forall k :: 0 <= k < |ws| ==> ws[k] > 0
    ensures StrictlyIncreasing(PrefixSums(ws))
    ensures ws != [] ==> PrefixSums(ws)[|ws| - 1] == Sum(ws)
    ensures Sum(ws) >= 0 && (ws != [] ==> Sum(ws) > 0)
  {
    if ws != [] {
      var init := ws[..|ws| - 1];
      PrefixSumsIncrease(init);
      assert ws[..|ws|] == ws;
      assert PrefixSums(ws) == PrefixSums(init) + [Sum(ws)];
      assert init != [] ==> PrefixSums(init)[|init| - 1] == Sum(init);
    }
  }

  lemma KeptSnoc<T>(items: seq<T>, weight: T -> int, x: T)
    ensures Kept(items + [x], weight) == if weight(x) > 0 then Kept(items, weight) + [x] else Kept(items, weight)
  {
    assert (items + [x])[..|items|] == items;
  }

  lemma AppendItem<T>(items: seq<T>, weight: T -> int, x: T)
    ensures Weights(items + [x], weight) == Weights(items, weight) + [weight(x)]
  {
    assert (items + [x])[..|items|] == items;
  }

  lemma WeightsPositive<T>(items: seq<T>, weight: T -> int)
    requires forall k :: 0 <= k < |items| ==> weight(items[k]) > 0
    ensures forall k :: 0 <= k < |items| ==> Weights(items, weight)[k] > 0
  {
    forall k | 0 <= k < |items| {
      WeightsAt(items, weight, k);
    }
  }

  /** Position k of the weights is the weight of item k. */
  lemma {:induction false} WeightsAt<T>(items: seq<T>, weight: T -> int, k: int)
    requires 0 <= k < |items|
    ensures Weights(items, weight)[k] == weight(items[k])
    decreases |items|
  {
    if k < |items| - 1 {
      WeightsAt(items[..|items| - 1], weight, k);
    }
  }

  /** Appending one weight adds one more running total: the new sum. */
  lemma PrefixSumsSnoc(ws: seq<int>, w: int, cdf: seq<int>, total: int)
    requires cdf == PrefixSums(ws) && total == Sum(ws)
    ensures total + w == Sum(ws + [w])
    ensures cdf + [total + w] == PrefixSums(ws + [w])
  {
    assert (ws + [w])[..|ws|] == ws;
  }

  /**
   * `List<int>.BinarySearch(key)` over `s[lo..hi]` (both ends included), as
   * .NET performs it: the index of an element equal to `key`, or the bitwise
   * complement (`~j == -j - 1`) of the place `key` would be inserted at.
   */
  function ListBinarySearch(s: seq<int>, key: int, lo: int, hi: int): (r: int)
    requires 0 <= lo <= hi + 1 <= |s|
    ensures r >= 0 ==> lo <= r <= hi && s[r] == key
    ensures r < 0 ==> lo <= -r - 1 <= hi + 1
    decreases hi - lo
  {
    if lo > hi then -lo - 1
    else
      var i := lo + (hi - lo) / 2;
      if s[i] == key then i
      else if s[i] < key then ListBinarySearch(s, key, i + 1, hi)
      else ListBinarySearch(s, key, lo, i - 1)
  }

  /** `Select(int)` on a list of running totals: the binary search's index,
   *  complemented back to an index when the sample is not one of the totals. */
  function SelectIndex(cdf: seq<int>, sample: int): (index: int)
    ensures 0 <= index <= |cdf|
  {
    var r := ListBinarySearch(cdf, sample, 0, |cdf| - 1);
    if r < 0 then -r - 1 else r
  }

  /** What a search result r tells about the key: a hit has only smaller
   *  totals before it; a miss encoded as -i - 1 splits the totals at i. */
  predicate Least(s: seq<int>, key: int, r: int)
  {
    (r < 0 ==> var i := -r - 1;
      (forall j :: 0 <= j < i && j < |s| ==> s[j] < key) && (forall j :: 0 <= i <= j < |s| ==> s[j] > key)) &&
    (r >= 0 ==> forall j :: 0 <= j < r && j < |s| ==> s[j] < key)
  }

  /** The search keeps everything left of `lo` below the key and everything
   *  right of `hi` above it, so it ends at the first total that reaches it. */
  lemma {:induction false} SearchFindsLeast(s: seq<int>, key: int, lo: int, hi: int)
    requires 0 <= lo <= hi + 1 <= |s|
    requires StrictlyIncreasing(s)
    requires forall j :: 0 <= j < lo ==> s[j] < key
    requires forall j :: hi < j < |s| ==> s[j] > key
    ensures Least(s, key, ListBinarySearch(s, key, lo, hi))
    decreases hi - lo
  {
    if lo <= hi {
      var i := lo + (hi - lo) / 2;
      if s[i] < key {
        BelowUpTo(s, key, lo, i);
        SearchFindsLeast(s, key, i + 1, hi);
      } else if s[i] > key {
        AboveFrom(s, key, hi, i);
        SearchFindsLeast(s, key, lo, i - 1);
      }
    }
  }

  lemma BelowUpTo(s: seq<int>, key: int, lo: int, i: int)
    requires 0 <= lo <= i < |s| && StrictlyIncreasing(s) && s[i] < key
    requires forall j :: 0 <= j < lo ==> s[j] < key
    ensures forall j :: 0 <= j < i + 1 ==> s[j] < key
  {
  }

  lemma AboveFrom(s: seq<int>, key: int, hi: int, i: int)
    requires 0 <= i <= hi < |s| && StrictlyIncreasing(s) && s[i] > key
    requires forall j :: hi < j < |s| ==> s[j] > key
    ensures forall j :: i - 1 < j < |s| ==> s[j] > key
  {
  }

  /** On strictly increasing totals, `Select(sample)` is the least index whose
   *  total reaches the sample, or the number of totals when none does. */
  lemma SelectIsLeast(cdf: seq<int>, sample: int)
    requires StrictlyIncreasing(cdf)
    ensures forall j :: 0 <= j < SelectIndex(cdf, sample) ==> cdf[j] < sample
    ensures SelectIndex(cdf, sample) < |cdf| ==> cdf[SelectIndex(cdf, sample)] >= sample
  {
    SearchFindsLeast(cdf, sample, 0, |cdf| - 1);
  }

  /** The sample falls in the chosen item's interval (previous total, own
   *  total]; samples past the last total select one past the end. */
  lemma SelectInterval(cdf: seq<int>, sample: int)
    requires StrictlyIncreasing(cdf) && cdf != []
    ensures sample <= cdf[|cdf| - 1] ==>
      var i := SelectIndex(cdf, sample);
      i < |cdf| && sample <= cdf[i] && (i == 0 || cdf[i - 1] < sample)
    ensures sample > cdf[|cdf| - 1] <==> SelectIndex(cdf, sample) == |cdf|
  {
    SelectIsLeast(cdf, sample);
  }

  /** The list without the entry at `i` (`List.RemoveAt`). */
  function RemoveAt<U>(s: seq<U>, i: int): (r: seq<U>)
    requires 0 <= i < |s|
    ensures |r| == |s| - 1
  {
    s[..i] + s[i + 1..]
  }

  lemma RemoveAtIndex<U>(s: seq<U>, i: int, m: int)
    requires 0 <= i < |s| && 0 <= m < |s| - 1
    ensures RemoveAt(s, i)[m] == if m < i then s[m] else s[m + 1]
  {
  }

  /** The totals with `w` taken off every entry from `i` on. */
  function Lowered(cdf: seq<int>, i: int, w: int): (r: seq<int>)
    ensures |r| == |cdf|
  {
    seq(|cdf|, k requires 0 <= k < |cdf| => if k >= i then cdf[k] - w else cdf[k])
  }

  lemma {:induction false} SumRemoveAt(ws: seq<int>, i: int)
    requires 0 <= i < |ws|
    ensures Sum(RemoveAt(ws, i)) == Sum(ws) - ws[i]
    decreases |ws|
  {
    var n := |ws|;
    var init, last := ws[..n - 1], ws[n - 1];
    assert ws == init + [last];
    SumSnoc(init, last);
    if i == n - 1 {
      assert RemoveAt(ws, i) == init;
    } else {
      var rest := RemoveAt(init, i);
      SumRemoveAt(init, i);
      assert ws[..i] == init[..i] && ws[i + 1..] == init[i + 1..] + [last];
      assert RemoveAt(ws, i) == rest + [last];
      SumSnoc(rest, last);
    }
  }

  /** One running total after the removal: unchanged before `i`, lowered by
   *  the removed weight (and shifted down one place) from `i` on. */
  lemma RemovedPrefixSumAt(ws: seq<int>, i: int, k: int)
    requires 0 <= i < |ws| && 0 <= k < |ws| - 1
    ensures PrefixSums(RemoveAt(ws, i))[k] == if k < i then PrefixSums(ws)[k] else PrefixSums(ws)[k + 1] - ws[i]
  {
    var rest := RemoveAt(ws, i);
    PrefixSumsAt(rest, k);
    if k < i {
      PrefixSumsAt(ws, k);
      RemovedHeadBefore(ws, i, k);
    } else {
      PrefixSumsAt(ws, k + 1);
      RemovedHeadAfter(ws, i, k);
      SumRemoveAt(ws[..k + 2], i);
    }
  }

  lemma RemovedHeadBefore(ws: seq<int>, i: int, k: int)
    requires 0 <= k < i < |ws|
    ensures RemoveAt(ws, i)[..k + 1] == ws[..k + 1]
  {
    var rest := RemoveAt(ws, i);
    forall m | 0 <= m < k + 1
      ensures rest[m] == ws[m]
    {
      RemoveAtIndex(ws, i, m);
    }
  }

  lemma RemovedHeadAfter(ws: seq<int>, i: int, k: int)
    requires 0 <= i <= k < |ws| - 1
    ensures RemoveAt(ws, i)[..k + 1] == RemoveAt(ws[..k + 2], i)
  {
    var rest, head := RemoveAt(ws, i), ws[..k + 2];
    forall m | 0 <= m < k + 1
      ensures rest[m] == RemoveAt(head, i)[m]
    {
      RemoveAtIndex(ws, i, m);
      RemoveAtIndex(head, i, m);
    }
  }

  /** Removing one weight and lowering the later totals by it gives exactly
   *  the running totals of the remaining weights. */
  lemma RemoveKeepsPrefixSums(ws: seq<int>, i: int)
    requires 0 <= i < |ws|
    ensures RemoveAt(Lowered(PrefixSums(ws), i, ws[i]), i) == PrefixSums(RemoveAt(ws, i))
  {
    var low := Lowered(PrefixSums(ws), i, ws[i]);
    var lhs, rhs := RemoveAt(low, i), PrefixSums(RemoveAt(ws, i));
    forall k | 0 <= k < |lhs|
      ensures lhs[k] == rhs[k]
    {
      RemovedPrefixSumAt(ws, i, k);
      RemoveAtIndex(low, i, k);
      if k < i {
        assert lhs[k] == low[k] == PrefixSums(ws)[k];
      } else {
        assert lhs[k] == low[k + 1] == PrefixSums(ws)[k + 1] - ws[i];
      }
    }
  }

  /** Removing an item removes its weight from the weights and their sum;
   *  the remaining items keep positive weights. */
  lemma RemoveItem<T>(items: seq<T>, weight: T -> int, i: int)
    requires 0 <= i < |items|
    requires forall k :: 0 <= k < |items| ==> weight(items[k]) > 0
    ensures Weights(items, weight)[i] == weight(items[i])
    ensures Weights(RemoveAt(items, i), weight) == RemoveAt(Weights(items, weight), i)
    ensures Sum(Weights(RemoveAt(items, i), weight)) == Sum(Weights(items, weight)) - weight(items[i])
    ensures forall k :: 0 <= k < |items| - 1 ==> weight(RemoveAt(items, i)[k]) > 0
  {
    var lhs, rhs := Weights(RemoveAt(items, i), weight), RemoveAt(Weights(items, weight), i);
    forall m | 0 <= m < |lhs|
      ensures lhs[m] == rhs[m] && weight(RemoveAt(items, i)[m]) > 0
    {
      WeightsAt(RemoveAt(items, i), weight, m);
      RemoveAtIndex(items, i, m);
      RemoveAtIndex(Weights(items, weight), i, m);
      WeightsAt(items, weight, if m < i then m else m + 1);
    }
    SumRemoveAt(Weights(items, weight), i);
    WeightsAt(items, weight, i);
  }

  /** The constructor's loop: keeps each item of positive weight, adds its
   *  weight to the total and records the new total. */
  method Accumulate<T>(items: seq<T>, getWeight: T -> int) returns (kept: seq<T>, cdf: seq<int>, total: int)
    ensures kept == Kept(items, getWeight)
    ensures cdf == PrefixSums(Weights(kept, getWeight)) && total == Sum(Weights(kept, getWeight))
  {
    kept, cdf, total := [], [], 0;
    ghost var ws: seq<int> := [];
    for n := 0 to |items|
      invariant kept == Kept(items[..n], getWeight)
      invariant ws == Weights(kept, getWeight)
      invariant cdf == PrefixSums(ws) && total == Sum(ws)
    {
      var item := items[n];
      assert items[..n + 1] == items[..n] + [item];
      KeptSnoc(items[..n], getWeight, item);
      var w := getWeight(item);
      if w > 0 {
        AppendItem(kept, getWeight, item);
        PrefixSumsSnoc(ws, w, cdf, total);
        kept := kept + [item];
        total := total + w;
        cdf := cdf + [total];
        ws := ws + [w];
      }
    }
    assert items[..|items|] == items;
  }

  class WeightedSelection<T> {
    var Items: seq<T>
    var WeightCDF: seq<int>
    var TotalWeights: int
    const GetWeight: T -> int

    /** The items all have positive weight and the totals are their running
     *  sums; `TotalWeights` is the sum of all of them. */
    ghost predicate Valid()
      reads this
    {
      (forall k :: 0 <= k < |Items| ==> GetWeight(Items[k]) > 0)
      && WeightCDF == PrefixSums(Weights(Items, GetWeight))
      && TotalWeights == Sum(Weights(Items, GetWeight))
    }

    /** The constructor, up to the zero-total check (see `Create`). */
    constructor (items: seq<T>, getWeight: T -> int)
      ensures GetWeight == getWeight && Items == Kept(items, getWeight)
      ensures Valid()
    {
      var kept, cdf, total := Accumulate(items, getWeight);
      GetWeight, Items, WeightCDF, TotalWeights := getWeight, kept, cdf, total;
    }

    /** `new WeightedSelection(items, getWeight)`: throws when no item has
     *  positive weight, the empty input included. */
    static method Create(items: seq<T>, getWeight: T -> int) returns (r: Result<WeightedSelection<T>>)
      ensures r.Failure? <==> Kept(items, getWeight) == []
      ensures r.Failure? ==> r.error == ArgumentException
      ensures r.Success? ==> fresh(r.value) && r.value.Valid()
      ensures r.Success? ==> r.value.Items == Kept(items, getWeight) && r.value.GetWeight == getWeight
    {
      var ws := new WeightedSelection(items, getWeight);
      WeightsPositive(ws.Items, getWeight);
      PrefixSumsIncrease(Weights(ws.Items, getWeight));
      if ws.TotalWeights == 0 {
        return Failure(ArgumentException);
      }
      return Success(ws);
    }

    /** `Select(int sample)`. */
    method Select(sample: int) returns (index: int)
      ensures index == SelectIndex(WeightCDF, sample)
    {
      var r := ListBinarySearch(WeightCDF, sample, 0, |WeightCDF| - 1);
      index := if r < 0 then -r - 1 else r;
    }

    /** `SelectItem(int sample)`: a sample past `TotalWeights` selects one
     *  past the last item, and the list access throws. */
    method SelectItem(sample: int) returns (r: Result<T>)
      requires Valid()
      ensures 1 <= sample <= TotalWeights ==>
        r.Success? &&
        (exists i :: 0 <= i < |Items| && r.value == Items[i] && sample <= WeightCDF[i] && (i == 0 || WeightCDF[i - 1] < sample))
      ensures sample > TotalWeights ==> r == Failure(ArgumentOutOfRangeException)
    {
      var index := Select(sample);
      WeightsPositive(Items, GetWeight);
      PrefixSumsIncrease(Weights(Items, GetWeight));
      if Items != [] {
        SelectInterval(WeightCDF, sample);
      }
      if index >= |Items| {
        return Failure(ArgumentOutOfRangeException);
      }
      return Success(Items[index]);
    }

    /** `Remove(int i)`: takes the item's weight off every later total, then
     *  deletes the item and its total.  An index outside the list throws
     *  before anything changes. */
    method Remove(i: int) returns (o: Outcome)
      requires Valid()
      modifies this
      ensures Valid()
      ensures !(0 <= i < old(|Items|)) ==> o == Fail(ArgumentOutOfRangeException) && unchanged(this)
      ensures 0 <= i < old(|Items|) ==> (o == Pass
        && Items == RemoveAt(old(Items), i)
        && WeightCDF == RemoveAt(Lowered(old(WeightCDF), i, GetWeight(old(Items)[i])), i)
        && TotalWeights == old(TotalWeights) - GetWeight(old(Items)[i]))
    {
      if !(0 <= i < |Items|) {
        return Fail(ArgumentOutOfRangeException);
      }
      var toRemove := Items[i];
      var w := GetWeight(toRemove);
      ghost var cdf0, items0, total0 := WeightCDF, Items, TotalWeights;
      for j := i to |Items|
        invariant Items == items0 && TotalWeights == total0
        invariant |WeightCDF| == |cdf0|
        invariant forall k :: 0 <= k < |cdf0| ==> WeightCDF[k] == if i <= k < j then cdf0[k] - w else cdf0[k]
      {
        WeightCDF := WeightCDF[j := WeightCDF[j] - w];
      }
      assert WeightCDF == Lowered(cdf0, i, w);
      TotalWeights := TotalWeights - w;
      Items := RemoveAt(Items, i);
      WeightCDF := RemoveAt(WeightCDF, i);
      RemoveKeepsPrefixSums(Weights(items0, GetWeight), i);
      RemoveItem(items0, GetWeight, i);
      return Pass;
    }
  }

  /** The example of the tests: weights 2, 3, 5, 7 give totals 2, 5, 10, 17, */
  lemma ExampleTotals()
    ensures PrefixSums([2, 3, 5, 7]) == [2, 5, 10, 17]
  {
    assert [2, 3][..1] == [2] && [2, 3, 5][..2] == [2, 3] && [2, 3, 5, 7][..3] == [2, 3, 5];
    assert Sum([2]) == 2 && Sum([2, 3]) == 5 && Sum([2, 3, 5]) == 10 && Sum([2, 3, 5, 7]) == 17;
    assert PrefixSums([2]) == [2];
    assert PrefixSums([2, 3]) == [2, 5];
    assert PrefixSums([2, 3, 5]) == [2, 5, 10];
  }

  /** removing the 3 leaves totals 2, 7, 14, */
  lemma ExampleRemove()
    ensures RemoveAt(Lowered([2, 5, 10, 17], 1, 3), 1) == [2, 7, 14]
  {
    var l := Lowered([2, 5, 10, 17], 1, 3);
    assert l == [2, 2, 7, 14];
    assert l[..1] == [2] && l[2..] == [7, 14];
  }

  /** and samples 6 and 18 select the third item and one past the end. */
  lemma ExampleSelect()
    ensures SelectIndex([2, 5, 10, 17], 6) == 2 && SelectIndex([2, 5, 10, 17], 18) == 4
  {
    var cdf := [2, 5, 10, 17];
    assert ListBinarySearch(cdf, 6, 2, 1) == -3;
    assert ListBinarySearch(cdf, 6, 2, 3) == -3;
    assert ListBinarySearch(cdf, 6, 0, 3) == -3;
    assert ListBinarySearch(cdf, 18, 4, 3) == -5;
    assert ListBinarySearch(cdf, 18, 3, 3) == -5;
    assert ListBinarySearch(cdf, 18, 2, 3) == -5;
    assert ListBinarySearch(cdf, 18, 0, 3) == -5;
  }
}
