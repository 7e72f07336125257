/**
 The online median of proving statistics (`MedianTracker` in host/src/statistics.rs). A heap is
 the sorted list of its elements, read and popped at one end; medians are taken over the reals.
 */
module Median {
  import opened Wrappers

  ghost predicate Sorted(s: seq<int>) {
    forall i, j :: 0 <= i < j < |s| ==> s[i] <= s[j]
  }

  /** Pushes a value onto a heap. */
  function Insert(heap: seq<int>, value: int): seq<int> {
    if heap == [] || value <= heap[0] then [value] + heap else [heap[0]] + Insert(heap[1..], value)
  }

  /** All samples so far in sorted order. */
  function SortOf(samples: seq<int>): seq<int> {
    if samples == [] then [] else Insert(SortOf(samples[..|samples| - 1]), samples[|samples| - 1])
  }

  lemma {:induction false} SortedCons(x: int, s: seq<int>)
    requires Sorted(s) && (s != [] ==> x <= s[0])
    ensures Sorted([x] + s)
  {
    forall i, j | 0 <= i < j < |[x] + s|
      ensures ([x] + s)[i] <= ([x] + s)[j]
    {
      assert s[0] <= s[j - 1];
    }
  }

  lemma {:induction false} InsertKeepsSorted(heap: seq<int>, value: int)
    requires Sorted(heap)
    ensures Sorted(Insert(heap, value)) && |Insert(heap, value)| == |heap| + 1
    ensures Insert(heap, value)[0] == if heap == [] || value <= heap[0] then value else heap[0]
  {
    if heap == [] || value <= heap[0] {
      SortedCons(value, heap);
    } else {
      InsertKeepsSorted(heap[1..], value);
      SortedCons(heap[0], Insert(heap[1..], value));
    }
  }

  lemma {:induction false} InsertAddsOne(heap: seq<int>, value: int)
    ensures multiset(Insert(heap, value)) == multiset(heap) + multiset{value}
  {
    if heap == [] || value <= heap[0] {
    } else {
      InsertAddsOne(heap[1..], value);
      assert heap == [heap[0]] + heap[1..];
    }
  }

  /** The reference order really is the samples, sorted. */
  lemma {:induction false} SortOfSorts(samples: seq<int>)
    ensures Sorted(SortOf(samples)) && multiset(SortOf(samples)) == multiset(samples)
  {
    if samples == [] {
    } else {
      var front, last := samples[..|samples| - 1], samples[|samples| - 1];
      SortOfSorts(front);
      InsertKeepsSorted(SortOf(front), last);
      InsertAddsOne(SortOf(front), last);
      assert samples == front + [last];
    }
  }

  /** A value no greater than the lower head goes into the lower half. */
  lemma {:induction false} InsertLow(lower: seq<int>, upper: seq<int>, value: int)
    requires lower != [] && value <= lower[|lower| - 1]
    ensures Insert(lower + upper, value) == Insert(lower, value) + upper
  {
    if value <= lower[0] {
    } else {
      assert (lower + upper)[1..] == lower[1..] + upper;
      InsertLow(lower[1..], upper, value);
    }
  }

  /** A greater one goes past it. */
  lemma {:induction false} InsertHigh(lower: seq<int>, upper: seq<int>, value: int)
    requires Sorted(lower) && (lower != [] ==> value > lower[|lower| - 1])
    ensures Insert(lower + upper, value) == lower + Insert(upper, value)
  {
    if lower == [] {
      assert lower + upper == upper;
    } else {
      assert lower[0] <= lower[|lower| - 1];
      assert (lower + upper)[1..] == lower[1..] + upper;
      InsertHigh(lower[1..], upper, value);
    }
  }

  /** Pushing the greatest value of all appends it. */
  lemma {:induction false} InsertGreatest(lower: seq<int>, value: int)
    requires Sorted(lower + [value])
    ensures Insert(lower, value) == lower + [value]
  {
    if lower == [] {
    } else {
      assert (lower + [value])[0] <= (lower + [value])[|lower|];
      assert (lower + [value])[1..] == lower[1..] + [value];
      if value == lower[0] {
        AllEqual(lower, value);
      } else {
        InsertGreatest(lower[1..], value);
      }
    }
  }

  lemma {:induction false} AllEqual(lower: seq<int>, value: int)
    requires Sorted(lower + [value]) && lower != [] && lower[0] == value
    ensures [value] + lower == lower + [value]
  {
    var s := lower + [value];
    forall i | 0 <= i < |lower|
      ensures lower[i] == value
    {
      assert s[0] <= s[i] <= s[|lower|];
    }
  }

  lemma SortedPart(s: seq<int>, lo: nat, hi: nat)
    requires Sorted(s) && lo <= hi <= |s|
    ensures Sorted(s[lo..hi])
  {
  }

  lemma {:induction false} SortStep(samples: seq<int>, value: int)
    ensures SortOf(samples + [value]) == Insert(SortOf(samples), value)
  {
    assert (samples + [value])[..|samples|] == samples;
  }

  lemma {:induction false} PlaceHigh(lower: seq<int>, upper: seq<int>, value: int)
    requires Sorted(lower + upper) && lower != [] && value > lower[|lower| - 1]
    ensures Insert(lower + upper, value) == lower + Insert(upper, value) && |Insert(upper, value)| == |upper| + 1
  {
    SortedPart(lower + upper, 0, |lower|);
    SortedPart(lower + upper, |lower|, |lower| + |upper|);
    assert (lower + upper)[0..|lower|] == lower && (lower + upper)[|lower|..|lower| + |upper|] == upper;
    InsertHigh(lower, upper, value);
    InsertKeepsSorted(upper, value);
  }

  lemma {:induction false} PlaceLow(lower: seq<int>, upper: seq<int>, value: int)
    requires Sorted(lower + upper) && |upper| <= |lower| && (lower != [] ==> value <= lower[|lower| - 1])
    ensures Insert(lower + upper, value) == Insert(lower, value) + upper && |Insert(lower, value)| == |lower| + 1
  {
    SortedPart(lower + upper, 0, |lower|);
    assert (lower + upper)[0..|lower|] == lower;
    InsertKeepsSorted(lower, value);
    if lower == [] {
      assert lower + upper == [] && Insert(lower, value) == [value];
    } else {
      InsertLow(lower, upper, value);
    }
  }

  /** Moving the lower head up, or the upper head down, leaves the whole list as it is. */
  lemma {:induction false} MoveUp(lower: seq<int>, upper: seq<int>)
    requires Sorted(lower + upper) && lower != []
    ensures var k := |lower| - 1;
      lower[..k] + Insert(upper, lower[k]) == lower + upper && |Insert(upper, lower[k])| == |upper| + 1
  {
    var k := |lower| - 1;
    if upper != [] {
      assert (lower + upper)[k] <= (lower + upper)[k + 1];
    }
    assert Insert(upper, lower[k]) == [lower[k]] + upper;
    assert lower == lower[..k] + [lower[k]];
  }

  lemma {:induction false} MoveDown(lower: seq<int>, upper: seq<int>)
    requires Sorted(lower + upper) && upper != []
    ensures Insert(lower, upper[0]) + upper[1..] == lower + upper && |Insert(lower, upper[0])| == |lower| + 1
  {
    var all := lower + upper;
    SortedPart(all, 0, |lower| + 1);
    assert all[0..|lower| + 1] == lower + [upper[0]];
    InsertGreatest(lower, upper[0]);
    assert upper == [upper[0]] + upper[1..];
  }

  function MedianOf(s: seq<int>, toReal: int -> real): real
    requires s != []
  {
    if |s| % 2 == 1 then toReal(s[|s| / 2]) else (toReal(s[|s| / 2 - 1]) + toReal(s[|s| / 2])) / 2.0
  }

  class MedianTracker {
    var lowerHalf: seq<int>
    var upperHalf: seq<int>
    ghost var samples: seq<int>

    /** The halves are the sorted samples cut in the middle, the odd one out in the lower half. */
    ghost predicate Valid()
      reads this
    {
      lowerHalf + upperHalf == SortOf(samples) && |upperHalf| <= |lowerHalf| <= |upperHalf| + 1
    }

    constructor ()
      ensures Valid() && samples == []
    {
      lowerHalf, upperHalf, samples := [], [], [];
    }

    /** Records a sample, moving one head across when the halves get out of balance. */
    method Add(value: int)
      requires Valid()
      modifies this
      ensures Valid() && samples == old(samples) + [value]
    {
      hide Insert, Sorted, SortOf;
      SortOfSorts(samples);
      SortStep(samples, value);
      if lowerHalf != [] && value > lowerHalf[|lowerHalf| - 1] {
        PlaceHigh(lowerHalf, upperHalf, value);
        upperHalf := Insert(upperHalf, value);
      } else {
        PlaceLow(lowerHalf, upperHalf, value);
        lowerHalf := Insert(lowerHalf, value);
      }
      samples := samples + [value];
      SortOfSorts(samples);
      Rebalance();
    }

    method Rebalance()
      requires lowerHalf + upperHalf == SortOf(samples) && Sorted(SortOf(samples))
      requires |upperHalf| <= |lowerHalf| + 1 && |lowerHalf| <= |upperHalf| + 2
      modifies this`lowerHalf, this`upperHalf
      ensures Valid()
    {
      hide Insert, Sorted, SortOf;
      if |lowerHalf| > |upperHalf| + 1 {
        var moved := lowerHalf[|lowerHalf| - 1];
        MoveUp(lowerHalf, upperHalf);
        lowerHalf := lowerHalf[..|lowerHalf| - 1];
        upperHalf := Insert(upperHalf, moved);
      } else if |upperHalf| > |lowerHalf| {
        var moved := upperHalf[0];
        MoveDown(lowerHalf, upperHalf);
        upperHalf := upperHalf[1..];
        lowerHalf := Insert(lowerHalf, moved);
      }
    }

    /** The median of the sorted samples: the middle one, or the mean of the middle two. */
    method MedianWith(toReal: int -> real) returns (median: Option<real>)
      requires Valid()
      ensures median.None? <==> samples == []
      ensures samples != [] ==> |SortOf(samples)| == |samples| && median == Some(MedianOf(SortOf(samples), toReal))
    {
      SortOfSorts(samples);
      assert |samples| == |multiset(samples)| == |SortOf(samples)|;
      if lowerHalf == [] {
        return None;
      }
      var lowerValue := toReal(lowerHalf[|lowerHalf| - 1]);
      if |lowerHalf| != |upperHalf| {
        return Some(lowerValue);
      }
      median := Some((lowerValue + toReal(upperHalf[0])) / 2.0);
    }
  }
}
