/**
 `merge_by_index` and its `MergingIter` (crates/merkle_tree/src/utils.rs): a k-way merge of
 parts ordered by item index, used to put the logs of the parallel subtrees back in instruction
 order.
 */
module Merging {
  import opened Wrappers

  /** An item with the index it is ordered by. */
  datatype Item<T> = Item(index: nat, value: T)

  /** Item `position` of part `part`. */
  datatype Place = Place(part: nat, position: nat)

  ghost predicate Ordered<T>(parts: seq<seq<Item<T>>>) {
    forall p, i, j :: 0 <= p < |parts| && 0 <= i < j < |parts[p]| ==> parts[p][i].index <= parts[p][j].index
  }

  ghost predicate Exists<T>(parts: seq<seq<Item<T>>>, at: Place) {
    at.part < |parts| && at.position < |parts[at.part]|
  }

  /** By index, then by part, then by position within the part. */
  ghost predicate Before<T>(parts: seq<seq<Item<T>>>, a: Place, b: Place)
    requires Exists(parts, a) && Exists(parts, b)
  {
    var i, j := parts[a.part][a.position].index, parts[b.part][b.position].index;
    i < j || (i == j && (a.part < b.part || (a.part == b.part && a.position < b.position)))
  }

  function Total<T>(parts: seq<seq<Item<T>>>, heads: seq<nat>, n: nat): int
    requires |heads| == |parts| && n <= |parts|
  {
    if n == 0 then 0 else Total(parts, heads, n - 1) + |parts[n - 1]| - heads[n - 1]
  }

  ghost predicate HeadsValid<T>(parts: seq<seq<Item<T>>>, heads: seq<nat>) {
    |heads| == |parts| && forall p :: 0 <= p < |parts| ==> heads[p] <= |parts[p]|
  }

  lemma {:induction false} TotalIsPositive<T>(parts: seq<seq<Item<T>>>, heads: seq<nat>, n: nat)
    requires HeadsValid(parts, heads) && n <= |parts|
    ensures Total(parts, heads, n) >= 0
  {
    if n == 0 {
    } else {
      TotalIsPositive(parts, heads, n - 1);
    }
  }

  lemma {:induction false} TotalDrops<T>(parts: seq<seq<Item<T>>>, heads: seq<nat>, p: nat, n: nat)
    requires |heads| == |parts| && p < |parts| && n <= |parts|
    ensures Total(parts, heads[p := heads[p] + 1], n) == Total(parts, heads, n) - if p < n then 1 else 0
  {
    if n == 0 {
    } else {
      TotalDrops(parts, heads, p, n - 1);
    }
  }

  /** The part whose head has the least index, the first of them on a tie. */
  method MinHead<T>(parts: seq<seq<Item<T>>>, heads: seq<nat>) returns (min: Option<nat>)
    requires HeadsValid(parts, heads)
    ensures min.None? ==> forall p :: 0 <= p < |parts| ==> heads[p] == |parts[p]|
    ensures min.Some? ==>
      && min.value < |parts| && heads[min.value] < |parts[min.value]|
      && forall p :: 0 <= p < |parts| && heads[p] < |parts[p]| && p != min.value ==>
        Before(parts, Place(min.value, heads[min.value]), Place(p, heads[p]))
  {
    min := None;
    for p := 0 to |parts|
      invariant min.None? ==> forall q :: 0 <= q < p ==> heads[q] == |parts[q]|
      invariant min.Some? ==>
        && min.value < p && heads[min.value] < |parts[min.value]|
        && forall q :: 0 <= q < p && heads[q] < |parts[q]| && q != min.value ==>
          Before(parts, Place(min.value, heads[min.value]), Place(q, heads[q]))
    {
      if heads[p] < |parts[p]| {
        if min.None? || parts[p][heads[p]].index < parts[min.value][heads[min.value]].index {
          min := Some(p);
        }
      }
    }
  }

  ghost predicate Consumed<T>(parts: seq<seq<Item<T>>>, heads: seq<nat>, order: seq<Place>)
    requires |heads| == |parts|
  {
    forall at :: at in order <==> at.part < |parts| && at.position < heads[at.part] && Exists(parts, at)
  }

  ghost predicate Sorted<T>(parts: seq<seq<Item<T>>>, order: seq<Place>) {
    && (forall k :: 0 <= k < |order| ==> Exists(parts, order[k]))
    && forall k, l :: 0 <= k < l < |order| ==> Before(parts, order[k], order[l])
  }

  /** Everything already output comes before everything still waiting. */
  ghost predicate Separated<T>(parts: seq<seq<Item<T>>>, heads: seq<nat>, order: seq<Place>)
    requires |heads| == |parts|
  {
    forall k, at ::
      0 <= k < |order| && Exists(parts, order[k]) && Exists(parts, at) && at.position >= heads[at.part] ==>
        Before(parts, order[k], at)
  }

  /** The least head precedes all that is still waiting. */
  lemma {:induction false} HeadIsFirst<T>(parts: seq<seq<Item<T>>>, heads: seq<nat>, p: nat, at: Place)
    requires Ordered(parts) && HeadsValid(parts, heads) && p < |parts| && heads[p] < |parts[p]|
    requires forall q :: 0 <= q < |parts| && heads[q] < |parts[q]| && q != p ==>
      Before(parts, Place(p, heads[p]), Place(q, heads[q]))
    requires Exists(parts, at) && at.position >= heads[at.part] && at != Place(p, heads[p])
    ensures Before(parts, Place(p, heads[p]), at)
  {
    var head := parts[at.part][heads[at.part]].index;
    assert head <= parts[at.part][at.position].index;
    if at.part != p {
      assert Before(parts, Place(p, heads[p]), Place(at.part, heads[at.part]));
    }
  }

  /** `merged` lists the items at the places of `order`, each labelled with its part. */
  ghost predicate Labelled<T>(parts: seq<seq<Item<T>>>, merged: seq<(nat, T)>, order: seq<Place>) {
    |merged| == |order| && forall k :: 0 <= k < |merged| ==>
      Exists(parts, order[k]) && merged[k] == (order[k].part, parts[order[k].part][order[k].position].value)
  }

  /**
   `merged` is every item of every part once, labelled with its part, ordered by index with ties
   going to the lowest part and otherwise in the order of the part.
   */
  ghost predicate IsMerge<T>(parts: seq<seq<Item<T>>>, merged: seq<(nat, T)>) {
    exists order ::
      && Labelled(parts, merged, order)
      && Sorted(parts, order)
      && forall at :: at in order <==> Exists(parts, at)
  }

  method MergeByIndex<T>(parts: seq<seq<Item<T>>>) returns (merged: seq<(nat, T)>)
    requires Ordered(parts)
    ensures IsMerge(parts, merged)
  {
    hide Before;
    var heads := seq(|parts|, _ => 0);
    ghost var order: seq<Place> := [];
    merged := [];
    while true
      invariant HeadsValid(parts, heads) && Consumed(parts, heads, order)
      invariant Sorted(parts, order) && Separated(parts, heads, order)
      invariant Labelled(parts, merged, order)
      decreases Total(parts, heads, |parts|)
    {
      TotalIsPositive(parts, heads, |parts|);
      var min := MinHead(parts, heads);
      if min.None? {
        break;
      }
      var p := min.value;
      ghost var place := Place(p, heads[p]);
      AppendKeeps(parts, heads, order, p);
      TotalDrops(parts, heads, p, |parts|);
      merged := merged + [(p, parts[p][heads[p]].value)];
      order := order + [place];
      heads := heads[p := heads[p] + 1];
      TotalIsPositive(parts, heads, |parts|);
    }
  }

  /** The specification leaves no choice: two merges of the same parts are the same list. */
  lemma {:induction false} MergeIsUnique<T>(parts: seq<seq<Item<T>>>, a: seq<(nat, T)>, b: seq<(nat, T)>)
    requires IsMerge(parts, a) && IsMerge(parts, b)
    ensures a == b
  {
    var p :| Labelled(parts, a, p) && Sorted(parts, p) && forall at :: at in p <==> Exists(parts, at);
    var q :| Labelled(parts, b, q) && Sorted(parts, q) && forall at :: at in q <==> Exists(parts, at);
    SortedIsUnique(parts, p, q);
  }

  lemma {:induction false} SortedIsUnique<T>(parts: seq<seq<Item<T>>>, p: seq<Place>, q: seq<Place>)
    requires Sorted(parts, p) && Sorted(parts, q)
    requires forall at :: at in p <==> at in q
    ensures p == q
  {
    if p == [] && q == [] {
    } else {
      SameFirst(parts, p, q);
      forall at
        ensures at in p[1..] <==> at in q[1..]
      {
        RestOfSorted(parts, p, at);
        RestOfSorted(parts, q, at);
      }
      SortedIsUnique(parts, p[1..], q[1..]);
      assert p == [p[0]] + p[1..] && q == [q[0]] + q[1..];
    }
  }

  lemma {:induction false} SameFirst<T>(parts: seq<seq<Item<T>>>, p: seq<Place>, q: seq<Place>)
    requires (p != [] || q != []) && Sorted(parts, p) && Sorted(parts, q)
    requires forall at :: at in p <==> at in q
    ensures p != [] && q != [] && p[0] == q[0]
  {
    assert (p != [] ==> p[0] in q) && (q != [] ==> q[0] in p);
    var i :| 0 <= i < |q| && q[i] == p[0];
    var j :| 0 <= j < |p| && p[j] == q[0];
    assert i > 0 ==> Before(parts, q[0], q[i]);
    assert j > 0 ==> Before(parts, p[0], p[j]);
  }

  lemma {:induction false} RestOfSorted<T>(parts: seq<seq<Item<T>>>, p: seq<Place>, at: Place)
    requires p != [] && Sorted(parts, p)
    ensures at in p[1..] <==> at in p && at != p[0]
  {
    if at in p[1..] {
      var k :| 0 <= k < |p[1..]| && p[1..][k] == at;
      assert Before(parts, p[0], p[k + 1]);
    }
  }

  lemma {:induction false} AppendKeeps<T>(parts: seq<seq<Item<T>>>, heads: seq<nat>, order: seq<Place>, p: nat)
    requires Ordered(parts) && HeadsValid(parts, heads) && p < |parts| && heads[p] < |parts[p]|
    requires forall q :: 0 <= q < |parts| && heads[q] < |parts[q]| && q != p ==>
      Before(parts, Place(p, heads[p]), Place(q, heads[q]))
    requires Consumed(parts, heads, order) && Sorted(parts, order) && Separated(parts, heads, order)
    ensures var heads', order' := heads[p := heads[p] + 1], order + [Place(p, heads[p])];
      && Consumed(parts, heads', order') && Sorted(parts, order') && Separated(parts, heads', order')
  {
    hide Before, Ordered;
    var heads', order', place := heads[p := heads[p] + 1], order + [Place(p, heads[p])], Place(p, heads[p]);
    forall at
      ensures at in order' <==> at.part < |parts| && at.position < heads'[at.part] && Exists(parts, at)
    {
      assert at in order' <==> at in order || at == place;
    }
    forall k, at | 0 <= k < |order'| && Exists(parts, order'[k]) && Exists(parts, at) && at.position >= heads'[at.part]
      ensures Before(parts, order'[k], at)
    {
      if k == |order| {
        HeadIsFirst(parts, heads, p, at);
      } else {
        assert order'[k] == order[k];
      }
    }
  }
}
