/**
 The map with keys 0 .. 15 behind internal tree nodes (`SmallMap` in
 crates/merkle_tree/src/utils.rs): a 16-bit bitmap of the keys, and the values in key order. A
 key's value is found by counting the set bits below it.
 */
module SmallMap {
  import opened Wrappers

  const CAPACITY: nat := 16

  function Mask(i: nat): bv16
    requires i < CAPACITY
  {
    1 << i
  }

  predicate Tests(bitmap: bv16, mask: bv16) {
    bitmap & mask != 0
  }

  function Or(bitmap: bv16, mask: bv16): bv16 {
    bitmap | mask
  }

  function And(bitmap: bv16, mask: bv16): bv16 {
    bitmap & mask
  }

  /** The bits of `bitmap` below the one set in `mask`. */
  function BelowMask(bitmap: bv16, mask: bv16): bv16 {
    And(bitmap, mask - 1)
  }

  predicate Has(bitmap: bv16, i: nat)
    requires i < CAPACITY
  {
    Tests(bitmap, Mask(i))
  }

  /** How many of the lowest `n` bits are set. */
  function Rank(bitmap: bv16, n: nat): nat
    requires n <= CAPACITY
  {
    if n == 0 then 0 else Rank(bitmap, n - 1) + if Has(bitmap, n - 1) then 1 else 0
  }

  function CountOnes(bitmap: bv16): nat {
    Rank(bitmap, CAPACITY)
  }

  // ----- bit facts

  lemma MaskFacts(i: nat, j: nat)
    requires i < CAPACITY && j < CAPACITY
    ensures Mask(i) != 0
    ensures i != j ==> Mask(i) & Mask(j) == 0
    ensures And(Mask(i) - 1, Mask(j)) == if j < i then Mask(j) else 0
  {
  }

  lemma BitLaws(b: bv16, m: bv16, n: bv16)
    ensures m & n == 0 ==> (b | m) & n == b & n
    ensures m != 0 ==> (b | m) & m != 0
    ensures (b & m) & n == b & (m & n)
    ensures b & 0 == 0
  {
  }

  lemma {:induction false} OrTests(b: bv16, m: bv16, n: bv16)
    ensures m & n == 0 ==> (Tests(Or(b, m), n) <==> Tests(b, n))
    ensures m != 0 ==> Tests(Or(b, m), m)
  {
    BitLaws(b, m, n);
  }

  lemma {:induction false} AndTests(b: bv16, low: bv16, n: bv16)
    ensures Tests(And(b, low), n) <==> Tests(b, And(low, n))
    ensures !Tests(b, 0)
  {
    BitLaws(b, low, n);
  }

  lemma {:induction false} TestsAfterOr(b: bv16, i: nat, j: nat)
    requires i < CAPACITY && j < CAPACITY
    ensures Has(Or(b, Mask(i)), j) <==> i == j || Has(b, j)
  {
    hide Mask, Tests, Or;
    MaskFacts(i, j);
    OrTests(b, Mask(i), Mask(j));
  }

  lemma {:induction false} TestsBelow(b: bv16, i: nat, j: nat)
    requires i < CAPACITY && j < CAPACITY
    ensures Has(BelowMask(b, Mask(i)), j) <==> j < i && Has(b, j)
  {
    hide Mask, Tests, And;
    MaskFacts(i, j);
    AndTests(b, Mask(i) - 1, Mask(j));
  }

  lemma {:induction false} EmptyBitmap(i: nat)
    requires i < CAPACITY
    ensures !Has(0, i)
  {
    hide Mask;
    NoBits(Mask(i));
  }

  lemma NoBits(m: bv16)
    ensures 0 & m == 0
  {
  }

  // ----- ranks

  lemma {:induction false} RankBelow(b: bv16, i: nat, n: nat)
    requires i < CAPACITY && n <= CAPACITY
    ensures Rank(BelowMask(b, Mask(i)), n) == Rank(b, if n <= i then n else i)
  {
    hide Has, BelowMask, Mask;
    if n == 0 {
    } else {
      RankBelow(b, i, n - 1);
      TestsBelow(b, i, n - 1);
    }
  }

  lemma {:induction false} RankAfterOr(b: bv16, i: nat, n: nat)
    requires i < CAPACITY && n <= CAPACITY && !Has(b, i)
    ensures Rank(Or(b, Mask(i)), n) == Rank(b, n) + if i < n then 1 else 0
  {
    hide Has, Or, Mask;
    if n == 0 {
    } else {
      RankAfterOr(b, i, n - 1);
      TestsAfterOr(b, i, n - 1);
    }
  }

  /** Ranks of set bits strictly increase. */
  lemma {:induction false} RankIncreases(b: bv16, i: nat, n: nat)
    requires i <= n <= CAPACITY
    ensures Rank(b, i) <= Rank(b, n)
    ensures i < n && Has(b, i) ==> Rank(b, i) < Rank(b, n)
  {
    hide Has;
    if i == n {
    } else {
      RankIncreases(b, i, n - 1);
    }
  }

  lemma {:induction false} RankOfZero(n: nat)
    requires n <= CAPACITY
    ensures Rank(0, n) == 0
  {
    if n == 0 {
    } else {
      RankOfZero(n - 1);
      EmptyBitmap(n - 1);
    }
  }

  // ----- the map

  ghost predicate Fits<V>(bitmap: bv16, values: seq<V>) {
    |values| == CountOnes(bitmap)
  }

  ghost function ContentsOf<V>(bitmap: bv16, values: seq<V>): map<nat, V>
    requires Fits(bitmap, values)
  {
    map i: nat | i < CAPACITY && Has(bitmap, i) && Rank(bitmap, i) < |values| :: values[Rank(bitmap, i)]
  }

  /** Exactly the set bits are keys. */
  lemma {:induction false} KeyIffSet<V>(bitmap: bv16, values: seq<V>, i: nat)
    requires Fits(bitmap, values) && i < CAPACITY
    ensures i in ContentsOf(bitmap, values) <==> Has(bitmap, i)
    ensures Has(bitmap, i) ==> Rank(bitmap, i) < |values| && ContentsOf(bitmap, values)[i] == values[Rank(bitmap, i)]
  {
    hide Has;
    RankIncreases(bitmap, i, CAPACITY);
  }

  lemma KeysAreBounded<V>(bitmap: bv16, values: seq<V>)
    requires Fits(bitmap, values)
    ensures forall i :: i in ContentsOf(bitmap, values) ==> i < CAPACITY
  {
  }

  /** Inserting under a new key shifts the values of greater keys and adds the pair. */
  lemma {:induction false} InsertNew<V>(bitmap: bv16, values: seq<V>, index: nat, value: V)
    requires Fits(bitmap, values) && index < CAPACITY && !Has(bitmap, index)
    ensures var r := Rank(bitmap, index);
      && r <= |values|
      && Fits(Or(bitmap, Mask(index)), values[..r] + [value] + values[r..])
      && ContentsOf(Or(bitmap, Mask(index)), values[..r] + [value] + values[r..])
         == ContentsOf(bitmap, values)[index := value]
  {
    hide Has, Or, Mask, Rank, ContentsOf;
    var r, bitmap' := Rank(bitmap, index), Or(bitmap, Mask(index));
    RankIncreases(bitmap, index, CAPACITY);
    RankAfterOr(bitmap, index, CAPACITY);
    var values' := values[..r] + [value] + values[r..];
    KeysAreBounded(bitmap, values);
    KeysAreBounded(bitmap', values');
    forall i: nat | i < CAPACITY
      ensures i in ContentsOf(bitmap', values') <==> i in ContentsOf(bitmap, values)[index := value]
      ensures i in ContentsOf(bitmap', values') ==>
        ContentsOf(bitmap', values')[i] == ContentsOf(bitmap, values)[index := value][i]
    {
      KeyIffSet(bitmap, values, i);
      KeyIffSet(bitmap', values', i);
      TestsAfterOr(bitmap, index, i);
      RankAfterOr(bitmap, index, i);
      if i < index {
        RankIncreases(bitmap, i, index);
      } else {
        RankIncreases(bitmap, index, i);
      }
    }
  }

  /** Overwriting touches no other key's value. */
  lemma {:induction false} InsertOld<V>(bitmap: bv16, values: seq<V>, index: nat, value: V)
    requires Fits(bitmap, values) && index < CAPACITY && Has(bitmap, index)
    ensures var r := Rank(bitmap, index);
      && r < |values| && Fits(bitmap, values[r := value])
      && ContentsOf(bitmap, values[r := value]) == ContentsOf(bitmap, values)[index := value]
  {
    hide Has, Rank, ContentsOf;
    KeyIffSet(bitmap, values, index);
    var r := Rank(bitmap, index);
    var values' := values[r := value];
    KeysAreBounded(bitmap, values);
    KeysAreBounded(bitmap, values');
    forall i: nat | i < CAPACITY
      ensures i in ContentsOf(bitmap, values') <==> i in ContentsOf(bitmap, values)[index := value]
      ensures i in ContentsOf(bitmap, values') ==>
        ContentsOf(bitmap, values')[i] == ContentsOf(bitmap, values)[index := value][i]
    {
      KeyIffSet(bitmap, values, i);
      KeyIffSet(bitmap, values', i);
      if i < index {
        RankIncreases(bitmap, i, index);
      } else {
        RankIncreases(bitmap, index, i);
      }
    }
  }

  class SmallMap<V> {
    var bitmap: bv16
    var values: seq<V>

    ghost predicate Valid()
      reads this
    {
      Fits(bitmap, values)
    }

    ghost function Contents(): map<nat, V>
      requires Valid()
      reads this
    {
      ContentsOf(bitmap, values)
    }

    constructor ()
      ensures Valid() && Contents() == map[]
    {
      bitmap, values := 0, [];
      new;
      RankOfZero(CAPACITY);
    }

    method Len() returns (len: nat)
      requires Valid()
      ensures len == |Contents()|
    {
      hide Has, Rank, ContentsOf;
      len := CountOnes(bitmap);
      ContentsSize(bitmap, values);
    }

    /** The pair with the greatest key. */
    method Last() returns (last: Option<(nat, V)>)
      requires Valid()
      ensures last.None? <==> Contents() == map[]
      ensures last.Some? ==>
        && last.value.0 in Contents() && Contents()[last.value.0] == last.value.1
        && forall i :: i in Contents() ==> i <= last.value.0
    {
      hide Has, Rank;
      var i: nat := CAPACITY;
      while i > 0 && !Has(bitmap, i - 1)
        invariant i <= CAPACITY && Rank(bitmap, i) == Rank(bitmap, CAPACITY)
        invariant forall j :: i <= j < CAPACITY ==> !Has(bitmap, j)
      {
        RankStep(bitmap, i - 1);
        i := i - 1;
      }
      if i == 0 {
        return None;
      }
      RankStep(bitmap, i - 1);
      KeyIffSet(bitmap, values, i - 1);
      last := Some((i - 1, values[|values| - 1]));
    }

    method Get(index: nat) returns (value: Option<V>)
      requires Valid() && index < CAPACITY
      ensures value == if index in Contents() then Some(Contents()[index]) else None
    {
      hide Has, Rank;
      KeyIffSet(bitmap, values, index);
      if !Has(bitmap, index) {
        return None;
      }
      var position := CountOnes(BelowMask(bitmap, Mask(index)));
      RankBelow(bitmap, index, CAPACITY);
      value := Some(values[position]);
    }

    method Insert(index: nat, value: V)
      requires Valid() && index < CAPACITY
      modifies this
      ensures Valid() && Contents() == old(Contents())[index := value]
    {
      hide Has, Rank, Or, Mask, ContentsOf, Fits, CountOnes;
      var position := CountOnes(BelowMask(bitmap, Mask(index)));
      PositionIsRank(bitmap, index);
      if !Has(bitmap, index) {
        InsertNew(bitmap, values, index, value);
        bitmap := Or(bitmap, Mask(index));
        values := values[..position] + [value] + values[position..];
      } else {
        InsertOld(bitmap, values, index, value);
        values := values[position := value];
      }
    }

    /** All pairs in key order. */
    method Entries() returns (entries: seq<(nat, V)>)
      requires Valid()
      ensures forall k, l :: 0 <= k < l < |entries| ==> entries[k].0 < entries[l].0
      ensures forall i, v :: (i, v) in entries <==> i in Contents() && Contents()[i] == v
    {
      hide Has, Rank;
      entries := [];
      RankStep(bitmap, 0);
      for i := 0 to CAPACITY
        invariant |entries| == Rank(bitmap, i)
        invariant forall k, l :: 0 <= k < l < |entries| ==> entries[k].0 < entries[l].0
        invariant forall k :: 0 <= k < |entries| ==> entries[k].0 < i
        invariant forall j, v :: (j, v) in entries <==> j < i && j in Contents() && Contents()[j] == v
      {
        KeyIffSet(bitmap, values, i);
        RankStep(bitmap, i);
        if Has(bitmap, i) {
          entries := entries + [(i, values[|entries|])];
        }
      }
    }
  }

  lemma {:induction false} PositionIsRank(bitmap: bv16, index: nat)
    requires index < CAPACITY
    ensures CountOnes(BelowMask(bitmap, Mask(index))) == Rank(bitmap, index)
  {
    RankBelow(bitmap, index, CAPACITY);
  }

  lemma RankStep(bitmap: bv16, i: nat)
    requires i < CAPACITY
    ensures i == 0 ==> Rank(bitmap, i) == 0
    ensures Rank(bitmap, i + 1) == Rank(bitmap, i) + if Has(bitmap, i) then 1 else 0
  {
  }

  ghost function SetBits(bitmap: bv16, n: nat): set<nat>
    requires n <= CAPACITY
  {
    if n == 0 then {} else SetBits(bitmap, n - 1) + if Has(bitmap, n - 1) then {n - 1} else {}
  }

  lemma {:induction false} SetBitsSize(bitmap: bv16, n: nat)
    requires n <= CAPACITY
    ensures |SetBits(bitmap, n)| == Rank(bitmap, n)
    ensures forall i :: i in SetBits(bitmap, n) <==> 0 <= i < n && Has(bitmap, i)
  {
    hide Has;
    if n == 0 {
    } else {
      SetBitsSize(bitmap, n - 1);
    }
  }

  lemma {:induction false} ContentsSize<V>(bitmap: bv16, values: seq<V>)
    requires Fits(bitmap, values)
    ensures |ContentsOf(bitmap, values)| == CountOnes(bitmap)
  {
    hide Has, Rank;
    SetBitsSize(bitmap, CAPACITY);
    forall i: nat | i < CAPACITY
      ensures i in ContentsOf(bitmap, values) <==> i in SetBits(bitmap, CAPACITY)
    {
      KeyIffSet(bitmap, values, i);
    }
    assert ContentsOf(bitmap, values).Keys == SetBits(bitmap, CAPACITY);
  }
}
