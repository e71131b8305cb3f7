/** Sequences of rod masks and the invariant every Hanoi state keeps: the masks
    partition the disks {0 .. D-1}. */
module Rods {
  import opened Bits

  /** Every rod holds only disks below D. */
  predicate AllBelow(rods: seq<nat>, D: nat)
  {
    forall k :: 0 <= k < |rods| ==> rods[k] < Pow2(D)
  }

  /** No disk lies on two rods. */
  ghost predicate Disjoint(rods: seq<nat>)
  {
    forall k1, k2, d: nat :: 0 <= k1 < |rods| && 0 <= k2 < |rods| && k1 != k2 ==>
      Bit(rods[k1], d) == 0 || Bit(rods[k2], d) == 0
  }

  /** Some rod holds disk d. */
  ghost predicate OnSomeRod(rods: seq<nat>, d: nat)
  {
    exists k :: 0 <= k < |rods| && Bit(rods[k], d) == 1
  }

  /** Every disk below D lies on some rod. */
  ghost predicate Covers(rods: seq<nat>, D: nat)
  {
    forall d :: 0 <= d < D ==> OnSomeRod(rods, d)
  }

  /** Each of the disks 0 .. D-1 lies on exactly one rod, and no other disk appears. */
  ghost predicate IsPartition(rods: seq<nat>, D: nat)
  {
    AllBelow(rods, D) && Disjoint(rods) && Covers(rods, D)
  }

  /** The first rod holding disk d, or |rods| when no rod holds it. */
  function Holder(rods: seq<nat>, d: nat): (k: nat)
    ensures k <= |rods|
    ensures k < |rods| ==> Bit(rods[k], d) == 1
    ensures forall i :: 0 <= i < k ==> Bit(rods[i], d) == 0
  {
    if |rods| == 0 then 0
    else if Bit(rods[0], d) == 1 then 0
    else 1 + Holder(rods[1..], d)
  }

  /** In a partition the holder of a disk is its only rod. */
  lemma HolderOfPartition(rods: seq<nat>, D: nat, d: nat)
    requires IsPartition(rods, D) && d < D
    ensures Holder(rods, d) < |rods|
    ensures forall k :: 0 <= k < |rods| ==> (Bit(rods[k], d) == 1 <==> k == Holder(rods, d))
  {
    assert OnSomeRod(rods, d);
    var k :| 0 <= k < |rods| && Bit(rods[k], d) == 1;
    assert Holder(rods, d) <= k;
  }

  function Sum(rods: seq<nat>): nat
  {
    if |rods| == 0 then 0 else rods[0] + Sum(rods[1..])
  }

  /** How many rods hold disk d. */
  function Count(rods: seq<nat>, d: nat): nat
  {
    if |rods| == 0 then 0 else Bit(rods[0], d) + Count(rods[1..], d)
  }

  /** Every mask shifted right by one: disk d + 1 becomes disk d. */
  function Halve(rods: seq<nat>): (h: seq<nat>)
    ensures |h| == |rods|
    ensures forall k, d: nat :: 0 <= k < |rods| ==> Bit(h[k], d) == Bit(rods[k], d + 1)
  {
    seq(|rods|, k requires 0 <= k < |rods| => rods[k] / 2)
  }

  lemma HalveTail(rods: seq<nat>)
    requires |rods| > 0
    ensures Halve(rods)[1..] == Halve(rods[1..])
  {
  }

  /** A sum of masks splits into the masks' low bits plus twice the shifted masks. */
  lemma {:induction false} SumHalves(rods: seq<nat>)
    ensures Sum(rods) == Count(rods, 0) + 2 * Sum(Halve(rods))
  {
    if |rods| > 0 {
      SumHalves(rods[1..]);
      HalveTail(rods);
    }
  }

  /** A disk held by exactly one rod is counted once; one held by none is not counted. */
  lemma {:induction false} CountUnique(rods: seq<nat>, d: nat)
    requires forall k1, k2 :: 0 <= k1 < |rods| && 0 <= k2 < |rods| && k1 != k2 ==>
      Bit(rods[k1], d) == 0 || Bit(rods[k2], d) == 0
    ensures Count(rods, d) == if Holder(rods, d) < |rods| then 1 else 0
  {
    if |rods| > 0 {
      CountUnique(rods[1..], d);
      if Bit(rods[0], d) == 1 {
        assert forall k :: 0 <= k < |rods| - 1 ==> Bit(rods[1..][k], d) == 0 by {
          forall k | 0 <= k < |rods| - 1
            ensures Bit(rods[1..][k], d) == 0
          {
            assert rods[1..][k] == rods[k + 1];
          }
        }
      }
    }
  }

  /** Shifting a partition of D > 0 disks right drops disk 0 and leaves a partition of D - 1. */
  lemma HalvePartition(rods: seq<nat>, D: nat)
    requires IsPartition(rods, D) && D > 0
    ensures IsPartition(Halve(rods), D - 1)
  {
    var h := Halve(rods);
    forall k | 0 <= k < |h|
      ensures h[k] < Pow2(D - 1)
    {
      assert rods[k] < 2 * Pow2(D - 1);
    }
    forall d | 0 <= d < D - 1
      ensures OnSomeRod(h, d)
    {
      assert OnSomeRod(rods, d + 1);
      var k :| 0 <= k < |rods| && Bit(rods[k], d + 1) == 1;
      assert Bit(h[k], d) == 1;
    }
  }

  lemma {:induction false} SumOfZeros(rods: seq<nat>)
    requires AllBelow(rods, 0)
    ensures Sum(rods) == 0
  {
    if |rods| > 0 {
      SumOfZeros(rods[1..]);
    }
  }

  /** The masks of a partition of D disks add up to 2^D - 1 (doMove's sum assertion). */
  lemma {:induction false} PartitionSum(rods: seq<nat>, D: nat)
    requires IsPartition(rods, D)
    ensures Sum(rods) == Pow2(D) - 1
    decreases D
  {
    if D == 0 {
      SumOfZeros(rods);
    } else {
      HalvePartition(rods, D);
      PartitionSum(Halve(rods), D - 1);
      SumHalves(rods);
      CountUnique(rods, 0);
      HolderOfPartition(rods, D, 0);
    }
  }

  /** Two equal values at different indices make the value occur at least twice. */
  lemma Multiplicity(t: seq<nat>, k1: nat, k2: nat)
    requires k1 < k2 < |t| && t[k1] == t[k2]
    ensures multiset(t)[t[k1]] >= 2
  {
    assert t == t[..k2] + t[k2..];
    assert t[k1] in t[..k2];
    assert t[k2..][0] == t[k2];
    assert multiset(t) == multiset(t[..k2]) + multiset(t[k2..]);
  }

  /** A value occurring twice sits at two different indices. */
  lemma {:induction false} TwoIndices(s: seq<nat>, v: nat) returns (i1: nat, i2: nat)
    requires multiset(s)[v] >= 2
    ensures i1 < |s| && i2 < |s| && i1 != i2 && s[i1] == v && s[i2] == v
  {
    assert s == [s[0]] + s[1..];
    assert multiset(s) == multiset{s[0]} + multiset(s[1..]);
    if s[0] == v {
      assert v in multiset(s[1..]);
      var j :| 0 <= j < |s[1..]| && s[1..][j] == v;
      i1, i2 := 0, j + 1;
    } else {
      var j1, j2 := TwoIndices(s[1..], v);
      i1, i2 := j1 + 1, j2 + 1;
    }
  }

  /** Two different positions of a permutation come from two different positions of the original. */
  lemma Origins(s: seq<nat>, t: seq<nat>, k1: nat, k2: nat) returns (i1: nat, i2: nat)
    requires multiset(s) == multiset(t)
    requires k1 < |t| && k2 < |t| && k1 != k2
    ensures i1 < |s| && i2 < |s| && i1 != i2 && s[i1] == t[k1] && s[i2] == t[k2]
  {
    if t[k1] == t[k2] {
      if k1 < k2 {
        Multiplicity(t, k1, k2);
      } else {
        Multiplicity(t, k2, k1);
      }
      i1, i2 := TwoIndices(s, t[k1]);
    } else {
      assert t[k1] in multiset(s) && t[k2] in multiset(s);
      i1 :| 0 <= i1 < |s| && s[i1] == t[k1];
      i2 :| 0 <= i2 < |s| && s[i2] == t[k2];
    }
  }

  /** Any rearrangement of a partition is a partition. */
  lemma PartitionPermutation(s: seq<nat>, t: seq<nat>, D: nat)
    requires IsPartition(s, D)
    requires multiset(s) == multiset(t)
    ensures IsPartition(t, D)
  {
    forall k | 0 <= k < |t|
      ensures t[k] < Pow2(D)
    {
      assert t[k] in multiset(s);
    }
    forall k1, k2, d: nat | 0 <= k1 < |t| && 0 <= k2 < |t| && k1 != k2
      ensures Bit(t[k1], d) == 0 || Bit(t[k2], d) == 0
    {
      var i1, i2 := Origins(s, t, k1, k2);
    }
    forall d | 0 <= d < D
      ensures OnSomeRod(t, d)
    {
      assert OnSomeRod(s, d);
      var i :| 0 <= i < |s| && Bit(s[i], d) == 1;
      assert s[i] in multiset(t);
      var k :| 0 <= k < |t| && t[k] == s[i];
    }
  }

  /** Disk l taken off rod i and put on rod j: rod i loses the value 2^l and rod j gains it. */
  function MoveDisk(rods: seq<nat>, i: nat, j: nat, l: nat): (r: seq<nat>)
    requires i < |rods| && j < |rods| && Bit(rods[i], l) == 1
    ensures |r| == |rods|
  {
    SubBit(rods[i], l, 0);
    var r1 := rods[i := rods[i] - Pow2(l)];
    r1[j := r1[j] + Pow2(l)]
  }

  /** MoveDisk as the two list assignments it stands for. */
  lemma MoveDiskUpdates(rods: seq<nat>, i: nat, j: nat, l: nat)
    requires i < |rods| && j < |rods| && Bit(rods[i], l) == 1
    ensures rods[i] >= Pow2(l)
    ensures var r1 := rods[i := rods[i] - Pow2(l)]; MoveDisk(rods, i, j, l) == r1[j := r1[j] + Pow2(l)]
  {
    SubBit(rods[i], l, 0);
  }

  /** In a partition, moving a disk between two rods moves exactly that disk and keeps the partition. */
  lemma MoveDiskPartition(rods: seq<nat>, D: nat, i: nat, j: nat, l: nat)
    requires IsPartition(rods, D)
    requires i < |rods| && j < |rods| && i != j && Bit(rods[i], l) == 1
    ensures l < D
    ensures forall k, d: nat :: 0 <= k < |rods| ==>
      Bit(MoveDisk(rods, i, j, l)[k], d) == if d == l then (if k == j then 1 else 0) else Bit(rods[k], d)
    ensures IsPartition(MoveDisk(rods, i, j, l), D)
  {
    if l >= D {
      BitAbove(rods[i], D, l);
    }
    var r := MoveDisk(rods, i, j, l);
    forall k, d: nat | 0 <= k < |rods|
      ensures Bit(r[k], d) == if d == l then (if k == j then 1 else 0) else Bit(rods[k], d)
    {
      if k == i {
        SubBit(rods[i], l, d);
      } else if k == j {
        AddBit(rods[j], l, d);
      } else if d == l {
        assert Bit(rods[k], l) == 0;
      }
    }
    forall k | 0 <= k < |r|
      ensures r[k] < Pow2(D)
    {
      forall d: nat | d >= D
        ensures Bit(r[k], d) == 0
      {
        BitAbove(rods[k], D, d);
      }
      BelowFromBits(r[k], D);
    }
    forall d | 0 <= d < D
      ensures OnSomeRod(r, d)
    {
      assert OnSomeRod(rods, d);
      var k :| 0 <= k < |rods| && Bit(rods[k], d) == 1;
      if d == l {
        assert Bit(r[j], d) == 1;
      } else {
        assert Bit(r[k], d) == 1;
      }
    }
  }
}
