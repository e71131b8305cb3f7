/** The symmetry-reduced hash of a Hanoi position and its inverse `fromHash`
    (puzzlesolver/puzzles/hanoi.py). Every rod but the last is sorted in descending order;
    a disk d on sorted rod k then contributes (k + 1) * R^d, and a disk on the last rod
    contributes nothing. Read in base R, the hash therefore has one digit per disk: 0 for
    the last rod, k + 1 for sorted rod k. */
module HanoiHash {
  import opened Results
  import opened Bits
  import opened Text
  import opened Rods
  import opened Sorting
  import opened HanoiState

  // The hash.

  /** Python's `rods[:-1]`: every rod but the last. */
  function Init(rods: seq<nat>): (r: seq<nat>)
    ensures |r| == if |rods| == 0 then 0 else |rods| - 1
  {
    if |rods| == 0 then [] else rods[..|rods| - 1]
  }

  /** The disks of a mask read as base-R digits: the sum of R^d over the disks d on it. */
  function BaseValue(n: nat, R: nat): nat
  {
    if n == 0 then 0 else n % 2 + R * BaseValue(n / 2, R)
  }

  /** What the sorted rods s[0], s[1], ... contribute when s[0] is sorted rod k. */
  function Weighted(s: seq<nat>, R: nat, k: nat): nat
  {
    if s == [] then 0 else (k + 1) * BaseValue(s[0], R) + Weighted(s[1..], R, k + 1)
  }

  /** `__hash__` of a position with R rods. */
  function HashOf(rods: seq<nat>, R: nat): nat
  {
    Weighted(SortDesc(Init(rods)), R, 0)
  }

  /** The inner loop's running value: the disks of the mask, the lowest at weight q and
      each next one at R times the weight of the one before. */
  function RodWeight(n: nat, R: nat, q: int): int
  {
    if n == 0 then 0 else n % 2 * q + RodWeight(n / 2, R, R * q)
  }

  /** A mask read at weight q is q times its base-R reading. */
  lemma {:induction false} RodWeightScaled(n: nat, R: nat, q: int)
    ensures RodWeight(n, R, q) == q * BaseValue(n, R)
  {
    if n != 0 {
      RodWeightScaled(n / 2, R, R * q);
      var b := BaseValue(n / 2, R);
      assert q * (n % 2 + R * b) == n % 2 * q + q * (R * b);
      Regroup(q, R, b);
    }
  }

  lemma Regroup(a: int, b: int, c: int)
    ensures a * (b * c) == (b * a) * c
    ensures a * b * c == a * (b * c)
  {
  }

  lemma PowStep(c: nat, R: nat, d: nat)
    ensures c * Pow(R, d + 1) == R * (c * Pow(R, d))
  {
    assert Pow(R, d + 1) == R * Pow(R, d);
  }

  /** One pass of the inner loop of `__hash__`: the low disk's weight, then the rest of the
      rod one place higher. */
  lemma WeightStep(rod: nat, R: nat, c: nat, e: nat)
    requires rod != 0
    ensures RodWeight(rod, R, c * Pow(R, e)) == rod % 2 * c * Pow(R, e) + RodWeight(rod / 2, R, c * Pow(R, e + 1))
  {
    var q := c * Pow(R, e);
    assert RodWeight(rod, R, q) == rod % 2 * q + RodWeight(rod / 2, R, R * q);
    PowStep(c, R, e);
    Regroup(rod % 2, c, Pow(R, e));
  }

  /** The weight of the rods from index k on: rod k's disks counted with factor k + 1, as
      the inner loop of `__hash__` adds them up, and then the rods after it. */
  lemma WeightedAt(s: seq<nat>, R: nat, k: nat)
    requires k < |s|
    ensures Weighted(s[k..], R, k) == RodWeight(s[k], R, (k + 1) * Pow(R, 0)) + Weighted(s[k + 1..], R, k + 1)
  {
    assert s[k..][1..] == s[k + 1..];
    RodWeightScaled(s[k], R, k + 1);
  }

  /** `__hash__`: sorts a copy of the non-last rods, then adds up every disk's weight. */
  method Hash(h: Hanoi) returns (output: int)
    ensures output == HashOf(h.rods, h.rodVariant)
  {
    var R := h.rodVariant;
    var rodsCopy := Init(h.rods);
    rodsCopy := SortDesc(rodsCopy);  // descending sort of the copy
    output := 0;
    for rodIdxOfDisk := 0 to |rodsCopy|
      invariant output + Weighted(rodsCopy[rodIdxOfDisk..], R, rodIdxOfDisk) == Weighted(rodsCopy, R, 0)
    {
      ghost var rest := Weighted(rodsCopy[rodIdxOfDisk + 1..], R, rodIdxOfDisk + 1);
      var rod := rodsCopy[rodIdxOfDisk];
      var diskSize := 0;
      WeightedAt(rodsCopy, R, rodIdxOfDisk);
      while rod != 0
        invariant output + RodWeight(rod, R, (rodIdxOfDisk + 1) * Pow(R, diskSize)) + rest == Weighted(rodsCopy, R, 0)
      {
        var exist := rod % 2;
        WeightStep(rod, R, rodIdxOfDisk + 1, diskSize);
        output := output + exist * (rodIdxOfDisk + 1) * Pow(R, diskSize);
        diskSize := diskSize + 1;
        rod := rod / 2;
      }
    }
  }

  // The inverse.

  /** `hash_val // R^t`, the value left after t rounds of `hash_val //= rod_variant`.
      Dafny's division by a positive number rounds down, as Python's `//` does. */
  function Shr(hashVal: int, R: nat, t: nat): int
    requires R >= 1
  {
    if t == 0 then hashVal else Shr(hashVal, R, t - 1) / R
  }

  /** Base-R digit t of the hash value. */
  function Digit(hashVal: int, R: nat, t: nat): (v: nat)
    requires R >= 1
    ensures v < R
  {
    Shr(hashVal, R, t) % R
  }

  /** The rod a digit names: `(v - 1) % R`, so digit 0 is the last rod and digit k + 1 is
      rod k. Dafny's `%` by a positive number is never negative, as Python's is not. */
  function Slot(v: int, R: nat): (k: nat)
    requires R >= 1
    ensures k < R
  {
    (v - 1) % R
  }

  /** Rod k after the first t rounds of `fromHash`: the disks below t whose digit names k. */
  function RodFromDigits(hashVal: int, R: nat, t: nat, k: nat): nat
    requires R >= 1
  {
    if t == 0 then 0
    else RodFromDigits(hashVal, R, t - 1, k) + (if Slot(Digit(hashVal, R, t - 1), R) == k then Pow2(t - 1) else 0)
  }

  /** The rods that `fromHash` builds from the first t digits. */
  function Unhash(hashVal: int, R: nat, t: nat): (rods: seq<nat>)
    requires R >= 1
    ensures |rods| == R
  {
    seq(R, k requires 0 <= k < R => RodFromDigits(hashVal, R, t, k))
  }

  /** `fromHash(variantid, hash_val)`: the puzzle of that variant whose rods are read off the
      base-R digits of the hash value; with no rods and some disks `% 0` raises. */
  function FromHashOf(variantId: string, hashVal: int): Result<Hanoi>
  {
    match New(variantId)
    case Fail(e) => Fail(e)
    case Ok(puzzle) =>
      if puzzle.rodVariant == 0 then
        if puzzle.diskVariant == 0 then Ok(puzzle.(rods := [])) else Fail(DivisionByZero)
      else Ok(puzzle.(rods := Unhash(hashVal, puzzle.rodVariant, puzzle.diskVariant)))
  }

  /** Round t of `fromHash` adds disk t to the rod its digit names and leaves the others. */
  lemma UnhashStep(hashVal: int, R: nat, t: nat)
    requires R >= 1
    ensures var before, slot := Unhash(hashVal, R, t), Slot(Digit(hashVal, R, t), R);
      Unhash(hashVal, R, t + 1) == before[slot := before[slot] + Pow2(t)]
  {
  }

  /** `fromHash`: one round per disk adds `1 << disk_size` to the rod the low digit names. */
  method FromHash(variantId: string, hashVal: int) returns (r: Result<Hanoi>)
    ensures r == FromHashOf(variantId, hashVal)
  {
    var puzzle := New(variantId);
    if puzzle.Fail? {
      return Fail(puzzle.error);
    }
    var R, D := puzzle.value.rodVariant, puzzle.value.diskVariant;
    var rods: seq<nat> := seq(R, _ => 0);
    var hv := hashVal;
    for diskSize := 0 to D
      invariant |rods| == R
      invariant R == 0 ==> diskSize == 0 && rods == []
      invariant R >= 1 ==> rods == Unhash(hashVal, R, diskSize) && hv == Shr(hashVal, R, diskSize)
    {
      if R == 0 {
        return Fail(DivisionByZero);
      }
      var slot := (hv % R - 1) % R;
      assert slot == Slot(Digit(hashVal, R, diskSize), R);
      UnhashStep(hashVal, R, diskSize);
      rods := rods[slot := rods[slot] + Pow2(diskSize)];
      hv := hv / R;
    }
    r := Ok(puzzle.value.(rods := rods));
  }

  // Reading the hash digit by digit.

  /** The digit that disk d gets when s[0] is sorted rod k: k + 1 plus the position of the
      rod of s holding d, or 0 when no rod of s holds it. */
  function DigitOf(s: seq<nat>, k: nat, d: nat): nat
  {
    if Holder(s, d) < |s| then k + 1 + Holder(s, d) else 0
  }

  /** No two rods of s share disk d. */
  ghost predicate AtMostOne(s: seq<nat>, d: nat)
  {
    forall j1, j2 :: 0 <= j1 < |s| && 0 <= j2 < |s| && j1 != j2 ==> Bit(s[j1], d) == 0 || Bit(s[j2], d) == 0
  }

  lemma {:induction false} WeightedOfEmpty(s: seq<nat>, R: nat, k: nat)
    requires AllBelow(s, 0)
    ensures Weighted(s, R, k) == 0
  {
    if s != [] {
      WeightedOfEmpty(s[1..], R, k + 1);
    }
  }

  /** The digit of disk 0 comes from the first rod when it holds the disk, and otherwise
      from the rest, where the first rod of the rest is sorted rod k + 1. */
  lemma DigitOfCons(s: seq<nat>, k: nat)
    requires AtMostOne(s, 0) && s != []
    ensures AtMostOne(s[1..], 0)
    ensures DigitOf(s, k, 0) == (k + 1) * (s[0] % 2) + DigitOf(s[1..], k + 1, 0)
  {
    var t := s[1..];
    forall j1, j2 | 0 <= j1 < |t| && 0 <= j2 < |t| && j1 != j2
      ensures Bit(t[j1], 0) == 0 || Bit(t[j2], 0) == 0
    {
      assert t[j1] == s[j1 + 1] && t[j2] == s[j2 + 1];
    }
    if Bit(s[0], 0) == 1 {
      forall j | 0 <= j < |t|
        ensures Bit(t[j], 0) == 0
      {
        assert t[j] == s[j + 1];
      }
    }
  }

  lemma SplitArith(c: int, e: int, b: int, R: int, dt: int, wt: int)
    ensures c * (e + R * b) + (dt + R * wt) == c * e + dt + R * (c * b + wt)
  {
    assert c * (e + R * b) == c * e + c * (R * b);
    Regroup(c, R, b);
    assert R * (c * b + wt) == R * (c * b) + R * wt;
  }

  /** Base R, the lowest digit of what the sorted rods contribute is the digit of disk 0,
      and the rest is what they contribute with every disk shifted down by one. */
  lemma {:induction false} WeightedSplit(s: seq<nat>, R: nat, k: nat)
    requires AtMostOne(s, 0)
    ensures Weighted(s, R, k) == DigitOf(s, k, 0) + R * Weighted(Halve(s), R, k)
  {
    if s != [] {
      var t := s[1..];
      DigitOfCons(s, k);
      WeightedSplit(t, R, k + 1);
      HalveTail(s);
      var b, e := BaseValue(s[0] / 2, R), s[0] % 2;
      var wt := Weighted(Halve(t), R, k + 1);
      assert Weighted(Halve(s), R, k) == (k + 1) * b + wt;
      assert BaseValue(s[0], R) == e + R * b;
      SplitArith(k + 1, e, b, R, DigitOf(t, k + 1, 0), wt);
    }
  }

  lemma MulLe(a: nat, x: int, y: int)
    requires x <= y
    ensures a * x <= a * y
  {
  }

  /** While k + |s| < R every digit is below R, so D disks give a value below R^D. */
  lemma {:induction false} WeightedBound(s: seq<nat>, R: nat, k: nat, D: nat)
    requires AllBelow(s, D) && Disjoint(s) && k + |s| < R
    ensures Weighted(s, R, k) < Pow(R, D)
    decreases D
  {
    if D == 0 {
      WeightedOfEmpty(s, R, k);
    } else {
      var hs := Halve(s);
      forall j | 0 <= j < |hs|
        ensures hs[j] < Pow2(D - 1)
      {
        assert s[j] < 2 * Pow2(D - 1);
      }
      WeightedBound(hs, R, k, D - 1);
      WeightedSplit(s, R, k);
      var w := Weighted(hs, R, k);
      MulLe(R, w, Pow(R, D - 1) - 1);
      assert R * (Pow(R, D - 1) - 1) == Pow(R, D) - R;
    }
  }

  /** The masks shifted right t times: disk d + t becomes disk d. */
  function HalveN(s: seq<nat>, t: nat): (r: seq<nat>)
    ensures |r| == |s|
  {
    if t == 0 then s else Halve(HalveN(s, t - 1))
  }

  lemma {:induction false} HalveNBits(s: seq<nat>, t: nat)
    ensures forall j, d: nat :: 0 <= j < |s| ==> Bit(HalveN(s, t)[j], d) == Bit(s[j], d + t)
  {
    if t > 0 {
      HalveNBits(s, t - 1);
    }
  }

  lemma DivMod(v: int, w: int, R: nat)
    requires 0 <= v < R
    ensures (v + R * w) / R == w && (v + R * w) % R == v
  {
    var n := v + R * w;
    var q, m := n / R, n % R;
    assert n == R * q + m;
    assert R * (w - q) == m - v;
    if w - q >= 1 {
      MulLe(R, 1, w - q);
    } else if w - q <= -1 {
      MulLe(R, w - q, -1);
    }
  }

  /** The position of the first rod holding a disk depends only on which rods hold it. */
  lemma {:induction false} HolderShift(a: seq<nat>, b: seq<nat>, d: nat, e: nat)
    requires |a| == |b|
    requires forall j :: 0 <= j < |a| ==> Bit(a[j], d) == Bit(b[j], e)
    ensures Holder(a, d) == Holder(b, e)
  {
    if |a| > 0 && Bit(a[0], d) == 0 {
      HolderShift(a[1..], b[1..], d, e);
    }
  }

  /** After t divisions by R the hash is what the rods contribute with every disk shifted
      down by t. */
  lemma {:induction false} ShrWeighted(s: seq<nat>, R: nat, t: nat)
    requires Disjoint(s) && |s| < R
    ensures Shr(Weighted(s, R, 0), R, t) == Weighted(HalveN(s, t), R, 0)
  {
    if t > 0 {
      ShrWeighted(s, R, t - 1);
      var hs := HalveN(s, t - 1);
      ShiftedAtMostOne(s, t - 1);
      WeightedSplit(hs, R, 0);
      var v := DigitOf(hs, 0, 0);
      assert v < R;
      ShrStep(Weighted(s, R, 0), R, t, v, Weighted(Halve(hs), R, 0));
    }
  }

  /** One more division by R drops the low digit v. */
  lemma ShrStep(x: int, R: nat, t: nat, v: int, w: int)
    requires R >= 1 && t >= 1 && 0 <= v < R
    requires Shr(x, R, t - 1) == v + R * w
    ensures Shr(x, R, t) == w
  {
    DivMod(v, w, R);
  }

  /** After any shift, no two rods of a disjoint s share disk 0. */
  lemma ShiftedAtMostOne(s: seq<nat>, t: nat)
    requires Disjoint(s)
    ensures AtMostOne(HalveN(s, t), 0)
  {
    var hs := HalveN(s, t);
    HalveNBits(s, t);
    forall j1, j2 | 0 <= j1 < |hs| && 0 <= j2 < |hs| && j1 != j2
      ensures Bit(hs[j1], 0) == 0 || Bit(hs[j2], 0) == 0
    {
      assert Bit(hs[j1], 0) == Bit(s[j1], t) && Bit(hs[j2], 0) == Bit(s[j2], t);
    }
  }

  /** Base-R digit t of what the sorted rods contribute is the digit of disk t. */
  lemma HashDigit(s: seq<nat>, R: nat, t: nat)
    requires Disjoint(s) && |s| < R
    ensures Digit(Weighted(s, R, 0), R, t) == DigitOf(s, 0, t)
  {
    ShrWeighted(s, R, t);
    var hs := HalveN(s, t);
    ShiftedAtMostOne(s, t);
    WeightedSplit(hs, R, 0);
    var v := DigitOf(hs, 0, 0);
    assert v < R;
    DigitStep(Weighted(s, R, 0), R, t, v, Weighted(Halve(hs), R, 0));
    HalveNBits(s, t);
    HolderShift(hs, s, 0, t);
  }

  /** The low digit of v + R * w is v. */
  lemma DigitStep(x: int, R: nat, t: nat, v: int, w: int)
    requires R >= 1 && 0 <= v < R
    requires Shr(x, R, t) == v + R * w
    ensures Digit(x, R, t) == v
  {
    DivMod(v, w, R);
  }

  // What `fromHash` builds.

  /** Rod k of `fromHash` holds disk d exactly when d is among the first t disks and the
      digit of d names k. */
  lemma {:induction false} RodBit(hashVal: int, R: nat, t: nat, k: nat, d: nat)
    requires R >= 1
    ensures Bit(RodFromDigits(hashVal, R, t, k), d) == if d < t && Slot(Digit(hashVal, R, d), R) == k then 1 else 0
  {
    if t == 0 {
      BitOfZero(d);
    } else {
      RodBit(hashVal, R, t - 1, k, d);
      RodBound(hashVal, R, t - 1, k);
      SetTopBit(RodFromDigits(hashVal, R, t - 1, k), RodFromDigits(hashVal, R, t, k), t - 1,
        Slot(Digit(hashVal, R, t - 1), R) == k, d);
    }
  }

  /** Rod k of `fromHash` after t rounds holds no disk from t up. */
  lemma {:induction false} RodBound(hashVal: int, R: nat, t: nat, k: nat)
    requires R >= 1
    ensures RodFromDigits(hashVal, R, t, k) < Pow2(t)
  {
    if t > 0 {
      RodBound(hashVal, R, t - 1, k);
    }
  }

  /** Whatever the hash value, `fromHash` puts each of the D disks on exactly one rod. */
  lemma UnhashPartition(hashVal: int, R: nat, D: nat)
    requires R >= 1
    ensures IsPartition(Unhash(hashVal, R, D), D)
  {
    var rods := Unhash(hashVal, R, D);
    forall k | 0 <= k < R
      ensures rods[k] < Pow2(D)
    {
      RodBound(hashVal, R, D, k);
    }
    forall k1, k2, d: nat | 0 <= k1 < R && 0 <= k2 < R && k1 != k2
      ensures Bit(rods[k1], d) == 0 || Bit(rods[k2], d) == 0
    {
      RodBit(hashVal, R, D, k1, d);
      RodBit(hashVal, R, D, k2, d);
    }
    forall d | 0 <= d < D
      ensures OnSomeRod(rods, d)
    {
      var k := Slot(Digit(hashVal, R, d), R);
      RodBit(hashVal, R, D, k, d);
      assert Bit(rods[k], d) == 1;
    }
  }

  /** Every outcome of `fromHash` has each of its disks on exactly one rod. */
  lemma FromHashIsPartition(variantId: string, hashVal: int)
    ensures FromHashOf(variantId, hashVal).Ok? ==>
      IsPartition(FromHashOf(variantId, hashVal).value.rods, FromHashOf(variantId, hashVal).value.diskVariant)
  {
    var r := FromHashOf(variantId, hashVal);
    if r.Ok? && r.value.rodVariant >= 1 {
      UnhashPartition(hashVal, r.value.rodVariant, r.value.diskVariant);
    }
  }

  // The round trip.

  /** The representative of a position's symmetry class: the non-last rods sorted in
      descending order, the last rod in place. */
  function Canon(rods: seq<nat>): (c: seq<nat>)
    requires |rods| >= 1
    ensures |c| == |rods| && c[|rods| - 1] == rods[|rods| - 1]
  {
    SortDesc(Init(rods)) + [rods[|rods| - 1]]
  }

  /** The representative is a rearrangement of the rods, so it is a partition too. */
  lemma CanonPartition(rods: seq<nat>, D: nat)
    requires IsPartition(rods, D) && |rods| >= 1
    ensures multiset(Canon(rods)) == multiset(rods)
    ensures IsPartition(Canon(rods), D)
  {
    assert rods == Init(rods) + [rods[|rods| - 1]];
    PartitionPermutation(rods, Canon(rods), D);
  }

  lemma {:induction false} HolderAppend(s: seq<nat>, x: nat, d: nat)
    ensures Holder(s + [x], d) ==
      if Holder(s, d) < |s| then Holder(s, d) else if Bit(x, d) == 1 then |s| else |s| + 1
  {
    if |s| > 0 {
      assert (s + [x])[1..] == s[1..] + [x];
      HolderAppend(s[1..], x, d);
    }
  }

  /** The sorted non-last rods of a partition share no disk and hold only disks below D. */
  lemma SortedRodsDisjoint(rods: seq<nat>, D: nat)
    requires IsPartition(rods, D) && |rods| >= 1
    ensures Disjoint(SortDesc(Init(rods))) && AllBelow(SortDesc(Init(rods)), D)
  {
    var c, sorted := Canon(rods), SortDesc(Init(rods));
    CanonPartition(rods, D);
    forall j | 0 <= j < |sorted|
      ensures sorted[j] == c[j]
    {
    }
    forall j1, j2, d: nat | 0 <= j1 < |sorted| && 0 <= j2 < |sorted| && j1 != j2
      ensures Bit(sorted[j1], d) == 0 || Bit(sorted[j2], d) == 0
    {
      assert Bit(c[j1], d) == 0 || Bit(c[j2], d) == 0;
    }
  }

  /** On a partition, the rod that the hash's digit for disk d names is the rod of the
      representative that holds d. */
  lemma DigitNamesHolder(rods: seq<nat>, D: nat, d: nat)
    requires IsPartition(rods, D) && |rods| >= 1 && d < D
    ensures Slot(Digit(HashOf(rods, |rods|), |rods|, d), |rods|) == Holder(Canon(rods), d)
  {
    var R, c, sorted := |rods|, Canon(rods), SortDesc(Init(rods));
    SortedRodsDisjoint(rods, D);
    CanonPartition(rods, D);
    HashDigit(sorted, R, d);
    HolderOfPartition(c, D, d);
    SlotOfDigit(sorted, rods[R - 1], R, d);
  }

  /** Digit 0 names the last rod and digit h + 1 names rod h. */
  lemma SlotOfDigit(s: seq<nat>, x: nat, R: nat, d: nat)
    requires |s| + 1 == R && Holder(s + [x], d) < R
    ensures Slot(DigitOf(s, 0, d), R) == Holder(s + [x], d)
  {
    HolderAppend(s, x, d);
    var h := Holder(s, d);
    if h < |s| {
      DivMod(h, 0, R);
    } else {
      DivMod(R - 1, -1, R);
    }
  }

  /** `fromHash` read back from the hash of a position rebuilds the position's
      representative: the non-last rods sorted in descending order, the last rod unchanged. */
  lemma HashRoundTrip(rods: seq<nat>, D: nat)
    requires IsPartition(rods, D) && |rods| >= 1
    ensures Unhash(HashOf(rods, |rods|), |rods|, D) == Canon(rods)
  {
    var R, c := |rods|, Canon(rods);
    CanonPartition(rods, D);
    var hashVal := HashOf(rods, R);
    var u := Unhash(hashVal, R, D);
    forall k | 0 <= k < R
      ensures u[k] == c[k]
    {
      RodBound(hashVal, R, D, k);
      forall d | 0 <= d < D
        ensures Bit(u[k], d) == Bit(c[k], d)
      {
        RodBit(hashVal, R, D, k, d);
        DigitNamesHolder(rods, D, d);
        HolderOfPartition(c, D, d);
      }
      BitExtensionality(u[k], c[k], D);
    }
  }

  // What `__hash__` and `fromHash` promise.

  /** On every position the hash is a valid index: 0 <= hash < R^D, which is `numPositions`. */
  lemma HashBound(h: Hanoi)
    requires Valid(h)
    ensures 0 <= HashOf(h.rods, h.rodVariant) < NumPositions(h)
  {
    SortedRodsDisjoint(h.rods, h.diskVariant);
    WeightedBound(SortDesc(Init(h.rods)), h.rodVariant, 0, h.diskVariant);
  }

  /** The hash only sees the multiset of the non-last rods: permuting them keeps it, and
      the last rod does not enter it at all. */
  lemma HashSymmetric(a: seq<nat>, b: seq<nat>, R: nat)
    requires multiset(Init(a)) == multiset(Init(b))
    ensures HashOf(a, R) == HashOf(b, R)
  {
    SortDescPermutation(Init(a), Init(b));
  }

  /** The representative has the hash of the position it stands for. */
  lemma HashOfCanon(rods: seq<nat>, R: nat)
    requires |rods| >= 1
    ensures HashOf(Canon(rods), R) == HashOf(rods, R)
  {
    var sorted := SortDesc(Init(rods));
    assert Init(Canon(rods)) == sorted;
    SortedUnique(SortDesc(sorted), sorted);
  }

  /** Two positions of one variant share a hash exactly when they are the same up to a
      permutation of the non-last rods: same last rod, same multiset of other rods. */
  lemma HashInjectiveUpToSymmetry(a: Hanoi, b: Hanoi)
    requires Valid(a) && Valid(b)
    requires a.rodVariant == b.rodVariant && a.diskVariant == b.diskVariant
    ensures HashOf(a.rods, a.rodVariant) == HashOf(b.rods, b.rodVariant) <==>
      a.rods[|a.rods| - 1] == b.rods[|b.rods| - 1] && multiset(Init(a.rods)) == multiset(Init(b.rods))
  {
    var R, D := a.rodVariant, a.diskVariant;
    if HashOf(a.rods, R) == HashOf(b.rods, R) {
      HashRoundTrip(a.rods, D);
      HashRoundTrip(b.rods, D);
      assert Canon(a.rods)[..R - 1] == SortDesc(Init(a.rods));
      assert Canon(b.rods)[..R - 1] == SortDesc(Init(b.rods));
    }
    if multiset(Init(a.rods)) == multiset(Init(b.rods)) {
      HashSymmetric(a.rods, b.rods, R);
    }
  }

  /** `fromHash(variant, hash(S))` is S with its non-last rods sorted in descending order,
      a valid position with the same hash. */
  lemma FromHashRoundTrip(h: Hanoi)
    requires Valid(h)
    ensures FromHashOf(Variant(h), HashOf(h.rods, h.rodVariant)) == Ok(h.(rods := Canon(h.rods)))
    ensures Valid(h.(rods := Canon(h.rods)))
    ensures HashOf(Canon(h.rods), h.rodVariant) == HashOf(h.rods, h.rodVariant)
  {
    NewFromVariantId(h.rodVariant, h.diskVariant);
    HashRoundTrip(h.rods, h.diskVariant);
    CanonPartition(h.rods, h.diskVariant);
    HashOfCanon(h.rods, h.rodVariant);
  }
}
