/** The Towers of Hanoi puzzle object (puzzlesolver/puzzles/hanoi.py): its variant, its
    start position and its primitive value. */
module HanoiState {
  import opened Results
  import opened Bits
  import opened Text
  import opened Rods
  import opened Puzzle

  /** A Hanoi object: `rod_variant`, `disk_variant` and the list `rods` of rod masks. */
  datatype Hanoi = Hanoi(rodVariant: nat, diskVariant: nat, rods: seq<nat>)

  /** The rods line up with the variant: one mask per rod, at least one rod. */
  predicate WellFormed(h: Hanoi)
  {
    h.rodVariant >= 1 && |h.rods| == h.rodVariant
  }

  /** A well-formed state whose masks partition the disks: every position the game reaches. */
  ghost predicate Valid(h: Hanoi)
  {
    WellFormed(h) && IsPartition(h.rods, h.diskVariant)
  }

  /** The variant id "R_D" that the `variant` property formats. */
  function VariantId(rodVariant: nat, diskVariant: nat): string
  {
    NatToString(rodVariant) + "_" + NatToString(diskVariant)
  }

  /** The `variant` property. */
  function Variant(h: Hanoi): string
  {
    VariantId(h.rodVariant, h.diskVariant)
  }

  /** The `numPositions` property: the bound R^D on hash values. */
  function NumPositions(h: Hanoi): nat
  {
    Pow(h.rodVariant, h.diskVariant)
  }

  /** `[2 ** D - 1] + [0] * (R - 1)`: every disk on rod 0. */
  function StartRods(rodVariant: nat, diskVariant: nat): seq<nat>
  {
    [Pow2(diskVariant) - 1] + Copies<nat>(0, if rodVariant >= 1 then rodVariant - 1 else 0)
  }

  /** `Hanoi(variantid)`. The empty string stands for a missing id (None or ""), which
      keeps the default variant "3_3". */
  function New(variantId: string): (r: Result<Hanoi>)
    ensures r.Ok? ==> r.value.rods == StartRods(r.value.rodVariant, r.value.diskVariant)
    ensures r.Ok? && r.value.rodVariant >= 1 ==> Valid(r.value)
    ensures variantId != "" && |Split(variantId, '_')| != 2 ==> r == Fail(InvalidVariantId)
  {
    var result :=
      if variantId == "" then Ok(Hanoi(3, 3, StartRods(3, 3)))
      else
        var parts := Split(variantId, '_');
        if |parts| != 2 then Fail(InvalidVariantId)
        else match (ParseNat(parts[0]), ParseNat(parts[1]))
          case (Some(r), Some(d)) => Ok(Hanoi(r, d, StartRods(r, d)))
          case _ => Fail(InvalidLiteral);
    if result.Ok? && result.value.rodVariant >= 1 then
      StartIsPartition(result.value.rodVariant, result.value.diskVariant);
      result
    else
      result
  }

  /** `generateStartPosition(variantid)`, which builds the same object as the constructor:
      every disk on rod 0, the default "3_3" for a missing id, and a valid position
      whenever the variant has a rod. */
  function GenerateStartPosition(variantId: string): (r: Result<Hanoi>)
    ensures r == New(variantId)
    ensures variantId == "" ==> r == Ok(Hanoi(3, 3, [7, 0, 0]))
    ensures r.Ok? ==>
      var R, D := r.value.rodVariant, r.value.diskVariant;
      r.value.rods == [Pow2(D) - 1] + Copies<nat>(0, if R >= 1 then R - 1 else 0)
    ensures r.Ok? && r.value.rodVariant >= 1 ==> Valid(r.value)
  {
    assert Pow2(3) == 8;
    assert Copies<nat>(0, 2) == [0, 0];
    assert StartRods(3, 3) == [7, 0, 0];
    assert New("") == Ok(Hanoi(3, 3, StartRods(3, 3)));
    New(variantId)
  }

  /** The start position puts every disk on rod 0 and so partitions the disks. */
  lemma StartIsPartition(rodVariant: nat, diskVariant: nat)
    requires rodVariant >= 1
    ensures IsPartition(StartRods(rodVariant, diskVariant), diskVariant)
  {
    var rods := StartRods(rodVariant, diskVariant);
    forall k, d: nat | 0 <= k < |rods|
      ensures Bit(rods[k], d) == if k == 0 && d < diskVariant then 1 else 0
    {
      if k == 0 {
        AllOnes(diskVariant, d);
      } else {
        BitOfZero(d);
      }
    }
    forall d | 0 <= d < diskVariant
      ensures OnSomeRod(rods, d)
    {
      assert Bit(rods[0], d) == 1;
    }
  }

  /** Constructing from the id that `variant` formats gives back that variant with every
      disk on rod 0, and `variant` then formats the same id again. */
  lemma NewFromVariantId(rodVariant: nat, diskVariant: nat)
    ensures New(VariantId(rodVariant, diskVariant)) == Ok(Hanoi(rodVariant, diskVariant, StartRods(rodVariant, diskVariant)))
    ensures Variant(New(VariantId(rodVariant, diskVariant)).value) == VariantId(rodVariant, diskVariant)
  {
    var r, d := NatToString(rodVariant), NatToString(diskVariant);
    assert VariantId(rodVariant, diskVariant) == Join([r, d], '_');
    SplitJoin([r, d], '_');
    ParseNatToString(rodVariant);
    ParseNatToString(diskVariant);
  }

  /** The `variant` property names the object's variant: constructing from it gives back
      the same rod and disk counts, with every disk on rod 0. */
  lemma VariantRoundTrip(h: Hanoi)
    ensures Variant(h) == NatToString(h.rodVariant) + "_" + NatToString(h.diskVariant)
    ensures New(Variant(h)) == Ok(Hanoi(h.rodVariant, h.diskVariant, StartRods(h.rodVariant, h.diskVariant)))
  {
    NewFromVariantId(h.rodVariant, h.diskVariant);
  }

  /** `primitive`: SOLVABLE when the last rod holds all D disks, UNDECIDED otherwise. */
  function Primitive(h: Hanoi): (v: PuzzleValue)
    requires |h.rods| >= 1
    ensures v != Unsolvable
  {
    if h.rods[|h.rods| - 1] != Pow2(h.diskVariant) - 1 then Undecided else Solvable
  }

  /** On a valid state, primitive is SOLVABLE exactly when every rod but the last is empty. */
  lemma PrimitiveSolvedIffOthersEmpty(h: Hanoi)
    requires Valid(h)
    ensures Primitive(h) == Solvable <==> forall k :: 0 <= k < |h.rods| - 1 ==> h.rods[k] == 0
  {
    var rods, D, last := h.rods, h.diskVariant, |h.rods| - 1;
    if rods[last] == Pow2(D) - 1 {
      forall k | 0 <= k < last
        ensures rods[k] == 0
      {
        forall d | 0 <= d < D
          ensures Bit(rods[k], d) == Bit(0, d)
        {
          AllOnes(D, d);
          BitOfZero(d);
        }
        BitExtensionality(rods[k], 0, D);
      }
    }
    if forall k :: 0 <= k < last ==> rods[k] == 0 {
      forall d | 0 <= d < D
        ensures Bit(rods[last], d) == Bit(Pow2(D) - 1, d)
      {
        assert OnSomeRod(rods, d);
        var k :| 0 <= k < |rods| && Bit(rods[k], d) == 1;
        if k < last {
          BitOfZero(d);
        }
        AllOnes(D, d);
      }
      BitExtensionality(rods[last], Pow2(D) - 1, D);
    }
  }
}
