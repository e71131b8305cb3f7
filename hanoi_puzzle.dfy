/** The Hanoi class as an implementation of the puzzle contract: its operations as a
    `PuzzleOps` record, its move classes and its hash requirement. */
module HanoiPuzzle {
  import opened Results
  import opened Rods
  import opened Puzzle
  import opened HanoiState
  import opened HanoiBoard
  import opened HanoiMoves
  import opened HanoiHash

  /** generateMoves on the states the move codec covers. */
  function MovesOf(h: Hanoi): set<string>
  {
    if MoveCodecDomain(h) then Moves(h) else {}
  }

  /** doMove as the contract sees it: None where the puzzle raises. */
  function DoMoveOf(h: Hanoi, m: string): (r: Option<Hanoi>)
    ensures MoveCodecDomain(h) ==> (r.Some? <==> Step(h, m).Ok?)
  {
    if MoveCodecDomain(h) then
      match Step(h, m)
      case Ok(b) => Some(b)
      case Fail(_) => None
    else None
  }

  /** doMove as the contract sees it, on a valid position: it accepts exactly the moves of
      generateMoves, and each accepted move leads to a valid position of the same variant. */
  lemma DoMoveOfContract(h: Hanoi, m: string)
    requires Valid(h) && MoveCodecDomain(h)
    ensures DoMoveOf(h, m).Some? <==> m in MovesOf(h)
    ensures DoMoveOf(h, m).Some? ==>
      var b := DoMoveOf(h, m).value;
      Valid(b) && b.rodVariant == h.rodVariant && b.diskVariant == h.diskVariant
  {
    StepSucceedsOnMoves(h, m);
    if m in Moves(h) {
      MovesAreLegalPairs(h);
      var (i, j) := RevertMove(h.rodVariant, m).value;
      assert EncodeMove(h, i, j) == m;
      StepReversible(h, i, j);
    }
  }

  /** primitive on states with at least one rod; with none, `rods[-1]` raises. */
  function PrimitiveOf(h: Hanoi): PuzzleValue
  {
    if |h.rods| >= 1 then Primitive(h) else Undecided
  }

  /** generateSolutions on the states the board codec covers; empty where it raises. */
  function SolutionsOf(h: Hanoi): seq<Hanoi>
  {
    if h.diskVariant <= 26 then
      match Solutions(h)
      case Ok(s) => s
      case Fail(_) => []
    else []
  }

  /** Hanoi keeps the inherited generateLegalMoves. */
  function HanoiOps(): (p: PuzzleOps<Hanoi, string>)
    ensures forall h :: p.legalMoves(h) == p.moves(h)
  {
    PuzzleOps(MovesOf, DefaultLegalMoves(MovesOf), DoMoveOf, PrimitiveOf, SolutionsOf)
  }

  /** A move of generateMoves leads to a position from which a legal move leads back. */
  lemma MoveIsBidirectional(h: Hanoi, m: string)
    requires Valid(h) && MoveCodecDomain(h) && m in Moves(h)
    ensures HanoiOps().doMove(h, m).Some?
    ensures LegalEdge(HanoiOps(), h, HanoiOps().doMove(h, m).value)
    ensures LegalEdge(HanoiOps(), HanoiOps().doMove(h, m).value, h)
  {
    var p := HanoiOps();
    MovesAreLegalPairs(h);
    var (i, j) := RevertMove(h.rodVariant, m).value;
    assert EncodeMove(h, i, j) == m;
    StepReversible(h, i, j);
    var b := Step(h, m).value;
    assert p.doMove(h, m) == Some(b);
    assert m in p.legalMoves(h);
    var back := EncodeMove(b, j, i);
    assert back in p.legalMoves(b) && p.doMove(b, back) == Some(h);
  }

  /** Every Hanoi move is bidirectional: on a valid position every move of generateMoves is
      accepted and is a bi move, and there are no forward and no undo moves. */
  lemma AllMovesBidirectional(h: Hanoi)
    requires Valid(h) && MoveCodecDomain(h)
    ensures AcceptedMoves(HanoiOps(), h) == Moves(h)
    ensures BiMoves(HanoiOps(), h) == Moves(h)
    ensures ForwardMoves(HanoiOps(), h) == {} && UndoMoves(HanoiOps(), h) == {}
  {
    var p := HanoiOps();
    forall m | m in Moves(h)
      ensures p.doMove(h, m).Some?
      ensures LegalEdge(p, h, p.doMove(h, m).value) && LegalEdge(p, p.doMove(h, m).value, h)
    {
      MoveIsBidirectional(h, m);
    }
    DefaultLegalMovesAreForwardAndBi(p, h);
  }

  /** Two positions are the same puzzle for the hash when they differ only by a permutation
      of the non-last rods. */
  predicate SameUpToSymmetry(a: Hanoi, b: Hanoi)
  {
    |a.rods| >= 1 && |b.rods| >= 1 &&
    a.rods[|a.rods| - 1] == b.rods[|b.rods| - 1] && multiset(Init(a.rods)) == multiset(Init(b.rods))
  }

  /** Puzzle.__hash__'s requirement holds for every variant: among the valid positions of
      the variant, equal hashes mean the same position up to the rods' symmetry. */
  lemma HanoiHashContract(rodVariant: nat, diskVariant: nat)
    ensures HashContract((h: Hanoi) => HashOf(h.rods, h.rodVariant), SameUpToSymmetry,
      (h: Hanoi) => Valid(h) && h.rodVariant == rodVariant && h.diskVariant == diskVariant)
  {
    forall a: Hanoi, b: Hanoi | Valid(a) && Valid(b) && a.rodVariant == rodVariant && a.diskVariant == diskVariant &&
      b.rodVariant == rodVariant && b.diskVariant == diskVariant
      ensures HashOf(a.rods, a.rodVariant) == HashOf(b.rods, b.rodVariant) <==> SameUpToSymmetry(a, b)
    {
      HashInjectiveUpToSymmetry(a, b);
    }
  }

  /** generateSolutions' requirement holds for every variant the board codec covers: the
      one state it lists is solved. */
  lemma HanoiSolutionsContract(rodVariant: nat, diskVariant: nat)
    requires diskVariant <= 26
    ensures SolutionsContract(HanoiOps(),
      (h: Hanoi) => Valid(h) && h.rodVariant == rodVariant && h.diskVariant == diskVariant)
  {
    var p := HanoiOps();
    forall h: Hanoi, t: Hanoi | Valid(h) && h.rodVariant == rodVariant && h.diskVariant == diskVariant &&
      t in p.solutions(h)
      ensures p.primitive(t) == Solvable
    {
      SolutionsAreGoal(h);
      assert t == Solutions(h).value[0];
    }
  }
}
