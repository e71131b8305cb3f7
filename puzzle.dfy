/** The contract every puzzle implements (puzzlesolver/puzzles/Puzzle.py), written as a
    record of the puzzle's operations together with the edge classes and the hash
    requirement that the contract defines in terms of them. */
module Puzzle {
  import opened Results

  /** The values `primitive` reports. */
  datatype PuzzleValue = Undecided | Solvable | Unsolvable

  /** The operations a concrete puzzle supplies. `doMove` yields None where the puzzle
      raises (a move it does not accept). */
  datatype PuzzleOps<!S, !M> = PuzzleOps(
    moves: S -> set<M>,           // generateMoves: every defined move, undo moves included
    legalMoves: S -> set<M>,      // generateLegalMoves: forward and bidirectional moves
    doMove: (S, M) -> Option<S>,
    primitive: S -> PuzzleValue,
    solutions: S -> seq<S>)       // generateSolutions: the solved states

  /** The base class's generateLegalMoves, which a puzzle inherits unless it overrides it. */
  function DefaultLegalMoves<S(!new), M>(moves: S -> set<M>): (legal: S -> set<M>)
    ensures forall s :: legal(s) == moves(s)
  {
    moves
  }

  /** There is a legal move from s that reaches b. */
  ghost predicate LegalEdge<S, M>(p: PuzzleOps<S, M>, s: S, b: S)
  {
    exists m :: m in p.legalMoves(s) && p.doMove(s, m) == Some(b)
  }

  /** generateForwardMoves: moves from s to some b with a legal s -> b move and no legal b -> s move. */
  ghost function ForwardMoves<S, M>(p: PuzzleOps<S, M>, s: S): set<M>
  {
    set m | m in p.moves(s) && p.doMove(s, m).Some? &&
      LegalEdge(p, s, p.doMove(s, m).value) && !LegalEdge(p, p.doMove(s, m).value, s)
  }

  /** generateUndoMoves: moves from s to some b with a legal b -> s move and no legal s -> b move. */
  ghost function UndoMoves<S, M>(p: PuzzleOps<S, M>, s: S): set<M>
  {
    set m | m in p.moves(s) && p.doMove(s, m).Some? &&
      LegalEdge(p, p.doMove(s, m).value, s) && !LegalEdge(p, s, p.doMove(s, m).value)
  }

  /** generateBiMoves: moves from s to some b with legal moves both ways. */
  ghost function BiMoves<S, M>(p: PuzzleOps<S, M>, s: S): set<M>
  {
    set m | m in p.moves(s) && p.doMove(s, m).Some? &&
      LegalEdge(p, s, p.doMove(s, m).value) && LegalEdge(p, p.doMove(s, m).value, s)
  }

  /** The moves that doMove accepts. */
  ghost function AcceptedMoves<S, M>(p: PuzzleOps<S, M>, s: S): set<M>
  {
    set m | m in p.moves(s) && p.doMove(s, m).Some?
  }

  /** The three classes are drawn from generateMoves and never share a move. */
  lemma EdgeClassesDisjoint<S, M>(p: PuzzleOps<S, M>, s: S)
    ensures ForwardMoves(p, s) !! UndoMoves(p, s)
    ensures ForwardMoves(p, s) !! BiMoves(p, s)
    ensures UndoMoves(p, s) !! BiMoves(p, s)
    ensures ForwardMoves(p, s) + UndoMoves(p, s) + BiMoves(p, s) <= AcceptedMoves(p, s)
  {
  }

  /** With the default generateLegalMoves every accepted move of generateMoves is a legal
      edge, so the accepted moves are exactly forward moves plus bi moves, and no move
      is an undo move. */
  lemma DefaultLegalMovesAreForwardAndBi<S, M>(p: PuzzleOps<S, M>, s: S)
    requires forall t :: p.legalMoves(t) == p.moves(t)
    ensures ForwardMoves(p, s) + BiMoves(p, s) == AcceptedMoves(p, s)
    ensures UndoMoves(p, s) == {}
  {
    forall m | m in AcceptedMoves(p, s)
      ensures LegalEdge(p, s, p.doMove(s, m).value)
    {
      assert m in p.legalMoves(s);
    }
  }

  /** generateSolutions' requirement: from every valid state it lists solved states only. */
  ghost predicate SolutionsContract<S(!new), M>(p: PuzzleOps<S, M>, valid: S -> bool)
  {
    forall s, t :: valid(s) && t in p.solutions(s) ==> p.primitive(t) == Solvable
  }

  /** Puzzle.__hash__'s requirement: among valid states, two states share a hash exactly
      when the puzzle declares them the same (equal, or equivalent by a symmetry). */
  ghost predicate HashContract<S(!new)>(hash: S -> int, same: (S, S) -> bool, valid: S -> bool)
  {
    forall s, t :: valid(s) && valid(t) ==> (hash(s) == hash(t) <==> same(s, t))
  }
}
