/** Outcomes of operations that the puzzle code can abort with a Python exception. */
module Results {

  datatype Option<+T> = None | Some(value: T)

  /** The exceptions the Hanoi code raises, one constructor per distinct cause. */
  datatype Error =
    | InvalidVariantId    // ValueError("Invalid variantID"): the variant id is not two '_'-separated parts
    | InvalidLiteral      // ValueError raised by int() on a part that is not a number
    | MissingPart         // IndexError: a '_'-separated part that the code indexes is absent
    | InvalidPositionId   // ValueError("invalid PositionID"): wrong cell count or mask sum
    | NonIntegerMask      // TypeError: a cell below 'A' makes the mask a float, and `&` rejects it
    | MoveNotPossible     // ValueError("Move not possible"): the move is not in generateMoves
    | DivisionByZero      // ZeroDivisionError: `% rod_variant` with no rods
    | AssertionFailed     // AssertionError from one of doMove's assert statements

  datatype Result<+T> = Ok(value: T) | Fail(error: Error)
}
