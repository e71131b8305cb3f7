/** Moves of the Hanoi puzzle: convert_move and revert_move (the "M_<from>_<to>" codec),
    generateMoves and doMove. */
module HanoiMoves {
  import opened Results
  import opened Bits
  import opened Text
  import opened Rods
  import opened HanoiState
  import opened HanoiBoard

  /** convert_move cuts the first eight characters of the board, which is the header
      "R_A_<D>_<R>_" only when D and R are single digits, as in every listed variant. */
  predicate MoveCodecDomain(h: Hanoi)
  {
    WellFormed(h) && h.rodVariant <= 9 && h.diskVariant <= 9
  }

  /** With single-digit D and R the header has eight characters. */
  lemma BoardHeader(h: Hanoi)
    requires MoveCodecDomain(h)
    ensures |Board(h.rodVariant, h.diskVariant, h.rods)| >= 8
    ensures Board(h.rodVariant, h.diskVariant, h.rods)[8..] == Cells(h.rods, h.diskVariant)
  {
    var header := "R_A_" + NatToString(h.diskVariant) + "_" + NatToString(h.rodVariant) + "_";
    assert |header| == 8;
    assert Board(h.rodVariant, h.diskVariant, h.rods) == header + Cells(h.rods, h.diskVariant);
  }

  // Scanning a column.

  /** The first row of a column that is not a dash, or |c| when every row is a dash. */
  function FirstNonDash(c: string): (k: nat)
    ensures k <= |c|
    ensures k < |c| ==> c[k] != '-'
    ensures forall i :: 0 <= i < k ==> c[i] == '-'
  {
    if |c| == 0 || c[0] != '-' then 0 else 1 + FirstNonDash(c[1..])
  }

  /** The last row of a column that is a dash, if any. */
  function LastDash(c: string): (r: Option<nat>)
    ensures r.Some? ==> r.value < |c| && c[r.value] == '-'
    ensures r.Some? ==> forall i :: r.value < i < |c| ==> c[i] != '-'
    ensures r.None? ==> forall i :: 0 <= i < |c| ==> c[i] != '-'
  {
    if |c| == 0 then None
    else if c[|c| - 1] == '-' then Some(|c| - 1)
    else LastDash(c[..|c| - 1])
  }

  /** `from_top_most`: the cell of the top disk of rod i, or 0 when the rod is empty. */
  function FromCell(h: Hanoi, i: nat): nat
    requires MoveCodecDomain(h) && i < h.rodVariant
  {
    var top := FirstNonDash(Column(h.rods[i], h.diskVariant));
    if top < h.diskVariant then top * h.rodVariant + i else 0
  }

  /** `to_bottom_most`: the lowest empty cell of rod j, or 0 when the rod is full. */
  function ToCell(h: Hanoi, j: nat): nat
    requires MoveCodecDomain(h) && j < h.rodVariant
  {
    match LastDash(Column(h.rods[j], h.diskVariant))
    case Some(row) => row * h.rodVariant + j
    case None => 0
  }

  /** `convert_move((i, j))`. */
  function EncodeMove(h: Hanoi, i: nat, j: nat): string
    requires MoveCodecDomain(h) && i < h.rodVariant && j < h.rodVariant
  {
    "M_" + NatToString(FromCell(h, i)) + "_" + NatToString(ToCell(h, j))
  }

  /** The `from_top_most` scan of convert_move: the first non-dash cell of column `from`,
      visiting the cells of the rows with stride R, or 0 when the column is all dashes. */
  method TopMostCell(cells: string, R: nat, D: nat, from: nat) returns (index: nat)
    requires |cells| == D * R && from < R
    ensures var top := FirstNonDash(ColumnOf(cells, R, D, from));
      index == if top < D then top * R + from else 0
  {
    ghost var column := ColumnOf(cells, R, D, from);
    index := 0;
    var row := 0;
    while row < D
      invariant row <= D
      invariant forall r :: 0 <= r < row ==> column[r] == '-'
    {
      GridIndexBound(row, from, R, D);
      assert cells[row * R + from] == column[row];
      if cells[row * R + from] != '-' {
        index := row * R + from;
        return;
      }
      row := row + 1;
    }
  }

  /** The `to_bottom_most` scan of convert_move: the last dash cell of column `to`, or 0
      when the column has no dash. */
  method BottomMostCell(cells: string, R: nat, D: nat, to: nat) returns (index: nat)
    requires |cells| == D * R && to < R
    ensures index == match LastDash(ColumnOf(cells, R, D, to))
      case Some(row) => row * R + to
      case None => 0
  {
    ghost var column := ColumnOf(cells, R, D, to);
    index := 0;
    for row := 0 to D
      invariant index == match LastDash(column[..row]) case Some(r) => r * R + to case None => 0
    {
      GridIndexBound(row, to, R, D);
      assert cells[row * R + to] == column[row];
      assert column[..row + 1][..row] == column[..row];
      if cells[row * R + to] == '-' {
        index := row * R + to;
      }
    }
    assert column[..D] == column;
  }

  /** `convert_move`: writes the board and scans its cells for the two rods' cells. */
  method ConvertMove(h: Hanoi, from: nat, to: nat) returns (m: string)
    requires MoveCodecDomain(h) && from < h.rodVariant && to < h.rodVariant
    ensures m == EncodeMove(h, from, to)
  {
    var R, D := h.rodVariant, h.diskVariant;
    var board := ConvertBoard(h, h.rods);
    BoardHeader(h);
    board := board[8..];
    ColumnOfCells(h.rods, D, from);
    ColumnOfCells(h.rods, D, to);
    var fromTopMost := TopMostCell(board, R, D, from);
    var toBottomMost := BottomMostCell(board, R, D, to);
    m := "M_" + NatToString(fromTopMost) + "_" + NatToString(toBottomMost);
  }

  /** `revert_move`: the two numbers of "M_<a>_<b>", each reduced modulo R. */
  function RevertMove(R: nat, m: string): (r: Result<(nat, nat)>)
    ensures r.Ok? ==> r.value.0 < R && r.value.1 < R
  {
    var parts := Split(m, '_');
    if |parts| < 2 then Fail(MissingPart)
    else match ParseNat(parts[1])
      case None => Fail(InvalidLiteral)
      case Some(a) =>
        if R == 0 then Fail(DivisionByZero)
        else if |parts| < 3 then Fail(MissingPart)
        else match ParseNat(parts[2])
          case None => Fail(InvalidLiteral)
          case Some(b) => Ok((a % R, b % R))
  }

  // The rule and the moves.

  /** The Hanoi rule for a move from rod i to rod j: rod i has a top disk t, and rod j
      holds no disk as small as t. */
  ghost predicate Legal(h: Hanoi, i: nat, j: nat)
    requires i < |h.rods| && j < |h.rods|
  {
    exists t: nat :: Bit(h.rods[i], t) == 1 &&
      (forall d: nat :: d < t ==> Bit(h.rods[i], d) == 0) &&
      (forall d: nat :: d <= t ==> Bit(h.rods[j], d) == 0)
  }

  /** generateMoves' test `ffs(rods[i]) < ffs(rods[j])` is the Hanoi rule. */
  lemma LowerIsLegal(h: Hanoi, i: nat, j: nat)
    requires i < |h.rods| && j < |h.rods|
    ensures Lower(Ffs(h.rods[i]), Ffs(h.rods[j])) <==> Legal(h, i, j)
    ensures Legal(h, i, j) ==> i != j && h.rods[i] != 0 && Ffs(h.rods[i]).At?
  {
    var a, b := h.rods[i], h.rods[j];
    if Lower(Ffs(a), Ffs(b)) {
      var t := Ffs(a).index;
      forall d: nat | d <= t
        ensures Bit(b, d) == 0
      {
        if b == 0 {
          BitOfZero(d);
        }
      }
      assert Bit(a, t) == 1;
    }
    if Legal(h, i, j) {
      var t: nat :| Bit(a, t) == 1 && (forall d: nat :: d < t ==> Bit(a, d) == 0) &&
        (forall d: nat :: d <= t ==> Bit(b, d) == 0);
      FfsUnique(a, t);
      if b != 0 {
        assert Bit(b, Ffs(b).index) == 1;
      }
    }
  }

  /** generateMoves: the encoded move for every pair of rods that the test admits. */
  function Moves(h: Hanoi): set<string>
    requires MoveCodecDomain(h)
  {
    set i, j | 0 <= i < h.rodVariant && 0 <= j < h.rodVariant && Lower(Ffs(h.rods[i]), Ffs(h.rods[j])) ::
      EncodeMove(h, i, j)
  }

  /** The moves of the pairs before (i, j) in generateMoves' loop order. */
  ghost function MovesBefore(h: Hanoi, i: nat, j: nat): set<string>
    requires MoveCodecDomain(h)
  {
    set i', j' | 0 <= i' < h.rodVariant && 0 <= j' < h.rodVariant && (i' < i || (i' == i && j' < j)) &&
      Lower(Ffs(h.rods[i']), Ffs(h.rods[j'])) :: EncodeMove(h, i', j')
  }

  lemma MovesBeforeNext(h: Hanoi, i: nat, j: nat)
    requires MoveCodecDomain(h) && i < h.rodVariant && j < h.rodVariant
    ensures MovesBefore(h, i, j + 1) ==
      MovesBefore(h, i, j) + (if Lower(Ffs(h.rods[i]), Ffs(h.rods[j])) then {EncodeMove(h, i, j)} else {})
  {
    MovesBeforeNextCovered(h, i, j);
    MovesBeforeNextCovers(h, i, j);
  }

  /** Every move before (i, j + 1) is a move before (i, j) or the move (i, j). */
  lemma MovesBeforeNextCovered(h: Hanoi, i: nat, j: nat)
    requires MoveCodecDomain(h) && i < h.rodVariant && j < h.rodVariant
    ensures MovesBefore(h, i, j + 1) <=
      MovesBefore(h, i, j) + (if Lower(Ffs(h.rods[i]), Ffs(h.rods[j])) then {EncodeMove(h, i, j)} else {})
  {
    var R := h.rodVariant;
    var before := MovesBefore(h, i, j);
    var added: set<string> := if Lower(Ffs(h.rods[i]), Ffs(h.rods[j])) then {EncodeMove(h, i, j)} else {};
    forall x | x in MovesBefore(h, i, j + 1)
      ensures x in before + added
    {
      var i', j' :| 0 <= i' < R && 0 <= j' < R && (i' < i || (i' == i && j' < j + 1)) &&
        Lower(Ffs(h.rods[i']), Ffs(h.rods[j'])) && x == EncodeMove(h, i', j');
      if i' == i && j' == j {
        assert x in added;
      } else {
        assert x in before;
      }
    }
  }

  /** The moves before (i, j) and the move (i, j) itself are moves before (i, j + 1). */
  lemma MovesBeforeNextCovers(h: Hanoi, i: nat, j: nat)
    requires MoveCodecDomain(h) && i < h.rodVariant && j < h.rodVariant
    ensures MovesBefore(h, i, j) + (if Lower(Ffs(h.rods[i]), Ffs(h.rods[j])) then {EncodeMove(h, i, j)} else {}) <=
      MovesBefore(h, i, j + 1)
  {
    var R := h.rodVariant;
    var next := MovesBefore(h, i, j + 1);
    forall x | x in MovesBefore(h, i, j)
      ensures x in next
    {
      var i', j' :| 0 <= i' < R && 0 <= j' < R && (i' < i || (i' == i && j' < j)) &&
        Lower(Ffs(h.rods[i']), Ffs(h.rods[j'])) && x == EncodeMove(h, i', j');
      assert x in next;
    }
    if Lower(Ffs(h.rods[i]), Ffs(h.rods[j])) {
      assert EncodeMove(h, i, j) in next;
    }
  }

  lemma MovesBeforeRow(h: Hanoi, i: nat)
    requires MoveCodecDomain(h) && i < h.rodVariant
    ensures MovesBefore(h, i, h.rodVariant) == MovesBefore(h, i + 1, 0)
  {
  }

  lemma MovesBeforeAll(h: Hanoi)
    requires MoveCodecDomain(h)
    ensures MovesBefore(h, h.rodVariant, 0) == Moves(h)
  {
  }

  /** `generateMoves`: the nested loops over pairs of rods, adding each admitted move. */
  method GenerateMoves(h: Hanoi) returns (moves: set<string>)
    requires MoveCodecDomain(h)
    ensures moves == Moves(h)
  {
    var R := h.rodVariant;
    var tops := seq(R, k requires 0 <= k < R => Ffs(h.rods[k]));
    moves := {};
    for i := 0 to R
      invariant moves == MovesBefore(h, i, 0)
    {
      for j := 0 to R
        invariant moves == MovesBefore(h, i, j)
      {
        MovesBeforeNext(h, i, j);
        if Lower(tops[i], tops[j]) {
          var move := ConvertMove(h, i, j);
          moves := moves + {move};
        }
      }
      MovesBeforeRow(h, i);
    }
    MovesBeforeAll(h);
  }

  /** doMove: rejects a move outside generateMoves, decodes it and moves the top disk. */
  function Step(h: Hanoi, m: string): Result<Hanoi>
    requires MoveCodecDomain(h)
  {
    if m !in Moves(h) then Fail(MoveNotPossible)
    else match RevertMove(h.rodVariant, m)
      case Fail(e) => Fail(e)
      case Ok((src, dst)) => MoveTop(h, src, dst)
  }

  /** The rest of doMove: builds a fresh puzzle of the same variant, takes the top disk off
      the source rod and puts it on the destination rod of a copy, and checks the two
      asserts. */
  function MoveTop(h: Hanoi, src: nat, dst: nat): Result<Hanoi>
    requires src < |h.rods| && dst < |h.rods|
  {
    match New(Variant(h))
    case Fail(e) => Fail(e)
    case Ok(puzzle) =>
      match Ffs(h.rods[src])
      case Infinite => Fail(AssertionFailed)
      case At(l) =>
        var rods := MoveDisk(h.rods, src, dst, l);
        if Sum(rods) != Pow2(h.diskVariant) - 1 then Fail(AssertionFailed)
        else Ok(puzzle.(rods := rods))
  }

  /** `doMove(move)` as written: the membership test against generateMoves, revert_move,
      then the update of a fresh puzzle's rods. */
  method DoMove(h: Hanoi, m: string) returns (r: Result<Hanoi>)
    requires MoveCodecDomain(h)
    ensures r == Step(h, m)
  {
    var moves := GenerateMoves(h);
    if m !in moves {
      return Fail(MoveNotPossible);
    }
    var move := RevertMove(h.rodVariant, m);
    if move.Fail? {
      return Fail(move.error);
    }
    var (src, dst) := move.value;
    assert Step(h, m) == MoveTop(h, src, dst);
    r := MoveTopDisk(h, src, dst);
  }

  /** The second half of doMove, on a copy of the rods. */
  method MoveTopDisk(h: Hanoi, src: nat, dst: nat) returns (r: Result<Hanoi>)
    requires src < |h.rods| && dst < |h.rods|
    ensures r == MoveTop(h, src, dst)
  {
    var puzzle := New(Variant(h));
    if puzzle.Fail? {
      return Fail(puzzle.error);
    }
    var rods := h.rods;
    var lsb := Ffs(rods[src]);
    if lsb.Infinite? {
      return Fail(AssertionFailed);
    }
    var l := lsb.index;
    MoveDiskUpdates(rods, src, dst, l);
    rods := rods[src := rods[src] - Pow2(l)];
    rods := rods[dst := rods[dst] + Pow2(l)];
    assert rods == MoveDisk(h.rods, src, dst, l);
    if Sum(rods) != Pow2(h.diskVariant) - 1 {
      return Fail(AssertionFailed);
    }
    r := Ok(puzzle.value.(rods := rods));
  }

  // What the move codec promises on valid states.

  /** A rod holding some disk shows a letter in its column. */
  lemma NonEmptyColumn(rod: nat, D: nat)
    requires D <= 26 && rod < Pow2(D) && rod != 0
    ensures FirstNonDash(Column(rod, D)) < D
  {
    var c := Column(rod, D);
    ColumnValue(rod, D);
    if FirstNonDash(c) == D {
      assert c == Copies('-', D) + [];
      DashesValue(D, []);
    }
  }

  /** With n letters for the disks below n, every one of those disks is on the rod. */
  lemma {:induction false} FullLetters(rod: nat, n: nat, d: nat)
    requires n <= 26 && |Letters(rod, n)| == n && d < n
    ensures Bit(rod, d) == 1
  {
    if d < n - 1 {
      FullLetters(rod, n - 1, d);
    }
  }

  /** A rod missing one of the disks below D shows a dash in its column. */
  lemma ColumnWithRoom(rod: nat, D: nat, t: nat)
    requires D <= 26 && t < D && Bit(rod, t) == 0
    ensures LastDash(Column(rod, D)).Some?
  {
    var c := Column(rod, D);
    if |Letters(rod, D)| == D {
      FullLetters(rod, D, t);
    } else {
      assert c[0] == '-';
    }
  }

  /** For a legal move, column i shows a letter, so the from-cell is the cell of its top
      occupied row, and column j shows a dash, so the to-cell is the cell of its lowest
      empty row. */
  lemma MoveCells(h: Hanoi, i: nat, j: nat)
    requires Valid(h) && MoveCodecDomain(h) && i < h.rodVariant && j < h.rodVariant && Legal(h, i, j)
    ensures FirstNonDash(Column(h.rods[i], h.diskVariant)) < h.diskVariant
    ensures FromCell(h, i) == FirstNonDash(Column(h.rods[i], h.diskVariant)) * h.rodVariant + i
    ensures LastDash(Column(h.rods[j], h.diskVariant)).Some?
    ensures ToCell(h, j) == LastDash(Column(h.rods[j], h.diskVariant)).value * h.rodVariant + j
  {
    var D := h.diskVariant;
    LowerIsLegal(h, i, j);
    var t := Ffs(h.rods[i]).index;
    NonEmptyColumn(h.rods[i], D);
    if t >= D {
      BitAbove(h.rods[i], D, t);
    }
    assert Bit(h.rods[j], t) == 0;
    ColumnWithRoom(h.rods[j], D, t);
  }

  /** "M_" + a + "_" + b splits into its three fields. */
  /** revert_move on a well-formed move string gives its two numbers reduced modulo R. */
  lemma RevertMoveOfNumbers(R: nat, a: nat, b: nat)
    requires R >= 1
    ensures RevertMove(R, "M_" + NatToString(a) + "_" + NatToString(b)) == Ok((a % R, b % R))
  {
    MoveParts(a, b);
    ParseNatToString(a);
    ParseNatToString(b);
  }

  lemma MoveParts(a: nat, b: nat)
    ensures Split("M_" + NatToString(a) + "_" + NatToString(b), '_') == ["M", NatToString(a), NatToString(b)]
  {
    var parts := ["M", NatToString(a), NatToString(b)];
    assert parts[1..][1..] == parts[2..];
    assert Join(parts[1..], '_') == parts[1] + "_" + parts[2];
    assert "M_" == parts[0] + "_";
    assert "M_" + NatToString(a) + "_" + NatToString(b) == Join(parts, '_');
    assert forall c :: c in parts[1] ==> IsDigit(c);
    assert forall c :: c in parts[2] ==> IsDigit(c);
    SplitJoin(parts, '_');
  }

  /** revert_move(convert_move((i, j))) == (i, j) for every legal move. */
  lemma MoveRoundTrip(h: Hanoi, i: nat, j: nat)
    requires Valid(h) && MoveCodecDomain(h) && i < h.rodVariant && j < h.rodVariant && Legal(h, i, j)
    ensures RevertMove(h.rodVariant, EncodeMove(h, i, j)) == Ok((i, j))
  {
    MoveCells(h, i, j);
    GridIndex(FirstNonDash(Column(h.rods[i], h.diskVariant)), i, h.rodVariant);
    GridIndex(LastDash(Column(h.rods[j], h.diskVariant)).value, j, h.rodVariant);
    MoveParts(FromCell(h, i), ToCell(h, j));
    ParseNatToString(FromCell(h, i));
    ParseNatToString(ToCell(h, j));
  }

  /** Every move generateMoves offers decodes to a pair of rods that the Hanoi rule allows,
      and every such pair is offered and decodes to itself. */
  lemma MovesAreLegalPairs(h: Hanoi)
    requires Valid(h) && MoveCodecDomain(h)
    ensures forall m :: m in Moves(h) ==>
      var r := RevertMove(h.rodVariant, m);
      r.Ok? && Legal(h, r.value.0, r.value.1) && EncodeMove(h, r.value.0, r.value.1) == m
    ensures forall i, j :: 0 <= i < h.rodVariant && 0 <= j < h.rodVariant && Legal(h, i, j) ==>
      EncodeMove(h, i, j) in Moves(h) && RevertMove(h.rodVariant, EncodeMove(h, i, j)) == Ok((i, j))
  {
    forall m | m in Moves(h)
      ensures var r := RevertMove(h.rodVariant, m);
        r.Ok? && Legal(h, r.value.0, r.value.1) && EncodeMove(h, r.value.0, r.value.1) == m
    {
      var i, j :| 0 <= i < h.rodVariant && 0 <= j < h.rodVariant &&
        Lower(Ffs(h.rods[i]), Ffs(h.rods[j])) && m == EncodeMove(h, i, j);
      LowerIsLegal(h, i, j);
      MoveRoundTrip(h, i, j);
    }
    forall i, j | 0 <= i < h.rodVariant && 0 <= j < h.rodVariant && Legal(h, i, j)
      ensures EncodeMove(h, i, j) in Moves(h) && RevertMove(h.rodVariant, EncodeMove(h, i, j)) == Ok((i, j))
    {
      LowerIsLegal(h, i, j);
      MoveRoundTrip(h, i, j);
    }
  }

  /** doMove on a legal move: the top disk t of rod i goes to rod j; every other disk stays,
      the variant is kept and the result is again a valid state. */
  lemma StepLegal(h: Hanoi, i: nat, j: nat)
    requires Valid(h) && MoveCodecDomain(h) && i < h.rodVariant && j < h.rodVariant && Legal(h, i, j)
    ensures Ffs(h.rods[i]).At?
    ensures var t := Ffs(h.rods[i]).index;
      Step(h, EncodeMove(h, i, j)) == Ok(Hanoi(h.rodVariant, h.diskVariant, MoveDisk(h.rods, i, j, t)))
    ensures var t := Ffs(h.rods[i]).index; var after := MoveDisk(h.rods, i, j, t);
      after[i] == h.rods[i] - Pow2(t) && after[j] == h.rods[j] + Pow2(t) &&
      (forall k :: 0 <= k < |after| && k != i && k != j ==> after[k] == h.rods[k]) &&
      Sum(after) == Pow2(h.diskVariant) - 1 &&
      Valid(Hanoi(h.rodVariant, h.diskVariant, after))
  {
    LowerIsLegal(h, i, j);
    MovesAreLegalPairs(h);
    assert Step(h, EncodeMove(h, i, j)) == MoveTop(h, i, j);
    MoveTopLegal(h, i, j);
  }

  /** On a valid state the second half of doMove succeeds for a legal pair and moves the
      top disk of rod i onto rod j, keeping the partition. */
  lemma MoveTopLegal(h: Hanoi, i: nat, j: nat)
    requires Valid(h) && i < h.rodVariant && j < h.rodVariant && Legal(h, i, j)
    ensures Ffs(h.rods[i]).At?
    ensures var t := Ffs(h.rods[i]).index;
      MoveTop(h, i, j) == Ok(Hanoi(h.rodVariant, h.diskVariant, MoveDisk(h.rods, i, j, t)))
    ensures var t := Ffs(h.rods[i]).index; var after := MoveDisk(h.rods, i, j, t);
      after[i] == h.rods[i] - Pow2(t) && after[j] == h.rods[j] + Pow2(t) &&
      (forall k :: 0 <= k < |after| && k != i && k != j ==> after[k] == h.rods[k]) &&
      Sum(after) == Pow2(h.diskVariant) - 1 &&
      Valid(Hanoi(h.rodVariant, h.diskVariant, after))
  {
    LowerIsLegal(h, i, j);
    var t := Ffs(h.rods[i]).index;
    MoveDiskPartition(h.rods, h.diskVariant, i, j, t);
    PartitionSum(MoveDisk(h.rods, i, j, t), h.diskVariant);
    NewFromVariantId(h.rodVariant, h.diskVariant);
  }

  /** On a valid state doMove succeeds exactly on the moves of generateMoves. */
  lemma StepSucceedsOnMoves(h: Hanoi, m: string)
    requires Valid(h) && MoveCodecDomain(h)
    ensures Step(h, m).Ok? <==> m in Moves(h)
  {
    if m in Moves(h) {
      var i, j :| 0 <= i < h.rodVariant && 0 <= j < h.rodVariant &&
        Lower(Ffs(h.rods[i]), Ffs(h.rods[j])) && m == EncodeMove(h, i, j);
      LowerIsLegal(h, i, j);
      StepLegal(h, i, j);
    }
  }

  /** After disk t, the top disk of rod i, moves to rod j, the move back from j to i is legal. */
  lemma MoveBackLegal(h: Hanoi, i: nat, j: nat, t: nat)
    requires Valid(h) && i < |h.rods| && j < |h.rods| && i != j && Ffs(h.rods[i]) == At(t)
    requires forall d: nat :: d <= t ==> Bit(h.rods[j], d) == 0
    ensures Legal(h.(rods := MoveDisk(h.rods, i, j, t)), j, i)
    ensures Ffs(MoveDisk(h.rods, i, j, t)[j]) == At(t)
  {
    var after := MoveDisk(h.rods, i, j, t);
    MoveDiskPartition(h.rods, h.diskVariant, i, j, t);
    assert Bit(after[j], t) == 1;
    assert forall d: nat :: d < t ==> Bit(after[j], d) == 0;
    assert forall d: nat :: d <= t ==> Bit(after[i], d) == 0;
    FfsUnique(after[j], t);
  }

  /** Moving disk t from rod i to rod j and back restores the rods. */
  lemma MoveDiskBack(rods: seq<nat>, D: nat, i: nat, j: nat, t: nat)
    requires IsPartition(rods, D) && i < |rods| && j < |rods| && i != j && Bit(rods[i], t) == 1
    ensures Bit(MoveDisk(rods, i, j, t)[j], t) == 1
    ensures MoveDisk(MoveDisk(rods, i, j, t), j, i, t) == rods
  {
    var after := MoveDisk(rods, i, j, t);
    MoveDiskPartition(rods, D, i, j, t);
    MoveDiskPartition(after, D, j, i, t);
    var back := MoveDisk(after, j, i, t);
    forall k | 0 <= k < |back|
      ensures back[k] == rods[k]
    {
      BitExtensionality(back[k], rods[k], D);
    }
  }

  /** The state after a legal move (i, j) is valid and the move (j, i) is legal there. */
  lemma AfterStep(h: Hanoi, i: nat, j: nat) returns (t: nat, b: Hanoi)
    requires Valid(h) && MoveCodecDomain(h) && i < h.rodVariant && j < h.rodVariant && Legal(h, i, j)
    ensures Ffs(h.rods[i]) == At(t) && Bit(h.rods[i], t) == 1
    ensures b == Hanoi(h.rodVariant, h.diskVariant, MoveDisk(h.rods, i, j, t))
    ensures Step(h, EncodeMove(h, i, j)) == Ok(b)
    ensures Valid(b) && MoveCodecDomain(b) && Legal(b, j, i) && Ffs(b.rods[j]) == At(t)
  {
    LowerIsLegal(h, i, j);
    StepLegal(h, i, j);
    t := Ffs(h.rods[i]).index;
    b := Hanoi(h.rodVariant, h.diskVariant, MoveDisk(h.rods, i, j, t));
    MoveBackLegal(h, i, j, t);
    assert b == h.(rods := MoveDisk(h.rods, i, j, t));
  }

  /** Hanoi moves are bidirectional: after doMove with a move (i, j), the move (j, i) is
      offered and takes the result back to the original state. */
  lemma StepReversible(h: Hanoi, i: nat, j: nat)
    requires Valid(h) && MoveCodecDomain(h) && i < h.rodVariant && j < h.rodVariant && Legal(h, i, j)
    ensures Step(h, EncodeMove(h, i, j)).Ok?
    ensures var b := Step(h, EncodeMove(h, i, j)).value;
      b.rodVariant == h.rodVariant && b.diskVariant == h.diskVariant &&
      Valid(b) && MoveCodecDomain(b) && Legal(b, j, i) &&
      EncodeMove(b, j, i) in Moves(b) && Step(b, EncodeMove(b, j, i)) == Ok(h)
  {
    var t, b := AfterStep(h, i, j);
    StepLegal(b, j, i);
    MoveDiskBack(h.rods, h.diskVariant, i, j, t);
    assert MoveDisk(b.rods, j, i, t) == h.rods;
    assert Step(b, EncodeMove(b, j, i)) == Ok(h);
    MovesAreLegalPairs(b);
    LowerIsLegal(b, j, i);
  }
}
