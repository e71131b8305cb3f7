/** The board codec of the Hanoi puzzle: convert_board, fromString, toString("minimal") and
    generateSolutions. A board reads "R_A_<D>_<R>_" followed by D rows of one cell per rod,
    top row first. A rod's column shows dashes above the letters of its disks, with 'A'
    (disk 0, the smallest) on top. */
module HanoiBoard {
  import opened Results
  import opened Bits
  import opened Text
  import opened Rods
  import opened Puzzle
  import opened HanoiState

  // Index arithmetic of a row-major grid with n columns.

  lemma MulAtLeast(a: nat, n: nat)
    requires a >= 1
    ensures a * n >= n
  {
  }

  lemma MulMonotone(a: nat, b: nat, n: nat)
    requires a <= b
    ensures a * n <= b * n
  {
  }

  /** Cell (i, k) of a grid with D rows and n columns lies inside it. */
  lemma GridIndexBound(i: nat, k: nat, n: nat, D: nat)
    requires i < D && k < n
    ensures i * n + k < D * n
  {
    MulMonotone(i + 1, D, n);
  }

  /** Cell (i, k) sits at position i * n + k. */
  lemma GridIndex(i: nat, k: nat, n: nat)
    requires k < n
    ensures (i * n + k) / n == i && (i * n + k) % n == k
  {
    var p := i * n + k;
    var q := p / n;
    assert (q - i) * n == k - p % n;
    if q > i {
      MulAtLeast(q - i, n);
    } else if q < i {
      MulAtLeast(i - q, n);
    }
  }

  // Writing a board.

  /** `chr(j + 65)`: the letter of disk j. */
  function Letter(j: nat): (c: char)
    requires j < 26
    ensures 'A' <= c <= 'Z'
  {
    (65 + j) as char
  }

  /** The letters of the disks below n on a rod, smallest first. */
  function Letters(rod: nat, n: nat): (s: string)
    requires n <= 26
    ensures |s| <= n
    ensures forall k :: 0 <= k < |s| ==> 'A' <= s[k] <= 'Z'
  {
    if n == 0 then []
    else Letters(rod, n - 1) + (if Bit(rod, n - 1) == 1 then [Letter(n - 1)] else [])
  }

  /** A rod's column, top cell first: dashes above the rod's letters. */
  function Column(rod: nat, D: nat): (c: string)
    requires D <= 26
    ensures |c| == D
    ensures forall k :: 0 <= k < D ==> c[k] == '-' || 'A' <= c[k] <= 'Z'
  {
    Copies('-', D - |Letters(rod, D)|) + Letters(rod, D)
  }

  /** Row i of the board: cell i of each rod's column, rods in order. */
  function Row(rods: seq<nat>, D: nat, i: nat): (row: string)
    requires D <= 26 && i < D
    ensures |row| == |rods|
  {
    seq(|rods|, k requires 0 <= k < |rods| => Column(rods[k], D)[i])
  }

  /** The first m rows of the board, top row first. */
  function Rows(rods: seq<nat>, D: nat, m: nat): (cells: string)
    requires D <= 26 && m <= D
    ensures |cells| == m * |rods|
    ensures forall p :: 0 <= p < |cells| ==> cells[p] == '-' || 'A' <= cells[p] <= 'Z'
  {
    if m == 0 then "" else Rows(rods, D, m - 1) + Row(rods, D, m - 1)
  }

  /** The cells of the board: all D rows. */
  function Cells(rods: seq<nat>, D: nat): (cells: string)
    requires D <= 26
  {
    Rows(rods, D, D)
  }

  /** Row i, column k of the first m rows is cell i of rod k's column. */
  lemma {:induction false} RowsAt(rods: seq<nat>, D: nat, m: nat, i: nat, k: nat)
    requires D <= 26 && i < m <= D && k < |rods|
    ensures i * |rods| + k < m * |rods|
    ensures Rows(rods, D, m)[i * |rods| + k] == Column(rods[k], D)[i]
  {
    var R := |rods|;
    GridIndexBound(i, k, R, m);
    var prev := Rows(rods, D, m - 1);
    assert Rows(rods, D, m) == prev + Row(rods, D, m - 1);
    if i < m - 1 {
      RowsAt(rods, D, m - 1, i, k);
      assert Rows(rods, D, m)[i * R + k] == prev[i * R + k];
    } else {
      assert i * R + k == |prev| + k;
      assert Rows(rods, D, m)[i * R + k] == Row(rods, D, i)[k];
    }
  }

  /** Row i, column k of the cells is cell i of rod k's column. */
  lemma CellAt(rods: seq<nat>, D: nat, i: nat, k: nat)
    requires D <= 26 && i < D && k < |rods|
    ensures i * |rods| + k < D * |rods|
    ensures Cells(rods, D)[i * |rods| + k] == Column(rods[k], D)[i]
  {
    RowsAt(rods, D, D, i, k);
  }

  /** `convert_board(rods)` on a puzzle of D disks and R rods: the header names D before R. */
  function Board(R: nat, D: nat, rods: seq<nat>): string
    requires D <= 26
  {
    "R_A_" + NatToString(D) + "_" + NatToString(R) + "_" + Cells(rods, D)
  }

  /** `convert_board`: the columns (`horizontal`) come from list comprehensions, and the
      rows (`rotate`) are built by the loops. */
  method ConvertBoard(h: Hanoi, rods: seq<nat>) returns (board: string)
    requires h.diskVariant <= 26
    ensures board == Board(h.rodVariant, h.diskVariant, rods)
  {
    var D, n := h.diskVariant, |rods|;
    var horizontal := seq(n, k requires 0 <= k < n => Column(rods[k], D));
    var rotate := "";
    for i := 0 to D
      invariant rotate == Rows(rods, D, i)
    {
      var row := "";
      for k := 0 to n
        invariant |row| == k
        invariant forall k' :: 0 <= k' < k ==> row[k'] == horizontal[k'][i]
      {
        row := row + [horizontal[k][i]];
      }
      assert row == Row(rods, D, i);
      rotate := rotate + row;
    }
    board := "R_A_" + NatToString(D) + "_" + NatToString(h.rodVariant) + "_" + rotate;
  }

  // Reading a board.

  /** A cell that `2 ** (ord(letter) - 65)` turns into an integer: a dash (skipped) or a
      character from 'A' up. */
  predicate IntegerCell(c: char)
  {
    c == '-' || c >= 'A'
  }

  predicate IntegerCells(s: string)
  {
    forall k :: 0 <= k < |s| ==> IntegerCell(s[k])
  }

  function CellValue(c: char): nat
    requires IntegerCell(c)
  {
    if c == '-' then 0 else Pow2(c as int - 65)
  }

  /** The mask fromString adds up from a column's cells. */
  function Value(s: string): nat
    requires IntegerCells(s)
  {
    if |s| == 0 then 0 else Value(s[..|s| - 1]) + CellValue(s[|s| - 1])
  }

  /** Column j of a grid with D rows and R columns, top cell first (`matrix[i][j]`). */
  function ColumnOf(cells: string, R: nat, D: nat, j: nat): (c: string)
    requires |cells| == D * R && j < R
    ensures |c| == D
  {
    seq(D, i requires 0 <= i < D => GridIndexBound(i, j, R, D); cells[i * R + j])
  }

  predicate IntegerGrid(cells: string, R: nat, D: nat)
    requires |cells| == D * R
  {
    forall j :: 0 <= j < R ==> IntegerCells(ColumnOf(cells, R, D, j))
  }

  /** The rods that a grid's columns add up to. */
  function GridRods(cells: string, R: nat, D: nat): (rods: seq<nat>)
    requires |cells| == D * R && IntegerGrid(cells, R, D)
    ensures |rods| == R
  {
    seq(R, j requires 0 <= j < R => Value(ColumnOf(cells, R, D, j)))
  }

  /** The part of fromString after the header: the cell count, the integer masks, the
      power-of-two test on the mask sum, and the object built from "R_D". */
  function DecodeGrid(cells: string, R: nat, D: nat): Result<Hanoi>
  {
    if |cells| != D * R then Fail(InvalidPositionId)
    else if !IntegerGrid(cells, R, D) then Fail(NonIntegerMask)
    else
      var rods := GridRods(cells, R, D);
      if !IsPow2(Sum(rods) + 1) then Fail(InvalidPositionId)
      else match New(VariantId(R, D))
        case Ok(p) => Ok(p.(rods := rods))
        case Fail(e) => Fail(e)
  }

  /** `fromString(positionid)`. The parts "R" and "A" of the header are not inspected. */
  function Decode(positionId: string): Result<Hanoi>
  {
    var parts := Split(positionId, '_');
    if |parts| < 3 then Fail(MissingPart)
    else match ParseNat(parts[2])
      case None => Fail(InvalidLiteral)
      case Some(D) =>
        if |parts| < 4 then Fail(MissingPart)
        else match ParseNat(parts[3])
          case None => Fail(InvalidLiteral)
          case Some(R) =>
            if |parts| < 5 then Fail(MissingPart)
            else DecodeGrid(parts[4], R, D)
  }

  /** The inner loop of fromString: one column's cells summed top to bottom, dashes
      skipped. `integral` is false when a cell below 'A' has made the sum a float. */
  method ColumnMask(column: string) returns (rod: nat, integral: bool)
    ensures integral <==> IntegerCells(column)
    ensures integral ==> rod == Value(column)
  {
    rod, integral := 0, true;
    for i := 0 to |column|
      invariant integral <==> IntegerCells(column[..i])
      invariant integral ==> rod == Value(column[..i])
    {
      var letter := column[i];
      assert column[..i + 1][..i] == column[..i];
      if letter != '-' {
        if letter < 'A' {
          // 2 ** exp is a float here, and the later `&` on the sum raises TypeError
          integral := false;
        } else {
          rod := rod + Pow2(letter as int - 65);
        }
      }
    }
    assert column[..|column|] == column;
  }

  /** `fromString`: the columns (`matrix[i][j]` over i) are read one by one. */
  method FromString(positionId: string) returns (r: Result<Hanoi>)
    ensures r == Decode(positionId)
  {
    var parts := Split(positionId, '_');
    if |parts| < 3 {
      return Fail(MissingPart);
    }
    var d := ParseNat(parts[2]);
    if d.None? {
      return Fail(InvalidLiteral);
    }
    if |parts| < 4 {
      return Fail(MissingPart);
    }
    var rv := ParseNat(parts[3]);
    if rv.None? {
      return Fail(InvalidLiteral);
    }
    if |parts| < 5 {
      return Fail(MissingPart);
    }
    var D, R, matrix := d.value, rv.value, parts[4];
    if |matrix| != D * R {
      return Fail(InvalidPositionId);
    }
    var rods: seq<nat> := [];
    var integral := true;
    for j := 0 to R
      invariant |rods| == j
      invariant integral <==> forall j' :: 0 <= j' < j ==> IntegerCells(ColumnOf(matrix, R, D, j'))
      invariant integral ==> forall j' :: 0 <= j' < j ==> rods[j'] == Value(ColumnOf(matrix, R, D, j'))
    {
      var column := ColumnOf(matrix, R, D, j);
      var rod, columnIntegral := ColumnMask(column);
      rods := rods + [rod];
      integral := integral && columnIntegral;
    }
    if !integral {
      return Fail(NonIntegerMask);
    }
    assert rods == GridRods(matrix, R, D);
    if !IsPow2(Sum(rods) + 1) {
      return Fail(InvalidPositionId);
    }
    var puzzle := New(VariantId(R, D));
    if puzzle.Fail? {
      return Fail(puzzle.error);
    }
    r := Ok(puzzle.value.(rods := rods));
  }

  // The round trip.

  /** The letters of the first n disks read back as cells: adding disk n - 1's letter adds
      its power of two. */
  lemma LettersStep(rod: nat, n: nat)
    requires 1 <= n <= 26
    ensures IntegerCells(Letters(rod, n)) && IntegerCells(Letters(rod, n - 1))
    ensures Value(Letters(rod, n)) == Value(Letters(rod, n - 1)) + if Bit(rod, n - 1) == 1 then Pow2(n - 1) else 0
  {
    var prev := Letters(rod, n - 1);
    if Bit(rod, n - 1) == 1 {
      var c := Letter(n - 1);
      var s := prev + [c];
      assert Letters(rod, n) == s;
      assert s[..|s| - 1] == prev;
      assert c as int - 65 == n - 1;
      assert CellValue(c) == Pow2(n - 1);
      assert Value(s) == Value(prev) + CellValue(c);
    } else {
      assert Letters(rod, n) == prev;
    }
  }

  /** The letters of the first n disks stand for a mask below 2^n. */
  lemma {:induction false} LettersBound(rod: nat, n: nat)
    requires n <= 26
    ensures IntegerCells(Letters(rod, n))
    ensures Value(Letters(rod, n)) < Pow2(n)
  {
    if n > 0 {
      LettersBound(rod, n - 1);
      LettersStep(rod, n);
    }
  }

  /** Adding disk n - 1's power of two (when the rod holds it) to a mask that agrees with
      the rod below n - 1 gives a mask that agrees with the rod below n. */
  lemma TopBit(rod: nat, v: nat, w: nat, n: nat, d: nat)
    requires 1 <= n && v < Pow2(n - 1) && w == v + if Bit(rod, n - 1) == 1 then Pow2(n - 1) else 0
    requires Bit(v, d) == if d < n - 1 then Bit(rod, d) else 0
    ensures Bit(w, d) == if d < n then Bit(rod, d) else 0
  {
    SetTopBit(v, w, n - 1, Bit(rod, n - 1) == 1, d);
  }

  /** Bit d of the letters' value is the rod's bit d for the first n disks and 0 above. */
  lemma {:induction false} LettersBit(rod: nat, n: nat, d: nat)
    requires n <= 26
    ensures Bit(Value(Letters(rod, n)), d) == if d < n then Bit(rod, d) else 0
  {
    if n == 0 {
      BitOfZero(d);
    } else {
      LettersBit(rod, n - 1, d);
      LettersBound(rod, n - 1);
      LettersStep(rod, n);
      TopBit(rod, Value(Letters(rod, n - 1)), Value(Letters(rod, n)), n, d);
    }
  }

  lemma {:induction false} DashesValue(m: nat, s: string)
    requires IntegerCells(s)
    ensures IntegerCells(Copies('-', m) + s)
    ensures Value(Copies('-', m) + s) == Value(s)
    decreases m, |s|
  {
    var t := Copies('-', m) + s;
    if |s| > 0 {
      DashesValue(m, s[..|s| - 1]);
      assert t[..|t| - 1] == Copies('-', m) + s[..|s| - 1];
    } else if m > 0 {
      DashesValue(m - 1, s);
      assert t[..|t| - 1] == Copies('-', m - 1) + s;
    }
  }

  /** Reading a rod's column back gives the rod. */
  lemma ColumnValue(rod: nat, D: nat)
    requires D <= 26 && rod < Pow2(D)
    ensures IntegerCells(Column(rod, D))
    ensures Value(Column(rod, D)) == rod
  {
    LettersBound(rod, D);
    forall d | 0 <= d < D
      ensures Bit(Value(Letters(rod, D)), d) == Bit(rod, d)
    {
      LettersBit(rod, D, d);
    }
    DashesValue(D - |Letters(rod, D)|, Letters(rod, D));
    BitExtensionality(Value(Letters(rod, D)), rod, D);
  }

  /** Column j of the written cells is rod j's column. */
  lemma ColumnOfCells(rods: seq<nat>, D: nat, j: nat)
    requires D <= 26 && j < |rods|
    ensures ColumnOf(Cells(rods, D), |rods|, D, j) == Column(rods[j], D)
  {
    var n := |rods|;
    forall i | 0 <= i < D
      ensures ColumnOf(Cells(rods, D), n, D, j)[i] == Column(rods[j], D)[i]
    {
      CellAt(rods, D, i, j);
    }
  }

  lemma JoinFive(parts: seq<string>)
    requires |parts| == 5
    ensures Join(parts, '_') == parts[0] + "_" + parts[1] + "_" + parts[2] + "_" + parts[3] + "_" + parts[4]
  {
    assert parts[1..][1..] == parts[2..] && parts[2..][1..] == parts[3..] && parts[3..][1..] == parts[4..];
    assert Join(parts[4..], '_') == parts[4];
    assert Join(parts[3..], '_') == parts[3] + "_" + parts[4];
    assert Join(parts[2..], '_') == parts[2] + "_" + (parts[3] + "_" + parts[4]);
    assert Join(parts[1..], '_') == parts[1] + "_" + (parts[2] + "_" + (parts[3] + "_" + parts[4]));
  }

  /** The board splits at '_' into its header fields and its cells. */
  lemma BoardParts(R: nat, D: nat, rods: seq<nat>)
    requires D <= 26
    ensures Split(Board(R, D, rods), '_') == ["R", "A", NatToString(D), NatToString(R), Cells(rods, D)]
  {
    var parts := ["R", "A", NatToString(D), NatToString(R), Cells(rods, D)];
    JoinFive(parts);
    assert "R_A_" == parts[0] + "_" + parts[1] + "_";
    assert Board(R, D, rods) == Join(parts, '_');
    forall k | 0 <= k < 5
      ensures '_' !in parts[k]
    {
      if k == 2 || k == 3 {
        assert forall c :: c in parts[k] ==> IsDigit(c);
      } else if k == 4 {
        assert forall c :: c in parts[k] ==> c == '-' || 'A' <= c <= 'Z' by {
          forall c | c in parts[k]
            ensures c == '-' || 'A' <= c <= 'Z'
          {
            var p :| 0 <= p < |parts[k]| && parts[k][p] == c;
          }
        }
      }
    }
    SplitJoin(parts, '_');
  }

  /** fromString(convert_board(rods)) gives back the state, rods and variant alike. */
  lemma BoardRoundTrip(h: Hanoi)
    requires Valid(h) && h.diskVariant <= 26
    ensures Decode(Board(h.rodVariant, h.diskVariant, h.rods)) == Ok(h)
  {
    var R, D, rods := h.rodVariant, h.diskVariant, h.rods;
    var cells := Cells(rods, D);
    BoardParts(R, D, rods);
    ParseNatToString(D);
    ParseNatToString(R);
    assert Decode(Board(R, D, rods)) == DecodeGrid(cells, R, D);
    CellsGrid(rods, D);
    PartitionSum(rods, D);
    Pow2IsPow2(D);
    assert IsPow2(Sum(GridRods(cells, R, D)) + 1);
    NewFromVariantId(R, D);
    var start := Hanoi(R, D, StartRods(R, D));
    assert New(VariantId(R, D)) == Ok(start);
    assert DecodeGrid(cells, R, D) == Ok(start.(rods := rods));
  }

  /** The written cells read back, column by column, as the rods. */
  lemma CellsGrid(rods: seq<nat>, D: nat)
    requires D <= 26 && forall j :: 0 <= j < |rods| ==> rods[j] < Pow2(D)
    ensures |Cells(rods, D)| == D * |rods| && IntegerGrid(Cells(rods, D), |rods|, D)
    ensures GridRods(Cells(rods, D), |rods|, D) == rods
  {
    var R, cells := |rods|, Cells(rods, D);
    forall j | 0 <= j < R
      ensures IntegerCells(ColumnOf(cells, R, D, j))
      ensures Value(ColumnOf(cells, R, D, j)) == rods[j]
    {
      ColumnOfCells(rods, D, j);
      ColumnValue(rods[j], D);
    }
  }

  /** `toString(mode="minimal")`, which fromString reads back to the same state. */
  function ToString(h: Hanoi): (s: string)
    requires h.diskVariant <= 26
    ensures Valid(h) ==> Decode(s) == Ok(h)
  {
    var board := Board(h.rodVariant, h.diskVariant, h.rods);
    assert Valid(h) ==> Decode(board) == Ok(h) by {
      if Valid(h) {
        BoardRoundTrip(h);
      }
    }
    board
  }

  /** What fromString checks before it builds a position: the cell count is D times R, no
      cell lies below 'A', the masks are the sums of the cell columns, one per rod of the
      variant "R_D" it names, and they add up to one less than a power of two. */
  lemma DecodeChecks(positionId: string)
    ensures Decode(positionId).Ok? ==>
      var h, parts := Decode(positionId).value, Split(positionId, '_');
      |parts| >= 5 && ParseNat(parts[2]) == Some(h.diskVariant) && ParseNat(parts[3]) == Some(h.rodVariant) &&
      |parts[4]| == h.diskVariant * h.rodVariant && |h.rods| == h.rodVariant &&
      IntegerGrid(parts[4], h.rodVariant, h.diskVariant) &&
      h.rods == GridRods(parts[4], h.rodVariant, h.diskVariant) && IsPow2(Sum(h.rods) + 1)
  {
    var parts := Split(positionId, '_');
    if Decode(positionId).Ok? {
      var D, R := ParseNat(parts[2]).value, ParseNat(parts[3]).value;
      assert Decode(positionId) == DecodeGrid(parts[4], R, D);
      NewFromVariantId(R, D);
    }
  }

  /** fromString checks only that the mask sum plus one is a power of two, so in "3_3" the
      cells "AAA------" (disk 0 on all three rods) are accepted as a state that is not a
      partition. */
  lemma DecodeAcceptsNonPartition()
    ensures Decode("R_A_3_3_AAA------") == Ok(Hanoi(3, 3, [1, 1, 1]))
    ensures !IsPartition([1, 1, 1], 3)
  {
    SplitOfSample();
    ParseThree();
    var parts := Split("R_A_3_3_AAA------", '_');
    assert |parts| == 5 && parts[2] == "3" && parts[3] == "3" && parts[4] == "AAA------";
    assert ParseNat(parts[2]) == Some(3) && ParseNat(parts[3]) == Some(3);
    assert Decode("R_A_3_3_AAA------") == DecodeGrid("AAA------", 3, 3);
    GridOfThreeColumns();
    DiskZeroTwice();
  }

  lemma SplitOfSample()
    ensures Split("R_A_3_3_AAA------", '_') == ["R", "A", "3", "3", "AAA------"]
  {
    var parts := ["R", "A", "3", "3", "AAA------"];
    JoinFive(parts);
    assert "R_A_3_3_AAA------" == Join(parts, '_');
    SplitJoin(parts, '_');
  }

  lemma ParseThree()
    ensures ParseNat("3") == Some(3)
  {
    assert NatToString(3) == "3";
    ParseNatToString(3);
  }

  lemma DiskZeroTwice()
    ensures !Disjoint([1, 1, 1])
  {
    var rods: seq<nat> := [1, 1, 1];
    assert Bit(1, 0) == 1;
    assert Bit(rods[0], 0) == 1 && Bit(rods[1], 0) == 1;
  }

  /** The grid "AAA------" of three rows and three rods holds disk 0 on every rod. */
  lemma GridOfThreeColumns()
    ensures DecodeGrid("AAA------", 3, 3) == Ok(Hanoi(3, 3, [1, 1, 1]))
  {
    var cells := "AAA------";
    forall j | 0 <= j < 3
      ensures ColumnOf(cells, 3, 3, j) == ['A', '-', '-']
    {
    }
    assert Value(['A', '-', '-']) == 1 by {
      assert ['A', '-', '-'][..2] == ['A', '-'];
      assert ['A', '-'][..1] == ['A'];
      assert ['A'][..0] == [];
    }
    assert GridRods(cells, 3, 3) == [1, 1, 1];
    assert IsPow2(4) by {
      assert IsPow2(2);
    }
    NewFromVariantId(3, 3);
    assert NatToString(3) == "3";
  }

  // generateSolutions.

  /** The rods of the solved state: every disk on the last rod. */
  function GoalRods(R: nat, D: nat): seq<nat>
  {
    Copies<nat>(0, if R >= 1 then R - 1 else 0) + [Pow2(D) - 1]
  }

  /** The text generateSolutions writes: `"0-" * (R - 1) + str(2 ** D - 1)`. */
  function SolutionText(R: nat, D: nat): string
  {
    Repeat("0-", if R >= 1 then R - 1 else 0) + NatToString(Pow2(D) - 1)
  }

  /** `[int(c) for c in parts]`. */
  function ParseAll(parts: seq<string>): (r: Option<seq<nat>>)
    ensures r.Some? ==> |r.value| == |parts|
  {
    if |parts| == 0 then Some([])
    else match (ParseNat(parts[0]), ParseAll(parts[1..]))
      case (Some(v), Some(vs)) => Some([v] + vs)
      case _ => None
  }

  /** generateSolutions: the parsed text, written as a board and read back. */
  function Solutions(h: Hanoi): Result<seq<Hanoi>>
    requires h.diskVariant <= 26
  {
    match ParseAll(Split(SolutionText(h.rodVariant, h.diskVariant), '-'))
    case None => Fail(InvalidLiteral)
    case Some(rods) =>
      match Decode(Board(h.rodVariant, h.diskVariant, rods))
      case Ok(p) => Ok([p])
      case Fail(e) => Fail(e)
  }

  /** `generateSolutions`, appending `int(c)` for each piece of the split text. */
  method GenerateSolutions(h: Hanoi) returns (r: Result<seq<Hanoi>>)
    requires h.diskVariant <= 26
    ensures r == Solutions(h)
  {
    var pieces := Split(SolutionText(h.rodVariant, h.diskVariant), '-');
    var rods: seq<nat> := [];
    for k := 0 to |pieces|
      invariant ParseAll(pieces[..k]) == Some(rods)
    {
      var v := ParseNat(pieces[k]);
      ParseAllAppend(pieces[..k], [pieces[k]]);
      assert pieces[..k + 1] == pieces[..k] + [pieces[k]];
      assert [pieces[k]][1..] == [];
      if v.None? {
        ParseAllAppend(pieces[..k + 1], pieces[k + 1..]);
        assert pieces == pieces[..k + 1] + pieces[k + 1..];
        return Fail(InvalidLiteral);
      }
      assert [v.value] + [] == [v.value];
      rods := rods + [v.value];
    }
    assert pieces[..|pieces|] == pieces;
    var p := ConvertBoard(h, rods);
    var decoded := FromString(p);
    if decoded.Fail? {
      return Fail(decoded.error);
    }
    r := Ok([decoded.value]);
  }

  /** Parsing a concatenation is parsing both halves. */
  lemma {:induction false} ParseAllAppend(a: seq<string>, b: seq<string>)
    ensures ParseAll(a + b) ==
      match (ParseAll(a), ParseAll(b))
      case (Some(x), Some(y)) => Some(x + y)
      case _ => None
  {
    if |a| == 0 {
      assert a + b == b;
      if ParseAll(b).Some? {
        assert [] + ParseAll(b).value == ParseAll(b).value;
      }
    } else {
      var c := a + b;
      ParseAllAppend(a[1..], b);
      assert c[1..] == a[1..] + b && c[0] == a[0];
      var head, x, y := ParseNat(a[0]), ParseAll(a[1..]), ParseAll(b);
      if head.Some? && x.Some? && y.Some? {
        assert ParseAll(c) == Some([head.value] + (x.value + y.value));
        assert [head.value] + (x.value + y.value) == ([head.value] + x.value) + y.value;
      } else {
        assert ParseAll(c) == None;
      }
    }
  }

  /** `[int(c) for c in parts]` succeeds exactly when every part is a number, and then
      holds the value of each part, in order. */
  lemma {:induction false} ParseAllValues(parts: seq<string>)
    ensures ParseAll(parts).Some? <==> forall k :: 0 <= k < |parts| ==> ParseNat(parts[k]).Some?
    ensures ParseAll(parts).Some? ==>
      forall k :: 0 <= k < |parts| ==> ParseNat(parts[k]) == Some(ParseAll(parts).value[k])
  {
    if |parts| > 0 {
      ParseAllValues(parts[1..]);
      assert forall k :: 1 <= k < |parts| ==> parts[k] == parts[1..][k - 1];
    }
  }

  lemma {:induction false} SplitRepeat(n: nat, s: string)
    requires '-' !in s
    ensures Split(Repeat("0-", n) + s, '-') == Copies("0", n) + [s]
  {
    if n == 0 {
      assert Repeat("0-", 0) + s == s;
      SplitNoSeparator(s, '-');
    } else {
      SplitRepeat(n - 1, s);
      assert Repeat("0-", n) + s == "0" + ['-'] + (Repeat("0-", n - 1) + s);
      SplitAtSeparator("0", '-', Repeat("0-", n - 1) + s);
    }
  }

  lemma {:induction false} ParseZeros(n: nat, s: string, v: nat)
    requires ParseNat(s) == Some(v)
    ensures ParseAll(Copies("0", n) + [s]) == Some(Copies<nat>(0, n) + [v])
  {
    var parts := Copies("0", n) + [s];
    if n == 0 {
      assert parts == [s] && parts[1..] == [];
      assert Copies<nat>(0, n) + [v] == [v] == [v] + [];
    } else {
      ParseZeros(n - 1, s, v);
      assert parts[1..] == Copies("0", n - 1) + [s];
      ParseNatToString(0);
      assert NatToString(0) == "0";
      assert parts[0] == "0";
      assert [0] + (Copies<nat>(0, n - 1) + [v]) == Copies<nat>(0, n) + [v];
    }
  }

  lemma GoalIsPartition(R: nat, D: nat)
    requires R >= 1
    ensures IsPartition(GoalRods(R, D), D)
  {
    var rods := GoalRods(R, D);
    forall k, d: nat | 0 <= k < |rods|
      ensures Bit(rods[k], d) == if k == R - 1 && d < D then 1 else 0
    {
      if k == R - 1 {
        AllOnes(D, d);
      } else {
        BitOfZero(d);
      }
    }
    forall d | 0 <= d < D
      ensures OnSomeRod(rods, d)
    {
      assert Bit(rods[R - 1], d) == 1;
    }
  }

  /** generateSolutions returns exactly one state: every disk on the last rod, which
      primitive calls SOLVABLE. */
  lemma SolutionsAreGoal(h: Hanoi)
    requires h.rodVariant >= 1 && h.diskVariant <= 26
    ensures Solutions(h) == Ok([Hanoi(h.rodVariant, h.diskVariant, GoalRods(h.rodVariant, h.diskVariant))])
    ensures Valid(Solutions(h).value[0])
    ensures Primitive(Solutions(h).value[0]) == Solvable
  {
    var R, D := h.rodVariant, h.diskVariant;
    var top := NatToString(Pow2(D) - 1);
    assert '-' !in top by {
      assert forall c :: c in top ==> IsDigit(c);
    }
    SplitRepeat(R - 1, top);
    ParseNatToString(Pow2(D) - 1);
    ParseZeros(R - 1, top, Pow2(D) - 1);
    assert SolutionText(R, D) == Repeat("0-", R - 1) + top;
    assert Split(SolutionText(R, D), '-') == Copies("0", R - 1) + [top];
    assert GoalRods(R, D) == Copies<nat>(0, R - 1) + [Pow2(D) - 1];
    assert ParseAll(Split(SolutionText(R, D), '-')) == Some(GoalRods(R, D));
    GoalIsPartition(R, D);
    var goal := Hanoi(R, D, GoalRods(R, D));
    BoardRoundTrip(goal);
    assert Decode(Board(R, D, GoalRods(R, D))) == Ok(goal);
  }
}
