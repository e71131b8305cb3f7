# Towers of Hanoi for GamesmanPuzzles, in Dafny

This project models the Towers of Hanoi puzzle of GamesmanPuzzles
(`puzzlesolver/puzzles/hanoi.py`) and the general puzzle contract it implements
(`puzzlesolver/puzzles/Puzzle.py`), and proves what the puzzle's solver relies on.

A Hanoi position of variant `R_D` has `R` rods and `D` disks. It is stored as a list of
`R` integer masks, one per rod: bit `d` of a mask is set when disk `d` is on that rod,
and disk 0 is the smallest. The model covers these operations:

- the constructor, `variant`, `numPositions` and `generateStartPosition`;
- `ffs`, which finds the top disk of a rod;
- `primitive`, `generateMoves`, `doMove` and `generateSolutions`;
- the symmetry-reduced `__hash__` and its inverse `fromHash`;
- the board codec (`convert_board`, `toString("minimal")`, `fromString`);
- the move codec (`convert_move` and `revert_move`).

The Hanoi object is a datatype value. `doMove` and `fromHash` build a fresh object,
so the original position is unchanged by construction. Code that loops or updates a
list in place is a method proved against a specification function. These are the
loops of `__hash__`, `fromHash`, `fromString`, `convert_board`, `convert_move`,
`generateMoves`, `generateSolutions` and `doMove`. Python exceptions become
`Result.Fail` with one `Error` constructor per cause (see `results.dfy`).

The puzzle contract is a record `PuzzleOps` of the operations a puzzle supplies:

- `generateMoves`, `generateLegalMoves`, `doMove`, `primitive` and `generateSolutions`;
- ghost definitions of forward, undo and bidirectional moves;
- the requirements on `__hash__` and on `generateSolutions`.

Hanoi instantiates the record in `HanoiPuzzle.HanoiOps`.

`fromString` disagrees with its docstring (hanoi.py:151-152), which says a string that
leads to an illegal position is rejected. The code only checks that the masks' sum plus
one is a power of two. The model follows the code. `HanoiBoard.DecodeAcceptsNonPartition`
shows that in variant `3_3` the cells `AAA------` are accepted: disk 0 is then on all
three rods.

Modules, in dependency order:

| module | file | contents |
|---|---|---|
| `Results` | `results.dfy` | `Option`, `Result`, the error causes |
| `Bits` | `bits.dfy` | bits of a natural, `ffs`, the power-of-two test |
| `Text` | `text.dfy` | `str.split`, `int()` on digit strings, `str()` |
| `Rods` | `rods.dfy` | partitions of the disks among rods, moving one disk |
| `Sorting` | `sorting.dfy` | the descending sort used by the hash |
| `Puzzle` | `puzzle.dfy` | the puzzle contract |
| `HanoiState` | `hanoi_state.dfy` | the Hanoi object, its variant, start position and `primitive` |
| `HanoiBoard` | `hanoi_board.dfy` | `convert_board`, `fromString`, `toString`, `generateSolutions` |
| `HanoiMoves` | `hanoi_moves.dfy` | `convert_move`, `revert_move`, `generateMoves`, `doMove` |
| `HanoiHash` | `hanoi_hash.dfy` | `__hash__`, `fromHash` |
| `HanoiPuzzle` | `hanoi_puzzle.dfy` | Hanoi as an instance of the contract |

## Model

A position is **valid** when it has `R >= 1` rods, one mask per rod, and the masks
partition the disks `0..D-1`. A move `(i, j)` is **legal** when rod `i` has a top disk
`t` and rod `j` holds no disk as small as `t`.

| member | source | states |
|---|---|---|
| `Bits.Ffs` | puzzlesolver/puzzles/hanoi.py:8-14 | It gives the infinite result exactly for an empty rod. Otherwise its index is a set bit with no set bit below it, which is the rod's top disk. |
| `Bits.FfsUnique` | puzzlesolver/puzzles/hanoi.py:8-14 | A set bit with only clear bits below it is the index `ffs` returns. |
| `Bits.AllOnes` | puzzlesolver/puzzles/hanoi.py:55 | `2**D - 1` holds exactly the disks `0..D-1`. |
| `Bits.Pow2IsPow2` | puzzlesolver/puzzles/hanoi.py:183-185 | Every power of two passes the `x & -x == x` test. |
| `Text.ParseNatToString` | puzzlesolver/puzzles/hanoi.py:64 | `int(str(n)) == n`. |
| `Text.Split` | puzzlesolver/puzzles/hanoi.py:50 | There is at least one part, and no part contains the separator. |
| `Text.SplitJoin` | puzzlesolver/puzzles/hanoi.py:50 | Splitting the join of separator-free parts gives back the parts. |
| `Text.JoinSplit` | puzzlesolver/puzzles/hanoi.py:164 | Joining the parts of a split gives back the string. |
| `Rods.PartitionSum` | puzzlesolver/puzzles/hanoi.py:243 | The masks of a partition of `D` disks sum to `2**D - 1`. |
| `Rods.PartitionPermutation` | puzzlesolver/puzzles/hanoi.py:83-84 | Reordering the rods keeps a partition. |
| `Rods.MoveDiskPartition` | puzzlesolver/puzzles/hanoi.py:239-243 | Moving a disk of rod `i` to another rod `j` clears its bit on `i` and sets it on `j`. It changes no other bit and keeps the partition. |
| `Sorting.SortDesc` | puzzlesolver/puzzles/hanoi.py:84 | The result is in descending order and is a permutation of the input. |
| `Sorting.SortedUnique` | puzzlesolver/puzzles/hanoi.py:84 | Two descending lists that are permutations of each other are equal, so the sort has one outcome. |
| `Sorting.SortDescPermutation` | puzzlesolver/puzzles/hanoi.py:83-84 | Sorting gives the same list for any two permutations of the rods. |
| `Puzzle.EdgeClassesDisjoint` | puzzlesolver/puzzles/Puzzle.py:55-96 | Forward, undo and bi moves are pairwise disjoint, and all are accepted moves. |
| `Puzzle.DefaultLegalMovesAreForwardAndBi` | puzzlesolver/puzzles/Puzzle.py:46-53 | When the legal moves are all the moves, the accepted moves are exactly the forward moves plus the bi moves, and there are no undo moves. |
| `HanoiState.New` | puzzlesolver/puzzles/hanoi.py:45-55 | A successful constructor yields the start rods, and with at least one rod a valid position. An id that does not split into two parts is rejected with "Invalid variantID". |
| `HanoiState.NewFromVariantId` | puzzlesolver/puzzles/hanoi.py:47-55 | Constructing from `"R_D"` yields rod variant `R`, disk variant `D` and rods `[2**D-1] + [0]*(R-1)`. Its `variant` is `"R_D"` again. |
| `HanoiState.VariantRoundTrip` | puzzlesolver/puzzles/hanoi.py:57-64 | The `variant` property is `"R_D"` for the object's own counts. Constructing from it gives back those counts with every disk on rod 0. |
| `HanoiState.StartIsPartition` | puzzlesolver/puzzles/hanoi.py:55 | The start rods partition the disks. |
| `HanoiState.GenerateStartPosition` | puzzlesolver/puzzles/hanoi.py:288-300 | It builds the constructor's object. A missing id gives the default `3_3` with rods `[7, 0, 0]`. Otherwise every disk is on rod 0, and the position is valid when the variant has a rod. |
| `HanoiState.Primitive` | puzzlesolver/puzzles/hanoi.py:207-209 | `primitive` never reports UNSOLVABLE. |
| `HanoiState.PrimitiveSolvedIffOthersEmpty` | puzzlesolver/puzzles/hanoi.py:207-209 | On a valid position, `primitive` is SOLVABLE exactly when every rod but the last is empty. |
| `HanoiBoard.Column` | puzzlesolver/puzzles/hanoi.py:309-310 | A rod's column has `D` cells, each a dash or a letter. |
| `HanoiBoard.LettersBit` | puzzlesolver/puzzles/hanoi.py:309 | The letters of a rod, read back as powers of two, carry exactly the rod's bits below `D`. |
| `HanoiBoard.ColumnValue` | puzzlesolver/puzzles/hanoi.py:309-310 | Summing `2**(ord(c)-65)` over a column's letters gives back the rod's mask, which undoes one column. |
| `HanoiBoard.CellAt` | puzzlesolver/puzzles/hanoi.py:311-316 | Cell `i*R + k` of the board is row `i` of rod `k`'s column. |
| `HanoiBoard.ColumnOfCells` | puzzlesolver/puzzles/hanoi.py:173-174 | `fromString`'s column `j` of `convert_board`'s cells is rod `j`'s column. |
| `HanoiBoard.CellsGrid` | puzzlesolver/puzzles/hanoi.py:173-181 | Reading back all columns of the cells gives the rods unchanged. |
| `HanoiBoard.BoardParts` | puzzlesolver/puzzles/hanoi.py:318 | The board splits at `_` into `R`, `A`, the disk count, the rod count and the cells. |
| `HanoiBoard.ConvertBoard` | puzzlesolver/puzzles/hanoi.py:302-318 | The loops build the board string `"R_A_<D>_<R>_"` followed by the rows of all columns. |
| `HanoiBoard.ColumnMask` | puzzlesolver/puzzles/hanoi.py:177-180 | The mask is an integer exactly when no cell is below `A`, and it is then the column's value. |
| `HanoiBoard.FromString` | puzzlesolver/puzzles/hanoi.py:160-189 | The loops compute `fromString` with its error cases: a missing part, a bad literal, a wrong cell count, a float mask and a failed power-of-two test. |
| `HanoiBoard.DecodeChecks` | puzzlesolver/puzzles/hanoi.py:164-189 | An accepted position id has five parts, names `D` and `R`, and has `D*R` cells, none below `A`. The position's masks are the sums of the cell columns, one per rod, and their sum plus one is a power of two. |
| `HanoiBoard.BoardRoundTrip` | puzzlesolver/puzzles/hanoi.py:302-318 | `fromString(convert_board(rods))` gives back every valid position. |
| `HanoiBoard.ToString` | puzzlesolver/puzzles/hanoi.py:112-113 | `fromString` inverts `toString("minimal")` on valid positions. |
| `HanoiBoard.DecodeAcceptsNonPartition` | puzzlesolver/puzzles/hanoi.py:183-185 | `fromString` accepts `R_A_3_3_AAA------`, whose masks are not a partition. |
| `HanoiBoard.ParseAllValues` | puzzlesolver/puzzles/hanoi.py:283-284 | `[int(c) for c in parts]` succeeds exactly when every part is a number. It then holds `int(parts[k])` at every index `k`. |
| `HanoiBoard.SplitRepeat` | puzzlesolver/puzzles/hanoi.py:279-283 | Splitting `"0-"*n + s` at `-` gives `n` parts `"0"` and then `s`. |
| `HanoiBoard.ParseZeros` | puzzlesolver/puzzles/hanoi.py:283-284 | Those parts parse to `n` zeros followed by the last number. |
| `HanoiBoard.GoalIsPartition` | puzzlesolver/puzzles/hanoi.py:279-280 | Every disk on the last rod is a partition. |
| `HanoiBoard.GenerateSolutions` | puzzlesolver/puzzles/hanoi.py:279-286 | The loops build the solution list that `SolutionsAreGoal` describes. |
| `HanoiBoard.SolutionsAreGoal` | puzzlesolver/puzzles/hanoi.py:279-286 | `generateSolutions` returns exactly one position, with every disk on the last rod. That position is valid and SOLVABLE. |
| `HanoiMoves.BoardHeader` | puzzlesolver/puzzles/hanoi.py:330-331 | With single-digit `R` and `D`, dropping 8 characters leaves exactly the cells. |
| `HanoiMoves.FirstNonDash` | puzzlesolver/puzzles/hanoi.py:333-340 | The result is the first cell that is not a dash, with only dashes above it. |
| `HanoiMoves.LastDash` | puzzlesolver/puzzles/hanoi.py:341-347 | The result is the last dash of a column, or none when the column has no dash. |
| `HanoiMoves.TopMostCell` | puzzlesolver/puzzles/hanoi.py:333-340 | The scan finds the board index of the top occupied cell of the source column, or 0 when the column is empty. |
| `HanoiMoves.BottomMostCell` | puzzlesolver/puzzles/hanoi.py:341-347 | The scan finds the board index of the lowest empty cell of the destination column, or 0 when the column is full. |
| `HanoiMoves.ConvertMove` | puzzlesolver/puzzles/hanoi.py:320-348 | The method builds `"M_<top cell>_<lowest empty cell>"`. |
| `HanoiMoves.RevertMove` | puzzlesolver/puzzles/hanoi.py:350-361 | A decoded move names two rods below `R`. |
| `HanoiMoves.RevertMoveOfNumbers` | puzzlesolver/puzzles/hanoi.py:350-361 | With at least one rod, `revert_move("M_a_b")` is `(a % R, b % R)`. |
| `HanoiMoves.MoveCells` | puzzlesolver/puzzles/hanoi.py:333-347 | For a legal move, the encoded from-index is the top occupied cell of column `i` and the to-index is the lowest empty cell of column `j`. |
| `HanoiMoves.MoveRoundTrip` | puzzlesolver/puzzles/hanoi.py:320-361 | `revert_move(convert_move((i, j))) == (i, j)` for every legal move on a valid position. |
| `HanoiMoves.LowerIsLegal` | puzzlesolver/puzzles/hanoi.py:264-267 | The test `ffs(rods[i]) < ffs(rods[j])` holds exactly for legal moves. A legal move never goes from a rod to itself, and never from an empty rod. |
| `HanoiMoves.MovesBeforeAll` | puzzlesolver/puzzles/hanoi.py:265-269 | The nested loops, run over every pair, add exactly the moves of `generateMoves`. |
| `HanoiMoves.GenerateMoves` | puzzlesolver/puzzles/hanoi.py:263-270 | The loops produce the set of encodings of the pairs that pass the `ffs` test. |
| `HanoiMoves.MovesAreLegalPairs` | puzzlesolver/puzzles/hanoi.py:263-270 | Every generated move decodes to a legal pair that encodes back to it. Every legal pair's encoding is generated. |
| `HanoiMoves.DoMove` | puzzlesolver/puzzles/hanoi.py:226-245 | The method agrees with `doMove` as a function, errors included. |
| `HanoiMoves.MoveTopDisk` | puzzlesolver/puzzles/hanoi.py:236-244 | The copy-and-update agrees with the function that moves the top disk. |
| `HanoiMoves.StepSucceedsOnMoves` | puzzlesolver/puzzles/hanoi.py:226-227 | On a valid position, `doMove` succeeds exactly on the moves of `generateMoves`. |
| `HanoiMoves.MoveTopLegal` | puzzlesolver/puzzles/hanoi.py:236-244 | For a legal pair, the top disk leaves rod `i` and lands on rod `j`, and the other rods are unchanged. The sum stays `2**D - 1`, the result is valid and the variant is kept. |
| `HanoiMoves.StepLegal` | puzzlesolver/puzzles/hanoi.py:226-245 | The same holds for `doMove` applied to the encoded move. |
| `HanoiMoves.MoveDiskBack` | puzzlesolver/puzzles/hanoi.py:239-242 | Moving the disk back restores the rods. |
| `HanoiMoves.StepReversible` | puzzlesolver/puzzles/hanoi.py:249 | After a legal move, the variant is kept and the position is valid. The reverse move is generated, and it restores the original position. |
| `HanoiHash.Hash` | puzzlesolver/puzzles/hanoi.py:75-98 | The sort and the loops compute the hash: over the sorted non-last rods, disk `d` on sorted rod `k` adds `(k+1) * R**d`. |
| `HanoiHash.Canon` | puzzlesolver/puzzles/hanoi.py:83-84 | The canonical order keeps the number of rods and the last rod. |
| `HanoiHash.CanonPartition` | puzzlesolver/puzzles/hanoi.py:83-84 | The canonical order is a permutation of the rods and keeps the partition. |
| `HanoiHash.HashBound` | puzzlesolver/puzzles/hanoi.py:66-73 | `numPositions`, `R**D`, bounds the hashes: on a valid position, `0 <= hash < numPositions`. |
| `HanoiHash.HashSymmetric` | puzzlesolver/puzzles/hanoi.py:83-98 | Permuting the non-last rods, or changing the last rod, leaves the hash unchanged. |
| `HanoiHash.HashOfCanon` | puzzlesolver/puzzles/hanoi.py:83-98 | The canonical order has the same hash. |
| `HanoiHash.HashInjectiveUpToSymmetry` | puzzlesolver/puzzles/hanoi.py:75-98 | Two valid positions of one variant have equal hashes exactly when their last rods are equal and their other rods are permutations of each other. |
| `HanoiHash.Digit` | puzzlesolver/puzzles/hanoi.py:369 | A base-`R` digit is below `R`. |
| `HanoiHash.Slot` | puzzlesolver/puzzles/hanoi.py:369 | `(v - 1) % R` names a rod. |
| `HanoiHash.RodBit` | puzzlesolver/puzzles/hanoi.py:368-371 | After `t` steps of `fromHash`'s loop, disk `d` is on rod `k` exactly when `d < t` and digit `d` of the hash names rod `k`. |
| `HanoiHash.UnhashPartition` | puzzlesolver/puzzles/hanoi.py:368-371 | For any hash value, the loop puts each of the `D` disks on exactly one rod. |
| `HanoiHash.FromHash` | puzzlesolver/puzzles/hanoi.py:363-372 | The loop agrees with `fromHash` as a function, errors included. |
| `HanoiHash.FromHashIsPartition` | puzzlesolver/puzzles/hanoi.py:363-372 | Every position `fromHash` returns is a partition. |
| `HanoiHash.DigitNamesHolder` | puzzlesolver/puzzles/hanoi.py:369 | Digit `d` of the hash, mapped through `(v-1) % R`, names the rod of disk `d` in the canonical order. |
| `HanoiHash.HashRoundTrip` | puzzlesolver/puzzles/hanoi.py:363-372 | Decoding a valid position's hash gives its rods in the canonical order. |
| `HanoiHash.FromHashRoundTrip` | puzzlesolver/puzzles/hanoi.py:363-372 | `fromHash(variant, hash(S))` is `S` with its non-last rods sorted in descending order. The result is valid and has the same hash as `S`. |
| `HanoiPuzzle.DoMoveOfContract` | puzzlesolver/puzzles/Puzzle.py:27-36 | On a valid position, the contract's `doMove` accepts exactly the moves of `generateMoves`. Each accepted move leads to a valid position of the same variant. |
| `HanoiPuzzle.MoveIsBidirectional` | puzzlesolver/puzzles/hanoi.py:247-249 | Every generated move is accepted and is a legal edge in both directions. |
| `HanoiPuzzle.AllMovesBidirectional` | puzzlesolver/puzzles/Puzzle.py:83-96 | On a valid position, every generated move is a bi move, and there are no forward moves and no undo moves. |
| `HanoiPuzzle.HanoiHashContract` | puzzlesolver/puzzles/Puzzle.py:99-113 | Among the valid positions of a variant, equal hashes hold exactly for the same position up to the rods' symmetry. |
| `HanoiPuzzle.HanoiSolutionsContract` | puzzlesolver/puzzles/Puzzle.py:116-122 | From every valid position, `generateSolutions` lists only SOLVABLE positions. |

## Left out

- `int()` is modelled on non-empty ASCII digit strings only. A sign, surrounding whitespace and digit-separating underscores, which Python also accepts, count as the ValueError of a bad literal.
- A missing variant id (`None` or `""`) is the empty string. The unused `variant` dict argument and the class attributes (`id`, `auth`, `desc`, `date`, `variants`, `test_variants`, `startRandomized`) are not modelled.
- The `isinstance` TypeError checks of the constructor and of `fromString` are not modelled: every input is a string here. The TypeError guard in `doMove` is also left out; it cannot fire for the tuple that `revert_move` returns.
- `ffs` returns `float('inf')` for an empty rod; the model returns the constructor `Infinite` of `Lsb`. `Lower` is Python's `<` between an integer and infinity.
- Python's `x & -x == x` test is modelled by its arithmetic meaning, `IsPow2`: `x` has exactly one set bit.
- `list.sort(reverse=True)` is a library call. It is modelled as the pure insertion sort `Sorting.SortDesc`. Any correct sort has the same outcome (`Sorting.SortedUnique`).
- HanoiMoves.DoMove, HanoiMoves.GenerateMoves, HanoiMoves.ConvertMove and HanoiMoves.MoveRoundTrip: they require `R <= 9` and `D <= 9`. They also require a well-formed position: at least one rod and one mask per rod (`MoveCodecDomain`). That excludes variant `0_D`, whose constructor builds the one-rod list `[2**D-1]`, so its moves are not modelled. That is where `convert_move`'s fixed 8-character header strip is right, and it holds for every listed variant. Outside that domain, `HanoiPuzzle.MovesOf` is empty and `HanoiPuzzle.DoMoveOf` returns None.
- HanoiBoard.ConvertBoard, HanoiBoard.GenerateSolutions and HanoiBoard.ToString: they require `D <= 26`, the disks that have a letter `A` to `Z`. `HanoiPuzzle.SolutionsOf` is empty for more disks.
- `toString(mode="complex")` is ASCII art for display and is not modelled. Nor is the ValueError for an unknown mode.
- The `movetype` argument of `generateMoves` is ignored by the code, because every Hanoi move is bidirectional; the model has no such argument.
- HanoiPuzzle.PrimitiveOf is UNDECIDED for a position with no rods, where Python's `rods[-1]` raises IndexError.
- The puzzle contract is a record of functions (`PuzzleOps`) rather than a class hierarchy. `__str__` and `ServerPuzzle` are not modelled.
- The solvers (`puzzlesolver/solvers/`) and the puzzle registry (`puzzlesolver/puzzles/__init__.py`) are not part of this model. The solver's retrograde loop and its file persistence are not modelled.
