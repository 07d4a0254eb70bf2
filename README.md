# Sudoku board and backtracking solver

This project models the `Board` of a Java Sudoku solver, `src/main/java/com/jrepp/SodokuSolver.java`, and proves its core properties in Dafny. It covers the nine packed row words, the rule sets, the backtracking search and the loader.

- **Packed rows.** The board keeps each row of the 9x9 grid in one `long`, four bits per cell.
- **Rule sets.** For each row, column and 3x3 block the board keeps a rule set: the values present in it plus the sentinel 0. A population set marks the filled cells.
- **Search.** Moves (`fillCell`, `clearCell`) update the cells and the rule sets together. The search (`solve`, `findSolvePosition`, `tryValid`) picks the most constrained empty cell and tries its open digits in increasing order. It clears a digit again when the rest of the board cannot be solved with it.
- **Loader.** `parseCSV` loads 81 values row by row through `fillCell`.

The model has three modules:

- `Packed` (`packed.dfy`): a row as a `bv64`. `Nibble`, `SetNibble` and `ClearNibble` are `get`, `set` and `clear` with the same shifts and masks. The lemmas prove that reads after writes see exactly the written field.
- `Sudoku` (`sudoku.dfy`): the grid as a value `seq<seq<int>>`. It defines:
  - the values of a row, column and block (`RowValues` …) and the maintained rule sets (`RowRule` = values plus the sentinel 0);
  - the union `InUse` that `allInUseAt` builds, legality (`Legal`) and the population bits;
  - `Consistent`, the invariant tying the rule sets and the population to the grid;
  - solutions: `IsCompletion(g, h)`, meaning h is a full legal grid that keeps every digit of g, and `NoCompletion(g)`, meaning none exists.
- `Solver` (`solver.dfy`): the `Board` class.
  - Its fields are `cells` (an `array<bv64>`), the three rule-set sequences and the population. Its methods update them in place.
  - `Valid()` is `Consistent` over the grid the row words hold.
  - `CellPos` is the record `findSolvePosition` fills in (`SodokuSolver.java:342-366`). Here it is a datatype the method returns.
  - `LoadError` holds the two exceptions `parseCSV` throws: the wrong cell count (`SodokuSolver.java:254-256`) and the refused value with its position and 1-based index (`SodokuSolver.java:268-271`).

What is proved:

- **Fill and clear.** `fillCell` and `clearCell` keep the board valid. They succeed exactly when the source's tests pass, and they change exactly one cell, three rule sets and one population bit. A fill followed by a clear restores the row words, the rule sets and the population bit for bit.
- **`findSolvePosition`.** It returns the first empty cell, in row-major order, whose union of rule sets is largest while leaving a value open. When there is no such cell it returns no position.
- **`solve`, `tryValid` and the per-digit step (`TryChoice`).** They terminate. The measure is the number of empty cells, then the call depth among the three methods.
  - A `true` result leaves a full board that solves the puzzle `solve` started from.
  - A `false` result leaves the board exactly as it was. Unless the board was already full, the puzzle then has no solution.
- **Loading.** The corrected loader either places every nonzero value into an empty cell or stops at the first value it refuses, with the error the source reports.

`TryChoice` is the body of `tryValid`'s loop and `LoadCell` is the body of `parseCSV`'s loop. Each is a method of its own, so that each loop's proof stays small. `ParseCsv` leaves its loop through a flag rather than from the middle of the loop. The outcome and the final state are the same.

`calculateRules` collects exactly the values present in each row, column and block (`RowValues` …). It adds 0 only when some cell there is empty. The source calls it only from the constructor, on the empty board, where every set is `{0}`. That equals the maintained rule set, values plus the sentinel (`EmptyGridRules`). From then on `fillCell` and `clearCell` keep 0 in every rule set. This is because `setValue`'s `set.size() == 10` test never holds: `BitSet.size()` is a capacity in multiples of 64. `setValue` is therefore modelled as adding the digit. `canFill(x, y, 0)` is always false, since 0 is in every union (`InUseBounds`).

## Model

| member | source | states |
|---|---|---|
| Packed.Unpack | src/main/java/com/jrepp/SodokuSolver.java:144-147 | the nine cells of a row word are the nine four-bit fields `get` reads, column 0 first |
| Packed.Mask | src/main/java/com/jrepp/SodokuSolver.java:152 | defines the mask `0xfL << (col * 4)` of a column's field; FieldOfClearSame and FieldOfClearOther state what and-ing with its complement does |
| Packed.Shifted | src/main/java/com/jrepp/SodokuSolver.java:151 | defines `(long) b << (col * 4)`; FieldOfSetSame and FieldOfSetOther state what or-ing it into a word does |
| Packed.Field | src/main/java/com/jrepp/SodokuSolver.java:146 | defines the four bits `rowValue >> (col * 4) & 0xfL`; the FieldOf… lemmas state how writes change it |
| Packed.Nibble | src/main/java/com/jrepp/SodokuSolver.java:144-147 | defines `get`; NibbleOfSetSame, NibbleOfSetOther, NibbleOfClearSame and NibbleOfClearOther state it after writes |
| Packed.SetNibble | src/main/java/com/jrepp/SodokuSolver.java:149-155 | defines `set`; NibbleOfSetSame and UnpackSet state that it changes exactly column c, to b, when the field was empty (the assert of line 153) |
| Packed.ClearNibble | src/main/java/com/jrepp/SodokuSolver.java:157-161 | defines `clear`; NibbleOfClearSame, UnpackClear and ClearUndoesSet state that it zeroes exactly column c and undoes `set` |
| Packed.OffsetBound | src/main/java/com/jrepp/SodokuSolver.java:146 | proof helper about `bv64`: the field offset `col * 4` of a column is a multiple of four below 36 |
| Packed.OffsetFacts | src/main/java/com/jrepp/SodokuSolver.java:146 | the offset is `4 * col`, and two columns share an offset only when they are the same column |
| Packed.DigitBits | src/main/java/com/jrepp/SodokuSolver.java:151 | proof helper about `bv64`: `(long) b` keeps a value below 16 unchanged |
| Packed.FieldZero | src/main/java/com/jrepp/SodokuSolver.java:146 | proof helper about `bv64`: a field that reads as the integer 0 has all four bits clear |
| Packed.FieldOfClearSame | src/main/java/com/jrepp/SodokuSolver.java:157-161 | and-ing with the complement of a field's mask zeroes that field |
| Packed.FieldOfClearOther | src/main/java/com/jrepp/SodokuSolver.java:157-161 | and-ing with the complement of one field's mask keeps every other field |
| Packed.FieldOfSetSame | src/main/java/com/jrepp/SodokuSolver.java:149-155 | or-ing a value below 16 into an empty field stores it there |
| Packed.FieldOfSetOther | src/main/java/com/jrepp/SodokuSolver.java:149-155 | or-ing a value below 16 into one field keeps every other field |
| Packed.ClearOfSet | src/main/java/com/jrepp/SodokuSolver.java:149-161 | masking out a field just or-ed into an empty field gives back the original word |
| Packed.NibbleOfSetSame | src/main/java/com/jrepp/SodokuSolver.java:144-155 | `get` after `set` on an empty field (the assert of `set`) reads the written value |
| Packed.NibbleOfSetOther | src/main/java/com/jrepp/SodokuSolver.java:144-155 | `get` of any other column after `set` reads what it read before |
| Packed.NibbleOfClearSame | src/main/java/com/jrepp/SodokuSolver.java:157-161 | `get` after `clear` reads 0 |
| Packed.NibbleOfClearOther | src/main/java/com/jrepp/SodokuSolver.java:157-161 | `get` of any other column after `clear` reads what it read before |
| Packed.ClearUndoesSet | src/main/java/com/jrepp/SodokuSolver.java:149-161 | `clear` after `set` on an empty field restores the row word bit for bit |
| Packed.UnpackSet | src/main/java/com/jrepp/SodokuSolver.java:149-155 | on the unpacked row, `set` changes exactly the written column to b |
| Packed.UnpackClear | src/main/java/com/jrepp/SodokuSolver.java:157-161 | on the unpacked row, `clear` changes exactly the cleared column to 0 |
| Packed.UnpackZero | src/main/java/com/jrepp/SodokuSolver.java:47 | a fresh row word (0) holds nine empty cells |
| Sudoku.EmptyGrid | src/main/java/com/jrepp/SodokuSolver.java:47 | the grid of a new board is nine rows of nine empty cells |
| Sudoku.Place | src/main/java/com/jrepp/SodokuSolver.java:149-161 | writing a cell changes that cell to the given value and no other cell |
| Sudoku.BlockIndex | src/main/java/com/jrepp/SodokuSolver.java:335-339 | the block index of a cell lies in 0..8 |
| Sudoku.BlockIndexOrigin | src/test/java/com/jrepp/SodokuSolverTest.java:93 | `blockIndex(0, 0)` is 0 |
| Sudoku.BlockIndexTopMiddle | src/test/java/com/jrepp/SodokuSolverTest.java:94 | `blockIndex(3, 0)` is 1 |
| Sudoku.BlockIndexBottomMiddle | src/test/java/com/jrepp/SodokuSolverTest.java:95 | `blockIndex(3, 8)` is 7 |
| Sudoku.BlockIndexCentre | src/test/java/com/jrepp/SodokuSolverTest.java:96 | `blockIndex(3, 3)` is 4 |
| Sudoku.BlockIndexBottomRight | src/test/java/com/jrepp/SodokuSolverTest.java:97 | `blockIndex(6, 8)` is 8 |
| Sudoku.BlockX | src/main/java/com/jrepp/SodokuSolver.java:186-189 | defines the left column `index % BLOCK_STRIDE * BLOCK_STRIDE` of block `index`; BlockAreaExact states the area it starts |
| Sudoku.BlockY | src/main/java/com/jrepp/SodokuSolver.java:186-189 | defines the top row `index / BLOCK_STRIDE * BLOCK_STRIDE` of block `index`; BlockAreaExact states the area it starts |
| Sudoku.RowValues | src/main/java/com/jrepp/SodokuSolver.java:205-209 | defines the values in row y; Board.RowSet is proved to compute it and RowDigits bounds it |
| Sudoku.ColValues | src/main/java/com/jrepp/SodokuSolver.java:211-215 | defines the values in column x; Board.ColSet is proved to compute it and ColDigits bounds it |
| Sudoku.BlockValues | src/main/java/com/jrepp/SodokuSolver.java:185-191 | defines the values in block i's 3x3 area; Board.BlockSet and VisitedBlock are proved to compute it and BlockDigits bounds it |
| Sudoku.InUse | src/main/java/com/jrepp/SodokuSolver.java:136-142 | defines the union `allInUseAt` builds; Board.AllInUseAt is proved to compute it, InUseBounds bounds it and PlaceLegal ties it to legality |
| Sudoku.BlockAreaExact | src/main/java/com/jrepp/SodokuSolver.java:185-191 | the 3x3 area `blockSet(i)` visits, from corner (i % 3 * 3, i / 3 * 3), is exactly the cells whose `blockIndex` is i (both directions) |
| Sudoku.InUseBounds | src/main/java/com/jrepp/SodokuSolver.java:136-142 | the union of a cell's three rule sets holds the sentinel 0, lies within 0..9 and has between 1 and TOTAL_CARDINALITY members |
| Sudoku.RowDigits | src/main/java/com/jrepp/SodokuSolver.java:205-209 | a row's rule set lies within 0..9 |
| Sudoku.ColDigits | src/main/java/com/jrepp/SodokuSolver.java:211-215 | a column's rule set lies within 0..9 |
| Sudoku.BlockDigits | src/main/java/com/jrepp/SodokuSolver.java:185-191 | a block's rule set lies within 0..9 |
| Sudoku.Digits | src/main/java/com/jrepp/SodokuSolver.java:33-37 | the values 0..9 a cell of a well-formed grid holds, TOTAL_CARDINALITY of them |
| Sudoku.PlaceLegal | src/main/java/com/jrepp/SodokuSolver.java:314-329 | on a legal grid, writing d into an empty cell gives a legal grid with d nonzero exactly when d is not in the cell's union, so canFill's test is the legality test |
| Sudoku.PeerValueInUse | src/main/java/com/jrepp/SodokuSolver.java:136-142 | the value of any cell sharing a row, column or block with (x, y) is in the union at (x, y) |
| Sudoku.PeerHolding | src/main/java/com/jrepp/SodokuSolver.java:136-142 | conversely, a nonzero value in the union at an empty cell is held by one of its peers |
| Sudoku.RulesAfterPlace | src/main/java/com/jrepp/SodokuSolver.java:289-300 | writing a digit into an empty cell adds it to the rule sets of the cell's row, column and block and changes no other rule set |
| Sudoku.BlockAfterPlace | src/main/java/com/jrepp/SodokuSolver.java:294 | the block part of the above: only the block `blockIndex` names gains the digit |
| Sudoku.RulesAfterClear | src/main/java/com/jrepp/SodokuSolver.java:302-312 | clearing a filled cell of a legal grid removes its digit from the rule sets of its row, column and block and changes no other rule set |
| Sudoku.BlockAfterClear | src/main/java/com/jrepp/SodokuSolver.java:310 | the block part of the above |
| Sudoku.BlockClearedShrinks | src/main/java/com/jrepp/SodokuSolver.java:310 | after the clear, block i holds no value it did not hold, and no longer the cleared digit when the cell lies in it |
| Sudoku.BlockClearedKeeps | src/main/java/com/jrepp/SodokuSolver.java:310 | after the clear, block i still holds every other value it held |
| Sudoku.Index | src/main/java/com/jrepp/SodokuSolver.java:296 | the population bit `(y * COLS) + x` lies in 0..80 and gives back x and y |
| Sudoku.PopulatedAfterPlace | src/main/java/com/jrepp/SodokuSolver.java:289-312 | filling an empty cell sets exactly its population bit, and clearing a filled cell clears exactly that bit |
| Sudoku.PopulationBound | src/main/java/com/jrepp/SodokuSolver.java:111 | at most 81 population bits are set, and all 81 exactly when no cell is empty |
| Sudoku.FillKeepsConsistent | src/main/java/com/jrepp/SodokuSolver.java:289-300 | adding an open digit to the cell, the three rule sets and the population keeps the invariant: each rule set equals the recomputed values plus 0, the population bits are exactly the filled cells, and no digit repeats |
| Sudoku.ClearKeepsConsistent | src/main/java/com/jrepp/SodokuSolver.java:302-312 | removing a filled cell's digit from the cell, the three rule sets and the population keeps the same invariant |
| Sudoku.CompletionStep | src/main/java/com/jrepp/SodokuSolver.java:99-134 | every solution holds, at an empty cell, a digit 1..9 that the cell's union leaves open, and it also solves the grid with that digit written in |
| Sudoku.CompletionOfPlace | src/main/java/com/jrepp/SodokuSolver.java:106-130 | a solution of the grid with a digit written into an empty cell solves the grid itself and holds that digit |
| Sudoku.DeadEnd | src/main/java/com/jrepp/SodokuSolver.java:60-65 | an empty cell whose union already holds all of 0..9 leaves the grid without a solution |
| Sudoku.AllChoicesFail | src/main/java/com/jrepp/SodokuSolver.java:99-134 | when every digit the union at an empty cell leaves open leads to no solution, the grid has none |
| Sudoku.ClearKeepsLegal | src/main/java/com/jrepp/SodokuSolver.java:302-312 | emptying a cell keeps a legal grid legal |
| Sudoku.FullGridSolved | src/main/java/com/jrepp/SodokuSolver.java:111-116 | a full legal grid is a solution of itself, so full population means solved |
| Sudoku.EmptyGridRules | src/main/java/com/jrepp/SodokuSolver.java:45-53 | on the empty grid every row, column and block computes to {0}, which is its maintained rule set; the grid is legal and nothing is populated |
| Sudoku.Range | src/main/java/com/jrepp/SodokuSolver.java:51 | the integers 0..n-1, n of them: the 81 population positions and the ten values 0..9 |
| Solver.GridOf | src/main/java/com/jrepp/SodokuSolver.java:39 | the grid the nine row words hold, row y being the unpacked word y |
| Solver.NextClearBit | src/main/java/com/jrepp/SodokuSolver.java:100 | `nextClearBit(from)` is the least value at or after `from` not in the set; from a start of at most 10 it is at most 10 |
| Solver.Visited | src/main/java/com/jrepp/SodokuSolver.java:173-183 | the values `eachInBlock` hands its consumer up to cell (ix, iy): one per cell passed, column by column and top to bottom |
| Solver.VisitedHas | src/main/java/com/jrepp/SodokuSolver.java:173-183 | every cell `eachInBlock` has passed has its value among those handed to the consumer |
| Solver.VisitedFrom | src/main/java/com/jrepp/SodokuSolver.java:173-183 | every value handed to the consumer comes from a cell already passed |
| Solver.VisitedBlock | src/main/java/com/jrepp/SodokuSolver.java:185-191 | walking the whole 3x3 area of block i hands the consumer exactly the block's values |
| Solver.ScanPass | src/main/java/com/jrepp/SodokuSolver.java:76-95 | a cell that is filled, or no better than the best so far, leaves the scan's invariant intact one cell further |
| Solver.ScanTake | src/main/java/com/jrepp/SodokuSolver.java:86-89 | a candidate with a larger cardinality becomes the new position with the invariant intact |
| Solver.ScanSingle | src/main/java/com/jrepp/SodokuSolver.java:90-93 | stopping early at cardinality TOTAL_CARDINALITY - 1 still gives the best candidate |
| Solver.ScanDone | src/main/java/com/jrepp/SodokuSolver.java:72-97 | after all 81 cells the scan yields the best candidate, or no position when there is none |
| Solver.PlaceUndone | src/main/java/com/jrepp/SodokuSolver.java:289-312 | filling an empty cell and clearing it again gives back the grid |
| Solver.RowsRestored | src/main/java/com/jrepp/SodokuSolver.java:149-161 | `set` then `clear` on an empty cell gives back all nine row words |
| Solver.RuleRestored | src/main/java/com/jrepp/SodokuSolver.java:282-310 | adding a digit a rule set lacked and clearing it again gives back the rule sets |
| Solver.ChoiceFailed | src/main/java/com/jrepp/SodokuSolver.java:120-127 | after the failure of `nextChoice`, every open digit below `nextClearBit(nextChoice + 1)` is known to lead to no solution |
| Solver.Load | src/main/java/com/jrepp/SodokuSolver.java:258-272 | loading the first k values changes exactly the cells at indexes below k with a nonzero value, to that value at (index % 9, index / 9) |
| Solver.LoadStep | src/main/java/com/jrepp/SodokuSolver.java:259-272 | one more value, written into its still-empty cell or skipped when 0, extends the loaded prefix by one |
| Solver.IntoEmptyCells | src/main/java/com/jrepp/SodokuSolver.java:264-271 | read cell by cell, the loaded prefix wrote each nonzero value into a cell that was empty |
| Solver.RefusedAt | src/main/java/com/jrepp/SodokuSolver.java:268-271 | a value that is no digit, or a digit the cell does not accept, stops the load with its value, position and 1-based index |
| Solver.Accepts | src/main/java/com/jrepp/SodokuSolver.java:314-329 | defines canFill's test as written, for any b >= 0 with no upper bound; AcceptsBeyondDigits states what it does on values above 9 |
| Solver.AcceptsBeyondDigits | src/main/java/com/jrepp/SodokuSolver.java:314-329 | on every consistent board, canFill's test as written accepts every b >= TOTAL_CARDINALITY exactly when the cell is empty, since no rule set holds such a value |
| Solver.ParseAcceptsTwelve | src/main/java/com/jrepp/SodokuSolver.java:258-272 | as written, canFill's test accepts 12 on the empty board and `get` then reads 12 back, a value no Sudoku cell holds |
| Solver.Board.constructor | src/main/java/com/jrepp/SodokuSolver.java:45-53 | a new board is empty, with nothing populated and its rule sets calculated, and satisfies the invariant |
| Solver.Board.Get | src/main/java/com/jrepp/SodokuSolver.java:144-147 | `get(col, row)` is the cell of the grid the row words hold |
| Solver.Board.Set | src/main/java/com/jrepp/SodokuSolver.java:149-155 | `set` on an empty cell changes exactly that row word, and in the grid exactly that cell, to b |
| Solver.Board.Clear | src/main/java/com/jrepp/SodokuSolver.java:157-161 | `clear` changes exactly that row word, and in the grid exactly that cell, to 0 |
| Solver.Board.RowSet | src/main/java/com/jrepp/SodokuSolver.java:205-209 | `rowSet(row)` is the set of values in the row |
| Solver.Board.ColSet | src/main/java/com/jrepp/SodokuSolver.java:211-215 | `colSet(column)` is the set of values in the column |
| Solver.Board.EachInBlock | src/main/java/com/jrepp/SodokuSolver.java:173-183 | the consumer receives the area's values column by column, top to bottom |
| Solver.Board.BlockSet | src/main/java/com/jrepp/SodokuSolver.java:185-191 | `blockSet(index)` is the set of values in the block |
| Solver.Board.CalculateRules | src/main/java/com/jrepp/SodokuSolver.java:163-171 | the rule lists are rebuilt to nine sets each, equal to the values of each column, row and block; the cells and the population are untouched |
| Solver.Board.AllInUseAt | src/main/java/com/jrepp/SodokuSolver.java:136-142 | the union of the cell's row, column and block rule sets is the grid's `InUse` at that cell |
| Solver.Board.CanFill | src/main/java/com/jrepp/SodokuSolver.java:314-329 | true exactly when the cell is empty and b is in none of its rule sets |
| Solver.Board.FillCell | src/main/java/com/jrepp/SodokuSolver.java:289-300 | succeeds exactly when canFill holds; on success the row word, the grid cell, the three rule sets (via `setValue`) and the population change by exactly b and the cell's bit, and otherwise nothing changes; the invariant is kept |
| Solver.Board.ClearCell | src/main/java/com/jrepp/SodokuSolver.java:302-312 | an empty cell is left alone; a filled one is cleared, its digit removed from its three rule sets and its population bit cleared, keeping the invariant |
| Solver.Board.FindSolvePosition | src/main/java/com/jrepp/SodokuSolver.java:72-97 | no position exactly when no empty cell leaves a value open; otherwise the row-major first empty cell of largest union cardinality below TOTAL_CARDINALITY, with that cardinality |
| Solver.Board.Solve | src/main/java/com/jrepp/SodokuSolver.java:56-70 | terminates; true leaves a full board solving the puzzle it started from; false leaves the board unchanged, and unless it was full the puzzle has no solution; on a full board it returns false |
| Solver.Board.TryValid | src/main/java/com/jrepp/SodokuSolver.java:99-134 | tries the digits inUse leaves open in increasing order; true leaves a solution holding the first open digit that leads to one (all smaller open digits lead to none); false leaves the board unchanged and the puzzle without a solution |
| Solver.Board.TryChoice | src/main/java/com/jrepp/SodokuSolver.java:106-130 | given a digit the cell leaves open, so that the fill always succeeds as the source asserts: true leaves a full board solving the grid with that digit written in; false restores the board exactly and that grid has no solution |
| Solver.Board.LoadCell | src/main/java/com/jrepp/SodokuSolver.java:259-272 | one value of the loader: a non-digit is refused, 0 is skipped, and a digit is filled or refused as fillCell decides |
| Solver.Board.ParseCsv | src/main/java/com/jrepp/SodokuSolver.java:252-273 | a count other than 81 fails with that count and changes nothing, and a count error happens only then; otherwise either every value is a digit and every nonzero one went into its empty cell, or the load stops at the first refused value with its value, position and 1-based index, the cells before it loaded |

## Left out

- `print`, `printRow` and the trace output of `solve` and `tryValid`, including the `print()` call in `tryValid`'s loop. They are console output, and `solve`'s `trace` flag is dropped with them.
- `main`, `randomFill` and the static `Random` iterator. They depend on random numbers and are not part of the board's logic. `emptyBoard` is the constructor.
- The string side of `parseCSV`: the regular-expression split and `Integer.parseInt` with its `NumberFormatException`. `Solver.Board.ParseCsv` receives the parsed integers.
- `java.util.BitSet` internals. The rule sets and the population are sets of integers.
- `rowStream` and `colStream` as streams. `RowSet` and `ColSet` visit the same cells with loops.
- `rowPopulation` and the constructor's `Long.bitCount` assert. The first is a diagnostic; the second is a fact about Java integer widths.
- `CellPos.toString`. The mutable `CellPos` argument of `findSolvePosition` becomes the returned value.
- `Solver.Board.FillCell`: requires b in 0..9. As written, `fillCell` accepts every b >= 10, and for b >= 16 `set`'s or also spills into the next column's field. A negative b makes `BitSet.get` throw when the cell's population bit is clear; on a filled cell `canFill` returns false first (see Findings).
- `Solver.Board.CanFill`: requires b in 0..9, for the same reason. The as-written test for b >= 0 is `Solver.Accepts`.
- `Solver.Accepts`: requires b >= 0. On a negative b, `BitSet.get` throws `IndexOutOfBoundsException` when the population bit is clear, and exceptions are not modelled.
- The concrete puzzles of the unit tests. The `blockIndex` samples are kept, one lemma each.
- 32-bit and 64-bit overflow. Every index and value in the core stays far below the limits of Java's `int` and `long`.

## Findings

| source | as written | input that shows it | evidently intended | confidence | as-written member | corrected member |
|---|---|---|---|---|---|---|
| src/main/java/com/jrepp/SodokuSolver.java:258-272 | `parseCSV` passes every parsed integer to `fillCell`. On every consistent board, `canFill` accepts any value of 10 or more exactly when the cell is empty (`Solver.AcceptsBeyondDigits`), because no rule set holds a value above 9 until one is accepted and `BitSet.get` of a bit past the set's end is false. `set` then stores it in the cell's four bits; a value of 16 or more also spills into the next column's field. | The value 12 at index 0 of an otherwise all-zero input: on the empty board the cell (0, 0) is filled with 12. | Values outside 0..9 are refused with "Invalid cell value", like any other value that cannot be placed. | not executed | Solver.ParseAcceptsTwelve | Solver.Board.ParseCsv |
