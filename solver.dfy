/** The Board of the solver: nine packed row words, the row, column and block rule sets,
    the population set, and the backtracking search over them. */
module Solver {
  import Packed
  import opened Sudoku

  /** The cell chosen by the search heuristic: its position, whether one was found, and the
      cardinality of its union of rule sets. */
  datatype CellPos = CellPos(col: int, row: int, valid: bool, cardinality: int)

  /** The two ways loading a board from comma separated values fails. */
  datatype LoadError =
    | InvalidCellCount(count: int)
    | InvalidCellValue(value: int, x: int, y: int, index: int)

  datatype Outcome = Loaded | Failed(error: LoadError)

  /** The grid the nine row words hold. */
  function GridOf(rows: seq<bv64>): (g: Grid)
    requires |rows| == 9
    ensures |g| == 9 && forall y :: 0 <= y < 9 ==> g[y] == Packed.Unpack(rows[y])
  {
    seq(9, y requires 0 <= y < 9 => Packed.Unpack(rows[y]))
  }

  /** BitSet.nextClearBit(from) on a set of bits below 10: the least index at or after
      from that is not in s. */
  function NextClearBit(s: set<int>, from: int): (r: int)
    requires (forall d :: d in s ==> 0 <= d < TotalCardinality) && 0 <= from
    ensures from <= r && r !in s
    ensures forall d :: from <= d < r ==> d in s
    ensures from <= TotalCardinality ==> r <= TotalCardinality
    decreases 10 - from
  {
    if from in s then NextClearBit(s, from + 1) else from
  }

  /** The values eachInBlock has passed to its consumer when it reaches cell (ix, iy) of the
      3x3 area with corner (lx, ly), visiting column by column, top to bottom. */
  function Visited(g: Grid, lx: int, ly: int, ix: int, iy: int): (r: seq<int>)
    requires WellFormed(g) && 0 <= lx && lx + 3 <= 9 && 0 <= ly && ly + 3 <= 9
    requires lx <= ix <= lx + 3 && ly <= iy <= ly + 3 && (ix == lx + 3 ==> iy == ly)
    ensures |r| == (ix - lx) * 3 + (iy - ly)
    decreases ix, iy
  {
    if iy > ly then Visited(g, lx, ly, ix, iy - 1) + [g[iy - 1][ix]]
    else if ix > lx then Visited(g, lx, ly, ix - 1, ly + 3)
    else []
  }

  /** Cell (x, y) of the 3x3 area with corner (lx, ly) comes before (ix, iy) in eachInBlock's order. */
  predicate VisitedBefore(lx: int, ly: int, ix: int, iy: int, x: int, y: int)
  {
    (lx <= x < ix && ly <= y < ly + 3) || (x == ix && ly <= y < iy)
  }

  /** Every cell passed before (ix, iy) has its value among the visited ones. */
  lemma {:induction false} VisitedHas(g: Grid, lx: int, ly: int, ix: int, iy: int, x: int, y: int)
    requires WellFormed(g) && 0 <= lx && lx + 3 <= 9 && 0 <= ly && ly + 3 <= 9
    requires lx <= ix <= lx + 3 && ly <= iy <= ly + 3 && (ix == lx + 3 ==> iy == ly)
    requires VisitedBefore(lx, ly, ix, iy, x, y)
    ensures g[y][x] in Visited(g, lx, ly, ix, iy)
    decreases ix, iy
  {
    if iy > ly {
      if !(x == ix && y == iy - 1) {
        VisitedHas(g, lx, ly, ix, iy - 1, x, y);
      }
    } else {
      VisitedHas(g, lx, ly, ix - 1, ly + 3, x, y);
    }
  }

  /** Every visited value is the value of a cell passed before (ix, iy). */
  lemma {:induction false} VisitedFrom(g: Grid, lx: int, ly: int, ix: int, iy: int, v: int) returns (x: int, y: int)
    requires WellFormed(g) && 0 <= lx && lx + 3 <= 9 && 0 <= ly && ly + 3 <= 9
    requires lx <= ix <= lx + 3 && ly <= iy <= ly + 3 && (ix == lx + 3 ==> iy == ly)
    requires v in Visited(g, lx, ly, ix, iy)
    ensures VisitedBefore(lx, ly, ix, iy, x, y) && InRange(x, y) && g[y][x] == v
    decreases ix, iy
  {
    if iy > ly {
      if v == g[iy - 1][ix] {
        x, y := ix, iy - 1;
      } else {
        x, y := VisitedFrom(g, lx, ly, ix, iy - 1, v);
      }
    } else {
      x, y := VisitedFrom(g, lx, ly, ix - 1, ly + 3, v);
    }
  }

  /** A whole block walked column by column visits exactly the block's values. */
  lemma VisitedBlock(g: Grid, i: int)
    requires WellFormed(g) && 0 <= i < 9
    ensures forall v :: v in Visited(g, BlockX(i), BlockY(i), BlockX(i) + 3, BlockY(i)) <==> v in BlockValues(g, i)
  {
    var lx, ly := BlockX(i), BlockY(i);
    forall v | v in BlockValues(g, i) ensures v in Visited(g, lx, ly, lx + 3, ly) {
      var x, y :| lx <= x < lx + 3 && ly <= y < ly + 3 && g[y][x] == v;
      VisitedHas(g, lx, ly, lx + 3, ly, x, y);
    }
    forall v | v in Visited(g, lx, ly, lx + 3, ly) ensures v in BlockValues(g, i) {
      var x, y := VisitedFrom(g, lx, ly, lx + 3, ly, v);
    }
  }

  /** What findSolvePosition computes: no position when no cell is a candidate, and otherwise
      the first candidate, in row-major order, of largest cardinality. */
  ghost predicate BestCandidate(g: Grid, pos: CellPos)
    requires WellFormed(g)
  {
    && (!pos.valid <==> forall y, x :: InRange(x, y) ==> !Candidate(g, x, y))
    && (!pos.valid ==> pos == CellPos(0, 0, false, 0))
    && (pos.valid ==> InRange(pos.col, pos.row) && Candidate(g, pos.col, pos.row)
                      && pos.cardinality == |InUse(g, pos.col, pos.row)|)
    && (pos.valid ==> forall y, x :: InRange(x, y) && Candidate(g, x, y) ==> |InUse(g, x, y)| <= pos.cardinality)
    && (pos.valid ==> forall y, x :: InRange(x, y) && Candidate(g, x, y) && Index(x, y) < Index(pos.col, pos.row) ==>
          |InUse(g, x, y)| < pos.cardinality)
  }

  /** The scan invariant of findSolvePosition once the cells with index below k are visited. */
  ghost predicate Scanned(g: Grid, pos: CellPos, best: int, k: int)
    requires WellFormed(g)
  {
    && 0 <= best < TotalCardinality
    && (pos.valid <==> best > 0)
    && (!pos.valid ==> pos == CellPos(0, 0, false, 0))
    && (pos.valid ==> InRange(pos.col, pos.row) && Index(pos.col, pos.row) < k && Candidate(g, pos.col, pos.row)
                      && pos.cardinality == best == |InUse(g, pos.col, pos.row)|)
    && (forall y, x :: InRange(x, y) && Index(x, y) < k && Candidate(g, x, y) ==> |InUse(g, x, y)| <= best)
    && (forall y, x :: InRange(x, y) && pos.valid && Index(x, y) < Index(pos.col, pos.row) && Candidate(g, x, y) ==>
          |InUse(g, x, y)| < best)
  }

  /** Visiting a cell that is no candidate, or one no better than the best so far, keeps the scan. */
  lemma ScanPass(g: Grid, pos: CellPos, best: int, col: int, row: int)
    requires WellFormed(g) && InRange(col, row) && Scanned(g, pos, best, Index(col, row))
    requires Candidate(g, col, row) ==> |InUse(g, col, row)| <= best
    ensures Scanned(g, pos, best, Index(col, row) + 1)
  {
    forall y, x | InRange(x, y) && Index(x, y) < Index(col, row) + 1 && Candidate(g, x, y)
      ensures |InUse(g, x, y)| <= best
    {
      if Index(x, y) == Index(col, row) {
        assert x == col && y == row;
      }
    }
  }

  /** Visiting a candidate better than the best so far makes it the new position. */
  lemma ScanTake(g: Grid, pos: CellPos, best: int, col: int, row: int)
    requires WellFormed(g) && InRange(col, row) && Scanned(g, pos, best, Index(col, row))
    requires Candidate(g, col, row) && |InUse(g, col, row)| > best
    ensures Scanned(g, CellPos(col, row, true, |InUse(g, col, row)|), |InUse(g, col, row)|, Index(col, row) + 1)
  {
    var c := |InUse(g, col, row)|;
    forall y, x | InRange(x, y) && Index(x, y) < Index(col, row) + 1 && Candidate(g, x, y)
      ensures |InUse(g, x, y)| <= c
    {
      if Index(x, y) == Index(col, row) {
        assert x == col && y == row;
      }
    }
  }

  /** A candidate with a single value left is as good as any: the scan may stop there. */
  lemma ScanSingle(g: Grid, pos: CellPos, best: int, k: int)
    requires WellFormed(g) && Scanned(g, pos, best, k) && best == TotalCardinality - 1
    ensures BestCandidate(g, pos)
  {
  }

  /** After all 81 cells the scan has found the best candidate, or there is none. */
  lemma ScanDone(g: Grid, pos: CellPos, best: int)
    requires WellFormed(g) && Scanned(g, pos, best, CellCount)
    ensures BestCandidate(g, pos)
  {
    forall y, x | InRange(x, y) && Candidate(g, x, y) ensures pos.valid {
      InUseBounds(g, x, y);
    }
  }

  lemma PlaceUndone(g: Grid, x: int, y: int, d: int)
    requires WellFormed(g) && InRange(x, y) && g[y][x] == 0 && 0 <= d <= 9
    ensures Place(Place(g, x, y, d), x, y, 0) == g
  {
    assert Place(Place(g, x, y, d), x, y, 0)[y] == g[y];
  }

  lemma RowsRestored(rows: seq<bv64>, x: int, y: int, b: int)
    requires |rows| == 9 && InRange(x, y) && 0 <= b < 16 && Packed.Nibble(rows[y], x) == 0
    ensures var filled := rows[y := Packed.SetNibble(rows[y], x, b)];
      filled[y := Packed.ClearNibble(filled[y], x)] == rows
  {
    Packed.ClearUndoesSet(rows[y], x, b);
  }

  lemma RuleRestored(rules: seq<set<int>>, i: int, b: int)
    requires 0 <= i < |rules| && b !in rules[i]
    ensures var added := rules[i := rules[i] + {b}];
      added[i := added[i] - {b}] == rules
  {
    assert rules[i] + {b} - {b} == rules[i];
  }

  /** When the values below `tried` that inUse leaves open and `tried` itself all fail, so do
      all those below the next clear bit after `tried`. */
  lemma ChoiceFailed(g: Grid, x: int, y: int, inUse: set<int>, tried: int)
    requires WellFormed(g) && InRange(x, y) && 1 <= tried < TotalCardinality
    requires forall d :: d in inUse ==> 0 <= d < TotalCardinality
    requires forall d :: 1 <= d < tried && d !in inUse ==> NoCompletion(Place(g, x, y, d))
    requires NoCompletion(Place(g, x, y, tried))
    ensures forall d :: 1 <= d < NextClearBit(inUse, tried + 1) && d !in inUse ==> NoCompletion(Place(g, x, y, d))
  {
  }

  /** The first k values are all cell values 0..9. */
  predicate DigitsBefore(values: seq<int>, k: int)
    requires 0 <= k <= |values|
  {
    k == 0 || (DigitsBefore(values, k - 1) && 0 <= values[k - 1] <= 9)
  }

  /** The grid g with the nonzero values among the first k written into their cells, the
      k-th value going to column k % 9 of row k / 9. */
  function Load(g: Grid, values: seq<int>, k: int): (h: Grid)
    requires WellFormed(g) && |values| == CellCount && 0 <= k <= CellCount
    requires DigitsBefore(values, k)
    ensures WellFormed(h)
    ensures forall y, x :: InRange(x, y) ==>
      h[y][x] == if Index(x, y) < k && values[Index(x, y)] != 0 then values[Index(x, y)] else g[y][x]
  {
    if k == 0 then g
    else
      var p := Load(g, values, k - 1);
      if values[k - 1] != 0 then Place(p, (k - 1) % 9, (k - 1) / 9, values[k - 1]) else p
  }

  /** Each nonzero value among the first k goes to a cell that is empty in g. */
  predicate IntoEmpty(g: Grid, values: seq<int>, k: int)
    requires WellFormed(g) && |values| == CellCount && 0 <= k <= CellCount
  {
    k == 0 || (IntoEmpty(g, values, k - 1) && (values[k - 1] != 0 ==> g[(k - 1) / 9][(k - 1) % 9] == 0))
  }

  /** One more value loaded: it lands on a cell still as in g, which must be empty for the
      targets to stay empty. */
  lemma LoadStep(g: Grid, values: seq<int>, k: int, h: Grid)
    requires WellFormed(g) && |values| == CellCount && 0 <= k < CellCount
    requires DigitsBefore(values, k + 1)
    requires IntoEmpty(g, values, k)
    requires values[k] != 0 ==> Load(g, values, k)[k / 9][k % 9] == 0
    requires h == if values[k] != 0 then Place(Load(g, values, k), k % 9, k / 9, values[k]) else Load(g, values, k)
    ensures Progress(g, values, k + 1, true, h)
  {
    assert Index(k % 9, k / 9) == k;
  }

  /** IntoEmpty read cell by cell. */
  lemma {:induction false} IntoEmptyCells(g: Grid, values: seq<int>, k: int)
    requires WellFormed(g) && |values| == CellCount && 0 <= k <= CellCount
    requires IntoEmpty(g, values, k)
    ensures forall y, x :: InRange(x, y) && Index(x, y) < k && values[Index(x, y)] != 0 ==> g[y][x] == 0
  {
    if k > 0 {
      IntoEmptyCells(g, values, k - 1);
    }
  }

  /** Loading the values into g gave h: every nonzero value went into an empty cell. */
  ghost predicate LoadedAll(g: Grid, values: seq<int>, h: Grid)
    requires WellFormed(g) && |values| == CellCount && DigitsBefore(values, CellCount)
  {
    && h == Load(g, values, CellCount)
    && IntoEmpty(g, values, CellCount)
  }

  /** Loading the values into g stopped at the error e with the grid h: the values before the
      refused cell are digits, written each into a cell empty in g; the refused value is no
      digit at all, or a nonzero digit fillCell cannot write into h. */
  ghost predicate Refused(g: Grid, values: seq<int>, e: LoadError, h: Grid)
    requires WellFormed(g) && |values| == CellCount
  {
    && e.InvalidCellValue?
    && InRange(e.x, e.y) && e.index == Index(e.x, e.y) + 1
    && e.value == values[Index(e.x, e.y)]
    && DigitsBefore(values, Index(e.x, e.y))
    && h == Load(g, values, Index(e.x, e.y))
    && IntoEmpty(g, values, Index(e.x, e.y))
    && (0 <= e.value <= 9 ==> e.value != 0 && !(h[e.y][e.x] == 0 && e.value !in InUse(h, e.x, e.y)))
  }

  /** Where loading the values into g stands with the board h: while every value so far was
      loaded, the first k are loaded; once one was refused, it is the k-th. */
  ghost predicate Progress(g: Grid, values: seq<int>, k: int, loaded: bool, h: Grid)
    requires WellFormed(g) && |values| == CellCount && 0 <= k <= CellCount
  {
    if loaded then DigitsBefore(values, k) && h == Load(g, values, k) && IntoEmpty(g, values, k)
    else k < CellCount && Refused(g, values, InvalidCellValue(values[k], k % 9, k / 9, k + 1), h)
  }

  /** The value at index is refused when it is no digit, or when its cell, as loading left
      it, is taken or sees it. */
  lemma RefusedAt(g: Grid, values: seq<int>, index: int, h: Grid)
    requires WellFormed(g) && |values| == CellCount && 0 <= index < CellCount
    requires DigitsBefore(values, index)
    requires h == Load(g, values, index) && IntoEmpty(g, values, index)
    requires 0 <= values[index] <= 9 ==>
      values[index] != 0 && !(h[index / 9][index % 9] == 0 && values[index] !in InUse(h, index % 9, index / 9))
    ensures Progress(g, values, index, false, h)
  {
    assert Index(index % 9, index / 9) == index;
  }

  /** canFill's test on the rule sets and the population, for any b >= 0: the cell's
      population bit is clear and none of its three rule sets holds b. BitSet.get of a bit
      past the set's end is false, so every b >= 10 not yet accepted passes; a negative b
      makes BitSet.get throw once the population test has passed, and is not modelled. */
  function Accepts(rowRules: seq<set<int>>, colRules: seq<set<int>>, blockRules: seq<set<int>>,
                   population: set<int>, x: int, y: int, b: int): (r: bool)
    requires |rowRules| == 9 && |colRules| == 9 && |blockRules| == 9 && InRange(x, y) && 0 <= b
    ensures r <==> Index(x, y) !in population && b !in rowRules[y] + colRules[x] + blockRules[BlockIndex(x, y)]
  {
    if Index(x, y) in population then false
    else if b in rowRules[y] then false
    else if b in colRules[x] then false
    else b !in blockRules[BlockIndex(x, y)]
  }

  /** parseCSV as written hands fillCell any integer: on the empty board the test of canFill
      accepts 12, since no rule set holds it, and set then stores 12 in the cell's four bits,
      where get reads it back although no Sudoku cell holds 12. */
  lemma ParseAcceptsTwelve()
    ensures var empty := seq(9, _ => {0});
      Accepts(empty, empty, empty, {}, 0, 0, 12)
    ensures Packed.Nibble(Packed.SetNibble(0, 0, 12), 0) == 12 && !(0 <= 12 <= 9)
  {
    Packed.UnpackZero();
    assert Packed.Nibble(0, 0) == Packed.Unpack(0)[0];
    Packed.NibbleOfSetSame(0, 0, 12);
  }

  /** On a consistent board canFill's test, as written, accepts every b of TOTAL_CARDINALITY or
      more exactly when the cell is empty: no rule set holds such a value, so only the
      population bit decides. */
  lemma AcceptsBeyondDigits(g: Grid, rowRules: seq<set<int>>, colRules: seq<set<int>>,
                            blockRules: seq<set<int>>, population: set<int>, x: int, y: int, b: int)
    requires Consistent(g, rowRules, colRules, blockRules, population) && InRange(x, y)
    requires b >= TotalCardinality
    ensures Accepts(rowRules, colRules, blockRules, population, x, y, b) <==> g[y][x] == 0
  {
    var i := BlockIndex(x, y);
    ValueBeyondRules(g, rowRules[y], colRules[x], blockRules[i], x, y, b);
    assert Index(x, y) in population <==> g[y][x] != 0;
  }

  /** A value of TOTAL_CARDINALITY or more is in none of the three rule sets of a cell. */
  lemma ValueBeyondRules(g: Grid, row: set<int>, col: set<int>, block: set<int>, x: int, y: int, b: int)
    requires WellFormed(g) && InRange(x, y) && b >= TotalCardinality
    requires row == RowRule(g, y) && col == ColRule(g, x) && block == BlockRule(g, BlockIndex(x, y))
    ensures b !in row + col + block
  {
    InUseBounds(g, x, y);
    assert b !in Digits();
  }

  class Board {
    /** One word per row, four bits per column. */
    const cells: array<bv64>
    var colRules: seq<set<int>>
    var rowRules: seq<set<int>>
    var blockRules: seq<set<int>>
    /** Bit (y * COLS) + x is set when cell (x, y) holds a digit. */
    var population: set<int>

    /** The board as a grid of digits. */
    function Contents(): Grid
      reads cells
      requires cells.Length == 9
    {
      GridOf(cells[..])
    }

    /** The rule sets hold exactly the digits present plus the sentinel 0, the population
        names exactly the filled cells, and no digit is repeated. */
    ghost predicate Valid()
      reads this, cells
    {
      && cells.Length == 9
      && Consistent(Contents(), rowRules, colRules, blockRules, population)
    }

    /** The empty board, its rule sets calculated from the empty cells. */
    constructor ()
      ensures Valid() && fresh(cells)
      ensures Contents() == EmptyGrid() && population == {}
    {
      cells := new bv64[9](_ => 0);
      colRules := [];
      rowRules := [];
      blockRules := [];
      population := {};
      new;
      Packed.UnpackZero();
      assert forall y :: 0 <= y < 9 ==> Contents()[y] == EmptyGrid()[y];
      assert Contents() == EmptyGrid();
      EmptyGridRules();
      CalculateRules();
    }

    /** get(col, row): the digit in cell (col, row). */
    function Get(col: int, row: int): (b: int)
      reads cells
      requires cells.Length == 9 && InRange(col, row)
      ensures b == Contents()[row][col]
    {
      Packed.Nibble(cells[row], col)
    }

    /** set(col, row, b): write b into the empty field of cell (col, row). */
    method Set(col: int, row: int, b: int)
      requires cells.Length == 9 && InRange(col, row) && 0 <= b < 16
      requires Get(col, row) == 0
      modifies cells
      ensures cells[..] == old(cells[..])[row := Packed.SetNibble(old(cells[row]), col, b)]
      ensures Contents() == old(Contents())[row := old(Contents())[row][col := b]]
    {
      cells[row] := Packed.SetNibble(cells[row], col, b);
      Packed.UnpackSet(old(cells[row]), col, b);
      assert Contents()[row] == old(Contents())[row][col := b];
      assert forall y :: 0 <= y < 9 && y != row ==> Contents()[y] == old(Contents())[y];
    }

    /** clear(col, row): zero the field of cell (col, row). */
    method Clear(col: int, row: int)
      requires cells.Length == 9 && InRange(col, row)
      modifies cells
      ensures cells[..] == old(cells[..])[row := Packed.ClearNibble(old(cells[row]), col)]
      ensures Contents() == old(Contents())[row := old(Contents())[row][col := 0]]
    {
      cells[row] := Packed.ClearNibble(cells[row], col);
      Packed.UnpackClear(old(cells[row]), col);
      assert Contents()[row] == old(Contents())[row][col := 0];
      assert forall y :: 0 <= y < 9 && y != row ==> Contents()[y] == old(Contents())[y];
    }

    /** rowSet(row): every value in the row, collected cell by cell. */
    method RowSet(row: int) returns (s: set<int>)
      requires cells.Length == 9 && WellFormed(Contents()) && 0 <= row < 9
      ensures s == RowValues(Contents(), row)
    {
      s := {};
      for col := 0 to 9
        invariant s == set x | 0 <= x < col :: Contents()[row][x]
      {
        s := s + {Get(col, row)};
      }
    }

    /** colSet(column): every value in the column, collected cell by cell. */
    method ColSet(column: int) returns (s: set<int>)
      requires cells.Length == 9 && WellFormed(Contents()) && 0 <= column < 9
      ensures s == ColValues(Contents(), column)
    {
      s := {};
      for row := 0 to 9
        invariant s == set y | 0 <= y < row :: Contents()[y][column]
      {
        s := s + {Get(column, row)};
      }
    }

    /** eachInBlock(lx, ly, consumer): the values of the 3x3 area with corner (lx, ly) in the
        order the consumer receives them, column by column, top to bottom. */
    method EachInBlock(lx: int, ly: int) returns (visited: seq<int>)
      requires cells.Length == 9 && WellFormed(Contents())
      requires 0 <= lx && lx + 3 <= 9 && 0 <= ly && ly + 3 <= 9
      ensures visited == Visited(Contents(), lx, ly, lx + 3, ly)
    {
      ghost var g := Contents();
      visited := [];
      for ix := lx to lx + 3
        invariant visited == Visited(g, lx, ly, ix, ly)
      {
        for iy := ly to ly + 3
          invariant visited == Visited(g, lx, ly, ix, iy)
        {
          visited := visited + [Get(ix, iy)];
        }
      }
    }

    /** blockSet(index): every value in the 3x3 area of block index. */
    method BlockSet(index: int) returns (s: set<int>)
      requires cells.Length == 9 && WellFormed(Contents()) && 0 <= index < 9
      ensures s == BlockValues(Contents(), index)
    {
      var x := index % 3;
      var y := index / 3;
      var visited := EachInBlock(x * 3, y * 3);
      s := set v | v in visited;
      assert x * 3 == BlockX(index) && y * 3 == BlockY(index);
      VisitedBlock(Contents(), index);
      assert forall v :: v in s <==> v in BlockValues(Contents(), index);
    }

    /** calculateRules(): rebuild the column, row and block rule sets from the cells. */
    method CalculateRules()
      requires cells.Length == 9 && WellFormed(Contents())
      modifies this
      ensures |colRules| == 9 && |rowRules| == 9 && |blockRules| == 9
      ensures forall x :: 0 <= x < 9 ==> colRules[x] == ColValues(Contents(), x)
      ensures forall y :: 0 <= y < 9 ==> rowRules[y] == RowValues(Contents(), y)
      ensures forall i :: 0 <= i < 9 ==> blockRules[i] == BlockValues(Contents(), i)
      ensures population == old(population)
    {
      ghost var g := Contents();
      colRules := [];
      rowRules := [];
      blockRules := [];
      for x := 0 to 9
        invariant |colRules| == x && rowRules == [] && blockRules == [] && population == old(population)
        invariant forall x2 :: 0 <= x2 < x ==> colRules[x2] == ColValues(g, x2)
      {
        var s := ColSet(x);
        colRules := colRules + [s];
      }
      ghost var cols := colRules;
      for y := 0 to 9
        invariant colRules == cols && |rowRules| == y && blockRules == [] && population == old(population)
        invariant forall y2 :: 0 <= y2 < y ==> rowRules[y2] == RowValues(g, y2)
      {
        var s := RowSet(y);
        rowRules := rowRules + [s];
      }
      ghost var rows := rowRules;
      for i := 0 to 9
        invariant colRules == cols && rowRules == rows && |blockRules| == i && population == old(population)
        invariant forall i2 :: 0 <= i2 < i ==> blockRules[i2] == BlockValues(g, i2)
      {
        var s := BlockSet(i);
        blockRules := blockRules + [s];
      }
    }

    /** allInUseAt(col, row): the union of the three rule sets constraining the cell. */
    function AllInUseAt(col: int, row: int): (inUse: set<int>)
      reads this, cells
      requires Valid() && InRange(col, row)
      ensures inUse == InUse(Contents(), col, row)
    {
      rowRules[row] + colRules[col] + blockRules[BlockIndex(col, row)]
    }

    /** canFill(x, y, b): the cell is not populated and b is in none of its rule sets. */
    function CanFill(x: int, y: int, b: int): (r: bool)
      reads this, cells
      requires Valid() && InRange(x, y) && 0 <= b <= 9
      ensures r <==> Contents()[y][x] == 0 && b !in InUse(Contents(), x, y)
    {
      Accepts(rowRules, colRules, blockRules, population, x, y, b)
    }

    /** fillCell(x, y, b): when canFill allows it, write b and add it to the rule sets of the
        cell's row, column and block and the cell to the population. */
    method FillCell(x: int, y: int, b: int) returns (r: bool)
      requires Valid() && InRange(x, y) && 0 <= b <= 9
      modifies this, cells
      ensures Valid()
      ensures r <==> old(Contents())[y][x] == 0 && b !in old(InUse(Contents(), x, y))
      ensures r ==> Contents() == Place(old(Contents()), x, y, b)
      ensures r ==> cells[..] == old(cells[..])[y := Packed.SetNibble(old(cells[y]), x, b)]
      ensures r ==> population == old(population) + {Index(x, y)}
      ensures r ==> rowRules == old(rowRules)[y := old(rowRules[y]) + {b}]
      ensures r ==> colRules == old(colRules)[x := old(colRules[x]) + {b}]
      ensures r ==> blockRules == old(blockRules)[BlockIndex(x, y) := old(blockRules[BlockIndex(x, y)]) + {b}]
      ensures !r ==> unchanged(this, cells)
    {
      r := CanFill(x, y, b);
      if r {
        FillKeepsConsistent(Contents(), rowRules, colRules, blockRules, population, x, y, b);
        Set(x, y, b);
        rowRules := rowRules[y := rowRules[y] + {b}];
        colRules := colRules[x := colRules[x] + {b}];
        var i := BlockIndex(x, y);
        blockRules := blockRules[i := blockRules[i] + {b}];
        population := population + {Index(x, y)};
      }
    }

    /** clearCell(x, y): when the cell holds a digit, zero it and remove the digit from the
        rule sets of its row, column and block and the cell from the population. */
    method ClearCell(x: int, y: int)
      requires Valid() && InRange(x, y)
      modifies this, cells
      ensures Valid()
      ensures old(Contents())[y][x] == 0 ==> unchanged(this, cells)
      ensures old(Contents())[y][x] != 0 ==>
        && Contents() == Place(old(Contents()), x, y, 0)
        && cells[..] == old(cells[..])[y := Packed.ClearNibble(old(cells[y]), x)]
        && population == old(population) - {Index(x, y)}
        && rowRules == old(rowRules)[y := old(rowRules[y]) - {old(Contents())[y][x]}]
        && colRules == old(colRules)[x := old(colRules[x]) - {old(Contents())[y][x]}]
        && blockRules == old(blockRules)[BlockIndex(x, y) := old(blockRules[BlockIndex(x, y)]) - {old(Contents())[y][x]}]
    {
      var b := Get(x, y);
      if b == 0 {
        return;
      }
      ClearKeepsConsistent(Contents(), rowRules, colRules, blockRules, population, x, y);
      Clear(x, y);
      rowRules := rowRules[y := rowRules[y] - {b}];
      colRules := colRules[x := colRules[x] - {b}];
      var i := BlockIndex(x, y);
      blockRules := blockRules[i := blockRules[i] - {b}];
      population := population - {Index(x, y)};
    }

    /** findSolvePosition(pos): scanning rows top to bottom and each row left to right, the
        first empty cell whose union of rule sets is largest while still leaving a value open;
        the scan stops early at a cell with a single value left. */
    method FindSolvePosition() returns (pos: CellPos)
      requires Valid()
      ensures BestCandidate(Contents(), pos)
    {
      ghost var g := Contents();
      pos := CellPos(0, 0, false, 0);
      var bestCardinality := 0;
      for row := 0 to 9
        invariant Scanned(g, pos, bestCardinality, row * 9)
      {
        for col := 0 to 9
          invariant Scanned(g, pos, bestCardinality, row * 9 + col)
        {
          if Get(col, row) != 0 {
            ScanPass(g, pos, bestCardinality, col, row);
            continue;
          }
          var inUse := AllInUseAt(col, row);
          var cardinality := |inUse|;
          if cardinality > bestCardinality && cardinality < TotalCardinality && 0 in inUse {
            ScanTake(g, pos, bestCardinality, col, row);
            bestCardinality := cardinality;
            pos := CellPos(col, row, true, cardinality);
            if cardinality == TotalCardinality - 1 {
              ScanSingle(g, pos, bestCardinality, Index(col, row) + 1);
              return;
            }
          } else {
            ScanPass(g, pos, bestCardinality, col, row);
          }
        }
      }
      ScanDone(g, pos, bestCardinality);
    }

    /** solve(trace): choose the best candidate cell and try its open values; true once the
        board is full, which makes the board a solution of the puzzle it started from. On
        false nothing has changed and, unless the board was already full, the puzzle has
        no solution. */
    method Solve() returns (r: bool)
      requires Valid()
      modifies this, cells
      decreases CellCount - |population|, 2
      ensures Valid()
      ensures r ==> |population| == CellCount && IsCompletion(old(Contents()), Contents())
      ensures !r ==> cells[..] == old(cells[..]) && population == old(population)
      ensures !r ==> rowRules == old(rowRules) && colRules == old(colRules) && blockRules == old(blockRules)
      ensures !r && |old(population)| < CellCount ==> NoCompletion(old(Contents()))
      ensures |old(population)| == CellCount ==> !r
    {
      PopulationBound(Contents());
      var pos := FindSolvePosition();
      if !pos.valid {
        if |population| < CellCount {
          ghost var y, x :| InRange(x, y) && Contents()[y][x] == 0;
          InUseBounds(Contents(), x, y);
          DeadEnd(Contents(), x, y);
        }
        return false;
      }
      var inUse := AllInUseAt(pos.col, pos.row);
      r := TryValid(pos.col, pos.row, inUse);
    }

    /** tryValid(col, row, inUse, trace): try the values inUse leaves open at the empty cell,
        in increasing order, until one of them leads to a full board. */
    method TryValid(col: int, row: int, inUse: set<int>) returns (r: bool)
      requires Valid() && InRange(col, row) && Contents()[row][col] == 0
      requires inUse == InUse(Contents(), col, row)
      modifies this, cells
      decreases CellCount - |population|, 1
      ensures Valid()
      ensures r ==> |population| == CellCount && IsCompletion(old(Contents()), Contents())
      ensures r ==> Contents()[row][col] !in inUse
      ensures r ==> forall d :: 1 <= d < Contents()[row][col] && d !in inUse ==>
        NoCompletion(Place(old(Contents()), col, row, d))
      ensures !r ==> cells[..] == old(cells[..]) && population == old(population)
      ensures !r ==> rowRules == old(rowRules) && colRules == old(colRules) && blockRules == old(blockRules)
      ensures !r ==> NoCompletion(old(Contents()))
    {
      ghost var g := Contents();
      InUseBounds(g, col, row);
      var nextChoice := NextClearBit(inUse, 1);
      while nextChoice < TotalCardinality
        invariant 1 <= nextChoice <= TotalCardinality && (nextChoice < TotalCardinality ==> nextChoice !in inUse)
        invariant Valid() && Contents() == g
        invariant cells[..] == old(cells[..]) && population == old(population)
        invariant rowRules == old(rowRules) && colRules == old(colRules) && blockRules == old(blockRules)
        invariant forall d :: 1 <= d < nextChoice && d !in inUse ==> NoCompletion(Place(g, col, row, d))
        decreases TotalCardinality - nextChoice
      {
        var solved := TryChoice(col, row, nextChoice);
        if solved {
          CompletionOfPlace(g, Contents(), col, row, nextChoice);
          return true;
        }
        ChoiceFailed(g, col, row, inUse, nextChoice);
        nextChoice := NextClearBit(inUse, nextChoice + 1);
      }
      AllChoicesFail(g, col, row);
      return false;
    }

    /** One pass of tryValid's loop: fill the empty cell with b, stop if that fills the board,
        otherwise solve the rest and clear the cell again if that fails. */
    method TryChoice(col: int, row: int, b: int) returns (r: bool)
      requires Valid() && InRange(col, row) && Contents()[row][col] == 0
      requires 1 <= b <= 9 && b !in InUse(Contents(), col, row)
      modifies this, cells
      decreases CellCount - |population|, 0
      ensures Valid()
      ensures r ==> |population| == CellCount && IsCompletion(Place(old(Contents()), col, row, b), Contents())
      ensures !r ==> cells[..] == old(cells[..]) && population == old(population)
      ensures !r ==> rowRules == old(rowRules) && colRules == old(colRules) && blockRules == old(blockRules)
      ensures !r ==> NoCompletion(Place(old(Contents()), col, row, b))
    {
      ghost var g := Contents();
      PopulationBound(g);
      var result := FillCell(col, row, b);
      assert result;
      ghost var filled := Contents();
      PopulationBound(filled);
      if |population| == CellCount {
        FullGridSolved(filled);
        return true;
      }
      var trySolve := Solve();
      if trySolve {
        return true;
      }
      ClearCell(col, row);
      PlaceUndone(g, col, row, b);
      RowsRestored(old(cells[..]), col, row, b);
      RuleRestored(old(rowRules), row, b);
      RuleRestored(old(colRules), col, b);
      RuleRestored(old(blockRules), BlockIndex(col, row), b);
      assert old(population) + {Index(col, row)} - {Index(col, row)} == old(population);
      return false;
    }

    /** One pass of parseCSV's loop, with the value checked to be a digit first: a value
        outside 0..9 is refused, a zero is skipped, and any other digit is filled into the
        cell at the given index if fillCell accepts it. */
    method LoadCell(ghost g: Grid, values: seq<int>, index: int) returns (loaded: bool)
      requires Valid() && WellFormed(g) && |values| == CellCount && 0 <= index < CellCount
      requires DigitsBefore(values, index)
      requires Contents() == Load(g, values, index) && IntoEmpty(g, values, index)
      modifies this, cells
      ensures Valid()
      ensures Progress(g, values, if loaded then index + 1 else index, loaded, Contents())
    {
      var b := values[index];
      if b < 0 || b > 9 {
        RefusedAt(g, values, index, Contents());
        return false;
      }
      if b == 0 {
        LoadStep(g, values, index, Contents());
        return true;
      }
      ghost var before := Contents();
      loaded := FillCell(index % 9, index / 9, b);
      if loaded {
        LoadStep(g, values, index, Contents());
      } else {
        RefusedAt(g, values, index, before);
      }
    }

    /** parseCSV(board) on the parsed cell values, row by row: 81 values are required; each
        nonzero value is filled into its cell in turn, and the first value that is no digit
        or that fillCell refuses stops the load with the cell's position and its 1-based
        index. The cells filled before the failure stay filled. */
    method ParseCsv(values: seq<int>) returns (outcome: Outcome)
      requires Valid()
      modifies this, cells
      ensures Valid()
      ensures |values| != CellCount <==> outcome == Failed(InvalidCellCount(|values|))
      ensures |values| != CellCount ==> cells[..] == old(cells[..]) && population == old(population)
      ensures outcome == Loaded ==> |values| == CellCount && DigitsBefore(values, CellCount)
      ensures outcome == Loaded ==> LoadedAll(old(Contents()), values, Contents())
      ensures outcome.Failed? && outcome.error.InvalidCellValue? ==>
        |values| == CellCount && Refused(old(Contents()), values, outcome.error, Contents())
      ensures outcome.Failed? && outcome.error.InvalidCellCount? ==> |values| != CellCount
    {
      if |values| != CellCount {
        return Failed(InvalidCellCount(|values|));
      }
      ghost var g := Contents();
      var index := 0;
      var loaded := true;
      while index < CellCount && loaded
        invariant 0 <= index <= CellCount && Valid()
        invariant Progress(g, values, index, loaded, Contents())
        decreases CellCount - index, loaded
      {
        loaded := LoadCell(g, values, index);
        if loaded {
          index := index + 1;
        }
      }
      if !loaded {
        return Failed(InvalidCellValue(values[index], index % 9, index / 9, index + 1));
      }
      return Loaded;
    }
  }
}
