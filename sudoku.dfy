/** The 9x9 Sudoku grid as a value: the cells, the row/column/block rule sets
    derived from them, legality, population and completions. The Board class
    in module Solver keeps its packed state equal to these definitions. */
module Sudoku {

  type Grid = seq<seq<int>>

  /** Number of cells, ROWS * COLS. */
  const CellCount := 81

  /** Cardinality of a rule set that rules out every digit: the nine digits plus the sentinel 0. */
  const TotalCardinality := 10

  predicate InRange(x: int, y: int)
  {
    0 <= x < 9 && 0 <= y < 9
  }

  /** Nine rows of nine cells; a cell holds 0 (empty) or a digit 1..9. */
  predicate WellFormed(g: Grid)
  {
    && |g| == 9
    && (forall y :: 0 <= y < 9 ==> |g[y]| == 9)
    && (forall y, x :: 0 <= y < 9 && 0 <= x < 9 ==> 0 <= g[y][x] <= 9)
  }

  /** The grid with nothing filled in. */
  function EmptyGrid(): (g: Grid)
    ensures WellFormed(g)
    ensures forall y, x :: InRange(x, y) ==> g[y][x] == 0
  {
    seq(9, _ => seq(9, _ => 0))
  }

  /** The grid with cell (x, y) set to d. */
  function Place(g: Grid, x: int, y: int, d: int): (h: Grid)
    requires WellFormed(g) && InRange(x, y) && 0 <= d <= 9
    ensures WellFormed(h)
    ensures h[y][x] == d
    ensures forall y2, x2 :: InRange(x2, y2) && (x2 != x || y2 != y) ==> h[y2][x2] == g[y2][x2]
  {
    g[y := g[y][x := d]]
  }

  // ---------------------------------------------------------------------------
  // Blocks

  /** Left column of block i (index % BLOCK_STRIDE, times BLOCK_STRIDE). */
  function BlockX(i: int): int
  {
    (i % 3) * 3
  }

  /** Top row of block i (index / BLOCK_STRIDE, times BLOCK_STRIDE). */
  function BlockY(i: int): int
  {
    (i / 3) * 3
  }

  /** blockIndex(x, y): the block whose 3x3 area holds (x, y). */
  function BlockIndex(x: int, y: int): (i: int)
    requires InRange(x, y)
    ensures 0 <= i < 9
  {
    (y / 3) * 3 + x / 3
  }

  /** The block indexes the unit tests check: the corner cell and cells in blocks 1, 7, 4 and 8. */
  lemma BlockIndexOrigin()
    ensures BlockIndex(0, 0) == 0
  {
  }

  lemma BlockIndexTopMiddle()
    ensures BlockIndex(3, 0) == 1
  {
  }

  lemma BlockIndexBottomMiddle()
    ensures BlockIndex(3, 8) == 7
  {
  }

  lemma BlockIndexCentre()
    ensures BlockIndex(3, 3) == 4
  {
  }

  lemma BlockIndexBottomRight()
    ensures BlockIndex(6, 8) == 8
  {
  }

  /** The 3x3 area that blockSet(i) visits is exactly the set of cells whose block index is i. */
  lemma BlockAreaExact(i: int, x: int, y: int)
    requires 0 <= i < 9 && InRange(x, y)
    ensures (BlockX(i) <= x < BlockX(i) + 3 && BlockY(i) <= y < BlockY(i) + 3) <==> BlockIndex(x, y) == i
  {
    var j := BlockIndex(x, y);
    assert j % 3 == x / 3 && j / 3 == y / 3;
    if BlockX(i) <= x < BlockX(i) + 3 && BlockY(i) <= y < BlockY(i) + 3 {
      assert i % 3 == j % 3 && i / 3 == j / 3;
    }
  }

  // ---------------------------------------------------------------------------
  // Values present in a row, column or block, and the rule sets

  /** rowSet(y) as computed from the cells: every value in row y, 0 included when a cell is empty. */
  function RowValues(g: Grid, y: int): set<int>
    requires WellFormed(g) && 0 <= y < 9
  {
    set x | 0 <= x < 9 :: g[y][x]
  }

  /** colSet(x) as computed from the cells. */
  function ColValues(g: Grid, x: int): set<int>
    requires WellFormed(g) && 0 <= x < 9
  {
    set y | 0 <= y < 9 :: g[y][x]
  }

  /** blockSet(i) as computed from the cells, visiting the 3x3 area of block i. */
  function BlockValues(g: Grid, i: int): set<int>
    requires WellFormed(g) && 0 <= i < 9
  {
    set x, y | BlockX(i) <= x < BlockX(i) + 3 && BlockY(i) <= y < BlockY(i) + 3 :: g[y][x]
  }

  /** The maintained rule set of row y: the digits present plus the sentinel 0. */
  function RowRule(g: Grid, y: int): set<int>
    requires WellFormed(g) && 0 <= y < 9
  {
    RowValues(g, y) + {0}
  }

  function ColRule(g: Grid, x: int): set<int>
    requires WellFormed(g) && 0 <= x < 9
  {
    ColValues(g, x) + {0}
  }

  function BlockRule(g: Grid, i: int): set<int>
    requires WellFormed(g) && 0 <= i < 9
  {
    BlockValues(g, i) + {0}
  }

  /** allInUseAt(x, y): the union of the three rule sets that constrain cell (x, y). */
  function InUse(g: Grid, x: int, y: int): set<int>
    requires WellFormed(g) && InRange(x, y)
  {
    RowRule(g, y) + ColRule(g, x) + BlockRule(g, BlockIndex(x, y))
  }

  /** Every rule set and every union of them lies within 0..9 and holds the sentinel. */
  lemma InUseBounds(g: Grid, x: int, y: int)
    requires WellFormed(g) && InRange(x, y)
    ensures 0 in InUse(g, x, y)
    ensures InUse(g, x, y) <= Digits()
    ensures 1 <= |InUse(g, x, y)| <= TotalCardinality
  {
    RowDigits(g, y);
    ColDigits(g, x);
    BlockDigits(g, BlockIndex(x, y));
    SubsetCard(InUse(g, x, y), Digits());
  }

  lemma RowDigits(g: Grid, y: int)
    requires WellFormed(g) && 0 <= y < 9
    ensures RowRule(g, y) <= Digits()
  {
    forall v | v in RowValues(g, y) ensures 0 <= v <= 9 {
      var x2 :| 0 <= x2 < 9 && g[y][x2] == v;
    }
  }

  lemma ColDigits(g: Grid, x: int)
    requires WellFormed(g) && 0 <= x < 9
    ensures ColRule(g, x) <= Digits()
  {
    forall v | v in ColValues(g, x) ensures 0 <= v <= 9 {
      var y2 :| 0 <= y2 < 9 && g[y2][x] == v;
    }
  }

  lemma BlockDigits(g: Grid, i: int)
    requires WellFormed(g) && 0 <= i < 9
    ensures BlockRule(g, i) <= Digits()
  {
    forall v | v in BlockValues(g, i) ensures 0 <= v <= 9 {
      var x2, y2 :| BlockX(i) <= x2 < BlockX(i) + 3 && BlockY(i) <= y2 < BlockY(i) + 3 && g[y2][x2] == v;
    }
  }

  /** The values 0..9 a cell of a well-formed grid holds. */
  function Digits(): (s: set<int>)
    ensures forall v :: v in s <==> 0 <= v <= 9
    ensures |s| == TotalCardinality
  {
    Range(TotalCardinality)
  }

  // ---------------------------------------------------------------------------
  // Legality

  /** Two different cells that share a row, a column or a block. */
  predicate Peers(x1: int, y1: int, x2: int, y2: int)
    requires InRange(x1, y1) && InRange(x2, y2)
  {
    (x1 != x2 || y1 != y2) && (y1 == y2 || x1 == x2 || BlockIndex(x1, y1) == BlockIndex(x2, y2))
  }

  /** No digit is repeated in a row, a column or a block. */
  ghost predicate Legal(g: Grid)
    requires WellFormed(g)
  {
    forall x1, y1, x2, y2 ::
      InRange(x1, y1) && InRange(x2, y2) && Peers(x1, y1, x2, y2) && g[y1][x1] != 0 ==>
        g[y1][x1] != g[y2][x2]
  }

  /** Digit d may be written into the empty cell (x, y) of a legal grid exactly when d is
      not in the cell's union of rule sets; the sentinel 0 keeps d = 0 out. */
  lemma {:induction false} PlaceLegal(g: Grid, x: int, y: int, d: int)
    requires WellFormed(g) && Legal(g) && InRange(x, y) && g[y][x] == 0 && 0 <= d <= 9
    ensures d != 0 && Legal(Place(g, x, y, d)) <==> d !in InUse(g, x, y)
  {
    var h := Place(g, x, y, d);
    var i := BlockIndex(x, y);
    if d !in InUse(g, x, y) {
      assert d != 0;
      forall x1, y1, x2, y2 | InRange(x1, y1) && InRange(x2, y2) && Peers(x1, y1, x2, y2) && h[y1][x1] != 0
        ensures h[y1][x1] != h[y2][x2]
      {
        if x1 == x && y1 == y {
          PeerValueInUse(g, x, y, x2, y2);
        } else if x2 == x && y2 == y {
          PeerValueInUse(g, x, y, x1, y1);
        }
      }
    } else if d != 0 {
      var x2, y2 := PeerHolding(g, x, y, d);
      assert Peers(x, y, x2, y2) && h[y][x] == h[y2][x2] == d;
    }
  }

  /** A peer of (x, y) holds a value that is in the union at (x, y). */
  lemma PeerValueInUse(g: Grid, x: int, y: int, x2: int, y2: int)
    requires WellFormed(g) && InRange(x, y) && InRange(x2, y2) && Peers(x, y, x2, y2)
    ensures g[y2][x2] in InUse(g, x, y)
  {
    var i := BlockIndex(x, y);
    if y2 == y {
      assert g[y2][x2] in RowValues(g, y);
    } else if x2 == x {
      assert g[y2][x2] in ColValues(g, x);
    } else {
      BlockAreaExact(i, x2, y2);
      assert g[y2][x2] in BlockValues(g, i);
    }
  }

  /** A nonzero value in the union at (x, y) is held by some peer of (x, y) when (x, y) is empty. */
  lemma PeerHolding(g: Grid, x: int, y: int, d: int) returns (x2: int, y2: int)
    requires WellFormed(g) && InRange(x, y) && g[y][x] == 0 && d != 0 && d in InUse(g, x, y)
    ensures InRange(x2, y2) && Peers(x, y, x2, y2) && g[y2][x2] == d
  {
    var i := BlockIndex(x, y);
    if d in RowValues(g, y) {
      x2 :| 0 <= x2 < 9 && g[y][x2] == d;
      y2 := y;
    } else if d in ColValues(g, x) {
      y2 :| 0 <= y2 < 9 && g[y2][x] == d;
      x2 := x;
    } else {
      assert d in BlockValues(g, i);
      x2, y2 :| BlockX(i) <= x2 < BlockX(i) + 3 && BlockY(i) <= y2 < BlockY(i) + 3 && g[y2][x2] == d;
      BlockAreaExact(i, x2, y2);
    }
  }

  // ---------------------------------------------------------------------------
  // Rule sets after writing or clearing one cell

  /** Writing d into an empty cell adds d to the rule sets of its row, column and block
      and leaves every other rule set as it was. */
  lemma {:induction false} RulesAfterPlace(g: Grid, x: int, y: int, d: int)
    requires WellFormed(g) && InRange(x, y) && g[y][x] == 0 && 0 <= d <= 9
    ensures forall y2 :: 0 <= y2 < 9 ==>
      RowRule(Place(g, x, y, d), y2) == if y2 == y then RowRule(g, y) + {d} else RowRule(g, y2)
    ensures forall x2 :: 0 <= x2 < 9 ==>
      ColRule(Place(g, x, y, d), x2) == if x2 == x then ColRule(g, x) + {d} else ColRule(g, x2)
    ensures forall i :: 0 <= i < 9 ==>
      BlockRule(Place(g, x, y, d), i) == if i == BlockIndex(x, y) then BlockRule(g, i) + {d} else BlockRule(g, i)
  {
    var h := Place(g, x, y, d);
    forall y2 | 0 <= y2 < 9
      ensures RowRule(h, y2) == if y2 == y then RowRule(g, y) + {d} else RowRule(g, y2)
    {
      if y2 == y {
        forall v | v in RowRule(g, y) + {d} ensures v in RowRule(h, y) {
          if v != 0 && v != d {
            var x2 :| 0 <= x2 < 9 && g[y][x2] == v;
            assert h[y][x2] == v;
          } else if v == d {
            assert h[y][x] == d;
          }
        }
      } else {
        assert h[y2] == g[y2];
      }
    }
    forall x2 | 0 <= x2 < 9
      ensures ColRule(h, x2) == if x2 == x then ColRule(g, x) + {d} else ColRule(g, x2)
    {
      if x2 == x {
        forall v | v in ColRule(g, x) + {d} ensures v in ColRule(h, x) {
          if v != 0 && v != d {
            var y2 :| 0 <= y2 < 9 && g[y2][x] == v;
            assert h[y2][x] == v;
          } else if v == d {
            assert h[y][x] == d;
          }
        }
      } else {
        forall v ensures v in ColRule(h, x2) <==> v in ColRule(g, x2) {
          assert forall y2 :: 0 <= y2 < 9 ==> h[y2][x2] == g[y2][x2];
        }
      }
    }
    forall i | 0 <= i < 9
      ensures BlockRule(h, i) == if i == BlockIndex(x, y) then BlockRule(g, i) + {d} else BlockRule(g, i)
    {
      BlockAfterPlace(g, x, y, d, i);
    }
  }

  lemma BlockAfterPlace(g: Grid, x: int, y: int, d: int, i: int)
    requires WellFormed(g) && InRange(x, y) && g[y][x] == 0 && 0 <= d <= 9 && 0 <= i < 9
    ensures BlockRule(Place(g, x, y, d), i) == if i == BlockIndex(x, y) then BlockRule(g, i) + {d} else BlockRule(g, i)
  {
    var h := Place(g, x, y, d);
    BlockAreaExact(i, x, y);
    var inside := BlockX(i) <= x < BlockX(i) + 3 && BlockY(i) <= y < BlockY(i) + 3;
    forall v | v in BlockRule(h, i)
      ensures v in (if inside then BlockRule(g, i) + {d} else BlockRule(g, i))
    {
      if v != 0 {
        var x2, y2 :| BlockX(i) <= x2 < BlockX(i) + 3 && BlockY(i) <= y2 < BlockY(i) + 3 && h[y2][x2] == v;
        if x2 != x || y2 != y {
          assert g[y2][x2] == v;
        }
      }
    }
    forall v | v in (if inside then BlockRule(g, i) + {d} else BlockRule(g, i))
      ensures v in BlockRule(h, i)
    {
      if v != 0 {
        if inside && v == d {
          assert h[y][x] == d;
        } else {
          var x2, y2 :| BlockX(i) <= x2 < BlockX(i) + 3 && BlockY(i) <= y2 < BlockY(i) + 3 && g[y2][x2] == v;
          assert x2 != x || y2 != y;
          assert h[y2][x2] == v;
        }
      }
    }
  }

  /** Clearing a filled cell of a legal grid removes its digit from the rule sets of its
      row, column and block (no peer holds that digit) and leaves every other rule set. */
  lemma {:induction false} RulesAfterClear(g: Grid, x: int, y: int)
    requires WellFormed(g) && Legal(g) && InRange(x, y) && g[y][x] != 0
    ensures forall y2 :: 0 <= y2 < 9 ==>
      RowRule(Place(g, x, y, 0), y2) == if y2 == y then RowRule(g, y) - {g[y][x]} else RowRule(g, y2)
    ensures forall x2 :: 0 <= x2 < 9 ==>
      ColRule(Place(g, x, y, 0), x2) == if x2 == x then ColRule(g, x) - {g[y][x]} else ColRule(g, x2)
    ensures forall i :: 0 <= i < 9 ==>
      BlockRule(Place(g, x, y, 0), i) == if i == BlockIndex(x, y) then BlockRule(g, i) - {g[y][x]} else BlockRule(g, i)
  {
    var h := Place(g, x, y, 0);
    var d := g[y][x];
    forall y2 | 0 <= y2 < 9
      ensures RowRule(h, y2) == if y2 == y then RowRule(g, y) - {d} else RowRule(g, y2)
    {
      if y2 == y {
        forall v | v in RowRule(h, y) ensures v in RowRule(g, y) - {d} {
          if v != 0 {
            var x2 :| 0 <= x2 < 9 && h[y][x2] == v;
            assert Peers(x, y, x2, y);
          }
        }
        forall v | v in RowRule(g, y) - {d} ensures v in RowRule(h, y) {
          if v != 0 {
            var x2 :| 0 <= x2 < 9 && g[y][x2] == v;
            assert h[y][x2] == v;
          }
        }
      } else {
        assert h[y2] == g[y2];
      }
    }
    forall x2 | 0 <= x2 < 9
      ensures ColRule(h, x2) == if x2 == x then ColRule(g, x) - {d} else ColRule(g, x2)
    {
      if x2 == x {
        forall v | v in ColRule(h, x) ensures v in ColRule(g, x) - {d} {
          if v != 0 {
            var y2 :| 0 <= y2 < 9 && h[y2][x] == v;
            assert Peers(x, y, x, y2);
          }
        }
        forall v | v in ColRule(g, x) - {d} ensures v in ColRule(h, x) {
          if v != 0 {
            var y2 :| 0 <= y2 < 9 && g[y2][x] == v;
            assert h[y2][x] == v;
          }
        }
      } else {
        forall v ensures v in ColRule(h, x2) <==> v in ColRule(g, x2) {
          assert forall y2 :: 0 <= y2 < 9 ==> h[y2][x2] == g[y2][x2];
        }
      }
    }
    forall i | 0 <= i < 9
      ensures BlockRule(h, i) == if i == BlockIndex(x, y) then BlockRule(g, i) - {d} else BlockRule(g, i)
    {
      BlockAfterClear(g, x, y, i);
    }
  }

  lemma BlockAfterClear(g: Grid, x: int, y: int, i: int)
    requires WellFormed(g) && Legal(g) && InRange(x, y) && g[y][x] != 0 && 0 <= i < 9
    ensures BlockRule(Place(g, x, y, 0), i) == if i == BlockIndex(x, y) then BlockRule(g, i) - {g[y][x]} else BlockRule(g, i)
  {
    BlockAreaExact(i, x, y);
    BlockClearedShrinks(g, x, y, i);
    BlockClearedKeeps(g, x, y, i);
  }

  /** After clearing (x, y), block i holds no value it did not hold, and not the cleared
      digit when (x, y) lies in the block. */
  lemma BlockClearedShrinks(g: Grid, x: int, y: int, i: int)
    requires WellFormed(g) && Legal(g) && InRange(x, y) && g[y][x] != 0 && 0 <= i < 9
    ensures var inside := BlockX(i) <= x < BlockX(i) + 3 && BlockY(i) <= y < BlockY(i) + 3;
      BlockRule(Place(g, x, y, 0), i) <= if inside then BlockRule(g, i) - {g[y][x]} else BlockRule(g, i)
  {
    var h := Place(g, x, y, 0);
    var d := g[y][x];
    var inside := BlockX(i) <= x < BlockX(i) + 3 && BlockY(i) <= y < BlockY(i) + 3;
    forall v | v in BlockRule(h, i)
      ensures v in (if inside then BlockRule(g, i) - {d} else BlockRule(g, i))
    {
      if v != 0 {
        var x2, y2 :| BlockX(i) <= x2 < BlockX(i) + 3 && BlockY(i) <= y2 < BlockY(i) + 3 && h[y2][x2] == v;
        assert x2 != x || y2 != y;
        assert g[y2][x2] == v;
        if inside {
          BlockAreaExact(i, x2, y2);
          BlockAreaExact(i, x, y);
          assert Peers(x, y, x2, y2);
        }
      }
    }
  }

  /** After clearing (x, y), block i still holds every value it held other than the cleared digit. */
  lemma BlockClearedKeeps(g: Grid, x: int, y: int, i: int)
    requires WellFormed(g) && InRange(x, y) && g[y][x] != 0 && 0 <= i < 9
    ensures BlockRule(g, i) - {g[y][x]} <= BlockRule(Place(g, x, y, 0), i)
  {
    var h := Place(g, x, y, 0);
    var d := g[y][x];
    forall v | v in BlockRule(g, i) - {d} ensures v in BlockRule(h, i) {
      if v != 0 {
        var x2, y2 :| BlockX(i) <= x2 < BlockX(i) + 3 && BlockY(i) <= y2 < BlockY(i) + 3 && g[y2][x2] == v;
        assert x2 != x || y2 != y;
        assert h[y2][x2] == v;
      }
    }
  }

  // ---------------------------------------------------------------------------
  // Population

  /** The population bit of cell (x, y): (y * COLS) + x. */
  function Index(x: int, y: int): (k: int)
    requires InRange(x, y)
    ensures 0 <= k < CellCount && k / 9 == y && k % 9 == x
  {
    y * 9 + x
  }

  /** The cells that hold a digit, as population bits. */
  function Populated(g: Grid): set<int>
    requires WellFormed(g)
  {
    set k | 0 <= k < CellCount && g[k / 9][k % 9] != 0
  }

  /** Writing a digit into an empty cell sets exactly its population bit; clearing a filled
      cell clears exactly its bit. */
  lemma PopulatedAfterPlace(g: Grid, x: int, y: int, d: int)
    requires WellFormed(g) && InRange(x, y) && 0 <= d <= 9
    ensures d != 0 && g[y][x] == 0 ==> Populated(Place(g, x, y, d)) == Populated(g) + {Index(x, y)}
    ensures d == 0 && g[y][x] != 0 ==> Populated(Place(g, x, y, d)) == Populated(g) - {Index(x, y)}
  {
    var h := Place(g, x, y, d);
    forall k | 0 <= k < CellCount && k != Index(x, y) ensures h[k / 9][k % 9] == g[k / 9][k % 9] {
      assert k / 9 != y || k % 9 != x;
    }
  }

  /** At most 81 cells are populated, and all 81 exactly when no cell is empty. */
  lemma PopulationBound(g: Grid)
    requires WellFormed(g)
    ensures |Populated(g)| <= CellCount
    ensures |Populated(g)| == CellCount <==> forall y, x :: InRange(x, y) ==> g[y][x] != 0
  {
    var all := Range(CellCount);
    SubsetCard(Populated(g), all);
    if forall y, x :: InRange(x, y) ==> g[y][x] != 0 {
      assert Populated(g) == all;
    }
    if |Populated(g)| == CellCount {
      forall y, x | InRange(x, y) ensures g[y][x] != 0 {
        var k := Index(x, y);
        assert k in all;
        SubsetCardEqual(Populated(g), all);
        assert k in Populated(g);
        assert g[k / 9][k % 9] != 0;
      }
    }
  }

  // ---------------------------------------------------------------------------
  // The constraint index

  /** The rule sets and the population describe the grid g exactly: every rule set holds
      the digits of its row, column or block plus the sentinel 0, the population holds the
      bits of the filled cells, and g repeats no digit. */
  ghost predicate Consistent(g: Grid, rowRules: seq<set<int>>, colRules: seq<set<int>>,
                             blockRules: seq<set<int>>, population: set<int>)
  {
    && WellFormed(g)
    && Legal(g)
    && |rowRules| == 9 && |colRules| == 9 && |blockRules| == 9
    && population == Populated(g)
    && (forall y :: 0 <= y < 9 ==> rowRules[y] == RowRule(g, y))
    && (forall x :: 0 <= x < 9 ==> colRules[x] == ColRule(g, x))
    && (forall i :: 0 <= i < 9 ==> blockRules[i] == BlockRule(g, i))
  }

  /** fillCell keeps the index consistent: writing a digit the cell's union leaves open adds
      it to the three rule sets of the cell and the cell to the population. */
  lemma {:induction false} FillKeepsConsistent(g: Grid, rowRules: seq<set<int>>, colRules: seq<set<int>>,
                                               blockRules: seq<set<int>>, population: set<int>,
                                               x: int, y: int, d: int)
    requires Consistent(g, rowRules, colRules, blockRules, population)
    requires InRange(x, y) && g[y][x] == 0 && 0 <= d <= 9 && d !in InUse(g, x, y)
    ensures Consistent(Place(g, x, y, d),
                       rowRules[y := rowRules[y] + {d}],
                       colRules[x := colRules[x] + {d}],
                       blockRules[BlockIndex(x, y) := blockRules[BlockIndex(x, y)] + {d}],
                       population + {Index(x, y)})
  {
    PlaceLegal(g, x, y, d);
    RulesAfterPlace(g, x, y, d);
    PopulatedAfterPlace(g, x, y, d);
  }

  /** clearCell keeps the index consistent: emptying a filled cell removes its digit from the
      three rule sets of the cell and the cell from the population. */
  lemma {:induction false} ClearKeepsConsistent(g: Grid, rowRules: seq<set<int>>, colRules: seq<set<int>>,
                                                blockRules: seq<set<int>>, population: set<int>,
                                                x: int, y: int)
    requires Consistent(g, rowRules, colRules, blockRules, population)
    requires InRange(x, y) && g[y][x] != 0
    ensures Consistent(Place(g, x, y, 0),
                       rowRules[y := rowRules[y] - {g[y][x]}],
                       colRules[x := colRules[x] - {g[y][x]}],
                       blockRules[BlockIndex(x, y) := blockRules[BlockIndex(x, y)] - {g[y][x]}],
                       population - {Index(x, y)})
  {
    RulesAfterClear(g, x, y);
    PopulatedAfterPlace(g, x, y, 0);
    ClearKeepsLegal(g, x, y);
  }

  // ---------------------------------------------------------------------------
  // Completions

  /** Every cell filled and no digit repeated: a solved grid. */
  ghost predicate Solved(g: Grid)
  {
    WellFormed(g) && Legal(g) && forall y, x :: InRange(x, y) ==> g[y][x] != 0
  }

  /** h keeps every digit already written in g. */
  ghost predicate Extends(g: Grid, h: Grid)
    requires WellFormed(g) && WellFormed(h)
  {
    forall y, x :: InRange(x, y) && g[y][x] != 0 ==> h[y][x] == g[y][x]
  }

  /** h is a solution of the puzzle g. */
  ghost predicate IsCompletion(g: Grid, h: Grid)
    requires WellFormed(g)
  {
    Solved(h) && Extends(g, h)
  }

  /** The puzzle g has no solution at all. */
  ghost predicate NoCompletion(g: Grid)
    requires WellFormed(g)
  {
    forall h :: !IsCompletion(g, h)
  }

  /** The digit a solution holds at an empty cell is one the cell's union of rule sets
      leaves open, and the solution also solves the grid with that digit written in. */
  lemma {:induction false} CompletionStep(g: Grid, h: Grid, x: int, y: int)
    requires WellFormed(g) && IsCompletion(g, h) && InRange(x, y) && g[y][x] == 0
    ensures 1 <= h[y][x] <= 9 && h[y][x] !in InUse(g, x, y)
    ensures IsCompletion(Place(g, x, y, h[y][x]), h)
  {
    var d := h[y][x];
    forall v | v in InUse(g, x, y) ensures v != d {
      if v != 0 {
        var x2, y2 := PeerHolding(g, x, y, v);
        assert h[y2][x2] == v;
        assert Peers(x, y, x2, y2);
      }
    }
  }

  /** A solution of the grid with one more digit written in solves the grid itself, and
      holds that digit. */
  lemma CompletionOfPlace(g: Grid, h: Grid, x: int, y: int, d: int)
    requires WellFormed(g) && InRange(x, y) && g[y][x] == 0 && 1 <= d <= 9
    requires IsCompletion(Place(g, x, y, d), h)
    ensures IsCompletion(g, h) && h[y][x] == d
  {
    var p := Place(g, x, y, d);
    assert p[y][x] == d;
    forall y2, x2 | InRange(x2, y2) && g[y2][x2] != 0 ensures h[y2][x2] == g[y2][x2] {
      assert p[y2][x2] == g[y2][x2];
    }
  }

  /** An empty cell whose union of rule sets already covers 0..9 is a dead end. */
  lemma {:induction false} DeadEnd(g: Grid, x: int, y: int)
    requires WellFormed(g) && InRange(x, y) && g[y][x] == 0 && |InUse(g, x, y)| >= TotalCardinality
    ensures NoCompletion(g)
  {
    InUseBounds(g, x, y);
    SubsetCardEqual(InUse(g, x, y), Digits());
    forall h | IsCompletion(g, h) ensures false {
      CompletionStep(g, h, x, y);
    }
  }

  /** When every digit the union at an empty cell leaves open leads to a grid without a
      solution, the grid itself has none: tryValid's exhaustive loop is complete. */
  lemma {:induction false} AllChoicesFail(g: Grid, x: int, y: int)
    requires WellFormed(g) && InRange(x, y) && g[y][x] == 0
    requires forall d :: 1 <= d <= 9 && d !in InUse(g, x, y) ==> NoCompletion(Place(g, x, y, d))
    ensures NoCompletion(g)
  {
    forall h | IsCompletion(g, h) ensures false {
      CompletionStep(g, h, x, y);
    }
  }

  /** Emptying a cell keeps a legal grid legal. */
  lemma ClearKeepsLegal(g: Grid, x: int, y: int)
    requires WellFormed(g) && Legal(g) && InRange(x, y)
    ensures Legal(Place(g, x, y, 0))
  {
  }

  /** A full legal grid is its own solution. */
  lemma FullGridSolved(g: Grid)
    requires WellFormed(g) && Legal(g) && |Populated(g)| == CellCount
    ensures IsCompletion(g, g)
  {
    PopulationBound(g);
  }

  /** A cell findSolvePosition may choose: empty, with the sentinel in its union and at
      least one value the union leaves open. */
  predicate Candidate(g: Grid, x: int, y: int)
    requires WellFormed(g) && InRange(x, y)
  {
    g[y][x] == 0 && 0 in InUse(g, x, y) && |InUse(g, x, y)| < TotalCardinality
  }

  // ---------------------------------------------------------------------------
  // The empty grid

  /** On the empty grid every row, column and block computes to {0}, so the rule sets
      computed from scratch carry the sentinel, and nothing is populated. */
  lemma EmptyGridRules()
    ensures Legal(EmptyGrid()) && Populated(EmptyGrid()) == {}
    ensures forall y :: 0 <= y < 9 ==> RowValues(EmptyGrid(), y) == {0} == RowRule(EmptyGrid(), y)
    ensures forall x :: 0 <= x < 9 ==> ColValues(EmptyGrid(), x) == {0} == ColRule(EmptyGrid(), x)
    ensures forall i :: 0 <= i < 9 ==> BlockValues(EmptyGrid(), i) == {0} == BlockRule(EmptyGrid(), i)
  {
    var e := EmptyGrid();
    forall y | 0 <= y < 9 ensures RowValues(e, y) == {0} {
      assert e[y][0] == 0;
    }
    forall x | 0 <= x < 9 ensures ColValues(e, x) == {0} {
      assert e[0][x] == 0;
    }
    forall i | 0 <= i < 9 ensures BlockValues(e, i) == {0} {
      assert e[BlockY(i)][BlockX(i)] == 0;
    }
  }

  // ---------------------------------------------------------------------------
  // Cardinality helpers

  /** The integers 0 .. n-1. */
  function Range(n: nat): (s: set<int>)
    ensures forall k :: k in s <==> 0 <= k < n
    ensures |s| == n
  {
    if n == 0 then {} else Range(n - 1) + {n - 1}
  }

  lemma SubsetCard<T>(a: set<T>, b: set<T>)
    requires a <= b
    ensures |a| <= |b|
  {
    assert b == a + (b - a);
  }

  lemma SubsetCardEqual<T>(a: set<T>, b: set<T>)
    requires a <= b && |a| >= |b|
    ensures a == b
  {
    assert b == a + (b - a);
    assert |b - a| == 0;
    assert b - a == {};
  }
}
