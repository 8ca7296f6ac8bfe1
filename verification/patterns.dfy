/**
 * Two classic patterns run through one generation of the engine's rule:
 * the 2x2 block is a still life and the three-cell blinker oscillates with
 * period 2. Both sit inside a border of dead cells, so no live cell lies on
 * the edge of the grid.
 */
module Patterns {
  import opened Rules

  /** The live cells of the block: the four middle cells of a 4x4 grid. */
  predicate InBlock(a: int, b: int) {
    1 <= a <= 2 && 1 <= b <= 2
  }

  /** The live cells of the horizontal blinker: three cells of the middle row of a 5x5 grid. */
  predicate InRow(a: int, b: int) {
    b == 2 && 1 <= a <= 3
  }

  /** The live cells of the vertical blinker: three cells of the middle column of a 5x5 grid. */
  predicate InColumn(a: int, b: int) {
    a == 2 && 1 <= b <= 3
  }

  function Block(): (g: Grid)
    ensures |g| == 4 && Rect(g) && Height(g) == 4
    ensures forall a, b :: LiveAt(g, a, b) == InBlock(a, b)
  {
    seq(4, x => seq(4, y => InBlock(x, y)))
  }

  function BlinkerRow(): (g: Grid)
    ensures |g| == 5 && Rect(g) && Height(g) == 5
    ensures forall a, b :: LiveAt(g, a, b) == InRow(a, b)
  {
    seq(5, x => seq(5, y => InRow(x, y)))
  }

  function BlinkerColumn(): (g: Grid)
    ensures |g| == 5 && Rect(g) && Height(g) == 5
    ensures forall a, b :: LiveAt(g, a, b) == InColumn(a, b)
  {
    seq(5, x => seq(5, y => InColumn(x, y)))
  }

  /** Two rectangular grids of the same size that agree cell by cell are equal. */
  lemma SameCells(g: Grid, h: Grid)
    requires Rect(g) && Rect(h) && |g| == |h| && Height(g) == Height(h)
    requires forall x, y :: 0 <= x < |g| && 0 <= y < Height(g) ==> g[x][y] == h[x][y]
    ensures g == h
  {
    forall x | 0 <= x < |g|
      ensures g[x] == h[x]
    {
      assert forall y :: 0 <= y < |g[x]| ==> g[x][y] == h[x][y];
    }
  }

  /** How many of the eight positions around (x, y) satisfy `live`. */
  function Around(live: (int, int) -> bool, x: int, y: int): (n: nat)
    ensures n <= 8
  {
    Bit(live(x, y - 1)) + Bit(live(x + 1, y - 1)) + Bit(live(x + 1, y)) + Bit(live(x + 1, y + 1)) +
    Bit(live(x, y + 1)) + Bit(live(x - 1, y + 1)) + Bit(live(x - 1, y)) + Bit(live(x - 1, y - 1))
  }

  /** A grid whose live positions are exactly those satisfying `live` has Around(live) live neighbours. */
  lemma NeighboursVia(g: Grid, x: int, y: int, live: (int, int) -> bool)
    requires Rect(g)
    requires forall a, b :: LiveAt(g, a, b) == live(a, b)
    ensures Neighbours(g, x, y) == Around(live, x, y)
  {
    NeighboursUnfolded(g, x, y);
  }

  /** Cell by cell, the rule keeps the block's cells as they are. */
  lemma BlockRule(x: int, y: int)
    requires 0 <= x < 4 && 0 <= y < 4
    ensures NextCell(InBlock(x, y), Around(InBlock, x, y)) == InBlock(x, y)
  {
  }

  /** Cell by cell, the rule turns the horizontal blinker's cells into the vertical one's. */
  lemma RowRule(x: int, y: int)
    requires 0 <= x < 5 && 0 <= y < 5
    ensures NextCell(InRow(x, y), Around(InRow, x, y)) == InColumn(x, y)
  {
  }

  /** Cell by cell, the rule turns the vertical blinker's cells into the horizontal one's. */
  lemma ColumnRule(x: int, y: int)
    requires 0 <= x < 5 && 0 <= y < 5
    ensures NextCell(InColumn(x, y), Around(InColumn, x, y)) == InRow(x, y)
  {
  }

  /** The block is a still life. */
  lemma BlockStill()
    ensures Step(Block()) == Block()
  {
    var g := Block();
    forall x, y | 0 <= x < 4 && 0 <= y < 4
      ensures Step(g)[x][y] == g[x][y]
    {
      NeighboursVia(g, x, y, InBlock);
      BlockRule(x, y);
      assert g[x][y] == InBlock(x, y) by { assert LiveAt(g, x, y) == InBlock(x, y); }
    }
    SameCells(Step(g), g);
  }

  /** The horizontal blinker turns vertical. */
  lemma BlinkerRowToColumn()
    ensures Step(BlinkerRow()) == BlinkerColumn()
  {
    var g, r := BlinkerRow(), BlinkerColumn();
    forall x, y | 0 <= x < 5 && 0 <= y < 5
      ensures Step(g)[x][y] == r[x][y]
    {
      NeighboursVia(g, x, y, InRow);
      RowRule(x, y);
      assert g[x][y] == InRow(x, y) by { assert LiveAt(g, x, y) == InRow(x, y); }
      assert r[x][y] == InColumn(x, y) by { assert LiveAt(r, x, y) == InColumn(x, y); }
    }
    SameCells(Step(g), r);
  }

  /** The vertical blinker turns horizontal. */
  lemma BlinkerColumnToRow()
    ensures Step(BlinkerColumn()) == BlinkerRow()
  {
    var g, r := BlinkerColumn(), BlinkerRow();
    forall x, y | 0 <= x < 5 && 0 <= y < 5
      ensures Step(g)[x][y] == r[x][y]
    {
      NeighboursVia(g, x, y, InColumn);
      ColumnRule(x, y);
      assert g[x][y] == InColumn(x, y) by { assert LiveAt(g, x, y) == InColumn(x, y); }
      assert r[x][y] == InRow(x, y) by { assert LiveAt(r, x, y) == InRow(x, y); }
    }
    SameCells(Step(g), r);
  }

  /** The blinker returns after two generations and not after one. */
  lemma BlinkerPeriod()
    ensures Step(Step(BlinkerRow())) == BlinkerRow()
    ensures Step(BlinkerRow()) != BlinkerRow()
  {
    BlinkerRowToColumn();
    BlinkerColumnToRow();
    assert BlinkerRow()[1][2] != BlinkerColumn()[1][2];
  }
}
