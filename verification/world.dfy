/**
 * The grid engine: a world owns a rectangular grid of cells, indexed
 * area[x, y] with x the column and y the row, and true meaning alive.
 * Its operations are proved against the values of module Rules.
 */
module World {
  import opened Rules

  class World {
    var area: array2<bool>
    /** The grid as a value: cells[x][y] is area[x, y]. */
    ghost var cells: Grid

    ghost predicate Valid()
      reads this, area
    {
      |cells| == area.Length0 && Rect(cells) &&
      (|cells| > 0 ==> Height(cells) == area.Length1) &&
      forall x, y :: 0 <= x < area.Length0 && 0 <= y < area.Length1 ==> cells[x][y] == area[x, y]
    }

    /**
     * A new world of `width` columns of `height` cells, all dead. A negative
     * height is harmless when there are no columns to give it to.
     */
    constructor (width: int, height: int)
      requires 0 <= width && (width > 0 ==> 0 <= height)
      ensures Valid() && fresh(area)
      ensures area.Length0 == width && area.Length1 == if height < 0 then 0 else height
      ensures width == 0 ==> cells == []
      ensures 0 <= height ==> cells == Dead(width, height)
    {
      var h := if height < 0 then 0 else height;
      area := new bool[width, h]((_, _) => false);
      cells := Dead(width, h);
    }

    /** Window position (dx, dy) around (x, y) counts exactly when the engine's bounds-checked test succeeds. */
    lemma WindowCellInArea(x: int, y: int, dx: int, dy: int)
      requires Valid()
      ensures WindowCell(cells, x, y, dx, dy) ==
                if dx == 0 && dy == 0 then 0
                else if 0 <= x + dx < area.Length0 && 0 <= y + dy < area.Length1 && area[x + dx, y + dy] then 1
                else 0
    {
    }

    /** The number of live cells among the eight neighbours of (x, y); positions off the grid count as dead. */
    method LiveNeighbours(x: int, y: int) returns (count: int)
      requires Valid()
      ensures count == Neighbours(cells, x, y)
    {
      count := 0;
      for i := -1 to 2
        invariant count == WindowScan(cells, x, y, i)
      {
        for j := -1 to 2
          invariant count == WindowScan(cells, x, y, i) + ColumnScan(cells, x, y, i, j)
        {
          WindowCellInArea(x, y, i, j);
          if i == 0 && j == 0 {
            continue;
          }
          var nx := x + i;
          var ny := y + j;
          if nx >= 0 && nx < area.Length0 && ny >= 0 && ny < area.Length1 && area[nx, ny] {
            count := count + 1;
          }
        }
      }
      WindowScanIsNeighbours(cells, x, y);
    }

    /** The number of live cells in the whole grid. */
    method LiveCellCount() returns (count: int)
      requires Valid()
      ensures count == Live(cells)
    {
      count := 0;
      for i := 0 to area.Length0
        invariant count == Live(cells[..i])
      {
        for j := 0 to area.Length1
          invariant count == Live(cells[..i]) + ColumnLive(cells[i][..j])
        {
          assert cells[i][..j + 1][..j] == cells[i][..j];
          if area[i, j] {
            count := count + 1;
          }
        }
        assert cells[..i + 1][..i] == cells[..i];
        assert cells[i][..area.Length1] == cells[i];
      }
      assert cells[..area.Length0] == cells;
    }

    /**
     * One generation. The old cells are first copied into a fresh buffer
     * `next`; the rule is then written into `next` while neighbours are
     * still counted in `area`; only when both loops are done does `next`
     * replace `area`.
     */
    method Update()
      requires Valid()
      modifies this
      ensures Valid() && fresh(area)
      ensures area.Length0 == old(area.Length0) && area.Length1 == old(area.Length1)
      ensures cells == Step(old(cells))
    {
      ghost var g := cells;
      var w, h := area.Length0, area.Length1;
      var next := new bool[w, h];
      for i := 0 to w
        modifies next
        invariant forall a, b {:trigger next[a, b]} :: 0 <= a < i && 0 <= b < h ==> next[a, b] == g[a][b]
      {
        for j := 0 to h
          modifies next
          invariant forall a, b {:trigger next[a, b]} :: 0 <= a < i && 0 <= b < h ==> next[a, b] == g[a][b]
          invariant forall b {:trigger next[i, b]} :: 0 <= b < j ==> next[i, b] == g[i][b]
        {
          next[i, j] := area[i, j];
        }
      }

      for i := 0 to w
        modifies next
        invariant forall a, b {:trigger next[a, b]} :: 0 <= a < w && 0 <= b < h ==>
                    next[a, b] == if a < i then NextCell(g[a][b], Neighbours(g, a, b)) else g[a][b]
      {
        for j := 0 to h
          modifies next
          invariant forall a, b {:trigger next[a, b]} :: 0 <= a < w && 0 <= b < h ==>
                      next[a, b] == if a < i || (a == i && b < j) then NextCell(g[a][b], Neighbours(g, a, b)) else g[a][b]
        {
          var liveNeighbours := LiveNeighbours(i, j);
          if area[i, j] {
            if liveNeighbours < 2 || liveNeighbours > 3 {
              next[i, j] := false;
            } else {
              next[i, j] := true;
            }
          } else {
            if liveNeighbours == 3 {
              next[i, j] := true;
            }
          }
        }
      }
      area := next;
      cells := Step(g);
    }
  }

  /** Every cell of `w` is set dead in place; the same world is handed back. */
  method Reset(w: World) returns (r: World)
    requires w.Valid()
    modifies w, w.area
    ensures w.Valid() && w.area == old(w.area)
    ensures r == w
    ensures w.cells == Cleared(old(w.cells))
  {
    var a := w.area;
    for i := 0 to a.Length0
      modifies a
      invariant forall x, y :: 0 <= x < i && 0 <= y < a.Length1 ==> !a[x, y]
    {
      for j := 0 to a.Length1
        modifies a
        invariant forall x, y :: 0 <= x < i && 0 <= y < a.Length1 ==> !a[x, y]
        invariant forall y :: 0 <= y < j ==> !a[i, y]
      {
        a[i, j] := false;
      }
    }
    w.cells := Cleared(w.cells);
    return w;
  }
}
