/**
 * The Game-of-Life rules as values.
 *
 * A grid is a sequence of columns: g[x][y] is the cell in column x, row y,
 * and true means alive. This is the value the engine's `Area` holds at one
 * moment; the imperative engine (module World) is proved against these
 * functions.
 */
module Rules {

  type Grid = seq<seq<bool>>

  /** The height the engine reads off the first column (zero for a grid without columns). */
  function Height(g: Grid): nat {
    if |g| == 0 then 0 else |g[0]|
  }

  /** Every column is as long as the first one. */
  predicate Rect(g: Grid) {
    forall x :: 0 <= x < |g| ==> |g[x]| == Height(g)
  }

  /** The grid of `width` columns of `height` dead cells. */
  function Dead(width: nat, height: nat): (g: Grid)
    ensures |g| == width && Rect(g)
    ensures width > 0 ==> Height(g) == height
    ensures forall x :: 0 <= x < width ==> |g[x]| == height
    ensures forall x, y :: 0 <= x < width && 0 <= y < height ==> !g[x][y]
  {
    seq(width, _ => seq(height, _ => false))
  }

  /** The grid `g` with every cell dead and every column kept at its own length. */
  function Cleared(g: Grid): (r: Grid)
    ensures |r| == |g|
    ensures forall x :: 0 <= x < |g| ==> |r[x]| == |g[x]|
    ensures forall x, y :: 0 <= x < |r| && 0 <= y < |r[x]| ==> !r[x][y]
  {
    seq(|g|, x requires 0 <= x < |g| => seq(|g[x]|, _ => false))
  }

  /** Cell (x, y) lies inside the grid and is alive; any other position counts as dead. */
  function LiveAt(g: Grid, x: int, y: int): bool
    requires Rect(g)
  {
    0 <= x < |g| && 0 <= y < Height(g) && g[x][y]
  }

  function Bit(b: bool): nat {
    if b then 1 else 0
  }

  /** The eight Moore-neighbourhood offsets, clockwise from the north. */
  const Moore: seq<(int, int)> := [(0, -1), (1, -1), (1, 0), (1, 1), (0, 1), (-1, 1), (-1, 0), (-1, -1)]

  /** How many of the positions (x, y) + d, for d in `offsets`, are live. */
  function CountLive(g: Grid, x: int, y: int, offsets: seq<(int, int)>): (n: nat)
    requires Rect(g)
    ensures n <= |offsets|
  {
    if offsets == [] then 0
    else Bit(LiveAt(g, x + offsets[0].0, y + offsets[0].1)) + CountLive(g, x, y, offsets[1..])
  }

  /** Reference count of the live cells among the eight Moore neighbours of (x, y). */
  function Neighbours(g: Grid, x: int, y: int): (n: nat)
    requires Rect(g)
    ensures n <= 8
  {
    CountLive(g, x, y, Moore)
  }

  /** The reference count spelled out neighbour by neighbour. */
  lemma NeighboursUnfolded(g: Grid, x: int, y: int)
    requires Rect(g)
    ensures Neighbours(g, x, y) ==
      Bit(LiveAt(g, x, y - 1)) + Bit(LiveAt(g, x + 1, y - 1)) + Bit(LiveAt(g, x + 1, y)) +
      Bit(LiveAt(g, x + 1, y + 1)) + Bit(LiveAt(g, x, y + 1)) + Bit(LiveAt(g, x - 1, y + 1)) +
      Bit(LiveAt(g, x - 1, y)) + Bit(LiveAt(g, x - 1, y - 1))
  {
    var m := Moore;
    assert CountLive(g, x, y, m[8..]) == 0;
    assert CountLive(g, x, y, m[7..]) == Bit(LiveAt(g, x - 1, y - 1));
    assert CountLive(g, x, y, m[6..]) == Bit(LiveAt(g, x - 1, y)) + CountLive(g, x, y, m[7..]);
    assert CountLive(g, x, y, m[5..]) == Bit(LiveAt(g, x - 1, y + 1)) + CountLive(g, x, y, m[6..]);
    assert CountLive(g, x, y, m[4..]) == Bit(LiveAt(g, x, y + 1)) + CountLive(g, x, y, m[5..]);
    assert CountLive(g, x, y, m[3..]) == Bit(LiveAt(g, x + 1, y + 1)) + CountLive(g, x, y, m[4..]);
    assert CountLive(g, x, y, m[2..]) == Bit(LiveAt(g, x + 1, y)) + CountLive(g, x, y, m[3..]);
    assert CountLive(g, x, y, m[1..]) == Bit(LiveAt(g, x + 1, y - 1)) + CountLive(g, x, y, m[2..]);
    assert CountLive(g, x, y, m) == Bit(LiveAt(g, x, y - 1)) + CountLive(g, x, y, m[1..]);
  }

  /** The contribution of window position (dx, dy): nothing for the centre, else whether it is live. */
  function WindowCell(g: Grid, x: int, y: int, dx: int, dy: int): nat
    requires Rect(g)
  {
    if dx == 0 && dy == 0 then 0 else Bit(LiveAt(g, x + dx, y + dy))
  }

  /** The count over row offsets -1 .. dyEnd - 1 of column offset dx, in the engine's inner-loop order. */
  function ColumnScan(g: Grid, x: int, y: int, dx: int, dyEnd: int): nat
    requires Rect(g) && -1 <= dyEnd <= 2
    decreases dyEnd + 1
  {
    if dyEnd == -1 then 0 else ColumnScan(g, x, y, dx, dyEnd - 1) + WindowCell(g, x, y, dx, dyEnd - 1)
  }

  /** The count over column offsets -1 .. dxEnd - 1, each scanned in full, in the engine's outer-loop order. */
  function WindowScan(g: Grid, x: int, y: int, dxEnd: int): nat
    requires Rect(g) && -1 <= dxEnd <= 2
    decreases dxEnd + 1
  {
    if dxEnd == -1 then 0 else WindowScan(g, x, y, dxEnd - 1) + ColumnScan(g, x, y, dxEnd - 1, 2)
  }

  /**
   * One full pass of the inner loop over column offset dx counts the upper,
   * middle and lower cell of that column, except the middle of the centre
   * column, which is (x, y) itself.
   */
  lemma ColumnScanFull(g: Grid, x: int, y: int, dx: int)
    requires Rect(g)
    ensures ColumnScan(g, x, y, dx, 2) ==
              Bit(LiveAt(g, x + dx, y - 1)) + (if dx == 0 then 0 else Bit(LiveAt(g, x + dx, y))) +
              Bit(LiveAt(g, x + dx, y + 1))
    ensures dx == 0 ==> ColumnScan(g, x, y, dx, 2) <= 2
  {
  }

  /**
   * Both loops run to the end: the left column, the centre column without
   * (x, y), then the right column; so the count is at most 8.
   */
  lemma WindowScanFull(g: Grid, x: int, y: int)
    requires Rect(g)
    ensures WindowScan(g, x, y, 2) ==
              Bit(LiveAt(g, x - 1, y - 1)) + Bit(LiveAt(g, x - 1, y)) + Bit(LiveAt(g, x - 1, y + 1)) +
              Bit(LiveAt(g, x, y - 1)) + Bit(LiveAt(g, x, y + 1)) +
              Bit(LiveAt(g, x + 1, y - 1)) + Bit(LiveAt(g, x + 1, y)) + Bit(LiveAt(g, x + 1, y + 1))
    ensures WindowScan(g, x, y, 2) <= 8
  {
  }

  /** The full scan counts exactly the reference neighbours. */
  lemma WindowScanIsNeighbours(g: Grid, x: int, y: int)
    requires Rect(g)
    ensures WindowScan(g, x, y, 2) == Neighbours(g, x, y)
  {
    NeighboursUnfolded(g, x, y);
    WindowScanFull(g, x, y);
  }

  /** At the corner (0, 0) only the three in-range neighbours can count. */
  lemma NeighboursAtCorner(g: Grid)
    requires Rect(g)
    ensures Neighbours(g, 0, 0) == Bit(LiveAt(g, 1, 0)) + Bit(LiveAt(g, 0, 1)) + Bit(LiveAt(g, 1, 1))
    ensures Neighbours(g, 0, 0) <= 3
  {
    NeighboursUnfolded(g, 0, 0);
  }

  /** No neighbour of any position is alive in a dead grid. */
  lemma NeighboursOfDead(width: nat, height: nat, x: int, y: int)
    ensures Neighbours(Dead(width, height), x, y) == 0
  {
    NeighboursUnfolded(Dead(width, height), x, y);
  }

  /**
   * The count depends only on the eight cells around (x, y): two grids that
   * agree there (the centre and everything farther away may differ) give
   * the same count.
   */
  lemma NeighboursLocal(g: Grid, h: Grid, x: int, y: int)
    requires Rect(g) && Rect(h)
    requires forall a, b :: x - 1 <= a <= x + 1 && y - 1 <= b <= y + 1 && !(a == x && b == y) ==>
               LiveAt(g, a, b) == LiveAt(h, a, b)
    ensures Neighbours(g, x, y) == Neighbours(h, x, y)
  {
    NeighboursUnfolded(g, x, y);
    NeighboursUnfolded(h, x, y);
  }

  /** The rule the engine applies to one cell, given its old state and its live-neighbour count. */
  function NextCell(alive: bool, n: nat): bool {
    if alive then !(n < 2 || n > 3) else n == 3
  }

  /** One synchronous generation: every new cell is computed from the old grid `g` alone. */
  function Step(g: Grid): (r: Grid)
    requires Rect(g)
    ensures |r| == |g| && Rect(r) && Height(r) == Height(g)
  {
    seq(|g|, x requires 0 <= x < |g| =>
      seq(Height(g), y requires 0 <= y < Height(g) => NextCell(g[x][y], Neighbours(g, x, y))))
  }

  /** Survival with two or three live neighbours, birth with exactly three, death otherwise. */
  lemma StepRule(g: Grid, x: nat, y: nat)
    requires Rect(g) && x < |g| && y < Height(g)
    ensures Step(g)[x][y] <==>
              (g[x][y] && (Neighbours(g, x, y) == 2 || Neighbours(g, x, y) == 3)) ||
              (!g[x][y] && Neighbours(g, x, y) == 3)
  {
  }

  /**
   * Locality: the new state of (x, y) is fixed by its own old state and its
   * eight old neighbours; two old grids that agree there give it the same
   * new state, whatever they hold elsewhere.
   */
  lemma StepLocal(g: Grid, h: Grid, x: nat, y: nat)
    requires Rect(g) && Rect(h)
    requires x < |g| && x < |h| && y < Height(g) && y < Height(h)
    requires g[x][y] == h[x][y]
    requires forall a, b :: x - 1 <= a <= x + 1 && y - 1 <= b <= y + 1 && !(a == x && b == y) ==>
               LiveAt(g, a, b) == LiveAt(h, a, b)
    ensures Step(g)[x][y] == Step(h)[x][y]
  {
    NeighboursLocal(g, h, x, y);
  }

  /** A dead grid stays dead: nothing is born without three live neighbours. */
  lemma StepOfDead(width: nat, height: nat)
    ensures Step(Dead(width, height)) == Dead(width, height)
  {
    var g := Dead(width, height);
    forall x | 0 <= x < width
      ensures Step(g)[x] == g[x]
    {
      forall y | 0 <= y < height
        ensures Step(g)[x][y] == g[x][y]
      {
        NeighboursOfDead(width, height, x, y);
      }
    }
  }

  /**
   * Any grid without a live cell is a still life, whether it was built dead,
   * cleared, or died out: one generation leaves it unchanged.
   */
  lemma StepOfNoLive(g: Grid)
    requires Rect(g) && Live(g) == 0
    ensures Step(g) == g
  {
    LiveZero(g);
    var d := Dead(|g|, Height(g));
    forall x | 0 <= x < |g|
      ensures g[x] == d[x]
    {
      assert forall y :: 0 <= y < |g[x]| ==> !g[x][y] && !d[x][y];
    }
    assert g == d;
    StepOfDead(|g|, Height(g));
  }

  /** The number of live cells in one column. */
  function ColumnLive(c: seq<bool>): (n: nat)
    ensures n <= |c|
    ensures n == 0 <==> forall y :: 0 <= y < |c| ==> !c[y]
  {
    if c == [] then 0 else ColumnLive(c[..|c| - 1]) + Bit(c[|c| - 1])
  }

  /** The number of live cells in the grid, column by column. */
  function Live(g: Grid): nat {
    if g == [] then 0 else Live(g[..|g| - 1]) + ColumnLive(g[|g| - 1])
  }

  /** The count never exceeds the number of cells: with columns of at most h cells, at most |g| * h. */
  lemma {:induction false} LiveBound(g: Grid, h: nat)
    requires forall x :: 0 <= x < |g| ==> |g[x]| <= h
    ensures Live(g) <= |g| * h
  {
    if g != [] {
      var n := |g|;
      var front := g[..n - 1];
      assert forall x :: 0 <= x < |front| ==> front[x] == g[x];
      LiveBound(front, h);
      assert n * h == (n - 1) * h + h;
    }
  }

  /** The count is zero exactly when every cell is dead. */
  lemma {:induction false} LiveZero(g: Grid)
    ensures Live(g) == 0 <==> forall x, y :: 0 <= x < |g| && 0 <= y < |g[x]| ==> !g[x][y]
  {
    if g != [] {
      var front := g[..|g| - 1];
      LiveZero(front);
      if Live(g) == 0 {
        forall x, y | 0 <= x < |g| && 0 <= y < |g[x]| ensures !g[x][y] {
          if x < |g| - 1 { assert g[x] == front[x]; }
        }
      } else if Live(front) != 0 {
        var x, y :| 0 <= x < |front| && 0 <= y < |front[x]| && front[x][y];
        assert g[x][y];
      }
    }
  }

  /** A cleared grid has no live cell. */
  lemma LiveCleared(g: Grid)
    ensures Live(Cleared(g)) == 0
  {
    LiveZero(Cleared(g));
  }

  /** A freshly built dead grid has no live cell. */
  lemma LiveOfDead(width: nat, height: nat)
    ensures Live(Dead(width, height)) == 0
  {
    LiveZero(Dead(width, height));
  }

  /** Clearing a cleared grid changes nothing. */
  lemma ClearedIdempotent(g: Grid)
    ensures Cleared(Cleared(g)) == Cleared(g)
  {
  }

  /** Clearing a rectangular grid yields the dead grid of its size. */
  lemma ClearedIsDead(g: Grid)
    requires Rect(g)
    ensures Cleared(g) == Dead(|g|, Height(g))
  {
  }
}
