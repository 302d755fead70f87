/** The automaton engine: a `height` x `width` grid of cells held in a
    two-dimensional array, `grid[y, x]` being column `x` of row `y`, and the
    operations that count neighbours, apply the rule to one cell, advance a
    generation, seed at random and clear. */
module GameOfLifeEngine {
  import opened LifeRules

  /** The contents of `a`, row by row. */
  ghost function Snapshot(a: array2<int>): (s: Grid)
    reads a
    ensures IsGrid(s, a.Length1, a.Length0)
    ensures forall y, x :: InBounds(a.Length1, a.Length0, x, y) ==> s[y][x] == a[y, x]
  {
    seq(a.Length0, y requires 0 <= y < a.Length0 reads a =>
      seq(a.Length1, x requires 0 <= x < a.Length1 reads a => a[y, x]))
  }

  /** An array equal cell by cell to a grid of its shape has that grid as its snapshot. */
  lemma SnapshotIs(a: array2<int>, g: Grid)
    requires IsGrid(g, a.Length1, a.Length0)
    requires forall y, x :: InBounds(a.Length1, a.Length0, x, y) ==> a[y, x] == g[y][x]
    ensures Snapshot(a) == g
  {
    GridExt(Snapshot(a), g, a.Length1, a.Length0);
  }

  /** A freshly allocated `h` x `w` array of dead cells. */
  method NewDeadArray(w: nat, h: nat) returns (a: array2<int>)
    ensures fresh(a) && a.Length0 == h && a.Length1 == w
    ensures Snapshot(a) == Dead(w, h)
  {
    a := new int[h, w]((y, x) => 0);
    SnapshotIs(a, Dead(w, h));
  }

  /** A fresh element-wise copy of `a`. */
  method CopyArray(a: array2<int>) returns (c: array2<int>)
    ensures fresh(c) && c.Length0 == a.Length0 && c.Length1 == a.Length1
    ensures Snapshot(c) == Snapshot(a)
  {
    c := new int[a.Length0, a.Length1];
    for y := 0 to a.Length0
      invariant forall yy, xx :: 0 <= yy < y && 0 <= xx < a.Length1 ==> c[yy, xx] == a[yy, xx]
    {
      for x := 0 to a.Length1
        invariant forall yy, xx :: 0 <= yy < y && 0 <= xx < a.Length1 ==> c[yy, xx] == a[yy, xx]
        invariant forall xx :: 0 <= xx < x ==> c[y, xx] == a[y, xx]
      {
        c[y, x] := a[y, x];
      }
    }
    SnapshotIs(c, Snapshot(a));
  }

  class GameOfLife {
    var width: nat
    var height: nat
    var grid: array2<int>

    /** The grid has `height` rows of `width` cells. */
    ghost predicate Valid()
      reads this
    {
      grid.Length0 == height && grid.Length1 == width
    }

    /** The current generation. */
    ghost function Cells(): Grid
      reads this, grid
    {
      Snapshot(grid)
    }

    /** A `height` x `width` grid of dead cells, then seeded with `draws`,
        the values the random generator returns for the cells in row-major
        order, each in [0, density). */
    constructor (width: nat, height: nat, density: int, draws: seq<int>)
      requires width * height > 0 ==> density >= 1
      requires |draws| == width * height
      requires forall i :: 0 <= i < |draws| ==> 0 <= draws[i] < density
      ensures Valid() && fresh(grid)
      ensures this.width == width && this.height == height
      ensures Cells() == Seeded(Dead(width, height), width, height, draws)
      ensures IsBinary(Cells())
    {
      this.width := width;
      this.height := height;
      var a := NewDeadArray(width, height);
      grid := a;
      new;
      InitGrid(density, draws);
      SeedingDeadGrid(width, height, draws);
    }

    /** The sum of the in-bounds Moore neighbours of (x, y) in `g`, a grid of
        this engine's shape; (x, y) itself may lie anywhere. */
    method CountNeighbors(x: int, y: int, g: array2<int>) returns (count: int)
      requires g.Length0 == height && g.Length1 == width
      ensures count == NeighborCount(Snapshot(g), width, height, x, y)
    {
      ghost var s := Snapshot(g);
      count := 0;
      for dy := -1 to 2
        invariant count == RowsScan(s, width, height, x, y, dy)
      {
        for dx := -1 to 2
          invariant count == RowsScan(s, width, height, x, y, dy) + RowScan(s, width, height, x, y, dy, dx)
        {
          if dx == 0 && dy == 0 {
            continue;
          }
          if x + dx < 0 || x + dx >= width {
            continue;
          }
          if y + dy < 0 || y + dy >= height {
            continue;
          }
          var nx := x + dx;
          var ny := y + dy;
          count := count + g[ny, nx];
        }
      }
      ScanIsNeighborCount(s, width, height, x, y);
    }

    /** Writes into `grid` the next state of (x, y) computed from `g`. */
    method ChangeCell(x: int, y: int, g: array2<int>)
      requires Valid()
      requires g.Length0 == height && g.Length1 == width
      requires InBounds(width, height, x, y)
      modifies grid
      ensures grid[y, x] == Rule(old(Snapshot(g)), width, height, x, y)
      ensures forall yy, xx :: InBounds(width, height, xx, yy) && (xx != x || yy != y) ==> grid[yy, xx] == old(grid[yy, xx])
    {
      var neighbors := CountNeighbors(x, y, g);
      if g[y, x] == 0 && neighbors == 3 {
        grid[y, x] := 1;
      } else if g[y, x] == 1 && (neighbors == 2 || neighbors == 3) {
        grid[y, x] := 1;
      } else {
        grid[y, x] := 0;
      }
    }

    /** One generation: copy the grid, then rewrite every cell from the copy. */
    method Update()
      requires Valid()
      modifies grid
      ensures Valid()
      ensures Cells() == Step(old(Cells()), width, height)
      ensures IsBinary(Cells())
    {
      var current := CopyArray(grid);
      ghost var next := Step(Snapshot(current), width, height);
      for y := 0 to height
        modifies grid
        invariant forall yy, xx :: 0 <= yy < y && 0 <= xx < width ==> grid[yy, xx] == next[yy][xx]
        invariant forall yy, xx :: y <= yy < height && 0 <= xx < width ==> grid[yy, xx] == old(grid[yy, xx])
      {
        for x := 0 to width
          modifies grid
          invariant forall yy, xx :: 0 <= yy < y && 0 <= xx < width ==> grid[yy, xx] == next[yy][xx]
          invariant forall xx :: 0 <= xx < x ==> grid[y, xx] == next[y][xx]
          invariant forall yy, xx :: (yy == y && x <= xx < width) || (y < yy < height && 0 <= xx < width) ==>
                      grid[yy, xx] == old(grid[yy, xx])
        {
          ChangeCell(x, y, current);
          assert grid[y, x] == next[y][x];
        }
      }
      SnapshotIs(grid, next);
    }

    /** Seeds the grid from `draws`, one per cell in row-major order, each
        drawn from [0, density): a cell whose draw is 0 is set alive, any
        other cell is left as it was. */
    method InitGrid(density: int, draws: seq<int>)
      requires Valid()
      requires width * height > 0 ==> density >= 1
      requires |draws| == width * height
      requires forall i :: 0 <= i < |draws| ==> 0 <= draws[i] < density
      modifies grid
      ensures Valid()
      ensures Cells() == Seeded(old(Cells()), width, height, draws)
      ensures IsBinary(old(Cells())) ==> IsBinary(Cells())
    {
      ghost var before := Cells();
      for y := 0 to height
        invariant forall yy, xx :: 0 <= yy < y && 0 <= xx < width ==>
                    grid[yy, xx] == Seeded(before, width, height, draws)[yy][xx]
        invariant forall yy, xx :: y <= yy < height && 0 <= xx < width ==> grid[yy, xx] == before[yy][xx]
      {
        for x := 0 to width
          invariant forall yy, xx :: 0 <= yy < y && 0 <= xx < width ==>
                      grid[yy, xx] == Seeded(before, width, height, draws)[yy][xx]
          invariant forall xx :: 0 <= xx < x ==> grid[y, xx] == Seeded(before, width, height, draws)[y][xx]
          invariant forall yy, xx :: (yy == y && x <= xx < width) || (y < yy < height && 0 <= xx < width) ==>
                      grid[yy, xx] == before[yy][xx]
        {
          DrawIndexInRange(width, height, x, y);
          var num := draws[y * width + x];
          if num == 0 {
            grid[y, x] := 1;
          }
        }
      }
      SnapshotIs(grid, Seeded(before, width, height, draws));
      if IsBinary(before) {
        SeedingOnlyRevives(before, width, height, draws);
      }
    }

    /** Replaces the grid by a new `height` x `width` grid of dead cells. */
    method Clear()
      requires Valid()
      modifies this`grid
      ensures Valid() && fresh(grid)
      ensures width == old(width) && height == old(height)
      ensures Cells() == Dead(width, height)
    {
      grid := NewDeadArray(width, height);
    }
  }
}
