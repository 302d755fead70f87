/** The automaton's rules stated on values: a generation is a rectangular
    grid of cells, `g[y][x]` being the cell in column `x` of row `y`
    (the engine stores its cells in the same row-major order). Alive is 1,
    dead is 0. The grid is finite: positions off the grid count as dead,
    they are never wrapped around to the opposite edge. */
module LifeRules {

  type Grid = seq<seq<int>>

  /** `g` has `h` rows of `w` cells each. */
  predicate IsGrid(g: Grid, w: nat, h: nat) {
    |g| == h && forall y :: 0 <= y < h ==> |g[y]| == w
  }

  predicate InBounds(w: nat, h: nat, x: int, y: int) {
    0 <= x < w && 0 <= y < h
  }

  predicate IsState(c: int) {
    c == 0 || c == 1
  }

  /** Every cell of `g` is dead or alive. */
  predicate IsBinary(g: Grid) {
    forall y, x :: 0 <= y < |g| && 0 <= x < |g[y]| ==> IsState(g[y][x])
  }

  /** The cell at (x, y), or 0 for a position off the grid. */
  function CellOrDead(g: Grid, w: nat, h: nat, x: int, y: int): (c: int)
    requires IsGrid(g, w, h)
    ensures !InBounds(w, h, x, y) ==> c == 0
    ensures IsBinary(g) ==> IsState(c)
  {
    if InBounds(w, h, x, y) then g[y][x] else 0
  }

  /** Sum of the eight Moore neighbours of (x, y); the centre is not one of them. */
  function NeighborCount(g: Grid, w: nat, h: nat, x: int, y: int): (n: int)
    requires IsGrid(g, w, h)
    ensures IsBinary(g) ==> 0 <= n <= 8
  {
    CellOrDead(g, w, h, x - 1, y - 1) + CellOrDead(g, w, h, x, y - 1) + CellOrDead(g, w, h, x + 1, y - 1) +
    CellOrDead(g, w, h, x - 1, y)     +                                   CellOrDead(g, w, h, x + 1, y) +
    CellOrDead(g, w, h, x - 1, y + 1) + CellOrDead(g, w, h, x, y + 1) + CellOrDead(g, w, h, x + 1, y + 1)
  }

  /** What the cell at offset (dx, dy) adds in the engine's scan: nothing for
      the centre, nothing off the grid, the cell's value otherwise. */
  function OffsetTerm(g: Grid, w: nat, h: nat, x: int, y: int, dx: int, dy: int): int
    requires IsGrid(g, w, h)
  {
    if dx == 0 && dy == 0 then 0 else CellOrDead(g, w, h, x + dx, y + dy)
  }

  /** The scan's total over offsets dx = -1 .. upTo - 1 of row offset dy. */
  function RowScan(g: Grid, w: nat, h: nat, x: int, y: int, dy: int, upTo: int): int
    requires IsGrid(g, w, h)
    requires -1 <= upTo <= 2
    decreases upTo + 1
  {
    if upTo == -1 then 0
    else RowScan(g, w, h, x, y, dy, upTo - 1) + OffsetTerm(g, w, h, x, y, upTo - 1, dy)
  }

  /** The scan's total over the full rows dy = -1 .. upTo - 1. */
  function RowsScan(g: Grid, w: nat, h: nat, x: int, y: int, upTo: int): int
    requires IsGrid(g, w, h)
    requires -1 <= upTo <= 2
    decreases upTo + 1
  {
    if upTo == -1 then 0
    else RowsScan(g, w, h, x, y, upTo - 1) + RowScan(g, w, h, x, y, upTo - 1, 2)
  }

  /** The engine's row-by-row scan of the 3 x 3 block, skipping the centre
      and off-grid offsets, adds up exactly the eight neighbours. */
  lemma ScanIsNeighborCount(g: Grid, w: nat, h: nat, x: int, y: int)
    requires IsGrid(g, w, h)
    ensures RowsScan(g, w, h, x, y, 2) == NeighborCount(g, w, h, x, y)
  {
  }

  /** The count looks at nothing but the in-bounds Moore neighbours of
      (x, y): two grids that agree there have the same count, whatever
      they hold at the centre, elsewhere, or at the opposite edges. */
  lemma NeighborCountIsLocal(g1: Grid, g2: Grid, w: nat, h: nat, x: int, y: int)
    requires IsGrid(g1, w, h) && IsGrid(g2, w, h)
    requires forall nx, ny :: InBounds(w, h, nx, ny) && x - 1 <= nx <= x + 1 && y - 1 <= ny <= y + 1 && (nx != x || ny != y)
               ==> g1[ny][nx] == g2[ny][nx]
    ensures NeighborCount(g1, w, h, x, y) == NeighborCount(g2, w, h, x, y)
  {
  }

  /** The live cells among the in-bounds Moore neighbours of (x, y). */
  function LiveNeighbors(g: Grid, w: nat, h: nat, x: int, y: int): set<(int, int)>
    requires IsGrid(g, w, h)
  {
    set nx, ny | x - 1 <= nx <= x + 1 && y - 1 <= ny <= y + 1 && (nx != x || ny != y)
                 && InBounds(w, h, nx, ny) && g[ny][nx] == 1 :: (nx, ny)
  }

  /** `{p}` when `p` is a live in-bounds position, otherwise empty. */
  function LiveAt(g: Grid, w: nat, h: nat, p: (int, int)): set<(int, int)>
    requires IsGrid(g, w, h)
  {
    if InBounds(w, h, p.0, p.1) && g[p.1][p.0] == 1 then {p} else {}
  }

  /** `p` comes before `q` in row-major order. */
  predicate Precedes(p: (int, int), q: (int, int)) {
    p.1 < q.1 || (p.1 == q.1 && p.0 < q.0)
  }

  /** Adding a position that comes after every position already gathered
      adds its indicator to the size, and everything gathered so far still
      comes before `next`. */
  lemma AddPosition(s: set<(int, int)>, g: Grid, w: nat, h: nat, p: (int, int), next: (int, int))
    requires IsGrid(g, w, h) && IsBinary(g)
    requires forall q :: q in s ==> Precedes(q, p)
    requires Precedes(p, next)
    ensures |s + LiveAt(g, w, h, p)| == |s| + CellOrDead(g, w, h, p.0, p.1)
    ensures forall q :: q in s + LiveAt(g, w, h, p) ==> Precedes(q, next)
  {
  }

  /** The live neighbours, position by position in the scan's order. */
  lemma LiveNeighborsByPosition(g: Grid, w: nat, h: nat, x: int, y: int)
    requires IsGrid(g, w, h)
    ensures LiveNeighbors(g, w, h, x, y) ==
              LiveAt(g, w, h, (x - 1, y - 1)) + LiveAt(g, w, h, (x, y - 1)) + LiveAt(g, w, h, (x + 1, y - 1)) +
              LiveAt(g, w, h, (x - 1, y)) + LiveAt(g, w, h, (x + 1, y)) +
              LiveAt(g, w, h, (x - 1, y + 1)) + LiveAt(g, w, h, (x, y + 1)) + LiveAt(g, w, h, (x + 1, y + 1))
  {
    forall q | q in LiveNeighbors(g, w, h, x, y)
      ensures q in LiveAt(g, w, h, q)
    {
    }
  }

  /** Four positions in row-major order, added one after the other. */
  lemma AddFour(s: set<(int, int)>, g: Grid, w: nat, h: nat, a: (int, int), b: (int, int), c: (int, int), d: (int, int), next: (int, int))
    requires IsGrid(g, w, h) && IsBinary(g)
    requires forall q :: q in s ==> Precedes(q, a)
    requires Precedes(a, b) && Precedes(b, c) && Precedes(c, d) && Precedes(d, next)
    ensures |s + LiveAt(g, w, h, a) + LiveAt(g, w, h, b) + LiveAt(g, w, h, c) + LiveAt(g, w, h, d)| ==
            |s| + CellOrDead(g, w, h, a.0, a.1) + CellOrDead(g, w, h, b.0, b.1)
                + CellOrDead(g, w, h, c.0, c.1) + CellOrDead(g, w, h, d.0, d.1)
    ensures forall q :: q in s + LiveAt(g, w, h, a) + LiveAt(g, w, h, b) + LiveAt(g, w, h, c) + LiveAt(g, w, h, d)
              ==> Precedes(q, next)
  {
    AddPosition(s, g, w, h, a, b);
    var sa := s + LiveAt(g, w, h, a);
    AddPosition(sa, g, w, h, b, c);
    var sb := sa + LiveAt(g, w, h, b);
    AddPosition(sb, g, w, h, c, d);
    AddPosition(sb + LiveAt(g, w, h, c), g, w, h, d, next);
  }

  /** On a grid of dead and live cells the count is the number of live
      in-bounds neighbours. */
  lemma NeighborCountCountsLive(g: Grid, w: nat, h: nat, x: int, y: int)
    requires IsGrid(g, w, h) && IsBinary(g)
    ensures NeighborCount(g, w, h, x, y) == |LiveNeighbors(g, w, h, x, y)|
  {
    var p1, p2, p3, p4 := (x - 1, y - 1), (x, y - 1), (x + 1, y - 1), (x - 1, y);
    var p5, p6, p7, p8 := (x + 1, y), (x - 1, y + 1), (x, y + 1), (x + 1, y + 1);
    var s0: set<(int, int)> := {};
    AddFour(s0, g, w, h, p1, p2, p3, p4, p5);
    var s4 := s0 + LiveAt(g, w, h, p1) + LiveAt(g, w, h, p2) + LiveAt(g, w, h, p3) + LiveAt(g, w, h, p4);
    AddFour(s4, g, w, h, p5, p6, p7, p8, (x + 2, y + 1));
    assert s0 + LiveAt(g, w, h, p1) == LiveAt(g, w, h, p1);
    LiveNeighborsByPosition(g, w, h, x, y);
  }

  /** In the top-left corner only three neighbours exist; nothing is read
      from the last row or the last column. */
  lemma CornerNeighbors(g: Grid, w: nat, h: nat)
    requires IsGrid(g, w, h) && w >= 2 && h >= 2
    ensures NeighborCount(g, w, h, 0, 0) == g[0][1] + g[1][0] + g[1][1]
  {
  }

  /** Conway's rule B3/S23 for one cell with `neighbors` live neighbours:
      a dead cell with exactly three is born, a live cell with two or three
      survives, every other cell is dead afterwards. */
  function NextState(cell: int, neighbors: int): (r: int)
    ensures IsState(r)
    ensures IsState(cell) ==> r == (if neighbors == 3 then 1 else if neighbors == 2 then cell else 0)
    ensures !IsState(cell) ==> r == 0
  {
    if cell == 0 && neighbors == 3 then 1
    else if cell == 1 && (neighbors == 2 || neighbors == 3) then 1
    else 0
  }

  /** The next state of (x, y), computed from generation `g` alone. */
  function Rule(g: Grid, w: nat, h: nat, x: int, y: int): (r: int)
    requires IsGrid(g, w, h) && InBounds(w, h, x, y)
    ensures IsState(r)
    ensures IsState(g[y][x]) ==>
              (r == 1 <==> NeighborCount(g, w, h, x, y) == 3 || (g[y][x] == 1 && NeighborCount(g, w, h, x, y) == 2))
    ensures !IsState(g[y][x]) ==> r == 0
  {
    NextState(g[y][x], NeighborCount(g, w, h, x, y))
  }

  /** One generation: every cell's new state from the same old generation. */
  function Step(g: Grid, w: nat, h: nat): (r: Grid)
    requires IsGrid(g, w, h)
    ensures IsGrid(r, w, h) && IsBinary(r)
  {
    seq(h, y requires 0 <= y < h => seq(w, x requires 0 <= x < w => Rule(g, w, h, x, y)))
  }

  /** A new cell depends only on the old cell and its old neighbours. */
  lemma StepIsLocal(g1: Grid, g2: Grid, w: nat, h: nat, x: int, y: int)
    requires IsGrid(g1, w, h) && IsGrid(g2, w, h) && InBounds(w, h, x, y)
    requires forall nx, ny :: InBounds(w, h, nx, ny) && x - 1 <= nx <= x + 1 && y - 1 <= ny <= y + 1
               ==> g1[ny][nx] == g2[ny][nx]
    ensures Step(g1, w, h)[y][x] == Step(g2, w, h)[y][x]
  {
  }

  /** `n` generations from `g`. */
  function Evolve(g: Grid, w: nat, h: nat, n: nat): (r: Grid)
    requires IsGrid(g, w, h)
    ensures IsGrid(r, w, h)
    decreases n
  {
    if n == 0 then g else Evolve(Step(g, w, h), w, h, n - 1)
  }

  /** All cells dead. */
  function Dead(w: nat, h: nat): (r: Grid)
    ensures IsGrid(r, w, h) && IsBinary(r)
  {
    seq(h, _ => seq(w, _ => 0))
  }

  /** All cells alive. */
  function Alive(w: nat, h: nat): (r: Grid)
    ensures IsGrid(r, w, h) && IsBinary(r)
  {
    seq(h, _ => seq(w, _ => 1))
  }

  /** Two grids of one shape that agree cell by cell are equal. */
  lemma GridExt(a: Grid, b: Grid, w: nat, h: nat)
    requires IsGrid(a, w, h) && IsGrid(b, w, h)
    requires forall y, x :: InBounds(w, h, x, y) ==> a[y][x] == b[y][x]
    ensures a == b
  {
    forall y | 0 <= y < h
      ensures a[y] == b[y]
    {
      assert forall x :: 0 <= x < w ==> a[y][x] == b[y][x];
    }
  }

  /** A generation with every cell dead stays dead. */
  lemma DeadIsFixedPoint(w: nat, h: nat)
    ensures Step(Dead(w, h), w, h) == Dead(w, h)
  {
    var d := Dead(w, h);
    forall y, x | InBounds(w, h, x, y)
      ensures Step(d, w, h)[y][x] == d[y][x]
    {
      assert NeighborCount(d, w, h, x, y) == 0;
    }
    GridExt(Step(d, w, h), d, w, h);
  }

  /** A fixed point of one step is a fixed point of any number of steps. */
  lemma {:induction false} FixedPointForever(g: Grid, w: nat, h: nat, n: nat)
    requires IsGrid(g, w, h) && Step(g, w, h) == g
    ensures Evolve(g, w, h, n) == g
    decreases n
  {
    if n > 0 {
      FixedPointForever(g, w, h, n - 1);
    }
  }

  /** A pattern that comes back after two steps comes back after every even number of steps. */
  lemma {:induction false} PeriodTwoForever(g: Grid, w: nat, h: nat, k: nat)
    requires IsGrid(g, w, h) && Step(Step(g, w, h), w, h) == g
    ensures Evolve(g, w, h, 2 * k) == g
    decreases k
  {
    if k > 0 {
      calc {
        Evolve(g, w, h, 2 * k);
        Evolve(Step(g, w, h), w, h, 2 * k - 1);
        Evolve(Step(Step(g, w, h), w, h), w, h, 2 * (k - 1));
        { PeriodTwoForever(g, w, h, k - 1); }
        g;
      }
    }
  }

  /** The index of the draw made for cell (x, y) in the row-major seeding scan. */
  lemma DrawIndexInRange(w: nat, h: nat, x: int, y: int)
    requires InBounds(w, h, x, y)
    ensures 0 <= y * w + x < w * h
  {
    assert y * w <= (h - 1) * w by {
      assert (h - 1) * w - y * w == (h - 1 - y) * w;
    }
  }

  /** The draw made for cell (x, y). */
  function DrawFor(draws: seq<int>, w: nat, h: nat, x: int, y: int): int
    requires |draws| == w * h && InBounds(w, h, x, y)
  {
    DrawIndexInRange(w, h, x, y);
    draws[y * w + x]
  }

  /** Random seeding of `g`: a cell whose draw is 0 is set alive, every
      other cell keeps whatever it held. */
  function Seeded(g: Grid, w: nat, h: nat, draws: seq<int>): (r: Grid)
    requires IsGrid(g, w, h) && |draws| == w * h
    ensures IsGrid(r, w, h)
    ensures forall y, x :: InBounds(w, h, x, y) && g[y][x] == 1 ==> r[y][x] == 1
    ensures forall y, x :: InBounds(w, h, x, y) && DrawFor(draws, w, h, x, y) == 0 ==> r[y][x] == 1
    ensures forall y, x :: InBounds(w, h, x, y) && DrawFor(draws, w, h, x, y) != 0 ==> r[y][x] == g[y][x]
  {
    seq(h, y requires 0 <= y < h =>
      seq(w, x requires 0 <= x < w => if DrawFor(draws, w, h, x, y) == 0 then 1 else g[y][x]))
  }

  /** Seeding never kills: a cell is alive afterwards exactly when it was
      alive before or its draw was 0, and a binary grid stays binary. */
  lemma SeedingOnlyRevives(g: Grid, w: nat, h: nat, draws: seq<int>)
    requires IsGrid(g, w, h) && IsBinary(g) && |draws| == w * h
    ensures IsBinary(Seeded(g, w, h, draws))
    ensures forall y, x :: InBounds(w, h, x, y) ==>
              (Seeded(g, w, h, draws)[y][x] == 1 <==> g[y][x] == 1 || DrawFor(draws, w, h, x, y) == 0)
  {
  }

  /** Seeding a dead grid: alive exactly where the draw was 0. */
  lemma SeedingDeadGrid(w: nat, h: nat, draws: seq<int>)
    requires |draws| == w * h
    ensures IsBinary(Seeded(Dead(w, h), w, h, draws))
    ensures forall y, x :: InBounds(w, h, x, y) ==>
              (Seeded(Dead(w, h), w, h, draws)[y][x] == 1 <==> DrawFor(draws, w, h, x, y) == 0)
  {
  }

  /** With density 1 every draw lies in [0, 1), so it is 0, and every cell
      ends up alive. */
  lemma SeedingDensityOne(g: Grid, w: nat, h: nat, draws: seq<int>)
    requires IsGrid(g, w, h) && |draws| == w * h
    requires forall i :: 0 <= i < |draws| ==> 0 <= draws[i] < 1
    ensures Seeded(g, w, h, draws) == Alive(w, h)
  {
    forall y, x | InBounds(w, h, x, y)
      ensures Seeded(g, w, h, draws)[y][x] == Alive(w, h)[y][x]
    {
      DrawIndexInRange(w, h, x, y);
    }
    GridExt(Seeded(g, w, h, draws), Alive(w, h), w, h);
  }
}
