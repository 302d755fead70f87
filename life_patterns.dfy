/** Classic patterns on the finite, non-wrapping grid. */
module LifePatterns {
  import opened LifeRules

  /** The `h` x `w` grid alive exactly at the positions in `live`. */
  function FromCells(w: nat, h: nat, live: set<(int, int)>): (r: Grid)
    ensures IsGrid(r, w, h) && IsBinary(r)
  {
    seq(h, y => seq(w, x => if (x, y) in live then 1 else 0))
  }

  /** 1 when (x, y) is in `live`, else 0. */
  function Indicator(live: set<(int, int)>, x: int, y: int): int {
    if (x, y) in live then 1 else 0
  }

  /** How many of the eight Moore neighbours of (x, y) are in `live`. */
  function NeighborsIn(live: set<(int, int)>, x: int, y: int): int {
    Indicator(live, x - 1, y - 1) + Indicator(live, x, y - 1) + Indicator(live, x + 1, y - 1) +
    Indicator(live, x - 1, y) + Indicator(live, x + 1, y) +
    Indicator(live, x - 1, y + 1) + Indicator(live, x, y + 1) + Indicator(live, x + 1, y + 1)
  }

  predicate AllInBounds(w: nat, h: nat, live: set<(int, int)>) {
    forall p :: p in live ==> InBounds(w, h, p.0, p.1)
  }

  /** A position seen through `CellOrDead` is live exactly when it is in `live`. */
  lemma FromCellsAt(w: nat, h: nat, live: set<(int, int)>, x: int, y: int)
    requires AllInBounds(w, h, live)
    ensures CellOrDead(FromCells(w, h, live), w, h, x, y) == Indicator(live, x, y)
  {
  }

  /** On a grid built from positions inside it, the engine's count is the
      number of neighbours in the set. */
  lemma FromCellsCount(w: nat, h: nat, live: set<(int, int)>, x: int, y: int)
    requires AllInBounds(w, h, live)
    ensures NeighborCount(FromCells(w, h, live), w, h, x, y) == NeighborsIn(live, x, y)
  {
    FromCellsAt(w, h, live, x - 1, y - 1);
    FromCellsAt(w, h, live, x, y - 1);
    FromCellsAt(w, h, live, x + 1, y - 1);
    FromCellsAt(w, h, live, x - 1, y);
    FromCellsAt(w, h, live, x + 1, y);
    FromCellsAt(w, h, live, x - 1, y + 1);
    FromCellsAt(w, h, live, x, y + 1);
    FromCellsAt(w, h, live, x + 1, y + 1);
  }

  /** The cell (x, y) after one step from a grid built from `live`. */
  lemma FromCellsStep(w: nat, h: nat, live: set<(int, int)>, x: int, y: int)
    requires AllInBounds(w, h, live) && InBounds(w, h, x, y)
    ensures Step(FromCells(w, h, live), w, h)[y][x] == NextState(Indicator(live, x, y), NeighborsIn(live, x, y))
  {
    FromCellsCount(w, h, live, x, y);
  }

  /** A live cell with no live neighbour dies, and nothing is born next to
      it: one step from a single live cell leaves every cell dead. */
  lemma LoneCellDies(w: nat, h: nat, cx: int, cy: int)
    requires InBounds(w, h, cx, cy)
    ensures Step(FromCells(w, h, {(cx, cy)}), w, h) == Dead(w, h)
  {
    var live := {(cx, cy)};
    forall y, x | InBounds(w, h, x, y)
      ensures Step(FromCells(w, h, live), w, h)[y][x] == 0
    {
      FromCellsStep(w, h, live, x, y);
      assert NeighborsIn(live, x, y) <= 1;
    }
    GridExt(Step(FromCells(w, h, live), w, h), Dead(w, h), w, h);
  }

  const Vertical: set<(int, int)> := {(1, 0), (1, 1), (1, 2)}
  const Horizontal: set<(int, int)> := {(0, 1), (1, 1), (2, 1)}

  /** The vertical blinker in column 1, touching the top edge. */
  function VerticalBlinker(w: nat, h: nat): Grid {
    FromCells(w, h, Vertical)
  }

  /** The horizontal blinker in row 1. */
  function HorizontalBlinker(w: nat, h: nat): Grid {
    FromCells(w, h, Horizontal)
  }

  /** The rule maps the vertical line to the horizontal one, cell by cell. */
  lemma VerticalToHorizontal(x: int, y: int)
    ensures NextState(Indicator(Vertical, x, y), NeighborsIn(Vertical, x, y)) == Indicator(Horizontal, x, y)
  {
    var n := NeighborsIn(Vertical, x, y);
    if x == 1 && y == 1 {
      assert n == 2;
    } else if y == 1 && (x == 0 || x == 2) {
      assert n == 3;
    } else if x == 1 && (y == 0 || y == 2) {
      assert n == 1;
    } else {
      assert n != 3;
    }
  }

  /** The rule maps the horizontal line to the vertical one, cell by cell. */
  lemma HorizontalToVertical(x: int, y: int)
    ensures NextState(Indicator(Horizontal, x, y), NeighborsIn(Horizontal, x, y)) == Indicator(Vertical, x, y)
  {
    var n := NeighborsIn(Horizontal, x, y);
    if x == 1 && y == 1 {
      assert n == 2;
    } else if x == 1 && (y == 0 || y == 2) {
      assert n == 3;
    } else if y == 1 && (x == 0 || x == 2) {
      assert n == 1;
    } else {
      assert n != 3;
    }
  }

  lemma VerticalBlinkerTurns(w: nat, h: nat)
    requires w >= 3 && h >= 3
    ensures Step(VerticalBlinker(w, h), w, h) == HorizontalBlinker(w, h)
  {
    forall y, x | InBounds(w, h, x, y)
      ensures Step(VerticalBlinker(w, h), w, h)[y][x] == HorizontalBlinker(w, h)[y][x]
    {
      FromCellsStep(w, h, Vertical, x, y);
      VerticalToHorizontal(x, y);
    }
    GridExt(Step(VerticalBlinker(w, h), w, h), HorizontalBlinker(w, h), w, h);
  }

  lemma HorizontalBlinkerTurns(w: nat, h: nat)
    requires w >= 3 && h >= 3
    ensures Step(HorizontalBlinker(w, h), w, h) == VerticalBlinker(w, h)
  {
    forall y, x | InBounds(w, h, x, y)
      ensures Step(HorizontalBlinker(w, h), w, h)[y][x] == VerticalBlinker(w, h)[y][x]
    {
      FromCellsStep(w, h, Horizontal, x, y);
      HorizontalToVertical(x, y);
    }
    GridExt(Step(HorizontalBlinker(w, h), w, h), VerticalBlinker(w, h), w, h);
  }

  /** The blinker has period two: after every even number of steps the
      vertical line is back. */
  lemma BlinkerOscillates(w: nat, h: nat, k: nat)
    requires w >= 3 && h >= 3
    ensures Step(VerticalBlinker(w, h), w, h) == HorizontalBlinker(w, h)
    ensures Step(HorizontalBlinker(w, h), w, h) == VerticalBlinker(w, h)
    ensures Evolve(VerticalBlinker(w, h), w, h, 2 * k) == VerticalBlinker(w, h)
  {
    VerticalBlinkerTurns(w, h);
    HorizontalBlinkerTurns(w, h);
    PeriodTwoForever(VerticalBlinker(w, h), w, h, k);
  }

  /** The four cells of the 2 x 2 block whose top-left cell is (left, top). */
  function BlockCells(left: int, top: int): set<(int, int)> {
    {(left, top), (left + 1, top), (left, top + 1), (left + 1, top + 1)}
  }

  /** The 2 x 2 block whose top-left cell is (left, top). */
  function Block(w: nat, h: nat, left: int, top: int): Grid {
    FromCells(w, h, BlockCells(left, top))
  }

  /** Each block cell has three neighbours in the block and survives; every
      other cell has at most two and stays dead. */
  lemma BlockCellStays(left: int, top: int, x: int, y: int)
    ensures NextState(Indicator(BlockCells(left, top), x, y), NeighborsIn(BlockCells(left, top), x, y))
            == Indicator(BlockCells(left, top), x, y)
  {
    var n := NeighborsIn(BlockCells(left, top), x, y);
    if left <= x <= left + 1 && top <= y <= top + 1 {
      assert n == 3;
    } else {
      assert n <= 2;
    }
  }

  lemma BlockIsStill(w: nat, h: nat, left: int, top: int)
    requires 0 <= left && left + 1 < w && 0 <= top && top + 1 < h
    ensures Step(Block(w, h, left, top), w, h) == Block(w, h, left, top)
  {
    forall y, x | InBounds(w, h, x, y)
      ensures Step(Block(w, h, left, top), w, h)[y][x] == Block(w, h, left, top)[y][x]
    {
      FromCellsStep(w, h, BlockCells(left, top), x, y);
      BlockCellStays(left, top, x, y);
    }
    GridExt(Step(Block(w, h, left, top), w, h), Block(w, h, left, top), w, h);
  }

  /** The block is unchanged after any number of steps. */
  lemma BlockStaysForever(w: nat, h: nat, left: int, top: int, n: nat)
    requires 0 <= left && left + 1 < w && 0 <= top && top + 1 < h
    ensures Evolve(Block(w, h, left, top), w, h, n) == Block(w, h, left, top)
  {
    BlockIsStill(w, h, left, top);
    FixedPointForever(Block(w, h, left, top), w, h, n);
  }
}
