/**
 The cellular-automaton rule of Leon's Game of Life, on grid values.

 A grid is indexed `g[x][y]`, as the C# `int[,] cells` is indexed `cells[x, y]`:
 `x` runs over the first dimension (the width) and `y` over the second (the height).
 Cells hold 1 (alive) or 0 (dead).
 */
module Rules {

  type Grid = seq<seq<int>>

  /** The number of columns, `cells.GetLength(0)`. */
  function Width(g: Grid): nat { |g| }

  /** The number of rows, `cells.GetLength(1)` (read off the first column). */
  function Height(g: Grid): nat { if |g| == 0 then 0 else |g[0]| }

  /** Every column has the same length: the grid is a rectangle. */
  ghost predicate Rect(g: Grid)
  {
    forall x | 0 <= x < |g| :: |g[x]| == Height(g)
  }

  ghost predicate InGrid(g: Grid, x: int, y: int)
  {
    0 <= x < |g| && 0 <= y < |g[x]|
  }

  /** Every cell holds 0 or 1. */
  ghost predicate Binary(g: Grid)
  {
    forall x, y | 0 <= x < |g| && 0 <= y < |g[x]| :: g[x][y] == 0 || g[x][y] == 1
  }

  ghost predicate AllDead(g: Grid)
  {
    forall x, y | 0 <= x < |g| && 0 <= y < |g[x]| :: g[x][y] == 0
  }

  /** Two grids of the same shape. */
  ghost predicate SameShape(g: Grid, h: Grid)
  {
    |g| == |h| && forall x | 0 <= x < |g| :: |g[x]| == |h[x]|
  }

  /** Grids of the same shape that agree on every cell are equal. */
  lemma {:induction false} GridsEqual(g: Grid, h: Grid)
    requires SameShape(g, h)
    requires forall x, y | 0 <= x < |g| && 0 <= y < |g[x]| :: g[x][y] == h[x][y]
    ensures g == h
  {
    forall x | 0 <= x < |g| ensures g[x] == h[x] {
      assert |g[x]| == |h[x]|;
    }
  }

  /** The value a neighbour contributes: the cell itself when it lies inside the grid, 0 outside (no wrap-around). */
  function At(g: Grid, x: int, y: int): (v: int)
    ensures v != 0 ==> InGrid(g, x, y)
  {
    if 0 <= x < |g| && 0 <= y < |g[x]| then g[x][y] else 0
  }

  /**
   The live-neighbour count of cell (i, j): the eight cells of the 3x3 block
   around it, clipped at the edges of the grid, the centre left out.
   */
  function Neighbors(g: Grid, i: int, j: int): (n: int)
    ensures Binary(g) ==> 0 <= n <= 8
  {
    At(g, i - 1, j - 1) + At(g, i - 1, j) + At(g, i - 1, j + 1) +
    At(g, i, j - 1) + At(g, i, j + 1) +
    At(g, i + 1, j - 1) + At(g, i + 1, j) + At(g, i + 1, j + 1)
  }

  /** (p, q) is one of the eight cells around (i, j). */
  predicate Adjacent(p: int, q: int, i: int, j: int)
  {
    -1 <= p - i <= 1 && -1 <= q - j <= 1 && !(p == i && q == j)
  }

  /** The grid with cell (x, y) overwritten by v. */
  function Set(g: Grid, x: int, y: int, v: int): (r: Grid)
    requires InGrid(g, x, y)
    ensures SameShape(r, g)
    ensures r[x][y] == v
    ensures forall a, b | InGrid(g, a, b) && (a != x || b != y) :: r[a][b] == g[a][b]
  {
    g[x := g[x][y := v]]
  }

  /** The all-dead grid of w columns and h rows. */
  function Zero(w: nat, h: nat): (r: Grid)
    ensures Width(r) == w && Rect(r) && AllDead(r)
    ensures w > 0 ==> Height(r) == h
  {
    seq(w, x => seq(h, y => 0))
  }

  /**
   The update of one cell as the C# loop body writes it: `pending` is the value
   the fresh buffer already holds at (x, y), `current` the old cell and `n` its
   live-neighbour count in the old grid.
   */
  function Rule(pending: int, current: int, n: int): int
  {
    if pending == 0 && n == 3 then 1
    else if pending == 1 && (n < 2 || n > 3) then 0
    else current
  }

  /**
   The rule changes a cell only by a birth (an empty buffer cell and exactly
   three neighbours) or a death (a buffer cell holding 1 and fewer than two or
   more than three neighbours).
   */
  lemma RuleChanges(pending: int, current: int, n: int)
    ensures var r := Rule(pending, current, n);
            r != current ==> (pending == 0 && n == 3 && r == 1) || (pending == 1 && (n < 2 || n > 3) && r == 0)
  {
  }

  /**
   The buffer is zero-filled when each cell is visited, so the "dies" branch is
   never taken: a cell is born on exactly three neighbours and otherwise keeps
   its old value.
   */
  lemma RuleOnFreshBuffer(current: int, n: int)
    ensures Rule(0, current, n) == if n == 3 then 1 else current
  {
  }

  /** The next value of cell (x, y), computed from the old grid only. */
  function Next(g: Grid, x: int, y: int): int
  {
    Rule(0, At(g, x, y), Neighbors(g, x, y))
  }

  /** One generation: every cell updated from the old grid, simultaneously. */
  function Evolve(g: Grid): (r: Grid)
    ensures SameShape(r, g)
  {
    seq(|g|, x requires 0 <= x < |g| => seq(|g[x]|, y requires 0 <= y < |g[x]| => Next(g, x, y)))
  }

  lemma EvolveAt(g: Grid, x: int, y: int)
    requires InGrid(g, x, y)
    ensures Evolve(g)[x][y] == Next(g, x, y)
  {
  }

  /** A cell with exactly three live neighbours is alive after the generation. */
  lemma EvolveBirth(g: Grid, x: int, y: int)
    requires InGrid(g, x, y) && Neighbors(g, x, y) == 3
    ensures Evolve(g)[x][y] == 1
  {
    EvolveAt(g, x, y);
  }

  /** A cell whose count is not three keeps its old value, whatever that was. */
  lemma EvolveKeeps(g: Grid, x: int, y: int)
    requires InGrid(g, x, y) && Neighbors(g, x, y) != 3
    ensures Evolve(g)[x][y] == g[x][y]
  {
    EvolveAt(g, x, y);
  }

  /** Live cells never die: a generation only adds life. */
  lemma LiveCellsNeverDie(g: Grid, x: int, y: int)
    requires InGrid(g, x, y) && g[x][y] == 1
    ensures Evolve(g)[x][y] == 1
  {
    EvolveAt(g, x, y);
  }

  /** A generation keeps every cell in {0, 1}. */
  lemma EvolveBinary(g: Grid)
    requires Binary(g)
    ensures Binary(Evolve(g))
  {
    forall x, y | 0 <= x < |g| && 0 <= y < |g[x]|
      ensures Evolve(g)[x][y] == 0 || Evolve(g)[x][y] == 1
    {
      EvolveAt(g, x, y);
    }
  }

  /** No spontaneous life: the all-dead grid stays all-dead. */
  lemma EvolveAllDead(g: Grid)
    requires AllDead(g)
    ensures AllDead(Evolve(g))
  {
    forall x, y | 0 <= x < |g| && 0 <= y < |g[x]|
      ensures Evolve(g)[x][y] == 0
    {
      assert Neighbors(g, x, y) == 0;
      EvolveAt(g, x, y);
    }
  }

  /**
   Writing one cell changes the count of exactly its eight neighbours, by the
   difference written; the written cell's own count and every other count stay.
   */
  lemma NeighborsAfterSet(g: Grid, p: int, q: int, v: int, i: int, j: int)
    requires Rect(g) && InGrid(g, p, q)
    ensures Neighbors(Set(g, p, q, v), i, j)
         == Neighbors(g, i, j) + (if Adjacent(p, q, i, j) then v - g[p][q] else 0)
  {
    var r := Set(g, p, q, v);
    forall a, b ensures At(r, a, b) == At(g, a, b) + (if a == p && b == q then v - g[p][q] else 0) {
    }
  }

  /**
   The textbook rule, for comparison: a live cell with fewer than two or more
   than three live neighbours dies, a dead cell with exactly three is born.
   */
  function ConwayNext(g: Grid, x: int, y: int): int
    requires InGrid(g, x, y)
  {
    var n := Neighbors(g, x, y);
    if g[x][y] == 0 && n == 3 then 1
    else if g[x][y] == 1 && (n < 2 || n > 3) then 0
    else g[x][y]
  }

  /** A lone live cell: the textbook rule kills it, the rule as written keeps it. */
  lemma LoneCellSurvives()
    ensures var g := [[0, 0, 0], [0, 1, 0], [0, 0, 0]];
            ConwayNext(g, 1, 1) == 0 && Evolve(g)[1][1] == 1
  {
    var g := [[0, 0, 0], [0, 1, 0], [0, 0, 0]];
    assert Neighbors(g, 1, 1) == 0;
    EvolveAt(g, 1, 1);
  }

  /** g is 5x5 with the horizontal blinker (1, 2), (2, 2), (3, 2) as its only live cells. */
  ghost predicate IsBlinker(g: Grid)
  {
    |g| == 5 && Rect(g) && Height(g) == 5 &&
    forall x, y | 0 <= x < 5 && 0 <= y < 5 :: g[x][y] == if y == 2 && 1 <= x <= 3 then 1 else 0
  }

  /**
   The blinker does not oscillate. The textbook rule turns it into the
   vertical line (2, 1), (2, 2), (2, 3), killing its two end cells; the rule as
   written gives birth to (2, 1) and (2, 3) but keeps the end cells (1, 2) and
   (3, 2) alive, so the line grows into a plus.
   */
  lemma BlinkerGrowsIntoPlus(b: Grid)
    requires IsBlinker(b)
    ensures ConwayNext(b, 1, 2) == 0 && ConwayNext(b, 3, 2) == 0
    ensures Evolve(b)[1][2] == 1 && Evolve(b)[3][2] == 1
    ensures Evolve(b)[2][1] == 1 && Evolve(b)[2][2] == 1 && Evolve(b)[2][3] == 1
  {
    assert Neighbors(b, 1, 2) == 1;
    assert Neighbors(b, 3, 2) == 1;
    assert Neighbors(b, 2, 1) == 3;
    assert Neighbors(b, 2, 3) == 3;
    EvolveAt(b, 1, 2);
    EvolveAt(b, 3, 2);
    EvolveAt(b, 2, 1);
    EvolveAt(b, 2, 2);
    EvolveAt(b, 2, 3);
  }

  /** Nothing else comes alive: outside the plus, the blinker's next generation is dead. */
  lemma BlinkerPlusOnly(b: Grid)
    requires IsBlinker(b)
    ensures forall x, y | 0 <= x < 5 && 0 <= y < 5 && !(x == 2 && 1 <= y <= 3) && !(y == 2 && 1 <= x <= 3) ::
      Evolve(b)[x][y] == 0
  {
    forall x, y | 0 <= x < 5 && 0 <= y < 5 && !(x == 2 && 1 <= y <= 3) && !(y == 2 && 1 <= x <= 3)
      ensures Evolve(b)[x][y] == 0
    {
      EvolveAt(b, x, y);
      if y == 0 || y == 4 {
        assert Neighbors(b, x, y) == 0;
      } else if y == 2 {
        assert Neighbors(b, x, y) == 1;
      } else {
        assert Neighbors(b, x, y) <= 2;
      }
    }
  }

  /** g is 4x4 with the 2x2 block (1, 1), (1, 2), (2, 1), (2, 2) as its only live cells. */
  ghost predicate IsBlock(g: Grid)
  {
    |g| == 4 && Rect(g) && Height(g) == 4 &&
    forall x, y | 0 <= x < 4 && 0 <= y < 4 :: g[x][y] == if 1 <= x <= 2 && 1 <= y <= 2 then 1 else 0
  }

  /**
   The 2x2 block is a still life under the rule as written, as under the
   textbook rule: each block cell has three live neighbours and every cell
   around it at most two.
   */
  lemma BlockStill(b: Grid)
    requires IsBlock(b)
    ensures Evolve(b) == b
  {
    forall x, y | 0 <= x < 4 && 0 <= y < 4 ensures Evolve(b)[x][y] == b[x][y] {
      EvolveAt(b, x, y);
      if 1 <= x <= 2 && 1 <= y <= 2 {
        assert Neighbors(b, x, y) == 3;
      } else {
        assert Neighbors(b, x, y) <= 2;
      }
    }
    GridsEqual(Evolve(b), b);
  }
}
