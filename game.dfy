/**
 The game object: the grid as a two-dimensional array that input handling
 edits in place and each generation replaces by a freshly computed array, the
 run flag and the tick counter. Each method is proved against the value-level
 model of the game loop in GameModel.
 */
module Game {
  import opened Rules
  import opened CSharp
  import opened Input
  import opened GameModel

  /** The grid an array holds, as a value. */
  ghost function GridOf(a: array2<int>): (g: Grid)
    reads a
    ensures Width(g) == a.Length0 && Rect(g)
    ensures a.Length0 > 0 ==> Height(g) == a.Length1
  {
    seq(a.Length0, x requires 0 <= x < a.Length0 reads a =>
      seq(a.Length1, y requires 0 <= y < a.Length1 reads a => a[x, y]))
  }

  /** The value neighbour (i + x, j + y) adds to the count; the centre and cells off the grid add nothing. */
  function Offset(g: Grid, i: int, j: int, x: int, y: int): int
  {
    if x == 0 && y == 0 then 0 else At(g, i + x, j + y)
  }

  /** The count after the column offsets -1 .. n - 1 of row offset x have been visited. */
  function RowSoFar(g: Grid, i: int, j: int, x: int, n: int): int
  {
    (if -1 < n then Offset(g, i, j, x, -1) else 0) +
    (if 0 < n then Offset(g, i, j, x, 0) else 0) +
    (if 1 < n then Offset(g, i, j, x, 1) else 0)
  }

  /** The count after the row offsets -1 .. n - 1 have been visited in full. */
  function BlockSoFar(g: Grid, i: int, j: int, n: int): int
  {
    (if -1 < n then RowSoFar(g, i, j, -1, 2) else 0) +
    (if 0 < n then RowSoFar(g, i, j, 0, 2) else 0) +
    (if 1 < n then RowSoFar(g, i, j, 1, 2) else 0)
  }

  /**
   The cells before (x, y) in the generation loop's order already hold their
   values in the grid e; the cells from (x, y) on still hold 0.
   */
  ghost predicate FilledUpTo(next: array2<int>, e: Grid, x: int, y: int)
    reads next
  {
    forall a, b | 0 <= a < next.Length0 && 0 <= b < next.Length1 ::
      next[a, b] == if a < x || (a == x && b < y) then At(e, a, b) else 0
  }

  /** An array filled through its last cell holds e, when e has the array's dimensions. */
  lemma FilledIsGrid(next: array2<int>, e: Grid)
    requires |e| == next.Length0 && (forall a | 0 <= a < |e| :: |e[a]| == next.Length1)
    requires FilledUpTo(next, e, next.Length0, 0)
    ensures GridOf(next) == e
  {
    GridsEqual(GridOf(next), e);
  }

  class LeonsGameOfLife {
    var cells: array2<int>
    var playing: bool
    var gameTimer: int

    /** The object as a value of the game-loop model. */
    ghost function Model(): State
      reads this, cells
    {
      State(GridOf(cells), playing, gameTimer)
    }

    /** Every cell holds 0 or 1 and the timer is a 32-bit value. */
    ghost predicate Valid()
      reads this, cells
    {
      Binary(GridOf(cells)) && IsInt32(gameTimer)
    }

    /** Start-up: a dead 511 x 511 grid, paused, tick 0. */
    constructor ()
      ensures Valid() && fresh(cells)
      ensures cells.Length0 == Size && cells.Length1 == Size
      ensures Model() == Initial()
    {
      playing := false;
      gameTimer := 0;
      cells := new int[Size, Size]((x, y) => 0);
      new;
      GridsEqual(GridOf(cells), Zero(Size, Size));
    }

    /** The live-neighbour count of cell (i, j), read from `cells` and clipped at its edges. */
    method CountNeighbors(i: int, j: int) returns (lives: int)
      ensures lives == Neighbors(GridOf(cells), i, j)
    {
      lives := 0;
      for x := -1 to 2
        invariant lives == BlockSoFar(GridOf(cells), i, j, x)
      {
        for y := -1 to 2
          invariant lives == BlockSoFar(GridOf(cells), i, j, x) + RowSoFar(GridOf(cells), i, j, x, y)
        {
          if i + x >= 0 && i + x < cells.Length0 && j + y >= 0 && j + y < cells.Length1 {
            if !(x == 0 && y == 0) {
              lives := lives + cells[i + x, j + y];
            }
          }
        }
      }
    }

    /**
     The loop body of a generation for cell (x, y): `pending` is what the new
     array already holds there; the value returned is what the body writes.
     */
    method NextValue(x: int, y: int, pending: int) returns (v: int)
      requires 0 <= x < cells.Length0 && 0 <= y < cells.Length1
      ensures v == Rule(pending, At(GridOf(cells), x, y), Neighbors(GridOf(cells), x, y))
    {
      var n := CountNeighbors(x, y);
      if pending == 0 && n == 3 {
        v := 1;
      } else if pending == 1 && (n < 2 || n > 3) {
        v := 0;
      } else {
        v := cells[x, y];
      }
    }

    /**
     The new array of a generation: a fresh array of the same dimensions,
     filled cell by cell from the old grid only. Nothing else is written.
     */
    method NextCells() returns (nextCells: array2<int>)
      ensures fresh(nextCells)
      ensures nextCells.Length0 == cells.Length0 && nextCells.Length1 == cells.Length1
      ensures GridOf(nextCells) == Evolve(GridOf(cells))
    {
      ghost var g := GridOf(cells);
      ghost var e := Evolve(g);
      nextCells := new int[cells.Length0, cells.Length1]((x, y) => 0);
      for x := 0 to cells.Length0
        invariant FilledUpTo(nextCells, e, x, 0)
      {
        for y := 0 to cells.Length1
          invariant FilledUpTo(nextCells, e, x, y)
        {
          // The new array still holds 0 at (x, y), so the rule's "dies" branch is not taken.
          var v := NextValue(x, y, nextCells[x, y]);
          assert v == At(e, x, y) by { EvolveAt(g, x, y); }
          nextCells[x, y] := v;
        }
      }
      FilledIsGrid(nextCells, e);
    }

    /** One generation: the grid is replaced by its next generation, computed into a fresh array. */
    method Generation()
      requires Valid()
      modifies this`cells
      ensures Valid() && fresh(cells) && unchanged(old(cells))
      ensures cells.Length0 == old(cells.Length0) && cells.Length1 == old(cells.Length1)
      ensures GridOf(cells) == Evolve(old(GridOf(cells)))
    {
      var nextCells := NextCells();
      EvolveBinary(GridOf(cells));
      cells := nextCells;
    }

    /** R: the grid is replaced by an all-dead grid of the same dimensions. */
    method Reset()
      modifies this`cells
      ensures fresh(cells)
      ensures cells.Length0 == old(cells.Length0) && cells.Length1 == old(cells.Length1)
      ensures GridOf(cells) == Zero(Width(old(GridOf(cells))), Height(old(GridOf(cells))))
    {
      ghost var w, h := Width(GridOf(cells)), Height(GridOf(cells));
      cells := new int[cells.Length0, cells.Length1]((x, y) => 0);
      GridsEqual(GridOf(cells), Zero(w, h));
    }

    /** Space: the run flag flips. */
    method Toggle()
      modifies this`playing
      ensures playing == !old(playing)
    {
      playing := !playing;
    }

    /** The mouse edit, written into `cells` in place. */
    method EditCell(m: Mouse)
      modifies cells
      ensures GridOf(cells) == Edit(old(GridOf(cells)), playing, m)
    {
      if !playing && m.x > 0 && m.y > 0 && m.x < cells.Length0 * CellWidth && m.y < cells.Length1 * CellWidth {
        MouseCellInBounds(m.x, cells.Length0);
        MouseCellInBounds(m.y, cells.Length1);
        var cx, cy := MouseCell(m.x), MouseCell(m.y);
        if m.leftPressed {
          cells[cx, cy] := 1;
          GridsEqual(GridOf(cells), Set(old(GridOf(cells)), cx, cy, 1));
        } else if m.rightPressed {
          cells[cx, cy] := 0;
          GridsEqual(GridOf(cells), Set(old(GridOf(cells)), cx, cy, 0));
        }
      }
    }

    /** One frame's input handling: Space, then R, then the mouse edit. */
    method UpdateInput(f: Frame)
      modifies this, cells
      ensures fresh(cells) || cells == old(cells)
      ensures cells.Length0 == old(cells.Length0) && cells.Length1 == old(cells.Length1)
      ensures Model() == GameModel.UpdateInput(old(Model()), f)
    {
      if KeyPressed(f.lastKeyboard.space, f.keyboard.space) {
        Toggle();
      }
      if KeyPressed(f.lastKeyboard.r, f.keyboard.r) {
        Reset();
      }
      EditCell(f.mouse);
    }

    /** One frame of the game loop: tick, input, and a generation when one is due. */
    method Update(f: Frame)
      requires Valid()
      modifies this, cells
      ensures Valid() && (fresh(cells) || cells == old(cells))
      ensures cells.Length0 == old(cells.Length0) && cells.Length1 == old(cells.Length1)
      ensures Model() == GameModel.Update(old(Model()), f)
    {
      ghost var s0 := Model();
      gameTimer := Inc(gameTimer);
      ghost var s1 := Model();
      assert s1 == s0.(gameTimer := Inc(s0.gameTimer));
      UpdateInput(f);
      if playing && Rem(gameTimer, GameSpeed) == 0 {
        Generation();
      }
      assert Model() == GameModel.Update(s0, f);
      UpdateKeepsBinary(s0, f);
    }
  }
}
