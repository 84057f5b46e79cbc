/**
 * `Board` (project.py): the 8x8 grid the game mutates in place.  Each method
 * is specified by the value-level rules in rules.dfy.
 */
module BoardState {
  import opened Wrappers
  import opened Elements
  import opened Rules

  class Board {
    /** The source's nested list `self.board`. */
    var grid: array2<Cell>

    ghost predicate Valid()
      reads this, grid
    {
      grid.Length0 == Rows && grid.Length1 == Cols && Consistent(Cells())
    }

    /** The grid as a value. */
    function Cells(): (g: Grid)
      reads this, grid
      requires grid.Length0 == Rows && grid.Length1 == Cols
      ensures IsGrid(g)
      ensures forall r, c :: InBounds(r, c) ==> g[r][c] == grid[r, c]
    {
      var a := grid;
      seq(Rows, (r: int) requires 0 <= r < Rows reads a =>
        seq(Cols, (c: int) requires 0 <= c < Cols reads a => a[r, c]))
    }

    /**
     * `Board.__init__` and `create_board`: BLACK on the dark squares of rows
     * 0-2, WHITE on those of rows 5-7; `draws` stands for the random element
     * choices, one per piece in row-major order.
     */
    constructor Create(draws: seq<Element>)
      requires |draws| == 24
      ensures Valid() && fresh(grid)
      ensures Cells() == InitialGrid(draws)
    {
      var cells := new Cell[Rows, Cols];
      for row := 0 to Rows
        invariant forall r, c :: 0 <= r < row && 0 <= c < Cols ==>
          cells[r, c] == InitialCell(draws, r, c)
      {
        for col := 0 to Cols
          invariant forall r, c :: 0 <= r < row && 0 <= c < Cols ==>
            cells[r, c] == InitialCell(draws, r, c)
          invariant forall c :: 0 <= c < col ==> cells[row, c] == InitialCell(draws, row, c)
        {
          if (row + col) % 2 != 0 {
            if row < 3 {
              cells[row, col] := Occupied(Piece(row, col, Black, draws[DrawIndex(row, col)], false));
            } else if row > 4 {
              cells[row, col] := Occupied(Piece(row, col, White, draws[DrawIndex(row, col)], false));
            } else {
              cells[row, col] := Empty;
            }
          } else {
            cells[row, col] := Empty;
          }
        }
      }
      grid := cells;
      new;
      GridExt(Cells(), InitialGrid(draws));
      InitialLayout(draws);
    }

    /** A fresh, independent copy of the grid `g` (the source's `copy.deepcopy`). */
    constructor FromGrid(g: Grid)
      requires Consistent(g)
      ensures Valid() && fresh(grid)
      ensures Cells() == g
    {
      var cells := new Cell[Rows, Cols];
      for row := 0 to Rows
        invariant forall r, c :: 0 <= r < row && 0 <= c < Cols ==> cells[r, c] == g[r][c]
      {
        for col := 0 to Cols
          invariant forall r, c :: 0 <= r < row && 0 <= c < Cols ==> cells[r, c] == g[r][c]
          invariant forall c :: 0 <= c < col ==> cells[row, c] == g[row][c]
        {
          cells[row, col] := g[row][col];
        }
      }
      grid := cells;
      new;
      GridExt(Cells(), g);
    }

    /**
     * One pass of the loop of `get_valid_moves`: the entry direction
     * `(dx, dy)` adds, if any — the empty square next to the piece, or the
     * empty square behind an opposing piece the piece is not weaker than.
     */
    method StepToward(piece: Piece, dx: int, dy: int) returns (found: Option<Step>)
      requires Valid()
      ensures found == DirectionStep(Cells(), piece, (dx, dy))
    {
      found := None;
      var x, y := piece.row + dx, piece.col + dy;
      if InBounds(x, y) {
        var target := grid[x, y];
        if target.Empty? {
          found := Some(Step(Pos(x, y), None));
        } else if target.piece.colour != piece.colour {
          if Advantage(piece.element, target.piece.element) >= 0 {
            var jumpX, jumpY := x + dx, y + dy;
            if InBounds(jumpX, jumpY) && grid[jumpX, jumpY].Empty? {
              found := Some(Step(Pos(jumpX, jumpY), Some(Pos(x, y))));
            }
          }
        }
      }
    }

    /**
     * `get_valid_moves(piece)`: the dictionary's items in insertion order,
     * one direction at a time.
     */
    method GetValidMoves(piece: Piece) returns (moves: seq<Step>)
      requires Valid()
      ensures moves == ValidMoves(Cells(), piece)
    {
      var directions := AllDirections;
      if !piece.king {
        directions := if piece.colour == White then directions[..2] else directions[2..];
      }
      assert directions == Directions(piece);
      ghost var g := Cells();
      moves := [];
      for i := 0 to |directions|
        invariant moves == StepsAlong(g, piece, directions[..i])
      {
        var (dx, dy) := directions[i];
        var found := StepToward(piece, dx, dy);
        StepsAlongSnoc(g, piece, directions, i);
        if found.Some? {
          moves := moves + [found.value];
        }
      }
      assert directions[..|directions|] == directions;
    }

    /**
     * `move(piece, row, col)`: the old cell becomes empty, the destination
     * holds the piece with its new coordinates, crowned on its back rank.
     */
    method Move(piece: Piece, row: int, col: int)
      requires Valid() && InBounds(row, col)
      requires InBounds(piece.row, piece.col) && grid[piece.row, piece.col] == Occupied(piece)
      modifies grid
      ensures Valid()
      ensures Cells() == Moved(old(Cells()), piece, Pos(row, col))
    {
      ghost var before := Cells();
      var moved := piece.(row := row, col := col);
      if (piece.colour == White && row == 0) || (piece.colour == Black && row == Rows - 1) {
        moved := Crowned(moved);
      }
      grid[piece.row, piece.col] := Empty;
      grid[row, col] := Occupied(moved);
      MovedCells(before, piece, Pos(row, col));
      GridExt(Cells(), Moved(before, piece, Pos(row, col)));
    }

    /** `remove(positions)`: each listed cell becomes empty. */
    method Remove(positions: seq<Pos>)
      requires Valid()
      requires forall q :: q in positions ==> InBounds(q.row, q.col)
      modifies grid
      ensures Valid()
      ensures Cells() == Cleared(old(Cells()), positions)
    {
      ghost var before := Cells();
      for i := 0 to |positions|
        invariant forall r, c :: InBounds(r, c) ==>
          grid[r, c] == if Pos(r, c) in positions[..i] then Empty else before[r][c]
      {
        var q := positions[i];
        grid[q.row, q.col] := Empty;
        assert positions[..i + 1] == positions[..i] + [q];
      }
      assert positions[..|positions|] == positions;
      ClearedCells(before, positions);
      GridExt(Cells(), Cleared(before, positions));
    }
  }
}
