/**
 * `Game` (project.py): the turn, the selected piece and the end-of-game test
 * around one `Board`.  WHITE is the human player and BLACK the AI.
 */
module GameEngine {
  import opened Wrappers
  import opened Elements
  import opened Rules
  import opened BoardState

  /**
   * The board after `_move(row, col)` with the piece at `from` selected, or
   * `None` when `(row, col)` is not one of that piece's destinations.
   */
  function MoveResult(g: Grid, from: Pos, to: Pos): Option<Grid>
    requires Consistent(g) && InBounds(from.row, from.col) && g[from.row][from.col].Occupied?
  {
    var p := g[from.row][from.col].piece;
    match Lookup(ValidMoves(g, p), to)
    case None => None
    case Some(s) => Some(Apply(g, p, s))
  }

  /** `_move` succeeds exactly when the destination is one of the selected piece's moves. */
  lemma MoveResultIff(g: Grid, from: Pos, to: Pos)
    requires Consistent(g) && InBounds(from.row, from.col) && g[from.row][from.col].Occupied?
    ensures var p := g[from.row][from.col].piece;
      MoveResult(g, from, to).Some? <==> exists s :: s in ValidMoves(g, p) && s.dest == to
  {
    var p := g[from.row][from.col].piece;
    var steps := ValidMoves(g, p);
    if s :| s in steps && s.dest == to {
      var i :| 0 <= i < |steps| && steps[i] == s;
      assert steps[i].dest == to;
    }
  }

  /**
   * After a successful `_move` the piece has left its cell and stands,
   * relocated and crowned if due, on the destination, and the board stays
   * well formed.
   */
  lemma MoveResultShape(g: Grid, from: Pos, to: Pos)
    requires Consistent(g) && DarkOnly(g) && InBounds(from.row, from.col) && g[from.row][from.col].Occupied?
    requires MoveResult(g, from, to).Some?
    ensures var p := g[from.row][from.col].piece;
      var h := MoveResult(g, from, to).value;
      InBounds(to.row, to.col) && to != from &&
      h[to.row][to.col] == Occupied(Relocated(p, to)) &&
      h[from.row][from.col] == Empty &&
      Consistent(h) && DarkOnly(h)
  {
    var p := g[from.row][from.col].piece;
    var s := Lookup(ValidMoves(g, p), to).value;
    ApplyCells(g, p, s);
    ApplyPreserves(g, p, s);
  }

  // ---------------------------------------------------------------------------
  // Counting for `check_winner`
  // ---------------------------------------------------------------------------

  /** `colour`'s piece at (r, c) has at least one move. */
  predicate MovableAt(g: Grid, colour: Colour, r: int, c: int)
    requires IsGrid(g) && InBounds(r, c)
  {
    Owns(g, Pos(r, c), colour) && ValidMoves(g, g[r][c].piece) != []
  }

  /** `colour`'s pieces among the first `n` cells of row `r`. */
  function RowLeft(g: Grid, colour: Colour, r: int, n: nat): (k: nat)
    requires IsGrid(g) && 0 <= r < Rows && n <= Cols
    ensures k <= n
  {
    if n == 0 then 0 else RowLeft(g, colour, r, n - 1) + if Owns(g, Pos(r, n - 1), colour) then 1 else 0
  }

  /** Those of them that have a move. */
  function RowMovable(g: Grid, colour: Colour, r: int, n: nat): nat
    requires IsGrid(g) && 0 <= r < Rows && n <= Cols
  {
    if n == 0 then 0 else RowMovable(g, colour, r, n - 1) + if MovableAt(g, colour, r, n - 1) then 1 else 0
  }

  /** `colour`'s pieces in the first `n` rows (`white_left`, `black_left`). */
  function PiecesLeft(g: Grid, colour: Colour, n: nat): (k: nat)
    requires IsGrid(g) && n <= Rows
  {
    if n == 0 then 0 else PiecesLeft(g, colour, n - 1) + RowLeft(g, colour, n - 1, Cols)
  }

  /** Those of them that have a move (`white_moves`, `black_moves`). */
  function PiecesMovable(g: Grid, colour: Colour, n: nat): nat
    requires IsGrid(g) && n <= Rows
  {
    if n == 0 then 0 else PiecesMovable(g, colour, n - 1) + RowMovable(g, colour, n - 1, Cols)
  }

  /** A piece counted as movable is counted as left. */
  lemma {:induction false} RowMovableBound(g: Grid, colour: Colour, r: int, n: nat)
    requires IsGrid(g) && 0 <= r < Rows && n <= Cols
    ensures RowMovable(g, colour, r, n) <= RowLeft(g, colour, r, n)
  {
    if n > 0 {
      RowMovableBound(g, colour, r, n - 1);
    }
  }

  lemma {:induction false} PiecesMovableBound(g: Grid, colour: Colour, n: nat)
    requires IsGrid(g) && n <= Rows
    ensures PiecesMovable(g, colour, n) <= PiecesLeft(g, colour, n)
  {
    if n > 0 {
      PiecesMovableBound(g, colour, n - 1);
      RowMovableBound(g, colour, n - 1, Cols);
    }
  }

  lemma {:induction false} RowMovableIff(g: Grid, colour: Colour, r: int, n: nat)
    requires IsGrid(g) && 0 <= r < Rows && n <= Cols
    ensures RowMovable(g, colour, r, n) > 0 <==> exists c :: 0 <= c < n && MovableAt(g, colour, r, c)
  {
    if n > 0 {
      var last := n - 1;
      RowMovableIff(g, colour, r, last);
      forall c | 0 <= c < n && MovableAt(g, colour, r, c)
        ensures RowMovable(g, colour, r, n) > 0
      {
        if c < last {
          assert exists c' :: 0 <= c' < last && MovableAt(g, colour, r, c');
        }
      }
      assert RowMovable(g, colour, r, n) > 0 ==> exists c :: 0 <= c < n && MovableAt(g, colour, r, c);
    }
  }

  /** Some piece of `colour` in row `r` has a move. */
  ghost predicate RowHasMover(g: Grid, colour: Colour, r: int)
    requires IsGrid(g) && 0 <= r < Rows
  {
    exists c :: 0 <= c < Cols && MovableAt(g, colour, r, c)
  }

  lemma RowHasMoverIff(g: Grid, colour: Colour, r: int)
    requires IsGrid(g) && 0 <= r < Rows
    ensures RowMovable(g, colour, r, Cols) > 0 <==> RowHasMover(g, colour, r)
  {
    RowMovableIff(g, colour, r, Cols);
  }

  lemma {:induction false} PiecesMovableIff(g: Grid, colour: Colour, n: nat)
    requires IsGrid(g) && n <= Rows
    ensures PiecesMovable(g, colour, n) > 0 <==> exists r :: 0 <= r < n && RowHasMover(g, colour, r)
  {
    if n > 0 {
      var last := n - 1;
      PiecesMovableIff(g, colour, last);
      RowHasMoverIff(g, colour, last);
      assert PiecesMovable(g, colour, n) == PiecesMovable(g, colour, last) + RowMovable(g, colour, last, Cols);
      forall r | 0 <= r < n && RowHasMover(g, colour, r)
        ensures PiecesMovable(g, colour, n) > 0
      {
        if r < last {
          assert exists r' :: 0 <= r' < last && RowHasMover(g, colour, r');
        }
      }
      assert PiecesMovable(g, colour, n) > 0 ==> exists r :: 0 <= r < n && RowHasMover(g, colour, r);
    }
  }

  /**
   * Some piece of `colour` can move exactly when the count of its pieces
   * with a move is positive; a side with no pieces left has none.
   */
  lemma CanMoveCount(g: Grid, colour: Colour)
    requires IsGrid(g)
    ensures PiecesMovable(g, colour, Rows) > 0 <==> CanMove(g, colour)
    ensures PiecesLeft(g, colour, Rows) == 0 ==> !CanMove(g, colour)
  {
    PiecesMovableIff(g, colour, Rows);
    PiecesMovableBound(g, colour, Rows);
    if CanMove(g, colour) {
      var r, c :| Owns(g, Pos(r, c), colour) && ValidMoves(g, g[r][c].piece) != [];
      assert MovableAt(g, colour, r, c);
      assert RowHasMover(g, colour, r);
    }
    if exists r :: 0 <= r < Rows && RowHasMover(g, colour, r) {
      var r :| 0 <= r < Rows && RowHasMover(g, colour, r);
      var c :| 0 <= c < Cols && MovableAt(g, colour, r, c);
      assert Owns(g, Pos(r, c), colour) && ValidMoves(g, g[r][c].piece) != [];
    }
  }

  class Game {
    var board: Board
    var turn: Colour
    /** The selected piece, by the cell that holds it. */
    var selected: Option<Pos>

    ghost predicate Valid()
      reads this, board, board.grid
    {
      board.Valid() && DarkOnly(board.Cells()) &&
      (selected.Some? ==> Owns(board.Cells(), selected.value, turn))
    }

    /** `Game.__init__`: a new board, WHITE to move, nothing selected. */
    constructor (draws: seq<Element>)
      requires |draws| == 24
      ensures Valid() && fresh(board) && fresh(board.grid)
      ensures board.Cells() == InitialGrid(draws) && turn == White && selected == None
    {
      board := new Board.Create(draws);
      turn := White;
      selected := None;
      new;
      InitialLayout(draws);
    }

    /** `change_turn`: drop the selection and pass the turn to the other side. */
    method ChangeTurn()
      requires board.Valid() && DarkOnly(board.Cells())
      modifies this
      ensures Valid()
      ensures board == old(board) && selected == None && turn == Opponent(old(turn))
    {
      selected := None;
      turn := if turn == White then Black else White;
    }

    /**
     * `_move(row, col)`: when `(row, col)` is a destination of the selected
     * piece, play it, remove the jumped piece and change the turn; otherwise
     * change nothing.
     */
    method MoveSelected(row: int, col: int) returns (ok: bool)
      requires Valid() && selected.Some?
      modifies this, board.grid
      ensures Valid() && board == old(board)
      ensures var r := MoveResult(old(board.Cells()), old(selected).value, Pos(row, col));
        ok == r.Some? &&
        (ok ==> board.Cells() == r.value && turn == Opponent(old(turn)) && selected == None) &&
        (!ok ==> board.Cells() == old(board.Cells()) && turn == old(turn) && selected == old(selected))
    {
      ghost var g := board.Cells();
      var from := selected.value;
      var piece := board.grid[from.row, from.col].piece;
      var validMoves := board.GetValidMoves(piece);
      var found := Lookup(validMoves, Pos(row, col));
      if found.Some? {
        MoveResultShape(g, from, Pos(row, col));
        board.Move(piece, row, col);
        var skipped := found.value.captured;
        if skipped.Some? {
          ghost var m := board.Cells();
          board.Remove([skipped.value]);
          ClearedOne(m, skipped.value);
        }
        assert board.Cells() == MoveResult(g, from, Pos(row, col)).value;
        ChangeTurn();
        ok := true;
      } else {
        ok := false;
      }
    }

    /**
     * `select(row, col)`: with a piece selected, try to move it there; if that
     * fails, drop the selection and select again.  With nothing selected,
     * select the cell's piece when it belongs to the side to move.  Only the
     * latter returns true.
     */
    method Select(row: int, col: int) returns (r: bool)
      requires Valid() && InBounds(row, col)
      modifies this, board.grid
      ensures Valid() && board == old(board)
      ensures old(selected).None? ==>
        board.Cells() == old(board.Cells()) && turn == old(turn) &&
        r == Owns(old(board.Cells()), Pos(row, col), old(turn)) &&
        selected == (if r then Some(Pos(row, col)) else None)
      ensures old(selected).Some? ==>
        var moved := MoveResult(old(board.Cells()), old(selected).value, Pos(row, col));
        !r &&
        (moved.Some? ==> board.Cells() == moved.value && turn == Opponent(old(turn)) && selected == None) &&
        (moved.None? ==>
          board.Cells() == old(board.Cells()) && turn == old(turn) &&
          selected == (if Owns(old(board.Cells()), Pos(row, col), old(turn)) then Some(Pos(row, col)) else None))
      decreases if selected.Some? then 1 else 0
    {
      var cell := board.grid[row, col];
      if selected.Some? {
        var result := MoveSelected(row, col);
        if !result {
          selected := None;
          var _ := Select(row, col);
        }
        r := false;
      } else if cell.Occupied? && cell.piece.colour == turn {
        selected := Some(Pos(row, col));
        r := true;
      } else {
        r := false;
      }
    }

    /** One row of the counting loop of `check_winner`, added to the counts so far. */
    method CountRow(r: int, whiteLeft: nat, blackLeft: nat, whiteMoves: nat, blackMoves: nat)
      returns (wl: nat, bl: nat, wm: nat, bm: nat)
      requires Valid() && 0 <= r < Rows
      ensures wl == whiteLeft + RowLeft(board.Cells(), White, r, Cols)
      ensures bl == blackLeft + RowLeft(board.Cells(), Black, r, Cols)
      ensures wm == whiteMoves + RowMovable(board.Cells(), White, r, Cols)
      ensures bm == blackMoves + RowMovable(board.Cells(), Black, r, Cols)
    {
      ghost var g := board.Cells();
      wl, bl, wm, bm := whiteLeft, blackLeft, whiteMoves, blackMoves;
      for c := 0 to Cols
        invariant wl == whiteLeft + RowLeft(g, White, r, c) && bl == blackLeft + RowLeft(g, Black, r, c)
        invariant wm == whiteMoves + RowMovable(g, White, r, c) && bm == blackMoves + RowMovable(g, Black, r, c)
      {
        wl, bl, wm, bm := CountCell(r, c, wl, bl, wm, bm);
      }
    }

    /** The body of the counting loop for one cell of `check_winner`. */
    method CountCell(r: int, c: int, whiteLeft: nat, blackLeft: nat, whiteMoves: nat, blackMoves: nat)
      returns (wl: nat, bl: nat, wm: nat, bm: nat)
      requires Valid() && InBounds(r, c)
      ensures wl == whiteLeft + if Owns(board.Cells(), Pos(r, c), White) then 1 else 0
      ensures bl == blackLeft + if Owns(board.Cells(), Pos(r, c), Black) then 1 else 0
      ensures wm == whiteMoves + if MovableAt(board.Cells(), White, r, c) then 1 else 0
      ensures bm == blackMoves + if MovableAt(board.Cells(), Black, r, c) then 1 else 0
    {
      wl, bl, wm, bm := whiteLeft, blackLeft, whiteMoves, blackMoves;
      var cell := board.grid[r, c];
      if cell.Occupied? {
        var piece := cell.piece;
        if piece.colour == White {
          wl := wl + 1;
          var moves := board.GetValidMoves(piece);
          if moves != [] {
            wm := wm + 1;
          }
        } else if piece.colour == Black {
          bl := bl + 1;
          var moves := board.GetValidMoves(piece);
          if moves != [] {
            bm := bm + 1;
          }
        }
      }
    }

    /**
     * `check_winner`: count each side's pieces and the pieces that have a
     * move.  The AI wins when WHITE cannot move, the player when BLACK cannot;
     * otherwise the game goes on.
     */
    method CheckWinner() returns (w: Option<string>)
      requires Valid()
      ensures w == Some("AI Wins!") <==> !CanMove(board.Cells(), White)
      ensures w == Some("Player Wins!") <==> CanMove(board.Cells(), White) && !CanMove(board.Cells(), Black)
      ensures w == None <==> CanMove(board.Cells(), White) && CanMove(board.Cells(), Black)
    {
      ghost var g := board.Cells();
      var whiteLeft, blackLeft := 0, 0;
      var whiteMoves, blackMoves := 0, 0;
      for r := 0 to Rows
        invariant whiteLeft == PiecesLeft(g, White, r) && blackLeft == PiecesLeft(g, Black, r)
        invariant whiteMoves == PiecesMovable(g, White, r) && blackMoves == PiecesMovable(g, Black, r)
      {
        whiteLeft, blackLeft, whiteMoves, blackMoves := CountRow(r, whiteLeft, blackLeft, whiteMoves, blackMoves);
      }
      CanMoveCount(g, White);
      CanMoveCount(g, Black);
      if whiteLeft == 0 || whiteMoves == 0 {
        w := Some("AI Wins!");
      } else if blackLeft == 0 || blackMoves == 0 {
        w := Some("Player Wins!");
      } else {
        w := None;
      }
    }
  }
}
