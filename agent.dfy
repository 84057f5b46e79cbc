/**
 * `Agent` (project.py): static evaluation, successor generation and
 * fixed-depth minimax with alpha-beta pruning.  The search works on grid
 * values, so a successor is an independent copy by construction.
 *
 * Scores are the source's scores multiplied by ten, so that they are
 * integers: a man is worth 10, a king 20, plus the element's index.  The
 * source's `float('-inf')` and `float('inf')` are the `NegInf` and `PosInf`
 * scores.  WHITE maximises, BLACK minimises.
 */
module Agent {
  import opened Wrappers
  import opened Elements
  import opened Rules
  import opened BoardState

  // ---------------------------------------------------------------------------
  // Static evaluation (`Agent.evaluate`)
  // ---------------------------------------------------------------------------

  /** `(2 if king else 1) + 0.1 * index(element)`, times ten. */
  function PieceValue(p: Piece): (v: int)
    ensures 10 <= v <= 23
    ensures p.king <==> v >= 20
  {
    (if p.king then 20 else 10) + Index(p.element)
  }

  /** What a cell adds to `colour`'s total. */
  function CellValue(x: Cell, colour: Colour): int
  {
    if x.Occupied? && x.piece.colour == colour then PieceValue(x.piece) else 0
  }

  /** `colour`'s total over the first `n` cells of a row. */
  function RowMaterial(row: seq<Cell>, colour: Colour, n: nat): int
    requires n <= |row|
  {
    if n == 0 then 0 else RowMaterial(row, colour, n - 1) + CellValue(row[n - 1], colour)
  }

  /** `colour`'s total over the first `n` rows. */
  function Material(g: Grid, colour: Colour, n: nat): int
    requires IsGrid(g) && n <= Rows
  {
    if n == 0 then 0 else Material(g, colour, n - 1) + RowMaterial(g[n - 1], colour, Cols)
  }

  /** WHITE's total minus BLACK's total. */
  function Evaluation(g: Grid): int
    requires IsGrid(g)
  {
    Material(g, White, Rows) - Material(g, Black, Rows)
  }

  /** `evaluate(board)`: two running totals over the grid, row by row. */
  method Evaluate(g: Grid) returns (score: int)
    requires IsGrid(g)
    ensures score == Evaluation(g)
  {
    var whiteScore, blackScore := 0, 0;
    for r := 0 to Rows
      invariant whiteScore == Material(g, White, r)
      invariant blackScore == Material(g, Black, r)
    {
      for c := 0 to Cols
        invariant whiteScore == Material(g, White, r) + RowMaterial(g[r], White, c)
        invariant blackScore == Material(g, Black, r) + RowMaterial(g[r], Black, c)
      {
        if g[r][c].Occupied? {
          var piece := g[r][c].piece;
          var value := if piece.king then 20 else 10;
          value := value + Index(piece.element);
          if piece.colour == White {
            whiteScore := whiteScore + value;
          } else {
            blackScore := blackScore + value;
          }
        }
      }
    }
    score := whiteScore - blackScore;
  }

  /** The cell's contribution to the evaluation, with WHITE counting positive. */
  function Signed(x: Cell): int
  {
    CellValue(x, White) - CellValue(x, Black)
  }

  lemma {:induction false} RowMaterialPut(row: seq<Cell>, colour: Colour, n: nat, c: int, x: Cell)
    requires n <= |row| && 0 <= c < |row|
    ensures RowMaterial(row[c := x], colour, n) ==
      RowMaterial(row, colour, n) + (if c < n then CellValue(x, colour) - CellValue(row[c], colour) else 0)
  {
    if n > 0 {
      RowMaterialPut(row, colour, n - 1, c, x);
    }
  }

  lemma {:induction false} MaterialPut(g: Grid, colour: Colour, n: nat, q: Pos, x: Cell)
    requires IsGrid(g) && n <= Rows && InBounds(q.row, q.col)
    ensures Material(Put(g, q, x), colour, n) ==
      Material(g, colour, n) +
      (if q.row < n then CellValue(x, colour) - CellValue(g[q.row][q.col], colour) else 0)
  {
    if n > 0 {
      MaterialPut(g, colour, n - 1, q, x);
      var h := Put(g, q, x);
      if q.row == n - 1 {
        assert h[n - 1] == g[n - 1][q.col := x];
        RowMaterialPut(g[n - 1], colour, Cols, q.col, x);
      } else {
        assert h[n - 1] == g[n - 1];
      }
    }
  }

  /** Replacing one cell changes the evaluation by the difference of the two cells' values. */
  lemma EvaluationPut(g: Grid, q: Pos, x: Cell)
    requires IsGrid(g) && InBounds(q.row, q.col)
    ensures Evaluation(Put(g, q, x)) == Evaluation(g) + Signed(x) - Signed(g[q.row][q.col])
  {
    MaterialPut(g, White, Rows, q, x);
    MaterialPut(g, Black, Rows, q, x);
  }

  /** +1 for WHITE, whose pieces count positive, -1 for BLACK. */
  function Sign(c: Colour): int
  {
    if c == White then 1 else -1
  }

  /** 10 when the move crowns a man, in the mover's favour. */
  function CrownGain(p: Piece, to: Pos): int
  {
    if !p.king && ReachesBackRank(p.colour, to.row) then 10 else 0
  }

  /** Moving a piece onto an empty cell changes the evaluation only by its crowning. */
  lemma EvaluationMoved(g: Grid, p: Piece, to: Pos)
    requires IsGrid(g) && InBounds(p.row, p.col) && InBounds(to.row, to.col)
    requires g[p.row][p.col] == Occupied(p) && g[to.row][to.col].Empty?
    ensures Evaluation(Moved(g, p, to)) == Evaluation(g) + Sign(p.colour) * CrownGain(p, to)
  {
    var src := Pos(p.row, p.col);
    var g1 := Put(g, src, Empty);
    EvaluationPut(g, src, Empty);
    assert g1[to.row][to.col] == Empty;
    EvaluationPut(g1, to, Occupied(Relocated(p, to)));
  }

  /** The jumped cell is neither end of the move and holds an opposing piece. */
  lemma CapturedCell(g: Grid, p: Piece, s: Step)
    requires Consistent(g) && InBounds(p.row, p.col) && g[p.row][p.col] == Occupied(p)
    requires s in ValidMoves(g, p) && s.captured.Some?
    ensures StepInBounds(s)
    ensures s.captured.value != Pos(p.row, p.col) && s.captured.value != s.dest
    ensures Owns(g, s.captured.value, Opponent(p.colour))
  {
    ValidMovesSound(g, p, s);
    var d :| d in Directions(p) && StepAlong(g, p, d, s);
    DirectionsMember(p, d);
    AllDirectionsCases(d);
  }

  /**
   * Playing a valid entry changes the evaluation, in the mover's favour, by 10
   * when it crowns the piece plus the value of the piece it captures: a move
   * never worsens the mover's evaluation.
   */
  lemma EvaluationAfterStep(g: Grid, p: Piece, s: Step)
    requires Consistent(g) && InBounds(p.row, p.col) && g[p.row][p.col] == Occupied(p)
    requires s in ValidMoves(g, p)
    ensures StepInBounds(s)
    ensures s.captured.Some? ==> Owns(g, s.captured.value, Opponent(p.colour))
    ensures Evaluation(Apply(g, p, s)) == Evaluation(g) + Sign(p.colour) *
      (CrownGain(p, s.dest) +
       (if s.captured.Some? then PieceValue(g[s.captured.value.row][s.captured.value.col].piece) else 0))
  {
    ValidMovesSound(g, p, s);
    EvaluationMoved(g, p, s.dest);
    var m := Moved(g, p, s.dest);
    if s.captured.Some? {
      var q := s.captured.value;
      CapturedCell(g, p, s);
      MovedCells(g, p, s.dest);
      assert m[q.row][q.col] == g[q.row][q.col];
      EvaluationPut(m, q, Empty);
    }
  }

  // ---------------------------------------------------------------------------
  // Successor generation (`Agent.get_all_moves`)
  // ---------------------------------------------------------------------------

  /** The boards reached by playing each entry of `steps` for piece `p`, in order. */
  function ApplyAll(g: Grid, p: Piece, steps: seq<Step>): (r: seq<Grid>)
    requires IsGrid(g) && InBounds(p.row, p.col)
    requires forall s :: s in steps ==> StepInBounds(s)
    ensures |r| == |steps|
    ensures forall i :: 0 <= i < |steps| ==> r[i] == Apply(g, p, steps[i])
    ensures forall h :: h in r ==> IsGrid(h)
    decreases |steps|
  {
    if steps == [] then []
    else
      var last := steps[|steps| - 1];
      ApplyAll(g, p, steps[..|steps| - 1]) + [Apply(g, p, last)]
  }

  /** The successors contributed by the cell (r, c): one per entry of its piece's moves. */
  function CellSuccessors(g: Grid, colour: Colour, r: int, c: int): (hs: seq<Grid>)
    requires Consistent(g) && InBounds(r, c)
  {
    match g[r][c]
    case Empty => []
    case Occupied(p) => if p.colour == colour then ApplyAll(g, p, ValidMoves(g, p)) else []
  }

  /** The successors from the first `n` cells of row `r`. */
  function RowSuccessors(g: Grid, colour: Colour, r: int, n: nat): (hs: seq<Grid>)
    requires Consistent(g) && 0 <= r < Rows && n <= Cols
  {
    if n == 0 then [] else RowSuccessors(g, colour, r, n - 1) + CellSuccessors(g, colour, r, n - 1)
  }

  /** The successors from the first `n` rows. */
  function SuccessorsUpTo(g: Grid, colour: Colour, n: nat): (hs: seq<Grid>)
    requires Consistent(g) && n <= Rows
  {
    if n == 0 then [] else SuccessorsUpTo(g, colour, n - 1) + RowSuccessors(g, colour, n - 1, Cols)
  }

  /**
   * `get_all_moves(board, colour)`: pieces in row-major order, and for each
   * the entries of its moves in order; each successor is the board after the
   * move and the removal of the captured piece.
   */
  function Successors(g: Grid, colour: Colour): (hs: seq<Grid>)
    requires Consistent(g)
  {
    SuccessorsUpTo(g, colour, Rows)
  }

  /** `h` is what playing one of the moves of `colour`'s piece at (r, c) produces. */
  ghost predicate Yields(g: Grid, colour: Colour, r: int, c: int, h: Grid)
    requires Consistent(g)
  {
    Owns(g, Pos(r, c), colour) &&
    exists s :: s in ValidMoves(g, g[r][c].piece) && h == Apply(g, g[r][c].piece, s)
  }

  /** The boards `ApplyAll` lists are exactly those of playing one of the entries. */
  lemma ApplyAllMember(g: Grid, p: Piece, steps: seq<Step>, h: Grid)
    requires IsGrid(g) && InBounds(p.row, p.col)
    requires forall s :: s in steps ==> StepInBounds(s)
    ensures h in ApplyAll(g, p, steps) <==> exists s :: s in steps && h == Apply(g, p, s)
  {
    var hs := ApplyAll(g, p, steps);
    if h in hs {
      var i :| 0 <= i < |hs| && hs[i] == h;
      assert steps[i] in steps;
    }
    if exists s :: s in steps && h == Apply(g, p, s) {
      var s :| s in steps && h == Apply(g, p, s);
      var i :| 0 <= i < |steps| && steps[i] == s;
      assert hs[i] == h;
    }
  }

  lemma CellSuccessorsMember(g: Grid, colour: Colour, r: int, c: int, h: Grid)
    requires Consistent(g) && InBounds(r, c)
    ensures h in CellSuccessors(g, colour, r, c) <==> Yields(g, colour, r, c, h)
  {
    if Owns(g, Pos(r, c), colour) {
      var p := g[r][c].piece;
      assert CellSuccessors(g, colour, r, c) == ApplyAll(g, p, ValidMoves(g, p));
      ApplyAllMember(g, p, ValidMoves(g, p), h);
    } else {
      assert CellSuccessors(g, colour, r, c) == [];
    }
  }

  /** One of the first `n` cells of row `r` yields `h`. */
  ghost predicate YieldsInRow(g: Grid, colour: Colour, r: int, n: nat, h: Grid)
    requires Consistent(g) && 0 <= r < Rows && n <= Cols
  {
    n > 0 && (YieldsInRow(g, colour, r, n - 1, h) || Yields(g, colour, r, n - 1, h))
  }

  /** One of the cells of the first `n` rows yields `h`. */
  ghost predicate YieldsAbove(g: Grid, colour: Colour, n: nat, h: Grid)
    requires Consistent(g) && n <= Rows
  {
    n > 0 && (YieldsAbove(g, colour, n - 1, h) || YieldsInRow(g, colour, n - 1, Cols, h))
  }

  lemma {:induction false} RowSuccessorsMember(g: Grid, colour: Colour, r: int, n: nat, h: Grid)
    requires Consistent(g) && 0 <= r < Rows && n <= Cols
    ensures h in RowSuccessors(g, colour, r, n) <==> YieldsInRow(g, colour, r, n, h)
  {
    if n > 0 {
      InConcat(h, RowSuccessors(g, colour, r, n - 1), CellSuccessors(g, colour, r, n - 1));
      RowSuccessorsMember(g, colour, r, n - 1, h);
      CellSuccessorsMember(g, colour, r, n - 1, h);
    }
  }

  lemma {:induction false} SuccessorsUpToMember(g: Grid, colour: Colour, n: nat, h: Grid)
    requires Consistent(g) && n <= Rows
    ensures h in SuccessorsUpTo(g, colour, n) <==> YieldsAbove(g, colour, n, h)
  {
    if n > 0 {
      InConcat(h, SuccessorsUpTo(g, colour, n - 1), RowSuccessors(g, colour, n - 1, Cols));
      SuccessorsUpToMember(g, colour, n - 1, h);
      RowSuccessorsMember(g, colour, n - 1, Cols, h);
    }
  }

  /** `YieldsInRow` names a cell of the row that yields `h`. */
  lemma {:induction false} YieldsInRowCell(g: Grid, colour: Colour, r: int, n: nat, h: Grid)
    requires Consistent(g) && 0 <= r < Rows && n <= Cols
    ensures YieldsInRow(g, colour, r, n, h) <==> exists c :: 0 <= c < n && Yields(g, colour, r, c, h)
  {
    if n > 0 {
      var last := n - 1;
      YieldsInRowCell(g, colour, r, last, h);
      forall c | 0 <= c < n && Yields(g, colour, r, c, h)
        ensures YieldsInRow(g, colour, r, n, h)
      {
        if c < last {
          assert exists c' :: 0 <= c' < last && Yields(g, colour, r, c', h);
        }
      }
      assert YieldsInRow(g, colour, r, n, h) ==> exists c :: 0 <= c < n && Yields(g, colour, r, c, h);
    }
  }

  /** `YieldsAbove` names a row that yields `h`. */
  lemma {:induction false} YieldsAboveRow(g: Grid, colour: Colour, n: nat, h: Grid)
    requires Consistent(g) && n <= Rows
    ensures YieldsAbove(g, colour, n, h) <==> exists r :: 0 <= r < n && YieldsInRow(g, colour, r, Cols, h)
  {
    if n > 0 {
      var last := n - 1;
      YieldsAboveRow(g, colour, last, h);
      if YieldsInRow(g, colour, last, Cols, h) {
        assert exists r :: 0 <= r < n && YieldsInRow(g, colour, r, Cols, h);
      }
      if exists r :: 0 <= r < n && YieldsInRow(g, colour, r, Cols, h) {
        var r :| 0 <= r < n && YieldsInRow(g, colour, r, Cols, h);
        if r < last {
          assert exists r' :: 0 <= r' < last && YieldsInRow(g, colour, r', Cols, h);
        }
      }
    }
  }

  /**
   * A board is a successor exactly when it is the result of playing one of
   * the moves of one of `colour`'s pieces: one successor per (piece, move).
   */
  lemma SuccessorsMember(g: Grid, colour: Colour, h: Grid)
    requires Consistent(g)
    ensures h in Successors(g, colour) <==>
      exists r, c :: InBounds(r, c) && Yields(g, colour, r, c, h)
  {
    SuccessorsUpToMember(g, colour, Rows, h);
    YieldsAboveRow(g, colour, Rows, h);
    if YieldsAbove(g, colour, Rows, h) {
      var r :| 0 <= r < Rows && YieldsInRow(g, colour, r, Cols, h);
      YieldsInRowCell(g, colour, r, Cols, h);
      var c :| 0 <= c < Cols && Yields(g, colour, r, c, h);
      assert InBounds(r, c);
    }
    if exists r, c :: InBounds(r, c) && Yields(g, colour, r, c, h) {
      var r, c :| InBounds(r, c) && Yields(g, colour, r, c, h);
      YieldsInRowCell(g, colour, r, Cols, h);
      assert YieldsInRow(g, colour, r, Cols, h);
    }
  }

  /** A side has successors exactly when one of its pieces has a move. */
  lemma SuccessorsEmptyIff(g: Grid, colour: Colour)
    requires Consistent(g)
    ensures Successors(g, colour) == [] <==> !CanMove(g, colour)
  {
    if CanMove(g, colour) {
      var r, c :| Owns(g, Pos(r, c), colour) && ValidMoves(g, g[r][c].piece) != [];
      var p := g[r][c].piece;
      var s := ValidMoves(g, p)[0];
      var h := Apply(g, p, s);
      assert Yields(g, colour, r, c, h);
      SuccessorsMember(g, colour, h);
    }
    if Successors(g, colour) != [] {
      var h := Successors(g, colour)[0];
      SuccessorsMember(g, colour, h);
      var r, c :| InBounds(r, c) && Yields(g, colour, r, c, h);
      var s :| s in ValidMoves(g, g[r][c].piece) && h == Apply(g, g[r][c].piece, s);
      assert ValidMoves(g, g[r][c].piece) != [];
    }
  }

  /** Every successor of a consistent board is consistent. */
  lemma SuccessorsConsistent(g: Grid, colour: Colour)
    requires Consistent(g)
    ensures forall h :: h in Successors(g, colour) ==> Consistent(h)
  {
    forall h | h in Successors(g, colour)
      ensures Consistent(h)
    {
      SuccessorsMember(g, colour, h);
      var r, c :| InBounds(r, c) && Yields(g, colour, r, c, h);
      var p := g[r][c].piece;
      var s :| s in ValidMoves(g, p) && h == Apply(g, p, s);
      ApplyConsistent(g, p, s);
    }
  }

  lemma InConcat<T>(x: T, a: seq<T>, b: seq<T>)
    ensures x in a + b <==> x in a || x in b
  {
  }

  /**
   * One successor of `get_all_moves`: a deep copy of the board on which the
   * piece makes the move and the jumped piece is removed.
   */
  method PlayOnCopy(g: Grid, piece: Piece, step: Step) returns (h: Grid)
    requires Consistent(g) && InBounds(piece.row, piece.col) && g[piece.row][piece.col] == Occupied(piece)
    requires StepInBounds(step)
    ensures h == Apply(g, piece, step)
  {
    var temp := new Board.FromGrid(g);
    temp.Move(piece, step.dest.row, step.dest.col);
    if step.captured.Some? {
      ghost var m := temp.Cells();
      temp.Remove([step.captured.value]);
      ClearedOne(m, step.captured.value);
    }
    h := temp.Cells();
  }

  /** The inner loop of `get_all_moves`: one copy of `g` per entry, in order, with that entry played. */
  method PlayAll(g: Grid, piece: Piece, validMoves: seq<Step>) returns (hs: seq<Grid>)
    requires Consistent(g) && InBounds(piece.row, piece.col) && g[piece.row][piece.col] == Occupied(piece)
    requires forall s :: s in validMoves ==> StepInBounds(s)
    ensures hs == ApplyAll(g, piece, validMoves)
  {
    hs := [];
    for k := 0 to |validMoves|
      invariant hs == ApplyAll(g, piece, validMoves[..k])
    {
      var successor := PlayOnCopy(g, piece, validMoves[k]);
      hs := hs + [successor];
      assert validMoves[..k + 1][..k] == validMoves[..k];
    }
    assert validMoves[..|validMoves|] == validMoves;
  }

  /** The successors for one piece in `get_all_moves`: one copy per entry of its moves, in order. */
  method PieceMoves(board: Board, piece: Piece) returns (hs: seq<Grid>)
    requires board.Valid() && InBounds(piece.row, piece.col)
    requires board.grid[piece.row, piece.col] == Occupied(piece)
    ensures hs == ApplyAll(board.Cells(), piece, ValidMoves(board.Cells(), piece))
  {
    var g := board.Cells();
    var validMoves := board.GetValidMoves(piece);
    hs := PlayAll(g, piece, validMoves);
  }

  /** The successors from one cell in `get_all_moves`: none unless it holds a piece of `colour`. */
  method CellMoves(board: Board, colour: Colour, r: int, c: int) returns (hs: seq<Grid>)
    requires board.Valid() && InBounds(r, c)
    ensures hs == CellSuccessors(board.Cells(), colour, r, c)
  {
    hs := [];
    var cell := board.grid[r, c];
    if cell.Occupied? && cell.piece.colour == colour {
      hs := PieceMoves(board, cell.piece);
    }
  }

  /** The successors from the cells of row `r` in `get_all_moves`, left to right. */
  method RowMoves(board: Board, colour: Colour, r: int) returns (hs: seq<Grid>)
    requires board.Valid() && 0 <= r < Rows
    ensures hs == RowSuccessors(board.Cells(), colour, r, Cols)
  {
    ghost var g := board.Cells();
    hs := [];
    for c := 0 to Cols
      invariant board.Cells() == g
      invariant hs == RowSuccessors(g, colour, r, c)
    {
      hs := AppendCellMoves(board, colour, r, c, hs);
    }
  }

  /** One step of the row loop: the successors from cell `(r, c)` follow those from the cells before it. */
  method AppendCellMoves(board: Board, colour: Colour, r: int, c: int, hs: seq<Grid>) returns (hs': seq<Grid>)
    requires board.Valid() && 0 <= r < Rows && 0 <= c < Cols
    requires hs == RowSuccessors(board.Cells(), colour, r, c)
    ensures hs' == RowSuccessors(board.Cells(), colour, r, c + 1)
  {
    var found := CellMoves(board, colour, r, c);
    hs' := hs + found;
  }

  /**
   * `get_all_moves(board, colour)`: for each piece of `colour`, row by row,
   * and each of its moves, copy the board, move the copy's piece and remove
   * the captured piece from the copy.
   */
  method GetAllMoves(board: Board, colour: Colour) returns (moves: seq<Grid>)
    requires board.Valid()
    ensures moves == Successors(board.Cells(), colour)
  {
    ghost var g := board.Cells();
    moves := [];
    for r := 0 to Rows
      invariant board.Cells() == g
      invariant moves == SuccessorsUpTo(g, colour, r)
    {
      var found := RowMoves(board, colour, r);
      moves := moves + found;
    }
  }

  /** `get_all_moves` on a board holding `g`. */
  method MovesFrom(g: Grid, colour: Colour) returns (moves: seq<Grid>)
    requires Consistent(g)
    ensures moves == Successors(g, colour)
  {
    var position := new Board.FromGrid(g);
    moves := GetAllMoves(position, colour);
  }

  // ---------------------------------------------------------------------------
  // Scores with the two infinite sentinels
  // ---------------------------------------------------------------------------

  datatype Score = NegInf | Fin(value: int) | PosInf

  /** `a < b` on the extended integers. */
  predicate Below(a: Score, b: Score)
  {
    match a
    case NegInf => !b.NegInf?
    case Fin(x) => b.PosInf? || (b.Fin? && x < b.value)
    case PosInf => false
  }

  /** `max(a, b)` */
  function MaxScore(a: Score, b: Score): (m: Score)
    ensures !Below(m, a) && !Below(m, b) && (m == a || m == b)
  {
    if Below(a, b) then b else a
  }

  /** `min(a, b)` */
  function MinScore(a: Score, b: Score): (m: Score)
    ensures !Below(a, m) && !Below(b, m) && (m == a || m == b)
  {
    if Below(b, a) then b else a
  }

  /** `x` cut to the window [alpha, beta]. */
  function Clamp(alpha: Score, beta: Score, x: Score): Score
  {
    MaxScore(alpha, MinScore(beta, x))
  }

  /** The side to move: WHITE when maximising. */
  function Mover(maxPlayer: bool): Colour
  {
    if maxPlayer then White else Black
  }

  /** The initial `max_eval` / `min_eval`. */
  function Sentinel(maxPlayer: bool): Score
  {
    if maxPlayer then NegInf else PosInf
  }

  /** `x` is strictly better than `y` for the side (`evaluation > max_eval`, `evaluation < min_eval`). */
  predicate Better(maxPlayer: bool, x: Score, y: Score)
  {
    if maxPlayer then Below(y, x) else Below(x, y)
  }

  /** The better of two scores for the side. */
  function Top(maxPlayer: bool, x: Score, y: Score): Score
  {
    if maxPlayer then MaxScore(x, y) else MinScore(x, y)
  }

  /** One iteration of the loop of `minimax` at index `i`, given the child's pruned score `e`. */
  lemma ScanStep(succs: seq<Grid>, i: int, d: nat, alpha: Score, beta: Score, maxPlayer: bool,
                 best: Score, move: Option<Grid>, e: Score)
    requires forall h :: h in succs ==> Consistent(h)
    requires 0 <= i < |succs| && e == Search(succs[i], d, alpha, beta, !maxPlayer).0
    ensures var best' := if Better(maxPlayer, e, best) then e else best;
      var move' := if Better(maxPlayer, e, best) then Some(succs[i]) else move;
      var alpha' := if maxPlayer then MaxScore(alpha, e) else alpha;
      var beta' := if maxPlayer then beta else MinScore(beta, e);
      Scan(succs[i..], d, alpha, beta, maxPlayer, best, move) ==
        if !Below(alpha', beta') then (best', move')
        else Scan(succs[i + 1..], d, alpha', beta', maxPlayer, best', move')
  {
    assert succs[i..][0] == succs[i] && succs[i..][1..] == succs[i + 1..];
  }

  // ---------------------------------------------------------------------------
  // `Agent.minimax`, as a function, and the unpruned reference
  // ---------------------------------------------------------------------------

  /**
   * `minimax(position, depth, alpha, beta, max_player)`: the score and the
   * successor chosen (the position itself at depth 0).
   */
  function Search(g: Grid, depth: nat, alpha: Score, beta: Score, maxPlayer: bool): (Score, Option<Grid>)
    requires Consistent(g)
    decreases depth, 1, 0
  {
    if depth == 0 then (Fin(Evaluation(g)), Some(g))
    else SearchAbove(g, depth, alpha, beta, maxPlayer)
  }

  /** Above depth 0, `minimax` scans the successors of the side to move from its worst score. */
  function SearchAbove(g: Grid, depth: nat, alpha: Score, beta: Score, maxPlayer: bool): (Score, Option<Grid>)
    requires Consistent(g) && depth > 0
    decreases depth, 0, 0
  {
    SuccessorsConsistent(g, Mover(maxPlayer));
    Scan(Successors(g, Mover(maxPlayer)), depth - 1, alpha, beta, maxPlayer, Sentinel(maxPlayer), None)
  }

  /**
   * The loop of `minimax` over the remaining successors: a successor replaces
   * the best so far only when strictly better; the window narrows; the loop
   * stops once `beta <= alpha`.
   */
  function Scan(succs: seq<Grid>, d: nat, alpha: Score, beta: Score, maxPlayer: bool,
                best: Score, move: Option<Grid>): (r: (Score, Option<Grid>))
    requires forall h :: h in succs ==> Consistent(h)
    ensures !Better(maxPlayer, best, r.0)
    decreases d, 2, |succs|
  {
    if succs == [] then (best, move)
    else
      var e := Search(succs[0], d, alpha, beta, !maxPlayer).0;
      var improved := Better(maxPlayer, e, best);
      var best' := if improved then e else best;
      var move' := if improved then Some(succs[0]) else move;
      var alpha' := if maxPlayer then MaxScore(alpha, e) else alpha;
      var beta' := if maxPlayer then beta else MinScore(beta, e);
      if !Below(alpha', beta') then (best', move')
      else Scan(succs[1..], d, alpha', beta', maxPlayer, best', move')
  }

  /** Plain minimax with the same tie-break and no pruning: the reference. */
  function Value(g: Grid, depth: nat, maxPlayer: bool): (Score, Option<Grid>)
    requires Consistent(g)
    decreases depth, 1, 0
  {
    if depth == 0 then (Fin(Evaluation(g)), Some(g))
    else ValueAbove(g, depth, maxPlayer)
  }

  /** Above depth 0, the reference scans every successor of the side to move. */
  function ValueAbove(g: Grid, depth: nat, maxPlayer: bool): (Score, Option<Grid>)
    requires Consistent(g) && depth > 0
    decreases depth, 0, 0
  {
    SuccessorsConsistent(g, Mover(maxPlayer));
    ScanAll(Successors(g, Mover(maxPlayer)), depth - 1, maxPlayer, Sentinel(maxPlayer), None)
  }

  function ScanAll(succs: seq<Grid>, d: nat, maxPlayer: bool, best: Score, move: Option<Grid>)
    : (r: (Score, Option<Grid>))
    requires forall h :: h in succs ==> Consistent(h)
    ensures !Better(maxPlayer, best, r.0)
    decreases d, 2, |succs|
  {
    if succs == [] then (best, move)
    else
      var e := Value(succs[0], d, !maxPlayer).0;
      if Better(maxPlayer, e, best) then ScanAll(succs[1..], d, maxPlayer, e, Some(succs[0]))
      else ScanAll(succs[1..], d, maxPlayer, best, move)
  }

  /** The score of a child, to the parent `maxPlayer`. */
  function ChildScore(h: Grid, d: nat, maxPlayer: bool): Score
    requires Consistent(h)
  {
    Value(h, d, !maxPlayer).0
  }

  /** Above depth 0 both searches scan the successors of the side to move, which are all consistent. */
  lemma SearchUnfold(g: Grid, depth: nat, alpha: Score, beta: Score, maxPlayer: bool)
    requires Consistent(g) && depth > 0
    ensures forall h :: h in Successors(g, Mover(maxPlayer)) ==> Consistent(h)
    ensures Search(g, depth, alpha, beta, maxPlayer) ==
      Scan(Successors(g, Mover(maxPlayer)), depth - 1, alpha, beta, maxPlayer, Sentinel(maxPlayer), None)
    ensures Value(g, depth, maxPlayer) ==
      ScanAll(Successors(g, Mover(maxPlayer)), depth - 1, maxPlayer, Sentinel(maxPlayer), None)
  {
    SuccessorsConsistent(g, Mover(maxPlayer));
  }

  // ---------------------------------------------------------------------------
  // Order facts about scores used by the pruning proof
  // ---------------------------------------------------------------------------

  lemma TopAssoc(maxPlayer: bool, a: Score, b: Score, c: Score)
    ensures Top(maxPlayer, Top(maxPlayer, a, b), c) == Top(maxPlayer, a, Top(maxPlayer, b, c))
  {
  }

  /** A cut-off in a MAX node: the child already reached `beta`. */
  lemma MaxCutoff(alpha: Score, beta: Score, b: Score, e: Score, v: Score, m: Score)
    requires Below(alpha, beta) && !Below(alpha, b)
    requires Clamp(alpha, beta, e) == Clamp(alpha, beta, v)
    requires !Below(MaxScore(alpha, e), beta)
    ensures Clamp(alpha, beta, MaxScore(b, e)) == Clamp(alpha, beta, MaxScore(MaxScore(b, v), m))
  {
  }

  /** No cut-off in a MAX node: the rest is searched with `alpha` raised to the child's score. */
  lemma MaxContinue(alpha: Score, beta: Score, b: Score, e: Score, v: Score, m: Score, r: Score)
    requires Below(alpha, beta) && !Below(alpha, b)
    requires Clamp(alpha, beta, e) == Clamp(alpha, beta, v)
    requires Below(MaxScore(alpha, e), beta)
    requires Clamp(MaxScore(alpha, e), beta, r) == Clamp(MaxScore(alpha, e), beta, MaxScore(MaxScore(b, e), m))
    requires !Below(r, MaxScore(b, e))
    ensures Clamp(alpha, beta, r) == Clamp(alpha, beta, MaxScore(MaxScore(b, v), m))
  {
  }

  /** A cut-off in a MIN node: the child already fell to `alpha`. */
  lemma MinCutoff(alpha: Score, beta: Score, b: Score, e: Score, v: Score, m: Score)
    requires Below(alpha, beta) && !Below(b, beta)
    requires Clamp(alpha, beta, e) == Clamp(alpha, beta, v)
    requires !Below(alpha, MinScore(beta, e))
    ensures Clamp(alpha, beta, MinScore(b, e)) == Clamp(alpha, beta, MinScore(MinScore(b, v), m))
  {
  }

  /** No cut-off in a MIN node: the rest is searched with `beta` lowered to the child's score. */
  lemma MinContinue(alpha: Score, beta: Score, b: Score, e: Score, v: Score, m: Score, r: Score)
    requires Below(alpha, beta) && !Below(b, beta)
    requires Clamp(alpha, beta, e) == Clamp(alpha, beta, v)
    requires Below(alpha, MinScore(beta, e))
    requires Clamp(alpha, MinScore(beta, e), r) == Clamp(alpha, MinScore(beta, e), MinScore(MinScore(b, e), m))
    requires !Below(MinScore(b, e), r)
    ensures Clamp(alpha, beta, r) == Clamp(alpha, beta, MinScore(MinScore(b, v), m))
  {
  }

  // ---------------------------------------------------------------------------
  // The reference search
  // ---------------------------------------------------------------------------

  /** The reference scan from any best-so-far is that best combined with the scan from the sentinel. */
  lemma {:induction false} ScanAllFrom(succs: seq<Grid>, d: nat, maxPlayer: bool, best: Score, move: Option<Grid>)
    requires forall h :: h in succs ==> Consistent(h)
    ensures ScanAll(succs, d, maxPlayer, best, move).0 ==
      Top(maxPlayer, best, ScanAll(succs, d, maxPlayer, Sentinel(maxPlayer), None).0)
  {
    if succs != [] {
      var e := Value(succs[0], d, !maxPlayer).0;
      var rest := succs[1..];
      var b1 := if Better(maxPlayer, e, best) then e else best;
      var m1 := if Better(maxPlayer, e, best) then Some(succs[0]) else move;
      var e0 := if Better(maxPlayer, e, Sentinel(maxPlayer)) then e else Sentinel(maxPlayer);
      var m0 := if Better(maxPlayer, e, Sentinel(maxPlayer)) then Some(succs[0]) else None;
      ScanAllFrom(rest, d, maxPlayer, b1, m1);
      ScanAllFrom(rest, d, maxPlayer, e0, m0);
      TopAssoc(maxPlayer, best, e, ScanAll(rest, d, maxPlayer, Sentinel(maxPlayer), None).0);
    }
  }

  /** Once the best so far is the best possible score, nothing replaces it. */
  lemma {:induction false} ScanAllSaturated(succs: seq<Grid>, d: nat, maxPlayer: bool, move: Option<Grid>)
    requires forall h :: h in succs ==> Consistent(h)
    ensures ScanAll(succs, d, maxPlayer, Sentinel(!maxPlayer), move) == (Sentinel(!maxPlayer), move)
  {
    if succs != [] {
      ScanAllSaturated(succs[1..], d, maxPlayer, move);
    }
  }

  // ---------------------------------------------------------------------------
  // Alpha-beta returns the minimax value within the window
  // ---------------------------------------------------------------------------

  /**
   * Fail-soft alpha-beta: for a non-empty window, the pruned score and the
   * minimax value agree once cut to the window.  Below `alpha` or above `beta`
   * the pruned score is only a bound, inside it is exact.
   */
  lemma {:induction false} SearchWindow(g: Grid, depth: nat, alpha: Score, beta: Score, maxPlayer: bool)
    requires Consistent(g) && Below(alpha, beta)
    ensures Clamp(alpha, beta, Search(g, depth, alpha, beta, maxPlayer).0) ==
      Clamp(alpha, beta, Value(g, depth, maxPlayer).0)
    decreases depth, 0, 0
  {
    if depth > 0 {
      SearchUnfold(g, depth, alpha, beta, maxPlayer);
      ScanWindow(Successors(g, Mover(maxPlayer)), depth - 1, alpha, beta, maxPlayer, Sentinel(maxPlayer), None);
    }
  }

  lemma {:induction false} ScanWindow(succs: seq<Grid>, d: nat, alpha: Score, beta: Score, maxPlayer: bool,
                                      best: Score, move: Option<Grid>)
    requires forall h :: h in succs ==> Consistent(h)
    requires Below(alpha, beta)
    requires maxPlayer ==> !Below(alpha, best)
    requires !maxPlayer ==> !Below(best, beta)
    ensures Clamp(alpha, beta, Scan(succs, d, alpha, beta, maxPlayer, best, move).0) ==
      Clamp(alpha, beta, ScanAll(succs, d, maxPlayer, best, move).0)
    decreases d, 1, |succs|
  {
    if succs != [] {
      var e := Search(succs[0], d, alpha, beta, !maxPlayer).0;
      var best' := if Better(maxPlayer, e, best) then e else best;
      var move' := if Better(maxPlayer, e, best) then Some(succs[0]) else move;
      var alpha' := if maxPlayer then MaxScore(alpha, e) else alpha;
      var beta' := if maxPlayer then beta else MinScore(beta, e);
      SearchWindow(succs[0], d, alpha, beta, !maxPlayer);
      if Below(alpha', beta') {
        ScanWindow(succs[1..], d, alpha', beta', maxPlayer, best', move');
      }
      ScanWindowStep(succs, d, alpha, beta, maxPlayer, best, move);
    }
  }

  /**
   * One step of `ScanWindow`: from the window fact for the first successor
   * and, when the window stays open, for the rest, the fact for the whole.
   */
  lemma ScanWindowStep(succs: seq<Grid>, d: nat, alpha: Score, beta: Score, maxPlayer: bool,
                       best: Score, move: Option<Grid>)
    requires forall h :: h in succs ==> Consistent(h)
    requires succs != [] && Below(alpha, beta)
    requires maxPlayer ==> !Below(alpha, best)
    requires !maxPlayer ==> !Below(best, beta)
    requires Clamp(alpha, beta, Search(succs[0], d, alpha, beta, !maxPlayer).0) ==
      Clamp(alpha, beta, Value(succs[0], d, !maxPlayer).0)
    requires var e := Search(succs[0], d, alpha, beta, !maxPlayer).0;
      var best' := if Better(maxPlayer, e, best) then e else best;
      var move' := if Better(maxPlayer, e, best) then Some(succs[0]) else move;
      var alpha' := if maxPlayer then MaxScore(alpha, e) else alpha;
      var beta' := if maxPlayer then beta else MinScore(beta, e);
      Below(alpha', beta') ==>
        Clamp(alpha', beta', Scan(succs[1..], d, alpha', beta', maxPlayer, best', move').0) ==
        Clamp(alpha', beta', ScanAll(succs[1..], d, maxPlayer, best', move').0)
    ensures Clamp(alpha, beta, Scan(succs, d, alpha, beta, maxPlayer, best, move).0) ==
      Clamp(alpha, beta, ScanAll(succs, d, maxPlayer, best, move).0)
  {
    var rest := succs[1..];
    var e := Search(succs[0], d, alpha, beta, !maxPlayer).0;
    var v := Value(succs[0], d, !maxPlayer).0;
    var bestV := if Better(maxPlayer, v, best) then v else best;
    var moveV := if Better(maxPlayer, v, best) then Some(succs[0]) else move;
    var best' := if Better(maxPlayer, e, best) then e else best;
    var move' := if Better(maxPlayer, e, best) then Some(succs[0]) else move;
    var m := ScanAll(rest, d, maxPlayer, Sentinel(maxPlayer), None).0;
    ScanAllFrom(rest, d, maxPlayer, bestV, moveV);
    ScanAllFrom(rest, d, maxPlayer, best', move');
    if maxPlayer {
      var alpha' := MaxScore(alpha, e);
      if !Below(alpha', beta) {
        MaxCutoff(alpha, beta, best, e, v, m);
      } else {
        MaxContinue(alpha, beta, best, e, v, m, Scan(rest, d, alpha', beta, maxPlayer, best', move').0);
      }
    } else {
      var beta' := MinScore(beta, e);
      if !Below(alpha, beta') {
        MinCutoff(alpha, beta, best, e, v, m);
      } else {
        MinContinue(alpha, beta, best, e, v, m, Scan(rest, d, alpha, beta', maxPlayer, best', move').0);
      }
    }
  }

  // ---------------------------------------------------------------------------
  // With the full window, pruning changes neither the score nor the move
  // ---------------------------------------------------------------------------

  /** At the root the window is (best so far, beta): a child beats the best exactly when its value does, and then scores its value. */
  lemma RootStep(maxPlayer: bool, best: Score, e: Score, v: Score)
    requires maxPlayer ==> Clamp(best, PosInf, e) == Clamp(best, PosInf, v)
    requires !maxPlayer ==> Clamp(NegInf, best, e) == Clamp(NegInf, best, v)
    ensures Better(maxPlayer, e, best) <==> Better(maxPlayer, v, best)
    ensures Better(maxPlayer, e, best) ==> e == v
  {
  }

  lemma {:induction false} ScanRoot(succs: seq<Grid>, d: nat, maxPlayer: bool, best: Score, move: Option<Grid>)
    requires forall h :: h in succs ==> Consistent(h)
    requires best != Sentinel(!maxPlayer)
    ensures Scan(succs, d, if maxPlayer then best else NegInf, if maxPlayer then PosInf else best,
                 maxPlayer, best, move) ==
      ScanAll(succs, d, maxPlayer, best, move)
    decreases |succs|
  {
    if succs != [] {
      var alpha := if maxPlayer then best else NegInf;
      var beta := if maxPlayer then PosInf else best;
      var rest := succs[1..];
      var e := Search(succs[0], d, alpha, beta, !maxPlayer).0;
      var v := Value(succs[0], d, !maxPlayer).0;
      SearchWindow(succs[0], d, alpha, beta, !maxPlayer);
      RootStep(maxPlayer, best, e, v);
      if Better(maxPlayer, e, best) {
        if e == Sentinel(!maxPlayer) {
          ScanAllSaturated(rest, d, maxPlayer, Some(succs[0]));
        } else {
          ScanRoot(rest, d, maxPlayer, e, Some(succs[0]));
        }
      } else {
        ScanRoot(rest, d, maxPlayer, best, move);
      }
    }
  }

  /** Above depth 0 the search is the scan of the successors of the side to move. */
  lemma SearchStep(g: Grid, depth: nat, alpha: Score, beta: Score, maxPlayer: bool,
                   moves: seq<Grid>, score: Score, bestMove: Option<Grid>)
    requires Consistent(g) && depth > 0 && moves == Successors(g, Mover(maxPlayer))
    requires forall h :: h in moves ==> Consistent(h)
    requires (score, bestMove) == Scan(moves, depth - 1, alpha, beta, maxPlayer, Sentinel(maxPlayer), None)
    ensures (score, bestMove) == Search(g, depth, alpha, beta, maxPlayer)
  {
    SearchUnfold(g, depth, alpha, beta, maxPlayer);
  }

  /**
   * `minimax(position, depth, float('-inf'), float('inf'), max_player)`
   * returns exactly the plain minimax score and the same best move: pruning
   * only skips successors that cannot change the result.
   */
  lemma SearchRoot(g: Grid, depth: nat, maxPlayer: bool)
    requires Consistent(g)
    ensures Search(g, depth, NegInf, PosInf, maxPlayer) == Value(g, depth, maxPlayer)
  {
    if depth > 0 {
      SearchUnfold(g, depth, NegInf, PosInf, maxPlayer);
      ScanRoot(Successors(g, Mover(maxPlayer)), depth - 1, maxPlayer, Sentinel(maxPlayer), None);
    }
  }

  // ---------------------------------------------------------------------------
  // What the chosen move is
  // ---------------------------------------------------------------------------

  /** The reference scan ends with a score that no successor beats. */
  lemma {:induction false} ScanAllBound(succs: seq<Grid>, d: nat, maxPlayer: bool, best: Score, move: Option<Grid>)
    requires forall h :: h in succs ==> Consistent(h)
    ensures var r := ScanAll(succs, d, maxPlayer, best, move);
      forall i :: 0 <= i < |succs| ==> !Better(maxPlayer, ChildScore(succs[i], d, maxPlayer), r.0)
  {
    if succs != [] {
      var rest := succs[1..];
      var e := ChildScore(succs[0], d, maxPlayer);
      var b1 := if Better(maxPlayer, e, best) then e else best;
      var m1 := if Better(maxPlayer, e, best) then Some(succs[0]) else move;
      ScanAllBound(rest, d, maxPlayer, b1, m1);
      var r := ScanAll(rest, d, maxPlayer, b1, m1);
      assert ScanAll(succs, d, maxPlayer, best, move) == r;
      forall i | 0 <= i < |succs|
        ensures !Better(maxPlayer, ChildScore(succs[i], d, maxPlayer), r.0)
      {
        if i > 0 {
          assert succs[i] == rest[i - 1];
        }
      }
    }
  }

  /** When no successor beats the initial best, the reference scan keeps the initial best and move. */
  lemma {:induction false} ScanAllKeeps(succs: seq<Grid>, d: nat, maxPlayer: bool, best: Score, move: Option<Grid>)
    requires forall h :: h in succs ==> Consistent(h)
    requires forall i :: 0 <= i < |succs| ==> !Better(maxPlayer, ChildScore(succs[i], d, maxPlayer), best)
    ensures ScanAll(succs, d, maxPlayer, best, move) == (best, move)
  {
    if succs != [] {
      var rest := succs[1..];
      forall i | 0 <= i < |rest|
        ensures !Better(maxPlayer, ChildScore(rest[i], d, maxPlayer), best)
      {
        assert rest[i] == succs[i + 1];
      }
      ScanAllKeeps(rest, d, maxPlayer, best, move);
    }
  }

  /** The first of `succs` that attains `v`. */
  ghost predicate FirstAttaining(succs: seq<Grid>, d: nat, maxPlayer: bool, k: int, v: Score)
    requires forall h :: h in succs ==> Consistent(h)
  {
    0 <= k < |succs| && ChildScore(succs[k], d, maxPlayer) == v &&
    forall j :: 0 <= j < k ==> ChildScore(succs[j], d, maxPlayer) != v
  }

  lemma FirstAttainingShift(succs: seq<Grid>, d: nat, maxPlayer: bool, k: int, v: Score)
    requires forall h :: h in succs ==> Consistent(h)
    requires succs != [] && ChildScore(succs[0], d, maxPlayer) != v
    requires FirstAttaining(succs[1..], d, maxPlayer, k, v)
    ensures FirstAttaining(succs, d, maxPlayer, k + 1, v) && succs[k + 1] == succs[1..][k]
  {
    var rest := succs[1..];
    forall j | 0 <= j < k + 1
      ensures ChildScore(succs[j], d, maxPlayer) != v
    {
      if j > 0 {
        assert succs[j] == rest[j - 1];
      }
    }
  }

  /**
   * When some successor beats the initial best, the reference scan ends with
   * a better score and picks the first successor that attains it.
   */
  lemma {:induction false} ScanAllPicks(succs: seq<Grid>, d: nat, maxPlayer: bool, best: Score, move: Option<Grid>, i: int)
    requires forall h :: h in succs ==> Consistent(h)
    requires 0 <= i < |succs| && Better(maxPlayer, ChildScore(succs[i], d, maxPlayer), best)
    ensures var r := ScanAll(succs, d, maxPlayer, best, move);
      Better(maxPlayer, r.0, best) &&
      exists k :: FirstAttaining(succs, d, maxPlayer, k, r.0) && r.1 == Some(succs[k])
  {
    var rest := succs[1..];
    var e := ChildScore(succs[0], d, maxPlayer);
    var r := ScanAll(succs, d, maxPlayer, best, move);
    if Better(maxPlayer, e, best) {
      assert r == ScanAll(rest, d, maxPlayer, e, Some(succs[0]));
      if i' :| 0 <= i' < |rest| && Better(maxPlayer, ChildScore(rest[i'], d, maxPlayer), e) {
        ScanAllPicks(rest, d, maxPlayer, e, Some(succs[0]), i');
        var k :| FirstAttaining(rest, d, maxPlayer, k, r.0) && r.1 == Some(rest[k]);
        FirstAttainingShift(succs, d, maxPlayer, k, r.0);
      } else {
        ScanAllKeeps(rest, d, maxPlayer, e, Some(succs[0]));
        assert FirstAttaining(succs, d, maxPlayer, 0, r.0);
      }
    } else {
      assert r == ScanAll(rest, d, maxPlayer, best, move);
      assert rest[i - 1] == succs[i];
      ScanAllPicks(rest, d, maxPlayer, best, move, i - 1);
      var k :| FirstAttaining(rest, d, maxPlayer, k, r.0) && r.1 == Some(rest[k]);
      FirstAttainingShift(succs, d, maxPlayer, k, r.0);
    }
  }

  /**
   * The minimax value of a position searched to a positive depth is one that
   * no successor beats for the side to move.
   */
  lemma MinimaxBound(g: Grid, depth: nat, maxPlayer: bool)
    requires Consistent(g) && depth > 0
    ensures var succs := Successors(g, Mover(maxPlayer));
      (forall h :: h in succs ==> Consistent(h)) &&
      forall i :: 0 <= i < |succs| ==>
        !Better(maxPlayer, ChildScore(succs[i], depth - 1, maxPlayer), Value(g, depth, maxPlayer).0)
  {
    SearchUnfold(g, depth, NegInf, PosInf, maxPlayer);
    ScanAllBound(Successors(g, Mover(maxPlayer)), depth - 1, maxPlayer, Sentinel(maxPlayer), None);
  }

  /**
   * The reference scan from the side's worst score picks no successor exactly
   * when every successor scores that worst, and the score is then that
   * worst; otherwise it picks the first successor attaining the score.
   */
  lemma ScanAllChoice(succs: seq<Grid>, d: nat, maxPlayer: bool)
    requires forall h :: h in succs ==> Consistent(h)
    ensures var r := ScanAll(succs, d, maxPlayer, Sentinel(maxPlayer), None);
      (r.1.None? <==> forall i :: 0 <= i < |succs| ==> ChildScore(succs[i], d, maxPlayer) == Sentinel(maxPlayer)) &&
      (r.1.None? ==> r.0 == Sentinel(maxPlayer)) &&
      (r.1.Some? ==> exists k :: FirstAttaining(succs, d, maxPlayer, k, r.0) && r.1 == Some(succs[k]))
  {
    var r := ScanAll(succs, d, maxPlayer, Sentinel(maxPlayer), None);
    if i :| 0 <= i < |succs| && Better(maxPlayer, ChildScore(succs[i], d, maxPlayer), Sentinel(maxPlayer)) {
      ScanAllPicks(succs, d, maxPlayer, Sentinel(maxPlayer), None, i);
      assert r.1.Some? && ChildScore(succs[i], d, maxPlayer) != Sentinel(maxPlayer);
    } else {
      ScanAllKeeps(succs, d, maxPlayer, Sentinel(maxPlayer), None);
      assert r == (Sentinel(maxPlayer), None);
    }
  }

  /**
   * The best move of a position searched to a positive depth is `None`
   * exactly when every successor scores the side's worst (the initial
   * `max_eval` or `min_eval`), in particular when there is no successor, and
   * the score is then that worst; otherwise it is the first successor, in
   * `get_all_moves` order, that attains the score.
   */
  lemma MinimaxBestMove(g: Grid, depth: nat, maxPlayer: bool)
    requires Consistent(g) && depth > 0
    ensures var succs := Successors(g, Mover(maxPlayer));
      var r := Value(g, depth, maxPlayer);
      (forall h :: h in succs ==> Consistent(h)) &&
      (r.1.None? <==> forall i :: 0 <= i < |succs| ==> ChildScore(succs[i], depth - 1, maxPlayer) == Sentinel(maxPlayer)) &&
      (r.1.None? ==> r.0 == Sentinel(maxPlayer)) &&
      (r.1.Some? ==> exists k :: FirstAttaining(succs, depth - 1, maxPlayer, k, r.0) && r.1 == Some(succs[k]))
  {
    SearchUnfold(g, depth, NegInf, PosInf, maxPlayer);
    ScanAllChoice(Successors(g, Mover(maxPlayer)), depth - 1, maxPlayer);
  }

  /** A side that cannot move scores its worst and has no best move. */
  lemma NoMoveLoses(g: Grid, depth: nat, maxPlayer: bool)
    requires Consistent(g) && depth > 0 && !CanMove(g, Mover(maxPlayer))
    ensures Value(g, depth, maxPlayer) == (Sentinel(maxPlayer), None)
    ensures Search(g, depth, NegInf, PosInf, maxPlayer) == (Sentinel(maxPlayer), None)
  {
    SuccessorsEmptyIff(g, Mover(maxPlayer));
    SearchUnfold(g, depth, NegInf, PosInf, maxPlayer);
  }

  // ---------------------------------------------------------------------------
  // `Agent.minimax`
  // ---------------------------------------------------------------------------

  /**
   * `minimax(position, depth, alpha, beta, max_player)`: the evaluation at
   * depth 0, otherwise the scan of the successors of the side to move.
   * Called with the full window it returns the plain minimax result.
   */
  method Minimax(g: Grid, depth: nat, alpha: Score, beta: Score, maxPlayer: bool)
    returns (score: Score, bestMove: Option<Grid>)
    requires Consistent(g)
    ensures (score, bestMove) == Search(g, depth, alpha, beta, maxPlayer)
    ensures alpha == NegInf && beta == PosInf ==> (score, bestMove) == Value(g, depth, maxPlayer)
    decreases depth, 0
  {
    if depth == 0 {
      var evaluation := Evaluate(g);
      score, bestMove := Fin(evaluation), Some(g);
    } else {
      var moves := MovesFrom(g, Mover(maxPlayer));
      SuccessorsConsistent(g, Mover(maxPlayer));
      if maxPlayer {
        score, bestMove := MaxScan(moves, depth - 1, alpha, beta);
      } else {
        score, bestMove := MinScan(moves, depth - 1, alpha, beta);
      }
      SearchStep(g, depth, alpha, beta, maxPlayer, moves, score, bestMove);
    }
    if alpha == NegInf && beta == PosInf {
      SearchRoot(g, depth, maxPlayer);
    }
  }

  /**
   * The MAX branch of `minimax`: keep the first strictly greater evaluation,
   * raise `alpha`, stop once `beta <= alpha`.
   */
  method MaxScan(moves: seq<Grid>, d: nat, alpha: Score, beta: Score)
    returns (maxEval: Score, bestMove: Option<Grid>)
    requires forall h :: h in moves ==> Consistent(h)
    ensures (maxEval, bestMove) == Scan(moves, d, alpha, beta, true, NegInf, None)
    decreases d, 1
  {
    var a := alpha;
    maxEval := NegInf;
    bestMove := None;
    var i := 0;
    while i < |moves|
      invariant 0 <= i <= |moves|
      invariant Scan(moves[i..], d, a, beta, true, maxEval, bestMove) == Scan(moves, d, alpha, beta, true, NegInf, None)
    {
      var evaluation, _ := Minimax(moves[i], d, a, beta, false);
      ScanStep(moves, i, d, a, beta, true, maxEval, bestMove, evaluation);
      if Below(maxEval, evaluation) {
        maxEval, bestMove := evaluation, Some(moves[i]);
      }
      a := MaxScore(a, evaluation);
      if !Below(a, beta) {
        return;
      }
      i := i + 1;
    }
    assert moves[i..] == [];
  }

  /**
   * The MIN branch of `minimax`: keep the first strictly smaller evaluation,
   * lower `beta`, stop once `beta <= alpha`.
   */
  method MinScan(moves: seq<Grid>, d: nat, alpha: Score, beta: Score)
    returns (minEval: Score, bestMove: Option<Grid>)
    requires forall h :: h in moves ==> Consistent(h)
    ensures (minEval, bestMove) == Scan(moves, d, alpha, beta, false, PosInf, None)
    decreases d, 1
  {
    var b := beta;
    minEval := PosInf;
    bestMove := None;
    var i := 0;
    while i < |moves|
      invariant 0 <= i <= |moves|
      invariant Scan(moves[i..], d, alpha, b, false, minEval, bestMove) == Scan(moves, d, alpha, beta, false, PosInf, None)
    {
      var evaluation, _ := Minimax(moves[i], d, alpha, b, true);
      ScanStep(moves, i, d, alpha, b, false, minEval, bestMove, evaluation);
      if Below(evaluation, minEval) {
        minEval, bestMove := evaluation, Some(moves[i]);
      }
      b := MinScore(b, evaluation);
      if !Below(alpha, b) {
        return;
      }
      i := i + 1;
    }
    assert moves[i..] == [];
  }
}
