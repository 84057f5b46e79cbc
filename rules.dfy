/**
 * The rules of the game on board values: the 8x8 grid of cells, the moves a
 * piece may make (`Board.get_valid_moves`), and what `Board.move` and
 * `Board.remove` do to a grid (project.py).  The class in board.dfy changes a
 * grid in place and is specified by the functions here; the search works on
 * these values directly.
 */
module Rules {
  import opened Wrappers
  import opened Elements

  const Rows: int := 8
  const Cols: int := 8

  /** WHITE is the human player at the bottom, BLACK the search agent at the top. */
  datatype Colour = White | Black

  function Opponent(c: Colour): Colour
  {
    if c == White then Black else White
  }

  /** A piece; `row` and `col` repeat the cell that holds it. */
  datatype Piece = Piece(row: int, col: int, colour: Colour, element: Element, king: bool)

  /** A cell is empty (the source's `0`) or holds a piece. */
  datatype Cell = Empty | Occupied(piece: Piece)

  datatype Pos = Pos(row: int, col: int)

  /**
   * One entry of the dictionary returned by `get_valid_moves`: a destination
   * and the position of the piece it jumps over, if any.
   */
  datatype Step = Step(dest: Pos, captured: Option<Pos>)

  /** Row-major grid, rows 0 (top) to 7 (bottom). */
  type Grid = seq<seq<Cell>>

  predicate InBounds(r: int, c: int)
  {
    0 <= r < Rows && 0 <= c < Cols
  }

  predicate IsGrid(g: Grid)
  {
    |g| == Rows && forall r :: 0 <= r < Rows ==> |g[r]| == Cols
  }

  /** Every piece records the cell that holds it. */
  ghost predicate Consistent(g: Grid)
  {
    IsGrid(g) &&
    forall r, c :: InBounds(r, c) && g[r][c].Occupied? ==>
      g[r][c].piece.row == r && g[r][c].piece.col == c
  }

  /** Only the dark squares, where row + col is odd, are occupied. */
  ghost predicate DarkOnly(g: Grid)
    requires IsGrid(g)
  {
    forall r, c :: InBounds(r, c) && g[r][c].Occupied? ==> (r + c) % 2 == 1
  }

  /** `g` has `colour`'s piece at `q`. */
  predicate Owns(g: Grid, q: Pos, colour: Colour)
    requires IsGrid(g)
  {
    InBounds(q.row, q.col) && g[q.row][q.col].Occupied? &&
    g[q.row][q.col].piece.colour == colour
  }

  /** Two grids with the same cells are the same grid. */
  lemma GridExt(g: Grid, h: Grid)
    requires IsGrid(g) && IsGrid(h)
    requires forall r, c :: InBounds(r, c) ==> g[r][c] == h[r][c]
    ensures g == h
  {
    forall r | 0 <= r < Rows
      ensures g[r] == h[r]
    {
      assert forall c :: 0 <= c < Cols ==> g[r][c] == h[r][c];
    }
  }

  // ---------------------------------------------------------------------------
  // Initial layout (`Board.create_board`)
  // ---------------------------------------------------------------------------

  /**
   * The source draws one random element per piece, row by row; the draws are
   * a parameter here.  `DrawIndex` is the number of pieces placed before the
   * dark square (r, c): four per row in rows 0-2, then four per row in 5-7.
   */
  function DrawIndex(r: int, c: int): int
  {
    if r < 3 then 4 * r + c / 2 else 12 + 4 * (r - 5) + c / 2
  }

  function InitialCell(draws: seq<Element>, r: int, c: int): Cell
    requires |draws| == 24 && InBounds(r, c)
  {
    if (r + c) % 2 != 0 then
      if r < 3 then Occupied(Piece(r, c, Black, draws[DrawIndex(r, c)], false))
      else if r > 4 then Occupied(Piece(r, c, White, draws[DrawIndex(r, c)], false))
      else Empty
    else Empty
  }

  function InitialGrid(draws: seq<Element>): (g: Grid)
    requires |draws| == 24
    ensures IsGrid(g)
    ensures forall r, c :: InBounds(r, c) ==> g[r][c] == InitialCell(draws, r, c)
  {
    seq(Rows, (r: int) requires 0 <= r < Rows =>
      seq(Cols, (c: int) requires 0 <= c < Cols => InitialCell(draws, r, c)))
  }

  /**
   * The opening position: BLACK on the dark squares of rows 0-2, WHITE on
   * those of rows 5-7, rows 3 and 4 empty, no kings, each piece with its own
   * draw.
   */
  lemma InitialLayout(draws: seq<Element>)
    requires |draws| == 24
    ensures Consistent(InitialGrid(draws)) && DarkOnly(InitialGrid(draws))
    ensures forall r, c :: InBounds(r, c) ==>
      var cell := InitialGrid(draws)[r][c];
      (cell.Occupied? <==> (r + c) % 2 == 1 && (r < 3 || r > 4)) &&
      (cell.Occupied? ==> !cell.piece.king &&
                          (cell.piece.colour == Black <==> r < 3) &&
                          cell.piece.element == draws[DrawIndex(r, c)])
  {
    var g: Grid := InitialGrid(draws);
    forall r: int, c: int | InBounds(r, c) && g[r][c].Occupied?
      ensures g[r][c].piece.row == r && g[r][c].piece.col == c && (r + c) % 2 == 1
    {
    }
  }

  /** The 24 starting squares take the 24 draws, each its own, in row-major order. */
  lemma DrawIndexDistinct(r1: int, c1: int, r2: int, c2: int)
    requires InBounds(r1, c1) && InBounds(r2, c2) && (r1 + c1) % 2 == 1 && (r2 + c2) % 2 == 1
    requires (r1 < 3 || r1 > 4) && (r2 < 3 || r2 > 4)
    ensures 0 <= DrawIndex(r1, c1) < 24
    ensures r1 < r2 || (r1 == r2 && c1 < c2) ==> DrawIndex(r1, c1) < DrawIndex(r2, c2)
  {
    assert 0 <= c1 / 2 <= 3 && 0 <= c2 / 2 <= 3;
    if r1 == r2 && c1 < c2 {
      assert c1 + 2 <= c2 by {
        assert (c2 - c1) % 2 == 0;
      }
    }
  }

  // ---------------------------------------------------------------------------
  // Move generation (`Board.get_valid_moves`)
  // ---------------------------------------------------------------------------

  /** The source's direction list, in its order. */
  const AllDirections: seq<(int, int)> := [(-1, -1), (-1, 1), (1, -1), (1, 1)]

  /** The first two directions for a WHITE man, the last two for a BLACK man, all four for a king. */
  function Directions(p: Piece): seq<(int, int)>
  {
    if p.king then AllDirections
    else if p.colour == White then AllDirections[..2]
    else AllDirections[2..]
  }

  /** A man moves only toward the opponent's side (WHITE up, BLACK down); a king moves along all four diagonals. */
  lemma DirectionsMember(p: Piece, d: (int, int))
    ensures d in Directions(p) <==>
      d in AllDirections &&
      (p.king || (p.colour == White && d.0 == -1) || (p.colour == Black && d.0 == 1))
  {
    assert AllDirections[..2] == [(-1, -1), (-1, 1)];
    assert AllDirections[2..] == [(1, -1), (1, 1)];
  }

  /** The four directions, spelled out. */
  lemma AllDirectionsCases(d: (int, int))
    requires d in AllDirections
    ensures d == (-1, -1) || d == (-1, 1) || d == (1, -1) || d == (1, 1)
  {
  }

  /** The piece on the adjacent cell in direction `d` may be jumped. */
  predicate CanCapture(g: Grid, p: Piece, d: (int, int))
    requires IsGrid(g)
  {
    var x, y := p.row + d.0, p.col + d.1;
    InBounds(x, y) && g[x][y].Occupied? && g[x][y].piece.colour != p.colour &&
    Advantage(p.element, g[x][y].piece.element) >= 0 &&
    InBounds(x + d.0, y + d.1) && g[x + d.0][y + d.1].Empty?
  }

  predicate StepInBounds(s: Step)
  {
    InBounds(s.dest.row, s.dest.col) &&
    (s.captured.Some? ==> InBounds(s.captured.value.row, s.captured.value.col))
  }

  /** What one direction contributes to the dictionary, if anything. */
  function DirectionStep(g: Grid, p: Piece, d: (int, int)): (r: Option<Step>)
    requires IsGrid(g)
    ensures r.Some? ==> StepInBounds(r.value)
  {
    var x, y := p.row + d.0, p.col + d.1;
    if !InBounds(x, y) then None
    else match g[x][y]
      case Empty => Some(Step(Pos(x, y), None))
      case Occupied(target) =>
        if target.colour != p.colour && Advantage(p.element, target.element) >= 0 then
          var jx, jy := x + d.0, y + d.1;
          if InBounds(jx, jy) && g[jx][jy].Empty? then Some(Step(Pos(jx, jy), Some(Pos(x, y))))
          else None
        else None
  }

  /** The entries contributed by the directions `ds`, in order. */
  function StepsAlong(g: Grid, p: Piece, ds: seq<(int, int)>): (steps: seq<Step>)
    requires IsGrid(g)
    ensures |steps| <= |ds|
    ensures forall s :: s in steps ==> StepInBounds(s)
    decreases |ds|
  {
    if ds == [] then []
    else
      var last := DirectionStep(g, p, ds[|ds| - 1]);
      StepsAlong(g, p, ds[..|ds| - 1]) + (if last.Some? then [last.value] else [])
  }

  /** Extending the directions by one appends what the new direction contributes. */
  lemma StepsAlongSnoc(g: Grid, p: Piece, ds: seq<(int, int)>, i: int)
    requires IsGrid(g) && 0 <= i < |ds|
    ensures var found := DirectionStep(g, p, ds[i]);
      StepsAlong(g, p, ds[..i + 1]) ==
        StepsAlong(g, p, ds[..i]) + (if found.Some? then [found.value] else [])
  {
    assert ds[..i + 1][..i] == ds[..i];
  }

  /** `get_valid_moves(piece)`, as the list of its dictionary's items in insertion order. */
  function ValidMoves(g: Grid, p: Piece): seq<Step>
    requires IsGrid(g)
  {
    StepsAlong(g, p, Directions(p))
  }

  /** An entry of `StepsAlong` is exactly what one of the directions contributes. */
  lemma {:induction false} StepsAlongMember(g: Grid, p: Piece, ds: seq<(int, int)>, s: Step)
    requires IsGrid(g)
    ensures s in StepsAlong(g, p, ds) <==>
      exists i :: 0 <= i < |ds| && DirectionStep(g, p, ds[i]) == Some(s)
    decreases |ds|
  {
    if ds != [] {
      var init := ds[..|ds| - 1];
      StepsAlongMember(g, p, init, s);
      if s in StepsAlong(g, p, ds) && s !in StepsAlong(g, p, init) {
        assert DirectionStep(g, p, ds[|ds| - 1]) == Some(s);
      }
      if i :| 0 <= i < |ds| && DirectionStep(g, p, ds[i]) == Some(s) {
        if i < |ds| - 1 {
          assert init[i] == ds[i];
        }
      }
    }
  }

  /** The shape of an entry produced by direction `d`. */
  predicate StepAlong(g: Grid, p: Piece, d: (int, int), s: Step)
    requires IsGrid(g)
  {
    (s.captured.None? && s.dest == Pos(p.row + d.0, p.col + d.1)) ||
    (s.captured == Some(Pos(p.row + d.0, p.col + d.1)) &&
     s.dest == Pos(p.row + 2 * d.0, p.col + 2 * d.1) && CanCapture(g, p, d))
  }

  /** What a single direction contributes has the shape `StepAlong` describes, onto an empty cell. */
  lemma DirectionStepShape(g: Grid, p: Piece, d: (int, int), s: Step)
    requires IsGrid(g) && DirectionStep(g, p, d) == Some(s)
    ensures InBounds(s.dest.row, s.dest.col) && g[s.dest.row][s.dest.col].Empty?
    ensures StepAlong(g, p, d, s)
  {
  }

  /**
   * Every destination is on the board and empty, one diagonal step away along
   * one of the piece's directions or two steps away over a capturable piece;
   * a man only ever moves toward the opponent's side.
   */
  lemma ValidMovesSound(g: Grid, p: Piece, s: Step)
    requires IsGrid(g) && s in ValidMoves(g, p)
    ensures InBounds(s.dest.row, s.dest.col) && g[s.dest.row][s.dest.col].Empty?
    ensures exists d :: d in Directions(p) && StepAlong(g, p, d, s)
    ensures var dr, dc := s.dest.row - p.row, s.dest.col - p.col;
      (dr == dc || dr == -dc) && (dr == 1 || dr == -1 || dr == 2 || dr == -2) &&
      (s.captured.None? <==> (dr == 1 || dr == -1))
    ensures !p.king && p.colour == White ==> s.dest.row < p.row
    ensures !p.king && p.colour == Black ==> s.dest.row > p.row
  {
    var ds := Directions(p);
    StepsAlongMember(g, p, ds, s);
    var i :| 0 <= i < |ds| && DirectionStep(g, p, ds[i]) == Some(s);
    var d := ds[i];
    DirectionStepShape(g, p, d, s);
    assert d in ds;
    DirectionsMember(p, d);
    AllDirectionsCases(d);
  }

  /** A simple move along `d` is offered exactly when the adjacent cell is on the board and empty. */
  lemma SimpleMoveIff(g: Grid, p: Piece, d: (int, int))
    requires IsGrid(g) && d in Directions(p)
    ensures Step(Pos(p.row + d.0, p.col + d.1), None) in ValidMoves(g, p) <==>
      InBounds(p.row + d.0, p.col + d.1) && g[p.row + d.0][p.col + d.1].Empty?
  {
    var ds := Directions(p);
    var s := Step(Pos(p.row + d.0, p.col + d.1), None);
    var i :| 0 <= i < |ds| && ds[i] == d;
    StepsAlongMember(g, p, ds, s);
    if InBounds(p.row + d.0, p.col + d.1) && g[p.row + d.0][p.col + d.1].Empty? {
      assert DirectionStep(g, p, ds[i]) == Some(s);
    }
    if s in ValidMoves(g, p) {
      var j :| 0 <= j < |ds| && DirectionStep(g, p, ds[j]) == Some(s);
      DirectionStepShape(g, p, ds[j], s);
    }
  }

  /**
   * A capture along `d` is offered exactly when the adjacent cell holds an
   * opposing piece, the attacker does not lose the element match-up, and the
   * landing cell beyond is on the board and empty; the captured position is
   * that adjacent cell.
   */
  lemma CaptureIff(g: Grid, p: Piece, d: (int, int))
    requires IsGrid(g) && d in Directions(p)
    ensures (Step(Pos(p.row + 2 * d.0, p.col + 2 * d.1), Some(Pos(p.row + d.0, p.col + d.1)))
               in ValidMoves(g, p)) <==> CanCapture(g, p, d)
    ensures forall s :: s in ValidMoves(g, p) && s.captured == Some(Pos(p.row + d.0, p.col + d.1)) ==>
      s.dest == Pos(p.row + 2 * d.0, p.col + 2 * d.1)
  {
    var s := Step(Pos(p.row + 2 * d.0, p.col + 2 * d.1), Some(Pos(p.row + d.0, p.col + d.1)));
    if CanCapture(g, p, d) {
      CaptureOffered(g, p, d);
    }
    if s in ValidMoves(g, p) {
      CaptureShape(g, p, d, s);
    }
    forall t | t in ValidMoves(g, p) && t.captured == Some(Pos(p.row + d.0, p.col + d.1))
      ensures t.dest == Pos(p.row + 2 * d.0, p.col + 2 * d.1)
    {
      CaptureShape(g, p, d, t);
    }
  }

  lemma CaptureOffered(g: Grid, p: Piece, d: (int, int))
    requires IsGrid(g) && d in Directions(p) && CanCapture(g, p, d)
    ensures Step(Pos(p.row + 2 * d.0, p.col + 2 * d.1), Some(Pos(p.row + d.0, p.col + d.1))) in ValidMoves(g, p)
  {
    var ds := Directions(p);
    var s := Step(Pos(p.row + 2 * d.0, p.col + 2 * d.1), Some(Pos(p.row + d.0, p.col + d.1)));
    var i :| 0 <= i < |ds| && ds[i] == d;
    assert DirectionStep(g, p, ds[i]) == Some(s);
    StepsAlongMember(g, p, ds, s);
  }

  lemma CaptureShape(g: Grid, p: Piece, d: (int, int), t: Step)
    requires IsGrid(g) && t in ValidMoves(g, p) && t.captured == Some(Pos(p.row + d.0, p.col + d.1))
    ensures t.dest == Pos(p.row + 2 * d.0, p.col + 2 * d.1) && CanCapture(g, p, d)
  {
    var ds := Directions(p);
    StepsAlongMember(g, p, ds, t);
    var j :| 0 <= j < |ds| && DirectionStep(g, p, ds[j]) == Some(t);
    var e := ds[j];
    DirectionCapture(g, p, e, t);
    assert e.0 == d.0 && e.1 == d.1;
  }

  /** A capturing entry of one direction jumps the adjacent piece along that direction. */
  lemma DirectionCapture(g: Grid, p: Piece, e: (int, int), t: Step)
    requires IsGrid(g) && DirectionStep(g, p, e) == Some(t) && t.captured.Some?
    ensures t.captured == Some(Pos(p.row + e.0, p.col + e.1))
    ensures t.dest == Pos(p.row + 2 * e.0, p.col + 2 * e.1) && CanCapture(g, p, e)
  {
  }

  /** The destination lies one or two steps along `d`. */
  predicate DestAlong(p: Piece, d: (int, int), s: Step)
  {
    s.dest == Pos(p.row + d.0, p.col + d.1) || s.dest == Pos(p.row + 2 * d.0, p.col + 2 * d.1)
  }

  /** Two different diagonal directions never reach the same cell. */
  lemma DestsDiffer(p: Piece, d1: (int, int), d2: (int, int), s1: Step, s2: Step)
    requires d1 in AllDirections && d2 in AllDirections && d1 != d2
    requires DestAlong(p, d1, s1) && DestAlong(p, d2, s2)
    ensures s1.dest != s2.dest
  {
    AllDirectionsCases(d1);
    AllDirectionsCases(d2);
  }

  /** The directions in `ds` are distinct diagonal unit vectors. */
  predicate DistinctDirections(ds: seq<(int, int)>)
  {
    (forall i :: 0 <= i < |ds| ==> ds[i] in AllDirections) &&
    (forall i, j :: 0 <= i < j < |ds| ==> ds[i] != ds[j])
  }

  /** No destination appears twice, so building a dictionary from `steps` loses no entry. */
  predicate DistinctDests(steps: seq<Step>)
  {
    forall i, j :: 0 <= i < j < |steps| ==> steps[i].dest != steps[j].dest
  }

  lemma {:induction false} StepsAlongDistinct(g: Grid, p: Piece, ds: seq<(int, int)>)
    requires IsGrid(g) && DistinctDirections(ds)
    ensures DistinctDests(StepsAlong(g, p, ds))
    decreases |ds|
  {
    if ds != [] {
      var init := ds[..|ds| - 1];
      var d := ds[|ds| - 1];
      assert DistinctDirections(init);
      StepsAlongDistinct(g, p, init);
      var steps := StepsAlong(g, p, ds);
      var front := StepsAlong(g, p, init);
      var last := DirectionStep(g, p, d);
      if last.Some? {
        DirectionStepShape(g, p, d, last.value);
        forall i | 0 <= i < |front|
          ensures front[i].dest != last.value.dest
        {
          StepsAlongMember(g, p, init, front[i]);
          var k :| 0 <= k < |init| && DirectionStep(g, p, init[k]) == Some(front[i]);
          DirectionStepShape(g, p, init[k], front[i]);
          assert init[k] == ds[k];
          DestsDiffer(p, init[k], d, front[i], last.value);
        }
        assert steps == front + [last.value];
      } else {
        assert steps == front;
      }
    }
  }

  lemma ValidMovesDistinct(g: Grid, p: Piece)
    requires IsGrid(g)
    ensures DistinctDests(ValidMoves(g, p))
  {
    var ds := Directions(p);
    assert AllDirections[..2] == [(-1, -1), (-1, 1)];
    assert AllDirections[2..] == [(1, -1), (1, 1)];
    assert DistinctDirections(ds);
    StepsAlongDistinct(g, p, ds);
    assert ValidMoves(g, p) == StepsAlong(g, p, ds);
  }

  /** Some piece of `colour` has at least one entry in `get_valid_moves`. */
  ghost predicate CanMove(g: Grid, colour: Colour)
    requires IsGrid(g)
  {
    exists r, c :: Owns(g, Pos(r, c), colour) && ValidMoves(g, g[r][c].piece) != []
  }

  /** `(row, col) in valid_moves` and `valid_moves[(row, col)]`. */
  function Lookup(steps: seq<Step>, dest: Pos): (r: Option<Step>)
    ensures r.Some? <==> exists i :: 0 <= i < |steps| && steps[i].dest == dest
    ensures r.Some? ==> r.value in steps && r.value.dest == dest
  {
    if steps == [] then None
    else if steps[0].dest == dest then Some(steps[0])
    else
      var r := Lookup(steps[1..], dest);
      assert forall i :: 1 <= i < |steps| ==> steps[i] == steps[1..][i - 1];
      r
  }

  // ---------------------------------------------------------------------------
  // `Board.move`, `Piece.make_king` and `Board.remove` on values
  // ---------------------------------------------------------------------------

  /** The grid with cell `q` replaced. */
  function Put(g: Grid, q: Pos, x: Cell): (h: Grid)
    requires IsGrid(g) && InBounds(q.row, q.col)
    ensures IsGrid(h)
    ensures forall r, c :: InBounds(r, c) ==>
      h[r][c] == if r == q.row && c == q.col then x else g[r][c]
  {
    g[q.row := g[q.row][q.col := x]]
  }

  /** WHITE is crowned on row 0, BLACK on the last row. */
  predicate ReachesBackRank(colour: Colour, row: int)
  {
    (colour == White && row == 0) || (colour == Black && row == Rows - 1)
  }

  /** `Piece.make_king`. */
  function Crowned(p: Piece): (q: Piece)
    ensures q.king
    ensures q.row == p.row && q.col == p.col && q.colour == p.colour && q.element == p.element
  {
    p.(king := true)
  }

  /** The piece after `Board.move` has updated its coordinates and crowned it if due. */
  function Relocated(p: Piece, to: Pos): (q: Piece)
    ensures q.row == to.row && q.col == to.col
    ensures q.colour == p.colour && q.element == p.element
    ensures q.king <==> p.king || ReachesBackRank(p.colour, to.row)
  {
    var q := p.(row := to.row, col := to.col);
    if ReachesBackRank(p.colour, to.row) then Crowned(q) else q
  }

  /** `Board.move(piece, row, col)`: empty the old cell, then place the relocated piece. */
  function Moved(g: Grid, p: Piece, to: Pos): (h: Grid)
    requires IsGrid(g) && InBounds(p.row, p.col) && InBounds(to.row, to.col)
    ensures IsGrid(h)
  {
    Put(Put(g, Pos(p.row, p.col), Empty), to, Occupied(Relocated(p, to)))
  }

  /** `Board.remove(positions)`: the listed cells become empty. */
  function Cleared(g: Grid, ps: seq<Pos>): (h: Grid)
    requires IsGrid(g)
    ensures IsGrid(h)
  {
    seq(Rows, (r: int) requires 0 <= r < Rows =>
      seq(Cols, (c: int) requires 0 <= c < Cols => if Pos(r, c) in ps then Empty else g[r][c]))
  }

  /** The board after one entry of `get_valid_moves` is played: move, then remove the jumped piece. */
  function Apply(g: Grid, p: Piece, s: Step): (h: Grid)
    requires IsGrid(g) && InBounds(p.row, p.col) && StepInBounds(s)
    ensures IsGrid(h)
  {
    var moved := Moved(g, p, s.dest);
    match s.captured
    case None => moved
    case Some(q) => Put(moved, q, Empty)
  }

  /**
   * After `move`, the destination holds the same piece with its new
   * coordinates, the old cell is empty and every other cell is unchanged; the
   * king flag is set on the back rank and never cleared.
   */
  lemma MovedCells(g: Grid, p: Piece, to: Pos)
    requires IsGrid(g) && InBounds(p.row, p.col) && InBounds(to.row, to.col)
    ensures forall r, c :: InBounds(r, c) ==>
      Moved(g, p, to)[r][c] ==
        if r == to.row && c == to.col then Occupied(Relocated(p, to))
        else if r == p.row && c == p.col then Empty
        else g[r][c]
    ensures Relocated(p, to).king == (p.king || ReachesBackRank(p.colour, to.row))
    ensures p.king ==> Relocated(p, to).king
    ensures Consistent(g) ==> Consistent(Moved(g, p, to))
  {
  }

  /** `remove` empties exactly the listed cells. */
  lemma ClearedCells(g: Grid, ps: seq<Pos>)
    requires IsGrid(g)
    ensures forall r, c :: InBounds(r, c) ==>
      Cleared(g, ps)[r][c] == if Pos(r, c) in ps then Empty else g[r][c]
    ensures Consistent(g) ==> Consistent(Cleared(g, ps))
    ensures DarkOnly(g) ==> DarkOnly(Cleared(g, ps))
  {
  }

  /** Removing one position is putting an empty cell there. */
  lemma ClearedOne(g: Grid, q: Pos)
    requires IsGrid(g) && InBounds(q.row, q.col)
    ensures Cleared(g, [q]) == Put(g, q, Empty)
  {
    GridExt(Cleared(g, [q]), Put(g, q, Empty));
  }

  /** Playing any entry keeps every piece at its recorded cell. */
  lemma ApplyConsistent(g: Grid, p: Piece, s: Step)
    requires Consistent(g) && InBounds(p.row, p.col) && StepInBounds(s)
    ensures Consistent(Apply(g, p, s))
  {
    MovedCells(g, p, s.dest);
    if s.captured.Some? {
    }
  }

  /**
   * Playing a valid entry leaves the piece's old cell empty and puts the
   * relocated piece on the destination, which is a different cell.
   */
  lemma ApplyCells(g: Grid, p: Piece, s: Step)
    requires IsGrid(g) && InBounds(p.row, p.col) && s in ValidMoves(g, p)
    ensures StepInBounds(s) && s.dest != Pos(p.row, p.col)
    ensures Apply(g, p, s)[s.dest.row][s.dest.col] == Occupied(Relocated(p, s.dest))
    ensures Apply(g, p, s)[p.row][p.col] == Empty
  {
    ValidMovesSound(g, p, s);
    MovedCells(g, p, s.dest);
    if s.captured.Some? {
      var d :| d in Directions(p) && StepAlong(g, p, d, s);
      DirectionsMember(p, d);
      AllDirectionsCases(d);
    }
  }

  /** A diagonal step of any length stays on the same colour of square. */
  lemma DiagonalKeepsColour(r: int, c: int, dr: int, dc: int)
    requires (r + c) % 2 == 1 && (dr == dc || dr == -dc)
    ensures (r + dr + c + dc) % 2 == 1
  {
    var k := if dr == dc then dr else 0;
    assert dr + dc == 2 * k;
    assert r + dr + c + dc == (r + c) + 2 * k;
  }

  /** Moving a piece onto a dark square keeps every piece on a dark square. */
  lemma MovedDarkOnly(g: Grid, p: Piece, to: Pos)
    requires IsGrid(g) && DarkOnly(g) && InBounds(p.row, p.col) && InBounds(to.row, to.col)
    requires (to.row + to.col) % 2 == 1
    ensures DarkOnly(Moved(g, p, to))
  {
    MovedCells(g, p, to);
  }

  /**
   * Playing a valid entry keeps every piece at its recorded cell and every
   * piece on a dark square.
   */
  lemma ApplyPreserves(g: Grid, p: Piece, s: Step)
    requires Consistent(g) && DarkOnly(g)
    requires InBounds(p.row, p.col) && g[p.row][p.col] == Occupied(p)
    requires s in ValidMoves(g, p)
    ensures StepInBounds(s)
    ensures Consistent(Apply(g, p, s)) && DarkOnly(Apply(g, p, s))
  {
    ValidMovesSound(g, p, s);
    DiagonalKeepsColour(p.row, p.col, s.dest.row - p.row, s.dest.col - p.col);
    MovedDarkOnly(g, p, s.dest);
    ApplyConsistent(g, p, s);
    if s.captured.Some? {
    }
  }
}
