# Elemental checkers: rules engine and search agent

This project is a Dafny model of the core of `project.py`. That program plays
checkers on an 8x8 board. Every piece carries one of four elements: Fire,
Water, Earth or Air. A jump is allowed only when the attacker does not lose
the element match-up with the piece it jumps. WHITE is the human player at
the bottom. BLACK is an AI that plays fixed-depth minimax with alpha-beta
pruning.

The project has these modules:

- `Elements` (elements.dfy): the four elements and `elemental_advantage`.
- `Rules` (rules.dfy): the board as a value.
  - `Grid` is a row-major `seq<seq<Cell>>`, and a `Cell` is `Empty` or `Occupied(Piece)`.
  - It holds the opening layout, the moves `get_valid_moves` offers, and what `move`, `make_king` and `remove` do to a grid.
  - The methods of the classes below are proved to compute these value-level functions.
- `BoardState` (board.dfy): class `Board`, which mirrors the source's `Board`.
  - The board is an `array2<Cell>` that `move` and `remove` change in place.
  - Every method is proved against the `Rules` functions.
- `Agent` (agent.dfy): the search agent.
  - `evaluate` is an accumulator loop proved equal to the material function `Evaluation`.
  - `get_all_moves` copies the board once per (piece, move) pair, then plays the move on the copy.
  - `minimax` is a recursive method whose loop keeps `alpha`, `beta` and the best move so far, and which stops once `beta <= alpha`.
  - The method is proved equal to the function `Search`. `Search` is in turn related to an unpruned reference, `Value`.
- `GameEngine` (game.dfy): class `Game`, with `turn`, `selected`, `select`, `_move`, `change_turn` and `check_winner`.

Modelling choices that affect the reading of the contracts:

- Scores are the source's scores multiplied by ten, so a man is 10, a king 20, plus the element's index in `ELEMENTS`. The two `float` infinities are the `NegInf` and `PosInf` scores.
- The random element draws of `create_board` are a parameter: 24 elements, consumed in row-major order.
- The dictionary that `get_valid_moves` returns is a sequence of `Step(dest, captured)` in insertion order. No two entries share a destination (`Rules.ValidMovesDistinct`), so the sequence is faithful to the dictionary.
- `copy.deepcopy` becomes value semantics. A successor is a fresh `Grid`, and the board a search reads is never modified: the search methods carry no `modifies` clause.
- `Game.selected` holds the position of the selected piece, not a reference to the `Piece` object.
- `Consistent(g)` states that every piece's `row`/`col` fields name the cell that holds it. `DarkOnly(g)` states that only cells with odd `row + col` are occupied.

## Model

| member | source | states |
|---|---|---|
| Elements.Index | project.py:29 | an element's position in `ELEMENTS` is below 4 |
| Elements.Advantage | project.py:37-51 | the result is +1 exactly when the attacker beats the defender on the dominance cycle Fire>Air>Earth>Water>Fire, -1 exactly when the defender beats the attacker, and 0 exactly when the two stand an even distance apart on the cycle |
| Elements.AdvantageAntisymmetric | project.py:37-51 | advantage(a, b) == -advantage(b, a) |
| Elements.AdvantageZero | project.py:44-51 | the result is 0 exactly for equal elements and the two unrelated pairs Fire/Earth and Water/Air |
| Elements.AdvantageWins | project.py:38-47 | the result is +1 exactly for Fire>Air, Water>Fire, Earth>Water and Air>Earth |
| Rules.InitialLayout | project.py:89-103 | in the opening position BLACK stands on the dark squares of rows 0-2 and WHITE on those of rows 5-7; every other cell is empty; there are no kings; each piece takes its own draw; the board is consistent and dark-only |
| Rules.DrawIndexDistinct | project.py:90-98 | the 24 starting squares take draws 0-23, strictly increasing in row-major order, so no two pieces share a draw |
| Rules.DirectionsMember | project.py:120-122 | a man of WHITE moves only up (row - 1), a man of BLACK only down (row + 1), and a king along all four diagonals |
| Rules.DirectionStep | project.py:124-134 | whatever one direction contributes to the dictionary has its destination, and any captured cell, on the board |
| Rules.StepsAlong | project.py:124-135 | the directions contribute at most one entry each, all on the board |
| Rules.StepsAlongSnoc | project.py:124-134 | one more iteration of the direction loop appends exactly what the new direction contributes |
| Rules.ValidMoves | project.py:118-135 | the entries of `get_valid_moves(piece)`, in dictionary insertion order: what each of the piece's directions contributes, in the order of the direction list |
| Rules.StepsAlongMember | project.py:124-134 | an entry is in the dictionary exactly when one of the directions contributes it |
| Rules.DirectionStepShape | project.py:125-134 | a contributed destination is on the board and empty, one diagonal step away, or two steps away over a capturable piece |
| Rules.ValidMovesSound | project.py:118-135 | every destination is on the board and empty, along a permitted direction, and one or two diagonal steps away; the entry has a captured cell exactly when it is two steps away; a man of WHITE only ever gets lower rows and a man of BLACK only higher rows |
| Rules.SimpleMoveIff | project.py:125-129 | a simple move along a permitted direction is offered, with no capture, exactly when the adjacent cell is on the board and empty |
| Rules.CaptureIff | project.py:130-134 | a jump along a permitted direction is offered exactly when the adjacent cell holds an opposing piece, the attacker's advantage is >= 0, and the landing cell is on the board and empty; the captured position is always that adjacent cell |
| Rules.CaptureOffered | project.py:130-134 | when the jump conditions hold, the jump is in the dictionary |
| Rules.CaptureShape | project.py:130-134 | an entry capturing the adjacent cell lands two steps away, and the jump conditions hold |
| Rules.DirectionCapture | project.py:130-134 | a direction contributing a capture captures its adjacent cell and lands beyond it |
| Rules.DestsDiffer | project.py:120-134 | two different directions never give the same destination |
| Rules.StepsAlongDistinct | project.py:119-135 | entries from distinct directions have distinct destinations |
| Rules.ValidMovesDistinct | project.py:119-135 | no two entries of `get_valid_moves` share a destination, so they are the dictionary's keys |
| Rules.Lookup | project.py:258-260 | a destination is found exactly when some entry has it, and the entry found is in the dictionary with that destination |
| Rules.Put | project.py:138 | one cell is replaced and every other cell is unchanged |
| Rules.Crowned | project.py:61-62 | `make_king` makes the piece a king and keeps its row, column, colour and element |
| Rules.Relocated | project.py:137-141 | the moved piece has the new row and column, the same colour and element, and is a king exactly when it was one or has reached its back rank |
| Rules.Moved | project.py:137-141 | the grid after `move`: the old cell emptied, then the relocated (and, on the back rank, crowned) piece put on the destination |
| Rules.MovedCells | project.py:137-141 | after `move`, the destination holds the relocated piece, the old cell is empty and every other cell is unchanged; the king flag is set on the back rank and never cleared; consistency is kept |
| Rules.Cleared | project.py:143-145 | the grid after `remove(positions)`: every listed cell empty, every other cell as before |
| Rules.ClearedCells | project.py:143-145 | `remove` empties exactly the listed cells and leaves every other cell unchanged; consistency and the dark-squares property are kept |
| Rules.ClearedOne | project.py:143-145 | removing a one-element list empties just that cell |
| Rules.Apply | project.py:201-205 | the board after one entry is played: `move` to the destination, then, for a jump, the captured cell emptied |
| Rules.ApplyConsistent | project.py:201-205 | playing an entry keeps every piece's coordinates in step with its cell |
| Rules.ApplyCells | project.py:201-205 | after playing an entry, the destination holds the relocated piece and the origin is empty; the destination differs from the origin |
| Rules.DiagonalKeepsColour | project.py:93 | a diagonal step keeps a square dark |
| Rules.MovedDarkOnly | project.py:93 | moving a piece onto a dark square keeps every piece on a dark square |
| Rules.ApplyPreserves | project.py:93 | playing a valid entry keeps the board consistent and every piece on a dark square |
| BoardState.Board.Create | project.py:85-103 | a new board holds the opening grid for the given draws |
| BoardState.Board.FromGrid | project.py:201 | a fresh board holding a copy of the given grid |
| BoardState.Board.StepToward | project.py:124-134 | one iteration of the direction loop returns exactly that direction's contribution |
| BoardState.Board.GetValidMoves | project.py:118-135 | the loop builds exactly the dictionary `ValidMoves` describes |
| BoardState.Board.Move | project.py:137-141 | the array afterwards holds the moved grid |
| BoardState.Board.Remove | project.py:143-145 | the array afterwards holds the grid with the listed cells emptied |
| Agent.PieceValue | project.py:185-187 | a piece scores between 1.0 and 2.3 (10-23 scaled), and at least 2.0 exactly when it is a king |
| Agent.Evaluation | project.py:180-192 | the sum of the piece values of WHITE's pieces minus that of BLACK's, over the whole grid |
| Agent.Evaluate | project.py:180-192 | the two running totals give WHITE's material minus BLACK's |
| Agent.RowMaterialPut | project.py:182-191 | replacing one cell of a row changes the row's total by the new cell's value minus the old cell's |
| Agent.MaterialPut | project.py:182-191 | replacing one cell changes a side's total by that cell's difference |
| Agent.EvaluationPut | project.py:180-192 | replacing one cell changes the evaluation by the signed difference of the two cells |
| Agent.EvaluationMoved | project.py:137-141 | a plain move changes the evaluation only by the crowning gain, signed for the mover |
| Agent.CapturedCell | project.py:130-134 | a jumped cell is neither end of the move and holds a piece of the opponent |
| Agent.EvaluationAfterStep | project.py:194-207 | playing an entry changes the evaluation by the crowning gain plus the value of the captured piece, in the mover's favour |
| Agent.ApplyAll | project.py:200-206 | one board per entry, in order, each the result of playing that entry |
| Agent.Successors | project.py:194-207 | the boards `get_all_moves` returns: for each cell in row-major order holding a piece of the colour, the boards reached by each of its entries in dictionary order |
| Agent.ApplyAllMember | project.py:200-206 | a board is produced exactly when it is the result of one of the entries |
| Agent.CellSuccessorsMember | project.py:198-206 | a cell yields a board exactly when it holds a piece of the colour and the board results from one of its moves |
| Agent.RowSuccessorsMember | project.py:197-206 | the successors from the first n cells of a row are exactly what those cells yield |
| Agent.SuccessorsUpToMember | project.py:196-206 | the successors from the first n rows are exactly what those rows yield |
| Agent.YieldsInRowCell | project.py:197-198 | a row prefix yields a board exactly when one of its cells does |
| Agent.YieldsAboveRow | project.py:196 | a row range yields a board exactly when one of its rows does |
| Agent.SuccessorsMember | project.py:194-207 | a board is a successor exactly when it results from playing one move of one of the colour's pieces |
| Agent.SuccessorsEmptyIff | project.py:194-207 | there are no successors exactly when no piece of the colour has a move |
| Agent.SuccessorsConsistent | project.py:194-207 | every successor of a consistent board is consistent |
| Agent.PlayOnCopy | project.py:201-205 | the copy after `move` and the removal of the jumped cell is the result of playing the entry |
| Agent.PlayAll | project.py:200-206 | the inner loop produces one board per entry, in dictionary order |
| Agent.PieceMoves | project.py:199-206 | one successor per move of the piece, in dictionary order |
| Agent.CellMoves | project.py:197-206 | a cell contributes its piece's successors when the piece has the colour, and nothing otherwise |
| Agent.RowMoves | project.py:197-206 | a row contributes its cells' successors left to right |
| Agent.AppendCellMoves | project.py:197-206 | one iteration of the cell loop appends that cell's successors |
| Agent.GetAllMoves | project.py:194-207 | the successors, in row-major piece order, then dictionary order; the input board is not modified |
| Agent.MovesFrom | project.py:158 | `get_all_moves` on a board holding the grid gives its successors |
| Agent.MaxScore | project.py:163 | the maximum is one of the two and below neither |
| Agent.MinScore | project.py:175 | the minimum is one of the two and above neither |
| Agent.ScanStep | project.py:158-177 | one loop iteration either breaks with the updated best score and move, or continues over the rest with the narrowed window |
| Agent.Search | project.py:151-178 | the pair `minimax` returns: the evaluation and the position itself at depth 0, otherwise the scan of the mover's successors from its worst score, with no move and the given window |
| Agent.Scan | project.py:155-178 | the loop of `minimax` over the remaining successors: a successor replaces the best only when strictly better, the window narrows, and the loop stops once `beta <= alpha`; the result is never worse for the side than the best score it starts from |
| Agent.ScanAll | project.py:155-178 | the unpruned reference loop: every successor is scored by `Value`, and one replaces the best only when strictly better; the result is never worse than the best score it starts from |
| Agent.Value | project.py:151-178 | the unpruned reference: the same recursion as `minimax` with the same strict tie-break but no window and no break |
| Agent.SearchUnfold | project.py:151-178 | above depth 0, both searches scan the successors of the side to move, starting from its worst score and no move |
| Agent.MaxCutoff | project.py:163-165 | at a MAX node, a cutoff leaves the clamped score equal to the clamped unpruned score |
| Agent.MaxContinue | project.py:163-165 | at a MAX node, raising `alpha` and continuing keeps the clamped scores equal |
| Agent.MinCutoff | project.py:175-177 | at a MIN node, a cutoff leaves the clamped score equal to the clamped unpruned score |
| Agent.MinContinue | project.py:175-177 | at a MIN node, lowering `beta` and continuing keeps the clamped scores equal |
| Agent.ScanAllFrom | project.py:155-178 | the unpruned loop from any best score is that score combined with the loop from the sentinel |
| Agent.ScanAllSaturated | project.py:158-174 | once the best so far is the best possible score, no later successor replaces it |
| Agent.SearchWindow | project.py:151-178 | for a non-empty window, the pruned score and the minimax value are equal once clamped to [alpha, beta] (fail-soft alpha-beta) |
| Agent.ScanWindow | project.py:158-177 | the pruned loop and the unpruned loop agree once clamped to the window |
| Agent.ScanWindowStep | project.py:158-177 | if the first successor and the rest agree within their windows, so does the whole loop |
| Agent.RootStep | project.py:158-174 | with the window opened at the best so far, a child beats the best exactly when its true value does, and it then scores that value |
| Agent.ScanRoot | project.py:155-178 | with the full window, the pruned loop returns the same score and the same move as the unpruned loop |
| Agent.SearchStep | project.py:155-178 | the loop over the successors from the sentinel is the search result |
| Agent.SearchRoot | project.py:151-178 | with the window (-inf, +inf), the pruned search returns the minimax value and the same best move |
| Agent.ScanAllBound | project.py:158-174 | no successor scores better than the loop's result |
| Agent.ScanAllKeeps | project.py:158-174 | when no successor is strictly better, the best score and move are kept |
| Agent.FirstAttainingShift | project.py:158-162 | the first successor attaining a score shifts by one when a non-attaining successor is put in front |
| Agent.ScanAllPicks | project.py:158-174 | when some successor is strictly better, the result is better and its move is the first successor attaining it |
| Agent.ScanAllChoice | project.py:155-178 | from the sentinel, no move is chosen exactly when every successor scores the sentinel; otherwise the first successor attaining the score is chosen |
| Agent.MinimaxBound | project.py:155-178 | no successor scores better, for the side to move, than the node's value |
| Agent.MinimaxBestMove | project.py:155-178 | above depth 0, the best move is `None` exactly when every successor scores the side's worst (in particular when there is none), the score is then that worst, and otherwise the move is the first successor attaining the score |
| Agent.NoMoveLoses | project.py:155-178 | a side that cannot move scores its worst and has no best move |
| Agent.Minimax | project.py:151-178 | the method returns the search function's result; with the full window it returns the minimax value and move, and at depth 0 the evaluation and the position |
| Agent.MaxScan | project.py:155-166 | the MAX loop returns the pruned scan from (-inf, None) |
| Agent.MinScan | project.py:167-178 | the MIN loop returns the pruned scan from (+inf, None) |
| GameEngine.MoveResult | project.py:255-265 | the board after `_move(row, col)` with the piece at `from` selected: the selected piece's entry for the destination is played, or `None` when the destination is not one of its keys |
| GameEngine.MoveResultIff | project.py:255-258 | `_move` succeeds exactly when the destination is one of the selected piece's moves |
| GameEngine.MoveResultShape | project.py:255-262 | after a successful move, the piece has left its cell and stands relocated on the destination, and the board stays consistent and dark-only |
| GameEngine.RowLeft | project.py:275-279 | a row prefix holds at most as many of a side's pieces as cells |
| GameEngine.RowMovableBound | project.py:277-285 | in a row, the movable pieces are at most the pieces |
| GameEngine.PiecesMovableBound | project.py:275-285 | the movable pieces are at most the pieces |
| GameEngine.RowMovableIff | project.py:277-285 | a row prefix's movable count is positive exactly when one of its cells holds a movable piece of the side |
| GameEngine.RowHasMoverIff | project.py:277-285 | a row's movable count is positive exactly when the row holds a movable piece |
| GameEngine.PiecesMovableIff | project.py:275-285 | the movable count over the first n rows is positive exactly when one of those rows has a mover |
| GameEngine.CanMoveCount | project.py:275-289 | the movable count is positive exactly when the side can move, and a side with no pieces cannot move |
| GameEngine.Game.constructor | project.py:227-232 | a new game has the opening board, WHITE to move and nothing selected |
| GameEngine.Game.ChangeTurn | project.py:267-269 | the selection is dropped and the other side is to move |
| GameEngine.Game.MoveSelected | project.py:255-265 | on a destination of the selected piece, the board becomes the played board, the turn passes and the selection is dropped; otherwise nothing changes; the result says which |
| GameEngine.Game.Select | project.py:243-253 | with nothing selected, a piece of the side to move is selected and true is returned, and otherwise false with nothing changed; with a piece selected, the move is tried, and on failure the selection is dropped and the clicked cell is re-selected only when it holds a piece of the side to move; the result is then false |
| GameEngine.Game.CountRow | project.py:276-285 | one row adds its pieces and movable pieces of each side to the counts |
| GameEngine.Game.CountCell | project.py:277-285 | one cell adds 1 to its side's piece count, and 1 to the movable count when its piece has a move |
| GameEngine.Game.CheckWinner | project.py:271-291 | "AI Wins!" exactly when WHITE cannot move (no pieces or no movable piece), so also when both sides are stuck; "Player Wins!" exactly when WHITE can move and BLACK cannot; otherwise no result |

## Left out

- Rendering and input are not modelled. This covers `Piece.draw`, `Board.draw`, `Game.update`, `draw_game_over`, the fonts and colour constants, and `main` with its event loop, mouse mapping and delays. They are I/O.
- The AI's turn in `main` is not modelled: the call `minimax(board, 3, ...)` and the assignment of its board to the game. It is glue, and it can assign `None` when the AI has no move.
- `np.random.choice` is not modelled. The draws are a parameter of `Board.Create`, one per piece in row-major order.
- Floating point is not modelled. Scores are scaled by ten to integers. The source's sums of `0.1` multiples can round, so two evaluations that are equal here could compare unequal in floats.
- `Agent.__init__` and its colour field are not modelled, because nothing in the core reads them.
- Object identity and aliasing of `Piece` are not modelled.
  - A piece is a value stored in its cell, and `move` writes an updated copy.
  - `selected` is the position of the piece, not a reference to it.
  - `make_king` sets the flag on that copy.
- The `depth` of `minimax` is a `nat`. The source would recurse without end on a negative depth.

## Notes on the code's behaviour

- Fire/Earth and Water/Air are unrelated pairs in the `wins` table, so `elemental_advantage` returns 0 for both orders of each (`Elements.AdvantageZero`). A capture needs an advantage of at least 0, so Fire may jump Earth and Earth may jump Fire.
- The best move of `minimax` is `None` not only when there are no successors: it is `None` exactly when every successor scores the side's worst (`Agent.MinimaxBestMove`). This is because a successor replaces the incumbent only when its score is strictly better than the initial `float('-inf')` or `float('inf')`.
  - Example: BLACK Fire at (2, 7), WHITE Water at (4, 7), BLACK to move, depth 3.
  - BLACK's only move goes to (3, 6).
  - WHITE's only reply is to jump it: Water beats Fire, and WHITE lands on (2, 5).
  - BLACK then has no piece, so its search at depth 1 returns `+inf`.
  - The root's only successor therefore scores `+inf`, which is not strictly below the initial `+inf`. The root returns `+inf` with best move `None`, although it has a successor.
