# Connect Four board and turn logic

A model of the pure board logic of a two-player Connect Four game
(`Connect_four.py`) and of the small turn/terminal state machine its window
class drives around that logic, with the drawing left out.

The board is six rows of seven integer cells, row 0 at the bottom; a cell holds
0 (empty), 1 (red) or 2 (yellow). Player numbers stay integers, as in the
source.

- `wrappers.dfy`, module `Wrappers`: `Option`, standing for Python's `None`.
- `board.dfy`, module `Board`: `new_board`, `column_has_space`, `next_open_row`,
  `place_piece` and `is_full`. It also defines the gravity invariant (no disc
  above an empty hole) and proves what it implies.
- `win.dfy`, module `Win`: `winning_cells`, modelled as the source's scan:
  anchors row by row, then column by column, then the four directions (0,1),
  (1,0), (1,1), (-1,1) in that order. It is proved sound and complete against
  an independent definition of "four in a row" (`HasFour`), and it returns the
  first run in scan order.
- `session.dfy`, module `Session`: the state (board, turn, animating,
  game_over) and the state logic of `on_click`, `after_drop` and
  `restart_game`, as pure functions.
- `host.dfy`, module `Host`: the window's event loop. Its events are clicks,
  the Restart button, and the end of each drop animation. A started drop waits
  as a timer callback that later commits `after_drop(row, col)`; the model
  keeps these in-flight drops in `pending`. The module's datatype `Window` pairs the session with that queue.

The source is followed where its docstrings and comments disagree with it.
The comment on the fourth scan direction in `winning_cells` draws an up-left
arrow. The code steps (-1, +1): one row down and one column right. The model
uses the code's step.

## Model

| member | source | states |
|---|---|---|
| Board.NewBoard | Connect_four.py:21-23 | a new board has exactly 6 rows of 7 cells and every cell is empty |
| Board.NewBoardGravity | Connect_four.py:21-23 | a new board satisfies the gravity invariant |
| Board.ColumnHasSpaceIffOpenCell | Connect_four.py:25-34 | under gravity, column_has_space holds iff the column is in 0..6 and some cell of it is empty, iff next_open_row finds a row; it is false for every out-of-range column |
| Board.NextOpenRow | Connect_four.py:29-34 | the result is the lowest empty row of the column: every row below it holds a disc; None exactly when no cell of the column is empty |
| Board.OpenRowFrom | Connect_four.py:31-34 | the bottom-up scan from a given row returns the first empty row at or above it, or None iff every row from there up holds a disc |
| Board.PlacePiece | Connect_four.py:36-38 | the target cell gets the piece and every other cell keeps its value; the shape is kept |
| Board.DropPreservesGravity | Connect_four.py:29-38 | placing any piece at next_open_row of a column keeps the gravity invariant |
| Board.PlaceAboveHoleBreaksGravity | Connect_four.py:36-38 | placing a disc on a cell whose lower neighbour is empty breaks the gravity invariant, so the drop row matters |
| Board.IsFullIffAllOccupied | Connect_four.py:54-56 | under gravity, is_full (top row has no empty cell) holds iff every cell of the board holds a disc |
| Board.IsFullWithoutGravity | Connect_four.py:54-56 | without gravity the equivalence fails: some 6x7 board passes is_full yet has an empty cell |
| Board.AllRedBoardIsFull | test_connect_four.py:25-27 | the board with every cell 1 is full |
| Board.ThreeDropsStack | Connect_four.py:29-38 | three drops into one empty column land at rows 0, 1 and 2 in turn |
| Win.Anchor | Connect_four.py:43-44 | anchor number a (row-major order) is an on-board cell (r, c) with r*7+c = a |
| Win.AnchorOf | Connect_four.py:43-44 | every on-board cell (r, c) is the anchor numbered r*7+c |
| Win.FirstDir | Connect_four.py:47-51 | the first direction, in the fixed order, whose run from the anchor succeeds; no earlier direction succeeds; None iff none succeeds |
| Win.NoRunFromForeignAnchor | Connect_four.py:45-46 | skipping an anchor that does not hold the piece loses no run from it |
| Win.FirstRun | Connect_four.py:43-51 | the scan returns the first anchor/direction pair in scan order whose four cells are on the board and all hold the piece; no earlier pair does; None iff no later pair does |
| Win.RunAtIsFour | Connect_four.py:48-50 | the run the code builds from an anchor and a direction is accepted iff it is four in a row by the reference definition, and then it is a winning run |
| Win.NoRunMeansNoFour | Connect_four.py:40-52 | when the scan finds nothing, the player has no four in a row anywhere on the board |
| Win.WinningCells | Connect_four.py:40-52 | soundness: a returned list is four equally spaced on-board cells along one of the four directions, all holding the piece; completeness: None is returned iff there is no four in a row |
| Win.VerticalWinExample | test_connect_four.py:13-17 | four red discs at rows 0-3 of column 0 yield exactly the cells (0,0),(1,0),(2,0),(3,0) |
| Win.HorizontalWinExample | test_connect_four.py:19-23 | four yellow discs at row 0, columns 0-3 yield exactly the cells (0,0),(0,1),(0,2),(0,3) |
| Win.SingleDiscNoFour | Connect_four.py:40-52 | a board with only one cell holding the piece has no four in a row for it |
| Win.DrawBoardHasNoFour | Connect_four.py:40-52 | on a fixed full board of 21 red and 21 yellow discs (rows 1122112 / 2211221), no value has four in a row in any direction |
| Win.DrawExample | Connect_four.py:40-56 | that 21/21 board is full and fully occupied, and winning_cells returns None for both players |
| Session.Restart | Connect_four.py:242-251 | restart gives an all-empty 6x7 board with turn 1 and neither animating nor game over, in a valid state |
| Session.OnClick | Connect_four.py:153-168 | a click during game over or animation is ignored; a started drop targets the lowest empty row of the clicked column and only sets the animating flag; an out-of-range column, or one whose top cell is taken, is rejected on any board |
| Session.ClickAcceptedIffOpenCell | Connect_four.py:155-164 | in a valid, idle, running game a click starts a drop iff its column is on the board with an empty cell; otherwise it is rejected with no state change |
| Session.AfterDrop | Connect_four.py:192-211 | the mover's disc lands on the cell and nothing else changes; animating clears; a win ends the game with the turn kept; otherwise a full board ends it with the turn kept; otherwise the turn flips and game_over is unchanged |
| Session.ClickThenDropKeepsValid | Connect_four.py:158-196 | a started drop followed by its commit keeps the board in gravity order, every cell 0, 1 or 2, and the turn in {1, 2} |
| Session.DropOutcomes | Connect_four.py:198-211 | from a running game, a commit ends the game iff the mover has four in a row or the board is full, keeps the turn iff it ends, and flips it otherwise |
| Host.StepAsWritten | Connect_four.py:242-251 | the Restart button as written resets the session but leaves drops in flight pending |
| Host.Step | Connect_four.py:153-251 | the corrected loop: restart returns to the initial window with nothing in flight; a click during animation and a finished drop that is not pending change nothing |
| Host.StepKeepsInv | Connect_four.py:153-211 | every event keeps the loop invariant: valid session, at most one drop in flight exactly while animating and not over, aimed at its column's lowest open row |
| Host.RunKeepsInv | Connect_four.py:153-211 | any sequence of events keeps that invariant |
| Host.GameOverFrozen | Connect_four.py:155-156 | once the game is over, every event but Restart leaves the window unchanged: clicks are ignored and no drop is in flight |
| Host.ReachableIsSafe | Connect_four.py:153-211 | in every state reachable from the opened window the board obeys gravity, every cell holds 0, 1 or 2, and each drop in flight targets an empty cell resting on a disc or on the bottom row |
| Host.RestartDuringDropBreaksGravity | Connect_four.py:242-251 | as written, the events click 0, drop lands, click 0, Restart, drop lands leave a red disc at row 1 over an empty bottom cell |

## Left out

- The drawing and widgets are left out: windows, labels, buttons, canvas drawing, the win line, the victory screen, the message box and the bell. The bell appears only as the `Rejected` click result.
- The drop animation's pixel steps and timers are left out, and so is the delay before the victory screen. A drop in flight is the `animating` flag plus a pending move. Its end is the event `DropDone`, which may come at any time.
- The conversion from pixels to a column in `on_click` uses floating point. The model takes its integer result, which may be off the board, as the click's column.
- The colour and theme constants and the launcher are left out.
- Board.NextOpenRow: requires a column in 0..6. In Python a column of 7 or more raises IndexError, and -7..-1 wraps to a column from the right. `on_click` calls it only after `column_has_space` has checked the range.
- Board.PlacePiece: requires an on-board cell; Python's IndexError and negative-index wrap for other cells are not modelled. Every caller passes a cell found by `next_open_row`.
- Every board operation requires a 6x7 board (`WellFormed`). The source assumes this shape.
- `winning_cells` returns a list of four tuples, so `if cells:` in `after_drop` is true exactly when the result is not `None`. The model tests `Some?`.
- `winning_cells` is a pure function, so calling it twice on one board gives the same result. No separate lemma states this.
- The victory screen's delayed timer may still fire after a restart. It only draws, so it does not change the session and is not modelled.

## Findings

| source | as written | input that shows it | evidently intended | confidence | as-written member | corrected member |
|---|---|---|---|---|---|---|
| Connect_four.py:242-251 | `restart_game` resets the board, turn and flags but does not cancel a drop animation still in flight. When that animation ends, its `after_drop(row, col)` commits the row chosen on the old board onto the new one. | Click column 0 and let the disc land. Click column 0 again, then press Restart before the disc lands. Red lands at row 1 of the empty board, above an empty hole. | Restart discards any drop still in flight, so every reachable board keeps gravity and every committed drop fills the lowest empty cell | medium, not executed (assumes Tk ignores `coords` on a deleted canvas item) | Host.RestartDuringDropBreaksGravity | Host.ReachableIsSafe |
