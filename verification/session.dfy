/**
 The turn and terminal logic of the game window, without any drawing: the
 state is the board, whose turn it is (1 red, 2 yellow), whether a drop
 animation is under way, and whether the game is over.
 */
module Session {
  import opened Wrappers
  import opened Board
  import opened Win

  /** The cell a drop animation will fill once it finishes. */
  datatype Move = Move(row: int, col: int)

  datatype State = State(board: Grid, turn: int, animating: bool, gameOver: bool)

  /**
   What a click on the board does: nothing while the game is over or a disc
   is falling, a rejection (the bell) for an illegal column, or the start of
   a drop animation towards `drop`, with `next` the state during the animation.
   */
  datatype ClickResult = Ignored | Rejected | Started(next: State, drop: Move)

  /** The states the window can be in between events: every cell empty, red or yellow. */
  ghost predicate Valid(s: State) {
    && WellFormed(s.board)
    && (forall r, c :: InBounds(r, c) ==> s.board[r][c] in {EMPTY, RED, YELLOW})
    && Gravity(s.board)
    && (s.turn == RED || s.turn == YELLOW)
  }

  /** The player who moves after `turn`. */
  function Other(turn: int): int {
    if turn == RED then YELLOW else RED
  }

  /** A fresh game: empty board, red to move, no animation, not over. */
  function Restart(): (s: State)
    ensures Valid(s) && s.turn == RED && !s.animating && !s.gameOver
    ensures forall r, c :: InBounds(r, c) ==> s.board[r][c] == EMPTY
  {
    NewBoardGravity();
    State(NewBoard(), RED, false, false)
  }

  /**
   A click that resolves to column `col` (any integer: the pixel position may
   lie left or right of the board).
   */
  function OnClick(s: State, col: int): (res: ClickResult)
    requires WellFormed(s.board)
    ensures s.gameOver || s.animating ==> res.Ignored?
    ensures res.Started? ==> res.next == s.(animating := true)
    ensures res.Started? ==> res.drop.col == col && InBounds(res.drop.row, col)
    ensures res.Started? ==> s.board[res.drop.row][col] == EMPTY
    ensures res.Started? ==> forall k :: 0 <= k < res.drop.row ==> s.board[k][col] != EMPTY
    ensures !s.gameOver && !s.animating && !(0 <= col < COLS) ==> res.Rejected?
    ensures !s.gameOver && !s.animating && 0 <= col < COLS && s.board[ROWS - 1][col] != EMPTY ==> res.Rejected?
  {
    if s.gameOver || s.animating then Ignored
    else if !ColumnHasSpace(s.board, col) then Rejected
    else match NextOpenRow(s.board, col)
      case None => Rejected
      case Some(row) => Started(s.(animating := true), Move(row, col))
  }

  /**
   The end of a drop animation: the current player's disc lands on `m`, the
   animation flag clears, and the game either ends on a win (turn kept), ends
   on a full board (turn kept), or passes the turn to the other player.
   */
  function AfterDrop(s: State, m: Move): (s': State)
    requires WellFormed(s.board) && InBounds(m.row, m.col)
    ensures WellFormed(s'.board) && s'.board[m.row][m.col] == s.turn
    ensures forall r, c :: InBounds(r, c) && (r, c) != (m.row, m.col) ==> s'.board[r][c] == s.board[r][c]
    ensures !s'.animating
    ensures HasFour(s'.board, s.turn) ==> s'.gameOver && s'.turn == s.turn
    ensures !HasFour(s'.board, s.turn) && IsFull(s'.board) ==> s'.gameOver && s'.turn == s.turn
    ensures !HasFour(s'.board, s.turn) && !IsFull(s'.board) ==>
              s'.gameOver == s.gameOver && s'.turn == Other(s.turn) && s'.turn != s.turn
  {
    var board := PlacePiece(s.board, m.row, m.col, s.turn);
    if WinningCells(board, s.turn).Some? then State(board, s.turn, false, true)
    else if IsFull(board) then State(board, s.turn, false, true)
    else State(board, Other(s.turn), false, s.gameOver)
  }

  /**
   In a valid state where a click is not ignored, it starts a drop exactly when
   the column is on the board and still has an empty cell; otherwise it is rejected.
   */
  lemma ClickAcceptedIffOpenCell(s: State, col: int)
    requires Valid(s) && !s.gameOver && !s.animating
    ensures OnClick(s, col).Started? <==> 0 <= col < COLS && exists r :: 0 <= r < ROWS && s.board[r][col] == EMPTY
    ensures !OnClick(s, col).Started? ==> OnClick(s, col).Rejected?
  {
  }

  /** A click that starts a drop, followed by the end of that drop, keeps a valid state valid:
      gravity holds, every cell stays empty, red or yellow, and the turn stays 1 or 2. */
  lemma ClickThenDropKeepsValid(s: State, col: int)
    requires Valid(s) && OnClick(s, col).Started?
    ensures var res := OnClick(s, col); Valid(AfterDrop(res.next, res.drop))
  {
  }

  /** A drop commits exactly one of: a win, a draw, or the next player's turn. */
  lemma DropOutcomes(s: State, m: Move)
    requires Valid(s) && !s.gameOver && InBounds(m.row, m.col)
    ensures var s' := AfterDrop(s, m);
            && (s'.gameOver <==> HasFour(s'.board, s.turn) || IsFull(s'.board))
            && (s'.gameOver ==> s'.turn == s.turn)
            && (!s'.gameOver ==> s'.turn == Other(s.turn))
            && (s'.turn == RED || s'.turn == YELLOW)
  {
  }
}
