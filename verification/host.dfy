/**
 The window's event loop around the session: clicks, the Restart button, and
 the end of each drop animation. A started drop lives on as a timer callback
 that later commits `after_drop(row, col)` with the row chosen at click time;
 `pending` holds those in-flight drops.
 */
module Host {
  import opened Wrappers
  import opened Board
  import opened Win
  import opened Session

  datatype Event =
    | Click(col: int)      // a mouse click resolved to a column index
    | DropDone(i: int)     // the animation of pending drop number i finishes
    | RestartPressed       // the Restart button

  /** The window: the game session and the drops still in flight. */
  datatype Window = Window(app: State, pending: seq<Move>)

  /** The shape the event handlers need: a 6x7 board and on-board pending cells. */
  ghost predicate Sane(h: Window) {
    && WellFormed(h.app.board)
    && forall i :: 0 <= i < |h.pending| ==> InBounds(h.pending[i].row, h.pending[i].col)
  }

  /** The window as first opened. */
  function Initial(): Window {
    Window(Restart(), [])
  }

  /** Everything except `pending[i]`. */
  function Without(pending: seq<Move>, i: int): (rest: seq<Move>)
    requires 0 <= i < |pending|
    ensures |rest| == |pending| - 1
    ensures forall j :: 0 <= j < |rest| ==> rest[j] == (if j < i then pending[j] else pending[j + 1])
  {
    pending[..i] + pending[i + 1..]
  }

  /**
   One event with the Restart button as the source wires it: the session is
   reset but drops still in flight are left running.
   */
  function StepAsWritten(h: Window, e: Event): (h': Window)
    requires Sane(h)
    ensures Sane(h')
    ensures e.RestartPressed? ==> h'.app == Restart() && h'.pending == h.pending
  {
    match e
    case RestartPressed => Window(Restart(), h.pending)
    case _ => Step(h, e)
  }

  /**
   One event with the Restart button cancelling the drops in flight, so that a
   restart resets everything the game depends on.
   */
  function Step(h: Window, e: Event): (h': Window)
    requires Sane(h)
    ensures Sane(h')
    ensures e.RestartPressed? ==> h' == Initial()
    ensures e.Click? && h.app.animating ==> h' == h
    ensures e.DropDone? && !(0 <= e.i < |h.pending|) ==> h' == h
  {
    match e
    case Click(col) =>
      (match OnClick(h.app, col)
       case Started(next, m) => Window(next, h.pending + [m])
       case _ => h)
    case DropDone(i) =>
      if 0 <= i < |h.pending| then Window(AfterDrop(h.app, h.pending[i]), Without(h.pending, i))
      else h
    case RestartPressed => Initial()
  }

  function RunAsWritten(h: Window, es: seq<Event>): (h': Window)
    requires Sane(h)
    ensures Sane(h')
    decreases |es|
  {
    if es == [] then h else RunAsWritten(StepAsWritten(h, es[0]), es[1..])
  }

  function Run(h: Window, es: seq<Event>): (h': Window)
    requires Sane(h)
    ensures Sane(h')
    decreases |es|
  {
    if es == [] then h else Run(Step(h, es[0]), es[1..])
  }

  /**
   The invariant of the corrected loop: the session is valid, at most one drop
   is in flight, exactly while the animation flag is set and the game is not
   over, and it targets the lowest open row of its column.
   */
  ghost predicate Inv(h: Window) {
    && Valid(h.app)
    && |h.pending| <= 1
    && (h.app.animating <==> |h.pending| == 1)
    && (h.app.gameOver ==> h.pending == [])
    && (|h.pending| == 1 ==>
          && 0 <= h.pending[0].col < COLS
          && NextOpenRow(h.app.board, h.pending[0].col) == Some(h.pending[0].row))
  }

  lemma StepKeepsInv(h: Window, e: Event)
    requires Inv(h)
    ensures Sane(h) && Inv(Step(h, e))
  {
  }

  /**
   Once the game is over, every event except Restart leaves the window as it
   is: clicks are ignored and no drop is in flight to finish.
   */
  lemma GameOverFrozen(h: Window, e: Event)
    requires Inv(h) && h.app.gameOver && !e.RestartPressed?
    ensures Sane(h) && Step(h, e) == h
  {
  }

  /** Every state the corrected loop reaches from an invariant state keeps the invariant. */
  lemma {:induction false} RunKeepsInv(h: Window, es: seq<Event>)
    requires Inv(h)
    ensures Sane(h) && Inv(Run(h, es))
    decreases |es|
  {
    if es != [] {
      StepKeepsInv(h, es[0]);
      RunKeepsInv(Step(h, es[0]), es[1..]);
    }
  }

  /**
   After any sequence of events from the opened window: the board obeys
   gravity, and a drop about to finish lands on an empty cell resting on a
   disc or on the bottom row.
   */
  lemma ReachableIsSafe(es: seq<Event>)
    ensures Inv(Initial())
    ensures var h := Run(Initial(), es);
            && Gravity(h.app.board)
            && (forall r, c :: InBounds(r, c) ==> h.app.board[r][c] in {EMPTY, RED, YELLOW})
            && forall i :: 0 <= i < |h.pending| ==>
                 var m := h.pending[i];
                 && InBounds(m.row, m.col) && h.app.board[m.row][m.col] == EMPTY
                 && (m.row == 0 || h.app.board[m.row - 1][m.col] != EMPTY)
  {
    RunKeepsInv(Initial(), es);
  }

  /**
   As written, Restart pressed while a disc is falling leaves that drop
   running: click column 0, let it land, click column 0 again (a drop to row 1),
   press Restart, then let the drop finish. The red disc lands in row 1 of the
   fresh board above an empty bottom hole.
   */
  lemma RestartDuringDropBreaksGravity()
    ensures var h := RunAsWritten(Initial(), [Click(0), DropDone(0), Click(0), RestartPressed, DropDone(0)]);
            && h.app.board[1][0] == RED && h.app.board[0][0] == EMPTY
            && !Gravity(h.app.board)
  {
    var h0 := Initial();
    var h1 := StepAsWritten(h0, Click(0));
    var h2 := StepAsWritten(h1, DropDone(0));
    var b2 := h2.app.board;
    assert b2[1][0] == EMPTY && !h2.app.gameOver && !h2.app.animating && h2.pending == [] by {
      var b0 := h0.app.board;
      assert b0[ROWS - 1][0] == EMPTY && b0[0][0] == EMPTY;
      assert h1.pending == [Move(0, 0)];
      assert b2[0][0] == RED && b2[1][0] == EMPTY && b2[ROWS - 1][0] == EMPTY;
      SingleDiscNoFour(b2, RED, 0, 0);
      assert !IsFull(b2);
    }
    var h3 := StepAsWritten(h2, Click(0));
    var h4 := StepAsWritten(h3, RestartPressed);
    var h5 := StepAsWritten(h4, DropDone(0));
    assert h5.app.board[1][0] == RED && h5.app.board[0][0] == EMPTY && !Gravity(h5.app.board) by {
      assert h3.pending == [Move(1, 0)];
      assert h4.app == Restart() && h4.pending == [Move(1, 0)];
      PlaceAboveHoleBreaksGravity(h4.app.board, 1, 0, RED);
    }
    var es := [Click(0), DropDone(0), Click(0), RestartPressed, DropDone(0)];
    assert es[1..][1..][1..][1..][1..] == [];
    assert RunAsWritten(h0, es) == h5;
  }
}
