/**
 Win detection: `winning_cells` scans every anchor cell, rows ascending then
 columns ascending, and for each anchor the four directions in a fixed order,
 and reports the first run of four cells of the queried player.
 */
module Win {
  import opened Wrappers
  import opened Board

  /** A (row, column) coordinate. */
  type Cell = (int, int)

  /** Scan directions as (row step, column step): right, up, up-right, down-right. */
  const DIRS: seq<(int, int)> := [(0, 1), (1, 0), (1, 1), (-1, 1)]

  const RUN_LEN: int := 4

  /** The same four directions as a set, for the reference definition. */
  ghost const DIR_SET: set<(int, int)> := {(0, 1), (1, 0), (1, 1), (-1, 1)}

  // ---------------------------------------------------------------------------
  // Reference definition of "four in a row"

  /** Four cells from (r, c) in step (dr, dc), all on the board and all `piece`. */
  ghost predicate Four(b: Grid, piece: int, r: int, c: int, dr: int, dc: int)
    requires WellFormed(b)
  {
    && InBounds(r, c) && InBounds(r + dr, c + dc)
    && InBounds(r + 2 * dr, c + 2 * dc) && InBounds(r + 3 * dr, c + 3 * dc)
    && b[r][c] == piece && b[r + dr][c + dc] == piece
    && b[r + 2 * dr][c + 2 * dc] == piece && b[r + 3 * dr][c + 3 * dc] == piece
  }

  /** The player has four in a row in one of the four directions. */
  ghost predicate HasFour(b: Grid, piece: int)
    requires WellFormed(b)
  {
    exists r, c, dr, dc :: (dr, dc) in DIR_SET && Four(b, piece, r, c, dr, dc)
  }

  /** `cells` are four equally spaced board cells along a scan direction, all `piece`. */
  ghost predicate IsWinningRun(b: Grid, piece: int, cells: seq<Cell>)
    requires WellFormed(b)
  {
    && |cells| == RUN_LEN
    && (cells[1].0 - cells[0].0, cells[1].1 - cells[0].1) in DIR_SET
    && (forall k :: 0 <= k < RUN_LEN ==>
          cells[k] == (cells[0].0 + k * (cells[1].0 - cells[0].0), cells[0].1 + k * (cells[1].1 - cells[0].1)))
    && (forall k :: 0 <= k < RUN_LEN ==> InBounds(cells[k].0, cells[k].1))
    && (forall k :: 0 <= k < RUN_LEN ==> b[cells[k].0][cells[k].1] == piece)
  }

  // ---------------------------------------------------------------------------
  // The scan as the source performs it

  /** The cells (r + k*dr, c + k*dc) for k = 0..3. */
  function CellsFrom(r: int, c: int, d: (int, int)): seq<Cell> {
    seq(RUN_LEN, k => (r + k * d.0, c + k * d.1))
  }

  predicate AllInBounds(cells: seq<Cell>) {
    forall i :: 0 <= i < |cells| ==> InBounds(cells[i].0, cells[i].1)
  }

  predicate AllHold(b: Grid, cells: seq<Cell>, piece: int)
    requires WellFormed(b) && AllInBounds(cells)
  {
    forall i :: 0 <= i < |cells| ==> b[cells[i].0][cells[i].1] == piece
  }

  /** The run from anchor (r, c) in direction DIRS[d] is on the board and all `piece`. */
  predicate IsRunAt(b: Grid, piece: int, r: int, c: int, d: int)
    requires WellFormed(b) && 0 <= d < |DIRS|
  {
    var cells := CellsFrom(r, c, DIRS[d]);
    AllInBounds(cells) && AllHold(b, cells, piece)
  }

  /** Anchor number `a` counts cells row by row: a = r * COLS + c. */
  function Anchor(a: int): (rc: Cell)
    requires 0 <= a < ROWS * COLS
    ensures InBounds(rc.0, rc.1) && rc.0 * COLS + rc.1 == a
  {
    (a / COLS, a % COLS)
  }

  /** Every board cell is the anchor numbered r * COLS + c. */
  lemma AnchorOf(r: int, c: int)
    requires InBounds(r, c)
    ensures 0 <= r * COLS + c < ROWS * COLS && Anchor(r * COLS + c) == (r, c)
  {
  }

  predicate RunAt(b: Grid, piece: int, a: int, d: int)
    requires WellFormed(b) && 0 <= a < ROWS * COLS && 0 <= d < |DIRS|
  {
    var (r, c) := Anchor(a);
    IsRunAt(b, piece, r, c, d)
  }

  /** The first direction, from `d` on, whose run from anchor `a` succeeds. */
  function FirstDir(b: Grid, piece: int, a: int, d: int): (res: Option<int>)
    requires WellFormed(b) && 0 <= a < ROWS * COLS && 0 <= d <= |DIRS|
    ensures res.Some? ==> d <= res.value < |DIRS| && RunAt(b, piece, a, res.value)
    ensures res.Some? ==> forall d' :: d <= d' < res.value ==> !RunAt(b, piece, a, d')
    ensures res.None? ==> forall d' :: d <= d' < |DIRS| ==> !RunAt(b, piece, a, d')
    decreases |DIRS| - d
  {
    if d == |DIRS| then None
    else if RunAt(b, piece, a, d) then Some(d)
    else FirstDir(b, piece, a, d + 1)
  }

  /** A run's first cell is its anchor, so no run starts at an anchor not holding `piece`. */
  lemma NoRunFromForeignAnchor(b: Grid, piece: int, a: int)
    requires WellFormed(b) && 0 <= a < ROWS * COLS
    requires var (r, c) := Anchor(a); b[r][c] != piece
    ensures forall d :: 0 <= d < |DIRS| ==> !RunAt(b, piece, a, d)
  {
    var (r, c) := Anchor(a);
    forall d | 0 <= d < |DIRS|
      ensures !RunAt(b, piece, a, d)
    {
      assert CellsFrom(r, c, DIRS[d])[0] == (r, c);
    }
  }

  /**
   The first (anchor, direction) pair, in scan order from anchor `a` on, whose
   run succeeds; anchors not holding `piece` are skipped as the source does.
   */
  function FirstRun(b: Grid, piece: int, a: int): (res: Option<(int, int)>)
    requires WellFormed(b) && 0 <= a <= ROWS * COLS
    ensures res.Some? ==> a <= res.value.0 < ROWS * COLS && 0 <= res.value.1 < |DIRS|
    ensures res.Some? ==> RunAt(b, piece, res.value.0, res.value.1)
    ensures res.Some? ==> forall a', d' ::
              (&& a <= a' < ROWS * COLS && 0 <= d' < |DIRS|
               && (a' < res.value.0 || (a' == res.value.0 && d' < res.value.1)))
              ==> !RunAt(b, piece, a', d')
    ensures res.None? ==> forall a', d' :: a <= a' < ROWS * COLS && 0 <= d' < |DIRS| ==> !RunAt(b, piece, a', d')
    decreases ROWS * COLS - a
  {
    if a == ROWS * COLS then None
    else
      var (r, c) := Anchor(a);
      if b[r][c] != piece then
        NoRunFromForeignAnchor(b, piece, a);
        FirstRun(b, piece, a + 1)
      else
        match FirstDir(b, piece, a, 0)
        case Some(d) => Some((a, d))
        case None => FirstRun(b, piece, a + 1)
  }

  /** A run found by the scan is four in a row, and a winning run of cells. */
  lemma RunAtIsFour(b: Grid, piece: int, r: int, c: int, d: int)
    requires WellFormed(b) && InBounds(r, c) && 0 <= d < |DIRS|
    ensures IsRunAt(b, piece, r, c, d) <==> Four(b, piece, r, c, DIRS[d].0, DIRS[d].1)
    ensures IsRunAt(b, piece, r, c, d) ==> IsWinningRun(b, piece, CellsFrom(r, c, DIRS[d]))
  {
    var cells := CellsFrom(r, c, DIRS[d]);
    var (dr, dc) := DIRS[d];
    assert cells[0] == (r, c) && cells[1] == (r + dr, c + dc);
    assert cells[2] == (r + 2 * dr, c + 2 * dc) && cells[3] == (r + 3 * dr, c + 3 * dc);
  }

  /** If the scan finds nothing, the player has no four in a row anywhere. */
  lemma NoRunMeansNoFour(b: Grid, piece: int)
    requires WellFormed(b) && FirstRun(b, piece, 0).None?
    ensures !HasFour(b, piece)
  {
    if HasFour(b, piece) {
      var r, c, dr, dc :| (dr, dc) in DIR_SET && Four(b, piece, r, c, dr, dc);
      var d := if (dr, dc) == DIRS[0] then 0 else if (dr, dc) == DIRS[1] then 1
               else if (dr, dc) == DIRS[2] then 2 else 3;
      assert DIRS[d] == (dr, dc);
      AnchorOf(r, c);
      RunAtIsFour(b, piece, r, c, d);
      assert RunAt(b, piece, r * COLS + c, d);
      assert false;
    }
  }

  /**
   The first run of four `piece` cells in scan order, or None. A returned run
   is a winning run, and None is returned exactly when there is no four in a row.
   */
  function WinningCells(b: Grid, piece: int): (res: Option<seq<Cell>>)
    requires WellFormed(b)
    ensures res.Some? ==> IsWinningRun(b, piece, res.value)
    ensures res.None? <==> !HasFour(b, piece)
  {
    match FirstRun(b, piece, 0)
    case None =>
      NoRunMeansNoFour(b, piece);
      None
    case Some((a, d)) =>
      var (r, c) := Anchor(a);
      RunAtIsFour(b, piece, r, c, d);
      Some(CellsFrom(r, c, DIRS[d]))
  }

  // ---------------------------------------------------------------------------
  // The unit tests' boards

  /** A column of four red discs from the bottom: the scan reports exactly those cells. */
  lemma VerticalWinExample()
    ensures var b := PlacePiece(PlacePiece(PlacePiece(PlacePiece(NewBoard(), 0, 0, RED), 1, 0, RED), 2, 0, RED), 3, 0, RED);
            WinningCells(b, RED) == Some([(0, 0), (1, 0), (2, 0), (3, 0)])
  {
    var b := PlacePiece(PlacePiece(PlacePiece(PlacePiece(NewBoard(), 0, 0, RED), 1, 0, RED), 2, 0, RED), 3, 0, RED);
    assert b[0][0] == RED && b[1][0] == RED && b[2][0] == RED && b[3][0] == RED;
    assert b[0][1] == EMPTY;
    var cells := CellsFrom(0, 0, DIRS[1]);
    assert cells == [(0, 0), (1, 0), (2, 0), (3, 0)];
    assert RunAt(b, RED, 0, 1);
    assert !RunAt(b, RED, 0, 0) by {
      assert CellsFrom(0, 0, DIRS[0])[1] == (0, 1);
    }
    var found := FirstRun(b, RED, 0);
    assert found == Some((0, 1));
  }

  /** Four yellow discs along the bottom row from column 0: the scan reports exactly those cells. */
  lemma HorizontalWinExample()
    ensures var b := PlacePiece(PlacePiece(PlacePiece(PlacePiece(NewBoard(), 0, 0, YELLOW), 0, 1, YELLOW), 0, 2, YELLOW), 0, 3, YELLOW);
            WinningCells(b, YELLOW) == Some([(0, 0), (0, 1), (0, 2), (0, 3)])
  {
    var b := PlacePiece(PlacePiece(PlacePiece(PlacePiece(NewBoard(), 0, 0, YELLOW), 0, 1, YELLOW), 0, 2, YELLOW), 0, 3, YELLOW);
    assert b[0][0] == YELLOW && b[0][1] == YELLOW && b[0][2] == YELLOW && b[0][3] == YELLOW;
    var cells := CellsFrom(0, 0, DIRS[0]);
    assert cells == [(0, 0), (0, 1), (0, 2), (0, 3)];
    assert RunAt(b, YELLOW, 0, 0);
    var found := FirstRun(b, YELLOW, 0);
    assert found == Some((0, 0));
  }

  /** On a board with a single `piece` disc there is no four in a row for `piece`. */
  lemma SingleDiscNoFour(b: Grid, piece: int, r: int, c: int)
    requires WellFormed(b) && InBounds(r, c)
    requires forall r', c' :: InBounds(r', c') && (r', c') != (r, c) ==> b[r'][c'] != piece
    ensures !HasFour(b, piece)
  {
  }

  /**
   A full board, rows bottom to top, with 21 discs of each colour (as many as
   alternating play leaves) and no four in a row for either player.
   */
  function DrawBoard(): Grid {
    [[1, 1, 2, 2, 1, 1, 2], [1, 1, 2, 2, 1, 1, 2], [2, 2, 1, 1, 2, 2, 1],
     [1, 1, 2, 2, 1, 1, 2], [2, 2, 1, 1, 2, 2, 1], [2, 2, 1, 1, 2, 2, 1]]
  }

  /** No piece value has four in a row on DrawBoard. */
  lemma DrawBoardHasNoFour(piece: int)
    ensures WellFormed(DrawBoard()) && !HasFour(DrawBoard(), piece)
  {
  }

  /** A full, fully occupied board on which the scan finds no run for either player. */
  lemma DrawExample()
    ensures var b := DrawBoard();
            && WellFormed(b) && IsFull(b) && AllOccupied(b)
            && WinningCells(b, RED).None? && WinningCells(b, YELLOW).None?
  {
    DrawBoardHasNoFour(RED);
    DrawBoardHasNoFour(YELLOW);
  }
}
