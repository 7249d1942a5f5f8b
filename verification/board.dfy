/**
 Pure board logic of Connect Four: a grid of six rows by seven columns of
 integer cells, row 0 being the bottom row. A cell holds 0 when it is empty,
 1 for a red disc and 2 for a yellow disc.
 */
module Board {
  import opened Wrappers

  const ROWS: int := 6
  const COLS: int := 7

  /** Cell values. */
  const EMPTY: int := 0
  const RED: int := 1
  const YELLOW: int := 2

  /** A board is a list of rows, each row a list of cells. */
  type Grid = seq<seq<int>>

  /** The shape every board operation relies on: ROWS rows of COLS cells. */
  predicate WellFormed(b: Grid) {
    |b| == ROWS && forall r :: 0 <= r < |b| ==> |b[r]| == COLS
  }

  predicate InBounds(r: int, c: int) {
    0 <= r < ROWS && 0 <= c < COLS
  }

  /** No disc sits above an empty hole of the same column. */
  ghost predicate Gravity(b: Grid)
    requires WellFormed(b)
  {
    forall r, r', c :: 0 <= r < r' < ROWS && 0 <= c < COLS && b[r'][c] != EMPTY ==> b[r][c] != EMPTY
  }

  /** Every cell of the board holds a disc. */
  ghost predicate AllOccupied(b: Grid)
    requires WellFormed(b)
  {
    forall r, c :: InBounds(r, c) ==> b[r][c] != EMPTY
  }

  /** A fresh board: every hole empty. */
  function NewBoard(): (b: Grid)
    ensures WellFormed(b)
    ensures forall r, c :: InBounds(r, c) ==> b[r][c] == EMPTY
  {
    seq(ROWS, _ => seq(COLS, _ => EMPTY))
  }

  /** The column index is on the board and its top hole is still empty. */
  predicate ColumnHasSpace(b: Grid, col: int)
    requires WellFormed(b)
  {
    0 <= col < COLS && b[ROWS - 1][col] == EMPTY
  }

  /** The lowest empty row of column `col`, or None when the column is full. */
  function NextOpenRow(b: Grid, col: int): (r: Option<int>)
    requires WellFormed(b) && 0 <= col < COLS
    ensures r.Some? ==> 0 <= r.value < ROWS && b[r.value][col] == EMPTY
    ensures r.Some? ==> forall k :: 0 <= k < r.value ==> b[k][col] != EMPTY
    ensures r.None? <==> forall k :: 0 <= k < ROWS ==> b[k][col] != EMPTY
  {
    OpenRowFrom(b, col, 0)
  }

  /** The scan of NextOpenRow, from row `from` upward. */
  function OpenRowFrom(b: Grid, col: int, from: int): (r: Option<int>)
    requires WellFormed(b) && 0 <= col < COLS && 0 <= from <= ROWS
    ensures r.Some? ==> from <= r.value < ROWS && b[r.value][col] == EMPTY
    ensures r.Some? ==> forall k :: from <= k < r.value ==> b[k][col] != EMPTY
    ensures r.None? <==> forall k :: from <= k < ROWS ==> b[k][col] != EMPTY
    decreases ROWS - from
  {
    if from == ROWS then None
    else if b[from][col] == EMPTY then Some(from)
    else OpenRowFrom(b, col, from + 1)
  }

  /** Writes `piece` into cell (r, c); every other cell keeps its value. */
  function PlacePiece(b: Grid, r: int, c: int, piece: int): (b': Grid)
    requires WellFormed(b) && InBounds(r, c)
    ensures WellFormed(b')
    ensures b'[r][c] == piece
    ensures forall r', c' :: InBounds(r', c') && (r', c') != (r, c) ==> b'[r'][c'] == b[r'][c']
  {
    b[r := b[r][c := piece]]
  }

  /** The top row has no empty hole. */
  predicate IsFull(b: Grid)
    requires WellFormed(b)
  {
    var top := b[ROWS - 1];
    forall c :: 0 <= c < COLS ==> top[c] != EMPTY
  }

  /** A fresh board trivially respects gravity. */
  lemma NewBoardGravity()
    ensures Gravity(NewBoard())
  {
  }

  /**
   Under gravity, a column has space exactly when it is on the board and holds
   an empty cell somewhere, which is exactly when NextOpenRow finds a row.
   */
  lemma ColumnHasSpaceIffOpenCell(b: Grid, col: int)
    requires WellFormed(b) && Gravity(b)
    ensures ColumnHasSpace(b, col) <==> 0 <= col < COLS && exists r :: 0 <= r < ROWS && b[r][col] == EMPTY
    ensures ColumnHasSpace(b, col) <==> 0 <= col < COLS && NextOpenRow(b, col).Some?
  {
  }

  /** Dropping a disc at the lowest open row keeps the gravity invariant. */
  lemma DropPreservesGravity(b: Grid, col: int, piece: int)
    requires WellFormed(b) && Gravity(b)
    requires 0 <= col < COLS && NextOpenRow(b, col).Some?
    ensures Gravity(PlacePiece(b, NextOpenRow(b, col).value, col, piece))
  {
  }

  /** Writing a disc above an empty hole breaks gravity: the drop row matters. */
  lemma PlaceAboveHoleBreaksGravity(b: Grid, r: int, c: int, piece: int)
    requires WellFormed(b) && InBounds(r, c) && 0 < r
    requires b[r - 1][c] == EMPTY && piece != EMPTY
    ensures !Gravity(PlacePiece(b, r, c, piece))
  {
  }

  /** Under gravity, a full top row means a full board. */
  lemma IsFullIffAllOccupied(b: Grid)
    requires WellFormed(b) && Gravity(b)
    ensures IsFull(b) <==> AllOccupied(b)
  {
    if IsFull(b) {
      forall r, c | InBounds(r, c)
        ensures b[r][c] != EMPTY
      {
        if r < ROWS - 1 {
          assert b[ROWS - 1][c] != EMPTY;
        }
      }
    }
  }

  /** Without gravity the top-row test is not enough: a board can pass it with holes below. */
  lemma IsFullWithoutGravity()
    ensures exists b :: WellFormed(b) && IsFull(b) && !AllOccupied(b)
  {
    var b := NewBoard()[ROWS - 1 := seq(COLS, _ => RED)];
    assert WellFormed(b);
    assert b[0][0] == EMPTY;
    assert IsFull(b) && !AllOccupied(b);
  }

  /** The board of every cell red (as built by hand in the unit tests) is full. */
  lemma AllRedBoardIsFull()
    ensures var b := seq(ROWS, _ => seq(COLS, _ => RED)); WellFormed(b) && IsFull(b) && AllOccupied(b)
  {
  }

  /** Three drops into one empty column land at rows 0, 1 and 2 in that order. */
  lemma ThreeDropsStack(col: int, piece: int)
    requires 0 <= col < COLS && piece != EMPTY
    ensures var b0 := NewBoard();
            && NextOpenRow(b0, col) == Some(0)
            && var b1 := PlacePiece(b0, 0, col, piece);
            && NextOpenRow(b1, col) == Some(1)
            && var b2 := PlacePiece(b1, 1, col, piece);
            && NextOpenRow(b2, col) == Some(2)
  {
  }
}
