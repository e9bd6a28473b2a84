/** The playfield: an ordered sequence of rows of cell values. A cell holds 0 when
    it is empty and the id (1..7) of the piece kind that was locked into it
    otherwise. */
module Grid {

  /** Board dimensions, fixed by `Tetris::new` and restored by `check_lines`. */
  const Height: nat := 16
  const Width: nat := 10

  type Row = seq<int>
  type Board = seq<Row>

  /** The all-empty row `check_lines` inserts at the top. */
  const EmptyRow: Row := [0, 0, 0, 0, 0, 0, 0, 0, 0, 0]

  /** The shape every public operation keeps: `Height` rows of `Width` cells. */
  ghost predicate WellShaped(b: Board)
  {
    |b| == Height && forall r :: 0 <= r < |b| ==> |b[r]| == Width
  }

  /** Only the empty value and the seven piece ids appear. */
  ghost predicate CellsInRange(b: Board)
  {
    forall r, c :: 0 <= r < |b| && 0 <= c < |b[r]| ==> 0 <= b[r][c] <= 7
  }

  /** A row `check_lines` removes: none of its cells is empty. */
  predicate IsFull(row: Row)
  {
    forall c :: 0 <= c < |row| ==> row[c] != 0
  }

  /** Whether the board rejects a piece cell at column `x` of row `y`: the row is
      at or below the bottom, the column is left of 0 or past the row's end, or
      the cell there is occupied. There is no check against the top edge since
      `y` is never negative. */
  predicate Blocking(b: Board, x: int, y: nat)
  {
    y >= |b| || x < 0 || x >= |b[y]| || b[y][x] != 0
  }

}
