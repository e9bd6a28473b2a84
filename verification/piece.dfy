/** The active piece (`Tetrimino`): its rotation states, its position on the
    board, and the moves that go through the single collision test. */
module Piece {

  import opened Wrappers
  import opened Grid

  /** One rotation state: a 4 by 4 matrix of cell values, 0 where it is empty. */
  type Matrix = seq<seq<int>>

  predicate IsMatrix(m: Matrix)
  {
    |m| == 4 && forall i :: 0 <= i < 4 ==> |m[i]| == 4
  }

  /** The matrix has at least one occupied cell. */
  ghost predicate HasCell(m: Matrix)
    requires IsMatrix(m)
  {
    exists i, j :: 0 <= i < 4 && 0 <= j < 4 && m[i][j] != 0
  }

  /** `x` is the column of the matrix's left edge and may be negative; `y` is the
      row of its top edge; `currentState` indexes `states`. */
  datatype Tetrimino = Tetrimino(states: seq<Matrix>, x: int, y: nat, currentState: nat)

  predicate Valid(p: Tetrimino)
  {
    p.currentState < |p.states| && forall s :: 0 <= s < |p.states| ==> IsMatrix(p.states[s])
  }

  /** A valid piece none of whose states is empty; a hard drop of an empty
      state would never stop. */
  ghost predicate Solid(p: Tetrimino)
  {
    Valid(p) && forall s :: 0 <= s < |p.states| ==> HasCell(p.states[s])
  }

  /** Reference definition of legality: every occupied cell of `m`, with the
      matrix's corner at (x, y), lands on a board cell that does not block.
      Empty matrix cells impose nothing. */
  ghost predicate Fits(b: Board, m: Matrix, x: int, y: nat)
    requires IsMatrix(m)
  {
    forall i, j :: 0 <= i < 4 && 0 <= j < 4 && m[i][j] != 0 ==> !Blocking(b, x + j, y + i)
  }

  /** The piece's own placement is legal. */
  ghost predicate Placed(b: Board, p: Tetrimino)
    requires Valid(p)
  {
    Fits(b, p.states[p.currentState], p.x, p.y)
  }

  /** The inner loop of `test_position`: columns `dx..3` of one matrix row,
      placed on board row `yy`; stops at the first blocked cell. */
  function TestRowFrom(b: Board, mrow: seq<int>, x: int, yy: nat, dx: nat): (ok: bool)
    requires |mrow| == 4 && dx <= 4
    decreases 4 - dx
    ensures ok <==> forall j :: dx <= j < 4 && mrow[j] != 0 ==> !Blocking(b, x + j, yy)
  {
    if dx == 4 then true
    else if mrow[dx] != 0 && Blocking(b, x + dx, yy) then false
    else TestRowFrom(b, mrow, x, yy, dx + 1)
  }

  /** The outer loop of `test_position`: matrix rows `dy..3`. */
  function TestRowsFrom(b: Board, m: Matrix, x: int, y: nat, dy: nat): (ok: bool)
    requires IsMatrix(m) && dy <= 4
    decreases 4 - dy
    ensures ok <==> forall i, j :: dy <= i < 4 && 0 <= j < 4 && m[i][j] != 0 ==> !Blocking(b, x + j, y + i)
  {
    if dy == 4 then true
    else if !TestRowFrom(b, m[dy], x, y + dy, 0) then false
    else TestRowsFrom(b, m, x, y, dy + 1)
  }

  /** `test_position`: the scan over all 16 matrix cells agrees with `Fits`. */
  function TestPosition(p: Tetrimino, b: Board, s: nat, x: int, y: nat): (ok: bool)
    requires Valid(p) && s < |p.states|
    ensures ok <==> Fits(b, p.states[s], x, y)
  {
    TestRowsFrom(b, p.states[s], x, y, 0)
  }

  /** `test_current_position`: the piece's own state and position. */
  function TestCurrentPosition(p: Tetrimino, b: Board): (ok: bool)
    requires Valid(p)
    ensures ok <==> Placed(b, p)
  {
    TestPosition(p, b, p.currentState, p.x, p.y)
  }

  /** Outcome of a move attempt: whether it was committed, and the piece after it. */
  datatype Moved = Moved(ok: bool, piece: Tetrimino)

  /** `change_position`: move to (nx, ny) if the current state fits there;
      otherwise the piece is left exactly as it was. */
  function ChangePosition(p: Tetrimino, b: Board, nx: int, ny: nat): (r: Moved)
    requires Valid(p)
    ensures r.ok <==> Fits(b, p.states[p.currentState], nx, ny)
    ensures r.ok ==> r.piece == p.(x := nx, y := ny)
    ensures !r.ok ==> r.piece == p
    ensures Valid(r.piece) && r.piece.states == p.states && r.piece.currentState == p.currentState
  {
    if TestPosition(p, b, p.currentState, nx, ny) then Moved(true, p.(x := nx, y := ny))
    else Moved(false, p)
  }

  /** The horizontal offsets `rotate` tries, in order. */
  const Kicks: seq<int> := [0, -1, 1, -2, 2, -3]

  /** The state after the current one, wrapping to 0 after the last. */
  function NextState(p: Tetrimino): (s: nat)
    requires Valid(p)
    ensures s < |p.states|
    ensures s == 0 <==> p.currentState == |p.states| - 1
    ensures s != 0 ==> s == p.currentState + 1
  {
    if p.currentState + 1 >= |p.states| then 0 else p.currentState + 1
  }

  /** The rotation order is cyclic: the next state is the current one plus
      one, modulo the number of states. */
  lemma NextStateWraps(p: Tetrimino)
    requires Valid(p)
    ensures NextState(p) == (p.currentState + 1) % |p.states|
  {
  }

  /** The next state fits at the piece's row, shifted by kick `i`. */
  ghost predicate KickFits(p: Tetrimino, b: Board, i: nat)
    requires Valid(p) && i < |Kicks|
  {
    Fits(b, p.states[NextState(p)], p.x + Kicks[i], p.y)
  }

  /** The kick loop of `rotate`: the first kick index at or after `i` at which
      the next state fits. */
  function FirstKick(p: Tetrimino, b: Board, i: nat): (r: Option<nat>)
    requires Valid(p) && i <= |Kicks|
    decreases |Kicks| - i
    ensures r.Some? ==> i <= r.value < |Kicks| && KickFits(p, b, r.value)
    ensures forall j :: i <= j < (if r.Some? then r.value else |Kicks|) ==> !KickFits(p, b, j)
  {
    if i == |Kicks| then None
    else if TestPosition(p, b, NextState(p), p.x + Kicks[i], p.y) then Some(i)
    else FirstKick(p, b, i + 1)
  }

  /** `rotate`: advance to the next state at the first kick that fits, or
      stay unchanged when none does. The row never changes. */
  function Rotate(p: Tetrimino, b: Board): (r: Tetrimino)
    requires Valid(p)
    ensures Valid(r) && r.states == p.states && r.y == p.y
    ensures forall i :: 0 <= i < |Kicks| && KickFits(p, b, i) && (forall j :: 0 <= j < i ==> !KickFits(p, b, j)) ==>
              r == p.(currentState := NextState(p), x := p.x + Kicks[i])
    ensures (forall j :: 0 <= j < |Kicks| ==> !KickFits(p, b, j)) ==> r == p
  {
    match FirstKick(p, b, 0)
    case None => p
    case Some(k) =>
      assert forall i :: 0 <= i < |Kicks| && KickFits(p, b, i) && (forall j :: 0 <= j < i ==> !KickFits(p, b, j)) ==> i == k by {
        forall i | 0 <= i < |Kicks| && KickFits(p, b, i) && (forall j :: 0 <= j < i ==> !KickFits(p, b, j))
          ensures i == k
        {
          FirstFitIsUnique(p, b, k, i);
        }
      }
      p.(currentState := NextState(p), x := p.x + Kicks[k])
  }

  /** A rotation commits only a placement that fits, so a legal piece stays
      legal. */
  lemma RotatePlaced(p: Tetrimino, b: Board)
    requires Valid(p) && Placed(b, p)
    ensures Placed(b, Rotate(p, b))
  {
    match FirstKick(p, b, 0)
    case None =>
    case Some(k) =>
      var r := Rotate(p, b);
      assert r.states == p.states && r.currentState == NextState(p) && r.x == p.x + Kicks[k] && r.y == p.y;
      assert KickFits(p, b, k);
  }

  /** Only one kick index can be the first that fits. */
  lemma FirstFitIsUnique(p: Tetrimino, b: Board, k: nat, i: nat)
    requires Valid(p) && k < |Kicks| && i < |Kicks|
    requires KickFits(p, b, k) && forall j :: 0 <= j < k ==> !KickFits(p, b, j)
    requires KickFits(p, b, i) && forall j :: 0 <= j < i ==> !KickFits(p, b, j)
    ensures i == k
  {
  }

  /** An occupied cell that fits lies above the bottom row, so the piece's row
      is inside the board. */
  lemma FitsAboveFloor(b: Board, m: Matrix, x: int, y: nat)
    requires IsMatrix(m) && HasCell(m) && Fits(b, m, x, y)
    ensures y < |b|
  {
    var i, j :| 0 <= i < 4 && 0 <= j < 4 && m[i][j] != 0;
    assert !Blocking(b, x + j, y + i);
  }

  /** The hard-drop loop of `handle_events`: keep moving one row down while the
      move succeeds. The result is the piece at the last row reached; every row
      passed fits and the next one does not. */
  function HardDrop(p: Tetrimino, b: Board): (r: Tetrimino)
    requires Valid(p) && HasCell(p.states[p.currentState])
    decreases |b| - p.y
    ensures r == p.(y := r.y) && p.y <= r.y
    ensures !Fits(b, p.states[p.currentState], p.x, r.y + 1)
    ensures forall k :: p.y < k <= r.y ==> Fits(b, p.states[p.currentState], p.x, k)
  {
    var m := ChangePosition(p, b, p.x, p.y + 1);
    if m.ok then
      FitsAboveFloor(b, p.states[p.currentState], p.x, p.y + 1);
      HardDrop(m.piece, b)
    else p
  }

  /** A hard drop keeps a legal piece legal. */
  lemma HardDropPlaced(p: Tetrimino, b: Board)
    requires Valid(p) && HasCell(p.states[p.currentState]) && Placed(b, p)
    ensures Valid(HardDrop(p, b)) && Placed(b, HardDrop(p, b))
  {
    var r := HardDrop(p, b);
    if r.y > p.y {
      assert Fits(b, p.states[p.currentState], p.x, r.y);
    }
  }

}
