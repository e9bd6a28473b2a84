/** The decisions one frame of the main loop takes: the end-of-batch lock rule
    of `handle_events`, the gravity branch, and the spawn and game-over test.
    Input arrives as a list of abstract intents and time as elapsed
    milliseconds. */
module Step {

  import opened Wrappers
  import opened Grid
  import opened Piece
  import opened Catalog
  import opened Levels
  import opened Session

  /** The keys `handle_events` reacts to: quit or Escape, Down, Left, Right,
      Up (rotate) and Space (hard drop). Other events are not intents. */
  datatype Intent = QuitGame | SoftDrop | MoveLeft | MoveRight | RotatePiece | HardDropPiece

  /** Where the end-of-batch move aims after a hard drop. `TargetStays` is the
      code as written: the target keeps the coordinates captured before the
      batch. `TargetFollowsDrop` moves the target to the landing spot. */
  datatype DropRule = TargetStays | TargetFollowsDrop

  /** The intents the batch loop reads: everything before the first quit. */
  function Active(intents: seq<Intent>): (r: seq<Intent>)
    ensures QuitGame !in r
    ensures QuitGame !in intents ==> r == intents
    ensures |r| <= |intents| && r == intents[..|r|]
    ensures |r| < |intents| ==> intents[|r|] == QuitGame
  {
    if |intents| == 0 || intents[0] == QuitGame then []
    else [intents[0]] + Active(intents[1..])
  }

  function CountOf(s: seq<Intent>, k: Intent): nat
  {
    if |s| == 0 then 0 else (if s[0] == k then 1 else 0) + CountOf(s[1..], k)
  }

  /** The loop state of `handle_events`: the piece, which rotations and hard
      drops change at once; the target `tmp_x`/`tmp_y`, which moves only
      accumulate; and the quit and timer-reset flags. */
  datatype Batch = Batch(piece: Tetrimino, tx: int, ty: nat, quit: bool, timerReset: bool)

  /** One intent other than quit, as one pass of the event loop handles it.
      Moves only shift the target; a rotation or hard drop changes the piece
      at once and keeps a legal piece legal; only a soft drop resets the
      timer. */
  function Perform(bt: Batch, b: Board, i: Intent, rule: DropRule): (r: Batch)
    requires Solid(bt.piece) && i != QuitGame
    ensures Solid(r.piece) && r.piece.states == bt.piece.states
    ensures r.quit == bt.quit && r.timerReset == (bt.timerReset || i == SoftDrop)
    ensures Placed(b, bt.piece) ==> Placed(b, r.piece)
    ensures i != RotatePiece && i != HardDropPiece ==> r.piece == bt.piece
    ensures rule == TargetStays ==>
              r.tx == bt.tx + (if i == MoveRight then 1 else if i == MoveLeft then -1 else 0) &&
              r.ty == bt.ty + (if i == SoftDrop then 1 else 0)
  {
    match i
    case SoftDrop => bt.(ty := bt.ty + 1, timerReset := true)
    case MoveRight => bt.(tx := bt.tx + 1)
    case MoveLeft => bt.(tx := bt.tx - 1)
    case RotatePiece =>
      assert Placed(b, bt.piece) ==> Placed(b, Rotate(bt.piece, b)) by {
        if Placed(b, bt.piece) { RotatePlaced(bt.piece, b); }
      }
      bt.(piece := Rotate(bt.piece, b))
    case HardDropPiece =>
      var d := HardDrop(bt.piece, b);
      assert Placed(b, bt.piece) ==> Placed(b, d) by {
        if Placed(b, bt.piece) { HardDropPlaced(bt.piece, b); }
      }
      if rule == TargetStays then bt.(piece := d)
      else bt.(piece := d, tx := d.x, ty := d.y)
  }

  /** The event loop of `handle_events`: each intent is performed in turn
      until a quit, which raises the quit flag and stops reading the batch.
      The piece keeps its states and never becomes invalid. */
  function ApplyIntents(bt: Batch, b: Board, intents: seq<Intent>, rule: DropRule): (r: Batch)
    requires Solid(bt.piece)
    decreases |intents|
    ensures Solid(r.piece) && r.piece.states == bt.piece.states
  {
    if |intents| == 0 then bt
    else if intents[0] == QuitGame then bt.(quit := true)
    else ApplyIntents(Perform(bt, b, intents[0], rule), b, intents[1..], rule)
  }

  /** The quit flag is raised exactly when the batch holds a quit, and the
      timer is reset exactly when a soft drop is read before it. */
  lemma {:induction false} BatchFlags(bt: Batch, b: Board, intents: seq<Intent>, rule: DropRule)
    requires Solid(bt.piece)
    decreases |intents|
    ensures ApplyIntents(bt, b, intents, rule).quit == (bt.quit || QuitGame in intents)
    ensures ApplyIntents(bt, b, intents, rule).timerReset == (bt.timerReset || SoftDrop in Active(intents))
  {
    if |intents| > 0 && intents[0] != QuitGame {
      var rest := intents[1..];
      assert intents == [intents[0]] + rest;
      assert Active(intents) == [intents[0]] + Active(rest);
      BatchFlags(Perform(bt, b, intents[0], rule), b, rest, rule);
    }
  }

  /** A piece that starts the batch legal ends it legal: rotations and hard
      drops only ever commit legal placements. */
  lemma {:induction false} BatchKeepsPlacement(bt: Batch, b: Board, intents: seq<Intent>, rule: DropRule)
    requires Solid(bt.piece) && Placed(b, bt.piece)
    decreases |intents|
    ensures Placed(b, ApplyIntents(bt, b, intents, rule).piece)
  {
    if |intents| > 0 && intents[0] != QuitGame {
      BatchKeepsPlacement(Perform(bt, b, intents[0], rule), b, intents[1..], rule);
    }
  }

  /** As written, the target ends up shifted by the right, left and down
      moves read before any quit, whatever rotations and hard drops did to
      the piece. */
  lemma {:induction false} BatchTarget(bt: Batch, b: Board, intents: seq<Intent>)
    requires Solid(bt.piece)
    decreases |intents|
    ensures var r := ApplyIntents(bt, b, intents, TargetStays);
            var a := Active(intents);
            r.tx == bt.tx + CountOf(a, MoveRight) - CountOf(a, MoveLeft) &&
            r.ty == bt.ty + CountOf(a, SoftDrop)
  {
    if |intents| > 0 && intents[0] != QuitGame {
      var rest := intents[1..];
      assert Active(intents) == [intents[0]] + Active(rest);
      BatchTarget(Perform(bt, b, intents[0], TargetStays), b, rest);
    }
  }

  /** The batch applied to the session's piece, starting from the target
      captured before the batch (`tmp_x`, `tmp_y`). */
  function Settled(t: Tetris, intents: seq<Intent>, rule: DropRule): (r: Batch)
    requires t.current.Some? && Solid(t.current.value)
    ensures Solid(r.piece) && r.piece.states == t.current.value.states
    ensures r.quit == (QuitGame in intents)
    ensures rule == TargetStays ==>
              r.tx == t.current.value.x + CountOf(Active(intents), MoveRight) - CountOf(Active(intents), MoveLeft) &&
              r.ty == t.current.value.y + CountOf(Active(intents), SoftDrop)
  {
    var p := t.current.value;
    var bt := Batch(p, p.x, p.y, false, false);
    BatchFlags(bt, t.grid, intents, rule);
    BatchTarget(bt, t.grid, intents);
    ApplyIntents(bt, t.grid, intents, rule)
  }

  /** The lock rule at the end of `handle_events`: the move to the target
      failed and the target row is not the piece's row. */
  predicate Locks(t: Tetris, intents: seq<Intent>, rule: DropRule): (r: bool)
    requires t.current.Some? && Solid(t.current.value)
    ensures r <==> !Fits(t.grid, Settled(t, intents, rule).piece.states[Settled(t, intents, rule).piece.currentState],
                         Settled(t, intents, rule).tx, Settled(t, intents, rule).ty) &&
                   Settled(t, intents, rule).ty != Settled(t, intents, rule).piece.y
  {
    var bt := Settled(t, intents, rule);
    var m := ChangePosition(bt.piece, t.grid, bt.tx, bt.ty);
    !m.ok && bt.ty != m.piece.y
  }

  /** The session handed to `make_permanent` when the batch locks. */
  function LockedInput(t: Tetris, intents: seq<Intent>, rule: DropRule): Tetris
    requires t.current.Some? && Solid(t.current.value)
  {
    t.(current := Some(Settled(t, intents, rule).piece))
  }

  datatype Events = Events(tetris: Tetris, quit: bool, locked: bool, timerReset: bool)

  /** `handle_events` with the hard-drop target rule as a parameter. */
  function HandleEventsWith(t: Tetris, intents: seq<Intent>, rule: DropRule): (r: Events)
    requires t.current.Some? ==> Solid(t.current.value)
    requires t.current.Some? && Locks(t, intents, rule) ==> CanMakePermanent(LockedInput(t, intents, rule))
    ensures t.current.None? ==> r == Events(t, false, false, false)
    ensures t.current.Some? ==> r.quit == (QuitGame in intents)
    ensures t.current.Some? ==> (r.locked <==> Locks(t, intents, rule))
    ensures t.current.Some? ==>
              var bt := Settled(t, intents, rule);
              (r.locked <==> !Fits(t.grid, bt.piece.states[bt.piece.currentState], bt.tx, bt.ty) && bt.ty != bt.piece.y)
    ensures r.locked ==> r.tetris == MakePermanent(LockedInput(t, intents, rule)) && r.timerReset
    ensures t.current.Some? && !r.locked ==>
              r.timerReset == (SoftDrop in Active(intents)) &&
              r.tetris == t.(current := Some(ChangePosition(Settled(t, intents, rule).piece, t.grid,
                                                            Settled(t, intents, rule).tx, Settled(t, intents, rule).ty).piece))
    ensures t.current.Some? && !r.locked && Placed(t.grid, t.current.value) ==>
              r.tetris.current.Some? && Valid(r.tetris.current.value) && Placed(t.grid, r.tetris.current.value)
    ensures r.tetris.score >= t.score && r.tetris.lines >= t.lines && r.tetris.level >= t.level
  {
    match t.current
    case None => Events(t, false, false, false)
    case Some(p) =>
      var bt := Settled(t, intents, rule);
      BatchFlags(Batch(p, p.x, p.y, false, false), t.grid, intents, rule);
      assert Placed(t.grid, p) ==> Placed(t.grid, bt.piece) by {
        if Placed(t.grid, p) { BatchKeepsPlacement(Batch(p, p.x, p.y, false, false), t.grid, intents, rule); }
      }
      var m := ChangePosition(bt.piece, t.grid, bt.tx, bt.ty);
      if !m.ok && bt.ty != m.piece.y then
        Events(MakePermanent(LockedInput(t, intents, rule)), bt.quit, true, true)
      else
        Events(t.(current := Some(m.piece)), bt.quit, false, bt.timerReset)
  }

  /** The target column as written: the column before the batch, plus one
      per right move and minus one per left move read before any quit. */
  function TargetX(p: Tetrimino, intents: seq<Intent>): int
  {
    p.x + CountOf(Active(intents), MoveRight) - CountOf(Active(intents), MoveLeft)
  }

  /** The target row as written: the row before the batch plus one per soft
      drop read before any quit. */
  function TargetY(p: Tetrimino, intents: seq<Intent>): nat
  {
    p.y + CountOf(Active(intents), SoftDrop)
  }

  /** `handle_events` as written. With a piece, it locks exactly when the
      state the piece has after the batch does not fit at the target taken
      from the position before the batch, and the target row differs from
      the piece's row. */
  function HandleEvents(t: Tetris, intents: seq<Intent>): (r: Events)
    requires t.current.Some? ==> Solid(t.current.value)
    requires t.current.Some? && Locks(t, intents, TargetStays) ==> CanMakePermanent(LockedInput(t, intents, TargetStays))
    ensures t.current.Some? ==>
              (r.locked <==>
                 !Fits(t.grid, Settled(t, intents, TargetStays).piece.states[Settled(t, intents, TargetStays).piece.currentState],
                       TargetX(t.current.value, intents), TargetY(t.current.value, intents)) &&
                 TargetY(t.current.value, intents) != Settled(t, intents, TargetStays).piece.y)
    ensures t.current.None? ==> r == Events(t, false, false, false)
    ensures t.current.Some? ==> (r.locked <==> Locks(t, intents, TargetStays))
    ensures r.locked ==> r.tetris == MakePermanent(LockedInput(t, intents, TargetStays)) && r.timerReset
    ensures r.tetris.score >= t.score && r.tetris.lines >= t.lines && r.tetris.level >= t.level
  {
    if t.current.Some? then
      var p := t.current.value;
      BatchTarget(Batch(p, p.x, p.y, false, false), t.grid, intents);
      assert Settled(t, intents, TargetStays).tx == TargetX(p, intents);
      assert Settled(t, intents, TargetStays).ty == TargetY(p, intents);
      HandleEventsWith(t, intents, TargetStays)
    else HandleEventsWith(t, intents, TargetStays)
  }

  /** As written, a hard drop is undone: the end-of-batch move takes a legal
      piece straight back to where the batch started, and nothing locks. */
  lemma HardDropUndone(t: Tetris)
    requires t.current.Some? && Solid(t.current.value) && Placed(t.grid, t.current.value)
    ensures !Locks(t, [HardDropPiece], TargetStays)
    ensures HandleEvents(t, [HardDropPiece]) == Events(t, false, false, false)
  {
    var p := t.current.value;
    var d := HardDrop(p, t.grid);
    assert Settled(t, [HardDropPiece], TargetStays) == Batch(d, p.x, p.y, false, false);
    assert d.(x := p.x, y := p.y) == p;
  }

  /** A board whose cells are all empty. */
  ghost predicate EmptyBoard(b: Board)
  {
    WellShaped(b) && forall k, c :: 0 <= k < |b| && 0 <= c < |b[k]| ==> b[k][c] == 0
  }

  /** On an empty board a matrix fits wherever all its occupied cells land
      inside the board. */
  lemma FitsOnEmptyBoard(b: Board, m: Matrix, x: int, y: nat)
    requires EmptyBoard(b) && IsMatrix(m)
    requires forall i, j :: 0 <= i < 4 && 0 <= j < 4 && m[i][j] != 0 ==> 0 <= x + j < Width && y + i < Height
    ensures Fits(b, m, x, y)
  {
  }

  /** A concrete case: a square freshly spawned on an empty board could fall
      (it fits one row lower), yet after a batch holding only a hard drop it
      is back where it spawned. */
  lemma HardDropUndoneOnEmptyBoard(t: Tetris)
    requires EmptyBoard(t.grid) && t.current == Some(Generate(O))
    ensures HardDrop(Generate(O), t.grid).y >= 1
    ensures !Locks(t, [HardDropPiece], TargetStays)
    ensures HandleEvents(t, [HardDropPiece]).tetris.current == Some(Generate(O))
  {
    var p := Generate(O);
    assert p.states[0] == [[4, 4, 0, 0], [4, 4, 0, 0], [0, 0, 0, 0], [0, 0, 0, 0]];
    FitsOnEmptyBoard(t.grid, p.states[0], 5, 0);
    FitsOnEmptyBoard(t.grid, p.states[0], 5, 1);
    HardDropUndone(t);
  }

  /** With the target following the drop, a hard drop leaves a legal piece on
      the lowest row it reached, without locking it. */
  lemma HardDropKeptWhenTargetFollows(t: Tetris)
    requires t.current.Some? && Solid(t.current.value) && Placed(t.grid, t.current.value)
    ensures !Locks(t, [HardDropPiece], TargetFollowsDrop)
    ensures HandleEventsWith(t, [HardDropPiece], TargetFollowsDrop) ==
            Events(t.(current := Some(HardDrop(t.current.value, t.grid))), false, false, false)
  {
    var p := t.current.value;
    var d := HardDrop(p, t.grid);
    HardDropPlaced(p, t.grid);
    assert Settled(t, [HardDropPiece], TargetFollowsDrop) == Batch(d, d.x, d.y, false, false);
    assert d.(x := d.x, y := d.y) == d;
  }

  datatype Fall = Fall(tetris: Tetris, locked: bool, timerReset: bool)

  /** The gravity branch of the main loop: when the level's interval has
      passed, try one row down; lock exactly when that fails. The timer is
      reset whenever the branch runs. */
  function Gravity(t: Tetris, elapsed: Option<nat>): (r: Fall)
    requires elapsed.Some? ==> InTable(t.level)
    requires t.current.Some? ==> Valid(t.current.value)
    requires IsTimeOver(t.level, elapsed) && t.current.Some? &&
             !Fits(t.grid, t.current.value.states[t.current.value.currentState], t.current.value.x, t.current.value.y + 1)
             ==> CanMakePermanent(t)
    ensures !IsTimeOver(t.level, elapsed) ==> r == Fall(t, false, false)
    ensures IsTimeOver(t.level, elapsed) ==> r.timerReset
    ensures r.locked <==> (IsTimeOver(t.level, elapsed) && t.current.Some? &&
                           !Fits(t.grid, t.current.value.states[t.current.value.currentState], t.current.value.x, t.current.value.y + 1))
    ensures r.locked ==> r.tetris == MakePermanent(t)
    ensures IsTimeOver(t.level, elapsed) && t.current.Some? && !r.locked ==>
              r.tetris == t.(current := Some(t.current.value.(y := t.current.value.y + 1)))
    ensures IsTimeOver(t.level, elapsed) && t.current.None? ==> r.tetris == t
    ensures r.tetris.score >= t.score && r.tetris.lines >= t.lines && r.tetris.level >= t.level
  {
    if !IsTimeOver(t.level, elapsed) then Fall(t, false, false)
    else match t.current
      case None => Fall(t, false, true)
      case Some(p) =>
        var m := ChangePosition(p, t.grid, p.x, p.y + 1);
        if !m.ok then Fall(MakePermanent(t), true, true)
        else Fall(t.(current := Some(m.piece)), false, true)
  }

  datatype Spawned = Spawned(tetris: Tetris, gameOver: bool)

  /** The spawn step of the main loop: with no active piece, create the next
      one; the game is over exactly when it does not fit where it spawned. The
      board is never touched. */
  function Spawn(t: Tetris, draws: seq<Kind>): (r: Spawned)
    requires t.current.None? ==> FirstFresh(t.last, draws, 0).Some?
    ensures t.current.Some? ==> r == Spawned(t, false)
    ensures r.tetris.grid == t.grid && r.tetris.score == t.score && r.tetris.level == t.level && r.tetris.lines == t.lines
    ensures t.current.None? ==>
              r.tetris == CreateNextTetrimino(t, draws) &&
              r.tetris.current.Some? && Valid(r.tetris.current.value) &&
              (r.gameOver <==> !Placed(t.grid, r.tetris.current.value))
  {
    if t.current.Some? then Spawned(t, false)
    else
      var t' := CreateNextTetrimino(t, draws);
      Spawned(t', !TestCurrentPosition(t'.current.value, t'.grid))
  }

  /** A lock that completes no row leaves the stamped board as it is and only
      adds one level's worth of score. */
  lemma LockWithoutClear(t: Tetris)
    requires CanLock(t) && t.current.Some? && |t.grid| == Height
    requires forall k :: 0 <= k < |PlacePiece(t).grid| ==> !IsFull(PlacePiece(t).grid[k])
    ensures CanMakePermanent(t)
    ensures MakePermanent(t) == t.(grid := PlacePiece(t).grid, score := t.score + t.level, current := None)
  {
    var pt := PlacePiece(t);
    assert pt == t.(grid := pt.grid, score := t.score + t.level);
    CheckLinesOfClearBoard(pt);
    var r := CheckLines(pt).(current := None);
    assert MakePermanent(t) == r;
    assert r == pt.(current := None);
  }

  /** The board holds 4 in columns 4 and 5 of rows 14 and 15, and is empty
      everywhere else. */
  ghost predicate SquareInCorner(b: Board)
  {
    WellShaped(b) &&
    forall k, c :: 0 <= k < Height && 0 <= c < Width ==> b[k][c] == (if 14 <= k && 4 <= c <= 5 then 4 else 0)
  }

  /** The square at column 4 on the two bottom rows of an empty board covers
      exactly columns 4 and 5 of rows 14 and 15. */
  lemma SquareStamp(t: Tetris)
    requires EmptyBoard(t.grid) && t.current == Some(Generate(O).(x := 4, y := 14))
    ensures CanLock(t)
    ensures SquareInCorner(PlacePiece(t).grid)
  {
    var p := t.current.value;
    assert p.states[0] == [[4, 4, 0, 0], [4, 4, 0, 0], [0, 0, 0, 0], [0, 0, 0, 0]];
    var g := PlacePiece(t).grid;
    forall k, c | 0 <= k < Height && 0 <= c < Width
      ensures g[k][c] == (if 14 <= k && 4 <= c <= 5 then 4 else 0)
    {
      assert Covers(p.states[0], 4, 14, k, c) <==> 14 <= k && 4 <= c <= 5;
    }
  }

  /** Locking a square at column 4 on the two bottom rows of an empty board
      sets exactly its four cells to 4, clears nothing, and scores one level's
      worth. */
  lemma LockSquareOnEmptyBoard(t: Tetris)
    requires EmptyBoard(t.grid) && t.current == Some(Generate(O).(x := 4, y := 14))
    ensures CanMakePermanent(t)
    ensures var r := MakePermanent(t);
            r.score == t.score + t.level && r.lines == t.lines && r.level == t.level && r.current.None? &&
            SquareInCorner(r.grid)
  {
    SquareStamp(t);
    var g := PlacePiece(t).grid;
    assert |g| == Height;
    forall k | 0 <= k < |g|
      ensures !IsFull(g[k])
    {
      assert g[k][0] == 0;
    }
    LockWithoutClear(t);
  }

}
