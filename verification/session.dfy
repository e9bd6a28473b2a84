/** The game session (`Tetris`): the board, the counters, the active piece and
    the last kind spawned, with the operations that spawn, lock, clear lines and
    advance the level. */
module Session {

  import opened Wrappers
  import opened Grid
  import opened Piece
  import opened Catalog
  import opened Levels

  /** `level`, `score` and `lines` are the source's `u32` counters. */
  datatype Tetris = Tetris(
    grid: Board,
    level: nat,
    score: nat,
    lines: nat,
    current: Option<Tetrimino>,
    last: Option<Kind>)

  function ZeroRows(n: nat): (r: Board)
    ensures |r| == n && forall i :: 0 <= i < n ==> r[i] == EmptyRow
  {
    seq(n, _ => EmptyRow)
  }

  /** `Tetris::new`: an empty 16 by 10 board at level 1 with nothing scored and
      no piece yet. */
  function New(): (t: Tetris)
    ensures WellShaped(t.grid)
    ensures forall r, c :: 0 <= r < |t.grid| && 0 <= c < |t.grid[r]| ==> t.grid[r][c] == 0
    ensures t.level == 1 && t.score == 0 && t.lines == 0 && t.current.None? && t.last.None?
  {
    Tetris(ZeroRows(Height), 1, 0, 0, None, None)
  }

  // ---------------------------------------------------------------------------
  // Spawning

  /** The redraw loop of `create_next_tetrimino` over a stream of random draws:
      the index of the first draw, at or after `i`, that differs from the last
      kind spawned. With no last kind the first draw is taken. */
  function FirstFresh(last: Option<Kind>, draws: seq<Kind>, i: nat): (r: Option<nat>)
    requires i <= |draws|
    decreases |draws| - i
    ensures r.Some? ==> i <= r.value < |draws| && Some(draws[r.value]) != last
    ensures forall j :: i <= j < (if r.Some? then r.value else |draws|) ==> Some(draws[j]) == last
  {
    if i == |draws| then None
    else if Some(draws[i]) != last then Some(i)
    else FirstFresh(last, draws, i + 1)
  }

  /** `create_next_tetrimino`, with the random generator's output given as
      `draws`: the new piece is a fresh instance of the first drawn kind that
      differs from the last one, and that kind becomes the last one. Nothing
      else changes. */
  function CreateNextTetrimino(t: Tetris, draws: seq<Kind>): (r: Tetris)
    requires FirstFresh(t.last, draws, 0).Some?
    ensures r.last.Some? && r.last != t.last
    ensures exists i :: 0 <= i < |draws| && (forall j :: 0 <= j < i ==> Some(draws[j]) == t.last) &&
              r == t.(last := Some(draws[i]), current := Some(Generate(draws[i])))
  {
    var i := FirstFresh(t.last, draws, 0).value;
    t.(last := Some(draws[i]), current := Some(Generate(draws[i])))
  }

  // ---------------------------------------------------------------------------
  // Counters

  /** `update_score`: add to the score; nothing else changes. */
  function UpdateScore(t: Tetris, add: nat): (r: Tetris)
    ensures r.score == t.score + add && r.score >= t.score
    ensures r == t.(score := r.score)
  {
    t.(score := t.score + add)
  }

  /** `increase_line`: one more line; the level goes up by one exactly when the
      new line count exceeds `LEVEL_LINES[level - 1]`, which needs the level to
      be inside the table. Nothing else changes. */
  function IncreaseLine(t: Tetris): (r: Tetris)
    requires InTable(t.level)
    ensures r.lines == t.lines + 1
    ensures r.level == t.level || r.level == t.level + 1
    ensures r.level == t.level + 1 <==> r.lines > LevelLines[t.level - 1]
    ensures r == t.(lines := r.lines, level := r.level)
  {
    t.(lines := t.lines + 1, level := LevelAfter(t.level, t.lines + 1))
  }

  /** `increase_line` with the level clamped at the last table entry: the level
      stays inside the table, so the next lookup is always in bounds. */
  function IncreaseLineCapped(t: Tetris): (r: Tetris)
    requires InTable(t.level)
    ensures InTable(r.level)
    ensures r.lines == t.lines + 1
    ensures r.level == t.level + 1 <==> r.lines > LevelLines[t.level - 1] && t.level < 10
    ensures r == t.(lines := r.lines, level := r.level)
  {
    t.(lines := t.lines + 1, level := LevelAfterCapped(t.level, t.lines + 1))
  }

  /** From a new game, 201 cleared lines take the level to 11: the 201st line
      is still counted in bounds, but the level is then outside both tables, so
      the next `increase_line` or `is_time_over` indexes past their end. */
  lemma LevelLeavesTable()
    ensures CanCount(New().level, New().lines, 200)
    ensures LevelAfterCount(New().level, New().lines, 200) == 10
    ensures CanCount(New().level, New().lines, 201)
    ensures LevelAfterCount(New().level, New().lines, 201) == 11 && !InTable(11)
    ensures !CanCount(New().level, New().lines, 202)
  {
    LevelClosedForm(0, 200);
    LevelClosedForm(0, 201);
    if CanCount(1, 0, 202) {
      CanCountSplit(1, 0, 201, 1);
      assert false;
    }
  }

  /** With the clamp, any number of cleared lines from a new game keeps the
      level inside the tables. */
  lemma CappedLevelStaysInTable(n: nat)
    ensures InTable(LevelAfterCountCapped(New().level, New().lines, n))
  {
  }

  // ---------------------------------------------------------------------------
  // Line clearing

  /** Number of full rows. */
  function FullCount(b: Board): (n: nat)
    ensures n <= |b|
    ensures n == |b| <==> forall i :: 0 <= i < |b| ==> IsFull(b[i])
    ensures n == 0 <==> forall i :: 0 <= i < |b| ==> !IsFull(b[i])
  {
    if |b| == 0 then 0
    else
      var n := (if IsFull(b[0]) then 1 else 0) + FullCount(b[1..]);
      assert forall i :: 1 <= i < |b| ==> b[i] == b[1..][i - 1];
      n
  }

  /** Reference definition of what line clearing keeps: the rows that are not
      full, in their original order. */
  function Survivors(b: Board): (r: Board)
    ensures |r| == |b| - FullCount(b)
    ensures forall i :: 0 <= i < |r| ==> !IsFull(r[i])
  {
    if |b| == 0 then []
    else (if IsFull(b[0]) then [] else [b[0]]) + Survivors(b[1..])
  }

  /** Every surviving row is a row of the board. */
  lemma {:induction false} SurvivorsAreRows(b: Board)
    ensures forall i :: 0 <= i < |Survivors(b)| ==> Survivors(b)[i] in b
  {
    if |b| > 0 {
      SurvivorsAreRows(b[1..]);
      var s := Survivors(b);
      var tail := Survivors(b[1..]);
      forall i | 0 <= i < |s|
        ensures s[i] in b
      {
        if IsFull(b[0]) {
          assert s[i] == tail[i] && tail[i] in b[1..];
        } else if i > 0 {
          assert s[i] == tail[i - 1] && tail[i - 1] in b[1..];
        }
      }
    }
  }

  /** A board without full rows survives whole. */
  lemma {:induction false} SurvivorsOfClearBoard(b: Board)
    requires forall i :: 0 <= i < |b| ==> !IsFull(b[i])
    ensures Survivors(b) == b
  {
    if |b| > 0 {
      SurvivorsOfClearBoard(b[1..]);
      assert [b[0]] + b[1..] == b;
    }
  }

  /** The first loop of `check_lines`: scanning from row `y`, a full row is
      removed and the same index is examined again; otherwise the scan moves
      on. The rows above `y` stay, and of the rest exactly the non-full ones
      survive, in order. */
  function RemoveFullRows(b: Board, y: nat): (r: Board)
    requires y <= |b|
    decreases |b| - y
    ensures r == b[..y] + Survivors(b[y..])
  {
    if y == |b| then
      assert b[..y] == b && b[y..] == [];
      b
    else if IsFull(b[y]) then
      RemoveStep(b, y);
      RemoveFullRows(b[..y] + b[y + 1..], y)
    else
      KeepStep(b, y);
      RemoveFullRows(b, y + 1)
  }

  /** Removing full row `y` leaves the rows above it and shifts the rest up. */
  lemma RemoveStep(b: Board, y: nat)
    requires y < |b| && IsFull(b[y])
    ensures (b[..y] + b[y + 1..])[..y] == b[..y]
    ensures Survivors((b[..y] + b[y + 1..])[y..]) == Survivors(b[y..])
  {
    var b' := b[..y] + b[y + 1..];
    assert b'[y..] == b[y + 1..] == b[y..][1..];
  }

  /** Stepping over a non-full row moves it into the kept prefix. */
  lemma KeepStep(b: Board, y: nat)
    requires y < |b| && !IsFull(b[y])
    ensures b[..y + 1] + Survivors(b[y + 1..]) == b[..y] + Survivors(b[y..])
  {
    var rest := b[y..];
    assert rest[0] == b[y] && rest[1..] == b[y + 1..];
    assert Survivors(rest) == [b[y]] + Survivors(b[y + 1..]);
    assert b[..y + 1] == b[..y] + [b[y]];
    assert b[..y] + ([b[y]] + Survivors(b[y + 1..])) == (b[..y] + [b[y]]) + Survivors(b[y + 1..]);
  }

  /** Rows `check_lines` must insert to bring the board back to 16. */
  function Missing(b: Board): nat
  {
    if |b| < Height then Height - |b| else 0
  }

  /** The second loop of `check_lines`: while the board has fewer than 16 rows,
      count a line and insert an empty row at the top. */
  function Refill(t: Tetris): (r: Tetris)
    requires CanCount(t.level, t.lines, Missing(t.grid))
    decreases Height - |t.grid|
    ensures r.grid == ZeroRows(Missing(t.grid)) + t.grid
    ensures r.lines == t.lines + Missing(t.grid)
    ensures r.level == LevelAfterCount(t.level, t.lines, Missing(t.grid))
    ensures r.score == t.score && r.current == t.current && r.last == t.last
  {
    if |t.grid| >= Height then
      assert ZeroRows(0) + t.grid == t.grid;
      t
    else
      var t' := IncreaseLine(t).(grid := [EmptyRow] + t.grid);
      var r := Refill(t');
      assert ZeroRows(Missing(t'.grid)) + t'.grid == ZeroRows(Missing(t.grid)) + t.grid;
      r
  }

  /** The empty row is not full. */
  lemma EmptyRowNotFull()
    ensures !IsFull(EmptyRow)
  {
    assert EmptyRow[0] == 0;
  }

  /** The `score_add` of `check_lines`: the level once per removed row, plus
      1000 when the board was emptied. */
  function ClearScore(level: nat, removed: nat, emptied: bool): nat
  {
    level * removed + (if emptied then 1000 else 0)
  }

  /** `check_lines`: remove every full row, score `level` per removed row plus
      1000 when no row at all is left, then refill the top with empty rows,
      counting a line (and possibly a level) per inserted row. Afterwards no row
      is full and the surviving rows sit below the inserted empty ones in their
      original order. Score, lines and level never decrease. */
  function CheckLines(t: Tetris): (r: Tetris)
    requires CanCount(t.level, t.lines, Missing(Survivors(t.grid)))
    ensures r.grid == ZeroRows(Missing(Survivors(t.grid))) + Survivors(t.grid)
    ensures |t.grid| <= Height ==> |r.grid| == Height
    ensures forall i :: 0 <= i < |r.grid| ==> !IsFull(r.grid[i])
    ensures r.score == t.score + t.level * FullCount(t.grid) + (if FullCount(t.grid) == |t.grid| then 1000 else 0)
    ensures r.lines == t.lines + Missing(Survivors(t.grid))
    ensures |t.grid| == Height ==> r.lines == t.lines + FullCount(t.grid)
    ensures r.level == LevelAfterCount(t.level, t.lines, Missing(Survivors(t.grid)))
    ensures r.score >= t.score && r.lines >= t.lines && r.level >= t.level
    ensures r.current == t.current && r.last == t.last
  {
    var kept := RemoveFullRows(t.grid, 0);
    assert t.grid[..0] == [] && t.grid[0..] == t.grid;
    assert kept == Survivors(t.grid);
    var removed := |t.grid| - |kept|;
    assert removed == FullCount(t.grid);
    var r := Refill(UpdateScore(t.(grid := kept), ClearScore(t.level, removed, |kept| == 0)));
    PaddedNotFull(Missing(kept), kept);
    r
  }

  /** On a 16-row board without full rows, `check_lines` changes nothing. */
  lemma CheckLinesOfClearBoard(t: Tetris)
    requires |t.grid| == Height && forall k :: 0 <= k < |t.grid| ==> !IsFull(t.grid[k])
    ensures CanCount(t.level, t.lines, Missing(Survivors(t.grid)))
    ensures CheckLines(t) == t
  {
    SurvivorsOfClearBoard(t.grid);
    assert Missing(Survivors(t.grid)) == 0;
    var c := CheckLines(t);
    assert ZeroRows(0) + t.grid == t.grid;
    assert c.grid == t.grid && c.score == t.score && c.lines == t.lines && c.level == t.level;
  }

  /** Empty rows on top of rows that are not full give a board without full rows. */
  lemma PaddedNotFull(n: nat, s: Board)
    requires forall i :: 0 <= i < |s| ==> !IsFull(s[i])
    ensures forall i :: 0 <= i < n + |s| ==> !IsFull((ZeroRows(n) + s)[i])
  {
    EmptyRowNotFull();
    forall i | 0 <= i < n + |s|
      ensures !IsFull((ZeroRows(n) + s)[i])
    {
      if i >= n {
        assert (ZeroRows(n) + s)[i] == s[i - n];
      }
    }
  }

  // ---------------------------------------------------------------------------
  // Locking

  /** The board cell (k, c) lies under an occupied cell of `m` placed at (x, y). */
  ghost predicate Covers(m: Matrix, x: int, y: nat, k: int, c: int)
    requires IsMatrix(m)
  {
    y <= k < y + 4 && x <= c < x + 4 && m[k - y][c - x] != 0
  }

  /** Reference definition of writing one matrix row from column `sx` on:
      the row's cells under occupied matrix cells take their values, all
      other cells keep theirs. */
  ghost function RowStamped(row: Row, mrow: seq<int>, x: int, sx: nat): Row
    requires |mrow| == 4
  {
    seq(|row|, c requires 0 <= c < |row| =>
      if x + sx <= c < x + 4 && mrow[c - x] != 0 then mrow[c - x] else row[c])
  }

  /** The inner loop of `make_permanent` on one board row: from matrix column
      `sx`, while the column is inside the row, copy occupied matrix cells. It
      writes exactly what the reference definition says. */
  function StampRow(row: Row, mrow: seq<int>, x: int, sx: nat): (r: Row)
    requires |mrow| == 4 && sx <= 4
    requires forall j :: sx <= j < 4 && x + j < |row| && mrow[j] != 0 ==> 0 <= x + j
    decreases 4 - sx
    ensures r == RowStamped(row, mrow, x, sx)
  {
    if sx >= 4 || x + sx >= |row| then
      assert RowStamped(row, mrow, x, sx) == row;
      row
    else
      var row' := if mrow[sx] != 0 then row[x + sx := mrow[sx]] else row;
      assert RowStamped(row', mrow, x, sx + 1) == RowStamped(row, mrow, x, sx);
      StampRow(row', mrow, x, sx + 1)
  }

  /** The outer loop of `make_permanent`: from matrix row `sy`, while the row is
      inside the board, stamp that matrix row. Each board row the matrix spans
      from `sy` on is its one-row stamp; every other row is unchanged. */
  function StampRows(b: Board, m: Matrix, x: int, y: nat, sy: nat): (r: Board)
    requires IsMatrix(m) && sy <= 4
    requires forall i, j :: sy <= i < 4 && 0 <= j < 4 && y + i < |b| && x + j < |b[y + i]| && m[i][j] != 0 ==> 0 <= x + j
    decreases 4 - sy
    ensures |r| == |b|
    ensures forall k :: 0 <= k < |b| ==>
              r[k] == (if y + sy <= k < y + 4 then RowStamped(b[k], m[k - y], x, 0) else b[k])
  {
    if sy >= 4 || y + sy >= |b| then b
    else
      var row := StampRow(b[y + sy], m[sy], x, 0);
      var b' := b[y + sy := row];
      WritesStayInBounds(b, b', m, x, y, sy);
      var r := StampRows(b', m, x, y, sy + 1);
      StampRowsStep(b, m, x, y, sy, b', r);
      r
  }

  /** Stamping row `sy` and then the rows below it stamps every row from `sy`
      on. */
  lemma StampRowsStep(b: Board, m: Matrix, x: int, y: nat, sy: nat, b': Board, r: Board)
    requires IsMatrix(m) && sy < 4 && y + sy < |b|
    requires b' == b[y + sy := RowStamped(b[y + sy], m[sy], x, 0)]
    requires |r| == |b'|
    requires forall k :: 0 <= k < |b'| ==>
               r[k] == (if y + (sy + 1) <= k < y + 4 then RowStamped(b'[k], m[k - y], x, 0) else b'[k])
    ensures forall k :: 0 <= k < |b| ==>
              r[k] == (if y + sy <= k < y + 4 then RowStamped(b[k], m[k - y], x, 0) else b[k])
  {
    forall k | 0 <= k < |b|
      ensures r[k] == (if y + sy <= k < y + 4 then RowStamped(b[k], m[k - y], x, 0) else b[k])
    {
      StampRowsStepAt(b, m, x, y, sy, b'[k], r[k], k);
    }
  }

  /** `StampRowsStep` for one board row `k`: `bk'` is the row after stamping
      row `sy`, `rk` its final value. */
  lemma StampRowsStepAt(b: Board, m: Matrix, x: int, y: nat, sy: nat, bk': Row, rk: Row, k: nat)
    requires IsMatrix(m) && sy < 4 && k < |b|
    requires bk' == (if k == y + sy then RowStamped(b[k], m[sy], x, 0) else b[k])
    requires rk == (if y + (sy + 1) <= k < y + 4 then RowStamped(bk', m[k - y], x, 0) else bk')
    ensures rk == (if y + sy <= k < y + 4 then RowStamped(b[k], m[k - y], x, 0) else b[k])
  {
    if k == y + sy {
      assert k - y == sy;
    }
  }

  /** Rewriting a row without changing its length keeps the write bound of
      the remaining matrix rows. */
  lemma WritesStayInBounds(b: Board, b': Board, m: Matrix, x: int, y: nat, sy: nat)
    requires IsMatrix(m) && sy < 4 && |b'| == |b| && forall k :: 0 <= k < |b| ==> |b'[k]| == |b[k]|
    requires forall i, j :: sy <= i < 4 && 0 <= j < 4 && y + i < |b| && x + j < |b[y + i]| && m[i][j] != 0 ==> 0 <= x + j
    ensures forall i, j :: sy + 1 <= i < 4 && 0 <= j < 4 && y + i < |b'| && x + j < |b'[y + i]| && m[i][j] != 0 ==> 0 <= x + j
  {
  }

  /** What `make_permanent` needs to not panic: every cell its loops write has a
      non-negative column (a negative one would wrap when cast to an index). */
  ghost predicate WritesInBounds(b: Board, m: Matrix, x: int, y: nat)
    requires IsMatrix(m)
  {
    forall i, j :: 0 <= i < 4 && 0 <= j < 4 && y + i < |b| && x + j < |b[y + i]| && m[i][j] != 0 ==> 0 <= x + j
  }

  /** A legal placement writes only in bounds. */
  lemma PlacedWritesInBounds(b: Board, p: Tetrimino)
    requires Valid(p) && Placed(b, p)
    ensures WritesInBounds(b, p.states[p.currentState], p.x, p.y)
  {
  }

  /** `after` is `before` with matrix `m` written in at (x, y): the cells
      under its occupied cells take their values, all other cells are
      unchanged. */
  ghost predicate StampedBy(before: Board, after: Board, m: Matrix, x: int, y: nat)
    requires IsMatrix(m)
  {
    && |after| == |before|
    && (forall k :: 0 <= k < |before| ==> |after[k]| == |before[k]|)
    && forall k, c :: 0 <= k < |before| && 0 <= c < |before[k]| ==>
         after[k][c] == (if Covers(m, x, y, k, c) then m[k - y][c - x] else before[k][c])
  }

  /** `after` is `before` with the piece written in at its position. */
  ghost predicate Stamped(before: Board, after: Board, p: Tetrimino)
    requires Valid(p)
  {
    StampedBy(before, after, p.states[p.currentState], p.x, p.y)
  }

  /** Both loops of `make_permanent` together write exactly the matrix. */
  lemma StampRowsStamped(b: Board, m: Matrix, x: int, y: nat)
    requires IsMatrix(m) && WritesInBounds(b, m, x, y)
    ensures StampedBy(b, StampRows(b, m, x, y, 0), m, x, y)
  {
    var r := StampRows(b, m, x, y, 0);
    forall k | 0 <= k < |b|
      ensures |r[k]| == |b[k]|
      ensures forall c :: 0 <= c < |b[k]| ==>
                r[k][c] == (if Covers(m, x, y, k, c) then m[k - y][c - x] else b[k][c])
    {
      if y <= k < y + 4 {
        RowStampedCovers(b, m, x, y, k);
      }
    }
  }

  /** The write of matrix row k - y into board row k, cell by cell. */
  lemma RowStampedCovers(b: Board, m: Matrix, x: int, y: nat, k: nat)
    requires IsMatrix(m) && k < |b| && y <= k < y + 4
    ensures |RowStamped(b[k], m[k - y], x, 0)| == |b[k]|
    ensures forall c :: 0 <= c < |b[k]| ==>
              RowStamped(b[k], m[k - y], x, 0)[c] == (if Covers(m, x, y, k, c) then m[k - y][c - x] else b[k][c])
  {
  }

  /** The piece's current state only holds values 0..7. */
  ghost predicate CellsOfStateInRange(p: Tetrimino)
    requires Valid(p)
  {
    forall i, j :: 0 <= i < 4 && 0 <= j < 4 ==> 0 <= p.states[p.currentState][i][j] <= 7
  }

  ghost predicate CanLock(t: Tetris)
  {
    t.current.Some? ==>
      Valid(t.current.value) &&
      WritesInBounds(t.grid, t.current.value.states[t.current.value.currentState], t.current.value.x, t.current.value.y)
  }

  /** The piece-writing half of `make_permanent`: with a piece, every board cell
      under an occupied matrix cell takes that cell's value, every other cell
      keeps its value, and the score gains one level's worth. Without a piece
      nothing changes. */
  function PlacePiece(t: Tetris): (r: Tetris)
    requires CanLock(t)
    ensures t.current.None? ==> r == t
    ensures t.current.Some? ==> r == t.(grid := r.grid, score := t.score + t.level)
    ensures |r.grid| == |t.grid| && forall k :: 0 <= k < |t.grid| ==> |r.grid[k]| == |t.grid[k]|
    ensures t.current.Some? ==> Stamped(t.grid, r.grid, t.current.value)
  {
    match t.current
    case None => UpdateScore(t, 0)
    case Some(p) =>
      StampRowsStamped(t.grid, p.states[p.currentState], p.x, p.y);
      UpdateScore(t.(grid := StampRows(t.grid, p.states[p.currentState], p.x, p.y, 0)), t.level)
  }

  ghost predicate CanMakePermanent(t: Tetris)
  {
    CanLock(t) && CanCount(t.level, t.lines, Missing(Survivors(PlacePiece(t).grid)))
  }

  /** `make_permanent`: write the piece into the board, score one level's
      worth, clear lines, and drop the piece. */
  function MakePermanent(t: Tetris): (r: Tetris)
    requires CanMakePermanent(t)
    ensures r.current.None? && r.last == t.last
    ensures r.score == PlacePiece(t).score + t.level * FullCount(PlacePiece(t).grid) +
                       (if FullCount(PlacePiece(t).grid) == |t.grid| then 1000 else 0)
    ensures r.score >= t.score + (if t.current.Some? then t.level else 0)
    ensures r.lines >= t.lines && r.level >= t.level
    ensures |t.grid| <= Height ==> |r.grid| == Height
    ensures forall i :: 0 <= i < |r.grid| ==> !IsFull(r.grid[i])
    ensures r.grid == ZeroRows(Missing(Survivors(PlacePiece(t).grid))) + Survivors(PlacePiece(t).grid)
  {
    CheckLines(PlacePiece(t)).(current := None)
  }

  /** Full rows confined to a window [a, a + w) number at most w. */
  lemma {:induction false} FullRowsInWindow(b: Board, a: int, w: nat)
    requires forall i :: 0 <= i < |b| && !(a <= i < a + w) ==> !IsFull(b[i])
    ensures FullCount(b) <= w
    decreases |b|
  {
    if |b| > 0 {
      if a <= 0 < a + w {
        FullRowsInWindow(b[1..], 0, a + w - 1);
      } else {
        FullRowsInWindow(b[1..], a - 1, w);
      }
    }
  }

  /** Locking one piece into a board without full rows fills at most the four
      rows the matrix spans, so on a 16-row board the 1000-point bonus of
      `check_lines` (every row full at once) cannot be paid. */
  lemma LockFillsAtMostFourRows(t: Tetris)
    requires CanLock(t) && t.current.Some?
    requires forall i :: 0 <= i < |t.grid| ==> !IsFull(t.grid[i])
    ensures FullCount(PlacePiece(t).grid) <= 4
    ensures |t.grid| == Height ==> FullCount(PlacePiece(t).grid) < |PlacePiece(t).grid|
  {
    var p := t.current.value;
    var g := PlacePiece(t).grid;
    forall k | 0 <= k < |g| && !(p.y <= k < p.y + 4)
      ensures !IsFull(g[k])
    {
      var c :| 0 <= c < |t.grid[k]| && t.grid[k][c] == 0;
      assert g[k][c] == 0;
    }
    FullRowsInWindow(g, p.y, 4);
  }

  /** Writing a piece whose cells are in 0..7 keeps the board's shape and
      its cells in 0..7. */
  lemma PlaceKeepsBoardInvariants(t: Tetris)
    requires CanLock(t) && WellShaped(t.grid) && CellsInRange(t.grid)
    requires t.current.Some? ==> CellsOfStateInRange(t.current.value)
    ensures WellShaped(PlacePiece(t).grid) && CellsInRange(PlacePiece(t).grid)
  {
  }

  /** Clearing and refilling a 16 by 10 board with cells in 0..7 gives
      another one. */
  lemma ClearKeepsBoardInvariants(g: Board)
    requires WellShaped(g) && CellsInRange(g)
    ensures WellShaped(ZeroRows(Missing(Survivors(g))) + Survivors(g))
    ensures CellsInRange(ZeroRows(Missing(Survivors(g))) + Survivors(g))
  {
    var s := Survivors(g);
    SurvivorsAreRows(g);
    forall i | 0 <= i < |s|
      ensures |s[i]| == Width && forall c :: 0 <= c < |s[i]| ==> 0 <= s[i][c] <= 7
    {
      assert s[i] in g;
    }
    var r := ZeroRows(Missing(s)) + s;
    forall i | 0 <= i < |r|
      ensures |r[i]| == Width && forall c :: 0 <= c < |r[i]| ==> 0 <= r[i][c] <= 7
    {
      if i < Missing(s) {
        assert r[i] == EmptyRow;
      } else {
        assert r[i] == s[i - Missing(s)];
      }
    }
  }

  /** Locking keeps the board's shape and keeps every cell within 0..7 when the
      piece's cells are. */
  lemma LockKeepsBoardInvariants(t: Tetris)
    requires CanMakePermanent(t) && WellShaped(t.grid) && CellsInRange(t.grid)
    requires t.current.Some? ==> CellsOfStateInRange(t.current.value)
    ensures WellShaped(MakePermanent(t).grid) && CellsInRange(MakePermanent(t).grid)
  {
    PlaceKeepsBoardInvariants(t);
    ClearKeepsBoardInvariants(PlacePiece(t).grid);
  }

}
