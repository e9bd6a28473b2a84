# Falling-block rules engine in Dafny

This project models the rules engine of a small Rust falling-block puzzle
game (`src/main.rs`) and proves properties of the model. It covers:

- the playfield, a 16 by 10 grid of cells where 0 is empty and 1..7 are block
  colours;
- the seven piece kinds and their hand-written 4 by 4 rotation states;
- the single collision test;
- moves, and rotation with the wall-kick offsets 0, -1, +1, -2, +2, -3;
- locking a piece into the grid, clearing full rows, scoring, and the level
  progression against `LEVEL_LINES`;
- the decisions one frame takes: the lock rule at the end of
  `handle_events`, the gravity branch of the main loop with its
  `is_time_over` threshold, and the spawn / game-over test;
- the `score` module's high-score list (`update_vec`) and its plain-text
  save format.

Everything is pure. A `Tetrimino` and the `Tetris` session are immutable
datatypes, and each operation returns a new value. Some inputs come from the
world outside the engine; each becomes a parameter:

- the random generator is a stream of drawn kinds `draws`;
- the keyboard is a list of abstract `Intent`s;
- the clock is the elapsed milliseconds, `Option<nat>`, where `None` stands
  for the clock error branch;
- the score file is its text content.

Modules: `Wrappers` (Option), `Grid` (board shape and the blocking test),
`Piece` (collision, moves, rotation, the hard-drop loop), `Catalog`
(`generate`), `Levels` (the two tables, `is_time_over`, level
arithmetic), `Session` (`Tetris` and its operations), `Step` (one frame's
decisions), `HighScore` (`update_vec`), `SaveFormat` (`slice_to_string`,
`line_to_slice`, save and load).

Where the code and the game's design disagree, the model follows the code.
It also gives a corrected variant beside it, with the intended property
proved (see Findings):

- `Session.IncreaseLine` has no level clamp. The session therefore carries
  the precondition that every table lookup stays inside the ten entries.
- `Step.HandleEvents` builds the end-of-batch target from the coordinates
  captured before the batch.
- `SaveFormat.Load` splits only at the first newline.
- `HighScore.UpdateVec` overwrites the first lower entry.

## Model

| member | source | states |
|---|---|---|
| `Piece.TestRowFrom` | src/main.rs:145-155 | the column scan of one matrix row fails exactly when some occupied cell from the start column on is blocked |
| `Piece.TestRowsFrom` | src/main.rs:144-157 | the row scan fails exactly when some occupied cell of the remaining rows is blocked |
| `Piece.TestPosition` | src/main.rs:143-158 | true exactly when every occupied matrix cell lands inside the board: not left of column 0, not past the row's width, not at or below the bottom row, and on an empty cell; empty matrix cells impose nothing |
| `Piece.TestCurrentPosition` | src/main.rs:160-162 | true exactly when the piece's own state at its own position is legal |
| `Piece.ChangePosition` | src/main.rs:164-171 | succeeds exactly when the current state fits at the new position, and then sets x and y to it; otherwise the piece is left exactly as it was; states and current state never change |
| `Piece.NextState` | src/main.rs:129-132 | the next state index is a valid index; it is 0 exactly when the current state is the last one, and otherwise the current index plus one |
| `Piece.NextStateWraps` | src/main.rs:129-132 | the next state index is (current + 1) mod the number of states |
| `Piece.FirstKick` | src/main.rs:133-140 | returns the first kick offset index at which the state fits, and no earlier offset fits; with none, no offset fits |
| `Piece.Rotate` | src/main.rs:128-141 | row and states never change; if some kick fits, the next state is committed with the first fitting offset added to x; if none fits, the piece is unchanged |
| `Piece.RotatePlaced` | src/main.rs:128-141 | rotating a legal piece leaves it legal, whether or not a kick fits |
| `Piece.HardDrop` | src/main.rs:537-541 | only the row changes and never goes up; every row passed fits, and the row below the landing row does not |
| `Piece.HardDropPlaced` | src/main.rs:537-541 | a hard drop of a legal piece leaves it legal |
| `Catalog.Id` | src/main.rs:200-364 | each kind's block value is in 1..7 |
| `Catalog.IdInjective` | src/main.rs:200-364 | distinct kinds have distinct block values |
| `Catalog.StatesI` | src/main.rs:202-220 | the I piece has 2 states, each with exactly four blocks of value 1 |
| `Catalog.StatesJ` | src/main.rs:221-251 | the J piece has 4 states, each with exactly four blocks of value 2 |
| `Catalog.StatesL` | src/main.rs:252-282 | the L piece has 4 states, each with exactly four blocks of value 3 |
| `Catalog.StatesO` | src/main.rs:283-293 | the O piece has 1 state with exactly four blocks of value 4 |
| `Catalog.StatesS` | src/main.rs:294-312 | the S piece has 2 states, each with exactly four blocks of value 5 |
| `Catalog.StatesT` | src/main.rs:313-343 | the T piece has 4 states, each with exactly four blocks of value 6 |
| `Catalog.StatesZ` | src/main.rs:344-362 | the Z piece has 2 states, each with exactly four blocks of value 7 |
| `Catalog.States` | src/main.rs:200-364 | per kind, the state count is I:2 J:4 L:4 O:1 S:2 T:4 Z:2, and every state is a 4 by 4 matrix with four blocks carrying the kind's value |
| `Catalog.Generate` | src/main.rs:200-364 | a new piece has its kind's states, state 0, row 0, column 4 (5 for O); it is valid and none of its states is empty |
| `Levels.IsTimeOver` | src/main.rs:477-485 | gravity is never due within 190 ms and always due after 1000 ms; a clock error is never due |
| `Levels.ClockErrorNeverDue` | src/main.rs:483 | after a clock error gravity is not due, whatever the level, even one outside the table |
| `Levels.DueStaysDue` | src/main.rs:481 | once due at a level, gravity stays due as more time passes |
| `Levels.TimesDecrease` | src/main.rs:15 | each `LEVEL_TIMES` entry is strictly smaller than the one before |
| `Levels.DueAtHigherLevel` | src/main.rs:481 | gravity that is due at a level is due at every higher level |
| `Levels.LevelLinesStep` | src/main.rs:16 | `LEVEL_LINES` entry i is 20 times (i + 1) |
| `Levels.LinesFor` | src/main.rs:16 | the `LEVEL_LINES` entry of level v is 20 times v |
| `Levels.LevelAfter` | src/main.rs:471-473 | one line check raises the level by at most one and never lowers it |
| `Levels.LevelAfterRises` | src/main.rs:471-473 | the level rises exactly when the line count exceeds 20 times the level, the `LEVEL_LINES` entry |
| `Levels.LevelAfterCount` | src/main.rs:469-474 | n line increments raise the level by at least 0 and at most n |
| `Levels.CanCountSplit` | src/main.rs:433-436 | a run of in-bounds line increments can be split at any point, and both parts stay in bounds |
| `Levels.LevelForStep` | src/main.rs:469-474 | while at most 200 lines have been counted, one more line moves the level to 1 + (lines - 1) / 20 |
| `Levels.LevelForMatches` | src/main.rs:469-474 | the closed-form level 1 + (lines - 1) / 20 is the only level v with lines in (20(v - 1), 20v], level 1 for no lines |
| `Levels.MatchedCount` | src/main.rs:469-474 | from a level that matches the line count, counting up to 201 lines in total stays inside the table and the level keeps matching the count |
| `Levels.LevelClosedForm` | src/main.rs:469-474 | from a new game, the first 201 lines all index the table in bounds, and the level after n lines is 1 + (n - 1) / 20 |
| `Levels.LevelAfterCapped` | src/main.rs:471-473 | corrected level check: the level stays in 1..10 and rises exactly when the line count passes the entry and the level is below 10 |
| `Levels.LevelAfterCountCapped` | src/main.rs:433-436 | with the clamp, any number of line increments keeps the level in 1..10 and never lowers it |
| `Session.ZeroRows` | src/main.rs:435 | n rows, each the all-zero row of width 10 |
| `Session.New` | src/main.rs:377-390 | a 16 by 10 board of zeros, level 1, score 0, no lines, no piece, no last kind |
| `Session.FirstFresh` | src/main.rs:393-398 | the redraw loop picks the first draw that differs from the last kind, and every draw before it equals the last kind |
| `Session.CreateNextTetrimino` | src/main.rs:392-401 | the new piece is a fresh instance of the first drawn kind that differs from the last; that kind becomes the last one and differs from the previous last; nothing else changes |
| `Session.UpdateScore` | src/main.rs:403-405 | the score grows by the amount added; nothing else changes |
| `Session.IncreaseLine` | src/main.rs:469-474 | one more line; the level rises by exactly one when the new count exceeds `LEVEL_LINES[level - 1]`, and stays otherwise; needs the level inside the table |
| `Session.IncreaseLineCapped` | src/main.rs:469-474 | corrected `increase_line`: the level stays inside the table and rises only below level 10 |
| `Session.LevelLeavesTable` | src/main.rs:469-474 | from a new game, 200 lines give level 10 and 201 lines give level 11, which is outside the table; the 202nd line cannot be counted in bounds |
| `Session.CappedLevelStaysInTable` | src/main.rs:471-473 | with the clamp, a new game's level stays inside the table for any number of lines |
| `Session.FullCount` | src/main.rs:411-426 | the number of full rows is at most the row count; it equals the row count exactly when every row is full, and is 0 exactly when none is |
| `Session.Survivors` | src/main.rs:411-426 | reference filter: the rows that are not full, in order; their number is the row count minus the full ones, and none is full |
| `Session.SurvivorsAreRows` | src/main.rs:411-426 | every surviving row is a row of the board |
| `Session.SurvivorsOfClearBoard` | src/main.rs:411-426 | a board without full rows keeps all its rows |
| `Session.RemoveFullRows` | src/main.rs:411-426 | the scan with re-check after removal keeps the rows above the scan start and exactly the non-full rows from there on, in order |
| `Session.CheckLinesOfClearBoard` | src/main.rs:407-437 | on a 16-row board with no full row, `check_lines` changes nothing |
| `Session.Refill` | src/main.rs:433-436 | empty rows are added on top until the board has 16 rows; one line is counted per added row, the level follows those counts, and nothing else changes |
| `Session.CheckLines` | src/main.rs:407-437 | the new board is empty rows on top of the surviving rows in their old order; on a 16-row board it has 16 rows again and no full row; the score grows by level times removed rows, plus 1000 when every row was removed; lines grow by the removed count; the level follows `increase_line`; the piece and last kind are unchanged |
| `Session.StampRow` | src/main.rs:449-459 | the column loop writes exactly the reference row: cells from the start column on under occupied matrix cells take their values, cells past the row's edge are never touched, the rest keep theirs |
| `Session.StampRows` | src/main.rs:444-461 | the row loop keeps the row count, rewrites each board row the matrix spans from the start row on as the reference one-row write, stops at the bottom, and leaves every other row unchanged |
| `Session.StampRowsStep` | src/main.rs:444-461 | writing one matrix row and then the rows after it equals writing all rows from that one on |
| `Session.RowStampedCovers` | src/main.rs:449-459 | in the reference one-row write, a cell takes the matrix value exactly when it lies under an occupied matrix cell, and keeps its value otherwise |
| `Session.StampRowsStamped` | src/main.rs:444-461 | writing the whole matrix overwrites exactly the board cells under occupied matrix cells and keeps the shape |
| `Session.PlacedWritesInBounds` | src/main.rs:453-456 | a legal piece never writes left of column 0 |
| `Session.PlacePiece` | src/main.rs:439-464 | with a piece, exactly the cells under its occupied matrix cells take their values, every other cell is unchanged, and the score grows by the level; with no piece nothing changes |
| `Session.MakePermanent` | src/main.rs:439-467 | locking scores the level plus the line-clear score, leaves no full row and 16 rows, the board is empty rows over the survivors of the stamped board, the counters never decrease, and no piece is left |
| `Session.FullRowsInWindow` | src/main.rs:411-426 | when full rows only occur inside a window of w rows, at most w rows are full |
| `Session.LockFillsAtMostFourRows` | src/main.rs:427-430 | locking a piece into a board without full rows fills at most 4 rows, so on a 16-row board the +1000 bonus is never paid |
| `Session.PlaceKeepsBoardInvariants` | src/main.rs:439-461 | writing a piece whose writes stay inside the board and whose cells are in 0..7 keeps the board's shape and its cell values in 0..7 |
| `Session.ClearKeepsBoardInvariants` | src/main.rs:407-437 | clearing lines keeps a 16 by 10 board with cell values in 0..7 |
| `Session.LockKeepsBoardInvariants` | src/main.rs:439-467 | locking keeps a 16 by 10 board with cell values in 0..7 |
| `Step.Active` | src/main.rs:498-507 | the intents read are the prefix before the first quit, which contains no quit; without a quit, all intents are read |
| `Step.Perform` | src/main.rs:508-542 | one intent keeps the piece valid with its states; only rotations and hard drops change the piece; a legal piece stays legal; the quit flag is untouched and a soft drop resets the timer; the target moves by one column for left and right and one row for down |
| `Step.ApplyIntents` | src/main.rs:498-545 | the batch keeps the piece valid with non-empty states and never changes its states |
| `Step.BatchFlags` | src/main.rs:505-513 | quit is raised exactly when the batch holds a quit; the timer is reset exactly when a soft drop comes before any quit |
| `Step.BatchKeepsPlacement` | src/main.rs:527-542 | a piece legal at the start of the batch is legal after rotations and hard drops |
| `Step.BatchTarget` | src/main.rs:495-526 | as written, the target is the position before the batch plus rights minus lefts, and plus downs, counted before any quit |
| `Step.Settled` | src/main.rs:495-545 | the batch run on the session's piece from its own position keeps the piece valid with its states, raises quit exactly when a quit is among the intents, and, as written, aims at the start position plus rights minus lefts and plus downs read before any quit |
| `Step.Locks` | src/main.rs:546-549 | the batch locks exactly when the piece after the batch does not fit at the target and the target row differs from the piece's row |
| `Step.HandleEventsWith` | src/main.rs:487-558 | with no piece nothing happens; otherwise it locks exactly when the move to the target fails and the target row differs from the piece's row; a lock is `make_permanent` plus a timer reset; without a lock the piece is the result of the move, and a legal piece stays legal; the counters never decrease |
| `Step.HandleEvents` | src/main.rs:546-551 | as written, it locks exactly when the state after the batch does not fit at (x + rights - lefts, y + downs) from before the batch and that row differs from the piece's row |
| `Step.HardDropUndone` | src/main.rs:537-551 | as written, a batch holding only a hard drop leaves a legal piece exactly where it was and locks nothing |
| `Step.FitsOnEmptyBoard` | src/main.rs:143-158 | on an empty board a matrix fits wherever its occupied cells land inside the board |
| `Step.HardDropUndoneOnEmptyBoard` | src/main.rs:537-551 | a square spawned on an empty board can fall at least one row, yet after a hard-drop batch it is back at its spawn position |
| `Step.HardDropKeptWhenTargetFollows` | src/main.rs:537-551 | corrected rule: with the target following the drop, a hard drop leaves the piece at its landing row, unlocked |
| `Step.Gravity` | src/main.rs:676-687 | nothing happens before the level's interval has passed; once it has, the timer resets, the piece locks exactly when the one-row-down move fails, and otherwise it moves down one row |
| `Step.Spawn` | src/main.rs:718-729 | with no piece, the next piece is created; the game is over exactly when it does not fit where it spawns; the board and counters are untouched |
| `Step.LockWithoutClear` | src/main.rs:439-467 | a lock that completes no row leaves the stamped board as is and adds only the level to the score |
| `Step.SquareStamp` | src/main.rs:439-461 | the square at column 4, row 14 of an empty board covers exactly columns 4-5 of rows 14-15 |
| `Step.LockSquareOnEmptyBoard` | src/main.rs:439-467 | locking that square sets exactly its four cells to 4, clears nothing, scores the level and keeps the line count |
| `HighScore.Insert` | src/main.rs:102-103 | inserting into an ascending list keeps it ascending and adds exactly the value |
| `HighScore.SortSeq` | src/main.rs:103 | the sort is ascending and a permutation of its input |
| `HighScore.FirstBelow` | src/main.rs:105-110 | the first index whose entry is strictly below the value; every earlier entry is at least the value |
| `HighScore.UpdateVec` | src/main.rs:100-114 | a short list gains the value and is sorted ascending, and the result is true; a full list keeps its length, and the result is true exactly when some entry is below the value, in which case the first such entry is overwritten; otherwise nothing changes |
| `HighScore.SortedFullListReplacesLowest` | src/main.rs:104-112 | on a full ascending list the overwritten entry is the first, lowest one |
| `HighScore.UpdateVecDropsHigherScore` | src/main.rs:105-110 | from the full list 1..5, the scores 10, 6, 7 leave a list that holds 3 but has lost 6 |
| `HighScore.LowestFrom` | src/main.rs:105-110 | the index of a lowest entry |
| `HighScore.UpdateVecKeepingBest` | src/main.rs:100-114 | corrected rule: a full list gives up a lowest entry, and only for a strictly higher value; a short list behaves as before |
| `HighScore.KeepingBestKeepsHigherScore` | src/main.rs:105-110 | with the corrected rule the same scores keep 6 and drop 3 |
| `SaveFormat.DigitChar` | src/main.rs:65 | a digit's character is a decimal digit with that value |
| `SaveFormat.ToDecimal` | src/main.rs:65 | `to_string` gives a non-empty string of digits without leading zeros |
| `SaveFormat.DecimalValue` | src/main.rs:65 | the digits printed for n denote n |
| `SaveFormat.ParseU32` | src/main.rs:82 | `parse::<u32>` succeeds only on an optional `+` followed by digits, and yields their value, which is at most 4294967295; the empty string fails; conversely, digits of a value up to 4294967295, with or without a leading `+`, parse to that value |
| `SaveFormat.ParseDecimal` | src/main.rs:82 | every 32-bit value printed by `to_string` parses back to itself |
| `SaveFormat.ParseRejectsNewline` | src/main.rs:82 | a token ending in a newline never parses |
| `SaveFormat.Split` | src/main.rs:81 | `split(' ')` gives at least one piece, and no piece holds the separator |
| `SaveFormat.SplitAfterPiece` | src/main.rs:81 | a separator-free piece followed by a separator splits off as the first piece |
| `SaveFormat.Join` | src/main.rs:67 | joining no pieces gives the empty string; otherwise the length is the pieces' total plus one separator between each pair, the result starts with the first piece, and a separator follows it when there are more pieces |
| `SaveFormat.SplitJoin` | src/main.rs:62-68 | splitting undoes joining when no piece holds the separator |
| `SaveFormat.SplitPlain` | src/main.rs:81 | a separator-free string splits into itself |
| `SaveFormat.SplitLastPiece` | src/main.rs:81 | text appended to a join without a separator sticks to the last piece |
| `SaveFormat.Decimals` | src/main.rs:63-66 | each value is printed in decimal, in order |
| `SaveFormat.ParseAll` | src/main.rs:82-83 | the pieces that parse, in order; at most one value per piece, each at most 4294967295 |
| `SaveFormat.ParseAllDecimals` | src/main.rs:82-83 | parsing printed 32-bit values gives them back |
| `SaveFormat.ParseAllAppend` | src/main.rs:82-83 | parsing distributes over concatenation of the pieces |
| `SaveFormat.DecimalHasNoBreak` | src/main.rs:65 | printed numbers hold neither spaces nor newlines |
| `SaveFormat.SliceToString` | src/main.rs:62-68 | the serialised list holds no newline |
| `SaveFormat.NoBreakInJoin` | src/main.rs:67 | joining pieces free of a character other than the separator yields a string free of it |
| `SaveFormat.LineToSlice` | src/main.rs:80-84 | every value read is at most 4294967295, and there are at most as many values as pieces |
| `SaveFormat.LineRoundTrip` | src/main.rs:62-84 | a list of 32-bit values written as one line reads back unchanged, the empty list included |
| `SaveFormat.SaveContent` | src/main.rs:70-74 | the saved text ends in a newline, starts with the first line followed by a newline, and splits at its first newline into the first line and the second line still carrying its newline |
| `SaveFormat.SplitFirst` | src/main.rs:89 | `splitn(2, '\n')` gives one piece exactly when there is no newline; otherwise the piece before the first newline and the rest |
| `SaveFormat.SplitFirstAt` | src/main.rs:89 | the split happens at the first newline |
| `SaveFormat.Load` | src/main.rs:86-98 | the loader yields both lists exactly when the content has a newline |
| `SaveFormat.TerminatedLineLosesLast` | src/main.rs:80-84 | a serialised list still followed by its newline reads back without its last value |
| `SaveFormat.LoadLosesLastLine` | src/main.rs:70-98 | as written, saved lists load back as the first list unchanged and the second without its last value |
| `SaveFormat.SingleLineCountLost` | src/main.rs:70-98 | a single score and line count saved alone load back as the score and an empty lines list |
| `SaveFormat.LoadTrimmed` | src/main.rs:86-98 | corrected loader: yields both lists exactly when the content has a newline |
| `SaveFormat.LoadTrimmedRoundTrip` | src/main.rs:70-98 | with the line terminator removed, both saved lists load back exactly |

## Left out

- Drawing, textures, the window and the SDL event pump (src/main.rs:18-38, 595-789). Keys become the abstract `Intent` list; other events are ignored as in the source.
- `SystemTime`, `sleep` and the conversion of elapsed time to milliseconds. Elapsed milliseconds are a parameter, and a clock error is `None`.
- The random generator. Draws are an input stream. `CreateNextTetrimino` requires that some draw differ from the last kind, which the source's redraw loop assumes.
- File reading and writing, and `print_game_info` with its `println!` output. The save and load functions work on the file's text. The pure halves of `save_highscore_and_lines` and `load_highscores_and_lines` are modelled.
- The `u32` width of score, line count and level, and the `u8` cells. Counters are unbounded naturals, so an overflow of `score += to_add` is not modelled. Saved values are bounded by 4294967295, as `parse::<u32>` requires.
- Matrices of other sizes. Every state in the catalog is 4 by 4, and the model requires it.
- Pieces that would write left of column 0 when locked. In the source a negative column wraps when cast to `usize`, and the index at src/main.rs:455 then panics; the model requires the write to stay in bounds, and `Session.PlacedWritesInBounds` shows that a legal piece never does this.
- The precondition of the session operations that every table lookup stays within ten levels (`Levels.CanCount`). The source panics past it, and `Session.LevelLeavesTable` shows when.
- `Step.Gravity`: takes the level inside the table as a precondition when the clock reading succeeded, because the source's `LEVEL_TIMES` lookup panics otherwise; after a clock error no lookup happens and any level is accepted.

## Findings

| source | as written | input that shows it | evidently intended | confidence | as-written member | corrected member |
|---|---|---|---|---|---|---|
| src/main.rs:469-474 | the level rises past 10, and `LEVEL_LINES[level - 1]` and `LEVEL_TIMES[level - 1]` then index past the end | a new game after 201 cleared lines has level 11 | the level stops at 10, the last table entry | not executed; high | `Session.LevelLeavesTable` | `Session.CappedLevelStaysInTable` |
| src/main.rs:495-551 | the target of the end-of-batch move keeps the pre-batch position, so a hard drop is moved back up whenever that position is legal | a square on an empty board and the batch [hard drop] | the piece stays where the hard drop landed | not executed; high | `Step.HardDropUndoneOnEmptyBoard` | `Step.HardDropKeptWhenTargetFollows` |
| src/main.rs:74-89 | the loader splits at the first newline only, so the second line keeps the trailing newline and its last value fails to parse | saving scores [s] and lines [l] loads back lines [] | both lists load back as saved | not executed; high | `SaveFormat.LoadLosesLastLine` | `SaveFormat.LoadTrimmedRoundTrip` |
| src/main.rs:105-110 | a full list overwrites the first entry below the value and is not re-sorted afterwards, so later updates can drop a higher entry and keep a lower one | from [1, 2, 3, 4, 5], the scores 10, 6, 7 give [10, 7, 3, 4, 5] | the list keeps the five highest entries: [10, 6, 7, 4, 5] | not executed; medium | `HighScore.UpdateVecDropsHigherScore` | `HighScore.UpdateVecKeepingBest` |
