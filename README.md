# JStris game-state model

A Dafny model of the game-state simulation of JStris, a small falling-block
game whose logic lives in `src/main.js`. The game keeps a 10 x 18 board as a
flat buffer (`index(x, y) = y * 10 + x`, row 0 at the bottom). It also keeps the
active piece, its rotation frame, a position in quarter cells, a gravity timer,
the score, the pause and game-over flags, and a counter for each tracked key.

The model has four modules:

- `Geometry`: the vector helpers `add`, `eq`, `trunc`, `index` and `unindex`.
  Positions are integers in quarter cells, because every position the game
  reaches is a multiple of 0.25. `Math.trunc` is truncation toward zero, so
  x = -0.25 lies in column 0.
- `Placement`: the functions that specify the two mask writes (`pastePiece`
  and `fillShape`), and what they mean cell by cell:
  - a paint writes the fill exactly under the occupied mask cells;
  - pastePiece's condition is "every occupied cell is on the board and on a
    cell that is not > 0";
  - erasing a painted piece and painting it back restores the board.
- `Rows`: the specification of `shiftLines` and `clearLines`, and the scoring
  rule.
  - `ShiftedAsWritten` is `shiftLines` as written. `Shifted` is the evidently
    intended shift (see Findings).
  - `ScanStep` is one pass of the loop body of `clearLines`. `Scan` is the
    whole bottom-up loop: it collapses each run of full rows, rewinds `y`, and
    stops at 4 rows.
  - Both are parameterised by the shift they use. `ClearSpec` uses the shift as
    written, which is what the code does. `ClearIntended` uses the intended shift.
- `Game`: the class `Game`, with the state object's fields and the board as an
  `array<int>`. Each operation of the core is a method whose postcondition
  gives its new state:
  - The simple setters (`Store`, `ResetTimer`, `Reset`) state it field by field.
  - The board operations state it through the functions above: `Paint`,
    `Shifted`, `ShiftedAsWritten` and `ClearSpec`.
  - The key switch of `logic` and the moves it makes are stated through
    functions on a `Pose` (board, position, frame, timer and counters):
    `Moved`, `Rotated`, `Dropped`, `HeldRotate`, `HeldMove`, `KeyStep` and
    `KeysLoop`. A whole tick with an active piece (`Play`, and `Tick` after the
    spawn) is stated through `PlayStep`: the key loop, then gravity, then the
    timer decrement.
  - The invariant `Valid` says that every cell is 0..7, that the key counters
    are the seven keys and never negative, and that an active piece lies on the
    board at its cell and is painted there.

The loop of `logic` is split into helper methods:
- `Spawn`;
- `DispatchKeys`, with `VisitKey`, `PressKey`, `RotateKey` and `MoveKey`
  (itself split into `StepKey` and `DropKey`);
- `Gravity` and `Play`.

`pastePiece` is split into its staging and commit loops (`StageWrites`,
`Commit`), and the loop body of `clearLines` into `ScanRow`. Each helper covers
the lines of the source it is cited with.

The model follows the code as written in two places where the code may not do
what its authors meant:

- The keydown handler toggles pause whenever the `p` counter reads 1 after any
  key press, not only after a press of `p`. `KeyDown` models that.
- The loop bound of `shiftLines` makes its zero-fill branch dead (see
  Findings). `ShiftLinesAsWritten` models the loop as written, and
  `ClearLines`, `Gravity` and `Tick` use it, as `clearLines` does.
  - `ShiftLines` and `ClearIntended` specify the intended behaviour separately.
  - `ClearTwoRowsAsWritten` and `ClearTwoRowsIntended` show where the two differ.

## Model

| member | source | states |
|---|---|---|
| Geometry.Add | src/main.js:24-26 | subtracting the second vector from the result gives the first, component by component |
| Geometry.Eq | src/main.js:29-31 | true exactly when the two positions are equal |
| Geometry.TruncQ | src/main.js:33-35 | rounds a quarter-cell coordinate toward zero to the enclosing cell, for both signs |
| Geometry.Trunc | src/main.js:33-35 | each component of the cell is its coordinate rounded toward zero: for a coordinate of 0 or more, the cell whose quarters contain it; for a negative one, the cell one step nearer 0 unless the coordinate is whole |
| Geometry.Index | src/main.js:37-39 | a cell on the board has an offset in [0, 180) |
| Geometry.Unindex | src/main.js:41-43 | `index` of the result is the offset again; the column lies in (-10, 10) and has the sign of the offset (0 or more for an offset 0 or more, 0 or less for an offset 0 or less), as JavaScript's `%` gives; an offset on the board gives a cell on the board |
| Geometry.UnindexIndex | src/main.js:37-43 | `unindex` inverts `index` for columns 0..9 and rows from 0 up |
| Placement.Staged | src/main.js:50-68 | the staged offsets of the first k mask cells are at most k |
| Placement.PaintList | src/main.js:70-71 | writing a list of offsets keeps the board length, and every cell either keeps its value or holds the fill |
| Placement.PaintListStagedAt | src/main.js:75-88 | after the first k mask cells are painted, offset i holds the fill exactly when one of those k occupied cells lies over it, and otherwise keeps its value |
| Placement.PaintAt | src/main.js:75-88 | painting a frame that lies on the board writes the fill under its occupied cells and nowhere else |
| Placement.FitsIff | src/main.js:45-73 | pastePiece succeeds exactly when every occupied cell lies on the board and no cell under the frame is > 0 (both directions) |
| Placement.PaintPainted | src/main.js:75-88 | after painting, every cell under the frame holds the fill |
| Placement.EraseRestore | src/main.js:115-132 | erasing a painted frame and painting it again with its fill restores the board exactly |
| Placement.PaintErase | src/main.js:115-132 | painting a frame over cells that are all empty and then erasing it gives back the board exactly |
| Placement.PaintInRange | src/main.js:75-88 | painting with a fill in 0..7 keeps every cell in 0..7 |
| Placement.SpawnInBounds | src/main.js:183-187 | every mask anchored at the spawn cell (3, 17) lies on the board, so the forced paint of a failed spawn stays on it |
| Placement.AnchorRow | src/main.js:203-207 | a frame with an occupied cell on the board has its anchor row at 0 or above, which bounds the hard drop |
| Rows.ShiftKeepsRows | src/main.js:134-143 | both shifts leave the rows below `line` unchanged, and the shift as written also leaves the top `len` rows unchanged |
| Rows.ShiftedAsWrittenRow | src/main.js:135-141 | in the shift as written, each row y in [line, 18 - len) takes the old contents of row y + len |
| Rows.ShiftedRow | src/main.js:134-143 | in the intended shift, each row y from `line` up takes row y + len, or becomes zeros when y + len is past the top |
| Rows.ShiftedRemovesRows | src/main.js:134-143 | the intended shift is the board with rows [line, line + len) removed and `len` empty rows on top |
| Rows.AsWrittenAgreesIffTopEmpty | src/main.js:134-143 | the shift as written equals the intended one exactly when the top `len` rows are empty |
| Rows.ShiftAsWrittenDuplicatesTopRow | src/main.js:135-137 | collapsing the bottom row of a board with one block in the top row copies the block into row 16 and keeps it in row 17; the intended shift leaves row 17 empty |
| Rows.ShiftedRowFull | src/main.js:150 | after the intended shift, row y is full exactly when the row it came from was full, and an emptied top row is not full |
| Rows.ShiftedAsWrittenRowFull | src/main.js:134-143 | after the shift as written, a row the loop visits is full exactly when the row `len` above it was, and every other row is full exactly when it was before |
| Rows.ShiftInRange | src/main.js:134-143 | both shifts keep every cell in 0..7 |
| Rows.ScanStep | src/main.js:150-168 | one pass of the loop body: the board keeps its size; the pass stops the loop exactly when 4 or more rows were removed; otherwise the run stays consistent with `y`; and either more rows were removed, or none were and `y` moved up with the board unchanged |
| Rows.Scan | src/main.js:145-171 | the scan terminates although `y` moves back after each collapse, never counts fewer rows than it started with, and leaves the board unchanged when it collapses nothing |
| Rows.ScanFullRow | src/main.js:150-157 | a full row opens a run at y, or extends the open run by one |
| Rows.ScanCollapse | src/main.js:160-167 | a non-full row after a run shifts the run out and resumes at the row above its start with `len` more rows counted, or ends the scan when that reaches 4 |
| Rows.ScanPass | src/main.js:150-168 | a non-full row with no run open is passed over |
| Rows.ScanUnfold | src/main.js:150-168 | the scan is one pass of the loop body followed by the scan from the state it leaves, or ends with that pass when it stops the loop |
| Rows.ScanUnfoldFull | src/main.js:150-157 | for a full row, the pass never stops the loop and the scan continues from the state it leaves |
| Rows.ScanUnfoldCollapse | src/main.js:160-167 | for a non-full row after a run, the pass leaves the shifted board, the rewound row and the raised count, and the scan ends or continues accordingly |
| Rows.ScanInRange | src/main.js:145-171 | clearing, with either shift, keeps every cell in 0..7 |
| Rows.ScanNoFullRows | src/main.js:150-168 | with no run open and no full row from y up, the board is unchanged and no row is counted |
| Rows.ScanTopRun | src/main.js:150-158 | a run of full rows that reaches the top row is never collapsed |
| Rows.FullBoardNotCleared | src/main.js:145-171 | a completely full board is left as it is and 0 rows are counted, with either shift |
| Rows.ScanSkip | src/main.js:150-158 | rows that are not full and close no run are passed over |
| Rows.ClearSingleRow | src/main.js:145-171 | a single full row below the top is collapsed with the scan's shift and 1 row is counted: as written the top row keeps its contents, as intended it is emptied |
| Rows.ClearTopBlockAsWritten | src/main.js:145-171 | `clearLines` as written on a board with a full bottom row and one block at (0, 17) counts 1 row and leaves the block in both row 16 and row 17 |
| Rows.ClearTopBlockIntended | src/main.js:145-171 | the intended clear of the same board counts 1 row, moves the block to row 16 and leaves row 17 empty |
| Rows.ClearTwoRowsAsWritten | src/main.js:145-171 | `clearLines` as written on a board whose bottom and top rows are full counts only 1 row, worth 1000 points |
| Rows.ClearTwoRowsIntended | src/main.js:145-171 | the intended clear of the same board counts 2 rows, worth 4000 points |
| Rows.SecondRunCollapsed | src/main.js:150-168 | once the first run is collapsed by the intended shift, the single full row 16 left below an empty top row is collapsed too |
| Rows.ScoreFor | src/main.js:220-222 | a lock earns at least 100 points, and 2000 n points for n >= 2 rows |
| Rows.ScoreStrictlyIncreasing | src/main.js:220-222 | clearing more rows always earns strictly more points |
| Rows.ScoreTable | src/main.js:220-222 | 0, 1, 2, 3 and 4 rows earn 100, 1000, 4000, 6000 and 8000 points |
| Game.NextRotation | src/main.js:91-95 | the new frame index lies in [0, len); rotating right wraps from the last frame to 0, and rotating left wraps from 0 to the last frame |
| Game.RotationRoundTrip | src/main.js:91-95 | rotating one way and then the other returns to the starting frame |
| Game.BumpKey | src/main.js:198-199 | a tracked key whose counter is above 0 goes up by one; a counter at 0 stays at 0; no other counter changes and no key is added |
| Game.Moved | src/main.js:115-132 | a move on a pose changes only the board and the position: the frame, the timer and the counters are kept |
| Game.Rotated | src/main.js:90-105 | a rotate on a pose changes only the board and the frame: the position, the timer and the counters are kept |
| Game.StepDownBound | src/main.js:203-207 | a step down that fits starts above row 0, which bounds the hard drop |
| Game.Dropped | src/main.js:205 | the hard drop on a pose terminates and keeps the frame, the timer and the counters |
| Game.DroppedRests | src/main.js:205 | the hard drop stops in the same column, no higher, where one more step down does not fit |
| Game.DroppedBoard | src/main.js:115-132 | after the hard drop the board is the piece lifted off its starting cell and painted at the cell where it stopped: each intermediate paint is erased by the next step |
| Game.HeldRotate | src/main.js:198-199 | a held e or q keeps the position and the timer |
| Game.HeldMove | src/main.js:200-209 | a held a, d, s or w keeps the frame and the counters; any other key falls to `default` and leaves the pose unchanged |
| Game.KeyStep | src/main.js:196-210 | one key of the switch keeps the pose well formed; a key that is untracked or whose counter is not above 0 leaves the pose unchanged |
| Game.KeysLoop | src/main.js:195-211 | the key loop over the first n keys keeps the pose well formed |
| Game.HeldMoveTimer | src/main.js:202-207 | after a held movement key the timer is reset exactly when s or w found its first step down fitting, and is otherwise unchanged |
| Game.HeldDropRests | src/main.js:203-207 | after w's first step fits, the piece ends in the same column, strictly lower, where one more step down does not fit |
| Game.KeyStepKeys | src/main.js:196-210 | only e and q change counters, each bumping its own |
| Game.KeysLoopKeys | src/main.js:195-211 | after the first n keys, e is bumped at the fifth key and q at the sixth, and no other counter changes |
| Game.KeysLoopTimer | src/main.js:195-211 | the key loop leaves the timer as it was or resets it |
| Game.KeyStepRot | src/main.js:196-210 | one key of the switch keeps the frame index unless it is e or q with its counter at exactly 1 |
| Game.KeysLoopRot | src/main.js:195-211 | the key loop keeps the frame index unless the e or q counter it starts from is exactly 1 |
| Game.PlayStep | src/main.js:195-228 | a tick with an active piece keeps the pose well formed, counts no rows unless the piece locked, and never a negative number |
| Game.PlayStepCounters | src/main.js:195-228 | after a tick with an active piece the e and q counters are bumped, no other counter changes, and the timer is one lower than before or 29 |
| Game.KeysLoopOrder | src/main.js:195-211 | the key loop runs the switch for w, a, s, d, e, q and p in that order, the order of `Object.keys(state.keys)` |
| Game.Game.constructor | src/main.js:265-285 | the board is all zeros, there is no active piece, position [-1, -1], frame 0, score 0, not paused or over, all seven counters 0, and the invariant holds |
| Game.Game.Reset | src/main.js:542-553 | the board is all zeros, the piece, position, frame, score and flags are reset, and the invariant holds |
| Game.Game.ResetTimer | src/main.js:107-109 | the timer is 30 |
| Game.Game.FillShape | src/main.js:75-88 | the board becomes the frame painted (or erased) at the position's cell, with no check |
| Game.Game.Store | src/main.js:86 | a store to an offset outside the typed array is ignored; any other store changes that one cell |
| Game.Game.PastePiece | src/main.js:45-73 | it succeeds exactly when the frame fits; on success the board is the frame painted with `fillIndex`, and on failure the board is unchanged |
| Game.Game.StageWrites | src/main.js:50-68 | the staging loop gets through exactly when the frame fits, and then it has staged the offsets of all occupied cells in loop order |
| Game.Game.Commit | src/main.js:70-71 | the board becomes the staged offsets written with the fill, in order |
| Game.Game.Rotate | src/main.js:90-105 | if the next frame fits at the same cell once the piece is lifted, that frame becomes current and is painted there; otherwise the frame index and the board are unchanged; the invariant holds |
| Game.Game.Move | src/main.js:115-132 | it returns whether the move fits; the position moves only then; the board changes only when a successful move crosses into another cell; a failed move restores the board exactly |
| Game.Game.DropToFloor | src/main.js:205 | the hard drop terminates at the same column, no higher, where one more step down does not fit; the board is the piece lifted off its starting cell and painted at the cell where it stopped; the new pose is `Dropped` of the old one |
| Game.Game.ShiftLines | src/main.js:134-143 | the board becomes the intended shift (rows [line, line + len) removed, zeros on top) |
| Game.Game.ShiftLinesAsWritten | src/main.js:134-143 | the board becomes the shift as written, whose top `len` rows keep their old contents |
| Game.Game.ClearLines | src/main.js:145-171 | the board and the returned count are those of the scan with the shift as written (`ClearSpec`), which terminates although `y` moves back after each collapse |
| Game.Game.ScanRow | src/main.js:150-168 | one pass of the loop body leaves the board, the row, the run, the count and the stop flag given by `ScanStep` with the shift as written |
| Game.Game.Spawn | src/main.js:177-193 | the chosen type is active at [3, 17] with frame 0, fill pieceIndex + 1 and timer 30; it is painted even when it does not fit, and then the game is over |
| Game.Game.PressKey | src/main.js:196-210 | the new pose is `KeyStep` of the old one; only e and q change the counters; the frame changes only on a rotate key whose counter was 1; s and w reset the timer exactly when their first step down fits; after a fitting w the piece rests lower in the same column |
| Game.Game.RotateKey | src/main.js:198-199 | the counter of e or q goes up by one; the new pose is `HeldRotate` of the old one, so when the counter was exactly 1 the piece rotates (q to the right, e to the left) if the next frame fits at its cell once lifted, and otherwise frame and board are unchanged |
| Game.Game.BumpCounter | src/main.js:198-199 | the postfix `state.keys[key]++` raises that one counter by one and keeps the invariant |
| Game.Game.MoveKey | src/main.js:200-209 | the new pose is `HeldMove` of the old one: a and d move a quarter cell sideways if that fits and keep the timer; s steps down if that fits; s and w reset the timer exactly when the first step down fits; after a fitting w the piece rests lower in the same column; any other key changes nothing |
| Game.Game.StepKey | src/main.js:202 | the new pose is `HeldMove` of the old one for s |
| Game.Game.DropKey | src/main.js:203-207 | the new pose is `HeldMove` of the old one for w |
| Game.Game.DispatchKeys | src/main.js:195-211 | the new pose is `KeysLoop` of the old one over all seven keys in the order w, a, s, d, e, q, p; the held e and q counters are up by one and no other counter changes; the timer is unchanged or reset; the frame is unchanged unless the e or q counter was 1 |
| Game.Game.VisitKey | src/main.js:196 | the new pose is `KeyStep` of the old one: a key whose counter is above 0 is pressed, any other is skipped |
| Game.Game.Gravity | src/main.js:213-226 | with the timer above 0 nothing changes; at 0 a fitting step down gives the pose `Moved` down with the timer reset, which repaints the piece at its new cell; otherwise the piece locks, the timer stays at 0, the board becomes the board cleared with the shift as written, and the score rises by the points for the rows it counted |
| Game.Game.Play | src/main.js:195-228 | the new pose is that of `PlayStep` on the old one: the key loop, then on a zero timer a step down or a lock that clears rows with the shift as written, then the timer decrement; the piece is gone exactly on a lock, and the score rises then by the points for the rows that lock cleared; counters are bumped and the timer ends one lower than before or at 29 |
| Game.Game.Tick | src/main.js:173-229 | a paused or finished game is unchanged; the score never falls; only a failed spawn ends the game, and it does so exactly when the spawned frame does not fit, leaving the piece painted, the timer at 30 and the counters untouched; with an active piece, and after a successful spawn from the spawned pose, the new pose, the piece and the score are those of `PlayStep` |
| Game.Game.KeyDown | src/main.js:571-576 | a tracked key's counter goes up by one, and pause flips exactly when the p counter then reads 1 |
| Game.Game.KeyUp | src/main.js:577-579 | a tracked key's counter becomes 0 |

## Left out

- Rendering is not part of this model: `present`, the buffer, texture and vertex-array setup, `renderSetup` and `makeOrtho`. It is WebGL and floating point, with no game logic.
- `src/shader.js` is not part of this model. It only wraps WebGL calls.
- The webpack configuration files are not part of this model. They configure the bundler.
- `setScore` is left out. It only writes the score into the page.
- `gameLoopCallback` and `requestAnimationFrame` are left out. `Tick` is one call of `logic`.
- `Math.random` is replaced by the argument `pieceIndex` of `Tick` and `Spawn`. It is bounded by 7, as `Math.trunc(Math.random() * 6.5)` is.
- The model assumes the catalog has at least 7 piece types: the constructor requires it and `Valid` keeps it. With fewer, the source's `Object.keys(state.pieces)[pieceIndex]` is `undefined` for a large index and `logic` throws at src/main.js:186; that failure is not modelled.
- The `./pieces` module is not part of this model. The catalog is a constructor argument: a sequence of piece types, each a non-empty sequence of 16-cell frames.
  - The model assumes that every frame has at least one occupied cell. The hard drop's termination argument needs it. This is an assumption about the catalog, which the model cannot check against `./pieces`.
- `Float32Array` values are modelled as integers. Every value written is 0 or a fill 1..7.
- `state.redraw` and `state.frames` are left out. They are render bookkeeping.
- The timer starts at 0 in the constructor, whereas the source leaves it undefined until the first spawn. The first tick always spawns and sets it to 30, so nothing observable differs.
- Keys other than the seven tracked ones get no counter.
  - In the source, `keydown` stores NaN for such a key, `keyup` stores 0, and a later `keydown` stores 1.
  - `logic` then visits the key, after `p` for most names and before `w` for integer-like names such as `1`, which `Object.keys` lists first. It may find the counter above 0, but the switch sends every such key to `default: break` (src/main.js:209), so the visit order does not matter and nothing changes.
  - Such a key still triggers the pause check in `KeyDown`, as in the source.
- Game.Game.StageWrites: does not state that every staged offset lies on the board. The model only needs the offsets to equal the staged list of a fitting frame; `Placement.FitsIff` gives the on-board fact at the cell level.

## Findings

| source | as written | input that shows it | evidently intended | confidence | as-written member | corrected member |
|---|---|---|---|---|---|---|
| src/main.js:134-143 | the loop runs while y < 18 - len, so the branch that clears rows with nothing above them (y + len >= 18) is never taken, and the top `len` rows keep their contents; `clearLines` (src/main.js:161) calls it, so a collapse duplicates the top rows | `TopBlockBoard` (full bottom row, one block at (0, 17)): `clearLines` leaves the block in both row 16 and row 17. `TwoRowBoard` (rows 0 and 17 full): `clearLines` counts 1 row (1000 points), because the copied top row and row 17 form a run that reaches the top and is never collapsed | the rows from `line` up move down by `len` and the top `len` rows become empty, so `TwoRowBoard` loses both rows (4000 points) | not executed; high (the dead branch can only be reached with the bound 18) | Rows.ClearTwoRowsAsWritten | Rows.ClearTwoRowsIntended |

`Game.Game.ShiftLinesAsWritten` is the loop as written, and `Game.Game.ClearLines` calls it, as `clearLines` does. `Rows.ShiftAsWrittenDuplicatesTopRow` and `Rows.ClearTopBlockAsWritten` show the duplicated block, and `Rows.ClearTopBlockIntended` and `Rows.ShiftedRemovesRows` prove the intended behaviour. `Rows.AsWrittenAgreesIffTopEmpty` shows that the two shifts differ exactly when the top `len` rows are not empty. `Game.Game.ShiftLines` runs the loop up to row 18, so its zero-fill branch clears the top rows.
