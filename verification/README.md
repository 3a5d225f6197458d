# Conway's Game of Life: simulation engine

This project models the engine behind a browser implementation of Conway's Game of Life
(`script.js`) and proves properties of it in Dafny 4.11. The page keeps a `rows × cols`
matrix of 0/1 cells. A frame callback advances it one generation at a time under the
B3/S23 rule, with edges that do not wrap. Generations are paced by comparing frame
timestamps against an interval. Start/stop controls and a space-bar toggle drive the
run state. A click on the canvas flips one cell.

Modules:

- `GridState` (`grid.dfy`): the grid as `seq<seq<int>>` with the well-formedness
  predicate `WellFormed(g, rows, cols)` (exact dimensions, every cell 0 or 1). It also
  holds empty-grid creation, single-cell update, the click-to-cell mapping with its
  toggle, and the seeded glider.
- `RuleEngine` (`rules.dfy`): the neighbour count and the generation step.
  - `CountNeighbors` sums the eight Moore offsets in the order the source's nested
    loops visit them. It is proved equal to an independent reference: the size of the
    set of live in-bounds neighbours.
  - `Step` builds the next generation from the old grid.
  - Imperative loops are proved equal to the pure definitions: the row-major double
    loop of the source, a column-major one, and a pass over the cells in any order
    that reaches every cell.
- `Session` (`session.dfy`): the page state, held as the record
  `Session(rows, cols, grid, running, lastUpdateTime, speed, keyState)`. It covers the
  frame callback's advance decision, start/stop/reset/randomize, the canvas click and
  the space-bar handler. Each input is an `Event`, and runs of events are handled in
  order.
- `Patterns` (`patterns.dfy`): facts about patterns. These are the count at a corner,
  the block still life on any grid, and the glider's four-generation translation by
  (+1, +1), both on a 5 × 5 grid and where the page seeds it.

Modelling choices:

- `rows` and `cols` are constants of the page in the source. Here they are passed
  explicitly and may be 0.
- The frame scheduler (`requestAnimationFrame` / `cancelAnimationFrame`) is represented
  by the boolean `running`, which stands for "a frame request is pending". `Frame`
  delivers a callback only while `running` holds.
- Timestamps and the interval `speed` are whole milliseconds (`nat`). A
  `lastUpdateTime` of 0 is the source's falsy "no baseline" value.
- Pixel offsets are integers. With a positive divisor, Dafny's `/` is floor division.
  The floor of `y / 10` for a fractional `y` equals the floor of `floor(y) / 10`, so
  integer offsets lose nothing.
- The random fill takes one draw in [0, 1) per cell as a parameter, `draw`. The
  threshold 0.7 is kept.

Behaviour of `script.js` that the model keeps exactly:

- The advance test is the strict `elapsed > speed` (script.js:98).
- The baseline is re-seeded whenever `lastUpdateTime` is 0, its falsy value
  (script.js:94).
- `createEmptyGrid` has no error case; a zero dimension gives an empty grid
  (script.js:22-24). Any interval is accepted.
- A click outside the grid is checked and ignored (script.js:152).
- The space-bar `state` string is separate from the run flag. Reset and the buttons
  do not update it, so it can drift (`KeyStateDrift`).

## Model

| member | source | states |
|---|---|---|
| GridState.CreateEmpty | script.js:22-24 | the new grid has exactly `rows` rows of `cols` cells, every one 0 |
| GridState.CellAt | script.js:65-67 | a read at a position outside `[0,rows)×[0,cols)` yields dead, so no out-of-range index is ever used; every read is 0 or 1 |
| GridState.SetCell | script.js:153 | writing one in-bounds cell sets exactly that cell, leaves every other cell as it was and keeps the grid well formed |
| GridState.Toggle | script.js:152-153 | an in-bounds cell flips between 0 and 1 and every other cell is unchanged; an out-of-bounds position leaves the grid equal to the input |
| GridState.ToggleTwice | script.js:152-153 | toggling the same position twice restores the original grid (the toggle is its own inverse) |
| GridState.CellOfPixel | script.js:149-150 | the computed row/column `k` is the floor of the pixel offset over the cell size: `10k <= p < 10(k+1)` |
| GridState.Click | script.js:149-155 | a click flips exactly the cell whose 10×10 square contains the pixel; a pixel outside the grid's area leaves the grid unchanged; the 0/1 invariant is kept |
| GridState.AddGlider | script.js:184-193 | with at least 13 rows and columns, exactly the five glider cells relative to (10, 10) become 1 and every other cell is unchanged |
| RuleEngine.SumFrom | script.js:58-69 | the sum over any list of offsets lies between 0 and the number of offsets |
| RuleEngine.CountNeighbors | script.js:56-71 | the neighbour count lies in [0, 8] |
| RuleEngine.CountIsLiveNeighbours | script.js:56-71 | the count equals the number of live in-bounds cells among the eight neighbours: the centre is never counted and nothing outside the grid contributes |
| RuleEngine.CountLocal | script.js:60-67 | two grids that agree on the in-bounds neighbours of (x, y) give the same count there, whatever else differs |
| RuleEngine.CountIgnoresSelf | script.js:60 | changing the cell (x, y) itself never changes its own neighbour count |
| RuleEngine.CountExpanded | script.js:58-69 | the count is the sum of the eight neighbour cells in loop order, positions outside the grid reading as 0 |
| RuleEngine.VisitStep | script.js:58-67 | one iteration of the offset loops adds that offset's cell to the running sum, and the skipped centre adds nothing |
| RuleEngine.CountNeighborsLoop | script.js:56-71 | the nested offset loops with the centre skip and the bounds test compute exactly the functional count |
| RuleEngine.Step | script.js:73-91 | the next generation has the same dimensions and every cell is 0 or 1 |
| RuleEngine.StepIsLife | script.js:78-86 | B3/S23: a cell is 1 in the next generation iff it was 1 with 2 or 3 live neighbours or 0 with exactly 3, and 0 otherwise |
| RuleEngine.StepAllDead | script.js:74-90 | an all-dead grid steps to itself |
| RuleEngine.StepLocal | script.js:76-86 | each new cell depends only on the 3×3 block of the old grid around it |
| RuleEngine.UpdateCell | script.js:78-86 | the if-chain on the old cell and its live count writes the next-generation value into the untouched cell of the fresh grid, and no other cell changes |
| RuleEngine.StepLoop | script.js:73-91 | the row-major double loop, writing into a fresh empty grid with counts over the old grid, yields exactly the functional step |
| RuleEngine.StepLoopByColumns | script.js:74-90 | visiting columns in the outer loop (column-major order) yields the same grid as the row-major pass |
| RuleEngine.StepInOrder | script.js:74-90 | visiting the cells in any order that reaches every in-bounds cell, repetitions allowed, yields exactly the functional step, so the result does not depend on iteration order |
| RuleEngine.StepN | script.js:73-91 | any number of generations keeps the grid's dimensions and its 0/1 cells |
| Session.Init | script.js:13-20 | the page starts idle with an all-dead grid, no baseline and key state "stop" |
| Session.Animate | script.js:93-102 | with the baseline re-seeded from the timestamp when it is 0, the grid advances exactly one generation and the baseline becomes the timestamp iff elapsed > speed; otherwise the grid is unchanged and only the baseline may be re-seeded; run state, key state and dimensions never change |
| Session.AnimateAtMostOne | script.js:96-101 | no catch-up: one frame leaves the grid as it was or advances it by exactly one generation, however large the elapsed time |
| Session.AnimateSameTimestamp | script.js:93-102 | a second frame with the same timestamp changes nothing further |
| Session.StartGame | script.js:107-114 | starting when running changes nothing; from idle it sets running and clears the baseline, changing nothing else |
| Session.StopGame | script.js:116-123 | afterwards the game is idle and nothing but the run flag has changed |
| Session.StartIdempotent | script.js:107-114 | starting twice has the same effect as starting once |
| Session.StopIdempotent | script.js:116-123 | stopping twice has the same effect as stopping once |
| Session.FirstFrameAfterStart | script.js:107-110 | the first frame after a start only sets the baseline to its timestamp and never advances the grid |
| Session.ResetGame | script.js:125-129 | afterwards the game is idle with an all-dead grid of the same dimensions; key state, baseline and interval are untouched |
| Session.Randomize | script.js:131-142 | afterwards the game is idle and each cell is 1 exactly when its draw exceeds 0.7 |
| Session.ClickCanvas | script.js:144-156 | a canvas click only changes the grid, flipping exactly the cell under the pointer when it is inside the grid |
| Session.PressSpace | script.js:162-169 | with key state "stop" the space bar starts the game, with "start" it stops it, and the key state flips either way |
| Session.PressSpaceInStep | script.js:162-169 | while the key state matches the run state, each press flips the run state, keeps them matched and leaves the grid alone |
| Session.KeyStateDrift | script.js:116-123 | after a space-bar start and a stop-button click, the key state says "start" while idle; the next press is a no-op stop that leaves the grid intact, and only the press after it restarts |
| Session.Frame | script.js:104 | frame callbacks arrive only while a frame request is pending, so a stopped session is left unchanged |
| Session.Handle | script.js:173-180 | every input (buttons, canvas click, space bar, speed input, frame) keeps the grid well formed with its dimensions |
| Session.Run | script.js:173-180 | a sequence of inputs, handled in order, keeps the grid well formed with its dimensions |
| Session.FramesAdvanceAtMostOnce | script.js:93-105 | after n frame callbacks the grid is the starting grid advanced by some k <= n generations |
| Session.StoppedFramesInert | script.js:116-123 | once stopped, no sequence of frame callbacks changes the session |
| Patterns.CornerCount | script.js:56-71 | with live cells at (0,1) and (1,0) and (1,1) dead, the count at the corner (0,0) is 2 |
| Patterns.EmptyCountsZero | script.js:22-24 | every neighbour count on a freshly created grid is 0 |
| Patterns.StepFromCells | script.js:76-86 | a pattern steps to another when every cell obeys the rule computed from the pattern's live cells |
| Patterns.BlockStill | script.js:73-91 | the 2×2 block at (1,1) on a 4×4 grid is a still life |
| Patterns.BlockStillAnywhere | script.js:73-91 | on any grid, a 2×2 block at any position inside it, with every other cell dead, is a still life |
| Patterns.GliderShapes | script.js:187-191 | the glider phases used below start as the seeded glider shape and end as that shape moved by (+1, +1) |
| Patterns.GliderPeriod | script.js:73-91 | four generations move the seeded glider shape by (+1, +1) on a 5×5 grid and leave every other cell dead |
| Patterns.SeededGlider | script.js:184-193 | seeding a fresh grid of at least 13 rows and columns gives exactly the glider with corner (10, 10) and no other live cell |
| Patterns.SeededShapeMoved | script.js:187-191 | the shape reached after four generations is the seeded glider moved by (+1, +1) |
| Patterns.SeededGliderPeriod | script.js:184-193 | on any grid of at least 14 rows and columns, four generations after the page seeds a fresh grid, the glider has moved by (+1, +1) and every other cell is dead |

## Left out

- Canvas drawing (`drawGrid`, script.js:26-54) is rendering output.
- DOM and event wiring, the buttons' `disabled` flags, `getBoundingClientRect` and
  `preventDefault` are browser plumbing. Only the calls they make are modelled.
- The canvas sizing that derives `rows` and `cols` from the viewport (script.js:4-5,
  14-15) is not modelled. The dimensions are parameters.
- `requestAnimationFrame` and `cancelAnimationFrame` are a foreign scheduler. They are
  represented by the `running` flag and the `Frame` event.
- The interval `1000 / speedSlider.value` (script.js:18, 174) is a floating-point
  division of a widget value. `speed` is an abstract natural number, and the speed
  input sets it directly.
- Session.Randomize: `Math.random()` is replaced by a per-cell draw parameter. The
  0.3 expected density of live cells is a probabilistic property and is not stated.
- The 100 ms delay before the glider is seeded (`setTimeout`, script.js:195) is
  timing only. The seeding itself is `AddGlider`.
- The console message on a space-bar press is output only.
- Session.Animate: timestamps are whole milliseconds, not fractional
  high-resolution times. The strict comparison and the re-seeding are kept exactly.
- GridState.AddGlider: requires at least 13 rows and 13 columns. On smaller grids the
  source fails part-way: with 10 or fewer rows the first write throws because row 10
  does not exist; with 11 or 12 rows the first writes happen and a later one throws;
  with 12 or fewer columns the writes lengthen rows 10-12 past `cols` (cells that are
  never read, since every read is bounds-checked). Those partial outcomes are not
  modelled.
