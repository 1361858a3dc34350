# Snake game state, modelled in Dafny

This project models the simulation core of a small Snake game written in Go:
the snake's body, heading and alive flag, its move, grow and death rules, the
placement of the apple, and the per-frame rules of the game loop (direction
keys, the 50 ms move throttle, and eating). Window handling, drawing and the
wall clock are outside the model.

Everything is stated on integer grid cells. The source keeps pixel
rectangles, but every rectangle has its minimum corner on a multiple of the
20-pixel cell size and its maximum corner one cell further, and every
equality test compares minimum corners only. So a cell `(col, row)` stands
for the rectangle whose minimum corner is `(20·col, 20·row)`. Rows grow
upwards, as pixel y does.

Files and modules:

- `grid.dfy`, module `Grid`: the board and window constants, `Cell`,
  `Direction`, the step offsets, and the pixel window test.
- `snake.dfy`, module `SnakeState` (from `snake.go`): the class `Snake` with
  fields `body`, `direction` and `alive`. Its methods update those fields in
  place. The pure functions `StartBody`, `Shifted` and `Grown` specify what
  the methods do to the body, and the lemmas are stated about them.
- `apple.dfy`, module `Apple` (from `main.go`): the first apple, and the
  candidate scan of `moveApple` as a method with the source's nested loops.
  The scan is specified by the recursive functions `ColumnScan`/`GridScan`
  (`ValidPositions` is the whole board).
- `game.dfy`, module `Game` (from `main.go`'s `run`): the class `Game`
  holding the snake, the apple, the accumulated frame time `dt` and the
  score. `Frame` is one iteration of the loop body and `Play` is the loop. The
  value `GameState` and the functions `FrameStep` (one frame) and `Run` (the
  loop over a sequence of frame inputs) specify them: `Frame` ends in the
  state `FrameStep` gives, and `Play` in the state `Run` gives.

Inputs from the outside world are parameters. A frame receives the keys
held, the frame's duration in nanoseconds (a Go `time.Duration`), whether
the window was closed, and the random draw.

The `Game.Valid` invariant (`ValidState` of the session's state) is kept by
every frame. It says:

- the apple is on the board and on no snake cell;
- `dt` is not negative;
- the score is the initial length 5 plus one per apple eaten;
- the body has 5 cells plus 10 per apple eaten.

Because of this invariant, an apple can only be eaten on a frame in which the
snake moved.

The model follows the code where it differs from what a reader of the game
might expect:

- `NewSnake` with a size of 0 or less returns an empty body. It is not rejected.
- `Grow(0)` is not a no-op. The recursion never reaches its `n == 1` exit, so
  `Grow` requires `n >= 1`.
- `Move` does not test whether the snake is already dead. Only the loop guard
  stops a dead snake.
- The keys are checked in a fixed priority order (Up, Left, Down, Right). It
  is not "most recently pressed wins".
- The apple does not go to a uniformly chosen empty cell. A cell is a
  candidate when its column OR its row is used by no segment. Candidates
  are never on the snake, but some unoccupied cells are excluded
  (`Apple.ValidPositionsMissUnoccupiedCell`). The candidate list can be empty
  while unoccupied cells remain (`Apple.DiagonalLeavesNoCandidate`). There is no "board
  full" error: the random draw over an empty range fails at run time.
- Turning round is allowed. It kills a snake of three or more cells on its
  next move. A two-cell snake only swaps head and tail, so it does not
  collide; it survives exactly when its old head cell is on the board
  (`SnakeState.ReversalLandsOnNeck`). The game's snake always has at least
  five cells.

## Model

| member | source | states |
|---|---|---|
| `Grid.Step` | snake.go:58-71 | the cell one move away: Up is row+1, Left is col−1, Down is row−1, Right is col+1 (the source's offsets divided by the 20-pixel cell size) |
| `Grid.InWindow` | snake.go:33-36 | the pixel test `Min >= 0` and `Max <= 800` holds exactly when 0 ≤ col < 40 and 0 ≤ row < 40 |
| `Grid.StepOpposite` | snake.go:58-71 | the offsets of opposite headings cancel, and every step leaves the cell |
| `SnakeState.Snake.constructor` | snake.go:15-29 | a new snake has body `StartBody(size)`, heading Left and is alive |
| `SnakeState.StartBodyShape` | snake.go:20-28 | for every size ≥ 1 the start body has `size` cells, its head at (20,20), and each cell one step right of the one before |
| `SnakeState.StartBodyFits` | snake.go:20-28 | for 1 ≤ size ≤ 20 every cell of the start body is on the board, and it survives the collision test |
| `SnakeState.StartBody` | snake.go:20-28 | the body `NewSnake(size)` builds: for i from 0 below size, cell (20+i, 20), i.e. pixel (400+20i, 400); empty when size ≤ 0 |
| `SnakeState.Occurs` | snake.go:41-46 | the linear search finds `c` exactly when some element equals `c` |
| `SnakeState.Snake.InBounds` | snake.go:33-36 | true exactly when the head cell is on the board |
| `SnakeState.Snake.SelfCollide` | snake.go:38-47 | true exactly when some segment at index ≥ 1 shares the head's cell; reads only |
| `SnakeState.Shifted` | snake.go:49-71 | a move keeps the length, puts the head one step away in the heading, and gives segment i the old cell of segment i−1 |
| `SnakeState.ShiftedCells` | snake.go:51-71 | every cell of a moved body is its new head or a cell of the old body |
| `SnakeState.Snake.Move` | snake.go:49-80 | the new body is `Shifted(old body, heading)`, the heading is unchanged, and the snake is alive exactly when it was alive, its new head is on the board, and no other segment shares the head's cell; so it never comes back to life |
| `SnakeState.Grown` | snake.go:82-89 | growing by n adds exactly n cells, keeps the old body as prefix, and every new cell equals the old tail |
| `SnakeState.GrownStep` | snake.go:84-88 | appending one tail copy and then growing by n−1 is growing by n (the recursion step) |
| `SnakeState.Snake.Grow` | snake.go:82-89 | for n ≥ 1 the new body is `Grown(old body, n)`; heading and alive flag are unchanged |
| `SnakeState.Snake.Die` | snake.go:91-93 | the snake is dead afterwards; nothing else changes |
| `SnakeState.ReversalLandsOnNeck` | snake.go:54-79 | after a move in d, a move in the opposite heading puts the head on the old neck cell; with ≥ 3 cells the snake dies; with exactly 2 it does not collide, and it survives exactly when its old head cell is on the board |
| `SnakeState.StartReversalKills` | snake.go:49-79 | a new five-cell snake whose heading is flipped to Right dies on its first move |
| `SnakeState.StartThreeMovesLeft` | snake.go:49-79 | a new five-cell snake moved Left three times has its head at column 17, keeps its five cells, and is alive after each move |
| `Apple.NewApple` | main.go:31-35 | the first apple is on the board at pixel (200,200), i.e. cell (10,10), independent of the random source |
| `Apple.ValidPositions` | main.go:53-63 | the candidate slice: the scan over all 40 columns (outer) and 40 rows (inner) of the cells whose column or row no segment uses |
| `Apple.ColumnScanSpec` | main.go:56-62 | one column's scan holds exactly its cells below row j that pass the column-or-row test, in increasing row order, at most j of them |
| `Apple.GridScanMembers` | main.go:55-63 | the scan of the first i columns holds exactly the cells with col < i and row < h that pass the column-or-row test |
| `Apple.GridScanOrdered` | main.go:55-63 | the scan lists its cells in column-major order |
| `Apple.GridScanLength` | main.go:55-63 | the scan of i columns holds at most h·i cells |
| `Apple.ValidPositionsMembers` | main.go:46-63 | a cell is a candidate exactly when it is on the board and its column or its row is used by no segment |
| `Apple.ValidPositionsAvoidSnake` | main.go:46-63 | no candidate lies on the snake, and every candidate is on the board |
| `Apple.ValidPositionsOrdered` | main.go:55-63 | candidates are in column-major order, pairwise distinct, and at most 1600 |
| `Apple.ValidPositionsMissUnoccupiedCell` | main.go:59 | with segments at (0,0) and (1,1), the unoccupied cell (0,1) is not a candidate |
| `Apple.DiagonalLeavesNoCandidate` | main.go:59-66 | a 40-cell diagonal leaves no candidate, although cells such as (0,1) are unoccupied |
| `Apple.MarkUsed` | main.go:46-51 | the maps mark exactly the columns and the rows that some segment uses |
| `Apple.MoveApple` | main.go:44-70 | given an index k below the candidate count, the new apple is candidate k; it is on the board and not on the snake |
| `Game.NextDirection` | main.go:112-120 | if some key is pressed, the new heading is one of the pressed keys, and it comes first in the order Up, Left, Down, Right; with no key the heading is unchanged |
| `Game.GrowKeepsCandidates` | main.go:46-63 | growing does not change the candidate list, because tail copies use no new column or row |
| `Game.ReverseKeyKills` | main.go:112-126 | pressing only the key opposite to the last move turns the snake round, and a snake of ≥ 3 cells then dies on its move |
| `Game.Game.constructor` | main.go:88-99 | a session starts with the five-cell start snake heading Left and alive, the apple at `NewApple()`, no accumulated time, and score 5 (the body length); the invariant holds |
| `Game.Ticked` | main.go:122-126 | the body after the throttle: moved once in the new heading when more than 50 ms had accumulated, otherwise unchanged; same length |
| `Game.Eats` | main.go:129 | the eat test: the head after the throttle is on the apple's cell |
| `Game.Panics` | main.go:66 | a frame fails when the head is on the apple and the candidate list is empty, where `rand.Intn(0)` panics |
| `Game.FrameStep` | main.go:111-135 | a frame never shortens the body, never brings a dead snake back, sets the heading from the keys, and never lowers the score |
| `Game.FrameStepKeepsValid` | main.go:111-135 | a frame keeps the session invariant, and the head can only reach the apple on a frame in which the snake moved |
| `Game.FrameStepTick` | main.go:122-126 | with more than 50 ms accumulated the snake moves one step in the new heading, lives exactly when it survives that move, and the time restarts at the frame's duration; otherwise body, alive flag and time carry over and the duration is added |
| `Game.FrameStepEatRule` | main.go:128-133 | with the head on the apple the body grows by exactly 10 with the moved body as prefix, the score rises by 1, and the new apple is a candidate on the board and off the snake; otherwise body, score and apple stay as after the tick |
| `Game.PickIndex` | main.go:66 | when the apple must move and candidates exist, the index drawn is below the candidate count |
| `Game.Run` | main.go:101-136 | the loop runs at most one frame per input and records the state each frame starts from |
| `Game.RunFrames` | main.go:101 | a run starts from the given state, and every frame it runs has the window open, the snake alive at its start, and does not fail |
| `Game.RunStops` | main.go:101-136 | a run ends at the end of the inputs, on close or on death; or it ends, flagged, just before a frame whose apple move would find no candidate; the score never drops |
| `Game.RunKeepsValid` | main.go:101-136 | the session invariant holds at the start of every frame and at the end of the run |
| `Game.Game.Frame` | main.go:111-135 | a frame keeps the invariant and leaves the session in the state `FrameStep` gives, so the tick and eat rules above hold of it |
| `Game.Game.Play` | main.go:101-136 | the loop ends in the state `Run` gives, after as many frames as `Run` runs; no frame runs after a close; it stops at the end of the input, on close or on death, or with `panicked` set before a frame that would find no candidate; the score never drops |

## Left out

- The window, frame presentation and close detection (`pixelgl.NewWindow`, `Clear`, `Update`, `Closed`, `pixelgl.Run`): window I/O. Closing is a per-frame input flag.
- `Snake.Draw` and `drawApple`: rendering calls only.
- `time.Now`/`time.Since`: each frame's duration is an integer number of nanoseconds given as input.
- Seeding of `math/rand`: `rand.Intn(n)` is the index `k` passed to `MoveApple` and `Frame`.
- Game.Game.Play: the random draw of a frame is an input `roll`, and the index used is `roll % n`. Every index below `n` is reachable this way. The state of a frame that would panic on an empty candidate list is not modelled: `Play` stops before that frame, but the source first moves and grows the snake and then panics.
- Float pixel arithmetic: replaced by exact integer cells, as explained above.
- Out-of-range `Direction` values, including the `DirectionMax` sentinel, which give a zero offset in `Move`: the heading is one of the four directions.
- Index panics on an empty body in `Move`, `Grow`, `InBounds` and `SelfCollide`: these are preconditions (`|body| > 0`). The game's snake never has fewer than five cells.
