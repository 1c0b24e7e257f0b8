# Snake game engine in Dafny

This project models `GameEngine`, the simulation core of a Snake game. The
engine keeps the snake as a list of segments (tail first, head last), a
direction, a phase (`NotStarted`, `Playing`, `Paused`, `GameOver`), a score
and an optional food cell, all on a board measured in pixels and divided into
square cells. It has three operations. `Initialize` lays out a horizontal snake
on the middle row and places food. `Move` advances one tick. `SetState`
pauses and resumes the game.

Layout:

- `models.dfy`, module `Models`: `Direction`, `GameState` (with `Paused`),
  `Cell` (a segment or food position) and `Option`.
- `rules.dfy`, module `Rules`: the rules as functions on values. This covers
  reversal filtering (`Accept`), the candidate head (`Step`), the wall and
  body tests, the body shift, food placement's guarantee (`FoodOk`) and one
  tick (`Tick`). It also holds the invariant `WellFormed` and the lemmas that
  every tick and every run of ticks keep it.
- `engine.dfy`, module `Engine`: class `GameEngine`. Its fields are updated in
  place. `Initialize`, `Move`, `SetState`, `SpawnFood` and
  `IsPositionOnSnake` are loops and assignments, as in the source. Each is
  proved against the rules: `Move`'s new state is `Tick` of its old state.
- `scenarios.dfy`, module `Scenarios`: the engine's unit-test scenarios as
  lemmas. Each one holds for every food cell the random placement could pick.

Modelling choices:

- Coordinates are `int` pixels and `squareSize` is a positive `int`. The
  source stores doubles, but they are always whole multiples of the cell
  size, and its equality tests on them are exact.
- The source casts quotients to `int` and divides `int`s; both truncate
  toward zero. `TruncDiv` models this, so negative board sizes behave as in
  the source.
- The random column and row drawn at each of `SpawnFood`'s 100 attempts are
  an arbitrary choice in range (`:|`). The contract is therefore "no food, or
  a free, grid-aligned cell of the grid". Nothing is said about the
  distribution.
- In `Tick`, the food cell that placement picks is a parameter (`respawn`).
  `Move` ties it to the new `food` field.
- The fields are public and stand for the read-only accessors `State`,
  `SnakeParts`, `FoodPosition`, `Score` and `SquareSize`. A new engine holds
  C#'s default values: direction `Left` (the enumeration's first value) and
  phase `NotStarted`.
- In `Move`, the body check (lines 92-99 of `GameEngine.cs`) and the body
  shift (lines 109-115) are the methods `CollidesWithBody` and `ShiftBody`.
  `Move` calls them where the source has the two loops. The candidate head
  is computed by `Step`, the function for lines 69-84. This keeps each
  proof small; the order of tests and updates is unchanged.

Behaviour of the code worth noting:

- The body test scans indices `0 .. Count-2` before the food test. So it
  always includes the tail, even on a tick where the tail would leave its
  cell. A rule that skipped the tail on ticks without food would allow
  moving onto the tail; this code does not. `Scenarios.TailChaseEndsGame`
  shows a well-formed snake that ends the game this way.
- Food is placed by rejection sampling with 100 attempts. Free cells are
  never listed, so food can be absent while free cells exist.
- `GameState.cs` lists only `NotStarted`, `Playing` and `GameOver`. The
  engine also uses `Paused`, so the model's `GameState` includes it.
- The test `Move_TeteEntreDansSonCorps_StatePasseAGameOver` (a two-segment
  snake moves Up, then Down) does end in `GameOver`, but not by hitting the
  body. Down reverses Up and is dropped, so the head leaves the board at the
  top (`Scenarios.UpThenDownEndsAtWall`).

## Model

| member | source | states |
|---|---|---|
| `Models.Opposite` | Snake.Core/Core/GameEngine.cs:62-65 | The direction a request must not take is the other one on the same axis, never the direction itself. |
| `Models.OppositeInvolution` | Snake.Core/Core/GameEngine.cs:62-65 | Reversal pairs are symmetric: the opposite of the opposite is the direction itself. |
| `Rules.IsReversal` | Snake.Core/Core/GameEngine.cs:62-65 | The four listed U-turn cases are exactly the requests for the opposite of the current direction. |
| `Rules.Accept` | Snake.Core/Core/GameEngine.cs:62-67 | A request for the opposite of the current direction is dropped and the current direction kept. Any other request, the same direction included, becomes the direction. The result is never the reverse of the current direction. |
| `Rules.Step` | Snake.Core/Core/GameEngine.cs:69-84 | The candidate head is exactly one cell step from the head along exactly one axis. Left/Right keep y and Up/Down keep x. With a positive cell size it moves right exactly for Right, left for Left, down (y grows) for Down and up for Up. |
| `Rules.StepBack` | Snake.Core/Core/GameEngine.cs:69-84 | A step in the opposite direction undoes a step. |
| `Rules.GridSize` | Snake.Core/Core/GameEngine.cs:120-121 | The column and row counts are the numbers of whole cells that fit across and down the board: `n*sq <= extent < (n+1)*sq`, with 0 for a negative extent. |
| `Rules.HitsBody` | Snake.Core/Core/GameEngine.cs:92-99 | The candidate head hits the body exactly when it equals one of the segments other than the head, the tail included. |
| `Rules.Advance` | Snake.Core/Core/GameEngine.cs:109-115 | The shifted body has the same length, segment `i` takes segment `i+1`'s cell, and the head is the new cell. |
| `Rules.StartYOnBoard` | Snake.Core/Core/GameEngine.cs:37-38 | The starting row lies on a board of positive height and is a whole number of cells from the top. |
| `Rules.InitialBodyAt` | Snake.Core/Core/GameEngine.cs:40-47 | The starting snake has `n` segments, and segment `i` is at `(i*sq, startY)`. |
| `Rules.FoodOnBoard` | Snake.Core/Core/GameEngine.cs:120-134 | Placed food lies inside `[0, width) x [0, height)`. A board without a whole column or row holds no food. |
| `Rules.Tick` | Snake.Core/Core/GameEngine.cs:57-116 | A paused or finished game is unchanged. A tick can only keep the phase or end the game. The score rises by at most one, and the snake grows by exactly the points scored. |
| `Rules.TickCases` | Snake.Core/Core/GameEngine.cs:59-115 | The accepted direction is kept even when the game ends. The game ends exactly when the candidate head is off the board or equals a segment other than the head; snake, score and food then stay as they were. Eating appends the candidate head, keeps every old segment, adds one point and takes the new food. Otherwise segment `i` takes segment `i+1`'s cell and the head takes the candidate, while length, score and food stay the same. |
| `Rules.TickEnds` | Snake.Core/Core/GameEngine.cs:86-99 | A tick whose candidate head is off the board or on the body changes only the direction and sets `GameOver`. It keeps the invariant. |
| `Rules.TickEats` | Snake.Core/Core/GameEngine.cs:101-107 | A tick onto the food appends the candidate head, adds one point and takes the new food. The invariant holds afterwards when the new food is a free grid cell of the grown snake. |
| `Rules.TickAdvances` | Snake.Core/Core/GameEngine.cs:109-115 | A tick that neither ends the game nor eats shifts the body onto the candidate head and keeps the invariant. |
| `Rules.FreshHead` | Snake.Core/Core/GameEngine.cs:86-99 | When the body test passes, the candidate head is on no segment (the head included), is adjacent to the head and is grid-aligned. |
| `Rules.AdvanceKeepsDistinct` | Snake.Core/Core/GameEngine.cs:109-115 | After the body shift, no two segments share a cell if none did before and the new head was free. |
| `Rules.AdvanceKeepsChain` | Snake.Core/Core/GameEngine.cs:109-115 | After the body shift, each segment is still one step from the next if the new head is one step from the old head. |
| `Rules.AdvanceKeepsFree` | Snake.Core/Core/GameEngine.cs:101-115 | A cell that was free and is not the new head (the food when it is not eaten) is still free after the shift. |
| `Rules.TickKeepsWellFormed` | Snake.Core/Core/GameEngine.cs:86-115 | From a well-formed state, every tick gives a well-formed state if placement keeps its guarantee. Well-formed means: a non-empty snake of distinct, aligned, on-board cells, each one step from the next; food on no segment; a non-negative score. |
| `Rules.InitialWellFormed` | Snake.Core/Core/GameEngine.cs:26-47 | The initial snake is well formed if it fits: positive height, and the head column inside the width. |
| `Rules.Run` | Snake.Core/Core/GameEngine.cs:57-116 | Any sequence of moves from a playable state ends in a state that is finished, paused or still has a snake. |
| `Rules.RunFrozen` | Snake.Core/Core/GameEngine.cs:59-60 | Any number of moves on a finished or paused game change nothing. |
| `Rules.RunKeepsWellFormed` | Snake.Core/Core/GameEngine.cs:57-154 | Every state reached by a sequence of moves from a well-formed state is well formed. So food never lies on the snake and no two segments share a cell. Over the run, the snake grows by exactly the points scored. |
| `Engine.GameEngine.constructor` | Snake.Core/Core/GameEngine.cs:9-18 | A new engine has an empty snake, no food, score 0, direction Left and phase NotStarted. |
| `Engine.GameEngine.Initialize` | Snake.Core/Core/GameEngine.cs:26-50 | Records the board. Sets phase Playing, score 0 and direction Right. The snake has `max(0, n)` segments, with segment `i` at `(i*sq, (h div sq div 2)*sq)` (truncating division). Food satisfies placement's guarantee. When the snake fits (positive height, head column inside the width), the new game satisfies the invariant. |
| `Engine.GameEngine.SetState` | Snake.Core/Core/GameEngine.cs:52-55 | Assigns the phase and nothing else. |
| `Engine.GameEngine.Move` | Snake.Core/Core/GameEngine.cs:57-116 | The new state is `Tick` of the old state. When the snake ate, the new food satisfies placement's guarantee for the grown snake. The board is unchanged. A move from a state satisfying the invariant gives a state satisfying it. |
| `Engine.GameEngine.CollidesWithBody` | Snake.Core/Core/GameEngine.cs:92-99 | Reports a hit exactly when the cell is a segment other than the head, the tail included. |
| `Engine.GameEngine.ShiftBody` | Snake.Core/Core/GameEngine.cs:109-115 | The new body is the old body shifted onto the new head. |
| `Engine.GameEngine.SpawnFood` | Snake.Core/Core/GameEngine.cs:118-144 | The food is absent, or it is a grid-aligned cell of `[0, maxCol*sq) x [0, maxRow*sq)` that no segment occupies. It is always absent when the grid has no column or no row. |
| `Engine.GameEngine.IsPositionOnSnake` | Snake.Core/Core/GameEngine.cs:146-154 | True exactly when some segment occupies the cell. |
| `Scenarios.HeadStartsRightmost` | Snake.Tests/GameEngineTests.cs:48-56 | On a 100x100 board with 20-pixel cells, four segments lie at x = 0, 20, 40, 60 on y = 40. The head is at (60, 40). |
| `Scenarios.FirstMoveGoesRight` | Snake.Tests/GameEngineTests.cs:71-107 | On a 200x100 board, the first move takes the head from (40, 40) to (60, 40), for a request of Right and for the dropped reversal Left alike. |
| `Scenarios.UpThenLeft` | Snake.Tests/GameEngineTests.cs:84-94 | Up and then Left take the head to (40, 20) and then to (20, 20), still playing. |
| `Scenarios.RightIntoWall` | Snake.Tests/GameEngineTests.cs:111-118 | On a 60x60 board, the head at (40, 20) moving right ends the game. |
| `Scenarios.UpThenDownEndsAtWall` | Snake.Tests/GameEngineTests.cs:122-130 | On a 60x40 board, Up then Down ends the game. The second request is a dropped reversal, so the head leaves the board at (20, -20). |
| `Scenarios.MovesAfterGameOver` | Snake.Tests/GameEngineTests.cs:134-144 | Once the wall has ended the game, further moves Left and Up leave the whole state unchanged. |
| `Scenarios.TailChaseEndsGame` | Snake.Core/Core/GameEngine.cs:92-99 | A well-formed snake whose candidate head is the tail's cell ends the game, although the tail would have left that cell. |

## Left out

- Rendering, windows, view models, navigation, the tick timer, score files and
  application start-up are not part of this model. They only call the engine
  or show its state.
- `GameConfig.cs` and `Difficulty.cs` hold constants for the driver (board
  size, tick interval). The engine takes the board size as arguments.
- Floating point: coordinates and sizes are integers. Sizes that are not
  whole pixels, and NaN or infinite quotients, are not modelled.
- `Initialize` requires `squareSize > 0`. The source divides by it, and a zero
  or negative cell size gives no meaningful grid.
- `Move` requires a non-empty snake unless the game is over or paused.
  Otherwise the source's read of the last segment throws. This happens on a
  move before `Initialize`, or after `Initialize` with length 0.
- The score is an unbounded integer. Wrap-around of the 32-bit counter is not
  modelled, and neither is overflow of the cast of a huge quotient to a
  32-bit `int`.
- `SnakeParts` hands out the engine's own mutable segment objects. Here the
  segments are values in a sequence, so a caller's changes through that
  view (aliasing) are not modelled.
- `Engine.GameEngine.SpawnFood`: the random draws are an arbitrary choice.
  The uniform distribution over the grid, and how likely placement is to
  succeed, are not modelled.
