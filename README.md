# Snake game state machine in Dafny

A model of the terminal snake game in `snake.go`: a 60 × 30 arena of `Road`
and `Item` cells, a snake stored tail first and head last, a committed
direction `move` with the previous one `prevMove`, and the two transitions
that change them — the 200 ms timer tick and the key-event handler.

The project has three modules:

- `SnakeModel` (`snake_model.dfy`): the state as values (`World`), the
  arena update `SetCell`, segment removal `Remove`, the step target and
  boundary test, and the two transitions as functions: `TickStep` (tail
  removal, then the boundary test, then `Resolve`: the self-collision test,
  the item test and the new head) and `KeyStep`. These functions are the
  specification. Their own contracts state the outcome, length, head,
  direction and arena facts of one step; the lemmas in `SnakeLaws` state the
  rest of what they mean, and the methods of `SnakeGame.Game` are proved
  against them.
- `SnakeLaws` (`snake_laws.dfy`): what each kind of tick does, the invariant
  every tick and key event keeps, the outcome of a tick as a function of the
  state before it, and worked scenarios.
- `SnakeGame` (`snake_game.dfy`): class `Game` with the same fields as the
  Go globals (the arena is an `array2<Cell>`, the snake a `seq<Point>`), one
  method per Go function, and the tick and key handler as methods. `Tick`,
  `ResolveMove`, `OnKeyPress`, `RemoveSnake` and `GenerateItem` are proved to
  leave the object in exactly the state the matching `SnakeModel` function
  computes from the old state. `AppendSnake` is stated directly as the old
  snake with one segment added, and the constructor, which has no old state,
  by the initial arena, snake and directions. A ghost field `grid` holds the
  arena as a value and `Valid()` ties it to the array.

Termination (`gameOver <- true`, which makes the watcher goroutine exit the
process) is the absorbing status `Terminated`: a tick or event after it
changes nothing. The random spawn coordinates are parameters of the tick and
of the constructor, restricted to the range `rand.Intn(60)`, `rand.Intn(30)`
produces.

Several behaviours of the code are easy to misread; the model follows the
code:

- A rejected move does not leave the snake unchanged. The old tail is
  re-appended at the head end, so the snake covers the same cells but the old
  tail is now the head (`Rejection`, `ScenarioReversal`).
- Growth re-appends the old tail just before the new head rather than keeping
  it at the tail: moving right from `[(29,15),(30,15)]` onto an item gives
  `[(30,15),(29,15),(31,15)]` (`Growth`, `ScenarioGrowth`).
- Eating an item does not clear its cell: the cell stays `Item` until the
  snake's tail leaves it, when the tail removal sets it to `Road` (`TickStep`).
  The spawner checks neither the snake nor existing items, so the arena can
  hold several items and an item can lie under the snake. No single-item
  invariant is claimed.
- The cell the tail has just left is cleared to `Road` before the target is
  examined, so it is a legal target and never triggers growth
  (`VacatedTailIsFree`, `ReversalIntoNeck`).

## Model

| member | source | states |
|---|---|---|
| SnakeModel.SetCell | snake.go:109 | writing one arena cell changes that cell to the new value and no other cell, and keeps the 60 × 30 shape |
| SnakeModel.Remove | snake.go:102-107 | removing a segment shortens the snake by one exactly when the segment is present, leaves it unchanged otherwise, and keeps every other segment |
| SnakeModel.Target | snake.go:180-252 | the cell a move aims at is one of the head's four neighbours |
| SnakeModel.OffGrid | snake.go:182-238 | for a head inside the arena, the per-direction boundary comparison fires exactly when the target lies outside 60 × 30 |
| SnakeModel.TickStep | snake.go:175-253 | a tick is idle exactly after the end and ends the game exactly on GameOver; prevMove is kept and move restored only on rejection; the length grows by one on growth, drops by one at the boundary and is otherwise kept; the head becomes the target, or the old tail on rejection; the vacated tail cell is Road unless the new item lands on it (the further laws are TickKeepsInv, TickOutcomeCases, NormalAdvance, Growth, Rejection, BoundaryEndsGame) |
| SnakeModel.Resolve | snake.go:186-252 | rejected exactly when the target is in the shortened snake, grown exactly when it is not and holds an item; the shortened snake stays as prefix followed by the old tail (rejection), the old tail and then the target (growth), or the target (advance); move is restored only on rejection; only growth changes the arena, by one item at the spawn cell |
| SnakeModel.KeyStep | snake.go:77-90 | an event never changes the snake or the arena, changes nothing after the end, and ends the game exactly on Esc (the direction rules are KeyEventRule and LatestArrowWins) |
| SnakeLaws.RemoveFirstAt | snake.go:103-105 | removal splices out the first index holding the segment, as the slice append does |
| SnakeLaws.RemoveExact | snake.go:102-107 | on a snake of distinct segments, removal takes out exactly the given segment and keeps the rest distinct |
| SnakeLaws.RemoveTail | snake.go:176-178 | removing the tail's coordinates leaves the snake without its first element |
| SnakeLaws.AppendFresh | snake.go:95-100 | appending a cell the snake does not cover keeps the segments distinct and inside the arena |
| SnakeLaws.ResolveKeepsInv | snake.go:186-198 | the collision, growth and advance steps keep bounds and distinctness and give at least two segments, because the re-appended tail is no longer in the snake and its cell has been cleared |
| SnakeLaws.TickKeepsInv | snake.go:175-253 | every tick keeps the arena shape, keeps all segments inside the arena and pairwise distinct, and keeps at least two segments while the game runs |
| SnakeLaws.TickOutcomeCases | snake.go:175-253 | the outcome of a running tick as a function of the old state, each case an if-and-only-if: game over iff the boundary test fires; rejected iff the target is in the snake after its tail; grown iff the target holds an item and is not the vacated tail; advanced otherwise |
| SnakeLaws.TerminatedIsAbsorbing | snake.go:160-170 | once the game has ended, ticks and events change nothing |
| SnakeLaws.BoundaryEndsGame | snake.go:175-184 | leaving the arena ends the game with the tail dropped and its cell cleared, directions unchanged |
| SnakeLaws.NormalAdvance | snake.go:178-198 | a free target without an item gives snake old[1:] ++ [target], same length, no spawn, directions unchanged |
| SnakeLaws.Growth | snake.go:193-198 | an item at the target gives snake old[1:] ++ [old tail, target], length plus one, and exactly one spawn at the given coordinates |
| SnakeLaws.Rejection | snake.go:186-191 | a target in the body restores the previous direction and gives snake old[1:] ++ [old tail]: same cells, same length, old tail now the head, no spawn |
| SnakeLaws.VacatedTailIsFree | snake.go:178-186 | a target equal to the old tail is neither rejected nor eaten: the snake advances into it |
| SnakeLaws.TickNeverShrinks | snake.go:175-253 | a tick that leaves the game running never shortens the snake |
| SnakeLaws.ReversalIntoNeck | snake.go:186-191 | reversing into the neck is rejected for three or more segments and turns a two-segment snake around |
| SnakeLaws.KeyEventRule | snake.go:77-90 | every key records move as prevMove; arrows commit their direction; Esc ends the game; other keys and other events leave move alone; snake and arena never change |
| SnakeLaws.LatestArrowWins | snake.go:77-87 | of two arrows pressed between ticks the later is committed and the earlier becomes prevMove |
| SnakeLaws.KeyKeepsInv | snake.go:77-90 | key events keep the state invariant |
| SnakeLaws.ScenarioAdvance | snake.go:235-252 | the starting snake moving right onto Road becomes [(30,15),(31,15)] |
| SnakeLaws.ScenarioGrowth | snake.go:247-252 | the starting snake moving right onto an item becomes [(30,15),(29,15),(31,15)]; the new item is placed and the eaten one stays |
| SnakeLaws.ScenarioLeftEdge | snake.go:218-220 | a head at x = 0 moving left ends the game |
| SnakeLaws.ScenarioReversal | snake.go:222-227 | a three-segment snake moving right, after Left is pressed, is rejected, goes back to Right, and has its old tail as head |
| SnakeGame.Game.constructor | snake.go:139-157 | the initial state: snake [(29,15),(30,15)], every cell Road except the one spawned item, move = prevMove = Right, the invariant holding |
| SnakeGame.Game.GetHeadLocation | snake.go:65-67 | returns the coordinates of the last segment, the head |
| SnakeGame.Game.GetTailLocation | snake.go:69-71 | returns the coordinates of the first segment, the tail |
| SnakeGame.Game.AppendSnake | snake.go:95-100 | adds the segment at the head end and changes nothing else |
| SnakeGame.Game.RemoveSnake | snake.go:102-110 | the loop removes the matching segment from the snake and the cell is set to Road |
| SnakeGame.Game.IsSnake | snake.go:112-120 | the search returns true iff some segment equals (x, y) |
| SnakeGame.Game.GenerateItem | snake.go:122-129 | marks the given cell Item and, by SetCell's contract, changes no other cell |
| SnakeGame.Game.SetField | snake.go:126 | an arena write keeps the array and its value view in step |
| SnakeGame.Game.OnKeyPress | snake.go:73-92 | the handler leaves the object in the state KeyStep computes from the old state, and keeps the state invariant |
| SnakeGame.Game.Tick | snake.go:175-253 | the tick leaves the object in the state TickStep computes, returns its outcome, and keeps the state invariant |
| SnakeGame.Game.ResolveMove | snake.go:186-252 | the part of the tick past the boundary test leaves the object in the state Resolve computes |

## Left out

- Rendering (`SetBlock`, `PrintField`, termbox and runewidth): a sink the core never reads back. The tick's `Outcome` records whether the screen is redrawn (only `Advanced` and `Grew` reach `PrintField`).
- The goroutines, the `gameOver` channel, the watcher's `termbox.Close` and `os.Exit(1)`, and the ticker: termination is the absorbing status `Terminated`, and ticks and key events are separate atomic steps interleaved in any order.
- What `main` would do after `gameOver <- true` returns before the process exits (it would index the arena outside its bounds): the model stops at `Terminated`.
- The unsynchronised race on `move` and `prevMove` between the key goroutine and the tick: each key event is one atomic step between ticks.
- `rand.Seed` and `rand.Intn`: the spawn coordinates are inputs.
- The arena's `int` cells: only the two values `Road` (0) and `Item` (1) are ever written, so a two-valued datatype stands for them.
- Game.RemoveSnake: stated only for a snake of distinct segments, because Go's `range` over a slice spliced in place behaves differently when segments repeat; the tick's invariant guarantees distinctness wherever it is called.
