# Snake game: a verified model of the tick update

This project models the game-state update of a single-player terminal snake
game. In each tick the game reads one key and turns the snake unless the key
asks for a 180-degree reversal. It then moves the head one cell and ends the
round when the head hits a wall or the snake's own body. Otherwise the snake
either grows onto the food, which scores 10 points and redraws the food, or
moves forward one cell and drops its tail. The speed goes up one step each
time the score reaches a multiple of 50. When the terminal is resized, the
snake is pulled back inside the new bounds and the food is redrawn if it now
lies out of range.

Modules:

- `Grid` (grid.dfy): cells, headings, one step of the head, the terminal
  size and the game's playable cells. The game uses `game_height = height - 2`
  and `game_width = width - 2`. A playable cell has `1 <= row <= game_height - 2`
  and `1 <= col <= game_width - 2`. These bounds are kept exactly. The
  border is drawn on rows 0 and `height - 1` and columns 0 and `width - 1`,
  so the playable rows are 1 to `height - 4` and the playable columns 1 to
  `width - 4`. The top row and left column inside the border are playable;
  the two rows above the bottom border and the two columns left of the right
  border are not.
- `Food` (food.dfy): food placement by rejection sampling. Random draws come
  in as a sequence. The placement takes the first draw that is not on the
  snake.
- `Engine` (engine.dfy): the state of a round as a value, the tick as the
  pure function `Update`, what a tick means as the predicate `TickSpec`,
  the start of a round, and two invariants.
  `Bookkeeping` says the score is a multiple of 10, the snake has
  `1 + score / 10` segments and the speed level is `score / 50`.
  `WellFormed` says the segments are distinct and playable and the food is
  playable and off the snake.
- `Resize` (resize.dfy): the clamp applied after a terminal resize, and what
  it does and does not preserve.
- `Game` (game.dfy): the class `SnakeGame`, holding the variables the game
  loop updates in place. Its `Tick`, `Resize` and `NewRound` methods do the
  loop's work step by step: insert at the front, pop the tail, the sampling
  loop, the clamp loop. Each is proved to leave the state that `Update`,
  `Reframe` and `InitialRound` describe.
- `Scenarios` (scenarios.dfy): single ticks worked out on concrete rounds.

The speed factor (1.0 plus 0.2 per step) is modelled as the integer
`speed`, the number of 0.2 steps taken. Keys are an arrow, any other key
press, or no key before the timeout; `q` quits.

Points where the code behaves differently from what one might expect:

- The resize clamp only pulls coordinates in from the bottom and right
  edges. Nothing is moved to the nearest cell on the other sides.
- The clamp may merge two segments, or put a segment on food that is still
  in range. `ClampCanMerge` and `ClampCanCoverFood` give instances.
- A tick that ends the round still stores the newly resolved heading.
- After a resize to a terminal below 10 by 30, the game records the new size
  and skips one pass of the loop. On later passes the size no longer
  differs, so ticks go on against the small bounds.

## Model

| member | source | states |
|---|---|---|
| `Grid.Opposite` | snake.py:262-265 | The reversal of a heading is a different heading on the same axis. |
| `Grid.Advance` | snake.py:269-277 | The new head is exactly one cell from the old one. The other coordinate is unchanged. Up/Left decrease the row/column, Down/Right increase it. |
| `Grid.AdvanceOpposite` | snake.py:269-277 | A step in the opposite heading returns to the starting cell. |
| `Grid.HitsWallIsExterior` | snake.py:280 | The wall test `HitsWall`, `row <= 0 or row >= game_height-1 or col <= 0 or col >= game_width-1` holds exactly for cells outside the playable interior. |
| `Food.FirstFree` | snake.py:296-303 | The sampling loop stops at the first free draw. That draw is not on the snake and every earlier draw is. |
| `Food.PlaceFood` | snake.py:296-303 | The rejection-sampling loop returns the first draw not on the snake. It terminates whenever such a draw exists. |
| `Food.FirstFreeInterior` | snake.py:297-300 | Food drawn from the playable range is playable. |
| `Engine.ResolveDirection` | snake.py:258-266 | The resulting heading is never the reverse of the current one. An arrow key that is not a reversal is taken. Every other key leaves the heading unchanged. |
| `Engine.StartCell` | snake.py:180 | The start cell `(game_height // 2, game_width // 4)` is playable on any terminal of at least 10 by 30. |
| `Engine.InitialRound` | snake.py:180-194 | A round starts with one segment, heading right, score 0, base speed, and food off that segment. |
| `Engine.Update` | snake.py:255-311 | The pure tick, with the branch order of the source: quit, heading, head step, wall test `HitsWall`, self test, grow or shift. Its contract gives the outcome `Quit` iff the key is `q`, and 10 more points and one more segment exactly on `Ate`, otherwise neither. |
| `Engine.UpdateMeetsTickSpec` | snake.py:255-311 | The tick `Update` meets `TickSpec`. `q` quits and changes nothing. Wall hit iff the new head is not playable; self hit iff it is playable and on any current segment, tail included. A collision leaves snake, food, score and speed as they were. A plain move gives `[head] + snake[..n-1]` with food, score and speed kept. Eating gives `[head] + snake`, 10 more points, new food off the grown snake, and one speed step iff the new score is a multiple of 50. |
| `Engine.InitialBookkeeping` | snake.py:180-184 | A fresh round satisfies the counter invariant. |
| `Engine.InitialWellFormed` | snake.py:157-194 | On a terminal of at least 10 by 30, with food drawn from the playable cells, a fresh round is well formed. |
| `Engine.UpdateKeepsBookkeeping` | snake.py:291-311 | Every tick keeps the segment count at `1 + score / 10`, the score a multiple of 10, and the speed level at `score / 50`. |
| `Engine.UpdateKeepsWellFormed` | snake.py:280-311 | Every tick takes a well-formed round to a well-formed round: distinct playable segments, playable food off the snake. |
| `Resize.ClampCell` | snake.py:226-229 | A clamped coordinate is the minimum of the old one and `bound - 2`. Only coordinates `>= bound - 1` change. |
| `Resize.ClampSnake` | snake.py:224-231 | The clamp loop yields `Clamp` of the snake: segment by segment and in order, the clamped cells, with the length kept. |
| `Resize.Reframe` | snake.py:224-245 | After a resize the length, order, heading, score and speed are kept and every segment is clamped. Food in range stays put; food out of range, by the far-edge test `FoodOutOfRange` of snake.py:236, is redrawn off the clamped snake. |
| `Resize.ReframeKeepsBookkeeping` | snake.py:224-245 | A resize keeps the counter invariant. |
| `Resize.ReframeInBounds` | snake.py:224-245 | From a well-formed round, a resize to an accepted size leaves every segment and the food playable. The food changes iff it was out of range. |
| `Resize.ClampFits` | snake.py:224-231 | A snake that already fits is not changed by the clamp. |
| `Resize.ClampIdempotent` | snake.py:224-231 | Clamping twice equals clamping once. |
| `Resize.ClampCanMerge` | snake.py:224-231 | There is a distinct snake that the clamp makes non-distinct. |
| `Resize.ClampCanCoverFood` | snake.py:233-236 | There is a well-formed round whose in-range food ends up under a clamped segment and is not redrawn. |
| `Game.SnakeGame.constructor` | snake.py:154-194 | The first round on a terminal of at least 10 by 30 is `InitialRound`, is valid, and is well formed when the draws are playable. |
| `Game.SnakeGame.NewRound` | snake.py:178-194 | A restart resets the state to `InitialRound` on the current terminal size and clears the game-over flag. |
| `Game.SnakeGame.Tick` | snake.py:255-311 | The in-place tick (insert, pop, sampling loop, score and speed updates) leaves exactly the state and outcome of `Update`. It sets the game-over flag iff the tick collided, and keeps both invariants. |
| `Game.SnakeGame.Resize` | snake.py:199-245 | Same size: nothing changes. A size below 10 by 30: only the size is recorded. Otherwise the state becomes `Reframe` of the old one, and a well-formed round stays in bounds. |
| `Scenarios.PlayableBand` | snake.py:165-166 | On a 22 by 42 terminal the cells just inside the top and left border are playable, and rows 19-20 and columns 39-40 are not, though they lie inside the border. |
| `Scenarios.TurnsFromRight` | snake.py:258-266 | Heading right, up and down are taken; left and other keys are ignored. |
| `Scenarios.EatFood` | snake.py:291-308 | `[(5,5)]` heading right onto food at `(5,6)` becomes `[(5,6),(5,5)]` with score 10, and the food is redrawn off the snake. |
| `Scenarios.FiftyPointsSpeedUp` | snake.py:306-308 | Eating at score 40 reaches 50 and one speed step. |
| `Scenarios.TopWall` | snake.py:280-282 | Moving up from row 1 is a wall collision with the snake unchanged. |
| `Scenarios.OwnTail` | snake.py:285-288 | Turning onto the current tail cell is a self collision. |
| `Scenarios.PlainMove` | snake.py:291-311 | A plain move shifts the snake one cell and vacates the tail. |
| `Scenarios.RestartState` | snake.py:180-194 | A round on a 22 by 42 terminal starts at `(10, 10)` heading right with score 0. |

## Left out

- Drawing: the border, the snake, the food, the score, the control hint, and the instruction, countdown and game-over screens (snake.py:7-122, 313-382, 395-404). These are terminal output with no game logic.
- Terminal setup: colours, cursor visibility, Unicode detection, sleeps and curses error handling (snake.py:126-151, 246-248, 327). These are terminal plumbing.
- The tick timeout `int(100 / speed_factor)` (snake.py:251-252). It is floating point; the speed is kept as the integer number of 0.2 steps.
- The random number generator itself. Each placement takes its draws as a parameter. Requiring a free draw stands for the source's unbounded retry loop terminating.
- The hang when no playable cell is free (snake.py:188-194, 239-245, 296-303). The sampling loops have no retry bound, so if the snake covers every playable cell but the food and then eats it, the game spins forever. `HasFree` excludes this case: the model does not describe that hang, it only describes runs where sampling ends. That the draws fall in the playable range (the range `randint` is called with) is a hypothesis of the lemmas that need it.
- The message and two-second sleep of the "terminal too small" branch (snake.py:208-216). Only the recorded size and the skipped pass are modelled.
- The outer loop that polls the terminal size and the keyboard and calls the resize check and the tick in turn (snake.py:197-311). Its inputs come from the terminal; each of its passes is `Resize`, then `Tick` unless `Resize` returned `TooSmall`.
- The wait for `r` or `q` after a game over (snake.py:387-393). It only polls keys; its restart is `NewRound`.
- The startup size check and the handling of exceptions at exit (snake.py:157-162, 405-424). These are reporting and process exit; the constructor requires the size that the startup check ensures.
- `Resize.Reframe`: it does not claim that segments stay distinct or that food stays off the snake. The source does not ensure either (see `ClampCanMerge`, `ClampCanCoverFood`).
