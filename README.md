# Snake game rules in Dafny

A model of the rules engine of a single-player snake game: a snake of grid
cells moves one cell per tick on a 30 × 20 grid, grows by eating food, and the
session ends when the head leaves the grid or lands on another segment.

- `grid.dfy` (module `GridModel`): the window and cell sizes, the 30 × 20 grid
  they give, the four headings as unit vectors, cell arithmetic.
- `snake.dfy` (module `SnakeState`): the rules on values (`Advance` for a move,
  `Collides` for the game-over test, `Turn`/`TurnAll` for direction requests,
  `Glide` for a run of moves) with the lemmas about them, and the class `Snake`
  whose fields `body`, `direction` and `grow` its methods update in place, each
  method tied to the value rules.
- `food.dfy` (module `FoodPlacer`): food placement on a free in-bounds cell, and
  the pigeonhole argument that such a cell exists while the body is shorter
  than the 600 cells of the grid.
- `session.dfy` (module `GameSession`): one play-through. Starting a session,
  applying the direction requests of one tick, and the tick itself: move, then
  the collision test (game over), then the eat test (score + 1 and new food).

Ordering that the model keeps as the code has it:

- The tail is popped inside the move, before the collision test. Moving into
  the cell the tail occupies is therefore no collision, unless growth is
  pending (`TailChase`).
- Each direction request is judged against the heading the previous request
  left. Two requests in one tick can reverse the snake: heading right, "up"
  then "left" turns it left, into its own second segment (`TwoRequestsReverse`).
  A single request never can (`ReversalBlocked`).
- Eating only arms growth. On the tick that eats, the body keeps its length;
  it becomes one longer on the next move (python_game.py:58-64, 190, 202). From
  the start position with food straight ahead, the body stays three long on the
  eating tick and is four long after the next one (`OpeningScenario`).
- A missed eat test leaves a pending growth as it was; it does not clear it.

Invariants proved: the body stays contiguous (`Snake.Valid`); the heading
trails the head after every move; a running session keeps a live body (in
bounds, no overlap) with its food on a free cell, for as long as ticks do not
end in game over (`Tick`, `AdvanceAlive`, `FoodStaysFree`).

## Model

| member | source | states |
|---|---|---|
| `SnakeState.StartBody` | python_game.py:44-48 | the start body is `[(15,10),(14,10),(13,10)]`; it is in bounds, without overlap, contiguous, and trails the heading Right |
| `SnakeState.Snake.constructor` | python_game.py:38-40 | a new snake is in the reset state |
| `SnakeState.Snake.Reset` | python_game.py:42-50 | body becomes the start body, direction Right, no growth pending |
| `SnakeState.Advance` | python_game.py:52-64 | the new head is the old head plus the heading; without growth the rest is the old body minus its last cell and the length is kept; with growth the whole old body follows and the length grows by one |
| `SnakeState.Snake.Move` | python_game.py:52-64 | the body becomes `Advance` of the old body, heading and flag; the heading is untouched; growth is cleared; the body stays contiguous and the heading trails the head |
| `SnakeState.Collides` | python_game.py:66-79 | true exactly when the head is outside `[0,30) × [0,20)` or equals some later segment |
| `SnakeState.WallExit` | python_game.py:66-73 | a one-cell snake at (0,0) heading left reaches (-1,0) and collides |
| `SnakeState.AdvanceAlive` | python_game.py:66-79 | from a live body, the moved body is live exactly when the collision test fails |
| `SnakeState.TailChase` | python_game.py:58-79 | moving into the tail's cell is no collision without growth and a collision with growth |
| `SnakeState.Turn` | python_game.py:81-84 | a request is taken exactly when it is not the reverse of the current heading (or equals it); between headings the result is a heading and never the reverse of the current one |
| `SnakeState.Snake.ChangeDirection` | python_game.py:81-84 | only the heading changes, to `Turn` of the old heading and the request |
| `SnakeState.ReversalBlocked` | python_game.py:81-84 | after one request the next move never puts the head on the second segment, when the heading trails the head |
| `SnakeState.AdvanceKeepsContiguous` | python_game.py:52-64 | a move keeps every segment edge-adjacent to the next |
| `SnakeState.AdvanceKeepsTrailing` | python_game.py:52-64 | after a move the second segment is one step behind the head along the heading |
| `SnakeState.Snake.EatFood` | python_game.py:86-91 | returns true exactly when the head is on the food; growth is then armed, otherwise left as it was; body and heading are untouched |
| `SnakeState.TurnAll` | python_game.py:179-187 | after a run of requests the heading is still one of the four, and is either the old heading or one of the requests |
| `SnakeState.TwoRequestsReverse` | python_game.py:179-190 | heading right, the requests "up" then "left" give heading left, and the next move from the start position collides with the second segment |
| `SnakeState.Glide` | python_game.py:52-62 | moves without growth keep the length |
| `SnakeState.GlideHead` | python_game.py:52-62 | after `n` moves without growth the head is `n` steps along the heading |
| `SnakeState.GlideTrail` | python_game.py:52-62 | after `n` moves without growth the cells behind the `n` new ones are the old body without its last `n` cells |
| `FoodPlacer.FreeCellExists` | python_game.py:93-99 | a body shorter than the 600 grid cells leaves an in-bounds cell free |
| `FoodPlacer.GenerateFood` | python_game.py:93-99 | the food cell is in bounds and not on the body; it can only be returned when such a cell exists |
| `GameSession.StartSession` | python_game.py:166-169 | a new session has the start body heading right, score 0, and food on a free in-bounds cell |
| `GameSession.PressKeys` | python_game.py:179-187 | the requests of one tick are applied in order, giving heading `TurnAll` of the old heading and the requests |
| `SnakeState.FoodStaysFree` | python_game.py:201-204 | when the new head misses the food, the food is still off the body |
| `GameSession.Tick` | python_game.py:189-204 | the body is moved; game over exactly when the moved body collides, with score and food unchanged; otherwise eaten exactly when the head is on the food, then score + 1, growth armed and new food off the body; else score and food unchanged; a running session stays running unless the tick ends the game |
| `GameSession.OpeningScenario` | python_game.py:189-204 | with food at (16,10) the first tick eats with score 1 and length 3, and the second tick leaves length 4 |

## Left out

- Drawing the grid, the snake, the food and the score, the game-over screen and its fonts (python_game.py:101-157, 206-228): rendering only.
- Event polling, the quit event and the mapping of arrow keys to headings (python_game.py:174-187): input. The model takes the requested headings of one tick as a sequence.
- The tick pacing `clock.tick(FPS)`, the restart loop in `main`, the welcome text and process exit (python_game.py:20, 231-252): timing and process control.
- The random draw in `generate_food`: the model chooses any free in-bounds cell and does not model the uniform distribution, or the retry loop's number of rounds.
- `GameSession.Tick`: requires, when the move does not end the game, that the body after the move leaves a grid cell free; with the grid full, the source's retry loop for new food never returns.
- `SnakeState.Snake.ChangeDirection`: requires the request to be one of the four headings; the source accepts any pair but its only callers pass one of the four.
- `SnakeState.Snake.CheckCollision`: the class's collision test has no contract of its own; it is `Collides` on the current body, whose contract is given above.
