# Snake game engine in Dafny

A model of the game-state engine of a terminal snake game written in C
(`main.c`). A snake moves one cell per timer tick across a screen whose
outer ring is a drawn border. It eats numbered food (a digit 1..9) to grow
and score. The game ends when the snake hits the wall, hits itself, grows
long enough to win, or the player quits.

The model has three modules:

- `Rules` (`rules.dfy`): headings, one step of movement, the scoring and
  speed constants (`MOVIN`, `EATIN`, `SNAKELENGTH`, `TICK0` = 199000,
  `TICKINC` = 1000), the random start heading, and the quit reasons
  (`User`, `Self`, `Wall`, `Win`) with their numeric codes and farewell lines.
- `Board` (`board.dfy`): the screen as a grid of cells (`Empty`, `Piece`,
  `Trophy(v)`, `Border`). `Picture` says what every cell must show for a
  given snake and food. The module also holds the cell a pair of random
  numbers selects for food, and the rejection loop that looks for a blank
  selected cell (`FindEmpty`).
- `Game` (`game.dfy`): the class `SnakeGame`, which owns the state the C
  program keeps in globals. That is the screen (a `const` `array2<Cell>`
  indexed `[y, x]`), the body as a sequence ordered oldest to newest, the
  heading, `score`, `piecesToAdd`, `slength`, `tick`, `printedNumber` and a
  status. The status is `Running` until a quit reason ends the game. A ghost
  field records where the food lies.

The C linked list is inverted in naming: `snake` is the oldest cell and
`tail` the moving head. The model uses a sequence instead: `body[0]` is the
oldest cell and `body[|body| - 1]` is the newest.

`SnakeGame.Valid()` is the object invariant. While the game runs it says:

- the screen shows exactly the border, the snake and the one food digit;
- the snake's cells are distinct and inside the border;
- `|body| + piecesToAdd == slength`, and `slength < rows + cols`;
- `tick == TICK0 - TICKINC * (slength - SNAKELENGTH)`.

The tick (`SnakeMove`) is built from `GrowHead`, `Proceed`, `Eat`,
`TrimTail` and `SpawnFood`, in the order the C function runs them. Each one
states the state it leaves behind in terms of the state it started from.

Randomness is supplied by the caller:

- a start-heading draw;
- a sequence of `(rand, rand)` pairs for the food spawner's rejection loop;
- a value draw for the food digit.

The model keeps these behaviours of the C code, which a reader might not
expect:

- The tick interval has no floor. `TickFloor` gives its exact lower bound.
- Moving into the oldest cell is a collision with the snake itself, even
  when that cell would have been trimmed on the same tick.
- A reversal request is fatal at any length, including length 1.
- Food is placed only in columns 1..cols-3 and rows 1..rows-3, not in the
  whole interior.
- The new piece is appended and drawn before the cell it covered is
  classified. So on a tick that ends the game, the board and body include
  that piece.

`EatAheadScenario` (in `game.dfy`) is a verified client. On a 7 by 7 screen,
one tick onto food of value 1 gives score 5, a snake of length 2, a tick
interval of 198000 and a new food. A reversal after that ends the game with
`Self` and leaves the score unchanged; the closing line is the one for
hitting yourself.

## Model

| member | source | states |
|---|---|---|
| `Rules.Step` | main.c:243-260 | The new piece is an orthogonal neighbour of the newest cell, in the same column exactly when the heading is vertical. |
| `Rules.Opposite` | main.c:342-365 | The heading that counts as a reversal is a different heading on the same axis. |
| `Rules.StepBack` | main.c:243-260 | The next cell is the newest cell moved one unit: Down gives y+1, Up y-1, Left x-1, Right x+1. Stepping back in the opposite heading returns to the start. Opposite is an involution with no fixed point. |
| `Rules.StartDirectionBijective` | main.c:492-513 | The mapping from 1..4 to headings is total and one-to-one: each heading comes from exactly one number. |
| `Rules.QuitReason` | main.c:419-439 | Each code 1..4 (USER, SELF, WALL, WIN) is read as the reason with that code. Any number other than 2, 3 or 4 falls to the default branch, a user quit. |
| `Rules.QuitReasonOfCode` | main.c:410-441 | The quit routine reads back every reason from its own code. |
| `Rules.FarewellDistinguishes` | main.c:419-439 | The four reasons print four different closing lines. |
| `Game.ClosingLine` | main.c:410-441 | A finished game prints the closing line of its own reason, after the reason's code is passed to the quit routine and read back; no other reason prints that line. |
| `Board.StepStaysOnBoard` | main.c:243-260 | One step from a cell inside the border stays on the screen, so the cell read by the tick exists. |
| `Board.Collision` | main.c:268-309 | On a screen that shows the snake and its food, reading the cell decides the tick. The border is Wall. Any body cell, the oldest included, is Self. The food cell is a meal. Any other cell is a plain move. |
| `Board.PictureGrow` | main.c:262-271 | Adding the new piece changes the expected screen only at that cell, which now shows a piece. |
| `Board.PictureTrim` | main.c:288-295 | Removing the oldest cell keeps the body free of repeats. It changes the expected screen only at that cell, which becomes blank. |
| `Board.PictureSpawn` | main.c:317-328 | Placing new food on a blank cell, once the old food is under the snake, changes the expected screen only at that cell, which shows the new digit. |
| `Board.Candidate` | main.c:321-322 | A pair of random numbers selects column `r1 % (cols-3) + 1` in [1, cols-3] and row `r2 % (rows-3) + 1` in [1, rows-3]. Both lie inside the border. |
| `Board.FindEmpty` | main.c:320-324 | The rejection loop returns the first draw whose selected cell is blank: that cell is blank and every earlier draw selected a non-blank cell. |
| `Game.Box` | main.c:223 | A fresh screen shows the border on the outer ring and blanks inside. |
| `Game.SnakeGame.constructor` | main.c:203-230 | A new game has one cell at (cols/2, rows/2), `slength` = 1, `piecesToAdd` = 0, score 0 and tick 199000. The heading comes from the draw. The first food is at the first drawn cell other than the start cell, with a value in 1..9. The invariant holds. |
| `Game.SnakeGame.SpawnFood` | main.c:317-328 | The food goes to the first drawn cell that was blank. Its value is `valueDraw % 9 + 1`, in 1..9, and that digit is written there. No other cell changes. |
| `Game.SnakeGame.AheadClassified` | main.c:268-309 | The outcome of the next tick, in terms of the snake: a border cell is Wall, a body cell (the oldest included) is Self, the food is a meal, and anything else is a move. |
| `Game.SnakeGame.SnakeMove` | main.c:233-310 | On a crash the status becomes Self or Wall and the score and bookkeeping are unchanged; the new piece is appended and drawn, and no other cell changes. On a plain move the score rises by 1; the oldest cell is trimmed when nothing is pending, otherwise `piecesToAdd` drops by 1. A meal of value n adds n to `slength` and `piecesToAdd`. If `slength` reaches rows+cols the game is won with only MOVIN scored. Otherwise `tick` drops by 1000·n, new food is spawned from the draws, the score rises by 5 and the snake grows by one. The invariant holds after every tick that goes on. |
| `Game.SnakeGame.GrowHead` | main.c:262-271 | The new piece is appended after the newest cell and drawn; no other cell changes. On a tick that goes on, the screen still shows the grown snake. Non-blank cells stay non-blank, so the spawner's choices are unchanged. |
| `Game.SnakeGame.Proceed` | main.c:272-301 | After a blank cell or the food is covered, the score rises by MOVIN. Then the meal, the win check and the trim apply, with the bookkeeping stated case by case. |
| `Game.SnakeGame.Eat` | main.c:275-287 | A meal of value n adds n to both `slength` and `piecesToAdd`. At rows+cols or more the game ends with Win before the tick, food and bonus updates. Otherwise `tick` drops by TICKINC·n, exactly one new food is placed and the score gains EATIN. |
| `Game.SnakeGame.TrimTail` | main.c:288-299 | With nothing pending the oldest cell is removed and blanked, so the length is unchanged. Otherwise `piecesToAdd` drops by one and the body is kept. The remaining cells keep their order, and the invariant holds. |
| `Game.SnakeGame.DirChange` | main.c:335-368 | Requesting the exact opposite of the heading ends the game with Self and leaves the heading unchanged, at any length. Any other request becomes the heading. Nothing else changes. |
| `Game.SnakeGame.HandleKey` | main.c:136-159 | An arrow goes to the direction change. A quit key ends the game with User. Any other key changes nothing. |
| `Game.SnakeGame.TickFloor` | main.c:277-283 | While running, the tick interval is at least 199000 − 1000·(rows+cols−2). It is positive when rows+cols ≤ 200. |

## Left out

- ncurses rendering (`initscr`, `box`, `refresh`, `curs_set`, `delwin`,
  `endwin`, `noecho`, `keypad`). The screen is the `board` array, and the
  `box` border becomes the `Border` cells.
- The list walk in `dirChange`. It only finds the newest cell to position
  the cursor with `move`, which has no effect on the game.
- Signals and the interval timer (`SetTime`, `SetSig`, `handler`,
  `setitimer`). Ticks and keys are separate method calls, one at a time.
- The SIGINT/SIGTERM exit path in `handler`. It exits without a farewell
  line and is not a quit reason.
- Re-arming the timer after a meal. Only the new `tick` value is modelled.
- `GetTermSize`. The screen size is a constructor parameter.
- The constructor requires `rows >= 4` and `cols >= 4`. The spawner takes
  remainders modulo `cols - 3` and `rows - 3`, so smaller screens divide by
  zero or by a negative number in the C code.
- `rand`, `srand` and `time`. The random results are parameters.
- Termination of the spawner's rejection loop. `SpawnFood`, the constructor
  and `SnakeMove` (when it will spawn food) require that some supplied draw
  selects a blank cell. When no cell in [1, cols-3] × [1, rows-3] is blank,
  the C loop never ends, and the model cannot be called.
- Allocation failure (`ErrorOut`) and `releaseSnake`. The body is a
  sequence, so there is nothing to allocate or free.
- The `printf` of the score and the process exit. Only the reason, its
  closing line and the final state are modelled. Every reason exits with
  success.
- Integer width. `score` and `TICK` are unbounded integers. The 32-bit
  overflow of `score` would need nearly 2^31 moves (at most 4·(rows+cols)
  fewer, because of the meal bonuses).
- The numeric heading codes (`DOWN` = 1, `UP` = 2, `LEFT` = 3, `RIGHT` = 4).
  A datatype replaces them. `startDirection` maps its draw 1, 2, 3, 4 to
  Up, Down, Left, Right, and the model keeps that mapping.
- `Game.SnakeGame.SnakeMove`: on a tick that ends the game, only the shape
  of the state is promised afterwards, not the running invariant. The
  process exits at that point, and the C bookkeeping (body length plus
  pending growth equals `slength`) no longer holds there.
