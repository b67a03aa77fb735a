# Snake game engine — a verified Dafny model

This project models the game engine of the Angular snake game's `GameComponent`
(`src/app/game/game.component.ts`) and proves properties of it. The engine plays on a square board
of `width × width` cells, numbered `1 .. width²` in row-major order. The snake is an
array of cell numbers, tail first and head last. A repeating timer moves the head
one cell per tick in the current heading, wrapping around the board's edges. Entering
any cell of the snake (the tail included) ends the game. An apple the snake
covers is scored and becomes pending growth. A pending cell is absorbed as a new
tail segment once the snake no longer occupies it. A new apple is placed on a
random free cell.

Files:

- `wrappers.dfy` — `Option`, the model of a field that may be `undefined`.
- `random.dfy` — `Math.floor(Math.random() * n)` with `Math.random()` as a
  parameter `rand` in `[0, 1)`.
- `board.dfy` — the board, the four headings and the toroidal step of the tick,
  with row/column lemmas for each heading.
- `body.dfy` — the snake and the pending cells as sequences: the one-cell move,
  the array filters the component uses, the growth the `forEach` performs, and
  the apple choice.
- `game.dfy` — key steering, the component invariant `Consistent`, the
  transition `Regenerates` that `regenerateSnake` performs, and the class
  `GameComponent`. The class has the source's fields and one method per source
  operation.

How the model is organised:

- The component is a class whose methods update its fields in place.
- The `forEach` of `regenerateSnake` is a loop over the array it started with,
  while `snake` and `eatenApples` are reassigned inside it.
- `RegenerateSnake` is proved against the specification predicate `Regenerates`.
- The lemma `RegenerateKeepsConsistent` proves that every such transition keeps
  the component invariant.
- The lemma `RegenerateOutcome` derives the score, head and length facts from it.

## Model

| member | source | states |
|---|---|---|
| `Board.CellsAreTheBoard` | src/app/game/game.component.ts:69 | the built board has `width²` cells, cell `i + 1` at index `i`, and its cells are exactly the identifiers `1 .. width²` |
| `Board.NextCellOnBoard` | src/app/game/game.component.ts:76-104 | for `width >= 1`, the step from an on-board head lands on the board whatever the heading |
| `Board.StepRight` | src/app/game/game.component.ts:77-83 | stepping right keeps the row and moves one column right, from the last column to the first |
| `Board.StepLeft` | src/app/game/game.component.ts:84-90 | stepping left keeps the row and moves one column left, from the first column to the last |
| `Board.StepDown` | src/app/game/game.component.ts:91-97 | stepping down keeps the column and moves one row down, from the bottom row to the top |
| `Board.StepUp` | src/app/game/game.component.ts:98-104 | stepping up keeps the column and moves one row up, from the top row to the bottom |
| `Random.RandomIndex` | src/app/game/game.component.ts:135 | the random index is below `n` when there are `n > 0` free cells, and 0 when there are none |
| `Body.UnoccupiedCells` | src/app/game/game.component.ts:134 | the free cells are exactly the board cells the snake does not occupy |
| `Body.PickApple` | src/app/game/game.component.ts:133-136 | a placed apple is a board cell off the snake; the apple is absent only when the snake covers every cell |
| `Body.MoveKeepsDistinct` | src/app/game/game.component.ts:117 | moving into a free cell keeps the length and freedom from duplicates, puts `next` last, and keeps every old cell but the tail |
| `Body.AbsorbedCells` | src/app/game/game.component.ts:119-123 | the prepended segments are exactly the pending cells the moved snake does not cover, with no repeats |
| `Body.OccupiedCells` | src/app/game/game.component.ts:119-123 | the cells left pending are exactly those the moved snake still covers, with no repeats |
| `Body.GrowthAccounting` | src/app/game/game.component.ts:119-124 | every pending cell is either absorbed or stays pending: the two counts add up to the pending count |
| `Body.AbsorbKeepsDistinct` | src/app/game/game.component.ts:119-124 | the grown snake has no duplicate cells |
| `Body.CoveredOnlyByHead` | src/app/game/game.component.ts:126 | an apple neither on the old snake nor pending is covered by the grown snake exactly when the head moved onto it |
| `Body.RemoveSingle` | src/app/game/game.component.ts:122 | filtering out a cell that occurs once leaves the other cells in their order |
| `Body.GrowOne` | src/app/game/game.component.ts:120-121 | one pass that absorbs a pending cell gives the grown snake for one more handled cell |
| `Body.DropOne` | src/app/game/game.component.ts:122 | the same pass leaves the pending cells for one more handled cell |
| `Body.KeepOne` | src/app/game/game.component.ts:120 | a pass over a covered pending cell changes neither the snake nor the pending cells |
| `Game.Steer` | src/app/game/game.component.ts:29-61 | the new heading is never the reverse of the old; it is the old heading or the key's; an arrow key that does not reverse is taken |
| `Game.MoveGrows` | src/app/game/game.component.ts:117-126 | after a move the head is `next`; the snake grew by the absorbed pending cells; it covers the apple exactly when `next` is the apple |
| `Game.GrownConsistent` | src/app/game/game.component.ts:117-124 | the grown snake and the cells left pending satisfy the invariant |
| `Game.MoveKeepsConsistent` | src/app/game/game.component.ts:117-126 | a move that misses the apple keeps the invariant with the apple in place |
| `Game.EatKeepsConsistent` | src/app/game/game.component.ts:126-130 | a move onto the apple keeps the invariant once the apple is pending and a new one is placed |
| `Game.RegenerateKeepsConsistent` | src/app/game/game.component.ts:112-131 | every transition of `regenerateSnake` from a consistent running game keeps the invariant |
| `Game.RegenerateOutcome` | src/app/game/game.component.ts:112-131 | a collision stops the game; after a move the head is `next`; the score rises by one exactly when the grown snake covers the apple; it never falls; snake plus pending length grows by the score gained |
| `Game.GameComponent.constructor` | src/app/game/game.component.ts:13-20 | the field initialisers: snake `1..5`, heading right, score 0, no board and no apple; the invariant holds |
| `Game.GameComponent.SnakeHead` | src/app/game/game.component.ts:64-66 | the head is a cell of the snake and of the board |
| `Game.GameComponent.NgOnInit` | src/app/game/game.component.ts:68-71 | builds the board, places the apple `PickApple` chooses, starts the timer, and keeps the invariant |
| `Game.GameComponent.OnArrowPress` | src/app/game/game.component.ts:23-62 | a key while locked changes nothing; otherwise any key locks input and the heading becomes `Steer(old heading, key)` |
| `Game.GameComponent.Tick` | src/app/game/game.component.ts:72-109 | clears the lock, performs the `Regenerates` transition into the stepped head cell, and keeps the invariant |
| `Game.GameComponent.RegenerateSnake` | src/app/game/game.component.ts:112-131 | the new state is the `Regenerates` transition of the old one |
| `Game.GameComponent.AbsorbEatenApples` | src/app/game/game.component.ts:119-124 | the loop leaves the snake grown by the uncovered pending cells in reverse order, and leaves pending the covered ones |
| `Game.GameComponent.GenerateApple` | src/app/game/game.component.ts:133-137 | the apple becomes `PickApple(cells, snake, rand)` |
| `Game.GameComponent.EndGame` | src/app/game/game.component.ts:139-142 | the timer is cleared |
| `Game.GameComponent.EmitCancelGame` | src/app/game/game.component.ts:144-147 | the timer is cleared |

## Left out

- Angular wiring is not modelled: the `@Component`/`@HostListener`/`@Input`/`@Output` decorators, the `cancelGame` event emitted at line 146, and the `console.log` at line 140.
- The other files of the repository are not part of this model: the app module, the app component, the popup dialog, the enum-to-array pipe, the popup button interface and the speed enum.
- The timer is the flag `running`. Its period (`interval`) and real time are not modelled. A tick is `Tick`, which may run only while the flag is set.
- `Math.random()` is the parameter `rand` in `[0, 1)`. Its distribution, and so the uniform choice of a free cell, is not modelled.
- The key event is its `key` string alone.
- The heading is the datatype `Direction`, so the `default` branch of the tick's `switch` (lines 105-107) cannot be taken.
- `Math.random() * n` is computed exactly on reals. IEEE double rounding is not modelled.
- Cell numbers are unbounded integers, not doubles. A board whose `width²` exceeds 2^53 is not modelled.
- `Game.GameComponent.constructor` requires `width >= 1 && 5 <= width * width`.
  - The source places the default snake `1..5` without checking the board size.
  - On a smaller board the snake lies partly off the board, and the invariant cannot hold.
- `Game.GameComponent.RegenerateSnake` requires the invariant, a running timer and `rand` in `[0, 1)`.
  - This is how the tick calls it.
  - Its invariant is re-established by `Game.RegenerateKeepsConsistent`, which `Tick` calls.
- `Game.GameComponent.RegenerateSnake` states the apple-eaten case as "the old apple is the cell moved into".
  - The source tests whether the grown snake includes the apple.
  - `Game.MoveGrows` and `Game.RegenerateOutcome` prove that the two tests agree.
- `Game.GameComponent.AbsorbEatenApples` requires that no cell is pending twice.
  - The filter at line 122 removes every copy of a cell.
  - The invariant guarantees this requirement.
- Some behaviour is described for this game but is absent from this code, and it is not modelled:
  - the WASD keys;
  - pause, resume and restart;
  - the dialog flows;
  - the mapping from game speed to milliseconds;
  - the rule that the tail cell is safe to enter while no growth is pending.
- The code treats entering the tail cell as a collision (line 113), and the model follows the code.
