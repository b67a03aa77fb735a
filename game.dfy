/**
  The game engine of the snake component: keyboard steering with a
  one-press-per-tick lock, the timer tick that moves the snake one cell,
  self-collision, delayed growth from eaten apples, scoring and apple
  placement. The repeating timer is the `running` flag; `Math.random()` is
  the `rand` argument of the operations that may place an apple.
 */
module Game {
  import opened Wrappers
  import opened Board
  import opened Body
  import opened Random

  /** The heading a recognised arrow key asks for; any other key asks for none. */
  function KeyDirection(key: string): Option<Direction>
  {
    if key == "ArrowDown" then Some(Down)
    else if key == "ArrowUp" then Some(Up)
    else if key == "ArrowRight" then Some(Right)
    else if key == "ArrowLeft" then Some(Left)
    else None
  }

  /**
    The heading after `key` is accepted while heading `current`: an arrow key
    turns the snake unless it would reverse it; every other key leaves it.
   */
  function Steer(current: Direction, key: string): (d: Direction)
    ensures d != Opposite(current)
    ensures d == current || KeyDirection(key) == Some(d)
    ensures KeyDirection(key).Some? && KeyDirection(key).value != Opposite(current) ==> d == KeyDirection(key).value
  {
    match KeyDirection(key)
    case None => current
    case Some(wanted) => if wanted == Opposite(current) then current else wanted
  }

  /** `cells` is the board `ngOnInit` builds: `width²` cells, cell `i + 1` at index `i`. */
  predicate IsGrid(cells: seq<int>, width: int)
  {
    |cells| == width * width && forall i :: 0 <= i < |cells| ==> cells[i] == i + 1
  }

  /** The board as `ngOnInit` builds it is a grid in the sense of `IsGrid`. */
  lemma CellsAreGrid(width: int)
    ensures IsGrid(Cells(width), width)
  {
    CellsAreTheBoard(width);
  }

  /**
    The state the game keeps between events: the snake is a non-empty,
    duplicate-free run of board cells; every pending growth cell is one the
    snake occupies and occurs once; the apple lies on a cell of the board
    that the snake does not occupy; the board is built before the timer runs.
   */
  ghost predicate Consistent(width: int, cells: seq<int>, snake: seq<int>, eaten: seq<int>, apple: Option<int>, running: bool)
  {
    && width >= 1
    && snake != []
    && NoDup(snake)
    && (forall c :: c in snake ==> OnBoard(c, width))
    && NoDup(eaten)
    && (forall e :: e in eaten ==> e in snake)
    && (apple.Some? ==> apple.value in cells && apple.value !in snake)
    && (cells == [] || IsGrid(cells, width))
    && (running ==> IsGrid(cells, width))
  }

  /**
    A move into a free on-board cell: the grown snake ends in `next`, has
    grown by exactly the pending cells it absorbed, and covers the apple
    exactly when `next` is the apple.
   */
  lemma MoveGrows(width: int, cells: seq<int>, snake: seq<int>, eaten: seq<int>, apple: Option<int>, next: int)
    requires Consistent(width, cells, snake, eaten, apple, true)
    requires next !in snake
    ensures var moved := Moved(snake, next);
      var grown, kept := Absorbed(eaten, moved) + moved, Occupied(eaten, moved);
      && grown[|grown| - 1] == next
      && |grown| == |snake| + |eaten| - |kept|
      && (apple.Some? && apple.value in grown <==> apple == Some(next))
  {
    var moved := Moved(snake, next);
    MoveKeepsDistinct(snake, next);
    GrowthAccounting(eaten, moved);
    if apple.Some? {
      CoveredOnlyByHead(snake, eaten, next, apple.value);
    }
  }

  /** After a move into a free on-board cell, the grown snake and the pending cells it still covers are consistent, with no apple placed. */
  lemma GrownConsistent(width: int, cells: seq<int>, snake: seq<int>, eaten: seq<int>, apple: Option<int>, next: int)
    requires Consistent(width, cells, snake, eaten, apple, true)
    requires OnBoard(next, width) && next !in snake
    ensures var moved := Moved(snake, next);
      Consistent(width, cells, Absorbed(eaten, moved) + moved, Occupied(eaten, moved), None, true)
  {
    var moved := Moved(snake, next);
    var grown, kept := Absorbed(eaten, moved) + moved, Occupied(eaten, moved);
    MoveKeepsDistinct(snake, next);
    AbsorbKeepsDistinct(eaten, moved);
    AbsorbedCells(eaten, moved);
    OccupiedCells(eaten, moved);
    forall c | c in grown
      ensures OnBoard(c, width)
    {
      assert c in Absorbed(eaten, moved) || c in moved;
    }
    forall e | e in kept
      ensures e in grown
    {
      assert e in moved;
    }
  }

  /** A move that misses the apple keeps the game consistent with the apple left where it is. */
  lemma MoveKeepsConsistent(width: int, cells: seq<int>, snake: seq<int>, eaten: seq<int>, apple: Option<int>, next: int)
    requires Consistent(width, cells, snake, eaten, apple, true)
    requires OnBoard(next, width) && next !in snake && apple != Some(next)
    ensures var moved := Moved(snake, next);
      Consistent(width, cells, Absorbed(eaten, moved) + moved, Occupied(eaten, moved), apple, true)
  {
    GrownConsistent(width, cells, snake, eaten, apple, next);
    MoveGrows(width, cells, snake, eaten, apple, next);
  }

  /** A move onto the apple keeps the game consistent once the apple becomes pending growth and a new one is placed. */
  lemma EatKeepsConsistent(width: int, cells: seq<int>, snake: seq<int>, eaten: seq<int>, next: int, rand: real)
    requires Consistent(width, cells, snake, eaten, Some(next), true)
    requires OnBoard(next, width) && next !in snake
    requires 0.0 <= rand < 1.0
    ensures var moved := Moved(snake, next);
      var grown := Absorbed(eaten, moved) + moved;
      Consistent(width, cells, grown, Occupied(eaten, moved) + [next], PickApple(cells, grown, rand), true)
  {
    var moved := Moved(snake, next);
    var grown, kept := Absorbed(eaten, moved) + moved, Occupied(eaten, moved);
    GrownConsistent(width, cells, snake, eaten, Some(next), next);
    MoveGrows(width, cells, snake, eaten, Some(next), next);
    OccupiedCells(eaten, moved);
    NoDupConcat(kept, [next]);
  }

  /** The fields of the component that a tick may change, apart from the input lock. */
  datatype Snapshot = Snapshot(snake: seq<int>, eatenApples: seq<int>, apple: Option<int>, score: nat, running: bool)

  /**
    What `regenerateSnake(next)` does to the state, with `rand` the draw of
    the apple it may place: on a collision with any cell of the snake (its
    tail included) the timer stops and nothing else changes; otherwise the
    snake moves into `next`, grows by the pending cells it no longer covers,
    and an apple it now covers is scored, becomes pending growth and is
    replaced.
   */
  ghost predicate Regenerates(cells: seq<int>, before: Snapshot, next: int, rand: real, after: Snapshot)
  {
    var moved := Moved(before.snake, next);
    && (next in before.snake ==>
          && !after.running
          && after.snake == before.snake && after.eatenApples == before.eatenApples
          && after.score == before.score && after.apple == before.apple)
    && (next !in before.snake ==>
          && after.running == before.running
          && after.snake == Absorbed(before.eatenApples, moved) + moved)
    && (next !in before.snake && before.apple == Some(next) ==>
          && after.score == before.score + 1
          && after.eatenApples == Occupied(before.eatenApples, moved) + [next]
          && (0.0 <= rand < 1.0 ==> after.apple == PickApple(cells, after.snake, rand)))
    && (next !in before.snake && before.apple != Some(next) ==>
          && after.score == before.score
          && after.eatenApples == Occupied(before.eatenApples, moved)
          && after.apple == before.apple)
  }

  /** `regenerateSnake` from a consistent running game into a board cell leaves the game consistent. */
  lemma RegenerateKeepsConsistent(width: int, cells: seq<int>, before: Snapshot, next: int, rand: real, after: Snapshot)
    requires Consistent(width, cells, before.snake, before.eatenApples, before.apple, before.running) && before.running
    requires OnBoard(next, width) && 0.0 <= rand < 1.0
    requires Regenerates(cells, before, next, rand, after)
    ensures Consistent(width, cells, after.snake, after.eatenApples, after.apple, after.running)
  {
    if next !in before.snake {
      if before.apple == Some(next) {
        EatKeepsConsistent(width, cells, before.snake, before.eatenApples, next, rand);
      } else {
        MoveKeepsConsistent(width, cells, before.snake, before.eatenApples, before.apple, next);
      }
    }
  }

  /**
    The outcome of `regenerateSnake` as the game shows it: after a move the
    new head is `next`, the score goes up by one exactly when the grown
    snake covers the apple, and the snake has grown by the pending cells it
    absorbed; in every case the score never falls and rises by at most one.
   */
  lemma RegenerateOutcome(width: int, cells: seq<int>, before: Snapshot, next: int, rand: real, after: Snapshot)
    requires Consistent(width, cells, before.snake, before.eatenApples, before.apple, before.running) && before.running
    requires OnBoard(next, width) && 0.0 <= rand < 1.0
    requires Regenerates(cells, before, next, rand, after)
    ensures before.score <= after.score <= before.score + 1
    ensures next in before.snake ==> !after.running
    ensures next !in before.snake ==> after.snake != [] && after.snake[|after.snake| - 1] == next
    ensures next !in before.snake ==>
      (after.score == before.score + 1 <==> before.apple.Some? && before.apple.value in after.snake)
    ensures |after.snake| + |after.eatenApples| == |before.snake| + |before.eatenApples| + (after.score - before.score)
  {
    if next !in before.snake {
      MoveGrows(width, cells, before.snake, before.eatenApples, before.apple, next);
    }
  }

  class GameComponent {
    const width: int
    var cells: seq<int>
    var snake: seq<int>
    var apple: Option<int>
    var eatenApples: seq<int>
    var direction: Direction
    /** The repeating timer is set and not yet cleared. */
    var running: bool
    var arrowPressed: bool
    var score: nat

    /** The invariant of the component's fields. */
    ghost predicate Valid()
      reads this
    {
      Consistent(width, cells, snake, eatenApples, apple, running)
    }

    /** The component before `ngOnInit`: the field initialisers, with `width` bound from the host. */
    constructor (width: int)
      requires width >= 1 && 5 <= width * width  // the default snake 1..5 lies on the board
      ensures Valid()
      ensures this.width == width && cells == [] && snake == [1, 2, 3, 4, 5]
      ensures apple == None && eatenApples == [] && direction == Right
      ensures !running && !arrowPressed && score == 0
    {
      this.width := width;
      cells := [];
      snake := [1, 2, 3, 4, 5];
      apple := None;
      eatenApples := [];
      direction := Right;
      running := false;
      arrowPressed := false;
      score := 0;
    }

    /** The cell at the head of the snake. */
    function SnakeHead(): (head: int)
      reads this
      requires Valid()
      ensures head in snake && OnBoard(head, width)
    {
      snake[|snake| - 1]
    }

    /** Builds the board, places the first apple and starts the timer. */
    method NgOnInit(rand: real)
      requires Valid()
      requires 0.0 <= rand < 1.0
      modifies this`cells, this`apple, this`running
      ensures Valid()
      ensures cells == Cells(width)
      ensures apple == PickApple(Cells(width), snake, rand)
      ensures running
    {
      cells := Cells(width);
      CellsAreGrid(width);
      GenerateApple(rand);
      running := true;
    }

    /** A key press: ignored while locked; otherwise locks input and steers. */
    method OnArrowPress(key: string)
      modifies this`arrowPressed, this`direction
      ensures old(arrowPressed) ==> arrowPressed && direction == old(direction)
      ensures !old(arrowPressed) ==> arrowPressed && direction == Steer(old(direction), key)
    {
      if arrowPressed {
        return;
      }
      arrowPressed := true;

      if key == "ArrowDown" {
        if direction == Up {
          return;
        }
        direction := Down;
      } else if key == "ArrowUp" {
        if direction == Down {
          return;
        }
        direction := Up;
      } else if key == "ArrowRight" {
        if direction == Left {
          return;
        }
        direction := Right;
      } else if key == "ArrowLeft" {
        if direction == Right {
          return;
        }
        direction := Left;
      }
    }

    /** The fields a tick may change. */
    function State(): Snapshot
      reads this
    {
      Snapshot(snake, eatenApples, apple, score, running)
    }

    /** One timer tick: releases the input lock and moves the snake one cell in its heading. */
    method Tick(rand: real)
      requires Valid() && running
      requires 0.0 <= rand < 1.0
      modifies this`arrowPressed, this`snake, this`eatenApples, this`score, this`apple, this`running
      ensures Valid()
      ensures !arrowPressed
      ensures Regenerates(cells, old(State()), NextCell(old(snake)[|old(snake)| - 1], direction, width), rand, State())
    {
      var lastSnakeCell := snake[|snake| - 1];
      arrowPressed := false;
      NextCellOnBoard(lastSnakeCell, direction, width);
      var nextSnakeCell := NextCell(lastSnakeCell, direction, width);
      RegenerateSnake(nextSnakeCell, rand);
      RegenerateKeepsConsistent(width, cells, old(State()), nextSnakeCell, rand, State());
    }

    /** Moves the snake into `next`, or ends the game if the snake already occupies `next`. */
    method RegenerateSnake(next: int, rand: real)
      requires Valid() && running
      requires 0.0 <= rand < 1.0
      modifies this`snake, this`eatenApples, this`score, this`apple, this`running
      ensures Regenerates(cells, old(State()), next, rand, State())
    {
      if next in snake {
        EndGame();
        return;
      }

      ghost var moved := Moved(snake, next);
      ghost var grown, kept := Absorbed(eatenApples, moved) + moved, Occupied(eatenApples, moved);
      MoveGrows(width, cells, snake, eatenApples, apple, next);
      snake := Moved(snake, next);
      AbsorbEatenApples();
      assert snake == grown && eatenApples == kept;

      if apple.Some? && apple.value in snake {
        score := score + 1;
        eatenApples := eatenApples + [apple.value];
        GenerateApple(rand);
      }
    }

    /**
      The `forEach` over the pending cells: each one the snake does not
      occupy is put in front of the tail and dropped from `eatenApples`. The
      loop walks the array it started with, while the field is reassigned.
     */
    method AbsorbEatenApples()
      requires NoDup(eatenApples)
      modifies this`snake, this`eatenApples
      ensures snake == Absorbed(old(eatenApples), old(snake)) + old(snake)
      ensures eatenApples == Occupied(old(eatenApples), old(snake))
    {
      ghost var moved := snake;
      var pending := eatenApples;
      var i := 0;
      while i < |pending|
        invariant 0 <= i <= |pending|
        invariant snake == Absorbed(pending[..i], moved) + moved
        invariant eatenApples == Occupied(pending[..i], moved) + pending[i..]
      {
        var eatenApple := pending[i];
        NoDupAt(pending, i);
        PendingInGrown(pending, i, moved);
        if eatenApple !in snake {
          GrowOne(pending, i, moved);
          DropOne(pending, i, moved);
          snake := [eatenApple] + snake;
          eatenApples := RemoveAll(eatenApples, eatenApple);
        } else {
          KeepOne(pending, i, moved);
        }
        i := i + 1;
      }
      assert pending[..i] == pending;
    }

    /** Places the apple on a random free cell of the board, or on none when the board is full. */
    method GenerateApple(rand: real)
      requires 0.0 <= rand < 1.0
      modifies this`apple
      ensures apple == PickApple(cells, snake, rand)
    {
      var emptyCells := Unoccupied(cells, snake);
      var randomIndex := RandomIndex(rand, |emptyCells|);
      apple := if randomIndex < |emptyCells| then Some(emptyCells[randomIndex]) else None;
    }

    /** Game over: the timer is cleared, so no further tick runs. */
    method EndGame()
      modifies this`running
      ensures !running
    {
      running := false;
    }

    /** Leaving the game: the timer is cleared (the host is then notified). */
    method EmitCancelGame()
      modifies this`running
      ensures !running
    {
      running := false;
    }
  }
}
