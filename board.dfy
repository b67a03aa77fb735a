/**
  The playing field of the snake game: a square board of `width × width`
  cells, numbered `1 .. width²` in row-major order, and the toroidal step
  that moves the snake's head one cell in one of four directions.
 */
module Board {

  /** The four headings of the snake. */
  datatype Direction = Right | Left | Up | Down

  /** The heading that would reverse the snake onto itself. */
  function Opposite(d: Direction): Direction
  {
    match d
    case Right => Left
    case Left => Right
    case Up => Down
    case Down => Up
  }

  /** The board's cells as the game builds them: `i + 1` at index `i`, `width²` of them. */
  function Cells(width: int): seq<int>
  {
    seq(width * width, i => i + 1)
  }

  /** A cell identifier that names a cell of the board. */
  predicate OnBoard(cell: int, width: int)
  {
    1 <= cell <= width * width
  }

  /** Zero-based row of a cell. */
  function Row(cell: int, width: int): int
    requires width >= 1
  {
    (cell - 1) / width
  }

  /** Zero-based column of a cell. */
  function Col(cell: int, width: int): int
    requires width >= 1
  {
    (cell - 1) % width
  }

  /**
    The cell the head moves into when the snake heads in `direction`.
    The tests `x % width == 0` agree for truncating and Euclidean remainder
    (both are zero exactly when `width` divides `x`); a zero `width` makes the
    remainder NaN, which never equals zero, hence the `width != 0` guards.
   */
  function NextCell(head: int, direction: Direction, width: int): int
  {
    match direction
    case Right =>
      if width != 0 && head % width == 0 then head - (width - 1) else head + 1
    case Left =>
      if width != 0 && (head + (width - 1)) % width == 0 then head + (width - 1) else head - 1
    case Down =>
      if head > width * (width - 1) then head - width * (width - 1) else head + width
    case Up =>
      if head <= width then head + width * (width - 1) else head - width
  }

  // ---------------------------------------------------------------------
  // Grid construction

  /** The board has exactly `width²` cells, cell `i + 1` at index `i`, and they are exactly the on-board identifiers. */
  lemma CellsAreTheBoard(width: int)
    ensures |Cells(width)| == width * width
    ensures forall i :: 0 <= i < |Cells(width)| ==> Cells(width)[i] == i + 1
    ensures forall x :: x in Cells(width) <==> OnBoard(x, width)
  {
    var cells := Cells(width);
    forall x | OnBoard(x, width)
      ensures x in cells
    {
      assert cells[x - 1] == x;
    }
  }

  // ---------------------------------------------------------------------
  // Row-major coordinates

  /** Quotient and remainder are unique: `w * q + m` with `0 <= m < w` divides into `q` remainder `m`. */
  lemma DivModUnique(w: int, q: int, m: int)
    requires w >= 1 && 0 <= m < w
    ensures (w * q + m) / w == q && (w * q + m) % w == m
  {
    var x := w * q + m;
    var q', m' := x / w, x % w;
    assert x == w * q' + m' && 0 <= m' < w;
    assert w * (q' - q) == m - m';
    if q' > q {
      MulAtLeast(w, q' - q);
    } else if q' < q {
      MulAtLeast(w, q - q');
    }
  }

  lemma MulAtLeast(w: int, k: int)
    requires w >= 1 && k >= 1
    ensures w * k >= w
  {
  }

  lemma MulMonotone(w: int, a: int, b: int)
    requires w >= 0 && a <= b
    ensures w * a <= w * b
  {
  }

  /** An on-board cell lies at a row and column inside the board. */
  lemma Coordinates(cell: int, width: int)
    requires width >= 1 && OnBoard(cell, width)
    ensures 0 <= Row(cell, width) < width && 0 <= Col(cell, width) < width
    ensures cell == width * Row(cell, width) + Col(cell, width) + 1
  {
    var r, c := Row(cell, width), Col(cell, width);
    assert cell - 1 == width * r + c;
    if r >= width {
      MulMonotone(width, width, r);
    }
  }

  /** The cell at row `r`, column `c` is on the board and has those coordinates. */
  lemma AtCoordinates(width: int, r: int, c: int)
    requires width >= 1 && 0 <= r < width && 0 <= c < width
    ensures OnBoard(width * r + c + 1, width)
    ensures Row(width * r + c + 1, width) == r && Col(width * r + c + 1, width) == c
  {
    DivModUnique(width, r, c);
    MulMonotone(width, r, width - 1);
  }

  // ---------------------------------------------------------------------
  // The toroidal step

  /** Stepping right keeps the row and moves one column right, wrapping from the last column to the first. */
  lemma {:induction false} StepRight(head: int, width: int)
    requires width >= 1 && OnBoard(head, width)
    ensures var next := NextCell(head, Right, width);
      OnBoard(next, width) &&
      Row(next, width) == Row(head, width) &&
      Col(next, width) == (if Col(head, width) == width - 1 then 0 else Col(head, width) + 1)
  {
    Coordinates(head, width);
    var r, c := Row(head, width), Col(head, width);
    if c == width - 1 {
      assert head == width * (r + 1);
      DivModUnique(width, r + 1, 0);
      assert NextCell(head, Right, width) == width * r + 0 + 1;
      AtCoordinates(width, r, 0);
    } else {
      assert head == width * r + (c + 1);
      DivModUnique(width, r, c + 1);
      assert NextCell(head, Right, width) == width * r + (c + 1) + 1;
      AtCoordinates(width, r, c + 1);
    }
  }

  /** Stepping left keeps the row and moves one column left, wrapping from the first column to the last. */
  lemma {:induction false} StepLeft(head: int, width: int)
    requires width >= 1 && OnBoard(head, width)
    ensures var next := NextCell(head, Left, width);
      OnBoard(next, width) &&
      Row(next, width) == Row(head, width) &&
      Col(next, width) == (if Col(head, width) == 0 then width - 1 else Col(head, width) - 1)
  {
    Coordinates(head, width);
    var r, c := Row(head, width), Col(head, width);
    assert head + (width - 1) == width * (r + 1) + c;
    DivModUnique(width, r + 1, c);
    if c == 0 {
      assert NextCell(head, Left, width) == width * r + (width - 1) + 1;
      AtCoordinates(width, r, width - 1);
    } else {
      assert NextCell(head, Left, width) == width * r + (c - 1) + 1;
      AtCoordinates(width, r, c - 1);
    }
  }

  /** Stepping down keeps the column and moves one row down, wrapping from the bottom row to the top. */
  lemma {:induction false} StepDown(head: int, width: int)
    requires width >= 1 && OnBoard(head, width)
    ensures var next := NextCell(head, Down, width);
      OnBoard(next, width) &&
      Col(next, width) == Col(head, width) &&
      Row(next, width) == (if Row(head, width) == width - 1 then 0 else Row(head, width) + 1)
  {
    Coordinates(head, width);
    var r, c := Row(head, width), Col(head, width);
    if r == width - 1 {
      assert head > width * (width - 1);
      assert NextCell(head, Down, width) == width * 0 + c + 1;
      AtCoordinates(width, 0, c);
    } else {
      MulMonotone(width, r, width - 2);
      assert head <= width * (width - 1);
      assert NextCell(head, Down, width) == width * (r + 1) + c + 1;
      AtCoordinates(width, r + 1, c);
    }
  }

  /** Stepping up keeps the column and moves one row up, wrapping from the top row to the bottom. */
  lemma {:induction false} StepUp(head: int, width: int)
    requires width >= 1 && OnBoard(head, width)
    ensures var next := NextCell(head, Up, width);
      OnBoard(next, width) &&
      Col(next, width) == Col(head, width) &&
      Row(next, width) == (if Row(head, width) == 0 then width - 1 else Row(head, width) - 1)
  {
    Coordinates(head, width);
    var r, c := Row(head, width), Col(head, width);
    if r == 0 {
      assert head <= width;
      assert NextCell(head, Up, width) == width * (width - 1) + c + 1;
      AtCoordinates(width, width - 1, c);
    } else {
      MulMonotone(width, 1, r);
      assert head > width;
      assert NextCell(head, Up, width) == width * (r - 1) + c + 1;
      AtCoordinates(width, r - 1, c);
    }
  }

  /** Whatever the heading, the step from an on-board cell lands on the board. */
  lemma NextCellOnBoard(head: int, direction: Direction, width: int)
    requires width >= 1 && OnBoard(head, width)
    ensures OnBoard(NextCell(head, direction, width), width)
  {
    match direction
    case Right => StepRight(head, width);
    case Left => StepLeft(head, width);
    case Down => StepDown(head, width);
    case Up => StepUp(head, width);
  }
}
