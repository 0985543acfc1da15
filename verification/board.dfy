/** The board surface: a `rows` by `cols` grid of cells indexed [y, x],
    whose outer ring is the border drawn around the playing area, and the
    way the food spawner picks a cell on it. */
module Board {
  import opened Rules

  /** What a cell of the board shows: blank, a piece of the snake, a food
      digit, or anything else (the border characters). */
  datatype Cell = Empty | Piece | Trophy(value: int) | Border

  /** What the cell ahead of the snake means for the tick. */
  datatype Verdict = Moves | Eats | Crash(reason: Reason)

  /** The cell is inside the border. */
  predicate Interior(p: Coord, rows: int, cols: int)
  {
    1 <= p.x <= cols - 2 && 1 <= p.y <= rows - 2
  }

  /** No cell appears twice. */
  predicate Distinct(s: seq<Coord>)
  {
    forall i, j :: 0 <= i < j < |s| ==> s[i] != s[j]
  }

  /** How the tick reads the cell it moves into: a blank cell or the
      current food digit lets the game go on, a snake piece is a collision
      with the snake itself, and anything else is the wall. */
  function Classify(c: Cell, food: int): Verdict
  {
    if c == Empty then Moves
    else if c == Trophy(food) then Eats
    else if c == Piece then Crash(Self)
    else Crash(Wall)
  }

  /** What the board shows at `p` for a snake `body` and a food of value
      `value` at `food`: border outside the interior, a piece on every body
      cell, the food digit on the food cell, blank elsewhere. */
  function Picture(rows: int, cols: int, body: seq<Coord>, food: Coord, value: int, p: Coord): Cell
  {
    if !Interior(p, rows, cols) then Border
    else if p in body then Piece
    else if p == food then Trophy(value)
    else Empty
  }

  /** The board shows exactly the picture of `body` and the food. */
  ghost predicate Shows(board: array2<Cell>, body: seq<Coord>, food: Coord, value: int)
    reads board
  {
    forall y, x :: 0 <= y < board.Length0 && 0 <= x < board.Length1 ==>
      board[y, x] == Picture(board.Length0, board.Length1, body, food, value, Coord(x, y))
  }

  /** A well-formed snake with its food on a board of the given size. */
  predicate Scene(rows: int, cols: int, body: seq<Coord>, food: Coord, value: int)
  {
    |body| >= 1 && Distinct(body) &&
    (forall i :: 0 <= i < |body| ==> Interior(body[i], rows, cols)) &&
    Interior(food, rows, cols) && food !in body && 1 <= value <= 9
  }

  /** From the newest cell of a snake, one step in any direction stays on
      the board. */
  lemma StepStaysOnBoard(p: Coord, d: Direction, rows: int, cols: int)
    requires Interior(p, rows, cols)
    ensures var q := Step(p, d); 0 <= q.x < cols && 0 <= q.y < rows
  {
  }

  /** Reading the board decides the tick exactly as the snake and the food
      do: the border is the wall, any body cell (the oldest included) is the
      snake itself, the food cell is a meal, every other cell a plain move. */
  lemma Collision(board: array2<Cell>, body: seq<Coord>, food: Coord, value: int, p: Coord)
    requires Shows(board, body, food, value)
    requires Scene(board.Length0, board.Length1, body, food, value)
    requires 0 <= p.x < board.Length1 && 0 <= p.y < board.Length0
    ensures Classify(board[p.y, p.x], value) ==
      if !Interior(p, board.Length0, board.Length1) then Crash(Wall)
      else if p in body then Crash(Self)
      else if p == food then Eats
      else Moves
  {
    assert board[p.y, p.x] == Picture(board.Length0, board.Length1, body, food, value, Coord(p.x, p.y));
  }

  /** Adding a new piece `h` inside the border changes the picture at `h`
      only, where it now shows a piece. */
  lemma PictureGrow(rows: int, cols: int, body: seq<Coord>, food: Coord, value: int, h: Coord, p: Coord)
    requires Interior(h, rows, cols)
    ensures Picture(rows, cols, body + [h], food, value, p) ==
      if p == h then Piece else Picture(rows, cols, body, food, value, p)
  {
  }

  /** Removing the oldest cell of a snake without repeated cells changes
      the picture at that cell only, where it now shows blank (the food
      never lies on the snake). */
  lemma {:induction false} PictureTrim(rows: int, cols: int, body: seq<Coord>, food: Coord, value: int, p: Coord)
    requires |body| >= 1 && Distinct(body) && Interior(body[0], rows, cols) && food != body[0]
    ensures Distinct(body[1..])
    ensures Picture(rows, cols, body[1..], food, value, p) ==
      if p == body[0] then Empty else Picture(rows, cols, body, food, value, p)
  {
    if p in body && p != body[0] {
      var i :| 0 <= i < |body| && body[i] == p;
      assert body[1..][i - 1] == p;
    }
    if p == body[0] {
      forall i | 0 <= i < |body| - 1 ensures body[1..][i] != p {
        assert body[1..][i] == body[i + 1];
      }
    }
  }

  /** Placing new food on a blank cell `food'` once the old food lies under
      the snake changes the picture at `food'` only, where it now shows the
      new digit. */
  lemma PictureSpawn(rows: int, cols: int, body: seq<Coord>, food: Coord, value: int,
                     food': Coord, value': int, p: Coord)
    requires food in body
    requires Interior(food', rows, cols) && food' !in body
    ensures Picture(rows, cols, body, food', value', p) ==
      if p == food' then Trophy(value') else Picture(rows, cols, body, food, value, p)
  {
  }

  /** The cell a pair of random numbers selects for food. The column lies
      in [1, cols - 3] and the row in [1, rows - 3], inside the border. */
  function Candidate(draw: (nat, nat), rows: int, cols: int): (p: Coord)
    requires rows >= 4 && cols >= 4
    ensures 1 <= p.x <= cols - 3 && 1 <= p.y <= rows - 3
    ensures Interior(p, rows, cols)
  {
    Coord(draw.0 % (cols - 3) + 1, draw.1 % (rows - 3) + 1)
  }

  /** The cell selected by `draw` is blank on `board`. */
  predicate HitsEmpty(board: array2<Cell>, draw: (nat, nat))
    requires board.Length0 >= 4 && board.Length1 >= 4
    reads board
  {
    var p := Candidate(draw, board.Length0, board.Length1);
    board[p.y, p.x] == Empty
  }

  /** Draw `k` is the first of `draws` that selects a blank cell. */
  predicate FirstEmptyDraw(board: array2<Cell>, draws: seq<(nat, nat)>, k: int)
    requires board.Length0 >= 4 && board.Length1 >= 4
    reads board
  {
    0 <= k < |draws| && HitsEmpty(board, draws[k]) &&
    forall j :: 0 <= j < k ==> !HitsEmpty(board, draws[j])
  }

  /** The rejection loop of the food spawner: try the drawn cells in turn
      until one is blank. The draws stand for the successive results of the
      random number generator; some draw must hit a blank cell. */
  method FindEmpty(board: array2<Cell>, draws: seq<(nat, nat)>) returns (k: nat)
    requires board.Length0 >= 4 && board.Length1 >= 4
    requires exists i :: 0 <= i < |draws| && HitsEmpty(board, draws[i])
    ensures k < |draws| && HitsEmpty(board, draws[k])
    ensures forall j :: 0 <= j < k ==> !HitsEmpty(board, draws[j])
  {
    k := 0;
    while !HitsEmpty(board, draws[k])
      invariant k < |draws|
      invariant forall j :: 0 <= j < k ==> !HitsEmpty(board, draws[j])
      invariant exists i :: k <= i < |draws| && HitsEmpty(board, draws[i])
      decreases |draws| - k
    {
      k := k + 1;
    }
  }
}
