/** The game state engine: the snake, its food, the score, the speed and
    the end of the game, advanced one tick or one key at a time. */
module Game {
  import opened Rules
  import opened Board

  /** A game is running until one of the quit reasons ends it. */
  datatype Status = Running | Over(reason: Reason)

  /** The closing line printed when a game ends: the engine hands the
      reason's numeric code to the quit routine, which reads it back and
      prints the line for that reason. */
  function ClosingLine(s: Status): (line: string)
    requires s.Over?
    ensures line == Farewell(s.reason)
    ensures forall t: Status :: t.Over? && Farewell(t.reason) == line ==> t == s
  {
    QuitReasonOfCode(s.reason);
    Farewell(QuitReason(ReasonCode(s.reason)))
  }

  /** A key the player pressed: an arrow, one of the quit keys ('q', 'Q'
      or backspace), or any other key. */
  datatype Key = Arrow(heading: Direction) | QuitKey | OtherKey

  /** A fresh screen with the border drawn around a blank playing area. */
  method Box(rows: int, cols: int) returns (board: array2<Cell>)
    requires rows >= 0 && cols >= 0
    ensures fresh(board) && board.Length0 == rows && board.Length1 == cols
    ensures forall y, x :: 0 <= y < rows && 0 <= x < cols ==>
      board[y, x] == if Interior(Coord(x, y), rows, cols) then Empty else Border
  {
    board := new Cell[rows, cols]((y, x) =>
      if 1 <= x <= cols - 2 && 1 <= y <= rows - 2 then Empty else Border);
  }

  class SnakeGame {
    const rows: int
    const cols: int
    /** The terminal screen, indexed [y, x]. */
    const board: array2<Cell>
    /** The snake's cells, oldest first; the last one is the moving head. */
    var body: seq<Coord>
    var direction: Direction
    var score: int
    /** Ticks still to come on which the oldest cell is kept. */
    var piecesToAdd: int
    /** Length the snake is growing to. */
    var slength: int
    /** Tick interval, in microseconds. */
    var tick: int
    /** Value of the food on the board. */
    var printedNumber: int
    var status: Status
    /** Where the food lies; the screen alone records it. */
    ghost var food: Coord

    /** Board dimensions agree with the screen. */
    ghost predicate Shape()
      reads this
    {
      board.Length0 == rows && board.Length1 == cols && rows >= 4 && cols >= 4
    }

    /** The object invariant. While the game runs: the snake and its food
        are well formed, the screen shows exactly them, the length still to
        grow makes up the target length, the target is below the winning
        length, and the tick interval has shrunk by TICKINC for every unit
        the snake has grown beyond its initial length. */
    ghost predicate Valid()
      reads this, board
    {
      Shape() &&
      (status == Running ==>
        Scene(rows, cols, body, food, printedNumber) &&
        Shows(board, body, food, printedNumber) &&
        0 <= piecesToAdd && |body| + piecesToAdd == slength &&
        slength < rows + cols &&
        tick == TICK0 - TICKINC * (slength - SNAKELENGTH) &&
        0 <= score)
    }

    /** The cell the next tick moves into. */
    ghost function NextHead(): Coord
      reads this
      requires |body| >= 1
    {
      Step(body[|body| - 1], direction)
    }

    /** What the next tick makes of the cell it moves into. */
    ghost function Ahead(): Verdict
      reads this, board
      requires Valid() && status == Running
    {
      var h := NextHead();
      StepStaysOnBoard(body[|body| - 1], direction, rows, cols);
      Classify(board[h.y, h.x], printedNumber)
    }

    /** The collision classification of the next tick, in terms of the
        snake and the food: the border is the wall, any body cell (the
        oldest included, as the board is read before the trim) is the snake
        itself, the food cell is a meal and any other cell a plain move. */
    lemma AheadClassified()
      requires Valid() && status == Running
      ensures Ahead() ==
        (var h := NextHead();
         if !Interior(h, rows, cols) then Crash(Wall)
         else if h in body then Crash(Self)
         else if h == food then Eats
         else Moves)
    {
      StepStaysOnBoard(body[|body| - 1], direction, rows, cols);
      Collision(board, body, food, printedNumber, NextHead());
    }

    /** The next tick eats the food without winning, so it spawns new food. */
    ghost predicate WillSpawn()
      reads this, board
      requires Valid() && status == Running
    {
      Ahead() == Eats && slength + printedNumber < rows + cols
    }

    /** A new game: the start heading drawn from `directionDraw`, a snake of
        one cell in the middle of a `rows` by `cols` screen, the border
        around it, and the first food placed from `draws` and `valueDraw`. */
    constructor (rows: int, cols: int, directionDraw: nat, draws: seq<(nat, nat)>, valueDraw: nat)
      requires rows >= 4 && cols >= 4
      requires exists i :: 0 <= i < |draws| && Candidate(draws[i], rows, cols) != Coord(cols / 2, rows / 2)
      ensures Valid() && fresh(board) && status == Running
      ensures this.rows == rows && this.cols == cols
      ensures direction == StartDirection(directionDraw % 4 + 1)
      ensures body == [Coord(cols / 2, rows / 2)]
      ensures slength == SNAKELENGTH && piecesToAdd == 0 && score == 0 && tick == TICK0
      ensures printedNumber == valueDraw % 9 + 1
      ensures exists k ::
        (0 <= k < |draws| && food == Candidate(draws[k], rows, cols) && food != Coord(cols / 2, rows / 2) &&
         forall j :: 0 <= j < k ==> Candidate(draws[j], rows, cols) == Coord(cols / 2, rows / 2))
    {
      var screen := Box(rows, cols);
      this.rows, this.cols := rows, cols;
      board := screen;
      direction := StartDirection(directionDraw % 4 + 1);
      body := [Coord(cols / 2, rows / 2)];
      score, piecesToAdd, slength, tick := 0, 0, SNAKELENGTH, TICK0;
      printedNumber := 0;
      status := Running;
      food := Coord(0, 0);
      new;
      var center := Coord(cols / 2, rows / 2);
      board[center.y, center.x] := Piece;
      label Drawn:
      forall i | 0 <= i < |draws|
        ensures HitsEmpty(board, draws[i]) <==> Candidate(draws[i], rows, cols) != center
      {
      }
      var k := SpawnFood(draws, valueDraw);
      forall y, x | 0 <= y < rows && 0 <= x < cols
        ensures board[y, x] == Picture(rows, cols, body, food, printedNumber, Coord(x, y))
      {
        if Coord(x, y) != food {
          assert board[y, x] == old@Drawn(board[y, x]);
        }
      }
    }

    /** The food spawner: the first drawn cell that is blank receives the
        digit of a value drawn in 1..9; no other cell changes. */
    method SpawnFood(draws: seq<(nat, nat)>, valueDraw: nat) returns (ghost k: nat)
      requires Shape()
      requires exists i :: 0 <= i < |draws| && HitsEmpty(board, draws[i])
      modifies board, this`printedNumber, this`food
      ensures old(FirstEmptyDraw(board, draws, k))
      ensures food == Candidate(draws[k], rows, cols)
      ensures printedNumber == valueDraw % 9 + 1 && 1 <= printedNumber <= 9
      ensures board[food.y, food.x] == Trophy(printedNumber)
      ensures forall y, x :: 0 <= y < rows && 0 <= x < cols && Coord(x, y) != food ==>
        board[y, x] == old(board[y, x])
    {
      var chosen := FindEmpty(board, draws);
      k := chosen;
      var p := Candidate(draws[chosen], rows, cols);
      food := p;
      printedNumber := valueDraw % 9 + 1;
      board[p.y, p.x] := Trophy(printedNumber);
    }

    /** The state in the middle of a tick that goes on: the new piece,
        the last cell of `body`, has been added and drawn on a cell that
        was blank or held the food, and nothing else has changed yet. */
    ghost predicate Grown()
      reads this, board
    {
      Shape() && status == Running && |body| >= 2 &&
      Scene(rows, cols, body[..|body| - 1], food, printedNumber) &&
      Interior(body[|body| - 1], rows, cols) && body[|body| - 1] !in body[..|body| - 1] &&
      Shows(board, body, food, printedNumber) &&
      0 <= piecesToAdd && |body| + piecesToAdd == slength + 1 &&
      slength < rows + cols &&
      tick == TICK0 - TICKINC * (slength - SNAKELENGTH) &&
      0 <= score
    }

    /** One tick. The new piece one step ahead of the newest cell is added
        and drawn first; then the cell it covered decides the outcome. A
        blank cell or the food scores MOVIN, eating goes on in Eat, and the
        tail is then trimmed by TrimTail. A snake piece ends the game with
        Self, anything else with Wall. */
    method SnakeMove(draws: seq<(nat, nat)>, valueDraw: nat)
      requires Valid() && status == Running
      requires WillSpawn() ==> exists i :: 0 <= i < |draws| && HitsEmpty(board, draws[i])
      modifies board, this`body, this`piecesToAdd, this`slength, this`status, this`tick, this`score,
        this`printedNumber, this`food
      ensures Valid()
      ensures old(Ahead()).Crash? ==>
        status == Over(old(Ahead()).reason) &&
        body == old(body) + [old(NextHead())] && score == old(score) &&
        piecesToAdd == old(piecesToAdd) && slength == old(slength) && tick == old(tick) &&
        printedNumber == old(printedNumber) &&
        forall y, x :: 0 <= y < rows && 0 <= x < cols ==>
          board[y, x] == if Coord(x, y) == old(NextHead()) then Piece else old(board[y, x])
      ensures old(Ahead()) == Moves ==>
        status == Running && score == old(score) + MOVIN &&
        slength == old(slength) && tick == old(tick) &&
        printedNumber == old(printedNumber) && food == old(food) &&
        (if old(piecesToAdd) == 0
         then body == old(body)[1..] + [old(NextHead())] && piecesToAdd == 0
         else body == old(body) + [old(NextHead())] && piecesToAdd == old(piecesToAdd) - 1)
      ensures old(Ahead()) == Eats && old(slength + printedNumber) >= rows + cols ==>
        status == Over(Win) && score == old(score) + MOVIN &&
        body == old(body) + [old(NextHead())] &&
        piecesToAdd == old(piecesToAdd + printedNumber) && slength == old(slength + printedNumber) &&
        tick == old(tick) && printedNumber == old(printedNumber) &&
        forall y, x :: 0 <= y < rows && 0 <= x < cols ==>
          board[y, x] == if Coord(x, y) == old(NextHead()) then Piece else old(board[y, x])
      ensures old(WillSpawn()) ==>
        status == Running && score == old(score) + MOVIN + EATIN &&
        body == old(body) + [old(NextHead())] &&
        piecesToAdd == old(piecesToAdd + printedNumber) - 1 && slength == old(slength + printedNumber) &&
        tick == old(tick - TICKINC * printedNumber) &&
        printedNumber == valueDraw % 9 + 1 &&
        (exists k :: old(FirstEmptyDraw(board, draws, k)) && food == Candidate(draws[k], rows, cols))
    {
      var newest := body[|body| - 1];
      var h := Step(newest, direction);
      StepStaysOnBoard(newest, direction, rows, cols);
      Collision(board, body, food, printedNumber, h);
      var ch := board[h.y, h.x];
      var trophy := printedNumber;
      GrowHead(h, draws);
      if ch == Empty || ch == Trophy(trophy) {
        label Drawn:
        Proceed(ch == Trophy(trophy), draws, valueDraw);
        if ch == Empty && old(piecesToAdd) == 0 {
          assert old@Drawn(body)[1..] == old(body)[1..] + [h];
        }
      } else if ch == Piece {
        status := Over(Self);
      } else {
        status := Over(Wall);
      }
    }

    /** Adds the new piece `h` after the newest cell and draws it. When the
        game was running and `h` was blank or the food, this is the middle
        of a tick that goes on; the cells that were not blank before are
        still not blank, so the food spawner sees the same choices. */
    method GrowHead(h: Coord, ghost draws: seq<(nat, nat)>)
      requires Shape() && 0 <= h.x < cols && 0 <= h.y < rows
      modifies board, this`body
      ensures body == old(body) + [h]
      ensures forall y, x :: 0 <= y < rows && 0 <= x < cols ==>
        board[y, x] == if Coord(x, y) == h then Piece else old(board[y, x])
      ensures old(Valid() && status == Running && Classify(board[h.y, h.x], printedNumber) in {Moves, Eats}) ==>
        Grown() && (h == food <==> old(board[h.y, h.x]) == Trophy(printedNumber))
      ensures old(board[h.y, h.x]) != Empty ==>
        forall i :: 0 <= i < |draws| ==> HitsEmpty(board, draws[i]) == old(HitsEmpty(board, draws[i]))
    {
      var going := Valid() && status == Running && Classify(board[h.y, h.x], printedNumber) in {Moves, Eats};
      if going {
        Collision(board, body, food, printedNumber, h);
      }
      board[h.y, h.x] := Piece;
      body := body + [h];
      if going {
        assert body[..|body| - 1] == old(body);
        forall y, x | 0 <= y < rows && 0 <= x < cols
          ensures board[y, x] == Picture(rows, cols, body, food, printedNumber, Coord(x, y))
        {
          PictureGrow(rows, cols, old(body), food, printedNumber, h, Coord(x, y));
        }
      }
      if old(board[h.y, h.x]) != Empty {
        forall i | 0 <= i < |draws| ensures HitsEmpty(board, draws[i]) == old(HitsEmpty(board, draws[i])) {
          var p := Candidate(draws[i], rows, cols);
          if p != h {
            assert board[p.y, p.x] == old(board[p.y, p.x]);
          }
        }
      }
    }

    /** The rest of a tick whose new piece covered a blank cell or, when
        `ate`, the food: the move scores MOVIN, a meal goes on in Eat (and
        may win), and the tail is then trimmed by TrimTail. */
    method Proceed(ate: bool, draws: seq<(nat, nat)>, valueDraw: nat)
      requires Grown() && (ate <==> body[|body| - 1] == food)
      requires ate && slength + printedNumber < rows + cols ==>
        exists i :: 0 <= i < |draws| && HitsEmpty(board, draws[i])
      modifies board, this`body, this`piecesToAdd, this`slength, this`status, this`tick, this`score,
        this`printedNumber, this`food
      ensures Valid()
      ensures !ate ==>
        status == Running && score == old(score) + MOVIN &&
        slength == old(slength) && tick == old(tick) &&
        printedNumber == old(printedNumber) && food == old(food) &&
        if old(piecesToAdd) == 0
        then body == old(body)[1..] && piecesToAdd == 0
        else body == old(body) && piecesToAdd == old(piecesToAdd) - 1
      ensures ate && old(slength + printedNumber) >= rows + cols ==>
        status == Over(Win) && score == old(score) + MOVIN && body == old(body) &&
        piecesToAdd == old(piecesToAdd + printedNumber) && slength == old(slength + printedNumber) &&
        tick == old(tick) && printedNumber == old(printedNumber) &&
        forall y, x :: 0 <= y < rows && 0 <= x < cols ==> board[y, x] == old(board[y, x])
      ensures ate && old(slength + printedNumber) < rows + cols ==>
        status == Running && score == old(score) + MOVIN + EATIN && body == old(body) &&
        piecesToAdd == old(piecesToAdd + printedNumber) - 1 && slength == old(slength + printedNumber) &&
        tick == old(tick - TICKINC * printedNumber) &&
        printedNumber == valueDraw % 9 + 1 &&
        (exists k :: old(FirstEmptyDraw(board, draws, k)) && food == Candidate(draws[k], rows, cols))
    {
      score := score + MOVIN;
      if ate {
        Eat(draws, valueDraw);
        if status != Running {
          return;
        }
      }
      TrimTail();
    }

    /** The meal, on a tick whose new piece covered the food of value n:
        the target length and the pending growth both grow by n; a target
        of rows + cols or more wins at once. Otherwise the tick speeds up by
        TICKINC * n, new food is spawned and the meal scores EATIN. */
    method Eat(draws: seq<(nat, nat)>, valueDraw: nat)
      requires Grown() && body[|body| - 1] == food
      requires slength + printedNumber < rows + cols ==>
        exists i :: 0 <= i < |draws| && HitsEmpty(board, draws[i])
      modifies board, this`piecesToAdd, this`slength, this`status, this`tick, this`score,
        this`printedNumber, this`food
      ensures piecesToAdd == old(piecesToAdd + printedNumber) && slength == old(slength + printedNumber)
      ensures old(slength + printedNumber) >= rows + cols ==>
        status == Over(Win) && tick == old(tick) && score == old(score) &&
        printedNumber == old(printedNumber) && food == old(food) &&
        forall y, x :: 0 <= y < rows && 0 <= x < cols ==> board[y, x] == old(board[y, x])
      ensures old(slength + printedNumber) < rows + cols ==>
        Grown() && food !in body &&
        tick == old(tick - TICKINC * printedNumber) && score == old(score) + EATIN &&
        printedNumber == valueDraw % 9 + 1 &&
        (exists k :: old(FirstEmptyDraw(board, draws, k)) && food == Candidate(draws[k], rows, cols)) &&
        forall y, x :: 0 <= y < rows && 0 <= x < cols ==>
          board[y, x] == if Coord(x, y) == food then Trophy(printedNumber) else old(board[y, x])
    {
      var n := printedNumber;
      piecesToAdd := piecesToAdd + n;
      slength := slength + n;
      if slength >= rows + cols {
        status := Over(Win);
        return;
      }
      tick := tick - TICKINC * n;
      ghost var eaten := food;
      var k := SpawnFood(draws, valueDraw);
      score := score + EATIN;
      ghost var placed := food;
      assert food !in body by {
        assert old(board[placed.y, placed.x]) == Empty;
        assert old(board[placed.y, placed.x]) == Picture(rows, cols, body, eaten, n, placed);
      }
      forall y, x | 0 <= y < rows && 0 <= x < cols
        ensures board[y, x] == Picture(rows, cols, body, food, printedNumber, Coord(x, y))
      {
        PictureSpawn(rows, cols, body, eaten, n, food, printedNumber, Coord(x, y));
      }
    }

    /** The end of a tick that goes on: with no growth pending the oldest
        cell is removed and blanked, otherwise it stays and the pending
        growth goes down by one. */
    method TrimTail()
      requires Grown() && food !in body
      modifies board, this`body, this`piecesToAdd
      ensures Valid()
      ensures old(piecesToAdd) == 0 ==>
        body == old(body)[1..] && piecesToAdd == 0 &&
        forall y, x :: 0 <= y < rows && 0 <= x < cols ==>
          board[y, x] == if Coord(x, y) == old(body[0]) then Empty else old(board[y, x])
      ensures old(piecesToAdd) != 0 ==>
        body == old(body) && piecesToAdd == old(piecesToAdd) - 1 &&
        forall y, x :: 0 <= y < rows && 0 <= x < cols ==> board[y, x] == old(board[y, x])
    {
      assert Distinct(body) by {
        var last := |body| - 1;
        forall i, j | 0 <= i < j < |body| ensures body[i] != body[j] {
          if j < last {
            assert body[i] == body[..last][i] && body[j] == body[..last][j];
          } else {
            assert body[i] == body[..last][i];
          }
        }
      }
      if piecesToAdd == 0 {
        var oldest := body[0];
        assert oldest == body[..|body| - 1][0];
        board[oldest.y, oldest.x] := Empty;
        PictureTrim(rows, cols, body, food, printedNumber, oldest);
        forall y, x | 0 <= y < rows && 0 <= x < cols
          ensures board[y, x] == Picture(rows, cols, body[1..], food, printedNumber, Coord(x, y))
        {
          PictureTrim(rows, cols, body, food, printedNumber, Coord(x, y));
        }
        body := body[1..];
      } else {
        piecesToAdd := piecesToAdd - 1;
      }
      assert Scene(rows, cols, body, food, printedNumber) by {
        forall i | 0 <= i < |body| ensures Interior(body[i], rows, cols) {
          if i < |old(body)| - 1 && body == old(body) { assert body[i] == old(body)[..|old(body)| - 1][i]; }
          if body != old(body) && i < |body| - 1 { assert body[i] == old(body)[..|old(body)| - 1][i + 1]; }
        }
      }
    }

    /** A direction key. Asking for the exact reverse of the current
        heading ends the game as a collision with the snake itself, whatever
        its length; any other request becomes the heading. */
    method DirChange(d: Direction)
      requires Valid() && status == Running
      modifies this`direction, this`status
      ensures Valid()
      ensures d == Opposite(old(direction)) ==> status == Over(Self) && direction == old(direction)
      ensures d != Opposite(old(direction)) ==> status == Running && direction == d
    {
      var reverse := match d
        case Left => direction == Right
        case Right => direction == Left
        case Up => direction == Down
        case Down => direction == Up;
      if reverse {
        status := Over(Self);
        return;
      }
      direction := d;
    }

    /** One key from the player: an arrow asks for a heading, a quit key
        ends the game by the user's choice, any other key is ignored. */
    method HandleKey(k: Key)
      requires Valid() && status == Running
      modifies this`direction, this`status
      ensures Valid()
      ensures k.Arrow? ==>
        if k.heading == Opposite(old(direction))
        then status == Over(Self) && direction == old(direction)
        else status == Running && direction == k.heading
      ensures k == QuitKey ==> status == Over(User) && direction == old(direction)
      ensures k == OtherKey ==> status == Running && direction == old(direction)
    {
      match k
      case Arrow(d) => DirChange(d);
      case QuitKey => status := Over(User);
      case OtherKey =>
    }

    /** While the game runs the tick interval never falls below
        TICKINC * (201 - rows - cols): it stays positive on screens with
        rows + cols <= 200, and nothing stops it reaching zero or below on
        larger ones. */
    lemma TickFloor()
      requires Valid() && status == Running
      ensures tick >= TICK0 - TICKINC * (rows + cols - 1 - SNAKELENGTH)
      ensures rows + cols <= 200 ==> tick > 0
    {
    }
  }
}

/** A game on a 7 by 7 screen (a 5 by 5 playing area) heading right, with
    food of value 1 right ahead of the snake: one tick eats it, scoring
    MOVIN + EATIN, growing the snake to two cells, speeding the tick up by
    one TICKINC and placing new food. Reversing the heading then ends the
    game with Self, leaves the score alone and closes with the line for
    hitting yourself. */
method EatAheadScenario()
{
  var first := [(3, 2)];
  assert Board.Candidate(first[0], 7, 7) == Rules.Coord(4, 3);
  var g := new Game.SnakeGame(7, 7, 3, first, 0);
  assert g.direction == Rules.Right;
  assert g.food == Rules.Coord(4, 3) && g.printedNumber == 1;
  assert g.board[1, 1] == Board.Picture(7, 7, g.body, g.food, g.printedNumber, Rules.Coord(1, 1));
  assert g.board[3, 4] == Board.Picture(7, 7, g.body, g.food, g.printedNumber, Rules.Coord(4, 3));
  var next := [(0, 0)];
  assert Board.HitsEmpty(g.board, next[0]);
  g.SnakeMove(next, 0);
  assert g.status == Game.Running;
  assert g.score == 5 && |g.body| == 2 && g.tick == Rules.TICK0 - Rules.TICKINC;
  assert g.food == Rules.Coord(1, 1) && g.printedNumber == 1;
  g.DirChange(Rules.Left);
  assert g.status == Game.Over(Rules.Self) && g.score == 5;
  assert Game.ClosingLine(g.status) == "You hit yourself! GG";
}
