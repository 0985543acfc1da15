/** The fixed rules of the snake game engine: headings, one step of
    movement, the scoring and speed constants, the random start heading and
    the reasons a game ends. */
module Rules {

  /** A heading of the snake. */
  datatype Direction = Down | Up | Left | Right

  /** A board position: `x` is the column, `y` the row (row 0 is the top). */
  datatype Coord = Coord(x: int, y: int)

  /** Why a game ended, as handed to the quit routine. */
  datatype Reason = User | Self | Wall | Win

  /** Points for every move that does not end the game. */
  const MOVIN := 1
  /** Extra points for eating the food. */
  const EATIN := 4
  /** Length of the snake when it is created. */
  const SNAKELENGTH := 1
  /** Initial tick interval, in microseconds. */
  const TICK0 := 199000
  /** Tick interval removed per unit of food eaten, in microseconds. */
  const TICKINC := 1000

  /** The reversal of a heading: a different heading on the same axis. */
  function Opposite(d: Direction): (e: Direction)
    ensures e != d
    ensures (d == Up || d == Down) <==> (e == Up || e == Down)
  {
    match d
    case Down => Up
    case Up => Down
    case Left => Right
    case Right => Left
  }

  /** The cell one step away from `p` in direction `d`: an orthogonal
      neighbour, in the same column exactly when the heading is vertical. */
  function Step(p: Coord, d: Direction): (q: Coord)
    ensures (q.x == p.x && (q.y == p.y + 1 || q.y == p.y - 1)) ||
            (q.y == p.y && (q.x == p.x + 1 || q.x == p.x - 1))
    ensures (d == Up || d == Down) <==> q.x == p.x
  {
    match d
    case Down => Coord(p.x, p.y + 1)
    case Up => Coord(p.x, p.y - 1)
    case Left => Coord(p.x - 1, p.y)
    case Right => Coord(p.x + 1, p.y)
  }

  /** A step moves to an orthogonal neighbour (rows grow downwards), and
      stepping back in the opposite direction returns to the start. */
  lemma StepBack(p: Coord, d: Direction)
    ensures var q := Step(p, d);
      (d == Down ==> q == Coord(p.x, p.y + 1)) &&
      (d == Up ==> q == Coord(p.x, p.y - 1)) &&
      (d == Left ==> q == Coord(p.x - 1, p.y)) &&
      (d == Right ==> q == Coord(p.x + 1, p.y))
    ensures Step(Step(p, d), Opposite(d)) == p
    ensures Opposite(d) != d && Opposite(Opposite(d)) == d
  {
  }

  /** The start heading chosen from a random number in 1..4. */
  function StartDirection(n: int): Direction
    requires 1 <= n <= 4
  {
    if n == 1 then Up
    else if n == 2 then Down
    else if n == 3 then Left
    else Right
  }

  /** Every heading is the start heading for exactly one number in 1..4,
      so a uniform draw gives a uniform heading. */
  lemma StartDirectionBijective(d: Direction)
    ensures exists n :: 1 <= n <= 4 && StartDirection(n) == d
    ensures forall m, n :: 1 <= m <= 4 && 1 <= n <= 4 && StartDirection(m) == StartDirection(n) ==> m == n
  {
    match d
    case Up => assert StartDirection(1) == d;
    case Down => assert StartDirection(2) == d;
    case Left => assert StartDirection(3) == d;
    case Right => assert StartDirection(4) == d;
  }

  /** The numeric code of a quit reason. */
  function ReasonCode(r: Reason): int
  {
    match r
    case User => 1
    case Self => 2
    case Wall => 3
    case Win => 4
  }

  /** How the quit routine reads a numeric reason: wall, self and win are
      recognised, every other number reads as a user quit. */
  function QuitReason(code: int): (r: Reason)
    ensures 1 <= code <= 4 ==> ReasonCode(r) == code
    ensures code !in {2, 3, 4} ==> r == User
  {
    if code == 3 then Wall
    else if code == 2 then Self
    else if code == 4 then Win
    else User
  }

  /** Reading back the code of a reason gives that reason. */
  lemma QuitReasonOfCode(r: Reason)
    ensures QuitReason(ReasonCode(r)) == r
  {
  }

  /** The closing line printed for each reason, before the score line; the
      process then exits successfully whatever the reason. */
  function Farewell(r: Reason): string
  {
    match r
    case Wall => "You hit the wall! GG"
    case Self => "You hit yourself! GG"
    case Win => "You win! GG"
    case User => "BYE"
  }

  /** Different reasons print different lines. */
  lemma FarewellDistinguishes(r: Reason, s: Reason)
    ensures Farewell(r) == Farewell(s) ==> r == s
  {
  }
}
