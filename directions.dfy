/** Headings of the snake and the relative-turn lookup table. */
module Directions {

  /** The heading of the snake, and also the argument of a relative turn
      (only Left and Right act as turns; Up and Down are ignored). */
  datatype Direction = Up | Down | Left | Right

  /** The heading opposite to `d` (a 180-degree reversal). */
  function Opposite(d: Direction): (r: Direction)
    ensures r != d
  {
    match d
    case Up => Down
    case Down => Up
    case Left => Right
    case Right => Left
  }

  /** Clockwise quarter-turns from Up, on a screen whose y axis grows downward:
      Up = 0, Right = 1, Down = 2, Left = 3. An independent description of the
      four headings against which the lookup table is checked. */
  function Quarter(d: Direction): (q: nat)
    ensures q < 4
  {
    match d
    case Up => 0
    case Right => 1
    case Down => 2
    case Left => 3
  }

  /** The heading after a relative turn `dir` taken while moving along
      `heading`, as the guarded match of `SnakeGame::turn` gives it: a Left
      turn rotates counter-clockwise, a Right turn clockwise, and any other
      argument leaves the heading as it is. */
  function Turned(heading: Direction, dir: Direction): (r: Direction)
    ensures (dir == Up || dir == Down) ==> r == heading
    ensures (dir == Left || dir == Right) ==> r != heading && r != Opposite(heading)
  {
    match (dir, heading)
    case (Left, Left) => Down
    case (Left, Right) => Up
    case (Left, Up) => Left
    case (Left, Down) => Right
    case (Right, Left) => Up
    case (Right, Right) => Down
    case (Right, Up) => Right
    case (Right, Down) => Left
    case _ => heading
  }

  /** The lookup table agrees with arithmetic on quarter-turns: a Right turn
      adds one quarter, a Left turn takes one away. */
  lemma TurnedIsQuarterRotation(heading: Direction)
    ensures Quarter(Turned(heading, Right)) == (Quarter(heading) + 1) % 4
    ensures Quarter(Turned(heading, Left)) == (Quarter(heading) + 3) % 4
  {
  }

  /** Left and Right turns undo each other from every heading. */
  lemma TurnsUndoEachOther(heading: Direction)
    ensures Turned(Turned(heading, Left), Right) == heading
    ensures Turned(Turned(heading, Right), Left) == heading
  {
  }

  /** Four turns the same way bring the snake back to its starting heading. */
  lemma FourTurnsReturn(heading: Direction, dir: Direction)
    ensures Turned(Turned(Turned(Turned(heading, dir), dir), dir), dir) == heading
  {
  }
}
