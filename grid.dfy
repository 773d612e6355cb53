/** The playfield: a WIDTH x HEIGHT band of cells below a one-row status bar,
    with toroidal wrap-around on both axes. */
module Grid {
  import opened Directions

  /** Number of columns; x ranges over 0 .. WIDTH - 1. */
  const WIDTH: int := 20
  /** Number of playfield rows; y ranges over 1 .. HEIGHT (row 0 is the status bar). */
  const HEIGHT: int := 11

  /** A cell, as the integer point of the display library. */
  datatype Point = Point(x: int, y: int)

  /** The cell where a new snake's head starts. */
  const CENTRE: Point := Point(WIDTH / 2, HEIGHT / 2)

  /** Component-wise `p + q`. */
  function Add(p: Point, q: Point): Point {
    Point(p.x + q.x, p.y + q.y)
  }

  /** Component-wise `p - q`. */
  function Sub(p: Point, q: Point): Point {
    Point(p.x - q.x, p.y - q.y)
  }

  /** The cells the snake and the apple may occupy. */
  predicate InPlayfield(p: Point) {
    0 <= p.x < WIDTH && 1 <= p.y <= HEIGHT
  }

  /** `random_point`: `rx` and `ry` are the two uniform draws from
      `0..WIDTH` and `0..HEIGHT`; the point is shifted down one row so that
      it never lands on the status bar. */
  function RandomPoint(rx: int, ry: int): (p: Point)
    requires 0 <= rx < WIDTH && 0 <= ry < HEIGHT
    ensures InPlayfield(p)
  {
    Add(Point(rx, ry), Point(0, 1))
  }

  /** The range of `random_point` is exactly the playfield. */
  lemma RandomPointRange(p: Point)
    ensures InPlayfield(p) <==>
      exists rx, ry :: 0 <= rx < WIDTH && 0 <= ry < HEIGHT && RandomPoint(rx, ry) == p
  {
    if InPlayfield(p) {
      assert RandomPoint(p.x, p.y - 1) == p;
    }
  }

  /** The unit step for each heading; y grows downward. */
  function Offset(d: Direction): Point {
    match d
    case Up => Point(0, -1)
    case Down => Point(0, 1)
    case Left => Point(-1, 0)
    case Right => Point(1, 0)
  }

  /** The edge correction of `tick`: a column past either side jumps to the
      opposite edge column, a row past either edge of the band 1 .. HEIGHT
      jumps to the opposite edge row; a coordinate inside is kept. */
  function Wrap(p: Point): (q: Point)
    ensures InPlayfield(q)
    ensures InPlayfield(p) ==> q == p
    ensures 0 <= p.x < WIDTH ==> q.x == p.x
    ensures 1 <= p.y <= HEIGHT ==> q.y == p.y
  {
    var x := if p.x >= WIDTH then 0 else if p.x < 0 then WIDTH - 1 else p.x;
    var y := if p.y > HEIGHT then 1 else if p.y < 1 then HEIGHT else p.y;
    Point(x, y)
  }

  /** The cell the head moves into: one step along `d`, then wrapped. */
  function NextHead(head: Point, d: Direction): (q: Point)
    ensures InPlayfield(q)
  {
    Wrap(Add(head, Offset(d)))
  }

  /** From a cell of the playfield, the wrap is movement modulo the grid:
      the column modulo WIDTH and the row modulo HEIGHT within the band. */
  lemma NextHeadIsModular(head: Point, d: Direction)
    requires InPlayfield(head)
    ensures NextHead(head, d) ==
      Point((head.x + Offset(d).x) % WIDTH, (head.y - 1 + Offset(d).y) % HEIGHT + 1)
  {
    match d
    case Up =>
      if head.y == 1 {
        assert (head.y - 1 - 1) % HEIGHT == HEIGHT - 1;
      } else {
        assert (head.y - 1 - 1) % HEIGHT == head.y - 2;
      }
    case Down =>
      if head.y == HEIGHT {
        assert (head.y - 1 + 1) % HEIGHT == 0;
      } else {
        assert (head.y - 1 + 1) % HEIGHT == head.y;
      }
    case Left =>
      if head.x == 0 {
        assert (head.x - 1) % WIDTH == WIDTH - 1;
      } else {
        assert (head.x - 1) % WIDTH == head.x - 1;
      }
    case Right =>
      if head.x == WIDTH - 1 {
        assert (head.x + 1) % WIDTH == 0;
      } else {
        assert (head.x + 1) % WIDTH == head.x + 1;
      }
  }

  /** The four edge crossings, each keeping the other coordinate. */
  lemma WrapsAtEdges(x: int, y: int)
    requires InPlayfield(Point(x, y))
    ensures x == WIDTH - 1 ==> NextHead(Point(x, y), Right) == Point(0, y)
    ensures x == 0 ==> NextHead(Point(x, y), Left) == Point(WIDTH - 1, y)
    ensures y == HEIGHT ==> NextHead(Point(x, y), Down) == Point(x, 1)
    ensures y == 1 ==> NextHead(Point(x, y), Up) == Point(x, HEIGHT)
  {
  }

  /** The head always leaves its cell: the grid is wider and taller than one cell. */
  lemma NextHeadMoves(head: Point, d: Direction)
    requires InPlayfield(head)
    ensures NextHead(head, d) != head
  {
    NextHeadIsModular(head, d);
  }
}
