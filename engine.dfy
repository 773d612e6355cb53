/** `SnakeGame` as an object whose methods update its fields in place. The
    body is a sequence standing for the double-ended queue: element 0 is the
    front (the head), the last element is the back (the tail). */
module Engine {
  import opened Directions
  import opened Grid
  import opened SnakeState

  class SnakeGame {
    var body: seq<Point>
    var direction: Direction
    var apple: Point
    var score: nat
    var tick: nat

    /** The fields as a value of the specification type. */
    function State(): Game
      reads this
    {
      Game(body, direction, apple, score, tick)
    }

    ghost predicate Valid()
      reads this
    {
      Inv(State())
    }

    /** `SnakeGame::new`; `draw` is what `random_point` returned. The three
        cells are pushed to the front tail-first. */
    constructor (draw: Point)
      requires InPlayfield(draw)
      ensures Valid()
      ensures State() == Initial(draw)
    {
      var head := CENTRE;
      var buffer: seq<Point> := [];
      buffer := [Sub(head, Point(2, 0))] + buffer;
      buffer := [Sub(head, Point(1, 0))] + buffer;
      buffer := [head] + buffer;
      body := buffer;
      direction := Right;
      apple := draw;
      score := 0;
      tick := TICK;
    }

    /** `SnakeGame::turn`: only the heading changes. */
    method Turn(dir: Direction)
      modifies this`direction
      ensures direction == Turned(old(direction), dir)
      ensures State() == Steer(old(State()), dir)
      ensures Valid() <==> old(Valid())
    {
      match (dir, direction) {
        case (Left, Left) => direction := Down;
        case (Left, Right) => direction := Up;
        case (Left, Up) => direction := Left;
        case (Left, Down) => direction := Right;
        case (Right, Left) => direction := Up;
        case (Right, Right) => direction := Down;
        case (Right, Up) => direction := Right;
        case (Right, Down) => direction := Left;
        case _ =>
      }
    }

    /** `SnakeGame::set_dir`: the heading is replaced outright. */
    method SetDir(dir: Direction)
      modifies this`direction
      ensures direction == dir
      ensures State() == SetDirection(old(State()), dir)
      ensures Valid() <==> old(Valid())
    {
      direction := dir;
    }

    /** `SnakeGame::tick`; `draw` is what `random_point` returns if the apple
        is eaten. Returns false, changing nothing, when the new head hits the
        body. */
    method Tick(draw: Point) returns (alive: bool)
      requires Valid() && InPlayfield(draw)
      modifies this
      ensures Valid()
      ensures TickResult(alive, State()) == Advance(old(State()), draw)
      ensures !alive ==> unchanged(this)
      ensures tick <= old(tick) && score >= old(score)
    {
      AdvancePreservesInv(State(), draw);
      var currentHead := body[0];
      var newHead := match direction
        case Up => Add(currentHead, Point(0, -1))
        case Down => Add(currentHead, Point(0, 1))
        case Left => Add(currentHead, Point(-1, 0))
        case Right => Add(currentHead, Point(1, 0));

      if newHead.x >= WIDTH {
        newHead := newHead.(x := 0);
      } else if newHead.x < 0 {
        newHead := newHead.(x := WIDTH - 1);
      }

      if newHead.y > HEIGHT {
        newHead := newHead.(y := 1);
      } else if newHead.y < 1 {
        newHead := newHead.(y := HEIGHT);
      }
      assert newHead == NextHead(currentHead, direction);

      if newHead in body {
        return false;
      }

      if currentHead == apple {
        apple := draw;
        score := score + 1;
        tick := Max(tick - TICK_STEP, MIN_TICK);
      } else {
        body := body[..|body| - 1];
      }

      body := [newHead] + body;
      return true;
    }
  }
}
