/** The game state of the snake as a value, and the transitions `new`, `turn`
    and `tick` as functions on it. The class in module Engine is proved to
    follow these functions; the lemmas here state what they guarantee. */
module SnakeState {
  import opened Directions
  import opened Grid

  /** Initial tick interval in milliseconds. */
  const TICK: nat := 600
  /** Floor of the tick interval in milliseconds. */
  const MIN_TICK: nat := 90
  /** Amount the tick interval shrinks per apple eaten. */
  const TICK_STEP: nat := 25
  /** Length of the snake when a game starts. */
  const START_LENGTH: nat := 3

  /** `SnakeGame`: the body (head first, tail last), the heading, the apple,
      the score and the tick interval. */
  datatype Game = Game(body: seq<Point>, direction: Direction, apple: Point, score: nat, tick: nat)

  /** What `tick` returns (`alive`) together with the state it leaves behind. */
  datatype TickResult = TickResult(alive: bool, state: Game)

  function Max(a: int, b: int): (m: int)
    ensures m >= a && m >= b && (m == a || m == b)
  {
    if a >= b then a else b
  }

  /** No cell occurs twice. */
  predicate Distinct<T(==)>(s: seq<T>) {
    forall i, j :: 0 <= i < j < |s| ==> s[i] != s[j]
  }

  /** The tick interval after `score` apples: 25 ms less per apple, never below 90 ms. */
  function Interval(score: nat): (t: nat)
    ensures MIN_TICK <= t <= TICK
    ensures score == 0 ==> t == TICK
  {
    Max(TICK - TICK_STEP * score, MIN_TICK)
  }

  /** What holds of every state a game can be in. */
  predicate Inv(g: Game) {
    && |g.body| == START_LENGTH + g.score
    && Distinct(g.body)
    && (forall i :: 0 <= i < |g.body| ==> InPlayfield(g.body[i]))
    && InPlayfield(g.apple)
    && g.tick == Interval(g.score)
  }

  /** `SnakeGame::new` with `draw` the point `random_point` returns. */
  function Initial(draw: Point): (g: Game)
    requires InPlayfield(draw)
    ensures Inv(g)
    ensures g.body == [Point(10, 5), Point(9, 5), Point(8, 5)]
    ensures g.direction == Right && g.apple == draw && g.score == 0 && g.tick == TICK
  {
    Game([Point(10, 5), Point(9, 5), Point(8, 5)], Right, draw, 0, TICK)
  }

  /** `SnakeGame::turn`. */
  function Steer(g: Game, dir: Direction): (r: Game)
    ensures Inv(r) <==> Inv(g)
    ensures r.body == g.body && r.apple == g.apple && r.score == g.score && r.tick == g.tick
  {
    g.(direction := Turned(g.direction, dir))
  }

  /** `SnakeGame::set_dir`. */
  function SetDirection(g: Game, dir: Direction): (r: Game)
    ensures Inv(r) <==> Inv(g)
    ensures r.body == g.body && r.apple == g.apple && r.score == g.score && r.tick == g.tick
  {
    g.(direction := dir)
  }

  /** `SnakeGame::tick`, with `draw` the point `random_point` would return if
      the apple is eaten. The body must be non-empty (`front().unwrap()`), and
      on the eating path (no collision, head on the apple) the unsigned
      subtraction `tick - 25` must not underflow. */
  function Advance(g: Game, draw: Point): (r: TickResult)
    requires g.body != []
    requires g.body[0] == g.apple && NextHead(g.body[0], g.direction) !in g.body ==> g.tick >= TICK_STEP
    ensures !r.alive <==> NextHead(g.body[0], g.direction) in g.body
    ensures !r.alive ==> r.state == g
    ensures r.state.direction == g.direction
    ensures r.alive ==> r.state.body != [] && r.state.body[0] == NextHead(g.body[0], g.direction)
    ensures r.alive && g.body[0] != g.apple ==>
      && |r.state.body| == |g.body|
      && r.state.body[1..] == g.body[..|g.body| - 1]
      && r.state.apple == g.apple && r.state.score == g.score && r.state.tick == g.tick
    ensures r.alive && g.body[0] == g.apple ==>
      && |r.state.body| == |g.body| + 1
      && r.state.body[1..] == g.body
      && r.state.score == g.score + 1
      && r.state.tick == Max(g.tick - TICK_STEP, MIN_TICK)
      && r.state.apple == draw
  {
    var head := NextHead(g.body[0], g.direction);
    if head in g.body then
      TickResult(false, g)
    else if g.body[0] == g.apple then
      TickResult(true, g.(body := [head] + g.body, apple := draw, score := g.score + 1,
                          tick := Max(g.tick - TICK_STEP, MIN_TICK)))
    else
      TickResult(true, g.(body := [head] + g.body[..|g.body| - 1]))
  }

  /** A state that satisfies the invariant can always be ticked, and its
      interval stays well above the step, so `tick - 25` cannot underflow. */
  lemma InvBounds(g: Game)
    requires Inv(g)
    ensures |g.body| >= START_LENGTH
    ensures MIN_TICK <= g.tick <= TICK
    ensures g.tick - TICK_STEP >= 0
    ensures g.score <= WIDTH * HEIGHT - START_LENGTH
  {
    BodyFitsGrid(g.body);
  }

  /** The game is over exactly when the new head hits a cell of the body,
      the tail cell that is about to be vacated included; then nothing at
      all changes. */
  lemma CollisionChangesNothing(g: Game, draw: Point)
    requires g.body != []
    requires g.body[0] == g.apple && NextHead(g.body[0], g.direction) !in g.body ==> g.tick >= TICK_STEP
    ensures !Advance(g, draw).alive <==> NextHead(g.body[0], g.direction) in g.body
    ensures !Advance(g, draw).alive ==> Advance(g, draw).state == g
  {
  }

  /** Without eating (the head before the move is not on the apple) the body
      shifts: the new head in front, the old tail gone, the length kept, and
      apple, score and interval untouched. */
  lemma ShiftKeepsLength(g: Game, draw: Point)
    requires g.body != []
    requires NextHead(g.body[0], g.direction) !in g.body
    requires g.body[0] != g.apple
    ensures var r := Advance(g, draw);
      && r.alive
      && |r.state.body| == |g.body|
      && r.state.body[0] == NextHead(g.body[0], g.direction)
      && r.state.body[1..] == g.body[..|g.body| - 1]
      && r.state.apple == g.apple && r.state.score == g.score && r.state.tick == g.tick
      && r.state.direction == g.direction
  {
    var r := Advance(g, draw);
    assert r.state.body == [NextHead(g.body[0], g.direction)] + g.body[..|g.body| - 1];
  }

  /** Eating (the head before the move is on the apple) grows the body by
      one, adds exactly one to the score, shortens the interval by one step
      down to the floor and puts the apple on the drawn point. */
  lemma EatingGrowsByOne(g: Game, draw: Point)
    requires g.body != []
    requires NextHead(g.body[0], g.direction) !in g.body
    requires g.body[0] == g.apple && g.tick >= TICK_STEP
    ensures var r := Advance(g, draw);
      && r.alive
      && |r.state.body| == |g.body| + 1
      && r.state.body[0] == NextHead(g.body[0], g.direction)
      && r.state.body[1..] == g.body
      && r.state.score == g.score + 1
      && r.state.tick == Max(g.tick - TICK_STEP, MIN_TICK)
      && r.state.apple == draw
      && r.state.direction == g.direction
  {
    var r := Advance(g, draw);
    assert r.state.body == [NextHead(g.body[0], g.direction)] + g.body;
  }

  /** Putting a new cell in front of a body that does not hold it keeps the
      cells distinct. */
  lemma PushFrontDistinct(head: Point, s: seq<Point>)
    requires Distinct(s) && head !in s
    ensures Distinct([head] + s)
  {
    var t := [head] + s;
    forall i, j | 0 <= i < j < |t| ensures t[i] != t[j] {
      if i == 0 {
        assert t[j] == s[j - 1];
      } else {
        assert t[i] == s[i - 1] && t[j] == s[j - 1];
      }
    }
  }

  /** Every successful tick keeps the invariant, never raises the interval
      and never lowers the score; a failed tick leaves the state as it was. */
  lemma AdvancePreservesInv(g: Game, draw: Point)
    requires Inv(g) && InPlayfield(draw)
    ensures Inv(Advance(g, draw).state)
    ensures Advance(g, draw).state.tick <= g.tick
    ensures Advance(g, draw).state.score >= g.score
  {
    var head := NextHead(g.body[0], g.direction);
    var r := Advance(g, draw);
    if head !in g.body {
      if g.body[0] == g.apple {
        PushFrontDistinct(head, g.body);
        assert r.state.body == [head] + g.body;
        assert Max(TICK - TICK_STEP * g.score - TICK_STEP, MIN_TICK) == Interval(g.score + 1);
      } else {
        var rest := g.body[..|g.body| - 1];
        assert Distinct(rest) by {
          forall i, j | 0 <= i < j < |rest| ensures rest[i] != rest[j] {
            assert rest[i] == g.body[i] && rest[j] == g.body[j];
          }
        }
        assert head !in rest by {
          forall i | 0 <= i < |rest| ensures rest[i] != head {
            assert rest[i] == g.body[i];
          }
        }
        PushFrontDistinct(head, rest);
        assert r.state.body == [head] + rest;
      }
    }
  }

  // ---------------------------------------------------------------------------
  // The body never outgrows the grid (a pigeonhole argument over cell numbers).

  /** Row-major number of a playfield cell, from 0 to WIDTH * HEIGHT - 1. */
  function CellIndex(p: Point): (n: int)
    requires InPlayfield(p)
    ensures 0 <= n < WIDTH * HEIGHT
  {
    (p.y - 1) * WIDTH + p.x
  }

  lemma CellIndexInjective(p: Point, q: Point)
    requires InPlayfield(p) && InPlayfield(q) && p != q
    ensures CellIndex(p) != CellIndex(q)
  {
    if p.y < q.y {
      assert (q.y - 1) * WIDTH >= (p.y - 1) * WIDTH + WIDTH;
    } else if q.y < p.y {
      assert (p.y - 1) * WIDTH >= (q.y - 1) * WIDTH + WIDTH;
    }
  }

  /** Pigeonhole: distinct elements drawn from a sequence of distinct
      elements are no more numerous than it. */
  lemma {:induction false} DistinctBound<T>(s: seq<T>, bound: seq<T>)
    requires Distinct(s) && Distinct(bound)
    requires forall i :: 0 <= i < |s| ==> s[i] in bound
    ensures |s| <= |bound|
  {
    if s != [] {
      var k :| 0 <= k < |bound| && bound[k] == s[0];
      var rest := bound[..k] + bound[k + 1..];
      assert |rest| == |bound| - 1;
      assert forall a :: 0 <= a < |rest| ==> rest[a] == if a < k then bound[a] else bound[a + 1];
      forall a, b | 0 <= a < b < |rest| ensures rest[a] != rest[b] {
        var a' := if a < k then a else a + 1;
        var b' := if b < k then b else b + 1;
        assert rest[a] == bound[a'] && rest[b] == bound[b'];
      }
      var tail := s[1..];
      forall i | 0 <= i < |tail| ensures tail[i] in rest {
        var j :| 0 <= j < |bound| && bound[j] == s[i + 1];
        assert j != k;
        if j < k { assert rest[j] == tail[i]; } else { assert rest[j - 1] == tail[i]; }
      }
      DistinctBound(tail, rest);
    }
  }

  /** A body of distinct playfield cells has at most WIDTH * HEIGHT cells. */
  lemma BodyFitsGrid(body: seq<Point>)
    requires Distinct(body)
    requires forall i :: 0 <= i < |body| ==> InPlayfield(body[i])
    ensures |body| <= WIDTH * HEIGHT
  {
    var cells := seq(|body|, i requires 0 <= i < |body| => CellIndex(body[i]));
    forall i, j | 0 <= i < j < |cells| ensures cells[i] != cells[j] {
      CellIndexInjective(body[i], body[j]);
    }
    var all := seq(WIDTH * HEIGHT, i => i);
    forall i | 0 <= i < |cells| ensures cells[i] in all {
      assert all[cells[i]] == cells[i];
    }
    DistinctBound(cells, all);
  }

  // ---------------------------------------------------------------------------
  // Scenarios.

  /** With the apple one cell ahead of the starting head, the first tick only
      moves the head onto it (eating looks at the head before the move) and
      the second tick eats: score 1, four cells, the interval one step shorter. */
  lemma EatIsDetectedOneTickLate(draw1: Point, draw2: Point)
    requires InPlayfield(draw1) && InPlayfield(draw2)
    ensures var g0 := Initial(Point(11, 5));
      var r1 := Advance(g0, draw1);
      && r1.alive && r1.state.score == 0 && |r1.state.body| == 3
      && r1.state.body[0] == g0.apple
      && var r2 := Advance(r1.state, draw2);
      && r2.alive && r2.state.score == 1 && |r2.state.body| == 4
      && r2.state.tick == TICK - TICK_STEP && r2.state.apple == draw2
  {
    var g0 := Initial(Point(11, 5));
    assert NextHead(g0.body[0], Right) == Point(11, 5);
    var r1 := Advance(g0, draw1);
    assert r1.state.body == [Point(11, 5), Point(10, 5), Point(9, 5)];
    assert NextHead(Point(11, 5), Right) == Point(12, 5);
  }

  /** The collision test also counts the tail cell that the shift would
      vacate: a four-cell snake curled into a square dies when its head moves
      onto its own tail. */
  lemma TailCellCounts(draw: Point)
    ensures var g := Game([Point(1, 1), Point(2, 1), Point(2, 2), Point(1, 2)], Down, Point(5, 5), 1, 575);
      Inv(g) && !Advance(g, draw).alive
  {
    var g := Game([Point(1, 1), Point(2, 1), Point(2, 2), Point(1, 2)], Down, Point(5, 5), 1, 575);
    assert NextHead(Point(1, 1), Down) == Point(1, 2) == g.body[3];
  }
}
