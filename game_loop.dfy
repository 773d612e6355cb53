/** The `'game` loop of `main`: each iteration polls the channel once,
    dispatches at most one key, then ticks; the loop ends on a collision, on
    Escape, or when the channel is disconnected. Each iteration is given as a
    `Round`: what `try_recv` returned, and the point `random_point` would
    return should that iteration's tick eat the apple. */
module GameLoop {
  import opened Directions
  import opened Grid
  import opened Input
  import opened SnakeState
  import opened Engine

  /** The outcome of `try_recv` on the key channel. */
  datatype Poll = Received(key: Key) | Empty | Disconnected

  /** The inputs of one loop iteration. */
  datatype Round = Round(poll: Poll, draw: Point)

  /** What a received key asks the loop to do. */
  datatype Command = Rotate(dir: Direction) | Quit | Ignore

  /** The game's state between iterations (`Running`) or when the loop has
      exited (`GameOver`); the score printed at exit is `game.score`. */
  datatype Outcome = Running(game: Game) | GameOver(game: Game)

  /** The key match of the loop: D and Left turn left, J and Right turn
      right, Escape quits, every other key is ignored. */
  function Dispatch(k: Key): (c: Command)
    ensures c.Rotate? ==> c.dir == Left || c.dir == Right
    ensures c == Quit <==> k == KEY_ESC
  {
    if k == KEY_D || k == KEY_LEFT then Rotate(Left)
    else if k == KEY_J || k == KEY_RIGHT then Rotate(Right)
    else if k == KEY_ESC then Quit
    else Ignore
  }

  predicate DrawsInPlayfield(rounds: seq<Round>) {
    forall i :: 0 <= i < |rounds| ==> InPlayfield(rounds[i].draw)
  }

  /** The tick at the end of an iteration, and whether the loop goes on. */
  function TickStep(g: Game, draw: Point): (o: Outcome)
    requires Inv(g) && InPlayfield(draw)
    ensures Inv(o.game)
  {
    AdvancePreservesInv(g, draw);
    var r := Advance(g, draw);
    if r.alive then Running(r.state) else GameOver(r.state)
  }

  /** One iteration of the loop. */
  function Iteration(g: Game, round: Round): (o: Outcome)
    requires Inv(g) && InPlayfield(round.draw)
    ensures Inv(o.game)
    ensures o.game.tick <= g.tick && o.game.score >= g.score
  {
    AdvancePreservesInv(g, round.draw);
    match round.poll
    case Disconnected => GameOver(g)
    case Empty => TickStep(g, round.draw)
    case Received(k) =>
      match Dispatch(k)
      case Quit => GameOver(g)
      case Ignore => TickStep(g, round.draw)
      case Rotate(d) =>
        AdvancePreservesInv(Steer(g, d), round.draw);
        TickStep(Steer(g, d), round.draw)
  }

  /** The loop run over a finite sequence of iterations: it stops at the
      first iteration that ends the game, or when the rounds run out. */
  function Rounds(g: Game, rounds: seq<Round>): (o: Outcome)
    requires Inv(g) && DrawsInPlayfield(rounds)
    ensures Inv(o.game)
    ensures o.game.tick <= g.tick && o.game.score >= g.score
    decreases |rounds|
  {
    if rounds == [] then Running(g)
    else
      match Iteration(g, rounds[0])
      case GameOver(h) => GameOver(h)
      case Running(h) => Rounds(h, rounds[1..])
  }

  /** Escape and a disconnected channel end the game before any tick, so
      the final state is the state the iteration began with. */
  lemma QuitEndsWithoutTick(g: Game, round: Round)
    requires Inv(g) && InPlayfield(round.draw)
    requires round.poll == Disconnected || round.poll == Received(KEY_ESC)
    ensures Iteration(g, round) == GameOver(g)
  {
  }

  /** A turn key turns before the tick of the same iteration; an Empty poll
      and an ignored key tick straight away. */
  lemma TurnPrecedesTick(g: Game, round: Round)
    requires Inv(g) && InPlayfield(round.draw)
    ensures round.poll.Received? && (round.poll.key == KEY_D || round.poll.key == KEY_LEFT) ==>
      Iteration(g, round) == TickStep(Steer(g, Left), round.draw)
    ensures round.poll.Received? && (round.poll.key == KEY_J || round.poll.key == KEY_RIGHT) ==>
      Iteration(g, round) == TickStep(Steer(g, Right), round.draw)
    ensures round.poll == Empty || (round.poll.Received? && Dispatch(round.poll.key) == Ignore) ==>
      Iteration(g, round) == TickStep(g, round.draw)
  {
  }

  /** The heading the iteration's tick moves along. */
  function HeadingFor(g: Game, poll: Poll): Direction {
    if poll.Received? && Dispatch(poll.key).Rotate? then Turned(g.direction, Dispatch(poll.key).dir)
    else g.direction
  }

  /** An iteration ends the game exactly when it quits or its tick collides. */
  lemma IterationEndsIff(g: Game, round: Round)
    requires Inv(g) && InPlayfield(round.draw)
    ensures Iteration(g, round).GameOver? <==>
      || round.poll == Disconnected
      || round.poll == Received(KEY_ESC)
      || NextHead(g.body[0], HeadingFor(g, round.poll)) in g.body
  {
  }

  /** Once the game is over it stays over: running more rounds after a
      game-ending prefix changes nothing, and otherwise the later rounds
      continue from where the prefix left the game. */
  lemma {:induction false} RoundsAppend(g: Game, a: seq<Round>, b: seq<Round>)
    requires Inv(g) && DrawsInPlayfield(a) && DrawsInPlayfield(b)
    ensures DrawsInPlayfield(a + b)
    ensures Rounds(g, a + b) ==
      match Rounds(g, a)
      case GameOver(h) => GameOver(h)
      case Running(h) => Rounds(h, b)
    decreases |a|
  {
    assert DrawsInPlayfield(a + b) by {
      forall i | 0 <= i < |a + b| ensures InPlayfield((a + b)[i].draw) {
        if i >= |a| { assert (a + b)[i] == b[i - |a|]; }
      }
    }
    if a == [] {
      assert a + b == b;
    } else {
      assert (a + b)[0] == a[0];
      assert (a + b)[1..] == a[1..] + b;
      match Iteration(g, a[0])
      case GameOver(h) =>
      case Running(h) =>
        RoundsAppend(h, a[1..], b);
    }
  }

  /** The `'game` loop of `main`, from `SnakeGame::new` to the exit: the
      state it leaves is the one `Rounds` gives. */
  method RunGame(firstApple: Point, rounds: seq<Round>) returns (o: Outcome)
    requires InPlayfield(firstApple) && DrawsInPlayfield(rounds)
    ensures o == Rounds(Initial(firstApple), rounds)
    ensures Inv(o.game)
  {
    var game := new SnakeGame(firstApple);
    var i := 0;
    var over := false;
    while i < |rounds|
      invariant 0 <= i <= |rounds|
      invariant game.Valid()
      invariant !over
      invariant Rounds(Initial(firstApple), rounds) == Rounds(game.State(), rounds[i..])
    {
      var round := rounds[i];
      assert rounds[i..][0] == round && rounds[i..][1..] == rounds[i + 1..];
      match round.poll {
        case Disconnected =>
          over := true;
        case Empty =>
        case Received(k) =>
          match Dispatch(k) {
            case Rotate(d) => game.Turn(d);
            case Quit => over := true;
            case Ignore =>
          }
      }
      if over {
        break;
      }
      var alive := game.Tick(round.draw);
      if !alive {
        over := true;
        break;
      }
      i := i + 1;
    }
    o := if over then GameOver(game.State()) else Running(game.State());
  }
}
