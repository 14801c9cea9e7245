/** Facts about every state the game can reach: the bounds the paddle and
    the balls stay in, the score and lives bookkeeping, and the terminal
    game-over state. A run is a sequence of the events the game reacts to. */
module Invariants {
  import opened Config
  import Paddle
  import opened Balls
  import opened Game

  /** A ball as spawned and dropped by the game: the standard radius, wholly
      inside the play area horizontally, on the fall-speed grid vertically,
      and not yet clear of the floor. */
  predicate WellFormedBall(b: Ball) {
    && b.r == BallRadius
    && BallRadius <= b.x <= Width - BallRadius
    && b.y % BallFallSpeed == 0
    && -BallRadius <= b.y
    && b.y - b.r <= Height
  }

  /** The invariant of every reachable game state. */
  predicate Inv(s: GameState) {
    && Paddle.InBounds(s.paddleX)
    && s.paddleX % PaddleSpeed == (Width / 2) % PaddleSpeed
    && !(s.moveLeft && s.moveRight)
    && s.score >= 0
    && s.lives <= StartLives
    && (s.gameOver <==> s.lives <= 0)
    && forall b :: b in s.balls ==> WellFormedBall(b)
  }

  lemma InitialInv()
    ensures Inv(Initial)
  {
  }

  lemma SetMoveInv(s: GameState, dir: int)
    requires Inv(s)
    ensures Inv(SetMove(s, dir))
  {
  }

  lemma SpawnInv(s: GameState, x: int)
    requires Inv(s)
    requires BallRadius <= x <= Width - BallRadius
    ensures Inv(Spawn(s, x))
  {
  }

  /** The balls kept by a tick are the kept balls' fallen selves, so they
      keep their shape. */
  lemma {:induction false} SurvivorsWellFormed(balls: seq<Ball>, px: int)
    requires forall b :: b in balls ==> WellFormedBall(b)
    ensures forall k :: k in Survivors(balls, px) ==> WellFormedBall(k)
    decreases |balls|
  {
    if |balls| > 0 {
      SurvivorsWellFormed(balls[1..], px);
      assert balls[0] in balls;
    }
  }

  lemma UpdateInv(s: GameState)
    requires Inv(s)
    ensures Inv(Update(s))
  {
    if !s.gameOver {
      var s' := Update(s);
      Paddle.StepKeepsGrid(s.paddleX, DeltaX(s));
      SurvivorsWellFormed(s.balls, s'.paddleX);
    }
  }

  lemma RestartInv(s: GameState)
    requires Inv(s)
    ensures Inv(Restart(s))
  {
  }

  // ---------------------------------------------------------------- runs

  /** What the game reacts to: a key event, a frame tick, a spawn at a
      drawn position, or the restart key. */
  datatype Event = KeyInput(e: KeyEvent) | Tick | SpawnAt(x: int) | RestartKey

  /** The game state together with whether the restart key is bound; the
      binding is made by the first game over and never removed. */
  datatype Session = Session(game: GameState, restartBound: bool)

  /** A freshly created game, after the tick its construction runs. */
  const Start: Session := Session(Update(Initial), false)

  predicate ValidEvent(ev: Event) {
    ev.SpawnAt? ==> BallRadius <= ev.x <= Width - BallRadius
  }

  /** How the game reacts to one event. The restart key does nothing until
      the binding exists; a tick that ends the game creates the binding,
      and nothing removes it. */
  function Apply(ss: Session, ev: Event): (r: Session)
    requires ValidEvent(ev)
    ensures ss.restartBound ==> r.restartBound
    ensures !ss.restartBound ==> (r.restartBound <==> ev.Tick? && !ss.game.gameOver && r.game.gameOver)
    ensures ev.RestartKey? && !ss.restartBound ==> r == ss
    ensures ev.RestartKey? && ss.restartBound ==> r.game.score == 0 && r.game.lives == StartLives && !r.game.gameOver
    // only a tick can end the game
    ensures !ss.game.gameOver && r.game.gameOver ==> ev.Tick?
    // key events change nothing but the two movement flags
    ensures ev.KeyInput? ==> r.game.(moveLeft := ss.game.moveLeft, moveRight := ss.game.moveRight) == ss.game
  {
    match ev
    case KeyInput(e) => ss.(game := SetMove(ss.game, Direction(e)))
    case Tick =>
      var g := Update(ss.game);
      Session(g, ss.restartBound || (!ss.game.gameOver && g.gameOver))
    case SpawnAt(x) => ss.(game := Spawn(ss.game, x))
    case RestartKey => if ss.restartBound then ss.(game := Restart(ss.game)) else ss
  }

  function Run(ss: Session, evs: seq<Event>): Session
    requires forall i :: 0 <= i < |evs| ==> ValidEvent(evs[i])
    decreases |evs|
  {
    if |evs| == 0 then ss else Run(Apply(ss, evs[0]), evs[1..])
  }

  predicate SessionInv(ss: Session) {
    Inv(ss.game) && (ss.game.gameOver ==> ss.restartBound)
  }

  lemma ApplyInv(ss: Session, ev: Event)
    requires SessionInv(ss) && ValidEvent(ev)
    ensures SessionInv(Apply(ss, ev))
  {
    match ev
    case KeyInput(e) => SetMoveInv(ss.game, Direction(e));
    case Tick => UpdateInv(ss.game);
    case SpawnAt(x) => SpawnInv(ss.game, x);
    case RestartKey => if ss.restartBound { RestartInv(ss.game); }
  }

  lemma {:induction false} RunInv(ss: Session, evs: seq<Event>)
    requires SessionInv(ss)
    requires forall i :: 0 <= i < |evs| ==> ValidEvent(evs[i])
    ensures SessionInv(Run(ss, evs))
    decreases |evs|
  {
    if |evs| > 0 {
      ApplyInv(ss, evs[0]);
      RunInv(Apply(ss, evs[0]), evs[1..]);
    }
  }

  /** In every state a game reaches: the paddle lies inside the play area,
      the score is never negative, lives never exceed the start value, the
      game is over exactly when lives are used up, and a game that is over
      can be restarted. */
  lemma Reachable(evs: seq<Event>)
    requires forall i :: 0 <= i < |evs| ==> ValidEvent(evs[i])
    ensures var g := Run(Start, evs).game;
      && HalfPaddle <= g.paddleX <= Width - HalfPaddle
      && g.score >= 0
      && g.lives <= StartLives
      && (g.gameOver <==> g.lives <= 0)
      && (g.gameOver ==> Run(Start, evs).restartBound)
  {
    FirstTickIsIdle();
    InitialInv();
    RunInv(Start, evs);
  }

  /** Once the game is over, nothing but the restart key changes the score,
      the lives, the balls or the paddle; key events still update the two
      flags, and the restart key stays bound. */
  lemma {:induction false} GameOverIsTerminal(ss: Session, evs: seq<Event>)
    requires ss.game.gameOver
    requires forall i :: 0 <= i < |evs| ==> ValidEvent(evs[i]) && !evs[i].RestartKey?
    ensures var g := Run(ss, evs).game;
      g.(moveLeft := ss.game.moveLeft, moveRight := ss.game.moveRight) == ss.game
    ensures Run(ss, evs).restartBound == ss.restartBound
    decreases |evs|
  {
    if |evs| > 0 {
      GameOverIsTerminal(Apply(ss, evs[0]), evs[1..]);
    }
  }
}
