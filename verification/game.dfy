/** The game state and the operations the game applies to it: key input,
    spawning, the per-tick update, and the restart. */
module Game {
  import opened Config
  import Paddle
  import opened Balls

  /** Everything the game logic reads or writes. */
  datatype GameState = GameState(
    paddleX: int,
    moveLeft: bool,
    moveRight: bool,
    score: int,
    lives: int,
    balls: seq<Ball>,
    gameOver: bool)

  /** The state a game starts from. */
  const Initial: GameState := GameState(Width / 2, false, false, 0, StartLives, [], false)

  // ---------------------------------------------------------------- input

  /** The direction a tick moves the paddle in. */
  datatype Intent = GoLeft | GoRight | Stay

  /** The left flag is read first, so it wins if both are set. */
  function IntentOf(s: GameState): Intent {
    if s.moveLeft then GoLeft else if s.moveRight then GoRight else Stay
  }

  /** The paddle's horizontal move for this tick. */
  function DeltaX(s: GameState): (dx: int)
    ensures dx == -PaddleSpeed <==> s.moveLeft
    ensures dx == PaddleSpeed <==> !s.moveLeft && s.moveRight
    ensures dx == 0 <==> !s.moveLeft && !s.moveRight
  {
    match IntentOf(s)
    case GoLeft => -PaddleSpeed
    case GoRight => PaddleSpeed
    case Stay => 0
  }

  /** The intent `dir` asks for: -1 left, 1 right, anything else stop. */
  function IntentOfDir(dir: int): Intent {
    if dir == -1 then GoLeft else if dir == 1 then GoRight else Stay
  }

  /** Overwrite both flags, so the last key wins and a stop clears both. */
  function SetMove(s: GameState, dir: int): (s': GameState)
    ensures !(s'.moveLeft && s'.moveRight)
    ensures IntentOf(s') == IntentOfDir(dir)
    ensures s'.(moveLeft := s.moveLeft, moveRight := s.moveRight) == s
  {
    if dir == -1 then s.(moveLeft := true, moveRight := false)
    else if dir == 1 then s.(moveLeft := false, moveRight := true)
    else s.(moveLeft := false, moveRight := false)
  }

  datatype Key = LeftArrow | RightArrow
  datatype KeyEvent = Press(key: Key) | Release(key: Key)

  /** The argument each key binding passes to SetMove. */
  function Direction(e: KeyEvent): (dir: int)
    ensures e.Release? ==> IntentOfDir(dir) == Stay
    ensures e == Press(LeftArrow) ==> IntentOfDir(dir) == GoLeft
    ensures e == Press(RightArrow) ==> IntentOfDir(dir) == GoRight
  {
    match e
    case Press(LeftArrow) => -1
    case Press(RightArrow) => 1
    case Release(_) => 0
  }

  /** Key events handled in order. */
  function HandleKeys(s: GameState, es: seq<KeyEvent>): GameState
    decreases |es|
  {
    if |es| == 0 then s else HandleKeys(SetMove(s, Direction(es[0])), es[1..])
  }

  /** Only the most recent key event decides the paddle's intent: a press
      selects its direction, a release of either key stops the paddle.
      Key events change nothing but the two flags. */
  lemma {:induction false} LastKeyWins(s: GameState, es: seq<KeyEvent>)
    requires |es| > 0
    ensures IntentOf(HandleKeys(s, es)) == IntentOfDir(Direction(es[|es| - 1]))
    ensures !(HandleKeys(s, es).moveLeft && HandleKeys(s, es).moveRight)
    ensures HandleKeys(s, es).(moveLeft := s.moveLeft, moveRight := s.moveRight) == s
    decreases |es|
  {
    var s' := SetMove(s, Direction(es[0]));
    if |es| > 1 {
      LastKeyWins(s', es[1..]);
      assert es[1..][|es[1..]| - 1] == es[|es| - 1];
    }
  }

  // ---------------------------------------------------------------- spawning

  /** The ball a spawn creates at horizontal position `x`: just above the
      visible area. */
  function NewBall(x: int): Ball {
    Ball(x, -BallRadius, BallRadius)
  }

  /** Append one new ball unless the game is over. `x` is the random spawn
      position, drawn from [BallRadius, Width - BallRadius]. */
  function Spawn(s: GameState, x: int): (s': GameState)
    requires BallRadius <= x <= Width - BallRadius
    ensures s.gameOver ==> s' == s
    ensures !s.gameOver ==>
      && |s'.balls| == |s.balls| + 1
      && s'.balls[..|s.balls|] == s.balls
      && s'.balls[|s.balls|] == NewBall(x)
      && s'.(balls := s.balls) == s
    // the new ball lies wholly inside the play area horizontally, with its bottom edge on the top border
    ensures !s.gameOver ==> var b := s'.balls[|s.balls|];
      0 <= b.x - b.r && b.x + b.r <= Width && b.y + b.r == 0
  {
    if s.gameOver then s
    else s.(balls := s.balls + [NewBall(x)])
  }

  // ---------------------------------------------------------------- update

  /** One tick: move the paddle, then drop and classify every ball against
      the moved paddle. Nothing happens once the game is over. */
  function Update(s: GameState): (s': GameState)
    ensures s.gameOver ==> s' == s
    ensures !s.gameOver ==>
      && s'.paddleX == Paddle.Step(s.paddleX, DeltaX(s))
      && s'.score == s.score + Count(s.balls, s'.paddleX, Caught)
      && s'.lives == s.lives - Count(s.balls, s'.paddleX, Missed)
      && s'.balls == Survivors(s.balls, s'.paddleX)
      && (s'.gameOver <==> Count(s.balls, s'.paddleX, Missed) > 0 && s'.lives <= 0)
      && s'.moveLeft == s.moveLeft && s'.moveRight == s.moveRight
  {
    if s.gameOver then s
    else
      var px := Paddle.Step(s.paddleX, DeltaX(s));
      var t := Sweep(Tally(s.score, s.lives, false, []), s.balls, px);
      SweepEndsGame(Tally(s.score, s.lives, false, []), s.balls, px);
      s.(paddleX := px, score := t.score, lives := t.lives, balls := t.kept, gameOver := t.gameOver)
  }

  /** While the game runs, a tick never lowers the score nor raises the
      lives, and each ball is caught, missed or kept. */
  lemma UpdateAccounting(s: GameState)
    requires !s.gameOver
    ensures Update(s).score >= s.score
    ensures Update(s).lives <= s.lives
    ensures (Update(s).score - s.score) + (s.lives - Update(s).lives) + |Update(s).balls| == |s.balls|
  {
    OutcomesPartition(s.balls, Update(s).paddleX);
  }

  /** `s` and `t` differ at most in the order of their balls. */
  predicate SameUpToBallOrder(s: GameState, t: GameState) {
    && s.paddleX == t.paddleX && s.moveLeft == t.moveLeft && s.moveRight == t.moveRight
    && s.score == t.score && s.lives == t.lives && s.gameOver == t.gameOver
    && multiset(s.balls) == multiset(t.balls)
  }

  /** Reordering the balls changes neither the score, the lives, the
      game-over flag nor the paddle after a tick, and the same balls (as a
      multiset) stay in play. */
  lemma UpdateOrderIndependent(s: GameState, t: GameState)
    requires SameUpToBallOrder(s, t)
    ensures SameUpToBallOrder(Update(s), Update(t))
  {
    if !s.gameOver {
      var px := Update(s).paddleX;
      CountOrderIndependent(s.balls, t.balls, px, Caught);
      CountOrderIndependent(s.balls, t.balls, px, Missed);
      SurvivorsOrderIndependent(s.balls, t.balls, px);
    }
  }

  // ---------------------------------------------------------------- restart

  /** The state reset of a restart: a fresh game, except that the key
      flags are left as they were. */
  function Reset(s: GameState): (s': GameState)
    ensures s'.paddleX == Width / 2 && s'.score == 0 && s'.lives == StartLives
    ensures s'.balls == [] && !s'.gameOver
    ensures s'.moveLeft == s.moveLeft && s'.moveRight == s.moveRight
  {
    Initial.(moveLeft := s.moveLeft, moveRight := s.moveRight)
  }

  /** A restart resets the state and then runs one tick at once. With no
      balls that tick only moves the paddle, and from the centre it never
      reaches a border, so the restart leaves a running game with a fresh
      score and lives and the paddle one step from the centre in the held
      direction. */
  function Restart(s: GameState): (s': GameState)
    ensures s'.score == 0 && s'.lives == StartLives && s'.balls == [] && !s'.gameOver
    ensures s'.paddleX == Width / 2 + DeltaX(s)
    ensures s'.moveLeft == s.moveLeft && s'.moveRight == s.moveRight
  {
    Update(Reset(s))
  }

  /** The tick run when a game is first created leaves the initial state
      as it is. */
  lemma FirstTickIsIdle()
    ensures Update(Initial) == Initial
  {
  }
}
