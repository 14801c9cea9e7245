/** Single-tick scenarios of the catch, miss and game-over rules. */
module Scenarios {
  import opened Config
  import opened Balls
  import opened Game
  import Paddle

  /** A ball one pixel above touching the paddle, over the paddle's centre,
      is caught by the next tick: the score rises by one and the ball is
      gone. */
  lemma CatchNextTick(s: GameState)
    requires !s.gameOver && IntentOf(s) == Stay
    requires s.balls == [Ball(s.paddleX, PaddleTop - BallRadius - 1, BallRadius)]
    ensures Update(s).score == s.score + 1
    ensures Update(s).lives == s.lives
    ensures Update(s).balls == [] && !Update(s).gameOver
  {
  }

  /** A ball beside the paddle that has passed the paddle row is not
      removed; it falls on and is missed only once its top edge clears the
      floor, costing one life. */
  lemma MissOnlyBelowFloor(s: GameState)
    requires !s.gameOver && IntentOf(s) == Stay && s.lives == StartLives
    requires Paddle.Right(s.paddleX) < Width - BallRadius
    requires s.balls == [Ball(Width - BallRadius, Height + BallRadius - BallFallSpeed, BallRadius)]
    ensures Update(s).balls == [Ball(Width - BallRadius, Height + BallRadius, BallRadius)]
    ensures Update(Update(s)).balls == []
    ensures Update(Update(s)).lives == s.lives - 1
    ensures Update(Update(s)).score == s.score
    ensures !Update(Update(s)).gameOver
  {
  }

  /** With one life left, a miss ends the game in that tick, but the balls
      after it in the list are still processed: a later catch still
      scores, and a later miss takes the lives below zero. */
  lemma LastLifeTick(s: GameState)
    requires !s.gameOver && IntentOf(s) == Stay && s.lives == 1
    requires Paddle.Left(s.paddleX) > BallRadius
    requires s.balls == [
      Ball(BallRadius, Height + BallRadius, BallRadius),
      Ball(s.paddleX, PaddleTop - BallRadius, BallRadius),
      Ball(BallRadius, Height + BallRadius, BallRadius)]
    ensures Update(s).gameOver
    ensures Update(s).score == s.score + 1
    ensures Update(s).lives == -1
    ensures Update(s).balls == []
  {
    var px := s.paddleX;
    assert Update(s).paddleX == px;
    assert Classify(Fall(s.balls[0]), px) == Missed;
    assert Classify(Fall(s.balls[1]), px) == Caught;
    assert Classify(Fall(s.balls[2]), px) == Missed;
    assert s.balls[1..][1..] == [s.balls[2]];
    assert Count([s.balls[2]], px, Caught) == 0;
    assert Count(s.balls[1..], px, Caught) == 1;
    assert Count(s.balls[1..], px, Missed) == 1;
  }
}
