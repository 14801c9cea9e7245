/** Integer constants of the play area, the paddle and the balls.
    The game stores some of these as floats, but every value it derives
    from them (WIDTH / 2, PADDLE_WIDTH / 2) is a whole number. */
module Config {
  const Width: int := 500
  const Height: int := 400
  const PaddleWidth: int := 100
  const PaddleHeight: int := 12
  const BallRadius: int := 12
  /** Pixels a ball falls per tick. */
  const BallFallSpeed: int := 4
  /** Pixels the paddle moves per tick while a direction is held. */
  const PaddleSpeed: int := 8
  /** Gap between the paddle's bottom edge and the bottom of the play area. */
  const PaddleBottomGap: int := 30
  /** y of the paddle's top edge: the row a ball's bottom edge must reach to be caught. */
  const PaddleTop: int := Height - PaddleBottomGap - PaddleHeight
  const HalfPaddle: int := PaddleWidth / 2
  /** Lives at the start of every game. */
  const StartLives: int := 3
}
