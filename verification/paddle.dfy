/** The paddle, represented by the x of its centre; its edges are
    `px - HalfPaddle` and `px + HalfPaddle`. */
module Paddle {
  import opened Config

  function Left(px: int): int { px - HalfPaddle }

  function Right(px: int): int { px + HalfPaddle }

  /** The whole paddle lies inside the play area [0, Width]. */
  predicate InBounds(px: int) {
    0 <= Left(px) && Right(px) <= Width
  }

  function Dist(a: int, b: int): nat {
    if a <= b then b - a else a - b
  }

  /** Reference definition: the admissible centre nearest to `v`. */
  function Nearest(v: int): int {
    if v < HalfPaddle then HalfPaddle
    else if v > Width - HalfPaddle then Width - HalfPaddle
    else v
  }

  /** One paddle step of a tick: move by `dx`, then push the paddle back by
      exactly its overshoot past either side. As in the game, the right edge
      is read before the left correction is applied, and nothing is
      corrected when `dx` is 0. */
  function Step(px: int, dx: int): (r: int)
    ensures dx == 0 ==> r == px
    ensures dx != 0 ==> InBounds(r) && r == Nearest(px + dx)
    ensures InBounds(px) ==> InBounds(r)
    // the correction is the smallest shift that brings the paddle back in
    ensures dx != 0 ==> forall q {:trigger InBounds(q)} :: InBounds(q) ==> Dist(r, px + dx) <= Dist(q, px + dx)
  {
    if dx == 0 then px
    else
      var moved := px + dx;
      var left := Left(moved);
      var right := Right(moved);
      var afterLeft := if left < 0 then moved + -left else moved;
      if right > Width then afterLeft + (Width - right) else afterLeft
  }

  /** Starting from the centre and moving in steps of PaddleSpeed, the
      paddle stays on the grid `Width / 2 + k * PaddleSpeed`; both clamp
      positions lie on that grid too. */
  lemma StepKeepsGrid(px: int, dx: int)
    requires px % PaddleSpeed == (Width / 2) % PaddleSpeed
    requires dx == -PaddleSpeed || dx == 0 || dx == PaddleSpeed
    ensures Step(px, dx) % PaddleSpeed == (Width / 2) % PaddleSpeed
  {
  }
}
