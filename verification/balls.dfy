/** Falling balls: their canvas geometry, how one tick classifies each of
    them against the paddle, and the per-tick sweep over the ball list. */
module Balls {
  import opened Config
  import Paddle

  /** A ball by its centre and radius. */
  datatype Ball = Ball(x: int, y: int, r: int)

  /** The bounding box the canvas keeps for a ball's oval. */
  datatype Box = Box(x1: int, y1: int, x2: int, y2: int)

  function BoxOf(b: Ball): Box {
    Box(b.x - b.r, b.y - b.r, b.x + b.r, b.y + b.r)
  }

  function MoveBox(bx: Box, dx: int, dy: int): Box {
    Box(bx.x1 + dx, bx.y1 + dy, bx.x2 + dx, bx.y2 + dy)
  }

  /** The centre read back from a bounding box (the midpoint of its corners). */
  function Centre(bx: Box): (int, int) {
    ((bx.x1 + bx.x2) / 2, (bx.y1 + bx.y2) / 2)
  }

  /** A ball after one tick of falling. */
  function Fall(b: Ball): Ball {
    b.(y := b.y + BallFallSpeed)
  }

  /** Moving a ball's oval down by the fall speed and reading its centre
      back gives exactly the centre of `Fall(b)`: the record view of a ball
      agrees with its canvas view. */
  lemma FallMatchesCanvas(b: Ball)
    ensures MoveBox(BoxOf(b), 0, BallFallSpeed) == BoxOf(Fall(b))
    ensures Centre(BoxOf(b)) == (b.x, b.y)
    ensures Centre(MoveBox(BoxOf(b), 0, BallFallSpeed)) == (Fall(b).x, Fall(b).y)
  {
  }

  /** What happens to a ball in a tick, judged after it has fallen. */
  datatype Outcome = Caught | Missed | Falling

  /** The ball's bottom edge has reached the paddle's top edge. */
  predicate AtPaddleRow(b: Ball) {
    b.y + b.r >= PaddleTop
  }

  /** The ball's centre lies within the paddle's span (edges included). */
  predicate OverPaddle(b: Ball, px: int) {
    Paddle.Left(px) <= b.x <= Paddle.Right(px)
  }

  /** The ball's top edge has passed below the play area. */
  predicate BelowFloor(b: Ball) {
    b.y - b.r > Height
  }

  /** The catch test runs first; only a ball that was not caught is tested
      for a miss. */
  function Classify(b: Ball, px: int): (o: Outcome)
    // caught: bottom edge at or below the paddle's top edge, centre within the paddle's edges
    ensures o == Caught <==> b.y + b.r >= PaddleTop && px - HalfPaddle <= b.x <= px + HalfPaddle
    // missed: not caught, and the top edge is below the play area
    ensures o == Missed <==> o != Caught && b.y - b.r > Height
    // everything else stays in play, including a ball past the paddle row beside the paddle
    ensures o == Falling <==> o != Caught && b.y - b.r <= Height
  {
    if AtPaddleRow(b) && OverPaddle(b, px) then Caught
    else if BelowFloor(b) then Missed
    else Falling
  }

  /** A ball that satisfies both the catch and the miss condition is caught. */
  lemma CatchBeforeMiss(b: Ball, px: int)
    requires AtPaddleRow(b) && OverPaddle(b, px) && BelowFloor(b)
    ensures Classify(b, px) == Caught
  {
  }

  /** A ball at or below the paddle row but outside its span stays in play
      until its top edge clears the floor. */
  lemma PassingThePaddleIsNotAMiss(b: Ball, px: int)
    requires AtPaddleRow(b) && !OverPaddle(b, px) && !BelowFloor(b)
    ensures Classify(b, px) == Falling
  {
  }

  /** Number of balls of `balls` whose outcome this tick, after falling,
      is `o`. */
  function Count(balls: seq<Ball>, px: int, o: Outcome): (n: nat)
    ensures n <= |balls|
    decreases |balls|
  {
    if |balls| == 0 then 0
    else Hit(balls[0], px, o) + Count(balls[1..], px, o)
  }

  /** The balls still in play after this tick, in their original order,
      each moved down by the fall speed. */
  function Survivors(balls: seq<Ball>, px: int): (kept: seq<Ball>)
    ensures |kept| == Count(balls, px, Falling)
    ensures forall k :: k in kept ==> Classify(k, px) == Falling
    ensures forall b :: b in balls && Classify(Fall(b), px) == Falling ==> Fall(b) in kept
    decreases |balls|
  {
    if |balls| == 0 then []
    else
      (if Hit(balls[0], px, Falling) == 1 then [Fall(balls[0])] else []) + Survivors(balls[1..], px)
  }

  /** Every index moved up by one. */
  function Shift(s: seq<nat>): seq<nat> {
    seq(|s|, k requires 0 <= k < |s| => s[k] + 1)
  }

  /** The positions in `balls` of the balls that stay in play this tick. */
  function SurvivorIndices(balls: seq<Ball>, px: int): seq<nat>
    decreases |balls|
  {
    if |balls| == 0 then []
    else (if Hit(balls[0], px, Falling) == 1 then [0] else []) + Shift(SurvivorIndices(balls[1..], px))
  }

  lemma {:induction false} SurvivorIndicesLength(balls: seq<Ball>, px: int)
    ensures |SurvivorIndices(balls, px)| == |Survivors(balls, px)|
    decreases |balls|
  {
    if |balls| > 0 {
      SurvivorIndicesLength(balls[1..], px);
    }
  }

  /** Survivor `k` is the fallen ball at position `SurvivorIndices(balls, px)[k]`. */
  predicate IndexMatches(balls: seq<Ball>, px: int, k: int)
    requires 0 <= k < |SurvivorIndices(balls, px)| == |Survivors(balls, px)|
  {
    var i := SurvivorIndices(balls, px)[k];
    i < |balls| && Survivors(balls, px)[k] == Fall(balls[i]) && Hit(balls[i], px, Falling) == 1
  }

  lemma {:induction false} SurvivorIndicesMatch(balls: seq<Ball>, px: int)
    ensures |SurvivorIndices(balls, px)| == |Survivors(balls, px)|
    ensures forall k :: 0 <= k < |SurvivorIndices(balls, px)| ==> IndexMatches(balls, px, k)
    decreases |balls|, 1
  {
    SurvivorIndicesLength(balls, px);
    if |balls| > 0 {
      forall k | 0 <= k < |SurvivorIndices(balls, px)|
        ensures IndexMatches(balls, px, k)
      {
        IndexMatchesStep(balls, px, k);
      }
    }
  }

  /** One survivor of a non-empty list, from the survivors of its tail. */
  lemma {:induction false} IndexMatchesStep(balls: seq<Ball>, px: int, k: int)
    requires |balls| > 0
    requires 0 <= k < |SurvivorIndices(balls, px)| == |Survivors(balls, px)|
    ensures IndexMatches(balls, px, k)
    decreases |balls|, 0
  {
    if Hit(balls[0], px, Falling) == 1 {
      if k > 0 {
        SurvivorIndicesMatch(balls[1..], px);
        IndexMatchesAfterKept(balls, px, k);
      } else {
        assert SurvivorIndices(balls, px)[0] == 0;
        assert Survivors(balls, px)[0] == Fall(balls[0]);
      }
    } else {
      SurvivorIndicesMatch(balls[1..], px);
      IndexMatchesAfterDropped(balls, px, k);
    }
  }

  lemma IndexMatchesAfterKept(balls: seq<Ball>, px: int, k: int)
    requires |balls| > 0 && Hit(balls[0], px, Falling) == 1
    requires 0 < k < |SurvivorIndices(balls, px)| == |Survivors(balls, px)|
    requires |SurvivorIndices(balls[1..], px)| == |Survivors(balls[1..], px)|
    requires IndexMatches(balls[1..], px, k - 1)
    ensures IndexMatches(balls, px, k)
  {
  }

  lemma IndexMatchesAfterDropped(balls: seq<Ball>, px: int, k: int)
    requires |balls| > 0 && Hit(balls[0], px, Falling) != 1
    requires 0 <= k < |SurvivorIndices(balls, px)| == |Survivors(balls, px)|
    requires |SurvivorIndices(balls[1..], px)| == |Survivors(balls[1..], px)|
    requires forall j :: 0 <= j < |SurvivorIndices(balls[1..], px)| ==> IndexMatches(balls[1..], px, j)
    ensures IndexMatches(balls, px, k)
  {
    var idx, tail := SurvivorIndices(balls, px), SurvivorIndices(balls[1..], px);
    assert idx == Shift(tail);
    assert Survivors(balls, px) == Survivors(balls[1..], px);
    assert IndexMatches(balls[1..], px, k);
    assert idx[k] == Shift(tail)[k] == tail[k] + 1;
    assert balls[1..][tail[k]] == balls[idx[k]];
  }

  lemma {:induction false} SurvivorIndicesIncrease(balls: seq<Ball>, px: int)
    ensures forall k, l :: 0 <= k < l < |SurvivorIndices(balls, px)| ==>
      SurvivorIndices(balls, px)[k] < SurvivorIndices(balls, px)[l]
    decreases |balls|
  {
    if |balls| > 0 {
      SurvivorIndicesIncrease(balls[1..], px);
      var idx, tail := SurvivorIndices(balls, px), SurvivorIndices(balls[1..], px);
      var head: seq<nat> := if Hit(balls[0], px, Falling) == 1 then [0] else [];
      assert idx == head + Shift(tail);
      forall k, l | 0 <= k < l < |idx|
        ensures idx[k] < idx[l]
      {
        assert idx[l] == tail[l - |head|] + 1;
        if k >= |head| {
          assert idx[k] == tail[k - |head|] + 1;
          assert tail[k - |head|] < tail[l - |head|];
        } else {
          assert idx[k] == 0;
        }
      }
    }
  }

  lemma {:induction false} SurvivorIndicesComplete(balls: seq<Ball>, px: int)
    ensures forall i :: 0 <= i < |balls| && Hit(balls[i], px, Falling) == 1 ==> i in SurvivorIndices(balls, px)
    decreases |balls|
  {
    if |balls| > 0 {
      SurvivorIndicesComplete(balls[1..], px);
      var idx, tail := SurvivorIndices(balls, px), SurvivorIndices(balls[1..], px);
      var head: seq<nat> := if Hit(balls[0], px, Falling) == 1 then [0] else [];
      assert idx == head + Shift(tail);
      forall i | 0 <= i < |balls| && Hit(balls[i], px, Falling) == 1
        ensures i in idx
      {
        if i == 0 {
          assert idx[0] == 0;
        } else {
          assert balls[1..][i - 1] == balls[i];
          var k :| 0 <= k < |tail| && tail[k] == i - 1;
          assert idx[|head| + k] == i;
        }
      }
    }
  }

  /** The survivors are the still-falling balls in their original order
      and multiplicity: `idx` lists, strictly increasing, the position in
      `balls` each survivor came from, and it lists every position whose
      ball stays in play. */
  lemma SurvivorsKeepOrder(balls: seq<Ball>, px: int) returns (idx: seq<nat>)
    ensures |idx| == |Survivors(balls, px)|
    ensures forall k :: 0 <= k < |idx| ==>
      idx[k] < |balls| && Survivors(balls, px)[k] == Fall(balls[idx[k]]) && Hit(balls[idx[k]], px, Falling) == 1
    ensures forall k, l :: 0 <= k < l < |idx| ==> idx[k] < idx[l]
    ensures forall i :: 0 <= i < |balls| && Hit(balls[i], px, Falling) == 1 ==> i in idx
  {
    idx := SurvivorIndices(balls, px);
    SurvivorIndicesMatch(balls, px);
    forall k | 0 <= k < |idx|
      ensures idx[k] < |balls| && Survivors(balls, px)[k] == Fall(balls[idx[k]])
      ensures Hit(balls[idx[k]], px, Falling) == 1
    {
      assert IndexMatches(balls, px, k);
    }
    SurvivorIndicesIncrease(balls, px);
    SurvivorIndicesComplete(balls, px);
  }

  /** Every ball has exactly one outcome. */
  lemma {:induction false} OutcomesPartition(balls: seq<Ball>, px: int)
    ensures Count(balls, px, Caught) + Count(balls, px, Missed) + Count(balls, px, Falling) == |balls|
    decreases |balls|
  {
    if |balls| > 0 {
      OutcomesPartition(balls[1..], px);
    }
  }

  /** The running totals of the ball loop: score and lives as they change,
      the game-over flag, and the balls kept so far. */
  datatype Tally = Tally(score: int, lives: int, gameOver: bool, kept: seq<Ball>)

  /** Ending the game only raises the flag; the loop goes on regardless. */
  function EndGame(t: Tally): Tally {
    t.(gameOver := true)
  }

  /** One iteration of the ball loop: drop the ball, then count a catch,
      count a miss (ending the game once lives are used up), or keep it. */
  function Visit(t: Tally, b: Ball, px: int): (t': Tally)
    ensures t'.score == t.score + Hit(b, px, Caught)
    ensures t'.lives == t.lives - Hit(b, px, Missed)
    ensures t'.kept == t.kept + (if Hit(b, px, Falling) == 1 then [Fall(b)] else [])
    // the game ends only on a miss that leaves lives at or below 0, and never un-ends
    ensures t'.gameOver <==> t.gameOver || (Hit(b, px, Missed) == 1 && t'.lives <= 0)
  {
    var m := Fall(b);
    match Classify(m, px)
    case Caught => t.(score := t.score + 1)
    case Missed =>
      var t' := t.(lives := t.lives - 1);
      if t'.lives <= 0 then EndGame(t') else t'
    case Falling => t.(kept := t.kept + [m])
  }

  /** Indicator of outcome `o` for one ball this tick. */
  function Hit(b: Ball, px: int, o: Outcome): nat {
    if Classify(Fall(b), px) == o then 1 else 0
  }

  /** The ball loop over `balls` in order, from totals `t`. */
  function Sweep(t: Tally, balls: seq<Ball>, px: int): (r: Tally)
    ensures r.score == t.score + Count(balls, px, Caught)
    ensures r.lives == t.lives - Count(balls, px, Missed)
    ensures r.kept == t.kept + Survivors(balls, px)
    decreases |balls|
  {
    if |balls| == 0 then t
    else
      var b, rest := balls[0], balls[1..];
      var t' := Visit(t, b, px);
      assert Count(balls, px, Caught) == Hit(b, px, Caught) + Count(rest, px, Caught);
      assert Count(balls, px, Missed) == Hit(b, px, Missed) + Count(rest, px, Missed);
      assert Survivors(balls, px) == (if Hit(b, px, Falling) == 1 then [Fall(b)] else []) + Survivors(rest, px);
      assert t'.kept + Survivors(rest, px) == t.kept + Survivors(balls, px);
      Sweep(t', rest, px)
  }

  /** The loop ends the game exactly when some ball is missed and lives
      end at or below 0. Lives only fall, so after the first miss that
      takes them to 0 every later miss keeps them there or lower. */
  lemma {:induction false} SweepEndsGame(t: Tally, balls: seq<Ball>, px: int)
    ensures Sweep(t, balls, px).gameOver <==>
              t.gameOver || (Count(balls, px, Missed) > 0 && Sweep(t, balls, px).lives <= 0)
    decreases |balls|
  {
    if |balls| > 0 {
      var t' := Visit(t, balls[0], px);
      SweepEndsGame(t', balls[1..], px);
      assert Sweep(t, balls, px) == Sweep(t', balls[1..], px);
    }
  }

  /** Counting distributes over concatenation. */
  lemma {:induction false} CountAppend(a: seq<Ball>, b: seq<Ball>, px: int, o: Outcome)
    ensures Count(a + b, px, o) == Count(a, px, o) + Count(b, px, o)
    decreases |a|
  {
    if |a| == 0 {
      assert a + b == b;
    } else {
      assert (a + b)[1..] == a[1..] + b;
      CountAppend(a[1..], b, px, o);
    }
  }

  /** So does the list of survivors. */
  lemma {:induction false} SurvivorsAppend(a: seq<Ball>, b: seq<Ball>, px: int)
    ensures Survivors(a + b, px) == Survivors(a, px) + Survivors(b, px)
    decreases |a|
  {
    if |a| == 0 {
      assert a + b == b;
    } else {
      assert (a + b)[1..] == a[1..] + b;
      SurvivorsAppend(a[1..], b, px);
    }
  }

  /** Where the first ball of `a` sits in a permutation `b` of `a`, and
      what is left of both once it is taken out. */
  lemma MatchFirst(a: seq<Ball>, b: seq<Ball>) returns (i: nat)
    requires |a| > 0 && multiset(a) == multiset(b)
    ensures i < |b| && b[i] == a[0]
    ensures b == b[..i] + [b[i]] + b[i+1..]
    ensures multiset(a[1..]) == multiset(b[..i] + b[i+1..])
  {
    assert a[0] in multiset(b);
    i :| 0 <= i < |b| && b[i] == a[0];
    var rest := b[..i] + b[i+1..];
    assert b == b[..i] + [b[i]] + b[i+1..];
    assert a == [a[0]] + a[1..];
    assert multiset(rest) == multiset(b[..i]) + multiset(b[i+1..]);
    assert multiset(a[1..]) == multiset(a) - multiset{a[0]};
    assert multiset(rest) == multiset(b) - multiset{b[i]};
  }

  /** The number of balls with each outcome does not depend on the order
      the loop visits them. */
  lemma {:induction false} CountOrderIndependent(a: seq<Ball>, b: seq<Ball>, px: int, o: Outcome)
    requires multiset(a) == multiset(b)
    ensures Count(a, px, o) == Count(b, px, o)
    decreases |a|
  {
    if |a| == 0 {
      assert |b| == |multiset(b)| == 0;
    } else {
      var i := MatchFirst(a, b);
      CountOrderIndependent(a[1..], b[..i] + b[i+1..], px, o);
      CountAppend(b[..i] + [b[i]], b[i+1..], px, o);
      CountAppend(b[..i], [b[i]], px, o);
      CountAppend(b[..i], b[i+1..], px, o);
    }
  }

  /** Nor does the multiset of balls that stay in play. */
  lemma {:induction false} SurvivorsOrderIndependent(a: seq<Ball>, b: seq<Ball>, px: int)
    requires multiset(a) == multiset(b)
    ensures multiset(Survivors(a, px)) == multiset(Survivors(b, px))
    decreases |a|
  {
    if |a| == 0 {
      assert |b| == |multiset(b)| == 0;
    } else {
      var i := MatchFirst(a, b);
      SurvivorsOrderIndependent(a[1..], b[..i] + b[i+1..], px);
      SurvivorsAppend(b[..i] + [b[i]], b[i+1..], px);
      SurvivorsAppend(b[..i], [b[i]], px);
      SurvivorsAppend(b[..i], b[i+1..], px);
    }
  }
}
