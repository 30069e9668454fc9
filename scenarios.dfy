/** Single ticks worked out on concrete rounds. */
module Scenarios {
  import opened Grid
  import opened Food
  import opened Engine

  /** A 22 by 42 terminal: the game's own dimensions are 20 by 40. */
  const Field: Arena := Arena(22, 42)

  /** On this terminal the border is on rows 0 and 21 and columns 0 and 41.
      The cells just inside the top and left border are playable; rows 19
      and 20 and columns 39 and 40, though inside the border, are not. */
  lemma PlayableBand()
    ensures Interior(Pos(1, 1), Field) && Interior(Pos(18, 38), Field)
    ensures !Interior(Pos(19, 5), Field) && !Interior(Pos(20, 5), Field)
    ensures !Interior(Pos(5, 39), Field) && !Interior(Pos(5, 40), Field)
  {
  }

  /** Heading right, an up or down arrow turns the snake; a left arrow is a
      reversal and is ignored, and so is any other key. */
  lemma TurnsFromRight()
    ensures ResolveDirection(Right, Arrow(Up)) == Up
    ensures ResolveDirection(Right, Arrow(Down)) == Down
    ensures ResolveDirection(Right, Arrow(Left)) == Right
    ensures ResolveDirection(Right, Press('r')) == Right
    ensures ResolveDirection(Right, NoKey) == Right
  {
  }

  /** Eating: a one-segment snake heading right onto the food grows to two
      segments, scores 10, and the food moves to the first draw that is not
      on the grown snake. */
  lemma EatFood()
    ensures HasFree([Pos(5, 5), Pos(3, 9)], [Pos(5, 6), Pos(5, 5)])
    ensures Update(Round([Pos(5, 5)], Right, Pos(5, 6), 0, 0), NoKey, Field, [Pos(5, 5), Pos(3, 9)])
            == Step(Round([Pos(5, 6), Pos(5, 5)], Right, Pos(3, 9), 10, 0), Ate)
  {
    var grown := [Pos(5, 6), Pos(5, 5)];
    assert Pos(5, 5) in grown && [Pos(5, 5), Pos(3, 9)][1] !in grown;
    assert FirstFree([Pos(5, 5), Pos(3, 9)], grown) == 1;
  }

  /** The fifth food eaten reaches 50 points and one speed step. */
  lemma FiftyPointsSpeedUp()
    ensures HasFree([Pos(9, 9)], [Pos(5, 6), Pos(5, 5), Pos(5, 4), Pos(5, 3), Pos(5, 2), Pos(5, 1)])
    ensures Update(Round([Pos(5, 5), Pos(5, 4), Pos(5, 3), Pos(5, 2), Pos(5, 1)], Right, Pos(5, 6), 40, 0),
                   NoKey, Field, [Pos(9, 9)]).next.speed == 1
  {
    assert [Pos(9, 9)][0] !in [Pos(5, 6), Pos(5, 5), Pos(5, 4), Pos(5, 3), Pos(5, 2), Pos(5, 1)];
  }

  /** Moving up from the top playable row is a wall collision; the snake
      stays as it was. */
  lemma TopWall()
    ensures Update(Round([Pos(1, 5), Pos(1, 6)], Up, Pos(8, 8), 0, 0), NoKey, Field, [])
            == Step(Round([Pos(1, 5), Pos(1, 6)], Up, Pos(8, 8), 0, 0), WallHit)
  {
  }

  /** The snake closes on its own tail cell: a collision, even though the
      tail would have moved away in the same tick. */
  lemma OwnTail()
    ensures Update(Round([Pos(5, 5), Pos(5, 6), Pos(5, 7), Pos(6, 7), Pos(6, 6), Pos(6, 5)], Left,
                         Pos(9, 9), 50, 1),
                   Arrow(Down), Field, []).outcome == SelfHit
  {
    assert NextHead(Round([Pos(5, 5), Pos(5, 6), Pos(5, 7), Pos(6, 7), Pos(6, 6), Pos(6, 5)], Left,
                          Pos(9, 9), 50, 1), Arrow(Down)) == Pos(6, 5);
  }

  /** A plain move shifts every segment one place: the head enters a new
      cell and the tail cell is vacated. */
  lemma PlainMove()
    ensures Update(Round([Pos(5, 5), Pos(5, 4), Pos(5, 3)], Right, Pos(9, 9), 20, 0),
                   Arrow(Up), Field, []).next.snake == [Pos(4, 5), Pos(5, 5), Pos(5, 4)]
  {
  }

  /** A restart begins heading right at row 10, column 10 of this field. */
  lemma RestartState()
    ensures HasFree([Pos(10, 10), Pos(2, 2)], [Pos(10, 10)])
    ensures InitialRound(Field, [Pos(10, 10), Pos(2, 2)]) == Round([Pos(10, 10)], Right, Pos(2, 2), 0, 0)
  {
    assert [Pos(10, 10), Pos(2, 2)][1] !in [Pos(10, 10)];
    assert FirstFree([Pos(10, 10), Pos(2, 2)], [Pos(10, 10)]) == 1;
  }
}
