/** Food placement by rejection sampling.

    The game draws a random cell, `(randint(1, GameHeight() - 2),
    randint(1, GameWidth() - 2))`, and keeps drawing until the cell is not
    on the snake.  Here the random source is a stream of draws given as a
    parameter; the placement takes the first draw that is free. */
module Food {
  import opened Grid

  /** Some draw of the stream is not on the snake, so sampling ends. */
  predicate HasFree(draws: seq<Pos>, snake: seq<Pos>) {
    exists i :: 0 <= i < |draws| && draws[i] !in snake
  }

  /** The index of the draw the sampling loop stops at. */
  function FirstFree(draws: seq<Pos>, snake: seq<Pos>): (k: nat)
    requires HasFree(draws, snake)
    ensures k < |draws| && draws[k] !in snake
    ensures forall j :: 0 <= j < k ==> draws[j] in snake
    decreases |draws|
  {
    if draws[0] !in snake then 0
    else
      assert HasFree(draws[1..], snake) by {
        var i :| 0 <= i < |draws| && draws[i] !in snake;
        assert draws[1..][i - 1] == draws[i];
      }
      1 + FirstFree(draws[1..], snake)
  }

  /** The sampling loop: skip every draw that lands on the snake. */
  method PlaceFood(draws: seq<Pos>, snake: seq<Pos>) returns (food: Pos)
    requires HasFree(draws, snake)
    ensures food !in snake
    ensures food == draws[FirstFree(draws, snake)]
  {
    var i := 0;
    while draws[i] in snake
      invariant i <= FirstFree(draws, snake)
      decreases FirstFree(draws, snake) - i
    {
      i := i + 1;
    }
    food := draws[i];
  }

  /** Food placed from a stream of playable draws is playable. */
  lemma FirstFreeInterior(draws: seq<Pos>, snake: seq<Pos>, a: Arena)
    requires HasFree(draws, snake) && AllInterior(draws, a)
    ensures Interior(draws[FirstFree(draws, snake)], a)
  {
  }
}
