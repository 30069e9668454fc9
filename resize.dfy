/** What the game loop does to a round when the terminal changes size and
    the new size is still at least 10 by 30: every segment coordinate that
    now lies on or past the far edge of the playable area is pulled back to
    its last playable row or column, and the food is drawn again only when
    it lies on or past that edge.  Nothing else is moved. */
module Resize {
  import opened Grid
  import opened Food
  import opened Engine

  function Min(x: int, y: int): int {
    if x <= y then x else y
  }

  /** One segment after the clamp: row is bounded by `GameHeight() - 2` and
      column by `GameWidth() - 2`; nothing is ever moved down or right. */
  function ClampCell(p: Pos, a: Arena): (q: Pos)
    ensures q.row == Min(p.row, a.GameHeight() - 2)
    ensures q.col == Min(p.col, a.GameWidth() - 2)
  {
    var row := if p.row >= a.GameHeight() - 1 then a.GameHeight() - 2 else p.row;
    var col := if p.col >= a.GameWidth() - 1 then a.GameWidth() - 2 else p.col;
    Pos(row, col)
  }

  /** The clamp of a whole snake, segment by segment, in the same order. */
  function Clamp(snake: seq<Pos>, a: Arena): seq<Pos> {
    seq(|snake|, i requires 0 <= i < |snake| => ClampCell(snake[i], a))
  }

  /** The loop that builds the clamped snake by appending one segment at a
      time. */
  method ClampSnake(snake: seq<Pos>, a: Arena) returns (clamped: seq<Pos>)
    ensures |clamped| == |snake|
    ensures clamped == Clamp(snake, a)
  {
    clamped := [];
    for i := 0 to |snake|
      invariant |clamped| == i
      invariant forall j :: 0 <= j < i ==> clamped[j] == ClampCell(snake[j], a)
    {
      var p := snake[i];
      var row, col := p.row, p.col;
      if row >= a.GameHeight() - 1 {
        row := a.GameHeight() - 2;
      }
      if col >= a.GameWidth() - 1 {
        col := a.GameWidth() - 2;
      }
      clamped := clamped + [Pos(row, col)];
    }
  }

  /** The food test after a resize: only the far edges are checked. */
  predicate FoodOutOfRange(food: Pos, a: Arena) {
    food.row >= a.GameHeight() - 1 || food.col >= a.GameWidth() - 1
  }

  /** The round after a resize to `a`: the snake is clamped, the food is
      drawn again from `draws` when out of range, and the heading, score
      and speed are kept. */
  function Reframe(s: Round, a: Arena, draws: seq<Pos>): (r: Round)
    requires FoodOutOfRange(s.food, a) ==> HasFree(draws, Clamp(s.snake, a))
    ensures |r.snake| == |s.snake|
    ensures forall i :: 0 <= i < |s.snake| ==> r.snake[i] == ClampCell(s.snake[i], a)
    ensures r.dir == s.dir && r.score == s.score && r.speed == s.speed
    ensures !FoodOutOfRange(s.food, a) ==> r.food == s.food
    ensures FoodOutOfRange(s.food, a) ==> r.food !in r.snake
  {
    var snake := Clamp(s.snake, a);
    var food := if FoodOutOfRange(s.food, a) then draws[FirstFree(draws, snake)] else s.food;
    s.(snake := snake, food := food)
  }

  lemma ReframeKeepsBookkeeping(s: Round, a: Arena, draws: seq<Pos>)
    requires FoodOutOfRange(s.food, a) ==> HasFree(draws, Clamp(s.snake, a))
    requires Bookkeeping(s)
    ensures Bookkeeping(Reframe(s, a, draws))
  {
  }

  /** Every segment and the food are playable. */
  ghost predicate InBounds(s: Round, a: Arena) {
    AllInterior(s.snake, a) && Interior(s.food, a)
  }

  /** A resize from a well-formed round to a size the game accepts leaves
      every segment and the food playable, and replaces the food exactly
      when it was out of range (with food drawn from the playable cells). */
  lemma ReframeInBounds(s: Round, before: Arena, a: Arena, draws: seq<Pos>)
    requires WellFormed(s, before) && a.BigEnough() && AllInterior(draws, a)
    requires FoodOutOfRange(s.food, a) ==> HasFree(draws, Clamp(s.snake, a))
    ensures InBounds(Reframe(s, a, draws), a)
    ensures Reframe(s, a, draws).food != s.food <==> FoodOutOfRange(s.food, a)
  {
    var r := Reframe(s, a, draws);
    forall p | p in r.snake ensures Interior(p, a) {
      var i :| 0 <= i < |r.snake| && r.snake[i] == p;
      assert s.snake[i] in s.snake;
    }
    if FoodOutOfRange(s.food, a) {
      FirstFreeInterior(draws, Clamp(s.snake, a), a);
    }
  }

  /** When every segment already fits, the clamp changes nothing. */
  lemma ClampFits(snake: seq<Pos>, a: Arena)
    requires AllInterior(snake, a)
    ensures Clamp(snake, a) == snake
  {
    forall i | 0 <= i < |snake| ensures Clamp(snake, a)[i] == snake[i] {
      assert snake[i] in snake;
    }
  }

  /** Clamping twice is clamping once. */
  lemma ClampIdempotent(snake: seq<Pos>, a: Arena)
    ensures Clamp(Clamp(snake, a), a) == Clamp(snake, a)
  {
  }

  /** The clamp does not keep segments apart: shrinking the terminal can
      pull two distinct segments onto one cell. */
  lemma ClampCanMerge()
    ensures exists snake: seq<Pos>, a: Arena ::
              a.BigEnough() && Distinct(snake) && !Distinct(Clamp(snake, a))
  {
    var snake := [Pos(6, 5), Pos(7, 5)];
    var a := Arena(10, 30);
    assert Clamp(snake, a)[0] == Pos(6, 5) == Clamp(snake, a)[1];
  }

  /** Nor does it keep the food off the snake: a segment can be pulled onto
      food that is still in range, and the food is then left where it is. */
  lemma ClampCanCoverFood()
    ensures exists s: Round, a: Arena, draws: seq<Pos> ::
              a.BigEnough() && WellFormed(s, Arena(12, 30)) && !FoodOutOfRange(s.food, a)
              && Reframe(s, a, draws).food in Reframe(s, a, draws).snake
  {
    var s := Round([Pos(7, 5)], Right, Pos(6, 5), 0, 0);
    var a := Arena(10, 30);
    assert Reframe(s, a, []).snake[0] == Pos(6, 5);
  }
}
