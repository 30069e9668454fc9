/** The per-tick update of a round of the snake game, as pure functions.

    A round holds the snake (head first), the heading, the food cell, the
    score and the speed level.  The speed level counts the steps of 0.2 by
    which the game's speed factor has grown above 1.0.  One tick reads one
    key, resolves the heading, moves the head one cell, ends the round on a
    wall or on the snake's own body, and otherwise grows the snake onto the
    food or shifts it one cell forward. */
module Engine {
  import opened Grid
  import opened Food

  /** What one poll of the keyboard can return: an arrow key, another key,
      or nothing before the timeout. */
  datatype Key = Arrow(dir: Direction) | Press(c: char) | NoKey

  const QuitKey: Key := Press('q')

  datatype Round = Round(snake: seq<Pos>, dir: Direction, food: Pos, score: nat, speed: nat)

  datatype Outcome = Quit | WallHit | SelfHit | Ate | Moved {
    predicate GameOver() { this == WallHit || this == SelfHit }
  }

  datatype Step = Step(next: Round, outcome: Outcome)

  /** The heading after a key: an arrow key turns the snake unless it asks
      for the exact opposite of the current heading; every other key leaves
      the heading alone. */
  function ResolveDirection(current: Direction, key: Key): (next: Direction)
    ensures next != Opposite(current)
    ensures key.Arrow? && key.dir != Opposite(current) ==> next == key.dir
    ensures next == current || key == Arrow(next)
  {
    match key
    case Arrow(d) =>
      if (d == Up && current != Down) || (d == Down && current != Up)
         || (d == Left && current != Right) || (d == Right && current != Left)
      then d
      else current
    case _ => current
  }

  /** Where a round starts: one segment at half the game height and a
      quarter of the game width. */
  function StartCell(a: Arena): (p: Pos)
    ensures a.BigEnough() ==> Interior(p, a)
  {
    Pos(a.GameHeight() / 2, a.GameWidth() / 4)
  }

  /** A fresh round: one segment heading right, no score, base speed, and
      food on the first free draw. */
  function InitialRound(a: Arena, draws: seq<Pos>): (r: Round)
    requires HasFree(draws, [StartCell(a)])
    ensures r.snake == [StartCell(a)] && r.dir == Right
    ensures r.score == 0 && r.speed == 0
    ensures r.food != StartCell(a)
  {
    Round([StartCell(a)], Right, draws[FirstFree(draws, [StartCell(a)])], 0, 0)
  }

  function NextHead(s: Round, key: Key): Pos
    requires s.snake != []
  {
    Advance(s.snake[0], ResolveDirection(s.dir, key))
  }

  /** The tick moves the head onto the food. */
  predicate Eats(s: Round, key: Key, a: Arena)
    requires s.snake != []
  {
    key != QuitKey && Interior(NextHead(s, key), a)
    && NextHead(s, key) !in s.snake && NextHead(s, key) == s.food
  }

  /** One tick of the game loop. */
  function Update(s: Round, key: Key, a: Arena, draws: seq<Pos>): (r: Step)
    requires s.snake != []
    requires Eats(s, key, a) ==> HasFree(draws, [NextHead(s, key)] + s.snake)
    ensures r.outcome == Quit <==> key == QuitKey
    ensures r.next.score == s.score + (if r.outcome == Ate then 10 else 0)
    ensures |r.next.snake| == |s.snake| + (if r.outcome == Ate then 1 else 0)
  {
    if key == QuitKey then Step(s, Quit)
    else
      var d := ResolveDirection(s.dir, key);
      var head := Advance(s.snake[0], d);
      if HitsWall(head, a) then Step(s.(dir := d), WallHit)
      else if head in s.snake then Step(s.(dir := d), SelfHit)
      else if head == s.food then
        var grown := [head] + s.snake;
        var score := s.score + 10;
        var speed := if score % 50 == 0 then s.speed + 1 else s.speed;
        Step(Round(grown, d, draws[FirstFree(draws, grown)], score, speed), Ate)
      else
        Step(s.(snake := [head] + s.snake[..|s.snake| - 1], dir := d), Moved)
  }

  /** What each outcome of a tick means and what it does to the round:
      `r` is a tick from `s` on `key` in arena `a`. */
  ghost predicate TickSpec(s: Round, key: Key, a: Arena, r: Step)
    requires s.snake != []
  {
    var head := NextHead(s, key);
    (r.outcome == Quit <==> key == QuitKey)
    && (r.outcome == Quit ==> r.next == s)
    && (r.outcome != Quit ==> r.next.dir == ResolveDirection(s.dir, key))
    && (r.outcome == WallHit <==> key != QuitKey && !Interior(head, a))
    && (r.outcome == SelfHit <==> key != QuitKey && Interior(head, a) && head in s.snake)
    && (r.outcome == Ate <==> Eats(s, key, a))
    && (r.outcome.GameOver() ==>
          r.next.snake == s.snake && r.next.food == s.food && r.next.speed == s.speed)
    && r.next.score == s.score + (if r.outcome == Ate then 10 else 0)
    && |r.next.snake| == |s.snake| + (if r.outcome == Ate then 1 else 0)
    && (r.outcome == Moved ==>
          r.next.snake == [head] + s.snake[..|s.snake| - 1]
          && r.next.food == s.food && r.next.speed == s.speed)
    && (r.outcome == Ate ==>
          r.next.snake == [head] + s.snake
          && r.next.food !in r.next.snake
          && (r.next.speed == s.speed + 1 <==> r.next.score % 50 == 0)
          && (r.next.speed == s.speed || r.next.speed == s.speed + 1))
  }

  lemma UpdateMeetsTickSpec(s: Round, key: Key, a: Arena, draws: seq<Pos>)
    requires s.snake != []
    requires Eats(s, key, a) ==> HasFree(draws, [NextHead(s, key)] + s.snake)
    ensures TickSpec(s, key, a, Update(s, key, a, draws))
  {
  }

  /** The counters move together: every food eaten adds one segment and 10
      points, and the speed level is one per 50 points. */
  predicate Bookkeeping(s: Round) {
    s.score % 10 == 0 && |s.snake| == 1 + s.score / 10 && s.speed == s.score / 50
  }

  /** The round is in a state the game can reach by ticks alone: the
      segments are distinct and playable, and the food is playable and not
      on the snake. */
  ghost predicate WellFormed(s: Round, a: Arena) {
    s.snake != [] && Distinct(s.snake) && AllInterior(s.snake, a)
    && Interior(s.food, a) && s.food !in s.snake
  }

  lemma InitialBookkeeping(a: Arena, draws: seq<Pos>)
    requires HasFree(draws, [StartCell(a)])
    ensures Bookkeeping(InitialRound(a, draws))
  {
  }

  /** A round started on a terminal of at least 10 by 30 cells, with food
      drawn from the playable cells, is well formed. */
  lemma InitialWellFormed(a: Arena, draws: seq<Pos>)
    requires a.BigEnough() && AllInterior(draws, a)
    requires HasFree(draws, [StartCell(a)])
    ensures WellFormed(InitialRound(a, draws), a)
  {
    FirstFreeInterior(draws, [StartCell(a)], a);
  }

  /** Quotient and remainder by 50 are determined; SpeedStep needs it. */
  lemma DivModUnique(x: int, q: int, m: int)
    requires x == 50 * q + m && 0 <= m < 50
    ensures x / 50 == q && x % 50 == m
  {
  }

  /** Ten more points cross a multiple of 50 exactly when they land on one;
      UpdateKeepsBookkeeping needs it for the speed level. */
  lemma SpeedStep(score: nat)
    requires score % 10 == 0
    ensures (score + 10) / 50 == score / 50 + (if (score + 10) % 50 == 0 then 1 else 0)
  {
    var q, m := score / 50, score % 50;
    var t := score / 10;
    assert score == 10 * t;
    assert m == 10 * (t - 5 * q);
    assert m == 0 || m == 10 || m == 20 || m == 30 || m == 40;
    if m == 40 {
      DivModUnique(score + 10, q + 1, 0);
    } else {
      DivModUnique(score + 10, q, m + 10);
    }
  }

  /** Every tick keeps the counters in step. */
  lemma UpdateKeepsBookkeeping(s: Round, key: Key, a: Arena, draws: seq<Pos>)
    requires s.snake != [] && Bookkeeping(s)
    requires Eats(s, key, a) ==> HasFree(draws, [NextHead(s, key)] + s.snake)
    ensures Bookkeeping(Update(s, key, a, draws).next)
  {
    UpdateMeetsTickSpec(s, key, a, draws);
    if Update(s, key, a, draws).outcome == Ate {
      SpeedStep(s.score);
    }
  }

  /** Every tick keeps a well-formed round well formed when food is drawn
      from the playable cells. */
  lemma UpdateKeepsWellFormed(s: Round, key: Key, a: Arena, draws: seq<Pos>)
    requires WellFormed(s, a) && AllInterior(draws, a)
    requires Eats(s, key, a) ==> HasFree(draws, [NextHead(s, key)] + s.snake)
    ensures WellFormed(Update(s, key, a, draws).next, a)
  {
    var r := Update(s, key, a, draws);
    var h := NextHead(s, key);
    UpdateMeetsTickSpec(s, key, a, draws);
    if r.outcome == Ate {
      DistinctPrepend(h, s.snake);
      FirstFreeInterior(draws, [h] + s.snake, a);
    } else if r.outcome == Moved {
      var body := s.snake[..|s.snake| - 1];
      assert h !in body by {
        assert forall p :: p in body ==> p in s.snake;
      }
      DistinctPrefix(s.snake, |s.snake| - 1);
      DistinctPrepend(h, body);
      assert s.food !in r.next.snake by {
        assert forall p :: p in r.next.snake ==> p == h || p in s.snake;
      }
    }
  }
}
