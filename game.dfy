/** The state the game loop updates in place, one round at a time.

    The fields are the loop's variables: the terminal size, the snake list
    (head first, grown with an insert at the front and shrunk by popping the
    tail), the heading, the food cell, the score, the speed level and the
    game-over flag.  Each method does what one part of the loop does and is
    proved to leave the state the pure update functions describe. */
module Game {
  import opened Grid
  import opened Food
  import opened Engine
  import opened Resize

  datatype ResizeOutcome = SameSize | TooSmall | Resized

  class SnakeGame {
    var height: int
    var width: int
    var snake: seq<Pos>
    var direction: Direction
    var food: Pos
    var score: nat
    var speedLevel: nat
    var gameOver: bool

    function Bounds(): Arena
      reads this
    {
      Arena(height, width)
    }

    function State(): Round
      reads this
    {
      Round(snake, direction, food, score, speedLevel)
    }

    /** The snake is never empty and the counters stay in step. */
    ghost predicate Valid()
      reads this
    {
      snake != [] && Bookkeeping(State())
    }

    /** The first round, once the terminal has been found big enough. */
    constructor (height: int, width: int, draws: seq<Pos>)
      requires Arena(height, width).BigEnough()
      requires HasFree(draws, [StartCell(Arena(height, width))])
      ensures Valid() && Bounds() == Arena(height, width) && !gameOver
      ensures State() == InitialRound(Bounds(), draws)
      ensures AllInterior(draws, Bounds()) ==> WellFormed(State(), Bounds())
    {
      this.height, this.width := height, width;
      new;
      NewRound(draws);
    }

    /** Start a round (also the restart after a game over) on the current
        terminal size. */
    method NewRound(draws: seq<Pos>)
      requires HasFree(draws, [StartCell(Bounds())])
      modifies this
      ensures Valid() && Bounds() == old(Bounds()) && !gameOver
      ensures State() == InitialRound(Bounds(), draws)
      ensures Bounds().BigEnough() && AllInterior(draws, Bounds()) ==> WellFormed(State(), Bounds())
    {
      snake := [StartCell(Bounds())];
      food := PlaceFood(draws, snake);
      direction := Right;
      score := 0;
      speedLevel := 0;
      gameOver := false;
      InitialBookkeeping(Bounds(), draws);
      if Bounds().BigEnough() && AllInterior(draws, Bounds()) {
        InitialWellFormed(Bounds(), draws);
      }
    }

    /** One tick of the loop for the key just read.  Quitting leaves the
        state alone (the game then exits); a collision sets the game-over
        flag. */
    method Tick(key: Key, draws: seq<Pos>) returns (outcome: Outcome)
      requires Valid() && !gameOver
      requires Eats(State(), key, Bounds()) ==> HasFree(draws, [NextHead(State(), key)] + snake)
      modifies this
      ensures Valid() && Bounds() == old(Bounds())
      ensures State() == Update(old(State()), key, old(Bounds()), draws).next
      ensures outcome == Update(old(State()), key, old(Bounds()), draws).outcome
      ensures gameOver <==> outcome.GameOver()
      ensures old(WellFormed(State(), Bounds())) && AllInterior(draws, Bounds()) ==>
                WellFormed(State(), Bounds())
    {
      ghost var before, bounds := State(), Bounds();
      if key == QuitKey {
        outcome := Quit;
      } else {
        direction := ResolveDirection(direction, key);
        var head := Advance(snake[0], direction);
        if HitsWall(head, Bounds()) {
          gameOver := true;
          outcome := WallHit;
        } else if head in snake {
          gameOver := true;
          outcome := SelfHit;
        } else {
          snake := [head] + snake;
          if head == food {
            food := PlaceFood(draws, snake);
            score := score + 10;
            if score % 50 == 0 {
              speedLevel := speedLevel + 1;
            }
            outcome := Ate;
          } else {
            snake := snake[..|snake| - 1];
            outcome := Moved;
          }
        }
      }
      ghost var r := Update(before, key, bounds, draws);
      assert State() == r.next && outcome == r.outcome;
      UpdateKeepsBookkeeping(before, key, bounds, draws);
      if WellFormed(before, bounds) && AllInterior(draws, bounds) {
        UpdateKeepsWellFormed(before, key, bounds, draws);
      }
    }

    /** The check at the top of each pass of the loop for a new terminal
        size.  A size below 10 by 30 is recorded and the pass is skipped;
        otherwise the snake is clamped and out-of-range food drawn again. */
    method Resize(newHeight: int, newWidth: int, draws: seq<Pos>) returns (result: ResizeOutcome)
      requires Valid()
      requires Arena(newHeight, newWidth) != Bounds() && Arena(newHeight, newWidth).BigEnough()
               && FoodOutOfRange(food, Arena(newHeight, newWidth))
               ==> HasFree(draws, Clamp(snake, Arena(newHeight, newWidth)))
      modifies this
      ensures Valid() && Bounds() == Arena(newHeight, newWidth) && gameOver == old(gameOver)
      ensures result == SameSize <==> Bounds() == old(Bounds())
      ensures result == TooSmall <==> Bounds() != old(Bounds()) && !Bounds().BigEnough()
      ensures result != Resized ==> State() == old(State())
      ensures result == Resized ==> State() == Reframe(old(State()), Bounds(), draws)
      ensures result == Resized && old(WellFormed(State(), Bounds())) && AllInterior(draws, Bounds()) ==>
                InBounds(State(), Bounds())
    {
      if newHeight == height && newWidth == width {
        return SameSize;
      }
      ghost var before, was := State(), Bounds();
      height, width := newHeight, newWidth;
      if height < 10 || width < 30 {
        return TooSmall;
      }
      snake := ClampSnake(snake, Bounds());
      if food.row >= Bounds().GameHeight() - 1 || food.col >= Bounds().GameWidth() - 1 {
        food := PlaceFood(draws, snake);
      }
      result := Resized;
      ReframeKeepsBookkeeping(before, Bounds(), draws);
      if WellFormed(before, was) && AllInterior(draws, Bounds()) {
        ReframeInBounds(before, was, Bounds(), draws);
      }
    }
  }
}
