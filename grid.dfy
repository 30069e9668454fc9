/** Cells, headings and the playing field of the terminal snake game.

    Coordinates are terminal cells, row first, as the game keeps them.  The
    terminal is `height` rows by `width` columns; the game works with
    `GameHeight() == height - 2` and `GameWidth() == width - 2` and treats a
    cell as playable when `1 <= row <= GameHeight() - 2` and
    `1 <= col <= GameWidth() - 2`, that is rows 1 to `height - 4` and
    columns 1 to `width - 4`.  The border is drawn on rows 0 and `height - 1`
    and columns 0 and `width - 1`, so the top row and left column inside the
    border are playable, while the two rows above the bottom border and the
    two columns left of the right border are not. */
module Grid {

  datatype Pos = Pos(row: int, col: int)

  /** The four headings; the arrow keys select them. */
  datatype Direction = Up | Down | Left | Right

  predicate Vertical(d: Direction) {
    d == Up || d == Down
  }

  /** The heading a 180-degree turn would select. */
  function Opposite(d: Direction): (o: Direction)
    ensures o != d
    ensures Vertical(o) == Vertical(d)
  {
    match d
    case Up => Down
    case Down => Up
    case Left => Right
    case Right => Left
  }

  function Abs(x: int): nat {
    if x < 0 then -x else x
  }

  /** The cell one step from `p` in heading `d`: rows grow downwards and
      columns grow to the right. */
  function Advance(p: Pos, d: Direction): (q: Pos)
    ensures Abs(q.row - p.row) + Abs(q.col - p.col) == 1
    ensures Vertical(d) ==> q.col == p.col && (q.row < p.row <==> d == Up)
    ensures !Vertical(d) ==> q.row == p.row && (q.col < p.col <==> d == Left)
  {
    match d
    case Up => Pos(p.row - 1, p.col)
    case Down => Pos(p.row + 1, p.col)
    case Left => Pos(p.row, p.col - 1)
    case Right => Pos(p.row, p.col + 1)
  }

  /** Stepping back in the opposite heading undoes a step. */
  lemma AdvanceOpposite(p: Pos, d: Direction)
    ensures Advance(Advance(p, d), Opposite(d)) == p
  {
  }

  /** The terminal size as the game last read it. */
  datatype Arena = Arena(height: int, width: int) {
    function GameHeight(): int { height - 2 }
    function GameWidth(): int { width - 2 }
    /** The smallest terminal the game accepts: 10 rows by 30 columns. */
    predicate BigEnough() { height >= 10 && width >= 30 }
  }

  /** A cell on which the snake may be and food may be placed. */
  predicate Interior(p: Pos, a: Arena) {
    1 <= p.row <= a.GameHeight() - 2 && 1 <= p.col <= a.GameWidth() - 2
  }

  /** The wall test of the tick, as the game writes it. */
  predicate HitsWall(p: Pos, a: Arena) {
    p.row <= 0 || p.row >= a.GameHeight() - 1 || p.col <= 0 || p.col >= a.GameWidth() - 1
  }

  /** The wall test rejects exactly the cells outside the interior. */
  lemma HitsWallIsExterior(p: Pos, a: Arena)
    ensures HitsWall(p, a) <==> !Interior(p, a)
  {
  }

  /** No cell occurs twice. */
  ghost predicate Distinct(s: seq<Pos>) {
    forall i, j :: 0 <= i < j < |s| ==> s[i] != s[j]
  }

  /** Every cell of `s` is playable. */
  ghost predicate AllInterior(s: seq<Pos>, a: Arena) {
    forall p :: p in s ==> Interior(p, a)
  }

  /** Prepending a new cell keeps a snake distinct; the tick lemmas of
      Engine (UpdateKeepsWellFormed) need it when the head is inserted. */
  lemma {:induction false} DistinctPrepend(h: Pos, s: seq<Pos>)
    requires Distinct(s) && h !in s
    ensures Distinct([h] + s)
  {
    var t := [h] + s;
    forall i, j | 0 <= i < j < |t| ensures t[i] != t[j] {
      assert t[j] == s[j - 1];
      if i == 0 {
        assert t[j] in s;
      } else {
        assert t[i] == s[i - 1];
      }
    }
  }

  /** Dropping the tail keeps a snake distinct; UpdateKeepsWellFormed needs
      it for a plain move. */
  lemma DistinctPrefix(s: seq<Pos>, n: nat)
    requires Distinct(s) && n <= |s|
    ensures Distinct(s[..n])
  {
  }
}
