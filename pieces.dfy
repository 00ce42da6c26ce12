/** Piece kinds, their canonical shapes, piece generation and rotation
    (the `shapes` table, `generatePiece` and `rotate` of class `Tetris`). */
module Pieces {

  datatype Kind = I | O | T | S | Z | J | L

  /** An occupancy matrix, row by row: `true` where the source's 0/1 matrix holds 1. */
  type Shape = seq<seq<bool>>

  /** A piece instance: its kind, its current rotation and the board position
      (column `x`, row `y`) of the top-left corner of its bounding box. */
  datatype Piece = Piece(kind: Kind, shape: Shape, x: int, y: int)

  /** Every row has as many cells as the first one, and there is at least one cell. */
  predicate Rectangular(s: Shape) {
    |s| > 0 && |s[0]| > 0 && forall r :: 0 <= r < |s| ==> |s[r]| == |s[0]|
  }

  predicate HasBlock(s: Shape) {
    exists r, c :: 0 <= r < |s| && 0 <= c < |s[r]| && s[r][c]
  }

  /** The bottom row of the shape holds a block. */
  predicate BottomRowBlock(s: Shape)
    requires |s| > 0
  {
    var last := s[|s| - 1];
    exists c :: 0 <= c < |last| && last[c]
  }

  /** The shapes the engine ever holds: rectangular, at most 4 by 4, with a block. */
  predicate WellFormed(s: Shape) {
    Rectangular(s) && |s| <= 4 && |s[0]| <= 4 && HasBlock(s)
  }

  /** The canonical shape of each kind. */
  function BaseShape(k: Kind): (s: Shape)
    ensures WellFormed(s)
  {
    var s := match k
      case I => [[true, true, true, true]]
      case O => [[true, true], [true, true]]
      case T => [[false, true, false], [true, true, true]]
      case S => [[false, true, true], [true, true, false]]
      case Z => [[true, true, false], [false, true, true]]
      case J => [[true, false, false], [true, true, true]]
      case L => [[false, false, true], [true, true, true]];
    assert s[|s| - 1][1];
    s
  }

  /** A fresh piece of kind `k`, horizontally centred (rounding to the left) in
      the top row of a board `width` columns wide. */
  function Generate(width: int, k: Kind): (p: Piece)
    ensures p.kind == k && p.shape == BaseShape(k) && p.y == 0
    ensures 0 <= width - |p.shape[0]| - 2 * p.x <= 1
  {
    var s := BaseShape(k);
    Piece(k, s, (width - |s[0]|) / 2, 0)
  }

  /** The shape turned 90 degrees clockwise: an R-by-C shape becomes C-by-R and
      the cell in row y, column x moves to row x, column R-1-y. */
  function Rotated(s: Shape): (r: Shape)
    requires Rectangular(s)
    ensures Rectangular(r) && |r| == |s[0]| && |r[0]| == |s|
    ensures forall y, x :: 0 <= y < |s| && 0 <= x < |s[0]| ==> r[x][|s| - 1 - y] == s[y][x]
  {
    seq(|s[0]|, x requires 0 <= x < |s[0]| =>
      seq(|s|, j requires 0 <= j < |s| => s[|s| - 1 - j][x]))
  }

  /** Builds the rotated shape cell by cell, as `rotate` fills `newShape`. */
  method RotateShape(s: Shape) returns (r: Shape)
    requires Rectangular(s)
    ensures r == Rotated(s)
  {
    var rows, cols := |s|, |s[0]|;
    r := seq(cols, _ => seq(rows, _ => false));
    var y := 0;
    while y < rows
      invariant 0 <= y <= rows
      invariant |r| == cols && forall x :: 0 <= x < cols ==> |r[x]| == rows
      invariant forall x, j :: 0 <= x < cols && 0 <= j < rows ==>
        r[x][j] == (rows - 1 - j < y && s[rows - 1 - j][x])
    {
      var x := 0;
      while x < |s[y]|
        invariant 0 <= x <= cols
        invariant |r| == cols && forall x' :: 0 <= x' < cols ==> |r[x']| == rows
        invariant forall x', j :: 0 <= x' < cols && 0 <= j < rows ==>
          r[x'][j] == ((rows - 1 - j < y || (rows - 1 - j == y && x' < x)) && s[rows - 1 - j][x'])
      {
        r := r[x := r[x][rows - 1 - y := s[y][x]]];
        x := x + 1;
      }
      y := y + 1;
    }
    forall x | 0 <= x < cols
      ensures r[x] == Rotated(s)[x]
    {
    }
  }

  lemma RotatedWellFormed(s: Shape)
    requires WellFormed(s)
    ensures WellFormed(Rotated(s))
  {
    var y, x :| 0 <= y < |s| && 0 <= x < |s[y]| && s[y][x];
    assert Rotated(s)[x][|s| - 1 - y];
  }

  /** The shape turned 180 degrees. */
  function HalfTurn(s: Shape): (r: Shape)
    requires Rectangular(s)
  {
    seq(|s|, a requires 0 <= a < |s| =>
      seq(|s[0]|, b requires 0 <= b < |s[0]| => s[|s| - 1 - a][|s[0]| - 1 - b]))
  }

  lemma RotatedTwice(s: Shape)
    requires Rectangular(s)
    ensures Rectangular(Rotated(s))
    ensures Rotated(Rotated(s)) == HalfTurn(s)
  {
    var r1 := Rotated(s);
    var r2 := Rotated(r1);
    forall a | 0 <= a < |s|
      ensures r2[a] == HalfTurn(s)[a]
    {
      forall b | 0 <= b < |s[0]|
        ensures r2[a][b] == s[|s| - 1 - a][|s[0]| - 1 - b]
      {
        assert r2[a][b] == r1[|s[0]| - 1 - b][a];
      }
    }
  }

  /** Four quarter turns give the shape back: `rotate` loses nothing. */
  lemma RotatedFourTimes(s: Shape)
    requires Rectangular(s)
    ensures Rotated(Rotated(Rotated(Rotated(s)))) == s
  {
    RotatedTwice(s);
    var h := HalfTurn(s);
    assert Rectangular(h);
    RotatedTwice(h);
    forall a | 0 <= a < |s|
      ensures HalfTurn(h)[a] == s[a]
    {
    }
  }

  /** The square is symmetric: turning it leaves its shape as it was. */
  lemma RotatedSquare()
    ensures Rotated(BaseShape(O)) == BaseShape(O)
  {
    var s := BaseShape(O);
    assert Rotated(s)[0] == s[0] && Rotated(s)[1] == s[1];
  }
}
