/** The board: cells, collision (`isValidMove`), locking a piece into the grid
    (`mergePiece`) and removing full rows (`clearLines`). */
module Board {
  import opened Pieces

  /** A board cell: empty (the source's 0) or settled blocks of some kind. */
  datatype Cell = Empty | Filled(kind: Kind)

  /** Rows from the top (index 0) to the floor, each a sequence of columns. */
  type Grid = seq<seq<Cell>>

  predicate Shaped(g: Grid, width: int, height: int) {
    |g| == height && forall r :: 0 <= r < |g| ==> |g[r]| == width
  }

  function EmptyRow(width: nat): seq<Cell> {
    seq(width, _ => Empty)
  }

  function EmptyRows(n: nat, width: nat): (g: Grid)
    ensures Shaped(g, width, n)
    ensures forall r :: 0 <= r < n ==> g[r] == EmptyRow(width)
  {
    seq(n, _ => EmptyRow(width))
  }

  // ---------------------------------------------------------------------------
  // Collision

  /** A block may sit at column `col`, row `row`: the column is on the board, the
      row is above the floor, and when the row exists its cell is empty. A row
      above the board (negative) has no cells and obstructs nothing. */
  predicate Open(g: Grid, width: int, height: int, col: int, row: int) {
    0 <= col < width && row < height &&
    !(0 <= row < |g| && 0 <= col < |g[row]| && g[row][col].Filled?)
  }

  /** Every block of one shape row, placed from column `col` in board row `y`, is open. */
  predicate RowFits(g: Grid, width: int, height: int, row: seq<bool>, col: int, y: int)
    decreases |row|
  {
    row == [] ||
    ((!row[0] || Open(g, width, height, col, y)) && RowFits(g, width, height, row[1..], col + 1, y))
  }

  /** Every row of the shape, its top-left corner at column `x`, row `y`, fits. */
  predicate ShapeFits(g: Grid, width: int, height: int, s: Shape, x: int, y: int)
    decreases |s|
  {
    s == [] ||
    (RowFits(g, width, height, s[0], x, y) && ShapeFits(g, width, height, s[1..], x, y + 1))
  }

  /** `isValidMove`: the piece may stand where it is. */
  predicate Fits(g: Grid, width: int, height: int, p: Piece) {
    ShapeFits(g, width, height, p.shape, p.x, p.y)
  }

  lemma {:induction false} RowFitsIff(g: Grid, width: int, height: int, row: seq<bool>, col: int, y: int)
    ensures RowFits(g, width, height, row, col, y) <==>
      forall dx :: 0 <= dx < |row| && row[dx] ==> Open(g, width, height, col + dx, y)
    decreases |row|
  {
    if row != [] {
      RowFitsIff(g, width, height, row[1..], col + 1, y);
      assert forall dx :: 1 <= dx < |row| ==> row[dx] == row[1..][dx - 1];
    }
  }

  lemma {:induction false} ShapeFitsIff(g: Grid, width: int, height: int, s: Shape, x: int, y: int)
    ensures ShapeFits(g, width, height, s, x, y) <==>
      forall dy, dx :: 0 <= dy < |s| && 0 <= dx < |s[dy]| && s[dy][dx] ==> Open(g, width, height, x + dx, y + dy)
    decreases |s|
  {
    if s != [] {
      RowFitsIff(g, width, height, s[0], x, y);
      ShapeFitsIff(g, width, height, s[1..], x, y + 1);
      assert forall dy :: 1 <= dy < |s| ==> s[dy] == s[1..][dy - 1];
    }
  }

  /** `isValidMove` holds exactly when every block of the piece is in a column of
      the board, above the floor, and over an empty cell when its row is on the
      board; rows above the board are unobstructed and empty shape cells impose nothing. */
  lemma FitsIff(g: Grid, width: int, height: int, p: Piece)
    requires Shaped(g, width, height)
    ensures Fits(g, width, height, p) <==>
      forall dy, dx :: 0 <= dy < |p.shape| && 0 <= dx < |p.shape[dy]| && p.shape[dy][dx] ==>
        0 <= p.x + dx < width && p.y + dy < height &&
        (0 <= p.y + dy ==> g[p.y + dy][p.x + dx] == Empty)
  {
    ShapeFitsIff(g, width, height, p.shape, p.x, p.y);
  }

  /** A piece with a block that fits has its top row above the floor. */
  lemma FitsAboveFloor(g: Grid, width: int, height: int, p: Piece)
    requires Shaped(g, width, height) && HasBlock(p.shape) && Fits(g, width, height, p)
    ensures p.y < height
  {
    FitsIff(g, width, height, p);
    var dy, dx :| 0 <= dy < |p.shape| && 0 <= dx < |p.shape[dy]| && p.shape[dy][dx];
  }

  // ---------------------------------------------------------------------------
  // Locking

  /** The piece has a block over board cell (`row`, `col`). */
  predicate Covers(p: Piece, row: int, col: int) {
    0 <= row - p.y < |p.shape| && 0 <= col - p.x < |p.shape[row - p.y]| && p.shape[row - p.y][col - p.x]
  }

  /** Every block in a board row lies in a board column: what writing the piece
      into the grid needs so that no row grows beyond `width`. */
  predicate Lockable(width: int, height: int, p: Piece) {
    forall dy, dx :: 0 <= dy < |p.shape| && 0 <= dx < |p.shape[dy]| && p.shape[dy][dx] && 0 <= p.y + dy < height ==>
      0 <= p.x + dx < width
  }

  lemma FitsLockable(g: Grid, width: int, height: int, p: Piece)
    requires Shaped(g, width, height) && Fits(g, width, height, p)
    ensures Lockable(width, height, p)
  {
    FitsIff(g, width, height, p);
  }

  /** The grid with the piece's blocks written in as its kind. */
  function Merged(g: Grid, p: Piece): Grid {
    seq(|g|, r requires 0 <= r < |g| =>
      seq(|g[r]|, c requires 0 <= c < |g[r]| => if Covers(p, r, c) then Filled(p.kind) else g[r][c]))
  }

  /** Locking writes the piece's kind under every block of the piece whose row is
      on the board, and changes no other cell. */
  lemma MergedWritesPiece(g: Grid, width: int, height: int, p: Piece)
    requires Shaped(g, width, height) && Lockable(width, height, p)
    ensures Shaped(Merged(g, p), width, height)
    ensures forall dy, dx :: 0 <= dy < |p.shape| && 0 <= dx < |p.shape[dy]| && p.shape[dy][dx] && 0 <= p.y + dy < height ==>
      Merged(g, p)[p.y + dy][p.x + dx] == Filled(p.kind)
    ensures forall r, c :: 0 <= r < height && 0 <= c < width && !Covers(p, r, c) ==> Merged(g, p)[r][c] == g[r][c]
  {
    forall dy, dx | 0 <= dy < |p.shape| && 0 <= dx < |p.shape[dy]| && p.shape[dy][dx] && 0 <= p.y + dy < height
      ensures Merged(g, p)[p.y + dy][p.x + dx] == Filled(p.kind)
    {
      assert Covers(p, p.y + dy, p.x + dx);
    }
  }

  // ---------------------------------------------------------------------------
  // Clearing full rows

  /** Every cell of the row is filled. */
  predicate Full(row: seq<Cell>) {
    forall c :: 0 <= c < |row| ==> row[c].Filled?
  }

  predicate NoFullRow(g: Grid) {
    forall r :: 0 <= r < |g| ==> !Full(g[r])
  }

  function CountFull(g: Grid): (n: nat)
    ensures n <= |g|
  {
    if g == [] then 0 else (if Full(g[0]) then 1 else 0) + CountFull(g[1..])
  }

  /** The rows that are not full, in their order. */
  function Unfull(g: Grid): (u: Grid)
    ensures |u| + CountFull(g) == |g|
    ensures NoFullRow(u)
    ensures forall r :: 0 <= r < |u| ==> u[r] in g
  {
    if g == [] then []
    else if Full(g[0]) then Unfull(g[1..])
    else [g[0]] + Unfull(g[1..])
  }

  /** The grid after `clearLines`: the full rows are gone and as many empty rows
      are added on top. */
  function Cleared(g: Grid, width: nat): (c: Grid)
    ensures |c| == |g|
    ensures forall h :: Shaped(g, width, h) ==> Shaped(c, width, h)
    ensures width > 0 ==> NoFullRow(c)
    ensures forall r :: 0 <= r < CountFull(g) ==> c[r] == EmptyRow(width)
  {
    var e := EmptyRows(CountFull(g), width);
    assert width > 0 ==> forall r :: 0 <= r < |e| ==> !Full(e[r]) by {
      if width > 0 {
        forall r | 0 <= r < |e| ensures !Full(e[r]) { assert e[r][0] == Empty; }
      }
    }
    e + Unfull(g)
  }

  // The bottom-up scan of `clearLines`. While it examines row k of the original
  // grid g, the grid holds n empty rows, the rows of g down to k, and the rows of g
  // below k that were not full; n counts the full rows below k.

  function ScanGrid(g: Grid, width: nat, k: int, n: nat): (cur: Grid)
    requires -1 <= k < |g|
    ensures |cur| == n + |g| - CountFull(g[k + 1..])
  {
    EmptyRows(n, width) + g[..k + 1] + Unfull(g[k + 1..])
  }

  /** The row under examination is row k of the original grid; once every
      original row has been seen, what remains above is empty and so not full. */
  lemma ScanRow(g: Grid, width: nat, k: int, n: nat)
    requires -1 <= k < |g| && width > 0
    requires k < 0 ==> 0 <= n - 1
    ensures k >= 0 ==> |ScanGrid(g, width, k, n)| > k + n && ScanGrid(g, width, k, n)[k + n] == g[k]
    ensures k < 0 ==> forall y :: 0 <= y < n ==> !Full(ScanGrid(g, width, k, n)[y])
  {
    var e := EmptyRows(n, width);
    if k < 0 {
      forall y | 0 <= y < n
        ensures !Full(ScanGrid(g, width, k, n)[y])
      {
        assert ScanGrid(g, width, k, n)[y] == e[y];
        assert e[y][0] == Empty;
      }
    }
  }

  /** When every original row has been examined the scan has built `Cleared`. */
  lemma ScanDone(g: Grid, width: nat, n: nat)
    requires n == CountFull(g)
    ensures ScanGrid(g, width, -1, n) == Cleared(g, width)
  {
    assert g[..0] == [] && g[0..] == g;
  }

  /** Removing full row k and pushing an empty row on top advances the scan. */
  lemma ScanFullRow(g: Grid, width: nat, k: int, n: nat)
    requires 0 <= k < |g| && Full(g[k])
    ensures var cur := ScanGrid(g, width, k, n);
      |cur| > k + n &&
      [EmptyRow(width)] + cur[..k + n] + cur[k + n + 1..] == ScanGrid(g, width, k - 1, n + 1) &&
      CountFull(g[k..]) == CountFull(g[k + 1..]) + 1
  {
    assert g[k..] == [g[k]] + g[k + 1..];
    assert g[..k + 1] == g[..k] + [g[k]];
    assert EmptyRows(n + 1, width) == [EmptyRow(width)] + EmptyRows(n, width);
    var cur := ScanGrid(g, width, k, n);
    var e := EmptyRows(n, width);
    var rest := Unfull(g[k + 1..]);
    assert cur == e + g[..k] + [g[k]] + rest;
    assert cur[..k + n] == e + g[..k];
    assert cur[k + n + 1..] == rest;
  }

  /** Keeping a row that is not full advances the scan. */
  lemma ScanKeptRow(g: Grid, width: nat, k: int, n: nat)
    requires 0 <= k < |g| && !Full(g[k])
    ensures ScanGrid(g, width, k, n) == ScanGrid(g, width, k - 1, n)
    ensures CountFull(g[k..]) == CountFull(g[k + 1..])
  {
    assert g[k..] == [g[k]] + g[k + 1..];
    assert g[..k + 1] == g[..k] + [g[k]];
  }

  /** A step of the scan above the original rows: the row examined is one of the
      empty rows pushed on top, so it is not full. */
  lemma ScanAbove(g: Grid, width: nat, k: int, n: nat, y: int)
    requires width > 0 && k == -1 && 0 <= y < n
    ensures var cur := ScanGrid(g, width, k, n);
      y < |cur| && !Full(cur[y])
  {
    ScanRow(g, width, k, n);
  }

  /** A step of the scan at original row k: the row examined is g[k]; splicing it
      out when full, or keeping it otherwise, advances the scan to row k - 1. */
  lemma ScanOriginal(g: Grid, width: nat, k: int, n: nat, y: int)
    requires width > 0 && 0 <= k < |g| && y == k + n
    requires n == CountFull(g[k + 1..])
    ensures var cur := ScanGrid(g, width, k, n);
      y < |cur| && cur[y] == g[k] &&
      (Full(g[k]) ==>
        [EmptyRow(width)] + cur[..y] + cur[y + 1..] == ScanGrid(g, width, k - 1, n + 1) &&
        n + 1 == CountFull(g[k..])) &&
      (!Full(g[k]) ==>
        cur == ScanGrid(g, width, k - 1, n) && n == CountFull(g[k..]))
  {
    ScanRow(g, width, k, n);
    if Full(g[k]) {
      ScanFullRow(g, width, k, n);
    } else {
      ScanKeptRow(g, width, k, n);
    }
  }

  /** The row loop of `clearLines`: scanning from the floor up, each full row is
      spliced out and an empty row pushed on top, and the same index is examined
      again; returns the new rows and how many were removed. */
  method RemoveFullRows(g: Grid, width: nat) returns (rows: Grid, linesCleared: nat)
    requires width > 0
    ensures rows == Cleared(g, width) && linesCleared == CountFull(g)
  {
    rows := g;
    linesCleared := 0;
    var y := |g| - 1;
    // row k of g is the one now at row y, while k >= 0; once k is -1 every row
    // of g has been examined and only the empty rows pushed on top remain
    ghost var k := |g| - 1;
    while y >= 0
      invariant -1 <= k < |g| && -1 <= y < |g|
      invariant linesCleared == CountFull(g[k + 1..])
      invariant rows == ScanGrid(g, width, k, linesCleared)
      invariant k >= 0 ==> y == k + linesCleared
      invariant k < 0 ==> y < linesCleared
      decreases y + k + 2
    {
      if k >= 0 {
        ScanOriginal(g, width, k, linesCleared, y);
      } else {
        ScanAbove(g, width, k, linesCleared, y);
      }
      if Full(rows[y]) {
        rows := [EmptyRow(width)] + rows[..y] + rows[y + 1..];
        linesCleared := linesCleared + 1;
        k := k - 1;
        y := y + 1;
      } else if k >= 0 {
        k := k - 1;
      }
      y := y - 1;
    }
    assert k == -1 && g[0..] == g;
    ScanDone(g, width, linesCleared);
  }

  lemma {:induction false} CountFullAppend(a: Grid, b: Grid)
    ensures CountFull(a + b) == CountFull(a) + CountFull(b)
  {
    if a != [] {
      assert (a + b)[1..] == a[1..] + b;
      CountFullAppend(a[1..], b);
    } else {
      assert a + b == b;
    }
  }

  lemma {:induction false} UnfullAppend(a: Grid, b: Grid)
    ensures Unfull(a + b) == Unfull(a) + Unfull(b)
  {
    if a != [] {
      assert (a + b)[1..] == a[1..] + b;
      UnfullAppend(a[1..], b);
    } else {
      assert a + b == b;
    }
  }

  /** Each row that is not full drops by exactly the number of full rows beneath
      it; so the surviving rows keep their order. */
  lemma ClearedDropsRows(g: Grid, width: nat, i: int)
    requires 0 <= i < |g| && !Full(g[i])
    ensures i + CountFull(g[i + 1..]) < |g|
    ensures Cleared(g, width)[i + CountFull(g[i + 1..])] == g[i]
  {
    assert g == g[..i] + ([g[i]] + g[i + 1..]);
    CountFullAppend(g[..i], [g[i]] + g[i + 1..]);
    UnfullAppend(g[..i], [g[i]] + g[i + 1..]);
    CountFullAppend([g[i]], g[i + 1..]);
    UnfullAppend([g[i]], g[i + 1..]);
    assert Unfull([g[i]]) == [g[i]];
    assert CountFull([g[i]]) == 0;
    var u := Unfull(g[..i]);
    assert |u| + CountFull(g[..i]) == i;
    assert Unfull(g) == u + [g[i]] + Unfull(g[i + 1..]);
  }

  /** Surviving rows keep their relative order: of two rows that are not full,
      the upper one lands in the cleared grid above the lower one. */
  lemma ClearedKeepsOrder(g: Grid, width: nat, i: int, j: int)
    requires 0 <= i < j < |g| && !Full(g[i]) && !Full(g[j])
    ensures var c, i', j' := Cleared(g, width), i + CountFull(g[i + 1..]), j + CountFull(g[j + 1..]);
      0 <= i' < j' < |c| && c[i'] == g[i] && c[j'] == g[j]
  {
    ClearedDropsRows(g, width, i);
    ClearedDropsRows(g, width, j);
    assert g[i + 1..] == g[i + 1..j] + g[j..];
    CountFullAppend(g[i + 1..j], g[j..]);
    assert g[j..] == [g[j]] + g[j + 1..];
    CountFullAppend([g[j]], g[j + 1..]);
    assert CountFull([g[j]]) == 0;
    assert CountFull(g[i + 1..j]) <= |g[i + 1..j]|;
  }

  /** Clearing a grid with no full row changes nothing. */
  lemma {:induction false} ClearedNothingFull(g: Grid, width: nat)
    requires NoFullRow(g)
    ensures CountFull(g) == 0 && Cleared(g, width) == g
    decreases |g|
  {
    if g != [] {
      ClearedNothingFull(g[1..], width);
      assert [g[0]] + g[1..] == g;
    }
  }

  /** Points for rows cleared by one call; the source's table has entries for 0 to 4. */
  function LinePoints(n: nat): nat
    requires n <= 4
  {
    match n
    case 0 => 0
    case 1 => 100
    case 2 => 300
    case 3 => 500
    case 4 => 800
  }

  lemma {:induction false} CountFullWithin(s: Grid, lo: int, hi: int)
    requires 0 <= lo <= hi
    requires forall r :: 0 <= r < |s| && Full(s[r]) ==> lo <= r < hi
    ensures CountFull(s) <= hi - lo
    decreases |s|
  {
    if s != [] {
      var lo' := if lo > 0 then lo - 1 else 0;
      var hi' := if hi - 1 > lo' then hi - 1 else lo';
      forall r | 0 <= r < |s[1..]| && Full(s[1..][r])
        ensures lo' <= r < hi'
      {
        assert s[1..][r] == s[r + 1];
      }
      CountFullWithin(s[1..], lo', hi');
    }
  }

  /** Locking a piece at most 4 rows tall into a grid with no full row leaves at
      most 4 full rows, so `linePoints[linesCleared]` is always defined. */
  lemma MergeFillsAtMostFour(g: Grid, width: int, height: int, p: Piece)
    requires Shaped(g, width, height) && NoFullRow(g) && |p.shape| <= 4
    ensures CountFull(Merged(g, p)) <= 4
  {
    var m := Merged(g, p);
    var lo := if p.y > 0 then p.y else 0;
    var hi := if p.y + |p.shape| > lo then p.y + |p.shape| else lo;
    forall r | 0 <= r < |m| && !(lo <= r < hi)
      ensures m[r] == g[r]
    {
    }
    CountFullWithin(m, lo, hi);
  }
}
