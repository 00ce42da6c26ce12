/** Class `Tetris`: the engine object whose methods update the board, the
    pieces, the score, the level and the game-over flag in place. */
module Engine {
  import opened Pieces
  import opened Board
  import opened Game

  class Tetris {
    const width: nat
    const height: nat
    var grid: Grid
    var score: int
    var gameOver: bool
    var speedLevel: int
    var currentPiece: Option<Piece>
    var nextPiece: Piece

    /** The object's fields as a value. */
    function Model(): State
      reads this
    {
      State(width, height, grid, score, speedLevel, gameOver, currentPiece, nextPiece)
    }

    ghost predicate Valid()
      reads this
    {
      Inv(Model())
    }

    /** An empty board, score 0, level 1, no falling piece and a next piece of kind `next`. */
    constructor (width: nat, height: nat, next: Kind)
      requires width > 0
      ensures Model() == Initial(width, height, next) && Valid()
    {
      this.width := width;
      this.height := height;
      grid := EmptyRows(height, width);
      score := 0;
      gameOver := false;
      speedLevel := 1;
      currentPiece := None;
      nextPiece := Generate(width, next);
    }

    /** `rotate`: the piece turned clockwise in place if the turned piece fits,
        otherwise the piece as given. */
    method Rotate(p: Piece) returns (r: Piece)
      requires Rectangular(p.shape)
      ensures var turned := p.(shape := Rotated(p.shape));
        r == if Fits(grid, width, height, turned) then turned else p
    {
      var shape := RotateShape(p.shape);
      var rotated := Piece(p.kind, shape, p.x, p.y);
      if Fits(grid, width, height, rotated) {
        r := rotated;
      } else {
        r := p;
      }
    }

    /** `movePiece(dx, dy)`. */
    method MovePiece(dx: int, dy: int) returns (moved: bool)
      modifies this`currentPiece
      ensures moved == CanMove(old(Model()), dx, dy)
      ensures Model() == Moved(old(Model()), dx, dy)
      ensures old(Valid()) ==> Valid()
    {
      if Valid() {
        MovedKeepsInv(Model(), dx, dy);
      }
      if currentPiece.None? {
        return false;
      }
      var candidate := Translate(currentPiece.value, dx, dy);
      if Fits(grid, width, height, candidate) {
        currentPiece := Some(candidate);
        return true;
      }
      return false;
    }

    /** The driver's rotate command: the falling piece, if any, becomes what
        `rotate` returns for it. */
    method RotateCurrent()
      requires currentPiece.Some? ==> Rectangular(currentPiece.value.shape)
      modifies this`currentPiece
      ensures Model() == Turned(old(Model()))
      ensures old(Valid()) ==> Valid()
    {
      if Valid() {
        TurnedKeepsInv(Model());
      }
      if currentPiece.Some? {
        var turned := Rotate(currentPiece.value);
        currentPiece := Some(turned);
      }
    }

    /** `mergePiece`: writes the falling piece's kind under each of its blocks
        whose row is on the board, and adds 10 points. */
    method MergePiece()
      requires Shaped(grid, width, height)
      requires currentPiece.Some? ==> Lockable(width, height, currentPiece.value)
      modifies this`grid, this`score
      ensures Model() == Locked(old(Model()))
    {
      if currentPiece.None? {
        return;
      }
      var piece := currentPiece.value;
      ghost var g0 := grid;
      ghost var s0 := Model();
      var dy := 0;
      while dy < |piece.shape|
        modifies this`grid
        invariant 0 <= dy <= |piece.shape|
        invariant Shaped(grid, width, height)
        invariant forall r, c :: 0 <= r < height && 0 <= c < width ==>
          grid[r][c] == if Covers(piece, r, c) && r - piece.y < dy then Filled(piece.kind) else g0[r][c]
      {
        var row := piece.shape[dy];
        var dx := 0;
        while dx < |row|
          modifies this`grid
          invariant 0 <= dx <= |row|
          invariant Shaped(grid, width, height)
          invariant forall r, c :: 0 <= r < height && 0 <= c < width ==>
            grid[r][c] ==
              if Covers(piece, r, c) && (r - piece.y < dy || (r - piece.y == dy && c - piece.x < dx))
              then Filled(piece.kind) else g0[r][c]
        {
          if row[dx] {
            var y := piece.y + dy;
            var x := piece.x + dx;
            if 0 <= y < height {
              grid := grid[y := grid[y][x := Filled(piece.kind)]];
            }
          }
          dx := dx + 1;
        }
        dy := dy + 1;
      }
      forall r | 0 <= r < height
        ensures grid[r] == Merged(g0, piece)[r]
      {
      }
      assert grid == Merged(g0, piece);
      score := score + 10;
      assert Model() == s0.(grid := Merged(g0, piece), score := s0.score + 10);
    }

    /** `clearLines`: removes the full rows, pushing an empty row on top for
        each, then scores the rows removed. */
    method ClearLines()
      requires width > 0 && Shaped(grid, width, height) && CountFull(grid) <= 4
      modifies this`grid, this`score, this`speedLevel
      ensures Model() == ClearedRows(old(Model()))
    {
      ghost var s0 := Model();
      var linesCleared;
      grid, linesCleared := RemoveFullRows(grid, width);
      if linesCleared > 0 {
        score := score + LinePoints(linesCleared);
        if score / 300 > speedLevel - 1 {
          speedLevel := speedLevel + 1;
        }
      }
      ClearedRowsFields(s0, linesCleared, score);
    }

    /** `spawnPiece`, with `k` the kind chosen for the new next piece. */
    method SpawnPiece(k: Kind)
      modifies this`currentPiece, this`nextPiece, this`gameOver
      ensures Model() == Spawned(old(Model()), k)
    {
      currentPiece := Some(nextPiece);
      nextPiece := Generate(width, k);
      if !Fits(grid, width, height, currentPiece.value) {
        gameOver := true;
      }
    }

    /** `tick`, with `k` the kind for the next piece should one be spawned. */
    method Tick(k: Kind)
      requires Valid()
      modifies this
      ensures Valid() && Model() == Ticked(old(Model()), k)
    {
      TickedKeepsInv(Model(), k);
      if gameOver {
        return;
      }
      if currentPiece.None? {
        SpawnPiece(k);
        return;
      }
      var moved := MovePiece(0, 1);
      if !moved {
        FitsLockable(grid, width, height, currentPiece.value);
        MergeFillsAtMostFour(grid, width, height, currentPiece.value);
        MergePiece();
        ClearLines();
        SpawnPiece(k);
      }
    }

    /** `hardDrop`: moves the piece down while it can, then ticks once. */
    method HardDrop(k: Kind)
      requires Valid()
      modifies this
      ensures Valid() && Model() == HardDropped(old(Model()), k)
    {
      ghost var start := Model();
      var moved := MovePiece(0, 1);
      if moved {
        MovedKeepsInv(start, 0, 1);
        FitsAboveFloor(grid, width, height, currentPiece.value);
      }
      while moved
        invariant Valid()
        invariant Dropped(Model()) == Dropped(old(Model()))
        invariant moved ==> currentPiece.Some? && currentPiece.value.y < height
        invariant !moved ==> !CanMove(Model(), 0, 1)
        decreases (if currentPiece.Some? then height - currentPiece.value.y else 0) * 2 + (if moved then 1 else 0)
      {
        ghost var before := Model();
        moved := MovePiece(0, 1);
        if moved {
          MovedKeepsInv(before, 0, 1);
          FitsAboveFloor(grid, width, height, currentPiece.value);
        }
      }
      Tick(k);
    }
  }
}
