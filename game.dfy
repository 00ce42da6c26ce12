/** The engine's state and, for each operation of class `Tetris`, the state it
    leaves behind; the class methods are proved to produce exactly these states. */
module Game {
  import opened Pieces
  import opened Board

  datatype Option<T> = None | Some(value: T)

  /** The fields of a `Tetris` object. `current` is absent only before the first
      spawn; `next` always holds a piece, since `generatePiece` always returns one. */
  datatype State = State(
    width: nat, height: nat, grid: Grid,
    score: int, speedLevel: int, gameOver: bool,
    current: Option<Piece>, next: Piece)

  /** What holds of every state the engine reaches, the falling piece aside: the
      board keeps its shape and never rests with a full row, the level stays
      within what the score allows, and the pieces are well formed. */
  predicate Consistent(s: State) {
    s.width > 0 &&
    Shaped(s.grid, s.width, s.height) &&
    NoFullRow(s.grid) &&
    0 <= s.score && 1 <= s.speedLevel <= s.score / 300 + 1 &&
    WellFormed(s.next.shape) &&
    (s.current.Some? ==> WellFormed(s.current.value.shape))
  }

  /** ... and while the game runs, the falling piece fits. */
  predicate Inv(s: State) {
    Consistent(s) &&
    (!s.gameOver && s.current.Some? ==> Fits(s.grid, s.width, s.height, s.current.value))
  }

  /** The state the constructor builds. */
  function Initial(width: nat, height: nat, k: Kind): (s: State)
    requires width > 0
    ensures Inv(s)
    ensures s.current.None? && !s.gameOver && s.score == 0 && s.speedLevel == 1
    ensures Shaped(s.grid, width, height) && forall r, c :: 0 <= r < height && 0 <= c < width ==> s.grid[r][c] == Empty
  {
    var g := EmptyRows(height, width);
    assert NoFullRow(g) by {
      forall r | 0 <= r < |g| ensures !Full(g[r]) { assert g[r][0] == Empty; }
    }
    State(width, height, g, 0, 1, false, None, Generate(width, k))
  }

  function Translate(p: Piece, dx: int, dy: int): Piece {
    p.(x := p.x + dx, y := p.y + dy)
  }

  /** `movePiece(dx, dy)` reports success. */
  predicate CanMove(s: State, dx: int, dy: int) {
    s.current.Some? && Fits(s.grid, s.width, s.height, Translate(s.current.value, dx, dy))
  }

  /** After `movePiece(dx, dy)`: the whole offset applies or none of it. */
  function Moved(s: State, dx: int, dy: int): State {
    if CanMove(s, dx, dy) then s.(current := Some(Translate(s.current.value, dx, dy))) else s
  }

  /** After `mergePiece`. */
  function Locked(s: State): State
    requires s.current.Some? ==> Lockable(s.width, s.height, s.current.value)
  {
    match s.current
    case None => s
    case Some(p) => s.(grid := Merged(s.grid, p), score := s.score + 10)
  }

  /** After `clearLines`: full rows replaced by empty rows on top, and when any
      row went, its points added and the level raised by one if the score has
      passed the level's threshold. */
  function ClearedRows(s: State): State
    requires CountFull(s.grid) <= 4
  {
    var n := CountFull(s.grid);
    var score := if n > 0 then s.score + LinePoints(n) else s.score;
    var level := if n > 0 && score / 300 > s.speedLevel - 1 then s.speedLevel + 1 else s.speedLevel;
    s.(grid := Cleared(s.grid, s.width), score := score, speedLevel := level)
  }

  /** `ClearedRows` unfolded field by field, given the number of full rows: not a
      property of its own, but the form in which the class method reaches it. */
  lemma ClearedRowsFields(s: State, n: nat, score: int)
    requires n == CountFull(s.grid) <= 4
    requires score == if n > 0 then s.score + LinePoints(n) else s.score
    ensures ClearedRows(s) == s.(grid := Cleared(s.grid, s.width), score := score,
      speedLevel := if n > 0 && score / 300 > s.speedLevel - 1 then s.speedLevel + 1 else s.speedLevel)
  {
  }

  /** After `spawnPiece`, with `k` the kind chosen for the new next piece. */
  function Spawned(s: State, k: Kind): State {
    s.(current := Some(s.next), next := Generate(s.width, k),
       gameOver := s.gameOver || !Fits(s.grid, s.width, s.height, s.next))
  }

  /** After `tick`. */
  function Ticked(s: State, k: Kind): State
    requires Inv(s)
  {
    if s.gameOver then s
    else if s.current.None? then Spawned(s, k)
    else if CanMove(s, 0, 1) then Moved(s, 0, 1)
    else
      FitsLockable(s.grid, s.width, s.height, s.current.value);
      MergeFillsAtMostFour(s.grid, s.width, s.height, s.current.value);
      Spawned(ClearedRows(Locked(s)), k)
  }

  lemma MovedKeepsInv(s: State, dx: int, dy: int)
    requires Inv(s)
    ensures Inv(Moved(s, dx, dy))
  {
  }

  /** The state after the `while (movePiece(0, 1))` loop of `hardDrop`: only the
      falling piece has changed, it has moved straight down, and it can move down
      no further. */
  function Dropped(s: State): (r: State)
    requires Inv(s)
    ensures Inv(r) && !CanMove(r, 0, 1)
    ensures r == s.(current := r.current)
    ensures s.current.Some? ==> (r.current.Some? &&
      r.current.value == s.current.value.(y := r.current.value.y) &&
      r.current.value.y >= s.current.value.y)
    ensures s.current.None? ==> r == s
    decreases if s.current.Some? then s.height - s.current.value.y else 0
  {
    if CanMove(s, 0, 1) then
      MovedKeepsInv(s, 0, 1);
      FitsAboveFloor(s.grid, s.width, s.height, Translate(s.current.value, 0, 1));
      Dropped(Moved(s, 0, 1))
    else s
  }

  /** After `hardDrop`. */
  function HardDropped(s: State, k: Kind): State
    requires Inv(s)
  {
    Ticked(Dropped(s), k)
  }

  /** The driver's rotate command, `currentPiece = rotate(currentPiece)` when
      there is a falling piece. */
  function Turned(s: State): State
    requires s.current.Some? ==> Rectangular(s.current.value.shape)
  {
    match s.current
    case None => s
    case Some(p) =>
      var turned := p.(shape := Rotated(p.shape));
      s.(current := Some(if Fits(s.grid, s.width, s.height, turned) then turned else p))
  }

  // ---------------------------------------------------------------------------
  // Properties of single operations

  /** Spawning restores the whole invariant: after a spawn the game runs only if
      the new falling piece fits. */
  lemma SpawnedKeepsInv(s: State, k: Kind)
    requires Consistent(s)
    ensures Inv(Spawned(s, k))
  {
  }

  /** A tick keeps every invariant of the engine. */
  lemma TickedKeepsInv(s: State, k: Kind)
    requires Inv(s)
    ensures Inv(Ticked(s, k))
  {
    if !s.gameOver && s.current.Some? && !CanMove(s, 0, 1) {
      var p := s.current.value;
      FitsLockable(s.grid, s.width, s.height, p);
      MergedWritesPiece(s.grid, s.width, s.height, p);
      MergeFillsAtMostFour(s.grid, s.width, s.height, p);
      var l := Locked(s);
      var c := ClearedRows(l);
      assert s.score / 300 <= l.score / 300 <= c.score / 300;
      assert Consistent(c);
      SpawnedKeepsInv(c, k);
    }
  }

  /** Rotating the falling piece keeps the invariant: the turned shape is well
      formed and it replaces the piece only where it fits. */
  lemma TurnedKeepsInv(s: State)
    requires Inv(s)
    ensures Inv(Turned(s))
  {
    if s.current.Some? {
      RotatedWellFormed(s.current.value.shape);
    }
  }

  lemma HardDroppedKeepsInv(s: State, k: Kind)
    requires Inv(s)
    ensures Inv(HardDropped(s, k))
  {
    TickedKeepsInv(Dropped(s), k);
  }

  /** Moving by an offset and back by its opposite restores the state. */
  lemma MovedBack(s: State, dx: int, dy: int)
    requires Inv(s) && !s.gameOver && CanMove(s, dx, dy)
    ensures Moved(Moved(s, dx, dy), -dx, -dy) == s
  {
    var p := s.current.value;
    assert Translate(Translate(p, dx, dy), -dx, -dy) == p;
  }

  /** Clearing rows changes score and level only when some row was full; it adds
      the table's points and raises the level by at most one. */
  lemma ClearedRowsScore(s: State)
    requires CountFull(s.grid) <= 4 && s.score >= 0
    ensures var c := ClearedRows(s);
      (CountFull(s.grid) == 0 ==> c.score == s.score && c.speedLevel == s.speedLevel) &&
      c.score - s.score == [0, 100, 300, 500, 800][CountFull(s.grid)] &&
      s.speedLevel <= c.speedLevel <= s.speedLevel + 1 &&
      (c.speedLevel == s.speedLevel + 1 <==> CountFull(s.grid) > 0 && c.score / 300 >= s.speedLevel)
  {
  }

  /** `hardDrop` on a running game locks the piece where it came to rest, clears
      rows and spawns: it never leaves the piece floating. */
  lemma HardDropLocks(s: State, k: Kind)
    requires Inv(s) && !s.gameOver && s.current.Some?
    ensures var d := Dropped(s);
      !d.gameOver && d.current.Some? && !CanMove(d, 0, 1) &&
      Lockable(d.width, d.height, d.current.value) && CountFull(Locked(d).grid) <= 4 &&
      HardDropped(s, k) == Spawned(ClearedRows(Locked(d)), k)
  {
    var d := Dropped(s);
    FitsLockable(d.grid, d.width, d.height, d.current.value);
    MergeFillsAtMostFour(d.grid, d.width, d.height, d.current.value);
  }

  /** On an empty board a piece whose bottom row has a block drops to the floor. */
  lemma {:induction false} DroppedOnEmptyBoard(s: State)
    requires Inv(s) && s.current.Some? && Fits(s.grid, s.width, s.height, s.current.value)
    requires forall r, c :: 0 <= r < s.height && 0 <= c < s.width ==> s.grid[r][c] == Empty
    requires |s.current.value.shape| > 0 && BottomRowBlock(s.current.value.shape)
    ensures Dropped(s).current.value.y == s.height - |s.current.value.shape|
    decreases s.height - s.current.value.y
  {
    var p := s.current.value;
    var rows := |p.shape|;
    var c :| 0 <= c < |p.shape[rows - 1]| && p.shape[rows - 1][c];
    FitsIff(s.grid, s.width, s.height, p);
    assert p.y + rows - 1 < s.height;
    var q := Translate(p, 0, 1);
    FitsIff(s.grid, s.width, s.height, q);
    if p.y + rows < s.height {
      assert CanMove(s, 0, 1);
      DroppedOnEmptyBoard(Moved(s, 0, 1));
    } else {
      assert !Fits(s.grid, s.width, s.height, q) by {
        assert p.shape[rows - 1][c] && !(q.y + rows - 1 < s.height);
      }
    }
  }

  // ---------------------------------------------------------------------------
  // Sequences of commands

  /** What a driver may ask of the engine; each command carries the kind chosen
      for the next piece in case the command spawns one. */
  datatype Command = MoveBy(dx: int, dy: int) | Turn | Advance(next: Kind) | Drop(next: Kind)

  function Step(s: State, c: Command): (r: State)
    requires Inv(s)
    ensures Inv(r)
  {
    match c
    case MoveBy(dx, dy) => MovedKeepsInv(s, dx, dy); Moved(s, dx, dy)
    case Turn => TurnedKeepsInv(s); Turned(s)
    case Advance(k) => TickedKeepsInv(s, k); Ticked(s, k)
    case Drop(k) => HardDroppedKeepsInv(s, k); HardDropped(s, k)
  }

  function Run(s: State, cs: seq<Command>): (r: State)
    requires Inv(s)
    ensures Inv(r)
    decreases |cs|
  {
    if cs == [] then s else Run(Step(s, cs[0]), cs[1..])
  }

  /** Every command leaves score and level where they were or higher. */
  lemma StepScoreGrows(s: State, c: Command)
    requires Inv(s)
    ensures Step(s, c).score >= s.score && Step(s, c).speedLevel >= s.speedLevel
  {
    match c
    case MoveBy(dx, dy) =>
    case Turn =>
    case Advance(k) =>
    case Drop(k) =>
  }

  /** Score and level never decrease, whatever the commands. */
  lemma {:induction false} ScoreNeverDecreases(s: State, cs: seq<Command>)
    requires Inv(s)
    ensures Run(s, cs).score >= s.score && Run(s, cs).speedLevel >= s.speedLevel
    decreases |cs|
  {
    if cs != [] {
      StepScoreGrows(s, cs[0]);
      ScoreNeverDecreases(Step(s, cs[0]), cs[1..]);
    }
  }

  /** Once the game is over it stays over, and no command changes the board, the
      score, the level or the next piece. */
  lemma {:induction false} GameOverIsFinal(s: State, cs: seq<Command>)
    requires Inv(s) && s.gameOver
    ensures var r := Run(s, cs);
      r.gameOver && r.grid == s.grid && r.score == s.score &&
      r.speedLevel == s.speedLevel && r.next == s.next
    decreases |cs|
  {
    if cs != [] {
      GameOverIsFinal(Step(s, cs[0]), cs[1..]);
    }
  }
}
