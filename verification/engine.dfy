/**
 The game engine: one immutable record holding the board, the falling piece,
 the score and the level, and the transitions the game applies to it on a
 tick or a key press. The random shape choice is the parameter `k`; the
 signals the game acts on outside the state (restarting the tick timer on a
 level-up, stopping it on game over) are returned as flags.
 */
module Engine {
  import opened Grid
  import opened Tetromino
  import opened Collision
  import opened Lines
  import opened Scoring

  datatype Piece = Piece(shape: Mask, x: int, y: int)

  datatype Game = Game(board: Board, piece: Piece, score: int, level: int)

  /** The shape of the state the engine maintains: a 20 by 10 board of 0/1
      cells, a rectangular piece at a non-negative row whose set cells are all
      on the board, and a non-negative score at level 1 or above. The piece
      may overlap the board only after a spawn that ended the game. */
  predicate WellFormed(g: Game) {
    && IsBoard(g.board)
    && Binary(g.board)
    && IsMask(g.piece.shape)
    && g.piece.y >= 0
    && InBounds(g.piece.shape, g.piece.x, g.piece.y)
    && g.score >= 0
    && g.level >= 1
  }

  /** The piece sits where the validity check accepts it. */
  predicate Placed(g: Game)
    requires IsBoard(g.board) && g.piece.y >= 0
  {
    Fits(g.board, g.piece.shape, g.piece.x, g.piece.y)
  }

  datatype Spawned = Spawned(piece: Piece, gameOver: bool)

  /** Shape `k` of the catalog at the top row, centred: column 5 minus half
      the shape's width. */
  function NewPiece(b: Board, k: int): (r: Spawned)
    requires IsBoard(b) && 0 <= k < |Shapes|
    ensures r.piece.shape == Shapes[k] && r.piece.y == 0
    ensures r.piece.x == Width / 2 - |Shapes[k][0]| / 2
    ensures IsMask(r.piece.shape) && InBounds(r.piece.shape, r.piece.x, r.piece.y)
    ensures r.gameOver <==> !Fits(b, r.piece.shape, r.piece.x, r.piece.y)
  {
    SpawnInBounds(k);
    var m := Shapes[k];
    var x := Width / 2 - |m[0]| / 2;
    Spawned(Piece(m, x, 0), !Fits(b, m, x, 0))
  }

  lemma SpawnInBounds(k: int)
    requires 0 <= k < |Shapes|
    ensures IsMask(Shapes[k])
    ensures InBounds(Shapes[k], Width / 2 - |Shapes[k][0]| / 2, 0)
  {
    CatalogShapes(k);
  }

  /** Every catalog shape has a cell in its top row at column 5, so a spawn
      onto a board whose top row is occupied there always ends the game. */
  lemma BlockedSpawnEndsGame(b: Board, k: int)
    requires IsBoard(b) && 0 <= k < |Shapes|
    requires b[0][Width / 2] != 0
    ensures NewPiece(b, k).gameOver
  {
    CatalogShapes(k);
    var m := Shapes[k];
    var w := |m[0]|;
    assert Width / 2 - w / 2 + w / 2 == Width / 2;
    assert m[0][w / 2] != 0;
  }

  /** A spawn onto an empty board never ends the game. */
  lemma SpawnOnEmptyBoardFits(k: int)
    requires 0 <= k < |Shapes|
    ensures !NewPiece(EmptyBoard(), k).gameOver
  {
  }

  /** The state a new game starts in: empty board, score 0, level 1, a fresh
      piece. The spawn inside it cannot end the game. */
  function StartGame(k: int): (g: Game)
    requires 0 <= k < |Shapes|
    ensures g.board == EmptyBoard() && g.score == 0 && g.level == 1
    ensures g.piece == NewPiece(EmptyBoard(), k).piece
    ensures WellFormed(g) && Placed(g)
    ensures Consistent(g.score, g.level)
  {
    SpawnOnEmptyBoardFits(k);
    Game(EmptyBoard(), NewPiece(EmptyBoard(), k).piece, 0, 1)
  }

  /** Shift one column left when the shifted piece fits, else do nothing. */
  function MoveLeft(g: Game): (r: Game)
    requires IsBoard(g.board) && g.piece.y >= 0
    ensures r.board == g.board && r.score == g.score && r.level == g.level
    ensures r.piece.shape == g.piece.shape && r.piece.y == g.piece.y
    ensures Fits(g.board, g.piece.shape, g.piece.x - 1, g.piece.y) ==> r.piece.x == g.piece.x - 1
    ensures !Fits(g.board, g.piece.shape, g.piece.x - 1, g.piece.y) ==> r == g
    ensures Placed(g) ==> Placed(r)
  {
    if Fits(g.board, g.piece.shape, g.piece.x - 1, g.piece.y) then g.(piece := g.piece.(x := g.piece.x - 1))
    else g
  }

  /** Shift one column right when the shifted piece fits, else do nothing. */
  function MoveRight(g: Game): (r: Game)
    requires IsBoard(g.board) && g.piece.y >= 0
    ensures r.board == g.board && r.score == g.score && r.level == g.level
    ensures r.piece.shape == g.piece.shape && r.piece.y == g.piece.y
    ensures Fits(g.board, g.piece.shape, g.piece.x + 1, g.piece.y) ==> r.piece.x == g.piece.x + 1
    ensures !Fits(g.board, g.piece.shape, g.piece.x + 1, g.piece.y) ==> r == g
    ensures Placed(g) ==> Placed(r)
  {
    if Fits(g.board, g.piece.shape, g.piece.x + 1, g.piece.y) then g.(piece := g.piece.(x := g.piece.x + 1))
    else g
  }

  /** A successful move left is undone by a move right, and vice versa. */
  lemma LeftRightInverse(g: Game)
    requires IsBoard(g.board) && g.piece.y >= 0 && Placed(g)
    ensures Fits(g.board, g.piece.shape, g.piece.x - 1, g.piece.y) ==> MoveRight(MoveLeft(g)) == g
    ensures Fits(g.board, g.piece.shape, g.piece.x + 1, g.piece.y) ==> MoveLeft(MoveRight(g)) == g
  {
  }

  /** Turn the piece a quarter clockwise in place when the turned mask fits
      at the same position (no wall kick), else do nothing. */
  function Rotate(g: Game): (r: Game)
    requires IsBoard(g.board) && g.piece.y >= 0 && IsMask(g.piece.shape)
    ensures r.board == g.board && r.score == g.score && r.level == g.level
    ensures r.piece.x == g.piece.x && r.piece.y == g.piece.y
    ensures IsMask(r.piece.shape)
    ensures Fits(g.board, RotateMask(g.piece.shape), g.piece.x, g.piece.y) ==> r.piece.shape == RotateMask(g.piece.shape)
    ensures !Fits(g.board, RotateMask(g.piece.shape), g.piece.x, g.piece.y) ==> r == g
    ensures Placed(g) ==> Placed(r)
  {
    var turned := RotateMask(g.piece.shape);
    if Fits(g.board, turned, g.piece.x, g.piece.y) then g.(piece := g.piece.(shape := turned))
    else g
  }

  /** When every quarter turn of the piece fits where it is, four rotations
      bring the state back to where it was. */
  lemma FourRotationsReturn(g: Game)
    requires IsBoard(g.board) && g.piece.y >= 0 && IsMask(g.piece.shape)
    requires var m := g.piece.shape;
      && Fits(g.board, RotateMask(m), g.piece.x, g.piece.y)
      && Fits(g.board, RotateMask(RotateMask(m)), g.piece.x, g.piece.y)
      && Fits(g.board, RotateMask(RotateMask(RotateMask(m))), g.piece.x, g.piece.y)
      && Placed(g)
    ensures Rotate(Rotate(Rotate(Rotate(g)))) == g
  {
    RotatePeriodFour(g.piece.shape);
  }

  datatype Tick = Tick(game: Game, locked: bool, cleared: nat, levelUp: bool, gameOver: bool)

  /** One step down. If the piece fits one row lower it moves there and
      nothing else changes. Otherwise it locks: it is merged into the board,
      lines are cleared and scored, and shape `k` spawns; the spawn ends the
      game when it does not fit. */
  function MoveDown(g: Game, k: int): (t: Tick)
    requires WellFormed(g) && 0 <= k < |Shapes|
    ensures t.locked <==> !Fits(g.board, g.piece.shape, g.piece.x, g.piece.y + 1)
    ensures !t.locked ==>
      && t.game.board == g.board && t.game.score == g.score && t.game.level == g.level
      && t.game.piece.shape == g.piece.shape && t.game.piece.x == g.piece.x
      && t.game.piece.y == g.piece.y + 1
      && t.cleared == 0 && !t.levelUp && !t.gameOver
    ensures t.locked ==>
      var c := ClearLines(Merge(g.board, g.piece.shape, g.piece.x, g.piece.y));
      && t.game.board == c.board && t.cleared == c.lines
      && t.game.piece == NewPiece(c.board, k).piece
      && t.game.score == g.score + c.lines * PointsPerLine * g.level
      && t.levelUp == (t.game.level == g.level + 1)
      && t.levelUp == (c.lines > 0 && t.game.score >= g.level * LevelThreshold)
      && (t.game.level == g.level || t.levelUp)
    ensures WellFormed(t.game)
    ensures Placed(t.game) <==> !t.gameOver
    ensures Consistent(g.score, g.level) ==> Consistent(t.game.score, t.game.level)
  {
    var p := g.piece;
    if Fits(g.board, p.shape, p.x, p.y + 1) then
      FitsInBounds(g.board, p.shape, p.x, p.y + 1);
      Tick(g.(piece := p.(y := p.y + 1)), false, 0, false, false)
    else
      var c := ClearLines(Merge(g.board, p.shape, p.x, p.y));
      var s := AddScore(g.score, g.level, c.lines);
      AddScorePreservesConsistent(g.score, g.level, c.lines);
      var n := NewPiece(c.board, k);
      Tick(Game(c.board, n.piece, s.score, s.level), true, c.lines, s.levelUp, n.gameOver)
  }

  /** A lock that leaves exactly one full row clears exactly that row and
      scores 100 points times the level. */
  lemma LockFillingOneRow(g: Game, k: int)
    requires WellFormed(g) && 0 <= k < |Shapes|
    requires !Fits(g.board, g.piece.shape, g.piece.x, g.piece.y + 1)
    requires CountFull(Merge(g.board, g.piece.shape, g.piece.x, g.piece.y)) == 1
    ensures MoveDown(g, k).cleared == 1
    ensures MoveDown(g, k).game.score == g.score + PointsPerLine * g.level
  {
    OneFullRowClearsOne(Merge(g.board, g.piece.shape, g.piece.x, g.piece.y));
  }

  /** Moving sideways and rotating keep the engine's state well formed. */
  lemma MovesPreserveWellFormed(g: Game)
    requires WellFormed(g)
    ensures WellFormed(MoveLeft(g)) && WellFormed(MoveRight(g)) && WellFormed(Rotate(g))
  {
    if Fits(g.board, g.piece.shape, g.piece.x - 1, g.piece.y) {
      FitsInBounds(g.board, g.piece.shape, g.piece.x - 1, g.piece.y);
    }
    if Fits(g.board, g.piece.shape, g.piece.x + 1, g.piece.y) {
      FitsInBounds(g.board, g.piece.shape, g.piece.x + 1, g.piece.y);
    }
    if Fits(g.board, RotateMask(g.piece.shape), g.piece.x, g.piece.y) {
      FitsInBounds(g.board, RotateMask(g.piece.shape), g.piece.x, g.piece.y);
    }
  }
}
