/**
 Placing a mask on the board: the validity test the game runs before every
 move, and the lock that writes a piece into the board.
 */
module Collision {
  import opened Grid
  import opened Tetromino

  /** Every set cell of `m` placed at column offset `x`, row offset `y` lies
      above the floor, between the walls and on an empty board cell. Nothing
      bounds the piece from above; `y` is never negative. */
  predicate Fits(b: Board, m: Mask, x: int, y: int)
    requires IsBoard(b) && y >= 0
  {
    forall i, j :: 0 <= i < |m| && 0 <= j < |m[i]| && m[i][j] != 0 ==>
      y + i < Height && 0 <= x + j < Width && b[y + i][x + j] == 0
  }

  /** Every set cell of `m` at (x, y) is a board coordinate (it may overlap). */
  predicate InBounds(m: Mask, x: int, y: int) {
    forall i, j :: 0 <= i < |m| && 0 <= j < |m[i]| && m[i][j] != 0 ==>
      0 <= y + i < Height && 0 <= x + j < Width
  }

  /** Board cell (row, col) lies under a set cell of `m` placed at (x, y). */
  predicate Covered(m: Mask, x: int, y: int, row: int, col: int) {
    0 <= row - y < |m| && 0 <= col - x < |m[row - y]| && m[row - y][col - x] != 0
  }

  lemma FitsInBounds(b: Board, m: Mask, x: int, y: int)
    requires IsBoard(b) && y >= 0 && Fits(b, m, x, y)
    ensures InBounds(m, x, y)
  {
  }

  /** The game's cell-by-cell scan: row by row, column by column, stopping at
      the first set cell that is past the floor, outside a wall or on an
      occupied cell. */
  method IsValidMove(b: Board, m: Mask, x: int, y: int) returns (valid: bool)
    requires IsBoard(b) && y >= 0
    ensures valid <==> Fits(b, m, x, y)
  {
    var i := 0;
    while i < |m|
      invariant 0 <= i <= |m|
      invariant forall i', j :: 0 <= i' < i && 0 <= j < |m[i']| && m[i'][j] != 0 ==>
        y + i' < Height && 0 <= x + j < Width && b[y + i'][x + j] == 0
    {
      var j := 0;
      while j < |m[i]|
        invariant 0 <= j <= |m[i]|
        invariant forall j' :: 0 <= j' < j && m[i][j'] != 0 ==>
          y + i < Height && 0 <= x + j' < Width && b[y + i][x + j'] == 0
      {
        if m[i][j] != 0 {
          if y + i >= Height || x + j < 0 || x + j >= Width || b[y + i][x + j] != 0 {
            return false;
          }
        }
        j := j + 1;
      }
      i := i + 1;
    }
    return true;
  }

  /** Writes 1 under every set cell of row `i` of the mask from column `j` on. */
  function MergeRow(b: Board, m: Mask, x: int, y: int, i: nat, j: nat): (r: Board)
    requires IsBoard(b) && InBounds(m, x, y)
    requires i < |m| && j <= |m[i]|
    decreases |m[i]| - j
    ensures IsBoard(r)
    ensures forall row, col :: 0 <= row < Height && 0 <= col < Width ==>
      r[row][col] == (if row == y + i && j <= col - x < |m[i]| && m[i][col - x] != 0 then 1 else b[row][col])
  {
    if j == |m[i]| then b
    else
      var b' := if m[i][j] != 0 then b[y + i := b[y + i][x + j := 1]] else b;
      MergeRow(b', m, x, y, i, j + 1)
  }

  /** Writes 1 under every set cell of the mask rows `i` and below. */
  function MergeRows(b: Board, m: Mask, x: int, y: int, i: nat): (r: Board)
    requires IsBoard(b) && InBounds(m, x, y)
    requires i <= |m|
    decreases |m| - i
    ensures IsBoard(r)
    ensures forall row, col :: 0 <= row < Height && 0 <= col < Width ==>
      r[row][col] == (if i <= row - y && Covered(m, x, y, row, col) then 1 else b[row][col])
  {
    if i == |m| then b
    else MergeRows(MergeRow(b, m, x, y, i, 0), m, x, y, i + 1)
  }

  /** Locks the piece: every board cell under a set mask cell becomes 1 and
      every other cell keeps its value; the board stays 20 by 10. */
  function Merge(b: Board, m: Mask, x: int, y: int): (r: Board)
    requires IsBoard(b) && InBounds(m, x, y)
    ensures IsBoard(r)
    ensures forall row, col :: 0 <= row < Height && 0 <= col < Width ==>
      r[row][col] == (if Covered(m, x, y, row, col) then 1 else b[row][col])
    ensures Binary(b) ==> Binary(r)
  {
    MergeRows(b, m, x, y, 0)
  }

  /** After a lock the piece's cells are occupied, so the same placement no
      longer fits unless the mask has no set cell at all. */
  lemma MergeOccupies(b: Board, m: Mask, x: int, y: int, i: int, j: int)
    requires IsBoard(b) && y >= 0 && InBounds(m, x, y)
    requires 0 <= i < |m| && 0 <= j < |m[i]| && m[i][j] != 0
    ensures !Fits(Merge(b, m, x, y), m, x, y)
  {
    var r := Merge(b, m, x, y);
    assert Covered(m, x, y, y + i, x + j);
    assert r[y + i][x + j] == 1;
  }
}
