/**
 The playing field: a fixed grid of integer cells, indexed `board[row][column]`
 with row 0 at the top. A cell is occupied when it is non-zero (the engine only
 ever stores 0 and 1), which matches the truthiness test the game applies to it.
 */
module Grid {

  const Width: int := 10
  const Height: int := 20

  type Row = seq<int>
  type Board = seq<Row>

  /** Exactly `Height` rows of exactly `Width` cells each. */
  predicate IsBoard(b: Board) {
    |b| == Height && forall r :: 0 <= r < |b| ==> |b[r]| == Width
  }

  /** Every cell holds 0 (empty) or 1 (occupied). */
  predicate Binary(b: Board) {
    forall r, c :: 0 <= r < |b| && 0 <= c < |b[r]| ==> b[r][c] == 0 || b[r][c] == 1
  }

  /** A row is full when every one of its cells is occupied. */
  predicate Full(row: Row) {
    forall c :: 0 <= c < |row| ==> row[c] != 0
  }

  /** The row a line clear inserts at the top. */
  function EmptyRow(): (row: Row)
    ensures |row| == Width
    ensures forall c :: 0 <= c < |row| ==> row[c] == 0
    ensures !Full(row)
  {
    var row := seq(Width, c => 0);
    assert row[0] == 0;
    row
  }

  /** `n` empty rows. */
  function Zeros(n: nat): (rows: seq<Row>)
    ensures |rows| == n
    ensures forall r :: 0 <= r < n ==> rows[r] == EmptyRow()
  {
    seq(n, r => EmptyRow())
  }

  lemma ZerosSplit(n: nat)
    requires n > 0
    ensures Zeros(n) == [EmptyRow()] + Zeros(n - 1)
    ensures Zeros(n) == Zeros(n - 1) + [EmptyRow()]
  {
  }

  /** The board a new game starts with. */
  function EmptyBoard(): (b: Board)
    ensures IsBoard(b) && Binary(b)
    ensures forall r, c :: 0 <= r < Height && 0 <= c < Width ==> b[r][c] == 0
  {
    Zeros(Height)
  }
}
