/**
 Piece masks: the seven-shape catalog and the clockwise quarter turn.
 A mask is a rectangular grid of cells, `mask[i][j]` being row i, column j;
 a cell is set when it is non-zero.
 */
module Tetromino {

  type Mask = seq<seq<int>>

  /** At least one row, every row as long as the first. */
  predicate Rectangular(m: Mask) {
    |m| > 0 && forall i :: 0 <= i < |m| ==> |m[i]| == |m[0]|
  }

  /** A rectangular mask with at least one column. */
  predicate IsMask(m: Mask) {
    Rectangular(m) && |m[0]| > 0
  }

  /** Every cell of the mask is 0 or 1. */
  predicate BinaryMask(m: Mask) {
    forall i, j :: 0 <= i < |m| && 0 <= j < |m[i]| ==> m[i][j] == 0 || m[i][j] == 1
  }

  /** Number of set cells in row `i` from column `j` on. */
  function CountRow(m: Mask, i: nat, j: nat): nat
    requires i < |m| && j <= |m[i]|
    decreases |m[i]| - j
  {
    if j == |m[i]| then 0 else (if m[i][j] != 0 then 1 else 0) + CountRow(m, i, j + 1)
  }

  /** Number of set cells in rows `i` and below. */
  function CountFrom(m: Mask, i: nat): nat
    requires i <= |m|
    decreases |m| - i
  {
    if i == |m| then 0 else CountRow(m, i, 0) + CountFrom(m, i + 1)
  }

  /** I, O, T, L, J, S, Z in catalog order. */
  const Shapes: seq<Mask> := [
    [[1, 1, 1, 1]],
    [[1, 1], [1, 1]],
    [[1, 1, 1], [0, 1, 0]],
    [[1, 1, 1], [1, 0, 0]],
    [[1, 1, 1], [0, 0, 1]],
    [[1, 1, 0], [0, 1, 1]],
    [[0, 1, 1], [1, 1, 0]]
  ]

  /** Every catalog entry is a 0/1 mask of four cells, at most two rows tall
      and four wide, whose top row has a cell in its middle column. */
  lemma CatalogShapes(k: int)
    requires 0 <= k < |Shapes|
    ensures IsMask(Shapes[k]) && BinaryMask(Shapes[k])
    ensures CountFrom(Shapes[k], 0) == 4
    ensures |Shapes[k]| <= 2 && 2 <= |Shapes[k][0]| <= 4
    ensures Shapes[k][0][|Shapes[k][0]| / 2] != 0
  {
  }

  /** Column `c` of the mask, read from the top row down. */
  function Column(m: Mask, c: int): (col: seq<int>)
    requires Rectangular(m) && 0 <= c < |m[0]|
    ensures |col| == |m|
  {
    seq(|m|, i requires 0 <= i < |m| => m[i][c])
  }

  function Reverse(s: seq<int>): (r: seq<int>)
    ensures |r| == |s|
  {
    seq(|s|, k requires 0 <= k < |s| => s[|s| - 1 - k])
  }

  /** The rotation the game applies: the k-th column, reversed, becomes row k
      (transpose, then reverse each row). */
  function RotateMask(m: Mask): (r: Mask)
    requires IsMask(m)
    ensures IsMask(r)
    ensures |r| == |m[0]| && |r[0]| == |m|
    ensures forall c, k :: 0 <= c < |r| && 0 <= k < |r[c]| ==> r[c][k] == m[|m| - 1 - k][c]
  {
    seq(|m[0]|, c requires 0 <= c < |m[0]| => Reverse(Column(m, c)))
  }

  /** Two quarter turns are a half turn: the mask read backwards in both directions. */
  lemma HalfTurn(m: Mask)
    requires IsMask(m)
    ensures var h := RotateMask(RotateMask(m));
      && IsMask(h) && |h| == |m| && |h[0]| == |m[0]|
      && forall i, j :: 0 <= i < |h| && 0 <= j < |h[i]| ==> h[i][j] == m[|m| - 1 - i][|m[0]| - 1 - j]
  {
    var r1 := RotateMask(m);
    var h := RotateMask(r1);
    forall i, j | 0 <= i < |h| && 0 <= j < |h[i]|
      ensures h[i][j] == m[|m| - 1 - i][|m[0]| - 1 - j]
    {
      assert h[i][j] == r1[|r1| - 1 - j][i];
    }
  }

  /** Rotation has period four: four quarter turns give back the original mask. */
  lemma RotatePeriodFour(m: Mask)
    requires IsMask(m)
    ensures RotateMask(RotateMask(RotateMask(RotateMask(m)))) == m
  {
    HalfTurn(m);
    var h := RotateMask(RotateMask(m));
    HalfTurn(h);
    var f := RotateMask(RotateMask(h));
    assert |f| == |m|;
    forall i | 0 <= i < |m|
      ensures f[i] == m[i]
    {
      assert |f[i]| == |m[i]|;
      forall j | 0 <= j < |m[i]|
        ensures f[i][j] == m[i][j]
      {
        assert f[i][j] == h[|h| - 1 - i][|h[0]| - 1 - j];
      }
    }
  }

  /** A quarter turn keeps a mask 0/1. */
  lemma RotateKeepsBinary(m: Mask)
    requires IsMask(m) && BinaryMask(m)
    ensures BinaryMask(RotateMask(m))
  {
    var r := RotateMask(m);
    forall c, k | 0 <= c < |r| && 0 <= k < |r[c]|
      ensures r[c][k] == 0 || r[c][k] == 1
    {
      assert r[c][k] == m[|m| - 1 - k][c];
    }
  }
}
