/**
 The board of a Binary puzzle: a rectangular grid whose cells hold a zero,
 a one, or nothing yet. Rows are indexed by `y`, columns by `x`.
 */
module BinaryBoard {

  datatype Cell = Zero | One | Unknown

  type Board = seq<seq<Cell>>

  /** Every row has the same width. */
  predicate Rectangular(b: Board) {
    forall i, j :: 0 <= i < |b| && 0 <= j < |b| ==> |b[i]| == |b[j]|
  }

  /** `(x, y)` is a cell of the board. */
  predicate OnBoard(b: Board, x: int, y: int) {
    0 <= y < |b| && 0 <= x < |b[y]|
  }

  /** The cells of row `y`, left to right. */
  function Row(b: Board, y: int): (row: seq<Cell>)
    requires Rectangular(b) && 0 <= y < |b|
    ensures |row| == |b[0]|
    ensures forall x :: 0 <= x < |row| ==> row[x] == b[y][x]
  {
    b[y]
  }

  /** The cells of column `x`, top to bottom. */
  function Column(b: Board, x: int): (col: seq<Cell>)
    requires Rectangular(b) && |b| > 0 && 0 <= x < |b[0]|
    ensures |col| == |b|
    ensures forall i :: 0 <= i < |b| ==> col[i] == b[i][x]
  {
    seq(|b|, i requires 0 <= i < |b| => b[i][x])
  }

  /** Row `y` and column `x` cross at the cell `(x, y)`. */
  lemma RowColumnCross(b: Board, x: int, y: int)
    requires Rectangular(b) && OnBoard(b, x, y)
    ensures |Row(b, y)| == |b[0]| && |Column(b, x)| == |b|
    ensures Row(b, y)[x] == Column(b, x)[y] == b[y][x]
  {
  }

  /** The number of cells of `s` holding `v`. */
  function Count(s: seq<Cell>, v: Cell): (n: nat)
    ensures n <= |s|
  {
    if |s| == 0 then 0 else (if s[0] == v then 1 else 0) + Count(s[1..], v)
  }

  /** `Count` agrees with the multiplicity of `v` in the multiset of `s`. */
  lemma {:induction false} CountIsMultiplicity(s: seq<Cell>, v: Cell)
    ensures Count(s, v) == multiset(s)[v]
  {
    if |s| > 0 {
      CountIsMultiplicity(s[1..], v);
      assert s == [s[0]] + s[1..];
      assert multiset(s) == multiset{s[0]} + multiset(s[1..]);
    }
  }

  /** Every cell holds exactly one of the three values. */
  lemma {:induction false} CountsPartition(s: seq<Cell>)
    ensures Count(s, Zero) + Count(s, One) + Count(s, Unknown) == |s|
  {
    if |s| > 0 {
      CountsPartition(s[1..]);
    }
  }

  /** Appending one cell adds one to the count of its value only. */
  lemma {:induction false} CountSnoc(s: seq<Cell>, c: Cell, v: Cell)
    ensures Count(s + [c], v) == Count(s, v) + (if c == v then 1 else 0)
  {
    if |s| == 0 {
      assert s + [c] == [c];
    } else {
      assert (s + [c])[1..] == s[1..] + [c];
      CountSnoc(s[1..], c, v);
    }
  }

}
