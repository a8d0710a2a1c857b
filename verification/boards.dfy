/** Shapes of the n²×n² Sudoku grid, the peer relation of Sudoku, and the two
    mask views of a grid (`maskBoard`, `maskBoardInPlace` in src/Board.java). */
module Boards {

  /** Java's nullable `Integer`: `None` stands for `null`. */
  datatype Option<+T> = None | Some(value: T)

  type Cell = Option<int>

  /** `Integer[][]`, indexed `g[row][col]`. */
  type Grid = seq<seq<Cell>>

  /** `boolean[][]`; `true` marks a hidden cell. */
  type Mask = seq<seq<bool>>

  /** The box order `aN`; the grid side is `n * n`. */
  type Order = n: int | n >= 1 witness 1

  /** `g` is an L×L matrix. */
  predicate IsSquare<T>(g: seq<seq<T>>, L: int) {
    |g| == L && forall i :: 0 <= i < L ==> |g[i]| == L
  }

  predicate InGrid(i: int, j: int, L: int) {
    0 <= i < L && 0 <= j < L
  }

  /** Row-major order of the backtracking cursor: (i, j) is visited before (r, c). */
  predicate Before(i: int, j: int, r: int, c: int) {
    i < r || (i == r && j < c)
  }

  /** `g[r][c] = v` on a copy. */
  function Set<T>(g: seq<seq<T>>, r: int, c: int, v: T): (g': seq<seq<T>>)
    requires 0 <= r < |g| && 0 <= c < |g[r]|
    ensures |g'| == |g| && forall i :: 0 <= i < |g| ==> |g'[i]| == |g[i]|
    ensures forall i, j :: 0 <= i < |g| && 0 <= j < |g[i]| ==>
              g'[i][j] == if i == r && j == c then v else g[i][j]
  {
    g[r := g[r][c := v]]
  }

  /** First row (or column) of the n-wide band holding x: `((int) x / aN) * aN`. */
  function BoxStart(x: int, n: Order): int {
    (x / n) * n
  }

  /** Multiplying by a non-negative factor keeps the order. */
  lemma MulMono(a: int, b: int, n: int)
    requires a <= b && 0 <= n
    ensures a * n <= b * n
  {
    assert b * n - a * n == (b - a) * n;
  }

  /** The box loops `aBoard[xb+i][yb+j]`, `0 <= i, j < aN`, stay inside the grid. */
  lemma BoxStartBounds(x: int, n: Order)
    requires 0 <= x < n * n
    ensures 0 <= BoxStart(x, n) <= x < BoxStart(x, n) + n <= n * n
  {
    var q, r := x / n, x % n;
    assert x == q * n + r && 0 <= r < n;
    assert 0 <= q;
    if n <= q {
      MulMono(n, q, n);
    }
    assert q <= n - 1;
    MulMono(q, n - 1, n);
  }

  /** p lies in the n-wide band starting at BoxStart(x, n) exactly when it has x's quotient. */
  lemma InBand(p: int, x: int, n: Order)
    requires 0 <= p && 0 <= x
    ensures BoxStart(x, n) <= p < BoxStart(x, n) + n <==> p / n == x / n
  {
    var q, d, r := x / n, p / n, p % n;
    assert p == d * n + r && 0 <= r < n;
    if d < q {
      MulMono(d, q - 1, n);
    } else if q < d {
      MulMono(q + 1, d, n);
    }
  }

  /** Cells (i, j) and (r, c) lie in the same n×n box. */
  predicate SameBox(i: int, j: int, r: int, c: int, n: Order) {
    i / n == r / n && j / n == c / n
  }

  /** Cells (i, j) and (r, c) share a row, a column or a box (a cell is its own peer). */
  predicate Peer(i: int, j: int, r: int, c: int, n: Order) {
    i == r || j == c || SameBox(i, j, r, c, n)
  }

  /** A completely and correctly filled grid: every cell holds a value in 1..L and
      no two distinct cells of one row, column or box hold the same value. */
  ghost predicate Solved(g: Grid, n: Order) {
    && IsSquare(g, n * n)
    && (forall i, j :: InGrid(i, j, n * n) ==> g[i][j].Some? && 1 <= g[i][j].value <= n * n)
    && (forall i, j, p, q ::
          InGrid(i, j, n * n) && InGrid(p, q, n * n) && (i != p || j != q) && Peer(i, j, p, q, n)
          ==> g[i][j] != g[p][q])
  }

  /** `maskBoard`: a fresh grid that is `null` on masked cells and a copy of `g` elsewhere. */
  function MaskBoard(g: Grid, m: Mask): (r: Grid)
    requires IsSquare(g, |g|) && IsSquare(m, |g|)
    ensures IsSquare(r, |g|)
    ensures forall i, j :: InGrid(i, j, |g|) && m[i][j] ==> r[i][j] == None
    ensures forall i, j :: InGrid(i, j, |g|) && !m[i][j] ==> r[i][j] == g[i][j]
  {
    seq(|g|, i requires 0 <= i < |g| =>
      seq(|g|, j requires 0 <= j < |g| => if m[i][j] then None else g[i][j]))
  }

  /** `maskBoardInPlace`: the outer loop from row i on; rows before i are already done. */
  function MaskRowsFrom(g: Grid, m: Mask, i: int): (r: Grid)
    requires IsSquare(g, |g|) && IsSquare(m, |g|) && 0 <= i <= |g|
    ensures IsSquare(r, |g|)
    ensures forall p, q :: InGrid(p, q, |g|) ==>
              r[p][q] == if i <= p && m[p][q] then None else g[p][q]
    decreases |g| - i
  {
    if i == |g| then g
    else MaskRowsFrom(g[i := MaskCellsFrom(g[i], m[i], 0)], m, i + 1)
  }

  /** The inner loop over one row from column j on: `if (aMask[i][j]) aBoard[i][j] = null;
      else aBoard[i][j] = aBoard[i][j];` (the else branch writes the cell back unchanged). */
  function MaskCellsFrom(row: seq<Cell>, mrow: seq<bool>, j: int): (r: seq<Cell>)
    requires |mrow| == |row| && 0 <= j <= |row|
    ensures |r| == |row|
    ensures forall q :: 0 <= q < |row| ==> r[q] == if j <= q && mrow[q] then None else row[q]
    decreases |row| - j
  {
    if j == |row| then row
    else MaskCellsFrom(row[j := if mrow[j] then None else row[j]], mrow, j + 1)
  }

  /** `maskBoardInPlace`: null exactly the masked cells; every unmasked cell keeps its value. */
  function MaskInPlace(g: Grid, m: Mask): (r: Grid)
    requires IsSquare(g, |g|) && IsSquare(m, |g|)
    ensures IsSquare(r, |g|)
    ensures forall i, j :: InGrid(i, j, |g|) && m[i][j] ==> r[i][j] == None
    ensures forall i, j :: InGrid(i, j, |g|) && !m[i][j] ==> r[i][j] == g[i][j]
  {
    MaskRowsFrom(g, m, 0)
  }

  /** The in-place loop and the fresh copy compute the same masked view. */
  lemma MaskViewsAgree(g: Grid, m: Mask)
    requires IsSquare(g, |g|) && IsSquare(m, |g|)
    ensures MaskInPlace(g, m) == MaskBoard(g, m)
  {
    var a, b := MaskInPlace(g, m), MaskBoard(g, m);
    forall i | 0 <= i < |g|
      ensures a[i] == b[i]
    {
      assert forall j :: 0 <= j < |g| ==> a[i][j] == b[i][j];
    }
  }

  /** Masking twice with the same mask is masking once. */
  lemma MaskIdempotent(g: Grid, m: Mask)
    requires IsSquare(g, |g|) && IsSquare(m, |g|)
    ensures MaskInPlace(MaskInPlace(g, m), m) == MaskInPlace(g, m)
  {
    var once := MaskInPlace(g, m);
    var twice := MaskInPlace(once, m);
    forall i | 0 <= i < |g|
      ensures twice[i] == once[i]
    {
      assert forall j :: 0 <= j < |g| ==> twice[i][j] == once[i][j];
    }
  }

  /** On a grid without `null` cells, the masked view is `null` exactly where the mask is true. */
  lemma MaskHidesExactly(g: Grid, m: Mask)
    requires IsSquare(g, |g|) && IsSquare(m, |g|)
    requires forall i, j :: InGrid(i, j, |g|) ==> g[i][j].Some?
    ensures forall i, j :: InGrid(i, j, |g|) ==> (MaskBoard(g, m)[i][j] == None <==> m[i][j])
  {
  }
}
