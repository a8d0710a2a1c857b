/** A puzzle as the `Board` object holds it: one pass of the retry loop of `Board(Integer)`,
    and the answer check `checkBox` / `checkBoard` (src/Board.java). */
module Puzzle {
  import opened Boards
  import opened Candidates
  import opened Oracles
  import opened Fill
  import opened Masking
  import opened Solutions

  /** The `board` and `mask` fields after one pass, the code of that pass (1 success,
      0 or -1 failure), the probes of `makeMask` and the next free tape position. */
  datatype Built = Built(code: int, board: Grid, mask: Mask, probes: seq<Probe>, clock: nat)

  /** One pass of `while (response == -1) { makeBoard(); response = makeMask(); }`, with
      `makeBoard` itself reduced to one pass of its own retry loop: fill a fresh grid,
      and only when that succeeds choose a mask for it, probing with counter c (the program
      is `c == AsWritten`). On success the board is solved, every place was probed, and a
      cell is hidden exactly when its probe counted at most 1; with the corrected counter the
      puzzle the mask leaves also has the board as its one and only solution. */
  function BuildAttempt(o: Oracle, c: Counter, n: Order, t: nat): (r: Built)
    requires Shuffles(o)
    ensures IsSquare(r.board, n * n) && IsSquare(r.mask, n * n)
    ensures -1 <= r.code <= 1
    ensures r.code == 1 ==> Solved(r.board, n)
    ensures r.code == 1 ==> Completes(r.board, MaskBoard(r.board, r.mask), n)
    ensures c == Corrected && r.code == 1 ==> Unique(r.board, r.mask, n)
    ensures r.code == 1 ==> forall p :: 0 <= p < (n * n) * (n * n) ==> p in Places(r.probes)
    ensures forall k :: 0 <= k < |r.probes| ==> 0 <= r.probes[k].place < (n * n) * (n * n)
    ensures forall k :: 0 <= k < |r.probes| ==>
              Hidden(r.mask, r.probes[k].place, n * n) == (r.probes[k].count <= 1)
  {
    var b := MakeBoardAttempt(o, n, t);
    if b.code != 1 then Built(b.code, b.board, AllFalse(n * n), [], b.clock)
    else WithMask(o, c, b.board, n, b.clock)
  }

  /** The `makeMask()` half of the pass, on a solved board. */
  function WithMask(o: Oracle, c: Counter, board: Grid, n: Order, t: nat): (r: Built)
    requires Shuffles(o) && IsSquare(board, n * n) && Solved(board, n)
    ensures r.board == board && IsSquare(r.mask, n * n)
    ensures r.code == 1 || r.code == -1
    ensures r.code == 1 ==> Completes(board, MaskBoard(board, r.mask), n)
    ensures c == Corrected && r.code == 1 ==> Unique(board, r.mask, n)
    ensures r.code == 1 ==> forall p :: 0 <= p < (n * n) * (n * n) ==> p in Places(r.probes)
    ensures forall k :: 0 <= k < |r.probes| ==> 0 <= r.probes[k].place < (n * n) * (n * n)
    ensures forall k :: 0 <= k < |r.probes| ==>
              Hidden(r.mask, r.probes[k].place, n * n) == (r.probes[k].count <= 1)
  {
    var m := MakeMask(o, c, board, n, t);
    if m.code == 1 then
      PermutedRange(Places(m.probes), (n * n) * (n * n));
      Built(m.code, board, m.mask, m.probes, m.clock)
    else Built(m.code, board, m.mask, m.probes, m.clock)
  }

  /** What the player sees in a cell: a fixed number (`null` box), an empty choice box, or
      a choice box with a value chosen. */
  datatype Entry = Given | Blank | Chosen(value: int)

  /** `checkBox(row, col)`: a cell is wrong only when its box holds a value that differs
      from the solution. */
  predicate CheckBox(board: Grid, boxes: seq<seq<Entry>>, row: int, col: int)
    requires IsSquare(board, |board|) && IsSquare(boxes, |board|) && InGrid(row, col, |board|)
  {
    boxes[row][col].Chosen? ==> board[row][col] == Some(boxes[row][col].value)
  }

  /** `checkBoard()`: scan every cell and stop at the first wrong one. */
  method CheckBoard(board: Grid, boxes: seq<seq<Entry>>) returns (ok: bool)
    requires IsSquare(board, |board|) && IsSquare(boxes, |board|)
    ensures ok <==> forall i, j :: InGrid(i, j, |board|) ==> CheckBox(board, boxes, i, j)
  {
    var L := |boxes|;
    var i := 0;
    while i < L
      invariant 0 <= i <= L
      invariant forall p, q :: 0 <= p < i && 0 <= q < L ==> CheckBox(board, boxes, p, q)
    {
      var j := 0;
      while j < L
        invariant 0 <= j <= L
        invariant forall p, q :: 0 <= p < i && 0 <= q < L ==> CheckBox(board, boxes, p, q)
        invariant forall q :: 0 <= q < j ==> CheckBox(board, boxes, i, q)
      {
        if !CheckBox(board, boxes, i, j) {
          return false;
        }
        j := j + 1;
      }
      i := i + 1;
    }
    return true;
  }

  /** The grid the player has entered: fixed numbers where there is no box, chosen values
      where there are, `null` for empty boxes. */
  function Entered(board: Grid, boxes: seq<seq<Entry>>): (g: Grid)
    requires IsSquare(board, |board|) && IsSquare(boxes, |board|)
    ensures IsSquare(g, |board|)
  {
    seq(|board|, i requires 0 <= i < |board| =>
      seq(|board|, j requires 0 <= j < |board| =>
        match boxes[i][j]
        case Given => board[i][j]
        case Blank => None
        case Chosen(v) => Some(v)))
  }

  /** With every box filled in, the board passes the check exactly when the entered grid is
      the solution; so on a solved board a passing check means the player solved the puzzle. */
  lemma CheckMeansSolved(board: Grid, boxes: seq<seq<Entry>>, n: Order)
    requires IsSquare(board, n * n) && IsSquare(boxes, n * n)
    requires forall i, j :: InGrid(i, j, n * n) ==> !boxes[i][j].Blank?
    ensures (forall i, j :: InGrid(i, j, n * n) ==> CheckBox(board, boxes, i, j)) <==>
            Entered(board, boxes) == board
    ensures Solved(board, n) && (forall i, j :: InGrid(i, j, n * n) ==> CheckBox(board, boxes, i, j))
            ==> Solved(Entered(board, boxes), n)
  {
    var g := Entered(board, boxes);
    if forall i, j :: InGrid(i, j, n * n) ==> CheckBox(board, boxes, i, j) {
      forall i | 0 <= i < n * n
        ensures g[i] == board[i]
      {
        forall j | 0 <= j < n * n
          ensures g[i][j] == board[i][j]
        {
          assert CheckBox(board, boxes, i, j);
        }
      }
    }
    if g == board {
      forall i, j | InGrid(i, j, n * n)
        ensures CheckBox(board, boxes, i, j)
      {
        assert g[i][j] == board[i][j];
      }
    }
  }
}
