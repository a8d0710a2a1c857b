/** `fillIn`: the randomized backtracking fill of src/Board.java, and one attempt of `makeBoard`. */
module Fill {
  import opened Boards
  import opened Candidates
  import opened Oracles

  /** The return code of `fillIn` (1 filled, 0 dead end, -1 time out), the grid it leaves
      behind, and the next free tape position. */
  datatype Filled = Filled(code: int, board: Grid, clock: nat)

  /** v may be written at (r, c) given the cells the cursor has already passed:
      it is in 1..L and no earlier peer holds it. */
  ghost predicate Fresh(g: Grid, r: int, c: int, n: Order, v: int)
    requires IsSquare(g, n * n)
  {
    1 <= v <= n * n &&
    forall i, j :: InGrid(i, j, n * n) && Before(i, j, r, c) && Peer(i, j, r, c, n) ==> g[i][j] != Some(v)
  }

  /** Cell (r, c) holds a value that was fresh when the cursor placed it. */
  ghost predicate Placed(g: Grid, r: int, c: int, n: Order)
    requires IsSquare(g, n * n) && InGrid(r, c, n * n)
  {
    g[r][c].Some? && Fresh(g, r, c, n, g[r][c].value)
  }

  /** a and b agree on every cell the cursor at (r, c) has passed. */
  ghost predicate AgreeBefore(a: Grid, b: Grid, r: int, c: int, L: int)
    requires IsSquare(a, L) && IsSquare(b, L)
  {
    forall i, j :: InGrid(i, j, L) && Before(i, j, r, c) ==> a[i][j] == b[i][j]
  }

  /** Freshness depends only on the cells before the cursor. */
  lemma FreshKept(a: Grid, b: Grid, r: int, c: int, n: Order, nums: seq<int>)
    requires IsSquare(a, n * n) && IsSquare(b, n * n)
    requires AgreeBefore(a, b, r, c, n * n)
    requires forall k :: 0 <= k < |nums| ==> Fresh(a, r, c, n, nums[k])
    ensures forall k :: 0 <= k < |nums| ==> Fresh(b, r, c, n, nums[k])
  {
  }

  /** `fillIn(aBoard, row, col, aN, start, limit)` from tape position t. */
  function FillIn(o: Oracle, g: Grid, row: int, col: int, n: Order, t: nat): (r: Filled)
    requires Shuffles(o) && IsSquare(g, n * n) && 0 <= row < n * n && 0 <= col <= n * n
    ensures IsSquare(r.board, n * n)
    ensures -1 <= r.code <= 1
    ensures AgreeBefore(r.board, g, row, col, n * n)
    ensures r.code == 1 ==>
              forall i, j :: InGrid(i, j, n * n) && !Before(i, j, row, col) ==> Placed(r.board, i, j, n)
    ensures o.expired(t) ==> r.code == -1 && r.board == g
    ensures r.code == 0 && col < n * n ==> r.board[row][col] == None || r.board == g
    ensures r.code == 1 && col < n * n ==>
              r.board[row][col].Some? && r.board[row][col].value in MakePossible(g, row, col, n)
    decreases n * n - row, n * n + 1 - col, 1, 0
  {
    var L := n * n;
    if o.expired(t) then Filled(-1, g, t + 1)
    else if row == L - 1 && col == L then Filled(1, g, t + 1)
    else if col == L then
      var sub := FillIn(o, g, row + 1, 0, n, t + 1);
      NextRow(g, sub.board, row, n);
      sub
    else
      var numbers := MakePossible(g, row, col, n);
      if |numbers| == 0 then Filled(0, g, t + 1)
      else
        var shuffled := o.shuffle(t + 1, numbers);
        ShuffledEntries(o, t + 1, numbers);
        CandidatesFresh(g, row, col, n, numbers, shuffled);
        TryCandidates(o, g, row, col, n, shuffled, 0, t + 2)
  }

  /** Values `makePossible` offered, in any order, are fresh at the cursor. */
  lemma CandidatesFresh(g: Grid, row: int, col: int, n: Order, numbers: seq<int>, nums: seq<int>)
    requires IsSquare(g, n * n) && InGrid(row, col, n * n)
    requires forall v :: v in numbers <==> Candidate(g, row, col, n, v)
    requires forall k :: 0 <= k < |nums| ==> nums[k] in numbers
    ensures forall k :: 0 <= k < |nums| ==> Fresh(g, row, col, n, nums[k])
  {
  }

  /** Cursor (row, L) and cursor (row + 1, 0) have passed the same cells. */
  lemma NextRow(g: Grid, b: Grid, row: int, n: Order)
    requires IsSquare(g, n * n) && IsSquare(b, n * n)
    ensures AgreeBefore(b, g, row + 1, 0, n * n) ==> AgreeBefore(b, g, row, n * n, n * n)
    ensures (forall i, j :: InGrid(i, j, n * n) && !Before(i, j, row + 1, 0) ==> Placed(b, i, j, n)) ==>
            (forall i, j :: InGrid(i, j, n * n) && !Before(i, j, row, n * n) ==> Placed(b, i, j, n))
  {
  }

  /** The candidate loop of `fillIn` from index i: place `nums[i]`, recurse to (row, col + 1),
      keep the value and re-check the clock on success, otherwise clear the cell and go on
      (returning 0 after the last candidate). */
  function TryCandidates(o: Oracle, g: Grid, row: int, col: int, n: Order, nums: seq<int>, i: nat, t: nat): (r: Filled)
    requires Shuffles(o) && IsSquare(g, n * n) && InGrid(row, col, n * n) && i < |nums|
    requires forall k :: 0 <= k < |nums| ==> Fresh(g, row, col, n, nums[k])
    ensures IsSquare(r.board, n * n)
    ensures -1 <= r.code <= 1
    ensures AgreeBefore(r.board, g, row, col, n * n)
    ensures r.code == 1 ==>
              forall p, q :: InGrid(p, q, n * n) && !Before(p, q, row, col) ==> Placed(r.board, p, q, n)
    ensures r.code == 0 ==> r.board[row][col] == None
    ensures r.code == 1 ==> r.board[row][col].Some? && r.board[row][col].value in nums
    decreases n * n - row, n * n + 1 - col, 0, |nums| - i
  {
    var placed := Set(g, row, col, Some(nums[i]));
    var sub := FillIn(o, placed, row, col + 1, n, t);
    if sub.code == 1 then
      PlacedHere(g, placed, sub.board, row, col, n, nums[i]);
      Filled(if o.expired(sub.clock) then -1 else 1, sub.board, sub.clock + 1)
    else
      var cleared := Set(sub.board, row, col, None);
      if i == |nums| - 1 then Filled(0, cleared, sub.clock)
      else
        FreshKept(g, cleared, row, col, n, nums);
        TryCandidates(o, cleared, row, col, n, nums, i + 1, sub.clock)
  }

  /** A fresh value placed at (row, col), followed by a successful fill from (row, col + 1),
      leaves every cell from (row, col) on placed. */
  lemma PlacedHere(g: Grid, placed: Grid, filled: Grid, row: int, col: int, n: Order, v: int)
    requires IsSquare(g, n * n) && IsSquare(filled, n * n) && InGrid(row, col, n * n)
    requires placed == Set(g, row, col, Some(v)) && Fresh(g, row, col, n, v)
    requires AgreeBefore(filled, placed, row, col + 1, n * n)
    requires forall i, j :: InGrid(i, j, n * n) && !Before(i, j, row, col + 1) ==> Placed(filled, i, j, n)
    ensures AgreeBefore(filled, g, row, col, n * n)
    ensures forall i, j :: InGrid(i, j, n * n) && !Before(i, j, row, col) ==> Placed(filled, i, j, n)
  {
    assert Before(row, col, row, col + 1);
    assert filled[row][col] == Some(v);
  }

  /** Every cell filled with a value in 1..L and no two peers equal: a fill that succeeds
      from (0, 0) produces a solved grid, whatever the grid held before. */
  lemma FillFromStartSolves(o: Oracle, g: Grid, n: Order, t: nat)
    requires Shuffles(o) && IsSquare(g, n * n)
    ensures FillIn(o, g, 0, 0, n, t).code == 1 ==> Solved(FillIn(o, g, 0, 0, n, t).board, n)
  {
    var r := FillIn(o, g, 0, 0, n, t);
    if r.code == 1 {
      var b := r.board;
      forall i, j, p, q | InGrid(i, j, n * n) && InGrid(p, q, n * n) && (i != p || j != q) && Peer(i, j, p, q, n)
        ensures b[i][j] != b[p][q]
      {
        assert Placed(b, i, j, n) && Placed(b, p, q, n);
        if !Before(i, j, p, q) {
          assert Peer(p, q, i, j, n);
        }
      }
    }
  }

  /** A fresh all-`null` L×L grid, as `makeBoard` builds before each attempt. */
  function EmptyGrid(L: nat): (g: Grid)
    ensures IsSquare(g, L) && forall i, j :: InGrid(i, j, L) ==> g[i][j] == None
  {
    seq(L, _ => seq(L, _ => None))
  }

  /** One pass of the retry loop of `makeBoard`: fill a fresh empty grid from (0, 0).
      A success is a solved grid. */
  function MakeBoardAttempt(o: Oracle, n: Order, t: nat): (r: Filled)
    requires Shuffles(o)
    ensures IsSquare(r.board, n * n)
    ensures r.code == 1 ==> Solved(r.board, n)
  {
    FillFromStartSolves(o, EmptyGrid(n * n), n, t);
    FillIn(o, EmptyGrid(n * n), 0, 0, n, t)
  }

  /** What `Placed` asks of a cell is what `makePossible` offers for it on the grid as it stood
      when the cursor reached it, that is with every cell from the cursor on still empty. */
  lemma PlacedIsPossible(g: Grid, r: int, c: int, n: Order)
    requires IsSquare(g, n * n) && InGrid(r, c, n * n)
    ensures Placed(g, r, c, n) <==>
              g[r][c].Some? && g[r][c].value in MakePossible(ClearFrom(g, r, c), r, c, n)
  {
    var e := ClearFrom(g, r, c);
    if g[r][c].Some? {
      var v := g[r][c].value;
      assert Fresh(g, r, c, n, v) <==> Candidate(e, r, c, n, v) by {
        if Candidate(e, r, c, n, v) {
          forall i, j | InGrid(i, j, n * n) && Before(i, j, r, c) && Peer(i, j, r, c, n)
            ensures g[i][j] != Some(v)
          {
            assert e[i][j] == g[i][j];
          }
        }
      }
    }
  }

  /** The grid with every cell at or after (r, c) in row-major order emptied. */
  function ClearFrom(g: Grid, r: int, c: int): (e: Grid)
    requires IsSquare(g, |g|)
    ensures IsSquare(e, |g|)
    ensures forall i, j :: InGrid(i, j, |g|) ==> e[i][j] == if Before(i, j, r, c) then g[i][j] else None
  {
    seq(|g|, i requires 0 <= i < |g| =>
      seq(|g|, j requires 0 <= j < |g| => if Before(i, j, r, c) then g[i][j] else None))
  }
}
