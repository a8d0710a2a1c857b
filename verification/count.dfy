/** `solveCount`: the capped solution counter of src/Board.java, modelled as written. */
module Count {
  import opened Boards
  import opened Candidates
  import opened Oracles

  /** One assignment `maskedBoard[row][col] = temp` of the candidate loop, with the grid
      as it stood when the cell was visited (when its candidate list was computed). */
  datatype Write = Write(row: int, col: int, value: int, visited: Grid)

  /** What `solveCount` returns (a count, or -1 on time out), the grid it leaves behind,
      the log of its writes in order, and the next free tape position. */
  datatype Counted = Counted(code: int, board: Grid, writes: seq<Write>, clock: nat)

  /** w wrote into a cell that was empty when visited, a value `makePossible` offered for it then. */
  ghost predicate Drawn(w: Write, n: Order) {
    && IsSquare(w.visited, n * n)
    && InGrid(w.row, w.col, n * n)
    && w.visited[w.row][w.col] == None
    && w.value in MakePossible(w.visited, w.row, w.col, n)
  }

  ghost predicate AllDrawn(ws: seq<Write>, n: Order) {
    forall k :: 0 <= k < |ws| ==> Drawn(ws[k], n)
  }

  /** The values the log ws wrote into cell (i, j). */
  ghost function Written(ws: seq<Write>, i: int, j: int): set<Cell>
    decreases |ws|
  {
    if ws == [] then {}
    else (if ws[0].row == i && ws[0].col == j then {Some(ws[0].value)} else {}) + Written(ws[1..], i, j)
  }

  lemma {:induction false} WrittenConcat(a: seq<Write>, b: seq<Write>, i: int, j: int)
    ensures Written(a + b, i, j) == Written(a, i, j) + Written(b, i, j)
    decreases |a|
  {
    if a == [] {
      assert a + b == b;
    } else {
      assert (a + b)[0] == a[0] && (a + b)[1..] == a[1..] + b;
      WrittenConcat(a[1..], b, i, j);
    }
  }

  /** Every cell of b2 that differs from b1 is either emptied, and then masked, or holds
      a value the log ws wrote into it. */
  ghost predicate Accounted(b1: Grid, b2: Grid, m: Mask, ws: seq<Write>, L: int)
    requires IsSquare(b1, L) && IsSquare(b2, L) && IsSquare(m, L)
  {
    forall i, j :: InGrid(i, j, L) && b2[i][j] != b1[i][j] ==>
      if b2[i][j] == None then m[i][j] else b2[i][j] in Written(ws, i, j)
  }

  lemma AccountedTrans(b1: Grid, b2: Grid, b3: Grid, m: Mask, ws1: seq<Write>, ws2: seq<Write>, L: int)
    requires IsSquare(b1, L) && IsSquare(b2, L) && IsSquare(b3, L) && IsSquare(m, L)
    requires Accounted(b1, b2, m, ws1, L) && Accounted(b2, b3, m, ws2, L)
    ensures Accounted(b1, b3, m, ws1 + ws2, L)
  {
    forall i, j | InGrid(i, j, L)
      ensures Written(ws1 + ws2, i, j) == Written(ws1, i, j) + Written(ws2, i, j)
    {
      WrittenConcat(ws1, ws2, i, j);
    }
  }

  /** Every filled, unmasked cell of b1 other than (r, c) keeps its value in b2. */
  ghost predicate KeepsGivensBut(b1: Grid, b2: Grid, m: Mask, L: int, r: int, c: int)
    requires IsSquare(b1, L) && IsSquare(b2, L) && IsSquare(m, L)
  {
    forall i, j :: InGrid(i, j, L) && (i != r || j != c) && b1[i][j].Some? && !m[i][j] ==> b2[i][j] == b1[i][j]
  }

  /** Every filled, unmasked cell of b1 keeps its value in b2. */
  ghost predicate KeepsGivens(b1: Grid, b2: Grid, m: Mask, L: int)
    requires IsSquare(b1, L) && IsSquare(b2, L) && IsSquare(m, L)
  {
    forall i, j :: InGrid(i, j, L) && b1[i][j].Some? && !m[i][j] ==> b2[i][j] == b1[i][j]
  }

  /** `solveCount(maskedBoard, row, col, count, n, mask, limit, start, aN)` from tape position t
      (the unused `int n` parameter is dropped). */
  function SolveCount(o: Oracle, g: Grid, row: int, col: int, count: int, n: Order, m: Mask, t: nat): (r: Counted)
    requires Shuffles(o) && IsSquare(g, n * n) && IsSquare(m, n * n)
    requires 0 <= row <= n * n && 0 <= col <= n * n
    ensures IsSquare(r.board, n * n)
    ensures AllDrawn(r.writes, n)
    ensures KeepsGivens(g, r.board, m, n * n)
    ensures Accounted(g, r.board, m, r.writes, n * n)
    ensures o.expired(t) ==> r.code == -1 && r.board == g && r.writes == []
    ensures row == n * n && !o.expired(t) ==>
              && r.code == 1
              && (forall i, j :: InGrid(i, j, n * n) && m[i][j] ==> r.board[i][j] == None)
              && (forall i, j :: InGrid(i, j, n * n) && !m[i][j] ==> r.board[i][j] == g[i][j])
    decreases n * n - row, n * n + 1 - col, 2, 0, 0
  {
    var L := n * n;
    if o.expired(t) then Counted(-1, g, [], t + 1)
    else if row == L then Counted(1, MaskInPlace(g, m), [], t + 1)
    else if col == L then
      var sub := SolveCount(o, g, row + 1, 0, count, n, m, t + 1);
      Counted(count + sub.code, sub.board, sub.writes, sub.clock)
    else if g[row][col] != None then
      var sub := SolveCount(o, g, row, col + 1, count, n, m, t + 1);
      Counted(count + sub.code, sub.board, sub.writes, sub.clock)
    else SolveEmpty(o, g, row, col, count, n, m, t + 1)
  }

  /** The rest of `solveCount` at an empty cell, from tape position t: no candidates gives 0,
      otherwise shuffle them and run the candidate loop. */
  function SolveEmpty(o: Oracle, g: Grid, row: int, col: int, count: int, n: Order, m: Mask, t: nat): (r: Counted)
    requires Shuffles(o) && IsSquare(g, n * n) && IsSquare(m, n * n)
    requires InGrid(row, col, n * n) && g[row][col] == None
    ensures IsSquare(r.board, n * n)
    ensures AllDrawn(r.writes, n)
    ensures KeepsGivens(g, r.board, m, n * n)
    ensures Accounted(g, r.board, m, r.writes, n * n)
    decreases n * n - row, n * n + 1 - col, 1, 0, 0
  {
    var numbers := MakePossible(g, row, col, n);
    if |numbers| == 0 then Counted(0, g, [], t)
    else
      var shuffled := o.shuffle(t, numbers);
      ShuffledEntries(o, t, numbers);
      CountCandidates(o, g, g, row, col, n, m, shuffled, 0, count, t + 1)
  }

  /** The loop `for (i = 0; i < numbers.size() && count < 2; i++)` of `solveCount` from index i:
      write `nums[i]`, recurse to (row + 1, col) — not (row, col + 1) — and add the result to
      count; after the loop, re-check the clock. `visited` is the grid on which `nums` was computed. */
  function CountCandidates(o: Oracle, visited: Grid, g: Grid, row: int, col: int, n: Order, m: Mask,
                           nums: seq<int>, i: nat, count: int, t: nat): (r: Counted)
    requires Shuffles(o) && IsSquare(g, n * n) && IsSquare(m, n * n) && IsSquare(visited, n * n)
    requires InGrid(row, col, n * n) && i <= |nums|
    requires visited[row][col] == None
    requires forall k :: 0 <= k < |nums| ==> nums[k] in MakePossible(visited, row, col, n)
    ensures IsSquare(r.board, n * n)
    ensures AllDrawn(r.writes, n)
    ensures KeepsGivensBut(g, r.board, m, n * n, row, col)
    ensures Accounted(g, r.board, m, r.writes, n * n)
    ensures count >= 2 ==> r.writes == [] && r.board == g && (r.code == -1 || r.code == count)
    decreases n * n - row, n * n + 1 - col, 0, |nums| - i, 1
  {
    if i < |nums| && count < 2 then CountOne(o, visited, g, row, col, n, m, nums, i, count, t)
    else if o.expired(t) then Counted(-1, g, [], t + 1)
    else Counted(count, g, [], t + 1)
  }

  /** One turn of the candidate loop: write `nums[i]`, recurse to (row + 1, col), add the
      result to count, and go on with the loop. */
  function CountOne(o: Oracle, visited: Grid, g: Grid, row: int, col: int, n: Order, m: Mask,
                    nums: seq<int>, i: nat, count: int, t: nat): (r: Counted)
    requires Shuffles(o) && IsSquare(g, n * n) && IsSquare(m, n * n) && IsSquare(visited, n * n)
    requires InGrid(row, col, n * n) && i < |nums|
    requires visited[row][col] == None
    requires forall k :: 0 <= k < |nums| ==> nums[k] in MakePossible(visited, row, col, n)
    ensures IsSquare(r.board, n * n)
    ensures AllDrawn(r.writes, n)
    ensures KeepsGivensBut(g, r.board, m, n * n, row, col)
    ensures Accounted(g, r.board, m, r.writes, n * n)
    decreases n * n - row, n * n + 1 - col, 0, |nums| - i, 0
  {
    var w := Write(row, col, nums[i], visited);
    var placed := Set(g, row, col, Some(nums[i]));
    var sub := SolveCount(o, placed, row + 1, col, count, n, m, t);
    var rest := CountCandidates(o, visited, sub.board, row, col, n, m, nums, i + 1, count + sub.code, sub.clock);
    CandidateStep(g, placed, sub.board, rest.board, m, w, sub.writes, rest.writes, n);
    Counted(rest.code, rest.board, [w] + sub.writes + rest.writes, rest.clock)
  }

  /** One turn of the candidate loop: a logged write, a recursive count, then the rest of the loop. */
  lemma CandidateStep(g: Grid, placed: Grid, b2: Grid, b3: Grid, m: Mask, w: Write,
                      ws2: seq<Write>, ws3: seq<Write>, n: Order)
    requires IsSquare(g, n * n) && IsSquare(b2, n * n) && IsSquare(b3, n * n) && IsSquare(m, n * n)
    requires InGrid(w.row, w.col, n * n) && placed == Set(g, w.row, w.col, Some(w.value))
    requires Drawn(w, n) && AllDrawn(ws2, n) && AllDrawn(ws3, n)
    requires KeepsGivens(placed, b2, m, n * n) && KeepsGivensBut(b2, b3, m, n * n, w.row, w.col)
    requires Accounted(placed, b2, m, ws2, n * n) && Accounted(b2, b3, m, ws3, n * n)
    ensures AllDrawn([w] + ws2 + ws3, n)
    ensures KeepsGivensBut(g, b3, m, n * n, w.row, w.col)
    ensures Accounted(g, b3, m, [w] + ws2 + ws3, n * n)
  {
    AllDrawnConcat([w], ws2, n);
    AllDrawnConcat([w] + ws2, ws3, n);
    KeepsStep(g, placed, b2, b3, m, w.row, w.col, w.value, n * n);
    AccountedStep(g, placed, m, w, n * n);
    AccountedTrans(g, placed, b2, m, [w], ws2, n * n);
    AccountedTrans(g, b2, b3, m, [w] + ws2, ws3, n * n);
  }

  lemma AllDrawnConcat(a: seq<Write>, b: seq<Write>, n: Order)
    requires AllDrawn(a, n) && AllDrawn(b, n)
    ensures AllDrawn(a + b, n)
  {
    forall k | 0 <= k < |a + b|
      ensures Drawn((a + b)[k], n)
    {
      if k < |a| {
        assert (a + b)[k] == a[k];
      } else {
        assert (a + b)[k] == b[k - |a|];
      }
    }
  }

  lemma KeepsStep(g: Grid, placed: Grid, b2: Grid, b3: Grid, m: Mask, r: int, c: int, v: int, L: int)
    requires IsSquare(g, L) && IsSquare(b2, L) && IsSquare(b3, L) && IsSquare(m, L)
    requires InGrid(r, c, L) && placed == Set(g, r, c, Some(v))
    requires KeepsGivens(placed, b2, m, L) && KeepsGivensBut(b2, b3, m, L, r, c)
    ensures KeepsGivensBut(g, b3, m, L, r, c)
  {
  }

  /** The logged write itself accounts for the one cell it changes. */
  lemma AccountedStep(g: Grid, placed: Grid, m: Mask, w: Write, L: int)
    requires IsSquare(g, L) && IsSquare(m, L) && InGrid(w.row, w.col, L)
    requires placed == Set(g, w.row, w.col, Some(w.value))
    ensures IsSquare(placed, L) && Accounted(g, placed, m, [w], L)
  {
    assert Written([w], w.row, w.col) == {Some(w.value)} by {
      assert [w][1..] == [];
    }
  }
}
