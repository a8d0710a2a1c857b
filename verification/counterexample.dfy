/** A 4×4 puzzle (box order 2) with two solutions, on which `solveCount` as written reports
    one solution while the corrected counter reports two; and what that does to `makeMask`. */
module Counterexample {
  import opened Boards
  import opened Candidates
  import opened Oracles
  import opened Count
  import opened Solutions
  import opened Masking

  const First: Grid := [[Some(1), Some(2), Some(3), Some(4)],
                        [Some(3), Some(4), Some(1), Some(2)],
                        [Some(2), Some(1), Some(4), Some(3)],
                        [Some(4), Some(3), Some(2), Some(1)]]

  /** `First` with the values of the rectangle (0,2), (0,3), (2,2), (2,3) swapped. */
  const Second: Grid := [[Some(1), Some(2), Some(4), Some(3)],
                         [Some(3), Some(4), Some(1), Some(2)],
                         [Some(2), Some(1), Some(3), Some(4)],
                         [Some(4), Some(3), Some(2), Some(1)]]

  const Hide: Mask := [[true, false, true, true],
                       [false, false, false, false],
                       [true, false, true, true],
                       [false, false, false, false]]

  const Given: Grid := [[None, Some(2), None, None],
                        [Some(3), Some(4), Some(1), Some(2)],
                        [None, Some(1), None, None],
                        [Some(4), Some(3), Some(2), Some(1)]]

  lemma GivenIsMasked()
    ensures Given == MaskBoard(First, Hide)
  {
    var g := MaskBoard(First, Hide);
    assert g[0] == Given[0] && g[1] == Given[1] && g[2] == Given[2] && g[3] == Given[3];
  }

  lemma TwoSolutions()
    ensures Completes(First, Given, 2) && Completes(Second, Given, 2) && First != Second
  {
    assert First[0][2] != Second[0][2];
    SolvedGrid(First);
    SolvedGrid(Second);
  }

  /** A concrete 4×4 grid with every row, column and box a permutation of 1..4 is solved. */
  lemma SolvedGrid(g: Grid)
    requires g == First || g == Second
    ensures Solved(g, 2)
  {
    forall i, j, p, q | InGrid(i, j, 4) && InGrid(p, q, 4) && (i != p || j != q) && Peer(i, j, p, q, 2)
      ensures g[i][j] != g[p][q]
    {
      assert i == 0 || i == 1 || i == 2 || i == 3;
      assert p == 0 || p == 1 || p == 2 || p == 3;
      assert j == 0 || j == 1 || j == 2 || j == 3;
      assert q == 0 || q == 1 || q == 2 || q == 3;
    }
  }

  /** `Given` after the first write of the walk, 1 at (0, 0). */
  const Given1: Grid := [[Some(1), Some(2), None, None],
                         [Some(3), Some(4), Some(1), Some(2)],
                         [None, Some(1), None, None],
                         [Some(4), Some(3), Some(2), Some(1)]]

  lemma Writes()
    ensures Set(Given, 0, 0, Some(1)) == Given1
  {
    var a := Set(Given, 0, 0, Some(1));
    assert a[0] == Given1[0] && a[1] == Given1[1] && a[2] == Given1[2] && a[3] == Given1[3];
  }

  /** An increasing list whose only member is a is [a]. */
  lemma Single(r: seq<int>, a: int)
    requires Increasing(r) && forall v :: v in r <==> v == a
    ensures r == [a]
  {
    assert |r| < 2 || r[0] < r[1];
    assert a in r;
    forall k | 0 <= k < |r|
      ensures r[k] == a
    {
      assert r[k] in r;
    }
  }

  lemma FirstCandidates()
    ensures MakePossible(Given, 0, 0, 2) == [1]
  {
    var r := MakePossible(Given, 0, 0, 2);
    forall v
      ensures v in r <==> v == 1
    {
      if v == 2 {
        assert Peer(0, 1, 0, 0, 2) && Given[0][1] == Some(2);
      } else if v == 3 {
        assert Peer(1, 0, 0, 0, 2) && Given[1][0] == Some(3);
      } else if v == 4 {
        assert Peer(1, 1, 0, 0, 2) && Given[1][1] == Some(4);
      } else if v == 1 {
        forall i, j | InGrid(i, j, 4) && Peer(i, j, 0, 0, 2)
          ensures Given[i][j] != Some(1)
        {
          assert i == 0 || i == 1 || i == 2 || i == 3;
          assert j == 0 || j == 1 || j == 2 || j == 3;
        }
      }
    }
    Single(r, 1);
  }

  lemma SecondCandidates()
    ensures MakePossible(Given1, 2, 0, 2) == [2]
  {
    var r := MakePossible(Given1, 2, 0, 2);
    forall v
      ensures v in r <==> v == 2
    {
      if v == 1 {
        assert Peer(0, 0, 2, 0, 2) && Given1[0][0] == Some(1);
      } else if v == 3 {
        assert Peer(1, 0, 2, 0, 2) && Given1[1][0] == Some(3);
      } else if v == 4 {
        assert Peer(3, 0, 2, 0, 2) && Given1[3][0] == Some(4);
      } else if v == 2 {
        forall i, j | InGrid(i, j, 4) && Peer(i, j, 2, 0, 2)
          ensures Given1[i][j] != Some(2)
        {
          assert i == 0 || i == 1 || i == 2 || i == 3;
          assert j == 0 || j == 1 || j == 2 || j == 3;
        }
      }
    }
    Single(r, 2);
  }

  /** What the walk below assumes throughout: a shuffle that permutes, a clock that never
      expires, and a 4×4 grid and mask. */
  ghost predicate Calm(o: Oracle, g: Grid, m: Mask) {
    Shuffles(o) && (forall u :: !o.expired(u)) && IsSquare(g, 4) && IsSquare(m, 4)
  }

  /** Cells (row, col) to the end of the row are filled. */
  ghost predicate FilledFrom(g: Grid, row: int, col: int) {
    0 <= row < |g| && 0 <= col && forall j :: col <= j < |g[row]| ==> g[row][j].Some?
  }

  /** Cell (row, col) is empty and v is its only candidate. */
  ghost predicate Lone(g: Grid, row: int, col: int, v: int) {
    IsSquare(g, 4) && InGrid(row, col, 4) && g[row][col] == None && MakePossible(g, row, col, 2) == [v]
  }

  /** Writing one cell keeps the assumptions, and keeps other rows filled. */
  lemma CalmAfter(o: Oracle, g: Grid, m: Mask, r: int, c: int, x: Cell, row: int)
    requires Calm(o, g, m) && InGrid(r, c, 4) && row != r && FilledFrom(g, row, 0)
    ensures Calm(o, Set(g, r, c, x), m) && FilledFrom(Set(g, r, c, x), row, 0)
  {
  }

  /** With a count of 0 and a clock that never expires, `solveCount` across a row of filled
      cells returns what it returns at the start of the next row. */
  lemma {:induction false} FilledRow(o: Oracle, g: Grid, row: int, col: int, m: Mask, t: nat, t': nat)
    requires Calm(o, g, m) && FilledFrom(g, row, col) && 0 <= col <= 4 && t' == t + 5 - col
    ensures SolveCount(o, g, row, col, 0, 2, m, t).code == SolveCount(o, g, row + 1, 0, 0, 2, m, t').code
    decreases 4 - col
  {
    if col < 4 {
      FilledRow(o, g, row, col + 1, m, t + 1, t');
    }
  }

  /** A shuffle of a one-element list is that list. */
  lemma ShuffleOne(o: Oracle, t: nat, v: int)
    requires Shuffles(o)
    ensures o.shuffle(t, [v]) == [v]
  {
    var u := o.shuffle(t, [v]);
    assert multiset(u) == multiset{v};
    assert |u| == 1;
    assert u[0] in multiset(u);
  }

  /** At an empty cell with a single candidate v, `solveCount` with a count of 0 returns what
      it returns one row down on the grid with v written in. */
  lemma LoneCandidate(o: Oracle, g: Grid, row: int, col: int, m: Mask, v: int, t: nat, row': int, t': nat)
    requires Calm(o, g, m) && Lone(g, row, col, v) && row' == row + 1 && t' == t + 2
    ensures SolveCount(o, g, row, col, 0, 2, m, t).code ==
            SolveCount(o, Set(g, row, col, Some(v)), row', col, 0, 2, m, t').code
  {
    EmptyCell(o, g, row, col, m, v, t);
    LoneLoop(o, g, row, col, m, v, t');
  }

  /** At an empty cell with one candidate, the shuffle changes nothing and the loop runs over
      that candidate. */
  lemma EmptyCell(o: Oracle, g: Grid, row: int, col: int, m: Mask, v: int, t: nat)
    requires Calm(o, g, m) && Lone(g, row, col, v)
    ensures SolveCount(o, g, row, col, 0, 2, m, t) == CountCandidates(o, g, g, row, col, 2, m, [v], 0, 0, t + 2)
  {
    assert !o.expired(t);
    ShuffleOne(o, t + 1, v);
  }

  /** The candidate loop over a single candidate, from a count of 0, returns the count of the
      recursive call. */
  lemma LoneLoop(o: Oracle, g: Grid, row: int, col: int, m: Mask, v: int, t: nat)
    requires Calm(o, g, m) && Lone(g, row, col, v)
    ensures CountCandidates(o, g, g, row, col, 2, m, [v], 0, 0, t).code ==
            SolveCount(o, Set(g, row, col, Some(v)), row + 1, col, 0, 2, m, t).code
  {
    var sub := SolveCount(o, Set(g, row, col, Some(v)), row + 1, col, 0, 2, m, t);
    LoopEnd(o, g, sub.board, row, col, m, v, sub.code, sub.clock);
  }

  /** After its one candidate the loop returns the count it has. */
  lemma LoopEnd(o: Oracle, g: Grid, b: Grid, row: int, col: int, m: Mask, v: int, count: int, t: nat)
    requires Calm(o, g, m) && Lone(g, row, col, v) && IsSquare(b, 4)
    ensures CountCandidates(o, g, b, row, col, 2, m, [v], 1, count, t).code == count
  {
    assert !o.expired(t);
  }

  /** As written, `solveCount` reports a single completion of `Given`, which has two: after
      placing the only candidate at (0, 0) it moves down to (1, 0) and (2, 0) and from there to
      row 3, so the empty cells (0, 2), (0, 3), (2, 2) and (2, 3) are never tried. This holds for
      every shuffle, as long as the clock does not expire. */
  lemma AsWrittenCountsOne(o: Oracle, t: nat)
    requires Shuffles(o) && forall u :: !o.expired(u)
    ensures Given == MaskBoard(First, Hide)
    ensures Completes(First, Given, 2) && Completes(Second, Given, 2) && First != Second
    ensures SolveCount(o, Given, 0, 0, 0, 2, Hide, t).code == 1
  {
    GivenIsMasked();
    TwoSolutions();
    GivenWalks();
    assert Calm(o, Given, Hide);
    LoneCandidate(o, Given, 0, 0, Hide, 1, t, 1, t + 2);
    AfterFirst(o, Given, Hide, 1, 2, t + 2);
  }

  /** The shape of grid the walk below needs: cells (0, 0) and (2, 0) are empty with a single
      candidate each (the second once the first is written), and rows 1 and 3 are filled. */
  ghost predicate Walks(g: Grid, a: int, b: int) {
    && Lone(g, 0, 0, a)
    && Lone(Set(g, 0, 0, Some(a)), 2, 0, b)
    && FilledFrom(g, 1, 0)
    && FilledFrom(g, 3, 0)
  }

  lemma GivenWalks()
    ensures IsSquare(Hide, 4) && Walks(Given, 1, 2)
  {
    Shapes();
    Writes();
    FirstCandidates();
    SecondCandidates();
  }

  /** With a written at (0, 0), the as-written walk goes on through row 1, (2, 0) and row 3,
      and counts 1 whatever the mask. */
  lemma AfterFirst(o: Oracle, g: Grid, m: Mask, a: int, b: int, t: nat)
    requires Calm(o, g, m) && Walks(g, a, b)
    ensures SolveCount(o, Set(g, 0, 0, Some(a)), 1, 0, 0, 2, m, t).code == 1
  {
    CalmAfter(o, g, m, 0, 0, Some(a), 1);
    CalmAfter(o, g, m, 0, 0, Some(a), 3);
    MiddleRow(o, Set(g, 0, 0, Some(a)), m, b, t);
  }

  /** From (1, 0): the filled row 1, then the rest of the walk from (2, 0). */
  lemma MiddleRow(o: Oracle, g: Grid, m: Mask, b: int, t: nat)
    requires Calm(o, g, m) && Lone(g, 2, 0, b) && FilledFrom(g, 1, 0) && FilledFrom(g, 3, 0)
    ensures SolveCount(o, g, 1, 0, 0, 2, m, t).code == 1
  {
    FilledRow(o, g, 1, 0, m, t, t + 5);
    LowerHalf(o, g, m, b, t + 5);
  }

  /** From (2, 0): the one candidate b, then the rest of the walk from (3, 0). */
  lemma LowerHalf(o: Oracle, g: Grid, m: Mask, b: int, t: nat)
    requires Calm(o, g, m) && Lone(g, 2, 0, b) && FilledFrom(g, 3, 0)
    ensures SolveCount(o, g, 2, 0, 0, 2, m, t).code == 1
  {
    LoneCandidate(o, g, 2, 0, m, b, t, 3, t + 2);
    CalmAfter(o, g, m, 2, 0, Some(b), 3);
    LastRow(o, Set(g, 2, 0, Some(b)), m, t + 2);
  }

  /** From (3, 0): the filled row 3, then the end of the grid, which counts 1. */
  lemma LastRow(o: Oracle, g: Grid, m: Mask, t: nat)
    requires Calm(o, g, m) && FilledFrom(g, 3, 0)
    ensures SolveCount(o, g, 3, 0, 0, 2, m, t).code == 1
  {
    FilledRow(o, g, 3, 0, m, t, t + 5);
    assert !o.expired(t + 5);
  }

  lemma Shapes()
    ensures IsSquare(Given, 4) && IsSquare(Hide, 4)
    ensures Given[0][0] == None && Given[2][0] == None
    ensures forall j :: 0 <= j < 4 ==> Given[1][j].Some? && Given[3][j].Some?
  {
  }

  /** The corrected counter sees both completions of the same grid. */
  lemma CorrectedCountsTwo(o: Oracle, t: nat)
    requires Shuffles(o) && forall u :: !o.expired(u)
    ensures CountSolutions(o, Given, 0, 0, 2, t).code >= 2
  {
    TwoSolutions();
    CountFinds(o, Given, 0, 0, 2, t, First, Second);
  }

  /** The probe `makeMask` runs once `Hide` is hidden on `First` returns 1, although `Second`
      also solves that puzzle. */
  lemma AsWrittenProbeKeeps(o: Oracle, t: nat)
    requires Shuffles(o) && forall u :: !o.expired(u)
    ensures IsSquare(First, 4) && IsSquare(Hide, 4)
    ensures CountHidden(o, AsWritten, First, 2, Hide, t).code == 1
    ensures !Unique(First, Hide, 2)
  {
    Shapes();
    AsWrittenCountsOne(o, t);
    assert Completes(Second, MaskBoard(First, Hide), 2);
  }

  /** The program's `makeMask` on `First`: once a turn hides the last cell of `Hide`, the probe
      keeps it, and a loop that then runs to the end leaves a puzzle with two solutions. */
  lemma AsWrittenKeepsHide(o: Oracle, mask: Mask, places: seq<int>, probes: seq<Probe>, t: nat)
    requires Shuffles(o) && forall u :: !o.expired(u)
    requires IsSquare(mask, 4)
    requires Distinct(places) && forall q :: 0 <= q < |places| ==> 0 <= places[q] < 16
    requires forall p :: 0 <= p < 16 ==> p in places
    requires |probes| < |places| && Tracks(mask, places, probes, 4)
    requires forall q :: 0 <= q < |probes| ==> probes[q].count != -1
    requires Set(mask, PlaceRow(places[|probes|], 4), PlaceCol(places[|probes|], 4), true) == Hide
    ensures MaskLoop(o, AsWritten, First, 2, mask, places, probes, t).code == 1 ==>
              !Unique(First, MaskLoop(o, AsWritten, First, 2, mask, places, probes, t).mask, 2)
  {
    AsWrittenProbeKeeps(o, t);
    KeptHides(o, AsWritten, First, 2, mask, Hide, places, probes, t);
    var r := MaskLoop(o, AsWritten, First, 2, mask, places, probes, t);
    if r.code == 1 {
      TwoSolutions();
      GivenIsMasked();
      MoreHidden(First, Hide, r.mask, Second, 2);
    }
  }
}
