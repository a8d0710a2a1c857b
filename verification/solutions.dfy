/** A solution counter that does what `solveCount` (src/Board.java) sets out to do: count
    the solutions of a puzzle, stopping once two are found. Compared with the code as
    written it advances the cursor to (row, col + 1), does not hand the running count down
    to the sub-search, tries every candidate on the same grid (nothing to undo), and stops
    with -1 as soon as a sub-search times out. */
module Solutions {
  import opened Boards
  import opened Candidates
  import opened Oracles

  /** s is a solution of the puzzle g: a solved grid that agrees with every filled cell of g. */
  ghost predicate Completes(s: Grid, g: Grid, n: Order) {
    && Solved(s, n)
    && IsSquare(g, n * n)
    && forall i, j :: InGrid(i, j, n * n) && g[i][j].Some? ==> s[i][j] == g[i][j]
  }

  /** Every cell the cursor at (row, col) has passed is filled. */
  ghost predicate FilledBefore(g: Grid, row: int, col: int, L: int)
    requires IsSquare(g, L)
  {
    forall i, j :: InGrid(i, j, L) && Before(i, j, row, col) ==> g[i][j].Some?
  }

  /** The count `code` witnesses at least `a` solutions, unless it reports a time out. */
  predicate Found(code: int, a: int) {
    code == -1 || code >= a
  }

  function Min2(x: int): int {
    if x < 2 then x else 2
  }

  /** A count (or -1 on time out) and the next free tape position. */
  datatype Tally = Tally(code: int, clock: nat)

  /** The corrected counter from cursor (row, col) and tape position t. */
  function CountSolutions(o: Oracle, g: Grid, row: int, col: int, n: Order, t: nat): (r: Tally)
    requires Shuffles(o) && IsSquare(g, n * n) && 0 <= row <= n * n && 0 <= col <= n * n
    ensures r.code >= -1
    ensures o.expired(t) ==> r.code == -1
    ensures (forall u :: !o.expired(u)) ==> r.code >= 0
    decreases n * n - row, n * n + 1 - col, 1, 0
  {
    var L := n * n;
    if o.expired(t) then Tally(-1, t + 1)
    else if row == L then Tally(1, t + 1)
    else if col == L then CountSolutions(o, g, row + 1, 0, n, t + 1)
    else if g[row][col] != None then CountSolutions(o, g, row, col + 1, n, t + 1)
    else
      var numbers := MakePossible(g, row, col, n);
      if |numbers| == 0 then Tally(0, t + 1)
      else CountEach(o, g, row, col, n, o.shuffle(t + 1, numbers), 0, 0, t + 2)
  }

  /** The candidate loop of the corrected counter from index i, with `count` solutions found
      so far: each candidate is tried on the same grid, and the loop stops at two. */
  function CountEach(o: Oracle, g: Grid, row: int, col: int, n: Order, nums: seq<int>,
                     i: nat, count: int, t: nat): (r: Tally)
    requires Shuffles(o) && IsSquare(g, n * n) && InGrid(row, col, n * n)
    requires i <= |nums| && count >= 0
    ensures r.code == -1 || r.code >= count
    ensures count >= 2 ==> r.code == -1 || r.code == count
    ensures (forall u :: !o.expired(u)) ==> r.code >= count
    decreases n * n - row, n * n + 1 - col, 0, |nums| - i
  {
    if i < |nums| && count < 2 then
      var sub := CountSolutions(o, Set(g, row, col, Some(nums[i])), row, col + 1, n, t);
      if sub.code == -1 then sub
      else CountEach(o, g, row, col, n, nums, i + 1, count + sub.code, sub.clock)
    else if o.expired(t) then Tally(-1, t + 1)
    else Tally(count, t + 1)
  }

  /** What the loop from index i still owes: one for each of the values v1, v2 (the two
      solutions' values at the cursor) not yet tried, or two for a shared value when the
      solutions differ elsewhere. */
  function Credit(nums: seq<int>, i: int, v1: int, v2: int, same: bool): int
    requires 0 <= i <= |nums|
  {
    if v1 == v2 then (if v1 in nums[i..] then (if same then 1 else 2) else 0)
    else (if v1 in nums[i..] then 1 else 0) + (if v2 in nums[i..] then 1 else 0)
  }

  /** Completeness: two solutions s1, s2 of g (possibly the same one) make the count reach
      one, or two when they differ, unless it times out. */
  lemma {:induction false} CountFinds(o: Oracle, g: Grid, row: int, col: int, n: Order, t: nat, s1: Grid, s2: Grid)
    requires Shuffles(o) && IsSquare(g, n * n) && 0 <= row <= n * n && 0 <= col <= n * n
    requires FilledBefore(g, row, col, n * n)
    requires Completes(s1, g, n) && Completes(s2, g, n)
    ensures Found(CountSolutions(o, g, row, col, n, t).code, if s1 == s2 then 1 else 2)
    decreases n * n - row, n * n + 1 - col, 2, 0
  {
    var L := n * n;
    if o.expired(t) {
    } else if row == L {
      SameWhereFilled(g, s1, s2, n);
      assert CountSolutions(o, g, row, col, n, t).code == 1;
    } else if col == L {
      CountFinds(o, g, row + 1, 0, n, t + 1, s1, s2);
      assert CountSolutions(o, g, row, col, n, t) == CountSolutions(o, g, row + 1, 0, n, t + 1);
    } else if g[row][col] != None {
      CountFinds(o, g, row, col + 1, n, t + 1, s1, s2);
      assert CountSolutions(o, g, row, col, n, t) == CountSolutions(o, g, row, col + 1, n, t + 1);
    } else {
      EmptyCellFinds(o, g, row, col, n, t, s1, s2);
    }
  }

  /** `CountFinds` at an empty cell: both solutions' values there are among the shuffled
      candidates, so the candidate loop owes exactly what `CountFinds` promises. */
  lemma {:induction false} EmptyCellFinds(o: Oracle, g: Grid, row: int, col: int, n: Order, t: nat, s1: Grid, s2: Grid)
    requires Shuffles(o) && IsSquare(g, n * n) && InGrid(row, col, n * n) && g[row][col] == None
    requires FilledBefore(g, row, col, n * n)
    requires Completes(s1, g, n) && Completes(s2, g, n)
    ensures !o.expired(t) ==>
      var numbers := MakePossible(g, row, col, n);
      |numbers| > 0 &&
      Found(CountEach(o, g, row, col, n, o.shuffle(t + 1, numbers), 0, 0, t + 2).code, if s1 == s2 then 1 else 2)
    decreases n * n - row, n * n + 1 - col, 1, 0
  {
    var v1, v2 := s1[row][col].value, s2[row][col].value;
    SolutionIsCandidate(g, s1, row, col, n);
    SolutionIsCandidate(g, s2, row, col, n);
    var nums := ShuffledCandidates(o, g, row, col, n, t + 1, v1, v2);
    FullCredit(nums, v1, v2, s1 == s2);
    CountEachFinds(o, g, row, col, n, nums, 0, 0, t + 2, s1, s2);
  }

  /** The shuffled candidate list of a cell has no repeats and holds every candidate. */
  lemma ShuffledCandidates(o: Oracle, g: Grid, row: int, col: int, n: Order, t: nat, v1: int, v2: int)
    returns (nums: seq<int>)
    requires Shuffles(o) && IsSquare(g, n * n) && InGrid(row, col, n * n)
    requires Candidate(g, row, col, n, v1) && Candidate(g, row, col, n, v2)
    ensures nums == o.shuffle(t, MakePossible(g, row, col, n))
    ensures |MakePossible(g, row, col, n)| > 0
    ensures Distinct(nums) && v1 in nums && v2 in nums
  {
    var numbers := MakePossible(g, row, col, n);
    nums := o.shuffle(t, numbers);
    assert multiset(nums) == multiset(numbers);
    assert v1 in multiset(nums) && v2 in multiset(nums);
    DistinctPermuted(nums, numbers);
  }

  /** Before the loop starts it owes one for the same solution twice, two for two different ones. */
  lemma FullCredit(nums: seq<int>, v1: int, v2: int, same: bool)
    requires v1 in nums && v2 in nums && (same ==> v1 == v2)
    ensures Credit(nums, 0, v1, v2, same) == if same then 1 else 2
  {
    assert nums[0..] == nums;
  }

  /** The loop version of `CountFinds`: the loop reaches `count` plus what it still owes,
      capped at two, unless it times out. */
  lemma {:induction false} CountEachFinds(o: Oracle, g: Grid, row: int, col: int, n: Order, nums: seq<int>,
                                          i: nat, count: int, t: nat, s1: Grid, s2: Grid)
    requires Shuffles(o) && IsSquare(g, n * n) && InGrid(row, col, n * n)
    requires i <= |nums| && count >= 0 && Distinct(nums)
    requires FilledBefore(g, row, col, n * n)
    requires Completes(s1, g, n) && Completes(s2, g, n)
    ensures Found(CountEach(o, g, row, col, n, nums, i, count, t).code,
                  Min2(count + Credit(nums, i, s1[row][col].value, s2[row][col].value, s1 == s2)))
    decreases n * n - row, n * n + 1 - col, 0, |nums| - i
  {
    var v1, v2, same := s1[row][col].value, s2[row][col].value, s1 == s2;
    if i < |nums| && count < 2 {
      var placed := Set(g, row, col, Some(nums[i]));
      var sub := CountSolutions(o, placed, row, col + 1, n, t);
      if sub.code != -1 {
        Peel(nums, i, v1);
        Peel(nums, i, v2);
        Placing(g, placed, row, col, n);
        if nums[i] == v1 && nums[i] == v2 {
          PlacedSolution(g, s1, row, col, n);
          PlacedSolution(g, s2, row, col, n);
          CountFinds(o, placed, row, col + 1, n, t, s1, s2);
        } else if nums[i] == v1 {
          PlacedSolution(g, s1, row, col, n);
          CountFinds(o, placed, row, col + 1, n, t, s1, s1);
          assert !same;
        } else if nums[i] == v2 {
          PlacedSolution(g, s2, row, col, n);
          CountFinds(o, placed, row, col + 1, n, t, s2, s2);
          assert !same;
        }
        var here := Here(nums[i], v1, v2, same);
        assert Found(sub.code, here);
        assert Credit(nums, i, v1, v2, same) == here + Credit(nums, i + 1, v1, v2, same);
        var rest := CountEach(o, g, row, col, n, nums, i + 1, count + sub.code, sub.clock);
        assert CountEach(o, g, row, col, n, nums, i, count, t) == rest;
        CountEachFinds(o, g, row, col, n, nums, i + 1, count + sub.code, sub.clock, s1, s2);
        FoundStep(rest.code, count, sub.code, here, Credit(nums, i + 1, v1, v2, same));
      }
    }
  }

  /** What trying the value x at the cursor is owed: one for each of v1, v2 it equals, or two
      when it equals both and the solutions differ elsewhere. */
  function Here(x: int, v1: int, v2: int, same: bool): int {
    if x == v1 && x == v2 then (if same then 1 else 2)
    else (if x == v1 then 1 else 0) + (if x == v2 then 1 else 0)
  }

  /** A candidate that found what it was owed passes the rest of the credit on to the loop. */
  lemma FoundStep(code: int, count: int, sub: int, here: int, rest: int)
    requires sub != -1 && Found(sub, here)
    requires Found(code, Min2(count + sub + rest))
    ensures Found(code, Min2(count + here + rest))
  {
  }

  /** Membership in `nums[i..]` splits into the head and the rest, and the head is not repeated. */
  lemma Peel(nums: seq<int>, i: int, v: int)
    requires 0 <= i < |nums| && Distinct(nums)
    ensures v in nums[i..] <==> v == nums[i] || v in nums[i + 1 ..]
    ensures v == nums[i] ==> v !in nums[i + 1 ..]
  {
    assert nums[i..] == [nums[i]] + nums[i + 1 ..];
    var rest := nums[i + 1 ..];
    forall k | 0 <= k < |rest|
      ensures rest[k] != nums[i]
    {
      assert rest[k] == nums[i + 1 + k];
    }
  }

  /** Filling the cursor cell moves the cursor one cell on with everything before it filled. */
  lemma Placing(g: Grid, placed: Grid, row: int, col: int, n: Order)
    requires IsSquare(g, n * n) && InGrid(row, col, n * n) && FilledBefore(g, row, col, n * n)
    requires exists v :: placed == Set(g, row, col, Some(v))
    ensures IsSquare(placed, n * n) && FilledBefore(placed, row, col + 1, n * n)
  {
  }

  /** A solution of g is a solution of g with the cursor cell set to its own value there. */
  lemma PlacedSolution(g: Grid, s: Grid, row: int, col: int, n: Order)
    requires IsSquare(g, n * n) && InGrid(row, col, n * n) && Completes(s, g, n)
    ensures Completes(s, Set(g, row, col, Some(s[row][col].value)), n)
  {
  }

  /** At an empty cell, a solution's value there is one `makePossible` offers. */
  lemma SolutionIsCandidate(g: Grid, s: Grid, row: int, col: int, n: Order)
    requires IsSquare(g, n * n) && InGrid(row, col, n * n) && g[row][col] == None
    requires Completes(s, g, n)
    ensures Candidate(g, row, col, n, s[row][col].value)
  {
    var v := s[row][col].value;
    forall i, j | InGrid(i, j, n * n) && Peer(i, j, row, col, n)
      ensures g[i][j] != Some(v)
    {
      if g[i][j].Some? {
        assert s[i][j] == g[i][j];
        assert s[i][j] != s[row][col];
      }
    }
  }

  /** Two solutions of a completely filled grid are the same grid. */
  lemma SameWhereFilled(g: Grid, s1: Grid, s2: Grid, n: Order)
    requires IsSquare(g, n * n) && FilledBefore(g, n * n, 0, n * n)
    requires Completes(s1, g, n) && Completes(s2, g, n)
    ensures s1 == s2
  {
    forall i | 0 <= i < n * n
      ensures s1[i] == s2[i]
    {
      forall j | 0 <= j < n * n
        ensures s1[i][j] == s2[i][j]
      {
        assert Before(i, j, n * n, 0);
      }
    }
  }
}
