/** The candidate list of a cell (`makePossible`) and the placement check
    (`isValidPlacement`) of src/Board.java. */
module Candidates {
  import opened Boards

  predicate Increasing(s: seq<int>) {
    forall i, j :: 0 <= i < j < |s| ==> s[i] < s[j]
  }

  /** Putting a value below every element in front keeps a sequence increasing. */
  lemma ConsIncreasing(a: int, s: seq<int>)
    requires Increasing(s) && forall u :: u in s ==> a < u
    ensures Increasing([a] + s)
  {
    forall i, j | 0 <= i < j < |s| + 1
      ensures ([a] + s)[i] < ([a] + s)[j]
    {
      assert ([a] + s)[j] == s[j - 1] && s[j - 1] in s;
      if 0 < i {
        assert ([a] + s)[i] == s[i - 1];
      }
    }
  }

  /** The head of an increasing sequence is below everything in its tail. */
  lemma HeadBelowTail(s: seq<int>)
    requires Increasing(s) && |s| > 0
    ensures Increasing(s[1..]) && forall u :: u in s[1..] ==> s[0] < u
  {
    forall u | u in s[1..]
      ensures s[0] < u
    {
      var k :| 0 <= k < |s[1..]| && s[1..][k] == u;
      assert s[k + 1] == u;
    }
  }

  predicate Distinct(s: seq<int>) {
    forall a, b :: 0 <= a < b < |s| ==> s[a] != s[b]
  }

  /** A value at two positions is counted twice. */
  lemma Twice(s: seq<int>, a: int, b: int)
    requires 0 <= a < b < |s| && s[a] == s[b]
    ensures multiset(s)[s[a]] >= 2
  {
    assert s == s[..a] + [s[a]] + s[a + 1 .. b] + [s[b]] + s[b + 1 ..];
  }

  /** An increasing sequence holds each value at most once. */
  lemma {:induction false} AtMostOnce(s: seq<int>, v: int)
    requires Increasing(s)
    ensures multiset(s)[v] <= 1
    decreases |s|
  {
    if s != [] {
      HeadBelowTail(s);
      AtMostOnce(s[1..], v);
      assert s == [s[0]] + s[1..];
      if v == s[0] {
        assert v !in s[1..];
      }
    }
  }
  /** A permutation of a sequence without repeats has no repeats. */
  lemma DistinctPermuted(s: seq<int>, u: seq<int>)
    requires Increasing(u) && multiset(s) == multiset(u)
    ensures Distinct(s)
  {
    forall a, b | 0 <= a < b < |s|
      ensures s[a] != s[b]
    {
      if s[a] == s[b] {
        Twice(s, a, b);
        AtMostOnce(u, s[a]);
        assert false;
      }
    }
  }

  /** `for (int i = lo; i < hi; i++) out.add(i);` */
  function Range(lo: int, hi: int): (r: seq<int>)
    ensures |r| == if lo <= hi then hi - lo else 0
    ensures Increasing(r)
    ensures forall v :: v in r <==> lo <= v < hi
    decreases hi - lo
  {
    if hi <= lo then []
    else
      var rest := Range(lo + 1, hi);
      ConsIncreasing(lo, rest);
      [lo] + rest
  }

  /** `ArrayList.remove(Object)`: drop the first occurrence of v, if any. */
  function RemoveFirst(s: seq<int>, v: int): (r: seq<int>)
    ensures forall u :: u in r ==> u in s
    ensures Increasing(s) ==> Increasing(r) && forall u :: u in r <==> u in s && u != v
  {
    if s == [] then []
    else if s[0] == v then
      (if Increasing(s) then HeadBelowTail(s); s[1..] else s[1..])
    else
      var rest := RemoveFirst(s[1..], v);
      (if Increasing(s) then HeadBelowTail(s); ConsIncreasing(s[0], rest); [s[0]] + rest
       else [s[0]] + rest)
  }

  /** For each item in order: `if (item != null && out.contains(item)) out.remove(item);` */
  function RemoveEach(out: seq<int>, items: seq<Cell>): (r: seq<int>)
    requires Increasing(out)
    ensures Increasing(r)
    ensures forall v :: v in r <==> v in out && Some(v) !in items
    decreases |items|
  {
    if items == [] then out
    else
      var out' := match items[0]
        case None => out
        case Some(v) => if v in out then RemoveFirst(out, v) else out;
      RemoveEach(out', items[1..])
  }

  /** The cells `aBoard[i][y]`, `0 <= i < L`, top to bottom. */
  function Column(g: Grid, y: int): (r: seq<Cell>)
    requires IsSquare(g, |g|) && 0 <= y < |g|
    ensures |r| == |g| && forall i :: 0 <= i < |g| ==> r[i] == g[i][y]
  {
    seq(|g|, i requires 0 <= i < |g| => g[i][y])
  }

  /** Membership in a slice of a row, by index. */
  lemma SliceMembers(row: seq<Cell>, lo: int, hi: int, c: Cell)
    requires 0 <= lo <= hi <= |row|
    ensures c in row[lo .. hi] <==> exists j :: lo <= j < hi && row[j] == c
  {
    if c in row[lo .. hi] {
      var k :| 0 <= k < hi - lo && row[lo .. hi][k] == c;
      assert row[lo + k] == c;
    }
    if j :| lo <= j < hi && row[j] == c {
      assert row[lo .. hi][j - lo] == c;
    }
  }

  /** The box cells `aBoard[xb+i][yb+j]` for `i` from `i0` up and every `0 <= j < aN`,
      in the order of the nested loops of `makePossible`. */
  function BoxRows(g: Grid, xb: int, yb: int, n: Order, i0: int): (r: seq<Cell>)
    requires IsSquare(g, n * n)
    requires 0 <= xb && xb + n <= n * n && 0 <= yb && yb + n <= n * n && 0 <= i0 <= n
    ensures forall c :: c in r <==> exists i, j :: xb + i0 <= i < xb + n && yb <= j < yb + n && g[i][j] == c
    decreases n - i0
  {
    if i0 == n then []
    else
      var here, rest := g[xb + i0][yb .. yb + n], BoxRows(g, xb, yb, n, i0 + 1);
      BoxRowsStep(g, xb, yb, n, i0, here, rest);
      here + rest
  }

  /** One more row of the box in front of the rows already collected. */
  lemma BoxRowsStep(g: Grid, xb: int, yb: int, n: Order, i0: int, here: seq<Cell>, rest: seq<Cell>)
    requires IsSquare(g, n * n)
    requires 0 <= xb && xb + n <= n * n && 0 <= yb && yb + n <= n * n && 0 <= i0 < n
    requires here == g[xb + i0][yb .. yb + n]
    requires forall c :: c in rest <==> exists i, j :: xb + i0 + 1 <= i < xb + n && yb <= j < yb + n && g[i][j] == c
    ensures forall c :: c in here || c in rest <==>
              exists i, j :: xb + i0 <= i < xb + n && yb <= j < yb + n && g[i][j] == c
  {
    forall c
      ensures c in here || c in rest <==>
              exists i, j :: xb + i0 <= i < xb + n && yb <= j < yb + n && g[i][j] == c
    {
      SliceMembers(g[xb + i0], yb, yb + n, c);
      if exists i, j :: xb + i0 <= i < xb + n && yb <= j < yb + n && g[i][j] == c {
        var i, j :| xb + i0 <= i < xb + n && yb <= j < yb + n && g[i][j] == c;
        if i == xb + i0 {
          assert c in here;
        } else {
          assert c in rest;
        }
      }
    }
  }

  /** v may go into (x, y): it is in 1..L and no peer of (x, y) holds it. */
  ghost predicate Candidate(g: Grid, x: int, y: int, n: Order, v: int)
    requires IsSquare(g, n * n)
  {
    1 <= v <= n * n &&
    forall i, j :: InGrid(i, j, n * n) && Peer(i, j, x, y, n) ==> g[i][j] != Some(v)
  }

  /** `makePossible(aBoard, x, y, aN)`, x the row and y the column: start from 1..L and
      remove every value found in row x, then in column y, then in the box of (x, y). */
  function MakePossible(g: Grid, x: int, y: int, n: Order): (r: seq<int>)
    requires IsSquare(g, n * n) && InGrid(x, y, n * n)
    ensures Increasing(r)
    ensures forall v :: v in r <==> Candidate(g, x, y, n, v)
  {
    BoxStartBounds(x, n);
    BoxStartBounds(y, n);
    var xb, yb := BoxStart(x, n), BoxStart(y, n);
    var out := RemoveEach(RemoveEach(RemoveEach(Range(1, n * n + 1), g[x]), Column(g, y)),
                          BoxRows(g, xb, yb, n, 0));
    PossibleMeansCandidate(g, x, y, n, out);
    out
  }

  /** What the three removal passes leave is exactly the candidate set. */
  lemma PossibleMeansCandidate(g: Grid, x: int, y: int, n: Order, out: seq<int>)
    requires IsSquare(g, n * n) && InGrid(x, y, n * n)
    requires 0 <= BoxStart(x, n) && BoxStart(x, n) + n <= n * n
    requires 0 <= BoxStart(y, n) && BoxStart(y, n) + n <= n * n
    requires forall v :: v in out <==>
      1 <= v < n * n + 1 && Some(v) !in g[x] && Some(v) !in Column(g, y)
      && Some(v) !in BoxRows(g, BoxStart(x, n), BoxStart(y, n), n, 0)
    ensures forall v :: v in out <==> Candidate(g, x, y, n, v)
  {
    var xb, yb := BoxStart(x, n), BoxStart(y, n);
    var box := BoxRows(g, xb, yb, n, 0);
    forall v
      ensures v in out <==> Candidate(g, x, y, n, v)
    {
      if v in out {
        forall i, j | InGrid(i, j, n * n) && Peer(i, j, x, y, n)
          ensures g[i][j] != Some(v)
        {
          if i == x {
            assert g[x][j] in g[x];
          } else if j == y {
            assert Column(g, y)[i] == g[i][y];
          } else {
            InBand(i, x, n);
            InBand(j, y, n);
            assert g[i][j] in box;
          }
        }
      }
      if Candidate(g, x, y, n, v) {
        forall j | 0 <= j < n * n
          ensures g[x][j] != Some(v)
        {
          assert Peer(x, j, x, y, n);
        }
        forall i | 0 <= i < n * n
          ensures Column(g, y)[i] != Some(v)
        {
          assert Peer(i, y, x, y, n);
        }
        forall i, j | xb <= i < xb + n && yb <= j < yb + n
          ensures g[i][j] != Some(v)
        {
          InBand(i, x, n);
          InBand(j, y, n);
          assert Peer(i, j, x, y, n);
        }
      }
    }
  }

  /** The cell in row `row`, column `col` holds a value that no other cell of its row,
      column or box holds. */
  ghost predicate ValidAt(g: Grid, row: int, col: int, n: Order)
    requires IsSquare(g, n * n) && InGrid(row, col, n * n)
  {
    g[row][col].Some? &&
    forall i, j :: InGrid(i, j, n * n) && (i != row || j != col) && Peer(i, j, row, col, n)
      ==> g[i][j] != g[row][col]
  }

  /** `isValidPlacement(aBoard, x, y, aN)`: here x is the COLUMN and y the ROW (`aBoard[y][x]`). */
  method IsValidPlacement(g: Grid, x: int, y: int, n: Order) returns (ok: bool)
    requires IsSquare(g, n * n) && InGrid(y, x, n * n)
    ensures ok <==> ValidAt(g, y, x, n)
  {
    var L := n * n;
    var value := g[y][x];
    if value == None {
      return false;
    }
    var i := 0;
    while i < L
      invariant 0 <= i <= L
      invariant forall k :: 0 <= k < i && k != y ==> g[k][x] != value
      invariant forall k :: 0 <= k < i && k != x ==> g[y][k] != value
    {
      if g[i][x] != None && i != y {
        if value == g[i][x] {
          assert Peer(i, x, y, x, n);
          return false;
        }
      }
      if g[y][i] != None && i != x {
        if value == g[y][i] {
          assert Peer(y, i, y, x, n);
          return false;
        }
      }
      i := i + 1;
    }
    BoxStartBounds(x, n);
    BoxStartBounds(y, n);
    var xb, yb := BoxStart(x, n), BoxStart(y, n);
    i := 0;
    while i < n
      invariant 0 <= i <= n
      invariant forall r, c :: yb <= r < yb + n && xb <= c < xb + i && (r != y || c != x)
                  ==> g[r][c] != value
    {
      var j := 0;
      while j < n
        invariant 0 <= j <= n
        invariant forall r, c :: yb <= r < yb + n && xb <= c < xb + i && (r != y || c != x)
                    ==> g[r][c] != value
        invariant forall r :: yb <= r < yb + j && (r != y || xb + i != x) ==> g[r][xb + i] != value
      {
        if (j + yb == y && i + xb == x) || g[j + yb][i + xb] == None {
          j := j + 1;
          continue;
        }
        if value == g[j + yb][i + xb] {
          InBand(j + yb, y, n);
          InBand(i + xb, x, n);
          assert Peer(j + yb, i + xb, y, x, n);
          return false;
        }
        j := j + 1;
      }
      i := i + 1;
    }
    forall r, c | InGrid(r, c, L) && (r != y || c != x) && Peer(r, c, y, x, n)
      ensures g[r][c] != value
    {
      if r != y && c != x {
        InBand(r, y, n);
        InBand(c, x, n);
      }
    }
    return true;
  }
}
