/** `makeMask`: greedy hiding of cells in shuffled order, probing each hide with the solution
    counter (src/Board.java). The loop is written once for either counter: `solveCount` as the
    program has it, or the corrected counter of module `Solutions`. Only with the corrected one
    does every mask the loop keeps leave a puzzle whose only solution is the board. */
module Masking {
  import opened Boards
  import opened Candidates
  import opened Oracles
  import opened Count
  import opened Solutions

  /** The counter a probe runs: `solveCount` as the program has it, or the corrected one. */
  datatype Counter = AsWritten | Corrected

  /** One probe of the loop: the place index and the count `solveCount` returned for it. */
  datatype Probe = Probe(place: int, count: int)

  /** What `makeMask` returns (1 done, -1 timed out), the mask it built, the probes in order,
      and the next free tape position. */
  datatype MaskResult = MaskResult(code: int, mask: Mask, probes: seq<Probe>, clock: nat)

  function Places(ps: seq<Probe>): (r: seq<int>)
    ensures |r| == |ps| && forall k :: 0 <= k < |ps| ==> r[k] == ps[k].place
  {
    seq(|ps|, k requires 0 <= k < |ps| => ps[k].place)
  }

  /** `place % mask.length`: the first mask index of a place. */
  function PlaceRow(p: int, L: int): (x: int)
    requires L > 0
    ensures 0 <= x < L
  {
    p % L
  }

  /** `place / mask.length`: the second mask index of a place. */
  function PlaceCol(p: int, L: int): (y: int)
    requires L > 0 && 0 <= p < L * L
    ensures 0 <= y < L
  {
    QuotientBelow(p, L);
    p / L
  }

  lemma QuotientBelow(p: int, L: int)
    requires L > 0 && 0 <= p < L * L
    ensures 0 <= p / L < L
  {
    var y := p / L;
    assert p == y * L + p % L;
    if L <= y {
      MulMono(L, y, L);
    }
  }

  /** Different places 0..L²-1 name different cells. */
  lemma PlacesApart(L: int)
    requires L > 0
    ensures forall p, q :: 0 <= p < L * L && 0 <= q < L * L && p != q ==>
              PlaceRow(p, L) != PlaceRow(q, L) || PlaceCol(p, L) != PlaceCol(q, L)
  {
    forall p, q | 0 <= p < L * L && 0 <= q < L * L && p != q
      ensures PlaceRow(p, L) != PlaceRow(q, L) || PlaceCol(p, L) != PlaceCol(q, L)
    {
      assert p == (p / L) * L + p % L;
      assert q == (q / L) * L + q % L;
    }
  }

  /** The mask entry `mask[place % L][place / L]`. */
  function Hidden(m: Mask, p: int, L: int): bool
    requires L > 0 && IsSquare(m, L) && 0 <= p < L * L
  {
    m[PlaceRow(p, L)][PlaceCol(p, L)]
  }

  /** A fresh L×L mask, all `false`. */
  function AllFalse(L: nat): (m: Mask)
    ensures IsSquare(m, L) && forall i, j :: InGrid(i, j, L) ==> !m[i][j]
  {
    seq(L, _ => seq(L, _ => false))
  }

  /** The loop's record so far: `probes` names `places` in order, the mask marks exactly the
      probed places whose count was at most 1, and no place yet to come is marked. */
  predicate Tracks(m: Mask, places: seq<int>, probes: seq<Probe>, L: int)
    requires L > 0 && IsSquare(m, L) && |probes| <= |places|
    requires forall q :: 0 <= q < |places| ==> 0 <= places[q] < L * L
  {
    && (forall q :: 0 <= q < |probes| ==> probes[q].place == places[q])
    && (forall q :: 0 <= q < |probes| ==> Hidden(m, places[q], L) == (probes[q].count <= 1))
    && (forall q :: |probes| <= q < |places| ==> !Hidden(m, places[q], L))
  }

  /** Only the last probe, if any, timed out. */
  predicate OnlyLastTimedOut(probes: seq<Probe>, code: int) {
    forall q :: 0 <= q < |probes| ==> (probes[q].count == -1 <==> code == -1 && q == |probes| - 1)
  }

  /** `makeMask()` on the grid `board`, from tape position t, probing with counter c: shuffle
      the places 0..L²-1, then hide them one by one. The program is `c == AsWritten`. */
  function MakeMask(o: Oracle, c: Counter, board: Grid, n: Order, t: nat): (r: MaskResult)
    requires Shuffles(o) && IsSquare(board, n * n)
    ensures |r.probes| <= |o.shuffle(t, Range(0, (n * n) * (n * n)))|
    ensures Places(r.probes) == o.shuffle(t, Range(0, (n * n) * (n * n)))[..|r.probes|]
    ensures IsSquare(r.mask, n * n)
    ensures r.code == 1 || r.code == -1
    ensures Distinct(Places(r.probes))
    ensures forall k :: 0 <= k < |r.probes| ==> 0 <= r.probes[k].place < (n * n) * (n * n)
    ensures r.code == 1 ==> multiset(Places(r.probes)) == multiset(Range(0, (n * n) * (n * n)))
    ensures r.code == -1 ==> |r.probes| > 0
    ensures OnlyLastTimedOut(r.probes, r.code)
    ensures forall k :: 0 <= k < |r.probes| ==>
              Hidden(r.mask, r.probes[k].place, n * n) == (r.probes[k].count <= 1)
    ensures forall p :: 0 <= p < (n * n) * (n * n) && p !in Places(r.probes) ==> !Hidden(r.mask, p, n * n)
    ensures c == Corrected && Solved(board, n) && r.code == 1 ==> Unique(board, r.mask, n)
  {
    var L := n * n;
    var places := o.shuffle(t, Range(0, L * L));
    PermutedRange(places, L * L);
    MaskPlaces(o, c, board, n, places, t + 1)
  }

  /** The rest of `makeMask` once the places are shuffled: an all-false mask, then the loop. */
  function MaskPlaces(o: Oracle, c: Counter, board: Grid, n: Order, places: seq<int>, t: nat): (r: MaskResult)
    requires Shuffles(o) && IsSquare(board, n * n)
    requires multiset(places) == multiset(Range(0, (n * n) * (n * n)))
    requires Distinct(places) && forall q :: 0 <= q < |places| ==> 0 <= places[q] < (n * n) * (n * n)
    requires forall p :: 0 <= p < (n * n) * (n * n) ==> p in places
    ensures |r.probes| <= |places| && Places(r.probes) == places[..|r.probes|]
    ensures IsSquare(r.mask, n * n)
    ensures r.code == 1 || r.code == -1
    ensures Distinct(Places(r.probes))
    ensures forall k :: 0 <= k < |r.probes| ==> 0 <= r.probes[k].place < (n * n) * (n * n)
    ensures r.code == 1 ==> multiset(Places(r.probes)) == multiset(Range(0, (n * n) * (n * n)))
    ensures r.code == -1 ==> |r.probes| > 0
    ensures OnlyLastTimedOut(r.probes, r.code)
    ensures forall k :: 0 <= k < |r.probes| ==>
              Hidden(r.mask, r.probes[k].place, n * n) == (r.probes[k].count <= 1)
    ensures forall p :: 0 <= p < (n * n) * (n * n) && p !in Places(r.probes) ==> !Hidden(r.mask, p, n * n)
    ensures c == Corrected && Solved(board, n) && r.code == 1 ==> Unique(board, r.mask, n)
  {
    var L := n * n;
    var r := MaskLoop(o, c, board, n, AllFalse(L), places, [], t);
    InOrder(places, r.probes);
    Unprobed(r.mask, places, r.probes, L);
    StartUnique(o, c, board, n, places, t);
    r
  }

  /** With the corrected counter, a loop from the all-false mask that returns 1 leaves a
      puzzle with the board as its only solution. */
  lemma StartUnique(o: Oracle, c: Counter, board: Grid, n: Order, places: seq<int>, t: nat)
    requires Shuffles(o) && IsSquare(board, n * n)
    requires Distinct(places) && forall q :: 0 <= q < |places| ==> 0 <= places[q] < (n * n) * (n * n)
    ensures c == Corrected && Solved(board, n) && MaskLoop(o, c, board, n, AllFalse(n * n), places, [], t).code == 1 ==>
              Unique(board, MaskLoop(o, c, board, n, AllFalse(n * n), places, [], t).mask, n)
  {
    if c == Corrected {
      NothingHiddenUnique(board, n);
      LoopUnique(o, board, n, AllFalse(n * n), places, [], t);
    }
  }

  /** The loop `for (Integer place : places)` after the probes so far, one per place already
      visited; the mask is the one those probes left. */
  function MaskLoop(o: Oracle, c: Counter, board: Grid, n: Order, mask: Mask, places: seq<int>,
                    probes: seq<Probe>, t: nat): (r: MaskResult)
    requires Shuffles(o) && IsSquare(board, n * n) && IsSquare(mask, n * n)
    requires Distinct(places) && forall q :: 0 <= q < |places| ==> 0 <= places[q] < (n * n) * (n * n)
    requires |probes| <= |places| && Tracks(mask, places, probes, n * n)
    requires forall q :: 0 <= q < |probes| ==> probes[q].count != -1
    ensures IsSquare(r.mask, n * n) && |probes| <= |r.probes| <= |places|
    ensures r.probes[..|probes|] == probes && Tracks(r.mask, places, r.probes, n * n)
    ensures r.code == 1 || r.code == -1
    ensures r.code == 1 ==> |r.probes| == |places|
    ensures r.code == -1 ==> |r.probes| > |probes|
    ensures OnlyLastTimedOut(r.probes, r.code)
    decreases |places| - |probes|, 1
  {
    if |probes| == |places| then MaskResult(1, mask, probes, t)
    else MaskTurn(o, c, board, n, mask, places, probes, t)
  }

  /** One turn of the loop on the next place: hide its cell and probe the masked grid;
      a probe that timed out ends the loop with -1. */
  function MaskTurn(o: Oracle, c: Counter, board: Grid, n: Order, mask: Mask, places: seq<int>,
                    probes: seq<Probe>, t: nat): (r: MaskResult)
    requires Shuffles(o) && IsSquare(board, n * n) && IsSquare(mask, n * n)
    requires Distinct(places) && forall q :: 0 <= q < |places| ==> 0 <= places[q] < (n * n) * (n * n)
    requires |probes| < |places| && Tracks(mask, places, probes, n * n)
    requires forall q :: 0 <= q < |probes| ==> probes[q].count != -1
    ensures IsSquare(r.mask, n * n) && |probes| < |r.probes| <= |places|
    ensures r.probes[..|probes|] == probes && Tracks(r.mask, places, r.probes, n * n)
    ensures r.code == 1 || r.code == -1
    ensures r.code == 1 ==> |r.probes| == |places|
    ensures OnlyLastTimedOut(r.probes, r.code)
    decreases |places| - |probes|, 0
  {
    var L := n * n;
    var place := places[|probes|];
    var hidden := Set(mask, PlaceRow(place, L), PlaceCol(place, L), true);
    var probe := CountHidden(o, c, board, n, hidden, t);
    if probe.code == -1 then
      MaskStep(mask, hidden, places, probes, L, probe.code);
      var probes' := probes + [Probe(place, -1)];
      assert probes'[..|probes|] == probes;
      MaskResult(-1, hidden, probes', probe.clock)
    else MaskNext(o, c, board, n, mask, hidden, places, probes, probe.code, probe.clock)
  }

  /** The rest of a turn whose probe returned `count` (not -1): un-hide the cell when
      `count > 1`, record the probe, and go on with the next place. */
  function MaskNext(o: Oracle, c: Counter, board: Grid, n: Order, mask: Mask, hidden: Mask, places: seq<int>,
                    probes: seq<Probe>, count: int, t: nat): (r: MaskResult)
    requires Shuffles(o) && IsSquare(board, n * n) && IsSquare(mask, n * n)
    requires Distinct(places) && forall q :: 0 <= q < |places| ==> 0 <= places[q] < (n * n) * (n * n)
    requires |probes| < |places| && Tracks(mask, places, probes, n * n)
    requires forall q :: 0 <= q < |probes| ==> probes[q].count != -1
    requires count != -1
    requires hidden == Set(mask, PlaceRow(places[|probes|], n * n), PlaceCol(places[|probes|], n * n), true)
    ensures IsSquare(r.mask, n * n) && |probes| < |r.probes| <= |places|
    ensures r.probes[..|probes|] == probes && Tracks(r.mask, places, r.probes, n * n)
    ensures r.code == 1 || r.code == -1
    ensures r.code == 1 ==> |r.probes| == |places|
    ensures OnlyLastTimedOut(r.probes, r.code)
    decreases |places| - |probes| - 1, 2
  {
    var L := n * n;
    var place := places[|probes|];
    var x, y := PlaceRow(place, L), PlaceCol(place, L);
    var next := if count > 1 then Set(hidden, x, y, false) else hidden;
    assert !mask[x][y];
    HideShow(mask, x, y, L);
    assert forall i, j :: InGrid(i, j, L) ==>
      next[i][j] == if i == x && j == y then count <= 1 else mask[i][j];
    MaskStep(mask, next, places, probes, L, count);
    var probes' := probes + [Probe(place, count)];
    var r := MaskLoop(o, c, board, n, next, places, probes', t);
    assert r.probes[..|probes|] == r.probes[..|probes'|][..|probes|];
    r
  }

  /** The probe `solveCount(getMaskedBoard(), 0, 0, 0, n, mask, …)` run by counter c. It works
      on a fresh copy of the masked board, so only its result and the tape position matter. */
  function CountHidden(o: Oracle, c: Counter, board: Grid, n: Order, m: Mask, t: nat): (r: Tally)
    requires Shuffles(o) && IsSquare(board, n * n) && IsSquare(m, n * n)
  {
    match c
    case AsWritten =>
      var s := SolveCount(o, MaskBoard(board, m), 0, 0, 0, n, m, t);
      Tally(s.code, s.clock)
    case Corrected => CountSolutions(o, MaskBoard(board, m), 0, 0, n, t)
  }

  /** The puzzle that mask m leaves of board has the board as its only solution. */
  ghost predicate Unique(board: Grid, m: Mask, n: Order)
    requires IsSquare(board, n * n) && IsSquare(m, n * n)
  {
    forall s :: Completes(s, MaskBoard(board, m), n) ==> s == board
  }

  /** A solved board is a solution of every puzzle masked from it; so a probe that does not
      time out counts at least one solution, and a count of at most one means it is the only one. */
  lemma ProbeUnique(o: Oracle, board: Grid, n: Order, m: Mask, t: nat)
    requires Shuffles(o) && IsSquare(board, n * n) && IsSquare(m, n * n)
    ensures Solved(board, n) ==> Found(CountHidden(o, Corrected, board, n, m, t).code, 1)
    ensures Solved(board, n) && -1 < CountHidden(o, Corrected, board, n, m, t).code <= 1 ==> Unique(board, m, n)
  {
    if !Solved(board, n) {
      return;
    }
    var puzzle := MaskBoard(board, m);
    assert Completes(board, puzzle, n);
    CountFinds(o, puzzle, 0, 0, n, t, board, board);
    forall s | Completes(s, puzzle, n)
      ensures -1 < CountHidden(o, Corrected, board, n, m, t).code <= 1 ==> s == board
    {
      CountFinds(o, puzzle, 0, 0, n, t, s, board);
    }
  }

  /** With the corrected counter the loop keeps uniqueness: a hide whose probe counts at most
      one leaves a puzzle with one solution, and a hide that counts more is taken back. */
  lemma {:induction false} LoopUnique(o: Oracle, board: Grid, n: Order, mask: Mask, places: seq<int>,
                                      probes: seq<Probe>, t: nat)
    requires Shuffles(o) && IsSquare(board, n * n) && IsSquare(mask, n * n)
    requires Distinct(places) && forall q :: 0 <= q < |places| ==> 0 <= places[q] < (n * n) * (n * n)
    requires |probes| <= |places| && Tracks(mask, places, probes, n * n)
    requires forall q :: 0 <= q < |probes| ==> probes[q].count != -1
    ensures Solved(board, n) && Unique(board, mask, n) &&
            MaskLoop(o, Corrected, board, n, mask, places, probes, t).code == 1 ==>
              Unique(board, MaskLoop(o, Corrected, board, n, mask, places, probes, t).mask, n)
    decreases |places| - |probes|, 1
  {
    if |probes| < |places| && Solved(board, n) && Unique(board, mask, n) {
      TurnUnique(o, board, n, mask, places, probes, t);
    }
  }

  /** `LoopUnique` for one turn: the probe of the hidden cell decides, by `ProbeUnique`. */
  lemma {:induction false} TurnUnique(o: Oracle, board: Grid, n: Order, mask: Mask, places: seq<int>,
                                      probes: seq<Probe>, t: nat)
    requires Shuffles(o) && IsSquare(board, n * n) && IsSquare(mask, n * n)
    requires Distinct(places) && forall q :: 0 <= q < |places| ==> 0 <= places[q] < (n * n) * (n * n)
    requires |probes| < |places| && Tracks(mask, places, probes, n * n)
    requires forall q :: 0 <= q < |probes| ==> probes[q].count != -1
    requires Solved(board, n) && Unique(board, mask, n)
    ensures MaskTurn(o, Corrected, board, n, mask, places, probes, t).code == 1 ==>
              Unique(board, MaskTurn(o, Corrected, board, n, mask, places, probes, t).mask, n)
    decreases |places| - |probes|, 0
  {
    var L := n * n;
    var place := places[|probes|];
    var hidden := Set(mask, PlaceRow(place, L), PlaceCol(place, L), true);
    var probe := CountHidden(o, Corrected, board, n, hidden, t);
    if probe.code != -1 {
      ProbeUnique(o, board, n, hidden, t);
      NextUnique(o, board, n, mask, hidden, places, probes, probe.code, probe.clock);
    }
  }

  /** `LoopUnique` after a probe that did not time out: the mask the turn leaves is unique. */
  lemma {:induction false} NextUnique(o: Oracle, board: Grid, n: Order, mask: Mask, hidden: Mask,
                                      places: seq<int>, probes: seq<Probe>, count: int, t: nat)
    requires Shuffles(o) && IsSquare(board, n * n) && IsSquare(mask, n * n)
    requires Distinct(places) && forall q :: 0 <= q < |places| ==> 0 <= places[q] < (n * n) * (n * n)
    requires |probes| < |places| && Tracks(mask, places, probes, n * n)
    requires forall q :: 0 <= q < |probes| ==> probes[q].count != -1
    requires count != -1
    requires hidden == Set(mask, PlaceRow(places[|probes|], n * n), PlaceCol(places[|probes|], n * n), true)
    requires Solved(board, n) && Unique(board, mask, n)
    requires count <= 1 ==> Unique(board, hidden, n)
    ensures MaskNext(o, Corrected, board, n, mask, hidden, places, probes, count, t).code == 1 ==>
              Unique(board, MaskNext(o, Corrected, board, n, mask, hidden, places, probes, count, t).mask, n)
    decreases |places| - |probes| - 1, 2
  {
    var L := n * n;
    var place := places[|probes|];
    var x, y := PlaceRow(place, L), PlaceCol(place, L);
    var next := if count > 1 then Set(hidden, x, y, false) else hidden;
    assert !mask[x][y];
    HideShow(mask, x, y, L);
    assert forall i, j :: InGrid(i, j, L) ==>
      next[i][j] == if i == x && j == y then count <= 1 else mask[i][j];
    MaskStep(mask, next, places, probes, L, count);
    LoopUnique(o, board, n, next, places, probes + [Probe(place, count)], t);
  }

  /** A turn whose probe counts 0 or 1 keeps its hide, and with it every hide the mask already
      had, to the end of the loop; whatever the counter. */
  lemma KeptHides(o: Oracle, c: Counter, board: Grid, n: Order, mask: Mask, hidden: Mask,
                  places: seq<int>, probes: seq<Probe>, t: nat)
    requires Shuffles(o) && IsSquare(board, n * n) && IsSquare(mask, n * n)
    requires Distinct(places) && forall q :: 0 <= q < |places| ==> 0 <= places[q] < (n * n) * (n * n)
    requires forall p :: 0 <= p < (n * n) * (n * n) ==> p in places
    requires |probes| < |places| && Tracks(mask, places, probes, n * n)
    requires forall q :: 0 <= q < |probes| ==> probes[q].count != -1
    requires hidden == Set(mask, PlaceRow(places[|probes|], n * n), PlaceCol(places[|probes|], n * n), true)
    requires 0 <= CountHidden(o, c, board, n, hidden, t).code <= 1
    ensures MaskLoop(o, c, board, n, mask, places, probes, t).code == 1 ==>
              forall i, j :: InGrid(i, j, n * n) && hidden[i][j] ==> MaskLoop(o, c, board, n, mask, places, probes, t).mask[i][j]
  {
    var L := n * n;
    var probe := CountHidden(o, c, board, n, hidden, t);
    var probes' := probes + [Probe(places[|probes|], probe.code)];
    var r := MaskLoop(o, c, board, n, mask, places, probes, t);
    assert r == MaskTurn(o, c, board, n, mask, places, probes, t);
    assert r == MaskNext(o, c, board, n, mask, hidden, places, probes, probe.code, probe.clock);
    MaskStep(mask, hidden, places, probes, L, probe.code);
    assert r == MaskLoop(o, c, board, n, hidden, places, probes', probe.clock);
    if r.code == 1 {
      HidesTracked(hidden, r.mask, places, probes', r.probes, L);
    }
  }

  /** Two records of the same places, the second extending the first: every place hidden in
      the first mask and probed with a count of at most 1 is hidden in the second. */
  lemma HidesTracked(m: Mask, m': Mask, places: seq<int>, probes: seq<Probe>, ps: seq<Probe>, L: int)
    requires L > 0 && IsSquare(m, L) && IsSquare(m', L)
    requires forall q :: 0 <= q < |places| ==> 0 <= places[q] < L * L
    requires forall p :: 0 <= p < L * L ==> p in places
    requires |probes| <= |ps| == |places| && ps[..|probes|] == probes
    requires Tracks(m, places, probes, L) && Tracks(m', places, ps, L)
    ensures forall i, j :: InGrid(i, j, L) && m[i][j] ==> m'[i][j]
  {
    forall i, j | InGrid(i, j, L) && m[i][j]
      ensures m'[i][j]
    {
      var p := CellPlace(i, j, L);
      assert p in places;
      var q :| 0 <= q < |places| && places[q] == p;
      assert Hidden(m, places[q], L);
      assert ps[q] == ps[..|probes|][q];
    }
  }

  /** The place that names cell (i, j). */
  function CellPlace(i: int, j: int, L: int): (p: int)
    requires InGrid(i, j, L)
    ensures 0 <= p < L * L && PlaceRow(p, L) == i && PlaceCol(p, L) == j
  {
    DivUnique(j * L + i, L, j, i);
    MulMono(j, L - 1, L);
    assert (L - 1) * L + L == L * L;
    j * L + i
  }

  /** Euclidean division is unique: p == j * L + i with 0 <= i < L gives quotient j, remainder i. */
  lemma DivUnique(p: int, L: int, j: int, i: int)
    requires L > 0 && 0 <= i < L && p == j * L + i
    ensures p / L == j && p % L == i
  {
    var q, r := p / L, p % L;
    assert (q - j) * L == i - r;
    if q > j {
      MulMono(1, q - j, L);
    } else if q < j {
      MulMono(1, j - q, L);
    }
  }

  /** Hiding more cells keeps every solution a solution. */
  lemma MoreHidden(board: Grid, m: Mask, m': Mask, s: Grid, n: Order)
    requires IsSquare(board, n * n) && IsSquare(m, n * n) && IsSquare(m', n * n)
    requires forall i, j :: InGrid(i, j, n * n) && m[i][j] ==> m'[i][j]
    requires Completes(s, MaskBoard(board, m), n)
    ensures Completes(s, MaskBoard(board, m'), n)
  {
    var g: Grid, g': Grid := MaskBoard(board, m), MaskBoard(board, m');
    forall i, j | InGrid(i, j, n * n) && g'[i][j].Some?
      ensures s[i][j] == g'[i][j]
    {
      assert g[i][j] == g'[i][j];
    }
  }

  /** With nothing hidden, a solved board is the only solution of its own puzzle. */
  lemma NothingHiddenUnique(board: Grid, n: Order)
    requires IsSquare(board, n * n)
    ensures Solved(board, n) ==> Unique(board, AllFalse(n * n), n)
  {
    if !Solved(board, n) {
      return;
    }
    var puzzle := MaskBoard(board, AllFalse(n * n));
    forall s | Completes(s, puzzle, n)
      ensures s == board
    {
      forall i | 0 <= i < n * n
        ensures s[i] == board[i]
      {
        forall j | 0 <= j < n * n
          ensures s[i][j] == board[i][j]
        {
          assert puzzle[i][j] == board[i][j];
        }
      }
    }
  }

  /** Hiding a visible cell and showing it again restores the mask. */
  lemma HideShow(m: Mask, x: int, y: int, L: int)
    requires IsSquare(m, L) && InGrid(x, y, L) && !m[x][y]
    ensures Set(Set(m, x, y, true), x, y, false) == m
  {
    var back := Set(Set(m, x, y, true), x, y, false);
    forall i | 0 <= i < L
      ensures back[i] == m[i]
    {
      assert forall j :: 0 <= j < L ==> back[i][j] == m[i][j];
    }
  }

  /** Setting the cell of `places[k]` to v sets that place's entry to v and leaves the entry
      of every other place alone. */
  lemma Retarget(mask: Mask, next: Mask, places: seq<int>, k: nat, L: int, v: bool)
    requires L > 0 && IsSquare(mask, L) && IsSquare(next, L)
    requires Distinct(places) && forall q :: 0 <= q < |places| ==> 0 <= places[q] < L * L
    requires k < |places|
    requires forall i, j :: InGrid(i, j, L) ==>
               next[i][j] == if i == PlaceRow(places[k], L) && j == PlaceCol(places[k], L) then v else mask[i][j]
    ensures Hidden(next, places[k], L) == v
    ensures forall q :: 0 <= q < |places| && q != k ==> Hidden(next, places[q], L) == Hidden(mask, places[q], L)
  {
    PlacesApart(L);
  }

  /** After probing the next place with result `count`, the record holds one place on. */
  lemma MaskStep(mask: Mask, next: Mask, places: seq<int>, probes: seq<Probe>, L: int, count: int)
    requires L > 0 && IsSquare(mask, L) && IsSquare(next, L)
    requires Distinct(places) && forall q :: 0 <= q < |places| ==> 0 <= places[q] < L * L
    requires |probes| < |places| && Tracks(mask, places, probes, L)
    requires forall i, j :: InGrid(i, j, L) ==>
               next[i][j] == if i == PlaceRow(places[|probes|], L) && j == PlaceCol(places[|probes|], L)
                             then count <= 1 else mask[i][j]
    ensures Tracks(next, places, probes + [Probe(places[|probes|], count)], L)
  {
    var k := |probes|;
    Retarget(mask, next, places, k, L, count <= 1);
    var probes' := probes + [Probe(places[k], count)];
    assert forall q :: 0 <= q < k ==> probes'[q] == probes[q];
  }

  /** Probes that name `places` one by one list a prefix of `places`. */
  lemma InOrder(places: seq<int>, probes: seq<Probe>)
    requires |probes| <= |places| && forall q :: 0 <= q < |probes| ==> probes[q].place == places[q]
    ensures Places(probes) == places[..|probes|]
    ensures |probes| == |places| ==> Places(probes) == places
  {
  }

  /** A place the loop never probed still has its entry `false`. */
  lemma Unprobed(m: Mask, places: seq<int>, probes: seq<Probe>, L: int)
    requires L > 0 && IsSquare(m, L)
    requires forall p :: 0 <= p < L * L ==> p in places
    requires |probes| <= |places| && forall q :: 0 <= q < |probes| ==> probes[q].place == places[q]
    requires forall q :: 0 <= q < |places| ==> 0 <= places[q] < L * L
    requires forall q :: |probes| <= q < |places| ==> !Hidden(m, places[q], L)
    ensures forall p :: 0 <= p < L * L && p !in Places(probes) ==> !Hidden(m, p, L)
  {
    forall p | 0 <= p < L * L && p !in Places(probes)
      ensures !Hidden(m, p, L)
    {
      assert p in places;
      var q :| 0 <= q < |places| && places[q] == p;
      assert forall k :: 0 <= k < |probes| ==> Places(probes)[k] in Places(probes);
      assert |probes| <= q;
    }
  }

  /** A permutation of 0..N-1 has N distinct elements, all in range, and contains each of them. */
  lemma PermutedRange(places: seq<int>, N: int)
    requires 0 <= N && multiset(places) == multiset(Range(0, N))
    ensures |places| == N && Distinct(places)
    ensures forall q :: 0 <= q < |places| ==> 0 <= places[q] < N
    ensures forall p :: 0 <= p < N ==> p in places
  {
    assert |places| == |multiset(places)| == |multiset(Range(0, N))| == N;
    forall q | 0 <= q < |places|
      ensures 0 <= places[q] < N
    {
      assert places[q] in multiset(places);
      assert places[q] in Range(0, N);
    }
    DistinctPermuted(places, Range(0, N));
    forall p | 0 <= p < N
      ensures p in places
    {
      assert p in Range(0, N);
      assert p in multiset(Range(0, N));
      assert p in multiset(places);
    }
  }
}
