/** The elimination solver: fill every empty cell whose row, column and block
    leave exactly one digit, sweeping the board until a sweep fills nothing. */
module Elimination {
  import opened Board
  import opened EmptyCoordinates

  /** d is the only digit 1..9 that row r, column c and the block of (r, c) leave open. */
  predicate SoleCandidate(g: Grid, r: int, c: int, d: int)
    requires IsGrid(g) && InBounds(r, c)
  {
    && 1 <= d <= 9
    && !Excluded(g, r, c, d)
    && forall e :: 1 <= e <= 9 && e != d ==> Excluded(g, r, c, e)
  }

  /** The nine flags of FindOnlyPossibleNumber: entry i is set when digit
      i + 1 occurs in the row, the column or the block of (r, c). */
  function EliminatedNumbers(g: Grid, r: int, c: int): (f: seq<bool>)
    requires IsGrid(g) && InBounds(r, c)
    ensures |f| == 9
    ensures forall i :: 0 <= i < 9 ==> (f[i] <==> Excluded(g, r, c, i + 1))
  {
    seq(9, i requires 0 <= i < 9 => Excluded(g, r, c, i + 1))
  }

  /** Number of set flags, counted front to back. */
  function CountSet(f: seq<bool>): nat
  {
    if |f| == 0 then 0 else CountSet(f[..|f| - 1]) + (if f[|f| - 1] then 1 else 0)
  }

  /** One more than the position of the first unset flag at or after i, or 0
      when there is none: the digit the final scan answers. */
  function FirstUnset(f: seq<bool>, i: nat): (d: nat)
    ensures d == 0 || (i < d <= |f| && !f[d - 1])
    decreases |f| - i
  {
    if i >= |f| then 0
    else if !f[i] then i + 1
    else FirstUnset(f, i + 1)
  }

  lemma {:induction false} FirstUnsetFinds(f: seq<bool>, i: nat, j: nat)
    requires i <= j < |f| && !f[j]
    ensures i < FirstUnset(f, i) <= j + 1
    decreases |f| - i
  {
    if f[i] {
      FirstUnsetFinds(f, i + 1, j);
    }
  }

  lemma {:induction false} CountAtMost(f: seq<bool>)
    ensures CountSet(f) <= |f|
  {
    if |f| > 0 {
      CountAtMost(f[..|f| - 1]);
    }
  }

  lemma {:induction false} CountAllSet(f: seq<bool>)
    requires forall i :: 0 <= i < |f| ==> f[i]
    ensures CountSet(f) == |f|
  {
    if |f| > 0 {
      CountAllSet(f[..|f| - 1]);
    }
  }

  lemma {:induction false} CountOneUnset(f: seq<bool>, j: nat)
    requires j < |f| && !f[j]
    ensures CountSet(f) <= |f| - 1
  {
    if j == |f| - 1 {
      CountAtMost(f[..|f| - 1]);
    } else {
      CountOneUnset(f[..|f| - 1], j);
    }
  }

  lemma {:induction false} CountTwoUnset(f: seq<bool>, i: nat, j: nat)
    requires i < j < |f| && !f[i] && !f[j]
    ensures CountSet(f) <= |f| - 2
  {
    if j == |f| - 1 {
      CountOneUnset(f[..|f| - 1], i);
    } else {
      CountTwoUnset(f[..|f| - 1], i, j);
    }
  }

  lemma {:induction false} CountAllButOne(f: seq<bool>, j: nat)
    requires j < |f| && !f[j]
    requires forall i :: 0 <= i < |f| && i != j ==> f[i]
    ensures CountSet(f) == |f| - 1
  {
    if j == |f| - 1 {
      CountAllSet(f[..|f| - 1]);
    } else {
      CountAllButOne(f[..|f| - 1], j);
    }
  }

  /** FindOnlyPossibleNumber: when exactly eight flags are set, the digit of
      the first unset one; otherwise 0. */
  function OnlyCandidate(g: Grid, r: int, c: int): (d: int)
    requires IsGrid(g) && InBounds(r, c)
    ensures 0 <= d <= 9
  {
    var flags := EliminatedNumbers(g, r, c);
    if CountSet(flags) == 8 then FirstUnset(flags, 0) else 0
  }

  /** The answer is nonzero exactly when the cell has a sole candidate, and
      then it is that candidate; in particular it is 0 when all nine digits
      are excluded. */
  lemma OnlyCandidateIsSole(g: Grid, r: int, c: int)
    requires IsGrid(g) && InBounds(r, c)
    ensures OnlyCandidate(g, r, c) != 0 ==> SoleCandidate(g, r, c, OnlyCandidate(g, r, c))
    ensures OnlyCandidate(g, r, c) == 0 ==> forall e :: !SoleCandidate(g, r, c, e)
  {
    var flags := EliminatedNumbers(g, r, c);
    if CountSet(flags) == 8 {
      if forall i :: 0 <= i < 9 ==> flags[i] {
        CountAllSet(flags);
      }
      var j :| 0 <= j < 9 && !flags[j];
      FirstUnsetFinds(flags, 0, j);
      var d := FirstUnset(flags, 0);
      forall e | 1 <= e <= 9 && e != d
        ensures Excluded(g, r, c, e)
      {
        if !flags[e - 1] {
          if e < d {
            CountTwoUnset(flags, e - 1, d - 1);
          } else {
            CountTwoUnset(flags, d - 1, e - 1);
          }
        }
      }
    } else {
      forall e ensures !SoleCandidate(g, r, c, e) {
        if SoleCandidate(g, r, c, e) {
          CountAllButOne(flags, e - 1);
        }
      }
    }
  }

  /** The row scan of FindOnlyPossibleNumber: marks the value of every filled cell of row cellY. */
  method MarkRow(eliminated: array<bool>, g: Grid, cellY: int)
    requires eliminated.Length == 9 && IsGrid(g) && 0 <= cellY < 9
    modifies eliminated
    ensures forall i :: 0 <= i < 9 ==>
      (eliminated[i] <==> old(eliminated[i]) || exists c2 :: 0 <= c2 < 9 && g[cellY][c2] == i + 1)
  {
    for x := 0 to 9
      invariant forall i :: 0 <= i < 9 ==>
        (eliminated[i] <==> old(eliminated[i]) || exists c2 :: 0 <= c2 < x && g[cellY][c2] == i + 1)
    {
      var cellVal := g[cellY][x];
      if cellVal != 0 {
        eliminated[cellVal - 1] := true;
      }
    }
  }

  /** The column scan of FindOnlyPossibleNumber: marks the value of every filled cell of column cellX. */
  method MarkColumn(eliminated: array<bool>, g: Grid, cellX: int)
    requires eliminated.Length == 9 && IsGrid(g) && 0 <= cellX < 9
    modifies eliminated
    ensures forall i :: 0 <= i < 9 ==>
      (eliminated[i] <==> old(eliminated[i]) || exists r2 :: 0 <= r2 < 9 && g[r2][cellX] == i + 1)
  {
    for y := 0 to 9
      invariant forall i :: 0 <= i < 9 ==>
        (eliminated[i] <==> old(eliminated[i]) || exists r2 :: 0 <= r2 < y && g[r2][cellX] == i + 1)
    {
      var cellVal := g[y][cellX];
      if cellVal != 0 {
        eliminated[cellVal - 1] := true;
      }
    }
  }

  /** The block scan of FindOnlyPossibleNumber: marks the value of every
      filled cell of the 3×3 block holding (cellY, cellX). */
  method MarkBlock(eliminated: array<bool>, g: Grid, cellY: int, cellX: int)
    requires eliminated.Length == 9 && IsGrid(g) && InBounds(cellY, cellX)
    modifies eliminated
    ensures forall i :: 0 <= i < 9 ==>
      (eliminated[i] <==> (old(eliminated[i]) ||
         exists r2, c2 :: 0 <= r2 < 9 && 0 <= c2 < 9 && r2 / 3 == cellY / 3 && c2 / 3 == cellX / 3 && g[r2][c2] == i + 1))
  {
    var blockX := cellX / 3;
    var blockY := cellY / 3;
    for y := blockY * 3 to blockY * 3 + 3
      invariant forall i :: 0 <= i < 9 ==>
        (eliminated[i] <==> (old(eliminated[i]) ||
           exists r2, c2 :: blockY * 3 <= r2 < y && blockX * 3 <= c2 < blockX * 3 + 3 && g[r2][c2] == i + 1))
    {
      for x := blockX * 3 to blockX * 3 + 3
        invariant forall i :: 0 <= i < 9 ==>
          (eliminated[i] <==> (old(eliminated[i]) ||
             exists r2, c2 :: blockY * 3 <= r2 < y + 1 && blockX * 3 <= c2 < blockX * 3 + 3 &&
               (r2 < y || c2 < x) && g[r2][c2] == i + 1))
      {
        var cellVal := g[y][x];
        if cellVal != 0 {
          eliminated[cellVal - 1] := true;
        }
      }
    }
    assert forall r2 :: 0 <= r2 < 9 ==> (r2 / 3 == blockY <==> blockY * 3 <= r2 < blockY * 3 + 3);
    assert forall c2 :: 0 <= c2 < 9 ==> (c2 / 3 == blockX <==> blockX * 3 <= c2 < blockX * 3 + 3);
  }

  /** FindOnlyPossibleNumber as the source computes it: mark the value of
      every filled cell of the row, the column and the block in nine flags,
      count the marked flags, and when eight are marked answer the digit of
      the first unmarked one. */
  method FindOnlyPossibleNumber(g: Grid, cellY: int, cellX: int) returns (d: int)
    requires IsGrid(g) && InBounds(cellY, cellX)
    ensures d == OnlyCandidate(g, cellY, cellX)
  {
    var eliminated := new bool[9](_ => false);
    MarkRow(eliminated, g, cellY);
    MarkColumn(eliminated, g, cellX);
    MarkBlock(eliminated, g, cellY, cellX);
    forall i | 0 <= i < 9
      ensures eliminated[i] <==> Excluded(g, cellY, cellX, i + 1)
    {
      if Excluded(g, cellY, cellX, i + 1) {
        var r2, c2 :| 0 <= r2 < 9 && 0 <= c2 < 9 && SameUnit(cellY, cellX, r2, c2) && g[r2][c2] == i + 1;
      }
    }
    ghost var flags := EliminatedNumbers(g, cellY, cellX);
    assert eliminated[..] == flags;

    var trueCount := 0;
    for i := 0 to 9
      invariant trueCount == CountSet(flags[..i])
    {
      assert flags[..i + 1][..i] == flags[..i];
      if eliminated[i] {
        trueCount := trueCount + 1;
      }
    }
    assert flags[..9] == flags;

    if trueCount == 8 {
      for i := 0 to 9
        invariant FirstUnset(flags, 0) == FirstUnset(flags, i)
      {
        if !eliminated[i] {
          return i + 1;
        }
      }
    }
    return 0;
  }

  /** No empty cell has a sole candidate: a sweep has nothing to fill. */
  predicate Stuck(g: Grid)
    requires IsGrid(g)
  {
    StuckFrom(g, 0)
  }

  /** The board after one sweep, and whether the sweep filled any cell. */
  datatype SweepResult = SweepResult(grid: Grid, filledAnyCell: bool)

  /** The body of the do-while loop from row-major position k on: each empty
      cell with a sole candidate is filled, and later cells are judged on the
      board as the sweep has left it so far. */
  function SweepFrom(g: Grid, k: nat): (p: SweepResult)
    requires IsGrid(g) && k <= 81
    ensures IsGrid(p.grid)
    decreases 81 - k
  {
    if k == 81 then SweepResult(g, false)
    else
      var y, x := k / 9, k % 9;
      if g[y][x] != 0 then SweepFrom(g, k + 1)
      else
        var v := OnlyCandidate(g, y, x);
        if v == 0 then SweepFrom(g, k + 1)
        else
          var q := SweepFrom(Set(g, y, x, v), k + 1);
          SweepResult(q.grid, true)
  }

  /** No empty cell at row-major position k or later has a sole candidate. */
  predicate StuckFrom(g: Grid, k: nat)
    requires IsGrid(g)
  {
    forall r, c :: 0 <= r < 9 && 0 <= c < 9 && k <= r * 9 + c && g[r][c] == 0 ==> OnlyCandidate(g, r, c) == 0
  }

  /** One step of a sweep, at position k. */
  lemma SweepStep(g: Grid, k: nat)
    requires IsGrid(g) && k < 81
    ensures g[k / 9][k % 9] != 0 || OnlyCandidate(g, k / 9, k % 9) == 0 ==>
      SweepFrom(g, k) == SweepFrom(g, k + 1)
    ensures g[k / 9][k % 9] == 0 && OnlyCandidate(g, k / 9, k % 9) != 0 ==>
      SweepFrom(g, k) ==
        SweepResult(SweepFrom(Set(g, k / 9, k % 9, OnlyCandidate(g, k / 9, k % 9)), k + 1).grid, true)
  {
  }

  /** A step at a filled cell, or at an empty one without a sole candidate, changes nothing. */
  lemma SweepSkips(g: Grid, k: nat)
    requires IsGrid(g) && k < 81
    requires g[k / 9][k % 9] != 0 || OnlyCandidate(g, k / 9, k % 9) == 0
    ensures SweepFrom(g, k) == SweepFrom(g, k + 1)
  {
    SweepStep(g, k);
  }

  /** A step at an empty cell with a sole candidate writes it and reports a fill. */
  lemma SweepFills(g: Grid, k: nat)
    requires IsGrid(g) && k < 81
    requires g[k / 9][k % 9] == 0 && OnlyCandidate(g, k / 9, k % 9) != 0
    ensures SweepFrom(g, k).grid == SweepFrom(Set(g, k / 9, k % 9, OnlyCandidate(g, k / 9, k % 9)), k + 1).grid
    ensures SweepFrom(g, k).filledAnyCell
  {
    SweepStep(g, k);
  }

  /** A sweep only fills empty cells, and reports a fill exactly when the board changed. */
  lemma {:induction false} SweepExtends(g: Grid, k: nat)
    requires IsGrid(g) && k <= 81
    ensures Extends(g, SweepFrom(g, k).grid)
    ensures SweepFrom(g, k).filledAnyCell <==> SweepFrom(g, k).grid != g
    decreases 81 - k
  {
    if k < 81 {
      IndexOf(k);
      SweepStep(g, k);
      var y, x := k / 9, k % 9;
      if g[y][x] != 0 || OnlyCandidate(g, y, x) == 0 {
        SweepExtends(g, k + 1);
      } else {
        var v := OnlyCandidate(g, y, x);
        var h := Set(g, y, x, v);
        var q := SweepFrom(h, k + 1);
        SweepExtends(h, k + 1);
        ExtendsTransitive(g, h, q.grid);
        assert q.grid[y][x] != g[y][x];
      }
    }
  }

  /** A sweep keeps a conflict-free board conflict-free: every digit it writes
      is open in its row, column and block at the moment it is written. */
  lemma {:induction false} SweepKeepsNoConflict(g: Grid, k: nat)
    requires IsGrid(g) && k <= 81
    requires NoConflict(g)
    ensures NoConflict(SweepFrom(g, k).grid)
    decreases 81 - k
  {
    if k < 81 {
      IndexOf(k);
      var y, x := k / 9, k % 9;
      if g[y][x] != 0 || OnlyCandidate(g, y, x) == 0 {
        SweepSkips(g, k);
        SweepKeepsNoConflict(g, k + 1);
      } else {
        var v := OnlyCandidate(g, y, x);
        SweepFills(g, k);
        OnlyCandidateIsSole(g, y, x);
        PlaceKeepsNoConflict(g, y, x, v);
        SweepKeepsNoConflict(Set(g, y, x, v), k + 1);
      }
    }
  }

  /** A sweep from position k that fills nothing has found no empty cell from
      position k on with a sole candidate. */
  lemma {:induction false} IdleSweepIsStuck(g: Grid, k: nat)
    requires IsGrid(g) && k <= 81
    requires !SweepFrom(g, k).filledAnyCell
    ensures StuckFrom(g, k)
    decreases 81 - k
  {
    if k < 81 {
      IndexOf(k);
      SweepStep(g, k);
      IdleSweepIsStuck(g, k + 1);
      forall r, c | InBounds(r, c) && k <= r * 9 + c && g[r][c] == 0
        ensures OnlyCandidate(g, r, c) == 0
      {
        CellAtIndex(r, c);
      }
    }
  }

  /** What SolveByElimination leaves behind: the board and the number of sweeps made. */
  datatype Elimination = Elimination(grid: Grid, loopCount: nat)

  /** SolveByElimination: sweep until a sweep fills nothing. The result keeps
      every digit of the input, leaves no empty cell with a sole candidate,
      and took at most one sweep more than there were empty cells. */
  function Eliminate(g: Grid): (e: Elimination)
    requires IsGrid(g)
    ensures IsGrid(e.grid)
    ensures Extends(g, e.grid)
    ensures Stuck(e.grid)
    ensures 1 <= e.loopCount <= EmptyCount(g) + 1
    decreases EmptyCount(g)
  {
    var p := SweepFrom(g, 0);
    SweepExtends(g, 0);
    if !p.filledAnyCell then
      IdleSweepIsStuck(g, 0);
      Elimination(g, 1)
    else
      FillingShrinks(g, p.grid);
      var rest := Eliminate(p.grid);
      Elimination(rest.grid, rest.loopCount + 1)
  }

  /** On a stuck board a sweep from any position fills nothing. */
  lemma {:induction false} StuckSweepIsIdle(g: Grid, k: nat)
    requires IsGrid(g) && k <= 81
    requires Stuck(g)
    ensures SweepFrom(g, k) == SweepResult(g, false)
    decreases 81 - k
  {
    if k < 81 {
      IndexOf(k);
      StuckSweepIsIdle(g, k + 1);
    }
  }

  /** A sweep fills nothing exactly when no empty cell has a sole candidate. */
  lemma SweepIdleIffStuck(g: Grid)
    requires IsGrid(g)
    ensures !SweepFrom(g, 0).filledAnyCell <==> Stuck(g)
  {
    if Stuck(g) {
      StuckSweepIsIdle(g, 0);
    } else if !SweepFrom(g, 0).filledAnyCell {
      IdleSweepIsStuck(g, 0);
    }
  }

  /** Running the elimination solver on its own result changes nothing and
      takes a single sweep. */
  lemma EliminateIdempotent(g: Grid)
    requires IsGrid(g)
    ensures Eliminate(Eliminate(g).grid) == Elimination(Eliminate(g).grid, 1)
  {
    StuckSweepIsIdle(Eliminate(g).grid, 0);
  }

  /** A digit forced in an empty cell is the digit every valid completion puts there. */
  lemma ForcedDigitAgrees(g: Grid, s: Grid, r: int, c: int, v: int)
    requires IsGrid(g) && ValidCompletion(g, s) && InBounds(r, c) && g[r][c] == 0
    requires SoleCandidate(g, r, c, v)
    ensures s[r][c] == v
  {
    CompletionDigitOpen(g, s, r, c);
  }

  /** A sweep loses no completion: every valid completion of the board
      before it is a valid completion of the board after it. */
  lemma {:induction false} SweepKeepsCompletions(g: Grid, s: Grid, k: nat)
    requires IsGrid(g) && k <= 81
    requires ValidCompletion(g, s)
    ensures ValidCompletion(SweepFrom(g, k).grid, s)
    decreases 81 - k
  {
    if k < 81 {
      IndexOf(k);
      var y, x := k / 9, k % 9;
      if g[y][x] != 0 || OnlyCandidate(g, y, x) == 0 {
        SweepSkips(g, k);
        SweepKeepsCompletions(g, s, k + 1);
      } else {
        var v := OnlyCandidate(g, y, x);
        SweepFills(g, k);
        OnlyCandidateIsSole(g, y, x);
        ForcedDigitAgrees(g, s, y, x, v);
        PlaceCompletions(g, y, x, v, s);
        SweepKeepsCompletions(Set(g, y, x, v), s, k + 1);
      }
    }
  }

  /** Elimination only makes forced moves: every valid completion of the
      puzzle is a valid completion of the board it leaves behind. */
  lemma {:induction false} EliminateKeepsCompletions(g: Grid, s: Grid)
    requires IsGrid(g) && ValidCompletion(g, s)
    ensures ValidCompletion(Eliminate(g).grid, s)
    decreases EmptyCount(g)
  {
    var p := SweepFrom(g, 0);
    SweepExtends(g, 0);
    SweepKeepsCompletions(g, s, 0);
    if p.filledAnyCell {
      FillingShrinks(g, p.grid);
      EliminateKeepsCompletions(p.grid, s);
    }
  }

  /** Elimination keeps exactly the solutions of the puzzle. */
  lemma EliminateKeepsSolutions(g: Grid, s: Grid)
    requires IsGrid(g)
    ensures Solves(g, s) <==> Solves(Eliminate(g).grid, s)
  {
    var e := Eliminate(g).grid;
    ValidCompletionSolves(g, s);
    ValidCompletionSolves(e, s);
    if Solves(g, s) {
      EliminateKeepsCompletions(g, s);
    }
    if Solves(e, s) {
      ExtendsTransitive(g, e, s);
    }
  }

  /** Elimination keeps a conflict-free board conflict-free. */
  lemma {:induction false} EliminateKeepsNoConflict(g: Grid)
    requires IsGrid(g)
    requires NoConflict(g)
    ensures NoConflict(Eliminate(g).grid)
    decreases EmptyCount(g)
  {
    var p := SweepFrom(g, 0);
    SweepExtends(g, 0);
    SweepKeepsNoConflict(g, 0);
    if p.filledAnyCell {
      FillingShrinks(g, p.grid);
      EliminateKeepsNoConflict(p.grid);
    }
  }

  /** The body of the inner loop at (y, x): skip a filled cell or one without
      a sole candidate, otherwise write the candidate and note the fill. */
  method VisitCell(grid: Grid, y: int, x: int, ghost k: nat) returns (next: Grid, wrote: bool)
    requires IsGrid(grid) && InBounds(y, x) && k == y * 9 + x
    ensures IsGrid(next)
    ensures SweepFrom(grid, k).grid == SweepFrom(next, k + 1).grid
    ensures SweepFrom(grid, k).filledAnyCell == (wrote || SweepFrom(next, k + 1).filledAnyCell)
  {
    CellAtIndex(y, x);
    next, wrote := grid, false;
    if grid[y][x] != 0 {
      SweepSkips(grid, y * 9 + x);
      return;
    }
    var newCellValue := FindOnlyPossibleNumber(grid, y, x);
    if newCellValue == 0 {
      SweepSkips(grid, y * 9 + x);
      return;
    }
    SweepFills(grid, y * 9 + x);
    next, wrote := Set(grid, y, x, newCellValue), true;
  }

  /** The inner loop over the columns of row y. */
  method SweepRow(grid: Grid, y: int, ghost k: nat) returns (next: Grid, wrote: bool)
    requires IsGrid(grid) && 0 <= y < 9 && k == y * 9
    ensures IsGrid(next)
    ensures SweepFrom(grid, k).grid == SweepFrom(next, k + 9).grid
    ensures SweepFrom(grid, k).filledAnyCell == (wrote || SweepFrom(next, k + 9).filledAnyCell)
  {
    next, wrote := grid, false;
    ghost var i := k;
    for x := 0 to 9
      invariant IsGrid(next) && i == k + x
      invariant SweepFrom(grid, k).grid == SweepFrom(next, i).grid
      invariant SweepFrom(grid, k).filledAnyCell == (wrote || SweepFrom(next, i).filledAnyCell)
    {
      var filled;
      next, filled := VisitCell(next, y, x, i);
      wrote := wrote || filled;
      i := i + 1;
    }
  }

  /** One pass of the do-while body as the source runs it: visits the board
      row by row and writes each forced digit in place. */
  method SweepBoard(g: Grid) returns (grid: Grid, filledAnyCell: bool)
    requires IsGrid(g)
    ensures SweepResult(grid, filledAnyCell) == SweepFrom(g, 0)
  {
    grid := g;
    filledAnyCell := false;
    ghost var sweep := SweepFrom(g, 0);
    ghost var k: nat := 0;
    for y := 0 to 9
      invariant IsGrid(grid) && k == y * 9
      invariant sweep.grid == SweepFrom(grid, k).grid
      invariant sweep.filledAnyCell == (filledAnyCell || SweepFrom(grid, k).filledAnyCell)
    {
      var wrote;
      grid, wrote := SweepRow(grid, y, k);
      filledAnyCell := filledAnyCell || wrote;
      k := k + 9;
    }
  }

  /** SolveByElimination as the source runs it: repeat sweeps, counting them,
      until one fills nothing. */
  method SolveByElimination(g: Grid) returns (grid: Grid, loopCount: nat)
    requires IsGrid(g)
    ensures Elimination(grid, loopCount) == Eliminate(g)
  {
    grid := g;
    loopCount := 0;
    var filledAnyCell := true;
    while filledAnyCell
      invariant IsGrid(grid)
      invariant filledAnyCell ==>
        Eliminate(g).grid == Eliminate(grid).grid && Eliminate(g).loopCount == loopCount + Eliminate(grid).loopCount
      invariant !filledAnyCell ==> Elimination(grid, loopCount) == Eliminate(g)
      decreases EmptyCount(grid) + (if filledAnyCell then 1 else 0)
    {
      ghost var before := grid;
      grid, filledAnyCell := SweepBoard(grid);
      loopCount := loopCount + 1;
      SweepExtends(before, 0);
      FillingShrinks(before, grid);
    }
  }
}
