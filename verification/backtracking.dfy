/** The backtracking solver: the empty cells are assigned in row-major order,
    each trying the digits 9 down to 1; a digit is placed when the row, column
    and block of the cell do not hold it yet, and every board on which the last
    empty cell gets a digit is recorded. */
module Backtracking {
  import opened Board
  import opened EmptyCoordinates
  import opened Elimination

  /** Every listed cell is on the board. */
  predicate AllValid(cells: seq<Cell>) {
    forall j :: 0 <= j < |cells| ==> ValidCell(cells[j])
  }

  /** The state of the search when it is about to assign cells[d]: the cells
      are on the board and in strictly increasing row-major order, and the
      empty cells of g are exactly cells[d..]. */
  predicate Frontier(g: Grid, cells: seq<Cell>, d: nat)
    requires IsGrid(g)
  {
    && d <= |cells|
    && AllValid(cells)
    && (forall i, j :: 0 <= i < j < |cells| ==> Index(cells[i]) < Index(cells[j]))
    && (forall j :: d <= j < |cells| ==> g[cells[j].row][cells[j].col] == 0)
    && (forall r, c :: 0 <= r < 9 && 0 <= c < 9 && g[r][c] == 0 ==>
          exists j :: d <= j < |cells| && cells[j] == Cell(r, c))
  }

  /** MakeAttempt(cells[depth], num) on board g: nothing when num is already in
      the row, column or block of the cell; otherwise num is placed and either
      the board is recorded (the cell was the last one) or the next cell tries
      9 down to 1. Boards are listed in the order they are recorded. */
  function Attempt(g: Grid, cells: seq<Cell>, depth: nat, num: nat): (found: seq<Grid>)
    requires IsGrid(g) && AllValid(cells) && depth < |cells| && 1 <= num <= 9
    ensures forall k :: 0 <= k < |found| ==> IsGrid(found[k])
    decreases |cells| - depth, num, 0
  {
    var y, x := cells[depth].row, cells[depth].col;
    if Excluded(g, y, x, num) then []
    else
      var h := Set(g, y, x, num);
      if depth + 1 == |cells| then [h]
      else TryDigits(h, cells, depth + 1, 9)
  }

  /** The loop `for (i = top; i >= 1; i--) MakeAttempt(cells[depth], i)`. */
  function TryDigits(g: Grid, cells: seq<Cell>, depth: nat, top: nat): (found: seq<Grid>)
    requires IsGrid(g) && AllValid(cells) && depth < |cells| && top <= 9
    ensures forall k :: 0 <= k < |found| ==> IsGrid(found[k])
    decreases |cells| - depth, top, 1
  {
    if top == 0 then []
    else Attempt(g, cells, depth, top) + TryDigits(g, cells, depth, top - 1)
  }

  /** The outcome of SolveRecursively: the recorded boards, or the index error
      raised when the board has no empty cell to start from. */
  datatype Outcome = Solutions(boards: seq<Grid>) | IndexOutOfRange

  /** SolveRecursively: snapshot the empty cells, then try 9 down to 1 in the
      first of them. */
  function SolveRecursively(g: Grid): (o: Outcome)
    requires IsGrid(g)
    ensures o.IndexOutOfRange? <==> Full(g)
  {
    var cells := EmptyCells(g);
    if |cells| == 0 then
      assert forall r, c :: 0 <= r < 9 && 0 <= c < 9 ==> g[r][c] != 0;
      IndexOutOfRange
    else
      assert ValidCell(cells[0]) && g[cells[0].row][cells[0].col] == 0;
      Solutions(TryDigits(g, cells, 0, 9))
  }

  /** The snapshot of a board with an empty cell is a frontier at depth 0. */
  lemma FrontierStart(g: Grid)
    requires IsGrid(g)
    ensures Frontier(g, EmptyCells(g), 0)
  {
    var cells := EmptyCells(g);
    forall r, c | 0 <= r < 9 && 0 <= c < 9 && g[r][c] == 0
      ensures exists j :: 0 <= j < |cells| && cells[j] == Cell(r, c)
    {
      assert Cell(r, c) in cells;
    }
  }

  /** Placing a digit in cells[d] moves the frontier on by one cell. */
  lemma FrontierStep(g: Grid, cells: seq<Cell>, d: nat, num: int)
    requires IsGrid(g) && Frontier(g, cells, d) && d < |cells| && 1 <= num <= 9
    ensures Frontier(Set(g, cells[d].row, cells[d].col, num), cells, d + 1)
  {
    var h := Set(g, cells[d].row, cells[d].col, num);
    forall j | d + 1 <= j < |cells|
      ensures h[cells[j].row][cells[j].col] == 0
    {
      assert Index(cells[d]) < Index(cells[j]);
    }
    forall r, c | 0 <= r < 9 && 0 <= c < 9 && h[r][c] == 0
      ensures exists j :: d + 1 <= j < |cells| && cells[j] == Cell(r, c)
    {
      var j :| d <= j < |cells| && cells[j] == Cell(r, c);
      assert j != d;
    }
  }

  /** Placing a digit in the last frontier cell fills the board. */
  lemma LastPlaceFills(g: Grid, cells: seq<Cell>, d: nat, num: int)
    requires IsGrid(g) && Frontier(g, cells, d) && d + 1 == |cells| && 1 <= num <= 9
    ensures Full(Set(g, cells[d].row, cells[d].col, num))
  {
    var h := Set(g, cells[d].row, cells[d].col, num);
    forall r, c | 0 <= r < 9 && 0 <= c < 9
      ensures h[r][c] != 0
    {
      if g[r][c] == 0 {
        var j :| d <= j < |cells| && cells[j] == Cell(r, c);
      }
    }
  }

  /** One attempt records exactly the valid completions of the board that hold
      num in cells[d]. */
  lemma {:induction false} AttemptFinds(g: Grid, cells: seq<Cell>, d: nat, num: nat, s: Grid)
    requires IsGrid(g) && Frontier(g, cells, d) && d < |cells| && 1 <= num <= 9
    ensures s in Attempt(g, cells, d, num) <==>
      ValidCompletion(g, s) && s[cells[d].row][cells[d].col] == num
    decreases |cells| - d, num, 0
  {
    var y, x := cells[d].row, cells[d].col;
    if Excluded(g, y, x, num) {
      if ValidCompletion(g, s) {
        CompletionDigitOpen(g, s, y, x);
      }
    } else {
      var h := Set(g, y, x, num);
      PlaceCompletions(g, y, x, num, s);
      if d + 1 == |cells| {
        LastPlaceFills(g, cells, d, num);
        FullCompletion(h, s);
      } else {
        FrontierStep(g, cells, d, num);
        TryDigitsFinds(h, cells, d + 1, 9, s);
      }
    }
  }

  /** Trying top down to 1 in cells[d] records exactly the valid completions of
      the board whose digit there is at most top. */
  lemma {:induction false} TryDigitsFinds(g: Grid, cells: seq<Cell>, d: nat, top: nat, s: Grid)
    requires IsGrid(g) && Frontier(g, cells, d) && d < |cells| && top <= 9
    ensures s in TryDigits(g, cells, d, top) <==>
      ValidCompletion(g, s) && s[cells[d].row][cells[d].col] <= top
    decreases |cells| - d, top, 1
  {
    if top > 0 {
      AttemptFinds(g, cells, d, top, s);
      TryDigitsFinds(g, cells, d, top - 1, s);
    }
  }

  /** s comes before t in the search: they agree on cells[d..k) and s holds
      the larger digit in cells[k]. */
  predicate Precedes(s: Grid, t: Grid, cells: seq<Cell>, d: nat)
    requires IsGrid(s) && IsGrid(t) && AllValid(cells)
  {
    exists k :: d <= k < |cells| &&
      (forall j :: d <= j < k ==> s[cells[j].row][cells[j].col] == t[cells[j].row][cells[j].col]) &&
      s[cells[k].row][cells[k].col] > t[cells[k].row][cells[k].col]
  }

  /** Boards listed in strictly descending order from cells[d] on. */
  predicate Descending(found: seq<Grid>, cells: seq<Cell>, d: nat)
    requires AllValid(cells)
    requires forall k :: 0 <= k < |found| ==> IsGrid(found[k])
  {
    forall p, q :: 0 <= p < q < |found| ==> Precedes(found[p], found[q], cells, d)
  }

  lemma PrecedesExtend(s: Grid, t: Grid, cells: seq<Cell>, d: nat)
    requires IsGrid(s) && IsGrid(t) && AllValid(cells) && d < |cells|
    requires Precedes(s, t, cells, d + 1)
    requires s[cells[d].row][cells[d].col] == t[cells[d].row][cells[d].col]
    ensures Precedes(s, t, cells, d)
  {
    var k :| d + 1 <= k < |cells| &&
      (forall j :: d + 1 <= j < k ==> s[cells[j].row][cells[j].col] == t[cells[j].row][cells[j].col]) &&
      s[cells[k].row][cells[k].col] > t[cells[k].row][cells[k].col];
    assert forall j :: d <= j < k ==> s[cells[j].row][cells[j].col] == t[cells[j].row][cells[j].col];
  }

  /** The boards one attempt records are in strictly descending order. */
  lemma {:induction false} AttemptDescending(g: Grid, cells: seq<Cell>, d: nat, num: nat)
    requires IsGrid(g) && Frontier(g, cells, d) && d < |cells| && 1 <= num <= 9
    ensures Descending(Attempt(g, cells, d, num), cells, d)
    decreases |cells| - d, num, 0
  {
    var y, x := cells[d].row, cells[d].col;
    if !Excluded(g, y, x, num) && d + 1 < |cells| {
      var h := Set(g, y, x, num);
      var found := Attempt(g, cells, d, num);
      FrontierStep(g, cells, d, num);
      TryDigitsDescending(h, cells, d + 1, 9);
      forall p, q | 0 <= p < q < |found|
        ensures Precedes(found[p], found[q], cells, d)
      {
        AttemptFinds(g, cells, d, num, found[p]);
        AttemptFinds(g, cells, d, num, found[q]);
        PrecedesExtend(found[p], found[q], cells, d);
      }
    }
  }

  /** The boards the loop over top down to 1 records are in strictly descending order. */
  lemma {:induction false} TryDigitsDescending(g: Grid, cells: seq<Cell>, d: nat, top: nat)
    requires IsGrid(g) && Frontier(g, cells, d) && d < |cells| && top <= 9
    ensures Descending(TryDigits(g, cells, d, top), cells, d)
    decreases |cells| - d, top, 1
  {
    if top > 0 {
      var a := Attempt(g, cells, d, top);
      var b := TryDigits(g, cells, d, top - 1);
      AttemptDescending(g, cells, d, top);
      TryDigitsDescending(g, cells, d, top - 1);
      var found := a + b;
      forall p, q | 0 <= p < q < |found|
        ensures Precedes(found[p], found[q], cells, d)
      {
        if q < |a| {
          assert found[p] == a[p] && found[q] == a[q];
        } else if |a| <= p {
          assert found[p] == b[p - |a|] && found[q] == b[q - |a|];
        } else {
          AttemptFinds(g, cells, d, top, a[p]);
          TryDigitsFinds(g, cells, d, top - 1, b[q - |a|]);
          assert found[p] == a[p] && found[q] == b[q - |a|];
        }
      }
    }
  }

  /** SolveRecursively records exactly the valid completions of a board that
      has an empty cell, and fails with the index error on a full board. */
  lemma SolveRecursivelyFinds(g: Grid, s: Grid)
    requires IsGrid(g)
    ensures SolveRecursively(g).IndexOutOfRange? <==> Full(g)
    ensures SolveRecursively(g).Solutions? ==> (s in SolveRecursively(g).boards <==> ValidCompletion(g, s))
  {
    if !Full(g) {
      FrontierStart(g);
      TryDigitsFinds(g, EmptyCells(g), 0, 9, s);
    }
  }

  /** On a puzzle whose givens do not clash, the recorded boards are exactly
      its solutions. */
  lemma SolveRecursivelySolves(g: Grid, s: Grid)
    requires IsGrid(g) && NoConflict(g) && !Full(g)
    ensures s in SolveRecursively(g).boards <==> Solves(g, s)
  {
    SolveRecursivelyFinds(g, s);
    ValidCompletionSolves(g, s);
  }

  /** The recorded boards are in strictly descending row-major order of their
      digits in the empty cells, so none is recorded twice. */
  lemma SolveRecursivelyOrdered(g: Grid)
    requires IsGrid(g) && !Full(g)
    ensures Descending(SolveRecursively(g).boards, EmptyCells(g), 0)
    ensures forall p, q :: 0 <= p < q < |SolveRecursively(g).boards| ==>
      SolveRecursively(g).boards[p] != SolveRecursively(g).boards[q]
  {
    FrontierStart(g);
    TryDigitsDescending(g, EmptyCells(g), 0, 9);
  }

  /** The clash test of MakeAttempt: the row and column in one loop, then the
      block; true when num is found. */
  method InUnit(a: array2<int>, ghost g: Grid, y: int, x: int, num: int) returns (found: bool)
    requires IsGrid(g) && Holds(a, g) && InBounds(y, x)
    ensures found <==> Excluded(g, y, x, num)
  {
    for i := 0 to 9
      invariant forall k :: 0 <= k < i ==> g[k][x] != num && g[y][k] != num
    {
      if a[i, x] == num || a[y, i] == num {
        if a[i, x] == num {
          assert SameUnit(y, x, i, x) && g[i][x] == num;
        } else {
          assert SameUnit(y, x, y, i) && g[y][i] == num;
        }
        return true;
      }
    }
    var blockX, blockY := x / 3, y / 3;
    for qx := 0 to 3
      invariant forall r2, c2 :: blockY * 3 <= r2 < blockY * 3 + 3 && blockX * 3 <= c2 < blockX * 3 + qx ==>
        g[r2][c2] != num
    {
      for qy := 0 to 3
        invariant forall r2, c2 :: blockY * 3 <= r2 < blockY * 3 + 3 && blockX * 3 <= c2 < blockX * 3 + qx ==>
          g[r2][c2] != num
        invariant forall r2 :: blockY * 3 <= r2 < blockY * 3 + qy ==> g[r2][blockX * 3 + qx] != num
      {
        if a[blockY * 3 + qy, blockX * 3 + qx] == num {
          assert SameUnit(y, x, blockY * 3 + qy, blockX * 3 + qx);
          return true;
        }
      }
    }
    return false;
  }

  /** `Grid[y, x] = v` on a board that holds g. */
  method Write(a: array2<int>, ghost g: Grid, y: int, x: int, v: int)
    requires IsGrid(g) && Holds(a, g) && InBounds(y, x) && 0 <= v <= 9
    modifies a
    ensures Holds(a, Set(g, y, x, v))
  {
    a[y, x] := v;
  }

  /** Emptying a cell that was empty before a digit was placed gives back the board. */
  lemma SetUndo(g: Grid, y: int, x: int, num: int)
    requires IsGrid(g) && InBounds(y, x) && g[y][x] == 0 && 0 <= num <= 9
    ensures Set(Set(g, y, x, num), y, x, 0) == g
  {
    var h := Set(Set(g, y, x, num), y, x, 0);
    forall r | 0 <= r < 9
      ensures h[r] == g[r]
    {
      assert forall c :: 0 <= c < 9 ==> h[r][c] == g[r][c];
    }
  }

  /** MakeAttempt on the shared board: the board must show the search state
      for cells[depth]; afterwards it shows that state again. Each time the
      last cell is filled, the source adds the board itself to its list (refs,
      one entry per recorded board, every one of them `a`); found holds the
      copies that would have been taken at those moments, which are the boards
      of the functional model. */
  method MakeAttempt(a: array2<int>, ghost g: Grid, cells: seq<Cell>, depth: nat, num: nat)
    returns (found: seq<Grid>, refs: seq<array2<int>>)
    requires IsGrid(g) && Holds(a, g) && Frontier(g, cells, depth) && depth < |cells| && 1 <= num <= 9
    modifies a
    ensures Holds(a, g)
    ensures found == Attempt(g, cells, depth, num)
    ensures |refs| == |found| && AllAre(refs, a)
    decreases |cells| - depth, num, 1
  {
    var y, x := cells[depth].row, cells[depth].col;
    var taken := InUnit(a, g, y, x, num);
    if taken {
      return [], [];
    }
    found, refs := Place(a, g, cells, depth, num);
  }

  /** Every entry of the list is the board a itself. */
  predicate AllAre(refs: seq<array2<int>>, a: array2<int>) {
    forall k :: 0 <= k < |refs| ==> refs[k] == a
  }

  lemma AllAreAppend(p: seq<array2<int>>, q: seq<array2<int>>, a: array2<int>)
    requires AllAre(p, a) && AllAre(q, a)
    ensures AllAre(p + q, a)
  {
  }

  /** `solutions.Add(Grid)`: the source adds the board itself (refs); found
      is the copy of what it shows at that moment. */
  method Record(a: array2<int>, ghost h: Grid) returns (found: seq<Grid>, refs: seq<array2<int>>)
    requires IsGrid(h) && Holds(a, h)
    ensures found == [h] && refs == [a]
  {
    HoldsContents(a, h);
    found, refs := [Contents(a)], [a];
  }

  lemma AttemptAccepts(g: Grid, cells: seq<Cell>, depth: nat, num: nat)
    requires IsGrid(g) && AllValid(cells) && depth < |cells| && 1 <= num <= 9
    requires !Excluded(g, cells[depth].row, cells[depth].col, num)
    ensures Attempt(g, cells, depth, num) ==
      var h := Set(g, cells[depth].row, cells[depth].col, num);
      if depth + 1 == |cells| then [h] else TryDigits(h, cells, depth + 1, 9)
  {
  }

  /** The accepting branch of MakeAttempt: place num, record the board or go
      on to the next cell, then clear the cell again. */
  method Place(a: array2<int>, ghost g: Grid, cells: seq<Cell>, depth: nat, num: nat)
    returns (found: seq<Grid>, refs: seq<array2<int>>)
    requires IsGrid(g) && Holds(a, g) && Frontier(g, cells, depth) && depth < |cells| && 1 <= num <= 9
    requires !Excluded(g, cells[depth].row, cells[depth].col, num)
    modifies a
    ensures Holds(a, g)
    ensures found == Attempt(g, cells, depth, num)
    ensures |refs| == |found| && AllAre(refs, a)
    decreases |cells| - depth, num, 0
  {
    var y, x := cells[depth].row, cells[depth].col;
    Write(a, g, y, x, num);
    ghost var h := Set(g, y, x, num);
    AttemptAccepts(g, cells, depth, num);
    if depth + 1 == |cells| {
      found, refs := Record(a, h);
    } else {
      FrontierStep(g, cells, depth, num);
      found, refs := TryDigitsOnBoard(a, h, cells, depth + 1);
    }
    Write(a, h, y, x, 0);
    SetUndo(g, y, x, num);
  }

  /** The loop `for (i = 9; i >= 1; i--) MakeAttempt(cells[depth], i)` on the
      shared board, which it leaves as it found it. */
  method TryDigitsOnBoard(a: array2<int>, ghost g: Grid, cells: seq<Cell>, depth: nat)
    returns (found: seq<Grid>, refs: seq<array2<int>>)
    requires IsGrid(g) && Holds(a, g) && Frontier(g, cells, depth) && depth < |cells|
    modifies a
    ensures Holds(a, g)
    ensures found == TryDigits(g, cells, depth, 9)
    ensures |refs| == |found| && AllAre(refs, a)
    decreases |cells| - depth, 10, 1
  {
    found, refs := [], [];
    var i := 9;
    while i >= 1
      invariant 0 <= i <= 9
      invariant Holds(a, g)
      invariant found + TryDigits(g, cells, depth, i) == TryDigits(g, cells, depth, 9)
      invariant |refs| == |found| && AllAre(refs, a)
    {
      var more, moreRefs := MakeAttempt(a, g, cells, depth, i);
      assert TryDigits(g, cells, depth, i) == more + TryDigits(g, cells, depth, i - 1);
      AllAreAppend(refs, moreRefs, a);
      found, refs := found + more, refs + moreRefs;
      i := i - 1;
    }
  }

  /** SolveRecursively on the shared board: snapshot the empty cells, try 9
      down to 1 in the first one, and hand back the board as it was. The list
      the source returns is refs: one entry per recorded board, each of them the
      board `a` itself, which by then holds the puzzle g again. */
  method SolveOnBoard(a: array2<int>, ghost g: Grid) returns (o: Outcome, refs: seq<array2<int>>)
    requires IsGrid(g) && Holds(a, g)
    modifies a
    ensures Holds(a, g)
    ensures o == SolveRecursively(g)
    ensures |refs| == (if o.Solutions? then |o.boards| else 0)
    ensures AllAre(refs, a)
  {
    HoldsContents(a, g);
    var cells := FindEmptyCoordinates(Contents(a));
    if |cells| == 0 {
      return IndexOutOfRange, [];
    }
    FrontierStart(g);
    var solutions;
    solutions, refs := TryDigitsOnBoard(a, g, cells, 0);
    return Solutions(solutions), refs;
  }

  /** The list as the source returns it, read as values: SolveOnBoard shows
      that every entry is the one shared board and that the board holds the
      puzzle g again when the list is returned, so each entry shows g. */
  function AliasedSolutions(g: Grid): (o: Outcome)
    requires IsGrid(g)
    ensures o.IndexOutOfRange? <==> Full(g)
    ensures o.Solutions? ==> |o.boards| == |SolveRecursively(g).boards|
  {
    match SolveRecursively(g)
    case IndexOutOfRange => IndexOutOfRange
    case Solutions(boards) => Solutions(seq(|boards|, _ => g))
  }

  /** The shared-board list has one entry per solution found, and none of its
      entries is a completion of the puzzle. */
  lemma AliasedEntriesUnsolved(g: Grid)
    requires IsGrid(g) && !Full(g)
    ensures |AliasedSolutions(g).boards| == |SolveRecursively(g).boards|
    ensures forall k :: 0 <= k < |AliasedSolutions(g).boards| ==>
      !ValidCompletion(g, AliasedSolutions(g).boards[k])
  {
  }

  /** When the givens already clash, the search still records every valid
      completion, although no such board is a solution of the puzzle. */
  lemma ClashingGivensRecorded(g: Grid, s: Grid)
    requires IsGrid(g) && !NoConflict(g) && !Full(g)
    requires ValidCompletion(g, s)
    ensures s in SolveRecursively(g).boards
    ensures !Solves(g, s)
  {
    SolveRecursivelyFinds(g, s);
  }

  /** A puzzle that is already solved is its own unique solution, yet the
      search fails on it. */
  lemma SolvedPuzzleFails(g: Grid, s: Grid)
    requires IsGrid(g) && Full(g) && NoConflict(g)
    ensures SolveRecursively(g) == IndexOutOfRange
    ensures Solves(g, s) <==> s == g
  {
    ValidCompletionSolves(g, s);
    FullCompletion(g, s);
  }

  /** The search as its comments describe it: no solution when the givens
      clash, the board itself when it is already solved, and otherwise the
      boards the backtracking records. */
  function SolvePuzzle(g: Grid): (solutions: seq<Grid>)
    requires IsGrid(g)
    ensures forall k :: 0 <= k < |solutions| ==> Solves(g, solutions[k])
  {
    if !NoConflict(g) then []
    else if Full(g) then
      ValidCompletionSolves(g, g);
      FullCompletion(g, g);
      [g]
    else
      var boards := SolveRecursively(g).boards;
      assert forall k :: 0 <= k < |boards| ==> Solves(g, boards[k]) by {
        forall k | 0 <= k < |boards|
          ensures Solves(g, boards[k])
        {
          SolveRecursivelySolves(g, boards[k]);
        }
      }
      boards
  }

  /** SolvePuzzle lists exactly the solutions of the puzzle. */
  lemma SolvePuzzleExact(g: Grid, s: Grid)
    requires IsGrid(g)
    ensures s in SolvePuzzle(g) <==> Solves(g, s)
  {
    if NoConflict(g) {
      if Full(g) {
        SolvedPuzzleFails(g, s);
      } else {
        SolveRecursivelySolves(g, s);
      }
    }
  }

  /** Running the elimination solver first is safe: the corrected search on
      the board elimination leaves lists exactly the solutions of the puzzle,
      and on a puzzle whose givens do not clash, so does the source's search
      whenever elimination left an empty cell. */
  lemma EliminationThenSearch(g: Grid, s: Grid)
    requires IsGrid(g)
    ensures s in SolvePuzzle(Eliminate(g).grid) <==> Solves(g, s)
    ensures NoConflict(g) && !Full(Eliminate(g).grid) ==>
      (s in SolveRecursively(Eliminate(g).grid).boards <==> Solves(g, s))
  {
    var e := Eliminate(g).grid;
    EliminateKeepsSolutions(g, s);
    SolvePuzzleExact(e, s);
    if NoConflict(g) && !Full(e) {
      EliminateKeepsNoConflict(g);
      SolveRecursivelySolves(e, s);
    }
  }
}
