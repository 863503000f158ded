/** The Sudoku board shared by both solvers: a 9×9 grid of cell values, the
    row/column/block relation between cells, and the exclusion test that the
    elimination solver and the backtracking search both perform. */
module Board {

  /** A cell address: row and column, each 0..8 on the board. */
  datatype Cell = Cell(row: int, col: int)

  predicate InBounds(r: int, c: int) {
    0 <= r < 9 && 0 <= c < 9
  }

  predicate ValidCell(cell: Cell) {
    InBounds(cell.row, cell.col)
  }

  /** Row-major position of a cell: the order in which every scan of the board visits it. */
  function Index(cell: Cell): int {
    cell.row * 9 + cell.col
  }

  /** Cell values: 0 is an empty cell, 1..9 a placed digit. Rows are the outer sequence. */
  type Grid = seq<seq<int>>

  predicate IsGrid(g: Grid) {
    && |g| == 9
    && (forall r :: 0 <= r < 9 ==> |g[r]| == 9)
    && (forall r, c :: 0 <= r < 9 && 0 <= c < 9 ==> 0 <= g[r][c] <= 9)
  }

  function At(g: Grid, cell: Cell): int
    requires IsGrid(g) && ValidCell(cell)
  {
    g[cell.row][cell.col]
  }

  predicate IsEmptyCell(g: Grid, cell: Cell)
    requires IsGrid(g)
  {
    ValidCell(cell) && At(g, cell) == 0
  }

  /** The grid with cell (r, c) overwritten by v; every other cell unchanged. */
  function Set(g: Grid, r: int, c: int, v: int): (h: Grid)
    requires IsGrid(g) && InBounds(r, c) && 0 <= v <= 9
    ensures IsGrid(h)
    ensures h[r][c] == v
    ensures forall r', c' :: InBounds(r', c') && (r' != r || c' != c) ==> h[r'][c'] == g[r'][c']
  {
    g[r := g[r][c := v]]
  }

  /** The two cells share a row, a column or a 3×3 block; the block of (r, c) is (r / 3, c / 3). */
  predicate SameUnit(r1: int, c1: int, r2: int, c2: int) {
    r1 == r2 || c1 == c2 || (r1 / 3 == r2 / 3 && c1 / 3 == c2 / 3)
  }

  /** Digit d already occurs in row r, in column c or in the block of (r, c).
      The cell (r, c) itself is part of all three scans, as in both solvers. */
  predicate Excluded(g: Grid, r: int, c: int, d: int)
    requires IsGrid(g) && InBounds(r, c)
  {
    exists r2, c2 :: 0 <= r2 < 9 && 0 <= c2 < 9 && SameUnit(r, c, r2, c2) && g[r2][c2] == d
  }

  /** Some other cell of the row, column or block of (r, c) holds the value of (r, c). */
  predicate ClashAt(g: Grid, r: int, c: int)
    requires IsGrid(g) && InBounds(r, c)
  {
    exists r2, c2 :: 0 <= r2 < 9 && 0 <= c2 < 9 && (r2 != r || c2 != c) && SameUnit(r, c, r2, c2) && g[r2][c2] == g[r][c]
  }

  /** The Sudoku rule: no row, column or block repeats a digit. */
  predicate NoConflict(g: Grid)
    requires IsGrid(g)
  {
    forall r, c :: 0 <= r < 9 && 0 <= c < 9 && g[r][c] != 0 ==> !ClashAt(g, r, c)
  }

  /** h keeps every digit placed in g; cells empty in g may have been filled. */
  predicate Extends(g: Grid, h: Grid)
    requires IsGrid(g) && IsGrid(h)
  {
    forall r, c :: 0 <= r < 9 && 0 <= c < 9 && g[r][c] != 0 ==> h[r][c] == g[r][c]
  }

  /** No cell is empty. */
  predicate Full(g: Grid)
    requires IsGrid(g)
  {
    forall r, c :: 0 <= r < 9 && 0 <= c < 9 ==> g[r][c] != 0
  }

  /** s is a solution of puzzle g: it keeps the givens, fills every cell and obeys the rule. */
  predicate Solves(g: Grid, s: Grid)
    requires IsGrid(g)
  {
    IsGrid(s) && Extends(g, s) && Full(s) && NoConflict(s)
  }

  /** Placing a digit that the exclusion test admits creates no clash at the
      new cell and none at any cell that had none before. */
  lemma PlaceAdmitted(g: Grid, r: int, c: int, d: int, r1: int, c1: int)
    requires IsGrid(g) && InBounds(r, c) && g[r][c] == 0 && 1 <= d <= 9
    requires !Excluded(g, r, c, d)
    requires InBounds(r1, c1)
    requires (r1 == r && c1 == c) || (g[r1][c1] != 0 && !ClashAt(g, r1, c1))
    ensures !ClashAt(Set(g, r, c, d), r1, c1)
  {
  }

  /** Placing an admitted digit keeps a conflict-free grid conflict-free. */
  lemma PlaceKeepsNoConflict(g: Grid, r: int, c: int, d: int)
    requires IsGrid(g) && InBounds(r, c) && g[r][c] == 0 && 1 <= d <= 9
    requires !Excluded(g, r, c, d)
    ensures NoConflict(g) ==> NoConflict(Set(g, r, c, d))
  {
    var h := Set(g, r, c, d);
    forall r1, c1 | NoConflict(g) && InBounds(r1, c1) && h[r1][c1] != 0
      ensures !ClashAt(h, r1, c1)
    {
      PlaceAdmitted(g, r, c, d, r1, c1);
    }
  }

  lemma ExtendsTransitive(g: Grid, h: Grid, i: Grid)
    requires IsGrid(g) && IsGrid(h) && IsGrid(i)
    requires Extends(g, h) && Extends(h, i)
    ensures Extends(g, i)
  {
  }

  /** Extending a full grid changes nothing. */
  lemma FullExtendsEqual(g: Grid, h: Grid)
    requires IsGrid(g) && IsGrid(h) && Full(g) && Extends(g, h)
    ensures h == g
  {
    forall r | 0 <= r < 9
      ensures h[r] == g[r]
    {
      assert forall c :: 0 <= c < 9 ==> h[r][c] == g[r][c];
    }
  }

  /** s fills every cell left empty in g, keeps every digit of g, and no
      digit it filled in repeats in the row, column or block of its cell.
      Clashes among the digits of g themselves are not looked at. */
  predicate ValidCompletion(g: Grid, s: Grid)
    requires IsGrid(g)
  {
    && IsGrid(s) && Extends(g, s) && Full(s)
    && forall r, c :: 0 <= r < 9 && 0 <= c < 9 && g[r][c] == 0 ==> !ClashAt(s, r, c)
  }

  /** The digit a valid completion puts in an empty cell is one the puzzle's
      row, column and block of that cell leave open. */
  lemma CompletionDigitOpen(g: Grid, s: Grid, r: int, c: int)
    requires IsGrid(g) && ValidCompletion(g, s) && InBounds(r, c) && g[r][c] == 0
    ensures !Excluded(g, r, c, s[r][c])
  {
    forall r2, c2 | 0 <= r2 < 9 && 0 <= c2 < 9 && SameUnit(r, c, r2, c2)
      ensures g[r2][c2] != s[r][c]
    {
      if g[r2][c2] != 0 && (r2 != r || c2 != c) {
        assert s[r2][c2] == g[r2][c2];
      }
    }
  }

  /** A solution is a valid completion; on a puzzle whose givens do not clash
      the two notions agree. */
  lemma ValidCompletionSolves(g: Grid, s: Grid)
    requires IsGrid(g)
    ensures Solves(g, s) ==> ValidCompletion(g, s)
    ensures NoConflict(g) && ValidCompletion(g, s) ==> Solves(g, s)
  {
    if NoConflict(g) && ValidCompletion(g, s) {
      forall r, c | 0 <= r < 9 && 0 <= c < 9 && s[r][c] != 0
        ensures !ClashAt(s, r, c)
      {
        if g[r][c] != 0 {
          forall r2, c2 | 0 <= r2 < 9 && 0 <= c2 < 9 && (r2 != r || c2 != c) && SameUnit(r, c, r2, c2)
            ensures s[r2][c2] != s[r][c]
          {
            if g[r2][c2] == 0 {
              assert !ClashAt(s, r2, c2);
              assert SameUnit(r2, c2, r, c);
            }
          }
        }
      }
    }
  }

  /** The valid completions of the board after placing an admitted digit are
      exactly the valid completions of the board before that hold the digit there. */
  lemma PlaceCompletions(g: Grid, y: int, x: int, num: int, s: Grid)
    requires IsGrid(g) && InBounds(y, x) && g[y][x] == 0 && 1 <= num <= 9
    requires !Excluded(g, y, x, num)
    ensures ValidCompletion(Set(g, y, x, num), s) <==> ValidCompletion(g, s) && s[y][x] == num
  {
    var h := Set(g, y, x, num);
    if ValidCompletion(h, s) {
      forall r2, c2 | 0 <= r2 < 9 && 0 <= c2 < 9 && (r2 != y || c2 != x) && SameUnit(y, x, r2, c2)
        ensures s[r2][c2] != s[y][x]
      {
        if g[r2][c2] == 0 {
          assert !ClashAt(s, r2, c2);
          assert SameUnit(r2, c2, y, x);
        } else {
          assert s[r2][c2] == g[r2][c2];
        }
      }
    }
  }

  /** On a full board the only valid completion is the board itself. */
  lemma FullCompletion(h: Grid, s: Grid)
    requires IsGrid(h) && Full(h)
    ensures ValidCompletion(h, s) <==> s == h
  {
    if ValidCompletion(h, s) {
      FullExtendsEqual(h, s);
    }
  }

  /** A grid on an array: 9×9 with every value 0..9. */
  predicate IsBoard(a: array2<int>)
    reads a
  {
    && a.Length0 == 9 && a.Length1 == 9
    && forall r, c :: 0 <= r < 9 && 0 <= c < 9 ==> 0 <= a[r, c] <= 9
  }

  /** The values the array holds, as a grid. */
  function Contents(a: array2<int>): (g: Grid)
    reads a
    requires IsBoard(a)
    ensures IsGrid(g)
    ensures forall r, c :: 0 <= r < 9 && 0 <= c < 9 ==> g[r][c] == a[r, c]
  {
    seq(9, r requires 0 <= r < 9 reads a => seq(9, c requires 0 <= c < 9 reads a => a[r, c]))
  }

  /** The array holds exactly the values of g. */
  predicate Holds(a: array2<int>, g: Grid)
    reads a
    requires IsGrid(g)
  {
    && a.Length0 == 9 && a.Length1 == 9
    && forall r, c :: 0 <= r < 9 && 0 <= c < 9 ==> a[r, c] == g[r][c]
  }

  lemma HoldsContents(a: array2<int>, g: Grid)
    requires IsGrid(g) && Holds(a, g)
    ensures IsBoard(a) && Contents(a) == g
  {
    var h := Contents(a);
    forall r | 0 <= r < 9
      ensures h[r] == g[r]
    {
      assert forall c :: 0 <= c < 9 ==> h[r][c] == g[r][c];
    }
  }
}
