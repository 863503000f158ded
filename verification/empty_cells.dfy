/** The empty-cell snapshot: the coordinates of the cells holding 0, in the
    row-major order in which the backtracking search assigns them. */
module EmptyCoordinates {
  import opened Board

  /** Every element is an empty cell, listed in strictly increasing row-major position. */
  predicate EmptyAscending(g: Grid, e: seq<Cell>)
    requires IsGrid(g)
  {
    && (forall i :: 0 <= i < |e| ==> IsEmptyCell(g, e[i]))
    && (forall i, j :: 0 <= i < j < |e| ==> Index(e[i]) < Index(e[j]))
  }

  lemma IndexOf(k: int)
    requires 0 <= k < 81
    ensures InBounds(k / 9, k % 9) && Index(Cell(k / 9, k % 9)) == k
  {
  }

  lemma CellAtIndex(r: int, c: int)
    requires InBounds(r, c)
    ensures (r * 9 + c) / 9 == r && (r * 9 + c) % 9 == c
  {
  }

  /** The empty cells at row-major positions k..80, in that order: the part of
      the snapshot that the scan in FindEmptyCoordinates appends from position k on. */
  function EmptyFrom(g: Grid, k: nat): (e: seq<Cell>)
    requires IsGrid(g) && k <= 81
    ensures forall i :: 0 <= i < |e| ==> IsEmptyCell(g, e[i]) && k <= Index(e[i])
    decreases 81 - k
  {
    if k == 81 then []
    else
      IndexOf(k);
      if g[k / 9][k % 9] == 0 then [Cell(k / 9, k % 9)] + EmptyFrom(g, k + 1)
      else EmptyFrom(g, k + 1)
  }

  /** The scan from position k lists exactly the empty cells at positions k..80,
      in strictly increasing position. */
  lemma {:induction false} EmptyFromSpec(g: Grid, k: nat)
    requires IsGrid(g) && k <= 81
    ensures EmptyAscending(g, EmptyFrom(g, k))
    ensures forall r, c :: InBounds(r, c) && k <= r * 9 + c && g[r][c] == 0 ==> Cell(r, c) in EmptyFrom(g, k)
    decreases 81 - k
  {
    if k < 81 {
      IndexOf(k);
      EmptyFromSpec(g, k + 1);
      assert forall r, c :: InBounds(r, c) && k == r * 9 + c ==> r == k / 9 && c == k % 9;
    }
  }

  /** The snapshot FindEmptyCoordinates builds: every empty cell of the grid,
      each once, in row-major order. */
  function EmptyCells(g: Grid): (e: seq<Cell>)
    requires IsGrid(g)
    ensures EmptyAscending(g, e)
    ensures forall r, c :: InBounds(r, c) && g[r][c] == 0 ==> Cell(r, c) in e
  {
    EmptyFromSpec(g, 0);
    EmptyFrom(g, 0)
  }

  /** Number of empty cells. */
  function EmptyCount(g: Grid): nat
    requires IsGrid(g)
  {
    |EmptyCells(g)|
  }

  /** The snapshot is determined by what it must contain: any list of the
      empty cells in strictly increasing row-major order, missing none, is
      the snapshot. So rebuilding it from an unchanged grid gives the same list. */
  lemma {:induction false} EmptyCellsUnique(g: Grid, e: seq<Cell>)
    requires IsGrid(g)
    requires EmptyAscending(g, e)
    requires forall r, c :: InBounds(r, c) && g[r][c] == 0 ==> Cell(r, c) in e
    ensures e == EmptyCells(g)
  {
    var f := EmptyCells(g);
    forall x | x in f ensures x in e {
      var i :| 0 <= i < |f| && f[i] == x;
      assert IsEmptyCell(g, f[i]);
    }
    forall x | x in e ensures x in f {
      var i :| 0 <= i < |e| && e[i] == x;
      assert IsEmptyCell(g, e[i]);
    }
    AscendingSameElements(e, f);
  }

  lemma HeadIsElement<T>(s: seq<T>)
    ensures |s| > 0 ==> s[0] in s
  {
  }

  /** Two lists strictly ascending by row-major position with the same elements are equal. */
  lemma {:induction false} AscendingSameElements(a: seq<Cell>, b: seq<Cell>)
    requires forall i, j :: 0 <= i < j < |a| ==> Index(a[i]) < Index(a[j])
    requires forall i, j :: 0 <= i < j < |b| ==> Index(b[i]) < Index(b[j])
    requires forall x :: x in a <==> x in b
    ensures a == b
    decreases |a|
  {
    if |a| == 0 {
      HeadIsElement(b);
    } else {
      assert a[0] in b;
      assert b != [];
      assert b[0] in a;
      var i :| 0 <= i < |a| && a[i] == b[0];
      var j :| 0 <= j < |b| && b[j] == a[0];
      assert a[0] == b[0];
      forall x ensures x in a[1..] <==> x in b[1..] {
        if x in a[1..] {
          var k :| 1 <= k < |a| && a[k] == x;
          assert Index(a[0]) < Index(x);
          assert x in b;
        }
        if x in b[1..] {
          var k :| 1 <= k < |b| && b[k] == x;
          assert Index(b[0]) < Index(x);
          assert x in a;
        }
      }
      AscendingSameElements(a[1..], b[1..]);
      assert a == [a[0]] + a[1..];
      assert b == [b[0]] + b[1..];
    }
  }

  /** Filling cells can only shrink the list of empty cells from position k on,
      and filling one of them shrinks it strictly. */
  lemma {:induction false} EmptyFromShrinks(g: Grid, h: Grid, k: nat)
    requires IsGrid(g) && IsGrid(h) && k <= 81
    requires Extends(g, h)
    ensures |EmptyFrom(h, k)| <= |EmptyFrom(g, k)|
    ensures (exists r, c :: InBounds(r, c) && k <= r * 9 + c && h[r][c] != g[r][c]) ==>
      |EmptyFrom(h, k)| < |EmptyFrom(g, k)|
    decreases 81 - k
  {
    if k < 81 {
      IndexOf(k);
      EmptyFromShrinks(g, h, k + 1);
      if exists r, c :: InBounds(r, c) && k <= r * 9 + c && h[r][c] != g[r][c] {
        var r, c :| InBounds(r, c) && k <= r * 9 + c && h[r][c] != g[r][c];
        if r * 9 + c == k {
          CellAtIndex(r, c);
          assert g[k / 9][k % 9] == 0 && h[k / 9][k % 9] != 0;
        }
      }
    }
  }

  /** Any grid that fills at least one more cell has fewer empty cells. */
  lemma FillingShrinks(g: Grid, h: Grid)
    requires IsGrid(g) && IsGrid(h)
    requires Extends(g, h)
    ensures EmptyCount(h) <= EmptyCount(g)
    ensures h != g ==> EmptyCount(h) < EmptyCount(g)
  {
    EmptyFromShrinks(g, h, 0);
    if h != g {
      if forall r, c :: InBounds(r, c) ==> h[r][c] == g[r][c] {
        assert forall r :: 0 <= r < 9 ==> h[r] == g[r];
        assert false;
      }
      var r, c :| InBounds(r, c) && h[r][c] != g[r][c];
      assert 0 <= r * 9 + c;
    }
  }

  /** One step of the row-major scan, at position k of cell (y, x). */
  lemma EmptyFromStep(g: Grid, y: int, x: int, k: nat)
    requires IsGrid(g) && InBounds(y, x) && k == y * 9 + x
    ensures EmptyFrom(g, k) == (if g[y][x] == 0 then [Cell(y, x)] else []) + EmptyFrom(g, k + 1)
  {
    CellAtIndex(y, x);
  }

  /** FindEmptyCoordinates: starts from an empty list and scans the board row
      by row, appending each cell that holds 0. */
  method FindEmptyCoordinates(g: Grid) returns (cells: seq<Cell>)
    requires IsGrid(g)
    ensures cells == EmptyCells(g)
  {
    cells := [];
    ghost var all := EmptyFrom(g, 0);
    ghost var k: nat := 0;
    for y := 0 to 9
      invariant k == y * 9
      invariant cells + EmptyFrom(g, k) == all
    {
      for x := 0 to 9
        invariant k == y * 9 + x
        invariant cells + EmptyFrom(g, k) == all
      {
        EmptyFromStep(g, y, x, k);
        if g[y][x] == 0 {
          assert cells + EmptyFrom(g, k) == (cells + [Cell(y, x)]) + EmptyFrom(g, k + 1);
          cells := cells + [Cell(y, x)];
        }
        k := k + 1;
      }
    }
  }
}
