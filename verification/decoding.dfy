/** Reading a puzzle: the row-major digit string that the Sudoku constructor
    turns into its grid. The string is indexed as .NET strings are, by UTF-16
    code unit, so a character outside the Basic Multilingual Plane occupies two
    positions, neither of which is a digit. */
module Decoding {
  import opened Board

  /** One UTF-16 code unit of the input string. */
  newtype CodeUnit = u: int | 0 <= u < 0x1_0000

  /** Parsing a one-unit string as an integer succeeds exactly for the ASCII
      digits U+0030..U+0039. */
  predicate IsDigitUnit(u: CodeUnit) {
    0x30 <= u <= 0x39
  }

  /** Parsing one code unit; on failure the cell keeps its initial 0. */
  function CellValue(u: CodeUnit): (v: int)
    ensures 0 <= v <= 9
    ensures IsDigitUnit(u) ==> DigitUnit(v) == u
    ensures !IsDigitUnit(u) ==> v == 0
  {
    if IsDigitUnit(u) then u as int - 0x30 else 0
  }

  function DigitUnit(v: int): (u: CodeUnit)
    requires 0 <= v <= 9
    ensures IsDigitUnit(u) && u as int - 0x30 == v
  {
    (0x30 + v) as CodeUnit
  }

  /** Cell (row, col) takes the code unit at index col + row * 9; units past
      index 80 are never read. */
  function Decode(s: seq<CodeUnit>): (g: Grid)
    requires |s| >= 81
    ensures IsGrid(g)
    ensures forall row, col :: InBounds(row, col) && IsDigitUnit(s[col + row * 9]) ==>
      DigitUnit(g[row][col]) == s[col + row * 9]
    ensures forall row, col :: InBounds(row, col) && !IsDigitUnit(s[col + row * 9]) ==> g[row][col] == 0
  {
    var g := seq(9, row requires 0 <= row < 9 =>
      seq(9, col requires 0 <= col < 9 => CellValue(s[col + row * 9])));
    assert forall row, col :: 0 <= row < 9 && 0 <= col < 9 ==> g[row][col] == CellValue(s[col + row * 9]);
    g
  }

  /** The digit string of a grid, row by row. */
  function Encode(g: Grid): (s: seq<CodeUnit>)
    requires IsGrid(g)
    ensures |s| == 81
    ensures forall i :: 0 <= i < 81 ==> IsDigitUnit(s[i])
  {
    seq(81, i requires 0 <= i < 81 => DigitUnit(g[i / 9][i % 9]))
  }

  /** Decoding inverts encoding. */
  lemma {:induction false} DecodeEncode(g: Grid)
    requires IsGrid(g)
    ensures Decode(Encode(g)) == g
  {
    var h := Decode(Encode(g));
    forall row | 0 <= row < 9
      ensures h[row] == g[row]
    {
      forall col | 0 <= col < 9
        ensures h[row][col] == g[row][col]
      {
        var i := col + row * 9;
        assert i / 9 == row && i % 9 == col;
      }
    }
  }

  /** Encoding inverts decoding on strings whose first 81 code units are digits. */
  lemma {:induction false} EncodeDecode(s: seq<CodeUnit>)
    requires |s| >= 81
    requires forall i :: 0 <= i < 81 ==> IsDigitUnit(s[i])
    ensures Encode(Decode(s)) == s[..81]
  {
    var t := Encode(Decode(s));
    forall i | 0 <= i < 81
      ensures t[i] == s[i]
    {
      assert (i % 9) + (i / 9) * 9 == i;
    }
  }

  /** Only the first 81 code units matter. */
  lemma {:induction false} DecodeIgnoresTail(s: seq<CodeUnit>, tail: seq<CodeUnit>)
    requires |s| >= 81
    ensures Decode(s + tail) == Decode(s)
  {
    var a, b := Decode(s + tail), Decode(s);
    forall row | 0 <= row < 9
      ensures a[row] == b[row]
    {
      forall col | 0 <= col < 9
        ensures a[row][col] == b[row][col]
      {
        assert (s + tail)[col + row * 9] == s[col + row * 9];
      }
    }
  }

  /** A character outside the Basic Multilingual Plane takes two code units,
      neither a digit: U+1F600 followed by 79 '1's is 81 units long, its two
      surrogates leave cells (0, 0) and (0, 1) at 0, and the rest read 1. */
  lemma SurrogatePairDecodes()
    ensures var s := [0xD83D as CodeUnit, 0xDE00 as CodeUnit] + seq(79, _ => 0x31 as CodeUnit);
      && |s| == 81
      && Decode(s)[0][0] == 0 && Decode(s)[0][1] == 0 && Decode(s)[0][2] == 1
  {
  }
}
