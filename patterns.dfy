/**
 * Classic patterns, with the program's default symbols '#' (alive) and '.'
 * (dead), worked through the model.
 */
module Patterns {
  import opened GameOfLife
  import FieldFile

  const Default := Symbols('#', '.')

  function Bit(b: bool): nat
  {
    if b then 1 else 0
  }

  lemma {:induction false} CountAppend(a: seq<char>, b: seq<char>, x: char)
    ensures Count(a + b, x) == Count(a, x) + Count(b, x)
    decreases |a|
  {
    if a == [] {
      assert a + b == b;
    } else {
      assert (a + b)[1..] == a[1..] + b;
      CountAppend(a[1..], b, x);
    }
  }

  lemma CountOfFour(s: seq<char>, x: char)
    requires |s| == 4
    ensures Count(s, x) == Bit(s[0] == x) + Bit(s[1] == x) + Bit(s[2] == x) + Bit(s[3] == x)
  {
    assert Count(s[1..], x) == Bit(s[1] == x) + Count(s[2..], x) by { assert s[1..][1..] == s[2..]; }
    assert Count(s[2..], x) == Bit(s[2] == x) + Count(s[3..], x) by { assert s[2..][1..] == s[3..]; }
    assert Count(s[3..], x) == Bit(s[3] == x) by { assert s[3..][1..] == []; }
  }

  lemma CountOfEight(s: seq<char>, x: char)
    requires |s| == 8
    ensures Count(s, x) == Bit(s[0] == x) + Bit(s[1] == x) + Bit(s[2] == x) + Bit(s[3] == x)
                         + Bit(s[4] == x) + Bit(s[5] == x) + Bit(s[6] == x) + Bit(s[7] == x)
  {
    assert s == s[..4] + s[4..];
    CountAppend(s[..4], s[4..], x);
    CountOfFour(s[..4], x);
    CountOfFour(s[4..], x);
  }

  /** The live-neighbour count of (row, col), read off the eight cells around it. */
  function AroundSum(sym: Symbols, f: Field, row: int, col: int): nat
    requires Torus(f)
  {
    Bit(At(f, row - 1, col - 1) == sym.alive) + Bit(At(f, row - 1, col) == sym.alive)
    + Bit(At(f, row - 1, col + 1) == sym.alive) + Bit(At(f, row, col - 1) == sym.alive)
    + Bit(At(f, row, col + 1) == sym.alive) + Bit(At(f, row + 1, col - 1) == sym.alive)
    + Bit(At(f, row + 1, col) == sym.alive) + Bit(At(f, row + 1, col + 1) == sym.alive)
  }

  lemma AliveNeighboursListed(sym: Symbols, f: Field, row: int, col: int)
    requires Torus(f)
    ensures AliveNeighbours(sym, f, row, col) == AroundSum(sym, f, row, col)
  {
    var ns := Neighbours(f, row, col);
    assert ns[0] == At(f, row - 1, col - 1) && ns[1] == At(f, row - 1, col) && ns[2] == At(f, row - 1, col + 1)
        && ns[3] == At(f, row, col - 1) && ns[4] == At(f, row, col + 1) && ns[5] == At(f, row + 1, col - 1)
        && ns[6] == At(f, row + 1, col) && ns[7] == At(f, row + 1, col + 1);
    CountOfEight(ns, sym.alive);
  }

  // ---------------------------------------------------------------------------
  // Checking a concrete generation row by row
  // ---------------------------------------------------------------------------

  predicate SameShape(f: Field, g: Field)
  {
    |g| == |f| && forall row :: 0 <= row < |f| ==> |g[row]| == |f[row]|
  }

  /**
   * From column col on, every cell of row `row` of g is the next state of the
   * same cell of f. On literal fields the verifier evaluates it outright.
   */
  predicate RowMatches(sym: Symbols, f: Field, g: Field, row: nat, col: nat)
    requires Torus(f) && SameShape(f, g) && row < |f|
    decreases |f[row]| - col
  {
    col >= |f[row]| ||
    (NextState(sym, f[row][col], AroundSum(sym, f, row, col)) == g[row][col] && RowMatches(sym, f, g, row, col + 1))
  }

  lemma {:induction false} RowMatchesAt(sym: Symbols, f: Field, g: Field, row: nat, col: nat, c: nat)
    requires Torus(f) && SameShape(f, g) && row < |f| && RowMatches(sym, f, g, row, col)
    requires col <= c < |f[row]|
    ensures NextState(sym, f[row][c], AroundSum(sym, f, row, c)) == g[row][c]
    decreases |f[row]| - col
  {
    if c != col {
      RowMatchesAt(sym, f, g, row, col + 1, c);
    }
  }

  /** A field whose every row passes the check is the next generation. */
  lemma StepByCheck(sym: Symbols, f: Field, g: Field)
    requires Torus(f) && SameShape(f, g)
    requires forall row :: 0 <= row < |f| ==> RowMatches(sym, f, g, row, 0)
    ensures Step(sym, f) == g
  {
    var next := Step(sym, f);
    forall row | 0 <= row < |f| ensures next[row] == g[row] {
      forall col | 0 <= col < |f[row]| ensures next[row][col] == g[row][col] {
        AliveNeighboursListed(sym, f, row, col);
        RowMatchesAt(sym, f, g, row, 0, col);
      }
    }
  }

  // ---------------------------------------------------------------------------
  // The block: a 2 x 2 square of live cells is a still life
  // ---------------------------------------------------------------------------

  const Block: Field := ["....", ".##.", ".##.", "...."]

  lemma BlockRow0()
    ensures RowMatches(Default, Block, Block, 0, 0)
  {
  }

  lemma BlockRow1()
    ensures RowMatches(Default, Block, Block, 1, 0)
  {
  }

  lemma BlockRow2()
    ensures RowMatches(Default, Block, Block, 2, 0)
  {
  }

  lemma BlockRow3()
    ensures RowMatches(Default, Block, Block, 3, 0)
  {
  }

  lemma BlockIsStillLife()
    ensures Step(Default, Block) == Block
  {
    forall row | 0 <= row < |Block| ensures RowMatches(Default, Block, Block, row, 0) {
      if row == 0 { BlockRow0(); } else if row == 1 { BlockRow1(); } else if row == 2 { BlockRow2(); } else { BlockRow3(); }
    }
    StepByCheck(Default, Block, Block);
  }

  // ---------------------------------------------------------------------------
  // The blinker: three cells in a line turn by a quarter and back
  // ---------------------------------------------------------------------------

  const Horizontal: Field := ["....", "###.", "....", "...."]
  const Vertical: Field := [".#..", ".#..", ".#..", "...."]

  lemma HorizontalRow0()
    ensures RowMatches(Default, Horizontal, Vertical, 0, 0)
  {
  }

  lemma HorizontalRow1()
    ensures RowMatches(Default, Horizontal, Vertical, 1, 0)
  {
  }

  lemma HorizontalRow2()
    ensures RowMatches(Default, Horizontal, Vertical, 2, 0)
  {
  }

  lemma HorizontalRow3()
    ensures RowMatches(Default, Horizontal, Vertical, 3, 0)
  {
  }

  lemma HorizontalBecomesVertical()
    ensures Step(Default, Horizontal) == Vertical
  {
    forall row | 0 <= row < |Horizontal| ensures RowMatches(Default, Horizontal, Vertical, row, 0) {
      if row == 0 { HorizontalRow0(); } else if row == 1 { HorizontalRow1(); } else if row == 2 { HorizontalRow2(); } else { HorizontalRow3(); }
    }
    StepByCheck(Default, Horizontal, Vertical);
  }

  lemma VerticalRow0()
    ensures RowMatches(Default, Vertical, Horizontal, 0, 0)
  {
  }

  lemma VerticalRow1()
    ensures RowMatches(Default, Vertical, Horizontal, 1, 0)
  {
  }

  lemma VerticalRow2()
    ensures RowMatches(Default, Vertical, Horizontal, 2, 0)
  {
  }

  lemma VerticalRow3()
    ensures RowMatches(Default, Vertical, Horizontal, 3, 0)
  {
  }

  lemma VerticalBecomesHorizontal()
    ensures Step(Default, Vertical) == Horizontal
  {
    forall row | 0 <= row < |Vertical| ensures RowMatches(Default, Vertical, Horizontal, row, 0) {
      if row == 0 { VerticalRow0(); } else if row == 1 { VerticalRow1(); } else if row == 2 { VerticalRow2(); } else { VerticalRow3(); }
    }
    StepByCheck(Default, Vertical, Horizontal);
  }

  /** The blinker has period exactly two. */
  lemma BlinkerHasPeriodTwo()
    ensures Step(Default, Horizontal) != Horizontal
    ensures Step(Default, Step(Default, Horizontal)) == Horizontal
  {
    HorizontalBecomesVertical();
    VerticalBecomesHorizontal();
    assert Horizontal[0][1] != Vertical[0][1];
  }

  // ---------------------------------------------------------------------------
  // Wrap-around: the opposite corner is a neighbour of the corner
  // ---------------------------------------------------------------------------

  const Corner: Field := ["...", "...", "..#"]

  /** The only live cell is at the far corner, and it is counted by the cell at (0, 0). */
  lemma CornerSeesOppositeCorner()
    ensures AliveNeighbours(Default, Corner, 0, 0) == 1
  {
    AliveNeighboursListed(Default, Corner, 0, 0);
    assert At(Corner, -1, -1) == '#';
  }

  // ---------------------------------------------------------------------------
  // Reading rows of a field file
  // ---------------------------------------------------------------------------

  /** A line of two cells ending in a line break becomes the row of those two cells. */
  lemma PlainRowOfAFile(a: char, b: char)
    requires !FieldFile.IsWhitespace(a) && !FieldFile.IsWhitespace(b)
    ensures FieldFile.NormaliseRow([a, b, '\n']) == [a, b]
  {
    var line := [a, b, '\n'];
    assert FieldFile.StripLeading(line) == line;
    assert line[..2] == [a, b];
    assert FieldFile.StripTrailing(line) == [a, b] by {
      assert FieldFile.StripTrailing([a, b]) == [a, b];
    }
    assert FieldFile.RemoveSpaces([a, b]) == [a, b] by {
      assert a != ' ' && b != ' ';
    }
  }

  lemma SpacedLineStrips(a: char, b: char)
    requires !FieldFile.IsWhitespace(a) && !FieldFile.IsWhitespace(b)
    ensures FieldFile.Strip([' ', a, ' ', b, '\n']) == [a, ' ', b]
  {
    var line := [' ', a, ' ', b, '\n'];
    var rest := [a, ' ', b, '\n'];
    assert line[1..] == rest;
    assert FieldFile.StripLeading(rest) == rest;
    assert rest[..3] == [a, ' ', b];
    assert FieldFile.StripTrailing([a, ' ', b]) == [a, ' ', b];
  }

  lemma SpacedCellsJoin(a: char, b: char)
    requires a != ' ' && b != ' '
    ensures FieldFile.RemoveSpaces([a, ' ', b]) == [a, b]
  {
    assert [a, ' ', b][1..] == [' ', b];
    assert [' ', b][1..] == [b];
    assert [b][1..] == [];
  }

  /** Spaces between and around the cells of a line are dropped. */
  lemma SpacedRowOfAFile(a: char, b: char)
    requires !FieldFile.IsWhitespace(a) && !FieldFile.IsWhitespace(b)
    ensures FieldFile.NormaliseRow([' ', a, ' ', b, '\n']) == [a, b]
  {
    SpacedLineStrips(a, b);
    SpacedCellsJoin(a, b);
  }
}
