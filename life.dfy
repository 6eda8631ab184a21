/**
 * The transition engine of a Game of Life on a toroidal grid.
 *
 * A field is a list of rows of display characters. A cell is alive when it is
 * the alive symbol and dead when it is the dead symbol; any other character is
 * neither, is never counted as a live neighbour and is carried over unchanged.
 */
module GameOfLife {

  type Field = seq<seq<char>>

  /** The two display symbols chosen on the command line. */
  datatype Symbols = Symbols(alive: char, dead: char)

  // ---------------------------------------------------------------------------
  // The neighbour offsets
  // ---------------------------------------------------------------------------

  /** The values each component of an offset ranges over, in source order. */
  const Deltas: seq<int> := [-1, 0, 1]

  /** The pairs (i, j) for one i and every j of js, in the order of js, skipping (0, 0). */
  function OffsetsFor(i: int, js: seq<int>): (r: seq<(int, int)>)
    ensures |r| <= |js|
    ensures (0, 0) !in r
  {
    if js == [] then []
    else (if i == 0 && js[0] == 0 then [] else [(i, js[0])]) + OffsetsFor(i, js[1..])
  }

  /** The pairs (i, j) with i from rs and j from js, grouped by i in the order of rs, without (0, 0). */
  function Offsets(rs: seq<int>, js: seq<int>): (r: seq<(int, int)>)
    ensures (0, 0) !in r
  {
    if rs == [] then [] else OffsetsFor(rs[0], js) + Offsets(rs[1..], js)
  }

  /**
   * The eight relative (row, column) positions of a cell's neighbours, written
   * out; AdjacencyIsComprehension shows it is the value the comprehension builds.
   */
  const Adjacency: seq<(int, int)> := [(-1, -1), (-1, 0), (-1, 1), (0, -1), (0, 1), (1, -1), (1, 0), (1, 1)]

  predicate Distinct<T(==)>(s: seq<T>)
  {
    forall i, j :: 0 <= i < j < |s| ==> s[i] != s[j]
  }

  lemma {:induction false} OffsetsForMembership(i: int, js: seq<int>, p: (int, int))
    ensures p in OffsetsFor(i, js) <==> p.0 == i && p.1 in js && !(p.0 == 0 && p.1 == 0)
    decreases |js|
  {
    if js != [] {
      OffsetsForMembership(i, js[1..], p);
      assert js == [js[0]] + js[1..];
    }
  }

  /** An offset is produced exactly when both components come from the lists and it is not (0, 0). */
  lemma {:induction false} OffsetsMembership(rs: seq<int>, js: seq<int>, p: (int, int))
    ensures p in Offsets(rs, js) <==> p.0 in rs && p.1 in js && !(p.0 == 0 && p.1 == 0)
    decreases |rs|
  {
    if rs != [] {
      OffsetsForMembership(rs[0], js, p);
      OffsetsMembership(rs[1..], js, p);
      assert rs == [rs[0]] + rs[1..];
    }
  }

  lemma {:induction false} OffsetsForDistinct(i: int, js: seq<int>)
    requires Distinct(js)
    ensures Distinct(OffsetsFor(i, js))
    decreases |js|
  {
    if js != [] {
      OffsetsForDistinct(i, js[1..]);
      var head: seq<(int, int)> := if i == 0 && js[0] == 0 then [] else [(i, js[0])];
      var tail := OffsetsFor(i, js[1..]);
      forall p | p in tail ensures p.1 != js[0] {
        OffsetsForMembership(i, js[1..], p);
      }
      assert OffsetsFor(i, js) == head + tail;
    }
  }

  /** Distinct component lists give an offset list without repetitions. */
  lemma {:induction false} OffsetsDistinct(rs: seq<int>, js: seq<int>)
    requires Distinct(rs) && Distinct(js)
    ensures Distinct(Offsets(rs, js))
    decreases |rs|
  {
    if rs != [] {
      OffsetsForDistinct(rs[0], js);
      OffsetsDistinct(rs[1..], js);
      var head := OffsetsFor(rs[0], js);
      var tail := Offsets(rs[1..], js);
      forall p | p in head ensures p !in tail {
        OffsetsForMembership(rs[0], js, p);
        OffsetsMembership(rs[1..], js, p);
      }
      var s := head + tail;
      forall a, b | 0 <= a < b < |s| ensures s[a] != s[b] {
        if a < |head| && |head| <= b {
          assert s[a] in head && s[b] in tail;
        }
      }
    }
  }

  /** The comprehension over Deltas produces exactly Adjacency, in this order. */
  lemma AdjacencyIsComprehension()
    ensures Offsets(Deltas, Deltas) == Adjacency
  {
    OffsetsAbove();
    OffsetsLevel();
    OffsetsBelow();
    assert Deltas[1..] == [0, 1] && Deltas[2..] == [1] && Deltas[3..] == [];
  }

  lemma OffsetsAbove()
    ensures OffsetsFor(-1, Deltas) == [(-1, -1), (-1, 0), (-1, 1)]
  {
    assert Deltas[1..] == [0, 1] && Deltas[2..] == [1] && Deltas[3..] == [];
  }

  lemma OffsetsLevel()
    ensures OffsetsFor(0, Deltas) == [(0, -1), (0, 1)]
  {
    assert Deltas[1..] == [0, 1] && Deltas[2..] == [1] && Deltas[3..] == [];
  }

  lemma OffsetsBelow()
    ensures OffsetsFor(1, Deltas) == [(1, -1), (1, 0), (1, 1)]
  {
    assert Deltas[1..] == [0, 1] && Deltas[2..] == [1] && Deltas[3..] == [];
  }

  /**
   * Exactly eight distinct offsets, each component in {-1, 0, 1}, and every
   * such pair but (0, 0) among them.
   */
  lemma AdjacencyIsMooreNeighbourhood()
    ensures |Adjacency| == 8 && Distinct(Adjacency)
    ensures (0, 0) !in Adjacency
    ensures forall k :: 0 <= k < |Adjacency| ==> -1 <= Adjacency[k].0 <= 1 && -1 <= Adjacency[k].1 <= 1
    ensures forall dy, dx :: -1 <= dy <= 1 && -1 <= dx <= 1 && (dy, dx) != (0, 0) ==> (dy, dx) in Adjacency
  {
    assert Distinct(Adjacency) by {
      AdjacencyIsComprehension();
      OffsetsDistinct(Deltas, Deltas);
    }
  }

  // ---------------------------------------------------------------------------
  // Fields and wrapped indexing
  // ---------------------------------------------------------------------------

  /**
   * A field on which neighbours can be looked up: at least one row, a first row
   * that is not empty, and no row shorter than the first. The first row's length
   * is the width that column indices are wrapped by.
   */
  predicate Torus(f: Field)
  {
    |f| > 0 && |f[0]| > 0 && forall i :: 0 <= i < |f| ==> |f[i]| >= |f[0]|
  }

  /**
   * A field that one generation can be computed for: either every row is empty
   * (the empty field included), or it is a torus; otherwise some neighbour
   * lookup would index past a short row or wrap by a width of zero.
   */
  predicate Steppable(f: Field)
  {
    forall i :: 0 <= i < |f| ==> |f[i]| >= |f[0]| && (|f[0]| == 0 ==> |f[i]| == 0)
  }

  /**
   * Python's "i % n" for a positive n: always a position in 0 .. n-1; an
   * index in range is kept, and one step past either edge comes back in at
   * the opposite edge.
   */
  function Wrap(i: int, n: int): (r: int)
    requires n > 0
    ensures 0 <= r < n
    ensures 0 <= i < n ==> r == i
    ensures i == -1 ==> r == n - 1
    ensures i == n ==> r == 0
  {
    i % n
  }

  /** The cell at (row, col) on the torus, for any integers row and col; inside the field, the cell itself. */
  function At(f: Field, row: int, col: int): (c: char)
    requires Torus(f)
    ensures 0 <= row < |f| && 0 <= col < |f[0]| ==> c == f[row][col]
  {
    f[Wrap(row, |f|)][Wrap(col, |f[0]|)]
  }

  /** One step past an edge of the torus is the cell at the opposite edge. */
  lemma AtOppositeEdge(f: Field, row: int, col: int)
    requires Torus(f) && 0 <= row < |f| && 0 <= col < |f[0]|
    ensures At(f, -1, col) == f[|f| - 1][col] && At(f, |f|, col) == f[0][col]
    ensures At(f, row, -1) == f[row][|f[0]| - 1] && At(f, row, |f[0]|) == f[row][0]
  {
  }

  /** The cells at offsets ds of (row, col), one per offset, in the order of ds. */
  function CellsAt(f: Field, row: int, col: int, ds: seq<(int, int)>): (cs: seq<char>)
    requires Torus(f)
    ensures |cs| == |ds|
  {
    seq(|ds|, k requires 0 <= k < |ds| => At(f, row + ds[k].0, col + ds[k].1))
  }

  /** The eight neighbouring cells of (row, col), in the order of Adjacency. */
  function Neighbours(f: Field, row: int, col: int): (ns: seq<char>)
    requires Torus(f)
    ensures |ns| == |Adjacency|
  {
    CellsAt(f, row, col, Adjacency)
  }

  /** The number of occurrences of x in s (Python's list.count). */
  function Count(s: seq<char>, x: char): (n: nat)
    ensures n <= |s|
    ensures n == 0 <==> x !in s
  {
    if s == [] then 0 else (if s[0] == x then 1 else 0) + Count(s[1..], x)
  }

  /** The count is the number of times x occurs in s, as a multiset sees it. */
  lemma {:induction false} CountIsMultiplicity(s: seq<char>, x: char)
    ensures Count(s, x) == multiset(s)[x]
    decreases |s|
  {
    if s != [] {
      assert s == [s[0]] + s[1..];
      CountIsMultiplicity(s[1..], x);
    }
  }

  /** How many neighbours of (row, col) are alive. */
  function AliveNeighbours(sym: Symbols, f: Field, row: int, col: int): (n: nat)
    requires Torus(f)
    ensures n <= 8
  {
    Count(Neighbours(f, row, col), sym.alive)
  }

  /** The neighbour at offset d of (row, col) holds the alive symbol. */
  predicate LiveAt(sym: Symbols, f: Field, row: int, col: int, d: (int, int))
    requires Torus(f)
  {
    At(f, row + d.0, col + d.1) == sym.alive
  }

  /** The eight offsets around a cell: both components in -1 .. 1, not both zero. */
  const Moore: set<(int, int)> := set dy, dx | -1 <= dy <= 1 && -1 <= dx <= 1 && (dy, dx) != (0, 0) :: (dy, dx)

  lemma MooreMembership(d: (int, int))
    ensures d in Moore <==> -1 <= d.0 <= 1 && -1 <= d.1 <= 1 && d != (0, 0)
  {
    if -1 <= d.0 <= 1 && -1 <= d.1 <= 1 && d != (0, 0) {
      assert (d.0, d.1) in Moore;
    }
  }

  /** The offsets of the Moore neighbourhood at which a live cell sits. */
  function LiveOffsets(sym: Symbols, f: Field, row: int, col: int): set<(int, int)>
    requires Torus(f)
  {
    set d | d in Moore && LiveAt(sym, f, row, col, d)
  }

  /**
   * When each cell of a list carries a distinct label, counting the cells that
   * hold x counts the labels marked for x.
   */
  lemma DistinctTail<T>(ds: seq<T>)
    requires ds != [] && Distinct(ds)
    ensures Distinct(ds[1..])
  {
    var rest := ds[1..];
    forall i, j | 0 <= i < j < |rest| ensures rest[i] != rest[j] {
      assert rest[i] == ds[i + 1] && rest[j] == ds[j + 1];
    }
  }

  /** Dropping the first cell and its label keeps the labelling of the others. */
  lemma LabelsOfTail<T>(cells: seq<char>, x: char, ds: seq<T>, marked: set<T>)
    requires ds != [] && |cells| == |ds| && Distinct(ds)
    requires forall d :: d in marked ==> d in ds
    requires forall k :: 0 <= k < |ds| ==> (cells[k] == x <==> ds[k] in marked)
    ensures forall d :: d in marked - {ds[0]} ==> d in ds[1..]
    ensures forall k :: 0 <= k < |ds| - 1 ==> (cells[1..][k] == x <==> ds[1..][k] in marked - {ds[0]})
  {
    var rest, others := ds[1..], marked - {ds[0]};
    forall d | d in others ensures d in rest {
      var j :| 0 <= j < |ds| && ds[j] == d;
      assert j > 0 && rest[j - 1] == d;
    }
    forall k | 0 <= k < |rest| ensures (cells[1..][k] == x <==> rest[k] in others) {
      assert cells[1..][k] == cells[k + 1] && rest[k] == ds[k + 1];
      assert ds[k + 1] != ds[0];
    }
  }

  /**
   * When each cell of a list carries a distinct label, counting the cells that
   * hold x counts the labels marked for x.
   */
  lemma {:induction false} CountByLabels<T>(cells: seq<char>, x: char, ds: seq<T>, marked: set<T>)
    requires |cells| == |ds| && Distinct(ds)
    requires forall d :: d in marked ==> d in ds
    requires forall k :: 0 <= k < |ds| ==> (cells[k] == x <==> ds[k] in marked)
    ensures Count(cells, x) == |marked|
    decreases |ds|
  {
    if ds == [] {
      assert marked == {};
    } else {
      var others := marked - {ds[0]};
      DistinctTail(ds);
      LabelsOfTail(cells, x, ds, marked);
      CountByLabels(cells[1..], x, ds[1..], others);
      if ds[0] in marked {
        assert marked == others + {ds[0]};
      } else {
        assert marked == others;
      }
    }
  }

  /** Neighbour k holds a live cell exactly when offset Adjacency[k] is a live offset. */
  lemma NeighboursLabelledByOffsets(sym: Symbols, f: Field, row: int, col: int)
    requires Torus(f)
    ensures forall d :: d in LiveOffsets(sym, f, row, col) ==> d in Adjacency
    ensures forall k :: 0 <= k < |Adjacency| ==>
              (Neighbours(f, row, col)[k] == sym.alive <==> Adjacency[k] in LiveOffsets(sym, f, row, col))
  {
    var live := LiveOffsets(sym, f, row, col);
    forall d | d in live ensures d in Adjacency {
      MooreMembership(d);
    }
    forall k | 0 <= k < |Adjacency|
      ensures (Neighbours(f, row, col)[k] == sym.alive <==> Adjacency[k] in live)
    {
      MooreMembership(Adjacency[k]);
    }
  }

  /**
   * The neighbour count is the number of live cells among the eight
   * positions (row + dy, col + dx), dy and dx in {-1, 0, 1} and not both 0,
   * taken modulo the field's height and width.
   */
  lemma AliveNeighboursCountsLiveOffsets(sym: Symbols, f: Field, row: int, col: int)
    requires Torus(f)
    ensures AliveNeighbours(sym, f, row, col) == |LiveOffsets(sym, f, row, col)|
  {
    NeighboursLabelledByOffsets(sym, f, row, col);
    var live := LiveOffsets(sym, f, row, col);
    var ns := Neighbours(f, row, col);
    AdjacencyIsMooreNeighbourhood();
    CountByLabels(ns, sym.alive, Adjacency, live);
  }

  // ---------------------------------------------------------------------------
  // The rule and one generation
  // ---------------------------------------------------------------------------

  /** The next state of one cell given its live-neighbour count. */
  function NextState(sym: Symbols, cell: char, n: int): (r: char)
    ensures r == sym.alive || r == sym.dead || r == cell
    ensures cell == sym.alive && (n < 2 || n > 3) ==> r == sym.dead
    ensures cell == sym.dead && n == 3 ==> r == sym.alive
    ensures cell == sym.alive && 2 <= n <= 3 ==> r == cell
    ensures cell == sym.dead && n != 3 ==> r == cell
    ensures cell != sym.alive && cell != sym.dead ==> r == cell
  {
    if cell == sym.alive && (n < 2 || n > 3) then sym.dead
    else if cell == sym.dead && n == 3 then sym.alive
    else cell
  }

  /** One generation: every cell's next state, from neighbours of the given field only. */
  function Step(sym: Symbols, f: Field): (g: Field)
    requires Steppable(f)
    ensures |g| == |f| && Steppable(g)
    ensures forall row :: 0 <= row < |f| ==> |g[row]| == |f[row]|
    ensures forall row, col :: 0 <= row < |f| && 0 <= col < |f[row]| ==>
              g[row][col] == NextState(sym, f[row][col], AliveNeighbours(sym, f, row, col))
  {
    seq(|f|, row requires 0 <= row < |f| =>
      seq(|f[row]|, col requires 0 <= col < |f[row]| =>
        NextState(sym, f[row][col], AliveNeighbours(sym, f, row, col))))
  }

  // ---------------------------------------------------------------------------
  // The standard rule stated on cell states, and what Step does in its terms
  // ---------------------------------------------------------------------------

  datatype State = Alive | Dead | Neither

  function Classify(sym: Symbols, c: char): State
  {
    if c == sym.alive then Alive else if c == sym.dead then Dead else Neither
  }

  /** Conway's rule B3/S23: birth on three neighbours, survival on two or three. */
  function Conway(s: State, n: nat): State
  {
    match s
    case Alive => if n == 2 || n == 3 then Alive else Dead
    case Dead => if n == 3 then Alive else Dead
    case Neither => Neither
  }

  /** With distinct symbols, NextState is Conway's rule on the symbols' meaning. */
  lemma NextStateIsConway(sym: Symbols, cell: char, n: nat)
    requires sym.alive != sym.dead
    ensures Classify(sym, NextState(sym, cell, n)) == Conway(Classify(sym, cell), n)
    ensures Classify(sym, cell) == Neither ==> NextState(sym, cell, n) == cell
    ensures NextState(sym, cell, n) == sym.alive <==>
              (cell == sym.alive && (n == 2 || n == 3)) || (cell == sym.dead && n == 3)
  {
  }

  /**
   * Each cell of the next generation is Conway's rule applied to the cell and
   * to the number of live cells among its eight toroidal neighbours in the
   * previous generation.
   */
  lemma StepIsConway(sym: Symbols, f: Field, row: int, col: int)
    requires sym.alive != sym.dead && Steppable(f)
    requires 0 <= row < |f| && 0 <= col < |f[row]|
    ensures Torus(f)
    ensures Classify(sym, Step(sym, f)[row][col]) == Conway(Classify(sym, f[row][col]), |LiveOffsets(sym, f, row, col)|)
  {
    AliveNeighboursCountsLiveOffsets(sym, f, row, col);
    NextStateIsConway(sym, f[row][col], AliveNeighbours(sym, f, row, col));
  }

  /** A character that is neither symbol survives every generation unchanged. */
  lemma StepKeepsForeignCells(sym: Symbols, f: Field, row: int, col: int)
    requires Steppable(f) && 0 <= row < |f| && 0 <= col < |f[row]|
    requires f[row][col] != sym.alive && f[row][col] != sym.dead
    ensures Step(sym, f)[row][col] == f[row][col]
  {
  }

  predicate AllDead(sym: Symbols, f: Field)
  {
    forall row, col :: 0 <= row < |f| && 0 <= col < |f[row]| ==> f[row][col] == sym.dead
  }

  lemma NoLiveNeighbours(sym: Symbols, f: Field, row: int, col: int)
    requires Torus(f) && AllDead(sym, f) && sym.alive != sym.dead
    ensures AliveNeighbours(sym, f, row, col) == 0
  {
    var ns := Neighbours(f, row, col);
    forall k | 0 <= k < |ns| ensures ns[k] != sym.alive {
      var r, c := Wrap(row + Adjacency[k].0, |f|), Wrap(col + Adjacency[k].1, |f[0]|);
      assert ns[k] == f[r][c];
    }
  }

  /** A field holding only dead cells is a fixpoint of Step. */
  lemma AllDeadIsFixpoint(sym: Symbols, f: Field)
    requires Steppable(f) && AllDead(sym, f)
    ensures Step(sym, f) == f
  {
    var g := Step(sym, f);
    forall row | 0 <= row < |f| ensures g[row] == f[row] {
      forall col | 0 <= col < |f[row]| ensures g[row][col] == f[row][col] {
        if sym.alive != sym.dead {
          NoLiveNeighbours(sym, f, row, col);
        }
      }
    }
  }

  /**
   * The next state of (row, col) depends only on the cell and its eight
   * neighbours in the previous field: two fields of the same shape that agree
   * there give the same next state, whatever the rest of the grid holds.
   */
  lemma StepIsLocal(sym: Symbols, f: Field, h: Field, row: int, col: int)
    requires Torus(f) && Torus(h) && |f| == |h| && |f[0]| == |h[0]|
    requires 0 <= row < |f| && 0 <= col < |f[row]| && col < |h[row]|
    requires f[row][col] == h[row][col]
    requires forall k :: 0 <= k < |Adjacency| ==>
               At(f, row + Adjacency[k].0, col + Adjacency[k].1) == At(h, row + Adjacency[k].0, col + Adjacency[k].1)
    ensures Step(sym, f)[row][col] == Step(sym, h)[row][col]
  {
    assert Neighbours(f, row, col) == Neighbours(h, row, col);
  }

  // ---------------------------------------------------------------------------
  // The torus has no edges: shifting the field commutes with Step
  // ---------------------------------------------------------------------------

  /** The field seen from (dy, dx): cell (row, col) of the result is At(f, row + dy, col + dx). */
  function Shift(f: Field, dy: int, dx: int): (g: Field)
    requires Torus(f)
    ensures Torus(g) && |g| == |f| && |g[0]| == |f[0]|
  {
    seq(|f|, row requires 0 <= row < |f| => seq(|f[0]|, col requires 0 <= col < |f[0]| => At(f, row + dy, col + dx)))
  }

  lemma MulAtLeast(t: int, n: int)
    requires n > 0 && t >= 1
    ensures t * n >= n
  {
  }

  /** Two ways of writing a number as a multiple of n plus a remainder in 0 .. n-1 agree on the remainder. */
  lemma RemainderUnique(q1: int, r1: int, q2: int, r2: int, n: int)
    requires n > 0 && 0 <= r1 < n && 0 <= r2 < n && q1 * n + r1 == q2 * n + r2
    ensures r1 == r2
  {
    var t := q1 - q2;
    assert t * n == r2 - r1;
    if t >= 1 {
      MulAtLeast(t, n);
    } else if t <= -1 {
      MulAtLeast(-t, n);
    }
  }

  /** Wrapping before adding an offset lands on the same position as wrapping after. */
  lemma WrapAdd(i: int, d: int, n: int)
    requires n > 0
    ensures Wrap(Wrap(i, n) + d, n) == Wrap(i + d, n)
  {
    var m := i % n + d;
    var q := i / n + m / n;
    assert q * n == (i / n) * n + (m / n) * n;
    RemainderUnique(q, m % n, (i + d) / n, (i + d) % n, n);
  }

  lemma AtShift(f: Field, dy: int, dx: int, row: int, col: int)
    requires Torus(f)
    ensures At(Shift(f, dy, dx), row, col) == At(f, row + dy, col + dx)
  {
    var r, c := Wrap(row, |f|), Wrap(col, |f[0]|);
    assert At(Shift(f, dy, dx), row, col) == At(f, r + dy, c + dx);
    WrapAdd(row, dy, |f|);
    WrapAdd(col, dx, |f[0]|);
  }

  /** A shifted field shows every cell the neighbours it had at its original position. */
  lemma NeighboursShift(f: Field, dy: int, dx: int, row: int, col: int)
    requires Torus(f)
    ensures Neighbours(Shift(f, dy, dx), row, col) == Neighbours(f, Wrap(row + dy, |f|), Wrap(col + dx, |f[0]|))
  {
    var g := Shift(f, dy, dx);
    var r, c := Wrap(row + dy, |f|), Wrap(col + dx, |f[0]|);
    forall k | 0 <= k < |Adjacency|
      ensures Neighbours(g, row, col)[k] == Neighbours(f, r, c)[k]
    {
      var a, b := Adjacency[k].0, Adjacency[k].1;
      AtShift(f, dy, dx, row + a, col + b);
      WrapAdd(row + dy, a, |f|);
      WrapAdd(col + dx, b, |f[0]|);
      assert row + a + dy == row + dy + a && col + b + dx == col + dx + b;
    }
  }

  lemma ShiftCell(g: Field, dy: int, dx: int, row: int, col: int)
    requires Torus(g) && 0 <= row < |g| && 0 <= col < |g[0]|
    ensures Shift(g, dy, dx)[row][col] == g[Wrap(row + dy, |g|)][Wrap(col + dx, |g[0]|)]
  {
    assert Shift(g, dy, dx)[row][col] == At(g, row + dy, col + dx);
  }

  /** A cell of the shifted field steps as the cell it came from. */
  lemma StepOfShiftAt(sym: Symbols, f: Field, dy: int, dx: int, row: int, col: int)
    requires Torus(f) && 0 <= row < |f| && 0 <= col < |f[0]|
    ensures var r, c := Wrap(row + dy, |f|), Wrap(col + dx, |f[0]|);
      Step(sym, Shift(f, dy, dx))[row][col] == NextState(sym, f[r][c], AliveNeighbours(sym, f, r, c))
  {
    var g := Shift(f, dy, dx);
    assert g[row][col] == At(f, row + dy, col + dx);
    NeighboursShift(f, dy, dx, row, col);
  }

  /** A cell of the shifted next generation is the next state of the cell it came from. */
  lemma ShiftOfStepAt(sym: Symbols, f: Field, dy: int, dx: int, row: int, col: int)
    requires Torus(f) && 0 <= row < |f| && 0 <= col < |f[0]|
    ensures var r, c := Wrap(row + dy, |f|), Wrap(col + dx, |f[0]|);
      Shift(Step(sym, f), dy, dx)[row][col] == NextState(sym, f[r][c], AliveNeighbours(sym, f, r, c))
  {
    var next := Step(sym, f);
    ShiftCell(next, dy, dx, row, col);
    var r, c := Wrap(row + dy, |f|), Wrap(col + dx, |f[0]|);
    assert c < |f[r]|;
  }

  /** Stepping a shifted field gives the shifted next generation. */
  lemma StepCommutesWithShift(sym: Symbols, f: Field, dy: int, dx: int)
    requires Torus(f)
    ensures Step(sym, Shift(f, dy, dx)) == Shift(Step(sym, f), dy, dx)
  {
    var lhs, rhs := Step(sym, Shift(f, dy, dx)), Shift(Step(sym, f), dy, dx);
    forall row | 0 <= row < |f| ensures lhs[row] == rhs[row] {
      forall col | 0 <= col < |f[0]| ensures lhs[row][col] == rhs[row][col] {
        StepOfShiftAt(sym, f, dy, dx, row, col);
        ShiftOfStepAt(sym, f, dy, dx, row, col);
      }
    }
  }
}
