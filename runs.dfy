/**
 What findMatches looks for: maximal runs of equal cells along a line (a row
 read left to right, or a column read top to bottom), and the set of
 coordinates that lie in a run of three or more.
 */
module Runs {
  import opened Board

  /** First index of the maximal run of cells equal to line[k] that contains k. */
  function RunStart(line: seq<Cell>, k: int): (s: int)
    requires 0 <= k < |line|
    ensures 0 <= s <= k
    decreases k
  {
    if k > 0 && line[k - 1] == line[k] then RunStart(line, k - 1) else k
  }

  /** One past the last index of the maximal run of cells equal to line[k]
      that contains k. */
  function RunEnd(line: seq<Cell>, k: int): (e: int)
    requires 0 <= k < |line|
    ensures k < e <= |line|
    decreases |line| - k
  {
    if k + 1 < |line| && line[k + 1] == line[k] then RunEnd(line, k + 1) else k + 1
  }

  /** RunStart(line, k) .. RunEnd(line, k) is a maximal run: all its cells
      equal line[k], and the cells just outside it differ from line[k]. */
  lemma {:induction false} RunBounds(line: seq<Cell>, k: int)
    requires 0 <= k < |line|
    ensures MaximalRun(line, RunStart(line, k), RunEnd(line, k))
    ensures line[RunStart(line, k)] == line[k]
    decreases |line| - k
  {
    StartBound(line, k);
    EndBound(line, k);
  }

  lemma {:induction false} StartBound(line: seq<Cell>, k: int)
    requires 0 <= k < |line|
    ensures forall i :: RunStart(line, k) <= i <= k ==> line[i] == line[k]
    ensures RunStart(line, k) == 0 || line[RunStart(line, k) - 1] != line[k]
    decreases k
  {
    if k > 0 && line[k - 1] == line[k] {
      StartBound(line, k - 1);
    }
  }

  lemma {:induction false} EndBound(line: seq<Cell>, k: int)
    requires 0 <= k < |line|
    ensures forall i :: k <= i < RunEnd(line, k) ==> line[i] == line[k]
    ensures RunEnd(line, k) == |line| || line[RunEnd(line, k)] != line[k]
    decreases |line| - k
  {
    if k + 1 < |line| && line[k + 1] == line[k] {
      EndBound(line, k + 1);
    }
  }

  /** k lies in a maximal run of length at least 3. */
  predicate InRun(line: seq<Cell>, k: int)
    requires 0 <= k < |line|
  {
    RunEnd(line, k) - RunStart(line, k) >= 3
  }

  /** The segment [s, e) of the line is a maximal run: its cells are equal and
      the cells just outside it (if any) differ from them. */
  predicate MaximalRun(line: seq<Cell>, s: int, e: int)
  {
    0 <= s < e <= |line| &&
    (forall i :: s <= i < e ==> line[i] == line[s]) &&
    (s == 0 || line[s - 1] != line[s]) &&
    (e == |line| || line[e] != line[s])
  }

  /** A maximal run is the run of each of its cells. */
  lemma RunOf(line: seq<Cell>, s: int, e: int, k: int)
    requires MaximalRun(line, s, e) && s <= k < e
    ensures RunStart(line, k) == s && RunEnd(line, k) == e
    ensures InRun(line, k) <==> e - s >= 3
  {
    RunBounds(line, k);
  }

  /** Three consecutive equal cells start at index j. */
  predicate Triple(line: seq<Cell>, j: int)
  {
    0 <= j && j + 2 < |line| && line[j] == line[j + 1] && line[j + 1] == line[j + 2]
  }

  /** Reference characterisation: k lies in a maximal run of length >= 3
      exactly when some three consecutive equal cells cover k. */
  lemma InRunIffCovered(line: seq<Cell>, k: int)
    requires 0 <= k < |line|
    ensures InRun(line, k) <==> Triple(line, k - 2) || Triple(line, k - 1) || Triple(line, k)
  {
    var s, e := RunStart(line, k), RunEnd(line, k);
    RunBounds(line, k);
    if e - s >= 3 {
      var j := if k + 2 < e then k else if k + 1 < e then k - 1 else k - 2;
      assert s <= j && j + 2 < e;
      assert Triple(line, j);
    }
    forall j | Triple(line, j) && j <= k <= j + 2
      ensures e - s >= 3
    {
    }
  }

  /** A run of two equal cells between two different ones contributes nothing. */
  lemma PairIsNotARun(line: seq<Cell>, s: int, k: int)
    requires MaximalRun(line, s, s + 2) && s <= k < s + 2
    ensures !InRun(line, k)
  {
    RunOf(line, s, s + 2, k);
  }

  /** The cell at (p.r, p.c) is in a run of 3 or more within its row. */
  predicate RowRun(g: Grid, p: Coord)
    requires IsGrid(g) && InBounds(p)
  {
    InRun(g[p.r], p.c)
  }

  /** The cell at (p.r, p.c) is in a run of 3 or more within its column. */
  predicate ColumnRun(g: Grid, p: Coord)
    requires IsGrid(g) && InBounds(p)
  {
    InRun(Column(g, p.c), p.r)
  }

  /** The coordinates findMatches reports. */
  function Matched(g: Grid): (m: set<Coord>)
    requires IsGrid(g)
    ensures forall p :: p in m <==> InBounds(p) && (RowRun(g, p) || ColumnRun(g, p))
  {
    set r, c | 0 <= r < SIZE && 0 <= c < SIZE && (RowRun(g, Coord(r, c)) || ColumnRun(g, Coord(r, c))) :: Coord(r, c)
  }

  /** No three consecutive equal cells in any row or column. */
  predicate NoThreeInARow(g: Grid)
    requires IsGrid(g)
  {
    forall i, j :: 0 <= i < SIZE && 0 <= j < SIZE ==> !Triple(g[i], j) && !Triple(Column(g, i), j)
  }

  /** findMatches finds nothing exactly on a board without three in a row. */
  lemma NoMatchIffNoThree(g: Grid)
    requires IsGrid(g)
    ensures Matched(g) == {} <==> NoThreeInARow(g)
  {
    if Matched(g) == {} {
      forall i, j | 0 <= i < SIZE && 0 <= j < SIZE
        ensures !Triple(g[i], j) && !Triple(Column(g, i), j)
      {
        assert Coord(i, j) !in Matched(g) && Coord(j, i) !in Matched(g);
        InRunIffCovered(g[i], j);
        InRunIffCovered(Column(g, i), j);
      }
    } else {
      var p :| p in Matched(g);
      InRunIffCovered(g[p.r], p.c);
      InRunIffCovered(Column(g, p.c), p.r);
    }
  }

  /** Worked example: in a row A A B B B C ... only the three B's match. */
  lemma ExampleRow(a: Cell, b: Cell, c: Cell, rest: seq<Cell>, k: int)
    requires a != b && b != c && (rest != [] ==> rest[0] != c)
    requires 0 <= k < 6 + |rest|
    ensures k < 6 ==> (InRun([a, a, b, b, b, c] + rest, k) <==> 2 <= k <= 4)
  {
    var line := [a, a, b, b, b, c] + rest;
    if k < 2 {
      RunOf(line, 0, 2, k);
    } else if k < 5 {
      RunOf(line, 2, 5, k);
    } else if k == 5 {
      RunOf(line, 5, 6, k);
    }
  }
}
