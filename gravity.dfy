/**
 Gravity and refill as relations on a single column (read top to bottom):
 which pieces survive a clear, where each of them came from, and what a
 column looks like once dropPieces has compacted and refilled it.
 */
module Gravity {
  import opened Board

  /** The pieces of a column, top to bottom, with the empty cells left out. */
  function Survivors(col: seq<Cell>): (s: seq<Cell>)
    ensures |s| <= |col|
    ensures forall i :: 0 <= i < |s| ==> s[i].Piece?
  {
    if col == [] then [] else (if col[0] == Empty then [] else [col[0]]) + Survivors(col[1..])
  }

  /** Clearing and compacting loses only the empty cells: every piece occurs
      among the survivors as often as in the column. */
  lemma {:induction false} SurvivorsKeepPieces(col: seq<Cell>)
    ensures forall x: Cell :: x.Piece? ==> multiset(Survivors(col))[x] == multiset(col)[x]
  {
    if col != [] {
      SurvivorsKeepPieces(col[1..]);
      assert col == [col[0]] + col[1..];
    }
  }

  /** A column without empty cells survives whole. */
  lemma {:induction false} SurvivorsOfFull(col: seq<Cell>)
    requires forall i :: 0 <= i < |col| ==> col[i].Piece?
    ensures Survivors(col) == col
  {
    if col != [] {
      SurvivorsOfFull(col[1..]);
    }
  }

  /** Index in the column of the i-th survivor. */
  function Origin(col: seq<Cell>, i: int): (o: int)
    requires 0 <= i < |Survivors(col)|
    ensures 0 <= o < |col| && col[o] == Survivors(col)[i]
    ensures o <= |col| - |Survivors(col)| + i
    decreases |col|
  {
    assert Survivors(col) == (if col[0] == Empty then [] else [col[0]]) + Survivors(col[1..]);
    if col[0] == Empty then 1 + Origin(col[1..], i)
    else if i == 0 then 0
    else 1 + Origin(col[1..], i - 1)
  }

  /** Survivors keep their relative order: a piece that was above another
      is still above it. */
  lemma {:induction false} OriginIncreasing(col: seq<Cell>, i: int, j: int)
    requires 0 <= i < j < |Survivors(col)|
    ensures Origin(col, i) < Origin(col, j)
    decreases |col|
  {
    assert Survivors(col) == (if col[0] == Empty then [] else [col[0]]) + Survivors(col[1..]);
    if col[0] == Empty {
      OriginIncreasing(col[1..], i, j);
    } else if i > 0 {
      OriginIncreasing(col[1..], i - 1, j - 1);
    }
  }

  /** `after` is `before` once dropPieces has run on it: the survivors sit at
      the bottom in their original order, and every cell above them (one per
      empty cell of `before`) holds a fresh piece. */
  predicate Settled(before: seq<Cell>, after: seq<Cell>)
  {
    var holes := |before| - |Survivors(before)|;
    |after| == |before| &&
    after[holes..] == Survivors(before) &&
    forall i :: 0 <= i < holes ==> after[i].Piece?
  }

  /** After dropPieces no cell of the column is empty, and every surviving
      piece ends up at or below the row it started in. */
  lemma SettledColumn(before: seq<Cell>, after: seq<Cell>, i: int)
    requires Settled(before, after)
    ensures forall k :: 0 <= k < |after| ==> after[k].Piece?
    ensures 0 <= i < |Survivors(before)| ==>
      var row := |before| - |Survivors(before)| + i;
      after[row] == before[Origin(before, i)] && Origin(before, i) <= row
  {
    var holes := |before| - |Survivors(before)|;
    forall k | holes <= k < |after|
      ensures after[k].Piece?
    {
      assert after[k] == after[holes..][k - holes];
    }
    if 0 <= i < |Survivors(before)| {
      assert after[holes + i] == after[holes..][i];
    }
  }

  /** dropPieces leaves a column without empty cells as it was. */
  lemma SettledFullColumn(before: seq<Cell>, after: seq<Cell>)
    requires forall i :: 0 <= i < |before| ==> before[i].Piece?
    requires Settled(before, after)
    ensures after == before
  {
    SurvivorsOfFull(before);
    assert after == after[0..];
  }

  /** The grid with the given cells emptied (grid[r][c] = null for each). */
  function Cleared(g: Grid, cells: set<Coord>): (h: Grid)
    requires IsGrid(g)
    ensures IsGrid(h)
    ensures forall r, c :: 0 <= r < SIZE && 0 <= c < SIZE ==> h[r][c] == if Coord(r, c) in cells then Empty else g[r][c]
  {
    seq(SIZE, r requires 0 <= r < SIZE =>
      seq(SIZE, c requires 0 <= c < SIZE => if Coord(r, c) in cells then Empty else g[r][c]))
  }

  /** `after` is `before` once dropPieces has run on every column. */
  predicate Dropped(before: Grid, after: Grid)
    requires IsGrid(before) && IsGrid(after)
  {
    forall c :: 0 <= c < SIZE ==> Settled(Column(before, c), Column(after, c))
  }

  /** dropPieces leaves no empty cell behind. */
  lemma DroppedIsFull(before: Grid, after: Grid)
    requires IsGrid(before) && IsGrid(after) && Dropped(before, after)
    ensures Full(after)
  {
    forall r, c | 0 <= r < SIZE && 0 <= c < SIZE
      ensures after[r][c].Piece?
    {
      SettledColumn(Column(before, c), Column(after, c), 0);
    }
  }

  /** On a board without empty cells dropPieces changes nothing. */
  lemma DroppedFullBoard(before: Grid, after: Grid)
    requires IsGrid(before) && IsGrid(after) && Full(before) && Dropped(before, after)
    ensures after == before
  {
    forall r, c | 0 <= r < SIZE && 0 <= c < SIZE
      ensures after[r][c] == before[r][c]
    {
      SettledFullColumn(Column(before, c), Column(after, c));
    }
    SameCells(after, before);
  }
}
