/**
 The values of the match-3 board: pieces, cells, coordinates and the
 SIZE x SIZE grid seen as a sequence of rows, with the pure helpers of
 script.js (inBounds, idx, areAdjacent) and the value-level effect of
 swap, flat() and the rebuild into rows done by shuffle.
 */
module Board {

  /** Side of the square board. */
  const SIZE := 8

  /** Number of entries of PIECES. */
  const PIECE_COUNT := 6

  /** A piece is an index into PIECES; the six symbols are pairwise distinct,
      so comparing indices is comparing the symbols with ===. */
  type Kind = k: nat | k < PIECE_COUNT

  /** A cell holds a piece, or is Empty (the source's null) between a clear
      and the following refill. */
  datatype Cell = Empty | Piece(kind: Kind)

  /** A {r, c} coordinate of the board. */
  datatype Coord = Coord(r: int, c: int)

  /** The grid as rows of cells, row-major. */
  type Grid = seq<seq<Cell>>

  predicate IsGrid(g: Grid) {
    |g| == SIZE && forall r :: 0 <= r < SIZE ==> |g[r]| == SIZE
  }

  predicate InBounds(p: Coord) {
    0 <= p.r < SIZE && 0 <= p.c < SIZE
  }

  /** Two grids with the same cells are the same grid. */
  lemma SameCells(g: Grid, h: Grid)
    requires IsGrid(g) && IsGrid(h)
    requires forall r, c :: 0 <= r < SIZE && 0 <= c < SIZE ==> g[r][c] == h[r][c]
    ensures g == h
  {
    forall r | 0 <= r < SIZE
      ensures g[r] == h[r]
    {
    }
  }

  /** Every cell of the grid holds a piece. */
  predicate Full(g: Grid)
    requires IsGrid(g)
  {
    forall r, c :: 0 <= r < SIZE && 0 <= c < SIZE ==> g[r][c].Piece?
  }

  /** Position of (r, c) in the row-major flattening of the board. */
  function Idx(r: int, c: int): (i: int)
    ensures InBounds(Coord(r, c)) ==> 0 <= i < SIZE * SIZE
  {
    r * SIZE + c
  }

  /** idx is a bijection between the in-bounds coordinates and 0 .. SIZE*SIZE-1. */
  lemma IdxBijection(r: int, c: int, i: int)
    ensures InBounds(Coord(r, c)) ==> 0 <= Idx(r, c) < SIZE * SIZE && Idx(r, c) / SIZE == r && Idx(r, c) % SIZE == c
    ensures 0 <= i < SIZE * SIZE ==> InBounds(Coord(i / SIZE, i % SIZE)) && Idx(i / SIZE, i % SIZE) == i
  {
  }

  function Abs(x: int): nat {
    if x < 0 then -x else x
  }

  /** areAdjacent: same row and neighbouring columns, or same column and
      neighbouring rows. */
  function AreAdjacent(a: Coord, b: Coord): (adj: bool)
    ensures adj <==> Abs(a.r - b.r) + Abs(a.c - b.c) == 1
  {
    (a.r == b.r && Abs(a.c - b.c) == 1) || (a.c == b.c && Abs(a.r - b.r) == 1)
  }

  lemma AdjacentSymmetric(a: Coord, b: Coord)
    ensures AreAdjacent(a, b) == AreAdjacent(b, a)
  {
  }

  /** The grid after exchanging the contents of cells a and b. */
  function Swapped(g: Grid, a: Coord, b: Coord): (h: Grid)
    requires IsGrid(g) && InBounds(a) && InBounds(b)
    ensures IsGrid(h)
    ensures h[a.r][a.c] == g[b.r][b.c] && h[b.r][b.c] == g[a.r][a.c]
    ensures forall r, c :: 0 <= r < SIZE && 0 <= c < SIZE && Coord(r, c) != a && Coord(r, c) != b ==> h[r][c] == g[r][c]
  {
    var x, y := g[a.r][a.c], g[b.r][b.c];
    var g1 := g[a.r := g[a.r][a.c := y]];
    g1[b.r := g1[b.r][b.c := x]]
  }

  /** Swapping the same two cells twice restores the grid. */
  lemma SwapInvolution(g: Grid, a: Coord, b: Coord)
    requires IsGrid(g) && InBounds(a) && InBounds(b)
    ensures Swapped(Swapped(g, a, b), a, b) == g
  {
    SameCells(Swapped(Swapped(g, a, b), a, b), g);
  }

  /** Swapping keeps a full board full. */
  lemma SwappedFull(g: Grid, a: Coord, b: Coord)
    requires IsGrid(g) && InBounds(a) && InBounds(b) && Full(g)
    ensures Full(Swapped(g, a, b))
  {
  }

  /** Swapping is symmetric in its two coordinates. */
  lemma SwapSymmetric(g: Grid, a: Coord, b: Coord)
    requires IsGrid(g) && InBounds(a) && InBounds(b)
    ensures Swapped(g, a, b) == Swapped(g, b, a)
  {
    SameCells(Swapped(g, a, b), Swapped(g, b, a));
  }

  /** Column c of the grid, read top to bottom. */
  function Column(g: Grid, c: int): (col: seq<Cell>)
    requires IsGrid(g) && 0 <= c < SIZE
    ensures |col| == SIZE && forall r :: 0 <= r < SIZE ==> col[r] == g[r][c]
  {
    seq(SIZE, r requires 0 <= r < SIZE => g[r][c])
  }

  /** Two grids with the same column c have equal columns c. */
  lemma SameColumn(g: Grid, h: Grid, c: int)
    requires IsGrid(g) && IsGrid(h) && 0 <= c < SIZE
    requires forall r :: 0 <= r < SIZE ==> g[r][c] == h[r][c]
    ensures Column(g, c) == Column(h, c)
  {
  }

  /** grid.flat(): the rows concatenated in order; rows of SIZE cells give
      SIZE cells per row. */
  function Flatten(g: seq<seq<Cell>>): (s: seq<Cell>)
    ensures (forall i :: 0 <= i < |g| ==> |g[i]| == SIZE) ==> |s| == |g| * SIZE
  {
    if g == [] then [] else g[0] + Flatten(g[1..])
  }

  /** Rebuild of shuffle: consecutive slices of SIZE pieces become the rows
      (pieces.splice(0, SIZE) until the array is empty). */
  function Rows(s: seq<Cell>): (rows: seq<seq<Cell>>)
    ensures |rows| == (|s| + SIZE - 1) / SIZE
    ensures forall i :: 0 <= i < |rows| ==> 0 < |rows[i]| <= SIZE
    decreases |s|
  {
    if |s| == 0 then [] else if |s| <= SIZE then [s] else [s[..SIZE]] + Rows(s[SIZE..])
  }

  /** Cell (r, c) sits at position idx(r, c) of the flattened board. */
  lemma {:induction false} FlattenAt(g: seq<seq<Cell>>, r: int, c: int)
    requires forall i :: 0 <= i < |g| ==> |g[i]| == SIZE
    requires 0 <= r < |g| && 0 <= c < SIZE
    ensures |Flatten(g)| == |g| * SIZE
    ensures Flatten(g)[Idx(r, c)] == g[r][c]
  {
    if r > 0 {
      FlattenAt(g[1..], r - 1, c);
    }
  }

  /** Flattening the rebuilt rows gives back the flat sequence. */
  lemma {:induction false} FlattenRows(s: seq<Cell>)
    ensures Flatten(Rows(s)) == s
    decreases |s|
  {
    if |s| > SIZE {
      FlattenRows(s[SIZE..]);
      assert s == s[..SIZE] + s[SIZE..];
    }
  }

  /** Rebuilding a flattened grid into rows gives back the grid. */
  lemma {:induction false} RowsFlatten(g: seq<seq<Cell>>)
    requires forall i :: 0 <= i < |g| ==> |g[i]| == SIZE
    ensures Rows(Flatten(g)) == g
  {
    if |g| > 1 {
      RowsFlatten(g[1..]);
      assert Flatten(g)[..SIZE] == g[0];
      assert Flatten(g)[SIZE..] == Flatten(g[1..]);
    } else if |g| == 1 {
      assert g[1..] == [];
      assert Flatten(g) == g[0];
    }
  }

  /** A flat sequence of SIZE*SIZE cells is rebuilt into a SIZE x SIZE grid
      whose cell (r, c) is the element at idx(r, c). */
  lemma {:induction false} RowsAt(s: seq<Cell>, r: int, c: int)
    requires |s| == SIZE * SIZE
    ensures IsGrid(Rows(s))
    ensures 0 <= r < SIZE && 0 <= c < SIZE ==> Rows(s)[r][c] == s[Idx(r, c)]
  {
    var g := Rows(s);
    RowsShape(s, SIZE);
    if 0 <= r < SIZE && 0 <= c < SIZE {
      FlattenRows(s);
      FlattenAt(g, r, c);
    }
  }

  lemma {:induction false} RowsShape(s: seq<Cell>, n: nat)
    requires |s| == n * SIZE
    ensures |Rows(s)| == n && forall i :: 0 <= i < n ==> |Rows(s)[i]| == SIZE
  {
    if n > 1 {
      RowsShape(s[SIZE..], n - 1);
    }
  }

  /** A board is full exactly when its flattening holds only pieces. */
  lemma FullIffFlatPieces(g: Grid)
    requires IsGrid(g)
    ensures Full(g) <==> forall x :: x in Flatten(g) ==> x.Piece?
  {
    var f := Flatten(g);
    if Full(g) {
      forall x | x in f
        ensures x.Piece?
      {
        var i :| 0 <= i < |f| && f[i] == x;
        IdxBijection(0, 0, i);
        FlattenAt(g, i / SIZE, i % SIZE);
      }
    }
    if forall x :: x in f ==> x.Piece? {
      forall r, c | 0 <= r < SIZE && 0 <= c < SIZE
        ensures g[r][c].Piece?
      {
        IdxBijection(r, c, 0);
        FlattenAt(g, r, c);
        assert f[Idx(r, c)] in f;
      }
    }
  }
}
