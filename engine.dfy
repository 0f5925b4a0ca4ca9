/**
 The game engine of script.js: the module state (grid, selected, busy,
 moves) as the fields of one object, and the functions that update it.
 A setTimeout callback that is scheduled but has not run yet is the field
 `pending`; OnTimer runs it.
 */
module Engine {
  import opened Board
  import opened Runs
  import opened Gravity

  datatype Option<T> = None | Some(value: T)

  /** The callback of the setTimeout that is still to run, if any. */
  datatype Pending =
    | Idle                          // no timer pending
    | Revert(a: Coord, b: Coord)    // undo a swap that made no match (trySwap)
    | Clear(cells: set<Coord>)      // empty the matched cells and drop (clearMatches)

  /** The board held by an array, as a value. */
  ghost function Snapshot(a: array2<Cell>): (g: Grid)
    reads a
    requires a.Length0 == SIZE && a.Length1 == SIZE
    ensures IsGrid(g)
    ensures forall r, c :: 0 <= r < SIZE && 0 <= c < SIZE ==> g[r][c] == a[r, c]
  {
    seq(SIZE, r requires 0 <= r < SIZE reads a =>
      seq(SIZE, c requires 0 <= c < SIZE reads a => a[r, c]))
  }

  /** randomPiece: some entry of PIECES, chosen by Math.random. */
  method RandomPiece() returns (p: Cell)
    ensures p.Piece?
  {
    var k: nat :| k < PIECE_COUNT;
    p := Piece(k);
  }

  /** The loop condition of createGrid: placing `piece` at (r, c) would
      complete three in a row with the two cells to its left or the two
      cells above it. */
  predicate Rejects(a: array2<Cell>, r: int, c: int, piece: Cell)
    reads a
    requires a.Length0 == SIZE && a.Length1 == SIZE && InBounds(Coord(r, c))
  {
    (c >= 2 && a[r, c - 1] == piece && a[r, c - 2] == piece) ||
    (r >= 2 && a[r - 1, c] == piece && a[r - 2, c] == piece)
  }

  /** The do/while of createGrid always has a piece to stop at: the row
      rejects at most one piece and the column at most one, so one of the
      first three pieces is accepted. */
  lemma AcceptedPieceExists(a: array2<Cell>, r: int, c: int)
    requires a.Length0 == SIZE && a.Length1 == SIZE && InBounds(Coord(r, c))
    ensures exists k: Kind :: k < 3 && !Rejects(a, r, c, Piece(k))
  {
    var k: Kind := if !Rejects(a, r, c, Piece(0)) then 0 else if !Rejects(a, r, c, Piece(1)) then 1 else 2;
    assert !Rejects(a, r, c, Piece(k));
  }

  /** Cell (i, j) is as createGrid leaves it once the first n cells in
      row-major order are placed: a piece the loop condition accepted if it
      is one of them, otherwise still empty. */
  ghost predicate Placed(a: array2<Cell>, n: int, i: int, j: int)
    reads a
    requires a.Length0 == SIZE && a.Length1 == SIZE && InBounds(Coord(i, j))
  {
    if Idx(i, j) < n then a[i, j].Piece? && !Rejects(a, i, j, a[i, j]) else a[i, j] == Empty
  }

  ghost predicate FilledUpTo(a: array2<Cell>, n: int)
    reads a
    requires a.Length0 == SIZE && a.Length1 == SIZE
  {
    forall i, j :: 0 <= i < SIZE && 0 <= j < SIZE ==> Placed(a, n, i, j)
  }

  /** One pass of the do/while of createGrid: draws pieces until one is not
      rejected at (r, c) and stores it there. */
  method PlacePiece(a: array2<Cell>, r: int, c: int)
    requires a.Length0 == SIZE && a.Length1 == SIZE && InBounds(Coord(r, c))
    requires FilledUpTo(a, Idx(r, c))
    modifies a
    ensures FilledUpTo(a, Idx(r, c) + 1)
    ensures forall i, j :: 0 <= i < SIZE && 0 <= j < SIZE && (i != r || j != c) ==> a[i, j] == old(a[i, j])
  {
    AcceptedPieceExists(a, r, c);
    var piece: nat :| piece < PIECE_COUNT && !Rejects(a, r, c, Piece(piece));
    label Placing:
    a[r, c] := Piece(piece);
    ghost var n := Idx(r, c) + 1;
    forall i, j | 0 <= i < SIZE && 0 <= j < SIZE
      ensures Placed(a, n, i, j)
    {
      if i == r && j == c {
        assert old@Placing(!Rejects(a, r, c, Piece(piece)));
      } else {
        assert old@Placing(Placed(a, n - 1, i, j));
      }
      if Idx(i, j) < n {
        if j >= 2 {
          assert a[i, j - 1] == old@Placing(a[i, j - 1]) && a[i, j - 2] == old@Placing(a[i, j - 2]);
        }
        if i >= 2 {
          assert a[i - 1, j] == old@Placing(a[i - 1, j]) && a[i - 2, j] == old@Placing(a[i - 2, j]);
        }
      }
    }
  }

  /** Once every cell is placed the board is full and has no match. */
  lemma FilledBoard(a: array2<Cell>)
    requires a.Length0 == SIZE && a.Length1 == SIZE && FilledUpTo(a, SIZE * SIZE)
    ensures Full(Snapshot(a)) && NoThreeInARow(Snapshot(a)) && Matched(Snapshot(a)) == {}
  {
    var g: Grid := Snapshot(a);
    forall i, j | 0 <= i < SIZE && 0 <= j < SIZE
      ensures g[i][j].Piece? && !Triple(g[i], j) && !Triple(Column(g, i), j)
    {
      assert Placed(a, SIZE * SIZE, i, j);
      if j + 2 < SIZE {
        assert Placed(a, SIZE * SIZE, i, j + 2) && Placed(a, SIZE * SIZE, j + 2, i);
      }
    }
    NoMatchIffNoThree(g);
  }

  /** The state of the compaction loop of dropPieces on one column, read
      top to bottom: `col` is the column before, `cur` the column now, r the
      next row to read and `write` the next row to write. The rows above r are
      untouched, and below `write` sit the survivors of the rows below r. */
  ghost predicate Compacting(col: seq<Cell>, cur: seq<Cell>, r: int, write: int)
  {
    |col| == SIZE && |cur| == SIZE && -1 <= r <= write < SIZE &&
    cur[..r + 1] == col[..r + 1] &&
    cur[write + 1..] == Survivors(col[r + 1..])
  }

  /** One pass of the compaction loop keeps Compacting. */
  lemma CompactStep(col: seq<Cell>, cur: seq<Cell>, r: int, write: int)
    requires Compacting(col, cur, r, write) && r >= 0
    ensures cur[r] == col[r]
    ensures col[r] != Empty ==> Compacting(col, cur[write := col[r]], r - 1, write - 1)
    ensures col[r] == Empty ==> Compacting(col, cur, r - 1, write)
  {
    assert cur[..r + 1][r] == col[..r + 1][r];
    assert col[r..][1..] == col[r + 1..];
    assert Survivors(col[r..]) == (if col[r] == Empty then [] else [col[r]]) + Survivors(col[r + 1..]);
    if col[r] != Empty {
      var next := cur[write := col[r]];
      assert next[..r] == col[..r] by { assert cur[..r + 1][..r] == cur[..r]; }
      assert next[write..] == [col[r]] + cur[write + 1..];
    } else {
      assert cur[..r] == cur[..r + 1][..r];
    }
  }

  /** When the compaction loop ends, the survivors of the whole column sit
      below the cursor. */
  lemma CompactDone(col: seq<Cell>, cur: seq<Cell>, write: int)
    requires Compacting(col, cur, -1, write)
    ensures write == SIZE - 1 - |Survivors(col)|
    ensures forall k :: write < k < SIZE ==> cur[k] == Survivors(col)[k - write - 1]
  {
    assert col[0..] == col;
    forall k | write < k < SIZE
      ensures cur[k] == Survivors(col)[k - write - 1]
    {
      assert cur[write + 1..][k - write - 1] == cur[k];
    }
  }

  /** A board createGrid can produce: a checkerboard of pieces 0 and 1, with
      pieces 1 and 2 at rows 2 and 3 of the first column. */
  function StaleBoard(): (g: Grid)
    ensures IsGrid(g)
    ensures forall r, c :: 0 <= r < SIZE && 0 <= c < SIZE ==> g[r][c] == Piece(StaleKind(r, c))
  {
    seq(SIZE, r requires 0 <= r < SIZE => seq(SIZE, c requires 0 <= c < SIZE => Piece(StaleKind(r, c))))
  }

  function StaleKind(r: int, c: int): Kind
    requires 0 <= r && 0 <= c
  {
    if r == 2 && c == 0 then 1 else if r == 3 && c == 0 then 2 else (r + c) % 2
  }

  /** Along a row of StaleBoard only cells (2, 0) and (2, 1) are equal
      neighbours, and cell (2, 2) differs from them. */
  lemma StaleRows(i: int, j: int)
    requires 0 <= i < SIZE && 0 <= j < SIZE
    ensures !Triple(StaleBoard()[i], j)
  {
    if j + 2 < SIZE {
      var k := if i == 2 && j == 0 then j + 1 else j;
      assert StaleKind(i, k) != StaleKind(i, k + 1);
    }
  }

  /** Down a column of StaleBoard only cells (1, 0) and (2, 0) are equal
      neighbours, and cell (3, 0) differs from them. */
  lemma StaleColumns(i: int, j: int)
    requires 0 <= i < SIZE && 0 <= j < SIZE
    ensures !Triple(Column(StaleBoard(), i), j)
  {
    if j + 2 < SIZE {
      var k := if i == 0 && j == 1 then j + 1 else j;
      assert StaleKind(k, i) != StaleKind(k + 1, i);
    }
  }

  /** StaleBoard has no three equal pieces in a row or a column. */
  lemma StaleNoThree()
    ensures Full(StaleBoard()) && NoThreeInARow(StaleBoard())
  {
    forall i, j | 0 <= i < SIZE && 0 <= j < SIZE
      ensures !Triple(StaleBoard()[i], j) && !Triple(Column(StaleBoard(), i), j)
    {
      StaleRows(i, j);
      StaleColumns(i, j);
    }
  }

  /** Swapping cells (0, 0) and (0, 1) of StaleBoard makes the first column
      read 1, 1, 1, 2 from the top. */
  lemma StaleSwapRun()
    ensures Coord(0, 0) in Matched(Swapped(StaleBoard(), Coord(0, 0), Coord(0, 1)))
  {
    var h := Swapped(StaleBoard(), Coord(0, 0), Coord(0, 1));
    RunOf(Column(h, 0), 0, 3, 0);
  }

  /** The stale revert on a fresh board: StaleBoard is full and has no three
      in a row, so createGrid may build it, yet swapping its two adjacent
      top-left cells lines up three equal pieces in the first column. */
  lemma StaleRevertMatches()
    ensures Full(StaleBoard()) && Matched(StaleBoard()) == {}
    ensures AreAdjacent(Coord(0, 0), Coord(0, 1))
    ensures Coord(0, 0) in Matched(Swapped(StaleBoard(), Coord(0, 0), Coord(0, 1)))
  {
    StaleNoThree();
    NoMatchIffNoThree(StaleBoard());
    StaleSwapRun();
  }

  class Game {
    var grid: array2<Cell>
    var selected: Option<Coord>
    var busy: bool
    var moves: nat
    var pending: Pending

    /** The board is SIZE x SIZE. */
    predicate Sized()
      reads this
    {
      grid.Length0 == SIZE && grid.Length1 == SIZE
    }

    /** The selection / busy state: a timer is pending exactly while busy,
        nothing is selected while busy, a clear is only scheduled for a
        non-empty set of cells, and every stored coordinate is on the board. */
    ghost predicate Controls()
      reads this
    {
      (busy <==> !pending.Idle?) &&
      (busy ==> selected.None?) &&
      (selected.Some? ==> InBounds(selected.value)) &&
      (pending.Revert? ==> InBounds(pending.a) && InBounds(pending.b)) &&
      (pending.Clear? ==> pending.cells != {} && forall p :: p in pending.cells ==> InBounds(p))
    }

    /** The state between two events: besides Controls, no cell is empty
        (cells are only emptied inside the callback that refills them). */
    ghost predicate Valid()
      reads this, grid
    {
      Sized() && Controls() && Full(Snapshot(grid))
    }

    /** The start of the script: empty state, then newGame(). */
    constructor ()
      ensures Valid() && fresh(grid)
      ensures NoThreeInARow(Snapshot(grid)) && Matched(Snapshot(grid)) == {}
      ensures selected.None? && !busy && pending.Idle? && moves == 0
    {
      grid := new Cell[0, 0];
      selected := None;
      busy := false;
      moves := 0;
      pending := Idle;
      new;
      NewGame();
    }

    /** newGame: moves back to 0, no selection, a fresh board. It does not
        look at busy, so a timer already pending still fires afterwards, on
        the new board. */
    method NewGame()
      requires Controls()
      modifies this`moves, this`selected, this`grid
      ensures Valid() && fresh(grid)
      ensures NoThreeInARow(Snapshot(grid)) && Matched(Snapshot(grid)) == {}
      ensures moves == 0 && selected.None?
    {
      moves := 0;
      ClearSelection();
      CreateGrid();
    }

    /** newGame pressed while trySwap's revert is pending, then the timer
        fires: the revert swaps two cells of the board newGame created, and
        the board is released in that state. */
    method NewGameDuringRevert() returns (ghost created: Grid)
      requires Valid() && pending.Revert?
      modifies this`moves, this`selected, this`grid, this`busy, this`pending
      ensures Valid() && !busy && pending.Idle? && moves == 0 && selected.None?
      ensures IsGrid(created) && Full(created) && Matched(created) == {}
      ensures Snapshot(grid) == Swapped(created, old(pending).a, old(pending).b)
    {
      NewGame();
      created := Snapshot(grid);
      OnTimer();
    }

    /** newGame as evidently intended: like shuffle and onCellClick it does
        nothing while the board is busy, so no callback of the previous game
        can reach the new board. */
    method NewGameWhenIdle()
      requires Controls()
      modifies this`moves, this`selected, this`grid
      ensures old(busy) ==> grid == old(grid) && moves == old(moves) && selected == old(selected)
      ensures !old(busy) ==> Valid() && fresh(grid) && pending.Idle? && moves == 0 && selected.None?
      ensures !old(busy) ==> NoThreeInARow(Snapshot(grid)) && Matched(Snapshot(grid)) == {}
    {
      if busy {
        return;
      }
      NewGame();
    }

    /** With the corrected newGame the board a new game starts from stays as
        created until the player acts: the next timer finds nothing pending. */
    method NewGameThenTimer() returns (ghost created: Grid)
      requires Valid() && !busy
      modifies this`moves, this`selected, this`grid, this`busy, this`pending
      ensures Valid() && !busy && pending.Idle? && moves == 0 && selected.None?
      ensures IsGrid(created) && Full(created) && Matched(created) == {}
      ensures Snapshot(grid) == created
    {
      NewGameWhenIdle();
      created := Snapshot(grid);
      OnTimer();
    }

    /** createGrid: fills a new board in row-major order; each cell gets a
        piece that does not complete three in a row with the two cells to
        its left or the two cells above it. */
    method CreateGrid()
      modifies this`grid
      ensures Sized() && fresh(grid)
      ensures Full(Snapshot(grid)) && NoThreeInARow(Snapshot(grid)) && Matched(Snapshot(grid)) == {}
    {
      grid := new Cell[SIZE, SIZE]((r, c) => Empty);
      for r := 0 to SIZE
        modifies grid
        invariant FilledUpTo(grid, Idx(r, 0))
      {
        for c := 0 to SIZE
          modifies grid
          invariant FilledUpTo(grid, Idx(r, c))
        {
          PlacePiece(grid, r, c);
        }
      }
      FilledBoard(grid);
    }

    /** setSelected: (r, c) becomes the selection. */
    method SetSelected(r: int, c: int)
      requires InBounds(Coord(r, c))
      modifies this`selected
      ensures selected == Some(Coord(r, c))
    {
      selected := Some(Coord(r, c));
    }

    /** clearSelection: nothing is selected any more. */
    method ClearSelection()
      modifies this`selected
      ensures selected.None?
    {
      selected := None;
    }

    /** swap: exchanges the contents of cells a and b. */
    method Swap(a: Coord, b: Coord)
      requires Sized() && InBounds(a) && InBounds(b)
      modifies grid
      ensures Snapshot(grid) == Swapped(old(Snapshot(grid)), a, b)
    {
      grid[a.r, a.c], grid[b.r, b.c] := grid[b.r, b.c], grid[a.r, a.c];
      SameCells(Snapshot(grid), Swapped(old(Snapshot(grid)), a, b));
    }

    /** findMatches: scans every row, then every column, for maximal runs of
        equal cells and collects the coordinates of the runs of length 3 or
        more. */
    method FindMatches() returns (toClear: set<Coord>)
      requires Sized()
      ensures toClear == Matched(Snapshot(grid))
      ensures forall p :: p in toClear ==> InBounds(p)
    {
      toClear := ScanRows();
      toClear := ScanColumns(toClear);
    }

    /** The row half of findMatches. */
    method ScanRows() returns (toClear: set<Coord>)
      requires Sized()
      ensures forall p :: p in toClear <==> InBounds(p) && RowRun(Snapshot(grid), p)
    {
      toClear := {};
      for r := 0 to SIZE
        invariant forall p :: p in toClear <==> InBounds(p) && p.r < r && RowRun(Snapshot(grid), p)
      {
        toClear := ScanRow(r, toClear);
      }
    }

    /** One row of the row half of findMatches: a run-length scan that adds
        the cells of every maximal run of length 3 or more. */
    method ScanRow(r: int, found: set<Coord>) returns (toClear: set<Coord>)
      requires Sized() && 0 <= r < SIZE
      ensures forall p :: p in toClear <==> p in found || (InBounds(p) && p.r == r && RowRun(Snapshot(grid), p))
    {
      ghost var line := Snapshot(grid)[r];
      toClear := found;
      var start := 0;
      for c := 1 to SIZE + 1
        invariant 0 <= start < c
        invariant c == SIZE + 1 ==> start == SIZE
        invariant c <= SIZE ==> forall k :: start <= k < c ==> line[k] == line[start]
        invariant 0 < start < SIZE ==> line[start - 1] != line[start]
        invariant forall p :: p in toClear <==> p in found || (p.r == r && 0 <= p.c < start && InRun(line, p.c))
      {
        var same := c < SIZE && grid[r, c] == grid[r, start];
        if !same {
          forall k | start <= k < c
            ensures InRun(line, k) <==> c - start >= 3
          {
            RunOf(line, start, c, k);
          }
          if c - start >= 3 {
            for k := start to c
              invariant forall p :: p in toClear <==>
                p in found || (p.r == r && ((0 <= p.c < start && InRun(line, p.c)) || start <= p.c < k))
            {
              toClear := toClear + {Coord(r, k)};
            }
          }
          start := c;
        }
      }
    }

    /** The column half of findMatches: adds what it finds to `rows`. */
    method ScanColumns(rows: set<Coord>) returns (toClear: set<Coord>)
      requires Sized()
      ensures forall p :: p in toClear <==> p in rows || (InBounds(p) && ColumnRun(Snapshot(grid), p))
    {
      toClear := rows;
      for c := 0 to SIZE
        invariant forall p :: p in toClear <==> p in rows || (InBounds(p) && p.c < c && ColumnRun(Snapshot(grid), p))
      {
        toClear := ScanColumn(c, toClear);
      }
    }

    /** One column of the column half of findMatches. */
    method ScanColumn(c: int, found: set<Coord>) returns (toClear: set<Coord>)
      requires Sized() && 0 <= c < SIZE
      ensures forall p :: p in toClear <==> p in found || (InBounds(p) && p.c == c && ColumnRun(Snapshot(grid), p))
    {
      ghost var line := Column(Snapshot(grid), c);
      toClear := found;
      var start := 0;
      for r := 1 to SIZE + 1
        invariant 0 <= start < r
        invariant r == SIZE + 1 ==> start == SIZE
        invariant r <= SIZE ==> forall k :: start <= k < r ==> line[k] == line[start]
        invariant 0 < start < SIZE ==> line[start - 1] != line[start]
        invariant forall p :: p in toClear <==> p in found || (p.c == c && 0 <= p.r < start && InRun(line, p.r))
      {
        var same := r < SIZE && grid[r, c] == grid[start, c];
        if !same {
          forall k | start <= k < r
            ensures InRun(line, k) <==> r - start >= 3
          {
            RunOf(line, start, r, k);
          }
          if r - start >= 3 {
            for k := start to r
              invariant forall p :: p in toClear <==>
                p in found || (p.c == c && ((0 <= p.r < start && InRun(line, p.r)) || start <= p.r < k))
            {
              toClear := toClear + {Coord(k, c)};
            }
          }
          start := r;
        }
      }
    }

    /** The body of the clearMatches callback before dropPieces: each listed
        cell becomes empty, in whatever order the set yields them. */
    method NullCells(cells: set<Coord>)
      requires Sized() && forall p :: p in cells ==> InBounds(p)
      modifies grid
      ensures Snapshot(grid) == Cleared(old(Snapshot(grid)), cells)
    {
      var rest := cells;
      while rest != {}
        invariant rest <= cells
        invariant forall r, c :: 0 <= r < SIZE && 0 <= c < SIZE ==>
          grid[r, c] == if Coord(r, c) in cells - rest then Empty else old(grid[r, c])
        decreases |rest|
      {
        var p :| p in rest;
        grid[p.r, p.c] := Empty;
        rest := rest - {p};
      }
      SameCells(Snapshot(grid), Cleared(old(Snapshot(grid)), cells));
    }

    /** One column of dropPieces: the pieces are compacted to the bottom,
        then the cells above them get random pieces. */
    method DropColumn(c: int)
      requires Sized() && 0 <= c < SIZE
      modifies grid
      ensures Settled(old(Column(Snapshot(grid), c)), Column(Snapshot(grid), c))
      ensures forall r, k :: 0 <= r < SIZE && 0 <= k < SIZE && k != c ==> grid[r, k] == old(grid[r, k])
    {
      ghost var col := Column(Snapshot(grid), c);
      var write := Compact(c, col);
      Refill(c, write, Survivors(col));
      ghost var after := Column(Snapshot(grid), c);
      assert after[write + 1..] == Survivors(col);
    }

    /** The first loop of one column of dropPieces: a write cursor moves up
        from the bottom and receives every piece met on the way up. On return
        the survivors of the column fill the cells below the cursor. */
    method Compact(c: int, ghost col: seq<Cell>) returns (write: int)
      requires Sized() && 0 <= c < SIZE
      requires |col| == SIZE && forall k :: 0 <= k < SIZE ==> grid[k, c] == col[k]
      modifies grid
      ensures write == SIZE - 1 - |Survivors(col)|
      ensures forall k :: write < k < SIZE ==> grid[k, c] == Survivors(col)[k - write - 1]
      ensures forall r, k :: 0 <= r < SIZE && 0 <= k < SIZE && k != c ==> grid[r, k] == old(grid[r, k])
    {
      write := SIZE - 1;
      var r := SIZE - 1;
      ghost var cur := col;
      while r >= 0
        invariant Compacting(col, cur, r, write)
        invariant forall k :: 0 <= k < SIZE ==> grid[k, c] == cur[k]
        invariant forall i, k :: 0 <= i < SIZE && 0 <= k < SIZE && k != c ==> grid[i, k] == old(grid[i, k])
      {
        CompactStep(col, cur, r, write);
        if grid[r, c] != Empty {
          grid[write, c] := grid[r, c];
          cur := cur[write := col[r]];
          write := write - 1;
        }
        r := r - 1;
      }
      CompactDone(col, cur, write);
    }

    /** The second loop of one column of dropPieces: every cell from the
        cursor up to the top gets a random piece. */
    method Refill(c: int, write: int, ghost bottom: seq<Cell>)
      requires Sized() && 0 <= c < SIZE && -1 <= write < SIZE && write + 1 + |bottom| == SIZE
      requires forall k :: write < k < SIZE ==> grid[k, c] == bottom[k - write - 1]
      modifies grid
      ensures forall k :: 0 <= k <= write ==> grid[k, c].Piece?
      ensures forall k :: write < k < SIZE ==> grid[k, c] == bottom[k - write - 1]
      ensures forall r, k :: 0 <= r < SIZE && 0 <= k < SIZE && k != c ==> grid[r, k] == old(grid[r, k])
    {
      var w := write;
      while w >= 0
        invariant -1 <= w <= write
        invariant forall k :: w < k <= write ==> grid[k, c].Piece?
        invariant forall k :: write < k < SIZE ==> grid[k, c] == bottom[k - write - 1]
        invariant forall i, k :: 0 <= i < SIZE && 0 <= k < SIZE && k != c ==> grid[i, k] == old(grid[i, k])
      {
        grid[w, c] := RandomPiece();
        w := w - 1;
      }
    }

    /** dropPieces: every column falls and is refilled; then the new board
        is searched, and either its matches are scheduled for clearing or
        the board is released. */
    method DropPieces()
      requires Sized() && busy && selected.None? && pending.Idle?
      modifies this`busy, this`pending, grid
      ensures Valid()
      ensures Dropped(old(Snapshot(grid)), Snapshot(grid))
      ensures var m := Matched(Snapshot(grid));
        (busy <==> m != {}) && pending == if m == {} then Idle else Clear(m)
    {
      ghost var g0 := Snapshot(grid);
      for c := 0 to SIZE
        modifies grid
        invariant forall k :: 0 <= k < c ==> Settled(Column(g0, k), Column(Snapshot(grid), k))
        invariant forall r, k :: 0 <= r < SIZE && c <= k < SIZE ==> grid[r, k] == g0[r][k]
      {
        ghost var before := Snapshot(grid);
        SameColumn(before, g0, c);
        DropColumn(c);
        forall k | 0 <= k < c
          ensures Column(Snapshot(grid), k) == Column(before, k)
        {
          SameColumn(Snapshot(grid), before, k);
        }
      }
      DroppedIsFull(g0, Snapshot(grid));
      var matches := FindMatches();
      if matches != {} {
        ClearMatches(matches);
      } else {
        busy := false;
      }
    }

    /** clearMatches: schedules the callback that empties `cells` and then
        runs dropPieces. */
    method ClearMatches(cells: set<Coord>)
      modifies this`pending
      ensures pending == Clear(cells)
    {
      pending := Clear(cells);
    }

    /** trySwap: swaps a and b and searches the board. Without a match the
        swap is undone by a timer; with one the move is counted and the
        matches are scheduled for clearing. */
    method TrySwap(a: Coord, b: Coord)
      requires Valid() && InBounds(a) && InBounds(b) && !busy && selected.None?
      modifies this`busy, this`moves, this`pending, grid
      ensures Valid() && busy
      ensures Snapshot(grid) == Swapped(old(Snapshot(grid)), a, b)
      ensures var m := Matched(Snapshot(grid));
        if m == {} then pending == Revert(a, b) && moves == old(moves)
        else pending == Clear(m) && moves == old(moves) + 1
    {
      busy := true;
      Swap(a, b);
      SwappedFull(old(Snapshot(grid)), a, b);
      var matches := FindMatches();
      if |matches| == 0 {
        pending := Revert(a, b);
      } else {
        moves := moves + 1;
        ClearMatches(matches);
      }
    }

    /** A swap that makes no match, followed by the timer it schedules:
        the board, the move counter and the busy flag end as they started. */
    method SwapRejected(a: Coord, b: Coord)
      requires Valid() && InBounds(a) && InBounds(b) && !busy && selected.None?
      requires Matched(Swapped(Snapshot(grid), a, b)) == {}
      modifies this`busy, this`moves, this`pending, grid
      ensures Valid() && !busy && pending.Idle?
      ensures Snapshot(grid) == old(Snapshot(grid)) && moves == old(moves)
    {
      TrySwap(a, b);
      OnTimer();
      SwapInvolution(old(Snapshot(grid)), a, b);
    }

    /** The pending setTimeout callback runs: the revert of trySwap (swap
        back, release the board), or the one of clearMatches (empty the
        cells, then dropPieces). With no timer pending nothing happens. */
    method OnTimer()
      requires Valid()
      modifies this`busy, this`pending, grid
      ensures Valid()
      ensures old(pending).Idle? ==>
        busy == old(busy) && pending == old(pending) && Snapshot(grid) == old(Snapshot(grid))
      ensures old(pending).Revert? ==>
        !busy && pending.Idle? && Snapshot(grid) == Swapped(old(Snapshot(grid)), old(pending).a, old(pending).b)
      ensures old(pending).Clear? ==>
        Dropped(Cleared(old(Snapshot(grid)), old(pending).cells), Snapshot(grid)) &&
        var m := Matched(Snapshot(grid));
        (busy <==> m != {}) && pending == if m == {} then Idle else Clear(m)
    {
      match pending {
        case Idle =>
        case Revert(a, b) =>
          pending := Idle;
          Swap(a, b);
          SwappedFull(old(Snapshot(grid)), a, b);
          busy := false;
        case Clear(cells) =>
          pending := Idle;
          NullCells(cells);
          DropPieces();
      }
    }

    /** onCellClick on the cell (r, c): ignored while busy; otherwise it
        selects, deselects, re-selects, or swaps with the selected cell when
        the two are adjacent. */
    method OnCellClick(r: int, c: int)
      requires Valid() && InBounds(Coord(r, c))
      modifies this`selected, this`busy, this`moves, this`pending, grid
      ensures Valid()
      ensures old(busy) ==>
        selected == old(selected) && busy && moves == old(moves) && pending == old(pending) &&
        Snapshot(grid) == old(Snapshot(grid))
      ensures !old(busy) && (old(selected).None? || (old(selected) != Some(Coord(r, c)) && !AreAdjacent(old(selected).value, Coord(r, c)))) ==>
        selected == Some(Coord(r, c)) && !busy && moves == old(moves) && pending.Idle? &&
        Snapshot(grid) == old(Snapshot(grid))
      ensures !old(busy) && old(selected) == Some(Coord(r, c)) ==>
        selected.None? && !busy && moves == old(moves) && pending.Idle? &&
        Snapshot(grid) == old(Snapshot(grid))
      ensures !old(busy) && old(selected).Some? && old(selected) != Some(Coord(r, c)) && AreAdjacent(old(selected).value, Coord(r, c)) ==>
        var s := old(selected).value;
        selected.None? && busy && Snapshot(grid) == Swapped(old(Snapshot(grid)), s, Coord(r, c)) &&
        var m := Matched(Snapshot(grid));
        if m == {} then pending == Revert(s, Coord(r, c)) && moves == old(moves)
        else pending == Clear(m) && moves == old(moves) + 1
    {
      if busy {
        return;
      }
      if selected.None? {
        SetSelected(r, c);
      } else {
        var s := selected.value;
        if s.r == r && s.c == c {
          ClearSelection();
        } else if AreAdjacent(s, Coord(r, c)) {
          ClearSelection();
          TrySwap(s, Coord(r, c));
        } else {
          SetSelected(r, c);
        }
      }
    }

    /** shuffle: ignored while busy; otherwise the pieces of the board are
        flattened, permuted by Fisher-Yates and laid out again row by row
        on a new board. */
    method Shuffle()
      requires Valid()
      modifies this`busy, this`grid
      ensures Valid() && busy == old(busy)
      ensures old(busy) ==> grid == old(grid)
      ensures !old(busy) ==> fresh(grid)
      ensures !old(busy) ==> multiset(Flatten(Snapshot(grid))) == multiset(Flatten(old(Snapshot(grid))))
    {
      if busy {
        return;
      }
      busy := true;
      grid := ShuffledBoard(grid);
      busy := false;
    }
  }

  /** The board part of shuffle: grid.flat(), the Fisher-Yates loop, and the
      rebuild into rows, on a new array. */
  method ShuffledBoard(a: array2<Cell>) returns (b: array2<Cell>)
    requires a.Length0 == SIZE && a.Length1 == SIZE
    ensures fresh(b) && b.Length0 == SIZE && b.Length1 == SIZE
    ensures multiset(Flatten(Snapshot(b))) == multiset(Flatten(Snapshot(a)))
    ensures Full(Snapshot(a)) ==> Full(Snapshot(b))
  {
    var pieces := FlatCopy(a);
    ghost var flat := pieces[..];
    FisherYates(pieces);
    b := Rebuild(pieces);
    assert multiset(Flatten(Snapshot(b))) == multiset(flat);
    if Full(Snapshot(a)) {
      ShuffledIsFull(Snapshot(a), Snapshot(b));
    }
  }

  /** A board whose flattening is a permutation of a full board's is full. */
  lemma ShuffledIsFull(g: Grid, h: Grid)
    requires IsGrid(g) && IsGrid(h) && Full(g)
    requires multiset(Flatten(h)) == multiset(Flatten(g))
    ensures Full(h)
  {
    FullIffFlatPieces(g);
    FullIffFlatPieces(h);
    forall x | x in Flatten(h)
      ensures x.Piece?
    {
      assert x in multiset(Flatten(g));
    }
  }

  /** The shuffle loop of shuffle: for i from the last index down to 1, the
      entry at i is exchanged with one at a random j in [0, i]. */
  method FisherYates(pieces: array<Cell>)
    modifies pieces
    ensures multiset(pieces[..]) == multiset(old(pieces[..]))
  {
    var i := pieces.Length - 1;
    while i > 0
      invariant i < pieces.Length
      invariant multiset(pieces[..]) == multiset(old(pieces[..]))
    {
      var j :| 0 <= j <= i;
      pieces[i], pieces[j] := pieces[j], pieces[i];
      i := i - 1;
    }
  }

  /** grid.flat(): a new array holding the cells row by row. */
  method FlatCopy(a: array2<Cell>) returns (pieces: array<Cell>)
    requires a.Length0 == SIZE && a.Length1 == SIZE
    ensures fresh(pieces) && pieces.Length == SIZE * SIZE && pieces[..] == Flatten(Snapshot(a))
  {
    pieces := new Cell[SIZE * SIZE](i requires 0 <= i < SIZE * SIZE reads a => a[i / SIZE, i % SIZE]);
    ghost var g := Snapshot(a);
    forall i | 0 <= i < SIZE * SIZE
      ensures pieces[i] == Flatten(g)[i]
    {
      IdxBijection(0, 0, i);
      FlattenAt(g, i / SIZE, i % SIZE);
    }
  }

  /** The rebuild loop of shuffle: each pass takes the next SIZE pieces off
      the front and appends them as a row. */
  method Rebuild(pieces: array<Cell>) returns (a: array2<Cell>)
    requires pieces.Length == SIZE * SIZE
    ensures fresh(a) && a.Length0 == SIZE && a.Length1 == SIZE
    ensures Snapshot(a) == Rows(pieces[..]) && Flatten(Snapshot(a)) == pieces[..]
  {
    a := new Cell[SIZE, SIZE];
    for r := 0 to SIZE
      invariant forall i, c :: 0 <= i < r && 0 <= c < SIZE ==> a[i, c] == pieces[Idx(i, c)]
    {
      for c := 0 to SIZE
        invariant forall i, k :: (0 <= i < r && 0 <= k < SIZE) || (i == r && 0 <= k < c) ==> a[i, k] == pieces[Idx(i, k)]
      {
        a[r, c] := pieces[Idx(r, c)];
      }
    }
    RowsAt(pieces[..], 0, 0);
    FlattenRows(pieces[..]);
    forall r, c | 0 <= r < SIZE && 0 <= c < SIZE
      ensures Rows(pieces[..])[r][c] == a[r, c]
    {
      RowsAt(pieces[..], r, c);
    }
    SameCells(Snapshot(a), Rows(pieces[..]));
  }
}