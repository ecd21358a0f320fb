/** The playfield (src/game/Board.js): a height x width grid of cells that is
    reset, checked for full rows, cleared bottom-up and stamped with locked
    pieces. */
module Playfield {
  import opened Cells
  import opened Pieces

  // ---------------------------------------------------------------------
  // Full rows and line clearing, on values

  /** `row.every(cell => cell !== 0)`: checks the cells from the left and
      stops at the first empty one. */
  function AllFilled(row: Row): bool {
    |row| == 0 || (row[0] != Empty && AllFilled(row[1..]))
  }

  /** The left-to-right check is true exactly when no cell is empty. */
  lemma {:induction false} AllFilledIff(row: Row)
    ensures AllFilled(row) <==> forall c :: 0 <= c < |row| ==> row[c] != Empty
  {
    if |row| > 0 {
      AllFilledIff(row[1..]);
      assert forall c :: 1 <= c < |row| ==> row[c] == row[1..][c - 1];
    }
  }

  /** The number of full rows among rows m, m+1, ... of `g`. */
  function FullCountFrom(g: Grid, m: nat): (n: nat)
    ensures m <= |g| ==> n <= |g| - m
    ensures m >= |g| ==> n == 0
    decreases |g| - m
  {
    if m >= |g| then 0
    else (if AllFilled(g[m]) then 1 else 0) + FullCountFrom(g, m + 1)
  }

  /** The rows m, m+1, ... of `g` that are not full, in their original order. */
  function KeptFrom(g: Grid, m: nat): (rows: Grid)
    ensures m <= |g| ==> |rows| + FullCountFrom(g, m) == |g| - m
    decreases |g| - m
  {
    if m >= |g| then []
    else (if AllFilled(g[m]) then [] else [g[m]]) + KeptFrom(g, m + 1)
  }

  /** The number of full rows of `g`. */
  function FullCount(g: Grid): (n: nat)
    ensures n <= |g|
  {
    FullCountFrom(g, 0)
  }

  /** The rows of `g` that are not full, in their original order. */
  function Kept(g: Grid): (rows: Grid)
    ensures |rows| + FullCount(g) == |g|
  {
    KeptFrom(g, 0)
  }

  /** No full row is counted exactly when no row is full. */
  lemma {:induction false} NoFullRows(g: Grid, m: nat)
    ensures FullCountFrom(g, m) == 0 <==> forall i :: m <= i < |g| ==> !AllFilled(g[i])
    decreases |g| - m
  {
    if m < |g| {
      NoFullRows(g, m + 1);
    }
  }

  /** The kept rows are rows of `g`, none of them full. */
  lemma {:induction false} KeptRows(g: Grid, m: nat)
    ensures forall i :: 0 <= i < |KeptFrom(g, m)| ==> !AllFilled(KeptFrom(g, m)[i]) && KeptFrom(g, m)[i] in g
    decreases |g| - m
  {
    if m < |g| {
      KeptRows(g, m + 1);
      var head := if AllFilled(g[m]) then [] else [g[m]];
      assert KeptFrom(g, m) == head + KeptFrom(g, m + 1);
      forall i | 0 <= i < |KeptFrom(g, m)| ensures !AllFilled(KeptFrom(g, m)[i]) && KeptFrom(g, m)[i] in g {
        if i >= |head| {
          assert KeptFrom(g, m)[i] == KeptFrom(g, m + 1)[i - |head|];
        }
      }
    }
  }

  /** When no row is full every row is kept, in place. */
  lemma {:induction false} KeptAll(g: Grid, m: nat)
    requires m <= |g| && FullCountFrom(g, m) == 0
    ensures KeptFrom(g, m) == g[m..]
    decreases |g| - m
  {
    if m < |g| {
      KeptAll(g, m + 1);
      assert g[m..] == [g[m]] + g[m + 1..];
    }
  }

  /** `k` empty rows of the given width. */
  function Empties(k: nat, width: nat): Grid {
    seq(k, _ => EmptyRow(width))
  }

  /** The grid after line clearing: one empty row on top for every full row
      removed, then the remaining rows in order. */
  function AfterClear(g: Grid, width: nat): Grid {
    Empties(FullCount(g), width) + Kept(g)
  }

  /** Clearing keeps the grid's dimensions and leaves no full row behind. */
  lemma ClearedShape(g: Grid, height: nat, width: nat)
    requires IsGrid(g, height, width) && width >= 1
    ensures IsGrid(AfterClear(g, width), height, width)
    ensures forall i :: 0 <= i < height ==> !AllFilled(AfterClear(g, width)[i])
  {
    KeptRows(g, 0);
    var e := Empties(FullCount(g), width);
    var a := AfterClear(g, width);
    forall i | 0 <= i < height
      ensures |a[i]| == width && !AllFilled(a[i])
    {
      if i < |e| {
        assert a[i] == EmptyRow(width);
        assert a[i][0] == Empty;
      } else {
        assert a[i] == Kept(g)[i - |e|];
      }
    }
  }

  /** On a grid without full rows clearing changes nothing. */
  lemma ClearWithoutFullRows(g: Grid, width: nat)
    requires forall i :: 0 <= i < |g| ==> !AllFilled(g[i])
    ensures AfterClear(g, width) == g
  {
    NoFullRows(g, 0);
    KeptAll(g, 0);
    assert Empties(0, width) == [];
  }

  // ---------------------------------------------------------------------
  // Merging a piece, on values

  /** Row `i` of a grid with `kind` written into every cell covered by shape
      `s` placed at (px, py). */
  function StampRow(row: Row, s: Shape, px: int, py: int, kind: Kind, i: int): (r: Row)
    ensures |r| == |row|
    decreases |row|
  {
    if row == [] then []
    else
      var j := |row| - 1;
      StampRow(row[..j], s, px, py, kind, i) + [if Covers(s, px, py, j, i) then Block(kind) else row[j]]
  }

  /** The grid with `kind` written into every cell covered by shape `s`
      placed at (px, py); cells the shape maps above row 0 do not exist in
      the grid and are dropped. */
  function Stamp(g: Grid, s: Shape, px: int, py: int, kind: Kind): (r: Grid)
    ensures |r| == |g| && forall i :: 0 <= i < |g| ==> |r[i]| == |g[i]|
    decreases |g|
  {
    if g == [] then []
    else
      var i := |g| - 1;
      Stamp(g[..i], s, px, py, kind) + [StampRow(g[i], s, px, py, kind, i)]
  }

  lemma {:induction false} StampRowAt(row: Row, s: Shape, px: int, py: int, kind: Kind, i: int)
    ensures forall j :: 0 <= j < |row| ==>
      StampRow(row, s, px, py, kind, i)[j] == if Covers(s, px, py, j, i) then Block(kind) else row[j]
    decreases |row|
  {
    if row != [] {
      var j := |row| - 1;
      StampRowAt(row[..j], s, px, py, kind, i);
    }
  }

  /** Cell (i, j) of the merged grid is `kind` when the shape covers it and
      the old cell otherwise. */
  lemma {:induction false} StampAt(g: Grid, s: Shape, px: int, py: int, kind: Kind)
    ensures forall i, j :: 0 <= i < |g| && 0 <= j < |g[i]| ==>
      Stamp(g, s, px, py, kind)[i][j] == if Covers(s, px, py, j, i) then Block(kind) else g[i][j]
    decreases |g|
  {
    if g != [] {
      var n := |g| - 1;
      StampAt(g[..n], s, px, py, kind);
      StampRowAt(g[n], s, px, py, kind, n);
      forall i, j | 0 <= i < |g| && 0 <= j < |g[i]|
        ensures Stamp(g, s, px, py, kind)[i][j] == if Covers(s, px, py, j, i) then Block(kind) else g[i][j]
      {
        if i < n {
          assert g[..n][i] == g[i];
        }
      }
    }
  }

  /** Merging a shape writes `kind` into the cell under each of its blocks
      that lies inside the grid, and leaves every other cell as it was. */
  lemma StampCells(g: Grid, s: Shape, px: int, py: int, kind: Kind)
    ensures var r := Stamp(g, s, px, py, kind);
      forall a, b ::
        (0 <= a < |s| && 0 <= b < |s[a]| && s[a][b] && 0 <= py + a < |g| && 0 <= px + b < |g[py + a]|)
        ==> r[py + a][px + b] == Block(kind)
    ensures var r := Stamp(g, s, px, py, kind);
      forall i, j :: 0 <= i < |g| && 0 <= j < |g[i]| && !Covers(s, px, py, j, i) ==> r[i][j] == g[i][j]
  {
    StampAt(g, s, px, py, kind);
    var r := Stamp(g, s, px, py, kind);
    forall a, b |
        0 <= a < |s| && 0 <= b < |s[a]| && s[a][b] && 0 <= py + a < |g| && 0 <= px + b < |g[py + a]|
      ensures r[py + a][px + b] == Block(kind)
    {
      assert Covers(s, px, py, px + b, py + a);
    }
  }

  /** Cell (col, row) is covered by a block of `s` at (px, py) that the
      merge loop has reached before shape cell (r, c). */
  predicate CoveredBefore(s: Shape, px: int, py: int, col: int, row: int, r: int, c: int) {
    Covers(s, px, py, col, row) && (row - py < r || (row - py == r && col - px < c))
  }

  // ---------------------------------------------------------------------
  // The board object

  class Board {
    const height: nat
    const width: nat
    var grid: Grid

    ghost predicate Valid()
      reads this
    {
      IsGrid(grid, height, width)
    }

    /** A height x width grid with every cell empty. */
    constructor (height: nat, width: nat)
      ensures Valid() && this.height == height && this.width == width
      ensures forall i, j :: 0 <= i < height && 0 <= j < width ==> grid[i][j] == Empty
    {
      this.height := height;
      this.width := width;
      grid := seq(height, _ => seq(width, _ => Empty));
      new;
      Reset();
    }

    /** Writes `0` into every cell, row by row. */
    method Reset()
      requires Valid()
      modifies this
      ensures Valid()
      ensures forall i, j :: 0 <= i < height && 0 <= j < width ==> grid[i][j] == Empty
    {
      for r := 0 to height
        invariant IsGrid(grid, height, width)
        invariant forall i, j :: 0 <= i < r && 0 <= j < width ==> grid[i][j] == Empty
      {
        for c := 0 to width
          invariant IsGrid(grid, height, width)
          invariant forall i, j :: 0 <= i < r && 0 <= j < width ==> grid[i][j] == Empty
          invariant forall j :: 0 <= j < c ==> grid[r][j] == Empty
        {
          grid := grid[r := grid[r][c := Empty]];
        }
      }
    }

    /** Row `y` has no empty cell. */
    function IsLineFull(y: int): (full: bool)
      reads this
      requires 0 <= y < |grid|
      ensures full <==> forall c :: 0 <= c < |grid[y]| ==> grid[y][c] != Empty
    {
      AllFilledIff(grid[y]);
      AllFilled(grid[y])
    }

    /** Scans the rows from the bottom up; each full row is spliced out and an
        empty row is put on top, and the same index is examined again.
        Returns the number of rows removed. A zero width is excluded: every
        row would then be full, the inserted ones too, and the scan would
        never end. The scan works on `rows` and stores it in `grid` at the
        end; nothing else reads the grid meanwhile, and the row test is
        `IsLineFull`'s, applied to `rows`. */
    method ClearLines() returns (cleared: nat)
      requires Valid() && width >= 1
      modifies this
      ensures Valid()
      ensures cleared == FullCount(old(grid))
      ensures grid == AfterClear(old(grid), width)
    {
      ghost var g0 := grid;
      var rows := grid;
      // g0[..m] are the original rows not yet examined
      ghost var m := height;
      cleared := 0;
      var y := height - 1;
      ScanStart(g0, width);
      while y >= 0
        invariant 0 <= m <= height
        invariant cleared == FullCountFrom(g0, m)
        invariant rows == ScanGrid(g0, m, cleared, width)
        invariant y + 1 <= cleared + m && (m == 0 || y + 1 == cleared + m)
        decreases y + 1 + m
      {
        if AllFilled(rows[y]) {
          ScanFullRow(rows, g0, m, cleared, y, height, width);
          rows := [EmptyRow(width)] + (rows[..y] + rows[y + 1..]);
          cleared := cleared + 1;
          m := m - 1;
          y := y + 1;
        } else if m > 0 {
          ScanKeptRow(rows, g0, m, cleared, width);
          m := m - 1;
        }
        y := y - 1;
      }
      assert m == 0;
      ScanDone(g0, cleared, width);
      grid := rows;
      ScanIsGrid(g0, 0, cleared, height, width);
    }

    /** Writes the piece's kind into each board cell under an occupied cell
        of its shape, skipping cells above row 0. There is no check on the
        column or on the lower rows, so the piece must lie inside the grid. */
    method AddPiece(piece: Tetromino)
      requires Valid()
      requires InBounds(piece.shape, piece.x, piece.y, height, width)
      modifies this
      ensures Valid()
      ensures grid == Stamp(old(grid), piece.shape, piece.x, piece.y, piece.kind)
    {
      var s, px, py := piece.shape, piece.x, piece.y;
      for r := 0 to |s|
        invariant IsGrid(grid, height, width)
        invariant forall i, j :: 0 <= i < height && 0 <= j < width ==>
          grid[i][j] == if CoveredBefore(s, px, py, j, i, r, 0) then Block(piece.kind) else old(grid)[i][j]
      {
        for c := 0 to |s[r]|
          invariant IsGrid(grid, height, width)
          invariant forall i, j :: 0 <= i < height && 0 <= j < width ==>
            grid[i][j] == if CoveredBefore(s, px, py, j, i, r, c) then Block(piece.kind) else old(grid)[i][j]
        {
          if s[r][c] {
            var row, col := py + r, px + c;
            if row >= 0 {
              grid := grid[row := grid[row][col := Block(piece.kind)]];
            }
          }
        }
      }
      StampAt(old(grid), s, px, py, piece.kind);
      MatrixExt(grid, Stamp(old(grid), s, px, py, piece.kind));
    }
  }

  /** The grid while the bottom-up scan runs: `cleared` empty rows on top,
      the first `m` original rows, not yet examined, then the examined rows
      that were not full. */
  function ScanGrid(g0: Grid, m: nat, cleared: nat, width: nat): Grid
    requires m <= |g0|
  {
    Empties(cleared, width) + g0[..m] + KeptFrom(g0, m)
  }

  /** Every grid the bottom-up scan passes through has the original
      dimensions: the empty rows on top replace exactly the rows removed. */
  lemma ScanIsGrid(g0: Grid, m: nat, cleared: nat, height: nat, width: nat)
    requires m <= |g0| && IsGrid(g0, height, width)
    requires cleared == FullCountFrom(g0, m)
    ensures IsGrid(ScanGrid(g0, m, cleared, width), height, width)
  {
    var a := Empties(cleared, width) + g0[..m];
    var b := KeptFrom(g0, m);
    KeptRows(g0, m);
    forall i | 0 <= i < |a + b| ensures |(a + b)[i]| == width {
      if i >= |a| {
        assert (a + b)[i] == b[i - |a|];
      }
    }
  }

  /** Before the scan examines any row, the grid is the original grid. */
  lemma ScanStart(g0: Grid, width: nat)
    ensures ScanGrid(g0, |g0|, 0, width) == g0 && FullCountFrom(g0, |g0|) == 0
  {
    assert g0[..|g0|] == g0;
    assert Empties(0, width) == [] && KeptFrom(g0, |g0|) == [];
  }

  /** When the scan has examined every original row, the grid is the
      cleared grid. */
  lemma ScanDone(g0: Grid, cleared: nat, width: nat)
    requires cleared == FullCountFrom(g0, 0)
    ensures ScanGrid(g0, 0, cleared, width) == AfterClear(g0, width)
  {
    assert g0[..0] == [];
    assert Empties(cleared, width) + [] == Empties(cleared, width);
  }

  /** One step of the bottom-up scan at a full row: the row is original row
      g0[m-1] (the empty rows on top are never full), and splicing it out and
      putting an empty row on top keeps the grid in the scan's shape with one
      more row cleared. */
  lemma ScanFullRow(grid: Grid, g0: Grid, m: nat, cleared: nat, y: int, height: nat, width: nat)
    requires width >= 1 && m <= |g0|
    requires grid == ScanGrid(g0, m, cleared, width)
    requires 0 <= y && y + 1 <= cleared + m && (m == 0 || y + 1 == cleared + m)
    requires AllFilled(grid[y])
    ensures m > 0 && y == cleared + m - 1
    ensures [EmptyRow(width)] + (grid[..y] + grid[y + 1..]) ==
      ScanGrid(g0, m - 1, cleared + 1, width)
    ensures FullCountFrom(g0, m - 1) == FullCountFrom(g0, m) + 1
  {
    ScanTop(g0, m, cleared, y, width);
    SpliceLast(EmptyRow(width), Empties(cleared, width), g0[..m], KeptFrom(g0, m));
    ScanDropRow(g0, m, cleared, width);
  }

  /** Dropping the last unexamined row, a full one, and adding an empty row
      on top is the scan state with one row fewer to examine and one more
      row cleared. */
  lemma ScanDropRow(g0: Grid, m: nat, cleared: nat, width: nat)
    requires 0 < m <= |g0| && AllFilled(g0[m - 1])
    ensures [EmptyRow(width)] + Empties(cleared, width) + g0[..m][..m - 1] + KeptFrom(g0, m) ==
      ScanGrid(g0, m - 1, cleared + 1, width)
    ensures FullCountFrom(g0, m - 1) == FullCountFrom(g0, m) + 1
  {
    assert g0[..m][..m - 1] == g0[..m - 1];
    assert KeptFrom(g0, m - 1) == KeptFrom(g0, m);
    EmptiesCons(cleared, width);
  }

  lemma EmptiesCons(k: nat, width: nat)
    ensures Empties(k + 1, width) == [EmptyRow(width)] + Empties(k, width)
  {
    var a, b := Empties(k + 1, width), [EmptyRow(width)] + Empties(k, width);
    assert forall i :: 0 <= i < k + 1 ==> a[i] == b[i];
  }

  /** The rows the scan has put on top are empty, so never full. */
  lemma ScanTop(g0: Grid, m: nat, cleared: nat, y: int, width: nat)
    requires m <= |g0| && 0 <= y && width >= 1
    ensures y < cleared ==> !AllFilled(ScanGrid(g0, m, cleared, width)[y])
  {
    if y < cleared {
      var e := Empties(cleared, width);
      assert ScanGrid(g0, m, cleared, width)[y] == e[y];
      assert e[y][0] == Empty;
    }
  }

  /** Taking out the last element of the middle part of `e + p + k` and
      putting `x` in front. */
  lemma SpliceLast<T>(x: T, e: seq<T>, p: seq<T>, k: seq<T>)
    requires |p| > 0
    ensures var s, y := e + p + k, |e| + |p| - 1;
      s[y] == p[|p| - 1] && [x] + (s[..y] + s[y + 1..]) == [x] + e + p[..|p| - 1] + k
  {
    var s, y := e + p + k, |e| + |p| - 1;
    assert s[..y] == e + p[..|p| - 1];
    assert s[y + 1..] == k;
  }

  /** One step of the bottom-up scan at an original row that is not full:
      the row joins the examined rows unchanged. */
  lemma ScanKeptRow(grid: Grid, g0: Grid, m: nat, cleared: nat, width: nat)
    requires 0 < m <= |g0|
    requires grid == ScanGrid(g0, m, cleared, width)
    requires !AllFilled(grid[cleared + m - 1])
    ensures grid == ScanGrid(g0, m - 1, cleared, width)
    ensures FullCountFrom(g0, m - 1) == FullCountFrom(g0, m)
  {
    var e := Empties(cleared, width);
    assert grid[cleared + m - 1] == g0[m - 1];
    assert KeptFrom(g0, m - 1) == [g0[m - 1]] + KeptFrom(g0, m);
    assert g0[..m] == g0[..m - 1] + [g0[m - 1]];
    calc {
      grid;
      e + (g0[..m - 1] + [g0[m - 1]]) + KeptFrom(g0, m);
      e + g0[..m - 1] + ([g0[m - 1]] + KeptFrom(g0, m));
    }
  }
}
