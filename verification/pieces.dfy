/** The falling piece (src/game/Tetromino.js): spawn placement, square-matrix
    rotation, the collision query against a grid, and the ghost-row search. */
module Pieces {
  import opened Cells

  // ---------------------------------------------------------------------
  // Spawn placement

  /** Spawn column: the floor of (10 - width) / 2 for I and O, one less for
      the other kinds. The 10 is a literal in the source, not the playfield
      width. */
  function SpawnX(kind: Kind, width: int): (x: int)
    ensures kind == I || kind == O ==> 2 * x <= 10 - width < 2 * x + 2
    ensures kind != I && kind != O ==> 2 * (x + 1) <= 10 - width < 2 * (x + 1) + 2
  {
    // Dafny's `/` by a positive divisor rounds down, as Math.floor does.
    if kind == I || kind == O then (10 - width) / 2 else (10 - width) / 2 - 1
  }

  /** Spawn row: 21 for I, 22 for every other kind. */
  function SpawnY(kind: Kind): int {
    if kind == I then 21 else 22
  }

  // ---------------------------------------------------------------------
  // Rotation of a square shape matrix

  /** Clockwise quarter turn: cell (y, x) moves to (x, N-1-y). */
  function RotatedCW(s: Shape): (t: Shape)
    requires IsSquare(s)
    ensures |t| == |s| && IsSquare(t)
  {
    var n := |s|;
    seq(n, i requires 0 <= i < n => seq(n, j requires 0 <= j < n => s[n - 1 - j][i]))
  }

  /** Counter-clockwise quarter turn: cell (y, x) moves to (N-1-x, y). */
  function RotatedCCW(s: Shape): (t: Shape)
    requires IsSquare(s)
    ensures |t| == |s| && IsSquare(t)
  {
    var n := |s|;
    seq(n, i requires 0 <= i < n => seq(n, j requires 0 <= j < n => s[j][n - 1 - i]))
  }

  /** Where a quarter turn sends each cell of an N x N shape: clockwise from
      (y, x) to (x, N-1-y), counter-clockwise from (y, x) to (N-1-x, y). */
  lemma TurnMovesCells(s: Shape, y: int, x: int)
    requires IsSquare(s) && 0 <= y < |s| && 0 <= x < |s|
    ensures RotatedCW(s)[x][|s| - 1 - y] == s[y][x]
    ensures RotatedCCW(s)[|s| - 1 - x][y] == s[y][x]
  {
  }

  /** The shape after one turn: clockwise for direction 1, counter-clockwise
      for any other direction. */
  function Turned(s: Shape, direction: int): Shape
    requires IsSquare(s)
  {
    if direction == 1 then RotatedCW(s) else RotatedCCW(s)
  }

  /** The occupied cells of a shape, as (row, column) pairs. */
  function Occupied(s: Shape): set<(int, int)> {
    set r, c | 0 <= r < |s| && 0 <= c < |s[r]| && s[r][c] :: (r, c)
  }

  /** Four clockwise turns give back the original shape. */
  lemma {:induction false} FourTurnsIdentity(s: Shape)
    requires IsSquare(s)
    ensures RotatedCW(RotatedCW(RotatedCW(RotatedCW(s)))) == s
  {
    var n := |s|;
    var t1 := RotatedCW(s);
    var t2 := RotatedCW(t1);
    var t3 := RotatedCW(t2);
    var t4 := RotatedCW(t3);
    forall i, j | 0 <= i < n && 0 <= j < n
      ensures t4[i][j] == s[i][j]
    {
      calc {
        t4[i][j];
        t3[n - 1 - j][i];
        t2[n - 1 - i][n - 1 - j];
        t1[j][n - 1 - i];
        s[i][j];
      }
    }
    MatrixExt(t4, s);
  }

  /** A clockwise turn followed by a counter-clockwise one, in either order,
      gives back the original shape. */
  lemma {:induction false} TurnsCancel(s: Shape)
    requires IsSquare(s)
    ensures RotatedCCW(RotatedCW(s)) == s
    ensures RotatedCW(RotatedCCW(s)) == s
  {
    var n := |s|;
    var a := RotatedCCW(RotatedCW(s));
    var b := RotatedCW(RotatedCCW(s));
    forall i, j | 0 <= i < n && 0 <= j < n
      ensures a[i][j] == s[i][j] && b[i][j] == s[i][j]
    {
      assert a[i][j] == RotatedCW(s)[j][n - 1 - i];
      assert b[i][j] == RotatedCCW(s)[n - 1 - j][i];
    }
    MatrixExt(a, s);
    MatrixExt(b, s);
  }

  /** The image of a set of cells under the clockwise cell map (y, x) -> (x, n-1-y)
      has as many cells as the set. */
  lemma {:induction false} TurnImageSize(cells: set<(int, int)>, n: int)
    ensures |set p | p in cells :: (p.1, n - 1 - p.0)| == |cells|
    decreases |cells|
  {
    var image := set p | p in cells :: (p.1, n - 1 - p.0);
    if cells != {} {
      var q :| q in cells;
      var rest := cells - {q};
      var restImage := set p | p in rest :: (p.1, n - 1 - p.0);
      TurnImageSize(rest, n);
      assert image == restImage + {(q.1, n - 1 - q.0)};
      assert (q.1, n - 1 - q.0) !in restImage;
    } else {
      assert image == {};
    }
  }

  /** A clockwise turn moves each occupied cell to one occupied cell and back. */
  lemma OccupiedAfterCW(s: Shape)
    requires IsSquare(s)
    ensures Occupied(RotatedCW(s)) == set p | p in Occupied(s) :: (p.1, |s| - 1 - p.0)
  {
    var n := |s|;
    var t := RotatedCW(s);
    var image := set p | p in Occupied(s) :: (p.1, n - 1 - p.0);
    forall q | q in Occupied(t) ensures q in image {
      var i, j := q.0, q.1;
      assert t[i][j] == s[n - 1 - j][i];
      assert (n - 1 - j, i) in Occupied(s);
    }
    forall q | q in image ensures q in Occupied(t) {
      var p :| p in Occupied(s) && q == (p.1, n - 1 - p.0);
      assert t[p.1][n - 1 - p.0] == s[p.0][p.1];
    }
  }

  /** Rotation keeps the number of occupied cells, in both directions. */
  lemma {:induction false} TurnsKeepCellCount(s: Shape)
    requires IsSquare(s)
    ensures |Occupied(RotatedCW(s))| == |Occupied(s)|
    ensures |Occupied(RotatedCCW(s))| == |Occupied(s)|
  {
    OccupiedAfterCW(s);
    TurnImageSize(Occupied(s), |s|);
    var c := RotatedCCW(s);
    OccupiedAfterCW(c);
    TurnImageSize(Occupied(c), |c|);
    TurnsCancel(s);
  }

  /** A rotated shape is again a valid shape. */
  lemma TurnsKeepShape(s: Shape)
    requires IsShape(s)
    ensures IsShape(RotatedCW(s)) && IsShape(RotatedCCW(s))
  {
    var n := |s|;
    var r, c :| 0 <= r < n && 0 <= c < |s[r]| && s[r][c];
    assert RotatedCW(s)[c][n - 1 - r];
    assert RotatedCCW(s)[n - 1 - c][r];
  }

  // ---------------------------------------------------------------------
  // Collision

  /** A board position a block may not occupy: outside the side walls,
      at or below the floor, or on a filled cell. Rows above row 0 are
      compared with the side walls only. */
  predicate Obstructed(g: Grid, col: int, row: int)
    requires IsField(g)
  {
    col < 0 || col >= |g[0]| || row >= |g| || (row >= 0 && g[row][col] != Empty)
  }

  /** Shape `s` with its top-left corner at (px, py) collides with `g`. */
  predicate Collides(g: Grid, s: Shape, px: int, py: int)
    requires IsField(g)
  {
    exists r, c :: 0 <= r < |s| && 0 <= c < |s[r]| && s[r][c] && Obstructed(g, px + c, py + r)
  }

  /** Board cell (col, row) holds a block of shape `s` placed at (px, py). */
  predicate Covers(s: Shape, px: int, py: int, col: int, row: int) {
    0 <= row - py < |s| && 0 <= col - px < |s[row - py]| && s[row - py][col - px]
  }

  /** Every block of `s` at (px, py) that lands on row 0 or below lands
      inside a `height` x `width` grid. */
  predicate InBounds(s: Shape, px: int, py: int, height: int, width: int) {
    forall r, c :: 0 <= r < |s| && 0 <= c < |s[r]| && s[r][c] && py + r >= 0 ==>
      0 <= px + c < width && py + r < height
  }

  /** A piece placed entirely above row 0 collides exactly when one of its
      blocks is outside the side walls: the grid's contents play no part. */
  lemma AboveFieldOnlyWalls(g: Grid, s: Shape, px: int, py: int)
    requires IsField(g)
    requires forall r, c :: 0 <= r < |s| && 0 <= c < |s[r]| && s[r][c] ==> py + r < 0
    ensures Collides(g, s, px, py) <==>
      exists r, c :: 0 <= r < |s| && 0 <= c < |s[r]| && s[r][c] && (px + c < 0 || px + c >= |g[0]|)
  {
  }

  /** A position that does not collide is one where every block is inside
      the grid or above it. */
  lemma FreeIsInBounds(g: Grid, s: Shape, px: int, py: int)
    requires IsField(g)
    requires !Collides(g, s, px, py)
    ensures InBounds(s, px, py, |g|, |g[0]|)
  {
    forall r, c | 0 <= r < |s| && 0 <= c < |s[r]| && s[r][c] && py + r >= 0
      ensures 0 <= px + c < |g[0]| && py + r < |g|
    {
      assert !Obstructed(g, px + c, py + r);
    }
  }

  /** A shape with a block that is in bounds at (px, py) has its top row above the floor. */
  lemma InBoundsIsAboveFloor(s: Shape, px: int, py: int, height: int, width: int)
    requires height >= 0 && HasBlock(s) && InBounds(s, px, py, height, width)
    ensures py < height
  {
    var r, c :| 0 <= r < |s| && 0 <= c < |s[r]| && s[r][c];
  }

  /** A shape with a block that does not collide at (px, py) has its top row above the floor. */
  lemma FreeIsAboveFloor(g: Grid, s: Shape, px: int, py: int)
    requires IsField(g) && HasBlock(s)
    requires !Collides(g, s, px, py)
    ensures py < |g|
  {
    FreeIsInBounds(g, s, px, py);
    InBoundsIsAboveFloor(s, px, py, |g|, |g[0]|);
  }

  // ---------------------------------------------------------------------
  // Landing and the ghost row

  /** The row the piece comes to rest on when it is moved down one row at a
      time from `py` until the next row down collides: the row a hard drop
      reaches. */
  function Landing(g: Grid, s: Shape, px: int, py: int): (r: int)
    requires IsField(g) && HasBlock(s)
    ensures r >= py
    decreases |g| - py
  {
    if Collides(g, s, px, py + 1) then py
    else
      FreeIsAboveFloor(g, s, px, py + 1);
      Landing(g, s, px, py + 1)
  }

  /** One step of the search for the landing row. */
  lemma LandingStep(g: Grid, s: Shape, px: int, py: int)
    requires IsField(g) && HasBlock(s)
    ensures Landing(g, s, px, py) == if Collides(g, s, px, py + 1) then py else Landing(g, s, px, py + 1)
  {
  }

  /** The piece rests on the landing row: the next row down collides, and
      every row it passes through on the way down is free. */
  lemma {:induction false} LandingIsRest(g: Grid, s: Shape, px: int, py: int)
    requires IsField(g) && HasBlock(s)
    ensures var r := Landing(g, s, px, py);
      Collides(g, s, px, r + 1) && forall t :: py < t <= r ==> !Collides(g, s, px, t)
    decreases |g| - py
  {
    if !Collides(g, s, px, py + 1) {
      FreeIsAboveFloor(g, s, px, py + 1);
      LandingIsRest(g, s, px, py + 1);
    }
  }

  /** The probe the ghost search makes for candidate `v`: the candidate row
      is passed as an offset, so the row it checks is py + v + 1. */
  predicate GhostProbe(g: Grid, s: Shape, px: int, py: int, v: int)
    requires IsField(g)
  {
    Collides(g, s, px, py + v + 1)
  }

  /** `gy` is what the ghost search returns for a piece at (px, py): the
      first candidate from `py` upward whose probe collides. */
  predicate IsGhostRow(g: Grid, s: Shape, px: int, py: int, gy: int)
    requires IsField(g)
  {
    gy >= py && GhostProbe(g, s, px, py, gy) &&
    forall v :: py <= v < gy ==> !GhostProbe(g, s, px, py, v)
  }

  /** The ghost search is the landing search started from row `2 * py`,
      shifted back by `py`: the candidate `v` tests row `py + v + 1`. */
  function GhostRow(g: Grid, s: Shape, px: int, py: int): (gy: int)
    requires IsField(g) && HasBlock(s)
    ensures gy >= py
  {
    Landing(g, s, px, 2 * py) - py
  }

  /** The ghost search has exactly one result, the one `GhostRow` gives. */
  lemma GhostRowIsSearch(g: Grid, s: Shape, px: int, py: int, gy: int)
    requires IsField(g) && HasBlock(s)
    ensures IsGhostRow(g, s, px, py, gy) <==> gy == GhostRow(g, s, px, py)
  {
    var land := Landing(g, s, px, 2 * py);
    LandingIsRest(g, s, px, 2 * py);
    if IsGhostRow(g, s, px, py, gy) {
      assert GhostProbe(g, s, px, py, land - py);
      assert Collides(g, s, px, py + gy + 1);
    }
    if gy == land - py {
      forall v | py <= v < gy ensures !GhostProbe(g, s, px, py, v) {
        assert 2 * py < py + v + 1 <= land;
      }
    }
  }

  /** For a piece on row 0, the ghost search gives the landing row. */
  lemma {:induction false} GhostAtTopIsLanding(g: Grid, s: Shape, px: int, gy: int)
    requires IsField(g) && HasBlock(s)
    requires IsGhostRow(g, s, px, 0, gy)
    ensures gy == Landing(g, s, px, 0)
  {
    var land := Landing(g, s, px, 0);
    LandingIsRest(g, s, px, 0);
    // The ghost's probe collides at row gy + 1, so gy + 1 is past the landing row.
    assert Collides(g, s, px, gy + 1);
    // The landing row's next row collides, so the ghost search stops no later.
    assert GhostProbe(g, s, px, 0, land);
  }

  /** Dropping from any row the piece passes through on its way down ends
      on the same landing row. */
  lemma {:induction false} LandingFromPassedRow(g: Grid, s: Shape, px: int, py: int, t: int)
    requires IsField(g) && HasBlock(s)
    requires py <= t <= Landing(g, s, px, py)
    ensures Landing(g, s, px, t) == Landing(g, s, px, py)
    decreases t - py
  {
    if t > py {
      LandingStep(g, s, px, py);
      LandingFromPassedRow(g, s, px, py + 1, t);
    }
  }

  /** When the piece has at least its own row number of rows to fall, the
      ghost search stops `py` rows above the landing row: it shows the
      landing row only for a piece on row 0. */
  lemma GhostAboveLanding(g: Grid, s: Shape, px: int, py: int)
    requires IsField(g) && HasBlock(s)
    requires 0 <= py && 2 * py <= Landing(g, s, px, py)
    ensures GhostRow(g, s, px, py) == Landing(g, s, px, py) - py
  {
    LandingFromPassedRow(g, s, px, py, 2 * py);
  }

  /** An instance: one block on an empty field four rows high and one
      column wide, on row 1. It lands on row 3, but the ghost search
      returns row 2. */
  lemma GhostMissesLanding()
    ensures var g := seq(4, _ => [Empty]);
      IsField(g) && HasBlock([[true]]) &&
      Landing(g, [[true]], 0, 1) == 3 && GhostRow(g, [[true]], 0, 1) == 2
  {
    var g: Grid := seq(4, _ => [Empty]);
    var s: Shape := [[true]];
    assert s[0][0];
    assert !Collides(g, s, 0, 2) && !Collides(g, s, 0, 3) && Collides(g, s, 0, 4) by {
      assert !Obstructed(g, 0, 2) && !Obstructed(g, 0, 3) && Obstructed(g, 0, 4);
    }
    LandingStep(g, s, 0, 1);
    LandingStep(g, s, 0, 2);
    LandingStep(g, s, 0, 3);
  }

  // ---------------------------------------------------------------------
  // The piece object

  class Tetromino {
    const kind: Kind
    var shape: Shape
    var x: int
    var y: int
    const rotation: int

    ghost predicate Valid()
      reads this
    {
      IsShape(shape)
    }

    /** A piece of `kind` with the configured shape at its spawn position. */
    constructor (tetrominos: Kind -> Shape, kind: Kind)
      requires IsShape(tetrominos(kind))
      ensures Valid()
      ensures this.kind == kind && shape == tetrominos(kind)
      ensures x == SpawnX(kind, |shape[0]|) && y == SpawnY(kind) && rotation == 0
    {
      this.kind := kind;
      shape := tetrominos(kind);
      x := SpawnX(kind, |tetrominos(kind)[0]|);
      y := SpawnY(kind);
      rotation := 0;
    }

    /** Replaces the shape by a new matrix filled cell by cell: clockwise for
        direction 1, counter-clockwise for anything else. Position and kind
        are untouched. */
    method Rotate(direction: int)
      requires Valid()
      modifies this`shape
      ensures Valid()
      ensures shape == Turned(old(shape), direction)
    {
      var n := |shape|;
      var next: Shape := seq(n, _ => seq(n, _ => false));
      if direction == 1 {
        for r := 0 to n
          invariant |next| == n && IsSquare(next)
          invariant forall i, j :: 0 <= i < n && 0 <= j < n ==>
            next[i][j] == if n - 1 - j < r then shape[n - 1 - j][i] else false
        {
          for c := 0 to n
            invariant |next| == n && IsSquare(next)
            invariant forall i, j :: 0 <= i < n && 0 <= j < n ==>
              next[i][j] == if n - 1 - j < r || (n - 1 - j == r && i < c) then shape[n - 1 - j][i] else false
          {
            next := next[c := next[c][n - 1 - r := shape[r][c]]];
          }
        }
        MatrixExt(next, RotatedCW(shape));
      } else {
        for r := 0 to n
          invariant |next| == n && IsSquare(next)
          invariant forall i, j :: 0 <= i < n && 0 <= j < n ==>
            next[i][j] == if j < r then shape[j][n - 1 - i] else false
        {
          for c := 0 to n
            invariant |next| == n && IsSquare(next)
            invariant forall i, j :: 0 <= i < n && 0 <= j < n ==>
              next[i][j] == if j < r || (j == r && n - 1 - i < c) then shape[j][n - 1 - i] else false
          {
            next := next[n - 1 - c := next[n - 1 - c][r := shape[r][c]]];
          }
          assert forall i, j :: 0 <= i < n && 0 <= j < n && j == r ==> next[i][j] == shape[j][n - 1 - i];
        }
        MatrixExt(next, RotatedCCW(shape));
      }
      TurnsKeepShape(shape);
      shape := next;
    }

    /** Scans the occupied cells row by row and reports whether the piece,
        moved by (dx, dy), would hit a wall, the floor or a filled cell. */
    method CheckCollision(g: Grid, dx: int, dy: int) returns (hit: bool)
      requires IsField(g)
      ensures hit <==> Collides(g, shape, x + dx, y + dy)
    {
      var nx, ny := x + dx, y + dy;
      for r := 0 to |shape|
        invariant forall i, j :: 0 <= i < r && 0 <= j < |shape[i]| && shape[i][j] ==>
          !Obstructed(g, nx + j, ny + i)
      {
        for c := 0 to |shape[r]|
          invariant forall j :: 0 <= j < c && shape[r][j] ==> !Obstructed(g, nx + j, ny + r)
        {
          if shape[r][c] {
            var col, row := nx + c, ny + r;
            if col < 0 || col >= |g[0]| || row >= |g| || (row >= 0 && g[row][col] != Empty) {
              assert Obstructed(g, nx + c, ny + r);
              return true;
            }
          }
        }
      }
      return false;
    }

    /** Starting from the piece's own row, steps the candidate down while its
        probe (which adds the candidate to the current row) is free. */
    method GhostPosition(g: Grid) returns (gy: int)
      requires IsField(g) && Valid()
      ensures IsGhostRow(g, shape, x, y, gy)
    {
      gy := y;
      var hit := CheckCollision(g, 0, gy + 1);
      while !hit
        invariant gy >= y
        invariant hit <==> GhostProbe(g, shape, x, y, gy)
        invariant forall v :: y <= v < gy ==> !GhostProbe(g, shape, x, y, v)
        decreases |g| - (y + gy)
      {
        FreeIsAboveFloor(g, shape, x, y + gy + 1);
        gy := gy + 1;
        hit := CheckCollision(g, 0, gy + 1);
      }
    }
  }
}
