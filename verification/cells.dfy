/** Values shared by the piece, the playfield and the controller: the seven
    piece kinds, playfield cells, and the square boolean shape matrices. */
module Cells {

  /** The seven tetromino kinds. */
  datatype Kind = I | O | T | S | Z | J | L

  /** The kinds in the order the bag refill lists them before shuffling. */
  const AllKinds: seq<Kind> := [I, O, T, S, Z, J, L]

  /** A playfield cell: `0` when empty, otherwise the kind tag of a locked piece. */
  datatype Cell = Empty | Block(kind: Kind)

  type Row = seq<Cell>

  /** The playfield, row 0 at the top. */
  type Grid = seq<Row>

  /** A shape matrix: `shape[row][col]` is true where the piece has a block. */
  type Shape = seq<seq<bool>>

  /** `g` has `height` rows of `width` cells each. */
  predicate IsGrid(g: Grid, height: int, width: int) {
    |g| == height && forall i :: 0 <= i < |g| ==> |g[i]| == width
  }

  /** A grid with at least one row whose rows all have the width of row 0,
      which is what the collision test reads its bounds from. */
  predicate IsField(g: Grid) {
    |g| >= 1 && IsGrid(g, |g|, |g[0]|)
  }

  /** A row of `width` empty cells. */
  function EmptyRow(width: nat): Row {
    seq(width, _ => Empty)
  }

  predicate IsSquare(s: Shape) {
    forall r :: 0 <= r < |s| ==> |s[r]| == |s|
  }

  predicate HasBlock(s: Shape) {
    exists r, c :: 0 <= r < |s| && 0 <= c < |s[r]| && s[r][c]
  }

  /** What a shape from the configuration is: square, with at least one block. */
  predicate IsShape(s: Shape) {
    |s| >= 1 && IsSquare(s) && HasBlock(s)
  }

  /** Two matrices with the same dimensions and the same entries are equal. */
  lemma MatrixExt<X>(a: seq<seq<X>>, b: seq<seq<X>>)
    requires |a| == |b|
    requires forall i :: 0 <= i < |a| ==> |a[i]| == |b[i]|
    requires forall i, j :: 0 <= i < |a| && 0 <= j < |a[i]| ==> a[i][j] == b[i][j]
    ensures a == b
  {
    forall i | 0 <= i < |a| ensures a[i] == b[i] {
    }
  }
}
