/** The cell matrix of the simulator: `rows` rows of `cols` cells, each cell
    0 (dead) or 1 (alive), together with the operations that build or edit it
    outside a generation pass: creation, cell toggling from a canvas click and
    the seeded glider. */
module GridState {

  /** Row-major cell matrix; `g[r][c]` is the cell in row `r`, column `c`. */
  type Grid = seq<seq<int>>

  /** Side of one square cell on the canvas, in pixels. */
  const CellSize: nat := 10

  /** Row and column of the top-left cell of the seeded glider. */
  const GliderRow: nat := 10
  const GliderCol: nat := 10

  predicate IsCell(v: int) {
    v == 0 || v == 1
  }

  /** `g` has exactly `rows` rows of exactly `cols` cells, and every cell is 0 or 1. */
  predicate WellFormed(g: Grid, rows: nat, cols: nat) {
    |g| == rows
    && (forall r :: 0 <= r < rows ==> |g[r]| == cols)
    && (forall r, c :: 0 <= r < rows && 0 <= c < cols ==> IsCell(g[r][c]))
  }

  predicate InBounds(rows: nat, cols: nat, r: int, c: int) {
    0 <= r < rows && 0 <= c < cols
  }

  /** Every cell of the grid is dead. */
  predicate AllDead(g: Grid, rows: nat, cols: nat)
    requires WellFormed(g, rows, cols)
  {
    forall r, c :: 0 <= r < rows && 0 <= c < cols ==> g[r][c] == 0
  }

  /** The cell at (r, c); a position outside the grid reads as dead, so a
      caller never indexes outside `[0, rows) × [0, cols)`. */
  function CellAt(g: Grid, rows: nat, cols: nat, r: int, c: int): (v: int)
    requires WellFormed(g, rows, cols)
    ensures IsCell(v)
    ensures !InBounds(rows, cols, r, c) ==> v == 0
  {
    if InBounds(rows, cols, r, c) then g[r][c] else 0
  }

  /** A fresh grid of the given dimensions with every cell dead. */
  function CreateEmpty(rows: nat, cols: nat): (g: Grid)
    ensures WellFormed(g, rows, cols)
    ensures AllDead(g, rows, cols)
  {
    seq(rows, _ => seq(cols, _ => 0))
  }

  /** The grid with the single in-bounds cell (r, c) replaced by `v`. */
  function SetCell(g: Grid, rows: nat, cols: nat, r: int, c: int, v: int): (g': Grid)
    requires WellFormed(g, rows, cols)
    requires InBounds(rows, cols, r, c)
    requires IsCell(v)
    ensures WellFormed(g', rows, cols)
    ensures g'[r][c] == v
    ensures forall i, j :: 0 <= i < rows && 0 <= j < cols && (i != r || j != c) ==> g'[i][j] == g[i][j]
  {
    g[r := g[r][c := v]]
  }

  /** Flips the cell at (r, c) when it lies inside the grid; an out-of-bounds
      position leaves the grid as it is. */
  function Toggle(g: Grid, rows: nat, cols: nat, r: int, c: int): (g': Grid)
    requires WellFormed(g, rows, cols)
    ensures WellFormed(g', rows, cols)
    ensures InBounds(rows, cols, r, c) ==> g'[r][c] == 1 - g[r][c]
    ensures forall i, j :: 0 <= i < rows && 0 <= j < cols && (i != r || j != c) ==> g'[i][j] == g[i][j]
    ensures !InBounds(rows, cols, r, c) ==> g' == g
  {
    if InBounds(rows, cols, r, c) then
      SetCell(g, rows, cols, r, c, if g[r][c] != 0 then 0 else 1)
    else
      g
  }

  /** Toggling the same position twice restores the grid. */
  lemma ToggleTwice(g: Grid, rows: nat, cols: nat, r: int, c: int)
    requires WellFormed(g, rows, cols)
    ensures Toggle(Toggle(g, rows, cols, r, c), rows, cols, r, c) == g
  {
    var t := Toggle(Toggle(g, rows, cols, r, c), rows, cols, r, c);
    assert |t| == |g|;
    forall i | 0 <= i < rows
      ensures t[i] == g[i]
    {
      assert |t[i]| == |g[i]|;
    }
  }

  /** The row (or column) of the cell that contains pixel offset `p`, that is
      the floor of `p / CellSize`. */
  function CellOfPixel(p: int): (k: int)
    ensures k * CellSize <= p < (k + 1) * CellSize
  {
    p / CellSize
  }

  /** A click at canvas offset (px, py): the pixel is mapped to the cell whose
      square contains it and, when that cell is inside the grid, the cell flips. */
  function Click(g: Grid, rows: nat, cols: nat, px: int, py: int): (g': Grid)
    requires WellFormed(g, rows, cols)
    ensures WellFormed(g', rows, cols)
    ensures forall i, j :: 0 <= i < rows && 0 <= j < cols ==>
      g'[i][j] == (if i * CellSize <= py < (i + 1) * CellSize && j * CellSize <= px < (j + 1) * CellSize
                   then 1 - g[i][j] else g[i][j])
    ensures !(0 <= py < rows * CellSize && 0 <= px < cols * CellSize) ==> g' == g
  {
    Toggle(g, rows, cols, CellOfPixel(py), CellOfPixel(px))
  }

  /** Positions of the five glider cells relative to its top-left corner. */
  predicate InGlider(dr: int, dc: int) {
    (dr == 0 && dc == 1) || (dr == 1 && dc == 2) || (dr == 2 && 0 <= dc <= 2)
  }

  /** Seeds a glider with its top-left corner at (GliderRow, GliderCol); the
      five cells it sets must lie inside the grid. */
  function AddGlider(g: Grid, rows: nat, cols: nat): (g': Grid)
    requires WellFormed(g, rows, cols)
    requires rows >= GliderRow + 3 && cols >= GliderCol + 3
    ensures WellFormed(g', rows, cols)
    ensures forall i, j :: 0 <= i < rows && 0 <= j < cols ==>
      g'[i][j] == (if InGlider(i - GliderRow, j - GliderCol) then 1 else g[i][j])
  {
    var r, c := GliderRow, GliderCol;
    var g1 := SetCell(g, rows, cols, r, c + 1, 1);
    var g2 := SetCell(g1, rows, cols, r + 1, c + 2, 1);
    var g3 := SetCell(g2, rows, cols, r + 2, c, 1);
    var g4 := SetCell(g3, rows, cols, r + 2, c + 1, 1);
    SetCell(g4, rows, cols, r + 2, c + 2, 1)
  }
}
