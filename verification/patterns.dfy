/** Facts about patterns: the count at a corner, the block still life on any
    grid, and the glider's diagonal drift, both on a small grid and where the
    page seeds it. */
module Patterns {
  import opened GridState
  import opened RuleEngine
  import opened Session

  /** Two grids of the same dimensions are equal when they agree cell by cell. */
  lemma GridExt(a: Grid, b: Grid, rows: nat, cols: nat)
    requires WellFormed(a, rows, cols) && WellFormed(b, rows, cols)
    requires forall i, j :: 0 <= i < rows && 0 <= j < cols ==> a[i][j] == b[i][j]
    ensures a == b
  {
    forall i | 0 <= i < rows
      ensures a[i] == b[i]
    {
    }
  }

  /** Live cells at (0, 1) and (1, 0) with (1, 1) dead give a count of 2 at
      the corner (0, 0); the positions at -1 are never read. */
  lemma CornerCount(g: Grid, rows: nat, cols: nat)
    requires WellFormed(g, rows, cols) && rows >= 2 && cols >= 2
    requires g[0][1] == 1 && g[1][0] == 1 && g[1][1] == 0
    ensures CountNeighbors(g, rows, cols, 0, 0) == 2
  {
    CountExpanded(g, rows, cols, 0, 0);
  }

  /** A fresh grid has no live neighbours anywhere. */
  lemma EmptyCountsZero(rows: nat, cols: nat, x: int, y: int)
    ensures CountNeighbors(CreateEmpty(rows, cols), rows, cols, x, y) == 0
  {
    CountExpanded(CreateEmpty(rows, cols), rows, cols, x, y);
  }

  function Bit(b: bool): int {
    if b then 1 else 0
  }

  /** The grid of the given dimensions whose live cells are exactly the
      in-bounds positions of `live`. */
  function FromCells(rows: nat, cols: nat, live: (int, int) -> bool): (g: Grid)
    ensures WellFormed(g, rows, cols)
    ensures forall r, c :: CellAt(g, rows, cols, r, c) == Bit(InBounds(rows, cols, r, c) && live(r, c))
  {
    seq(rows, i => seq(cols, j => if live(i, j) then 1 else 0))
  }

  /** Live neighbours of (i, j) in the pattern `live` clipped to the grid,
      written out as eight terms. */
  function LiveCount(rows: nat, cols: nat, live: (int, int) -> bool, i: int, j: int): int {
    Bit(InBounds(rows, cols, i - 1, j - 1) && live(i - 1, j - 1))
    + Bit(InBounds(rows, cols, i - 1, j) && live(i - 1, j))
    + Bit(InBounds(rows, cols, i - 1, j + 1) && live(i - 1, j + 1))
    + Bit(InBounds(rows, cols, i, j - 1) && live(i, j - 1))
    + Bit(InBounds(rows, cols, i, j + 1) && live(i, j + 1))
    + Bit(InBounds(rows, cols, i + 1, j - 1) && live(i + 1, j - 1))
    + Bit(InBounds(rows, cols, i + 1, j) && live(i + 1, j))
    + Bit(InBounds(rows, cols, i + 1, j + 1) && live(i + 1, j + 1))
  }

  /** One generation of a pattern, stated through its live cells: the step
      of `before` is `after` when every cell of the grid follows the rule. */
  lemma StepFromCells(rows: nat, cols: nat, before: (int, int) -> bool, after: (int, int) -> bool)
    requires forall i, j :: 0 <= i < rows && 0 <= j < cols ==>
      NextCell(Bit(before(i, j)), LiveCount(rows, cols, before, i, j)) == Bit(after(i, j))
    ensures Step(FromCells(rows, cols, before), rows, cols) == FromCells(rows, cols, after)
  {
    var g := FromCells(rows, cols, before);
    forall i, j | 0 <= i < rows && 0 <= j < cols
      ensures Step(g, rows, cols)[i][j] == FromCells(rows, cols, after)[i][j]
    {
      CountExpanded(g, rows, cols, i, j);
      assert CountNeighbors(g, rows, cols, i, j) == LiveCount(rows, cols, before, i, j);
      assert g[i][j] == CellAt(g, rows, cols, i, j) == Bit(before(i, j));
    }
    GridExt(Step(g, rows, cols), FromCells(rows, cols, after), rows, cols);
  }

  /** The 2 × 2 block at rows 1-2, columns 1-2. */
  predicate BlockLive(r: int, c: int) {
    1 <= r <= 2 && 1 <= c <= 2
  }

  /** The 2 × 2 block, surrounded by dead cells, is a still life. */
  lemma BlockStill()
    ensures Step(FromCells(4, 4, BlockLive), 4, 4) == FromCells(4, 4, BlockLive)
  {
    forall i, j | 0 <= i < 4 && 0 <= j < 4
      ensures NextCell(Bit(BlockLive(i, j)), LiveCount(4, 4, BlockLive, i, j)) == Bit(BlockLive(i, j))
    {
    }
    StepFromCells(4, 4, BlockLive, BlockLive);
  }

  /** A 2 × 2 block with top-left corner (a, b), alone on a grid of any size
      that contains it, is a still life. */
  lemma BlockStillAnywhere(rows: nat, cols: nat, a: nat, b: nat)
    requires a + 1 < rows && b + 1 < cols
    ensures var block := (r, c) => a <= r <= a + 1 && b <= c <= b + 1;
      Step(FromCells(rows, cols, block), rows, cols) == FromCells(rows, cols, block)
  {
    var block := (r, c) => a <= r <= a + 1 && b <= c <= b + 1;
    forall i, j | 0 <= i < rows && 0 <= j < cols
      ensures NextCell(Bit(block(i, j)), LiveCount(rows, cols, block, i, j)) == Bit(block(i, j))
    {
    }
    StepFromCells(rows, cols, block, block);
  }

  // ---------------------------------------------------------------------------
  // The glider on a 5 × 5 grid: four generations move it one cell down and
  // one cell right, with every other cell dead throughout.

  /** The seeded glider shape with its top-left corner at (0, 0). */
  predicate Glider0(r: int, c: int) {
    (r == 0 && c == 1)
      || (r == 1 && c == 2)
      || (r == 2 && c == 0)
      || (r == 2 && c == 1)
      || (r == 2 && c == 2)
  }

  predicate Glider1(r: int, c: int) {
    (r == 1 && c == 0)
      || (r == 1 && c == 2)
      || (r == 2 && c == 1)
      || (r == 2 && c == 2)
      || (r == 3 && c == 1)
  }

  predicate Glider2(r: int, c: int) {
    (r == 1 && c == 2)
      || (r == 2 && c == 0)
      || (r == 2 && c == 2)
      || (r == 3 && c == 1)
      || (r == 3 && c == 2)
  }

  predicate Glider3(r: int, c: int) {
    (r == 1 && c == 1)
      || (r == 2 && c == 2)
      || (r == 2 && c == 3)
      || (r == 3 && c == 1)
      || (r == 3 && c == 2)
  }

  /** The same shape with its top-left corner at (1, 1). */
  predicate Glider4(r: int, c: int) {
    (r == 1 && c == 2)
      || (r == 2 && c == 3)
      || (r == 3 && c == 1)
      || (r == 3 && c == 2)
      || (r == 3 && c == 3)
  }

  lemma GliderGeneration0()
    ensures Step(FromCells(5, 5, Glider0), 5, 5) == FromCells(5, 5, Glider1)
  {
    forall i, j | 0 <= i < 5 && 0 <= j < 5
      ensures NextCell(Bit(Glider0(i, j)), LiveCount(5, 5, Glider0, i, j)) == Bit(Glider1(i, j))
    {
    }
    StepFromCells(5, 5, Glider0, Glider1);
  }

  lemma GliderGeneration1()
    ensures Step(FromCells(5, 5, Glider1), 5, 5) == FromCells(5, 5, Glider2)
  {
    forall i, j | 0 <= i < 5 && 0 <= j < 5
      ensures NextCell(Bit(Glider1(i, j)), LiveCount(5, 5, Glider1, i, j)) == Bit(Glider2(i, j))
    {
    }
    StepFromCells(5, 5, Glider1, Glider2);
  }

  lemma GliderGeneration2()
    ensures Step(FromCells(5, 5, Glider2), 5, 5) == FromCells(5, 5, Glider3)
  {
    forall i, j | 0 <= i < 5 && 0 <= j < 5
      ensures NextCell(Bit(Glider2(i, j)), LiveCount(5, 5, Glider2, i, j)) == Bit(Glider3(i, j))
    {
    }
    StepFromCells(5, 5, Glider2, Glider3);
  }

  lemma GliderGeneration3()
    ensures Step(FromCells(5, 5, Glider3), 5, 5) == FromCells(5, 5, Glider4)
  {
    forall i, j | 0 <= i < 5 && 0 <= j < 5
      ensures NextCell(Bit(Glider3(i, j)), LiveCount(5, 5, Glider3, i, j)) == Bit(Glider4(i, j))
    {
    }
    StepFromCells(5, 5, Glider3, Glider4);
  }

  /** The phase-0 and phase-4 shapes are the seeded glider at (0, 0) and at (1, 1). */
  lemma GliderShapes()
    ensures forall r, c :: Glider0(r, c) <==> InGlider(r, c)
    ensures forall r, c :: Glider4(r, c) <==> InGlider(r - 1, c - 1)
  {
  }

  /** Four generations translate the seeded glider by (+1, +1) and leave
      every other cell dead. */
  lemma GliderPeriod()
    ensures StepN(FromCells(5, 5, Glider0), 5, 5, 4) == FromCells(5, 5, Glider4)
  {
    var g0 := FromCells(5, 5, Glider0);
    var g1 := FromCells(5, 5, Glider1);
    var g2 := FromCells(5, 5, Glider2);
    var g3 := FromCells(5, 5, Glider3);
    var g4 := FromCells(5, 5, Glider4);
    GliderGeneration0();
    GliderGeneration1();
    GliderGeneration2();
    GliderGeneration3();
    calc {
      StepN(g0, 5, 5, 4);
      StepN(g1, 5, 5, 3);
      StepN(g2, 5, 5, 2);
      StepN(g3, 5, 5, 1);
      StepN(g4, 5, 5, 0);
    }
  }

  // ---------------------------------------------------------------------------
  // The glider where the page seeds it: corner (GliderRow, GliderCol) = (10, 10),
  // on any grid with room for four generations.

  predicate Seeded0(r: int, c: int) {
    Glider0(r - GliderRow, c - GliderCol)
  }

  predicate Seeded1(r: int, c: int) {
    Glider1(r - GliderRow, c - GliderCol)
  }

  predicate Seeded2(r: int, c: int) {
    Glider2(r - GliderRow, c - GliderCol)
  }

  predicate Seeded3(r: int, c: int) {
    Glider3(r - GliderRow, c - GliderCol)
  }

  predicate Seeded4(r: int, c: int) {
    Glider4(r - GliderRow, c - GliderCol)
  }

  /** Seeding a fresh grid gives exactly the glider with corner (10, 10). */
  lemma SeededGlider(rows: nat, cols: nat)
    requires rows >= GliderRow + 3 && cols >= GliderCol + 3
    ensures AddGlider(CreateEmpty(rows, cols), rows, cols) == FromCells(rows, cols, Seeded0)
  {
    var g := AddGlider(CreateEmpty(rows, cols), rows, cols);
    var f := FromCells(rows, cols, Seeded0);
    forall i, j | 0 <= i < rows && 0 <= j < cols
      ensures g[i][j] == f[i][j]
    {
      assert f[i][j] == CellAt(f, rows, cols, i, j);
    }
    GridExt(g, f, rows, cols);
  }

  lemma SeededGeneration0(rows: nat, cols: nat)
    requires rows >= GliderRow + 4 && cols >= GliderCol + 4
    ensures Step(FromCells(rows, cols, Seeded0), rows, cols) == FromCells(rows, cols, Seeded1)
  {
    forall i, j | 0 <= i < rows && 0 <= j < cols
      ensures NextCell(Bit(Seeded0(i, j)), LiveCount(rows, cols, Seeded0, i, j)) == Bit(Seeded1(i, j))
    {
    }
    StepFromCells(rows, cols, Seeded0, Seeded1);
  }

  lemma SeededGeneration1(rows: nat, cols: nat)
    requires rows >= GliderRow + 4 && cols >= GliderCol + 4
    ensures Step(FromCells(rows, cols, Seeded1), rows, cols) == FromCells(rows, cols, Seeded2)
  {
    forall i, j | 0 <= i < rows && 0 <= j < cols
      ensures NextCell(Bit(Seeded1(i, j)), LiveCount(rows, cols, Seeded1, i, j)) == Bit(Seeded2(i, j))
    {
    }
    StepFromCells(rows, cols, Seeded1, Seeded2);
  }

  lemma SeededGeneration2(rows: nat, cols: nat)
    requires rows >= GliderRow + 4 && cols >= GliderCol + 4
    ensures Step(FromCells(rows, cols, Seeded2), rows, cols) == FromCells(rows, cols, Seeded3)
  {
    forall i, j | 0 <= i < rows && 0 <= j < cols
      ensures NextCell(Bit(Seeded2(i, j)), LiveCount(rows, cols, Seeded2, i, j)) == Bit(Seeded3(i, j))
    {
    }
    StepFromCells(rows, cols, Seeded2, Seeded3);
  }

  lemma SeededGeneration3(rows: nat, cols: nat)
    requires rows >= GliderRow + 4 && cols >= GliderCol + 4
    ensures Step(FromCells(rows, cols, Seeded3), rows, cols) == FromCells(rows, cols, Seeded4)
  {
    forall i, j | 0 <= i < rows && 0 <= j < cols
      ensures NextCell(Bit(Seeded3(i, j)), LiveCount(rows, cols, Seeded3, i, j)) == Bit(Seeded4(i, j))
    {
    }
    StepFromCells(rows, cols, Seeded3, Seeded4);
  }

  /** The phase-4 shape is the seeded glider moved by (+1, +1). */
  lemma SeededShapeMoved()
    ensures forall r, c :: Seeded4(r, c) <==> Seeded0(r - 1, c - 1)
  {
  }

  /** On any grid of at least 14 rows and columns, the glider the page seeds
      on a fresh grid is, four generations later, the same shape moved by
      (+1, +1), with every other cell dead. */
  lemma SeededGliderPeriod(rows: nat, cols: nat)
    requires rows >= GliderRow + 4 && cols >= GliderCol + 4
    ensures StepN(AddGlider(CreateEmpty(rows, cols), rows, cols), rows, cols, 4) == FromCells(rows, cols, Seeded4)
  {
    SeededGlider(rows, cols);
    SeededFourGenerations(rows, cols);
  }

  lemma SeededFourGenerations(rows: nat, cols: nat)
    requires rows >= GliderRow + 4 && cols >= GliderCol + 4
    ensures StepN(FromCells(rows, cols, Seeded0), rows, cols, 4) == FromCells(rows, cols, Seeded4)
  {
    var g0 := FromCells(rows, cols, Seeded0);
    var g1 := FromCells(rows, cols, Seeded1);
    var g2 := FromCells(rows, cols, Seeded2);
    var g3 := FromCells(rows, cols, Seeded3);
    var g4 := FromCells(rows, cols, Seeded4);
    calc {
      StepN(g0, rows, cols, 4);
      StepN(Step(g0, rows, cols), rows, cols, 3);
      { SeededGeneration0(rows, cols); }
      StepN(g1, rows, cols, 3);
      StepN(Step(g1, rows, cols), rows, cols, 2);
      { SeededGeneration1(rows, cols); }
      StepN(g2, rows, cols, 2);
      StepN(Step(g2, rows, cols), rows, cols, 1);
      { SeededGeneration2(rows, cols); }
      StepN(g3, rows, cols, 1);
      StepN(Step(g3, rows, cols), rows, cols, 0);
      { SeededGeneration3(rows, cols); }
      g4;
    }
  }
}
