/** Conway's rule B3/S23 on a bounded (non-wrapping) grid: the Moore
    neighbour count and the generation step, each as a pure function, with
    imperative double-loop versions proved equal to them. */
module RuleEngine {
  import opened GridState

  type Offset = (int, int)

  /** The eight Moore-neighbourhood offsets (row offset, column offset) in the
      order the nested offset loops visit them; the centre (0, 0) is skipped. */
  const Offsets: seq<Offset> := [(-1, -1), (-1, 0), (-1, 1), (0, -1), (0, 1), (1, -1), (1, 0), (1, 1)]

  /** Sum of the cells at (x, y) + o over the offsets `os`, positions outside
      the grid reading as dead. The last offset is added last. */
  function SumFrom(g: Grid, rows: nat, cols: nat, x: int, y: int, os: seq<Offset>): (n: int)
    requires WellFormed(g, rows, cols)
    ensures 0 <= n <= |os|
    decreases |os|
  {
    if os == [] then 0
    else SumFrom(g, rows, cols, x, y, os[..|os| - 1]) + CellAt(g, rows, cols, x + os[|os| - 1].0, y + os[|os| - 1].1)
  }

  /** Number of live cells among the (at most eight) in-bounds neighbours of (x, y). */
  function CountNeighbors(g: Grid, rows: nat, cols: nat, x: int, y: int): (n: int)
    requires WellFormed(g, rows, cols)
    ensures 0 <= n <= 8
  {
    SumFrom(g, rows, cols, x, y, Offsets)
  }

  /** (r, c) is one of the eight cells surrounding (x, y). */
  predicate IsNeighbour(x: int, y: int, r: int, c: int) {
    x - 1 <= r <= x + 1 && y - 1 <= c <= y + 1 && (r != x || c != y)
  }

  /** Reference definition: the set of live in-bounds neighbours of (x, y). */
  function LiveNeighbours(g: Grid, rows: nat, cols: nat, x: int, y: int): set<(int, int)>
    requires WellFormed(g, rows, cols)
  {
    set r: int, c: int | x - 1 <= r <= x + 1 && y - 1 <= c <= y + 1 && (r != x || c != y)
                         && InBounds(rows, cols, r, c) && g[r][c] == 1 :: (r, c)
  }

  // ---------------------------------------------------------------------------
  // The count equals the number of live neighbours

  predicate Distinct(os: seq<Offset>) {
    forall k, l :: 0 <= k < l < |os| ==> os[k] != os[l]
  }

  /** Live in-bounds positions (x, y) + o for o in `os`. */
  function LiveAt(g: Grid, rows: nat, cols: nat, x: int, y: int, os: seq<Offset>): set<(int, int)>
    requires WellFormed(g, rows, cols)
    decreases |os|
  {
    if os == [] then {}
    else
      var o := os[|os| - 1];
      var p := (x + o.0, y + o.1);
      LiveAt(g, rows, cols, x, y, os[..|os| - 1])
        + (if InBounds(rows, cols, p.0, p.1) && g[p.0][p.1] == 1 then {p} else {})
  }

  lemma {:induction false} LiveAtMembers(g: Grid, rows: nat, cols: nat, x: int, y: int, os: seq<Offset>, p: (int, int))
    requires WellFormed(g, rows, cols)
    ensures p in LiveAt(g, rows, cols, x, y, os) <==>
      InBounds(rows, cols, p.0, p.1) && g[p.0][p.1] == 1 && (p.0 - x, p.1 - y) in os
    decreases |os|
  {
    if os != [] {
      var os' := os[..|os| - 1];
      LiveAtMembers(g, rows, cols, x, y, os', p);
      assert os == os' + [os[|os| - 1]];
    }
  }

  lemma {:induction false} SumIsLiveCount(g: Grid, rows: nat, cols: nat, x: int, y: int, os: seq<Offset>)
    requires WellFormed(g, rows, cols)
    requires Distinct(os)
    ensures SumFrom(g, rows, cols, x, y, os) == |LiveAt(g, rows, cols, x, y, os)|
    decreases |os|
  {
    if os != [] {
      var os' := os[..|os| - 1];
      var o := os[|os| - 1];
      var p := (x + o.0, y + o.1);
      SumIsLiveCount(g, rows, cols, x, y, os');
      LiveAtMembers(g, rows, cols, x, y, os', p);
      assert o !in os';
      assert p !in LiveAt(g, rows, cols, x, y, os');
    }
  }

  /** The neighbour count is exactly the number of live cells among the
      in-bounds neighbours: the centre is never counted and nothing outside
      the grid is read. */
  lemma CountIsLiveNeighbours(g: Grid, rows: nat, cols: nat, x: int, y: int)
    requires WellFormed(g, rows, cols)
    ensures CountNeighbors(g, rows, cols, x, y) == |LiveNeighbours(g, rows, cols, x, y)|
  {
    SumIsLiveCount(g, rows, cols, x, y, Offsets);
    var a := LiveAt(g, rows, cols, x, y, Offsets);
    var b := LiveNeighbours(g, rows, cols, x, y);
    forall p | p in a || p in b
      ensures p in a <==> p in b
    {
      LiveAtMembers(g, rows, cols, x, y, Offsets, p);
    }
    assert a == b;
  }

  // ---------------------------------------------------------------------------
  // Locality of the count

  lemma {:induction false} SumFromLocal(g1: Grid, g2: Grid, rows: nat, cols: nat, x: int, y: int, os: seq<Offset>)
    requires WellFormed(g1, rows, cols) && WellFormed(g2, rows, cols)
    requires forall o :: o in os ==> CellAt(g1, rows, cols, x + o.0, y + o.1) == CellAt(g2, rows, cols, x + o.0, y + o.1)
    ensures SumFrom(g1, rows, cols, x, y, os) == SumFrom(g2, rows, cols, x, y, os)
    decreases |os|
  {
    if os != [] {
      var os' := os[..|os| - 1];
      assert forall o :: o in os' ==> o in os;
      SumFromLocal(g1, g2, rows, cols, x, y, os');
    }
  }

  /** The count at (x, y) depends only on the in-bounds neighbours of (x, y):
      two grids that agree there give the same count, whatever they hold at
      (x, y) itself or anywhere else. */
  lemma CountLocal(g1: Grid, g2: Grid, rows: nat, cols: nat, x: int, y: int)
    requires WellFormed(g1, rows, cols) && WellFormed(g2, rows, cols)
    requires forall r, c :: InBounds(rows, cols, r, c) && IsNeighbour(x, y, r, c) ==> g1[r][c] == g2[r][c]
    ensures CountNeighbors(g1, rows, cols, x, y) == CountNeighbors(g2, rows, cols, x, y)
  {
    forall o | o in Offsets
      ensures CellAt(g1, rows, cols, x + o.0, y + o.1) == CellAt(g2, rows, cols, x + o.0, y + o.1)
    {
      if InBounds(rows, cols, x + o.0, y + o.1) {
        assert IsNeighbour(x, y, x + o.0, y + o.1);
      }
    }
    SumFromLocal(g1, g2, rows, cols, x, y, Offsets);
  }

  /** Changing the cell at (x, y) itself never changes its neighbour count. */
  lemma CountIgnoresSelf(g: Grid, rows: nat, cols: nat, x: int, y: int, v: int)
    requires WellFormed(g, rows, cols)
    requires InBounds(rows, cols, x, y) && IsCell(v)
    ensures CountNeighbors(SetCell(g, rows, cols, x, y, v), rows, cols, x, y) == CountNeighbors(g, rows, cols, x, y)
  {
    CountLocal(SetCell(g, rows, cols, x, y, v), g, rows, cols, x, y);
  }

  /** Extending a prefix of `os` by one offset adds that offset's cell. */
  lemma SumFromPrefix(g: Grid, rows: nat, cols: nat, x: int, y: int, os: seq<Offset>, k: nat)
    requires WellFormed(g, rows, cols)
    requires 0 < k <= |os|
    ensures SumFrom(g, rows, cols, x, y, os[..k])
      == SumFrom(g, rows, cols, x, y, os[..k - 1]) + CellAt(g, rows, cols, x + os[k - 1].0, y + os[k - 1].1)
  {
    assert os[..k][..k - 1] == os[..k - 1];
  }

  /** The count written out as the eight neighbour cells in loop order. */
  lemma CountExpanded(g: Grid, rows: nat, cols: nat, x: int, y: int)
    requires WellFormed(g, rows, cols)
    ensures CountNeighbors(g, rows, cols, x, y) ==
      CellAt(g, rows, cols, x - 1, y - 1) + CellAt(g, rows, cols, x - 1, y) + CellAt(g, rows, cols, x - 1, y + 1)
      + CellAt(g, rows, cols, x, y - 1) + CellAt(g, rows, cols, x, y + 1)
      + CellAt(g, rows, cols, x + 1, y - 1) + CellAt(g, rows, cols, x + 1, y) + CellAt(g, rows, cols, x + 1, y + 1)
  {
    assert Offsets[..8] == Offsets;
    SumFromPrefix(g, rows, cols, x, y, Offsets, 8);
    SumFromPrefix(g, rows, cols, x, y, Offsets, 7);
    SumFromPrefix(g, rows, cols, x, y, Offsets, 6);
    SumFromPrefix(g, rows, cols, x, y, Offsets, 5);
    SumFromPrefix(g, rows, cols, x, y, Offsets, 4);
    SumFromPrefix(g, rows, cols, x, y, Offsets, 3);
    SumFromPrefix(g, rows, cols, x, y, Offsets, 2);
    SumFromPrefix(g, rows, cols, x, y, Offsets, 1);
  }

  // ---------------------------------------------------------------------------
  // The imperative neighbour count

  /** Number of offsets the nested loops have visited before reaching (i, j). */
  function Visited(i: int, j: int): int {
    3 * (i + 1) + (j + 1) - (if i > 0 || (i == 0 && j > 0) then 1 else 0)
  }

  /** Visiting offset (i, j) adds its cell to the running sum; the skipped
      centre adds nothing. */
  lemma VisitStep(g: Grid, rows: nat, cols: nat, x: int, y: int, i: int, j: int)
    requires WellFormed(g, rows, cols)
    requires -1 <= i <= 1 && -1 <= j <= 1
    ensures 0 <= Visited(i, j) <= Visited(i, j + 1) <= |Offsets|
    ensures SumFrom(g, rows, cols, x, y, Offsets[..Visited(i, j + 1)])
      == SumFrom(g, rows, cols, x, y, Offsets[..Visited(i, j)])
         + (if i == 0 && j == 0 then 0 else CellAt(g, rows, cols, x + i, y + j))
  {
    if i != 0 || j != 0 {
      var k := Visited(i, j);
      assert Offsets[k] == (i, j);
      SumFromPrefix(g, rows, cols, x, y, Offsets, k + 1);
    }
  }

  /** The neighbour count as the nested offset loops compute it. */
  method CountNeighborsLoop(g: Grid, rows: nat, cols: nat, x: int, y: int) returns (count: int)
    requires WellFormed(g, rows, cols)
    ensures count == CountNeighbors(g, rows, cols, x, y)
  {
    count := 0;
    var i := -1;
    while i <= 1
      invariant -1 <= i <= 2
      invariant count == SumFrom(g, rows, cols, x, y, Offsets[..Visited(i, -1)])
    {
      var j := -1;
      while j <= 1
        invariant -1 <= j <= 2
        invariant count == SumFrom(g, rows, cols, x, y, Offsets[..Visited(i, j)])
      {
        VisitStep(g, rows, cols, x, y, i, j);
        if !(i == 0 && j == 0) {
          var newX := x + i;
          var newY := y + j;
          if newX >= 0 && newX < rows && newY >= 0 && newY < cols {
            count := count + g[newX][newY];
          }
        }
        j := j + 1;
      }
      i := i + 1;
    }
    assert Offsets[..Visited(2, -1)] == Offsets;
  }

  // ---------------------------------------------------------------------------
  // The generation step

  /** Next value of a cell with `n` live neighbours, following the branches of
      the update pass in order; a cell no branch writes keeps the 0 the fresh
      grid was created with. */
  function NextCell(cell: int, n: int): int {
    if cell == 1 && (n < 2 || n > 3) then 0
    else if cell == 1 && (n == 2 || n == 3) then 1
    else if cell == 0 && n == 3 then 1
    else 0
  }

  /** The next generation: every cell is computed from the unmodified old grid
      into a fresh grid of the same dimensions. */
  function Step(g: Grid, rows: nat, cols: nat): (g': Grid)
    requires WellFormed(g, rows, cols)
    ensures WellFormed(g', rows, cols)
  {
    seq(rows, i requires 0 <= i < rows =>
      seq(cols, j requires 0 <= j < cols => NextCell(g[i][j], CountNeighbors(g, rows, cols, i, j))))
  }

  /** B3/S23: a cell is alive in the next generation exactly when it is alive
      with two or three live neighbours, or dead with exactly three. */
  lemma StepIsLife(g: Grid, rows: nat, cols: nat, i: int, j: int)
    requires WellFormed(g, rows, cols)
    requires InBounds(rows, cols, i, j)
    ensures var n := |LiveNeighbours(g, rows, cols, i, j)|;
      (Step(g, rows, cols)[i][j] == 1 <==> (g[i][j] == 1 && (n == 2 || n == 3)) || (g[i][j] == 0 && n == 3))
      && (Step(g, rows, cols)[i][j] == 0 <==> !((g[i][j] == 1 && (n == 2 || n == 3)) || (g[i][j] == 0 && n == 3)))
  {
    CountIsLiveNeighbours(g, rows, cols, i, j);
  }

  /** An all-dead grid steps to an all-dead grid. */
  lemma StepAllDead(g: Grid, rows: nat, cols: nat)
    requires WellFormed(g, rows, cols)
    requires AllDead(g, rows, cols)
    ensures Step(g, rows, cols) == g
  {
    var g' := Step(g, rows, cols);
    forall i | 0 <= i < rows
      ensures g'[i] == g[i]
    {
      forall j | 0 <= j < cols
        ensures g'[i][j] == g[i][j]
      {
        CountIsLiveNeighbours(g, rows, cols, i, j);
        assert LiveNeighbours(g, rows, cols, i, j) == {};
      }
    }
  }

  /** Cell (i, j) of the next generation depends only on the 3 × 3 block of
      the old grid centred on it. */
  lemma StepLocal(g1: Grid, g2: Grid, rows: nat, cols: nat, i: int, j: int)
    requires WellFormed(g1, rows, cols) && WellFormed(g2, rows, cols)
    requires InBounds(rows, cols, i, j)
    requires forall r, c :: InBounds(rows, cols, r, c) && i - 1 <= r <= i + 1 && j - 1 <= c <= j + 1 ==> g1[r][c] == g2[r][c]
    ensures Step(g1, rows, cols)[i][j] == Step(g2, rows, cols)[i][j]
  {
    CountLocal(g1, g2, rows, cols, i, j);
  }

  /** The loop body for one cell: the rule's if-chain on the live count,
      writing into the fresh grid `next`, whose cell (i, j) still holds 0.
      Only cell (i, j) changes, and it takes the next-generation value. */
  method UpdateCell(g: Grid, next: Grid, rows: nat, cols: nat, i: int, j: int) returns (next': Grid)
    requires WellFormed(g, rows, cols) && WellFormed(next, rows, cols)
    requires InBounds(rows, cols, i, j) && next[i][j] == 0
    ensures next' == SetCell(next, rows, cols, i, j, NextCell(g[i][j], CountNeighbors(g, rows, cols, i, j)))
  {
    var neighbors := CountNeighborsLoop(g, rows, cols, i, j);
    if g[i][j] == 1 && (neighbors < 2 || neighbors > 3) {
      next' := SetCell(next, rows, cols, i, j, 0);
    } else if g[i][j] == 1 && (neighbors == 2 || neighbors == 3) {
      next' := SetCell(next, rows, cols, i, j, 1);
    } else if g[i][j] == 0 && neighbors == 3 {
      next' := SetCell(next, rows, cols, i, j, 1);
    } else {
      next' := next;
      assert next[i][j := 0] == next[i];
    }
  }

  /** The update pass as nested loops over rows then columns, each count taken
      over the old grid and each result written into a fresh grid. */
  method StepLoop(g: Grid, rows: nat, cols: nat) returns (next: Grid)
    requires WellFormed(g, rows, cols)
    ensures next == Step(g, rows, cols)
  {
    ghost var target := Step(g, rows, cols);
    next := CreateEmpty(rows, cols);
    var i := 0;
    while i < rows
      invariant 0 <= i <= rows
      invariant WellFormed(next, rows, cols)
      invariant forall r, c :: 0 <= r < rows && 0 <= c < cols ==>
        next[r][c] == (if r < i then target[r][c] else 0)
    {
      var j := 0;
      while j < cols
        invariant 0 <= j <= cols
        invariant WellFormed(next, rows, cols)
        invariant forall r, c :: 0 <= r < rows && 0 <= c < cols ==>
          next[r][c] == (if r < i || (r == i && c < j) then target[r][c] else 0)
      {
        next := UpdateCell(g, next, rows, cols, i, j);
        j := j + 1;
      }
      i := i + 1;
    }
    forall r | 0 <= r < rows
      ensures next[r] == target[r]
    {
    }
  }

  /** The same pass visiting columns in the outer loop yields the same grid. */
  method StepLoopByColumns(g: Grid, rows: nat, cols: nat) returns (next: Grid)
    requires WellFormed(g, rows, cols)
    ensures next == Step(g, rows, cols)
  {
    ghost var target := Step(g, rows, cols);
    next := CreateEmpty(rows, cols);
    var j := 0;
    while j < cols
      invariant 0 <= j <= cols
      invariant WellFormed(next, rows, cols)
      invariant forall r, c :: 0 <= r < rows && 0 <= c < cols ==>
        next[r][c] == (if c < j then target[r][c] else 0)
    {
      var i := 0;
      while i < rows
        invariant 0 <= i <= rows
        invariant WellFormed(next, rows, cols)
        invariant forall r, c :: 0 <= r < rows && 0 <= c < cols ==>
          next[r][c] == (if c < j || (c == j && r < i) then target[r][c] else 0)
      {
        var neighbors := CountNeighborsLoop(g, rows, cols, i, j);
        next := SetCell(next, rows, cols, i, j, NextCell(g[i][j], neighbors));
        i := i + 1;
      }
      j := j + 1;
    }
    forall r | 0 <= r < rows
      ensures next[r] == target[r]
    {
    }
  }

  /** Extending a prefix of `order` by one element adds exactly that element. */
  lemma PrefixGrows<T>(order: seq<T>, k: nat)
    requires k < |order|
    ensures forall x :: x in order[..k + 1] <==> x in order[..k] || x == order[k]
  {
    assert order[..k + 1] == order[..k] + [order[k]];
  }

  /** The pass visiting the cells in an arbitrary `order`, repetitions
      allowed: because every count reads the old grid and every write goes to
      the fresh one, any order that reaches every cell yields the step. */
  method StepInOrder(g: Grid, rows: nat, cols: nat, order: seq<(int, int)>) returns (next: Grid)
    requires WellFormed(g, rows, cols)
    requires forall k :: 0 <= k < |order| ==> InBounds(rows, cols, order[k].0, order[k].1)
    requires forall i, j :: 0 <= i < rows && 0 <= j < cols ==> (i, j) in order
    ensures next == Step(g, rows, cols)
  {
    ghost var target := Step(g, rows, cols);
    next := CreateEmpty(rows, cols);
    var k := 0;
    while k < |order|
      invariant 0 <= k <= |order|
      invariant WellFormed(next, rows, cols)
      invariant forall i, j :: 0 <= i < rows && 0 <= j < cols ==>
        next[i][j] == (if (i, j) in order[..k] then target[i][j] else 0)
    {
      var (i, j) := order[k];
      var neighbors := CountNeighborsLoop(g, rows, cols, i, j);
      next := SetCell(next, rows, cols, i, j, NextCell(g[i][j], neighbors));
      PrefixGrows(order, k);
      k := k + 1;
    }
    assert order[..k] == order;
    forall r | 0 <= r < rows
      ensures next[r] == target[r]
    {
    }
  }

  /** `k` generations of the automaton. */
  function StepN(g: Grid, rows: nat, cols: nat, k: nat): (g': Grid)
    requires WellFormed(g, rows, cols)
    ensures WellFormed(g', rows, cols)
    decreases k
  {
    if k == 0 then g else StepN(Step(g, rows, cols), rows, cols, k - 1)
  }
}
