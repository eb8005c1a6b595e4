/** Model of `majority_filter` (src/potential_cloud_shadow_snow_mask.c and
    its identical copy in l4-7_cfmask/src/potential_cloud_shadow_snow_mask.c):
    an in-place 3x3 majority vote on a cloud mask.  Cells are visited in
    row-major order; at each cell nine rule blocks run one after the other,
    each counting the cells equal to 1 in its window and setting the cell to
    1 when the count reaches its threshold.  The mask is modelled as an
    `array2`; its behaviour is specified by a pure function over the
    sequence of row-major cell steps. */
module MajorityFilter {

  import opened Grids

  /** The state of the pass between two cells: the mask as updated so far
      and the running `cloud_pixels` counter, which the interior block does
      not reset when its row test fails. */
  datatype Pass = Pass(grid: Grid, carry: int)

  /** 1 when cell (i, j) exists and is a cloud cell (value 1), otherwise 0;
      any other value, such as the 255 fill, counts as not cloud. */
  function One(g: Grid, i: int, j: int): int {
    if 0 <= i < |g| && 0 <= j < |g[i]| && g[i][j] == 1 then 1 else 0
  }

  /** `mask[r][c] = 1`. */
  function Set1(g: Grid, r: int, c: int): Grid {
    if 0 <= r < |g| && 0 <= c < |g[r]| then g[r := g[r][c := 1]] else g
  }

  lemma Set1Cells(g: Grid, r: int, c: int)
    ensures |Set1(g, r, c)| == |g| && forall i :: 0 <= i < |g| ==> |Set1(g, r, c)[i]| == |g[i]|
    ensures forall i, j :: 0 <= i < |g| && 0 <= j < |g[i]| ==>
              Set1(g, r, c)[i][j] == if i == r && j == c then 1 else g[i][j]
  {
  }

  /** `if (cloud_pixels >= t) mask[r][c] = 1;` */
  function Mark(g: Grid, r: int, c: int, n: int, t: int): Grid {
    if n >= t then Set1(g, r, c) else g
  }

  lemma MarkMarksOnly(g: Grid, r: int, c: int, n: int, t: int)
    ensures MarksOnly(g, Mark(g, r, c, n, t), r, c)
    ensures Rows(Mark(g, r, c, n, t)) == Rows(g) && Cols(Mark(g, r, c, n, t)) == Cols(g)
    ensures n < t ==> Mark(g, r, c, n, t) == g
    ensures n >= t && 0 <= r < |g| && 0 <= c < |g[r]| ==> Mark(g, r, c, n, t)[r][c] == 1
  {
    if n >= t {
      Set1Cells(g, r, c);
    }
  }

  /** `h` has the shape of `g` and differs from it at most by a 1 in cell
      (r, c). */
  predicate MarksOnly(g: Grid, h: Grid, r: int, c: int) {
    && |h| == |g| && (forall i :: 0 <= i < |g| ==> |h[i]| == |g[i]|)
    && forall i, j :: 0 <= i < |g| && 0 <= j < |g[i]| ==>
         h[i][j] == g[i][j] || (i == r && j == c && h[i][j] == 1)
  }

  lemma MarksOnlyTrans(a: Grid, b: Grid, d: Grid, r: int, c: int)
    requires MarksOnly(a, b, r, c) && MarksOnly(b, d, r, c)
    ensures MarksOnly(a, d, r, c)
  {
  }

  /** The 3x3 window of the interior block; 0 unless `(c-1) > 0 && (c+1) < (ncols-1)`. */
  function Window(g: Grid, r: int, c: int): int {
    if 0 < c - 1 && c + 1 < Cols(g) - 1 then
      One(g, r - 1, c - 1) + One(g, r - 1, c) + One(g, r - 1, c + 1) +
      One(g, r, c - 1) + One(g, r, c) + One(g, r, c + 1) +
      One(g, r + 1, c - 1) + One(g, r + 1, c) + One(g, r + 1, c + 1)
    else 0
  }

  /** The interior block's row test `(row-1) > 0 && (row+1) < (nrows-1)`. */
  predicate InteriorRow(g: Grid, r: int) {
    0 < r - 1 && r + 1 < Rows(g) - 1
  }

  function TopLeft(g: Grid, r: int, c: int): int {
    if r == 0 && c == 0 then One(g, r, c) + One(g, r, c + 1) + One(g, r + 1, c) + One(g, r + 1, c + 1) else 0
  }

  function TopRight(g: Grid, r: int, c: int): int {
    if r == 0 && c == Cols(g) - 1 then One(g, r, c - 1) + One(g, r, c) + One(g, r + 1, c - 1) + One(g, r + 1, c) else 0
  }

  function BottomLeft(g: Grid, r: int, c: int): int {
    if r == Rows(g) - 1 && c == 0 then One(g, r - 1, c) + One(g, r - 1, c + 1) + One(g, r, c) + One(g, r, c + 1) else 0
  }

  function BottomRight(g: Grid, r: int, c: int): int {
    if r == Rows(g) - 1 && c == Cols(g) - 1 then One(g, r - 1, c - 1) + One(g, r - 1, c) + One(g, r, c) + One(g, r, c - 1) else 0
  }

  function TopEdge(g: Grid, r: int, c: int): int {
    if r == 0 && 0 < c < Cols(g) - 1 then
      One(g, r, c - 1) + One(g, r, c) + One(g, r, c + 1) + One(g, r + 1, c - 1) + One(g, r + 1, c) + One(g, r + 1, c + 1)
    else 0
  }

  /** The "bottom edge" block as written: its row test compares the row
      with `ncols - 1`, not `nrows - 1`. */
  function BottomEdge(g: Grid, r: int, c: int): int {
    if r == Cols(g) - 1 && 0 < c < Cols(g) - 1 then
      One(g, r, c - 1) + One(g, r, c) + One(g, r, c + 1) + One(g, r - 1, c - 1) + One(g, r - 1, c) + One(g, r - 1, c + 1)
    else 0
  }

  function LeftEdge(g: Grid, r: int, c: int): int {
    if 0 < r < Rows(g) - 1 && c == 0 then
      One(g, r - 1, c) + One(g, r, c) + One(g, r + 1, c) + One(g, r - 1, c + 1) + One(g, r, c + 1) + One(g, r + 1, c + 1)
    else 0
  }

  /** The right-edge block as written: it counts `mask[row+1][col-1]`
      twice and never looks at `mask[row+1][col]`. */
  function RightEdge(g: Grid, r: int, c: int): int {
    if 0 < r < Rows(g) - 1 && c == Cols(g) - 1 then
      One(g, r - 1, c - 1) + One(g, r, c - 1) + One(g, r + 1, c - 1) + One(g, r - 1, c) + One(g, r, c) + One(g, r + 1, c - 1)
    else 0
  }

  /** The interior block: `cloud_pixels` restarts from 0 only when the row
      test holds; otherwise it still holds `carry`, the right-edge count of
      the previous cell. */
  function InteriorCount(g: Grid, r: int, c: int, carry: int): int {
    if InteriorRow(g, r) then Window(g, r, c) else carry
  }

  /** The nine blocks the filter runs at cell (r, c), in the source's
      order: 5 of 9 inside, 2 of 4 in a corner, 3 of 6 on an edge.  The
      counter keeps the right-edge block's count for the next cell. */
  function Step(p: Pass, r: int, c: int): Pass {
    var g1 := Mark(p.grid, r, c, InteriorCount(p.grid, r, c, p.carry), 5);
    var g2 := Mark(g1, r, c, TopLeft(g1, r, c), 2);
    var g3 := Mark(g2, r, c, TopRight(g2, r, c), 2);
    var g4 := Mark(g3, r, c, BottomLeft(g3, r, c), 2);
    var g5 := Mark(g4, r, c, BottomRight(g4, r, c), 2);
    var g6 := Mark(g5, r, c, TopEdge(g5, r, c), 3);
    var g7 := Mark(g6, r, c, BottomEdge(g6, r, c), 3);
    var g8 := Mark(g7, r, c, LeftEdge(g7, r, c), 3);
    var n := RightEdge(g8, r, c);
    Pass(Mark(g8, r, c, n, 3), n)
  }

  /** A row-major pass over `g0` that runs `step` at every cell, stopped
      on reaching cell (r, c). */
  function Sweep(step: (Pass, int, int) -> Pass, g0: Grid, r: nat, c: nat): Pass
    requires r <= Rows(g0) && c <= Cols(g0)
    decreases r, c
  {
    if c == 0 then
      if r == 0 then Pass(g0, 0) else Sweep(step, g0, r - 1, Cols(g0))
    else
      step(Sweep(step, g0, r, c - 1), r, c - 1)
  }

  /** The state of the filter when it reaches cell (r, c) of `g0`. */
  function Before(g0: Grid, r: nat, c: nat): (p: Pass)
    requires r <= Rows(g0) && c <= Cols(g0)
    ensures MarksShape(g0, p.grid)
  {
    StepIsMarker();
    SweepUntouched(Step, g0, r, c);
    Sweep(Step, g0, r, c)
  }

  /** The mask as the filter sees it on reaching cell (r, c): cells before
      it already filtered, the others as they were. */
  function Seen(g0: Grid, r: nat, c: nat): Grid
    requires r <= Rows(g0) && c <= Cols(g0)
  {
    Before(g0, r, c).grid
  }

  /** The mask after the whole pass. */
  function Filtered(g0: Grid): Grid {
    Seen(g0, Rows(g0), 0)
  }

  /** Cell (i, j) comes before cell (r, c) in row-major order. */
  predicate Earlier(i: int, j: int, r: int, c: int) {
    i < r || (i == r && j < c)
  }

  /** `step` writes nothing but a 1 into the cell it is run at. */
  ghost predicate Marker(step: (Pass, int, int) -> Pass) {
    forall p: Pass, i: int, j: int :: MarksOnly(p.grid, step(p, i, j).grid, i, j)
  }

  /** A step writes nothing but a 1 into its own cell. */
  lemma StepMarksOnly(p: Pass, r: int, c: int)
    ensures MarksOnly(p.grid, Step(p, r, c).grid, r, c)
  {
    var g := p.grid;
    var g1 := Mark(g, r, c, InteriorCount(g, r, c, p.carry), 5);
    var g2 := Mark(g1, r, c, TopLeft(g1, r, c), 2);
    var g3 := Mark(g2, r, c, TopRight(g2, r, c), 2);
    var g4 := Mark(g3, r, c, BottomLeft(g3, r, c), 2);
    var g5 := Mark(g4, r, c, BottomRight(g4, r, c), 2);
    var g6 := Mark(g5, r, c, TopEdge(g5, r, c), 3);
    var g7 := Mark(g6, r, c, BottomEdge(g6, r, c), 3);
    var g8 := Mark(g7, r, c, LeftEdge(g7, r, c), 3);
    var g9 := Mark(g8, r, c, RightEdge(g8, r, c), 3);
    MarkMarksOnly(g, r, c, InteriorCount(g, r, c, p.carry), 5);
    MarkMarksOnly(g1, r, c, TopLeft(g1, r, c), 2);
    MarkMarksOnly(g2, r, c, TopRight(g2, r, c), 2);
    MarkMarksOnly(g3, r, c, BottomLeft(g3, r, c), 2);
    MarkMarksOnly(g4, r, c, BottomRight(g4, r, c), 2);
    MarkMarksOnly(g5, r, c, TopEdge(g5, r, c), 3);
    MarkMarksOnly(g6, r, c, BottomEdge(g6, r, c), 3);
    MarkMarksOnly(g7, r, c, LeftEdge(g7, r, c), 3);
    MarkMarksOnly(g8, r, c, RightEdge(g8, r, c), 3);
    MarksOnlyTrans(g, g1, g2, r, c);
    MarksOnlyTrans(g, g2, g3, r, c);
    MarksOnlyTrans(g, g3, g4, r, c);
    MarksOnlyTrans(g, g4, g5, r, c);
    MarksOnlyTrans(g, g5, g6, r, c);
    MarksOnlyTrans(g, g6, g7, r, c);
    MarksOnlyTrans(g, g7, g8, r, c);
    MarksOnlyTrans(g, g8, g9, r, c);
  }

  lemma StepIsMarker()
    ensures Marker(Step)
  {
    forall p: Pass, i: int, j: int
      ensures MarksOnly(p.grid, Step(p, i, j).grid, i, j)
    {
      StepMarksOnly(p, i, j);
    }
  }

  /** A pass of a marking step keeps the shape of the mask, and cells it
      has not reached hold their input value. */
  lemma {:induction false} SweepUntouched(step: (Pass, int, int) -> Pass, g0: Grid, r: nat, c: nat)
    requires Marker(step) && r <= Rows(g0) && c <= Cols(g0)
    ensures MarksShape(g0, Sweep(step, g0, r, c).grid)
    ensures forall i, j :: 0 <= i < |g0| && 0 <= j < |g0[i]| && !Earlier(i, j, r, c) ==>
              Sweep(step, g0, r, c).grid[i][j] == g0[i][j]
    decreases r, c
  {
    if c == 0 {
      if r > 0 {
        SweepUntouched(step, g0, r - 1, Cols(g0));
      }
    } else {
      SweepUntouched(step, g0, r, c - 1);
      var p := Sweep(step, g0, r, c - 1);
      assert MarksOnly(p.grid, step(p, r, c - 1).grid, r, c - 1);
    }
  }

  /** In a pass of a marking step, a cell already passed keeps the value
      its own step gave it. */
  lemma {:induction false} SweepSettled(step: (Pass, int, int) -> Pass, g0: Grid, r: nat, c: nat, i: nat, j: nat)
    requires Marker(step) && r <= Rows(g0) && c <= Cols(g0) && Rectangular(g0)
    requires i < Rows(g0) && j < Cols(g0) && Earlier(i, j, r, c)
    ensures MarksShape(g0, Sweep(step, g0, r, c).grid) && MarksShape(g0, Sweep(step, g0, i, j + 1).grid)
    ensures Sweep(step, g0, r, c).grid[i][j] == Sweep(step, g0, i, j + 1).grid[i][j]
    decreases r, c
  {
    SweepUntouched(step, g0, r, c);
    SweepUntouched(step, g0, i, j + 1);
    if c == 0 {
      if i < r - 1 || j < Cols(g0) - 1 {
        SweepSettled(step, g0, r - 1, Cols(g0), i, j);
      }
    } else if i != r || j != c - 1 {
      SweepSettled(step, g0, r, c - 1, i, j);
      var p := Sweep(step, g0, r, c - 1);
      assert MarksOnly(p.grid, step(p, r, c - 1).grid, r, c - 1);
    }
  }

  /** `h` has the shape of `g`. */
  predicate MarksShape(g: Grid, h: Grid) {
    |h| == |g| && forall i :: 0 <= i < |g| ==> |h[i]| == |g[i]|
  }

  /** `if (cloud_pixels >= t) mask[row][col] = 1;` on the array. */
  method MarkIf(mask: array2<int>, row: int, col: int, n: int, t: int)
    requires 0 <= row < mask.Length0 && 0 <= col < mask.Length1
    modifies mask
    ensures Snapshot(mask) == Mark(old(Snapshot(mask)), row, col, n, t)
  {
    ghost var g := Snapshot(mask);
    if n >= t {
      mask[row, col] := 1;
      Set1Cells(g, row, col);
      SameGrid(Snapshot(mask), Set1(g, row, col));
    }
  }

  /** The nine blocks at cell (row, col); returns the counter the next cell
      starts from. */
  method FilterCell(mask: array2<int>, row: int, col: int, carry: int) returns (cloudPixels: int)
    requires 0 <= row < mask.Length0 && 0 <= col < mask.Length1
    modifies mask
    ensures Pass(Snapshot(mask), cloudPixels) == Step(Pass(old(Snapshot(mask)), carry), row, col)
  {
    cloudPixels := carry;
    if 0 < row - 1 && row + 1 < mask.Length0 - 1 {
      cloudPixels := Window(Snapshot(mask), row, col);
    }
    MarkIf(mask, row, col, cloudPixels, 5);
    cloudPixels := TopLeft(Snapshot(mask), row, col);
    MarkIf(mask, row, col, cloudPixels, 2);
    cloudPixels := TopRight(Snapshot(mask), row, col);
    MarkIf(mask, row, col, cloudPixels, 2);
    cloudPixels := BottomLeft(Snapshot(mask), row, col);
    MarkIf(mask, row, col, cloudPixels, 2);
    cloudPixels := BottomRight(Snapshot(mask), row, col);
    MarkIf(mask, row, col, cloudPixels, 2);
    cloudPixels := TopEdge(Snapshot(mask), row, col);
    MarkIf(mask, row, col, cloudPixels, 3);
    cloudPixels := BottomEdge(Snapshot(mask), row, col);
    MarkIf(mask, row, col, cloudPixels, 3);
    cloudPixels := LeftEdge(Snapshot(mask), row, col);
    MarkIf(mask, row, col, cloudPixels, 3);
    cloudPixels := RightEdge(Snapshot(mask), row, col);
    MarkIf(mask, row, col, cloudPixels, 3);
  }

  /** `majority_filter(mask, nrows, ncols)`.  The corner blocks read the
      second row and column, so the mask needs at least two of each. */
  method Filter(mask: array2<int>)
    requires mask.Length0 >= 2 && mask.Length1 >= 2
    modifies mask
    ensures Snapshot(mask) == Filtered(old(Snapshot(mask)))
  {
    ghost var g0 := Snapshot(mask);
    var cloudPixels := 0;
    for row := 0 to mask.Length0
      invariant Pass(Snapshot(mask), cloudPixels) == Before(g0, row, 0)
    {
      for col := 0 to mask.Length1
        invariant Pass(Snapshot(mask), cloudPixels) == Before(g0, row, col)
      {
        cloudPixels := FilterCell(mask, row, col, cloudPixels);
      }
    }
  }

  /** Some block fires at (r, c) when the mask is `g` and the counter
      `carry`. */
  predicate Fires(g: Grid, r: int, c: int, carry: int) {
    || InteriorCount(g, r, c, carry) >= 5
    || TopLeft(g, r, c) >= 2 || TopRight(g, r, c) >= 2 || BottomLeft(g, r, c) >= 2 || BottomRight(g, r, c) >= 2
    || TopEdge(g, r, c) >= 3 || BottomEdge(g, r, c) >= 3 || LeftEdge(g, r, c) >= 3 || RightEdge(g, r, c) >= 3
  }

  /** A cell ends its own step as 1 when any block fires on the mask as it
      stood before the step, and otherwise keeps its value: the blocks
      that run after a first firing only see the 1 it wrote. */
  lemma StepCell(p: Pass, r: int, c: int)
    requires 0 <= r < |p.grid| && 0 <= c < |p.grid[r]|
    ensures Step(p, r, c).grid[r][c] == if Fires(p.grid, r, c, p.carry) then 1 else p.grid[r][c]
  {
    var g := p.grid;
    var g1 := Mark(g, r, c, InteriorCount(g, r, c, p.carry), 5);
    var g2 := Mark(g1, r, c, TopLeft(g1, r, c), 2);
    var g3 := Mark(g2, r, c, TopRight(g2, r, c), 2);
    var g4 := Mark(g3, r, c, BottomLeft(g3, r, c), 2);
    var g5 := Mark(g4, r, c, BottomRight(g4, r, c), 2);
    var g6 := Mark(g5, r, c, TopEdge(g5, r, c), 3);
    var g7 := Mark(g6, r, c, BottomEdge(g6, r, c), 3);
    var g8 := Mark(g7, r, c, LeftEdge(g7, r, c), 3);
    var g9 := Mark(g8, r, c, RightEdge(g8, r, c), 3);
    MarkMarksOnly(g, r, c, InteriorCount(g, r, c, p.carry), 5);
    MarkMarksOnly(g1, r, c, TopLeft(g1, r, c), 2);
    MarkMarksOnly(g2, r, c, TopRight(g2, r, c), 2);
    MarkMarksOnly(g3, r, c, BottomLeft(g3, r, c), 2);
    MarkMarksOnly(g4, r, c, BottomRight(g4, r, c), 2);
    MarkMarksOnly(g5, r, c, TopEdge(g5, r, c), 3);
    MarkMarksOnly(g6, r, c, BottomEdge(g6, r, c), 3);
    MarkMarksOnly(g7, r, c, LeftEdge(g7, r, c), 3);
    MarkMarksOnly(g8, r, c, RightEdge(g8, r, c), 3);
  }

  /** A step's right-edge count is the counter the next cell starts from:
      it is 0 off the right edge, and on the right edge (below the first
      row and above the last) the count of the unchanged mask when the
      counter arrived below 5. */
  lemma StepCarry(p: Pass, r: int, c: int)
    requires Rectangular(p.grid) && Rows(p.grid) >= 2 && Cols(p.grid) >= 2
    ensures !(0 < r < Rows(p.grid) - 1 && c == Cols(p.grid) - 1) ==> Step(p, r, c).carry == 0
    ensures 0 < r < Rows(p.grid) - 1 && c == Cols(p.grid) - 1 && p.carry < 5 ==>
              Step(p, r, c).carry == RightEdge(p.grid, r, c)
  {
    var g := p.grid;
    var g1 := Mark(g, r, c, InteriorCount(g, r, c, p.carry), 5);
    var g2 := Mark(g1, r, c, TopLeft(g1, r, c), 2);
    var g3 := Mark(g2, r, c, TopRight(g2, r, c), 2);
    var g4 := Mark(g3, r, c, BottomLeft(g3, r, c), 2);
    var g5 := Mark(g4, r, c, BottomRight(g4, r, c), 2);
    var g6 := Mark(g5, r, c, TopEdge(g5, r, c), 3);
    var g7 := Mark(g6, r, c, BottomEdge(g6, r, c), 3);
    MarkMarksOnly(g, r, c, InteriorCount(g, r, c, p.carry), 5);
    MarkMarksOnly(g1, r, c, TopLeft(g1, r, c), 2);
    MarkMarksOnly(g2, r, c, TopRight(g2, r, c), 2);
    MarkMarksOnly(g3, r, c, BottomLeft(g3, r, c), 2);
    MarkMarksOnly(g4, r, c, BottomRight(g4, r, c), 2);
    MarkMarksOnly(g5, r, c, TopEdge(g5, r, c), 3);
    MarkMarksOnly(g6, r, c, BottomEdge(g6, r, c), 3);
    MarkMarksOnly(g7, r, c, LeftEdge(g7, r, c), 3);
  }

  /** The shape of the mask during the pass. */
  lemma SeenShape(g0: Grid, r: nat, c: nat)
    requires Rectangular(g0) && r <= Rows(g0) && c <= Cols(g0)
    ensures Rows(Seen(g0, r, c)) == Rows(g0) && Cols(Seen(g0, r, c)) == Cols(g0) && Rectangular(Seen(g0, r, c))
  {
    StepIsMarker();
    SweepUntouched(Step, g0, r, c);
  }

  /** One step of the pass takes the state at (r, c) to the state at the
      next cell. */
  lemma BeforeNext(g0: Grid, r: nat, c: nat)
    requires r <= Rows(g0) && c < Cols(g0)
    ensures Before(g0, r, c + 1) == Step(Before(g0, r, c), r, c)
  {
  }

  /** The counter a step hands on, in terms of the pass's states. */
  lemma CarryAfter(g0: Grid, r: nat, c: nat)
    requires Rectangular(g0) && Rows(g0) >= 2 && Cols(g0) >= 2 && r < Rows(g0) && c < Cols(g0)
    ensures !(0 < r < Rows(g0) - 1 && c == Cols(g0) - 1) ==> Before(g0, r, c + 1).carry == 0
    ensures 0 < r < Rows(g0) - 1 && c == Cols(g0) - 1 && Before(g0, r, c).carry < 5 ==>
              Before(g0, r, c + 1).carry == RightEdge(Seen(g0, r, c), r, c)
  {
    BeforeNext(g0, r, c);
    SeenShape(g0, r, c);
    StepCarry(Before(g0, r, c), r, c);
  }

  /** The counter arriving at a cell after the first column is 0. */
  lemma CarryInRow(g0: Grid, r: nat, c: nat)
    requires Rectangular(g0) && Rows(g0) >= 2 && Cols(g0) >= 2 && r < Rows(g0) && 0 < c < Cols(g0)
    ensures Before(g0, r, c).carry == 0
  {
    CarryAfter(g0, r, c - 1);
  }

  /** The counter arriving at the first column of row r is the right-edge
      count made at the end of row r - 1 (0 when that row is the first). */
  lemma CarryIntoRow(g0: Grid, r: nat)
    requires Rectangular(g0) && Rows(g0) >= 2 && Cols(g0) >= 2 && 0 < r < Rows(g0)
    ensures Before(g0, r, 0).carry ==
              if r - 1 > 0 then RightEdge(Seen(g0, r - 1, Cols(g0) - 1), r - 1, Cols(g0) - 1) else 0
  {
    var w := Cols(g0) - 1;
    assert Before(g0, r, 0) == Before(g0, r - 1, w + 1);
    CarryInRow(g0, r - 1, w);
    CarryAfter(g0, r - 1, w);
  }

  /** The final value of a cell is decided by its own step: 1 when some
      block fires on the mask as the pass found it, the input value
      otherwise. */
  lemma Outcome(g0: Grid, r: nat, c: nat)
    requires Rectangular(g0) && r < Rows(g0) && c < Cols(g0)
    ensures Rows(Filtered(g0)) == Rows(g0) && Rectangular(Filtered(g0)) && Cols(Filtered(g0)) == Cols(g0)
    ensures Filtered(g0)[r][c] == if Fires(Seen(g0, r, c), r, c, Before(g0, r, c).carry) then 1 else g0[r][c]
  {
    StepIsMarker();
    SeenShape(g0, Rows(g0), 0);
    SweepSettled(Step, g0, Rows(g0), 0, r, c);
    SweepUntouched(Step, g0, r, c);
    BeforeNext(g0, r, c);
    StepCell(Before(g0, r, c), r, c);
  }

  /** The filter never writes anything but 1: every cell ends as it was or
      as 1, so a cell that was 1 stays 1, and the mask keeps its shape. */
  lemma OnlyOnesWritten(g0: Grid)
    requires Rectangular(g0)
    ensures Rows(Filtered(g0)) == Rows(g0) && Rectangular(Filtered(g0))
    ensures forall i, j :: 0 <= i < Rows(g0) && 0 <= j < Cols(g0) ==>
              Filtered(g0)[i][j] == g0[i][j] || Filtered(g0)[i][j] == 1
    ensures forall i, j :: 0 <= i < Rows(g0) && 0 <= j < Cols(g0) && g0[i][j] == 1 ==> Filtered(g0)[i][j] == 1
  {
    SeenShape(g0, Rows(g0), 0);
    forall i, j | 0 <= i < Rows(g0) && 0 <= j < Cols(g0)
      ensures Filtered(g0)[i][j] == g0[i][j] || Filtered(g0)[i][j] == 1
    {
      Outcome(g0, i, j);
    }
  }

  /** Because the pass works in place in row-major order, the mask it
      counts on at (r, c) holds final values before (r, c) and input values
      from (r, c) on. */
  lemma SeenMixed(g0: Grid, r: nat, c: nat, i: nat, j: nat)
    requires Rectangular(g0) && r < Rows(g0) && c < Cols(g0) && i < Rows(g0) && j < Cols(g0)
    ensures Rows(Filtered(g0)) == Rows(g0) && Rectangular(Filtered(g0)) && Cols(Filtered(g0)) == Cols(g0)
    ensures Seen(g0, r, c)[i][j] == if Earlier(i, j, r, c) then Filtered(g0)[i][j] else g0[i][j]
  {
    StepIsMarker();
    SeenShape(g0, Rows(g0), 0);
    SweepUntouched(Step, g0, r, c);
    if Earlier(i, j, r, c) {
      SweepSettled(Step, g0, r, c, i, j);
      SweepSettled(Step, g0, Rows(g0), 0, i, j);
    }
  }

  /** Interior rule: for rows 2..nrows-3 and columns 2..ncols-3 (the row
      test `(row-1) > 0 && (row+1) < (nrows-1)` leaves out rows 1 and
      nrows-2), a cell ends as 1 exactly when it was 1 or at least 5 of the
      9 cells of its window are 1.  Row ncols-1 is left out, because the
      misplaced bottom-edge test also runs there. */
  lemma InteriorRule(g0: Grid, r: nat, c: nat)
    requires Rectangular(g0) && 2 <= r <= Rows(g0) - 3 && 2 <= c <= Cols(g0) - 3 && r != Cols(g0) - 1
    ensures Rows(Filtered(g0)) == Rows(g0) && Rectangular(Filtered(g0)) && Cols(Filtered(g0)) == Cols(g0)
    ensures Filtered(g0)[r][c] == 1 <==> g0[r][c] == 1 || Window(Seen(g0, r, c), r, c) >= 5
  {
    SeenShape(g0, r, c);
    Outcome(g0, r, c);
  }

  /** In the ring between the edge and the interior (row 1, row nrows-2,
      column 1, column ncols-2) no block applies and the cell keeps its
      value. */
  lemma InnerRingUnchanged(g0: Grid, r: nat, c: nat)
    requires Rectangular(g0) && 0 < r < Rows(g0) - 1 && 0 < c < Cols(g0) - 1 && r != Cols(g0) - 1
    requires r == 1 || r == Rows(g0) - 2 || c == 1 || c == Cols(g0) - 2
    ensures Rows(Filtered(g0)) == Rows(g0) && Rectangular(Filtered(g0)) && Cols(Filtered(g0)) == Cols(g0)
    ensures Filtered(g0)[r][c] == g0[r][c]
  {
    SeenShape(g0, r, c);
    CarryInRow(g0, r, c);
    Outcome(g0, r, c);
  }

  /** Corner rule for the top-left, top-right and bottom-right corners: the
      cell ends as 1 exactly when it was 1 or at least 2 of the 4 cells of
      its corner block are 1. */
  lemma CornerRule(g0: Grid, r: nat, c: nat)
    requires Rectangular(g0) && Rows(g0) >= 2 && Cols(g0) >= 2
    requires (r == 0 && c == 0) || (r == 0 && c == Cols(g0) - 1) || (r == Rows(g0) - 1 && c == Cols(g0) - 1)
    ensures Rows(Filtered(g0)) == Rows(g0) && Rectangular(Filtered(g0)) && Cols(Filtered(g0)) == Cols(g0)
    ensures var g := Seen(g0, r, c);
            Filtered(g0)[r][c] == 1 <==> g0[r][c] == 1 || TopLeft(g, r, c) + TopRight(g, r, c) + BottomRight(g, r, c) >= 2
  {
    SeenShape(g0, r, c);
    if c > 0 {
      CarryInRow(g0, r, c);
    }
    Outcome(g0, r, c);
  }

  /** The bottom-left corner follows the 2-of-4 rule, but the counter it
      inherits from the right end of row nrows-2 can also set it: a
      right-edge count of 5 or more passes the interior threshold. */
  lemma BottomLeftRule(g0: Grid)
    requires Rectangular(g0) && Rows(g0) >= 2 && Cols(g0) >= 2
    ensures Rows(Filtered(g0)) == Rows(g0) && Rectangular(Filtered(g0)) && Cols(Filtered(g0)) == Cols(g0)
    ensures var r := Rows(g0) - 1;
            var carry := if r - 1 > 0 then RightEdge(Seen(g0, r - 1, Cols(g0) - 1), r - 1, Cols(g0) - 1) else 0;
            Filtered(g0)[r][0] == 1 <==> g0[r][0] == 1 || carry >= 5 || BottomLeft(Seen(g0, r, 0), r, 0) >= 2
  {
    var r := Rows(g0) - 1;
    SeenShape(g0, r, 0);
    CarryIntoRow(g0, r);
    Outcome(g0, r, 0);
  }

  /** Top-edge rule: 3 of the 6 cells of the first two rows around the cell. */
  lemma TopEdgeRule(g0: Grid, c: nat)
    requires Rectangular(g0) && Rows(g0) >= 2 && 0 < c < Cols(g0) - 1
    ensures Rows(Filtered(g0)) == Rows(g0) && Rectangular(Filtered(g0)) && Cols(Filtered(g0)) == Cols(g0)
    ensures Filtered(g0)[0][c] == 1 <==> g0[0][c] == 1 || TopEdge(Seen(g0, 0, c), 0, c) >= 3
  {
    SeenShape(g0, 0, c);
    CarryInRow(g0, 0, c);
    Outcome(g0, 0, c);
  }

  /** Left-edge rule: 3 of the 6 cells of the first two columns around the
      cell; in a row where the interior row test fails, the counter
      inherited from the end of the row above (when that row is not the
      first) can also set the cell. */
  lemma LeftEdgeRule(g0: Grid, r: nat)
    requires Rectangular(g0) && Cols(g0) >= 2 && 0 < r < Rows(g0) - 1
    ensures Rows(Filtered(g0)) == Rows(g0) && Rectangular(Filtered(g0)) && Cols(Filtered(g0)) == Cols(g0)
    ensures var carry := if r - 1 > 0 then RightEdge(Seen(g0, r - 1, Cols(g0) - 1), r - 1, Cols(g0) - 1) else 0;
            Filtered(g0)[r][0] == 1 <==>
              g0[r][0] == 1 || (!InteriorRow(g0, r) && carry >= 5) || LeftEdge(Seen(g0, r, 0), r, 0) >= 3
  {
    SeenShape(g0, r, 0);
    CarryIntoRow(g0, r);
    Outcome(g0, r, 0);
  }

  /** Right-edge rule: the cell ends as 1 exactly when it was 1 or the
      right-edge count as written reaches 3. */
  lemma RightEdgeRule(g0: Grid, r: nat)
    requires Rectangular(g0) && Cols(g0) >= 2 && 0 < r < Rows(g0) - 1
    ensures Rows(Filtered(g0)) == Rows(g0) && Rectangular(Filtered(g0)) && Cols(Filtered(g0)) == Cols(g0)
    ensures var c := Cols(g0) - 1;
            Filtered(g0)[r][c] == 1 <==> g0[r][c] == 1 || RightEdge(Seen(g0, r, c), r, c) >= 3
  {
    var c := Cols(g0) - 1;
    SeenShape(g0, r, c);
    CarryInRow(g0, r, c);
    Outcome(g0, r, c);
  }

  /** The right-edge count never looks at the cell below: changing
      `mask[row+1][col]` leaves it as it was. */
  lemma RightEdgeIgnoresCellBelow(g: Grid, r: nat, v: int)
    requires Rectangular(g) && Cols(g) >= 2 && 0 < r < Rows(g) - 1
    ensures var c := Cols(g) - 1;
            RightEdge(g[r + 1 := g[r + 1][c := v]], r, c) == RightEdge(g, r, c)
  {
  }

  /** The bottom-edge block tests `row == ncols-1`, so when the mask is not
      square the cells of the last row between its corners are never
      changed. */
  lemma BottomRowUnchanged(g0: Grid, c: nat)
    requires Rectangular(g0) && Rows(g0) >= 2 && Rows(g0) != Cols(g0) && 0 < c < Cols(g0) - 1
    ensures Rows(Filtered(g0)) == Rows(g0) && Rectangular(Filtered(g0)) && Cols(Filtered(g0)) == Cols(g0)
    ensures Filtered(g0)[Rows(g0) - 1][c] == g0[Rows(g0) - 1][c]
  {
    SeenShape(g0, Rows(g0) - 1, c);
    CarryInRow(g0, Rows(g0) - 1, c);
    QuietBottomRow(Seen(g0, Rows(g0) - 1, c), c);
    Outcome(g0, Rows(g0) - 1, c);
  }

  /** No block fires between the corners of the last row of a non-square
      mask when the counter arrives as 0. */
  lemma QuietBottomRow(g: Grid, c: int)
    requires Rectangular(g) && Rows(g) >= 2 && Rows(g) != Cols(g) && 0 < c < Cols(g) - 1
    ensures !Fires(g, Rows(g) - 1, c, 0)
  {
  }

  /** Row ncols-1, when the mask has that row, gets the 3-of-6
      edge rule over itself and the row above. */
  lemma MisplacedBottomEdge(g0: Grid, c: nat)
    requires Rectangular(g0) && Cols(g0) - 1 < Rows(g0) && 0 < c < Cols(g0) - 1
    requires BottomEdge(Seen(g0, Cols(g0) - 1, c), Cols(g0) - 1, c) >= 3
    ensures Rows(Filtered(g0)) == Rows(g0) && Rectangular(Filtered(g0)) && Cols(Filtered(g0)) == Cols(g0)
    ensures Filtered(g0)[Cols(g0) - 1][c] == 1
  {
    var r := Cols(g0) - 1;
    SeenShape(g0, r, c);
    Outcome(g0, r, c);
    assert Fires(Seen(g0, r, c), r, c, Before(g0, r, c).carry);
  }
}
