/** The grid as a value: row-major indexing, the torus neighbourhood of a cell,
    the neighbour count the engine's nested loop accumulates, and the next
    generation. These functions specify the methods of `Life.World`. */
module Grid {
  import opened Torus
  import opened Cells

  /** A buffer of exactly `width * height` cells, stored row by row. */
  predicate Shaped(width: nat, height: nat, cells: seq<Cell>)
  {
    |cells| == width * height
  }

  /** A grid the engine can step without reading outside its buffer: on an axis
      of one position the wrapped successor 1 is off the axis, and the source
      indexes past the end of the buffer. */
  predicate WellFormed(width: nat, height: nat, cells: seq<Cell>)
  {
    width >= 2 && height >= 2 && Shaped(width, height, cells)
  }

  /** Every value of `xs` is below `bound`. */
  predicate Below(xs: seq<nat>, bound: nat)
  {
    forall k :: 0 <= k < |xs| ==> xs[k] < bound
  }

  /** Every position of `ps` is a (row, column) pair on the grid. */
  predicate OnGrid(width: nat, height: nat, ps: seq<(nat, nat)>)
  {
    forall k :: 0 <= k < |ps| ==> ps[k].0 < height && ps[k].1 < width
  }

  // ---------------------------------------------------------------------------
  // Row-major indexing

  /** The offset of (row, col) in the row-major buffer. Row and column can be
      read back from it, so distinct positions have distinct offsets. */
  function Index(width: nat, row: nat, col: nat): (i: nat)
    requires col < width
    ensures i / width == row && i % width == col
  {
    DivModUnique(width, row, col);
    row * width + col
  }

  /** Euclidean division by `width` undoes `row * width + col`. */
  lemma DivModUnique(width: nat, row: nat, col: nat)
    requires col < width
    ensures (row * width + col) / width == row
    ensures (row * width + col) % width == col
  {
    var x := row * width + col;
    var q, m := x / width, x % width;
    assert x == q * width + m;
    if q > row {
      assert q * width >= (row + 1) * width by { MulLeq(row + 1, q, width); }
      assert false;
    } else if q < row {
      assert (q + 1) * width <= row * width by { MulLeq(q + 1, row, width); }
      assert false;
    }
  }

  /** Multiplication by a natural number is monotonic. */
  lemma MulLeq(a: nat, b: nat, c: nat)
    requires a <= b
    ensures a * c <= b * c
  {
  }

  /** On the grid, the offset lies inside the buffer. */
  lemma IndexInRange(width: nat, height: nat, row: nat, col: nat)
    requires row < height && col < width
    ensures Index(width, row, col) < width * height
  {
    MulLeq(row + 1, height, width);
  }

  /** Distinct positions on the grid have distinct offsets. */
  lemma IndexInjective(width: nat, r1: nat, c1: nat, r2: nat, c2: nat)
    requires c1 < width && c2 < width
    ensures Index(width, r1, c1) == Index(width, r2, c2) <==> r1 == r2 && c1 == c2
  {
  }

  /** Every offset in the buffer decodes to a row and a column on the grid. */
  lemma OffsetBelow(width: nat, height: nat, i: nat)
    requires width >= 1 && i < width * height
    ensures i / width < height && i % width < width
  {
    var q := i / width;
    if q >= height {
      MulLeq(height, q, width);
      assert false;
    }
  }

  /** Every offset in the buffer is the offset of a position on the grid. */
  lemma OffsetOnGrid(width: nat, height: nat, i: nat)
    requires width >= 1 && i < width * height
    ensures i / width < height && i % width < width
    ensures Index(width, i / width, i % width) == i
  {
    OffsetBelow(width, height, i);
  }

  /** The cell at (row, col): the one stored at its row-major offset, which lies
      inside the buffer. */
  function CellAt(width: nat, height: nat, cells: seq<Cell>, row: nat, col: nat): (c: Cell)
    requires Shaped(width, height, cells) && row < height && col < width
    ensures Index(width, row, col) < |cells| && c == cells[Index(width, row, col)]
  {
    IndexInRange(width, height, row, col);
    cells[Index(width, row, col)]
  }

  // ---------------------------------------------------------------------------
  // The torus neighbourhood, independently of the engine's loop

  /** The eight positions around (row, col) on the torus, in the order row above,
      same row, row below, and left to right within each. On an axis of two
      positions the two neighbours along it coincide, so a position can occur twice. */
  function NeighborPositions(width: nat, height: nat, row: nat, col: nat): (ps: seq<(nat, nat)>)
    requires row < height && col < width
    ensures |ps| == 8 && OnGrid(width, height, ps)
  {
    var up, down := (row + height - 1) % height, (row + 1) % height;
    var left, right := (col + width - 1) % width, (col + 1) % width;
    [(up, left), (up, col), (up, right),
     (row, left), (row, right),
     (down, left), (down, col), (down, right)]
  }

  /** The number of live cells at the positions `ps`, counted with multiplicity. */
  function LiveAmong(width: nat, height: nat, cells: seq<Cell>, ps: seq<(nat, nat)>): (n: nat)
    requires Shaped(width, height, cells) && OnGrid(width, height, ps)
    ensures n <= |ps|
    decreases |ps|
  {
    if ps == [] then 0
    else
      var p := ps[|ps| - 1];
      LiveAmong(width, height, cells, ps[..|ps| - 1]) + Weight(CellAt(width, height, cells, p.0, p.1))
  }

  /** The number of live cells in the Moore neighbourhood of (row, col) on the torus. */
  function MooreCount(width: nat, height: nat, cells: seq<Cell>, row: nat, col: nat): (n: nat)
    requires Shaped(width, height, cells) && row < height && col < width
    ensures n <= 8
  {
    LiveAmong(width, height, cells, NeighborPositions(width, height, row, col))
  }

  // ---------------------------------------------------------------------------
  // The sum the engine's nested loop accumulates

  /** The term the loop adds for (r, c): nothing for the centre (row, col),
      otherwise the weight of the cell at (r, c). */
  function Term(width: nat, height: nat, cells: seq<Cell>, r: nat, c: nat, row: nat, col: nat): (n: nat)
    requires Shaped(width, height, cells) && r < height && c < width
  {
    if r == row && c == col then 0 else Weight(CellAt(width, height, cells, r, c))
  }

  /** What the inner loop adds for row coordinate `r` over the column coordinates `cols`. */
  function ColumnsSum(width: nat, height: nat, cells: seq<Cell>, r: nat, cols: seq<nat>, row: nat, col: nat): (n: nat)
    requires Shaped(width, height, cells) && r < height && Below(cols, width)
    ensures n <= |cols|
    decreases |cols|
  {
    if cols == [] then 0
    else
      ColumnsSum(width, height, cells, r, cols[..|cols| - 1], row, col)
        + Term(width, height, cells, r, cols[|cols| - 1], row, col)
  }

  /** What the nested loop accumulates over `rows` × `cols`, skipping (row, col)
      wherever it occurs. */
  function NeighborhoodSum(width: nat, height: nat, cells: seq<Cell>, rows: seq<nat>, cols: seq<nat>, row: nat, col: nat): (n: nat)
    requires Shaped(width, height, cells) && Below(rows, height) && Below(cols, width)
    ensures n <= |rows| * |cols|
    decreases |rows|
  {
    if rows == [] then 0
    else
      var n := NeighborhoodSum(width, height, cells, rows[..|rows| - 1], cols, row, col)
        + ColumnsSum(width, height, cells, rows[|rows| - 1], cols, row, col);
      assert n <= (|rows| - 1) * |cols| + |cols|;
      n
  }

  /** The neighbour count as the source computes it: the column triple is taken
      from `row` instead of `col`. Every access stays on the grid only while
      `row < width`. */
  function AsWrittenCount(width: nat, height: nat, cells: seq<Cell>, row: nat, col: nat): (n: nat)
    requires WellFormed(width, height, cells) && row < height && col < width
    requires row < width
    ensures n <= 9
  {
    NeighborhoodSum(width, height, cells,
      WrappedNeighborValues(row, height), WrappedNeighborValues(row, width), row, col)
  }

  /** The neighbour count with the column triple taken from `col`. */
  function CorrectedCount(width: nat, height: nat, cells: seq<Cell>, row: nat, col: nat): (n: nat)
    requires WellFormed(width, height, cells) && row < height && col < width
    ensures n == MooreCount(width, height, cells, row, col)
  {
    CorrectedIsMoore(width, height, cells, row, col);
    NeighborhoodSum(width, height, cells,
      WrappedNeighborValues(row, height), WrappedNeighborValues(col, width), row, col)
  }

  /** Three column coordinates contribute their three terms. */
  lemma ColumnsSumThree(width: nat, height: nat, cells: seq<Cell>, r: nat, cols: seq<nat>, row: nat, col: nat)
    requires Shaped(width, height, cells) && r < height && Below(cols, width) && |cols| == 3
    ensures ColumnsSum(width, height, cells, r, cols, row, col)
         == Term(width, height, cells, r, cols[0], row, col)
          + Term(width, height, cells, r, cols[1], row, col)
          + Term(width, height, cells, r, cols[2], row, col)
  {
    var c2, c1 := cols[..2], cols[..1];
    ColumnsSumStep(width, height, cells, r, cols, row, col);
    ColumnsSumStep(width, height, cells, r, c2, row, col);
    ColumnsSumStep(width, height, cells, r, c1, row, col);
    assert c2[..1] == c1;
    assert c1[..0] == [];
  }

  lemma ColumnsSumStep(width: nat, height: nat, cells: seq<Cell>, r: nat, cols: seq<nat>, row: nat, col: nat)
    requires Shaped(width, height, cells) && r < height && Below(cols, width) && |cols| > 0
    ensures ColumnsSum(width, height, cells, r, cols, row, col)
         == ColumnsSum(width, height, cells, r, cols[..|cols| - 1], row, col)
          + Term(width, height, cells, r, cols[|cols| - 1], row, col)
  {
  }

  /** Three row coordinates contribute their three rows. */
  lemma NeighborhoodSumThree(width: nat, height: nat, cells: seq<Cell>, rows: seq<nat>, cols: seq<nat>, row: nat, col: nat)
    requires Shaped(width, height, cells) && Below(rows, height) && Below(cols, width) && |rows| == 3
    ensures NeighborhoodSum(width, height, cells, rows, cols, row, col)
         == ColumnsSum(width, height, cells, rows[0], cols, row, col)
          + ColumnsSum(width, height, cells, rows[1], cols, row, col)
          + ColumnsSum(width, height, cells, rows[2], cols, row, col)
  {
    var r2, r1 := rows[..2], rows[..1];
    NeighborhoodSumStep(width, height, cells, rows, cols, row, col);
    NeighborhoodSumStep(width, height, cells, r2, cols, row, col);
    NeighborhoodSumStep(width, height, cells, r1, cols, row, col);
    assert r2[..1] == r1;
    assert r1[..0] == [];
  }

  lemma NeighborhoodSumStep(width: nat, height: nat, cells: seq<Cell>, rows: seq<nat>, cols: seq<nat>, row: nat, col: nat)
    requires Shaped(width, height, cells) && Below(rows, height) && Below(cols, width) && |rows| > 0
    ensures NeighborhoodSum(width, height, cells, rows, cols, row, col)
         == NeighborhoodSum(width, height, cells, rows[..|rows| - 1], cols, row, col)
          + ColumnsSum(width, height, cells, rows[|rows| - 1], cols, row, col)
  {
  }

  /** A list of positions contributes the weight of each of its cells. */
  lemma {:induction false} LiveAmongEight(width: nat, height: nat, cells: seq<Cell>, ps: seq<(nat, nat)>)
    requires Shaped(width, height, cells) && OnGrid(width, height, ps) && |ps| == 8
    ensures LiveAmong(width, height, cells, ps)
         == Weight(CellAt(width, height, cells, ps[0].0, ps[0].1))
          + Weight(CellAt(width, height, cells, ps[1].0, ps[1].1))
          + Weight(CellAt(width, height, cells, ps[2].0, ps[2].1))
          + Weight(CellAt(width, height, cells, ps[3].0, ps[3].1))
          + Weight(CellAt(width, height, cells, ps[4].0, ps[4].1))
          + Weight(CellAt(width, height, cells, ps[5].0, ps[5].1))
          + Weight(CellAt(width, height, cells, ps[6].0, ps[6].1))
          + Weight(CellAt(width, height, cells, ps[7].0, ps[7].1))
  {
    var p7, p6, p5, p4, p3, p2, p1 := ps[..7], ps[..6], ps[..5], ps[..4], ps[..3], ps[..2], ps[..1];
    LiveAmongStep(width, height, cells, ps);
    LiveAmongStep(width, height, cells, p7);
    LiveAmongStep(width, height, cells, p6);
    LiveAmongStep(width, height, cells, p5);
    LiveAmongStep(width, height, cells, p4);
    LiveAmongStep(width, height, cells, p3);
    LiveAmongStep(width, height, cells, p2);
    LiveAmongStep(width, height, cells, p1);
    assert p7[..6] == p6 && p6[..5] == p5 && p5[..4] == p4 && p4[..3] == p3;
    assert p3[..2] == p2 && p2[..1] == p1 && p1[..0] == [];
  }

  lemma LiveAmongStep(width: nat, height: nat, cells: seq<Cell>, ps: seq<(nat, nat)>)
    requires Shaped(width, height, cells) && OnGrid(width, height, ps) && |ps| > 0
    ensures LiveAmong(width, height, cells, ps)
         == LiveAmong(width, height, cells, ps[..|ps| - 1])
          + Weight(CellAt(width, height, cells, ps[|ps| - 1].0, ps[|ps| - 1].1))
  {
  }

  /** With the column triple taken from `col`, the loop's sum over the 3×3 product
      of wrapped triples, skipping the centre, is the torus Moore count: the
      centre occurs once, at the middle of both triples, and the other eight
      pairs are the eight neighbour positions. */
  lemma CorrectedIsMoore(width: nat, height: nat, cells: seq<Cell>, row: nat, col: nat)
    requires WellFormed(width, height, cells) && row < height && col < width
    ensures NeighborhoodSum(width, height, cells,
              WrappedNeighborValues(row, height), WrappedNeighborValues(col, width), row, col)
         == MooreCount(width, height, cells, row, col)
  {
    var rows, cols := WrappedNeighborValues(row, height), WrappedNeighborValues(col, width);
    NeighborhoodSumThree(width, height, cells, rows, cols, row, col);
    ColumnsSumThree(width, height, cells, rows[0], cols, row, col);
    ColumnsSumThree(width, height, cells, rows[1], cols, row, col);
    ColumnsSumThree(width, height, cells, rows[2], cols, row, col);
    LiveAmongEight(width, height, cells, NeighborPositions(width, height, row, col));
  }

  // ---------------------------------------------------------------------------
  // The next generation

  /** The next state of the cell at offset `i`, from the current generation only:
      alive exactly when the cell is alive with two or three live neighbours at
      the position the offset decodes to, or dead with exactly three. */
  function NextCell(width: nat, height: nat, cells: seq<Cell>, i: nat): (c: Cell)
    requires WellFormed(width, height, cells) && i < |cells|
    ensures i / width < height && i % width < width
    ensures var n := MooreCount(width, height, cells, i / width, i % width);
            c == Alive <==> (cells[i] == Alive && 2 <= n <= 3) || (cells[i] == Dead && n == 3)
  {
    OffsetBelow(width, height, i);
    Rule(cells[i], MooreCount(width, height, cells, i / width, i % width))
  }

  /** The whole next generation, every cell computed from the current one. */
  function NextGeneration(width: nat, height: nat, cells: seq<Cell>): (next: seq<Cell>)
    requires WellFormed(width, height, cells)
    ensures WellFormed(width, height, next)
  {
    seq(|cells|, i requires 0 <= i < |cells| => NextCell(width, height, cells, i))
  }

  /** The cell at (row, col) of the next generation follows the rule from the
      current cell at (row, col) and its neighbour count in the current generation. */
  lemma NextGenerationAt(width: nat, height: nat, cells: seq<Cell>, row: nat, col: nat)
    requires WellFormed(width, height, cells) && row < height && col < width
    ensures CellAt(width, height, NextGeneration(width, height, cells), row, col)
         == Rule(CellAt(width, height, cells, row, col), MooreCount(width, height, cells, row, col))
  {
    var i := Index(width, row, col);
    IndexInRange(width, height, row, col);
    assert NextGeneration(width, height, cells)[i] == NextCell(width, height, cells, i);
  }

  // ---------------------------------------------------------------------------
  // Behaviour of the rule on small patterns

  /** The neighbours of the corner (0, 0) wrap around both axes independently:
      the last row and the last column are adjacent to it. */
  lemma NeighborsOfOrigin(width: nat, height: nat)
    requires width >= 2 && height >= 2
    ensures NeighborPositions(width, height, 0, 0)
         == [(height - 1, width - 1), (height - 1, 0), (height - 1, 1),
             (0, width - 1), (0, 1),
             (1, width - 1), (1, 0), (1, 1)]
  {
    ModBelow(height - 1, height);
    ModBelow(1, height);
    ModBelow(width - 1, width);
    ModBelow(1, width);
  }

  /** On a grid of at least 3×3 the eight neighbour positions are pairwise distinct. */
  lemma NeighborsDistinct(width: nat, height: nat, row: nat, col: nat)
    requires width >= 3 && height >= 3 && row < height && col < width
    ensures var ps := NeighborPositions(width, height, row, col);
            forall k1, k2 :: 0 <= k1 < k2 < |ps| ==> ps[k1] != ps[k2]
  {
    WrappedDistinct(row, height);
    WrappedDistinct(col, width);
  }

  /** If every cell except the one at `q` is dead, a list of distinct positions
      holds at most one live cell, and none unless it contains `q`. */
  lemma {:induction false} LiveAmongSingle(width: nat, height: nat, cells: seq<Cell>, q: (nat, nat), ps: seq<(nat, nat)>)
    requires Shaped(width, height, cells) && OnGrid(width, height, ps) && q.0 < height && q.1 < width
    requires forall r: nat, c: nat :: r < height && c < width && (r, c) != q ==> CellAt(width, height, cells, r, c) == Dead
    requires forall k1, k2 :: 0 <= k1 < k2 < |ps| ==> ps[k1] != ps[k2]
    ensures LiveAmong(width, height, cells, ps) <= 1
    ensures q !in ps ==> LiveAmong(width, height, cells, ps) == 0
    decreases |ps|
  {
    if ps != [] {
      var pre, last := ps[..|ps| - 1], ps[|ps| - 1];
      assert forall k :: 0 <= k < |pre| ==> pre[k] == ps[k];
      LiveAmongSingle(width, height, cells, q, pre);
      LiveAmongStep(width, height, cells, ps);
      if last == q {
        assert q !in pre;
      } else {
        assert q in ps ==> q in pre;
      }
    }
  }

  /** With at most one live cell, at `q`, on a grid of at least 3×3, no cell is
      alive in the next generation: its neighbours hold at most one live cell. */
  lemma IsolatedCellNext(width: nat, height: nat, cells: seq<Cell>, q: (nat, nat), i: nat)
    requires WellFormed(width, height, cells) && width >= 3 && height >= 3
    requires q.0 < height && q.1 < width && i < |cells|
    requires forall r: nat, c: nat :: r < height && c < width && (r, c) != q ==> CellAt(width, height, cells, r, c) == Dead
    ensures NextCell(width, height, cells, i) == Dead
  {
    OffsetBelow(width, height, i);
    var row, col := i / width, i % width;
    NeighborsDistinct(width, height, row, col);
    LiveAmongSingle(width, height, cells, q, NeighborPositions(width, height, row, col));
  }

  /** A single live cell on a grid of at least 3×3 dies of underpopulation, and
      no cell is born next to it: the next generation is entirely dead. */
  lemma IsolatedCellDies(width: nat, height: nat, cells: seq<Cell>, q: (nat, nat))
    requires WellFormed(width, height, cells) && width >= 3 && height >= 3
    requires q.0 < height && q.1 < width
    requires forall r: nat, c: nat :: r < height && c < width && (r, c) != q ==> CellAt(width, height, cells, r, c) == Dead
    ensures forall i :: 0 <= i < |cells| ==> NextGeneration(width, height, cells)[i] == Dead
  {
    forall i | 0 <= i < |cells|
      ensures NextGeneration(width, height, cells)[i] == Dead
    {
      IsolatedCellNext(width, height, cells, q, i);
      assert NextGeneration(width, height, cells)[i] == NextCell(width, height, cells, i);
    }
  }

  /** On a fully dead grid no listed position adds anything. */
  lemma {:induction false} LiveAmongAllDead(width: nat, height: nat, cells: seq<Cell>, ps: seq<(nat, nat)>)
    requires Shaped(width, height, cells) && OnGrid(width, height, ps)
    requires forall i :: 0 <= i < |cells| ==> cells[i] == Dead
    ensures LiveAmong(width, height, cells, ps) == 0
    decreases |ps|
  {
    if ps != [] {
      LiveAmongAllDead(width, height, cells, ps[..|ps| - 1]);
      LiveAmongStep(width, height, cells, ps);
      var p := ps[|ps| - 1];
      IndexInRange(width, height, p.0, p.1);
    }
  }

  /** On a fully dead grid a dead cell has no live neighbour and stays dead. */
  lemma DeadCellStaysDead(width: nat, height: nat, cells: seq<Cell>, i: nat)
    requires WellFormed(width, height, cells) && i < |cells|
    requires forall k :: 0 <= k < |cells| ==> cells[k] == Dead
    ensures NextCell(width, height, cells, i) == Dead
  {
    OffsetBelow(width, height, i);
    LiveAmongAllDead(width, height, cells, NeighborPositions(width, height, i / width, i % width));
  }

  /** A fully dead grid is a still life: nothing is ever born from nothing. */
  lemma DeadGridStaysDead(width: nat, height: nat, cells: seq<Cell>)
    requires WellFormed(width, height, cells)
    requires forall i :: 0 <= i < |cells| ==> cells[i] == Dead
    ensures NextGeneration(width, height, cells) == cells
  {
    var next := NextGeneration(width, height, cells);
    forall i | 0 <= i < |cells|
      ensures next[i] == cells[i]
    {
      DeadCellStaysDead(width, height, cells, i);
      assert next[i] == NextCell(width, height, cells, i);
    }
  }

  /** On a fully live grid a cell has eight live neighbours and dies. */
  lemma FullCellDies(width: nat, height: nat, cells: seq<Cell>, i: nat)
    requires WellFormed(width, height, cells) && i < |cells|
    requires forall k :: 0 <= k < |cells| ==> cells[k] == Alive
    ensures MooreCount(width, height, cells, i / width, i % width) == 8
    ensures NextCell(width, height, cells, i) == Dead
  {
    OffsetBelow(width, height, i);
    LiveAmongAllAlive(width, height, cells, NeighborPositions(width, height, i / width, i % width));
  }

  /** On a fully live grid every cell has eight live neighbours (counted with
      multiplicity on an axis of two), so every cell dies of overpopulation. */
  lemma FullGridDies(width: nat, height: nat, cells: seq<Cell>)
    requires WellFormed(width, height, cells)
    requires forall i :: 0 <= i < |cells| ==> cells[i] == Alive
    ensures forall i :: 0 <= i < |cells| ==> NextGeneration(width, height, cells)[i] == Dead
  {
    forall i | 0 <= i < |cells|
      ensures NextGeneration(width, height, cells)[i] == Dead
    {
      FullCellDies(width, height, cells, i);
      assert NextGeneration(width, height, cells)[i] == NextCell(width, height, cells, i);
    }
  }

  // ---------------------------------------------------------------------------
  // The defect of the neighbour count as written

  /** On a fully live grid each position that is not skipped adds one. */
  lemma {:induction false} ColumnsSumAllAlive(width: nat, height: nat, cells: seq<Cell>, r: nat, cols: seq<nat>, row: nat, col: nat)
    requires Shaped(width, height, cells) && r < height && Below(cols, width)
    requires forall i :: 0 <= i < |cells| ==> cells[i] == Alive
    requires r != row || col !in cols
    ensures ColumnsSum(width, height, cells, r, cols, row, col) == |cols|
    decreases |cols|
  {
    if cols != [] {
      var pre := cols[..|cols| - 1];
      assert col in pre ==> col in cols;
      ColumnsSumAllAlive(width, height, cells, r, pre, row, col);
      ColumnsSumStep(width, height, cells, r, cols, row, col);
      IndexInRange(width, height, r, cols[|cols| - 1]);
    }
  }

  /** On a fully live grid, when the centre's column is not among `cols`, the
      nested loop skips nothing and adds one per pair. */
  lemma {:induction false} NeighborhoodSumAllAlive(width: nat, height: nat, cells: seq<Cell>, rows: seq<nat>, cols: seq<nat>, row: nat, col: nat)
    requires Shaped(width, height, cells) && Below(rows, height) && Below(cols, width)
    requires forall i :: 0 <= i < |cells| ==> cells[i] == Alive
    requires col !in cols
    ensures NeighborhoodSum(width, height, cells, rows, cols, row, col) == |rows| * |cols|
    decreases |rows|
  {
    if rows != [] {
      NeighborhoodSumAllAlive(width, height, cells, rows[..|rows| - 1], cols, row, col);
      NeighborhoodSumStep(width, height, cells, rows, cols, row, col);
      ColumnsSumAllAlive(width, height, cells, rows[|rows| - 1], cols, row, col);
      assert (|rows| - 1) * |cols| + |cols| == |rows| * |cols|;
    }
  }

  /** On a fully live grid every listed position adds one. */
  lemma {:induction false} LiveAmongAllAlive(width: nat, height: nat, cells: seq<Cell>, ps: seq<(nat, nat)>)
    requires Shaped(width, height, cells) && OnGrid(width, height, ps)
    requires forall i :: 0 <= i < |cells| ==> cells[i] == Alive
    ensures LiveAmong(width, height, cells, ps) == |ps|
    decreases |ps|
  {
    if ps != [] {
      LiveAmongAllAlive(width, height, cells, ps[..|ps| - 1]);
      LiveAmongStep(width, height, cells, ps);
      var p := ps[|ps| - 1];
      IndexInRange(width, height, p.0, p.1);
    }
  }

  /** Whenever `col` is not among the wrapped values of `row`, the count as
      written misses the centre's own column: on a fully live grid it reports
      nine live neighbours, one more than a cell can have. */
  lemma AsWrittenOvercounts(width: nat, height: nat, cells: seq<Cell>, row: nat, col: nat)
    requires WellFormed(width, height, cells) && row < height && col < width && row < width
    requires forall i :: 0 <= i < |cells| ==> cells[i] == Alive
    requires col !in WrappedNeighborValues(row, width)
    ensures AsWrittenCount(width, height, cells, row, col) == 9
    ensures MooreCount(width, height, cells, row, col) == 8
  {
    NeighborhoodSumAllAlive(width, height, cells,
      WrappedNeighborValues(row, height), WrappedNeighborValues(row, width), row, col);
    LiveAmongAllAlive(width, height, cells, NeighborPositions(width, height, row, col));
  }

  /** A concrete instance: on a fully live 4×4 grid the cell at row 0, column 2
      is counted with nine live neighbours as written and eight when corrected. */
  lemma AsWrittenCounterexample()
    ensures var cells := seq(16, _ => Alive);
            AsWrittenCount(4, 4, cells, 0, 2) == 9 && CorrectedCount(4, 4, cells, 0, 2) == 8
  {
    var cells := seq(16, _ => Alive);
    assert WrappedNeighborValues(0, 4) == [3, 0, 1];
    AsWrittenOvercounts(4, 4, cells, 0, 2);
  }
}
