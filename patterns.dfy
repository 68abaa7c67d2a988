/** Classic patterns stepped by the engine on a small torus: the block, a still
    life, and the blinker, an oscillator of period two. Each pattern is a
    predicate on the buffer; each cell's next state is computed from its eight
    neighbours, and the cells are then put together into the next generation. */
module Patterns {
  import opened Cells
  import opened Grid

  /** The next state of the cell at offset `i`, which decodes to (row, col),
      given that cell's neighbour count. */
  lemma NextCellFromCount(width: nat, height: nat, cells: seq<Cell>, i: nat, row: nat, col: nat, n: nat)
    requires WellFormed(width, height, cells) && row < height && col < width
    requires i == Index(width, row, col)
    requires MooreCount(width, height, cells, row, col) == n
    ensures i < |cells|
    ensures NextCell(width, height, cells, i) == Rule(CellAt(width, height, cells, row, col), n)
  {
    IndexInRange(width, height, row, col);
  }

  /** Two buffers of the same grid that agree at every position are equal. */
  lemma SameCells(width: nat, height: nat, a: seq<Cell>, b: seq<Cell>)
    requires WellFormed(width, height, a) && WellFormed(width, height, b)
    requires forall row: nat, col: nat :: row < height && col < width ==>
               CellAt(width, height, a, row, col) == CellAt(width, height, b, row, col)
    ensures a == b
  {
    forall i | 0 <= i < |a|
      ensures a[i] == b[i]
    {
      OffsetOnGrid(width, height, i);
      assert CellAt(width, height, a, i / width, i % width) == CellAt(width, height, b, i / width, i % width);
    }
  }

  // ---------------------------------------------------------------------------
  // The block: a 2×2 square of live cells in a 4×4 grid

  /** The block at rows 1-2 and columns 1-2 of a 4×4 grid, all else dead. */
  predicate IsBlock(cells: seq<Cell>)
  {
    WellFormed(4, 4, cells)
    && forall row: nat, col: nat :: row < 4 && col < 4 ==>
         CellAt(4, 4, cells, row, col) == if 1 <= row <= 2 && 1 <= col <= 2 then Alive else Dead
  }

  lemma BlockCell0(cells: seq<Cell>)
    requires IsBlock(cells)
    ensures NextCell(4, 4, cells, 0) == Dead
  {
    assert MooreCount(4, 4, cells, 0, 0) == 1 by {
      var ps := NeighborPositions(4, 4, 0, 0);
      assert ps == [(3, 3), (3, 0), (3, 1), (0, 3), (0, 1), (1, 3), (1, 0), (1, 1)];
      LiveAmongEight(4, 4, cells, ps);
    }
    NextCellFromCount(4, 4, cells, 0, 0, 0, 1);
  }

  lemma BlockCell1(cells: seq<Cell>)
    requires IsBlock(cells)
    ensures NextCell(4, 4, cells, 1) == Dead
  {
    assert MooreCount(4, 4, cells, 0, 1) == 2 by {
      var ps := NeighborPositions(4, 4, 0, 1);
      assert ps == [(3, 0), (3, 1), (3, 2), (0, 0), (0, 2), (1, 0), (1, 1), (1, 2)];
      LiveAmongEight(4, 4, cells, ps);
    }
    NextCellFromCount(4, 4, cells, 1, 0, 1, 2);
  }

  lemma BlockCell2(cells: seq<Cell>)
    requires IsBlock(cells)
    ensures NextCell(4, 4, cells, 2) == Dead
  {
    assert MooreCount(4, 4, cells, 0, 2) == 2 by {
      var ps := NeighborPositions(4, 4, 0, 2);
      assert ps == [(3, 1), (3, 2), (3, 3), (0, 1), (0, 3), (1, 1), (1, 2), (1, 3)];
      LiveAmongEight(4, 4, cells, ps);
    }
    NextCellFromCount(4, 4, cells, 2, 0, 2, 2);
  }

  lemma BlockCell3(cells: seq<Cell>)
    requires IsBlock(cells)
    ensures NextCell(4, 4, cells, 3) == Dead
  {
    assert MooreCount(4, 4, cells, 0, 3) == 1 by {
      var ps := NeighborPositions(4, 4, 0, 3);
      assert ps == [(3, 2), (3, 3), (3, 0), (0, 2), (0, 0), (1, 2), (1, 3), (1, 0)];
      LiveAmongEight(4, 4, cells, ps);
    }
    NextCellFromCount(4, 4, cells, 3, 0, 3, 1);
  }

  lemma BlockCell4(cells: seq<Cell>)
    requires IsBlock(cells)
    ensures NextCell(4, 4, cells, 4) == Dead
  {
    assert MooreCount(4, 4, cells, 1, 0) == 2 by {
      var ps := NeighborPositions(4, 4, 1, 0);
      assert ps == [(0, 3), (0, 0), (0, 1), (1, 3), (1, 1), (2, 3), (2, 0), (2, 1)];
      LiveAmongEight(4, 4, cells, ps);
    }
    NextCellFromCount(4, 4, cells, 4, 1, 0, 2);
  }

  lemma BlockCell5(cells: seq<Cell>)
    requires IsBlock(cells)
    ensures NextCell(4, 4, cells, 5) == Alive
  {
    assert MooreCount(4, 4, cells, 1, 1) == 3 by {
      var ps := NeighborPositions(4, 4, 1, 1);
      assert ps == [(0, 0), (0, 1), (0, 2), (1, 0), (1, 2), (2, 0), (2, 1), (2, 2)];
      LiveAmongEight(4, 4, cells, ps);
    }
    NextCellFromCount(4, 4, cells, 5, 1, 1, 3);
  }

  lemma BlockCell6(cells: seq<Cell>)
    requires IsBlock(cells)
    ensures NextCell(4, 4, cells, 6) == Alive
  {
    assert MooreCount(4, 4, cells, 1, 2) == 3 by {
      var ps := NeighborPositions(4, 4, 1, 2);
      assert ps == [(0, 1), (0, 2), (0, 3), (1, 1), (1, 3), (2, 1), (2, 2), (2, 3)];
      LiveAmongEight(4, 4, cells, ps);
    }
    NextCellFromCount(4, 4, cells, 6, 1, 2, 3);
  }

  lemma BlockCell7(cells: seq<Cell>)
    requires IsBlock(cells)
    ensures NextCell(4, 4, cells, 7) == Dead
  {
    assert MooreCount(4, 4, cells, 1, 3) == 2 by {
      var ps := NeighborPositions(4, 4, 1, 3);
      assert ps == [(0, 2), (0, 3), (0, 0), (1, 2), (1, 0), (2, 2), (2, 3), (2, 0)];
      LiveAmongEight(4, 4, cells, ps);
    }
    NextCellFromCount(4, 4, cells, 7, 1, 3, 2);
  }

  lemma BlockCell8(cells: seq<Cell>)
    requires IsBlock(cells)
    ensures NextCell(4, 4, cells, 8) == Dead
  {
    assert MooreCount(4, 4, cells, 2, 0) == 2 by {
      var ps := NeighborPositions(4, 4, 2, 0);
      assert ps == [(1, 3), (1, 0), (1, 1), (2, 3), (2, 1), (3, 3), (3, 0), (3, 1)];
      LiveAmongEight(4, 4, cells, ps);
    }
    NextCellFromCount(4, 4, cells, 8, 2, 0, 2);
  }

  lemma BlockCell9(cells: seq<Cell>)
    requires IsBlock(cells)
    ensures NextCell(4, 4, cells, 9) == Alive
  {
    assert MooreCount(4, 4, cells, 2, 1) == 3 by {
      var ps := NeighborPositions(4, 4, 2, 1);
      assert ps == [(1, 0), (1, 1), (1, 2), (2, 0), (2, 2), (3, 0), (3, 1), (3, 2)];
      LiveAmongEight(4, 4, cells, ps);
    }
    NextCellFromCount(4, 4, cells, 9, 2, 1, 3);
  }

  lemma BlockCell10(cells: seq<Cell>)
    requires IsBlock(cells)
    ensures NextCell(4, 4, cells, 10) == Alive
  {
    assert MooreCount(4, 4, cells, 2, 2) == 3 by {
      var ps := NeighborPositions(4, 4, 2, 2);
      assert ps == [(1, 1), (1, 2), (1, 3), (2, 1), (2, 3), (3, 1), (3, 2), (3, 3)];
      LiveAmongEight(4, 4, cells, ps);
    }
    NextCellFromCount(4, 4, cells, 10, 2, 2, 3);
  }

  lemma BlockCell11(cells: seq<Cell>)
    requires IsBlock(cells)
    ensures NextCell(4, 4, cells, 11) == Dead
  {
    assert MooreCount(4, 4, cells, 2, 3) == 2 by {
      var ps := NeighborPositions(4, 4, 2, 3);
      assert ps == [(1, 2), (1, 3), (1, 0), (2, 2), (2, 0), (3, 2), (3, 3), (3, 0)];
      LiveAmongEight(4, 4, cells, ps);
    }
    NextCellFromCount(4, 4, cells, 11, 2, 3, 2);
  }

  lemma BlockCell12(cells: seq<Cell>)
    requires IsBlock(cells)
    ensures NextCell(4, 4, cells, 12) == Dead
  {
    assert MooreCount(4, 4, cells, 3, 0) == 1 by {
      var ps := NeighborPositions(4, 4, 3, 0);
      assert ps == [(2, 3), (2, 0), (2, 1), (3, 3), (3, 1), (0, 3), (0, 0), (0, 1)];
      LiveAmongEight(4, 4, cells, ps);
    }
    NextCellFromCount(4, 4, cells, 12, 3, 0, 1);
  }

  lemma BlockCell13(cells: seq<Cell>)
    requires IsBlock(cells)
    ensures NextCell(4, 4, cells, 13) == Dead
  {
    assert MooreCount(4, 4, cells, 3, 1) == 2 by {
      var ps := NeighborPositions(4, 4, 3, 1);
      assert ps == [(2, 0), (2, 1), (2, 2), (3, 0), (3, 2), (0, 0), (0, 1), (0, 2)];
      LiveAmongEight(4, 4, cells, ps);
    }
    NextCellFromCount(4, 4, cells, 13, 3, 1, 2);
  }

  lemma BlockCell14(cells: seq<Cell>)
    requires IsBlock(cells)
    ensures NextCell(4, 4, cells, 14) == Dead
  {
    assert MooreCount(4, 4, cells, 3, 2) == 2 by {
      var ps := NeighborPositions(4, 4, 3, 2);
      assert ps == [(2, 1), (2, 2), (2, 3), (3, 1), (3, 3), (0, 1), (0, 2), (0, 3)];
      LiveAmongEight(4, 4, cells, ps);
    }
    NextCellFromCount(4, 4, cells, 14, 3, 2, 2);
  }

  lemma BlockCell15(cells: seq<Cell>)
    requires IsBlock(cells)
    ensures NextCell(4, 4, cells, 15) == Dead
  {
    assert MooreCount(4, 4, cells, 3, 3) == 1 by {
      var ps := NeighborPositions(4, 4, 3, 3);
      assert ps == [(2, 2), (2, 3), (2, 0), (3, 2), (3, 0), (0, 2), (0, 3), (0, 0)];
      LiveAmongEight(4, 4, cells, ps);
    }
    NextCellFromCount(4, 4, cells, 15, 3, 3, 1);
  }

  /** Every cell of the block keeps its state: a live cell has three live neighbours, and a dead one has at most two. */
  lemma BlockCell(cells: seq<Cell>, i: nat)
    requires IsBlock(cells) && i < 16
    ensures NextCell(4, 4, cells, i) == if i == 5 || i == 6 || i == 9 || i == 10 then Alive else Dead
  {
    if i == 0 {
      BlockCell0(cells);
    } else if i == 1 {
      BlockCell1(cells);
    } else if i == 2 {
      BlockCell2(cells);
    } else if i == 3 {
      BlockCell3(cells);
    } else if i == 4 {
      BlockCell4(cells);
    } else if i == 5 {
      BlockCell5(cells);
    } else if i == 6 {
      BlockCell6(cells);
    } else if i == 7 {
      BlockCell7(cells);
    } else if i == 8 {
      BlockCell8(cells);
    } else if i == 9 {
      BlockCell9(cells);
    } else if i == 10 {
      BlockCell10(cells);
    } else if i == 11 {
      BlockCell11(cells);
    } else if i == 12 {
      BlockCell12(cells);
    } else if i == 13 {
      BlockCell13(cells);
    } else if i == 14 {
      BlockCell14(cells);
    } else {
      BlockCell15(cells);
    }
  }

  /** The block is a still life. */
  lemma BlockStep(cells: seq<Cell>)
    requires IsBlock(cells)
    ensures IsBlock(NextGeneration(4, 4, cells))
  {
    var next := NextGeneration(4, 4, cells);
    forall row: nat, col: nat | row < 4 && col < 4
      ensures CellAt(4, 4, next, row, col) == if 1 <= row <= 2 && 1 <= col <= 2 then Alive else Dead
    {
      var i := Index(4, row, col);
      IndexInRange(4, 4, row, col);
      BlockCell(cells, i);
      assert next[i] == NextCell(4, 4, cells, i);
    }
  }

  /** The block as a buffer, row after row. */
  function Block(): (b: seq<Cell>)
    ensures IsBlock(b)
  {
    seq(16, i => if i == 5 || i == 6 || i == 9 || i == 10 then Alive else Dead)
  }

  /** Stepping the block buffer gives the same buffer back. */
  lemma BlockStillLife()
    ensures NextGeneration(4, 4, Block()) == Block()
  {
    BlockStep(Block());
    SameCells(4, 4, NextGeneration(4, 4, Block()), Block());
  }

  // ---------------------------------------------------------------------------
  // The blinker: three live cells in a line in a 5×5 grid

  /** The horizontal phase: row 2, columns 1-3, all else dead. */
  predicate HorizontalBlinker(cells: seq<Cell>)
  {
    WellFormed(5, 5, cells)
    && forall row: nat, col: nat :: row < 5 && col < 5 ==>
         CellAt(5, 5, cells, row, col) == if row == 2 && 1 <= col <= 3 then Alive else Dead
  }

  /** The vertical phase: column 2, rows 1-3, all else dead. */
  predicate VerticalBlinker(cells: seq<Cell>)
  {
    WellFormed(5, 5, cells)
    && forall row: nat, col: nat :: row < 5 && col < 5 ==>
         CellAt(5, 5, cells, row, col) == if col == 2 && 1 <= row <= 3 then Alive else Dead
  }

  lemma HorizontalCell0(cells: seq<Cell>)
    requires HorizontalBlinker(cells)
    ensures NextCell(5, 5, cells, 0) == Dead
  {
    assert MooreCount(5, 5, cells, 0, 0) == 0 by {
      var ps := NeighborPositions(5, 5, 0, 0);
      assert ps == [(4, 4), (4, 0), (4, 1), (0, 4), (0, 1), (1, 4), (1, 0), (1, 1)];
      LiveAmongEight(5, 5, cells, ps);
    }
    NextCellFromCount(5, 5, cells, 0, 0, 0, 0);
  }

  lemma HorizontalCell1(cells: seq<Cell>)
    requires HorizontalBlinker(cells)
    ensures NextCell(5, 5, cells, 1) == Dead
  {
    assert MooreCount(5, 5, cells, 0, 1) == 0 by {
      var ps := NeighborPositions(5, 5, 0, 1);
      assert ps == [(4, 0), (4, 1), (4, 2), (0, 0), (0, 2), (1, 0), (1, 1), (1, 2)];
      LiveAmongEight(5, 5, cells, ps);
    }
    NextCellFromCount(5, 5, cells, 1, 0, 1, 0);
  }

  lemma HorizontalCell2(cells: seq<Cell>)
    requires HorizontalBlinker(cells)
    ensures NextCell(5, 5, cells, 2) == Dead
  {
    assert MooreCount(5, 5, cells, 0, 2) == 0 by {
      var ps := NeighborPositions(5, 5, 0, 2);
      assert ps == [(4, 1), (4, 2), (4, 3), (0, 1), (0, 3), (1, 1), (1, 2), (1, 3)];
      LiveAmongEight(5, 5, cells, ps);
    }
    NextCellFromCount(5, 5, cells, 2, 0, 2, 0);
  }

  lemma HorizontalCell3(cells: seq<Cell>)
    requires HorizontalBlinker(cells)
    ensures NextCell(5, 5, cells, 3) == Dead
  {
    assert MooreCount(5, 5, cells, 0, 3) == 0 by {
      var ps := NeighborPositions(5, 5, 0, 3);
      assert ps == [(4, 2), (4, 3), (4, 4), (0, 2), (0, 4), (1, 2), (1, 3), (1, 4)];
      LiveAmongEight(5, 5, cells, ps);
    }
    NextCellFromCount(5, 5, cells, 3, 0, 3, 0);
  }

  lemma HorizontalCell4(cells: seq<Cell>)
    requires HorizontalBlinker(cells)
    ensures NextCell(5, 5, cells, 4) == Dead
  {
    assert MooreCount(5, 5, cells, 0, 4) == 0 by {
      var ps := NeighborPositions(5, 5, 0, 4);
      assert ps == [(4, 3), (4, 4), (4, 0), (0, 3), (0, 0), (1, 3), (1, 4), (1, 0)];
      LiveAmongEight(5, 5, cells, ps);
    }
    NextCellFromCount(5, 5, cells, 4, 0, 4, 0);
  }

  lemma HorizontalCell5(cells: seq<Cell>)
    requires HorizontalBlinker(cells)
    ensures NextCell(5, 5, cells, 5) == Dead
  {
    assert MooreCount(5, 5, cells, 1, 0) == 1 by {
      var ps := NeighborPositions(5, 5, 1, 0);
      assert ps == [(0, 4), (0, 0), (0, 1), (1, 4), (1, 1), (2, 4), (2, 0), (2, 1)];
      LiveAmongEight(5, 5, cells, ps);
    }
    NextCellFromCount(5, 5, cells, 5, 1, 0, 1);
  }

  lemma HorizontalCell6(cells: seq<Cell>)
    requires HorizontalBlinker(cells)
    ensures NextCell(5, 5, cells, 6) == Dead
  {
    assert MooreCount(5, 5, cells, 1, 1) == 2 by {
      var ps := NeighborPositions(5, 5, 1, 1);
      assert ps == [(0, 0), (0, 1), (0, 2), (1, 0), (1, 2), (2, 0), (2, 1), (2, 2)];
      LiveAmongEight(5, 5, cells, ps);
    }
    NextCellFromCount(5, 5, cells, 6, 1, 1, 2);
  }

  lemma HorizontalCell7(cells: seq<Cell>)
    requires HorizontalBlinker(cells)
    ensures NextCell(5, 5, cells, 7) == Alive
  {
    assert MooreCount(5, 5, cells, 1, 2) == 3 by {
      var ps := NeighborPositions(5, 5, 1, 2);
      assert ps == [(0, 1), (0, 2), (0, 3), (1, 1), (1, 3), (2, 1), (2, 2), (2, 3)];
      LiveAmongEight(5, 5, cells, ps);
    }
    NextCellFromCount(5, 5, cells, 7, 1, 2, 3);
  }

  lemma HorizontalCell8(cells: seq<Cell>)
    requires HorizontalBlinker(cells)
    ensures NextCell(5, 5, cells, 8) == Dead
  {
    assert MooreCount(5, 5, cells, 1, 3) == 2 by {
      var ps := NeighborPositions(5, 5, 1, 3);
      assert ps == [(0, 2), (0, 3), (0, 4), (1, 2), (1, 4), (2, 2), (2, 3), (2, 4)];
      LiveAmongEight(5, 5, cells, ps);
    }
    NextCellFromCount(5, 5, cells, 8, 1, 3, 2);
  }

  lemma HorizontalCell9(cells: seq<Cell>)
    requires HorizontalBlinker(cells)
    ensures NextCell(5, 5, cells, 9) == Dead
  {
    assert MooreCount(5, 5, cells, 1, 4) == 1 by {
      var ps := NeighborPositions(5, 5, 1, 4);
      assert ps == [(0, 3), (0, 4), (0, 0), (1, 3), (1, 0), (2, 3), (2, 4), (2, 0)];
      LiveAmongEight(5, 5, cells, ps);
    }
    NextCellFromCount(5, 5, cells, 9, 1, 4, 1);
  }

  lemma HorizontalCell10(cells: seq<Cell>)
    requires HorizontalBlinker(cells)
    ensures NextCell(5, 5, cells, 10) == Dead
  {
    assert MooreCount(5, 5, cells, 2, 0) == 1 by {
      var ps := NeighborPositions(5, 5, 2, 0);
      assert ps == [(1, 4), (1, 0), (1, 1), (2, 4), (2, 1), (3, 4), (3, 0), (3, 1)];
      LiveAmongEight(5, 5, cells, ps);
    }
    NextCellFromCount(5, 5, cells, 10, 2, 0, 1);
  }

  lemma HorizontalCell11(cells: seq<Cell>)
    requires HorizontalBlinker(cells)
    ensures NextCell(5, 5, cells, 11) == Dead
  {
    assert MooreCount(5, 5, cells, 2, 1) == 1 by {
      var ps := NeighborPositions(5, 5, 2, 1);
      assert ps == [(1, 0), (1, 1), (1, 2), (2, 0), (2, 2), (3, 0), (3, 1), (3, 2)];
      LiveAmongEight(5, 5, cells, ps);
    }
    NextCellFromCount(5, 5, cells, 11, 2, 1, 1);
  }

  lemma HorizontalCell12(cells: seq<Cell>)
    requires HorizontalBlinker(cells)
    ensures NextCell(5, 5, cells, 12) == Alive
  {
    assert MooreCount(5, 5, cells, 2, 2) == 2 by {
      var ps := NeighborPositions(5, 5, 2, 2);
      assert ps == [(1, 1), (1, 2), (1, 3), (2, 1), (2, 3), (3, 1), (3, 2), (3, 3)];
      LiveAmongEight(5, 5, cells, ps);
    }
    NextCellFromCount(5, 5, cells, 12, 2, 2, 2);
  }

  lemma HorizontalCell13(cells: seq<Cell>)
    requires HorizontalBlinker(cells)
    ensures NextCell(5, 5, cells, 13) == Dead
  {
    assert MooreCount(5, 5, cells, 2, 3) == 1 by {
      var ps := NeighborPositions(5, 5, 2, 3);
      assert ps == [(1, 2), (1, 3), (1, 4), (2, 2), (2, 4), (3, 2), (3, 3), (3, 4)];
      LiveAmongEight(5, 5, cells, ps);
    }
    NextCellFromCount(5, 5, cells, 13, 2, 3, 1);
  }

  lemma HorizontalCell14(cells: seq<Cell>)
    requires HorizontalBlinker(cells)
    ensures NextCell(5, 5, cells, 14) == Dead
  {
    assert MooreCount(5, 5, cells, 2, 4) == 1 by {
      var ps := NeighborPositions(5, 5, 2, 4);
      assert ps == [(1, 3), (1, 4), (1, 0), (2, 3), (2, 0), (3, 3), (3, 4), (3, 0)];
      LiveAmongEight(5, 5, cells, ps);
    }
    NextCellFromCount(5, 5, cells, 14, 2, 4, 1);
  }

  lemma HorizontalCell15(cells: seq<Cell>)
    requires HorizontalBlinker(cells)
    ensures NextCell(5, 5, cells, 15) == Dead
  {
    assert MooreCount(5, 5, cells, 3, 0) == 1 by {
      var ps := NeighborPositions(5, 5, 3, 0);
      assert ps == [(2, 4), (2, 0), (2, 1), (3, 4), (3, 1), (4, 4), (4, 0), (4, 1)];
      LiveAmongEight(5, 5, cells, ps);
    }
    NextCellFromCount(5, 5, cells, 15, 3, 0, 1);
  }

  lemma HorizontalCell16(cells: seq<Cell>)
    requires HorizontalBlinker(cells)
    ensures NextCell(5, 5, cells, 16) == Dead
  {
    assert MooreCount(5, 5, cells, 3, 1) == 2 by {
      var ps := NeighborPositions(5, 5, 3, 1);
      assert ps == [(2, 0), (2, 1), (2, 2), (3, 0), (3, 2), (4, 0), (4, 1), (4, 2)];
      LiveAmongEight(5, 5, cells, ps);
    }
    NextCellFromCount(5, 5, cells, 16, 3, 1, 2);
  }

  lemma HorizontalCell17(cells: seq<Cell>)
    requires HorizontalBlinker(cells)
    ensures NextCell(5, 5, cells, 17) == Alive
  {
    assert MooreCount(5, 5, cells, 3, 2) == 3 by {
      var ps := NeighborPositions(5, 5, 3, 2);
      assert ps == [(2, 1), (2, 2), (2, 3), (3, 1), (3, 3), (4, 1), (4, 2), (4, 3)];
      LiveAmongEight(5, 5, cells, ps);
    }
    NextCellFromCount(5, 5, cells, 17, 3, 2, 3);
  }

  lemma HorizontalCell18(cells: seq<Cell>)
    requires HorizontalBlinker(cells)
    ensures NextCell(5, 5, cells, 18) == Dead
  {
    assert MooreCount(5, 5, cells, 3, 3) == 2 by {
      var ps := NeighborPositions(5, 5, 3, 3);
      assert ps == [(2, 2), (2, 3), (2, 4), (3, 2), (3, 4), (4, 2), (4, 3), (4, 4)];
      LiveAmongEight(5, 5, cells, ps);
    }
    NextCellFromCount(5, 5, cells, 18, 3, 3, 2);
  }

  lemma HorizontalCell19(cells: seq<Cell>)
    requires HorizontalBlinker(cells)
    ensures NextCell(5, 5, cells, 19) == Dead
  {
    assert MooreCount(5, 5, cells, 3, 4) == 1 by {
      var ps := NeighborPositions(5, 5, 3, 4);
      assert ps == [(2, 3), (2, 4), (2, 0), (3, 3), (3, 0), (4, 3), (4, 4), (4, 0)];
      LiveAmongEight(5, 5, cells, ps);
    }
    NextCellFromCount(5, 5, cells, 19, 3, 4, 1);
  }

  lemma HorizontalCell20(cells: seq<Cell>)
    requires HorizontalBlinker(cells)
    ensures NextCell(5, 5, cells, 20) == Dead
  {
    assert MooreCount(5, 5, cells, 4, 0) == 0 by {
      var ps := NeighborPositions(5, 5, 4, 0);
      assert ps == [(3, 4), (3, 0), (3, 1), (4, 4), (4, 1), (0, 4), (0, 0), (0, 1)];
      LiveAmongEight(5, 5, cells, ps);
    }
    NextCellFromCount(5, 5, cells, 20, 4, 0, 0);
  }

  lemma HorizontalCell21(cells: seq<Cell>)
    requires HorizontalBlinker(cells)
    ensures NextCell(5, 5, cells, 21) == Dead
  {
    assert MooreCount(5, 5, cells, 4, 1) == 0 by {
      var ps := NeighborPositions(5, 5, 4, 1);
      assert ps == [(3, 0), (3, 1), (3, 2), (4, 0), (4, 2), (0, 0), (0, 1), (0, 2)];
      LiveAmongEight(5, 5, cells, ps);
    }
    NextCellFromCount(5, 5, cells, 21, 4, 1, 0);
  }

  lemma HorizontalCell22(cells: seq<Cell>)
    requires HorizontalBlinker(cells)
    ensures NextCell(5, 5, cells, 22) == Dead
  {
    assert MooreCount(5, 5, cells, 4, 2) == 0 by {
      var ps := NeighborPositions(5, 5, 4, 2);
      assert ps == [(3, 1), (3, 2), (3, 3), (4, 1), (4, 3), (0, 1), (0, 2), (0, 3)];
      LiveAmongEight(5, 5, cells, ps);
    }
    NextCellFromCount(5, 5, cells, 22, 4, 2, 0);
  }

  lemma HorizontalCell23(cells: seq<Cell>)
    requires HorizontalBlinker(cells)
    ensures NextCell(5, 5, cells, 23) == Dead
  {
    assert MooreCount(5, 5, cells, 4, 3) == 0 by {
      var ps := NeighborPositions(5, 5, 4, 3);
      assert ps == [(3, 2), (3, 3), (3, 4), (4, 2), (4, 4), (0, 2), (0, 3), (0, 4)];
      LiveAmongEight(5, 5, cells, ps);
    }
    NextCellFromCount(5, 5, cells, 23, 4, 3, 0);
  }

  lemma HorizontalCell24(cells: seq<Cell>)
    requires HorizontalBlinker(cells)
    ensures NextCell(5, 5, cells, 24) == Dead
  {
    assert MooreCount(5, 5, cells, 4, 4) == 0 by {
      var ps := NeighborPositions(5, 5, 4, 4);
      assert ps == [(3, 3), (3, 4), (3, 0), (4, 3), (4, 0), (0, 3), (0, 4), (0, 0)];
      LiveAmongEight(5, 5, cells, ps);
    }
    NextCellFromCount(5, 5, cells, 24, 4, 4, 0);
  }

  /** From the horizontal phase, exactly the cells of the vertical phase are alive next: the ends die with one neighbour, the centre survives with two, and the cells above and below the centre are born with three. */
  lemma HorizontalCell(cells: seq<Cell>, i: nat)
    requires HorizontalBlinker(cells) && i < 25
    ensures NextCell(5, 5, cells, i) == if i == 7 || i == 12 || i == 17 then Alive else Dead
  {
    if i == 0 {
      HorizontalCell0(cells);
    } else if i == 1 {
      HorizontalCell1(cells);
    } else if i == 2 {
      HorizontalCell2(cells);
    } else if i == 3 {
      HorizontalCell3(cells);
    } else if i == 4 {
      HorizontalCell4(cells);
    } else if i == 5 {
      HorizontalCell5(cells);
    } else if i == 6 {
      HorizontalCell6(cells);
    } else if i == 7 {
      HorizontalCell7(cells);
    } else if i == 8 {
      HorizontalCell8(cells);
    } else if i == 9 {
      HorizontalCell9(cells);
    } else if i == 10 {
      HorizontalCell10(cells);
    } else if i == 11 {
      HorizontalCell11(cells);
    } else if i == 12 {
      HorizontalCell12(cells);
    } else if i == 13 {
      HorizontalCell13(cells);
    } else if i == 14 {
      HorizontalCell14(cells);
    } else if i == 15 {
      HorizontalCell15(cells);
    } else if i == 16 {
      HorizontalCell16(cells);
    } else if i == 17 {
      HorizontalCell17(cells);
    } else if i == 18 {
      HorizontalCell18(cells);
    } else if i == 19 {
      HorizontalCell19(cells);
    } else if i == 20 {
      HorizontalCell20(cells);
    } else if i == 21 {
      HorizontalCell21(cells);
    } else if i == 22 {
      HorizontalCell22(cells);
    } else if i == 23 {
      HorizontalCell23(cells);
    } else {
      HorizontalCell24(cells);
    }
  }

  lemma VerticalCell0(cells: seq<Cell>)
    requires VerticalBlinker(cells)
    ensures NextCell(5, 5, cells, 0) == Dead
  {
    assert MooreCount(5, 5, cells, 0, 0) == 0 by {
      var ps := NeighborPositions(5, 5, 0, 0);
      assert ps == [(4, 4), (4, 0), (4, 1), (0, 4), (0, 1), (1, 4), (1, 0), (1, 1)];
      LiveAmongEight(5, 5, cells, ps);
    }
    NextCellFromCount(5, 5, cells, 0, 0, 0, 0);
  }

  lemma VerticalCell1(cells: seq<Cell>)
    requires VerticalBlinker(cells)
    ensures NextCell(5, 5, cells, 1) == Dead
  {
    assert MooreCount(5, 5, cells, 0, 1) == 1 by {
      var ps := NeighborPositions(5, 5, 0, 1);
      assert ps == [(4, 0), (4, 1), (4, 2), (0, 0), (0, 2), (1, 0), (1, 1), (1, 2)];
      LiveAmongEight(5, 5, cells, ps);
    }
    NextCellFromCount(5, 5, cells, 1, 0, 1, 1);
  }

  lemma VerticalCell2(cells: seq<Cell>)
    requires VerticalBlinker(cells)
    ensures NextCell(5, 5, cells, 2) == Dead
  {
    assert MooreCount(5, 5, cells, 0, 2) == 1 by {
      var ps := NeighborPositions(5, 5, 0, 2);
      assert ps == [(4, 1), (4, 2), (4, 3), (0, 1), (0, 3), (1, 1), (1, 2), (1, 3)];
      LiveAmongEight(5, 5, cells, ps);
    }
    NextCellFromCount(5, 5, cells, 2, 0, 2, 1);
  }

  lemma VerticalCell3(cells: seq<Cell>)
    requires VerticalBlinker(cells)
    ensures NextCell(5, 5, cells, 3) == Dead
  {
    assert MooreCount(5, 5, cells, 0, 3) == 1 by {
      var ps := NeighborPositions(5, 5, 0, 3);
      assert ps == [(4, 2), (4, 3), (4, 4), (0, 2), (0, 4), (1, 2), (1, 3), (1, 4)];
      LiveAmongEight(5, 5, cells, ps);
    }
    NextCellFromCount(5, 5, cells, 3, 0, 3, 1);
  }

  lemma VerticalCell4(cells: seq<Cell>)
    requires VerticalBlinker(cells)
    ensures NextCell(5, 5, cells, 4) == Dead
  {
    assert MooreCount(5, 5, cells, 0, 4) == 0 by {
      var ps := NeighborPositions(5, 5, 0, 4);
      assert ps == [(4, 3), (4, 4), (4, 0), (0, 3), (0, 0), (1, 3), (1, 4), (1, 0)];
      LiveAmongEight(5, 5, cells, ps);
    }
    NextCellFromCount(5, 5, cells, 4, 0, 4, 0);
  }

  lemma VerticalCell5(cells: seq<Cell>)
    requires VerticalBlinker(cells)
    ensures NextCell(5, 5, cells, 5) == Dead
  {
    assert MooreCount(5, 5, cells, 1, 0) == 0 by {
      var ps := NeighborPositions(5, 5, 1, 0);
      assert ps == [(0, 4), (0, 0), (0, 1), (1, 4), (1, 1), (2, 4), (2, 0), (2, 1)];
      LiveAmongEight(5, 5, cells, ps);
    }
    NextCellFromCount(5, 5, cells, 5, 1, 0, 0);
  }

  lemma VerticalCell6(cells: seq<Cell>)
    requires VerticalBlinker(cells)
    ensures NextCell(5, 5, cells, 6) == Dead
  {
    assert MooreCount(5, 5, cells, 1, 1) == 2 by {
      var ps := NeighborPositions(5, 5, 1, 1);
      assert ps == [(0, 0), (0, 1), (0, 2), (1, 0), (1, 2), (2, 0), (2, 1), (2, 2)];
      LiveAmongEight(5, 5, cells, ps);
    }
    NextCellFromCount(5, 5, cells, 6, 1, 1, 2);
  }

  lemma VerticalCell7(cells: seq<Cell>)
    requires VerticalBlinker(cells)
    ensures NextCell(5, 5, cells, 7) == Dead
  {
    assert MooreCount(5, 5, cells, 1, 2) == 1 by {
      var ps := NeighborPositions(5, 5, 1, 2);
      assert ps == [(0, 1), (0, 2), (0, 3), (1, 1), (1, 3), (2, 1), (2, 2), (2, 3)];
      LiveAmongEight(5, 5, cells, ps);
    }
    NextCellFromCount(5, 5, cells, 7, 1, 2, 1);
  }

  lemma VerticalCell8(cells: seq<Cell>)
    requires VerticalBlinker(cells)
    ensures NextCell(5, 5, cells, 8) == Dead
  {
    assert MooreCount(5, 5, cells, 1, 3) == 2 by {
      var ps := NeighborPositions(5, 5, 1, 3);
      assert ps == [(0, 2), (0, 3), (0, 4), (1, 2), (1, 4), (2, 2), (2, 3), (2, 4)];
      LiveAmongEight(5, 5, cells, ps);
    }
    NextCellFromCount(5, 5, cells, 8, 1, 3, 2);
  }

  lemma VerticalCell9(cells: seq<Cell>)
    requires VerticalBlinker(cells)
    ensures NextCell(5, 5, cells, 9) == Dead
  {
    assert MooreCount(5, 5, cells, 1, 4) == 0 by {
      var ps := NeighborPositions(5, 5, 1, 4);
      assert ps == [(0, 3), (0, 4), (0, 0), (1, 3), (1, 0), (2, 3), (2, 4), (2, 0)];
      LiveAmongEight(5, 5, cells, ps);
    }
    NextCellFromCount(5, 5, cells, 9, 1, 4, 0);
  }

  lemma VerticalCell10(cells: seq<Cell>)
    requires VerticalBlinker(cells)
    ensures NextCell(5, 5, cells, 10) == Dead
  {
    assert MooreCount(5, 5, cells, 2, 0) == 0 by {
      var ps := NeighborPositions(5, 5, 2, 0);
      assert ps == [(1, 4), (1, 0), (1, 1), (2, 4), (2, 1), (3, 4), (3, 0), (3, 1)];
      LiveAmongEight(5, 5, cells, ps);
    }
    NextCellFromCount(5, 5, cells, 10, 2, 0, 0);
  }

  lemma VerticalCell11(cells: seq<Cell>)
    requires VerticalBlinker(cells)
    ensures NextCell(5, 5, cells, 11) == Alive
  {
    assert MooreCount(5, 5, cells, 2, 1) == 3 by {
      var ps := NeighborPositions(5, 5, 2, 1);
      assert ps == [(1, 0), (1, 1), (1, 2), (2, 0), (2, 2), (3, 0), (3, 1), (3, 2)];
      LiveAmongEight(5, 5, cells, ps);
    }
    NextCellFromCount(5, 5, cells, 11, 2, 1, 3);
  }

  lemma VerticalCell12(cells: seq<Cell>)
    requires VerticalBlinker(cells)
    ensures NextCell(5, 5, cells, 12) == Alive
  {
    assert MooreCount(5, 5, cells, 2, 2) == 2 by {
      var ps := NeighborPositions(5, 5, 2, 2);
      assert ps == [(1, 1), (1, 2), (1, 3), (2, 1), (2, 3), (3, 1), (3, 2), (3, 3)];
      LiveAmongEight(5, 5, cells, ps);
    }
    NextCellFromCount(5, 5, cells, 12, 2, 2, 2);
  }

  lemma VerticalCell13(cells: seq<Cell>)
    requires VerticalBlinker(cells)
    ensures NextCell(5, 5, cells, 13) == Alive
  {
    assert MooreCount(5, 5, cells, 2, 3) == 3 by {
      var ps := NeighborPositions(5, 5, 2, 3);
      assert ps == [(1, 2), (1, 3), (1, 4), (2, 2), (2, 4), (3, 2), (3, 3), (3, 4)];
      LiveAmongEight(5, 5, cells, ps);
    }
    NextCellFromCount(5, 5, cells, 13, 2, 3, 3);
  }

  lemma VerticalCell14(cells: seq<Cell>)
    requires VerticalBlinker(cells)
    ensures NextCell(5, 5, cells, 14) == Dead
  {
    assert MooreCount(5, 5, cells, 2, 4) == 0 by {
      var ps := NeighborPositions(5, 5, 2, 4);
      assert ps == [(1, 3), (1, 4), (1, 0), (2, 3), (2, 0), (3, 3), (3, 4), (3, 0)];
      LiveAmongEight(5, 5, cells, ps);
    }
    NextCellFromCount(5, 5, cells, 14, 2, 4, 0);
  }

  lemma VerticalCell15(cells: seq<Cell>)
    requires VerticalBlinker(cells)
    ensures NextCell(5, 5, cells, 15) == Dead
  {
    assert MooreCount(5, 5, cells, 3, 0) == 0 by {
      var ps := NeighborPositions(5, 5, 3, 0);
      assert ps == [(2, 4), (2, 0), (2, 1), (3, 4), (3, 1), (4, 4), (4, 0), (4, 1)];
      LiveAmongEight(5, 5, cells, ps);
    }
    NextCellFromCount(5, 5, cells, 15, 3, 0, 0);
  }

  lemma VerticalCell16(cells: seq<Cell>)
    requires VerticalBlinker(cells)
    ensures NextCell(5, 5, cells, 16) == Dead
  {
    assert MooreCount(5, 5, cells, 3, 1) == 2 by {
      var ps := NeighborPositions(5, 5, 3, 1);
      assert ps == [(2, 0), (2, 1), (2, 2), (3, 0), (3, 2), (4, 0), (4, 1), (4, 2)];
      LiveAmongEight(5, 5, cells, ps);
    }
    NextCellFromCount(5, 5, cells, 16, 3, 1, 2);
  }

  lemma VerticalCell17(cells: seq<Cell>)
    requires VerticalBlinker(cells)
    ensures NextCell(5, 5, cells, 17) == Dead
  {
    assert MooreCount(5, 5, cells, 3, 2) == 1 by {
      var ps := NeighborPositions(5, 5, 3, 2);
      assert ps == [(2, 1), (2, 2), (2, 3), (3, 1), (3, 3), (4, 1), (4, 2), (4, 3)];
      LiveAmongEight(5, 5, cells, ps);
    }
    NextCellFromCount(5, 5, cells, 17, 3, 2, 1);
  }

  lemma VerticalCell18(cells: seq<Cell>)
    requires VerticalBlinker(cells)
    ensures NextCell(5, 5, cells, 18) == Dead
  {
    assert MooreCount(5, 5, cells, 3, 3) == 2 by {
      var ps := NeighborPositions(5, 5, 3, 3);
      assert ps == [(2, 2), (2, 3), (2, 4), (3, 2), (3, 4), (4, 2), (4, 3), (4, 4)];
      LiveAmongEight(5, 5, cells, ps);
    }
    NextCellFromCount(5, 5, cells, 18, 3, 3, 2);
  }

  lemma VerticalCell19(cells: seq<Cell>)
    requires VerticalBlinker(cells)
    ensures NextCell(5, 5, cells, 19) == Dead
  {
    assert MooreCount(5, 5, cells, 3, 4) == 0 by {
      var ps := NeighborPositions(5, 5, 3, 4);
      assert ps == [(2, 3), (2, 4), (2, 0), (3, 3), (3, 0), (4, 3), (4, 4), (4, 0)];
      LiveAmongEight(5, 5, cells, ps);
    }
    NextCellFromCount(5, 5, cells, 19, 3, 4, 0);
  }

  lemma VerticalCell20(cells: seq<Cell>)
    requires VerticalBlinker(cells)
    ensures NextCell(5, 5, cells, 20) == Dead
  {
    assert MooreCount(5, 5, cells, 4, 0) == 0 by {
      var ps := NeighborPositions(5, 5, 4, 0);
      assert ps == [(3, 4), (3, 0), (3, 1), (4, 4), (4, 1), (0, 4), (0, 0), (0, 1)];
      LiveAmongEight(5, 5, cells, ps);
    }
    NextCellFromCount(5, 5, cells, 20, 4, 0, 0);
  }

  lemma VerticalCell21(cells: seq<Cell>)
    requires VerticalBlinker(cells)
    ensures NextCell(5, 5, cells, 21) == Dead
  {
    assert MooreCount(5, 5, cells, 4, 1) == 1 by {
      var ps := NeighborPositions(5, 5, 4, 1);
      assert ps == [(3, 0), (3, 1), (3, 2), (4, 0), (4, 2), (0, 0), (0, 1), (0, 2)];
      LiveAmongEight(5, 5, cells, ps);
    }
    NextCellFromCount(5, 5, cells, 21, 4, 1, 1);
  }

  lemma VerticalCell22(cells: seq<Cell>)
    requires VerticalBlinker(cells)
    ensures NextCell(5, 5, cells, 22) == Dead
  {
    assert MooreCount(5, 5, cells, 4, 2) == 1 by {
      var ps := NeighborPositions(5, 5, 4, 2);
      assert ps == [(3, 1), (3, 2), (3, 3), (4, 1), (4, 3), (0, 1), (0, 2), (0, 3)];
      LiveAmongEight(5, 5, cells, ps);
    }
    NextCellFromCount(5, 5, cells, 22, 4, 2, 1);
  }

  lemma VerticalCell23(cells: seq<Cell>)
    requires VerticalBlinker(cells)
    ensures NextCell(5, 5, cells, 23) == Dead
  {
    assert MooreCount(5, 5, cells, 4, 3) == 1 by {
      var ps := NeighborPositions(5, 5, 4, 3);
      assert ps == [(3, 2), (3, 3), (3, 4), (4, 2), (4, 4), (0, 2), (0, 3), (0, 4)];
      LiveAmongEight(5, 5, cells, ps);
    }
    NextCellFromCount(5, 5, cells, 23, 4, 3, 1);
  }

  lemma VerticalCell24(cells: seq<Cell>)
    requires VerticalBlinker(cells)
    ensures NextCell(5, 5, cells, 24) == Dead
  {
    assert MooreCount(5, 5, cells, 4, 4) == 0 by {
      var ps := NeighborPositions(5, 5, 4, 4);
      assert ps == [(3, 3), (3, 4), (3, 0), (4, 3), (4, 0), (0, 3), (0, 4), (0, 0)];
      LiveAmongEight(5, 5, cells, ps);
    }
    NextCellFromCount(5, 5, cells, 24, 4, 4, 0);
  }

  /** From the vertical phase, exactly the cells of the horizontal phase are alive next. */
  lemma VerticalCell(cells: seq<Cell>, i: nat)
    requires VerticalBlinker(cells) && i < 25
    ensures NextCell(5, 5, cells, i) == if i == 11 || i == 12 || i == 13 then Alive else Dead
  {
    if i == 0 {
      VerticalCell0(cells);
    } else if i == 1 {
      VerticalCell1(cells);
    } else if i == 2 {
      VerticalCell2(cells);
    } else if i == 3 {
      VerticalCell3(cells);
    } else if i == 4 {
      VerticalCell4(cells);
    } else if i == 5 {
      VerticalCell5(cells);
    } else if i == 6 {
      VerticalCell6(cells);
    } else if i == 7 {
      VerticalCell7(cells);
    } else if i == 8 {
      VerticalCell8(cells);
    } else if i == 9 {
      VerticalCell9(cells);
    } else if i == 10 {
      VerticalCell10(cells);
    } else if i == 11 {
      VerticalCell11(cells);
    } else if i == 12 {
      VerticalCell12(cells);
    } else if i == 13 {
      VerticalCell13(cells);
    } else if i == 14 {
      VerticalCell14(cells);
    } else if i == 15 {
      VerticalCell15(cells);
    } else if i == 16 {
      VerticalCell16(cells);
    } else if i == 17 {
      VerticalCell17(cells);
    } else if i == 18 {
      VerticalCell18(cells);
    } else if i == 19 {
      VerticalCell19(cells);
    } else if i == 20 {
      VerticalCell20(cells);
    } else if i == 21 {
      VerticalCell21(cells);
    } else if i == 22 {
      VerticalCell22(cells);
    } else if i == 23 {
      VerticalCell23(cells);
    } else {
      VerticalCell24(cells);
    }
  }

  /** The horizontal phase steps to the vertical one. */
  lemma HorizontalStep(cells: seq<Cell>)
    requires HorizontalBlinker(cells)
    ensures VerticalBlinker(NextGeneration(5, 5, cells))
  {
    var next := NextGeneration(5, 5, cells);
    forall row: nat, col: nat | row < 5 && col < 5
      ensures CellAt(5, 5, next, row, col) == if col == 2 && 1 <= row <= 3 then Alive else Dead
    {
      var i := Index(5, row, col);
      IndexInRange(5, 5, row, col);
      HorizontalCell(cells, i);
      assert next[i] == NextCell(5, 5, cells, i);
    }
  }

  /** The vertical phase steps to the horizontal one. */
  lemma VerticalStep(cells: seq<Cell>)
    requires VerticalBlinker(cells)
    ensures HorizontalBlinker(NextGeneration(5, 5, cells))
  {
    var next := NextGeneration(5, 5, cells);
    forall row: nat, col: nat | row < 5 && col < 5
      ensures CellAt(5, 5, next, row, col) == if row == 2 && 1 <= col <= 3 then Alive else Dead
    {
      var i := Index(5, row, col);
      IndexInRange(5, 5, row, col);
      VerticalCell(cells, i);
      assert next[i] == NextCell(5, 5, cells, i);
    }
  }

  /** The horizontal blinker as a buffer, row after row. */
  function BlinkerRow(): (b: seq<Cell>)
    ensures HorizontalBlinker(b)
  {
    seq(25, i => if i == 11 || i == 12 || i == 13 then Alive else Dead)
  }

  /** The vertical blinker as a buffer, row after row. */
  function BlinkerColumn(): (b: seq<Cell>)
    ensures VerticalBlinker(b)
  {
    seq(25, i => if i == 7 || i == 12 || i == 17 then Alive else Dead)
  }

  /** The blinker has period two: one step turns it into the other phase, which
      differs from it, and a second step restores it. */
  lemma BlinkerOscillates()
    ensures NextGeneration(5, 5, BlinkerRow()) == BlinkerColumn()
    ensures BlinkerColumn() != BlinkerRow()
    ensures NextGeneration(5, 5, NextGeneration(5, 5, BlinkerRow())) == BlinkerRow()
  {
    HorizontalStep(BlinkerRow());
    SameCells(5, 5, NextGeneration(5, 5, BlinkerRow()), BlinkerColumn());
    VerticalStep(BlinkerColumn());
    SameCells(5, 5, NextGeneration(5, 5, BlinkerColumn()), BlinkerRow());
    assert BlinkerColumn()[7] != BlinkerRow()[7];
  }
}
