/** The engine's world: a grid of cells held row by row in one buffer, advanced
    one generation at a time and rendered as text. */
module Life {
  import opened Torus
  import opened Cells
  import opened Grid
  import opened Render

  class World {
    var width: nat
    var height: nat
    var cells: seq<Cell>

    /** Both axes have at least two positions and the buffer holds exactly
        `width * height` cells. */
    ghost predicate Valid()
      reads this
    {
      WellFormed(width, height, cells)
    }

    constructor (width: nat, height: nat, cells: seq<Cell>)
      requires WellFormed(width, height, cells)
      ensures Valid()
      ensures this.width == width && this.height == height && this.cells == cells
    {
      this.width := width;
      this.height := height;
      this.cells := cells;
    }

    /** The row-major offset of (row, col): inside the buffer, and row and
        column can be read back from it. */
    function GetIndex(row: nat, col: nat): (i: nat)
      reads this
      requires Valid() && row < height && col < width
      ensures i < |cells|
      ensures i / width == row && i % width == col
    {
      IndexInRange(width, height, row, col);
      row * width + col
    }

    /** The cell at (row, col). */
    function GetCell(row: nat, col: nat): (c: Cell)
      reads this
      requires Valid() && row < height && col < width
      ensures c == CellAt(width, height, cells, row, col)
    {
      cells[GetIndex(row, col)]
    }

    /** The engine's nested loop: over every row coordinate of `rows` and every
        column coordinate of `cols`, skip the centre (row, col) and add the
        weight of every other cell visited. */
    method SumNeighborhood(rows: seq<nat>, cols: seq<nat>, row: nat, col: nat) returns (count: nat)
      requires Valid() && Below(rows, height) && Below(cols, width)
      ensures count == NeighborhoodSum(width, height, cells, rows, cols, row, col)
    {
      count := 0;
      var i := 0;
      while i < |rows|
        invariant 0 <= i <= |rows|
        invariant count == NeighborhoodSum(width, height, cells, rows[..i], cols, row, col)
      {
        var row2 := rows[i];
        var before := count;
        var j := 0;
        while j < |cols|
          invariant 0 <= j <= |cols|
          invariant count == before + ColumnsSum(width, height, cells, row2, cols[..j], row, col)
        {
          var col2 := cols[j];
          assert cols[..j + 1][..j] == cols[..j];
          if row2 == row && col2 == col {
            j := j + 1;
            continue;
          }
          count := count + Weight(GetCell(row2, col2));
          j := j + 1;
        }
        assert cols[..j] == cols;
        assert rows[..i + 1][..i] == rows[..i];
        i := i + 1;
      }
      assert rows[..i] == rows;
    }

    /** The number of live neighbours of (row, col) on the torus, with the column
        triple taken around `col`: exactly the Moore neighbourhood count. */
    method LiveNeighborCount(row: nat, col: nat) returns (count: nat)
      requires Valid() && row < height && col < width
      ensures count == MooreCount(width, height, cells, row, col)
      ensures count <= 8
    {
      var rows := WrappedNeighborValues(row, height);
      var cols := WrappedNeighborValues(col, width);
      count := SumNeighborhood(rows, cols, row, col);
      CorrectedIsMoore(width, height, cells, row, col);
    }

    /** The neighbour count as the source writes it, with the column triple taken
        around `row`. It stays on the grid only while `row < width`. */
    method LiveNeighborCountAsWritten(row: nat, col: nat) returns (count: nat)
      requires Valid() && row < height && col < width
      requires row < width
      ensures count == AsWrittenCount(width, height, cells, row, col)
      ensures count <= 9
    {
      var rows := WrappedNeighborValues(row, height);
      var cols := WrappedNeighborValues(row, width);
      count := SumNeighborhood(rows, cols, row, col);
    }

    /** Advance one generation: every cell of a copy of the buffer is rewritten by
        Conway's rule from the current buffer, and the copy becomes the buffer. */
    method Tick()
      requires Valid()
      modifies this
      ensures Valid()
      ensures width == old(width) && height == old(height)
      ensures cells == NextGeneration(old(width), old(height), old(cells))
    {
      var cur := cells;
      ghost var gen := NextGeneration(width, height, cur);
      var next := new Cell[|cur|](k requires 0 <= k < |cur| => cur[k]);
      ghost var done := 0;
      var row := 0;
      while row < height
        invariant width == old(width) && height == old(height) && cells == cur
        invariant row <= height && done == row * width && done <= |cur|
        invariant forall k :: 0 <= k < done ==> next[k] == gen[k]
      {
        var col := 0;
        while col < width
          invariant width == old(width) && height == old(height) && cells == cur
          invariant col <= width && done == row * width + col && done <= |cur|
          invariant forall k :: 0 <= k < done ==> next[k] == gen[k]
        {
          var live := LiveNeighborCount(row, col);
          var i := GetIndex(row, col);
          var old_state := cells[i];
          next[i] := Rule(old_state, live);
          done := done + 1;
          col := col + 1;
        }
        assert done == (row + 1) * width;
        row := row + 1;
      }
      assert done == |cur| by {
        assert done == height * width;
      }
      cells := next[..];
    }

    /** The text form of the world: the buffer cut into chunks of `width` cells,
        one glyph per cell and a line break after each chunk. */
    method Display() returns (s: string)
      requires Valid()
      ensures s == Rendered(width, cells)
    {
      var w, cs := width, cells;
      s := [];
      var start := 0;
      while start < |cs|
        invariant start <= |cs|
        invariant s + Rendered(w, cs[start..]) == Rendered(w, cs)
      {
        var end := if |cs| - start < w then |cs| else start + w;
        var line := cs[start..end];
        var s0 := s;
        var k := 0;
        while k < |line|
          invariant k <= |line|
          invariant s == s0 + Glyphs(line[..k])
        {
          var symbol := if line[k] == Dead then '◻' else '◼';
          GlyphsSnoc(line, k);
          AppendAssoc(s0, Glyphs(line[..k]), [symbol]);
          s := s + [symbol];
          k := k + 1;
        }
        assert line[..k] == line;
        RenderedChunk(w, cs, start, end);
        var g, rest := Glyphs(line), Rendered(w, cs[end..]);
        AppendAssoc(s0, g, ['\n']);
        AppendAssoc(s0 + g, ['\n'], rest);
        AppendAssoc(s0, g + ['\n'], rest);
        s := s + ['\n'];
        start := end;
      }
      assert cs[start..] == [];
    }
  }
}
