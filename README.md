# Game of Life engine, modelled in Dafny

This project models the core of a WebAssembly Game of Life engine (`src/lib.rs`).
The world is a grid of `width × height` cells that wraps around on both axes. The
cells live in one buffer, row after row. One step (`tick`) computes every cell's
next state from the current generation by Conway's rule. The world renders as
text: one line per row, with `◼` for a live cell and `◻` for a dead one.

Modules:

- `Torus` (torus.dfy): `wrapped_neighbor_values`, the predecessor, the value itself
  and the successor along one axis, wrapping at both ends.
- `Cells` (cells.dfy): the `Cell` enum, its 0/1 encoding, the transition rule and
  the glyph of a cell.
- `Grid` (grid.dfy): the grid as a value.
  - Row-major indexing.
  - An independent definition of the torus Moore neighbourhood.
  - The sum the engine's nested loop accumulates.
  - The next generation.
  - Lemmas about patterns and about the defect at line 62.
- `Render` (render.dfy): the text rendering as a function of the buffer, and the
  shape of that text.
- `Patterns` (patterns.dfy): two classic patterns stepped on a small torus. The
  block (4×4) is a still life, and the blinker (5×5) has period two.
- `Life` (world.dfy): `class World`, with fields `width`, `height` and `cells`.
  - Its methods are the engine's: `GetIndex`, `GetCell`, the neighbour count (as
    written and corrected), `Tick` and `Display`.
  - Each method is proved against the `Grid` or `Render` function that specifies
    it.

Decisions:

- **Dimensions of at least 2.** A world keeps both dimensions at least 2, and its
  buffer holds exactly `width * height` cells.
  - The model follows the design's rule that a grid is never empty, so it
    excludes zero dimensions. The source itself copes with a zero height: the
    loops of `tick` (`src/lib.rs:81-82`) never run, so `tick` changes nothing,
    and the text is empty. With a zero width, `tick` likewise does nothing, but
    `Display` panics in `chunks(0)` (`src/lib.rs:106`).
  - A dimension of 1 is where the source itself fails. On an axis of one
    position, the wrapped successor is 1, which lies off the axis, and the
    engine reads past the row or the buffer. The lemmas
    `Torus.WrappedSizeOne` and `Torus.WrappedPastEnd` exhibit this.
- **Line 62.** The code takes the column triple from `row` (`src/lib.rs:62`),
  whereas the intended behaviour takes it from `col`. Both versions are modelled.
  - `LiveNeighborCountAsWritten` is the code as written.
  - `LiveNeighborCount` is the corrected count, and `Tick` uses it. The next
    generation is therefore the true Conway step on the torus.
  - See "## Findings".
- **Neighbour multiplicity.** The neighbour count is specified against
  `Grid.MooreCount`, the live cells at the eight torus neighbour positions
  counted with multiplicity. On an axis of two positions, the predecessor and the
  successor coincide, and the source counts that neighbour twice. The model does
  the same.

## Model

| member | source | states |
|---|---|---|
| Torus.WrappedNeighborValues | src/lib.rs:39-49 | three values with `val` in the middle; for `size >= 2` and `val < size`, all three are on the axis, and they are the torus predecessor `(val + size - 1) % size` and successor `(val + 1) % size`, both different from `val` |
| Torus.WrappedDistinct | src/lib.rs:39-49 | on an axis of at least three positions, the predecessor and the successor differ |
| Torus.WrappedSizeTwo | src/lib.rs:39-49 | on an axis of two positions, the predecessor and the successor are the same position, the other one |
| Torus.WrappedSizeOne | src/lib.rs:39-49 | on an axis of one position, the successor is 1, which lies off the axis |
| Torus.WrappedPastEnd | src/lib.rs:43-47 | for a value at or past the end of the axis, nothing wraps, and the successor lies further out |
| Cells.Weight | src/lib.rs:28-31 | the encoding is 1 exactly for `Alive` and 0 for `Dead` |
| Cells.Rule | src/lib.rs:87-97 | the arms in source order give Conway's B3/S23: next is Alive iff the cell is alive with 2 or 3 neighbours, or dead with exactly 3 |
| Cells.Glyph | src/lib.rs:108 | `◼` exactly for a live cell, `◻` exactly for a dead one, never a line break |
| Grid.Index | src/lib.rs:52-54 | row and column are recovered from the offset by division and remainder by `width` |
| Grid.IndexInRange | src/lib.rs:52-54 | on the grid, the offset is below `width * height` |
| Grid.IndexInjective | src/lib.rs:52-54 | two positions have the same offset iff they are the same position |
| Grid.OffsetOnGrid | src/lib.rs:52-54 | every offset in the buffer is the offset of exactly the position it decodes to, so indexing is a bijection |
| Grid.OffsetBelow | src/lib.rs:52-54 | every offset in the buffer decodes, by division and remainder by `width`, to a row below `height` and a column below `width` |
| Grid.CellAt | src/lib.rs:56-58 | the cell at (row, col) is the one stored at its row-major offset, and that offset lies inside the buffer |
| Grid.NeighborPositions | src/lib.rs:60-74 | the eight torus neighbours of a cell, all on the grid |
| Grid.MooreCount | src/lib.rs:60-74 | the reference count: the live cells at the eight torus neighbour positions, counted with multiplicity, at most 8 |
| Grid.ColumnsSum | src/lib.rs:65-71 | the inner loop over a column list, skipping the centre, adds at most one per column |
| Grid.NeighborhoodSum | src/lib.rs:64-72 | the nested loop over a row list and a column list, skipping the centre, adds at most one per (row, column) pair |
| Grid.AsWrittenCount | src/lib.rs:60-74 | the count with the column triple from `row` is at most 9 |
| Grid.CorrectedCount | src/lib.rs:60-74 | the count with the column triple from `col` equals the Moore count |
| Grid.CorrectedIsMoore | src/lib.rs:60-74 | the nested loop's sum over the 3×3 product of wrapped triples, skipping the centre, equals the number of live cells at the eight neighbour positions |
| Grid.NextCell | src/lib.rs:82-97 | the next state at an offset is alive exactly when the cell there is alive with two or three live neighbours at the decoded position, or dead with exactly three |
| Grid.NextGeneration | src/lib.rs:79-101 | the next generation keeps the dimensions and the buffer length |
| Grid.NextGenerationAt | src/lib.rs:80-100 | the next cell at (row, col) is the rule applied to the old cell and to its neighbour count in the old generation only |
| Grid.NeighborsOfOrigin | src/lib.rs:60-74 | the corner (0, 0) has the last row and the last column among its neighbours |
| Grid.NeighborsDistinct | src/lib.rs:60-74 | on a grid of at least 3×3, the eight neighbour positions are pairwise distinct |
| Grid.LiveAmongSingle | src/lib.rs:60-74 | with one live cell at most, distinct positions hold at most one live cell, and none when they miss it |
| Grid.IsolatedCellNext | src/lib.rs:82-97 | with at most one live cell on a grid of at least 3×3, no cell is alive in the next generation |
| Grid.IsolatedCellDies | src/lib.rs:79-101 | a lone live cell on a grid of at least 3×3 dies, and nothing is born |
| Grid.LiveAmongAllDead | src/lib.rs:60-74 | on a dead grid, every count is 0 |
| Grid.DeadCellStaysDead | src/lib.rs:82-97 | on a dead grid, each cell stays dead |
| Grid.DeadGridStaysDead | src/lib.rs:79-101 | a dead grid is unchanged by a step |
| Grid.LiveAmongAllAlive | src/lib.rs:60-74 | on a fully live grid, each listed position adds one |
| Grid.FullCellDies | src/lib.rs:82-97 | on a fully live grid, each cell has 8 live neighbours and dies |
| Grid.FullGridDies | src/lib.rs:79-101 | on a fully live grid, every cell dies of overpopulation |
| Grid.ColumnsSumAllAlive | src/lib.rs:65-71 | on a fully live grid, the inner loop adds one per column it does not skip |
| Grid.NeighborhoodSumAllAlive | src/lib.rs:64-72 | on a fully live grid, with the centre's column absent, the nested loop adds `|rows| * |cols|` |
| Grid.AsWrittenOvercounts | src/lib.rs:60-74 | as written, a cell whose column is not a wrapped value of its row gets 9 neighbours on a fully live grid, against a true count of 8 |
| Grid.AsWrittenCounterexample | src/lib.rs:62 | on a fully live 4×4 grid, cell (0, 2) gets 9 as written and 8 corrected |
| Patterns.NextCellFromCount | src/lib.rs:82-97 | the next state of the cell at an offset is the rule applied to the cell at the position it decodes to and to that position's neighbour count |
| Patterns.SameCells | src/lib.rs:52-57 | two buffers of the same grid that hold the same cell at every (row, col) are equal |
| Patterns.BlockCell | src/lib.rs:79-101 | on the 4×4 block, the next state of every offset is alive exactly at the block's four cells |
| Patterns.BlockStep | src/lib.rs:79-101 | a step keeps the block pattern |
| Patterns.BlockStillLife | src/lib.rs:79-101 | the block buffer is unchanged by a step |
| Patterns.HorizontalCell | src/lib.rs:79-101 | from the horizontal blinker, the next state of every offset is alive exactly at the vertical blinker's three cells |
| Patterns.VerticalCell | src/lib.rs:79-101 | from the vertical blinker, the next state of every offset is alive exactly at the horizontal blinker's three cells |
| Patterns.HorizontalStep | src/lib.rs:79-101 | a step turns the horizontal blinker into the vertical one |
| Patterns.VerticalStep | src/lib.rs:79-101 | a step turns the vertical blinker into the horizontal one |
| Patterns.BlinkerOscillates | src/lib.rs:79-101 | the blinker has period two: one step gives the other phase, which differs from it, and two steps give the blinker back |
| Render.Glyphs | src/lib.rs:107-110 | one glyph per cell, in order |
| Render.Rendered | src/lib.rs:104-114 | the text form: the buffer in chunks of `width` cells, each written as its glyphs and a line break; its shape is stated by `RenderedLength`, `RenderedRow` and `RenderedAt` |
| Render.GlyphsSnoc | src/lib.rs:107-110 | writing one more cell appends its glyph |
| Render.RenderedChunk | src/lib.rs:106-112 | each chunk of at most `width` cells is written as its glyphs and a line break, followed by the rest |
| Render.RenderedLength | src/lib.rs:104-114 | a buffer of `height` rows renders as `height * (width + 1)` characters |
| Render.RenderedRow | src/lib.rs:104-114 | line `row` of the text is row `row`'s glyphs followed by a line break |
| Render.RenderedAt | src/lib.rs:104-114 | every character of the text is a line break exactly at the end of a line, and otherwise the glyph of the cell at the same row and column |
| Life.World.constructor | src/lib.rs:33-37 | a world with both dimensions at least 2 and a buffer of exactly `width * height` cells |
| Life.World.GetIndex | src/lib.rs:52-54 | the offset lies in the buffer, and row and column can be read back from it |
| Life.World.GetCell | src/lib.rs:56-58 | the cell stored at the row-major offset of (row, col) |
| Life.World.SumNeighborhood | src/lib.rs:63-73 | the nested loop with its skip of the centre computes the neighbourhood sum |
| Life.World.LiveNeighborCount | src/lib.rs:60-74 | the corrected count is the Moore count of the cell, at most 8 |
| Life.World.LiveNeighborCountAsWritten | src/lib.rs:60-74 | the count as written is the sum over the row's triple on both axes, at most 9 |
| Life.World.Tick | src/lib.rs:79-101 | the dimensions are unchanged, the world stays valid, and the buffer becomes the next generation computed from the old buffer only |
| Life.World.Display | src/lib.rs:104-114 | the text written is the rendering of the buffer, chunk by chunk |

## Left out

- The `wasm_bindgen` attributes and JavaScript bindings (lines 5, 25, 77) are host glue with no behaviour of their own.
- The `wee_alloc` allocator (lines 9-11) is allocator plumbing.
- `mod utils` (line 1) is not part of this model; it holds panic-hook scaffolding.
- The commented-out `alert`/`greet` code (lines 13-23) is dead code.
- Formatter error propagation (the `?` after each `write!`) is left out. `Display` returns the text rather than writing it to a formatter that could fail.
- The unused `index` local (line 69) has no effect.
- The blinker and the block are proved on one torus size each: 5×5 and 4×4. Larger grids are not covered; each size needs its own cell-by-cell proof.
- `u32` arithmetic is left out. Dimensions and offsets are unbounded naturals, so an overflow of `row * width + col` is not modelled.
- Worlds with a zero dimension are left out: the design requires a non-empty grid. In the source, `tick` does nothing on them, and `Display` panics when the width is 0.
- Life.World.LiveNeighborCountAsWritten: requires `row < width`. This keeps every access on the grid, so it does not model a read that spills into the next row or past the buffer when `row >= width`.
- Grid.AsWrittenCount: requires `row < width`, for the same reason.
- Life.World.Tick: uses the corrected neighbour count, not the count as written at line 62 (see Findings).
- Life.World.Tick: the next buffer is an array copied from the old buffer, which the source clones. No other object shares it, so aliasing is not modelled.

## Findings

| source | as written | input that shows it | evidently intended | confidence | as-written member | corrected member |
|---|---|---|---|---|---|---|
| src/lib.rs:62 | the column triple is `wrapped_neighbor_values(row, self.width)` | a fully live 4×4 grid, cell (row 0, col 2): the centre is never skipped, so the count is 9 (the true count is 8) | `wrapped_neighbor_values(col, self.width)` | not executed | Grid.AsWrittenCounterexample | Life.World.LiveNeighborCount |

The as-written count follows the row's wrap instead of the cell's own column. It
can count 9 neighbours, and once `row >= width` it indexes past the row. The
corrected count is proved equal to the torus Moore count (`Grid.CorrectedIsMoore`),
and `Tick` uses it.
