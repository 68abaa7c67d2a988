/** The text rendering of a generation: the buffer cut into chunks of `width`
    cells, each chunk written as one glyph per cell followed by a line break. */
module Render {
  import opened Cells

  /** One glyph per cell, in order. */
  function Glyphs(cs: seq<Cell>): (s: string)
    ensures |s| == |cs|
    ensures forall k :: 0 <= k < |cs| ==> s[k] == Glyph(cs[k])
    decreases |cs|
  {
    if cs == [] then [] else Glyphs(cs[..|cs| - 1]) + [Glyph(cs[|cs| - 1])]
  }

  /** The buffer cut into consecutive chunks of `width` cells (the last one
      shorter if the buffer is not a whole number of rows), each written as its
      glyphs and a line break. */
  function Rendered(width: nat, cells: seq<Cell>): (s: string)
    requires width >= 1
    decreases |cells|
  {
    if cells == [] then []
    else
      var k := if |cells| < width then |cells| else width;
      Glyphs(cells[..k]) + ['\n'] + Rendered(width, cells[k..])
  }

  /** Concatenation is associative. */
  lemma AppendAssoc<T>(a: seq<T>, b: seq<T>, c: seq<T>)
    ensures (a + b) + c == a + (b + c)
  {
  }

  /** Writing one more glyph extends the glyphs of a prefix. */
  lemma GlyphsSnoc(cs: seq<Cell>, k: nat)
    requires k < |cs|
    ensures Glyphs(cs[..k + 1]) == Glyphs(cs[..k]) + [Glyph(cs[k])]
  {
    assert cs[..k + 1][..k] == cs[..k];
  }

  /** From offset `start`, the rendering is the next chunk of at most `width`
      cells, a line break, and the rendering of the rest. */
  lemma RenderedChunk(width: nat, cells: seq<Cell>, start: nat, end: nat)
    requires width >= 1 && start < |cells|
    requires end == if |cells| - start < width then |cells| else start + width
    ensures Rendered(width, cells[start..]) == Glyphs(cells[start..end]) + ['\n'] + Rendered(width, cells[end..])
  {
    assert cells[start..][..end - start] == cells[start..end];
    assert cells[start..][end - start..] == cells[end..];
  }

  // The lemmas below count rows with `Mul`, repeated addition, rather than with
  // `*`: stepping from one row to the next is then one unfolding of `Mul`, and
  // the solver is not asked to reason about products of unknowns.

  /** `a` rows of `b` positions each. */
  function Mul(a: nat, b: nat): nat
  {
    if a == 0 then 0 else Mul(a - 1, b) + b
  }

  /** `Mul` is multiplication. */
  lemma {:induction false} MulIsProduct(a: nat, b: nat)
    ensures Mul(a, b) == a * b
  {
    if a > 0 {
      MulIsProduct(a - 1, b);
    }
  }

  /** Fewer rows take up no more positions. */
  lemma {:induction false} MulMono(a: nat, b: nat, c: nat)
    requires a <= b
    ensures Mul(a, c) <= Mul(b, c)
    decreases b
  {
    if a < b {
      MulMono(a, b - 1, c);
    }
  }

  /** A buffer of `height` whole rows renders as `height` lines of `width + 1`
      characters. */
  lemma {:induction false} RenderedLines(width: nat, height: nat, cells: seq<Cell>)
    requires width >= 1 && |cells| == Mul(height, width)
    ensures |Rendered(width, cells)| == Mul(height, width + 1)
    decreases height
  {
    if height > 0 {
      RenderedLineAt(width, cells, 0);
      assert cells[0..] == cells;
      RenderedLines(width, height - 1, cells[width..]);
    }
  }

  /** From offset `c`, a buffer holding at least one more whole row renders as
      that row's line followed by the rendering of what comes after the row. */
  lemma RenderedLineAt(width: nat, cells: seq<Cell>, c: nat)
    requires 1 <= width && c + width <= |cells|
    ensures width + 1 <= |Rendered(width, cells[c..])|
    ensures Rendered(width, cells[c..])[..width + 1] == Glyphs(cells[c .. c + width]) + ['\n']
    ensures Rendered(width, cells[c..])[width + 1..] == Rendered(width, cells[c + width..])
  {
    var x := cells[c..];
    var line := Glyphs(x[..width]) + ['\n'];
    assert Rendered(width, x) == line + Rendered(width, x[width..]);
    assert x[..width] == cells[c .. c + width];
    assert x[width..] == cells[c + width..];
  }

  /** Dropping the first `row` lines of the rendering leaves the rendering of
      the buffer without its first `row` rows. */
  lemma {:induction false} RenderedDrop(width: nat, cells: seq<Cell>, row: nat)
    requires width >= 1 && Mul(row, width) <= |cells|
    ensures Mul(row, width + 1) <= |Rendered(width, cells)|
    ensures Rendered(width, cells)[Mul(row, width + 1)..] == Rendered(width, cells[Mul(row, width)..])
    decreases row
  {
    var s := Rendered(width, cells);
    if row > 0 {
      var a', c' := Mul(row - 1, width + 1), Mul(row - 1, width);
      RenderedDrop(width, cells, row - 1);
      DropLine(width, cells, s, a', c', Mul(row, width + 1), Mul(row, width));
    } else {
      assert cells[0..] == cells && s[0..] == s;
      assert s[Mul(row, width + 1)..] == Rendered(width, cells[Mul(row, width)..]);
    }
  }

  /** If the text from offset `a` renders the buffer from offset `c`, then the
      text one line further on renders the buffer one row further on. */
  lemma DropLine(width: nat, cells: seq<Cell>, s: string, a: nat, c: nat, a2: nat, c2: nat)
    requires 1 <= width && c + width <= |cells| && a <= |s|
    requires s[a..] == Rendered(width, cells[c..])
    requires a2 == a + width + 1 && c2 == c + width
    ensures a2 <= |s|
    ensures s[a2..] == Rendered(width, cells[c2..])
  {
    RenderedLineAt(width, cells, c);
    assert s[a + width + 1..] == s[a..][width + 1..];
  }

  /** Line `row` of the rendering is the glyphs of row `row` of the buffer,
      followed by a line break. */
  lemma RenderedRowM(width: nat, height: nat, cells: seq<Cell>, row: nat)
    requires width >= 1 && |cells| == Mul(height, width) && row < height
    ensures Mul(row, width) + width <= |cells|
    ensures Mul(row, width + 1) + width + 1 <= |Rendered(width, cells)|
    ensures Rendered(width, cells)[Mul(row, width + 1) .. Mul(row, width + 1) + width + 1]
         == Glyphs(cells[Mul(row, width) .. Mul(row, width) + width]) + ['\n']
  {
    var s := Rendered(width, cells);
    var a, c := Mul(row, width + 1), Mul(row, width);
    RenderedLines(width, height, cells);
    MulMono(row + 1, height, width);
    MulMono(row + 1, height, width + 1);
    assert Mul(row + 1, width) == c + width;
    RenderedDrop(width, cells, row);
    RenderedLineAt(width, cells, c);
    assert s[a .. a + width + 1] == s[a..][..width + 1];
  }

  /** A buffer of `height` whole rows renders as `height` lines of `width + 1`
      characters. */
  lemma RenderedLength(width: nat, height: nat, cells: seq<Cell>)
    requires width >= 1 && |cells| == width * height
    ensures |Rendered(width, cells)| == height * (width + 1)
  {
    MulIsProduct(height, width);
    MulIsProduct(height, width + 1);
    RenderedLines(width, height, cells);
  }

  /** Line `row` of the rendering is the glyphs of row `row` of the buffer,
      followed by a line break. */
  lemma RenderedRow(width: nat, height: nat, cells: seq<Cell>, row: nat)
    requires width >= 1 && |cells| == width * height && row < height
    ensures row * width + width <= |cells|
    ensures row * (width + 1) + width + 1 <= |Rendered(width, cells)|
    ensures Rendered(width, cells)[row * (width + 1) .. row * (width + 1) + width + 1]
         == Glyphs(cells[row * width .. row * width + width]) + ['\n']
  {
    MulIsProduct(height, width);
    MulIsProduct(row, width);
    MulIsProduct(row, width + 1);
    RenderedRowM(width, height, cells, row);
  }

  /** Every character of the rendering: a line break exactly at the end of each
      line, and elsewhere the glyph of the cell at the same row and column. */
  lemma RenderedAt(width: nat, height: nat, cells: seq<Cell>, row: nat, col: nat)
    requires width >= 1 && |cells| == width * height && row < height && col <= width
    ensures row * (width + 1) + col < |Rendered(width, cells)|
    ensures col == width ==> Rendered(width, cells)[row * (width + 1) + col] == '\n'
    ensures col < width ==>
              row * width + col < |cells| &&
              Rendered(width, cells)[row * (width + 1) + col] == Glyph(cells[row * width + col])
  {
    MulIsProduct(height, width);
    MulIsProduct(row, width);
    MulIsProduct(row, width + 1);
    RenderedAtM(width, height, cells, row, col);
  }

  /** `RenderedAt` with rows counted by `Mul`. */
  lemma RenderedAtM(width: nat, height: nat, cells: seq<Cell>, row: nat, col: nat)
    requires width >= 1 && |cells| == Mul(height, width) && row < height && col <= width
    ensures Mul(row, width + 1) + col < |Rendered(width, cells)|
    ensures col == width ==> Rendered(width, cells)[Mul(row, width + 1) + col] == '\n'
    ensures col < width ==>
              Mul(row, width) + col < |cells| &&
              Rendered(width, cells)[Mul(row, width + 1) + col] == Glyph(cells[Mul(row, width) + col])
  {
    RenderedRowM(width, height, cells, row);
    var c := Mul(row, width);
    LineChar(Rendered(width, cells), Mul(row, width + 1), cells[c .. c + width], col);
  }

  /** Within a stretch of text holding the glyphs of `line` and a line break,
      the character at offset `col` is the glyph of `line[col]`, or the line
      break at the end. */
  lemma LineChar(s: string, a: nat, line: seq<Cell>, col: nat)
    requires a + |line| + 1 <= |s| && col <= |line|
    requires s[a .. a + |line| + 1] == Glyphs(line) + ['\n']
    ensures col == |line| ==> s[a + col] == '\n'
    ensures col < |line| ==> s[a + col] == Glyph(line[col])
  {
    assert s[a + col] == s[a .. a + |line| + 1][col];
  }
}
