/** Layout arithmetic of the table component: the records the table is made of
    (rows and cells), the row-colour rule, and where each cell of a row goes
    under the percentage layout and under the uniform layout. Geometry is
    exact (`real`); the component's `float` rounding is not modelled. */
module Layout {

  /** Which of the two configured row colours a row gets (`color0`, `color1`). */
  datatype Color = Color0 | Color1

  /** A width/height pair, the `sizeDelta` of the table's own rectangle. */
  datatype Size = Size(width: real, height: real)

  /** A row background: top-left anchored position, size and colour. */
  datatype Row = Row(x: real, y: real, w: real, h: real, color: Color)

  /** A text cell: position relative to its row's top-left corner, size and text. */
  datatype Cell = Cell(x: real, y: real, w: real, h: real, text: string)

  /** Colour of row `i`: the second colour exactly on odd rows when alternation is on. */
  function RowColor(alternate: bool, i: nat): (c: Color)
    ensures c == Color1 <==> alternate && i % 2 == 1
  {
    if alternate then (if i % 2 == 0 then Color0 else Color1) else Color0
  }

  /** The background row `i` of a table of the given width and cell height. */
  function RowAt(i: nat, width: real, height: real, alternate: bool): Row
  {
    Row(0.0, height * -(i as real), width, height, RowColor(alternate, i))
  }

  /** Sum of a sequence of percentages. */
  function Sum(s: seq<real>): real
  {
    if |s| == 0 then 0.0 else s[0] + Sum(s[1..])
  }

  /** Horizontal offset of column `j`: the percentages before it, as a share of `width`. */
  function OffsetOf(p: seq<real>, j: nat, width: real): real
    requires j <= |p|
  {
    Sum(p[..j]) / 100.0 * width
  }

  /** Width of column `j`: its percentage, as a share of `width`. */
  function WidthOf(p: seq<real>, j: nat, width: real): real
    requires j < |p|
  {
    p[j] / 100.0 * width
  }

  /** Cell `j` of a row built by the percentage layout, holding the prefab's text. */
  function PercentCell(p: seq<real>, j: nat, width: real, height: real, text: string): Cell
    requires j < |p|
  {
    Cell(OffsetOf(p, j, width), 0.0, WidthOf(p, j, width), height, text)
  }

  /** Cell `j` of a row built by the uniform layout over `cols` equal columns. */
  function UniformCell(cols: nat, j: nat, width: real, height: real, text: string): Cell
    requires j < cols
  {
    var w := width / (cols as real);
    Cell(w * (j as real), 0.0, w, height, text)
  }

  /** Cell `c` in column `j` after the column resizer ran with percentages `p`:
      the builder's geometry for that column, keeping the cell's own y and text. */
  function ResizedCell(c: Cell, p: seq<real>, j: nat, width: real, height: real): (r: Cell)
    requires j < |p|
    ensures r == PercentCell(p, j, width, height, c.text).(y := c.y)
  {
    c.(x := Sum(p[..j]) / 100.0 * width, w := p[j] / 100.0 * width, h := height)
  }

  /** `n` equal percentages: the percentage vector the uniform layout corresponds to. */
  function EvenPercentages(n: nat): seq<real>
    requires n > 0
  {
    seq(n, k => 100.0 / (n as real))
  }

  // ---------------------------------------------------------------------------
  // Properties of the percentage layout

  /** Appending one percentage adds it to the sum. */
  lemma {:induction false} SumAppend(s: seq<real>, v: real)
    ensures Sum(s + [v]) == Sum(s) + v
  {
    if |s| == 0 {
      assert s + [v] == [v];
    } else {
      assert (s + [v])[1..] == s[1..] + [v];
      SumAppend(s[1..], v);
    }
  }

  /** The running total grows by one column's percentage per column. */
  lemma PrefixSumStep(p: seq<real>, j: nat)
    requires j < |p|
    ensures Sum(p[..j + 1]) == Sum(p[..j]) + p[j]
  {
    assert p[..j + 1] == p[..j] + [p[j]];
    SumAppend(p[..j], p[j]);
  }

  /** Each column starts where the previous one ends: x(j+1) == x(j) + width(j). */
  lemma OffsetStep(p: seq<real>, j: nat, width: real)
    requires j < |p|
    ensures OffsetOf(p, j + 1, width) == OffsetOf(p, j, width) + WidthOf(p, j, width)
  {
    PrefixSumStep(p, j);
  }

  /** The first column starts at the row's left edge. */
  lemma FirstOffsetZero(p: seq<real>, width: real)
    ensures OffsetOf(p, 0, width) == 0.0
  {
    assert p[..0] == [];
  }

  /** With non-negative percentages and width, offsets never decrease left to right. */
  lemma {:induction false} OffsetMonotone(p: seq<real>, j: nat, k: nat, width: real)
    requires forall m :: 0 <= m < |p| ==> p[m] >= 0.0
    requires width >= 0.0
    requires j <= k <= |p|
    ensures OffsetOf(p, j, width) <= OffsetOf(p, k, width)
  {
    if j < k {
      OffsetMonotone(p, j, k - 1, width);
      OffsetStep(p, k - 1, width);
    }
  }

  /** The widths of the cells of a row add up to the percentages' share of the width. */
  lemma {:induction false} WidthsTotal(p: seq<real>, width: real)
    ensures Sum(seq(|p|, j requires 0 <= j < |p| => WidthOf(p, j, width))) == Sum(p) / 100.0 * width
  {
    var ws := seq(|p|, j requires 0 <= j < |p| => WidthOf(p, j, width));
    if |p| > 0 {
      var tail := seq(|p| - 1, j requires 0 <= j < |p| - 1 => WidthOf(p[1..], j, width));
      forall j | 0 <= j < |p| - 1 ensures ws[1..][j] == tail[j] {
        assert p[1..][j] == p[j + 1];
      }
      assert ws[1..] == tail;
      WidthsTotal(p[1..], width);
      assert Sum(ws) == p[0] / 100.0 * width + Sum(p[1..]) / 100.0 * width;
    }
  }

  /** The offset just past the last column is the percentages' total share of the width. */
  lemma EndOffset(p: seq<real>, width: real)
    ensures OffsetOf(p, |p|, width) == Sum(p) / 100.0 * width
  {
    assert p[..|p|] == p;
  }

  /** The right edge of the last cell is at the percentages' total share of the width. */
  lemma LastCellEnd(p: seq<real>, width: real)
    requires |p| > 0
    ensures OffsetOf(p, |p| - 1, width) + WidthOf(p, |p| - 1, width) == Sum(p) / 100.0 * width
  {
    OffsetStep(p, |p| - 1, width);
    EndOffset(p, width);
  }

  /** When the percentages sum to 100 the last cell ends exactly at the table's width. */
  lemma LastCellEndsAtWidth(p: seq<real>, width: real)
    requires |p| > 0 && Sum(p) == 100.0
    ensures OffsetOf(p, |p| - 1, width) + WidthOf(p, |p| - 1, width) == width
  {
    LastCellEnd(p, width);
  }

  // ---------------------------------------------------------------------------
  // The uniform layout and the column resizer, related to the percentage layout

  /** The first `j` of `n` equal percentages add up to `j * 100 / n`. */
  lemma {:induction false} EvenPrefixSum(n: nat, j: nat)
    requires 0 < n && j <= n
    ensures Sum(EvenPercentages(n)[..j]) == (j as real) * (100.0 / (n as real))
  {
    if j > 0 {
      EvenPrefixSum(n, j - 1);
      PrefixSumStep(EvenPercentages(n), j - 1);
    }
  }

  /** `n` equal percentages add up to 100, so the uniform layout fills the width. */
  lemma EvenPercentagesSum(n: nat)
    requires n > 0
    ensures Sum(EvenPercentages(n)) == 100.0
  {
    EvenPrefixSum(n, n);
    assert EvenPercentages(n)[..n] == EvenPercentages(n);
  }

  /** The uniform layout is the percentage layout with `cols` equal percentages. */
  lemma UniformIsEvenPercent(cols: nat, j: nat, width: real, height: real, text: string)
    requires j < cols
    ensures UniformCell(cols, j, width, height, text)
         == PercentCell(EvenPercentages(cols), j, width, height, text)
  {
    var n := cols as real;
    EvenPrefixSum(cols, j);
    calc {
      (j as real) * (100.0 / n) / 100.0 * width;
      (j as real) * (width / n);
      width / n * (j as real);
    }
    assert 100.0 / n / 100.0 * width == width / n;
  }

  /** The uniform layout fills the width exactly: its last cell ends at `width`. */
  lemma UniformLastCellEnd(cols: nat, width: real, height: real, text: string)
    requires cols > 0
    ensures UniformCell(cols, cols - 1, width, height, text).x
          + UniformCell(cols, cols - 1, width, height, text).w == width
  {
    var n := cols as real;
    assert width / n * (n - 1.0) + width / n == width / n * n;
  }

  /** Resizing a freshly built cell with the vector it was built from changes nothing. */
  lemma ResizeMatchesBuild(p: seq<real>, j: nat, width: real, height: real, text: string)
    requires j < |p|
    ensures ResizedCell(PercentCell(p, j, width, height, text), p, j, width, height)
         == PercentCell(p, j, width, height, text)
  {
  }

  /** Resizing twice with the same vector gives the geometry of resizing once. */
  lemma ResizeIdempotent(c: Cell, p: seq<real>, j: nat, width: real, height: real)
    requires j < |p|
    ensures ResizedCell(ResizedCell(c, p, j, width, height), p, j, width, height)
         == ResizedCell(c, p, j, width, height)
  {
  }

  /** Rows stack downwards without gaps, and alternate colours exactly when alternation is on. */
  lemma RowsStackAndAlternate(i: nat, width: real, height: real, alternate: bool)
    ensures RowAt(i + 1, width, height, alternate).y == RowAt(i, width, height, alternate).y - height
    ensures alternate ==> RowAt(i + 1, width, height, alternate).color != RowAt(i, width, height, alternate).color
    ensures !alternate ==> RowAt(i, width, height, alternate).color == Color0
  {
  }

  /** Three rows, two columns, width 200, cell height 20 and percentages 60/40:
      rows at 0, -20, -40; cells of 120 at 0 and of 80 at 120 in every row. */
  lemma SixtyFortyExample(text: string)
    ensures RowAt(0, 200.0, 20.0, true).y == 0.0
    ensures RowAt(1, 200.0, 20.0, true).y == -20.0
    ensures RowAt(2, 200.0, 20.0, true).y == -40.0
    ensures PercentCell([60.0, 40.0], 0, 200.0, 20.0, text) == Cell(0.0, 0.0, 120.0, 20.0, text)
    ensures PercentCell([60.0, 40.0], 1, 200.0, 20.0, text) == Cell(120.0, 0.0, 80.0, 20.0, text)
  {
    var p := [60.0, 40.0];
    assert p[..0] == [] && p[..1] == [60.0];
  }
}
