/** Geometry shared by both simulation scripts: the square-root-free form of
    the distance tests that `react` makes, and the index arithmetic of the
    honeycomb lattice that `makeEmitterGrid` lays out layer by layer, row by
    row, column by column. */
module Geometry {

  /** `sqrt(d2) > bound`, stated without the square root. A distance is never
      negative, so a negative bound is always exceeded. */
  predicate Exceeds(d2: real, bound: real)
  {
    bound < 0.0 || d2 > bound * bound
  }

  /** The square-root-free test agrees with the distance test for the
      non-negative root `d` of `d2`, whatever the sign of the bound. */
  lemma ExceedsMatchesDistance(d: real, d2: real, bound: real)
    requires 0.0 <= d && d * d == d2
    ensures Exceeds(d2, bound) <==> d > bound
  {
    if bound >= 0.0 {
      if d > bound {
        assert d * d > bound * d >= bound * bound;
      } else {
        assert d * d <= bound * d <= bound * bound;
      }
    }
  }

  function Min(a: real, b: real): real
  {
    if a <= b then a else b
  }

  /** Being within both bounds is being within the smaller one. */
  lemma WithinBothIsWithinMin(d2: real, a: real, b: real)
    requires d2 >= 0.0
    ensures !Exceeds(d2, a) && !Exceeds(d2, b) <==> !Exceeds(d2, Min(a, b))
  {
    if 0.0 <= a <= b {
      assert a * a <= b * b by {
        assert b * b - a * a == (b - a) * (b + a);
      }
    } else if 0.0 <= b <= a {
      assert b * b <= a * a by {
        assert a * a - b * b == (a - b) * (a + b);
      }
    }
  }

  /** Number of emitters `makeEmitterGrid` creates: Python's `range` of a
      negative count is empty, so a negative width or layer count makes none. */
  function SiteCount(width: int, layers: int): nat
  {
    if width <= 0 || layers <= 0 then 0 else width * width * layers
  }

  /** Position in the emitter list of the site at column `col` of row `row`
      of layer `layer`, for a lattice `width` sites wide. */
  function Index(layer: int, row: int, col: int, width: int): int
  {
    layer * (width * width) + row * width + col
  }

  function Layer(i: int, width: int): int
    requires width > 0
  {
    i / (width * width)
  }

  function Row(i: int, width: int): int
    requires width > 0
  {
    (i / width) % width
  }

  function Col(i: int, width: int): int
    requires width > 0
  {
    i % width
  }

  /** x coordinate of column `col` in row `row`: odd rows are shifted by half
      a step, which packs the sites on the vertices of equilateral triangles. */
  function ColumnX(col: int, row: int, stepX: real): real
  {
    col as real * stepX + (if row % 2 == 1 then stepX / 2.0 else 0.0)
  }

  lemma {:induction false} MulAtLeast(k: int, d: int)
    requires k >= 1 && d > 0
    ensures k * d >= d
  {
    if k > 1 {
      MulAtLeast(k - 1, d);
      assert k * d == (k - 1) * d + d;
    }
  }

  lemma DivModUnique(i: int, d: int, q: int, r: int)
    requires d > 0 && 0 <= r < d && i == q * d + r
    ensures i / d == q && i % d == r
  {
    var q0, r0 := i / d, i % d;
    assert i == q0 * d + r0;
    assert (q - q0) * d == r0 - r;
    if q > q0 {
      MulAtLeast(q - q0, d);
    } else if q < q0 {
      MulAtLeast(q0 - q, d);
    }
  }

  lemma OffsetInLayer(row: int, col: int, width: int)
    requires 0 <= row < width && 0 <= col < width
    ensures 0 <= row * width + col < width * width
  {
    assert row * width <= (width - 1) * width;
  }

  /** Reading (layer, row, column) back from an index recovers them. */
  lemma IndexDecomposes(layer: int, row: int, col: int, width: int)
    requires width > 0 && 0 <= row < width && 0 <= col < width
    ensures Layer(Index(layer, row, col, width), width) == layer
    ensures Row(Index(layer, row, col, width), width) == row
    ensures Col(Index(layer, row, col, width), width) == col
  {
    var i := Index(layer, row, col, width);
    var offset := row * width + col;
    var band := layer * width + row;
    OffsetInLayer(row, col, width);
    DivModUnique(i, width * width, layer, offset);
    assert i == band * width + col;
    DivModUnique(i, width, band, col);
    DivModUnique(band, width, layer, row);
  }

  /** Every index is the index of its own (layer, row, column), and the row
      and column are within the lattice's width. */
  lemma IndexRecomposes(i: int, width: int)
    requires width > 0
    ensures 0 <= Row(i, width) < width && 0 <= Col(i, width) < width
    ensures Index(Layer(i, width), Row(i, width), Col(i, width), width) == i
  {
    var q, c := i / width, i % width;
    var l, r := q / width, q % width;
    assert i == q * width + c;
    assert q == l * width + r;
    assert i == l * (width * width) + (r * width + c);
    OffsetInLayer(r, c, width);
    DivModUnique(i, width * width, l, r * width + c);
  }

  /** The site after the last of a row is the first of the next row. */
  lemma IndexNextRow(layer: int, row: int, width: int)
    ensures Index(layer, row, width, width) == Index(layer, row + 1, 0, width)
  {
    assert (row + 1) * width == row * width + width;
  }

  /** The site after the last of a layer is the first of the next layer. */
  lemma IndexNextLayer(layer: int, width: int)
    ensures Index(layer, width, 0, width) == Index(layer + 1, 0, 0, width)
  {
    assert (layer + 1) * (width * width) == layer * (width * width) + width * width;
  }

  /** Index `width - 1` is the last column of the first row of the first
      layer. */
  lemma FirstRowEndDecomposes(width: int)
    requires width > 0
    ensures Layer(width - 1, width) == 0 && Row(width - 1, width) == 0 && Col(width - 1, width) == width - 1
  {
    MulAtLeast(width, width);
    DivModUnique(width - 1, width * width, 0, width - 1);
    DivModUnique(width - 1, width, 0, width - 1);
  }

  /** The first index past the last layer is the site count. */
  lemma SiteCountIsIndex(width: int, layers: int)
    requires width > 0 && layers > 0
    ensures SiteCount(width, layers) == Index(layers, 0, 0, width)
  {
  }

  /** The last index of a lattice is that of the last site of the last row
      of the last layer. */
  lemma LastSiteIndex(width: int, layers: int)
    requires width > 0 && layers > 0
    ensures Index(layers - 1, width - 1, width - 1, width) == SiteCount(width, layers) - 1
  {
    SiteCountIsIndex(width, layers);
    IndexNextRow(layers - 1, width - 1, width);
    IndexNextLayer(layers - 1, width);
  }

  /** Reading (layer, row, column) back from the last index. */
  lemma LastSiteDecomposes(width: int, layers: int)
    requires width > 0 && layers > 0
    ensures var n := SiteCount(width, layers) - 1;
      Layer(n, width) == layers - 1 && Row(n, width) == width - 1 && Col(n, width) == width - 1
  {
    LastSiteIndex(width, layers);
    IndexDecomposes(layers - 1, width - 1, width - 1, width);
  }

  /** The sites of a lattice with `layers` layers are numbered from 0 up to,
      and not including, its site count. */
  lemma IndexBelow(layer: int, row: int, col: int, width: int, layers: int)
    requires 0 <= layer < layers && 0 <= row < width && 0 <= col < width
    ensures 0 <= Index(layer, row, col, width) < SiteCount(width, layers)
  {
    OffsetInLayer(row, col, width);
    assert layer * (width * width) <= (layers - 1) * (width * width);
    assert width * width * layers == (layers - 1) * (width * width) + width * width;
  }

  /** Multiplying by the same positive factor keeps a strict order. */
  lemma MulLessCancel(a: int, b: int, d: int)
    requires d > 0 && a * d < b * d
    ensures a < b
  {
    assert (b - a) * d > 0;
  }

  /** The sites of a lattice with `layers` layers have layer indices below it. */
  lemma LayerBelow(i: int, width: int, layers: int)
    requires width > 0 && 0 <= i < width * width * layers
    ensures 0 <= Layer(i, width) < layers
  {
    var area := width * width;
    MulAtLeast(width, width);
    var l, off := i / area, i % area;
    assert i == l * area + off && 0 <= off < area;
    assert width * width * layers == layers * area;
    MulLessCancel(-1, l, area);
    MulLessCancel(l, layers, area);
  }

  /** Multiplying by a non-negative step keeps the order of the indices. */
  lemma ScaleMonotone(a: int, b: int, step: real)
    requires 0 <= a <= b && step >= 0.0
    ensures 0.0 <= a as real * step <= b as real * step
  {
    assert (b as real - a as real) * step >= 0.0;
  }

  /** Every column's x coordinate lies between 0 and the last column's x plus
      half a step, the bound the driver samples quenchers in. */
  lemma ColumnXBounds(col: int, row: int, width: int, stepX: real)
    requires 0 <= col < width && 0 <= row && stepX >= 0.0
    ensures 0.0 <= ColumnX(col, row, stepX) <= ColumnX(width - 1, 0, stepX) + stepX / 2.0
  {
    ScaleMonotone(col, width - 1, stepX);
  }
}
