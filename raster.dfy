/** Raster images as OpenCV/numpy hold them: `height` rows of `width` pixels,
    three 8-bit channels each, in row-major order (numpy shape
    `(height, width, 3)`). Only the two array operations the capture loop uses
    are modelled: the one-column slice `frame[:, x:x+1]` and `np.hstack`. */
module Raster {

  type Byte = x: int | 0 <= x < 256

  /** One pixel, channels in OpenCV's native blue-green-red order. */
  datatype Pixel = Bgr(b: Byte, g: Byte, r: Byte)

  /** A vertical strip read top to bottom. */
  type Column = seq<Pixel>

  datatype Image = Image(height: nat, width: nat, rows: seq<seq<Pixel>>) {

    /** The shape is honest: `height` rows, each of `width` pixels. */
    predicate Valid() {
      |rows| == height && forall y :: 0 <= y < height ==> |rows[y]| == width
    }

    /** Column `x`, top to bottom. */
    function ColumnAt(x: nat): (c: Column)
      requires Valid() && x < width
      ensures |c| == height
    {
      seq(height, y requires 0 <= y < height && Valid() && x < width => rows[y][x])
    }

    /** The image seen as its columns, left to right. */
    function Columns(): (cs: seq<Column>)
      requires Valid()
      ensures |cs| == width
      ensures forall x :: 0 <= x < width ==> cs[x] == ColumnAt(x)
    {
      seq(width, x requires 0 <= x < width && Valid() => ColumnAt(x))
    }
  }

  /** numpy's `frame[:, x:x+1]` for an in-range `x`: a `height` x 1 image whose
      only column is column `x` of the frame. */
  function VerticalSlice(f: Image, x: nat): (s: Image)
    requires f.Valid() && x < f.width
    ensures s.Valid() && s.height == f.height && s.width == 1
    ensures s.Columns() == [f.ColumnAt(x)]
  {
    var s := Image(f.height, 1, seq(f.height, y requires 0 <= y < f.height && f.Valid() && x < f.width => f.rows[y][x..x + 1]));
    assert s.Columns()[0] == f.ColumnAt(x);
    s
  }

  /** numpy's `np.hstack((a, b))` on two images of equal height: row `y` of
      the result is row `y` of `a` followed by row `y` of `b`. */
  function Hstack(a: Image, b: Image): (c: Image)
    requires a.Valid() && b.Valid() && a.height == b.height
    ensures c.Valid() && c.height == a.height && c.width == a.width + b.width
  {
    Image(a.height, a.width + b.width,
          seq(a.height, y requires 0 <= y < a.height && a.Valid() && b.Valid() && a.height == b.height => a.rows[y] + b.rows[y]))
  }

  /** Stacking side by side, seen column-wise, is concatenation: the columns of
      `a` stay where they were and those of `b` follow on the right. */
  lemma HstackAppendsColumns(a: Image, b: Image)
    requires a.Valid() && b.Valid() && a.height == b.height
    ensures Hstack(a, b).Columns() == a.Columns() + b.Columns()
  {
    var c := Hstack(a, b);
    forall x | 0 <= x < c.width
      ensures c.Columns()[x] == (a.Columns() + b.Columns())[x]
    {
      if x < a.width {
        assert c.ColumnAt(x) == a.ColumnAt(x);
      } else {
        assert c.ColumnAt(x) == b.ColumnAt(x - a.width);
      }
    }
  }
}
