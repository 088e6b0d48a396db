/**
 ssd1306_buffer_fill_triangle: the vertices are sorted by y with three
 conditional swaps, then one horizontal line is drawn per row from the top
 vertex down to, but not including, the bottom one. The span ends come from
 `float` interpolation, which is not modelled: they are a parameter here.
 */
module Triangles {
  import opened CTypes
  import opened Geometry
  import opened Utils
  import opened Framebuffer
  import opened Raster
  import opened Lines

  type Point = (int, int)

  /** `if (a.y > b.y)` swap both coordinates with ssd1306_util_swap_int. */
  function SwapIfBelow(a: Point, b: Point): (r: (Point, Point))
    ensures r.0.1 <= r.1.1
    ensures (r.0, r.1) == (a, b) || (r.0, r.1) == (b, a)
    ensures a.1 <= b.1 ==> r == (a, b)
  {
    if a.1 > b.1 then (b, a) else (a, b)
  }

  /**
   The three swaps of the C. The result is ordered by y and is a
   permutation of the input; input already in order is left as it is.
   */
  function SortByY(p0: Point, p1: Point, p2: Point): (r: (Point, Point, Point))
    ensures r.0.1 <= r.1.1 <= r.2.1
    ensures multiset{r.0, r.1, r.2} == multiset{p0, p1, p2}
    ensures p0.1 <= p1.1 <= p2.1 ==> r == (p0, p1, p2)
  {
    var (a, b) := SwapIfBelow(p0, p1);
    var (b', c) := SwapIfBelow(b, p2);
    var (a', b'') := SwapIfBelow(a, b');
    (a', b'', c)
  }

  /**
   The rows the loop draws from round i on, for sorted heights
   y0 <= y1 <= y2: round i draws row y0 + i unless its half of the triangle
   has height 0 (the `continue`).
   */
  function Rows(y0: int, y1: int, y2: int, i: nat): (rows: seq<int>)
    requires y0 <= y1 <= y2
    decreases y2 - y0 - i
  {
    if i >= y2 - y0 then []
    else
      var secondHalf := i > y1 - y0 || y1 == y0;
      var segmentHeight := if secondHalf then y2 - y1 else y1 - y0;
      (if segmentHeight == 0 then [] else [y0 + i]) + Rows(y0, y1, y2, i + 1)
  }

  /**
   The `segment_height == 0` test never fires inside the loop: from round i
   on exactly the rows y0 + i .. y2 - 1 are drawn, one per round, in order.
   */
  lemma {:induction false} RowsAreConsecutive(y0: int, y1: int, y2: int, i: nat)
    requires y0 <= y1 <= y2
    ensures Rows(y0, y1, y2, i) == seq(Max(0, y2 - y0 - i), k => y0 + i + k)
    decreases y2 - y0 - i
  {
    if i < y2 - y0 {
      RowsAreConsecutive(y0, y1, y2, i + 1);
      var secondHalf := i > y1 - y0 || y1 == y0;
      assert (if secondHalf then y2 - y1 else y1 - y0) != 0;
    }
  }

  /** The rows of the filled triangle: every row from the top vertex to above the bottom one. */
  function FillTriangleRows(x0: int, y0: int, x1: int, y1: int, x2: int, y2: int): (rows: seq<int>)
    ensures |rows| == Max(Max(y0, y1), y2) - Min(Min(y0, y1), y2)
    ensures forall k | 0 <= k < |rows| :: rows[k] == Min(Min(y0, y1), y2) + k
  {
    var (a, b, c) := SortByY((x0, y0), (x1, y1), (x2, y2));
    RowsAreConsecutive(a.1, b.1, c.1, 0);
    SortedEnds((x0, y0), (x1, y1), (x2, y2));
    Rows(a.1, b.1, c.1, 0)
  }

  /** After sorting, the first and last heights are the least and the greatest. */
  lemma SortedEnds(p0: Point, p1: Point, p2: Point)
    ensures var r := SortByY(p0, p1, p2);
      r.0.1 == Min(Min(p0.1, p1.1), p2.1) && r.2.1 == Max(Max(p0.1, p1.1), p2.1)
  {
    var r := SortByY(p0, p1, p2);
    assert r.0 in multiset{p0, p1, p2} && r.2 in multiset{p0, p1, p2};
    assert p0 in multiset{r.0, r.1, r.2} && p1 in multiset{r.0, r.1, r.2} && p2 in multiset{r.0, r.1, r.2};
  }

  /**
   ssd1306_buffer_fill_triangle with the span of round i given by `span(i)`
   (the `float` interpolation, already ordered or swapped here like the C's
   `ax > bx` test). Every round draws a horizontal line on row
   `(int16_t)(y0 + i)`, so every pixel that changes takes the colour and lies
   on one of the rows of `FillTriangleRows`; a triangle of height 0 draws
   nothing. The C computes `y2 - y0` in `int`, so the heights are 32-bit.
   */
  method FillTriangle(c: Canvas, x0: i32, y0: i32, x1: i32, y1: i32, x2: i32, y2: i32,
                      span: int -> (int, int), color: Color) returns (r: Canvas)
    requires Max(Max(y0, y1), y2) - Min(Min(y0, y1), y2) < 0x8000_0000
    ensures y0 == y1 == y2 ==> r == c
    ensures forall px, py | OnCanvas(px, py) && Pixel(r, px, py) != Pixel(c, px, py) ::
      Pixel(r, px, py) == color &&
      exists k | 0 <= k < |FillTriangleRows(x0, y0, x1, y1, x2, y2)| :: py == I16(FillTriangleRows(x0, y0, x1, y1, x2, y2)[k])
    ensures -0x8000 <= Min(Min(y0, y1), y2) && Max(Max(y0, y1), y2) <= 0x8000 ==>
      forall px, py | OnCanvas(px, py) && Pixel(r, px, py) != Pixel(c, px, py) ::
        Min(Min(y0, y1), y2) <= py < Max(Max(y0, y1), y2)
    ensures Tracks(c, r)
  {
    var rows := FillTriangleRows(x0, y0, x1, y1, x2, y2);
    r := c;
    var i := 0;
    while i < |rows|
      invariant 0 <= i <= |rows|
      invariant i == 0 ==> r == c
      invariant forall px, py | OnCanvas(px, py) && Pixel(r, px, py) != Pixel(c, px, py) ::
        Pixel(r, px, py) == color && exists k | 0 <= k < i :: py == I16(rows[k])
      invariant Tracks(c, r)
    {
      var (ax, bx) := span(i);
      if ax > bx {
        ax, bx := bx, ax;
      }
      var row := I16(rows[i]);
      var r' := DrawLine(r, I16(ax), row, I16(bx), row, color);
      TracksTransitive(c, r, r');
      r := r';
      i := i + 1;
    }
  }
}
