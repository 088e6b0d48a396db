/**
 The outlined shapes built from line segments: the rectangle given by two
 corners, the rectangle given by origin and size, and the triangle.
 */
module Outline {
  import opened CTypes
  import opened Geometry
  import opened Utils
  import opened Framebuffer
  import opened Raster
  import opened Lines

  /** (px, py) is on the border of the rectangle spanned by two corners. */
  predicate OnBorder(px: int, py: int, x0: int, y0: int, x1: int, y1: int)
  {
    && InRect(px, py, x0, y0, x1, y1)
    && (px == Min(x0, x1) || px == Max(x0, x1) || py == Min(y0, y1) || py == Max(y0, y1))
  }

  /**
   ssd1306_buffer_draw_rect_xy. After the corners are normalised the four
   sides are drawn as axis-parallel lines, so exactly the on-panel pixels of
   the border take the colour.
   */
  method DrawRectXY(c: Canvas, x0: i16, y0: i16, x1: i16, y1: i16, color: Color) returns (r: Canvas)
    ensures forall px, py | OnCanvas(px, py) ::
      Pixel(r, px, py) == if OnBorder(px, py, x0, y0, x1, y1) then color else Pixel(c, px, py)
    ensures Tracks(c, r)
  {
    var lx, hx := x0, x1;
    if lx > hx {
      lx, hx := hx, lx;
    }
    var ly, hy := y0, y1;
    if ly > hy {
      ly, hy := hy, ly;
    }
    var c1 := AxisLine(c, lx, ly, hx, ly, color);
    var c2 := AxisLine(c1, lx, ly, lx, hy, color);
    var c3 := AxisLine(c2, hx, ly, hx, hy, color);
    r := AxisLine(c3, lx, hy, hx, hy, color);
    TracksTransitive(c, c1, c2);
    TracksTransitive(c, c2, c3);
    TracksTransitive(c, c3, r);
  }

  /** A horizontal or vertical line draws exactly its on-panel pixels. */
  method AxisLine(c: Canvas, x0: i16, y0: i16, x1: i16, y1: i16, color: Color) returns (r: Canvas)
    requires x0 == x1 || y0 == y1
    ensures forall px, py | OnCanvas(px, py) ::
      Pixel(r, px, py) == if InRect(px, py, x0, y0, x1, y1) then color else Pixel(c, px, py)
    ensures Tracks(c, r)
  {
    r := DrawLine(c, x0, y0, x1, y1, color);
  }

  /**
   ssd1306_buffer_draw_rect: a non-positive width or height draws nothing;
   otherwise the border of the rectangle with far corner
   `(int16_t)(x + w - 1), (int16_t)(y + h - 1)` is drawn. The border is part
   of what ssd1306_buffer_fill_rect fills.
   */
  method DrawRect(c: Canvas, x: i16, y: i16, w: i16, h: i16, color: Color) returns (r: Canvas)
    ensures w <= 0 || h <= 0 ==> r == c
    ensures w > 0 && h > 0 ==> forall px, py | OnCanvas(px, py) ::
      Pixel(r, px, py) == if OnBorder(px, py, x, y, I16(x + w - 1), I16(y + h - 1)) then color else Pixel(c, px, py)
    ensures forall px, py | OnCanvas(px, py) && Pixel(r, px, py) != Pixel(c, px, py) ::
      Pixel(r, px, py) == Pixel(FillRect(c, x, y, w, h, color), px, py)
    ensures Tracks(c, r)
  {
    if w <= 0 || h <= 0 {
      TracksReflexive(c);
      return c;
    }
    r := DrawRectXY(c, x, y, I16(x + w - 1), I16(y + h - 1), color);
  }

  /**
   ssd1306_buffer_draw_triangle: the three sides, with the `int` vertices
   converted to `int16_t`. Each side that clipping accepts is visible: its
   clipped end points and a connected path between them take the colour, and
   the later sides do not undo the earlier ones. Vertices on the panel are
   drawn, and every pixel that changes takes the colour and lies in the
   bounding box of a side.
   */
  method DrawTriangle(c: Canvas, x0: int, y0: int, x1: int, y1: int, x2: int, y2: int, color: Color)
    returns (r: Canvas)
    ensures Visible(r, ClipLine(I16(x0), I16(y0), I16(x1), I16(y1)), color)
    ensures Visible(r, ClipLine(I16(x1), I16(y1), I16(x2), I16(y2)), color)
    ensures Visible(r, ClipLine(I16(x2), I16(y2), I16(x0), I16(y0)), color)
    ensures OnCanvas(I16(x0), I16(y0)) ==> Pixel(r, I16(x0), I16(y0)) == color
    ensures OnCanvas(I16(x1), I16(y1)) ==> Pixel(r, I16(x1), I16(y1)) == color
    ensures OnCanvas(I16(x2), I16(y2)) ==> Pixel(r, I16(x2), I16(y2)) == color
    ensures forall px, py | OnCanvas(px, py) && Pixel(r, px, py) != Pixel(c, px, py) ::
      && Pixel(r, px, py) == color
      && (|| InRect(px, py, I16(x0), I16(y0), I16(x1), I16(y1))
          || InRect(px, py, I16(x1), I16(y1), I16(x2), I16(y2))
          || InRect(px, py, I16(x2), I16(y2), I16(x0), I16(y0)))
    ensures Tracks(c, r)
  {
    var ax, ay, bx, bz, cx, cz := I16(x0), I16(y0), I16(x1), I16(y1), I16(x2), I16(y2);
    var c1 := DrawLine(c, ax, ay, bx, bz, color);
    var c2 := DrawLine(c1, bx, bz, cx, cz, color);
    r := DrawLine(c2, cx, cz, ax, ay, color);
    var k1, k2, k3 := ClipLine(ax, ay, bx, bz), ClipLine(bx, bz, cx, cz), ClipLine(cx, cz, ax, ay);
    VisibleKept(c1, c2, k1, color);
    VisibleKept(c2, r, k1, color);
    VisibleKept(c2, r, k2, color);
    TracksTransitive(c, c1, c2);
    TracksTransitive(c, c2, r);
  }
}
