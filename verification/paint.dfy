/**
 The scan pattern shared by the filled rectangle, the bitmap blit and the glyph
 blit: a box of pixels visited row by row, left to right, each pixel drawn with
 a colour that depends on its position, off-panel positions skipped.
 */
module Paint {
  import opened CTypes
  import opened Geometry
  import opened Utils
  import opened Framebuffer

  /** A colour for every position of the box. */
  type Ink = (int, int) -> Color

  /** The ink of a single colour. */
  function Solid(color: Color): Ink
  {
    (_, _) => color
  }

  predicate InSpan(v: int, lo: int, n: int)
  {
    lo <= v < lo + n
  }

  /** Draws (x, y) when it is on the panel; the `continue` of the C loops. */
  function Plot(c: Canvas, x: int, y: int, color: Color): (r: Canvas)
    ensures !OnCanvas(x, y) ==> r == c
    ensures forall x', y' | OnCanvas(x', y') ::
      Pixel(r, x', y') == if (x', y') == (x, y) then color else Pixel(c, x', y')
    ensures Tracks(c, r)
  {
    if OnCanvas(x, y) then DrawPixel(c, x as u8, y as u8, color) else c
  }

  /** Columns x0 .. x0+w-1 of row y. */
  function PaintRow(c: Canvas, x0: int, y: int, w: nat, ink: Ink): (r: Canvas)
    ensures forall x', y' | OnCanvas(x', y') ::
      Pixel(r, x', y') == if y' == y && InSpan(x', x0, w) then ink(x', y') else Pixel(c, x', y')
    ensures Tracks(c, r)
    decreases w
  {
    if w == 0 then c
    else
      var c1 := Plot(c, x0, y, ink(x0, y));
      var r := PaintRow(c1, x0 + 1, y, w - 1, ink);
      TracksTransitive(c, c1, r);
      r
  }

  /** Rows y0 .. y0+h-1, each painted as a row of width w. */
  function PaintBox(c: Canvas, x0: int, y0: int, w: nat, h: nat, ink: Ink): (r: Canvas)
    ensures forall x', y' | OnCanvas(x', y') ::
      Pixel(r, x', y') == if InSpan(x', x0, w) && InSpan(y', y0, h) then ink(x', y') else Pixel(c, x', y')
    ensures Tracks(c, r)
    decreases h
  {
    if h == 0 then c
    else
      var c1 := PaintRow(c, x0, y0, w, ink);
      var r := PaintBox(c1, x0, y0 + 1, w, h - 1, ink);
      TracksTransitive(c, c1, r);
      r
  }
}
