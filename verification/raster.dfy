/**
 Filled rectangles and the opaque 1-bpp bitmap blit of the driver's geometry
 primitives, together with the behaviour of the C rectangle loop's 16-bit
 counter at the top of its range.
 */
module Raster {
  import opened CTypes
  import opened Geometry
  import opened Utils
  import opened Bits
  import opened Framebuffer
  import opened Paint

  /** (px, py) lies in the rectangle spanned by two corners given in any order. */
  predicate InRect(px: int, py: int, x0: int, y0: int, x1: int, y1: int)
  {
    Min(x0, x1) <= px <= Max(x0, x1) && Min(y0, y1) <= py <= Max(y0, y1)
  }

  /**
   ssd1306_buffer_fill_rect_xy. The corners are normalised, then every
   on-panel pixel of the closed rectangle is drawn. The row and column counters
   are unbounded integers here; the C counters are 16-bit (see
   `CounterLoopNeverExits`).
   */
  function FillRectXY(c: Canvas, x0: i16, y0: i16, x1: i16, y1: i16, color: Color): (r: Canvas)
    ensures forall x', y' | OnCanvas(x', y') ::
      Pixel(r, x', y') == if InRect(x', y', x0, y0, x1, y1) then color else Pixel(c, x', y')
    ensures Tracks(c, r)
  {
    var lx, hx := Min(x0, x1), Max(x0, x1);
    var ly, hy := Min(y0, y1), Max(y0, y1);
    PaintBox(c, lx, ly, hx - lx + 1, hy - ly + 1, Solid(color))
  }

  /** The order in which the two corners are given does not matter. */
  lemma FillRectXYCornerOrder(c: Canvas, x0: i16, y0: i16, x1: i16, y1: i16, color: Color)
    ensures FillRectXY(c, x0, y0, x1, y1, color) == FillRectXY(c, x1, y1, x0, y0, color)
    ensures FillRectXY(c, x0, y0, x1, y1, color) == FillRectXY(c, x1, y0, x0, y1, color)
  {
    assert Min(x0, x1) == Min(x1, x0) && Max(x0, x1) == Max(x1, x0);
    assert Min(y0, y1) == Min(y1, y0) && Max(y0, y1) == Max(y1, y0);
  }

  /**
   ssd1306_buffer_fill_rect: a non-positive width or height draws nothing;
   otherwise the far corner is `(int16_t)(x + w - 1), (int16_t)(y + h - 1)`.
   */
  function FillRect(c: Canvas, x: i16, y: i16, w: i16, h: i16, color: Color): (r: Canvas)
    ensures w <= 0 || h <= 0 ==> r == c
    ensures w > 0 && h > 0 ==> forall x', y' | OnCanvas(x', y') ::
      Pixel(r, x', y') == if InRect(x', y', x, y, I16(x + w - 1), I16(y + h - 1)) then color else Pixel(c, x', y')
    ensures w > 0 && h > 0 && x + w <= 0x8000 && y + h <= 0x8000 ==> forall x', y' | OnCanvas(x', y') ::
      Pixel(r, x', y') == if InSpan(x', x, w) && InSpan(y', y, h) then color else Pixel(c, x', y')
    ensures Tracks(c, r)
  {
    if w <= 0 || h <= 0 then c
    else FillRectXY(c, x, y, I16(x + w - 1), I16(y + h - 1), color)
  }

  /**
   The C loop `for (y = y0; y <= y1; y++)` with a 16-bit counter: does it
   leave the loop within `fuel` iterations?
   */
  function CounterLoopExits(y: i16, y1: i16, fuel: nat): bool
    decreases fuel
  {
    if y > y1 then true
    else if fuel == 0 then false
    else CounterLoopExits(I16(y + 1), y1, fuel - 1)
  }

  /** Below the top of the range the counter loop exits after y1 - y + 1 rounds. */
  lemma {:induction false} CounterLoopExitsBelowTop(y: i16, y1: i16)
    requires y <= y1 < 0x7FFF
    ensures CounterLoopExits(y, y1, y1 - y + 1)
    decreases y1 - y
  {
    if y < y1 {
      CounterLoopExitsBelowTop(y + 1, y1);
    }
  }

  /**
   When the far corner is 32767 the counter wraps from 32767 to -32768 and the
   loop condition never fails, however many rounds are allowed.
   */
  lemma {:induction false} CounterLoopNeverExits(y: i16, fuel: nat)
    ensures !CounterLoopExits(y, 0x7FFF, fuel)
    decreases fuel
  {
    if fuel > 0 {
      CounterLoopNeverExits(I16(y + 1), fuel - 1);
    }
  }

  /** Bytes per scan line of a 1-bpp image: ceil(width / 8). */
  function RowBytes(width: nat): (n: nat)
    ensures width > 0 ==> n > 0
    ensures 8 * n >= width && 8 * n < width + 8
    ensures width % 8 == 0 ==> 8 * n == width
  {
    (width + 7) / 8
  }

  /** Image pixel (i, j) lies inside an image of `height` rows. */
  lemma ImageIndexInRange(i: nat, j: nat, width: nat, height: nat)
    requires i < width && j < height
    ensures j * RowBytes(width) + i / 8 < height * RowBytes(width)
  {
    var n := RowBytes(width);
    assert i / 8 < n;
    assert j * n + n == (j + 1) * n;
    assert (j + 1) * n <= height * n by {
      MulMono(j + 1, height, n);
    }
  }

  /**
   The colour the blit gives image pixel (i, j): `color` where bit `7 - i % 8`
   of byte `j * ceil(width / 8) + i / 8` is set, the inverse colour where it
   is clear.
   */
  function ImageColor(image: seq<byte>, width: nat, i: nat, j: nat, color: Color): Color
    requires j * RowBytes(width) + i / 8 < |image|
  {
    if Bit(image[j * RowBytes(width) + i / 8], 7 - i % 8) then color else Inverse(color)
  }

  /** The shape the blit expects: `height` scan lines of ceil(width / 8) bytes. */
  predicate ImageFits(image: seq<byte>, width: int, height: int)
  {
    width > 0 && height > 0 ==> |image| >= height * RowBytes(width)
  }

  /**
   ssd1306_buffer_draw_bitmap: a NULL image or a non-positive size draws
   nothing; otherwise every on-panel pixel of the `width` x `height` box at
   (x, y) is drawn opaquely from the image, and nothing else changes.
   */
  function DrawBitmap(c: Canvas, x: i16, y: i16, image: Option<seq<byte>>, width: i16, height: i16,
                      color: Color): (r: Canvas)
    requires image.Some? ==> ImageFits(image.value, width, height)
    ensures image.None? || width <= 0 || height <= 0 ==> r == c
    ensures image.Some? && width > 0 && height > 0 ==> forall x', y' | OnCanvas(x', y') ::
      && (InSpan(x', x, width) && InSpan(y', y, height) ==>
            ImageIndexOk(image.value, width, x' - x, y' - y) &&
            Pixel(r, x', y') == ImageColor(image.value, width, x' - x, y' - y, color))
      && (!(InSpan(x', x, width) && InSpan(y', y, height)) ==> Pixel(r, x', y') == Pixel(c, x', y'))
    ensures Tracks(c, r)
  {
    if image.None? || width <= 0 || height <= 0 then c
    else
      var img := image.value;
      var r := PaintBox(c, x, y, width, height, BlitInk(img, x, y, width, height, color));
      forall i: nat, j: nat | i < width && j < height
        ensures ImageIndexOk(img, width, i, j)
      {
        ImageIndexInRange(i, j, width, height);
      }
      r
  }

  predicate ImageIndexOk(image: seq<byte>, width: nat, i: int, j: int)
  {
    0 <= i && 0 <= j && j * RowBytes(width) + i / 8 < |image|
  }

  /** The blit's colour for every position, anchored at (x, y). */
  function BlitInk(image: seq<byte>, x: int, y: int, width: nat, height: nat, color: Color): Ink
  {
    (px: int, py: int) =>
      if ImageIndexOk(image, width, px - x, py - y)
      then ImageColor(image, width, px - x, py - y, color)
      else color
  }
}
