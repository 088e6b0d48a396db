/**
 The framebuffer and its dirty map, and the two primitive writes every
 drawing routine is built from: setting one pixel and filling the whole
 buffer.

 A canvas is the pair (framebuffer, dirty map). Pixel (x, y) is bit `y % 8` of
 framebuffer byte `BufIndex(x, y)`; that byte is tracked by dirty bit
 `BufIndex(x, y)` of the dirty map read as one long bit string.
 */
module Framebuffer {
  import opened CTypes
  import opened Geometry
  import opened Bits
  import opened Utils

  /** SSD1306_COLOR_t: Black = 0, White = 1. */
  datatype Color = Black | White

  function Inverse(c: Color): (r: Color)
    ensures r != c
  {
    if c == White then Black else White
  }

  datatype Frame = Frame(buf: seq<byte>, dirty: seq<byte>)

  /** A framebuffer and a dirty map of the sizes the driver declares. */
  type Canvas = f: Frame | |f.buf| == BUFFER_SIZE && |f.dirty| == DIRTY_SIZE
    witness Frame(seq(BUFFER_SIZE, _ => 0), seq(DIRTY_SIZE, _ => 0))

  /** The colour of pixel (x, y). */
  function Pixel(c: Canvas, x: int, y: int): Color
    requires OnCanvas(x, y)
  {
    if Bit(c.buf[BufIndex(x, y)], y % 8) then White else Black
  }

  /** Dirty bit k: framebuffer byte k must be sent on the next flush. */
  predicate Dirty(c: Canvas, k: nat)
    requires k < NBITS
  {
    BitAt(c.dirty, k)
  }

  /** Two canvases with the same pixels have the same framebuffer. */
  lemma SamePixelsSameBuffer(c: Canvas, d: Canvas)
    requires forall x, y | OnCanvas(x, y) :: Pixel(c, x, y) == Pixel(d, x, y)
    ensures c.buf == d.buf
  {
    forall k | 0 <= k < BUFFER_SIZE
      ensures c.buf[k] == d.buf[k]
    {
      forall j | 0 <= j < 8
        ensures Bit(c.buf[k], j) == Bit(d.buf[k], j)
      {
        AddressingSurjective(k, j);
        var x, y := k % W, (k / W) * 8 + j;
        assert Pixel(c, x, y) == Pixel(d, x, y);
      }
      BitsDetermineByte(c.buf[k], d.buf[k]);
    }
  }

  /**
   Every change a drawing makes is recorded: a framebuffer byte that differs
   from before has its dirty bit set, and no dirty bit is lost.
   */
  ghost predicate Tracks(c: Canvas, r: Canvas)
  {
    && (forall k | 0 <= k < NBITS :: Dirty(c, k) ==> Dirty(r, k))
    && (forall k | 0 <= k < BUFFER_SIZE :: r.buf[k] != c.buf[k] ==> Dirty(r, k))
  }

  lemma TracksReflexive(c: Canvas)
    ensures Tracks(c, c)
  {
  }

  lemma TracksTransitive(c: Canvas, d: Canvas, e: Canvas)
    requires Tracks(c, d) && Tracks(d, e)
    ensures Tracks(c, e)
  {
  }

  /**
   ssd1306_buffer_draw_pixel. Off-panel coordinates are ignored. Otherwise the
   pixel takes the colour, and the byte and its dirty bit are touched only when
   the pixel actually changes.
   */
  function DrawPixel(c: Canvas, x: u8, y: u8, color: Color): (r: Canvas)
    ensures !OnCanvas(x, y) ==> r == c
    ensures OnCanvas(x, y) ==> Pixel(r, x, y) == color
    ensures forall x', y' | OnCanvas(x', y') && (x', y') != (x, y) :: Pixel(r, x', y') == Pixel(c, x', y')
    ensures OnCanvas(x, y) ==>
      forall k | 0 <= k < NBITS :: Dirty(r, k) == (Dirty(c, k) || (k == BufIndex(x, y) && Pixel(c, x, y) != color))
    ensures OnCanvas(x, y) ==> forall k | 0 <= k < BUFFER_SIZE && k != BufIndex(x, y) :: r.buf[k] == c.buf[k]
    ensures OnCanvas(x, y) && Pixel(c, x, y) == color ==> r == c
    ensures Tracks(c, r)
  {
    if x >= W || y >= H then c
    else
      var page := y / 8;
      var k := BufIndex(x, y);
      var isNew := Bit(c.buf[k], y % 8) != (color == White);
      if !isNew then c
      else
        var di := DirtyIndex(page, x);
        DirtyAddressIsLinear(page, x);
        var dirty := ClearOrSet(c.dirty, di, x % 8, true);
        var buf := ClearOrSet(c.buf, k, y % 8, color == White);
        PixelUpdate(c, Frame(buf, dirty), x, y, color);
        Frame(buf, dirty)
  }

  /** Byte i of s with bit j forced to `on`. */
  function ClearOrSet(s: seq<byte>, i: nat, j: nat, on: bool): (r: seq<byte>)
    requires i < |s| && j < 8
    ensures |r| == |s|
    ensures forall i' | 0 <= i' < |s| && i' != i :: r[i'] == s[i']
    ensures forall j' | 0 <= j' < 8 :: Bit(r[i], j') == if j' == j then on else Bit(s[i], j')
  {
    s[i := if on then SetBit(s[i], j) else ClearBit(s[i], j)]
  }

  lemma PixelUpdate(c: Canvas, r: Canvas, x: nat, y: nat, color: Color)
    requires OnCanvas(x, y)
    requires forall k | 0 <= k < BUFFER_SIZE && k != BufIndex(x, y) :: r.buf[k] == c.buf[k]
    requires forall j | 0 <= j < 8 ::
      Bit(r.buf[BufIndex(x, y)], j) == if j == y % 8 then color == White else Bit(c.buf[BufIndex(x, y)], j)
    ensures Pixel(r, x, y) == color
    ensures forall x', y' | OnCanvas(x', y') && (x', y') != (x, y) :: Pixel(r, x', y') == Pixel(c, x', y')
  {
    forall x', y' | OnCanvas(x', y') && (x', y') != (x, y)
      ensures Pixel(r, x', y') == Pixel(c, x', y')
    {
      if BufIndex(x', y') == BufIndex(x, y) {
        if y' % 8 == y % 8 {
          AddressingInjective(x, y, x', y');
        }
      }
    }
  }

  /** ssd1306_buffer_fill: every byte 0x00 or 0xFF, every byte dirty. */
  function Fill(c: Canvas, color: Color): (r: Canvas)
    ensures forall k | 0 <= k < BUFFER_SIZE :: r.buf[k] == if color == Black then 0x00 else 0xFF
    ensures forall i | 0 <= i < DIRTY_SIZE :: r.dirty[i] == 0xFF
    ensures forall x, y | OnCanvas(x, y) :: Pixel(r, x, y) == color
    ensures forall k | 0 <= k < NBITS :: Dirty(r, k)
  {
    var fill: byte := if color == Black then 0x00 else 0xFF;
    var r := Frame(seq(BUFFER_SIZE, _ => fill), seq(DIRTY_SIZE, _ => 0xFF));
    assert forall j | 0 <= j < 8 :: Bit(fill, j) == (color == White);
    assert forall j | 0 <= j < 8 :: Bit(0xFF, j);
    r
  }
}
