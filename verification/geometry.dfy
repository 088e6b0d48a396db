/**
 Display geometry of the default 128x64 panel and the addressing scheme of the
 page-organised framebuffer.

 Pixel (x, y) is bit `y % 8` of framebuffer byte `x + (y / 8) * W`; the dirty
 map holds one bit per framebuffer byte, and framebuffer byte `k` is tracked by
 bit `k % 8` of dirty byte `k / 8`, which is the same bit the driver reaches as
 bit `x % 8` of dirty byte `page * (W / 8) + x / 8`.
 */
module Geometry {

  const W: nat := 128
  const H: nat := 64
  const X_OFFSET: nat := 0
  const PAGE_OFFSET: nat := 0

  // The sizes below are the driver's macros evaluated for this panel;
  // `GeometryFacts` checks them against their definitions.

  /** Number of pages (bands of 8 rows): H / 8. */
  const PAGES: nat := 8
  /** Dirty bytes per page, SSD1306_WIDTH_BYTES: W / 8. */
  const WIDTH_BYTES: nat := 16
  /** SSD1306_BUFFER_SIZE: W * H / 8. */
  const BUFFER_SIZE: nat := 1024
  /** SSD1306_DIRTY_FLAGS_SIZE: (W / 8) * (H / 8). */
  const DIRTY_SIZE: nat := 128
  /** Number of dirty bits, one per framebuffer byte: DIRTY_SIZE * 8. */
  const NBITS: nat := 1024

  lemma GeometryFacts()
    ensures W % 8 == 0 && H % 8 == 0
    ensures PAGES == H / 8 && WIDTH_BYTES == W / 8
    ensures BUFFER_SIZE == W * H / 8 && DIRTY_SIZE == (W / 8) * (H / 8) && NBITS == DIRTY_SIZE * 8
    ensures NBITS == BUFFER_SIZE == PAGES * W
    ensures W < 0x100 && H < 0x100
  {
  }

  /** Framebuffer byte holding pixel (x, y). */
  function BufIndex(x: nat, y: nat): (k: nat)
    requires x < W && y < H
    ensures k < BUFFER_SIZE
    ensures k / W == y / 8 && k % W == x
  {
    x + (y / 8) * W
  }

  /** Dirty byte holding the bit of column x on page `page`. */
  function DirtyIndex(page: nat, x: nat): (i: nat)
    requires page < PAGES && x < W
    ensures i < DIRTY_SIZE
  {
    page * WIDTH_BYTES + x / 8
  }

  /** The driver's (page, column) dirty address and the linear per-byte
      address name the same bit. */
  lemma DirtyAddressIsLinear(page: nat, x: nat)
    requires page < PAGES && x < W
    ensures DirtyIndex(page, x) == (page * W + x) / 8
    ensures x % 8 == (page * W + x) % 8
  {
  }

  /** Addressing is a bijection between pixels and (byte, bit) pairs. */
  lemma AddressingInjective(x: nat, y: nat, x': nat, y': nat)
    requires x < W && y < H && x' < W && y' < H
    requires BufIndex(x, y) == BufIndex(x', y') && y % 8 == y' % 8
    ensures x == x' && y == y'
  {
  }

  lemma AddressingSurjective(k: nat, b: nat)
    requires k < BUFFER_SIZE && b < 8
    ensures (k / W) * 8 + b < H
    ensures BufIndex(k % W, (k / W) * 8 + b) == k
    ensures ((k / W) * 8 + b) % 8 == b
  {
  }
}
