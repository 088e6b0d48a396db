/**
 The helper macros of the utility header and the geometry helpers of the
 utility source: MIN, MAX, CLAMP, BOOL_XOR, the Cohen–Sutherland region codes,
 the outcode of a point and the integer swap.
 */
module Utils {
  import opened CTypes
  import opened Geometry

  /** SSD1306_MIN */
  function Min(a: int, b: int): (r: int)
    ensures r == a || r == b
    ensures r <= a && r <= b
  {
    if a < b then a else b
  }

  /** SSD1306_MAX */
  function Max(a: int, b: int): (r: int)
    ensures r == a || r == b
    ensures r >= a && r >= b
  {
    if a > b then a else b
  }

  /** SSD1306_CLAMP: defined for all inputs; meaningful when lo <= hi. */
  function Clamp(v: int, lo: int, hi: int): (r: int)
    ensures lo <= hi ==> lo <= r <= hi
    ensures lo <= v <= hi ==> r == v
    ensures lo <= hi && v < lo ==> r == lo
    ensures lo <= hi && v > hi ==> r == hi
  {
    if v < lo then lo else if v > hi then hi else v
  }

  /** SSD1306_BOOL_XOR: logical exclusive or of two C truth values. */
  function BoolXor(a: int, b: int): (r: int)
    ensures r == 0 || r == 1
    ensures r == 1 <==> ((a != 0) != (b != 0))
  {
    if (a != 0) != (b != 0) then 1 else 0
  }

  // Cohen–Sutherland region codes.
  const CS_INSIDE: bv8 := 0
  const CS_LEFT: bv8 := 1
  const CS_RIGHT: bv8 := 2
  const CS_BOTTOM: bv8 := 4
  const CS_TOP: bv8 := 8

  predicate SingleBit(b: bv8)
  {
    b != 0 && b & (b - 1) == 0
  }

  lemma RegionCodesDistinct()
    ensures CS_INSIDE == 0
    ensures SingleBit(CS_LEFT) && SingleBit(CS_RIGHT) && SingleBit(CS_BOTTOM) && SingleBit(CS_TOP)
    ensures CS_LEFT & CS_RIGHT == 0 && CS_LEFT & CS_BOTTOM == 0 && CS_LEFT & CS_TOP == 0
    ensures CS_RIGHT & CS_BOTTOM == 0 && CS_RIGHT & CS_TOP == 0 && CS_BOTTOM & CS_TOP == 0
  {
  }

  predicate OnCanvas(x: int, y: int)
  {
    0 <= x < W && 0 <= y < H
  }

  /** ssd1306_geom_compute_out_code: which side(s) of the canvas a point is on. */
  function OutCode(x: i16, y: i16): (code: bv8)
    ensures code == 0 <==> OnCanvas(x, y)
    ensures (code & CS_LEFT != 0) <==> x < 0
    ensures (code & CS_RIGHT != 0) <==> x >= W
    ensures (code & CS_TOP != 0) <==> y < 0
    ensures (code & CS_BOTTOM != 0) <==> y >= H
    ensures code & (CS_LEFT | CS_RIGHT) != CS_LEFT | CS_RIGHT
    ensures code & (CS_TOP | CS_BOTTOM) != CS_TOP | CS_BOTTOM
    ensures code <= 15
  {
    var h: bv8 := if x < 0 then CS_LEFT else if x >= W then CS_RIGHT else CS_INSIDE;
    var v: bv8 := if y < 0 then CS_TOP else if y >= H then CS_BOTTOM else CS_INSIDE;
    h | v
  }

  /** ssd1306_util_swap_int */
  method SwapInt(a: int, b: int) returns (a': int, b': int)
    ensures a' == b && b' == a
  {
    var t := a;
    a' := b;
    b' := t;
  }
}
