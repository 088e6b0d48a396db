/**
 C machine types used by the driver, and the conversions the C code performs
 implicitly: unsigned casts wrap modulo 2^n, signed 16-bit casts wrap into
 [-32768, 32767], and `/` truncates toward zero.
 */
module CTypes {

  type byte = bv8
  type u8 = x: int | 0 <= x < 0x100
  type u16 = x: int | 0 <= x < 0x1_0000
  type u32 = x: int | 0 <= x < 0x1_0000_0000
  type i16 = x: int | -0x8000 <= x < 0x8000
  type i32 = x: int | -0x8000_0000 <= x < 0x8000_0000

  /** A NULL-able pointer: `None` is NULL. */
  datatype Option<T> = None | Some(value: T)

  /** `(uint8_t)x`: keeps the value when it fits, otherwise wraps. */
  function U8(x: int): (r: u8)
    ensures 0 <= x < 0x100 ==> r == x
    ensures (x - r) % 0x100 == 0
  {
    x % 0x100
  }

  /** `(uint16_t)x` */
  function U16(x: int): (r: u16)
    ensures 0 <= x < 0x1_0000 ==> r == x
    ensures (x - r) % 0x1_0000 == 0
  {
    x % 0x1_0000
  }

  /** `(uint32_t)x` */
  function U32(x: int): (r: u32)
    ensures 0 <= x < 0x1_0000_0000 ==> r == x
    ensures (x - r) % 0x1_0000_0000 == 0
  {
    x % 0x1_0000_0000
  }

  /** `(int16_t)x` on a two's-complement target. */
  function I16(x: int): (r: i16)
    ensures -0x8000 <= x < 0x8000 ==> r == x
    ensures (x - r) % 0x1_0000 == 0
  {
    var m := x % 0x1_0000;
    if m >= 0x8000 then m - 0x1_0000 else m
  }

  function Abs(x: int): nat
  {
    if x < 0 then -x else x
  }

  /** C integer division: the quotient is truncated toward zero. */
  function CDiv(a: int, b: int): (q: int)
    requires b != 0
    ensures a >= 0 && b > 0 ==> q == a / b
    ensures a < 0 && b > 0 ==> q == -((-a) / b)
  {
    if b > 0 then
      if a >= 0 then a / b else -((-a) / b)
    else
      if a >= 0 then -(a / (-b)) else (-a) / (-b)
  }

  /** Multiplying by a natural number keeps the order. */
  lemma MulMono(a: nat, b: nat, n: nat)
    requires a <= b
    ensures n * a <= n * b
  {
  }

  /** A product of bounded natural factors is bounded by the product of the bounds. */
  lemma MulBounds(a: int, b: int, c: int, d: int)
    requires 0 <= a <= c && 0 <= b <= d
    ensures 0 <= a * b <= c * d
  {
    MulMono(b, d, a);
    MulMono(a, c, d);
  }

  /** `(uint8_t)c` of a character constant such as `'?'`. */
  function Byte(x: u8): byte
  {
    x as byte
  }
}
