/**
 Single bits of a byte, and of a byte sequence read as one long bit string
 (bit `k` is bit `k % 8` of byte `k / 8`, least significant bit first), which
 is how both the framebuffer pages and the dirty map are addressed.
 */
module Bits {
  import opened CTypes

  /** `1 << i` for a bit position of a byte, spelled out per position. */
  function Mask(i: nat): (m: byte)
    requires i < 8
  {
    if i == 0 then 0x01 else if i == 1 then 0x02 else if i == 2 then 0x04
    else if i == 3 then 0x08 else if i == 4 then 0x10 else if i == 5 then 0x20
    else if i == 6 then 0x40 else 0x80
  }

  predicate Bit(b: byte, i: nat)
    requires i < 8
  {
    b & Mask(i) != 0
  }

  /** `b | (1 << i)` */
  function SetBit(b: byte, i: nat): (r: byte)
    requires i < 8
    ensures forall j | 0 <= j < 8 :: Bit(r, j) == (j == i || Bit(b, j))
  {
    b | Mask(i)
  }

  /** `b & ~(1 << i)` */
  function ClearBit(b: byte, i: nat): (r: byte)
    requires i < 8
    ensures forall j | 0 <= j < 8 :: Bit(r, j) == (j != i && Bit(b, j))
  {
    b & (0xFF ^ Mask(i))
  }

  /** A byte is determined by its eight bits. */
  lemma BitsDetermineByte(a: byte, b: byte)
    requires forall j | 0 <= j < 8 :: Bit(a, j) == Bit(b, j)
    ensures a == b
  {
    assert Bit(a, 0) == Bit(b, 0) && Bit(a, 1) == Bit(b, 1);
    assert Bit(a, 2) == Bit(b, 2) && Bit(a, 3) == Bit(b, 3);
    assert Bit(a, 4) == Bit(b, 4) && Bit(a, 5) == Bit(b, 5);
    assert Bit(a, 6) == Bit(b, 6) && Bit(a, 7) == Bit(b, 7);
  }

  lemma ZeroByteBits(b: byte)
    ensures b == 0 <==> forall j | 0 <= j < 8 :: !Bit(b, j)
  {
    if forall j | 0 <= j < 8 :: !Bit(b, j) {
      BitsDetermineByte(b, 0);
    }
  }

  lemma FullByteBits(b: byte)
    ensures b == 0xFF <==> forall j | 0 <= j < 8 :: Bit(b, j)
  {
    if forall j | 0 <= j < 8 :: Bit(b, j) {
      BitsDetermineByte(b, 0xFF);
    }
  }

  /** Bit k of a byte string. */
  predicate BitAt(s: seq<byte>, k: nat)
    requires k < 8 * |s|
  {
    Bit(s[k / 8], k % 8)
  }

  /** Every bit of a byte string is clear exactly when every byte is zero. */
  lemma AllClearIsZero(s: seq<byte>)
    requires forall k | 0 <= k < 8 * |s| :: !BitAt(s, k)
    ensures forall i | 0 <= i < |s| :: s[i] == 0
  {
    forall i | 0 <= i < |s|
      ensures s[i] == 0
    {
      forall j | 0 <= j < 8
        ensures !Bit(s[i], j)
      {
        var k := 8 * i + j;
        assert k / 8 == i && k % 8 == j;
        assert !BitAt(s, k);
      }
      ZeroByteBits(s[i]);
    }
  }

  /** Clearing one bit of a byte string. */
  function ClearBitAt(s: seq<byte>, k: nat): (r: seq<byte>)
    requires k < 8 * |s|
    ensures |r| == |s|
    ensures forall k' | 0 <= k' < 8 * |s| :: BitAt(r, k') == (k' != k && BitAt(s, k'))
  {
    var r := s[k / 8 := ClearBit(s[k / 8], k % 8)];
    assert forall k' | 0 <= k' < 8 * |s| && k' / 8 == k / 8 :: (k' == k <==> k' % 8 == k % 8);
    r
  }

  /** A bit of `a & m` is set exactly when it is set in both. */
  lemma AndBit(a: byte, m: byte, j: nat)
    requires j < 8
    ensures Bit(a & m, j) == (Bit(a, j) && Bit(m, j))
  {
  }

  /** Replacing byte i of a byte string changes only the bits of byte i. */
  lemma BitAtUpdate(s: seq<byte>, i: nat, v: byte, k: nat)
    requires i < |s| && k < 8 * |s|
    ensures BitAt(s[i := v], k) == if k / 8 == i then Bit(v, k % 8) else BitAt(s, k)
  {
  }
}
