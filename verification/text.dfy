/**
 The text pipeline with the UTF-8 character set configured: decoding a C
 string one codepoint at a time, mapping codepoints to glyph indices, measuring
 a string, and blitting glyphs and strings with a fixed-size font.

 A C string is modelled by the bytes before its terminating NUL (`Str`), and
 `None` is the NULL pointer. Reading one byte past the end reads the NUL.
 `char` is unsigned, as on the ARM target the driver is built for.
 */
module Text {
  import opened CTypes
  import opened Geometry
  import opened Utils
  import opened Bits
  import opened Framebuffer
  import opened Paint
  import opened Raster

  /** The bytes of a C string up to, not including, its terminating NUL. */
  type Str = s: seq<byte> | forall i | 0 <= i < |s| :: s[i] != 0

  /** `str[i]` for i <= |s|: index |s| holds the terminating NUL. */
  function ByteAt(s: Str, i: nat): byte
    requires i <= |s|
  {
    if i < |s| then s[i] else 0
  }

  /** `'?'`, the replacement for anything that does not decode or map. */
  const QUESTION: u8 := 63

  /** A `uint16_t` codepoint. */
  type Codepoint = bv16

  /** A continuation byte 10xxxxxx; the NUL is not one. */
  predicate IsCont(b: byte)
  {
    b & 0xC0 == 0x80
  }

  /** A lead byte 110xxxxx. */
  predicate IsLead2(b: byte)
  {
    b & 0xE0 == 0xC0
  }

  /** A lead byte 1110xxxx. */
  predicate IsLead3(b: byte)
  {
    b & 0xF0 == 0xE0
  }

  /** The codepoint of a two-byte sequence: the lead's five payload bits, then the continuation's six. */
  function TwoBytes(b0: byte, b1: byte): Codepoint
  {
    ((b0 as bv16 & 0x1F) << 6) | (b1 as bv16 & 0x3F)
  }

  /** The codepoint of a three-byte sequence: the lead's four payload bits, then six and six. */
  function ThreeBytes(b0: byte, b1: byte, b2: byte): Codepoint
  {
    ((b0 as bv16 & 0x0F) << 12) | ((b1 as bv16 & 0x3F) << 6) | (b2 as bv16 & 0x3F)
  }

  /** The shifts and masks of a two-byte sequence, read as numbers. */
  lemma TwoByteValue(b0: byte, b1: byte)
    ensures TwoBytes(b0, b1) as int == ((b0 & 0x1F) as int) * 64 + (b1 & 0x3F) as int
  {
  }

  /** The shifts and masks of a three-byte sequence, read as numbers. */
  lemma ThreeByteValue(b0: byte, b1: byte, b2: byte)
    ensures ThreeBytes(b0, b1, b2) as int == ((b0 & 0x0F) as int) * 4096 + ((b1 & 0x3F) as int) * 64 + (b2 & 0x3F) as int
  {
    ThreeByteShifts(b0, b1, b2);
  }

  /** ThreeByteValue on the shift and mask expression itself. */
  lemma ThreeByteShifts(b0: byte, b1: byte, b2: byte)
    ensures (((b0 as bv16 & 0x0F) << 12) | ((b1 as bv16 & 0x3F) << 6) | (b2 as bv16 & 0x3F)) as int
      == ((b0 & 0x0F) as int) * 4096 + ((b1 & 0x3F) as int) * 64 + (b2 & 0x3F) as int
  {
  }

  /**
   The UTF-8 branch of ssd1306_next_char on a non-empty string: the codepoint
   and the number of bytes consumed. A continuation byte is looked at only
   while the bytes before it were continuations, so the NUL stops the scan
   and nothing after it is read; every consumed byte belongs to the string.
   What the codepoint is, case by case, is stated by `DecodeAscii`,
   `DecodeTwoBytes`, `DecodeThreeBytes` and `DecodeInvalid`.
   */
  function Decode(s: Str): (r: (Codepoint, nat))
    requires |s| > 0
    ensures 1 <= r.1 <= 3 && r.1 <= |s|
  {
    var b0 := s[0];
    if b0 < 0x80 then (b0 as bv16, 1)
    else if IsLead2(b0) && IsCont(ByteAt(s, 1)) then
      (TwoBytes(b0, s[1]), 2)
    else if IsLead3(b0) && IsCont(ByteAt(s, 1)) && IsCont(ByteAt(s, 2)) then
      (ThreeBytes(b0, s[1], s[2]), 3)
    else (63, 1)
  }

  /** An ASCII byte decodes to itself and is one byte long. */
  lemma DecodeAscii(s: Str)
    requires |s| > 0 && s[0] < 0x80
    ensures Decode(s).0 as int == s[0] as int && Decode(s).1 == 1
  {
    SameValue(s[0]);
  }

  /**
   A lead byte 110xxxxx followed by a continuation byte gives the lead's five
   payload bits, then the continuation's six, and is two bytes long; overlong
   forms are accepted as they are.
   */
  lemma DecodeTwoBytes(s: Str)
    requires |s| > 0 && s[0] >= 0x80 && IsLead2(s[0]) && IsCont(ByteAt(s, 1))
    ensures Decode(s).0 as int == ((s[0] & 0x1F) as int) * 64 + (s[1] & 0x3F) as int
    ensures Decode(s).1 == 2
  {
    assert Decode(s) == (TwoBytes(s[0], s[1]), 2);
    TwoByteValue(s[0], s[1]);
  }

  /**
   A lead byte 1110xxxx followed by two continuation bytes gives 4 + 6 + 6
   payload bits and is three bytes long.
   */
  lemma DecodeThreeBytes(s: Str)
    requires |s| > 0 && s[0] >= 0x80 && !(IsLead2(s[0]) && IsCont(ByteAt(s, 1)))
    requires IsLead3(s[0]) && IsCont(ByteAt(s, 1)) && IsCont(ByteAt(s, 2))
    ensures Decode(s).0 as int == ((s[0] & 0x0F) as int) * 4096 + ((s[1] & 0x3F) as int) * 64 + (s[2] & 0x3F) as int
    ensures Decode(s).1 == 3
  {
    assert Decode(s) == (ThreeBytes(s[0], s[1], s[2]), 3);
    ThreeByteValue(s[0], s[1], s[2]);
  }

  /**
   Any other byte, including a lead byte whose continuation is missing or is
   the NUL, decodes to `'?'` and consumes exactly that one byte.
   */
  lemma DecodeInvalid(s: Str)
    requires |s| > 0 && s[0] >= 0x80 && !(IsLead2(s[0]) && IsCont(ByteAt(s, 1)))
    requires !(IsLead3(s[0]) && IsCont(ByteAt(s, 1)) && IsCont(ByteAt(s, 2)))
    ensures Decode(s).0 as int == QUESTION && Decode(s).1 == 1
  {
  }

  lemma SameValue(b: byte)
    ensures (b as bv16) as int == b as int
  {
  }

  /**
   ssd1306_next_char: NULL for a NULL or empty string, otherwise the decoded
   codepoint and how far the pointer moves, which is at least one byte, so
   every decoding loop terminates.
   */
  function NextChar(s: Option<Str>): (r: Option<(Codepoint, nat)>)
    ensures r.None? <==> s.None? || |s.value| == 0
    ensures r.Some? ==> 1 <= r.value.1 <= |s.value| && r.value == Decode(s.value)
  {
    if s.None? || |s.value| == 0 then None else Some(Decode(s.value))
  }

  /** The string a pointer `i` bytes further on points to. */
  function Suffix(s: Str, i: nat): (r: Str)
    requires i <= |s|
    ensures r == s[i..]
  {
    s[i..]
  }

  /** The codepoints of a whole string, as the driver's decoding loops see them. */
  function DecodeAll(s: Str): (cps: seq<Codepoint>)
    ensures |cps| <= |s|
    ensures |s| <= 3 * |cps|
    decreases |s|
  {
    if |s| == 0 then []
    else
      var (cp, n) := Decode(s);
      [cp] + DecodeAll(Suffix(s, n))
  }

  /**
   The UTF-8 encoding of a 16-bit codepoint, with U+0000 written in its
   two-byte overlong form so that it never ends the string early.
   */
  function Encode(v: Codepoint): (e: Str)
    ensures 1 <= |e| <= 3
  {
    if 0 < v < 0x80 then [v as byte]
    else if v < 0x800 then [LeadTwo(v), ContByte(v)]
    else [LeadThree(v), ContByte(v >> 6), ContByte(v)]
  }

  /** 10xxxxxx carrying the low six bits of v. */
  function ContByte(v: bv16): (b: byte)
    ensures b != 0 && IsCont(b) && b as bv16 & 0x3F == v & 0x3F
  {
    (0x80 | (v & 0x3F)) as byte
  }

  /** 110xxxxx carrying bits 6..10 of v. */
  function LeadTwo(v: bv16): (b: byte)
    requires v < 0x800
    ensures b >= 0x80 && IsLead2(b) && (b as bv16 & 0x1F) << 6 == v & 0x7C0
  {
    (0xC0 | (v >> 6)) as byte
  }

  /** 1110xxxx carrying bits 12..15 of v. */
  function LeadThree(v: bv16): (b: byte)
    ensures b >= 0x80 && !IsLead2(b) && IsLead3(b) && (b as bv16 & 0x0F) << 12 == v & 0xF000
  {
    (0xE0 | (v >> 12)) as byte
  }

  /** Two C strings joined are a C string. */
  function Join(a: Str, b: Str): (r: Str)
    ensures r == a + b
  {
    assert forall i | 0 <= i < |a + b| :: (a + b)[i] == if i < |a| then a[i] else b[i - |a|];
    a + b
  }

  /** Decoding an encoded codepoint gives it back and consumes exactly its bytes. */
  lemma DecodeEncode(v: Codepoint, rest: Str)
    ensures Decode(Join(Encode(v), rest)) == (v, |Encode(v)|)
  {
    if 0 < v < 0x80 {
      DecodeOne(v, rest);
    } else if v < 0x800 {
      DecodeTwo(v, rest);
    } else {
      DecodeThree(v, rest);
    }
  }

  lemma DecodeOne(v: bv16, rest: Str)
    requires 0 < v < 0x80
    ensures Decode(Join([v as byte], rest)) == (v, 1)
  {
    var s := Join([v as byte], rest);
    assert s[0] == v as byte;
    assert (v as byte) < 0x80 && (v as byte) as bv16 == v;
  }

  lemma DecodeTwo(v: bv16, rest: Str)
    requires v < 0x800
    ensures Decode(Join([LeadTwo(v), ContByte(v)], rest)) == (v, 2)
  {
    var s := Join([LeadTwo(v), ContByte(v)], rest);
    assert s[0] == LeadTwo(v) && s[1] == ContByte(v);
    ReassembleTwo(v);
  }

  lemma ReassembleTwo(v: bv16)
    requires v < 0x800
    ensures ((LeadTwo(v) as bv16 & 0x1F) << 6) | (ContByte(v) as bv16 & 0x3F) == v
  {
    assert (v & 0x7C0) | (v & 0x3F) == v;
  }

  lemma DecodeThree(v: bv16, rest: Str)
    ensures Decode(Join([LeadThree(v), ContByte(v >> 6), ContByte(v)], rest)) == (v, 3)
  {
    var s := Join([LeadThree(v), ContByte(v >> 6), ContByte(v)], rest);
    assert s[0] == LeadThree(v) && s[1] == ContByte(v >> 6) && s[2] == ContByte(v);
    ReassembleThree(v);
  }

  lemma ReassembleThree(v: bv16)
    ensures ((LeadThree(v) as bv16 & 0x0F) << 12) | ((ContByte(v >> 6) as bv16 & 0x3F) << 6) | (ContByte(v) as bv16 & 0x3F) == v
  {
    assert (v & 0xF000) | ((((v >> 6) & 0x3F)) << 6) | (v & 0x3F) == v;
  }

  /** A sequence of codepoints written out as one string. */
  function EncodeAll(cps: seq<Codepoint>): (s: Str)
    ensures |cps| <= |s| <= 3 * |cps|
    decreases |cps|
  {
    if |cps| == 0 then [] else Join(Encode(cps[0]), EncodeAll(cps[1..]))
  }

  /** Every sequence of 16-bit codepoints survives encoding and decoding. */
  lemma {:induction false} DecodeAllEncodeAll(cps: seq<Codepoint>)
    ensures DecodeAll(EncodeAll(cps)) == cps
    decreases |cps|
  {
    if |cps| > 0 {
      var e := Encode(cps[0]);
      var s := EncodeAll(cps);
      DecodeEncode(cps[0], EncodeAll(cps[1..]));
      assert s[|e|..] == EncodeAll(cps[1..]);
      DecodeAllEncodeAll(cps[1..]);
      assert DecodeAll(s) == [cps[0]] + DecodeAll(s[|e|..]);
    }
  }

  /** Decoding from a character boundary on: the codepoint there, then the rest. */
  lemma DecodeAllStep(s: Str, i: nat)
    requires i < |s|
    ensures DecodeAll(Suffix(s, i)) ==
      [Decode(Suffix(s, i)).0] + DecodeAll(Suffix(s, i + Decode(Suffix(s, i)).1))
  {
    var t := Suffix(s, i);
    assert Suffix(t, Decode(t).1) == Suffix(s, i + Decode(t).1);
  }

  lemma U16Step(a: int, b: int)
    ensures U16(U16(a) + b) == U16(a + b)
  {
    var q := (a - U16(a)) / 0x1_0000;
    assert a == U16(a) + q * 0x1_0000;
  }

  lemma U8Step(a: int, b: int)
    ensures U8(U8(a) + b) == U8(a + b)
  {
    var q := (a - U8(a)) / 0x100;
    assert a == U8(a) + q * 0x100;
  }

  /**
   ssd1306_calc_text_width: the 16-bit width grows by `font_width` for every
   decoded character, so it is the character count times the width, modulo
   2^16. A NULL string is 0 wide.
   */
  method CalcTextWidth(str: Option<Str>, fontWidth: u8) returns (width: u16)
    ensures str.None? ==> width == 0
    ensures str.Some? ==> width == U16(fontWidth * |DecodeAll(str.value)|)
  {
    width := 0;
    if str.None? {
      return;
    }
    width := SumWidths(str.value, fontWidth);
    WidthAfterIsProduct(fontWidth, |DecodeAll(str.value)|);
  }

  /**
   The loop of ssd1306_calc_text_width, which calls ssd1306_next_char until it
   returns NULL: one `font_width` per decoded character.
   */
  method SumWidths(s: Str, fontWidth: u8) returns (width: u16)
    ensures width == WidthAfter(fontWidth, |DecodeAll(s)|)
  {
    width := 0;
    var rest := s;
    ghost var count := 0;
    while |rest| > 0
      invariant |DecodeAll(s)| == count + |DecodeAll(rest)|
      invariant width == WidthAfter(fontWidth, count)
      decreases |rest|
    {
      var next := NextChar(Some(rest));
      rest := Suffix(rest, next.value.1);
      width := U16(width + fontWidth);
      count := count + 1;
    }
  }

  /** The 16-bit width after adding `fontWidth` count times, starting from 0. */
  function WidthAfter(fontWidth: u8, count: nat): u16
  {
    if count == 0 then 0 else U16(WidthAfter(fontWidth, count - 1) + fontWidth)
  }

  /** Adding the width count times is multiplying by count, modulo 2^16. */
  lemma {:induction false} WidthAfterIsProduct(fontWidth: u8, count: nat)
    ensures WidthAfter(fontWidth, count) == U16(fontWidth * count)
  {
    if count > 0 {
      var p := fontWidth * (count - 1);
      WidthAfterIsProduct(fontWidth, count - 1);
      U16Step(p, fontWidth);
      assert fontWidth * count == p + fontWidth;
    }
  }

  /**
   ssd1306_map_char_unicode: ASCII maps to itself, the Cyrillic block
   U+0410..U+044F to glyph indices 0xC0..0xFF in order, anything else to `'?'`.
   */
  function MapCharUnicode(cp: Codepoint): (g: u8)
    ensures cp as int < 128 ==> g == cp as int
    ensures 0x410 <= cp as int <= 0x44F ==> 0xC0 <= g && g - 0xC0 == cp as int - 0x410
    ensures !Mapped(cp as int) ==> g == QUESTION
  {
    var n := cp as int;
    if n < 128 then n
    else if 0x410 <= n <= 0x44F then 0xC0 + (n - 0x410)
    else QUESTION
  }

  /** The codepoints with a glyph of their own. */
  predicate Mapped(n: int)
  {
    0 <= n < 128 || 0x410 <= n <= 0x44F
  }

  /** The codepoint a glyph index stands for, when it stands for one. */
  function GlyphCodepoint(g: u8): (n: Option<int>)
  {
    if g < 128 then Some(g)
    else if g >= 0xC0 then Some(0x410 + (g - 0xC0))
    else None
  }

  /**
   On the two mapped ranges the glyph index gives the codepoint back, and every
   index that stands for a codepoint is the image of exactly that codepoint.
   */
  lemma MapCharRoundTrip(cp: Codepoint, g: u8)
    ensures Mapped(cp as int) ==> GlyphCodepoint(MapCharUnicode(cp)) == Some(cp as int)
    ensures GlyphCodepoint(g).Some? ==> Mapped(GlyphCodepoint(g).value)
  {
  }

  /** A glyph index that stands for a codepoint is that codepoint's glyph. */
  lemma GlyphCodepointMaps(g: u8, cp: Codepoint)
    requires GlyphCodepoint(g) == Some(cp as int)
    ensures MapCharUnicode(cp) == g
  {
  }

  /** No two mapped codepoints share a glyph. */
  lemma MapCharInjective(a: Codepoint, b: Codepoint)
    requires Mapped(a as int) && Mapped(b as int) && MapCharUnicode(a) == MapCharUnicode(b)
    ensures a as int == b as int
  {
    MapCharRoundTrip(a, 0);
    MapCharRoundTrip(b, 0);
  }

  /** SSD1306_Font_t: glyph size and the glyph table (`None` is a NULL table). */
  datatype Font = Font(width: u8, height: u8, data: Option<seq<byte>>)

  /** Glyph bytes per scan line: ceil(width / 8). */
  function BytesPerRow(f: Font): (n: nat)
    ensures n < 0x100 && 8 * n < f.width + 8 && f.width <= 8 * n
  {
    RowBytes(f.width)
  }

  /** Where glyph `ch`'s bitmap starts in the table; glyph 32 is the first. */
  function GlyphOffset(f: Font, ch: u8): nat
    requires ch >= 32
  {
    (ch - 32) * f.height * BytesPerRow(f)
  }

  /** The checks ssd1306_buffer_draw_char_font makes before it draws anything. */
  predicate Accepted(font: Option<Font>, ch: u8, x: u8, y: u8)
  {
    && font.Some? && font.value.data.Some?
    && ch >= 32
    && x + font.value.width <= W && y + font.value.height <= H
  }

  /** A glyph that is drawn lies inside the glyph table. */
  predicate GlyphReadable(font: Option<Font>, ch: u8, x: u8, y: u8)
  {
    Accepted(font, ch, x, y) ==>
      |font.value.data.value| >= GlyphOffset(font.value, ch) + font.value.height * BytesPerRow(font.value)
  }

  /** The cell a glyph occupies: whole bytes wide, so up to 7 columns wider than the font. */
  predicate InCell(f: Font, x: int, y: int, px: int, py: int)
  {
    InSpan(px, x, 8 * BytesPerRow(f)) && InSpan(py, y, f.height)
  }

  /**
   The bitmap of glyph `ch`: `height` scan lines of ceil(width / 8) bytes,
   most significant bit leftmost, starting `(ch - 32) * height * bytes_per_row`
   bytes into the table.
   */
  function GlyphBitmap(f: Font, ch: u8): (g: seq<byte>)
    requires f.data.Some? && ch >= 32
    requires |f.data.value| >= GlyphOffset(f, ch) + f.height * BytesPerRow(f)
    ensures |g| == f.height * BytesPerRow(f)
    ensures ImageFits(g, 8 * BytesPerRow(f), f.height)
  {
    f.data.value[GlyphOffset(f, ch)..GlyphOffset(f, ch) + f.height * BytesPerRow(f)]
  }

  /**
   ssd1306_buffer_draw_char_font. A NULL font or table, a control character
   or a glyph that does not fit entirely on the panel draws nothing and
   returns 0. Otherwise the character is returned and exactly its cell at
   (x, y) is drawn opaquely, background included: a pixel takes `color` where
   its glyph bit is set and the inverse colour where it is clear. Columns of
   the cell past the right edge are dropped by the pixel write. The cell's
   columns stay below 256, so the `uint8_t` coordinate casts do not wrap.
   */
  function DrawCharFont(c: Canvas, ch: u8, x: u8, y: u8, font: Option<Font>, color: Color): (r: (Canvas, u8))
    requires GlyphReadable(font, ch, x, y)
    ensures !Accepted(font, ch, x, y) ==> r == (c, 0)
    ensures Accepted(font, ch, x, y) ==> r.1 == ch && forall px, py | OnCanvas(px, py) ::
      if InCell(font.value, x, y, px, py) then
        var g := GlyphBitmap(font.value, ch);
        ImageIndexOk(g, 8 * BytesPerRow(font.value), px - x, py - y) &&
        Pixel(r.0, px, py) == ImageColor(g, 8 * BytesPerRow(font.value), px - x, py - y, color)
      else Pixel(r.0, px, py) == Pixel(c, px, py)
    ensures Tracks(c, r.0)
  {
    if !Accepted(font, ch, x, y) then
      TracksReflexive(c);
      (c, 0)
    else
      var f := font.value;
      var r := DrawBitmap(c, x, y, Some(GlyphBitmap(f, ch)), 8 * BytesPerRow(f), f.height, color);
      (r, ch)
  }

  /** One glyph of a laid-out string: its index and its left column. */
  datatype Glyph = Glyph(ch: u8, x: u8)

  /**
   Where ssd1306_buffer_draw_string_font puts each character: the k-th decoded
   codepoint, mapped to its glyph, at column `x + k * font.width` modulo 256
   (`CursorAtIsProduct`), because the cursor is a `uint8_t`.
   */
  function StringLayout(s: Str, x: u8, fontWidth: u8): (gs: seq<Glyph>)
    ensures |gs| == |DecodeAll(s)|
    ensures forall k | 0 <= k < |gs| ::
      gs[k] == Glyph(MapCharUnicode(DecodeAll(s)[k]), CursorAt(x, fontWidth, k))
  {
    LayoutOf(DecodeAll(s), x, fontWidth)
  }

  /** The glyphs of a codepoint sequence laid out from column x. */
  function LayoutOf(cps: seq<Codepoint>, x: u8, fontWidth: u8): seq<Glyph>
  {
    seq(|cps|, k requires 0 <= k < |cps| => Glyph(MapCharUnicode(cps[k]), CursorAt(x, fontWidth, k)))
  }

  lemma LayoutOfCons(cps: seq<Codepoint>, x: u8, fontWidth: u8)
    requires |cps| > 0
    ensures LayoutOf(cps, x, fontWidth) ==
      [Glyph(MapCharUnicode(cps[0]), x)] + LayoutOf(cps[1..], U8(x + fontWidth), fontWidth)
  {
    var a := LayoutOf(cps, x, fontWidth);
    var t := LayoutOf(cps[1..], U8(x + fontWidth), fontWidth);
    forall k | 1 <= k < |a|
      ensures a[k] == t[k - 1]
    {
      CursorAtShift(x, fontWidth, k - 1);
    }
    assert a == [Glyph(MapCharUnicode(cps[0]), x)] + t;
  }

  /** The cursor after k characters: `x = (uint8_t)(x + font->width)`, k times. */
  function CursorAt(x: u8, fontWidth: u8, k: nat): u8
  {
    if k == 0 then x else U8(CursorAt(x, fontWidth, k - 1) + fontWidth)
  }

  /** The cursor after k characters is x + k * width, modulo 256. */
  lemma {:induction false} CursorAtIsProduct(x: u8, fontWidth: u8, k: nat)
    ensures CursorAt(x, fontWidth, k) == U8(x + k * fontWidth)
  {
    if k > 0 {
      var p := (k - 1) * fontWidth;
      CursorAtIsProduct(x, fontWidth, k - 1);
      assert CursorAt(x, fontWidth, k) == U8(U8(x + p) + fontWidth);
      U8Step(x + p, fontWidth);
      assert k * fontWidth == p + fontWidth;
    }
  }

  /** k + 1 steps from x are k steps from the cursor after the first character. */
  lemma {:induction false} CursorAtShift(x: u8, fontWidth: u8, k: nat)
    ensures CursorAt(x, fontWidth, k + 1) == CursorAt(U8(x + fontWidth), fontWidth, k)
  {
    if k > 0 {
      CursorAtShift(x, fontWidth, k - 1);
    }
  }

  /** The layout of a non-empty string: its first glyph, then the layout of the rest. */
  lemma LayoutStep(s: Str, x: u8, fontWidth: u8)
    requires |s| > 0
    ensures StringLayout(s, x, fontWidth) ==
      [Glyph(MapCharUnicode(Decode(s).0), x)] + StringLayout(Suffix(s, Decode(s).1), U8(x + fontWidth), fontWidth)
  {
    DecodeAllCons(s);
    var cps := DecodeAll(s);
    assert cps[1..] == DecodeAll(Suffix(s, Decode(s).1));
    LayoutOfCons(cps, x, fontWidth);
  }

  lemma DecodeAllCons(s: Str)
    requires |s| > 0
    ensures DecodeAll(s) == [Decode(s).0] + DecodeAll(Suffix(s, Decode(s).1))
  {
  }

  /** Every glyph of a layout lies inside the glyph table. */
  predicate AllReadable(gs: seq<Glyph>, y: u8, font: Font)
  {
    forall k | 0 <= k < |gs| :: GlyphReadable(Some(font), gs[k].ch, gs[k].x, y)
  }

  /** Glyphs drawn one after another, each over the ones before. */
  function DrawGlyphs(c: Canvas, gs: seq<Glyph>, y: u8, font: Font, color: Color): (r: Canvas)
    requires AllReadable(gs, y, font)
    ensures Tracks(c, r)
    decreases |gs|
  {
    if |gs| == 0 then
      TracksReflexive(c);
      c
    else
      var c1 := DrawCharFont(c, gs[0].ch, gs[0].x, y, Some(font), color).0;
      var r := DrawGlyphs(c1, gs[1..], y, font, color);
      TracksTransitive(c, c1, r);
      r
  }

  /** Every glyph the loop meets, from cursor `cx` on, lies inside the glyph table. */
  predicate StringReadable(s: Str, cx: u8, y: u8, f: Font)
    decreases |s|
  {
    |s| == 0 ||
      (var d := Decode(s);
       GlyphReadable(Some(f), MapCharUnicode(d.0), cx, y) &&
       StringReadable(Suffix(s, d.1), U8(cx + f.width), y, f))
  }

  /**
   The loop of ssd1306_buffer_draw_string_font from `ptr` on: decode one
   character, draw its glyph at the cursor, advance the cursor by the font
   width, until ssd1306_next_char reaches the terminator.
   */
  function DrawChars(c: Canvas, s: Str, cx: u8, y: u8, f: Font, color: Color): (r: Canvas)
    requires StringReadable(s, cx, y, f)
    ensures Tracks(c, r)
    decreases |s|
  {
    if |s| == 0 then
      TracksReflexive(c);
      c
    else
      var d := Decode(s);
      var c1 := DrawCharFont(c, MapCharUnicode(d.0), cx, y, Some(f), color).0;
      var r := DrawChars(c1, Suffix(s, d.1), U8(cx + f.width), y, f, color);
      TracksTransitive(c, c1, r);
      r
  }

  /** A layout is readable when its first glyph is and the rest of it is. */
  lemma AllReadableCons(gs: seq<Glyph>, y: u8, f: Font)
    requires |gs| > 0
    ensures AllReadable(gs, y, f) <==>
      GlyphReadable(Some(f), gs[0].ch, gs[0].x, y) && AllReadable(gs[1..], y, f)
  {
    if GlyphReadable(Some(f), gs[0].ch, gs[0].x, y) && AllReadable(gs[1..], y, f) {
      forall k | 0 <= k < |gs|
        ensures GlyphReadable(Some(f), gs[k].ch, gs[k].x, y)
      {
        if k > 0 {
          assert gs[k] == gs[1..][k - 1];
        }
      }
    }
  }

  /** The loop reads the glyph table in bounds exactly when every glyph of the layout lies inside it. */
  lemma {:induction false} StringReadableIsLayout(s: Str, cx: u8, y: u8, f: Font)
    ensures StringReadable(s, cx, y, f) <==> AllReadable(StringLayout(s, cx, f.width), y, f)
    decreases |s|
  {
    if |s| > 0 {
      var d := Decode(s);
      var gs := StringLayout(s, cx, f.width);
      LayoutStep(s, cx, f.width);
      StringReadableIsLayout(Suffix(s, d.1), U8(cx + f.width), y, f);
      AllReadableCons(gs, y, f);
    }
  }

  /** The character-at-a-time loop draws exactly the glyphs of `StringLayout`, in order. */
  lemma {:induction false} DrawCharsDrawsLayout(c: Canvas, s: Str, cx: u8, y: u8, f: Font, color: Color)
    requires StringReadable(s, cx, y, f)
    ensures AllReadable(StringLayout(s, cx, f.width), y, f)
    ensures DrawChars(c, s, cx, y, f, color) == DrawGlyphs(c, StringLayout(s, cx, f.width), y, f, color)
    decreases |s|
  {
    StringReadableIsLayout(s, cx, y, f);
    if |s| > 0 {
      var d := Decode(s);
      var ch := MapCharUnicode(d.0);
      var gs := StringLayout(s, cx, f.width);
      LayoutStep(s, cx, f.width);
      var c1 := DrawCharFont(c, ch, cx, y, Some(f), color).0;
      DrawCharsDrawsLayout(c1, Suffix(s, d.1), U8(cx + f.width), y, f, color);
    }
  }

  /**
   ssd1306_buffer_draw_string_font. A NULL string or font draws nothing.
   Otherwise the string is decoded one character at a time and exactly the
   glyphs of `StringLayout` are drawn, in order; glyphs that are rejected still
   move the cursor.
   */
  function DrawStringFont(c: Canvas, str: Option<Str>, x: u8, y: u8, font: Option<Font>, color: Color): (r: Canvas)
    requires str.Some? && font.Some? ==> StringReadable(str.value, x, y, font.value)
    ensures str.None? || font.None? ==> r == c
    ensures str.Some? && font.Some? ==>
      var gs := StringLayout(str.value, x, font.value.width);
      AllReadable(gs, y, font.value) && r == DrawGlyphs(c, gs, y, font.value, color)
    ensures Tracks(c, r)
  {
    if str.None? || font.None? then
      TracksReflexive(c);
      c
    else
      DrawCharsDrawsLayout(c, str.value, x, y, font.value, color);
      DrawChars(c, str.value, x, y, font.value, color)
  }
}
