# SSD1306 framebuffer driver and UI widgets, modelled in Dafny

This project models the core of the akihora-ssd1306 driver for the 128x64
SSD1306 OLED controller.

The driver keeps a 1-bit page framebuffer in RAM. Pixel (x, y) is bit `y % 8`
of byte `x + (y / 8) * 128`. Next to the framebuffer it keeps a dirty map with
one bit per framebuffer byte. Every drawing routine goes through the pixel
writer, which touches a byte and sets its dirty bit only when the pixel
actually changes. A flush walks the dirty map and gathers consecutive dirty
bytes of one page into runs. For each run it sends a page command, a column
command and one data packet, and it clears the run's dirty bits.

What the model covers:

- **Canvas and dirty map.** `Framebuffer.DrawPixel` and `Framebuffer.Fill`, on
  a `Canvas` holding the framebuffer bytes and the dirty bytes.
- **Rasterizer.**
  - Filled and outlined rectangles and the bitmap blit.
  - Cohen–Sutherland clipping and Bresenham lines.
  - Midpoint circles, outlined and filled.
  - Outlined and filled triangles.
- **Text pipeline, with the UTF-8 character set.**
  - `ssd1306_next_char` decoding.
  - Mapping codepoints to glyph indices: ASCII plus the Cyrillic block.
  - Measuring text, and drawing glyphs and strings.
- **Transport.**
  - Command and data packets in the I2C framing.
  - The page and column commands.
  - `ssd1306_send_block`.
- **Flush engine.** `ssd1306_flush_dirty`, written as the C loops and proved
  equal to a reference scan `Flush.Runs` of the dirty map.
- **UI widgets.**
  - Header, scrollbar and menu.
  - Progress bar and its percentage label.
- **Utility macros.** `MIN`, `MAX`, `CLAMP`, `BOOL_XOR`, the region codes, the
  outcode and the swap.

C integer widths are written out:

- `CTypes.U8`, `U16`, `U32` and `I16` are the casts.
- `CTypes.CDiv` is C's truncating division.

A NULL pointer is `None`. A C string is the bytes before its terminating NUL
(`Text.Str`). `char` is unsigned, as on the ARM target.

Where the code as written does not do what its comments, declarations or names
promise, the model has both versions:

- **Flush and send_block.** A `Build` parameter selects `AsWritten` or
  `Corrected`.
- **Progress bar.** There are separate as-written and corrected fill functions.

The discrepancies are listed under Findings. The rest of the model uses the
corrected versions.

## Model

| member | source | states |
|---|---|---|
| Utils.Min | src/inc/ssd1306_utils.h:23 | the result is one of the arguments and is at most both |
| Utils.Max | src/inc/ssd1306_utils.h:24 | the result is one of the arguments and is at least both |
| Utils.Clamp | src/inc/ssd1306_utils.h:27-28 | with lo <= hi the result lies in [lo, hi]; it is v inside the range, lo below it and hi above it |
| Utils.BoolXor | src/inc/ssd1306_utils.h:34 | the result is 0 or 1, and it is 1 exactly when one argument is non-zero and the other is zero |
| Utils.RegionCodesDistinct | src/inc/ssd1306_utils.h:45-49 | INSIDE is 0; LEFT, RIGHT, BOTTOM and TOP are single bits, pairwise disjoint |
| Utils.OutCode | src/ssd1306_utils.c:21-39 | the code is 0 exactly on the panel; each side bit is set exactly when the point is beyond that edge; LEFT and RIGHT never occur together, nor do TOP and BOTTOM |
| Utils.SwapInt | src/ssd1306_utils.c:41-47 | the two values are exchanged |
| Geometry.GeometryFacts | src/inc/ssd1306_priv.h:33-61 | the buffer and dirty-map sizes equal their macro definitions for the 128x64 panel; one dirty bit per framebuffer byte |
| Geometry.BufIndex | src/ssd1306.c:137-138 | the byte of pixel (x, y) is inside the buffer, on page y / 8, at column x |
| Geometry.DirtyAddressIsLinear | src/ssd1306.c:145-146 | the driver's dirty address (page * WIDTH_BYTES + x / 8, bit x % 8) is bit page * W + x of the dirty map read as one bit string |
| Geometry.AddressingInjective | src/ssd1306.c:137-139 | two pixels with the same byte and bit are the same pixel |
| Geometry.AddressingSurjective | src/ssd1306.c:137-139 | every (byte, bit) pair of the buffer is the address of some pixel |
| Bits.SetBit | src/ssd1306.c:149 | `b \| (1 << i)` sets bit i and keeps every other bit |
| Bits.ClearBit | src/ssd1306.c:151 | `b & ~(1 << i)` clears bit i and keeps every other bit |
| Bits.BitsDetermineByte | src/ssd1306.c:139 | two bytes with the same eight bits are equal |
| Bits.AllClearIsZero | src/ssd1306.c:619 | a byte string with no set bit is all zero bytes |
| Bits.ClearBitAt | src/ssd1306_priv.c:86-100 | clearing bit k of a byte string clears exactly that bit |
| Framebuffer.Inverse | src/ssd1306.c:199 | the inverse colour differs from the colour |
| Framebuffer.SamePixelsSameBuffer | src/ssd1306.c:137-139 | canvases with the same pixels have the same framebuffer |
| Framebuffer.TracksTransitive | src/ssd1306.c:141-153 | the "every change is marked dirty" relation composes over successive drawings |
| Framebuffer.DrawPixel | src/ssd1306.c:126-154 | off-panel writes change nothing; otherwise the pixel takes the colour and no other pixel changes; the dirty bit of its byte is set exactly when the pixel changes; a pixel that already has the colour leaves the canvas as it was |
| Framebuffer.ClearOrSet | src/ssd1306.c:146-152 | forcing one bit of one byte changes only that bit |
| Framebuffer.Fill | src/ssd1306.c:251-254 | every byte is 0x00 for black or 0xFF for white, every pixel has the colour, and every dirty bit is set |
| Paint.Plot | src/ssd1306.c:403-410 | an off-panel position is skipped; an on-panel one takes the colour and nothing else changes |
| Paint.PaintRow | src/ssd1306.c:406-411 | exactly the on-panel pixels of the row span take their ink colour |
| Paint.PaintBox | src/ssd1306.c:402-412 | exactly the on-panel pixels of the box take their ink colour |
| Raster.FillRectXY | src/ssd1306.c:388-413 | with the corners in either order, exactly the on-panel pixels of the closed rectangle take the colour; every change is marked dirty |
| Raster.FillRectXYCornerOrder | src/ssd1306.c:395-400 | swapping the corners, or only their x coordinates, gives the same result |
| Raster.FillRect | src/ssd1306.c:415-429 | a non-positive width or height draws nothing; otherwise the rectangle to the `int16_t` far corner is filled, which is the box x .. x+w-1, y .. y+h-1 when that corner does not wrap |
| Raster.CounterLoopExitsBelowTop | src/ssd1306.c:402 | with y1 below 32767 the 16-bit row loop exits within y1 - y + 1 rounds |
| Raster.CounterLoopNeverExits | src/ssd1306.c:402 | with y1 = 32767 the 16-bit row loop never exits, however many rounds are allowed |
| Raster.RowBytes | src/ssd1306.c:508 | a scan line takes ceil(width / 8) bytes: at least width bits and fewer than width + 8 |
| Raster.ImageIndexInRange | src/ssd1306.c:518 | every image pixel of a width x height image lies inside height * ceil(width / 8) bytes |
| Raster.DrawBitmap | src/ssd1306.c:489-524 | a NULL image or a non-positive size draws nothing; otherwise every on-panel pixel of the box is drawn from image bit `7 - i % 8` of byte `j * rowBytes + i / 8`, opaquely with the inverse colour for clear bits, and nothing outside the box changes |
| Lines.InterpolateBetween | src/ssd1306.c:297-307 | the clipping step `a + (b - a) * p / q`, with p / q in [0, 1], lands between a and b under truncating division |
| Lines.CDivMagnitude | src/ssd1306.c:297-307 | C's truncating quotient is the quotient of the magnitudes, negated when the signs differ |
| Lines.ProductFitsInt | src/ssd1306.c:297-307 | the clipping products of 16-bit differences fit a 32-bit `int` |
| Lines.ClipPoint | src/ssd1306.c:294-309 | the moved end point lies on the edge its region code names, checked in the order TOP, BOTTOM, RIGHT, LEFT, and inside the segment's bounding box; the coordinate a horizontal or vertical segment does not vary is kept |
| Lines.ClipStepFirst | src/ssd1306.c:311-314 | moving the first end point keeps the clipping facts and strictly shortens the segment |
| Lines.ClipStepSecond | src/ssd1306.c:315-318 | moving the second end point keeps the clipping facts and strictly shortens the segment |
| Lines.ClipExit | src/ssd1306.c:285-292 | on acceptance, an axis-parallel segment is one that crosses the panel and is clamped to it; on rejection, neither end point is on the panel |
| Lines.ClipLoop | src/ssd1306.c:285-321 | the loop ends in acceptance (both codes 0) or rejection (a shared code bit), keeping the clipping facts |
| Lines.ClipLine | src/ssd1306.c:281-325 | the clip result: a segment beyond one edge is rejected; end points on the panel are kept; accepted end points are on the panel and inside the original bounding box; an axis-parallel segment is accepted exactly when it crosses the panel, and is clamped |
| Lines.DrawPath | src/ssd1306.c:334-335 | exactly the on-panel points of the path take the colour |
| Lines.AtEnd | src/ssd1306.c:336-338 | the loop stops at (x1, y1) exactly when every x step and every y step has been taken |
| Lines.AdvanceOk | src/ssd1306.c:339-347 | a round keeps the cursor between the end points and takes an x step, a y step or both |
| Lines.ErrorStep | src/ssd1306.c:339-347 | `2 * err` and the updated error terms fit `int16_t`, at least one step is taken, and the error keeps its closed form |
| Lines.Trace | src/ssd1306.c:334-348 | the drawn points start at the cursor and end at (x1, y1), with at most one point per remaining step |
| Lines.TraceInBox | src/ssd1306.c:334-348 | every drawn point lies in the segment's bounding box |
| Lines.TraceConnected | src/ssd1306.c:334-348 | consecutive drawn points are distinct 8-neighbours |
| Lines.TraceCoversRow | src/ssd1306.c:334-348 | on a horizontal segment every column between the end points is drawn |
| Lines.TraceCoversColumn | src/ssd1306.c:334-348 | on a vertical segment every row between the end points is drawn |
| Lines.Bresenham | src/ssd1306.c:327-348 | the path runs from (x0, y0) to (x1, y1), each step to a neighbouring pixel of the bounding box, and covers every pixel of a horizontal or vertical segment |
| Lines.DrawLine | src/ssd1306.c:270-349 | a segment clipping rejects draws nothing; an accepted one draws exactly the points of a connected path from the first clipped end point to the second, inside their box, so both clipped end points and the path are visible; end points on the panel are drawn; every changed pixel has the colour and lies in the bounding box; an axis-parallel segment draws exactly its on-panel pixels |
| Lines.DrawClipped | src/ssd1306.c:327-349 | from accepted clipped end points: exactly the points of a connected path between them, inside their box, are drawn, and an axis-parallel segment draws exactly its on-panel pixels |
| Lines.ClippedPathDrawn | src/ssd1306.c:327-349 | drawing a connected path between clipped end points colours both of them and the whole path, and changes only pixels of the original box |
| Lines.VisibleKept | src/ssd1306.c:526-536 | a later drawing step that only turns pixels to the colour keeps an already visible segment visible |
| Lines.RowDrawn | src/ssd1306.c:270-349 | a path along one row that covers the clamped span and stays inside it colours exactly the on-panel pixels of the span |
| Lines.ColumnDrawn | src/ssd1306.c:270-349 | the same for a path along one column |
| Outline.DrawRectXY | src/ssd1306.c:351-370 | exactly the on-panel pixels of the rectangle's border take the colour |
| Outline.AxisLine | src/ssd1306.c:366-369 | a horizontal or vertical side draws exactly its on-panel pixels |
| Outline.DrawRect | src/ssd1306.c:372-386 | a non-positive size draws nothing; otherwise exactly the border to the `int16_t` far corner is drawn, and every pixel it changes is one the filled rectangle also sets |
| Outline.DrawTriangle | src/ssd1306.c:526-536 | each of the three sides is visible: when clipping accepts it, its clipped end points and a connected path between them have the colour; the vertices on the panel are drawn, and every changed pixel has the colour and lies in the bounding box of one of the three sides |
| Triangles.SwapIfBelow | src/ssd1306.c:553 | the pair comes out ordered by y and is the input or the input swapped; an ordered pair is kept |
| Triangles.SortByY | src/ssd1306.c:552-555 | the three swaps give the vertices ordered by y, as a permutation of the input; ordered input is kept |
| Triangles.RowsAreConsecutive | src/ssd1306.c:559-565 | the `segment_height == 0` skip never fires: from round i on, the rows y0 + i .. y2 - 1 are drawn in order |
| Triangles.FillTriangleRows | src/ssd1306.c:557-579 | the rows drawn are every row from the top vertex down to, not including, the bottom one |
| Triangles.SortedEnds | src/ssd1306.c:552-557 | after sorting, the first height is the least and the last the greatest |
| Triangles.FillTriangle | src/ssd1306.c:538-580 | every changed pixel has the colour and lies on one of those rows; a flat triangle draws nothing |
| Circles.Reflect | src/ssd1306.c:440-447 | each of the eight reflections stays within the octant point's larger coordinate on both axes |
| Circles.ReflectionsClosed | src/ssd1306.c:440-447 | the eight reflections are closed under mirroring in either axis and in the diagonal |
| Circles.NextRound | src/ssd1306.c:449-455 | x goes up by one and y stays or goes down by one |
| Circles.Arc | src/ssd1306.c:435-456 | the octant points start at (x, y), advance one column per round with y staying or dropping by one, and keep x <= y; there are none once y < x |
| Circles.Octet | src/ssd1306.c:440-447 | one round draws the eight wrapped reflections in the C's order |
| Circles.OutlineHas | src/ssd1306.c:439-456 | every reflection of every arc point is drawn |
| Circles.OutlineOnlyHas | src/ssd1306.c:439-456 | every drawn pixel is a reflection of an arc point |
| Circles.DrawCircle | src/ssd1306.c:431-457 | exactly the wrapped reflections of the arc from (0, r) are drawn; a negative radius draws nothing; radius 0 draws the centre alone; the four axis points are drawn; without wrap-around every change lies in the square of side 2r + 1 |
| Circles.AxisPoints | src/ssd1306.c:440-447 | the first round draws the four points at distance r on the axes |
| Circles.CentreOnly | src/ssd1306.c:435-447 | radius 0 draws exactly the centre |
| Circles.OutlineInBox | src/ssd1306.c:439-456 | without wrap-around the outline stays in the square around the centre |
| Circles.SpanHas | src/ssd1306.c:470-477 | a fill span draws every column of its range on both of its rows |
| Circles.RoundHas | src/ssd1306.c:470-477 | one fill round draws its four spans in full |
| Circles.DiscHas | src/ssd1306.c:468-486 | for each octant point of the arc, the fill draws that round's four spans |
| Circles.FillCircle | src/ssd1306.c:459-487 | exactly the span pixels are drawn; a negative radius draws nothing; without left wrap the whole centre row xc - r .. xc + r is drawn |
| Circles.CentreRow | src/ssd1306.c:468-477 | the first fill round covers the centre row from xc - r to xc + r |
| Circles.OutlineWithinFill | src/ssd1306.c:431-487 | every pixel the outlined circle changes is set by the filled circle of the same centre and radius |
| Circles.ReflectionInRound | src/ssd1306.c:440-447 | each reflection of (x, y) lies on one of the fill spans of the same round |
| Text.TwoByteValue | src/ssd1306_priv.c:127 | the shifts and masks of a two-byte sequence are 5 payload bits times 64 plus 6 |
| Text.ThreeByteValue | src/ssd1306_priv.c:133-135 | the shifts and masks of a three-byte sequence are 4 + 6 + 6 payload bits |
| Text.ThreeByteShifts | src/ssd1306_priv.c:133-135 | the same value, stated on the shift and mask expression the decoder writes |
| Text.Decode | src/ssd1306_priv.c:121-138 | 1 to 3 bytes are consumed, all of them inside the string |
| Text.DecodeAscii | src/ssd1306_priv.c:124-125 | an ASCII byte decodes to itself, one byte long |
| Text.DecodeTwoBytes | src/ssd1306_priv.c:126-127 | a 110xxxxx lead with a continuation gives its 11 payload bits, two bytes long |
| Text.DecodeThreeBytes | src/ssd1306_priv.c:128-135 | a 1110xxxx lead with two continuations gives its 16 payload bits, three bytes long |
| Text.DecodeInvalid | src/ssd1306_priv.c:136-137 | any other lead, including one cut short by the NUL, gives `'?'` and consumes one byte |
| Text.NextChar | src/ssd1306_priv.c:109-138 | NULL or empty input gives NULL; otherwise the decoded codepoint and a step of at least one byte |
| Text.DecodeAll | src/ssd1306_priv.c:166 | a string of n bytes decodes to between n / 3 and n codepoints |
| Text.Encode | src/ssd1306_priv.c:121-138 | the UTF-8 form of a 16-bit codepoint is 1 to 3 bytes with no NUL |
| Text.DecodeEncode | src/ssd1306_priv.c:121-138 | decoding an encoded codepoint gives it back and consumes exactly its bytes |
| Text.DecodeAllEncodeAll | src/ssd1306_priv.c:109-160 | every sequence of 16-bit codepoints survives encoding and decoding |
| Text.DecodeAllStep | src/ssd1306_priv.c:166 | decoding from a character boundary is the codepoint there, then the rest |
| Text.CalcTextWidth | src/ssd1306_priv.c:162-172 | a NULL string is 0 wide; otherwise the width is the character count times the font width, modulo 2^16 |
| Text.SumWidths | src/ssd1306_priv.c:166-169 | the loop over the string adds the font width once for each decoded character |
| Text.WidthAfterIsProduct | src/ssd1306_priv.c:162-172 | adding the font width to a 16-bit total count times gives count times the width, modulo 2^16 |
| Text.MapCharUnicode | src/ssd1306_priv.c:174-186 | ASCII maps to itself, U+0410..U+044F maps in order onto 0xC0..0xFF, anything else to `'?'` |
| Text.MapCharRoundTrip | src/ssd1306_priv.c:177-186 | on the mapped ranges the glyph index gives the codepoint back, and every index that stands for a codepoint stands for a mapped one |
| Text.GlyphCodepointMaps | src/ssd1306_priv.c:177-186 | a glyph index that stands for a codepoint is that codepoint's glyph |
| Text.MapCharInjective | src/ssd1306_priv.c:177-186 | no two mapped codepoints share a glyph |
| Text.BytesPerRow | src/ssd1306.c:180 | a glyph scan line takes ceil(width / 8) bytes, fewer than 256 |
| Text.GlyphBitmap | src/ssd1306.c:181 | a glyph's bitmap is height scan lines of ceil(width / 8) bytes |
| Text.DrawCharFont | src/ssd1306.c:160-206 | a NULL font or table, a control character or a glyph that does not fit draws nothing and returns 0; otherwise the character is returned and exactly its cell is drawn opaquely from the glyph bits |
| Text.StringLayout | src/ssd1306.c:231-241 | the k-th decoded codepoint's glyph goes at column CursorAt(x, width, k) |
| Text.CursorAtIsProduct | src/ssd1306.c:240 | the `uint8_t` cursor after k characters is x + k * width modulo 256 |
| Text.CursorAtShift | src/ssd1306.c:240 | k + 1 steps from x are k steps from the cursor after the first character |
| Text.LayoutStep | src/ssd1306.c:231-241 | the layout of a string is its first glyph, then the layout of the rest from the next cursor |
| Text.LayoutOfCons | src/ssd1306.c:231-241 | laying out codepoints puts the first glyph at x, then the rest from x plus the glyph width, wrapped to 8 bits |
| Text.AllReadableCons | src/ssd1306.c:190 | a layout is readable exactly when its first glyph and the rest are |
| Text.StringReadableIsLayout | src/ssd1306.c:231-241 | the loop reads the glyph table in bounds exactly when every glyph of the layout lies inside it |
| Text.DrawCharsDrawsLayout | src/ssd1306.c:231-241 | the character-at-a-time loop draws exactly the glyphs of the layout, in order |
| Text.DrawStringFont | src/ssd1306.c:215-242 | a NULL string or font draws nothing; otherwise exactly the glyphs of the layout are drawn in order, and rejected glyphs still move the cursor |
| Transport.WriteCommand | src/ssd1306_priv.c:25-32 | the controller reads the packet as exactly this command |
| Transport.WriteData | src/ssd1306_priv.c:39-54 | one data packet with the first min(size, 128) bytes of the buffer |
| Transport.SetPage | src/ssd1306_priv.c:56-60 | one command that selects page (page + PAGE_OFFSET) mod 8; for a panel page, exactly that page |
| Transport.NibblesReassemble | src/ssd1306_priv.c:62-67 | the two column commands are low- and high-nibble commands that put the column byte back together |
| Transport.SetColumn | src/ssd1306_priv.c:62-67 | two commands whose nibbles, put together, are the column plus X_OFFSET modulo 256 |
| Transport.KeepFromBits | src/ssd1306_priv.c:88 | `(uint8_t)(0xFF << s)` has exactly the bits from s upwards |
| Transport.BlockLength | src/ssd1306_priv.c:80 | the sent length is the run cut at the right edge of the panel |
| Transport.MaskByte | src/ssd1306_priv.c:88 | the masking step clears exactly the bits of one byte below s |
| Transport.ZeroBytes | src/ssd1306_priv.c:92-94 | the loop zeroes exactly `count` bytes from `from` on |
| Transport.ClearAsWritten | src/ssd1306_priv.c:86-100 | the three clearing steps as written clear exactly the bits `AsWrittenClears` names |
| Transport.ClearRun | src/inc/ssd1306_priv.h:105 | the intended clearing removes exactly dirty bits lo .. hi - 1 |
| Transport.BlockPacket | src/ssd1306_priv.c:81-84 | the data packet is the framebuffer bytes of the run's columns on its page |
| Transport.SendBlock | src/ssd1306_priv.c:73-103 | the packet is the run's bytes cut at the right edge; `cursor_x` ends just past the run; the corrected build clears exactly the dirty bits of the columns sent |
| Transport.AlignedClearsExactly | src/ssd1306_priv.c:86-100 | for a run starting on a dirty-byte boundary the code as written clears exactly the run |
| Transport.AsWrittenClearsLeftOfEnd | src/ssd1306_priv.c:86-100 | every bit the code as written clears lies in the page, left of the run's end |
| Transport.SendBlockClearsOnlyBehind | src/ssd1306_priv.c:73-103 | both builds only clear bits and keep every bit outside the page or past the run; with x a multiple of 8 the two builds agree |
| Transport.AsWrittenLeavesRunDirty | src/ssd1306_priv.c:87-100 | with x = 3, n = 5 columns 3..7 stay dirty and 0..2 are cleared; with x = 5, n = 5 columns 8 and 9 stay dirty; the corrected build clears columns 3..7 |
| Flush.Flags | src/ssd1306.c:587-595 | the dirty map read as one flag per framebuffer byte |
| Flush.RunFrom | src/ssd1306.c:622-637 | the run from bit s to bit k starts at s and ends at k |
| Flush.NotCoveredBelow | src/ssd1306.c:586-682 | runs that all start after bit k do not cover it |
| Flush.CoveredCons | src/ssd1306.c:586-682 | bit k is covered by r followed by runs exactly when r or one of the runs holds it |
| Flush.PendingRunSound | src/ssd1306.c:641-645 | a pending run ended at bit k is sendable and holds only dirty bits |
| Flush.ScanSound | src/ssd1306.c:605-680 | every run of the scan is sendable, holds only dirty bits and lies at or after where the scan started |
| Flush.CompleteAtPageEnd | src/ssd1306.c:662-667 | a run ended by the end of a page, then the next page's runs, cover exactly the expected bits |
| Flush.CompleteAtCleanBit | src/ssd1306.c:639-645 | a run ended by a clean bit, then the runs after it, cover exactly the expected bits |
| Flush.ScanComplete | src/ssd1306.c:605-680 | the runs from a reachable state cover exactly the expected bits from there on |
| Flush.NotCoveredBelowScan | src/ssd1306.c:605-680 | a scan from bit k covers nothing below k |
| Flush.DirtyExtends | src/ssd1306.c:631-638 | a dirty bit inside a page extends the pending run |
| Flush.DirtyRunExtends | src/ssd1306.c:631-638 | n dirty bits in a row inside a page extend the pending run |
| Flush.InsideByte | src/ssd1306.c:608-611 | only the first bit of a dirty byte can begin a page |
| Flush.ScanEightDirty | src/ssd1306.c:619-627 | eight dirty bits from a byte boundary extend the pending run or start one |
| Flush.ByteSplit | src/ssd1306.c:611 | bit i of dirty byte q is bit 8q + i of the map, on page q / 16 |
| Flush.DirtyStep | src/ssd1306.c:631-638 | a dirty bit extends the run, or starts one at its column |
| Flush.CleanStep | src/ssd1306.c:639-647 | a clean bit with no run pending moves on |
| Flush.CleanEndsRun | src/ssd1306.c:639-645 | a clean bit ends the pending run, whose bits are all dirty; the scan goes on one bit later if the bound lets it |
| Flush.StepBit | src/ssd1306.c:631-647 | one round of the `for` body takes exactly the step of the reference scan; `batch_found` is set exactly by a clean bit ending a run |
| Flush.ScanBits | src/ssd1306.c:630-655 | the `for` loop stops at the next byte boundary or one past the clean bit that ends a run, having taken the scan's steps up to there |
| Flush.FullByteAhead | src/ssd1306.c:619-627 | a live byte of 0xFF is met only on a byte boundary, and its eight bits are dirty in the starting map |
| Flush.LiveByte | src/ssd1306.c:617 | the bits of the live byte from bit b on are those of the starting map |
| Flush.EightStep | src/ssd1306.c:619-627 | the 0xFF branch takes eight steps of the reference scan at once |
| Flush.PageEnd | src/ssd1306.c:662-667 | at a page end a pending run is complete, and the next page is scanned if the bound lets the loop go on |
| Flush.DirtyRound | src/ssd1306.c:611-660 | one round of the inner loop reads the live dirty byte and takes exactly the scan's steps up to where it stops |
| Flush.ScanPage | src/ssd1306.c:607-667 | the inner loop finds the next run of the reference scan, or none, and leaves the rest of the scan from where it stops |
| Flush.SendRun | src/ssd1306.c:669-674 | sending a run only clears bits, keeps every bit past the run, and with the corrected build clears exactly the run |
| Flush.ApplyRuns | src/ssd1306.c:605-680 | sending runs in order only clears bits, and with the corrected build clears exactly the covered bits |
| Flush.ApplyRunsSnoc | src/ssd1306.c:605-680 | sending one more run applies it to the map the earlier runs left |
| Flush.ApplyRunsKeepsAhead | src/ssd1306.c:605-680 | a bit at or past the end of every run keeps its state, in either build |
| Flush.RunPackets | src/ssd1306.c:669-674 | one run puts four packets on the bus |
| Flush.RunPacketsReadBack | src/ssd1306.c:669-674 | the controller reads a run's packets as its page, its column and exactly its framebuffer bytes |
| Flush.RunCommandsReadBack | src/ssd1306_priv.c:56-67 | the page and column commands of a run read back as its page and its column |
| Flush.RunDataReadBack | src/ssd1306_priv.c:81-84 | the data packet of a run reads back as exactly its framebuffer bytes |
| Flush.FlattenSnoc | src/ssd1306.c:669-674 | the packet groups of one more run follow the earlier ones |
| Flush.FlushLogSnoc | src/ssd1306.c:669-674 | the log of one more run is the earlier log followed by that run's packets |
| Flush.BlocksOf | src/ssd1306.c:669-674 | one block per run |
| Flush.ReadFlattened | src/ssd1306.c:669-674 | groups of four packets that each read as a block read back, as a whole, as those blocks in order |
| Flush.FlushLogReadsBack | src/ssd1306.c:586-682 | the controller reads a flush log back as exactly one block per run, in order |
| Flush.SendKeepsAgreement | src/ssd1306_priv.c:86-100 | sending a run that ends at or behind the scan position keeps the live map in step with the starting one |
| Flush.SendStep | src/ssd1306.c:669-678 | a round that sends the next run keeps the outer loop's invariant |
| Flush.SkipStep | src/ssd1306.c:676-680 | a round that finds no run keeps the outer loop's invariant |
| Flush.FlushRound | src/ssd1306.c:605-680 | one round of the outer loop moves forward and keeps its invariant |
| Flush.FlushDirty | src/ssd1306.c:586-682 | before init nothing is sent; otherwise the log is exactly the packets of the reference runs of the starting map, the dirty map ends as those runs leave it, the corrected build leaves every dirty byte 0, and a clean map sends nothing |
| Flush.RunsAreDirty | src/ssd1306.c:605-680 | every run sent is sendable as it is and consists of dirty bits only |
| Flush.RunsCoverDirty | src/ssd1306.c:605-680 | a bit is in a run exactly when it is dirty and not the missed one; with the corrected bound, exactly when it is dirty |
| Flush.CleanMapSendsNothing | src/ssd1306.c:605-680 | a clean map gives no runs |
| Flush.ScanClean | src/ssd1306.c:605-680 | with no run pending and no dirty bit from k on, the scan finds no run |
| Flush.CoveredByRun | src/ssd1306.c:605-680 | a bit held by one of the runs is covered |
| Flush.CorrectedFlushCleansMap | src/ssd1306.c:680 | with the corrected bound the flush leaves every dirty byte 0 |
| Flush.AsWrittenMissesLastBit | src/ssd1306.c:680 | with the last dirty byte 0xA0, no run holds bit 1023 under the bound as written and it stays dirty; the corrected bound sends it |
| Widgets.U8OfU16 | src/ssd1306_ui.c:47 | storing the 16-bit width in a `uint8_t` field is a cast modulo 256 |
| Widgets.U8Twice | src/ssd1306_ui.c:48-53 | wrapping twice, with an addition between, is wrapping once |
| Widgets.StyleExtra | src/ssd1306_ui.c:50-54 | a line takes 2 rows, a double line 4 |
| Widgets.HeaderInit | src/ssd1306_ui.c:32-57 | the arguments are stored; no text gives size 0 x 0; otherwise the width is characters times glyph width and the height is paddings plus glyph height plus the lines' rows, both modulo 256 |
| Widgets.CenterX | src/ssd1306_ui.c:71 | the left and right gaps around the centred text differ by at most one pixel, and narrower text starts on the canvas |
| Widgets.HeaderX | src/ssd1306_ui.c:70-76 | left-aligned text starts at the left padding, centred text has balanced gaps, and right-aligned text ends at the right padding |
| Widgets.HeaderLineRows | src/ssd1306_ui.c:86-105 | a header without text draws no line; otherwise one line for LINE and two for DOUBLE_LINE |
| Widgets.HeaderHoldsItsLines | src/ssd1306_ui.c:48-53 | a header's lines lie below its text and above its recorded height |
| Widgets.ScrollbarInit | src/ssd1306_ui.c:114-135 | the arguments are stored and the bar starts enabled |
| Widgets.ScrollbarInitWindow | src/ssd1306_ui.c:114-135 | a bar made with its window inside the list keeps the window inside the list under scrolling |
| Widgets.ScrollbarScrollUp | src/ssd1306_ui.c:473-481 | an enabled bar moves up one item unless at the top; a disabled one is left alone; nothing else changes; the window stays in the list |
| Widgets.ScrollbarScrollDown | src/ssd1306_ui.c:483-491 | an enabled bar moves down one item exactly while its window ends before the list does; nothing else changes; the window stays in the list |
| Widgets.SliderAlong | src/ssd1306_ui.c:188-195 | the slider is at least its minimum size |
| Widgets.DrawnSlider | src/ssd1306_ui.c:144-253 | a slider is drawn exactly when the bar is enabled and has a size, and it is at least 4 long vertically or 2 horizontally |
| Widgets.ShareBound | src/ssd1306_ui.c:190-195 | a share of at most the whole is at most the track; nothing's share is 0 and the whole's is the track |
| Widgets.ShareMonotone | src/ssd1306_ui.c:194-195 | a larger offset has a larger share |
| Widgets.ShareSum | src/ssd1306_ui.c:190-195 | the shares of a window and of what is before it add up to at most the track, and to within one of it when they make up the list |
| Widgets.SliderExact | src/ssd1306_ui.c:188-195 | on a track inside the coordinate range the slider starts 7 pixels in plus the offset's share |
| Widgets.SliderInsideTrack | src/ssd1306_ui.c:188-202 | before the minimum-size adjustment the slider lies between the arrows, touches the top one at offset 0 and ends within a pixel of the bottom one at the last offset |
| Widgets.SliderMonotone | src/ssd1306_ui.c:194-195 | the slider moves down (or right) as the offset grows |
| Widgets.ProgressbarInit | src/ssd1306_ui.c:535-554 | the arguments are stored and progress starts at 0 |
| Widgets.ProgressbarSet | src/ssd1306_ui.c:635-645 | a NULL bar is left alone; otherwise the progress becomes the value clamped to 100 and nothing else changes |
| Widgets.ProgressbarSetLastWins | src/ssd1306_ui.c:635-645 | setting twice is setting the second value once, and setting a value again changes nothing |
| Widgets.InnerSpan | src/ssd1306_ui.c:590-594 | the room inside the border leaves the inset on both sides, and fills the box exactly when the box is wide enough |
| Widgets.FillWidth | src/ssd1306_ui.c:593 | the fill is at most the inner room, 0 at 0% and all of it at 100% |
| Widgets.FillWidthMonotone | src/ssd1306_ui.c:593 | more progress never fills less |
| Widgets.FillHeight | src/ssd1306_ui.c:594 | the fill height is the inner room |
| Widgets.FillAsWrittenAgrees | src/ssd1306_ui.c:593-594 | on a bar with room inside its border the code as written computes the corrected fill |
| Widgets.ProductFits | src/ssd1306_ui.c:593 | the fill product stays below 2^32 |
| Widgets.NarrowBarOverfills | src/ssd1306_ui.c:593-594 | a 1 x 1 bar at 50% fills 40 columns and 255 rows as written, and nothing when corrected |
| Widgets.ProgressFill | src/ssd1306_ui.c:576-596 | no fill is drawn exactly when the bordered box has no width or no height |
| Widgets.FillInsideBox | src/ssd1306_ui.c:576-596 | the fill is empty or lies inside the border and the inner gap |
| Widgets.LabelAt | src/ssd1306_ui.c:599-613 | no label sits at (0, 0); otherwise the label is 3 columns right of the box and vertically centred, or one row below it and horizontally centred, each within one pixel |
| Widgets.DigitValue | src/ssd1306_ui.c:664-669 | a digit character's value is below 10 |
| Widgets.DigitCharFacts | src/ssd1306_ui.c:664-669 | `'0' + d` is never the NUL, is a digit exactly when d < 10, and has value d |
| Widgets.PercentToStr | src/ssd1306_ui.c:652-674 | the label is 2 to 4 characters ending in `'%'`, and with its NUL takes at most 5 of the 6 bytes of the buffer |
| Widgets.PercentRoundTrip | src/ssd1306_ui.c:652-674 | for 0..100 the label reads back as the value: its decimal digits without leading zeros, then `'%'` |
| Widgets.PercentHundred | src/ssd1306_ui.c:653-658 | 100 is written "100%" |
| Widgets.PercentTwoDigits | src/ssd1306_ui.c:660-667 | 10..99 are written as two digits and `'%'` |
| Widgets.PercentOneDigit | src/ssd1306_ui.c:668-671 | 0..9 are written as one digit and `'%'` |
| Widgets.ParseOne | src/ssd1306_ui.c:668-671 | a digit and `'%'` read as that digit's value |
| Widgets.ParseTwo | src/ssd1306_ui.c:663-667 | two digits, the first not 0, and `'%'` read as their decimal value |
| Widgets.ParseThree | src/ssd1306_ui.c:653-658 | three digits, the first not 0, and `'%'` read as their decimal value |
| Widgets.DigitsValue1 | src/ssd1306_ui.c:669 | the value of one digit |
| Widgets.DigitsValue2 | src/ssd1306_ui.c:664-665 | the value of two digits |
| Widgets.DigitsValue3 | src/ssd1306_ui.c:654-656 | the value of three digits |
| Widgets.PercentAboveHundred | src/ssd1306_ui.c:660-665 | above 100 the first character is past `'9'`, so the label does not read as a number |
| Menus.MenuInit | src/ssd1306_ui.c:324-395 | the menu starts on its first item with the window at the top; maxVisible is the number of whole lines that fit the available height; the scrollbar is enabled exactly when the items do not all fit, and is then placed at the right padding (the left one for right-aligned text), starts below the header and spans the visible lines; otherwise it is all zeros; the result is consistent |
| Menus.MaxVisibleFits | src/ssd1306_ui.c:355 | available / lineHeight fits a `uint8_t` and is the number of whole lines that fit |
| Menus.MenuScrollUp | src/ssd1306_ui.c:493-510 | the selection moves up one item unless it is first; the window follows when the selection leaves it; nothing else changes; consistency is kept |
| Menus.MenuScrollDown | src/ssd1306_ui.c:512-529 | the selection moves down one item unless it is last; the window moves just far enough to show it; nothing else changes; consistency is kept |
| Menus.ScrollDownTimesReaches | src/ssd1306_ui.c:512-529 | k scrolls down select k items further on, stopping at the last, and the window moves only as far as it must |
| Menus.ScrollDownPlace | src/ssd1306_ui.c:512-529 | the same fact by induction on k, on the pair of selection and window offset against its closed-form target |
| Menus.DownStep | src/ssd1306_ui.c:512-529 | one scroll down followed by k - 1 more that reach their target reach the target of k scrolls |
| Menus.ScrollDownTimesOk | src/ssd1306_ui.c:512-529 | any number of scrolls down keep the menu consistent and its item and line counts unchanged |
| Menus.ScrollDownOnce | src/ssd1306_ui.c:512-529 | the window of a consistent menu shows its selection; one scroll down selects the next item, or stays on the last, and moves the window only as far as it must |
| Menus.ScrollUpTimesReaches | src/ssd1306_ui.c:493-510 | k scrolls up select k items further back, stopping at the first, and the window moves only as far as it must |
| Menus.ScrollToEndAndBack | examples/ssd1306_tests.c:90-99 | count - 1 scrolls down reach the last item with the last full screen showing, and as many up return to the top |
| Menus.CalcLayout | src/ssd1306_ui.c:263-272 | the menu area starts below the top padding and the header and is maxVisible lines high, each as `uint8_t` |
| Menus.RowsFromAreWindow | src/ssd1306_ui.c:434-457 | from round i on the loop draws items visibleOffset + i onwards, one per line, until the window or the items run out, highlighting exactly the selected one |
| Menus.WindowRowsCons | src/ssd1306_ui.c:434-457 | the line of round i drawn before the lines of the later rounds gives the lines from round i on |
| Menus.DrawnRowsShowSelection | src/ssd1306_ui.c:434-457 | a consistent menu draws the items of its window in order, and exactly the selected one is highlighted |
| Menus.DrawnRowsInsideMenuArea | src/ssd1306_ui.c:409-457 | line k is drawn at row yOffset + k * lineHeight, inside the area the menu clears first |
| Menus.RowInArea | src/ssd1306_ui.c:446 | the `uint8_t` row arithmetic is exact inside the area |
| Menus.ItemsBesideScrollbar | src/ssd1306_ui.c:360-366 | the item lines end exactly where the scrollbar starts, or start where it ends for right-aligned text |
| Menus.ItemX | src/ssd1306_ui.c:305-311 | left-aligned text starts at the left margin, centred text has balanced gaps, and right-aligned text ends one column before the right margin |
| Menus.AfterDraw | src/ssd1306_ui.c:459-461 | an enabled scrollbar takes the menu's window offset, and nothing else changes |
| Menus.DrawKeepsConsistentMenu | src/ssd1306_ui.c:459-461 | drawing a consistent menu leaves it as it was |
| Menus.MenuScrollbarDrawable | src/ssd1306_ui.c:188-195 | an enabled scrollbar of a consistent menu has items to divide by, and its window lies inside the list |

## Left out

- Talking to the hardware is not modelled:
  - the I2C port (`ssd1306_port_i2c_write`) and its status, which the driver ignores;
  - initialisation and the display on/off, contrast and invert commands;
  - the timing helpers of the utility source (DWT and SysTick).

  A flush takes `initialized` as a parameter and returns the packets it puts
  on the bus.
- The other character sets (WIN1251, ISO8859-1 and plain ASCII) are not
  modelled. They are compile-time alternatives; only the UTF-8 branch is.
- Panels other than 128x64 are not modelled: the 64x32 panels are other
  compile-time configurations.
- `ssd1306_display_clear`, `ssd1306_display_fill` and the default-font
  wrappers are not modelled. Each is one call of a modelled routine.
- `cursor_x` is computed by `Transport.SendBlock` but is not threaded through
  the flush: nothing in the driver reads it.
- Triangles.FillTriangle: the span ends come from `float` interpolation. They
  are a parameter, so only the rows drawn are stated, not the columns.
- Circles.DrawCircle, Circles.FillCircle: the radius is kept below 32767 (and
  xc + r too for the fill) so that the 16-bit loop counters cannot wrap. The C
  accepts any `int16_t`.
- Lines.DrawLine: for a general slope the drawn pixels are those of a
  connected path between the clipped end points, inside their bounding box.
  It is not stated which path: `Lines.Bresenham` proves these shape facts of
  the path the loop traces, not that its pixels are the ones nearest the
  ideal line.
- Triangles.FillTriangle requires the triangle to be less than 2^31 rows
  high: the C computes `y2 - y0` in `int`, and a larger difference overflows,
  which is undefined behaviour.
- Widgets.DrawnSlider requires a non-zero item count for a bar that is drawn:
  the C divides by `total_items` without a check (src/ssd1306_ui.c:190 and
  :241), which is undefined behaviour when it is 0.
- The pixel output of the widgets is not modelled: the boxes, border, arrows,
  line and label fills they draw through the modelled primitives. Their
  geometry is modelled: header position and lines, slider, menu rows and
  margins, fill box, label position.
- The automatic flush after each UI draw (`ssd1306_ui_auto_flush`) is left
  out. It is a flush, modelled by `Flush.FlushDirty`.
- Menus take their records by value, so a NULL menu or scrollbar pointer
  (an early return) has no model. `Widgets.ProgressbarSet` does model the
  NULL bar.
- Widgets.LabelAt takes the label width and the default font's height as
  parameters. The default font table is not part of this model.
- Widgets.HeaderLineRows requires a font when the header has text: the C
  dereferences `header->font` there without a check.
- Menus.MenuInit requires a non-zero line height. The C divides by it, and
  `(uint8_t)(font->height + line_spacing)` is 0 only when the sum is 256.

## Findings

| source | as written | input that shows it | evidently intended | confidence | as-written member | corrected member |
|---|---|---|---|---|---|---|
| src/ssd1306.c:402-411 | `for (y = y0; y <= y1; y++)` with an `int16_t` counter (the same for x) | `ssd1306_buffer_fill_rect_xy(0, 32767, 0, 32767, White)`: y wraps from 32767 to -32768 and `y <= 32767` never fails | the loop stops after row y1, as it does for any smaller y1 | not executed | Raster.CounterLoopNeverExits | Raster.FillRectXY |
| src/ssd1306_priv.c:87-100 | the left mask `&= 0xFF << (x % 8)` keeps the run's bits and clears the ones before it; the right mask lands on byte `dirty_index + n / 8` | x = 3, n = 5, page 0, all dirty: columns 3..7 stay dirty and 0..2 are cleared; x = 5, n = 5: columns 8 and 9 stay dirty | clear exactly the dirty bits of the columns sent, as the declaration at src/inc/ssd1306_priv.h:105 says | not executed | Transport.AsWrittenLeavesRunDirty | Transport.SendBlock |
| src/ssd1306.c:680 | the outer loop runs while `bit_index < SIZE * 8 - 1` | last dirty byte 0xA0: the clean bit 1022 ends the run at bit 1021 with `bit_index` at 1023, and bit 1023 is never examined, so it is neither sent nor cleared | every dirty bit is examined: `bit_index < SIZE * 8` | not executed | Flush.AsWrittenMissesLastBit | Flush.CorrectedFlushCleansMap |
| src/ssd1306_ui.c:593-594 | `fill_w` and `fill_h` subtract the border and inset without checking that the box has room | a progress bar 1 pixel wide and high at 50%: `fill_w` is 40 (the unsigned difference wraps to 2^32 - 1) and `fill_h` is 255 | no fill when the border leaves no room inside it | not executed | Widgets.NarrowBarOverfills | Widgets.FillWidth |
