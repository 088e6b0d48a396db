/**
 The transport layer: command and data packets in the SSD1306 I2C framing,
 the page and column address commands, and ssd1306_send_block, which sends one
 run of framebuffer bytes and clears its dirty bits.
 The I2C write itself is not modelled: its status is discarded by the driver,
 so a packet is simply appended to the log of what was put on the bus.
 */
module Transport {
  import opened CTypes
  import opened Geometry
  import opened Bits
  import opened Utils

  /** The bytes of one `ssd1306_port_i2c_write` call: a control byte, then the payload. */
  type Packet = seq<byte>

  /** What the controller makes of a packet, going by its control byte (Co = 0, D/C# selects data). */
  datatype Op = Command(cmd: byte) | Data(bytes: seq<byte>)

  /** The controller's reading of a packet: control byte 0x00 carries one command, 0x40 carries data. */
  function ParsePacket(p: Packet): Option<Op>
  {
    if |p| == 2 && p[0] == 0x00 then Some(Command(p[1]))
    else if |p| >= 1 && p[0] == 0x40 then Some(Data(p[1..]))
    else None
  }

  /** ssd1306_write_command: one packet that the controller reads as exactly this command. */
  function WriteCommand(b: byte): (p: Packet)
    ensures ParsePacket(p) == Some(Command(b))
  {
    [0x00, b]
  }

  /**
   ssd1306_write_data: one data packet with the first `size` bytes of the
   buffer, at most one display line of them.
   */
  function WriteData(buffer: seq<byte>, size: u16): (p: Packet)
    requires |buffer| >= Min(size, W)
    ensures |p| == 1 + Min(size, W) <= 1 + W
    ensures ParsePacket(p) == Some(Data(buffer[..Min(size, W)]))
  {
    var n := if size > W then W else size;
    [0x40] + buffer[..n]
  }

  const CMD_SET_PAGE_START: byte := 0xB0
  const CMD_SET_LOW_COLUMN: byte := 0x00
  const CMD_SET_HIGH_COLUMN: byte := 0x10

  /** The page a "set page start" command selects, if the byte is one (0xB0..0xB7). */
  function PageOf(cmd: byte): Option<byte>
  {
    if cmd & 0xF8 == CMD_SET_PAGE_START then Some(cmd & 0x07) else None
  }

  /** The low column nibble a command byte 0x00..0x0F carries. */
  function LowNibbleOf(cmd: byte): Option<byte>
  {
    if cmd & 0xF0 == CMD_SET_LOW_COLUMN then Some(cmd & 0x0F) else None
  }

  /** The high column nibble a command byte 0x10..0x1F carries. */
  function HighNibbleOf(cmd: byte): Option<byte>
  {
    if cmd & 0xF0 == CMD_SET_HIGH_COLUMN then Some(cmd & 0x0F) else None
  }

  /** The page number of a panel page below 8, as a byte. */
  lemma SmallByte(p: nat)
    ensures p < 8 ==> (p as byte) & 0x07 == p as byte
  {
    if p >= 8 {} else if p == 0 {} else if p == 1 {} else if p == 2 {} else if p == 3 {}
    else if p == 4 {} else if p == 5 {} else if p == 6 {} else {}
  }

  /**
   ssd1306_set_page: one command packet selecting page
   `(page + PAGE_OFFSET) mod 8`; for every page of the panel the controller
   selects exactly that page.
   */
  function SetPage(page: u8): (ps: seq<Packet>)
    ensures |ps| == 1
    ensures ParsePacket(ps[0]).Some? && ParsePacket(ps[0]).value.Command?
    ensures PageOf(ParsePacket(ps[0]).value.cmd) == Some((U8(page + PAGE_OFFSET) as byte) & 0x07)
    ensures page + PAGE_OFFSET < 8 ==> PageOf(ParsePacket(ps[0]).value.cmd) == Some((page + PAGE_OFFSET) as byte)
  {
    var offsetPage := U8(page + PAGE_OFFSET) as byte;
    SmallByte(page + PAGE_OFFSET);
    [WriteCommand(CMD_SET_PAGE_START | (offsetPage & 0x07))]
  }

  /** The high and low nibble commands put the column byte back together. */
  lemma NibblesReassemble(b: byte)
    ensures (((CMD_SET_HIGH_COLUMN | ((b >> 4) & 0x0F)) & 0x0F) << 4) | ((CMD_SET_LOW_COLUMN | (b & 0x0F)) & 0x0F) == b
    ensures (CMD_SET_LOW_COLUMN | (b & 0x0F)) & 0xF0 == CMD_SET_LOW_COLUMN
    ensures (CMD_SET_HIGH_COLUMN | ((b >> 4) & 0x0F)) & 0xF0 == CMD_SET_HIGH_COLUMN
  {
  }

  /**
   ssd1306_set_column: a low-nibble and a high-nibble command whose nibbles,
   put together, are the column plus X_OFFSET modulo 256.
   */
  function SetColumn(column: u8): (ps: seq<Packet>)
    ensures |ps| == 2
    ensures ParsePacket(ps[0]).Some? && ParsePacket(ps[0]).value.Command?
    ensures ParsePacket(ps[1]).Some? && ParsePacket(ps[1]).value.Command?
    ensures var lo := LowNibbleOf(ParsePacket(ps[0]).value.cmd);
            var hi := HighNibbleOf(ParsePacket(ps[1]).value.cmd);
            lo.Some? && hi.Some? && (hi.value << 4) | lo.value == U8(column + X_OFFSET) as byte
  {
    var offsetColumn := U8(column + X_OFFSET) as byte;
    NibblesReassemble(offsetColumn);
    [WriteCommand(CMD_SET_LOW_COLUMN | (offsetColumn & 0x0F)),
     WriteCommand(CMD_SET_HIGH_COLUMN | ((offsetColumn >> 4) & 0x0F))]
  }

  /** Which clearing of the dirty bits ssd1306_send_block performs: the code's, or the one its declaration promises. */
  datatype Build = AsWritten | Corrected

  /** `(uint8_t)(0xFFu << s)`: the bits from position s upwards. */
  function KeepFrom(s: nat): (m: byte)
    requires s < 8
    ensures forall j | 0 <= j < 8 :: Bit(m, j) == (j >= s)
  {
    KeepFromBits(s, (0xFF as byte) << s);
    (0xFF as byte) << s
  }

  lemma KeepFromBits(s: nat, m: byte)
    requires s < 8 && m == (0xFF as byte) << s
    ensures forall j | 0 <= j < 8 :: Bit(m, j) == (j >= s)
  {
    if s == 0 {} else if s == 1 {} else if s == 2 {} else if s == 3 {}
    else if s == 4 {} else if s == 5 {} else if s == 6 {} else {}
  }

  /** Dirty bit k belongs to columns [x, x + n) of the page. */
  predicate InBlock(k: int, page: nat, x: nat, n: nat)
  {
    page * W + x <= k < page * W + x + n
  }

  /** The length send_block actually sends: the run, cut at the right edge of the panel. */
  function BlockLength(x: nat, n: nat): (m: nat)
    requires x <= W
    ensures m <= n && x + m <= W
    ensures m == n || x + m == W
  {
    Min(n, W - x)
  }

  /** `d[i] &= (uint8_t)(0xFFu << s)`: clears the bits of byte i below s. */
  function MaskByte(d: seq<byte>, i: nat, s: nat): (r: seq<byte>)
    requires i < |d| && s < 8
    ensures |r| == |d|
    ensures forall k | 0 <= k < 8 * |d| :: BitAt(r, k) == (BitAt(d, k) && !(k / 8 == i && k % 8 < s))
  {
    var r := d[i := d[i] & KeepFrom(s)];
    forall k | 0 <= k < 8 * |d|
      ensures BitAt(r, k) == (BitAt(d, k) && !(k / 8 == i && k % 8 < s))
    {
      BitAtUpdate(d, i, d[i] & KeepFrom(s), k);
      AndBit(d[i], KeepFrom(s), k % 8);
    }
    r
  }

  /** `d[from + i] = 0x00` for every i below count. */
  function ZeroBytes(d: seq<byte>, from: nat, count: nat): (r: seq<byte>)
    requires from + count <= |d|
    ensures |r| == |d|
    ensures forall i | 0 <= i < |d| :: r[i] == if from <= i < from + count then 0 else d[i]
    ensures forall k | 0 <= k < 8 * |d| :: BitAt(r, k) == (BitAt(d, k) && !(from <= k / 8 < from + count))
  {
    var r := d[..from] + seq(count, _ => 0) + d[from + count..];
    assert forall j | 0 <= j < 8 :: !Bit(0, j);
    r
  }

  /**
   The dirty bits the clearing code as written reaches: the bits below x % 8
   of the run's first dirty byte, the nA / 8 whole bytes that start there, and
   the bits below (x + nA) % 8 of the byte right after those.
   */
  predicate AsWrittenClears(k: nat, x: nat, page: nat, nA: nat)
  {
    var di := (x + page * W) / 8;
    || (k / 8 == di && x % 8 != 0 && k % 8 < x % 8)
    || (di <= k / 8 < di + nA / 8)
    || (k / 8 == di + nA / 8 && (x + nA) % 8 != 0 && k % 8 < (x + nA) % 8)
  }

  lemma DivSum(a: nat, b: nat)
    ensures a / 8 + b / 8 <= (a + b) / 8
  {
  }

  /** The three clearing steps of ssd1306_send_block exactly as the code has them. */
  function ClearAsWritten(d: seq<byte>, x: nat, page: nat, nA: nat): (r: seq<byte>)
    requires |d| == DIRTY_SIZE && x <= W && page < PAGES && x + nA <= W
    ensures |r| == DIRTY_SIZE
    ensures forall k | 0 <= k < NBITS :: BitAt(r, k) == (BitAt(d, k) && !AsWrittenClears(k, x, page, nA))
  {
    var di := (x + page * W) / 8;
    DivSum(x + page * W, nA);
    var d1 := if x % 8 != 0 then MaskByte(d, di, x % 8) else d;
    var d2 := ZeroBytes(d1, di, nA / 8);
    if (x + nA) % 8 != 0 then MaskByte(d2, di + nA / 8, (x + nA) % 8) else d2
  }

  /** The intended clearing: exactly dirty bits lo .. hi - 1, one at a time. */
  function ClearRun(d: seq<byte>, lo: nat, hi: nat): (r: seq<byte>)
    requires lo <= hi <= 8 * |d|
    ensures |r| == |d|
    ensures forall k | 0 <= k < 8 * |d| :: BitAt(r, k) == (BitAt(d, k) && !(lo <= k < hi))
    decreases hi - lo
  {
    if lo == hi then d else ClearRun(ClearBitAt(d, lo), lo + 1, hi)
  }

  /** What one call of ssd1306_send_block leaves behind: the packet sent, the dirty map, `cursor_x`. */
  datatype Sent = Sent(packet: Packet, dirty: seq<byte>, cursorX: u16)

  /**
   The data packet of ssd1306_send_block: the framebuffer bytes of columns
   [x, x + nA) of the page, where nA is the run cut at the right edge.
   */
  function BlockPacket(buf: seq<byte>, x: u8, page: u8, n: u32): (p: Packet)
    requires |buf| == BUFFER_SIZE && x <= W && page < PAGES
    ensures ParsePacket(p) == Some(Data(buf[page * W + x .. page * W + x + BlockLength(x, n)]))
  {
    var nA := BlockLength(x, n);
    var pageIndex := page * W;
    assert buf[x + pageIndex..][..nA] == buf[pageIndex + x .. pageIndex + x + nA];
    WriteData(buf[x + pageIndex..], nA)
  }

  /**
   ssd1306_send_block. The run is cut at the right edge of the panel and its
   framebuffer bytes go out as one data packet; afterwards `cursor_x` is just
   past the run. The corrected build clears exactly the dirty bits of the
   columns sent and no others.
   */
  function SendBlock(buf: seq<byte>, dirty: seq<byte>, x: u8, page: u8, n: u32, build: Build): (r: Sent)
    requires |buf| == BUFFER_SIZE && |dirty| == DIRTY_SIZE && x <= W && page < PAGES
    ensures r.packet == BlockPacket(buf, x, page, n)
    ensures r.cursorX == x + BlockLength(x, n)
    ensures |r.dirty| == DIRTY_SIZE
    ensures build == Corrected ==> forall k | 0 <= k < NBITS ::
      BitAt(r.dirty, k) == (BitAt(dirty, k) && !InBlock(k, page, x, BlockLength(x, n)))
  {
    var nA := BlockLength(x, n);
    var pageIndex := page * W;
    var d := if build == AsWritten then ClearAsWritten(dirty, x, page, nA)
             else ClearRun(dirty, pageIndex + x, pageIndex + x + nA);
    Sent(BlockPacket(buf, x, page, n), d, U16(x + nA))
  }

  /** For a run that starts on a dirty-byte boundary the code as written clears exactly the run. */
  lemma AlignedClearsExactly(k: nat, x: nat, page: nat, nA: nat)
    requires x % 8 == 0 && x + nA <= W
    ensures AsWrittenClears(k, x, page, nA) <==> InBlock(k, page, x, nA)
  {
    var di := (x + page * W) / 8;
    assert 8 * di == x + page * W;
  }

  /** Every dirty bit the code as written clears lies in the page, left of the run's end. */
  lemma AsWrittenClearsLeftOfEnd(k: nat, x: nat, page: nat, nA: nat)
    requires x + nA <= W
    ensures AsWrittenClears(k, x, page, nA) ==> page * W <= k < page * W + x + nA
  {
    var di := (x + page * W) / 8;
    if k / 8 == di && x % 8 != 0 && k % 8 < x % 8 {
      HeadClearBound(k, x, page);
    } else if di <= k / 8 < di + nA / 8 {
      MidClearBound(k, x, page, nA);
    } else if k / 8 == di + nA / 8 && (x + nA) % 8 != 0 && k % 8 < (x + nA) % 8 {
      TailClearBound(k, x, page, nA);
    }
  }

  /** A bit of the first dirty byte below bit `x % 8` of it. */
  lemma HeadClearBound(k: nat, x: nat, page: nat)
    requires k / 8 == (x + page * W) / 8 && k % 8 < x % 8
    ensures page * W <= k < page * W + x
  {
    assert 8 * (k / 8) == x + page * W - x % 8;
  }

  /** A bit of one of the `nA / 8` whole dirty bytes from the first on. */
  lemma MidClearBound(k: nat, x: nat, page: nat, nA: nat)
    requires (x + page * W) / 8 <= k / 8 < (x + page * W) / 8 + nA / 8
    ensures page * W <= k < page * W + x + nA
  {
    var di := (x + page * W) / 8;
    assert 8 * di == x + page * W - x % 8;
    assert 8 * (nA / 8) == nA - nA % 8;
  }

  /** A bit of the dirty byte after the whole ones, below bit `(x + nA) % 8` of it. */
  lemma TailClearBound(k: nat, x: nat, page: nat, nA: nat)
    requires k / 8 == (x + page * W) / 8 + nA / 8 && k % 8 < (x + nA) % 8
    ensures page * W <= k < page * W + x + nA
  {
    var di := (x + page * W) / 8;
    assert 8 * di == x + page * W - x % 8;
    assert 8 * (nA / 8) == nA - nA % 8;
    assert (x + nA) % 8 <= x % 8 + nA % 8;
  }

  /**
   Both builds only clear dirty bits, never set one, and leave every bit
   outside the page or at or past the end of the run as it was; when x is a
   multiple of 8 the code as written does what the corrected build does.
   */
  lemma SendBlockClearsOnlyBehind(buf: seq<byte>, dirty: seq<byte>, x: u8, page: u8, n: u32, build: Build)
    requires |buf| == BUFFER_SIZE && |dirty| == DIRTY_SIZE && x <= W && page < PAGES
    ensures var r := SendBlock(buf, dirty, x, page, n, build);
      forall k | 0 <= k < NBITS :: BitAt(r.dirty, k) ==> BitAt(dirty, k)
    ensures var r := SendBlock(buf, dirty, x, page, n, build);
      forall k | 0 <= k < NBITS && (k < page * W || page * W + x + BlockLength(x, n) <= k) ::
        BitAt(r.dirty, k) == BitAt(dirty, k)
    ensures x % 8 == 0 ==> forall k | 0 <= k < NBITS ::
      BitAt(SendBlock(buf, dirty, x, page, n, build).dirty, k) == (BitAt(dirty, k) && !InBlock(k, page, x, BlockLength(x, n)))
  {
    var nA := BlockLength(x, n);
    forall k | 0 <= k < NBITS
      ensures AsWrittenClears(k, x, page, nA) ==> page * W <= k < page * W + x + nA
      ensures x % 8 == 0 ==> (AsWrittenClears(k, x, page, nA) <==> InBlock(k, page, x, nA))
    {
      AsWrittenClearsLeftOfEnd(k, x, page, nA);
      if x % 8 == 0 {
        AlignedClearsExactly(k, x, page, nA);
      }
    }
  }

  /**
   For a run that does not start on a dirty-byte boundary the code as written
   leaves dirty bits of the run set: with x = 3 and n = 5 on page 0 the mask
   keeps columns 3..7 dirty and clears columns 0..2 instead; with x = 5 and
   n = 5 the right-hand mask lands on byte 0 rather than byte 1, so columns 8
   and 9 stay dirty.
   */
  lemma AsWrittenLeavesRunDirty(buf: seq<byte>, dirty: seq<byte>)
    requires |buf| == BUFFER_SIZE && |dirty| == DIRTY_SIZE
    requires forall k | 0 <= k < 16 :: BitAt(dirty, k)
    ensures forall k | 3 <= k < 8 ::
      InBlock(k, 0, 3, BlockLength(3, 5)) && BitAt(SendBlock(buf, dirty, 3, 0, 5, AsWritten).dirty, k)
    ensures forall k | 0 <= k < 3 :: !BitAt(SendBlock(buf, dirty, 3, 0, 5, AsWritten).dirty, k)
    ensures forall k | 8 <= k < 10 ::
      InBlock(k, 0, 5, BlockLength(5, 5)) && BitAt(SendBlock(buf, dirty, 5, 0, 5, AsWritten).dirty, k)
    ensures forall k | 3 <= k < 8 :: !BitAt(SendBlock(buf, dirty, 3, 0, 5, Corrected).dirty, k)
  {
  }
}
