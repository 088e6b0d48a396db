/**
 The state and layout arithmetic of the UI widgets: the header, the
 scrollbar, the progress bar and its percentage label. The draw routines are
 described by the coordinates and sizes they compute, not by the pixels they
 set. Every `(uint8_t)` in the C is a `U8` here.
 */
module Widgets {
  import opened CTypes
  import opened Geometry
  import opened Utils
  import opened Text

  /** SSD1306_Padding_t; SSD1306_Margin_t has the same four fields. */
  datatype Padding = Padding(top: u8, bottom: u8, left: u8, right: u8)

  type Margin = Padding

  datatype TextAlign = AlignLeft | AlignCenter | AlignRight

  datatype HeaderStyle = HeaderNone | HeaderLine | HeaderDoubleLine

  /** A rectangle as the fill routines take it: corner, width, height. */
  datatype Rect = Rect(x: u8, y: u8, w: u8, h: u8)

  /** `(uint8_t)(uint16_t)x` is `(uint8_t)x`. */
  lemma U8OfU16(x: int)
    ensures U8(U16(x)) == U8(x)
  {
    var q := (x - U16(x)) / 0x1_0000;
    assert x == U16(x) + (q * 0x100) * 0x100;
  }

  /** Wrapping twice, with an addition between, is wrapping once. */
  lemma U8Twice(a: int, b: int)
    ensures U8(U8(a) + b) == U8(a + b)
  {
    var q := (a - U8(a)) / 0x100;
    assert a == U8(a) + q * 0x100;
  }

  // ---------------------------------------------------------------------
  // Header
  // ---------------------------------------------------------------------

  /** SSD1306_Header_t; `None` is a NULL text or font pointer. */
  datatype Header = Header(text: Option<Str>, font: Option<Font>, alignment: TextAlign,
                           style: HeaderStyle, padding: Padding, width: u8, height: u8)

  /** `text && text[0]`: a non-NULL, non-empty string. */
  predicate HasText(text: Option<Str>)
  {
    text.Some? && |text.value| > 0
  }

  /** The rows the lines under the header text take: 2 for one line, 4 for two. */
  function StyleExtra(style: HeaderStyle): (n: nat)
    ensures n <= 4
  {
    match style
    case HeaderNone => 0
    case HeaderLine => 2
    case HeaderDoubleLine => 4
  }

  /**
   The size ssd1306_ui_header_init records: nothing for a header without
   text; otherwise the text's width in pixels (characters times glyph width)
   and the text's height with the paddings and the room for the lines, both
   modulo 256 because the fields are `uint8_t`.
   */
  predicate Sized(h: Header)
  {
    if !HasText(h.text) then h.width == 0 && h.height == 0
    else
      h.font.Some? &&
      h.width == U8(h.font.value.width * |DecodeAll(h.text.value)|) &&
      h.height == U8(h.padding.top + h.font.value.height + h.padding.bottom + StyleExtra(h.style))
  }

  /**
   ssd1306_ui_header_init: stores its arguments and measures the text with
   ssd1306_calc_text_width. The font is read only when there is text.
   */
  method HeaderInit(text: Option<Str>, font: Option<Font>, alignment: TextAlign,
                    style: HeaderStyle, padding: Padding) returns (h: Header)
    requires HasText(text) ==> font.Some?
    ensures h.text == text && h.font == font && h.alignment == alignment
    ensures h.style == style && h.padding == padding
    ensures Sized(h)
    ensures !HasText(text) ==> h.width == 0 && h.height == 0
  {
    h := Header(text, font, alignment, style, padding, 0, 0);
    if HasText(text) {
      var f := font.value;
      var w := CalcTextWidth(text, f.width);
      U8OfU16(f.width * |DecodeAll(text.value)|);
      var height := U8(padding.top + f.height + padding.bottom);
      if style == HeaderLine {
        U8Twice(padding.top + f.height + padding.bottom, 2);
        height := U8(height as int + 2);
      } else if style == HeaderDoubleLine {
        U8Twice(padding.top + f.height + padding.bottom, 4);
        height := U8(height as int + 4);
      }
      h := h.(width := U8(w), height := height);
    }
  }

  /**
   The centred column for text `tw` pixels wide:
   `(int16_t)((SSD1306_WIDTH - (int16_t)tw) / 2)` with C division. The gaps
   left and right of the text (negative when it overhangs) differ by at most
   one pixel, and the text starts on the canvas when it is narrower than it.
   */
  function CenterX(tw: u16): (x: i16)
    ensures tw < 0x8000 ==> -1 <= (W - tw - x) - x <= 1
    ensures tw <= W ==> 0 <= x && 0 <= (W - tw - x) - x <= 1
  {
    I16(CDiv(W - I16(tw), 2))
  }

  /**
   The column ssd1306_ui_draw_header starts the text at: after the left
   padding, centred, or ending at the right padding.
   */
  function HeaderX(h: Header): (x: i16)
    ensures h.alignment == AlignLeft ==> x == h.padding.left
    ensures h.alignment == AlignCenter ==> -1 <= (W - h.width - x) - x <= 1
    ensures h.alignment == AlignRight ==> x + h.width + h.padding.right == W
  {
    match h.alignment
    case AlignCenter => CenterX(h.width)
    case AlignRight => I16(W - h.padding.right - h.width)
    case AlignLeft => I16(h.padding.left)
  }

  /**
   The rows of the lines ssd1306_ui_draw_header draws under the text, which
   ends at row `padding.top + font.height`: one line a row below it, or two
   lines, on it and two rows below. A header without text draws nothing.
   */
  function HeaderLineRows(h: Header): (rows: seq<u8>)
    requires HasText(h.text) ==> h.font.Some?
    ensures !HasText(h.text) ==> rows == []
    ensures |rows| == StyleExtra(h.style) / 2 || !HasText(h.text)
  {
    if !HasText(h.text) then []
    else
      var y := h.padding.top + h.font.value.height;
      match h.style
      case HeaderNone => []
      case HeaderLine => [U8(y + 1)]
      case HeaderDoubleLine => [U8(y), U8(y + 2)]
  }

  /**
   A sized header that does not wrap holds what it draws: the text and every
   line lie above row `height`, which is where a menu below it starts.
   */
  lemma HeaderHoldsItsLines(h: Header)
    requires Sized(h) && HasText(h.text)
    requires h.padding.top + h.font.value.height + h.padding.bottom + StyleExtra(h.style) < 0x100
    ensures h.padding.top + h.font.value.height <= h.height
    ensures forall k | 0 <= k < |HeaderLineRows(h)| ::
      h.padding.top + h.font.value.height <= HeaderLineRows(h)[k] < h.height
  {
  }

  // ---------------------------------------------------------------------
  // Scrollbar
  // ---------------------------------------------------------------------

  datatype Orientation = Vertical | Horizontal

  /** SSD1306_Scrollbar_t: the item count and the offset are `uint16_t`. */
  datatype Scrollbar = Scrollbar(x: u8, y: u8, width: u8, height: u8,
                                 totalItems: u16, visibleItems: u8, offset: u16,
                                 enabled: bool, orientation: Orientation, margin: Margin)

  /** The bar a menu keeps when it needs none: everything zero, disabled. */
  const DisabledBar := Scrollbar(0, 0, 0, 0, 0, 0, 0, false, Vertical, Padding(0, 0, 0, 0))

  /** ssd1306_ui_scrollbar_init: stores its arguments; the bar starts enabled. */
  function ScrollbarInit(x: u8, y: u8, width: u8, height: u8, totalItems: u8, visibleItems: u8,
                         offset: u8, orientation: Orientation, margin: Margin): (bar: Scrollbar)
    ensures bar.enabled
    ensures bar.x == x && bar.y == y && bar.width == width && bar.height == height
    ensures bar.totalItems == totalItems && bar.visibleItems == visibleItems && bar.offset == offset
    ensures bar.orientation == orientation && bar.margin == margin
  {
    Scrollbar(x, y, width, height, totalItems, visibleItems, offset, true, orientation, margin)
  }

  /** The visible window lies inside the list, and the list fits a `uint8_t`. */
  predicate BarWindow(bar: Scrollbar)
  {
    bar.offset + bar.visibleItems <= bar.totalItems < 0x100
  }

  /** A bar made by ScrollbarInit with its window inside the list keeps it under scrolling. */
  lemma ScrollbarInitWindow(x: u8, y: u8, width: u8, height: u8, totalItems: u8, visibleItems: u8,
                            offset: u8, orientation: Orientation, margin: Margin)
    requires offset + visibleItems <= totalItems
    ensures var bar := ScrollbarInit(x, y, width, height, totalItems, visibleItems, offset, orientation, margin);
      BarWindow(bar) && BarWindow(ScrollbarScrollUp(bar)) && BarWindow(ScrollbarScrollDown(bar))
  {
  }

  /**
   ssd1306_ui_scrollbar_scroll_up: an enabled bar moves its window up by
   one item unless it is at the top; nothing else changes.
   */
  function ScrollbarScrollUp(bar: Scrollbar): (r: Scrollbar)
    ensures r.(offset := bar.offset) == bar
    ensures !bar.enabled || bar.offset == 0 ==> r == bar
    ensures bar.enabled && bar.offset > 0 ==> r.offset == bar.offset - 1
    ensures BarWindow(bar) ==> BarWindow(r)
  {
    if !bar.enabled then bar
    else if bar.offset > 0 then bar.(offset := bar.offset - 1)
    else bar
  }

  /**
   ssd1306_ui_scrollbar_scroll_down: an enabled bar moves its window down by
   one item while the window's end, taken modulo 256, is before the end of the
   list; nothing else changes. Within a `uint8_t` list that is exactly "while
   the window does not reach the last item", so the window stays in the list.
   */
  function ScrollbarScrollDown(bar: Scrollbar): (r: Scrollbar)
    ensures r.(offset := bar.offset) == bar
    ensures !bar.enabled ==> r == bar
    ensures bar.enabled && bar.offset + bar.visibleItems < 0x100 ==>
      (r.offset == bar.offset + 1 <==> bar.offset + bar.visibleItems < bar.totalItems) &&
      (r == bar <==> bar.offset + bar.visibleItems >= bar.totalItems)
    ensures BarWindow(bar) ==> BarWindow(r)
  {
    if !bar.enabled then bar
    else if U8(bar.offset + bar.visibleItems) < bar.totalItems then bar.(offset := U16(bar.offset + 1))
    else bar
  }

  /** Where the slider starts along its track, and how long it is. */
  datatype Slider = Slider(pos: u8, size: u8)

  /**
   The slider arithmetic of ssd1306_ui_draw_scrollbar along a track that
   starts at `start` and is `length` long: the arrows take 7 pixels at either
   end, the slider is the visible share of the rest, at least `minSize`, and
   it starts the offset's share of the rest from the top.
   */
  function SliderAlong(start: u8, length: u8, visible: u8, offset: u16, total: u16, minSize: u8): (s: Slider)
    requires total != 0
    ensures s.size >= minSize
  {
    var usableStart := U8(start + 7);
    var usable := U8(length - 14);
    var size := U8(Share(usable, visible, total));
    Slider(U8(usableStart + Share(usable, offset, total)), if size < minSize then minSize else size)
  }

  /**
   The slider of ssd1306_ui_draw_scrollbar (src/ssd1306_ui.c): a vertical bar's
   track runs down from `y + margin.top` for `height` rows and its slider is
   at least 4 long; a horizontal bar's runs right from `x + margin.left` for
   `width` columns and its slider is at least 2 long. The bar is drawn only
   when it is enabled and has a size, and then the item count must not be 0.
   */
  function DrawnSlider(bar: Scrollbar): (s: Option<Slider>)
    requires bar.enabled && bar.width != 0 && bar.height != 0 ==> bar.totalItems != 0
    ensures s.Some? <==> bar.enabled && bar.width != 0 && bar.height != 0
    ensures s.Some? ==> s.value.size >= (if bar.orientation == Vertical then 4 else 2)
  {
    if !bar.enabled || bar.width == 0 || bar.height == 0 then None
    else if bar.orientation == Vertical then
      Some(SliderAlong(U8(bar.y + bar.margin.top), bar.height, bar.visibleItems, bar.offset, bar.totalItems, 4))
    else
      Some(SliderAlong(U8(bar.x + bar.margin.left), bar.width, bar.visibleItems, bar.offset, bar.totalItems, 2))
  }

  lemma DivLowerBound(k: nat, n: nat, t: nat)
    requires t > 0 && k * t <= n
    ensures k <= n / t
  {
    var q, r := n / t, n % t;
    assert n == q * t + r && r < t;
    assert (k - q) * t < t;
    LessThanOne(k - q, t);
  }

  lemma DivUpperBound(k: nat, n: nat, t: nat)
    requires t > 0 && n < (k + 1) * t
    ensures n / t <= k
  {
    var q, r := n / t, n % t;
    assert n == q * t + r && 0 <= r;
    assert (q - k) * t < t;
    LessThanOne(q - k, t);
  }

  lemma LessThanOne(a: int, t: int)
    requires t > 0 && a * t < t
    ensures a < 1
  {
  }

  lemma MulDivCancel(u: nat, t: nat)
    requires t > 0
    ensures u * t / t == u
  {
    DivLowerBound(u, u * t, t);
    DivUpperBound(u, u * t, t);
  }

  /** Rounding down each part separately loses at most one whole. */
  lemma DivSum(a: nat, b: nat, t: nat)
    requires t > 0
    ensures a / t + b / t <= (a + b) / t <= a / t + b / t + 1
  {
    assert a == (a / t) * t + a % t;
    assert b == (b / t) * t + b % t;
    assert (a / t + b / t) * t <= a + b;
    DivLowerBound(a / t + b / t, a + b, t);
    assert a + b < (a / t + b / t + 2) * t;
    DivUpperBound(a / t + b / t + 1, a + b, t);
  }

  lemma DivMonotone(a: nat, b: nat, t: nat)
    requires t > 0 && a <= b
    ensures a / t <= b / t
  {
    assert a == (a / t) * t + a % t;
    DivLowerBound(a / t, b, t);
  }

  /** `u * k / t` in C unsigned arithmetic without overflow: the k-in-t share of u, rounded down. */
  function Share(u: nat, k: nat, t: nat): nat
    requires t > 0
  {
    u * k / t
  }

  /** A share of at most the whole is at most u; nothing's share is 0 and the whole's is u. */
  lemma ShareBound(u: nat, k: nat, t: nat)
    requires t > 0
    ensures k <= t ==> Share(u, k, t) <= u
    ensures Share(u, 0, t) == 0
    ensures Share(u, t, t) == u
  {
    if k <= t {
      assert u * k <= u * t;
      DivUpperBound(u, u * k, t);
    }
    MulDivCancel(u, t);
  }

  lemma ShareMonotone(u: nat, k: nat, k': nat, t: nat)
    requires t > 0 && k <= k'
    ensures Share(u, k, t) <= Share(u, k', t)
  {
    assert u * k <= u * k';
    DivMonotone(u * k, u * k', t);
  }

  /** The shares of a window and of what lies before it add up to at most the whole, and to within one of it when they make up the whole. */
  lemma ShareSum(u: nat, o: nat, v: nat, t: nat)
    requires t > 0 && o + v <= t
    ensures Share(u, o, t) + Share(u, v, t) <= u
    ensures o + v == t ==> u <= Share(u, o, t) + Share(u, v, t) + 1
  {
    var a, b, c := u * o, u * v, u * (o + v);
    assert a + b == c;
    DivSum(a, b, t);
    ShareBound(u, o + v, t);
  }

  /** With the track inside the coordinate range the casts of the slider arithmetic do not wrap. */
  lemma SliderExact(start: u8, length: u8, visible: u8, offset: u16, total: u16, minSize: u8)
    requires total != 0 && offset <= total
    requires 14 <= length && start + length < 0x100 + 7
    ensures SliderAlong(start, length, visible, offset, total, minSize).pos
         == start + 7 + Share(length - 14, offset, total)
  {
    var u: nat := length - 14;
    assert U8(length - 14) == u;
    assert U8(start + 7) == start + 7;
    ShareBound(u, offset, total);
  }

  /**
   On a track long enough for both arrows and not running off the 256-pixel
   coordinate range, with the window inside the list, the slider before its
   minimum-size adjustment lies between the arrows; it touches the top arrow
   at offset 0 and, at the last offset, ends within a pixel of the bottom one.
   */
  lemma SliderInsideTrack(start: u8, length: u8, visible: u8, offset: u16, total: u16, minSize: u8)
    requires total != 0 && offset + visible <= total
    requires 14 <= length && start + length < 0x100 + 7
    ensures start + 7 <= SliderAlong(start, length, visible, offset, total, minSize).pos
    ensures SliderAlong(start, length, visible, offset, total, minSize).pos
            + Share(length - 14, visible, total) <= start + length - 7
    ensures offset == 0 ==> SliderAlong(start, length, visible, offset, total, minSize).pos == start + 7
    ensures offset + visible == total ==>
      start + length - 8 <= SliderAlong(start, length, visible, offset, total, minSize).pos
                            + Share(length - 14, visible, total)
  {
    SliderExact(start, length, visible, offset, total, minSize);
    ShareSum(length - 14, offset, visible, total);
    ShareBound(length - 14, 0, total);
  }

  /** The slider moves down (or right) as the offset grows. */
  lemma SliderMonotone(start: u8, length: u8, visible: u8, offset: u16, offset': u16, total: u16, minSize: u8)
    requires total != 0 && offset <= offset' <= total
    requires 14 <= length && start + length < 0x100 + 7
    ensures SliderAlong(start, length, visible, offset, total, minSize).pos
         <= SliderAlong(start, length, visible, offset', total, minSize).pos
  {
    SliderExact(start, length, visible, offset, total, minSize);
    SliderExact(start, length, visible, offset', total, minSize);
    ShareMonotone(length - 14, offset, offset', total);
  }

  // ---------------------------------------------------------------------
  // Progress bar
  // ---------------------------------------------------------------------

  datatype PercentPosition = PercentNone | PercentRight | PercentBottom

  /** SSD1306_ProgressBar_t */
  datatype ProgressBar = ProgressBar(x: u8, y: u8, width: u8, height: u8, progress: u8,
                                     percentPosition: PercentPosition, innerPadding: bool,
                                     padding: Padding)

  /** ssd1306_ui_progressbar_init: stores its arguments; progress starts at 0. */
  function ProgressbarInit(x: u8, y: u8, width: u8, height: u8, percentPosition: PercentPosition,
                           innerPadding: bool, padding: Padding): (bar: ProgressBar)
    ensures bar.progress == 0
    ensures bar.x == x && bar.y == y && bar.width == width && bar.height == height
    ensures bar.percentPosition == percentPosition && bar.innerPadding == innerPadding
    ensures bar.padding == padding
  {
    ProgressBar(x, y, width, height, 0, percentPosition, innerPadding, padding)
  }

  /**
   ssd1306_ui_progressbar_set: a NULL bar is left alone; otherwise the
   progress becomes the value, clamped to 100, and nothing else changes.
   */
  function ProgressbarSet(bar: Option<ProgressBar>, value: u8): (r: Option<ProgressBar>)
    ensures bar.None? <==> r.None?
    ensures bar.Some? ==> r.value.(progress := bar.value.progress) == bar.value
    ensures bar.Some? ==> r.value.progress <= 100
    ensures bar.Some? && value <= 100 ==> r.value.progress == value
    ensures bar.Some? && value > 100 ==> r.value.progress == 100
  {
    if bar.None? then None
    else Some(bar.value.(progress := if value > 100 then 100 else value))
  }

  /** Setting twice is setting the second value once; setting the same value again changes nothing. */
  lemma ProgressbarSetLastWins(bar: Option<ProgressBar>, v: u8, w: u8)
    ensures ProgressbarSet(ProgressbarSet(bar, v), w) == ProgressbarSet(bar, w)
    ensures ProgressbarSet(ProgressbarSet(bar, v), v) == ProgressbarSet(bar, v)
  {
  }

  /** The gap at each side between the border and the fill: 1, plus 1 with inner padding. */
  function Inset(innerPadding: bool): (n: nat)
  {
    if innerPadding then 2 else 1
  }

  /** The room inside a border of `outer` pixels, none when the border leaves no room. */
  function InnerSpan(outer: u8, innerPadding: bool): (n: nat)
    ensures n + 2 * Inset(innerPadding) <= outer || n == 0
    ensures outer >= 2 * Inset(innerPadding) ==> n + 2 * Inset(innerPadding) == outer
  {
    if outer >= 2 * Inset(innerPadding) then outer - 2 * Inset(innerPadding) else 0
  }

  /**
   fill_w exactly as ssd1306_ui_draw_progressbar computes it. The `- 2u`
   converts the `int` difference to `unsigned int`, so the product and the
   division by `100u` are 32-bit unsigned arithmetic.
   */
  function FillWidthAsWritten(outerWidth: u8, innerPadding: bool, progress: u8): (w: u8)
  {
    var pad := if innerPadding then 1 else 0;
    U8(U32(U32(U32(outerWidth - U8(2 * pad)) - 2) * progress) / 100)
  }

  /** fill_h exactly as the C computes it, in `int`, then cast. */
  function FillHeightAsWritten(outerHeight: u8, innerPadding: bool): (h: u8)
  {
    var pad := if innerPadding then 1 else 0;
    U8(outerHeight - U8(2 * (1 + pad)))
  }

  /**
   The fill width, corrected: the progress share, in percent rounded down, of
   the room inside the border. It is 0 at 0%, the whole room at 100%, never
   more than the room, and nothing when the bar is too narrow for a border.
   */
  function FillWidth(outerWidth: u8, innerPadding: bool, progress: u8): (w: u8)
    requires progress <= 100
    ensures w <= InnerSpan(outerWidth, innerPadding)
    ensures progress == 0 ==> w == 0
    ensures progress == 100 ==> w == InnerSpan(outerWidth, innerPadding)
  {
    var span := InnerSpan(outerWidth, innerPadding);
    ShareBound(span, progress, 100);
    ShareBound(span, 0, 100);
    Share(span, progress, 100)
  }

  lemma FillWidthMonotone(outerWidth: u8, innerPadding: bool, p: u8, q: u8)
    requires p <= q <= 100
    ensures FillWidth(outerWidth, innerPadding, p) <= FillWidth(outerWidth, innerPadding, q)
  {
    ShareMonotone(InnerSpan(outerWidth, innerPadding), p, q, 100);
  }

  /** The fill height, corrected: the room inside the border, none when there is none. */
  function FillHeight(outerHeight: u8, innerPadding: bool): (h: u8)
    ensures h == InnerSpan(outerHeight, innerPadding)
  {
    InnerSpan(outerHeight, innerPadding)
  }

  /** On a bar with room inside its border the code as written computes the corrected fill. */
  lemma FillAsWrittenAgrees(outerWidth: u8, outerHeight: u8, innerPadding: bool, progress: u8)
    requires progress <= 100
    ensures outerWidth >= 2 * Inset(innerPadding) ==>
      FillWidthAsWritten(outerWidth, innerPadding, progress) == FillWidth(outerWidth, innerPadding, progress)
    ensures outerHeight >= 2 * Inset(innerPadding) ==>
      FillHeightAsWritten(outerHeight, innerPadding) == FillHeight(outerHeight, innerPadding)
  {
    var span := InnerSpan(outerWidth, innerPadding);
    if outerWidth >= 2 * Inset(innerPadding) {
      var pad := if innerPadding then 1 else 0;
      assert U32(U32(outerWidth - U8(2 * pad)) - 2) == span;
      ProductFits(span, progress);
      ShareBound(span, progress, 100);
    }
  }

  lemma ProductFits(span: nat, progress: u8)
    requires span < 0x100 && progress <= 100
    ensures U32(span * progress) == span * progress
  {
    MulBounds(span, progress, 0xFF, 100);
  }

  /**
   A one-pixel-wide, one-pixel-high bar at 50%: the code as written fills 40
   columns and 255 rows where there is no room inside the border at all.
   */
  lemma NarrowBarOverfills()
    ensures FillWidthAsWritten(1, false, 50) == 40 && FillWidth(1, false, 50) == 0
    ensures FillHeightAsWritten(1, false) == 255 && FillHeight(1, false) == 0
  {
    assert U32(1 - 0) - 2 == -1;
    assert U32(-1) == 0xFFFF_FFFF;
    assert U32(0xFFFF_FFFF * 50) == 0xFFFF_FFCE;
    assert 0xFFFF_FFCE / 100 == 42949672;
  }

  /** The bordered box of a progress bar: its position and size inside the padding. */
  function OuterBox(bar: ProgressBar): (r: Rect)
  {
    Rect(U8(bar.x + bar.padding.left), U8(bar.y + bar.padding.top),
         U8(bar.width - bar.padding.left - bar.padding.right),
         U8(bar.height - bar.padding.top - bar.padding.bottom))
  }

  /**
   The fill rectangle ssd1306_ui_draw_progressbar draws, with the corrected
   fill size; nothing is drawn when the box has no width or no height.
   */
  function ProgressFill(bar: ProgressBar): (r: Option<Rect>)
    requires bar.progress <= 100
    ensures r.None? <==> OuterBox(bar).w == 0 || OuterBox(bar).h == 0
  {
    var box := OuterBox(bar);
    if box.w == 0 || box.h == 0 then None
    else
      var inset := Inset(bar.innerPadding);
      Some(Rect(U8(box.x + inset), U8(box.y + inset),
                FillWidth(box.w, bar.innerPadding, bar.progress), FillHeight(box.h, bar.innerPadding)))
  }

  /**
   When the box does not run off the coordinate range, the fill lies inside
   the border and the inner gap: it is empty, or it starts `Inset` past the
   box's corner and ends `Inset` before its far edges.
   */
  lemma FillInsideBox(bar: ProgressBar)
    requires bar.progress <= 100
    requires ProgressFill(bar).Some?
    requires OuterBox(bar).x + OuterBox(bar).w <= 0x100 && OuterBox(bar).y + OuterBox(bar).h <= 0x100
    ensures var f := ProgressFill(bar).value;
      var box := OuterBox(bar);
      var inset := Inset(bar.innerPadding);
      (f.w == 0 || (box.x + inset <= f.x && f.x + f.w + inset <= box.x + box.w)) &&
      (f.h == 0 || (box.y + inset <= f.y && f.y + f.h + inset <= box.y + box.h))
  {
  }

  /**
   Where the percentage label goes, for a label `tw` pixels wide in a font
   `fontHeight` high: 3 columns right of the box and vertically centred on it,
   or one row below the box and horizontally centred under it. The centring
   uses C division, so the two gaps differ by at most one pixel.
   */
  function LabelAt(bar: ProgressBar, tw: u16, fontHeight: u8): (p: (i16, i16))
    ensures var box := OuterBox(bar);
      (bar.percentPosition == PercentNone ==> p == (0, 0)) &&
      (bar.percentPosition == PercentRight ==>
        p.0 == box.x + box.w + 3 && -1 <= (box.h - fontHeight - (p.1 - box.y)) - (p.1 - box.y) <= 1) &&
      (bar.percentPosition == PercentBottom && tw < 0x8000 ==>
        p.1 == box.y + box.h + 1 && -1 <= (box.w - tw - (p.0 - box.x)) - (p.0 - box.x) <= 1)
  {
    var box := OuterBox(bar);
    match bar.percentPosition
    case PercentNone => (0, 0)
    case PercentRight => (I16(box.x + box.w + 3), I16(box.y + CDiv(box.h - fontHeight, 2)))
    case PercentBottom => (I16(box.x + CDiv(box.w - I16(tw), 2)), I16(box.y + box.h + 1))
  }

  // ---------------------------------------------------------------------
  // The percentage label
  // ---------------------------------------------------------------------

  const PERCENT: byte := 0x25
  const ZERO: byte := 0x30

  /** The characters `'0' + d` for d from 0 to 25: the ten digits, then `:` to `I`. */
  const DIGIT_CHARS: seq<byte> := [0x30, 0x31, 0x32, 0x33, 0x34, 0x35, 0x36, 0x37, 0x38, 0x39, 0x3A, 0x3B, 0x3C, 0x3D, 0x3E, 0x3F, 0x40, 0x41, 0x42, 0x43, 0x44, 0x45, 0x46, 0x47, 0x48, 0x49]

  /** `(char)('0' + d)` */
  function DigitChar(d: nat): (b: byte)
    requires d < 26
  {
    DIGIT_CHARS[d]
  }

  predicate IsDigit(b: byte)
  {
    0x30 <= b as int <= 0x39
  }

  /** The value of a decimal digit character. */
  function DigitValue(b: byte): (d: nat)
    requires IsDigit(b)
    ensures d < 10
  {
    b as int - 0x30
  }

  /** `'0' + d` is never the NUL; it is a digit, of value d, exactly when d < 10. */
  lemma DigitCharFacts(d: nat)
    requires d < 26
    ensures DigitChar(d) != 0
    ensures IsDigit(DigitChar(d)) <==> d < 10
    ensures d < 10 ==> DigitValue(DigitChar(d)) == d
  {
  }

  /**
   percent_to_str: the label for a percentage, up to but not including the
   terminating NUL it also writes. Its last character is `'%'`, and with the
   NUL it takes at most 5 of the 6 bytes of the buffer.
   */
  function PercentToStr(v: u8): (s: Str)
    ensures 2 <= |s| <= 4 && s[|s| - 1] == PERCENT
    ensures |s| + 1 <= 5
  {
    if v == 100 then [0x31, 0x30, 0x30, PERCENT]
    else
      var d1 := v / 10;
      var d0 := v % 10;
      DigitCharFacts(d1);
      DigitCharFacts(d0);
      if d1 != 0 then [DigitChar(d1), DigitChar(d0), PERCENT]
      else [DigitChar(d0), PERCENT]
  }

  /** The value of a run of decimal digits, most significant first. */
  function DecimalValue(ds: seq<byte>): (n: nat)
    requires forall i | 0 <= i < |ds| :: IsDigit(ds[i])
  {
    if |ds| == 0 then 0
    else DecimalValue(ds[..|ds| - 1]) * 10 + DigitValue(ds[|ds| - 1])
  }

  /**
   Reads a percentage label back: one or more decimal digits with no leading
   zero (a lone `0` is fine) followed by `'%'`.
   */
  function ParsePercent(s: seq<byte>): (r: Option<nat>)
  {
    if |s| >= 2 && s[|s| - 1] == PERCENT && (forall i | 0 <= i < |s| - 1 :: IsDigit(s[i]))
       && (|s| == 2 || s[0] != ZERO)
    then Some(DecimalValue(s[..|s| - 1]))
    else None
  }

  /** For 0..100 the label is the decimal value without leading zeros, then `'%'`. */
  lemma PercentRoundTrip(v: u8)
    requires v <= 100
    ensures ParsePercent(PercentToStr(v)) == Some(v as nat)
  {
    if v == 100 {
      PercentHundred();
    } else if v >= 10 {
      PercentTwoDigits(v);
    } else {
      PercentOneDigit(v);
    }
  }

  lemma PercentHundred()
    ensures ParsePercent(PercentToStr(100)) == Some(100)
  {
    ParseThree(0x31, 0x30, 0x30);
  }

  lemma PercentTwoDigits(v: u8)
    requires 10 <= v < 100
    ensures ParsePercent(PercentToStr(v)) == Some(v as nat)
  {
    var d1, d0 := v / 10, v % 10;
    assert PercentToStr(v) == [DigitChar(d1), DigitChar(d0), PERCENT];
    DigitCharFacts(d1);
    DigitCharFacts(d0);
    ParseTwo(DigitChar(d1), DigitChar(d0));
  }

  lemma PercentOneDigit(v: u8)
    requires v < 10
    ensures ParsePercent(PercentToStr(v)) == Some(v as nat)
  {
    assert PercentToStr(v) == [DigitChar(v), PERCENT];
    DigitCharFacts(v);
    ParseOne(DigitChar(v));
  }

  lemma ParseOne(a: byte)
    requires IsDigit(a)
    ensures ParsePercent([a, PERCENT]) == Some(DigitValue(a))
  {
    var s := [a, PERCENT];
    assert s[..1] == [a];
    DigitsValue1([a]);
  }

  lemma ParseTwo(a: byte, b: byte)
    requires IsDigit(a) && IsDigit(b) && a as int != 0x30
    ensures ParsePercent([a, b, PERCENT]) == Some(DigitValue(a) * 10 + DigitValue(b))
  {
    var s := [a, b, PERCENT];
    assert s[..2] == [a, b];
    DigitsValue2([a, b]);
  }

  lemma ParseThree(a: byte, b: byte, c: byte)
    requires IsDigit(a) && IsDigit(b) && IsDigit(c) && a as int != 0x30
    ensures ParsePercent([a, b, c, PERCENT]) == Some(DigitValue(a) * 100 + DigitValue(b) * 10 + DigitValue(c))
  {
    var s := [a, b, c, PERCENT];
    assert s[..3] == [a, b, c];
    DigitsValue3([a, b, c]);
  }

  lemma DigitsValue1(ds: seq<byte>)
    requires |ds| == 1 && IsDigit(ds[0])
    ensures DecimalValue(ds) == DigitValue(ds[0])
  {
    assert ds[..0] == [];
  }

  lemma DigitsValue2(ds: seq<byte>)
    requires |ds| == 2 && IsDigit(ds[0]) && IsDigit(ds[1])
    ensures DecimalValue(ds) == DigitValue(ds[0]) * 10 + DigitValue(ds[1])
  {
    DigitsValue1(ds[..1]);
  }

  lemma DigitsValue3(ds: seq<byte>)
    requires |ds| == 3 && IsDigit(ds[0]) && IsDigit(ds[1]) && IsDigit(ds[2])
    ensures DecimalValue(ds) == DigitValue(ds[0]) * 100 + DigitValue(ds[1]) * 10 + DigitValue(ds[2])
  {
    DigitsValue2(ds[..2]);
  }

  /** Above 100 the tens "digit" is past `'9'`, so the label is not a number. */
  lemma PercentAboveHundred(v: u8)
    requires v > 100
    ensures ParsePercent(PercentToStr(v)).None?
    ensures !IsDigit(PercentToStr(v)[0])
  {
    DigitCharFacts(v / 10);
  }
}
