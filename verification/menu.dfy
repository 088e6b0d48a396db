/**
 The menu widget: its construction, the selection and scroll-window state
 machine driven by the scroll helpers, and the layout ssd1306_ui_draw_menu
 computes for the visible rows. The menu keeps its scrollbar's offset in step
 with its own window.
 */
module Menus {
  import opened CTypes
  import opened Geometry
  import opened Utils
  import opened Text
  import opened Widgets

  /**
   SSD1306_Menu_t. `items` is the array of item strings (`None` for a NULL
   entry); the font is dereferenced unconditionally, so it is not optional.
   */
  datatype Menu = Menu(items: seq<Option<Str>>, totalCount: u8, selected: u8, visibleOffset: u8,
                       font: Font, header: Option<Header>, lineSpacing: u8, maxVisible: u8,
                       alignment: TextAlign, padding: Padding, scrollbar: Scrollbar)

  /** The height of one menu line: the glyph height plus the spacing, as a `uint8_t`. */
  function LineHeight(font: Font, lineSpacing: u8): u8
  {
    U8(font.height + lineSpacing)
  }

  /** The height of an optional header, 0 when there is none. */
  function HeaderHeight(header: Option<Header>): u8
  {
    if header.Some? then header.value.height else 0
  }

  /** The rows left for menu lines below the paddings and the header, as a `uint8_t`. */
  function AvailableHeight(header: Option<Header>, padding: Padding): u8
  {
    U8(H - padding.top - padding.bottom - HeaderHeight(header))
  }

  /**
   The selection window. With items, the selection is one of them and lies in
   the window of `maxVisible` lines starting at `visibleOffset`, and the window
   does not start past the last full screen; a window of no lines follows the
   selection. An empty menu sits at 0.
   */
  predicate Window(m: Menu)
  {
    (m.totalCount == 0 ==> m.selected == 0 && m.visibleOffset == 0) &&
    (m.totalCount > 0 ==>
      m.selected < m.totalCount && m.visibleOffset <= m.selected &&
      (m.maxVisible == 0 ==> m.visibleOffset == m.selected) &&
      (m.maxVisible > 0 ==>
        m.selected < m.visibleOffset + m.maxVisible &&
        m.visibleOffset <= Max(0, m.totalCount - m.maxVisible)))
  }

  /**
   The menu and its scrollbar agree: an enabled scrollbar exists exactly
   because there are more items than lines, it counts the menu's items and
   lines, and its offset is the menu's window offset.
   */
  predicate Synced(m: Menu)
  {
    m.scrollbar.enabled ==>
      m.totalCount > m.maxVisible &&
      m.scrollbar.totalItems == m.totalCount &&
      m.scrollbar.visibleItems == m.maxVisible &&
      m.scrollbar.offset == m.visibleOffset
  }

  predicate MenuOk(m: Menu)
  {
    Window(m) && Synced(m)
  }

  /**
   ssd1306_ui_menu_init. The menu starts on its first item with the window at
   the top. `maxVisible` is the number of whole lines that fit the available
   height. The scrollbar is enabled exactly when the items do not all fit;
   then it sits at the right edge inside the right padding (at the left
   padding for right-aligned text), spans the lines, and counts the items;
   otherwise it is all zeros. The line height must not be 0: it divides.
   */
  function MenuInit(items: seq<Option<Str>>, count: u8, font: Font, header: Option<Header>,
                    lineSpacing: u8, alignment: TextAlign, padding: Padding, margin: Margin): (m: Menu)
    requires LineHeight(font, lineSpacing) != 0
    ensures m.items == items && m.totalCount == count && m.font == font && m.header == header
    ensures m.lineSpacing == lineSpacing && m.alignment == alignment && m.padding == padding
    ensures m.selected == 0 && m.visibleOffset == 0
    ensures var lh := LineHeight(font, lineSpacing);
      m.maxVisible * lh <= AvailableHeight(header, padding) < (m.maxVisible + 1) * lh
    ensures m.scrollbar.enabled <==> count > m.maxVisible
    ensures !m.scrollbar.enabled ==> m.scrollbar == DisabledBar
    ensures m.scrollbar.enabled ==>
      var bar := m.scrollbar;
      bar.width == U8(5 + margin.left + margin.right) &&
      (alignment == AlignRight ==> bar.x == padding.left) &&
      (alignment != AlignRight && bar.width + padding.right <= W ==> bar.x + bar.width + padding.right == W) &&
      bar.y == U8(padding.top + HeaderHeight(header)) &&
      bar.height == U8(LineHeight(font, lineSpacing) * m.maxVisible) &&
      bar.orientation == Vertical && bar.margin == margin
    ensures MenuOk(m)
  {
    var hh := HeaderHeight(header);
    var lh := LineHeight(font, lineSpacing);
    var available := AvailableHeight(header, padding);
    var maxVisible := U8(available / lh);
    MaxVisibleFits(available, lh);
    var bar :=
      if count > maxVisible then
        var barWidth := U8(5 + margin.left + margin.right);
        var barX := if alignment == AlignRight then padding.left else U8(W - barWidth - padding.right);
        Scrollbar(barX, U8(padding.top + hh), barWidth, U8(lh * maxVisible),
                  count, maxVisible, 0, true, Vertical, margin)
      else DisabledBar;
    Menu(items, count, 0, 0, font, header, lineSpacing, maxVisible, alignment, padding, bar)
  }

  /** `available / lh` of two `uint8_t` values fits a `uint8_t` and is the whole lines that fit. */
  lemma MaxVisibleFits(available: u8, lh: u8)
    requires lh != 0
    ensures U8(available / lh) == available / lh
    ensures (available / lh) * lh <= available < (available / lh + 1) * lh
  {
    var q := available / lh;
    assert available == q * lh + available % lh;
    MulBounds(q, 1, q, lh);
  }

  /**
   ssd1306_ui_menu_scroll_up: moves the selection up one item unless it is
   on the first; when the selection leaves the window, the window (and an
   enabled scrollbar with it) moves up one line. Nothing else changes.
   */
  function MenuScrollUp(m: Menu): (r: Menu)
    ensures r == m.(selected := r.selected, visibleOffset := r.visibleOffset,
                    scrollbar := m.scrollbar.(offset := r.scrollbar.offset))
    ensures m.selected == 0 ==> r == m
    ensures MenuOk(m) ==> MenuOk(r)
    ensures MenuOk(m) && m.selected > 0 ==>
      r.selected == m.selected - 1 && r.visibleOffset == Min(m.visibleOffset, r.selected)
  {
    if m.selected > 0 then
      var sel := m.selected - 1;
      if sel < m.visibleOffset then
        var bar := if m.scrollbar.enabled then ScrollbarScrollUp(m.scrollbar) else m.scrollbar;
        m.(selected := sel, visibleOffset := m.visibleOffset - 1, scrollbar := bar)
      else
        m.(selected := sel)
    else m
  }

  /**
   ssd1306_ui_menu_scroll_down: moves the selection down one item unless it is
   on the last; when the selection leaves the window, the window (and an
   enabled scrollbar with it) moves down one line, just far enough to show it.
   Nothing else changes.
   */
  function MenuScrollDown(m: Menu): (r: Menu)
    ensures r == m.(selected := r.selected, visibleOffset := r.visibleOffset,
                    scrollbar := m.scrollbar.(offset := r.scrollbar.offset))
    ensures MenuOk(m) ==> MenuOk(r)
    ensures MenuOk(m) && (m.totalCount == 0 || m.selected == m.totalCount - 1) ==> r == m
    ensures MenuOk(m) && m.selected + 1 < m.totalCount ==>
      r.selected == m.selected + 1 && r.visibleOffset == Max(m.visibleOffset, r.selected + 1 - Max(m.maxVisible, 1))
  {
    if U8(m.selected + 1) < m.totalCount then
      var sel := U8(m.selected + 1);
      if sel >= U8(m.visibleOffset + m.maxVisible) then
        var bar := if m.scrollbar.enabled then ScrollbarScrollDown(m.scrollbar) else m.scrollbar;
        m.(selected := sel, visibleOffset := U8(m.visibleOffset + 1), scrollbar := bar)
      else
        m.(selected := sel)
    else m
  }

  /** k calls of ssd1306_ui_menu_scroll_down. */
  function ScrollDownTimes(m: Menu, k: nat): Menu
    decreases k
  {
    if k == 0 then m else ScrollDownTimes(MenuScrollDown(m), k - 1)
  }

  /** k calls of ssd1306_ui_menu_scroll_up. */
  function ScrollUpTimes(m: Menu, k: nat): Menu
    decreases k
  {
    if k == 0 then m else ScrollUpTimes(MenuScrollUp(m), k - 1)
  }

  /**
   k scrolls down from a consistent menu select k items further on, stopping
   at the last, and the window moves only as far as it must to show the
   selection.
   */
  lemma ScrollDownTimesReaches(m: Menu, k: nat)
    requires MenuOk(m) && m.totalCount > 0
    ensures var r := ScrollDownTimes(m, k);
      r.selected == Min(m.selected + k, m.totalCount - 1) &&
      r.visibleOffset == Max(m.visibleOffset, r.selected + 1 - Max(m.maxVisible, 1))
  {
    ScrollDownPlace(m, k);
  }

  /** The selection and the window offset of a menu. */
  function Place(m: Menu): (int, int)
  {
    (m.selected as int, m.visibleOffset as int)
  }

  /** Where k scrolls down should leave a consistent menu's selection and window. */
  function DownTarget(m: Menu, k: nat): (int, int)
  {
    var s := Min(m.selected + k, m.totalCount - 1);
    (s, Max(m.visibleOffset, s + 1 - Max(m.maxVisible, 1)))
  }

  /** ScrollDownTimesReaches, stated on the pair of selection and window offset. */
  lemma {:induction false} ScrollDownPlace(m: Menu, k: nat)
    requires MenuOk(m) && m.totalCount > 0
    ensures Place(ScrollDownTimes(m, k)) == DownTarget(m, k)
    decreases k
  {
    if k > 0 {
      ScrollDownPlace(MenuScrollDown(m), k - 1);
      DownStep(m, k);
    }
  }

  /** If k - 1 scrolls from the next state reach their target, k scrolls from this one reach theirs. */
  lemma DownStep(m: Menu, k: nat)
    requires MenuOk(m) && m.totalCount > 0 && k > 0
    requires Place(ScrollDownTimes(MenuScrollDown(m), k - 1)) == DownTarget(MenuScrollDown(m), k - 1)
    ensures Place(ScrollDownTimes(m, k)) == DownTarget(m, k)
  {
    var m' := MenuScrollDown(m);
    ScrollDownOnce(m);
    var r := ScrollDownTimes(m', k - 1);
    assert ScrollDownTimes(m, k) == r;
    DownSteps(m.selected, m.visibleOffset, Max(m.maxVisible, 1), m.totalCount,
              m'.selected, m'.visibleOffset, Max(m'.maxVisible, 1), m'.totalCount,
              r.selected, r.visibleOffset, k);
  }

  /** Scrolling down keeps a menu consistent and leaves its item and line counts alone. */
  lemma {:induction false} ScrollDownTimesOk(m: Menu, k: nat)
    requires MenuOk(m)
    ensures var r := ScrollDownTimes(m, k);
      MenuOk(r) && r.totalCount == m.totalCount && r.maxVisible == m.maxVisible
    decreases k
  {
    if k > 0 {
      ScrollDownTimesOk(MenuScrollDown(m), k - 1);
    }
  }

  /**
   One scroll down from a consistent menu with items: the next item, or the
   same one at the last, with the window moved only as far as it must.
   */
  lemma ScrollDownOnce(m: Menu)
    requires MenuOk(m) && m.totalCount > 0
    ensures m.selected + 1 - Max(m.maxVisible, 1) <= m.visibleOffset
    ensures var r := MenuScrollDown(m);
      r.totalCount == m.totalCount && r.maxVisible == m.maxVisible &&
      r.selected == Min(m.selected + 1, m.totalCount - 1) &&
      r.visibleOffset == Max(m.visibleOffset, r.selected + 1 - Max(m.maxVisible, 1))
  {
    if m.selected + 1 >= m.totalCount {
      assert MenuScrollDown(m) == m;
    }
  }

  /** The arithmetic of chaining one scroll down with k - 1 more. */
  lemma DownSteps(s: int, v: int, lines: int, t: int, s1: int, v1: int, lines1: int, t1: int,
                  rs: int, rv: int, k: nat)
    requires k >= 1 && 0 <= s < t && lines >= 1 && v >= s + 1 - lines
    requires s1 == Min(s + 1, t - 1) && v1 == Max(v, s1 + 1 - lines) && lines1 == lines && t1 == t
    requires rs == Min(s1 + (k - 1), t1 - 1) && rv == Max(v1, rs + 1 - lines1)
    ensures rs == Min(s + k, t - 1) && rv == Max(v, rs + 1 - lines)
  {
  }

  /**
   k scrolls up from a consistent menu select k items further back, stopping
   at the first, and the window moves only as far as it must.
   */
  lemma {:induction false} ScrollUpTimesReaches(m: Menu, k: nat)
    requires MenuOk(m)
    ensures var r := ScrollUpTimes(m, k);
      MenuOk(r) &&
      r.selected == Max(m.selected - k, 0) &&
      r.visibleOffset == Min(m.visibleOffset, r.selected)
    decreases k
  {
    if k > 0 {
      var m' := MenuScrollUp(m);
      ScrollUpTimesReaches(m', k - 1);
    }
  }

  /**
   The scenario of scrolling a fresh menu to the end and back: `count - 1`
   scrolls down reach the last item with the last full screen showing, and as
   many scrolls up return to the first item at the top.
   */
  lemma ScrollToEndAndBack(m: Menu)
    requires MenuOk(m) && m.selected == 0 && m.visibleOffset == 0
    requires m.totalCount > 0 && m.maxVisible > 0
    ensures var end := ScrollDownTimes(m, m.totalCount - 1);
      end.selected == m.totalCount - 1 &&
      end.visibleOffset == Max(0, m.totalCount - m.maxVisible) &&
      ScrollUpTimes(end, m.totalCount - 1).selected == 0 &&
      ScrollUpTimes(end, m.totalCount - 1).visibleOffset == 0
  {
    ScrollDownTimesReaches(m, m.totalCount - 1);
    ScrollDownTimesOk(m, m.totalCount - 1);
    ScrollUpTimesReaches(ScrollDownTimes(m, m.totalCount - 1), m.totalCount - 1);
  }

  /** SSD1306_MenuLayout */
  datatype Layout = Layout(lineHeight: u8, headerHeight: u8, yOffset: u8, menuHeight: u8)

  /**
   _ssd1306_ui_calc_layout: the menu area starts below the top padding and
   the header and is `maxVisible` lines high, all as `uint8_t`.
   */
  function CalcLayout(m: Menu): (lay: Layout)
    ensures lay.lineHeight == LineHeight(m.font, m.lineSpacing)
    ensures lay.headerHeight == HeaderHeight(m.header)
    ensures m.padding.top + lay.headerHeight < 0x100 ==> lay.yOffset == m.padding.top + lay.headerHeight
    ensures lay.lineHeight * m.maxVisible < 0x100 ==> lay.menuHeight == lay.lineHeight * m.maxVisible
  {
    var lh := LineHeight(m.font, m.lineSpacing);
    var hh := HeaderHeight(m.header);
    Layout(lh, hh, U8(m.padding.top + hh), U8(lh * m.maxVisible))
  }

  /** One line ssd1306_ui_draw_menu draws: which item, at which row, highlighted or not. */
  datatype Row = Row(index: u8, y: u8, selected: bool)

  /** The lines the loop of ssd1306_ui_draw_menu draws from round i on. */
  function RowsFrom(m: Menu, lay: Layout, i: nat): (rows: seq<Row>)
    decreases m.maxVisible - i
  {
    if i >= m.maxVisible then []
    else
      var index := U8(m.visibleOffset + i);
      if index >= m.totalCount then []
      else [Row(index, U8(lay.yOffset + U8(i * lay.lineHeight)), index == m.selected)] + RowsFrom(m, lay, i + 1)
  }

  /** The lines ssd1306_ui_draw_menu draws. */
  function MenuRows(m: Menu): seq<Row>
  {
    RowsFrom(m, CalcLayout(m), 0)
  }

  /**
   From round i on the loop draws the items `visibleOffset + i` onwards, one
   per line, until the window or the items run out, provided the window does
   not run past item 255.
   */
  lemma {:induction false} RowsFromAreWindow(m: Menu, lay: Layout, i: nat)
    requires m.visibleOffset + m.maxVisible < 0x100
    ensures var rows := RowsFrom(m, lay, i);
      |rows| == Max(0, Min(m.maxVisible, m.totalCount - m.visibleOffset) - i) &&
      WindowRows(m, lay, i, rows)
    decreases m.maxVisible - i
  {
    if i < m.maxVisible && m.visibleOffset + i < m.totalCount {
      RowsFromAreWindow(m, lay, i + 1);
      var rest := RowsFrom(m, lay, i + 1);
      var row := Row(m.visibleOffset + i, U8(lay.yOffset + U8(i * lay.lineHeight)), m.visibleOffset + i == m.selected);
      assert RowsFrom(m, lay, i) == [row] + rest;
      WindowRowsCons(m, lay, i, row, rest);
    }
  }

  /**
   The rows are the lines of rounds i onwards: items `visibleOffset + i`
   onwards at their rows, exactly the selected one highlighted.
   */
  predicate WindowRows(m: Menu, lay: Layout, i: nat, rows: seq<Row>)
  {
    forall k | 0 <= k < |rows| ::
      rows[k].index == m.visibleOffset + i + k &&
      rows[k].y == U8(lay.yOffset + U8((i + k) * lay.lineHeight)) &&
      (rows[k].selected <==> rows[k].index == m.selected)
  }

  /** The line of round i followed by the lines of the rounds after it are the lines from round i on. */
  lemma WindowRowsCons(m: Menu, lay: Layout, i: nat, row: Row, rest: seq<Row>)
    requires row.index == m.visibleOffset + i && row.y == U8(lay.yOffset + U8(i * lay.lineHeight))
    requires row.selected <==> row.index == m.selected
    requires WindowRows(m, lay, i + 1, rest)
    ensures WindowRows(m, lay, i, [row] + rest)
  {
    var rows := [row] + rest;
    forall k | 0 <= k < |rows|
      ensures rows[k].index == m.visibleOffset + i + k &&
        rows[k].y == U8(lay.yOffset + U8((i + k) * lay.lineHeight)) &&
        (rows[k].selected <==> rows[k].index == m.selected)
    {
      if k > 0 {
        assert rows[k] == rest[k - 1];
        assert (i + 1) + (k - 1) == i + k;
      }
    }
  }

  /**
   A consistent menu with items and lines draws the items of its window, one
   per line in order, and exactly the selected one highlighted.
   */
  lemma DrawnRowsShowSelection(m: Menu)
    requires MenuOk(m) && m.totalCount > 0 && m.maxVisible > 0
    ensures var rows := MenuRows(m);
      |rows| == Min(m.maxVisible, m.totalCount - m.visibleOffset) &&
      (forall k | 0 <= k < |rows| :: rows[k].index == m.visibleOffset + k) &&
      (exists k | 0 <= k < |rows| :: rows[k].selected && rows[k].index == m.selected) &&
      (forall k | 0 <= k < |rows| :: rows[k].selected <==> rows[k].index == m.selected)
  {
    RowsFromAreWindow(m, CalcLayout(m), 0);
    var rows := MenuRows(m);
    var k := m.selected - m.visibleOffset;
    assert 0 <= k < |rows| && rows[k].index == m.selected;
  }

  /**
   When the menu area fits below row 256, line k is drawn at row
   `yOffset + k * lineHeight`, inside the area the menu clears first.
   */
  lemma DrawnRowsInsideMenuArea(m: Menu)
    requires m.visibleOffset + m.maxVisible < 0x100
    requires var lay := CalcLayout(m); lay.yOffset + lay.lineHeight * m.maxVisible < 0x100
    ensures var lay := CalcLayout(m);
      var rows := MenuRows(m);
      forall k | 0 <= k < |rows| ::
        rows[k].y == lay.yOffset + k * lay.lineHeight &&
        lay.yOffset <= rows[k].y && rows[k].y + lay.lineHeight <= lay.yOffset + lay.menuHeight
  {
    var lay := CalcLayout(m);
    RowsFromAreWindow(m, lay, 0);
    var rows := MenuRows(m);
    assert lay.menuHeight == lay.lineHeight * m.maxVisible;
    forall k | 0 <= k < |rows|
      ensures rows[k].y == lay.yOffset + k * lay.lineHeight
      ensures lay.yOffset <= rows[k].y && rows[k].y + lay.lineHeight <= lay.yOffset + lay.menuHeight
    {
      assert rows[k].y == U8(lay.yOffset + U8((0 + k) * lay.lineHeight));
      RowInArea(lay.yOffset, lay.lineHeight, m.maxVisible, k);
    }
  }

  lemma RowInArea(y0: u8, lh: u8, n: nat, k: nat)
    requires k < n && y0 + lh * n < 0x100
    ensures U8(y0 + U8(k * lh)) == y0 + k * lh
    ensures 0 <= k * lh && y0 + k * lh + lh <= y0 + lh * n
  {
    assert k * lh + lh == (k + 1) * lh <= n * lh;
  }

  /**
   The columns the item lines span in ssd1306_ui_draw_menu: inside the
   paddings, less the scrollbar's width on the side the scrollbar is on.
   */
  function ItemMargins(m: Menu): (lr: (u8, u8))
  {
    var left := m.padding.left;
    var right := U8(W - m.padding.right);
    if m.scrollbar.enabled then
      if m.alignment == AlignRight then (U8(left + m.scrollbar.width), right)
      else (left, U8(right - m.scrollbar.width))
    else (left, right)
  }

  /**
   In a menu built by MenuInit whose scrollbar fits the screen, the item
   lines end exactly where the scrollbar starts, or, with right-aligned text,
   start exactly where it ends.
   */
  lemma ItemsBesideScrollbar(items: seq<Option<Str>>, count: u8, font: Font, header: Option<Header>,
                             lineSpacing: u8, alignment: TextAlign, padding: Padding, margin: Margin)
    requires LineHeight(font, lineSpacing) != 0
    requires 5 + margin.left + margin.right + padding.right <= W
    requires padding.left + 5 + margin.left + margin.right < 0x100
    ensures var m := MenuInit(items, count, font, header, lineSpacing, alignment, padding, margin);
      m.scrollbar.enabled ==>
        (alignment == AlignRight ==> ItemMargins(m).0 == m.scrollbar.x + m.scrollbar.width) &&
        (alignment != AlignRight ==> ItemMargins(m).1 == m.scrollbar.x)
  {
  }

  /**
   The column ssd1306_ui_draw_menu starts an item's text at, for text `tw`
   pixels wide between the margins: at the left margin, centred on the
   screen, or ending one column before the right margin.
   */
  function ItemX(alignment: TextAlign, tw: u16, left: u8, right: u8): (x: i16)
    ensures alignment == AlignLeft ==> x == left
    ensures alignment == AlignCenter && tw < 0x8000 ==> -1 <= (W - tw - x) - x <= 1
    ensures alignment == AlignRight && tw < 0x8000 ==> x + tw + 1 == right
  {
    match alignment
    case AlignCenter => CenterX(tw)
    case AlignRight => I16(I16(right) - I16(tw) - 1)
    case AlignLeft => I16(left)
  }

  /**
   What ssd1306_ui_draw_menu leaves in the menu: an enabled scrollbar takes
   the menu's window offset before it is drawn.
   */
  function AfterDraw(m: Menu): (r: Menu)
    ensures r.scrollbar.enabled ==> r.scrollbar.offset == r.visibleOffset
    ensures r == m.(scrollbar := m.scrollbar.(offset := r.scrollbar.offset))
  {
    if m.scrollbar.enabled then m.(scrollbar := m.scrollbar.(offset := m.visibleOffset)) else m
  }

  /** Drawing a consistent menu leaves it as it was: the scroll helpers already kept the bar in step. */
  lemma DrawKeepsConsistentMenu(m: Menu)
    requires MenuOk(m)
    ensures AfterDraw(m) == m
  {
  }

  /**
   The scrollbar of a consistent menu can be drawn: when it is enabled there
   are items to divide by, and its window lies inside the list.
   */
  lemma MenuScrollbarDrawable(m: Menu)
    requires MenuOk(m)
    ensures m.scrollbar.enabled ==> m.scrollbar.totalItems != 0 && BarWindow(m.scrollbar)
  {
  }
}
