/**
 ssd1306_buffer_draw_circle and ssd1306_buffer_fill_circle: the integer
 midpoint loop over one octant, with x counting up from 0 and y down from the
 radius, a 16-bit decision term, and every coordinate passed to the pixel
 writer through a `uint8_t` conversion, so it wraps modulo 256 before the
 panel bounds are applied.
 */
module Circles {
  import opened CTypes
  import opened Geometry
  import opened Utils
  import opened Framebuffer
  import opened Raster
  import opened Lines

  /**
   Reflection j (0 to 7) of octant point p, in the order the C draws them:
   (x, y), (-x, y), (x, -y), (-x, -y), (y, x), (-y, x), (y, -x), (-y, -x).
   */
  function Reflect(p: (int, int), j: nat): (q: (int, int))
    requires j < 8
    ensures Abs(q.0) <= Max(Abs(p.0), Abs(p.1)) && Abs(q.1) <= Max(Abs(p.0), Abs(p.1))
  {
    var x, y := p.0, p.1;
    if j == 0 then (x, y) else if j == 1 then (-x, y) else if j == 2 then (x, -y) else if j == 3 then (-x, -y)
    else if j == 4 then (y, x) else if j == 5 then (-y, x) else if j == 6 then (y, -x) else (-y, -x)
  }

  /** The eight reflections are closed under mirroring in either axis and in the diagonal. */
  lemma ReflectionsClosed(p: (int, int), j: nat)
    requires j < 8
    ensures exists k | 0 <= k < 8 :: Reflect(p, k) == (-Reflect(p, j).0, Reflect(p, j).1)
    ensures exists k | 0 <= k < 8 :: Reflect(p, k) == (Reflect(p, j).0, -Reflect(p, j).1)
    ensures exists k | 0 <= k < 8 :: Reflect(p, k) == (Reflect(p, j).1, Reflect(p, j).0)
  {
    var q := Reflect(p, j);
    var m1: nat := [1, 0, 3, 2, 5, 4, 7, 6][j];
    assert Reflect(p, m1) == (-q.0, q.1);
    var m2: nat := [2, 3, 0, 1, 6, 7, 4, 5][j];
    assert Reflect(p, m2) == (q.0, -q.1);
    var m3: nat := [4, 6, 5, 7, 0, 2, 1, 3][j];
    assert Reflect(p, m3) == (q.1, q.0);
  }

  /**
   One round of the loop's bookkeeping: x is incremented, then a positive
   decision term steps y down with `d += 4 * (x - y) + 10`, otherwise
   `d += 4 * x + 6`, each stored back into `int16_t`.
   */
  function NextRound(x: i16, y: i16, d: i16): (n: (i16, i16, i16))
    requires 0 <= x <= y < 0x7FFF
    ensures n.0 == x + 1 && (n.1 == y || n.1 == y - 1)
  {
    var x' := x + 1;
    if d > 0 then (x', y - 1, I16(d + 4 * (x' - (y - 1)) + 10))
    else (x', y, I16(d + 4 * x' + 6))
  }

  /**
   The octant points (x, y) the loop visits from state (x, y, d) on: none
   once y < x; otherwise it starts at (x, y), x goes up by one each round
   while y stays or goes down by one, and every point has 0 <= x <= y.
   */
  function Arc(x: i16, y: i16, d: i16): (a: seq<(int, int)>)
    requires 0 <= x && y < 0x7FFF
    ensures a == [] <==> y < x
    ensures a != [] ==> a[0] == (x as int, y as int)
    ensures forall i | 0 <= i < |a| :: x <= a[i].0 <= a[i].1 <= y
    ensures Stepwise(a)
    decreases y - x + 1
  {
    if y < x then []
    else
      var n := NextRound(x, y, d);
      var rest := Arc(n.0, n.1, n.2);
      StepwiseCons((x as int, y as int), rest);
      [(x as int, y as int)] + rest
  }

  /** Each point of a sequence is one column right of the one before, on its row or one up. */
  predicate Stepwise(a: seq<(int, int)>)
  {
    forall i | 0 <= i < |a| - 1 ::
      a[i + 1].0 == a[i].0 + 1 && (a[i + 1].1 == a[i].1 || a[i + 1].1 == a[i].1 - 1)
  }

  lemma StepwiseCons(p: (int, int), rest: seq<(int, int)>)
    requires Stepwise(rest)
    requires rest != [] ==> rest[0].0 == p.0 + 1 && (rest[0].1 == p.1 || rest[0].1 == p.1 - 1)
    ensures Stepwise([p] + rest)
  {
    var a := [p] + rest;
    forall i | 0 <= i < |a| - 1
      ensures a[i + 1].0 == a[i].0 + 1 && (a[i + 1].1 == a[i].1 || a[i + 1].1 == a[i].1 - 1)
    {
      assert a[i + 1] == rest[i];
      if i > 0 {
        assert a[i] == rest[i - 1];
      }
    }
  }

  /** Offset q from the centre, through the `uint8_t` conversions. */
  function Wrap(xc: int, yc: int, q: (int, int)): (int, int)
  {
    (U8(xc + q.0) as int, U8(yc + q.1) as int)
  }

  /** The eight wrapped reflections of one octant point, in drawing order. */
  function Octet(xc: int, yc: int, p: (int, int)): (s: seq<(int, int)>)
    ensures |s| == 8 && forall j | 0 <= j < 8 :: s[j] == Wrap(xc, yc, Reflect(p, j))
  {
    [Wrap(xc, yc, Reflect(p, 0)), Wrap(xc, yc, Reflect(p, 1)), Wrap(xc, yc, Reflect(p, 2)),
     Wrap(xc, yc, Reflect(p, 3)), Wrap(xc, yc, Reflect(p, 4)), Wrap(xc, yc, Reflect(p, 5)),
     Wrap(xc, yc, Reflect(p, 6)), Wrap(xc, yc, Reflect(p, 7))]
  }

  /**
   The pixels the outline loop draws for the octant points of `arc`, in
   order: the eight reflections of each point in turn.
   */
  function Outline(xc: int, yc: int, arc: seq<(int, int)>): (s: seq<(int, int)>)
    decreases |arc|
  {
    if arc == [] then [] else Octet(xc, yc, arc[0]) + Outline(xc, yc, arc[1..])
  }

  /** Every reflection of every arc point is drawn. */
  lemma {:induction false} OutlineHas(xc: int, yc: int, arc: seq<(int, int)>, k: nat, j: nat)
    requires k < |arc| && j < 8
    ensures OnPath(Outline(xc, yc, arc), Wrap(xc, yc, Reflect(arc[k], j)).0, Wrap(xc, yc, Reflect(arc[k], j)).1)
    decreases k
  {
    var rest := Outline(xc, yc, arc[1..]);
    assert Outline(xc, yc, arc) == Octet(xc, yc, arc[0]) + rest;
    if k == 0 {
      assert Outline(xc, yc, arc)[j] == Wrap(xc, yc, Reflect(arc[0], j));
    } else {
      OutlineHas(xc, yc, arc[1..], k - 1, j);
      assert arc[1..][k - 1] == arc[k];
      var q := Wrap(xc, yc, Reflect(arc[k], j));
      assert q in rest;
    }
  }

  /** Every drawn pixel is a reflection of an arc point. */
  lemma {:induction false} OutlineOnlyHas(xc: int, yc: int, arc: seq<(int, int)>, p: (int, int))
    requires p in Outline(xc, yc, arc)
    ensures exists k, j | 0 <= k < |arc| && 0 <= j < 8 :: p == Wrap(xc, yc, Reflect(arc[k], j))
    decreases |arc|
  {
    var here := Octet(xc, yc, arc[0]);
    var rest := Outline(xc, yc, arc[1..]);
    assert Outline(xc, yc, arc) == here + rest;
    if p in here {
      var j :| 0 <= j < 8 && here[j] == p;
      assert p == Wrap(xc, yc, Reflect(arc[0], j));
    } else {
      OutlineOnlyHas(xc, yc, arc[1..], p);
      var k, j :| 0 <= k < |arc[1..]| && 0 <= j < 8 && p == Wrap(xc, yc, Reflect(arc[1..][k], j));
      assert arc[1..][k] == arc[k + 1];
    }
  }

  /** The `int16_t` decision term the loop starts from. */
  function StartTerm(r: i16): i16
  {
    I16(3 - 2 * r)
  }

  /**
   ssd1306_buffer_draw_circle. The drawn pixels are exactly the wrapped
   reflections of the octant arc from (0, r). A negative radius draws nothing,
   radius 0 draws the centre alone, the four points at distance r on the axes
   are drawn, and when no coordinate wraps every change lies in the square of
   side 2r + 1 around the centre.
   */
  function DrawCircle(c: Canvas, xc: i16, yc: i16, r: i16, color: Color): (res: Canvas)
    requires r < 0x7FFF
    ensures forall px, py | OnCanvas(px, py) ::
      Pixel(res, px, py) == if OnPath(Outline(xc, yc, Arc(0, r, StartTerm(r))), px, py)
                            then color else Pixel(c, px, py)
    ensures r < 0 ==> res == c
    ensures r == 0 ==> forall px, py | OnCanvas(px, py) ::
      Pixel(res, px, py) == if (px, py) == (U8(xc) as int, U8(yc) as int) then color else Pixel(c, px, py)
    ensures r >= 0 ==>
      && (OnCanvas(U8(xc), U8(yc + r)) ==> Pixel(res, U8(xc), U8(yc + r)) == color)
      && (OnCanvas(U8(xc), U8(yc - r)) ==> Pixel(res, U8(xc), U8(yc - r)) == color)
      && (OnCanvas(U8(xc + r), U8(yc)) ==> Pixel(res, U8(xc + r), U8(yc)) == color)
      && (OnCanvas(U8(xc - r), U8(yc)) ==> Pixel(res, U8(xc - r), U8(yc)) == color)
    ensures 0 <= xc - r && xc + r < 256 && 0 <= yc - r && yc + r < 256 ==>
      forall px, py | OnCanvas(px, py) && Pixel(res, px, py) != Pixel(c, px, py) ::
        InRect(px, py, xc - r, yc - r, xc + r, yc + r)
    ensures Tracks(c, res)
  {
    var arc := Arc(0, r, StartTerm(r));
    var res := DrawPath(c, Outline(xc, yc, arc), color);
    AxisPoints(xc, yc, r, arc);
    OutlineInBox(xc, yc, r, arc);
    if r == 0 then
      assert arc == [(0, 0)];
      CentreOnly(xc, yc, arc);
      res
    else
      res
  }

  /** The first round draws the four axis points at distance r. */
  lemma AxisPoints(xc: int, yc: int, r: int, arc: seq<(int, int)>)
    requires r >= 0 ==> arc != [] && arc[0] == (0, r)
    ensures r >= 0 ==>
      && OnPath(Outline(xc, yc, arc), U8(xc), U8(yc + r))
      && OnPath(Outline(xc, yc, arc), U8(xc), U8(yc - r))
      && OnPath(Outline(xc, yc, arc), U8(xc + r), U8(yc))
      && OnPath(Outline(xc, yc, arc), U8(xc - r), U8(yc))
  {
    if r >= 0 {
      var out := Outline(xc, yc, arc);
      assert OnPath(out, U8(xc), U8(yc + r)) by { AxisPoint(xc, yc, arc, 0, xc, yc + r); }
      assert OnPath(out, U8(xc), U8(yc - r)) by { AxisPoint(xc, yc, arc, 2, xc, yc - r); }
      assert OnPath(out, U8(xc + r), U8(yc)) by { AxisPoint(xc, yc, arc, 4, xc + r, yc); }
      assert OnPath(out, U8(xc - r), U8(yc)) by { AxisPoint(xc, yc, arc, 5, xc - r, yc); }
    }
  }

  lemma AxisPoint(xc: int, yc: int, arc: seq<(int, int)>, j: nat, ax: int, ay: int)
    requires arc != [] && j < 8
    requires xc + Reflect(arc[0], j).0 == ax && yc + Reflect(arc[0], j).1 == ay
    ensures OnPath(Outline(xc, yc, arc), U8(ax), U8(ay))
  {
    OutlineHas(xc, yc, arc, 0, j);
  }

  /** A single arc point (0, 0) draws only the centre. */
  lemma CentreOnly(xc: int, yc: int, arc: seq<(int, int)>)
    requires arc == [(0, 0)]
    ensures forall px, py :: OnPath(Outline(xc, yc, arc), px, py) <==> (px, py) == (U8(xc) as int, U8(yc) as int)
  {
    OutlineHas(xc, yc, arc, 0, 0);
    forall p | p in Outline(xc, yc, arc)
      ensures p == (U8(xc) as int, U8(yc) as int)
    {
      OutlineOnlyHas(xc, yc, arc, p);
    }
  }

  /** Without wrap-around the outline stays in the square around the centre. */
  lemma {:induction false} OutlineInBox(xc: int, yc: int, r: int, arc: seq<(int, int)>)
    requires forall i | 0 <= i < |arc| :: 0 <= arc[i].0 <= arc[i].1 <= r
    ensures 0 <= xc - r && xc + r < 256 && 0 <= yc - r && yc + r < 256 ==>
      forall p | p in Outline(xc, yc, arc) :: InRect(p.0, p.1, xc - r, yc - r, xc + r, yc + r)
    decreases |arc|
  {
    if arc != [] && 0 <= xc - r && xc + r < 256 && 0 <= yc - r && yc + r < 256 {
      OutlineInBox(xc, yc, r, arc[1..]);
      var here := Octet(xc, yc, arc[0]);
      forall j | 0 <= j < 8
        ensures InRect(here[j].0, here[j].1, xc - r, yc - r, xc + r, yc + r)
      {
        OctetPointInBox(xc, yc, r, arc[0], j);
      }
      assert Outline(xc, yc, arc) == here + Outline(xc, yc, arc[1..]);
    }
  }

  lemma OctetPointInBox(xc: int, yc: int, r: int, p: (int, int), j: nat)
    requires 0 <= p.0 <= p.1 <= r && j < 8
    requires 0 <= xc - r && xc + r < 256 && 0 <= yc - r && yc + r < 256
    ensures var w := Wrap(xc, yc, Reflect(p, j)); InRect(w.0, w.1, xc - r, yc - r, xc + r, yc + r)
  {
    var q := Reflect(p, j);
    assert -r <= q.0 <= r && -r <= q.1 <= r;
    assert Wrap(xc, yc, q) == (xc + q.0, yc + q.1);
  }
  /**
   One span of the fill loop, `for (i = lo; i <= hi; i++)` with an `int16_t`
   counter, drawing column i on the two rows ya and yb through the `uint8_t`
   conversions. With hi below 32767 the counter cannot wrap.
   */
  function Span(lo: int, hi: int, ya: int, yb: int): (s: seq<(int, int)>)
    requires hi < 0x7FFF
    decreases hi - lo + 1
  {
    if lo > hi then [] else [(U8(lo) as int, U8(ya) as int), (U8(lo) as int, U8(yb) as int)] + Span(lo + 1, hi, ya, yb)
  }

  /** A span draws every column of its range on both rows. */
  lemma {:induction false} SpanHas(lo: int, hi: int, ya: int, yb: int, i: int)
    requires hi < 0x7FFF && lo <= i <= hi
    ensures OnPath(Span(lo, hi, ya, yb), U8(i), U8(ya)) && OnPath(Span(lo, hi, ya, yb), U8(i), U8(yb))
    decreases hi - lo + 1
  {
    var here := [(U8(lo) as int, U8(ya) as int), (U8(lo) as int, U8(yb) as int)];
    var rest := Span(lo + 1, hi, ya, yb);
    assert Span(lo, hi, ya, yb) == here + rest;
    if i > lo {
      SpanHas(lo + 1, hi, ya, yb, i);
      assert (U8(i) as int, U8(ya) as int) in rest && (U8(i) as int, U8(yb) as int) in rest;
    } else {
      assert here[0] == (U8(i) as int, U8(ya) as int) && here[1] == (U8(i) as int, U8(yb) as int);
    }
  }

  /**
   The pixels the fill loop draws from state (x, y, d) on: each round the
   spans `xc - x .. xc + x` on rows `yc + y` and `yc - y`, then
   `xc - y .. xc + y` on rows `yc + x` and `yc - x`, with `int16_t` bounds.
   The upper bounds stay below 32767 as long as xc + y does.
   */
  function Disc(xc: i16, yc: i16, x: i16, y: i16, d: i16): (s: seq<(int, int)>)
    requires 0 <= x && y < 0x7FFF && xc + y < 0x7FFF
    decreases y - x + 1
  {
    if y < x then []
    else
      var n := NextRound(x, y, d);
      Round(xc, yc, x, y) + Disc(xc, yc, n.0, n.1, n.2)
  }

  /** The four spans of one round of the fill loop. */
  function Round(xc: i16, yc: i16, x: i16, y: i16): (s: seq<(int, int)>)
    requires 0 <= x <= y && xc + y < 0x7FFF
  {
    Span(I16(xc - x), I16(xc + x), yc + y, yc - y) + Span(I16(xc - y), I16(xc + y), yc + x, yc - x)
  }

  /** One round draws its four spans in full. */
  lemma RoundHas(xc: i16, yc: i16, x: i16, y: i16, i: int)
    requires 0 <= x <= y && xc + y < 0x7FFF
    ensures I16(xc - x) <= i <= I16(xc + x) ==>
      OnPath(Round(xc, yc, x, y), U8(i), U8(yc + y)) && OnPath(Round(xc, yc, x, y), U8(i), U8(yc - y))
    ensures I16(xc - y) <= i <= I16(xc + y) ==>
      OnPath(Round(xc, yc, x, y), U8(i), U8(yc + x)) && OnPath(Round(xc, yc, x, y), U8(i), U8(yc - x))
  {
    if I16(xc - x) <= i <= I16(xc + x) {
      SpanHas(I16(xc - x), I16(xc + x), yc + y, yc - y, i);
    }
    if I16(xc - y) <= i <= I16(xc + y) {
      SpanHas(I16(xc - y), I16(xc + y), yc + x, yc - x, i);
    }
  }

  /**
   For every octant point (x, y) the fill loop visits, which is the point the
   outline loop visits in the same round, the four spans of that round are
   drawn in full.
   */
  lemma {:induction false} DiscHas(xc: i16, yc: i16, x: i16, y: i16, d: i16, k: nat)
    requires 0 <= x && y < 0x7FFF && xc + y < 0x7FFF && k < |Arc(x, y, d)|
    ensures var p := Arc(x, y, d)[k];
      0 <= p.0 <= p.1 <= y && forall q | q in Round(xc, yc, p.0, p.1) :: q in Disc(xc, yc, x, y, d)
    decreases y - x + 1
  {
    var n := NextRound(x, y, d);
    assert Disc(xc, yc, x, y, d) == Round(xc, yc, x, y) + Disc(xc, yc, n.0, n.1, n.2);
    assert Arc(x, y, d) == [(x as int, y as int)] + Arc(n.0, n.1, n.2);
    if k > 0 {
      DiscHas(xc, yc, n.0, n.1, n.2, k - 1);
    }
  }

  /**
   ssd1306_buffer_fill_circle. The drawn pixels are those of `Disc`; a
   negative radius draws nothing, and when the left ends do not wrap the centre
   row from xc - r to xc + r is drawn.
   */
  function FillCircle(c: Canvas, xc: i16, yc: i16, r: i16, color: Color): (res: Canvas)
    requires r < 0x7FFF && xc + r < 0x7FFF
    ensures forall px, py | OnCanvas(px, py) ::
      Pixel(res, px, py) == if OnPath(Disc(xc, yc, 0, r, StartTerm(r)), px, py) then color else Pixel(c, px, py)
    ensures r < 0 ==> res == c
    ensures r >= 0 && -0x8000 <= xc - r ==> forall i | xc - r <= i <= xc + r && OnCanvas(U8(i), U8(yc)) ::
      Pixel(res, U8(i), U8(yc)) == color
    ensures Tracks(c, res)
  {
    var res := DrawPath(c, Disc(xc, yc, 0, r, StartTerm(r)), color);
    CentreRow(xc, yc, r);
    res
  }

  lemma CentreRow(xc: i16, yc: i16, r: i16)
    requires r < 0x7FFF && xc + r < 0x7FFF
    ensures r >= 0 && -0x8000 <= xc - r ==> forall i | xc - r <= i <= xc + r ::
      OnPath(Disc(xc, yc, 0, r, StartTerm(r)), U8(i), U8(yc))
  {
    if r >= 0 && -0x8000 <= xc - r {
      var d0 := StartTerm(r);
      DiscHas(xc, yc, 0, r, d0, 0);
      assert Arc(0, r, d0)[0] == (0, r as int);
      forall i | xc - r <= i <= xc + r
        ensures OnPath(Disc(xc, yc, 0, r, d0), U8(i), U8(yc))
      {
        RoundHas(xc, yc, 0, r, i);
        assert yc + 0 == yc;
      }
    }
  }

  /**
   When the left ends do not wrap, every pixel the outline of a circle draws
   is also drawn by the fill of the same circle.
   */
  lemma OutlineWithinFill(c: Canvas, xc: i16, yc: i16, r: i16, color: Color)
    requires r < 0x7FFF && xc + r < 0x7FFF && -0x8000 <= xc - r
    ensures forall px, py | OnCanvas(px, py) && Pixel(DrawCircle(c, xc, yc, r, color), px, py) != Pixel(c, px, py) ::
      Pixel(FillCircle(c, xc, yc, r, color), px, py) == color
  {
    var d0 := StartTerm(r);
    var arc := Arc(0, r, d0);
    forall px, py | OnCanvas(px, py) && OnPath(Outline(xc, yc, arc), px, py)
      ensures OnPath(Disc(xc, yc, 0, r, d0), px, py)
    {
      OutlineOnlyHas(xc, yc, arc, (px, py));
      var k, j :| 0 <= k < |arc| && 0 <= j < 8 && (px, py) == Wrap(xc, yc, Reflect(arc[k], j));
      ReflectionInRound(xc, yc, arc[k].0, arc[k].1, j);
      DiscHas(xc, yc, 0, r, d0, k);
    }
  }

  /** Each of the eight reflections of (x, y) lies on one of the round's spans. */
  lemma ReflectionInRound(xc: i16, yc: i16, x: int, y: int, j: nat)
    requires 0 <= x <= y && xc + y < 0x7FFF && -0x8000 <= xc - y && j < 8
    ensures Wrap(xc, yc, Reflect((x, y), j)) in Round(xc, yc, x, y)
  {
    var q := Reflect((x, y), j);
    if j < 4 {
      assert (q.0 == x || q.0 == -x) && (q.1 == y || q.1 == -y);
      OnRowSpan(xc, yc, x, y, q.0, q.1);
    } else {
      assert (q.0 == y || q.0 == -y) && (q.1 == x || q.1 == -x);
      OnColumnSpan(xc, yc, x, y, q.0, q.1);
    }
  }

  /** (+-x, +-y) lies on the first pair of spans of the round. */
  lemma OnRowSpan(xc: i16, yc: i16, x: int, y: int, a: int, b: int)
    requires 0 <= x <= y && xc + y < 0x7FFF && -0x8000 <= xc - y
    requires (a == x || a == -x) && (b == y || b == -y)
    ensures Wrap(xc, yc, (a, b)) in Round(xc, yc, x, y)
  {
    var s1 := Span(I16(xc - x), I16(xc + x), yc + y, yc - y);
    assert Round(xc, yc, x, y) == s1 + Span(I16(xc - y), I16(xc + y), yc + x, yc - x);
    assert I16(xc - x) == xc - x && I16(xc + x) == xc + x;
    SpanHas(I16(xc - x), I16(xc + x), yc + y, yc - y, xc + a);
    assert Wrap(xc, yc, (a, b)) in s1;
  }

  /** (+-y, +-x) lies on the second pair of spans of the round. */
  lemma OnColumnSpan(xc: i16, yc: i16, x: int, y: int, a: int, b: int)
    requires 0 <= x <= y && xc + y < 0x7FFF && -0x8000 <= xc - y
    requires (a == y || a == -y) && (b == x || b == -x)
    ensures Wrap(xc, yc, (a, b)) in Round(xc, yc, x, y)
  {
    var s2 := Span(I16(xc - y), I16(xc + y), yc + x, yc - x);
    assert Round(xc, yc, x, y) == Span(I16(xc - x), I16(xc + x), yc + y, yc - y) + s2;
    assert I16(xc - y) == xc - y && I16(xc + y) == xc + y;
    SpanHas(I16(xc - y), I16(xc + y), yc + x, yc - x, xc + a);
    assert Wrap(xc, yc, (a, b)) in s2;
  }
}
