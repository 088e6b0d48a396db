/**
 ssd1306_buffer_draw_line: Cohen–Sutherland clipping of the segment to the
 panel, then integer Bresenham between the clipped end points.
 */
module Lines {
  import opened CTypes
  import opened Geometry
  import opened Utils
  import opened Framebuffer
  import opened Paint
  import opened Raster

  /** 0 <= (d * p) / q <= d when 0 <= p <= q. */
  lemma QuotientBound(d: nat, p: nat, q: nat)
    requires 0 <= p <= q && q > 0
    ensures 0 <= (d * p) / q <= d
  {
    MulMono(p, q, d);
    var t := (d * p) / q;
    assert t * q <= d * p;
    MulMono(d + 1, if t > d then t else d + 1, q);
  }

  /** C's quotient has the magnitude of the quotient of magnitudes, negated when the signs differ. */
  lemma CDivMagnitude(x: int, q: int)
    requires q != 0
    ensures CDiv(x, q) == if (x >= 0) == (q > 0) then Abs(x) / Abs(q) else -(Abs(x) / Abs(q))
  {
  }

  /**
   The clipping step `a + (b - a) * p / q` with a ratio p / q in [0, 1] lands
   between a and b, whatever the signs, under C's truncating division.
   */
  lemma InterpolateBetween(a: int, b: int, p: int, q: int)
    requires q != 0
    requires (0 <= p <= q) || (q <= p <= 0)
    ensures Min(a, b) <= a + CDiv((b - a) * p, q) <= Max(a, b)
  {
    var d := b - a;
    var ad: nat := Abs(d);
    var ap: nat := Abs(p);
    var n := d * p;
    QuotientBound(ad, ap, Abs(q));
    var t := (ad * ap) / Abs(q);
    MulBounds(ad, ap, ad, ap);
    assert Abs(n) == ad * ap by {
      if (d >= 0) == (p >= 0) {
        assert n == ad * ap;
      } else {
        assert n == -(ad * ap);
      }
    }
    CDivMagnitude(n, q);
    if n == 0 {
      assert CDiv(n, q) == 0;
    } else if d >= 0 {
      assert CDiv(n, q) == t;
    } else {
      assert CDiv(n, q) == -t;
    }
  }

  /** |d * p| < 2^31 when |d| <= 65535 and |p| <= 32768: C's `int` product does not overflow. */
  lemma ProductFitsInt(d: int, p: int)
    requires -0xFFFF <= d <= 0xFFFF && -0x8000 <= p <= 0x8000
    ensures -0x8000_0000 <= d * p < 0x8000_0000
  {
    var ad: nat := Abs(d);
    var ap: nat := Abs(p);
    MulMono(ap, 0x8000, ad);
    MulMono(ad, 0xFFFF, 0x8000);
    assert ad * ap <= 0xFFFF * 0x8000;
    if (d >= 0) == (p >= 0) {
      assert d * p == ad * ap;
    } else {
      assert d * p == -(ad * ap);
    }
  }

  /**
   One clipping step: the end point whose region code is `oc` is moved onto
   the edge `oc` names, with the other coordinate interpolated from end point
   (px, py) in C integer arithmetic. The product fits a C `int` and the result
   lies between the two end points, so its `int16_t` conversion is exact.
   */
  function ClipPoint(px: i16, py: i16, qx: i16, qy: i16, oc: bv8): (n: (i16, i16))
    requires OutCode(px, py) & OutCode(qx, qy) == 0
    requires oc == if OutCode(px, py) != 0 then OutCode(px, py) else OutCode(qx, qy)
    requires oc != 0
    ensures InRect(n.0, n.1, px, py, qx, qy)
    ensures oc & CS_TOP != 0 ==> n.1 == 0
    ensures oc & CS_TOP == 0 && oc & CS_BOTTOM != 0 ==> n.1 == H - 1
    ensures oc & (CS_TOP | CS_BOTTOM) == 0 && oc & CS_RIGHT != 0 ==> n.0 == W - 1
    ensures oc & (CS_TOP | CS_BOTTOM | CS_RIGHT) == 0 ==> n.0 == 0
    ensures py == qy ==> n.1 == py
    ensures px == qx ==> n.0 == px
  {
    if oc & CS_TOP != 0 then
      var p, q := 0 - py, qy - py;
      ProductFitsInt(qx - px, p);
      var num: i32 := (qx - px) * p;
      InterpolateBetween(px, qx, p, q);
      (px + CDiv(num, q), 0)
    else if oc & CS_BOTTOM != 0 then
      var p, q := H - 1 - py, qy - py;
      ProductFitsInt(qx - px, p);
      var num: i32 := (qx - px) * p;
      InterpolateBetween(px, qx, p, q);
      (px + CDiv(num, q), H - 1)
    else if oc & CS_RIGHT != 0 then
      var p, q := W - 1 - px, qx - px;
      ProductFitsInt(qy - py, p);
      var num: i32 := (qy - py) * p;
      InterpolateBetween(py, qy, p, q);
      (W - 1, py + CDiv(num, q))
    else
      var p, q := 0 - px, qx - px;
      ProductFitsInt(qy - py, p);
      var num: i32 := (qy - py) * p;
      InterpolateBetween(py, qy, p, q);
      (0, py + CDiv(num, q))
  }

  /**
   What the clipping loop keeps about the current end points (px, py) and
   (qx, qy) of the original segment (x0, y0)-(x1, y1).
   */
  ghost predicate ClipInv(x0: i16, y0: i16, x1: i16, y1: i16, px: i16, py: i16, qx: i16, qy: i16)
  {
    && InRect(px, py, x0, y0, x1, y1) && InRect(qx, qy, x0, y0, x1, y1)
    && (OnCanvas(x0, y0) ==> px == x0 && py == y0)
    && (OnCanvas(x1, y1) ==> qx == x1 && qy == y1)
    && (OutCode(x0, y0) & OutCode(x1, y1) != 0 ==> (px, py, qx, qy) == (x0, y0, x1, y1))
    && (y0 == y1 ==> py == y0 && qy == y0)
    && (y0 == y1 ==> (px == x0 || px == Clamp(x0, 0, W - 1)) && (qx == x1 || qx == Clamp(x1, 0, W - 1)))
    && (x0 == x1 ==> px == x0 && qx == x0)
    && (x0 == x1 ==> (py == y0 || py == Clamp(y0, 0, H - 1)) && (qy == y1 || qy == Clamp(y1, 0, H - 1)))
  }

  /** Moving the first end point keeps the loop's facts and shortens the segment. */
  lemma ClipStepFirst(x0: i16, y0: i16, x1: i16, y1: i16, px: i16, py: i16, qx: i16, qy: i16)
    requires ClipInv(x0, y0, x1, y1, px, py, qx, qy)
    requires OutCode(px, py) != 0 && OutCode(px, py) & OutCode(qx, qy) == 0
    ensures var n := ClipPoint(px, py, qx, qy, OutCode(px, py));
      ClipInv(x0, y0, x1, y1, n.0, n.1, qx, qy) &&
      Abs(qx - n.0) + Abs(qy - n.1) < Abs(qx - px) + Abs(qy - py)
  {
  }

  /** Moving the second end point, once the first is on the panel, likewise. */
  lemma ClipStepSecond(x0: i16, y0: i16, x1: i16, y1: i16, px: i16, py: i16, qx: i16, qy: i16)
    requires ClipInv(x0, y0, x1, y1, px, py, qx, qy)
    requires OutCode(px, py) == 0 && OutCode(qx, qy) != 0
    ensures var n := ClipPoint(px, py, qx, qy, OutCode(qx, qy));
      ClipInv(x0, y0, x1, y1, px, py, n.0, n.1) &&
      Abs(n.0 - px) + Abs(n.1 - py) < Abs(qx - px) + Abs(qy - py)
  {
  }

  /** What the loop's facts give when it stops. */
  lemma ClipExit(x0: i16, y0: i16, x1: i16, y1: i16, px: i16, py: i16, qx: i16, qy: i16)
    requires ClipInv(x0, y0, x1, y1, px, py, qx, qy)
    ensures OutCode(px, py) | OutCode(qx, qy) == 0 ==>
      && (y0 == y1 ==> 0 <= y0 < H && Max(x0, x1) >= 0 && Min(x0, x1) < W)
      && (y0 == y1 ==> px == Clamp(x0, 0, W - 1) && qx == Clamp(x1, 0, W - 1))
      && (x0 == x1 ==> 0 <= x0 < W && Max(y0, y1) >= 0 && Min(y0, y1) < H)
      && (x0 == x1 ==> py == Clamp(y0, 0, H - 1) && qy == Clamp(y1, 0, H - 1))
    ensures OutCode(px, py) & OutCode(qx, qy) != 0 ==>
      && !OnCanvas(x0, y0) && !OnCanvas(x1, y1)
      && (y0 == y1 ==> !(0 <= y0 < H && Max(x0, x1) >= 0 && Min(x0, x1) < W))
      && (x0 == x1 ==> !(0 <= x0 < W && Max(y0, y1) >= 0 && Min(y0, y1) < H))
  {
  }

  /**
   The Cohen–Sutherland loop: while neither acceptance (both codes zero) nor
   rejection (a shared code bit) holds, the end point outside the panel (the
   first one if both are) is moved onto the edge its code names. The C picks
   `out0 ? out0 : out1` and compares it with out0, which holds exactly when
   out0 is nonzero.
   */
  function ClipLoop(x0: i16, y0: i16, x1: i16, y1: i16, px: i16, py: i16, qx: i16, qy: i16): (r: (i16, i16, i16, i16))
    requires ClipInv(x0, y0, x1, y1, px, py, qx, qy)
    ensures OutCode(r.0, r.1) | OutCode(r.2, r.3) == 0 || OutCode(r.0, r.1) & OutCode(r.2, r.3) != 0
    ensures ClipInv(x0, y0, x1, y1, r.0, r.1, r.2, r.3)
    decreases Abs(qx - px) + Abs(qy - py)
  {
    var out0, out1 := OutCode(px, py), OutCode(qx, qy);
    if out0 | out1 == 0 || out0 & out1 != 0 then (px, py, qx, qy)
    else
      if out0 != 0 then
        ClipStepFirst(x0, y0, x1, y1, px, py, qx, qy);
        var n := ClipPoint(px, py, qx, qy, out0);
        ClipLoop(x0, y0, x1, y1, n.0, n.1, qx, qy)
      else
        ClipStepSecond(x0, y0, x1, y1, px, py, qx, qy);
        var n := ClipPoint(px, py, qx, qy, out1);
        ClipLoop(x0, y0, x1, y1, px, py, n.0, n.1)
  }

  /**
   Clipping of a segment to the panel. A segment with both end points beyond
   the same edge is rejected; a segment with an end point on the panel is
   accepted and keeps that end point; accepted end points are on the panel and
   inside the original bounding box. An axis-parallel segment is accepted
   exactly when it crosses the panel, and is then clamped to it.
   */
  /** The outcome of clipping: whether the segment is drawn, and its clipped end points. */
  datatype Clipped = Clipped(accept: bool, x0: i16, y0: i16, x1: i16, y1: i16)

  function ClipLine(x0: i16, y0: i16, x1: i16, y1: i16): (k: Clipped)
    ensures OutCode(x0, y0) & OutCode(x1, y1) != 0 ==> !k.accept
    ensures k.accept ==> OnCanvas(k.x0, k.y0) && OnCanvas(k.x1, k.y1)
    ensures k.accept ==> InRect(k.x0, k.y0, x0, y0, x1, y1) && InRect(k.x1, k.y1, x0, y0, x1, y1)
    ensures OnCanvas(x0, y0) ==> k.accept && k.x0 == x0 && k.y0 == y0
    ensures OnCanvas(x1, y1) ==> k.accept && k.x1 == x1 && k.y1 == y1
    ensures y0 == y1 ==> (k.accept <==> 0 <= y0 < H && Max(x0, x1) >= 0 && Min(x0, x1) < W)
    ensures y0 == y1 && k.accept ==>
      k.y0 == y0 && k.y1 == y0 && k.x0 == Clamp(x0, 0, W - 1) && k.x1 == Clamp(x1, 0, W - 1)
    ensures x0 == x1 ==> (k.accept <==> 0 <= x0 < W && Max(y0, y1) >= 0 && Min(y0, y1) < H)
    ensures x0 == x1 && k.accept ==>
      k.x0 == x0 && k.x1 == x0 && k.y0 == Clamp(y0, 0, H - 1) && k.y1 == Clamp(y1, 0, H - 1)
  {
    var r := ClipLoop(x0, y0, x1, y1, x0, y0, x1, y1);
    ClipExit(x0, y0, x1, y1, r.0, r.1, r.2, r.3);
    Clipped(OutCode(r.0, r.1) | OutCode(r.2, r.3) == 0, r.0, r.1, r.2, r.3)
  }

  /** Draws the points of a path in order; off-panel points are skipped. */
  function DrawPath(c: Canvas, path: seq<(int, int)>, color: Color): (r: Canvas)
    ensures forall px, py | OnCanvas(px, py) ::
      Pixel(r, px, py) == if (px, py) in path then color else Pixel(c, px, py)
    ensures Tracks(c, r)
    decreases |path|
  {
    if path == [] then c
    else
      var c1 := Plot(c, path[0].0, path[0].1, color);
      var r := DrawPath(c1, path[1..], color);
      assert forall p | p in path :: p == path[0] || p in path[1..];
      TracksTransitive(c, c1, r);
      r
  }

  /** Consecutive points of a path are distinct 8-neighbours. */
  predicate Connected(path: seq<(int, int)>)
  {
    forall i | 0 <= i < |path| - 1 ::
      path[i] != path[i + 1] && Abs(path[i + 1].0 - path[i].0) <= 1 && Abs(path[i + 1].1 - path[i].1) <= 1
  }

  /**
   A path fit to draw the segment (x0, y0)-(x1, y1): it starts and ends at the
   end points, is connected, and stays in their bounding box.
   */
  predicate LinePath(path: seq<(int, int)>, x0: int, y0: int, x1: int, y1: int)
  {
    && |path| >= 1 && path[0] == (x0, y0) && path[|path| - 1] == (x1, y1)
    && Connected(path)
    && forall p | p in path :: InRect(p.0, p.1, x0, y0, x1, y1)
  }

  /** `x0 + s * k` for a step direction s of +1 or -1. */
  function Walk(x0: int, s: int, k: int): int
  {
    if s > 0 then x0 + k else x0 - k
  }

  /**
   After X steps in x and Y steps in y the Bresenham error term is
   dx * (1 + Y) - dyAbs * (1 + X), and it stays well inside `int16_t`.
   */
  lemma ErrorBounds(dx: nat, dyAbs: nat, X: nat, Y: nat)
    requires X <= dx < W && Y <= dyAbs < H
    ensures -0x4000 <= dx * (1 + Y) - dyAbs * (1 + X) < 0x4000
  {
    var a := dx * (1 + Y);
    var b := dyAbs * (1 + X);
    MulBounds(dx, 1 + Y, W - 1, H);
    MulBounds(dyAbs, 1 + X, H - 1, W);
    assert 0 <= a <= (W - 1) * H && 0 <= b <= (H - 1) * W;
  }

  /** With all x steps taken the x test fails, so x never passes x1. */
  lemma NoXOvershoot(dx: nat, dyAbs: nat, Y: nat)
    requires Y < dyAbs
    ensures 2 * (dx * (1 + Y) - dyAbs * (1 + dx)) < -(dyAbs as int)
  {
    MulMono(1 + Y, dyAbs, dx);
    assert dyAbs * (1 + dx) == dyAbs + dyAbs * dx;
  }

  /** With all y steps taken the y test fails, so y never passes y1. */
  lemma NoYOvershoot(dx: nat, dyAbs: nat, X: nat)
    requires X < dx
    ensures 2 * (dx * (1 + dyAbs) - dyAbs * (1 + X)) > dx
  {
    MulMono(1 + X, dx, dyAbs);
    assert dx * (1 + dyAbs) == dx + dx * dyAbs;
  }

  predicate OnPath(path: seq<(int, int)>, x: int, y: int)
  {
    (x, y) in path
  }

  /** The quantities the Bresenham loop fixes before it starts. */
  datatype Segment = Segment(x0: i16, y0: i16, x1: i16, y1: i16, dx: i16, dy: i16, sx: i16, sy: i16)

  /** `dx = abs(x1 - x0)`, `dy = -abs(y1 - y0)`, `sx`, `sy` the step directions. */
  predicate SegmentOk(s: Segment)
  {
    && OnCanvas(s.x0, s.y0) && OnCanvas(s.x1, s.y1)
    && s.dx == Abs(s.x1 - s.x0) && s.dy == -(Abs(s.y1 - s.y0) as int)
    && s.sx == (if s.x0 < s.x1 then 1 else -1) && s.sy == (if s.y0 < s.y1 then 1 else -1)
  }

  /**
   The loop variables (x, y, err) of one round, with the numbers X and Y of
   steps taken so far in x and in y.
   */
  datatype Cursor = Cursor(x: i16, y: i16, err: i16, X: nat, Y: nat)

  /** The position and error term after X steps in x and Y steps in y. */
  ghost predicate CursorOk(s: Segment, t: Cursor)
  {
    && t.X <= s.dx && t.Y <= -(s.dy as int)
    && t.x == Walk(s.x0, s.sx, t.X) && t.y == Walk(s.y0, s.sy, t.Y)
    && t.err == s.dx * (1 + t.Y) + s.dy * (1 + t.X)
  }

  /**
   One round of the loop body: `e2 = 2 * err`; step in x when `e2 >= dy`, in
   y when `e2 <= dx`, each with its `int16_t` update of err and the coordinate.
   */
  function Advance(s: Segment, t: Cursor): Cursor
  {
    var e2 := I16(2 * t.err);
    var xStep := e2 >= s.dy;
    var yStep := e2 <= s.dx;
    var err1 := if xStep then I16(t.err + s.dy) else t.err;
    var err2 := if yStep then I16(err1 + s.dx) else err1;
    Cursor(if xStep then I16(t.x + s.sx) else t.x, if yStep then I16(t.y + s.sy) else t.y, err2,
           if xStep then t.X + 1 else t.X, if yStep then t.Y + 1 else t.Y)
  }

  /** The loop stops at (x1, y1) exactly when every step has been taken. */
  lemma AtEnd(s: Segment, t: Cursor)
    requires SegmentOk(s) && CursorOk(s, t)
    ensures (t.x == s.x1 && t.y == s.y1) <==> (t.X == s.dx && t.Y == -(s.dy as int))
  {
  }

  /**
   A round that does not start at (x1, y1) takes one or two steps, none of
   them past the end, and keeps the cursor's facts: the `int16_t` conversions
   are exact.
   */
  lemma AdvanceOk(s: Segment, t: Cursor)
    requires SegmentOk(s) && CursorOk(s, t)
    requires (t.X, t.Y) != (s.dx as nat, -(s.dy as int) as nat)
    ensures var n := Advance(s, t);
      && CursorOk(s, n)
      && (n.X == t.X || n.X == t.X + 1) && (n.Y == t.Y || n.Y == t.Y + 1) && (n.X, n.Y) != (t.X, t.Y)
  {
    ErrorStep(s.dx, s.dy, t.X, t.Y, t.err);
    var n := Advance(s, t);
    assert I16(2 * t.err) == 2 * t.err;
    var xStep, yStep := 2 * t.err >= s.dy, 2 * t.err <= s.dx;
    if xStep {
      assert n.X == t.X + 1 && n.x == Walk(s.x0, s.sx, n.X);
    }
    if yStep {
      assert n.Y == t.Y + 1 && n.y == Walk(s.y0, s.sy, n.Y);
    }
    var err1 := if xStep then t.err + s.dy else t.err;
    assert n.err == if yStep then err1 + s.dx else err1;
  }

  /**
   The error-term arithmetic of one round: `2 * err` and the updated error
   terms fit `int16_t`, at least one step is taken, no step goes past the
   end, and the error term keeps its closed form.
   */
  lemma ErrorStep(dx: nat, dy: int, X: nat, Y: nat, err: int)
    requires dx < W && -(H as int) < dy <= 0 && X <= dx && Y <= -dy && (X, Y) != (dx, -dy)
    requires err == dx * (1 + Y) + dy * (1 + X)
    ensures -0x4000 <= err < 0x4000
    ensures var xStep, yStep := 2 * err >= dy, 2 * err <= dx;
      var X', Y' := if xStep then X + 1 else X, if yStep then Y + 1 else Y;
      var err1 := if xStep then err + dy else err;
      && (xStep || yStep)
      && X' <= dx && Y' <= -dy
      && -0x8000 <= err1 < 0x8000
      && (if yStep then err1 + dx else err1) == dx * (1 + Y') + dy * (1 + X')
      && -0x8000 <= err1 + dx < 0x8000
  {
    var dyAbs: nat := -dy;
    assert dy * (1 + X) == -(dyAbs * (1 + X));
    ErrorBounds(dx, dyAbs, X, Y);
    NoOvershoot(dx, dyAbs, X, Y);
    assert dy * (1 + (X + 1)) == dy * (1 + X) + dy;
    assert dx * (1 + (Y + 1)) == dx * (1 + Y) + dx;
  }

  /** Prepending a neighbour keeps a path connected. */
  lemma ConnectedCons(p: (int, int), rest: seq<(int, int)>)
    requires Connected(rest) && |rest| >= 1
    requires p != rest[0] && Abs(rest[0].0 - p.0) <= 1 && Abs(rest[0].1 - p.1) <= 1
    ensures Connected([p] + rest)
  {
    var path := [p] + rest;
    forall i | 0 <= i < |path| - 1
      ensures path[i] != path[i + 1] && Abs(path[i + 1].0 - path[i].0) <= 1 && Abs(path[i + 1].1 - path[i].1) <= 1
    {
      if i > 0 {
        assert path[i] == rest[i - 1] && path[i + 1] == rest[i];
      }
    }
  }

  /**
   The Bresenham loop from cursor t on, as the sequence of points it draws
   from there: it starts at the cursor and ends at (x1, y1), which it reaches
   after one round per remaining step at most.
   */
  function Trace(s: Segment, t: Cursor): (path: seq<(int, int)>)
    requires SegmentOk(s) && CursorOk(s, t)
    ensures 1 <= |path| <= 1 + (s.dx - t.X) + (-(s.dy as int) - t.Y)
    ensures path[0] == (t.x as int, t.y as int) && path[|path| - 1] == (s.x1 as int, s.y1 as int)
    decreases (s.dx - t.X) + (-(s.dy as int) - t.Y)
  {
    var here := (t.x as int, t.y as int);
    AtEnd(s, t);
    if t.x == s.x1 && t.y == s.y1 then [here]
    else
      AdvanceOk(s, t);
      [here] + Trace(s, Advance(s, t))
  }

  /** Every point the loop draws lies in the bounding box of the segment. */
  lemma {:induction false} TraceInBox(s: Segment, t: Cursor)
    requires SegmentOk(s) && CursorOk(s, t)
    ensures forall p | p in Trace(s, t) :: InRect(p.0, p.1, s.x0, s.y0, s.x1, s.y1)
    decreases (s.dx - t.X) + (-(s.dy as int) - t.Y)
  {
    AtEnd(s, t);
    if !(t.x == s.x1 && t.y == s.y1) {
      AdvanceOk(s, t);
      TraceInBox(s, Advance(s, t));
      assert Trace(s, t) == [(t.x as int, t.y as int)] + Trace(s, Advance(s, t));
    }
  }

  /** Each round moves to a different, neighbouring pixel. */
  lemma {:induction false} TraceConnected(s: Segment, t: Cursor)
    requires SegmentOk(s) && CursorOk(s, t)
    ensures Connected(Trace(s, t))
    decreases (s.dx - t.X) + (-(s.dy as int) - t.Y)
  {
    AtEnd(s, t);
    if !(t.x == s.x1 && t.y == s.y1) {
      AdvanceOk(s, t);
      TraceConnected(s, Advance(s, t));
      ConnectedCons((t.x as int, t.y as int), Trace(s, Advance(s, t)));
    }
  }

  /** On a horizontal segment every remaining column of the row is drawn. */
  lemma {:induction false} TraceCoversRow(s: Segment, t: Cursor)
    requires SegmentOk(s) && CursorOk(s, t) && s.dy == 0
    ensures forall k | t.X <= k <= s.dx :: OnPath(Trace(s, t), Walk(s.x0, s.sx, k), s.y0)
    decreases s.dx - t.X
  {
    AtEnd(s, t);
    if !(t.x == s.x1 && t.y == s.y1) {
      AdvanceOk(s, t);
      TraceCoversRow(s, Advance(s, t));
      assert Trace(s, t) == [(t.x as int, t.y as int)] + Trace(s, Advance(s, t));
    }
  }

  /** On a vertical segment every remaining row of the column is drawn. */
  lemma {:induction false} TraceCoversColumn(s: Segment, t: Cursor)
    requires SegmentOk(s) && CursorOk(s, t) && s.dx == 0
    ensures forall k | t.Y <= k <= -(s.dy as int) :: OnPath(Trace(s, t), s.x0, Walk(s.y0, s.sy, k))
    decreases -(s.dy as int) - t.Y
  {
    AtEnd(s, t);
    if !(t.x == s.x1 && t.y == s.y1) {
      AdvanceOk(s, t);
      TraceCoversColumn(s, Advance(s, t));
      assert Trace(s, t) == [(t.x as int, t.y as int)] + Trace(s, Advance(s, t));
    }
  }

  /** The two overshoot facts in the form the loop uses. */
  lemma NoOvershoot(dx: nat, dyAbs: nat, X: nat, Y: nat)
    requires X <= dx && Y <= dyAbs && (X, Y) != (dx, dyAbs)
    ensures X == dx ==> 2 * (dx * (1 + Y) - dyAbs * (1 + X)) < -(dyAbs as int)
    ensures Y == dyAbs ==> 2 * (dx * (1 + Y) - dyAbs * (1 + X)) > dx
  {
    if X == dx {
      NoXOvershoot(dx, dyAbs, Y);
    }
    if Y == dyAbs {
      NoYOvershoot(dx, dyAbs, X);
    }
  }

  /**
   The Bresenham part of ssd1306_buffer_draw_line between two on-panel end
   points, as the points it draws in the order it draws them: it starts at
   (x0, y0), ends at (x1, y1), moves to a neighbouring pixel of the bounding
   box each round, and on a horizontal or vertical segment visits every pixel
   between the end points.
   */
  method Bresenham(x0: i16, y0: i16, x1: i16, y1: i16) returns (path: seq<(int, int)>)
    requires OnCanvas(x0, y0) && OnCanvas(x1, y1)
    ensures |path| >= 1 && path[0] == (x0 as int, y0 as int) && path[|path| - 1] == (x1 as int, y1 as int)
    ensures forall p | p in path :: InRect(p.0, p.1, x0, y0, x1, y1)
    ensures Connected(path)
    ensures y0 == y1 ==> forall px | Min(x0, x1) <= px <= Max(x0, x1) :: OnPath(path, px, y0)
    ensures x0 == x1 ==> forall py | Min(y0, y1) <= py <= Max(y0, y1) :: OnPath(path, x0, py)
  {
    var dx: i16 := Abs(x1 - x0);
    var dy: i16 := -(Abs(y1 - y0) as int);
    var sx: i16 := if x0 < x1 then 1 else -1;
    var sy: i16 := if y0 < y1 then 1 else -1;
    var err: i16 := dx + dy;
    var s := Segment(x0, y0, x1, y1, dx, dy, sx, sy);
    var t0 := Cursor(x0, y0, err, 0, 0);
    path := Trace(s, t0);
    TraceInBox(s, t0);
    TraceConnected(s, t0);
    if y0 == y1 {
      TraceCoversRow(s, t0);
      forall px | Min(x0, x1) <= px <= Max(x0, x1)
        ensures OnPath(path, px, y0)
      {
        var k := Abs(px - x0);
        assert Walk(x0, sx, k) == px;
      }
    }
    if x0 == x1 {
      TraceCoversColumn(s, t0);
      forall py | Min(y0, y1) <= py <= Max(y0, y1)
        ensures OnPath(path, x0, py)
      {
        var k := Abs(py - y0);
        assert Walk(y0, sy, k) == py;
      }
    }
  }

  /** Every point of the path is on the panel and has the colour. */
  predicate Painted(r: Canvas, path: seq<(int, int)>, color: Color)
  {
    forall p | p in path :: OnCanvas(p.0, p.1) && Pixel(r, p.0, p.1) == color
  }

  /**
   A segment with clip result k is visible on r: when k accepts it, both
   clipped end points and a connected path between them have the colour.
   */
  ghost predicate Visible(r: Canvas, k: Clipped, color: Color)
  {
    k.accept ==>
      && OnCanvas(k.x0, k.y0) && OnCanvas(k.x1, k.y1)
      && Pixel(r, k.x0, k.y0) == color && Pixel(r, k.x1, k.y1) == color
      && exists path | LinePath(path, k.x0, k.y0, k.x1, k.y1) :: Painted(r, path, color)
  }

  /**
   A drawing step that only turns pixels to the colour keeps every segment
   already drawn in that colour.
   */
  lemma VisibleKept(r1: Canvas, r2: Canvas, k: Clipped, color: Color)
    requires Visible(r1, k, color)
    requires forall px, py | OnCanvas(px, py) && Pixel(r2, px, py) != Pixel(r1, px, py) :: Pixel(r2, px, py) == color
    ensures Visible(r2, k, color)
  {
    if k.accept {
      var path :| LinePath(path, k.x0, k.y0, k.x1, k.y1) && Painted(r1, path, color);
      assert Painted(r2, path, color);
    }
  }

  /**
   ssd1306_buffer_draw_line. The segment is clipped; a rejected segment (in
   particular one with both end points beyond the same edge) draws nothing;
   an accepted one draws exactly the points of a connected path from the
   first clipped end point to the second, so both clipped end points are
   drawn. End points on the panel are drawn; every pixel that changes takes
   the colour and lies in the segment's bounding box. A horizontal or
   vertical segment draws exactly its on-panel pixels.
   */
  method DrawLine(c: Canvas, x0: i16, y0: i16, x1: i16, y1: i16, color: Color) returns (r: Canvas)
    ensures OutCode(x0, y0) & OutCode(x1, y1) != 0 ==> r == c
    ensures !ClipLine(x0, y0, x1, y1).accept ==> r == c
    ensures var k := ClipLine(x0, y0, x1, y1);
      k.accept ==> exists path | LinePath(path, k.x0, k.y0, k.x1, k.y1) :: r == DrawPath(c, path, color)
    ensures var k := ClipLine(x0, y0, x1, y1);
      k.accept ==> Pixel(r, k.x0, k.y0) == color && Pixel(r, k.x1, k.y1) == color
    ensures Visible(r, ClipLine(x0, y0, x1, y1), color)
    ensures OnCanvas(x0, y0) ==> Pixel(r, x0, y0) == color
    ensures OnCanvas(x1, y1) ==> Pixel(r, x1, y1) == color
    ensures forall px, py | OnCanvas(px, py) && Pixel(r, px, py) != Pixel(c, px, py) ::
      Pixel(r, px, py) == color && InRect(px, py, x0, y0, x1, y1)
    ensures y0 == y1 ==> forall px, py | OnCanvas(px, py) ::
      Pixel(r, px, py) == if py == y0 && Min(x0, x1) <= px <= Max(x0, x1) then color else Pixel(c, px, py)
    ensures x0 == x1 ==> forall px, py | OnCanvas(px, py) ::
      Pixel(r, px, py) == if px == x0 && Min(y0, y1) <= py <= Max(y0, y1) then color else Pixel(c, px, py)
    ensures Tracks(c, r)
  {
    var k := ClipLine(x0, y0, x1, y1);
    if !k.accept {
      TracksReflexive(c);
      return c;
    }
    r := DrawClipped(c, x0, y0, x1, y1, k, color);
    ClippedPathDrawn(c, r, color, x0, y0, x1, y1, k);
  }

  /**
   The accepted branch of ssd1306_buffer_draw_line: Bresenham's path between
   the clipped end points k, drawn point by point. `k` carries what clipping
   guarantees about the end points.
   */
  method DrawClipped(c: Canvas, x0: i16, y0: i16, x1: i16, y1: i16, k: Clipped, color: Color) returns (r: Canvas)
    requires k.accept && OnCanvas(k.x0, k.y0) && OnCanvas(k.x1, k.y1)
    requires InRect(k.x0, k.y0, x0, y0, x1, y1) && InRect(k.x1, k.y1, x0, y0, x1, y1)
    requires y0 == y1 ==> k.y0 == y0 && k.y1 == y0 && k.x0 == Clamp(x0, 0, W - 1) && k.x1 == Clamp(x1, 0, W - 1)
    requires x0 == x1 ==> k.x0 == x0 && k.x1 == x0 && k.y0 == Clamp(y0, 0, H - 1) && k.y1 == Clamp(y1, 0, H - 1)
    ensures exists path | LinePath(path, k.x0, k.y0, k.x1, k.y1) :: r == DrawPath(c, path, color)
    ensures y0 == y1 ==> forall px, py | OnCanvas(px, py) ::
      Pixel(r, px, py) == if py == y0 && Min(x0, x1) <= px <= Max(x0, x1) then color else Pixel(c, px, py)
    ensures x0 == x1 ==> forall px, py | OnCanvas(px, py) ::
      Pixel(r, px, py) == if px == x0 && Min(y0, y1) <= py <= Max(y0, y1) then color else Pixel(c, px, py)
    ensures Tracks(c, r)
  {
    var path := Bresenham(k.x0, k.y0, k.x1, k.y1);
    r := DrawPath(c, path, color);
    assert LinePath(path, k.x0, k.y0, k.x1, k.y1);
    if y0 == y1 {
      RowDrawn(c, path, color, x0, x1, y0, k.x0, k.x1);
    }
    if x0 == x1 {
      ColumnDrawn(c, path, color, y0, y1, x0, k.y0, k.y1);
    }
  }

  /**
   Drawing a path between clipped end points k draws both of them and makes
   the segment visible; every pixel that changes takes the colour and lies in
   the original segment's bounding box.
   */
  lemma ClippedPathDrawn(c: Canvas, r: Canvas, color: Color, x0: i16, y0: i16, x1: i16, y1: i16, k: Clipped)
    requires k.accept && OnCanvas(k.x0, k.y0) && OnCanvas(k.x1, k.y1)
    requires InRect(k.x0, k.y0, x0, y0, x1, y1) && InRect(k.x1, k.y1, x0, y0, x1, y1)
    requires exists path | LinePath(path, k.x0, k.y0, k.x1, k.y1) :: r == DrawPath(c, path, color)
    ensures Pixel(r, k.x0, k.y0) == color && Pixel(r, k.x1, k.y1) == color
    ensures Visible(r, k, color)
    ensures forall px, py | OnCanvas(px, py) && Pixel(r, px, py) != Pixel(c, px, py) ::
      Pixel(r, px, py) == color && InRect(px, py, x0, y0, x1, y1)
  {
    var path :| LinePath(path, k.x0, k.y0, k.x1, k.y1) && r == DrawPath(c, path, color);
    assert path[0] in path && path[|path| - 1] in path;
    assert Painted(r, path, color);
    BoxWithinBox(k.x0, k.y0, k.x1, k.y1, x0, y0, x1, y1);
  }

  /**
   A path along row y that covers the clamped span of [x0, x1] and stays
   inside it draws exactly the on-panel pixels of that span.
   */
  lemma RowDrawn(c: Canvas, path: seq<(int, int)>, color: Color, x0: int, x1: int, y: int, cx0: int, cx1: int)
    requires cx0 == Clamp(x0, 0, W - 1) && cx1 == Clamp(x1, 0, W - 1)
    requires forall p | p in path :: InRect(p.0, p.1, x0, y, x1, y)
    requires forall px | Min(cx0, cx1) <= px <= Max(cx0, cx1) :: OnPath(path, px, y)
    ensures forall px, py | OnCanvas(px, py) ::
      Pixel(DrawPath(c, path, color), px, py) == if py == y && Min(x0, x1) <= px <= Max(x0, x1) then color else Pixel(c, px, py)
  {
    forall px, py | OnCanvas(px, py)
      ensures Pixel(DrawPath(c, path, color), px, py) ==
        if py == y && Min(x0, x1) <= px <= Max(x0, x1) then color else Pixel(c, px, py)
    {
      if py == y && Min(x0, x1) <= px <= Max(x0, x1) {
        assert Min(cx0, cx1) <= px <= Max(cx0, cx1);
        assert OnPath(path, px, py);
      }
    }
  }

  /** The same for a path along column x. */
  lemma ColumnDrawn(c: Canvas, path: seq<(int, int)>, color: Color, y0: int, y1: int, x: int, cy0: int, cy1: int)
    requires cy0 == Clamp(y0, 0, H - 1) && cy1 == Clamp(y1, 0, H - 1)
    requires forall p | p in path :: InRect(p.0, p.1, x, y0, x, y1)
    requires forall py | Min(cy0, cy1) <= py <= Max(cy0, cy1) :: OnPath(path, x, py)
    ensures forall px, py | OnCanvas(px, py) ::
      Pixel(DrawPath(c, path, color), px, py) == if px == x && Min(y0, y1) <= py <= Max(y0, y1) then color else Pixel(c, px, py)
  {
    forall px, py | OnCanvas(px, py)
      ensures Pixel(DrawPath(c, path, color), px, py) ==
        if px == x && Min(y0, y1) <= py <= Max(y0, y1) then color else Pixel(c, px, py)
    {
      if px == x && Min(y0, y1) <= py <= Max(y0, y1) {
        assert Min(cy0, cy1) <= py <= Max(cy0, cy1);
        assert OnPath(path, px, py);
      }
    }
  }

  /** The bounding box of two points of a box lies inside that box. */
  lemma BoxWithinBox(ax: int, ay: int, bx: int, bz: int, x0: int, y0: int, x1: int, y1: int)
    requires InRect(ax, ay, x0, y0, x1, y1) && InRect(bx, bz, x0, y0, x1, y1)
    ensures forall px, py | InRect(px, py, ax, ay, bx, bz) :: InRect(px, py, x0, y0, x1, y1)
  {
  }
}
