/**
 * The collision oracle `GTK::Geometry.intersect_rect?` for axis-aligned
 * rectangles and ellipses inscribed in their boxes.
 *
 * Coordinates are the engine's default anchor: a shape's box runs from
 * `left = x` to `right = x + w` and from `bottom = y` to `top = y + h`.
 * The angle the engine's `angle_to` would compute from the rectangle to
 * the circle is passed in, in degrees.
 */
module Geometry {
  import opened Wrappers

  /** Ruby's `Integer#/` by 2, which rounds toward negative infinity. */
  function FloorHalf(n: int): (r: int)
    ensures 2 * r <= n < 2 * r + 2
  {
    n / 2
  }

  /** A plain rect (a hash or any non-`Circle`) or a `Circle`. */
  datatype Shape = Rect(x: int, y: int, w: int, h: int) | Circle(x: int, y: int, w: int, h: int)
  {
    function Left(): int { x }
    function Right(): int { x + w }
    function Bottom(): int { y }
    function Top(): int { y + h }

    /** `Circle#rx` and `Circle#ry`: `FloorHalf`, as in `Circles.Entity` and `Circles.Circle`. */
    function Rx(): int { FloorHalf(w) }
    function Ry(): int { FloorHalf(h) }

    /** The vertical ellipse axis `circle.x + circle.rx` (`circle_y_axis`). */
    function AxisX(): int { x + Rx() }
    /** The horizontal ellipse axis `circle.y + circle.ry` (`circle_x_axis`). */
    function AxisY(): int { y + Ry() }

    /** The instance form `shape.intersect_rect?(outer)`: `self` is never nil. */
    function IntersectRectWith(outer: Option<Shape>, angle: real): (r: Option<bool>)
      ensures r.None? <==> outer.None?
      ensures outer.Some? ==> r == IntersectRect(Some(outer.value), Some(this), angle)
    {
      if outer.None? then None
      else
        ArgumentOrder(this, outer.value, angle);
        IntersectRect(Some(this), outer, angle)
    }
  }

  /** The rejection test: the boxes are strictly apart on some axis. */
  predicate BoxesSeparated(a: Shape, b: Shape)
  {
    a.Left() > b.Right() || a.Right() < b.Left() || a.Bottom() > b.Top() || a.Top() < b.Bottom()
  }

  /** The rect strictly straddles one of the circle's two axis lines. */
  predicate StraddlesAxis(rect: Shape, circle: Shape)
  {
    (rect.Left() < circle.AxisX() && rect.Right() > circle.AxisX()) ||
    (rect.Bottom() < circle.AxisY() && rect.Top() > circle.AxisY())
  }

  datatype Corner = TopRight | TopLeft | BottomLeft | BottomRight

  /**
   * The `case` over integer ranges: `Range#===` is a closed-interval test,
   * so a value in a gap (90.5) or a negative one reaches the `else` branch.
   */
  function CornerFor(angle: real): Corner
  {
    if 0.0 <= angle <= 90.0 then TopRight
    else if 91.0 <= angle <= 180.0 then TopLeft
    else if 181.0 <= angle <= 270.0 then BottomLeft
    else BottomRight
  }

  function CornerPoint(rect: Shape, c: Corner): (int, int)
  {
    match c
    case TopRight => (rect.Right(), rect.Top())
    case TopLeft => (rect.Left(), rect.Top())
    case BottomLeft => (rect.Left(), rect.Bottom())
    case BottomRight => (rect.Right(), rect.Bottom())
  }

  /**
   * `dx²/rx² + dy²/ry² < 1`, cross-multiplied. A zero radius makes the
   * float quotient Infinity or NaN, and neither is `< 1`.
   */
  predicate StrictlyInsideEllipse(px: int, py: int, c: Shape)
  {
    var rx, ry := c.Rx(), c.Ry();
    var dx, dy := px - c.AxisX(), py - c.AxisY();
    rx != 0 && ry != 0 && dx * dx * (ry * ry) + dy * dy * (rx * rx) < (rx * rx) * (ry * ry)
  }

  /** The oracle; `None` is Ruby's `nil` for a missing operand. */
  function IntersectRect(a: Option<Shape>, b: Option<Shape>, angle: real): (r: Option<bool>)
    ensures r.None? <==> a.None? || b.None?
  {
    if a.None? || b.None? then None
    else
      var r1, r2 := a.value, b.value;
      if BoxesSeparated(r1, r2) then Some(false)
      else if !r1.Circle? && !r2.Circle? then Some(true)
      else if r1.Circle? && r2.Circle? then Some(false)
      else
        var circle, rect := if r1.Circle? then r1 else r2, if r1.Circle? then r2 else r1;
        if StraddlesAxis(rect, circle) then Some(true)
        else
          var p := CornerPoint(rect, CornerFor(angle));
          Some(StrictlyInsideEllipse(p.0, p.1, circle))
  }

  // ---------------------------------------------------------------------
  // The tiers of the oracle

  /** Strictly apart boxes are rejected; boxes that only touch are not. */
  lemma BoxRejection(a: Shape, b: Shape, angle: real)
    ensures BoxesSeparated(a, b) ==> IntersectRect(Some(a), Some(b), angle) == Some(false)
    ensures a.Rect? && b.Rect? && WellSized(a) && WellSized(b) &&
            a.Right() == b.Left() && a.Bottom() == b.Bottom() && a.Top() == b.Top()
            ==> IntersectRect(Some(a), Some(b), angle) == Some(true)
  {
  }

  /** Past the box test, two rects hit and two circles miss, whatever they cover. */
  lemma SameKindAfterBoxTest(a: Shape, b: Shape, angle: real)
    requires !BoxesSeparated(a, b)
    ensures a.Rect? && b.Rect? ==> IntersectRect(Some(a), Some(b), angle) == Some(true)
    ensures a.Circle? && b.Circle? ==> IntersectRect(Some(a), Some(b), angle) == Some(false)
  {
  }

  /** With one circle, a rect across an ellipse axis hits before any corner is looked at. */
  lemma AxisStraddleShortCircuit(rect: Shape, circle: Shape, angle: real)
    requires rect.Rect? && circle.Circle? && !BoxesSeparated(rect, circle)
    requires StraddlesAxis(rect, circle)
    ensures IntersectRect(Some(rect), Some(circle), angle) == Some(true)
    ensures IntersectRect(Some(circle), Some(rect), angle) == Some(true)
  {
  }

  /**
   * Otherwise the answer is the strict ellipse test at the corner picked by
   * the angle, and a corner exactly on the ellipse is a miss.
   */
  lemma CornerTest(rect: Shape, circle: Shape, angle: real)
    requires rect.Rect? && circle.Circle? && !BoxesSeparated(rect, circle)
    requires !StraddlesAxis(rect, circle)
    ensures var p := CornerPoint(rect, CornerFor(angle));
            IntersectRect(Some(rect), Some(circle), angle) == Some(StrictlyInsideEllipse(p.0, p.1, circle))
    ensures var p := CornerPoint(rect, CornerFor(angle));
            var dx, dy, rx, ry := p.0 - circle.AxisX(), p.1 - circle.AxisY(), circle.Rx(), circle.Ry();
            dx * dx * (ry * ry) + dy * dy * (rx * rx) == (rx * rx) * (ry * ry)
            ==> IntersectRect(Some(rect), Some(circle), angle) == Some(false)
  {
  }

  /** The buckets of the `case`, with their closed ends and the catch-all. */
  lemma CornerBuckets(angle: real)
    ensures CornerFor(angle) == TopRight <==> 0.0 <= angle <= 90.0
    ensures CornerFor(angle) == TopLeft <==> 91.0 <= angle <= 180.0
    ensures CornerFor(angle) == BottomLeft <==> 181.0 <= angle <= 270.0
    ensures CornerFor(angle) == BottomRight <==>
            angle < 0.0 || (90.0 < angle < 91.0) || (180.0 < angle < 181.0) || 270.0 < angle
  {
  }

  /** The answer does not depend on which operand comes first. */
  lemma ArgumentOrder(a: Shape, b: Shape, angle: real)
    ensures IntersectRect(Some(a), Some(b), angle) == IntersectRect(Some(b), Some(a), angle)
  {
    assert BoxesSeparated(a, b) == BoxesSeparated(b, a);
  }

  // ---------------------------------------------------------------------
  // The ellipse test against the quotient the source writes

  /**
   * The source's `dx**2.to_f / rx**2 + dy**2.to_f / ry**2 < 1` over exact
   * reals; a zero radius stands for the IEEE division whose Infinity or
   * NaN compares false.
   */
  ghost predicate QuotientBelowOne(dx: int, dy: int, rx: int, ry: int)
  {
    rx != 0 && ry != 0 &&
    (dx * dx) as real / (rx * rx) as real + (dy * dy) as real / (ry * ry) as real < 1.0
  }

  lemma {:induction false} CrossMultipliedIsQuotient(dx: int, dy: int, rx: int, ry: int)
    ensures QuotientBelowOne(dx, dy, rx, ry) <==>
            (rx != 0 && ry != 0 && dx * dx * (ry * ry) + dy * dy * (rx * rx) < (rx * rx) * (ry * ry))
  {
    if rx != 0 && ry != 0 {
      var a, b := rx * rx, ry * ry;
      var p, q := dx * dx, dy * dy;
      assert 0 < a && 0 < b;
      QuotientSum(p as real, q as real, a as real, b as real);
      CastProduct(p, b);
      CastProduct(q, a);
      CastProduct(a, b);
    }
  }

  lemma CastProduct(u: int, v: int)
    ensures (u * v) as real == u as real * v as real
  {
  }

  /** `p/a + q/b < 1` exactly when `p·b + q·a < a·b`, for positive `a`, `b`. */
  lemma QuotientSum(p: real, q: real, a: real, b: real)
    requires 0.0 < a && 0.0 < b
    ensures p / a + q / b < 1.0 <==> p * b + q * a < a * b
  {
    var t := p / a + q / b;
    assert p / a * a == p;
    assert q / b * b == q;
    assert t * (a * b) == (p / a * a) * b + (q / b * b) * a;
    assert t * (a * b) == p * b + q * a;
    assert 0.0 < a * b;
    BelowOneScaled(t, a * b, p * b + q * a);
  }

  lemma BelowOneScaled(t: real, k: real, m: real)
    requires 0.0 < k && m == t * k
    ensures t < 1.0 <==> m < k
  {
    assert m - k == (t - 1.0) * k;
  }

  lemma EllipseTestIsSourceQuotient(px: int, py: int, c: Shape)
    ensures StrictlyInsideEllipse(px, py, c) <==> QuotientBelowOne(px - c.AxisX(), py - c.AxisY(), c.Rx(), c.Ry())
  {
    CrossMultipliedIsQuotient(px - c.AxisX(), py - c.AxisY(), c.Rx(), c.Ry());
  }

  /** A point strictly inside the ellipse is strictly inside the circle's box. */
  lemma InsideEllipseInsideBox(px: int, py: int, c: Shape)
    requires 0 <= c.w && 0 <= c.h
    ensures StrictlyInsideEllipse(px, py, c) ==>
            c.Left() < px < c.Right() && c.Bottom() < py < c.Top()
  {
    var rx, ry := c.Rx(), c.Ry();
    var dx, dy := px - c.AxisX(), py - c.AxisY();
    if StrictlyInsideEllipse(px, py, c) {
      assert 0 < rx && 0 < ry;
      assert dx * dx * (ry * ry) < (rx * rx) * (ry * ry);
      assert dy * dy * (rx * rx) < (rx * rx) * (ry * ry);
      SquareLess(dx, rx, ry * ry);
      SquareLess(dy, ry, rx * rx);
    }
  }

  /** `d²·k < r²·k` for a positive `k` bounds `d` strictly by `r`. */
  lemma SquareLess(d: int, r: int, k: int)
    requires 0 < r && 0 < k && d * d * k < r * r * k
    ensures -r < d < r
  {
    if d >= r {
      ScaledBelow(r, d, r);
      ScaledBelow(r, d, d);
      ScaledBelow(r * r, d * d, k);
    } else if d <= -r {
      ScaledBelow(r, -d, r);
      ScaledBelow(r, -d, -d);
      assert (-d) * (-d) == d * d;
      ScaledBelow(r * r, d * d, k);
    }
  }

  // ---------------------------------------------------------------------
  // Every `true` is a real contact

  /**
   * The closed region a shape covers: its box, or the ellipse the oracle
   * tests, centred on the axes with the rounded-down radii. For an odd
   * size that ellipse is smaller than the one drawn (`InDrawnEllipse`).
   */
  predicate Covers(s: Shape, px: int, py: int)
  {
    match s
    case Rect(_, _, _, _) => s.Left() <= px <= s.Right() && s.Bottom() <= py <= s.Top()
    case Circle(_, _, _, _) =>
      var rx, ry := s.Rx(), s.Ry();
      var dx, dy := px - s.AxisX(), py - s.AxisY();
      dx * dx * (ry * ry) + dy * dy * (rx * rx) <= (rx * rx) * (ry * ry)
  }

  /**
   * The ellipse the mask draws, inscribed in the whole `w`×`h` box with
   * centre `(x + w/2, y + h/2)`, written in doubled coordinates.
   */
  ghost predicate InDrawnEllipse(c: Shape, px: real, py: real)
  {
    var w, h := c.w as real, c.h as real;
    var u, v := 2.0 * px - 2.0 * c.x as real - w, 2.0 * py - 2.0 * c.y as real - h;
    u * u * (h * h) + v * v * (w * w) <= (w * w) * (h * h)
  }

  /**
   * Sizes for which the boxes describe the regions: no negative rect, and
   * a circle of even positive size, so that its ellipse fills its box.
   */
  predicate WellSized(s: Shape)
  {
    match s
    case Rect(_, _, w, h) => 0 <= w && 0 <= h
    case Circle(_, _, w, h) => 0 < w && 0 < h && w % 2 == 0 && h % 2 == 0
  }

  lemma SquareBelow(d: int, r: int)
    requires -r <= d <= r
    ensures d * d <= r * r
  {
    var e := if d < 0 then -d else d;
    assert e * e == d * d;
    assert e * e <= e * r <= r * r;
  }

  lemma ScaledBelow(u: int, v: int, k: int)
    requires u <= v && 0 <= k
    ensures u * k <= v * k
  {
  }

  /** A point on the axis line and within the ellipse's reach along it is covered. */
  lemma OnAxisCovered(c: Shape, px: int, py: int)
    requires WellSized(c) && c.Circle?
    requires (px == c.AxisX() && c.Bottom() <= py <= c.Top()) || (py == c.AxisY() && c.Left() <= px <= c.Right())
    ensures Covers(c, px, py)
  {
    var rx, ry := c.Rx(), c.Ry();
    var dx, dy := px - c.AxisX(), py - c.AxisY();
    if dx == 0 {
      SquareBelow(dy, ry);
      ScaledBelow(dy * dy, ry * ry, rx * rx);
      assert dx * dx * (ry * ry) == 0;
      assert dy * dy * (rx * rx) <= (ry * ry) * (rx * rx);
    } else {
      SquareBelow(dx, rx);
      ScaledBelow(dx * dx, rx * rx, ry * ry);
      assert dy * dy * (rx * rx) == 0;
    }
  }

  /** One rect, one circle: a `true` comes with a point both cover. */
  lemma {:induction false} MixedHitIsGenuine(rect: Shape, circle: Shape, angle: real)
    requires rect.Rect? && circle.Circle? && WellSized(rect) && WellSized(circle)
    requires IntersectRect(Some(rect), Some(circle), angle) == Some(true)
    ensures exists px: int, py: int :: Covers(rect, px, py) && Covers(circle, px, py)
  {
    var cx, cy := circle.AxisX(), circle.AxisY();
    if rect.Left() < cx && rect.Right() > cx {
      var py := if rect.Bottom() < circle.Bottom() then circle.Bottom() else rect.Bottom();
      OnAxisCovered(circle, cx, py);
      assert Covers(rect, cx, py);
    } else if rect.Bottom() < cy && rect.Top() > cy {
      var px := if rect.Left() < circle.Left() then circle.Left() else rect.Left();
      OnAxisCovered(circle, px, cy);
      assert Covers(rect, px, cy);
    } else {
      var p := CornerPoint(rect, CornerFor(angle));
      assert StrictlyInsideEllipse(p.0, p.1, circle);
      assert Covers(rect, p.0, p.1);
      assert Covers(circle, p.0, p.1);
    }
  }

  /**
   * Soundness of the oracle: whenever it answers `true`, the two shapes
   * share a point. (The converse fails for ellipses: the corner heuristic
   * can miss an overlap, and two circles are never reported.)
   */
  lemma {:induction false} HitIsGenuine(a: Shape, b: Shape, angle: real)
    requires WellSized(a) && WellSized(b)
    requires IntersectRect(Some(a), Some(b), angle) == Some(true)
    ensures exists px: int, py: int :: Covers(a, px, py) && Covers(b, px, py)
  {
    if a.Rect? && b.Rect? {
      var px := if a.Left() < b.Left() then b.Left() else a.Left();
      var py := if a.Bottom() < b.Bottom() then b.Bottom() else a.Bottom();
      assert Covers(a, px, py) && Covers(b, px, py);
    } else if a.Rect? {
      MixedHitIsGenuine(a, b, angle);
    } else {
      ArgumentOrder(a, b, angle);
      MixedHitIsGenuine(b, a, angle);
    }
  }

  /** For two rects the oracle is exact: `true` exactly when the closed boxes share a point. */
  lemma {:induction false} RectsHitIffBoxesMeet(a: Shape, b: Shape, angle: real)
    requires a.Rect? && b.Rect? && WellSized(a) && WellSized(b)
    ensures IntersectRect(Some(a), Some(b), angle) == Some(true) <==>
            exists px: int, py: int :: Covers(a, px, py) && Covers(b, px, py)
  {
    if IntersectRect(Some(a), Some(b), angle) == Some(true) {
      HitIsGenuine(a, b, angle);
    }
    if exists px: int, py: int :: Covers(a, px, py) && Covers(b, px, py) {
      var px: int, py: int :| Covers(a, px, py) && Covers(b, px, py);
      assert !BoxesSeparated(a, b);
    }
  }
}
