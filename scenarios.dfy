/**
 * Concrete cases: the three shapes of the demo driver in main.rb, the
 * order dependence of `<<`, and edge cases of the oracle.
 */
module Scenarios {
  import opened Wrappers
  import opened Render
  import opened Geometry
  import Circles

  const RedSquare: Value := Str("sprites/square/red.png")

  /** `$circle` against `$square`: 640 > 0 + 300, rejected by the boxes at any angle. */
  lemma CircleMissesSquare(angle: real)
    ensures IntersectRect(Some(Circle(0, 0, 300, 300)), Some(Rect(640, 0, 300, 300)), angle) == Some(false)
  {
  }

  /** `$circle` against `$ellipse`: the circle's top 300 is below the ellipse's bottom 600. */
  lemma CircleMissesEllipse(angle: real)
    ensures Circle(0, 0, 300, 300).IntersectRectWith(Some(Circle(640, 600, 640, 120)), angle) == Some(false)
  {
  }

  /** Two circles with overlapping boxes are reported apart. */
  lemma OverlappingCirclesReportedApart(angle: real)
    ensures IntersectRect(Some(Circle(0, 0, 300, 300)), Some(Circle(0, 0, 640, 120)), angle) == Some(false)
  {
  }

  /** A rect across both axes of the circle centred at (300, 150) hits without a corner test. */
  lemma StraddlingRectHits(angle: real)
    ensures StraddlesAxis(Rect(100, 50, 400, 200), Circle(150, 0, 300, 300))
    ensures IntersectRect(Some(Rect(100, 50, 400, 200)), Some(Circle(150, 0, 300, 300)), angle) == Some(true)
  {
    var c := Circle(150, 0, 300, 300);
    assert c.Rx() == 150 && c.Ry() == 150 && c.AxisX() == 300 && c.AxisY() == 150;
    AxisStraddleShortCircuit(Rect(100, 50, 400, 200), c, angle);
  }

  /** A corner exactly on the ellipse is a miss: (5, 0) lies on the circle of radius 5 about (5, 5). */
  lemma CornerOnEllipseMisses()
    ensures IntersectRect(Some(Rect(0, -5, 5, 5)), Some(Circle(0, 0, 10, 10)), 45.0) == Some(false)
  {
    var r, c := Rect(0, -5, 5, 5), Circle(0, 0, 10, 10);
    assert c.Rx() == 5 && c.Ry() == 5 && c.AxisX() == 5 && c.AxisY() == 5;
    assert !StraddlesAxis(r, c);
    assert CornerFor(45.0) == TopRight && CornerPoint(r, TopRight) == (5, 0);
    CornerTest(r, c, 45.0);
  }

  /** A strictly inside corner is a hit, and the operand order does not matter. */
  lemma CornerInsideHits()
    ensures IntersectRect(Some(Circle(0, 0, 10, 10)), Some(Rect(-2, -2, 4, 4)), 45.0) == Some(true)
  {
    var r, c := Rect(-2, -2, 4, 4), Circle(0, 0, 10, 10);
    assert c.Rx() == 5 && c.Ry() == 5 && c.AxisX() == 5 && c.AxisY() == 5;
    assert !StraddlesAxis(r, c);
    assert CornerFor(45.0) == TopRight && CornerPoint(r, TopRight) == (2, 2);
    assert StrictlyInsideEllipse(2, 2, c);
    CornerTest(r, c, 45.0);
    ArgumentOrder(c, r, 45.0);
  }

  /**
   * Why the soundness lemma asks for even sizes: for a circle of odd height
   * the floored ellipse that `Covers` describes (radii `w / 2`, `h / 2`
   * rounded down) stops one unit short of the box's top, and a rect touching
   * that top is still reported as a hit. The drawn ellipse does reach it.
   */
  lemma {:induction false} OddHeightLeavesAGap()
    ensures IntersectRect(Some(Rect(0, 3, 2, 1)), Some(Circle(0, 0, 2, 3)), 0.0) == Some(true)
    ensures !exists px: int, py: int :: Covers(Rect(0, 3, 2, 1), px, py) && Covers(Circle(0, 0, 2, 3), px, py)
  {
    var c := Circle(0, 0, 2, 3);
    assert c.Rx() == 1 && c.Ry() == 1 && c.AxisY() == 1;
    forall px: int, py: int | Covers(Rect(0, 3, 2, 1), px, py)
      ensures !Covers(c, px, py)
    {
      var dy := py - 1;
      assert dy >= 2;
      assert dy * dy >= 2 * dy >= 4;
    }
  }

  /**
   * An odd size also moves the ellipse the oracle tests away from the one
   * the mask draws: for a 21×21 circle the test is centred at (10, 10) with
   * radius 10, the drawing at (10.5, 10.5) with radius 10.5, and a small rect
   * wholly outside the drawing is reported as a hit through its corner (3, 3).
   */
  lemma {:induction false} OddSizeCornerHitOutsideDrawing()
    ensures IntersectRect(Some(Rect(2, 2, 1, 1)), Some(Circle(0, 0, 21, 21)), 45.0) == Some(true)
    ensures forall px: real, py: real :: InDrawnEllipse(Circle(0, 0, 21, 21), px, py) ==>
              !(2.0 <= px <= 3.0 && 2.0 <= py <= 3.0)
  {
    var r, c := Rect(2, 2, 1, 1), Circle(0, 0, 21, 21);
    assert c.Rx() == 10 && c.Ry() == 10 && c.AxisX() == 10 && c.AxisY() == 10;
    assert !StraddlesAxis(r, c);
    assert CornerFor(45.0) == TopRight && CornerPoint(r, TopRight) == (3, 3);
    assert StrictlyInsideEllipse(3, 3, c);
    CornerTest(r, c, 45.0);
    forall px: real, py: real | 2.0 <= px <= 3.0 && 2.0 <= py <= 3.0
      ensures !InDrawnEllipse(c, px, py)
    {
      var u, v := 21.0 - 2.0 * px, 21.0 - 2.0 * py;
      assert 15.0 <= u && 15.0 <= v;
      assert u * u >= 15.0 * u >= 225.0;
      assert v * v >= 15.0 * v >= 225.0;
      assert (-u) * (-u) == u * u && (-v) * (-v) == v * v;
    }
  }

  /** `path` before `w` and `h` snapshots a 0×0 target; after them, the full size. */
  lemma PathSnapshotsCurrentSize(p: Value)
    ensures Circles.MergeAll(Circles.Initial, [("path", p), ("w", Num(300)), ("h", Num(300))]).rt
            == Some(Target(0, 0, PathLayers(0, 0, p)))
    ensures Circles.MergeAll(Circles.Initial, [("w", Num(300)), ("h", Num(300)), ("path", p)]).rt
            == Some(Target(300, 300, PathLayers(300, 300, p)))
  {
    var e := Circles.Initial;
    SimpleNames();
    var pw, ph, pp := ("w", Num(300)), ("h", Num(300)), ("path", p);
    var early := Circles.Entity(0, 0, 0, 0, Some(p), map[], Some(Target(0, 0, PathLayers(0, 0, p))));
    assert Circles.MergeAll(e, [pp, pw, ph]).rt == early.rt by {
      assert Circles.Assign(e, pp) == early;
      assert Circles.MergeAll(early, [pw, ph]).rt == early.rt by {
        Circles.MergeAllCons(Circles.Assign(early, pw), ph, []);
        Circles.MergeAllCons(early, pw, [ph]);
        assert [pw] + [ph] == [pw, ph];
      }
      Circles.MergeAllCons(e, pp, [pw, ph]);
      assert [pp] + [pw, ph] == [pp, pw, ph];
    }
    var sized := Circles.Entity(0, 0, 300, 300, None, map[], None);
    assert Circles.MergeAll(e, [pw, ph, pp]).rt == Some(Target(300, 300, PathLayers(300, 300, p))) by {
      assert Circles.MergeAll(e, [pw, ph]) == sized by {
        assert Circles.Assign(e, pw) == sized.(h := 0);
        Circles.MergeAllCons(sized.(h := 0), ph, []);
        Circles.MergeAllCons(e, pw, [ph]);
        assert [pw] + [ph] == [pw, ph];
      }
      assert [pw, ph, pp] == [pw, ph] + [pp];
      Circles.MergeAllAppend(e, [pw, ph], [pp]);
      Circles.MergeAllCons(sized, pp, []);
    }
  }

  /** The keys of the demo hashes are names `attr_accessor` accepts. */
  lemma SimpleNames()
    ensures Circles.Accepted("x") && Circles.Accepted("y") && Circles.Accepted("w") && Circles.Accepted("h")
    ensures Circles.Accepted("path")
  {
    assert Circles.IsAttributeName("x") && Circles.IsAttributeName("y");
    assert Circles.IsAttributeName("w") && Circles.IsAttributeName("h");
  }

  /** `Circle.new(x:, y:, w:, h:, path:)` as the driver builds `$circle` and `$ellipse`. */
  lemma DemoCircleState(x: int, y: int, w: int, h: int, p: Value)
    ensures Circles.AllWellTyped([("x", Num(x)), ("y", Num(y)), ("w", Num(w)), ("h", Num(h)), ("path", p)])
    ensures Circles.MergeAll(Circles.Initial, [("x", Num(x)), ("y", Num(y)), ("w", Num(w)), ("h", Num(h)), ("path", p)])
            == Circles.Entity(x, y, w, h, Some(p), map[], Some(Target(w, h, PathLayers(w, h, p))))
  {
    SimpleNames();
    var px, py, pw, ph, pp := ("x", Num(x)), ("y", Num(y)), ("w", Num(w)), ("h", Num(h)), ("path", p);
    var last := Circles.Entity(x, y, w, h, Some(p), map[], Some(Target(w, h, PathLayers(w, h, p))));
    var e1 := Circles.Entity(x, 0, 0, 0, None, map[], None);
    var e2 := Circles.Entity(x, y, 0, 0, None, map[], None);
    var e3 := Circles.Entity(x, y, w, 0, None, map[], None);
    var e4 := Circles.Entity(x, y, w, h, None, map[], None);
    assert Circles.MergeAll(e4, [pp]) == last by {
      Circles.MergeAllCons(e4, pp, []);
    }
    assert Circles.MergeAll(e3, [ph, pp]) == last by {
      assert Circles.Assign(e3, ph) == e4;
      Circles.MergeAllCons(e3, ph, [pp]);
      assert [ph] + [pp] == [ph, pp];
    }
    assert Circles.MergeAll(e2, [pw, ph, pp]) == last by {
      assert Circles.Assign(e2, pw) == e3;
      Circles.MergeAllCons(e2, pw, [ph, pp]);
      assert [pw] + [ph, pp] == [pw, ph, pp];
    }
    assert Circles.MergeAll(e1, [py, pw, ph, pp]) == last by {
      assert Circles.Assign(e1, py) == e2;
      Circles.MergeAllCons(e1, py, [pw, ph, pp]);
      assert [py] + [pw, ph, pp] == [py, pw, ph, pp];
    }
    assert Circles.Assign(Circles.Initial, px) == e1;
    Circles.MergeAllCons(Circles.Initial, px, [py, pw, ph, pp]);
    assert [px] + [py, pw, ph, pp] == [px, py, pw, ph, pp];
  }

  /**
   * The driver's construction sequence: `$circle` then `$ellipse`. The
   * first circle creates the mask, the second leaves it as it was, and the
   * two private targets are distinct; the circle's target is `circle1`,
   * the ellipse's `circle2`, and at their starting positions the oracle
   * reports them apart.
   */
  method DemoConstruction() returns (circleTarget: string, ellipseTarget: string, hit: Option<bool>)
    ensures circleTarget == TargetName(1) && ellipseTarget == TargetName(2)
    ensures circleTarget != ellipseTarget && circleTarget != MaskName && ellipseTarget != MaskName
    ensures hit == Some(false)
  {
    var reg := new Circles.Registry();
    DemoCircleState(0, 0, 300, 300, RedSquare);
    var circle, ok1 := Circles.Circle.New(reg, [("x", Num(0)), ("y", Num(0)), ("w", Num(300)), ("h", Num(300)), ("path", RedSquare)]);
    assert ok1;
    assert reg.instances == 1 && circle.target == TargetName(1);
    assert IsMaskTarget(reg.targets[MaskName]);
    var mask := reg.targets[MaskName];

    assert circle.Fields().w == 300 && circle.Fields().h == 300;
    assert circle.Rx() == 150 && circle.Ry() == 150;
    assert circle.Path() == Some(RedSquare);
    assert reg.targets[circle.target] == Target(300, 300, PathLayers(300, 300, RedSquare));

    DemoCircleState(640, 600, 640, 120, RedSquare);
    var ellipse, ok2 := Circles.Circle.New(reg, [("x", Num(640)), ("y", Num(600)), ("w", Num(640)), ("h", Num(120)), ("path", RedSquare)]);
    assert reg.instances == 2 && ellipse.target == TargetName(2);
    assert reg.targets[MaskName] == mask;
    TargetNamesDistinct(1, 2);
    assert circle.target != ellipse.target;
    assert ellipse.Rx() == 320 && ellipse.Ry() == 60;

    hit := circle.Shape().IntersectRectWith(Some(ellipse.Shape()), 0.0);
    assert hit == Some(false);
    circleTarget, ellipseTarget := circle.target, ellipse.target;
    TargetNamesDistinct(0, 1);
    TargetNamesDistinct(0, 2);

    circle.SetRx(100);
    assert circle.Rx() == 100 && circle.w == 200 && circle.Ry() == 150;
  }
}
