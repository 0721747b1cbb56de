/** The circle/rectangle test of the wafer tiler (`check_intersection`), lifted
    out of the candidate loop into a pure predicate over explicit rectangle
    bounds and an explicit circle, together with what each of its three cases
    means geometrically. */
module Intersection {
  import opened Plane

  /** An axis-aligned rectangle `[left, right] x [bottom, top]`. */
  datatype Rect = Rect(left: real, right: real, bottom: real, top: real) {
    predicate WellFormed() {
      left <= right && bottom <= top
    }

    /** The closed rectangle contains `p`. */
    predicate Contains(p: Vec2) {
      left <= p.x <= right && bottom <= p.y <= top
    }
  }

  /** A circle by its centre and radius; a negative radius bounds no point. */
  datatype Circle = Circle(center: Vec2, radius: real) {
    /** The closed disk contains `p`. */
    predicate Contains(p: Vec2) {
      WithinRadius(p.x - center.x, p.y - center.y, radius)
    }
  }

  /** `norm([a, b]) <= r`, compared on squares: a norm is never negative, so a
      negative `r` is never reached. */
  predicate WithinRadius(a: real, b: real, r: real) {
    0.0 <= r && a * a + b * b <= r * r
  }

  /** First case: the circle's bounding box lies in the rectangle. */
  predicate CircleInsideRect(rect: Rect, c: Circle) {
    c.center.x - c.radius >= rect.left
    && c.center.x + c.radius <= rect.right
    && c.center.y - c.radius >= rect.bottom
    && c.center.y + c.radius <= rect.top
  }

  /** Second case: the rectangle's corner farthest from the centre is within the radius. */
  predicate RectInsideCircle(rect: Rect, c: Circle) {
    var dx := Max(Abs(rect.left - c.center.x), Abs(rect.right - c.center.x));
    var dy := Max(Abs(rect.bottom - c.center.y), Abs(rect.top - c.center.y));
    WithinRadius(dx, dy, c.radius)
  }

  /** The point of the rectangle nearest the circle's centre, by clamping. */
  function Nearest(rect: Rect, c: Circle): Vec2 {
    Vec2(Max(rect.left, Min(c.center.x, rect.right)),
         Max(rect.bottom, Min(c.center.y, rect.top)))
  }

  /** Third case: the nearest point of the rectangle is within the radius. */
  predicate NearestWithin(rect: Rect, c: Circle) {
    var q := Nearest(rect, c);
    WithinRadius(c.center.x - q.x, c.center.y - q.y, c.radius)
  }

  /** The three-case test; the partial case counts only when `partial` is set. */
  function CheckIntersection(rect: Rect, c: Circle, partial: bool): bool {
    if CircleInsideRect(rect, c) then true
    else if RectInsideCircle(rect, c) then true
    else partial && NearestWithin(rect, c)
  }

  // ---------------------------------------------------------------------------
  // Reference definitions, stated on points rather than on bounds.

  /** Every point of the disk lies in the rectangle. */
  ghost predicate DiskWithinRect(rect: Rect, c: Circle) {
    forall p :: c.Contains(p) ==> rect.Contains(p)
  }

  /** Every point of the rectangle lies in the disk. */
  ghost predicate RectWithinDisk(rect: Rect, c: Circle) {
    forall p :: rect.Contains(p) ==> c.Contains(p)
  }

  /** The rectangle and the disk share a point. */
  ghost predicate Overlap(rect: Rect, c: Circle) {
    exists p :: rect.Contains(p) && c.Contains(p)
  }

  /** The first case holds exactly when the disk lies in the rectangle. */
  lemma CircleInsideRectMeaning(rect: Rect, c: Circle)
    requires 0.0 <= c.radius
    ensures CircleInsideRect(rect, c) <==> DiskWithinRect(rect, c)
  {
    var o, r := c.center, c.radius;
    if CircleInsideRect(rect, c) {
      forall p | c.Contains(p) ensures rect.Contains(p) {
        WithinRadiusBounds(p.x - o.x, p.y - o.y, r);
      }
    }
    if DiskWithinRect(rect, c) {
      assert c.Contains(Vec2(o.x - r, o.y)) && c.Contains(Vec2(o.x + r, o.y));
      assert c.Contains(Vec2(o.x, o.y - r)) && c.Contains(Vec2(o.x, o.y + r));
    }
  }

  /** Within the radius, each coordinate difference is within the radius. */
  lemma WithinRadiusBounds(a: real, b: real, r: real)
    requires WithinRadius(a, b, r)
    ensures Abs(a) <= r && Abs(b) <= r
  {
    var aa, bb, rr := a * a, b * b, r * r;
    assert aa >= 0.0 && bb >= 0.0;
    assert aa <= rr && bb <= rr;
    SquareBound(a, r);
    SquareBound(b, r);
  }

  /** Coordinate differences no larger in size than others within the radius
      are within the radius too. */
  lemma WithinRadiusMonotone(a: real, b: real, a': real, b': real, r: real)
    requires Abs(a) <= Abs(a') && Abs(b) <= Abs(b')
    requires WithinRadius(a', b', r)
    ensures WithinRadius(a, b, r)
  {
    SquareMonotone(a, a');
    SquareMonotone(b, b');
  }

  /** The end of `[lo, hi]` farther from `o`. */
  function FarEnd(lo: real, hi: real, o: real): real {
    if Abs(lo - o) < Abs(hi - o) then hi else lo
  }

  /** Along one axis, every point of `[lo, hi]` is at most as far from `o` as
      the farther end, and the farther end is that far. */
  lemma FarEndBounds(lo: real, hi: real, o: real, v: real)
    requires lo <= v <= hi
    ensures lo <= FarEnd(lo, hi, o) <= hi
    ensures Abs(FarEnd(lo, hi, o) - o) == Max(Abs(lo - o), Abs(hi - o))
    ensures Abs(v - o) <= Max(Abs(lo - o), Abs(hi - o))
  {
  }

  /** Along one axis, clamping `o` into `[lo, hi]` gives the point of the
      interval nearest `o`. */
  lemma ClampIsNearest(lo: real, hi: real, o: real, v: real)
    requires lo <= v <= hi
    ensures lo <= Max(lo, Min(o, hi)) <= hi
    ensures Abs(o - Max(lo, Min(o, hi))) <= Abs(v - o)
  {
  }

  /** The farthest corner within the radius puts every point of the rectangle in the disk. */
  lemma RectInsideCircleSound(rect: Rect, c: Circle)
    requires RectInsideCircle(rect, c)
    ensures RectWithinDisk(rect, c)
  {
    var o := c.center;
    var dx := Max(Abs(rect.left - o.x), Abs(rect.right - o.x));
    var dy := Max(Abs(rect.bottom - o.y), Abs(rect.top - o.y));
    assert WithinRadius(dx, dy, c.radius);
    forall p | rect.Contains(p) ensures c.Contains(p) {
      var a, b := p.x - o.x, p.y - o.y;
      FarEndBounds(rect.left, rect.right, o.x, p.x);
      FarEndBounds(rect.bottom, rect.top, o.y, p.y);
      WithinRadiusMonotone(a, b, dx, dy, c.radius);
      assert WithinRadius(a, b, c.radius);
    }
  }

  /** A rectangle inside the disk has its farthest corner within the radius. */
  lemma RectInsideCircleComplete(rect: Rect, c: Circle)
    requires rect.WellFormed() && RectWithinDisk(rect, c)
    ensures RectInsideCircle(rect, c)
  {
    var o := c.center;
    var far := Vec2(FarEnd(rect.left, rect.right, o.x), FarEnd(rect.bottom, rect.top, o.y));
    FarEndBounds(rect.left, rect.right, o.x, rect.left);
    FarEndBounds(rect.bottom, rect.top, o.y, rect.bottom);
    assert rect.Contains(far);
    assert c.Contains(far);
    var a, b := far.x - o.x, far.y - o.y;
    var dx := Max(Abs(rect.left - o.x), Abs(rect.right - o.x));
    var dy := Max(Abs(rect.bottom - o.y), Abs(rect.top - o.y));
    assert WithinRadius(a, b, c.radius);
    WithinRadiusMonotone(dx, dy, a, b, c.radius);
  }

  /** The second case holds exactly when the rectangle lies in the disk. */
  lemma RectInsideCircleMeaning(rect: Rect, c: Circle)
    requires rect.WellFormed()
    ensures RectInsideCircle(rect, c) <==> RectWithinDisk(rect, c)
  {
    if RectInsideCircle(rect, c) {
      RectInsideCircleSound(rect, c);
    }
    if RectWithinDisk(rect, c) {
      RectInsideCircleComplete(rect, c);
    }
  }

  /** The nearest point within the radius is a common point. */
  lemma NearestWithinSound(rect: Rect, c: Circle)
    requires rect.WellFormed() && NearestWithin(rect, c)
    ensures Overlap(rect, c)
  {
    var o, q := c.center, Nearest(rect, c);
    ClampIsNearest(rect.left, rect.right, o.x, rect.left);
    ClampIsNearest(rect.bottom, rect.top, o.y, rect.bottom);
    assert rect.Contains(q) && c.Contains(q);
  }

  /** A common point puts the nearest point within the radius. */
  lemma NearestWithinComplete(rect: Rect, c: Circle, p: Vec2)
    requires rect.Contains(p) && c.Contains(p)
    ensures NearestWithin(rect, c)
  {
    var o, q := c.center, Nearest(rect, c);
    var a, b := p.x - o.x, p.y - o.y;
    assert WithinRadius(a, b, c.radius);
    ClampIsNearest(rect.left, rect.right, o.x, p.x);
    ClampIsNearest(rect.bottom, rect.top, o.y, p.y);
    WithinRadiusMonotone(o.x - q.x, o.y - q.y, a, b, c.radius);
  }

  /** The third case holds exactly when the rectangle and the disk share a point. */
  lemma NearestWithinMeaning(rect: Rect, c: Circle)
    requires rect.WellFormed()
    ensures NearestWithin(rect, c) <==> Overlap(rect, c)
  {
    if NearestWithin(rect, c) {
      NearestWithinSound(rect, c);
    }
    if Overlap(rect, c) {
      var p :| rect.Contains(p) && c.Contains(p);
      NearestWithinComplete(rect, c, p);
    }
  }

  /** For a proper rectangle and circle, the test accepts exactly when one
      shape contains the other, or, if `partial` is set, when they overlap at all. */
  lemma CheckIntersectionMeaning(rect: Rect, c: Circle, partial: bool)
    requires rect.WellFormed() && 0.0 <= c.radius
    ensures CheckIntersection(rect, c, partial)
        <==> DiskWithinRect(rect, c) || RectWithinDisk(rect, c) || (partial && Overlap(rect, c))
  {
    CircleInsideRectMeaning(rect, c);
    RectInsideCircleMeaning(rect, c);
    NearestWithinMeaning(rect, c);
  }

  /** With `partial` set (the rule used for keep-out zones) the test is exactly
      "the rectangle and the disk share a point": containment adds nothing. */
  lemma AnyOverlapRule(rect: Rect, c: Circle)
    requires rect.WellFormed() && 0.0 <= c.radius
    ensures CheckIntersection(rect, c, true) <==> Overlap(rect, c)
  {
    NearestWithinMeaning(rect, c);
    if CircleInsideRect(rect, c) {
      assert rect.Contains(c.center) && c.Contains(c.center);
    }
    if RectInsideCircle(rect, c) {
      RectInsideCircleMeaning(rect, c);
      var corner := Vec2(rect.left, rect.bottom);
      assert rect.Contains(corner) && c.Contains(corner);
    }
  }

  // ---------------------------------------------------------------------------
  // Symmetry and separation

  /** The rectangle reflected through the origin. */
  function Reflect(rect: Rect): Rect {
    Rect(-rect.right, -rect.left, -rect.top, -rect.bottom)
  }

  /** Clamping into a reflected interval is reflecting the clamp. */
  lemma ClampReflected(lo: real, hi: real, o: real)
    requires lo <= hi
    ensures Max(-hi, Min(-o, -lo)) == -Max(lo, Min(o, hi))
  {
  }

  /** The farthest-corner case is unchanged by reflecting both shapes. */
  lemma RectInsideCircleReflected(rect: Rect, c: Circle)
    ensures RectInsideCircle(Reflect(rect), Circle(Neg(c.center), c.radius)) == RectInsideCircle(rect, c)
  {
    var rect', c' := Reflect(rect), Circle(Neg(c.center), c.radius);
    var o := c.center;
    assert Abs(rect'.left - c'.center.x) == Abs(rect.right - o.x);
    assert Abs(rect'.right - c'.center.x) == Abs(rect.left - o.x);
    assert Abs(rect'.bottom - c'.center.y) == Abs(rect.top - o.y);
    assert Abs(rect'.top - c'.center.y) == Abs(rect.bottom - o.y);
  }

  /** The nearest-point case is unchanged by reflecting both shapes. */
  lemma NearestWithinReflected(rect: Rect, c: Circle)
    requires rect.WellFormed()
    ensures NearestWithin(Reflect(rect), Circle(Neg(c.center), c.radius)) == NearestWithin(rect, c)
  {
    var rect', c' := Reflect(rect), Circle(Neg(c.center), c.radius);
    var o := c.center;
    ClampReflected(rect.left, rect.right, o.x);
    ClampReflected(rect.bottom, rect.top, o.y);
    var q, q' := Nearest(rect, c), Nearest(rect', c');
    var a, b := o.x - q.x, o.y - q.y;
    assert c'.center.x - q'.x == -a && c'.center.y - q'.y == -b;
    assert (-a) * (-a) == a * a && (-b) * (-b) == b * b;
  }

  /** Reflecting both shapes through the origin does not change the test. */
  lemma CheckIntersectionReflected(rect: Rect, c: Circle, partial: bool)
    requires rect.WellFormed()
    ensures CheckIntersection(Reflect(rect), Circle(Neg(c.center), c.radius), partial)
            == CheckIntersection(rect, c, partial)
  {
    RectInsideCircleReflected(rect, c);
    NearestWithinReflected(rect, c);
  }

  /** The rectangle lies wholly beyond the circle's reach along one axis. */
  predicate Separated(rect: Rect, c: Circle) {
    rect.right < c.center.x - c.radius || rect.left > c.center.x + c.radius
    || rect.top < c.center.y - c.radius || rect.bottom > c.center.y + c.radius
  }

  /** A rectangle separated from a circle along an axis fails the test even
      with `partial` set. */
  lemma SeparatedMiss(rect: Rect, c: Circle)
    requires rect.WellFormed() && 0.0 <= c.radius
    requires Separated(rect, c)
    ensures !CheckIntersection(rect, c, true)
  {
    AnyOverlapRule(rect, c);
    if Overlap(rect, c) {
      var p :| rect.Contains(p) && c.Contains(p);
      WithinRadiusBounds(p.x - c.center.x, p.y - c.center.y, c.radius);
      assert false;
    }
  }
}
