/** What the wafer tiler promises, proved about its specification `Placements`:
    the shape of the candidate grid, the guarantees of every returned placement,
    the order of the list, the effect of `place_partial`, symmetry, and that the
    finite grid misses no tile of the unbounded lattice that touches the wafer. */
module WaferProperties {
  import opened Plane
  import opened Intersection
  import opened WaferTiler

  // ---------------------------------------------------------------------------
  // The candidate grid

  /** Position `k` of the unbounded lattice that the grid samples along one axis:
      `-limit + k * size`, shifted by half a tile when corners sit at the origin. */
  function LatticePosition(radius: real, size: real, chipCenter: bool, k: int): real
    requires size > 0.0
  {
    Step(-Limit(radius, size) + (if chipCenter then 0.0 else 0.5 * size), size, k)
  }

  /** `Arange` holds `start + k * step` at index `k`. */
  lemma {:induction false} ArangeAt(start: real, step: real, num: nat, k: nat)
    requires k < num
    ensures Arange(start, step, num)[k] == start + k as real * step
  {
    if k < num - 1 {
      ArangeAt(start, step, num - 1, k);
    }
  }

  /** In both `endpoint` modes the linspace step works out to exactly the tile
      size, so the samples are `-limit + k * size`. */
  lemma AxisSamplesAt(radius: real, size: real, chipCenter: bool, k: nat)
    requires radius > 0.0 && size > 0.0
    requires k < SampleCount(radius, size, chipCenter)
    ensures |AxisSamples(radius, size, chipCenter)| == SampleCount(radius, size, chipCenter)
    ensures AxisSamples(radius, size, chipCenter)[k] == -Limit(radius, size) + k as real * size
  {
    GridCountAtLeastTwo(radius, size);
    var n := GridCount(radius, size);
    var limit := Limit(radius, size);
    var d := (2 * n) as real;
    var ds := d * size;
    assert limit - -limit == ds;
    assert ds / d == size;
    ArangeAt(-limit, size, SampleCount(radius, size, chipCenter), k);
  }

  /** The candidate centres along one axis are the lattice positions `0` to
      `2 * count + int(chip_center) - 1`. */
  lemma AxisPositionsAt(radius: real, size: real, chipCenter: bool, k: nat)
    requires radius > 0.0 && size > 0.0
    requires k < SampleCount(radius, size, chipCenter)
    ensures |AxisPositions(radius, size, chipCenter)| == SampleCount(radius, size, chipCenter)
    ensures AxisPositions(radius, size, chipCenter)[k] == LatticePosition(radius, size, chipCenter, k)
  {
    AxisSamplesAt(radius, size, chipCenter, k);
  }

  /** With `chip_center` the origin is a candidate centre (index `count`);
      without it, tile edges fall on multiples of the tile size. */
  lemma AxisPositionsAlignment(radius: real, size: real, chipCenter: bool, k: nat)
    requires radius > 0.0 && size > 0.0
    requires k < SampleCount(radius, size, chipCenter)
    ensures chipCenter ==> GridCount(radius, size) < |AxisPositions(radius, size, chipCenter)|
                           && AxisPositions(radius, size, chipCenter)[GridCount(radius, size)] == 0.0
    ensures !chipCenter ==> AxisPositions(radius, size, chipCenter)[k] - 0.5 * size
                            == (k - GridCount(radius, size)) as real * size
  {
    var n := GridCount(radius, size);
    GridCountAtLeastTwo(radius, size);
    AxisPositionsAt(radius, size, chipCenter, k);
    if chipCenter {
      AxisPositionsAt(radius, size, chipCenter, n);
    }
  }

  /** The candidate centres along one axis are strictly increasing. */
  lemma AxisPositionsIncreasing(radius: real, size: real, chipCenter: bool)
    requires radius > 0.0 && size > 0.0
    ensures Increasing(AxisPositions(radius, size, chipCenter))
  {
    var ps := AxisPositions(radius, size, chipCenter);
    forall i, j | 0 <= i < j < |ps| ensures ps[i] < ps[j] {
      AxisPositionsAt(radius, size, chipCenter, i);
      AxisPositionsAt(radius, size, chipCenter, j);
      LatticeGap(radius, size, chipCenter, i, j);
    }
  }

  /** The candidate centres along one axis are symmetric about the origin. */
  lemma AxisPositionsSymmetric(radius: real, size: real, chipCenter: bool, k: nat)
    requires radius > 0.0 && size > 0.0
    requires k < |AxisPositions(radius, size, chipCenter)|
    ensures var ps := AxisPositions(radius, size, chipCenter); ps[|ps| - 1 - k] == -ps[k]
  {
    var ps := AxisPositions(radius, size, chipCenter);
    AxisPositionsAt(radius, size, chipCenter, k);
    AxisPositionsAt(radius, size, chipCenter, |ps| - 1 - k);
    var n := GridCount(radius, size);
    var a, b, nn := k as real * size, (|ps| - 1 - k) as real * size, n as real * size;
    assert a + b == (2 * n - 1 + (if chipCenter then 1 else 0)) as real * size;
    assert (2 * n) as real * size == 2.0 * nn;
  }

  /** Distinct candidate centres along one axis are at least a tile apart. */
  lemma AxisPositionsSpaced(radius: real, size: real, chipCenter: bool, u: real, v: real)
    requires radius > 0.0 && size > 0.0
    requires u in AxisPositions(radius, size, chipCenter) && v in AxisPositions(radius, size, chipCenter)
    requires u < v
    ensures u + size <= v
  {
    var ps := AxisPositions(radius, size, chipCenter);
    var i :| 0 <= i < |ps| && ps[i] == u;
    var j :| 0 <= j < |ps| && ps[j] == v;
    AxisPositionsAt(radius, size, chipCenter, i);
    AxisPositionsAt(radius, size, chipCenter, j);
    if i < j {
      LatticeGap(radius, size, chipCenter, i, j);
    } else if j < i {
      LatticeGap(radius, size, chipCenter, j, i);
    }
  }

  /** Lattice positions with distinct indices are at least a tile apart, in index order. */
  lemma LatticeGap(radius: real, size: real, chipCenter: bool, i: int, j: int)
    requires size > 0.0 && i < j
    ensures LatticePosition(radius, size, chipCenter, i) + size <= LatticePosition(radius, size, chipCenter, j)
  {
    StepGap(-Limit(radius, size) + (if chipCenter then 0.0 else 0.5 * size), size, i, j);
  }

  /** The candidate centres along one axis are closed under negation. */
  lemma AxisPositionsNegated(radius: real, size: real, chipCenter: bool, v: real)
    requires radius > 0.0 && size > 0.0
    requires v in AxisPositions(radius, size, chipCenter)
    ensures -v in AxisPositions(radius, size, chipCenter)
  {
    var ps := AxisPositions(radius, size, chipCenter);
    var k :| 0 <= k < |ps| && ps[k] == v;
    AxisPositionsSymmetric(radius, size, chipCenter, k);
    assert ps[|ps| - 1 - k] == -v;
  }

  // ---------------------------------------------------------------------------
  // Candidates and survivors

  /** Strictly increasing. */
  predicate Increasing(xs: seq<real>) {
    forall i, j :: 0 <= i < j < |xs| ==> xs[i] < xs[j]
  }

  /** `p` comes before `q` in row-major order: lower `y` first, then lower `x`. */
  predicate Before(p: Vec2, q: Vec2) {
    p.y < q.y || (p.y == q.y && p.x < q.x)
  }

  /** Strictly ascending in row-major order; in particular no repetition. */
  predicate RowMajor(s: seq<Vec2>) {
    forall i, j :: 0 <= i < j < |s| ==> Before(s[i], s[j])
  }

  /** The tail of a row-major sequence holds every element but the first. */
  lemma RowMajorTail(s: seq<Vec2>, p: Vec2)
    requires RowMajor(s) && s != []
    ensures p in s[1..] <==> p in s && p != s[0]
  {
    if p in s[1..] {
      var i :| 1 <= i < |s| && s[i] == p;
      assert Before(s[0], s[i]);
    }
    if p in s && p != s[0] {
      var i :| 0 <= i < |s| && s[i] == p;
      assert s[1..][i - 1] == p;
    }
  }

  /** Two row-major sequences with the same elements are the same sequence. */
  lemma {:induction false} RowMajorUnique(s: seq<Vec2>, t: seq<Vec2>)
    requires RowMajor(s) && RowMajor(t)
    requires forall p :: p in s <==> p in t
    ensures s == t
  {
    assert s != [] ==> s[0] in t;
    assert t != [] ==> t[0] in s;
    if s != [] && t != [] {
      assert s[0] == t[0] by {
        var i :| 0 <= i < |s| && s[i] == t[0];
        var j :| 0 <= j < |t| && t[j] == s[0];
        assert i != 0 ==> Before(s[0], s[i]);
        assert j != 0 ==> Before(t[0], t[j]);
      }
      forall p ensures p in s[1..] <==> p in t[1..] {
        RowMajorTail(s, p);
        RowMajorTail(t, p);
      }
      RowMajorUnique(s[1..], t[1..]);
      assert s == [s[0]] + s[1..] && t == [t[0]] + t[1..];
    }
  }

  lemma {:induction false} CandidatesLength(xs: seq<real>, ys: seq<real>)
    ensures |Candidates(xs, ys)| == |xs| * |ys|
  {
    if ys != [] {
      var m := |ys| - 1;
      CandidatesLength(xs, ys[..m]);
      assert |xs| * |ys| == |xs| * m + |xs|;
    }
  }

  /** The candidates are exactly the pairs of an `x` sample and a `y` sample. */
  lemma {:induction false} CandidatesMembership(xs: seq<real>, ys: seq<real>, p: Vec2)
    ensures p in Candidates(xs, ys) <==> p.x in xs && p.y in ys
  {
    if ys != [] {
      var m := |ys| - 1;
      CandidatesMembership(xs, ys[..m], p);
      assert p in Row(xs, ys[m]) <==> p.x in xs && p.y == ys[m] by {
        if p.x in xs && p.y == ys[m] {
          var i :| 0 <= i < |xs| && xs[i] == p.x;
          assert Row(xs, ys[m])[i] == p;
        }
      }
      assert ys == ys[..m] + [ys[m]];
    }
  }

  /** Increasing samples give candidates in strictly ascending row-major order. */
  lemma {:induction false} CandidatesRowMajor(xs: seq<real>, ys: seq<real>)
    requires Increasing(xs) && Increasing(ys)
    ensures RowMajor(Candidates(xs, ys))
  {
    if ys != [] {
      var m := |ys| - 1;
      var front, row := Candidates(xs, ys[..m]), Row(xs, ys[m]);
      CandidatesRowMajor(xs, ys[..m]);
      forall i | 0 <= i < |front| ensures front[i].y < ys[m] {
        CandidatesMembership(xs, ys[..m], front[i]);
      }
      var s := front + row;
      forall i, j | 0 <= i < j < |s| ensures Before(s[i], s[j]) {
        if j < |front| {
          assert s[i] == front[i] && s[j] == front[j];
        } else if i < |front| {
          assert s[i] == front[i] && s[j] == row[j - |front|];
        } else {
          assert s[i] == row[i - |front|] && s[j] == row[j - |front|];
        }
      }
    }
  }

  /** A survivor is a candidate that is kept, and every kept candidate survives. */
  lemma {:induction false} SurvivorsMembership(w: WaferParams, s: seq<Vec2>, p: Vec2)
    ensures p in Survivors(w, s) <==> p in s && Kept(w, p)
  {
    if s != [] {
      var m := |s| - 1;
      SurvivorsMembership(w, s[..m], p);
      assert s == s[..m] + [s[m]];
    }
  }

  /** The survivors keep the candidates' order and are no more numerous. */
  lemma {:induction false} SurvivorsRowMajor(w: WaferParams, s: seq<Vec2>)
    requires RowMajor(s)
    ensures RowMajor(Survivors(w, s)) && |Survivors(w, s)| <= |s|
  {
    if s != [] {
      var m := |s| - 1;
      var front := Survivors(w, s[..m]);
      SurvivorsRowMajor(w, s[..m]);
      if Kept(w, s[m]) {
        forall i | 0 <= i < |front| ensures Before(front[i], s[m]) {
          SurvivorsMembership(w, s[..m], front[i]);
          var k :| 0 <= k < m && s[..m][k] == front[i];
        }
        var r := front + [s[m]];
        forall i, j | 0 <= i < j < |r| ensures Before(r[i], r[j]) {
          if j < |front| {
            assert r[i] == front[i] && r[j] == front[j];
          }
        }
      }
    }
  }

  /** Filtering by a stricter rule after a looser one is filtering by the
      stricter rule alone. */
  lemma {:induction false} SurvivorsRefilter(strict: WaferParams, loose: WaferParams, s: seq<Vec2>)
    requires forall i :: 0 <= i < |s| ==> Kept(strict, s[i]) ==> Kept(loose, s[i])
    ensures Survivors(strict, Survivors(loose, s)) == Survivors(strict, s)
  {
    if s != [] {
      var m := |s| - 1;
      var front := Survivors(loose, s[..m]);
      assert forall i :: 0 <= i < m ==> s[..m][i] == s[i];
      SurvivorsRefilter(strict, loose, s[..m]);
      if Kept(loose, s[m]) {
        assert Survivors(loose, s) == front + [s[m]];
        SurvivorsSnoc(strict, front, s[m]);
      } else {
        assert Survivors(loose, s) == front;
      }
    }
  }

  /** Two rules that agree on every element of `s` keep the same elements. */
  lemma {:induction false} SurvivorsAgree(w1: WaferParams, w2: WaferParams, s: seq<Vec2>)
    requires forall i :: 0 <= i < |s| ==> (Kept(w1, s[i]) <==> Kept(w2, s[i]))
    ensures Survivors(w1, s) == Survivors(w2, s)
  {
    if s != [] {
      SurvivorsAgree(w1, w2, s[..|s| - 1]);
    }
  }

  // ---------------------------------------------------------------------------
  // The placements

  /** A placement is a grid point whose tile is kept, and every such grid point is placed. */
  lemma PlacementsMembership(w: WaferParams, p: Vec2)
    requires w.Valid()
    ensures p in Placements(w) <==> p.x in XPositions(w) && p.y in YPositions(w) && Kept(w, p)
  {
    SurvivorsMembership(w, Candidates(XPositions(w), YPositions(w)), p);
    CandidatesMembership(XPositions(w), YPositions(w), p);
  }

  /** At most one placement per grid cell: `(2*x_count + cc) * (2*y_count + cc)`. */
  lemma PlacementsBound(w: WaferParams)
    requires w.Valid()
    ensures |Placements(w)| <= SampleCount(w.radius, w.imageSize.x, w.chipCenter)
                               * SampleCount(w.radius, w.imageSize.y, w.chipCenter)
  {
    var xs, ys := XPositions(w), YPositions(w);
    CandidatesLength(xs, ys);
    AxisPositionsIncreasing(w.radius, w.imageSize.x, w.chipCenter);
    AxisPositionsIncreasing(w.radius, w.imageSize.y, w.chipCenter);
    CandidatesRowMajor(xs, ys);
    SurvivorsRowMajor(w, Candidates(xs, ys));
    GridCountAtLeastTwo(w.radius, w.imageSize.x);
    GridCountAtLeastTwo(w.radius, w.imageSize.y);
  }

  /** Placements come in strictly ascending row-major order (`y` outer, `x`
      inner), so no centre is listed twice. */
  lemma PlacementsRowMajor(w: WaferParams)
    requires w.Valid()
    ensures RowMajor(Placements(w))
    ensures forall i, j :: 0 <= i < j < |Placements(w)| ==> Placements(w)[i] != Placements(w)[j]
  {
    var xs, ys := XPositions(w), YPositions(w);
    AxisPositionsIncreasing(w.radius, w.imageSize.x, w.chipCenter);
    AxisPositionsIncreasing(w.radius, w.imageSize.y, w.chipCenter);
    CandidatesRowMajor(xs, ys);
    SurvivorsRowMajor(w, Candidates(xs, ys));
  }

  /** Two distinct placements are at least a tile apart on one axis, so
      their tiles do not overlap. */
  lemma PlacementsDisjoint(w: WaferParams, p: Vec2, q: Vec2)
    requires w.Valid() && p in Placements(w) && q in Placements(w) && p != q
    ensures Abs(p.x - q.x) >= w.imageSize.x || Abs(p.y - q.y) >= w.imageSize.y
  {
    PlacementsMembership(w, p);
    PlacementsMembership(w, q);
    if p.x < q.x {
      AxisPositionsSpaced(w.radius, w.imageSize.x, w.chipCenter, p.x, q.x);
    } else if q.x < p.x {
      AxisPositionsSpaced(w.radius, w.imageSize.x, w.chipCenter, q.x, p.x);
    } else if p.y < q.y {
      AxisPositionsSpaced(w.radius, w.imageSize.y, w.chipCenter, p.y, q.y);
    } else {
      AxisPositionsSpaced(w.radius, w.imageSize.y, w.chipCenter, q.y, p.y);
    }
  }

  /** Every placement passes the wafer test under `place_partial`: its tile
      meets the wafer when partial tiles are placed, and otherwise one of the
      tile and the wafer contains the other. */
  lemma PlacementsOnWafer(w: WaferParams, p: Vec2)
    requires w.Valid() && p in Placements(w)
    ensures OnWafer(w, p)
    ensures w.placePartial ==> Overlap(TileRect(p, w.imageSize), WaferCircle(w))
    ensures !w.placePartial ==> DiskWithinRect(TileRect(p, w.imageSize), WaferCircle(w))
                                || RectWithinDisk(TileRect(p, w.imageSize), WaferCircle(w))
  {
    PlacementsMembership(w, p);
    CheckIntersectionMeaning(TileRect(p, w.imageSize), WaferCircle(w), w.placePartial);
    AnyOverlapRule(TileRect(p, w.imageSize), WaferCircle(w));
  }

  /** No placement's tile shares a point with any keep-out zone, whatever
      `place_partial` says. */
  lemma PlacementsAvoidZones(w: WaferParams, p: Vec2, c: Vec2)
    requires w.Valid() && p in Placements(w)
    requires c in w.avoid
    ensures !HitsZone(w, p, c)
    ensures w.avoid[c] >= 0.0 ==> !Overlap(TileRect(p, w.imageSize), Circle(c, w.avoid[c]))
  {
    PlacementsMembership(w, p);
    if w.avoid[c] >= 0.0 {
      AnyOverlapRule(TileRect(p, w.imageSize), Circle(c, w.avoid[c]));
    }
  }

  /** A tile kept without partial placement is kept with it. */
  lemma KeptLoosened(w: WaferParams, p: Vec2)
    ensures Kept(w.(placePartial := false), p) ==> Kept(w.(placePartial := true), p)
  {
    var strict, loose := w.(placePartial := false), w.(placePartial := true);
    assert AvoidsZones(strict, p) == AvoidsZones(loose, p);
  }

  /** Placing partial tiles only adds placements: the list without them is the
      list with them, filtered again by the stricter rule. */
  lemma PartialSuperset(w: WaferParams)
    requires w.Valid()
    ensures Survivors(w.(placePartial := false), Placements(w.(placePartial := true)))
            == Placements(w.(placePartial := false))
    ensures forall p :: p in Placements(w.(placePartial := false)) ==> p in Placements(w.(placePartial := true))
  {
    var strict, loose := w.(placePartial := false), w.(placePartial := true);
    var cands := Candidates(XPositions(w), YPositions(w));
    forall i | 0 <= i < |cands| ensures Kept(strict, cands[i]) ==> Kept(loose, cands[i]) {
      KeptLoosened(w, cands[i]);
    }
    SurvivorsRefilter(strict, loose, cands);
    forall p | p in Placements(strict) ensures p in Placements(loose) {
      SurvivorsMembership(strict, cands, p);
      SurvivorsMembership(loose, cands, p);
    }
  }

  // ---------------------------------------------------------------------------
  // Symmetry

  /** The keep-out zones are symmetric under a half turn about the wafer
      centre (in particular, when there are none). */
  ghost predicate SymmetricZones(w: WaferParams) {
    forall c {:trigger Neg(c)} :: c in w.avoid ==> Neg(c) in w.avoid && w.avoid[Neg(c)] == w.avoid[c]
  }

  /** The mirror tile hits the mirror zone. */
  lemma HitsZoneReflected(w: WaferParams, p: Vec2, c: Vec2)
    requires w.Valid() && c in w.avoid && Neg(c) in w.avoid && w.avoid[Neg(c)] == w.avoid[c]
    ensures HitsZone(w, Neg(p), Neg(c)) == HitsZone(w, p, c)
  {
    assert TileRect(Neg(p), w.imageSize) == Reflect(TileRect(p, w.imageSize));
    CheckIntersectionReflected(TileRect(p, w.imageSize), Circle(c, w.avoid[c]), true);
  }

  /** The mirror tile passes the wafer test exactly when the tile does. */
  lemma OnWaferReflected(w: WaferParams, p: Vec2)
    requires w.Valid()
    ensures OnWafer(w, Neg(p)) == OnWafer(w, p)
  {
    var rect, circle := TileRect(p, w.imageSize), WaferCircle(w);
    assert TileRect(Neg(p), w.imageSize) == Reflect(rect);
    assert Circle(Neg(circle.center), circle.radius) == circle;
    CheckIntersectionReflected(rect, circle, w.placePartial);
    assert OnWafer(w, Neg(p)) == CheckIntersection(Reflect(rect), Circle(Neg(circle.center), circle.radius), w.placePartial);
  }

  /** With symmetric zones, a tile clear of every zone has a mirror tile
      clear of every zone. */
  lemma AvoidsZonesReflected(w: WaferParams, p: Vec2)
    requires w.Valid() && SymmetricZones(w)
    ensures AvoidsZones(w, p) ==> AvoidsZones(w, Neg(p))
  {
    if AvoidsZones(w, p) {
      forall c | c in w.avoid ensures !HitsZone(w, Neg(p), c) {
        var mirror := Neg(c);
        assert Neg(mirror) == c && mirror in w.avoid;
        assert !HitsZone(w, p, mirror);
        HitsZoneReflected(w, p, mirror);
      }
    }
  }

  /** With symmetric zones, the mirror tile is kept exactly when the tile is. */
  lemma KeptReflected(w: WaferParams, p: Vec2)
    requires w.Valid() && SymmetricZones(w)
    ensures Kept(w, Neg(p)) == Kept(w, p)
  {
    OnWaferReflected(w, p);
    AvoidsZonesReflected(w, p);
    AvoidsZonesReflected(w, Neg(p));
    assert Neg(Neg(p)) == p;
  }

  /** With symmetric keep-out zones (or none), the placements are symmetric
      under a half turn about the wafer centre. */
  lemma PlacementsSymmetric(w: WaferParams, p: Vec2)
    requires w.Valid() && SymmetricZones(w)
    ensures p in Placements(w) <==> Neg(p) in Placements(w)
  {
    PlacementsMembership(w, p);
    PlacementsMembership(w, Neg(p));
    KeptReflected(w, p);
    if p.x in XPositions(w) && p.y in YPositions(w) {
      AxisPositionsNegated(w.radius, w.imageSize.x, w.chipCenter, p.x);
      AxisPositionsNegated(w.radius, w.imageSize.y, w.chipCenter, p.y);
    }
    if Neg(p).x in XPositions(w) && Neg(p).y in YPositions(w) {
      AxisPositionsNegated(w.radius, w.imageSize.x, w.chipCenter, Neg(p).x);
      AxisPositionsNegated(w.radius, w.imageSize.y, w.chipCenter, Neg(p).y);
    }
  }

  // ---------------------------------------------------------------------------
  // The grid is large enough

  /** Along one axis, a lattice tile outside the sampled range lies wholly
      beyond the wafer: the `+ 1` in the count buys at least one tile of margin. */
  lemma LatticeBeyondWafer(radius: real, size: real, chipCenter: bool, k: int)
    requires radius > 0.0 && size > 0.0
    requires k < 0 || k >= SampleCount(radius, size, chipCenter)
    ensures var pos := LatticePosition(radius, size, chipCenter, k);
            pos + 0.5 * size < -radius || pos - 0.5 * size > radius
  {
    LimitCoversRadius(radius, size);
    if k < 0 {
      LatticeGap(radius, size, chipCenter, k, 0);
    } else {
      LatticeLast(radius, size, chipCenter);
      LatticeGap(radius, size, chipCenter, SampleCount(radius, size, chipCenter) - 1, k);
    }
  }

  /** The grid reaches at least one tile beyond the radius: `size * ceil(radius / size) >= radius`. */
  lemma LimitCoversRadius(radius: real, size: real)
    requires radius > 0.0 && size > 0.0
    ensures Limit(radius, size) >= radius + size
  {
    var q := radius / size;
    var c := Ceil(q);
    assert q * size == radius;
    var cs, qs := c as real * size, q * size;
    assert cs >= qs by {
      var d, ds := (c as real - q), (c as real - q) * size;
      assert ds >= 0.0;
      assert cs - qs == ds;
    }
    assert Limit(radius, size) == cs + size;
  }

  /** The last lattice position of the grid is `limit`, less half a tile when
      corners sit at the origin. */
  lemma LatticeLast(radius: real, size: real, chipCenter: bool)
    requires size > 0.0
    ensures LatticePosition(radius, size, chipCenter, SampleCount(radius, size, chipCenter) - 1)
            == Limit(radius, size) - (if chipCenter then 0.0 else 0.5 * size)
  {
    var n := GridCount(radius, size);
    var m := SampleCount(radius, size, chipCenter) - 1;
    var nn, ms := n as real * size, m as real * size;
    assert Limit(radius, size) == nn;
    if chipCenter {
      assert m == 2 * n;
      assert ms == 2.0 * nn;
    } else {
      assert m == 2 * n - 1;
      assert ms == 2.0 * nn - size;
    }
  }

  /** No tile of the unbounded lattice outside the candidate grid touches the
      wafer, even under the partial rule: the finite grid loses no placement. */
  lemma OffGridTilesMiss(w: WaferParams, kx: int, ky: int)
    requires w.Valid()
    requires !(0 <= kx < SampleCount(w.radius, w.imageSize.x, w.chipCenter))
             || !(0 <= ky < SampleCount(w.radius, w.imageSize.y, w.chipCenter))
    ensures var p := Vec2(LatticePosition(w.radius, w.imageSize.x, w.chipCenter, kx),
                          LatticePosition(w.radius, w.imageSize.y, w.chipCenter, ky));
            !CheckIntersection(TileRect(p, w.imageSize), WaferCircle(w), true)
  {
    var p := Vec2(LatticePosition(w.radius, w.imageSize.x, w.chipCenter, kx),
                  LatticePosition(w.radius, w.imageSize.y, w.chipCenter, ky));
    if !(0 <= kx < SampleCount(w.radius, w.imageSize.x, w.chipCenter)) {
      LatticeBeyondWafer(w.radius, w.imageSize.x, w.chipCenter, kx);
    } else {
      LatticeBeyondWafer(w.radius, w.imageSize.y, w.chipCenter, ky);
    }
    SeparatedMiss(TileRect(p, w.imageSize), WaferCircle(w));
  }

  // ---------------------------------------------------------------------------
  // A point keep-out zone

  /** A zero-radius zone at one grid point is hit by the tile at a grid point
      exactly when the two points coincide: neighbouring grid points are a
      whole tile apart. */
  lemma PointZoneHits(w: WaferParams, c: Vec2, p: Vec2)
    requires w.Valid() && c in w.avoid && w.avoid[c] == 0.0
    requires c.x in XPositions(w) && c.y in YPositions(w)
    requires p.x in XPositions(w) && p.y in YPositions(w)
    ensures HitsZone(w, p, c) <==> p == c
  {
    var rect := TileRect(p, w.imageSize);
    AnyOverlapRule(rect, Circle(c, 0.0));
    if p == c {
      assert rect.Contains(c) && Circle(c, 0.0).Contains(c);
    } else if Overlap(rect, Circle(c, 0.0)) {
      var q :| rect.Contains(q) && Circle(c, 0.0).Contains(q);
      WithinRadiusBounds(q.x - c.x, q.y - c.y, 0.0);
      assert rect.Contains(c);
      if p.x < c.x {
        AxisPositionsSpaced(w.radius, w.imageSize.x, w.chipCenter, p.x, c.x);
      } else if c.x < p.x {
        AxisPositionsSpaced(w.radius, w.imageSize.x, w.chipCenter, c.x, p.x);
      } else if p.y < c.y {
        AxisPositionsSpaced(w.radius, w.imageSize.y, w.chipCenter, p.y, c.y);
      } else {
        AxisPositionsSpaced(w.radius, w.imageSize.y, w.chipCenter, c.y, p.y);
      }
      assert false;
    }
  }

  /** A zero-radius keep-out zone at a candidate centre removes that one
      placement and nothing else. */
  lemma PointZoneRemovesOnlyItsTile(w: WaferParams, c: Vec2)
    requires w.Valid() && w.avoid == map[c := 0.0]
    requires c.x in XPositions(w) && c.y in YPositions(w)
    ensures forall p :: p in Placements(w) <==> p in Placements(w.(avoid := map[])) && p != c
  {
    var free := w.(avoid := map[]);
    forall p: Vec2 ensures p in Placements(w) <==> p in Placements(free) && p != c {
      PlacementsMembership(w, p);
      PlacementsMembership(free, p);
      if p.x in XPositions(w) && p.y in YPositions(w) {
        PointZoneHits(w, c, p);
        assert AvoidsZones(w, p) <==> !HitsZone(w, p, c);
      }
    }
  }
}
