/** The tiler on a small wafer: radius 10 with 10 x 10 tiles centred on the
    origin. Partial placement keeps the nine tiles that touch the wafer; whole
    placement keeps only the centre tile. */
module WaferExamples {
  import opened Plane
  import opened Intersection
  import opened WaferTiler
  import opened WaferProperties

  /** Radius 10, tiles of 10 x 10 centred on the origin, no keep-out zones. */
  function Small(placePartial: bool): WaferParams {
    WaferParams(10.0, true, placePartial, map[], Vec2(10.0, 10.0))
  }

  /** Five candidate centres per axis, from -20 to 20. */
  lemma SmallGrid(placePartial: bool)
    ensures Small(placePartial).Valid()
    ensures XPositions(Small(placePartial)) == [-20.0, -10.0, 0.0, 10.0, 20.0]
    ensures YPositions(Small(placePartial)) == [-20.0, -10.0, 0.0, 10.0, 20.0]
  {
    assert 10.0 / 10.0 == 1.0;
    assert GridCount(10.0, 10.0) == 2;
    var ps := AxisPositions(10.0, 10.0, true);
    AxisPositionsAt(10.0, 10.0, true, 0);
    AxisPositionsAt(10.0, 10.0, true, 1);
    AxisPositionsAt(10.0, 10.0, true, 2);
    AxisPositionsAt(10.0, 10.0, true, 3);
    AxisPositionsAt(10.0, 10.0, true, 4);
    assert |ps| == 5;
  }

  /** With partial placement, the kept grid tiles of the small wafer are the
      ones whose centre is at most a tile from the origin on both axes: the
      outer ring lies wholly beyond the wafer edge. */
  lemma SmallKeptPartial(p: Vec2)
    requires p.x in [-20.0, -10.0, 0.0, 10.0, 20.0] && p.y in [-20.0, -10.0, 0.0, 10.0, 20.0]
    ensures Kept(Small(true), p) <==> p.x in [-10.0, 0.0, 10.0] && p.y in [-10.0, 0.0, 10.0]
  {
    var w := Small(true);
    if p.x in [-10.0, 0.0, 10.0] && p.y in [-10.0, 0.0, 10.0] {
      SmallInnerKept(p);
    } else {
      SeparatedMiss(TileRect(p, w.imageSize), WaferCircle(w));
    }
  }

  /** Each of the nine inner tiles touches the wafer. */
  lemma SmallInnerKept(p: Vec2)
    requires p.x in [-10.0, 0.0, 10.0] && p.y in [-10.0, 0.0, 10.0]
    ensures Kept(Small(true), p)
  {
    assert AvoidsZones(Small(true), p);
  }

  /** Without partial placement, the only kept grid tile of the small wafer is the centre one. */
  lemma SmallKeptWhole(p: Vec2)
    requires p.x in [-20.0, -10.0, 0.0, 10.0, 20.0] && p.y in [-20.0, -10.0, 0.0, 10.0, 20.0]
    ensures Kept(Small(false), p) <==> p == Vec2(0.0, 0.0)
  {
    assert AvoidsZones(Small(false), p);
  }

  /** With partial placement the small wafer holds the 3 x 3 block of tiles
      around the centre, listed row by row. */
  lemma SmallPartialPlacements()
    ensures Placements(Small(true)) == Candidates([-10.0, 0.0, 10.0], [-10.0, 0.0, 10.0])
  {
    var w := Small(true);
    var inner := [-10.0, 0.0, 10.0];
    SmallGrid(true);
    forall p ensures p in Placements(w) <==> p in Candidates(inner, inner) {
      PlacementsMembership(w, p);
      CandidatesMembership(inner, inner, p);
      if p.x in XPositions(w) && p.y in YPositions(w) {
        SmallKeptPartial(p);
      }
    }
    PlacementsRowMajor(w);
    CandidatesRowMajor(inner, inner);
    RowMajorUnique(Placements(w), Candidates(inner, inner));
  }

  /** Without partial placement only the centre tile lies inside the wafer. */
  lemma SmallWholePlacements()
    ensures Placements(Small(false)) == [Vec2(0.0, 0.0)]
  {
    var w := Small(false);
    SmallGrid(false);
    forall p ensures p in Placements(w) <==> p in [Vec2(0.0, 0.0)] {
      PlacementsMembership(w, p);
      if p.x in XPositions(w) && p.y in YPositions(w) {
        SmallKeptWhole(p);
      }
    }
    PlacementsRowMajor(w);
    RowMajorUnique(Placements(w), [Vec2(0.0, 0.0)]);
  }
}
