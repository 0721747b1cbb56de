/** The circular wafer tiler (`wafer` in gfebuild/wafer.py): a symmetric grid of
    candidate tile centres with pitch equal to the tile size, filtered by the
    wafer-circle test and by the circular keep-out zones, kept in row-major order.

    The specification is the function `Placements`, a filter over the candidate
    sequence `Candidates`; the imperative `Wafer` method, which follows
    `wafer`'s nested loops, is proved to compute it. */
module WaferTiler {
  import opened Plane
  import opened Intersection

  /** The inputs of `wafer` that decide the placements (the CAD component and
      its layers only decide what is drawn at each placement). */
  datatype WaferParams = WaferParams(
    radius: real,
    chipCenter: bool,
    placePartial: bool,
    avoid: map<Vec2, real>,
    imageSize: Vec2)
  {
    /** A positive radius and a positive tile size. */
    predicate Valid() {
      radius > 0.0 && imageSize.x > 0.0 && imageSize.y > 0.0
    }
  }

  // ---------------------------------------------------------------------------
  // The candidate grid

  /** `np.linspace(start, stop, num, endpoint)` on exact reals: `num` samples
      from `start` with step `(stop - start) / (num - 1)` when the end point is
      included and `(stop - start) / num` otherwise. */
  function Linspace(start: real, stop: real, num: nat, endpoint: bool): (s: seq<real>)
    ensures |s| == num
  {
    var div := if endpoint then num - 1 else num;
    Arange(start, if div <= 0 then 0.0 else (stop - start) / div as real, num)
  }

  /** `start + k * step` for `k` in `0 .. num - 1`, built by appending. */
  function Arange(start: real, step: real, num: nat): (s: seq<real>)
    ensures |s| == num
  {
    if num == 0 then [] else Arange(start, step, num - 1) + [start + (num - 1) as real * step]
  }

  /** `int(np.ceil(radius / size)) + 1`: tiles needed to cover the radius, plus one. */
  function GridCount(radius: real, size: real): int
    requires size > 0.0
  {
    Ceil(radius / size) + 1
  }

  /** A positive radius needs at least one tile, so the grid reaches at least two. */
  lemma GridCountAtLeastTwo(radius: real, size: real)
    requires radius > 0.0 && size > 0.0
    ensures GridCount(radius, size) >= 2
  {
    QuotientPositive(radius, size);
  }

  /** Samples per axis: `2 * count + int(chip_center)`. */
  function SampleCount(radius: real, size: real, chipCenter: bool): int
    requires size > 0.0
  {
    2 * GridCount(radius, size) + (if chipCenter then 1 else 0)
  }

  /** `size * count`: the grid spans `[-limit, limit]`. */
  function Limit(radius: real, size: real): real
    requires size > 0.0
  {
    size * GridCount(radius, size) as real
  }

  /** The linspace samples along one axis, from `-limit` to `limit`. */
  function AxisSamples(radius: real, size: real, chipCenter: bool): seq<real>
    requires radius > 0.0 && size > 0.0
  {
    GridCountAtLeastTwo(radius, size);
    var limit := Limit(radius, size);
    Linspace(-limit, limit, SampleCount(radius, size, chipCenter), chipCenter)
  }

  /** A sample becomes a tile centre as it is, or shifted by half a tile when
      the tile's corner rather than its centre sits at the origin. */
  function Shift(v: real, size: real, chipCenter: bool): real {
    if chipCenter then v else v + 0.5 * size
  }

  /** Each sample shifted into a tile centre. */
  function Centres(samples: seq<real>, size: real, chipCenter: bool): seq<real> {
    seq(|samples|, k requires 0 <= k < |samples| => Shift(samples[k], size, chipCenter))
  }

  /** The candidate centre coordinates along one axis. */
  function AxisPositions(radius: real, size: real, chipCenter: bool): seq<real>
    requires radius > 0.0 && size > 0.0
  {
    Centres(AxisSamples(radius, size, chipCenter), size, chipCenter)
  }

  function XPositions(w: WaferParams): seq<real>
    requires w.Valid()
  {
    AxisPositions(w.radius, w.imageSize.x, w.chipCenter)
  }

  function YPositions(w: WaferParams): seq<real>
    requires w.Valid()
  {
    AxisPositions(w.radius, w.imageSize.y, w.chipCenter)
  }

  /** One row of candidates: every `x` with the same `y`, in order. */
  function Row(xs: seq<real>, y: real): seq<Vec2> {
    seq(|xs|, i requires 0 <= i < |xs| => Vec2(xs[i], y))
  }

  /** Extending a row by one more `x` appends one candidate. */
  lemma RowSnoc(xs: seq<real>, i: nat, y: real)
    requires i < |xs|
    ensures Row(xs[..i + 1], y) == Row(xs[..i], y) + [Vec2(xs[i], y)]
  {
  }

  /** All candidates, row after row: `y` outer, `x` inner. */
  function Candidates(xs: seq<real>, ys: seq<real>): seq<Vec2> {
    if ys == [] then [] else Candidates(xs, ys[..|ys| - 1]) + Row(xs, ys[|ys| - 1])
  }

  // ---------------------------------------------------------------------------
  // The acceptance rule and the placements

  /** The tile centred at `p`. */
  function TileRect(p: Vec2, size: Vec2): Rect {
    Rect(p.x - 0.5 * size.x, p.x + 0.5 * size.x, p.y - 0.5 * size.y, p.y + 0.5 * size.y)
  }

  /** The wafer: a circle of the given radius about the origin. */
  function WaferCircle(w: WaferParams): Circle {
    Circle(Vec2(0.0, 0.0), w.radius)
  }

  /** The tile at `p` passes the wafer test under `place_partial`. */
  predicate OnWafer(w: WaferParams, p: Vec2) {
    CheckIntersection(TileRect(p, w.imageSize), WaferCircle(w), w.placePartial)
  }

  /** The tile at `p` hits the keep-out zone centred at `c`; any overlap counts. */
  predicate HitsZone(w: WaferParams, p: Vec2, c: Vec2)
    requires c in w.avoid
  {
    CheckIntersection(TileRect(p, w.imageSize), Circle(c, w.avoid[c]), true)
  }

  /** The tile at `p` hits no keep-out zone. */
  predicate AvoidsZones(w: WaferParams, p: Vec2) {
    forall c :: c in w.avoid ==> !HitsZone(w, p, c)
  }

  predicate Kept(w: WaferParams, p: Vec2) {
    OnWafer(w, p) && AvoidsZones(w, p)
  }

  /** The candidates of `s` that are kept, in the order of `s`. */
  function Survivors(w: WaferParams, s: seq<Vec2>): seq<Vec2> {
    if s == [] then []
    else Survivors(w, s[..|s| - 1]) + (if Kept(w, s[|s| - 1]) then [s[|s| - 1]] else [])
  }

  /** The list of placed centres that `wafer` returns. */
  function Placements(w: WaferParams): seq<Vec2>
    requires w.Valid()
  {
    Survivors(w, Candidates(XPositions(w), YPositions(w)))
  }

  /** Appending one candidate appends it to the survivors exactly when it is kept. */
  lemma SurvivorsSnoc(w: WaferParams, s: seq<Vec2>, p: Vec2)
    ensures Survivors(w, s + [p]) == Survivors(w, s) + (if Kept(w, p) then [p] else [])
  {
    assert (s + [p])[..|s|] == s;
  }

  // ---------------------------------------------------------------------------
  // The imperative tiler

  /** The keep-out scan of `wafer`: walk the zones, setting `flag` and stopping
      at the first one the tile at `p` hits. */
  method HitsAnyZone(w: WaferParams, p: Vec2) returns (flag: bool)
    ensures flag == !AvoidsZones(w, p)
  {
    flag := false;
    var rest := w.avoid.Keys;
    while rest != {}
      invariant rest <= w.avoid.Keys
      invariant forall c :: c in w.avoid && c !in rest ==> !HitsZone(w, p, c)
      decreases rest
    {
      var c :| c in rest;
      if HitsZone(w, p, c) {
        flag := true;
        break;
      }
      rest := rest - {c};
    }
  }

  /** The per-candidate decision of `wafer`: the wafer test under
      `place_partial`, then the keep-out scan. */
  method Accepts(w: WaferParams, p: Vec2) returns (keep: bool)
    ensures keep == Kept(w, p)
  {
    if !OnWafer(w, p) {
      return false;
    }
    var flag := HitsAnyZone(w, p);
    if flag {
      return false;
    }
    return true;
  }

  /** The survivors of the first `i` candidates of row `j`, after all earlier rows. */
  function SurvivorsUpTo(w: WaferParams, xp: seq<real>, yp: seq<real>, j: nat, i: nat): seq<Vec2>
    requires j < |yp| && i <= |xp|
  {
    Survivors(w, Candidates(xp, yp[..j]) + Row(xp[..i], yp[j]))
  }

  /** One step of the inner loop: candidate `(xp[i], yp[j])` is appended exactly when kept. */
  lemma SurvivorsUpToStep(w: WaferParams, xp: seq<real>, yp: seq<real>, j: nat, i: nat)
    requires j < |yp| && i < |xp|
    ensures SurvivorsUpTo(w, xp, yp, j, i + 1)
         == SurvivorsUpTo(w, xp, yp, j, i) + (if Kept(w, Vec2(xp[i], yp[j])) then [Vec2(xp[i], yp[j])] else [])
  {
    var done := Candidates(xp, yp[..j]);
    RowSnoc(xp, i, yp[j]);
    assert done + Row(xp[..i + 1], yp[j]) == (done + Row(xp[..i], yp[j])) + [Vec2(xp[i], yp[j])];
    SurvivorsSnoc(w, done + Row(xp[..i], yp[j]), Vec2(xp[i], yp[j]));
  }

  /** The inner loop starts from the rows before `j` and ends with row `j` included. */
  lemma SurvivorsUpToRow(w: WaferParams, xp: seq<real>, yp: seq<real>, j: nat)
    requires j < |yp|
    ensures SurvivorsUpTo(w, xp, yp, j, 0) == Survivors(w, Candidates(xp, yp[..j]))
    ensures SurvivorsUpTo(w, xp, yp, j, |xp|) == Survivors(w, Candidates(xp, yp[..j + 1]))
  {
    var done := Candidates(xp, yp[..j]);
    assert done + Row(xp[..0], yp[j]) == done;
    assert xp[..|xp|] == xp;
    assert yp[..j + 1][..j] == yp[..j];
    assert done + Row(xp[..|xp|], yp[j]) == Candidates(xp, yp[..j + 1]);
  }

  /** The placement loop of `wafer` over given sample sequences: for every
      candidate, `y` outer and `x` inner, append it when it passes the wafer
      test and hits no keep-out zone. */
  method PlaceGrid(w: WaferParams, xs: seq<real>, ys: seq<real>) returns (placements: seq<Vec2>)
    ensures placements == Survivors(w, Candidates(Centres(xs, w.imageSize.x, w.chipCenter),
                                                  Centres(ys, w.imageSize.y, w.chipCenter)))
  {
    ghost var xp, yp := Centres(xs, w.imageSize.x, w.chipCenter), Centres(ys, w.imageSize.y, w.chipCenter);
    placements := [];
    for j := 0 to |ys|
      invariant placements == Survivors(w, Candidates(xp, yp[..j]))
    {
      SurvivorsUpToRow(w, xp, yp, j);
      for i := 0 to |xs|
        invariant placements == SurvivorsUpTo(w, xp, yp, j, i)
      {
        var xPos := if w.chipCenter then xs[i] else xs[i] + 0.5 * w.imageSize.x;
        var yPos := if w.chipCenter then ys[j] else ys[j] + 0.5 * w.imageSize.y;
        var p := Vec2(xPos, yPos);
        assert p == Vec2(xp[i], yp[j]);
        SurvivorsUpToStep(w, xp, yp, j, i);
        var keep := Accepts(w, p);
        if keep {
          placements := placements + [p];
        }
      }
    }
    assert yp[..|ys|] == yp;
  }

  /** `wafer`: the candidate samples of lines 39-49, then the placement loop. */
  method Wafer(radius: real, chipCenter: bool, placePartial: bool, avoid: map<Vec2, real>, imageSize: Vec2)
    returns (placements: seq<Vec2>)
    requires WaferParams(radius, chipCenter, placePartial, avoid, imageSize).Valid()
    ensures placements == Placements(WaferParams(radius, chipCenter, placePartial, avoid, imageSize))
  {
    var ys := AxisSamples(radius, imageSize.y, chipCenter);
    var xs := AxisSamples(radius, imageSize.x, chipCenter);
    placements := PlaceGrid(WaferParams(radius, chipCenter, placePartial, avoid, imageSize), xs, ys);
  }
}
