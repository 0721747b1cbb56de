/** The reticle packer (`reticle` in gfebuild/reticle.py): how many images fit
    on one reticle in a centred grid, how many reticles the images need, and
    where each image goes, reticle by reticle, row by row, column by column.

    The specification is the function `Pack`; the imperative `Reticle` method,
    which follows `reticle`'s triple loop with its early `break`, is proved to
    compute it. */
module ReticlePacker {
  import opened Plane

  /** Where an image lands: the index of its reticle and the centre of the image. */
  datatype Slot = Slot(reticle: int, x: real, y: real)

  /** One image drawn on a reticle: the layer it is taken from and its centre. */
  datatype Image<L> = Image(layer: L, x: real, y: real)

  /** The only failure: a reticle that holds no image, so the reticle count
      divides by zero. */
  datatype Error = ZeroDivision

  datatype Result<T> = Ok(value: T) | Err(error: Error)

  /** What `reticle` returns: the reticles, each the images drawn on it in
      drawing order, and the map from each layer to its slot. */
  datatype Layout<L> = Layout(reticles: seq<seq<Image<L>>>, placements: map<L, Slot>)

  /** Physical inputs: positive scale and image size, non-negative reticle
      size and clearance. */
  predicate ValidInputs(size: Vec2, scale: real, clearance: real, imageSize: Vec2) {
    scale > 0.0 && clearance >= 0.0 && size.x >= 0.0 && size.y >= 0.0
    && imageSize.x > 0.0 && imageSize.y > 0.0
  }

  /** Distance between neighbouring image centres along one axis: the scaled
      image plus the clearance, positive for physical inputs. */
  function Pitch(scale: real, clearance: real, image: real): (p: real)
    ensures scale > 0.0 && clearance >= 0.0 && image > 0.0 ==> p > 0.0
  {
    ProductPositive(scale, image);
    scale * image + clearance
  }

  /** The product of two positive reals is positive. */
  lemma ProductPositive(a: real, b: real)
    ensures a > 0.0 && b > 0.0 ==> a * b > 0.0
  {
    if a > 0.0 && b > 0.0 {
      QuotientPositive(a * b, b);
    }
  }

  /** `(extent + clearance) // pitch`: the most images of that pitch that fit,
      counting one clearance fewer than images. */
  function Capacity(extent: real, clearance: real, pitch: real): (n: nat)
    requires pitch > 0.0 && extent + clearance >= 0.0
    ensures n as real * pitch <= extent + clearance < (n + 1) as real * pitch
  {
    var q := (extent + clearance) / pitch;
    FloorScaled(extent + clearance, pitch);
    QuotientNonNegative(extent + clearance, pitch);
    q.Floor
  }

  /** Scaling `floor(q) <= q < floor(q) + 1` for `q = a / pitch` back by the pitch. */
  lemma FloorScaled(a: real, pitch: real)
    requires pitch > 0.0
    ensures (a / pitch).Floor as real * pitch <= a < ((a / pitch).Floor + 1) as real * pitch
  {
    var q := a / pitch;
    var f := q.Floor as real;
    assert q * pitch == a;
    var lo, hi := f * pitch, (q.Floor + 1) as real * pitch;
    assert hi == lo + pitch;
    var below, above := (q - f) * pitch, (f + 1.0 - q) * pitch;
    ProductPositive(q - f, pitch);
    ProductPositive(f + 1.0 - q, pitch);
    assert a - lo == below && hi - a == above;
    assert f <= q < f + 1.0;
    assert lo <= a by {
      if f == q {
        assert lo == q * pitch;
      }
    }
    assert a < hi;
    assert (a / pitch).Floor as real * pitch == lo;
  }

  /** `int(np.ceil(count / per_reticle))`: the number of reticles, the least
      whose combined room holds every image. */
  function ReticleCount(count: nat, perReticle: nat): (n: nat)
    requires perReticle > 0
    ensures (n - 1) * perReticle < count <= n * perReticle
    ensures n == 0 <==> count == 0
  {
    CeilDivBounds(count, perReticle);
    CeilMatches(count, perReticle, count / perReticle + (if count % perReticle == 0 then 0 else 1));
    Ceil(count as real / perReticle as real)
  }

  /** Integer ceiling division meets the bounds that define the reticle count. */
  lemma CeilDivBounds(count: nat, per: nat)
    requires per > 0
    ensures var n := count / per + (if count % per == 0 then 0 else 1);
            (n - 1) * per < count <= n * per && (n == 0 <==> count == 0)
  {
    var q, m := count / per, count % per;
    var qp := q * per;
    assert count == qp + m;
    var n := q + (if m == 0 then 0 else 1);
    assert n * per == qp + (if m == 0 then 0 else per);
    assert (n - 1) * per == n * per - per;
    assert q >= 0;
  }

  /** The ceiling of the exact quotient is the integer that meets those bounds. */
  lemma CeilMatches(count: nat, per: nat, n: int)
    requires per > 0
    requires (n - 1) * per < count <= n * per
    ensures Ceil(count as real / per as real) == n
  {
    var q, p := count as real / per as real, per as real;
    assert q * p == count as real;
    IntProductAsReal(n - 1, per);
    IntProductAsReal(n, per);
    var lo, hi := (n - 1) as real * p, n as real * p;
    assert lo < q * p <= hi;
    assert (n - 1) as real < q by {
      var d := (q - (n - 1) as real) * p;
      assert d == q * p - lo;
    }
    assert q <= n as real by {
      var d := (n as real - q) * p;
      assert d == hi - q * p;
    }
  }

  lemma IntProductAsReal(a: int, b: int)
    ensures (a * b) as real == a as real * b as real
  {
  }

  /** The grid of image slots on one reticle. */
  datatype Grid = Grid(nx: nat, ny: nat, pitch: Vec2) {
    function PerReticle(): nat {
      nx * ny
    }

    /** The first centre, half the grid's extent below zero, so the grid is centred. */
    function Offset(): Vec2 {
      Vec2(AxisOffset(nx, pitch.x), AxisOffset(ny, pitch.y))
    }

    /** The centre of the slot in column `col` and row `row`. */
    function Position(col: int, row: int): Vec2 {
      Vec2(Step(Offset().x, pitch.x, col), Step(Offset().y, pitch.y, row))
    }
  }

  /** The first centre of a centred axis of `n` slots. */
  function AxisOffset(n: nat, pitch: real): real {
    -0.5 * (n - 1) as real * pitch
  }

  /** The slot grid `reticle` computes from its inputs. */
  function GridOf(size: Vec2, scale: real, clearance: real, imageSize: Vec2): Grid
    requires ValidInputs(size, scale, clearance, imageSize)
  {
    var px, py := Pitch(scale, clearance, imageSize.x), Pitch(scale, clearance, imageSize.y);
    Grid(Capacity(size.x, clearance, px), Capacity(size.y, clearance, py), Vec2(px, py))
  }

  /** The loop counter `i = x + y * n_x + r * n_x * n_y` of the image drawn in
      column `x`, row `y` of reticle `r`. */
  function Index(g: Grid, r: int, y: int, x: int): int {
    x + y * g.nx + r * g.nx * g.ny
  }

  /** The slot of image `i`: reticle `i / per_reticle`, then row-major within it. */
  function SlotOf(g: Grid, i: nat): Slot
    requires g.PerReticle() > 0
  {
    var cell := i % g.PerReticle();
    var pos := g.Position(cell % g.nx, cell / g.nx);
    Slot(i / g.PerReticle(), pos.x, pos.y)
  }

  /** Image `i` as drawn: its layer at its slot's centre. */
  function Drawn<L>(layers: seq<L>, g: Grid, i: nat): Image<L>
    requires g.PerReticle() > 0 && i < |layers|
  {
    var s := SlotOf(g, i);
    Image(layers[i], s.x, s.y)
  }

  function MinInt(a: int, b: int): int {
    if a < b then a else b
  }

  /** Images `lo` up to `hi - 1`, as drawn. */
  function DrawnRange<L>(layers: seq<L>, g: Grid, lo: nat, hi: nat): seq<Image<L>>
    requires g.PerReticle() > 0 && lo <= hi <= |layers|
  {
    seq(hi - lo, t requires 0 <= t < hi - lo => Drawn(layers, g, lo + t))
  }

  /** The images drawn on reticle `r` once the first `k` images are placed:
      those of its block `[r * per_reticle, (r + 1) * per_reticle)` below `k`. */
  function ReticleContents<L>(layers: seq<L>, g: Grid, r: nat, k: nat): seq<Image<L>>
    requires g.PerReticle() > 0 && k <= |layers|
  {
    DrawnRange(layers, g, MinInt(r * g.PerReticle(), k), MinInt((r + 1) * g.PerReticle(), k))
  }

  /** The reticles `reticle` returns. */
  function Reticles<L>(layers: seq<L>, g: Grid): seq<seq<Image<L>>>
    requires g.PerReticle() > 0
  {
    seq(ReticleCount(|layers|, g.PerReticle()),
        r requires 0 <= r => ReticleContents(layers, g, r, |layers|))
  }

  /** The placements dictionary after the first `k` images: each layer mapped
      to its slot, a later image of the same layer overwriting an earlier one. */
  function Assign<L>(layers: seq<L>, g: Grid, k: nat): map<L, Slot>
    requires g.PerReticle() > 0 && k <= |layers|
  {
    if k == 0 then map[] else Assign(layers, g, k - 1)[layers[k - 1] := SlotOf(g, k - 1)]
  }

  /** The layout `reticle` returns for a grid that holds at least one image. */
  function Pack<L>(layers: seq<L>, g: Grid): Layout<L>
    requires g.PerReticle() > 0
  {
    Layout(Reticles(layers, g), Assign(layers, g, |layers|))
  }

  // ---------------------------------------------------------------------------
  // Index arithmetic

  /** `a == q * d + m` with `0 <= m < d` determines quotient and remainder. */
  lemma DivModUnique(a: int, d: int, q: int, m: int)
    requires d > 0 && 0 <= m < d && a == q * d + m
    ensures a / d == q && a % d == m
  {
    var q', m' := a / d, a % d;
    assert a == q' * d + m';
    var e := q - q';
    assert e * d == m' - m;
    MulSign(e, d);
  }

  /** A non-zero multiple of `d` is at least `d` in size. */
  lemma MulSign(e: int, d: int)
    requires d > 0
    ensures e >= 1 ==> e * d >= d
    ensures e <= -1 ==> e * d <= -d
  {
    if e >= 1 {
      var rest := (e - 1) * d;
      assert rest >= 0;
      assert e * d == rest + d;
    }
    if e <= -1 {
      var rest := (-e - 1) * d;
      assert rest >= 0;
      assert e * d == -rest - d;
    }
  }

  /** The loop counter of column `x`, row `y`, reticle `r` points back to that
      reticle, row and column. */
  lemma IndexCell(g: Grid, r: nat, y: nat, x: nat)
    requires x < g.nx && y < g.ny
    ensures g.PerReticle() > 0
    ensures Index(g, r, y, x) / g.PerReticle() == r
    ensures Index(g, r, y, x) % g.PerReticle() % g.nx == x
    ensures Index(g, r, y, x) % g.PerReticle() / g.nx == y
  {
    var per := g.PerReticle();
    var cell := x + y * g.nx;
    var ynx, ylast := y * g.nx, (g.ny - 1) * g.nx;
    assert ynx <= ylast by {
      var gap := (g.ny - 1 - y) * g.nx;
      assert gap >= 0;
      assert ylast - ynx == gap;
    }
    assert ylast + g.nx == per;
    assert r * g.nx * g.ny == r * per;
    DivModUnique(Index(g, r, y, x), per, r, cell);
    DivModUnique(cell, g.nx, y, x);
  }

  /** Where the three loops move the counter: one column right, one row up at
      the end of a row, one reticle on at the end of a reticle. */
  lemma IndexSteps(g: Grid, r: int, y: int)
    ensures Index(g, r, y, g.nx) == Index(g, r, y + 1, 0)
    ensures Index(g, r, g.ny, 0) == Index(g, r + 1, 0, 0)
    ensures Index(g, r, 0, 0) == r * g.PerReticle()
  {
    assert (y + 1) * g.nx == y * g.nx + g.nx;
    assert g.ny * g.nx == g.nx * g.ny;
    assert (r + 1) * g.nx * g.ny == r * g.nx * g.ny + g.nx * g.ny;
    assert r * g.nx * g.ny == r * (g.nx * g.ny);
  }

  /** The slot of the image drawn in column `x`, row `y` of reticle `r`, with
      its centre computed as the loop computes it. */
  lemma SlotAt(g: Grid, r: nat, y: nat, x: nat)
    requires x < g.nx && y < g.ny
    ensures g.PerReticle() > 0 && Index(g, r, y, x) >= 0
    ensures SlotOf(g, Index(g, r, y, x))
            == Slot(r, x as real * g.pitch.x + g.Offset().x, y as real * g.pitch.y + g.Offset().y)
  {
    IndexCell(g, r, y, x);
  }

  // ---------------------------------------------------------------------------
  // The imperative packer

  /** The images placed so far: `min(count, i)` for loop counter `i`. */
  function Done(count: nat, i: int): nat {
    if i < 0 then 0 else if i < count then i else count
  }

  /** The loop state holds exactly the first `k` images. */
  ghost predicate Packed<L>(layers: seq<L>, g: Grid, reticles: seq<seq<Image<L>>>,
                            placements: map<L, Slot>, k: nat)
    requires g.PerReticle() > 0 && k <= |layers|
  {
    |reticles| == ReticleCount(|layers|, g.PerReticle())
    && (forall r :: 0 <= r < |reticles| ==> reticles[r] == ReticleContents(layers, g, r, k))
    && placements == Assign(layers, g, k)
  }

  /** Image `i` lies in the block of reticle `i / per`: every earlier
      reticle's block ends at or before it, every later one starts after it. */
  lemma WindowStep(per: nat, r: nat, i: nat)
    requires per > 0
    ensures r < i / per ==> (r + 1) * per <= i
    ensures r == i / per ==> r * per <= i < (r + 1) * per
    ensures r > i / per ==> i < r * per
  {
    var home := i / per;
    var lo, hi := r * per, (r + 1) * per;
    var homeLo, homeHi := home * per, (home + 1) * per;
    assert homeLo <= i < homeHi by {
      DivModUnique(i, per, home, i % per);
      assert homeHi == homeLo + per;
    }
    assert hi == lo + per && homeHi == homeLo + per;
    if r < home {
      assert hi <= homeLo by {
        var gap := (home - r) * per;
        assert homeLo - lo == gap;
        MulSign(home - r, per);
      }
    } else if home < r {
      assert homeHi <= lo by {
        var gap := (r - home) * per;
        assert lo - homeLo == gap;
        MulSign(r - home, per);
      }
    }
  }

  /** Extending a range by one image appends that image. */
  lemma DrawnRangeSnoc<L>(layers: seq<L>, g: Grid, lo: nat, hi: nat)
    requires g.PerReticle() > 0 && lo <= hi < |layers|
    ensures DrawnRange(layers, g, lo, hi + 1) == DrawnRange(layers, g, lo, hi) + [Drawn(layers, g, hi)]
  {
  }

  /** Placing image `i` on reticle `i / per_reticle` extends that reticle by
      the image and leaves every other reticle as it was. */
  lemma ContentsStep<L>(layers: seq<L>, g: Grid, r: nat, i: nat)
    requires g.PerReticle() > 0 && i < |layers|
    ensures ReticleContents(layers, g, r, i + 1)
            == if r == i / g.PerReticle() then ReticleContents(layers, g, r, i) + [Drawn(layers, g, i)]
               else ReticleContents(layers, g, r, i)
  {
    var per := g.PerReticle();
    WindowStep(per, r, i);
    if r == i / per {
      DrawnRangeSnoc(layers, g, MinInt(r * per, i), i);
    }
  }

  /** Drawing image `i` keeps the loop state in step. */
  lemma PackedStep<L>(layers: seq<L>, g: Grid, reticles: seq<seq<Image<L>>>,
                      placements: map<L, Slot>, i: nat)
    requires g.PerReticle() > 0 && i < |layers|
    requires Packed(layers, g, reticles, placements, i)
    requires i / g.PerReticle() < |reticles|
    ensures var r := i / g.PerReticle();
            Packed(layers, g, reticles[r := reticles[r] + [Drawn(layers, g, i)]],
                   placements[layers[i] := SlotOf(g, i)], i + 1)
  {
    var r := i / g.PerReticle();
    var reticles' := reticles[r := reticles[r] + [Drawn(layers, g, i)]];
    forall r' | 0 <= r' < |reticles'| ensures reticles'[r'] == ReticleContents(layers, g, r', i + 1) {
      ContentsStep(layers, g, r', i);
    }
  }

  /** Before any image is drawn: every reticle empty, no placement. */
  lemma PackedStart<L>(layers: seq<L>, g: Grid)
    requires g.PerReticle() > 0
    ensures Packed(layers, g, seq(ReticleCount(|layers|, g.PerReticle()), _ => []), map[], 0)
  {
    forall r: nat | r < ReticleCount(|layers|, g.PerReticle()) ensures ReticleContents(layers, g, r, 0) == [] {
    }
  }

  /** Once every image is drawn the loop state is the packing. */
  lemma PackedFinish<L>(layers: seq<L>, g: Grid, reticles: seq<seq<Image<L>>>, placements: map<L, Slot>)
    requires g.PerReticle() > 0
    requires Packed(layers, g, reticles, placements, |layers|)
    ensures Layout(reticles, placements) == Pack(layers, g)
  {
  }

  /** A counter at or past the last image stays there for the rest of the
      row, and the row's end is where the next row starts. */
  lemma RowExhausted(g: Grid, count: nat, r: int, y: int, x: int)
    requires x <= g.nx && Index(g, r, y, x) >= count
    ensures Done(count, Index(g, r, y + 1, 0)) == count == Done(count, Index(g, r, y, x))
  {
    IndexSteps(g, r, y);
  }

  /** The counter after the last reticle is past every image. */
  lemma AllDone(g: Grid, count: nat, nr: nat)
    requires g.PerReticle() > 0 && count <= nr * g.PerReticle()
    ensures Done(count, Index(g, nr, 0, 0)) == count
  {
    IndexSteps(g, nr, 0);
  }

  /** `reticle`: the grid capacity, the reticle count, then every image drawn
      at its slot. A grid with no slot fails where `reticle` divides by zero
      (gfebuild/reticle.py:34). */
  method Reticle<L(==)>(size: Vec2, scale: real, clearance: real, imageSize: Vec2, imageLayers: seq<L>)
    returns (result: Result<Layout<L>>)
    requires ValidInputs(size, scale, clearance, imageSize)
    ensures var g := GridOf(size, scale, clearance, imageSize);
            if g.PerReticle() == 0 then result == Err(ZeroDivision) else result == Ok(Pack(imageLayers, g))
  {
    var pitchX := Pitch(scale, clearance, imageSize.x);
    var pitchY := Pitch(scale, clearance, imageSize.y);
    var nx := Capacity(size.x, clearance, pitchX);
    var ny := Capacity(size.y, clearance, pitchY);
    if nx * ny == 0 {
      return Err(ZeroDivision);
    }
    var g := Grid(nx, ny, Vec2(pitchX, pitchY));
    var nr := ReticleCount(|imageLayers|, nx * ny);
    var reticles, placements := DrawImages(g, nr, imageLayers);
    return Ok(Layout(reticles, placements));
  }

  /** The triple loop of `reticle` over reticles, rows and columns, stopping
      each row at the first counter past the last image. */
  method DrawImages<L(==)>(g: Grid, nr: nat, imageLayers: seq<L>)
    returns (reticles: seq<seq<Image<L>>>, placements: map<L, Slot>)
    requires g.PerReticle() > 0 && nr == ReticleCount(|imageLayers|, g.PerReticle())
    ensures Layout(reticles, placements) == Pack(imageLayers, g)
  {
    var nx, ny := g.nx, g.ny;
    var offsetX := AxisOffset(nx, g.pitch.x);
    var offsetY := AxisOffset(ny, g.pitch.y);
    ghost var count := |imageLayers|;

    reticles := seq(nr, _ => []);
    placements := map[];
    PackedStart(imageLayers, g);
    IndexSteps(g, 0, 0);
    for r := 0 to nr
      invariant Packed(imageLayers, g, reticles, placements, Done(count, Index(g, r, 0, 0)))
    {
      for y := 0 to ny
        invariant Packed(imageLayers, g, reticles, placements, Done(count, Index(g, r, y, 0)))
      {
        IndexSteps(g, r, y);
        for x := 0 to nx
          invariant Packed(imageLayers, g, reticles, placements, Done(count, Index(g, r, y, x)))
        {
          var i := x + y * nx + r * nx * ny;
          var xPos := x as real * g.pitch.x + offsetX;
          var yPos := y as real * g.pitch.y + offsetY;
          if i >= |imageLayers| {
            RowExhausted(g, count, r, y, x);
            break;
          }
          SlotAt(g, r, y, x);
          assert Index(g, r, y, x) == i;
          assert SlotOf(g, i) == Slot(r, xPos, yPos);
          assert i / g.PerReticle() == r;
          assert Drawn(imageLayers, g, i) == Image(imageLayers[i], xPos, yPos);
          assert Done(count, Index(g, r, y, x + 1)) == i + 1;
          PackedStep(imageLayers, g, reticles, placements, i);
          reticles := reticles[r := reticles[r] + [Image(imageLayers[i], xPos, yPos)]];
          placements := placements[imageLayers[i] := Slot(r, xPos, yPos)];
        }
        assert Packed(imageLayers, g, reticles, placements, Done(count, Index(g, r, y + 1, 0)));
      }
      IndexSteps(g, r, ny);
    }
    AllDone(g, count, nr);
    PackedFinish(imageLayers, g, reticles, placements);
  }
}
