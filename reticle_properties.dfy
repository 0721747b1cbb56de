/** What the reticle packer promises: the grid is the largest that fits and is
    centred with one clearance between neighbours, the reticle count is the
    least that holds every image, every image is drawn exactly once in its own
    slot, and the placements dictionary records, for each layer, the slot of
    its last image. */
module ReticleProperties {
  import opened Plane
  import opened ReticlePacker

  // ---------------------------------------------------------------------------
  // Counts

  /** No more images of that pitch fit than the capacity: any `m` images with
      `m` pitches within `extent + clearance` number at most `Capacity`. */
  lemma CapacityGreatest(extent: real, clearance: real, pitch: real, m: nat)
    requires pitch > 0.0 && extent + clearance >= 0.0
    requires m as real * pitch <= extent + clearance
    ensures m <= Capacity(extent, clearance, pitch)
  {
    var n := Capacity(extent, clearance, pitch);
    var mp, np := m as real * pitch, (n + 1) as real * pitch;
    assert mp < np;
    ScaleMonotone(n + 1, m, pitch);
  }

  /** The capacity's images with one clearance between neighbours fit in the
      extent, and one image more would not. */
  lemma CapacityFits(extent: real, scale: real, clearance: real, image: real)
    requires scale > 0.0 && clearance >= 0.0 && image > 0.0 && extent >= 0.0
    ensures var n := Capacity(extent, clearance, Pitch(scale, clearance, image));
            n as real * (scale * image) + (n as real - 1.0) * clearance <= extent
            && extent < (n + 1) as real * (scale * image) + n as real * clearance
  {
    var p := Pitch(scale, clearance, image);
    var n := Capacity(extent, clearance, p);
    var si := scale * image;
    var nsi, nc := n as real * si, n as real * clearance;
    assert n as real * p == nsi + nc;
    assert (n as real - 1.0) * clearance == nc - clearance;
    assert (n + 1) as real * p == nsi + si + nc + clearance;
    assert (n + 1) as real * si == nsi + si;
  }

  /** The reticle count is the least number of reticles whose slots hold
      every image. */
  lemma ReticleCountLeast(count: nat, per: nat, m: int)
    requires per > 0 && count <= m * per
    ensures ReticleCount(count, per) <= m
  {
    var n := ReticleCount(count, per);
  }

  /** Every image's reticle index is below the reticle count. */
  lemma ReticleIndexBound(count: nat, per: nat, i: nat)
    requires per > 0 && i < count
    ensures i / per < ReticleCount(count, per)
  {
    var n := ReticleCount(count, per);
    var q := i / per;
    DivModUnique(i, per, q, i % per);
  }

  // ---------------------------------------------------------------------------
  // The loop counter

  /** Every image index is the counter of exactly one (reticle, row, column)
      within the grid: the one `SlotOf` reads off. Together with `IndexCell`
      this makes the counter a bijection. */
  lemma IndexDecompose(g: Grid, i: nat)
    requires g.PerReticle() > 0
    ensures var cell := i % g.PerReticle();
            0 <= cell % g.nx < g.nx && 0 <= cell / g.nx < g.ny
            && i == Index(g, i / g.PerReticle(), cell / g.nx, cell % g.nx)
  {
    var per := g.PerReticle();
    var r, cell := i / per, i % per;
    assert g.nx > 0 && g.ny > 0;
    var y, x := cell / g.nx, cell % g.nx;
    assert cell == y * g.nx + x;
    assert r * g.nx * g.ny == r * per;
    assert i == r * per + cell;
  }

  // ---------------------------------------------------------------------------
  // Reticles

  /** Image `i` is entry `i % per_reticle` of reticle `i / per_reticle`, drawn
      at its slot. */
  lemma ImageOnReticle<L>(layers: seq<L>, g: Grid, i: nat)
    requires g.PerReticle() > 0 && i < |layers|
    ensures var per, rs := g.PerReticle(), Reticles(layers, g);
            i / per < |rs| && i % per < |rs[i / per]|
            && rs[i / per][i % per] == Drawn(layers, g, i)
  {
    var per := g.PerReticle();
    var r := i / per;
    ReticleIndexBound(|layers|, per, i);
    WindowStep(per, r, i);
    DivModUnique(i, per, r, i % per);
  }

  /** Entry `t` of reticle `r` is image `r * per_reticle + t`, so no image is
      drawn twice and nothing else is drawn. */
  lemma ReticleEntry<L>(layers: seq<L>, g: Grid, r: nat, t: nat)
    requires g.PerReticle() > 0
    requires r < |Reticles(layers, g)| && t < |Reticles(layers, g)[r]|
    ensures r * g.PerReticle() + t < |layers|
    ensures Reticles(layers, g)[r][t] == Drawn(layers, g, r * g.PerReticle() + t)
  {
    var per := g.PerReticle();
    var count := |layers|;
    var n := ReticleCount(count, per);
    assert r * per < count by {
      if count <= r * per {
        ReticleCountLeast(count, per, r);
        assert false;
      }
    }
  }

  /** Every reticle holds at least one and at most `per_reticle` images, and
      every reticle but the last is full. */
  lemma ReticleLoad<L>(layers: seq<L>, g: Grid, r: nat)
    requires g.PerReticle() > 0 && r < |Reticles(layers, g)|
    ensures 0 < |Reticles(layers, g)[r]| <= g.PerReticle()
    ensures r + 1 < |Reticles(layers, g)| ==> |Reticles(layers, g)[r]| == g.PerReticle()
  {
    var per := g.PerReticle();
    var count := |layers|;
    var n := ReticleCount(count, per);
    assert (r + 1) * per == r * per + per;
    assert r * per < count by {
      if count <= r * per {
        ReticleCountLeast(count, per, r);
        assert false;
      }
    }
    if r + 1 < n {
      assert (r + 1) * per < count by {
        if count <= (r + 1) * per {
          ReticleCountLeast(count, per, r + 1);
          assert false;
        }
      }
    }
  }

  /** Without images there is no reticle and no placement. */
  lemma PackEmpty<L>(g: Grid)
    requires g.PerReticle() > 0
    ensures Pack<L>([], g) == Layout([], map[])
  {
  }

  // ---------------------------------------------------------------------------
  // Slot positions

  /** Slot `c` and slot `n - 1 - c` lie mirror-image about the axis centre. */
  lemma AxisCentred(n: nat, pitch: real, c: int)
    ensures Step(AxisOffset(n, pitch), pitch, n - 1 - c) == -Step(AxisOffset(n, pitch), pitch, c)
  {
    var cp, dp, total := c as real * pitch, (n - 1 - c) as real * pitch, (n - 1) as real * pitch;
    assert cp + dp == total;
    assert AxisOffset(n, pitch) == -0.5 * total;
  }

  /** Neighbouring slots are one pitch apart. */
  lemma AxisSpacing(origin: real, pitch: real, c: int)
    ensures Step(origin, pitch, c + 1) == Step(origin, pitch, c) + pitch
  {
    var cp := c as real * pitch;
    assert (c + 1) as real * pitch == cp + pitch;
  }

  /** Every slot of a centred axis lies within half the axis span of its centre. */
  lemma AxisWithin(n: nat, pitch: real, c: int)
    requires pitch > 0.0 && 0 <= c < n
    ensures Abs(Step(AxisOffset(n, pitch), pitch, c)) <= 0.5 * (n - 1) as real * pitch
  {
    var o := AxisOffset(n, pitch);
    if 0 < c {
      StepGap(o, pitch, 0, c);
    }
    if c < n - 1 {
      StepGap(o, pitch, c, n - 1);
    }
    AxisCentred(n, pitch, 0);
    assert Step(o, pitch, 0) == o;
  }

  /** The slot grid is centred on the reticle: slots mirrored through the
      centre of the grid lie mirrored through the origin. */
  lemma GridCentred(g: Grid, col: int, row: int)
    ensures g.Position(g.nx - 1 - col, g.ny - 1 - row) == Neg(g.Position(col, row))
  {
    AxisCentred(g.nx, g.pitch.x, col);
    AxisCentred(g.ny, g.pitch.y, row);
  }

  /** Neighbouring images are one pitch apart, so the gap between the scaled
      images is exactly the clearance. */
  lemma NeighbourGap(size: Vec2, scale: real, clearance: real, imageSize: Vec2, col: int, row: int)
    requires ValidInputs(size, scale, clearance, imageSize)
    ensures var g := GridOf(size, scale, clearance, imageSize);
            g.Position(col + 1, row).x - g.Position(col, row).x - scale * imageSize.x == clearance
            && g.Position(col, row + 1).y - g.Position(col, row).y - scale * imageSize.y == clearance
  {
    var g := GridOf(size, scale, clearance, imageSize);
    AxisSpacing(g.Offset().x, g.pitch.x, col);
    AxisSpacing(g.Offset().y, g.pitch.y, row);
  }

  /** Every image of the grid lies wholly on the reticle. */
  lemma ImagesFit(size: Vec2, scale: real, clearance: real, imageSize: Vec2, col: int, row: int)
    requires ValidInputs(size, scale, clearance, imageSize)
    requires var g := GridOf(size, scale, clearance, imageSize);
             0 <= col < g.nx && 0 <= row < g.ny
    ensures var g := GridOf(size, scale, clearance, imageSize);
            Abs(g.Position(col, row).x) + 0.5 * (scale * imageSize.x) <= 0.5 * size.x
            && Abs(g.Position(col, row).y) + 0.5 * (scale * imageSize.y) <= 0.5 * size.y
  {
    var g := GridOf(size, scale, clearance, imageSize);
    AxisFits(size.x, scale, clearance, imageSize.x, col);
    AxisFits(size.y, scale, clearance, imageSize.y, row);
  }

  /** One axis of `ImagesFit`. */
  lemma AxisFits(extent: real, scale: real, clearance: real, image: real, c: int)
    requires scale > 0.0 && clearance >= 0.0 && image > 0.0 && extent >= 0.0
    requires 0 <= c < Capacity(extent, clearance, Pitch(scale, clearance, image))
    ensures var p := Pitch(scale, clearance, image);
            var n := Capacity(extent, clearance, p);
            Abs(Step(AxisOffset(n, p), p, c)) + 0.5 * (scale * image) <= 0.5 * extent
  {
    var p := Pitch(scale, clearance, image);
    var n := Capacity(extent, clearance, p);
    AxisWithin(n, p, c);
    var np, si := n as real * p, scale * image;
    assert (n - 1) as real * p == np - p;
    assert np <= extent + clearance;
  }

  /** Distinct images get distinct slots. */
  lemma SlotsDistinct(g: Grid, i: nat, j: nat)
    requires g.PerReticle() > 0 && g.pitch.x > 0.0 && g.pitch.y > 0.0 && i != j
    ensures SlotOf(g, i) != SlotOf(g, j)
  {
    var per := g.PerReticle();
    if i / per == j / per {
      DivModUnique(i, per, i / per, i % per);
      DivModUnique(j, per, j / per, j % per);
      var ci, cj := i % per, j % per;
      assert ci != cj;
      assert g.nx > 0;
      DivModUnique(ci, g.nx, ci / g.nx, ci % g.nx);
      DivModUnique(cj, g.nx, cj / g.nx, cj % g.nx);
      if ci % g.nx < cj % g.nx {
        StepGap(g.Offset().x, g.pitch.x, ci % g.nx, cj % g.nx);
      } else if cj % g.nx < ci % g.nx {
        StepGap(g.Offset().x, g.pitch.x, cj % g.nx, ci % g.nx);
      } else if ci / g.nx < cj / g.nx {
        StepGap(g.Offset().y, g.pitch.y, ci / g.nx, cj / g.nx);
      } else {
        StepGap(g.Offset().y, g.pitch.y, cj / g.nx, ci / g.nx);
      }
    }
  }

  // ---------------------------------------------------------------------------
  // The placements dictionary

  /** The layers with a placement are exactly the layers of the images drawn. */
  lemma {:induction false} AssignKeys<L>(layers: seq<L>, g: Grid, k: nat)
    requires g.PerReticle() > 0 && k <= |layers|
    ensures Assign(layers, g, k).Keys == set t | 0 <= t < k :: layers[t]
  {
    if k > 0 {
      AssignKeys(layers, g, k - 1);
      var before := set t | 0 <= t < k - 1 :: layers[t];
      var after := set t | 0 <= t < k :: layers[t];
      assert after == before + {layers[k - 1]} by {
        forall l | l in after ensures l in before + {layers[k - 1]} {
          var t :| 0 <= t < k && layers[t] == l;
          if t < k - 1 {
            assert l in before;
          }
        }
      }
    }
  }

  /** A repeated layer keeps the slot of its last image. */
  lemma {:induction false} AssignLast<L>(layers: seq<L>, g: Grid, k: nat, j: nat)
    requires g.PerReticle() > 0 && j < k <= |layers|
    requires forall t :: j < t < k ==> layers[t] != layers[j]
    ensures layers[j] in Assign(layers, g, k)
    ensures Assign(layers, g, k)[layers[j]] == SlotOf(g, j)
  {
    if j < k - 1 {
      AssignLast(layers, g, k - 1, j);
    }
  }

  /** Every placement is the slot of an image of that layer. */
  lemma {:induction false} AssignDrawn<L>(layers: seq<L>, g: Grid, k: nat, l: L)
    requires g.PerReticle() > 0 && k <= |layers| && l in Assign(layers, g, k)
    ensures exists j :: 0 <= j < k && layers[j] == l && Assign(layers, g, k)[l] == SlotOf(g, j)
  {
    if layers[k - 1] == l {
      assert layers[k - 1] == l && Assign(layers, g, k)[l] == SlotOf(g, k - 1);
    } else {
      AssignDrawn(layers, g, k - 1, l);
      var j :| 0 <= j < k - 1 && layers[j] == l && Assign(layers, g, k - 1)[l] == SlotOf(g, j);
      assert Assign(layers, g, k)[l] == SlotOf(g, j);
    }
  }

  /** With distinct layers every image has its own entry: `len(image_layers)`
      placements, each the slot of that layer's image. */
  lemma {:induction false} AssignDistinct<L>(layers: seq<L>, g: Grid, k: nat)
    requires g.PerReticle() > 0 && k <= |layers|
    requires forall s, t :: 0 <= s < t < |layers| ==> layers[s] != layers[t]
    ensures |Assign(layers, g, k)| == k
    ensures forall i :: 0 <= i < k ==> layers[i] in Assign(layers, g, k)
                                       && Assign(layers, g, k)[layers[i]] == SlotOf(g, i)
  {
    if k > 0 {
      AssignDistinct(layers, g, k - 1);
      var before := Assign(layers, g, k - 1);
      assert layers[k - 1] !in before by {
        AssignKeys(layers, g, k - 1);
      }
    }
  }

  /** Image `j` is drawn on the reticle its slot names, at the slot's centre. */
  lemma DrawnAtSlot<L>(layers: seq<L>, g: Grid, j: nat)
    requires g.PerReticle() > 0 && j < |layers|
    ensures var s, rs := SlotOf(g, j), Reticles(layers, g);
            0 <= s.reticle < |rs| && Image(layers[j], s.x, s.y) in rs[s.reticle]
  {
    ImageOnReticle(layers, g, j);
  }

  /** The placement recorded for a layer names a reticle on which that
      layer's image is drawn, at that position. */
  lemma PlacementDrawn<L>(layers: seq<L>, g: Grid, l: L)
    requires g.PerReticle() > 0 && l in Pack(layers, g).placements
    ensures var s := Pack(layers, g).placements[l];
            0 <= s.reticle < |Pack(layers, g).reticles|
            && Image(l, s.x, s.y) in Pack(layers, g).reticles[s.reticle]
  {
    AssignDrawn(layers, g, |layers|, l);
    var j :| 0 <= j < |layers| && layers[j] == l && Assign(layers, g, |layers|)[l] == SlotOf(g, j);
    DrawnAtSlot(layers, g, j);
  }

  // ---------------------------------------------------------------------------
  // The method

  /** With no image the packer returns no reticle and no placement, unless the
      grid holds no slot, when it fails. */
  method NoImages<L(==)>(size: Vec2, scale: real, clearance: real, imageSize: Vec2)
    returns (result: Result<Layout<L>>)
    requires ValidInputs(size, scale, clearance, imageSize)
    ensures GridOf(size, scale, clearance, imageSize).PerReticle() > 0 ==> result == Ok(Layout([], map[]))
    ensures GridOf(size, scale, clearance, imageSize).PerReticle() == 0 ==> result == Err(ZeroDivision)
  {
    result := Reticle(size, scale, clearance, imageSize, []);
    var g := GridOf(size, scale, clearance, imageSize);
    if g.PerReticle() > 0 {
      PackEmpty<L>(g);
    }
  }
}
