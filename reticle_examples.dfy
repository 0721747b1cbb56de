/** A worked layout: 25 x 25 images at scale 1 with no clearance on a
    100 x 100 reticle give a 4 x 4 grid, so twenty images need two reticles,
    the first full and the second holding four. */
module ReticleExamples {
  import opened Plane
  import opened ReticlePacker
  import opened ReticleProperties

  const Size := Vec2(100.0, 100.0)
  const ImageSize := Vec2(25.0, 25.0)

  lemma ScenarioGrid()
    ensures ValidInputs(Size, 1.0, 0.0, ImageSize)
    ensures GridOf(Size, 1.0, 0.0, ImageSize) == Grid(4, 4, Vec2(25.0, 25.0))
  {
    assert Capacity(100.0, 0.0, 25.0) == 4 by {
      assert (100.0 + 0.0) / 25.0 == 4.0;
    }
  }

  /** The corner slots sit 37.5 from the centre on both axes. */
  lemma ScenarioCorners()
    ensures Grid(4, 4, Vec2(25.0, 25.0)).Position(0, 0) == Vec2(-37.5, -37.5)
    ensures Grid(4, 4, Vec2(25.0, 25.0)).Position(3, 3) == Vec2(37.5, 37.5)
  {
  }

  /** Twenty images on sixteen slots per reticle take two reticles. */
  lemma ScenarioReticleCount()
    ensures ReticleCount(20, 16) == 2
  {
    var n := ReticleCount(20, 16);
    assert (n - 1) * 16 < 20 <= n * 16;
  }

  /** The two reticles hold sixteen and four images. */
  lemma ScenarioLoads<L>(layers: seq<L>)
    requires |layers| == 20
    ensures |Reticles(layers, Grid(4, 4, Vec2(25.0, 25.0)))| == 2
    ensures |Reticles(layers, Grid(4, 4, Vec2(25.0, 25.0)))[0]| == 16
    ensures |Reticles(layers, Grid(4, 4, Vec2(25.0, 25.0)))[1]| == 4
  {
    ScenarioReticleCount();
  }

  /** A layer listed twice keeps the slot of its second image. */
  lemma ScenarioRepeatedLayer()
    ensures Assign([7, 8, 7], Grid(4, 4, Vec2(25.0, 25.0)), 3)
            == map[7 := Slot(0, 12.5, -37.5), 8 := Slot(0, -12.5, -37.5)]
  {
    var g := Grid(4, 4, Vec2(25.0, 25.0));
    assert SlotOf(g, 1) == Slot(0, -12.5, -37.5);
    assert SlotOf(g, 2) == Slot(0, 12.5, -37.5);
  }
}
