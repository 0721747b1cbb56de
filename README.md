# gfebuild placement core in Dafny

This project models the geometric core of gfebuild, a photomask layout tool,
and proves properties of it:

- `wafer` (gfebuild/wafer.py) tiles a circular wafer with identical
  rectangular chip images. It samples a symmetric grid of candidate centres
  with `np.linspace`, and the tile pitch equals the tile size. With
  `chip_center` false the grid shifts by half a tile. A candidate is kept
  when it passes the wafer test. Under `place_partial` that means any
  overlap with the wafer; otherwise the tile must lie inside the wafer or
  contain it. The tile
  must also meet none of the circular keep-out zones in `avoid`. The
  placements come out row by row.
- `reticle` (gfebuild/reticle.py) packs images onto fixed-size reticles:
  - `n_x` and `n_y` are floor divisions by the pitch (scaled image plus
    clearance);
  - `n_r` is the ceiling of images over slots per reticle;
  - a centred grid of slots;
  - a triple loop over reticle, row and column that stops each row at the
    first counter past the last image;
  - the dictionary from each layer to `(reticle, x, y)`.

The files:

- `plane.dfy` (`Plane`): vectors, `Abs`/`Max`/`Min`, the ceiling, and
  arithmetic progressions.
- `intersection.dfy` (`Intersection`): the nested `check_intersection` as a
  pure predicate, and its geometric meaning:
  - the "circle inside rectangle" test;
  - the "rectangle inside circle" test;
  - the "nearest point of the rectangle within the radius" test, which is
    exactly "the closed disk and the closed rectangle share a point";
  - its symmetry under reflection through the origin.
- `wafer.dfy` (`WaferTiler`): the specification `Placements` (a filter over
  the row-major candidates), and the imperative `Wafer`/`PlaceGrid` methods
  with the nested loops and the keep-out scan with its flag and `break`.
- `wafer_properties.dfy` (`WaferProperties`): lattice coordinates, count
  bounds, order, what every placement satisfies, the effect of
  `place_partial`, symmetry, completeness of the grid, and point keep-out
  zones.
- `wafer_examples.dfy` (`WaferExamples`): the radius-10, tile-10 wafer in
  full.
- `reticle.dfy` (`ReticlePacker`): the arithmetic, the specification `Pack`,
  and the imperative `Reticle`/`DrawImages` methods.
- `reticle_properties.dfy` (`ReticleProperties`): capacity, reticle count,
  loop counter, load, centring, fit, distinct slots, and the placements
  dictionary.
- `reticle_examples.dfy` (`ReticleExamples`): the 100/25 reticle holding
  twenty images.

Numbers are exact reals. `norm([a, b]) <= r` becomes `r >= 0 && a*a + b*b <= r*r`.

Two facts about the code that the model keeps:
- `reticle` divides by zero whenever `n_x * n_y == 0`, even with no image
  (gfebuild/reticle.py:34). `ReticlePacker.Reticle` returns
  `Err(ZeroDivision)` in exactly that case.
- The code validates none of its inputs. `Wafer` and `Reticle` require
  physical inputs: a positive radius, positive sizes and scale, and a
  non-negative clearance.

## Model

| member | source | states |
|---|---|---|
| Plane.Ceil | gfebuild/wafer.py:39 | `int(np.ceil(x))` is the least integer not below `x` |
| Intersection.WithinRadius | gfebuild/wafer.py:79 | `np.linalg.norm([a, b]) <= r`, compared on squares with `r >= 0`, since a norm is never negative (also the test at line 90) |
| Intersection.CircleInsideRect | gfebuild/wafer.py:63-69 | the first test: the circle's bounding box lies within the tile's edges |
| Intersection.RectInsideCircle | gfebuild/wafer.py:73-79 | the second test: the farthest-corner offsets have norm at most the radius |
| Intersection.Nearest | gfebuild/wafer.py:83-89 | the point of the tile nearest the circle's centre, each coordinate clamped to the tile's edges |
| Intersection.NearestWithin | gfebuild/wafer.py:90 | the partial test: the nearest-point offsets have norm at most the radius |
| Intersection.CheckIntersection | gfebuild/wafer.py:53-93 | the three tests in order, the third only under `partial`; true iff one of them holds |
| Intersection.CheckIntersectionMeaning | gfebuild/wafer.py:53-93 | the test holds exactly when the disk lies in the tile, or the tile lies in the disk, or (with `partial`) the two overlap |
| Intersection.CircleInsideRectMeaning | gfebuild/wafer.py:63-70 | the first test holds iff every point of the closed disk lies in the rectangle |
| Intersection.RectInsideCircleSound | gfebuild/wafer.py:72-80 | when the farthest-corner norm is within the radius, every point of the rectangle lies in the disk |
| Intersection.RectInsideCircleComplete | gfebuild/wafer.py:72-80 | when every point of a well-formed rectangle lies in the disk, the farthest-corner test holds |
| Intersection.RectInsideCircleMeaning | gfebuild/wafer.py:72-80 | the second test holds iff the rectangle lies wholly in the disk |
| Intersection.NearestWithinSound | gfebuild/wafer.py:82-91 | when the clamped nearest point is within the radius, the rectangle and disk share a point |
| Intersection.NearestWithinComplete | gfebuild/wafer.py:82-91 | any common point of rectangle and disk makes the nearest-point test hold |
| Intersection.NearestWithinMeaning | gfebuild/wafer.py:82-91 | the partial test holds iff rectangle and disk overlap |
| Intersection.AnyOverlapRule | gfebuild/wafer.py:53-93 | with `partial=True` the whole test is exactly "rectangle and disk overlap" |
| Intersection.WithinRadiusBounds | gfebuild/wafer.py:79 | a vector of norm at most `r` has both components at most `r` in size |
| Intersection.WithinRadiusMonotone | gfebuild/wafer.py:79 | shrinking both components keeps the norm within the radius |
| Intersection.FarEndBounds | gfebuild/wafer.py:73-78 | the farther edge lies on the rectangle and is at least as far as any point of it |
| Intersection.ClampIsNearest | gfebuild/wafer.py:83-88 | the clamped coordinate lies on the rectangle and is at least as close as any point of it |
| Intersection.ClampReflected | gfebuild/wafer.py:83-88 | clamping commutes with negation |
| Intersection.RectInsideCircleReflected | gfebuild/wafer.py:72-80 | reflecting tile and circle through the origin keeps the second test's answer |
| Intersection.NearestWithinReflected | gfebuild/wafer.py:82-91 | reflecting tile and circle through the origin keeps the partial test's answer |
| Intersection.CheckIntersectionReflected | gfebuild/wafer.py:53-93 | reflecting tile and circle through the origin keeps the whole test's answer |
| Intersection.SeparatedMiss | gfebuild/wafer.py:53-93 | a tile more than a radius away on one axis never intersects |
| WaferTiler.GridCount | gfebuild/wafer.py:39-41 | `count = ceil(radius / size) + 1` tiles per half-axis |
| WaferTiler.SampleCount | gfebuild/wafer.py:45-48 | `2 * count + int(chip_center)` samples per axis |
| WaferTiler.Limit | gfebuild/wafer.py:40-42 | the grid half-span `size * count` |
| WaferTiler.AxisSamples | gfebuild/wafer.py:44-49 | the `np.linspace` samples from `-limit` to `limit`, endpoint only with `chip_center` |
| WaferTiler.Shift | gfebuild/wafer.py:50-51 | a sample is a centre as it is with `chip_center`, else shifted by half a tile |
| WaferTiler.AxisPositions | gfebuild/wafer.py:44-51 | the candidate centre coordinates along one axis, in increasing sample order |
| WaferTiler.Row | gfebuild/wafer.py:47-51 | one pass of the inner loop: every `x` position paired with one `y` |
| WaferTiler.Candidates | gfebuild/wafer.py:44-51 | all candidate centres, `y` in the outer loop and `x` in the inner |
| WaferTiler.TileRect | gfebuild/wafer.py:58-61 | the tile's edges: half a tile each side of its centre |
| WaferTiler.WaferCircle | gfebuild/wafer.py:95-98 | the wafer circle `c_center=(0, 0), c_radius=radius` of the wafer test |
| WaferTiler.OnWafer | gfebuild/wafer.py:95-100 | the wafer test: `check_intersection` against the origin circle with `place_partial` |
| WaferTiler.HitsZone | gfebuild/wafer.py:104-108 | the zone test: `check_intersection` against one keep-out circle with `partial=True` |
| WaferTiler.AvoidsZones | gfebuild/wafer.py:102-113 | the flag stays false: no keep-out zone hits the tile |
| WaferTiler.Kept | gfebuild/wafer.py:95-113 | a candidate is placed iff it passes the wafer test and avoids every zone |
| WaferTiler.Survivors | gfebuild/wafer.py:95-117 | the kept candidates of a list, in list order |
| WaferTiler.Placements | gfebuild/wafer.py:44-117 | the `placements` list: the kept candidates in loop order |
| WaferTiler.Linspace | gfebuild/wafer.py:44-49 | `np.linspace` yields exactly `num` samples |
| WaferTiler.Arange | gfebuild/wafer.py:44-49 | the progression has `num` entries |
| WaferTiler.GridCountAtLeastTwo | gfebuild/wafer.py:39-42 | a positive radius gives `count >= 2` per axis |
| WaferTiler.RowSnoc | gfebuild/wafer.py:47-49 | one more `x` extends the row of candidates by that candidate |
| WaferTiler.SurvivorsSnoc | gfebuild/wafer.py:95-117 | a new candidate is appended to the placements exactly when kept |
| WaferTiler.HitsAnyZone | gfebuild/wafer.py:102-110 | the flag ends true iff some keep-out zone intersects the tile |
| WaferTiler.Accepts | gfebuild/wafer.py:95-113 | a candidate is accepted iff it passes the wafer test and hits no zone |
| WaferTiler.SurvivorsUpToStep | gfebuild/wafer.py:47-117 | one inner-loop step appends the candidate exactly when kept |
| WaferTiler.SurvivorsUpToRow | gfebuild/wafer.py:44-117 | a full inner loop adds exactly the row's kept candidates |
| WaferTiler.PlaceGrid | gfebuild/wafer.py:44-117 | the nested loops return the kept candidates in row-major order |
| WaferTiler.Wafer | gfebuild/wafer.py:39-119 | `wafer` returns exactly `Placements` |
| WaferProperties.ArangeAt | gfebuild/wafer.py:44-49 | entry `k` is `start + k * step` |
| WaferProperties.AxisSamplesAt | gfebuild/wafer.py:39-49 | sample `k` is `-limit + k * size` in both endpoint modes: the pitch is the tile size |
| WaferProperties.AxisPositionsAt | gfebuild/wafer.py:39-51 | candidate coordinate `k` is lattice point `k`, shifted by half a tile without `chip_center` |
| WaferProperties.AxisPositionsAlignment | gfebuild/wafer.py:44-51 | with `chip_center` the coordinate 0 is a candidate; without it the tile edges fall on multiples of the size |
| WaferProperties.AxisPositionsIncreasing | gfebuild/wafer.py:44-51 | candidate coordinates strictly increase |
| WaferProperties.AxisPositionsSymmetric | gfebuild/wafer.py:39-51 | the coordinate list is symmetric about 0 |
| WaferProperties.AxisPositionsSpaced | gfebuild/wafer.py:44-51 | distinct coordinates are at least one tile apart |
| WaferProperties.LatticeGap | gfebuild/wafer.py:44-51 | lattice points with distinct indices are at least one tile apart, in index order |
| WaferProperties.AxisPositionsNegated | gfebuild/wafer.py:39-51 | the negation of a coordinate is a coordinate |
| WaferProperties.CandidatesLength | gfebuild/wafer.py:44-49 | there are `len(xs) * len(ys)` candidates |
| WaferProperties.CandidatesMembership | gfebuild/wafer.py:44-51 | a point is a candidate iff its coordinates are sampled |
| WaferProperties.CandidatesRowMajor | gfebuild/wafer.py:44-49 | the candidates come `y` first then `x`, strictly increasing |
| WaferProperties.SurvivorsMembership | gfebuild/wafer.py:95-117 | a point survives iff it is a candidate and kept |
| WaferProperties.SurvivorsRowMajor | gfebuild/wafer.py:95-117 | filtering keeps row-major order and never grows the list |
| WaferProperties.SurvivorsRefilter | gfebuild/wafer.py:95-113 | filtering with a stricter rule after a looser one equals filtering with the stricter one |
| WaferProperties.SurvivorsAgree | gfebuild/wafer.py:95-113 | rules that agree on every candidate give the same placements |
| WaferProperties.PlacementsMembership | gfebuild/wafer.py:44-117 | a point is placed iff it is a grid candidate that is kept |
| WaferProperties.PlacementsBound | gfebuild/wafer.py:44-117 | at most `(2*count_x + cc) * (2*count_y + cc)` placements |
| WaferProperties.PlacementsRowMajor | gfebuild/wafer.py:44-117 | the placements are in row-major order and have no duplicate |
| WaferProperties.PlacementsDisjoint | gfebuild/wafer.py:44-117 | two distinct placements are at least a tile apart on one axis, so placed tiles never overlap |
| WaferProperties.PlacementsOnWafer | gfebuild/wafer.py:95-100 | every placed tile passes the wafer test: overlaps the wafer with `place_partial`, otherwise lies inside it or contains it |
| WaferProperties.PlacementsAvoidZones | gfebuild/wafer.py:102-113 | no placed tile meets any keep-out zone |
| WaferProperties.KeptLoosened | gfebuild/wafer.py:90-100 | a tile kept without `place_partial` is kept with it |
| WaferProperties.PartialSuperset | gfebuild/wafer.py:90-100 | the whole-tile placements are the partial placements filtered again, so a subset of them |
| WaferProperties.HitsZoneReflected | gfebuild/wafer.py:104-108 | a tile meets a zone iff its mirror image meets the mirrored zone |
| WaferProperties.OnWaferReflected | gfebuild/wafer.py:95-99 | the wafer test is symmetric under reflection through the centre |
| WaferProperties.AvoidsZonesReflected | gfebuild/wafer.py:102-113 | with symmetric zones, a tile that avoids all zones has a mirror image that does too |
| WaferProperties.KeptReflected | gfebuild/wafer.py:95-113 | with symmetric zones, a tile is kept iff its mirror image is |
| WaferProperties.PlacementsSymmetric | gfebuild/wafer.py:39-117 | with symmetric zones, the placements are symmetric through the wafer centre |
| WaferProperties.LimitCoversRadius | gfebuild/wafer.py:39-42 | `limit >= radius + size` |
| WaferProperties.LatticeLast | gfebuild/wafer.py:44-51 | the last candidate coordinate is `limit`, less half a tile without `chip_center` |
| WaferProperties.LatticeBeyondWafer | gfebuild/wafer.py:39-51 | lattice tiles beyond the sampled range lie wholly outside the wafer's span |
| WaferProperties.OffGridTilesMiss | gfebuild/wafer.py:39-99 | no lattice tile outside the sampled grid touches the wafer, so the grid misses no placement |
| WaferProperties.PointZoneHits | gfebuild/wafer.py:102-110 | a zero-radius zone at a grid centre hits exactly the tile centred there |
| WaferProperties.PointZoneRemovesOnlyItsTile | gfebuild/wafer.py:102-117 | such a zone removes exactly that one tile from the placements |
| WaferExamples.SmallGrid | gfebuild/wafer.py:39-51 | radius 10, tile 10, `chip_center`: coordinates `-20, -10, 0, 10, 20` on both axes |
| WaferExamples.SmallInnerKept | gfebuild/wafer.py:95-113 | the nine central tiles are kept with `place_partial` |
| WaferExamples.SmallKeptPartial | gfebuild/wafer.py:95-113 | with `place_partial` exactly the nine central grid tiles are kept |
| WaferExamples.SmallKeptWhole | gfebuild/wafer.py:95-113 | without it only the tile at the origin is kept |
| WaferExamples.SmallPartialPlacements | gfebuild/wafer.py:39-119 | with `place_partial` the placements are the 3 x 3 block in row-major order |
| WaferExamples.SmallWholePlacements | gfebuild/wafer.py:39-119 | without it the placements are `[(0, 0)]` |
| ReticlePacker.Grid.PerReticle | gfebuild/reticle.py:34 | the slots per reticle, `n_x * n_y` |
| ReticlePacker.Grid.Offset | gfebuild/reticle.py:35-36 | the first slot centre `(offset_x, offset_y)` |
| ReticlePacker.AxisOffset | gfebuild/reticle.py:35-36 | the first centre `-0.5 * (n - 1) * pitch` of an axis of `n` slots |
| ReticlePacker.Grid.Position | gfebuild/reticle.py:44-45 | the slot centre `col * pitch + offset` by `row * pitch + offset` |
| ReticlePacker.GridOf | gfebuild/reticle.py:32-36 | the capacities `n_x`, `n_y` and the pitches computed from the inputs |
| ReticlePacker.Drawn | gfebuild/reticle.py:48-53 | the image drawn for counter `i`: layer `image_layers[i]` moved to its slot `(x_pos, y_pos)` |
| ReticlePacker.Index | gfebuild/reticle.py:43 | the counter `x + y * n_x + r * n_x * n_y` |
| ReticlePacker.SlotOf | gfebuild/reticle.py:43-45 | image `i` goes to reticle `i / (n_x * n_y)` at the row-major cell of `i % (n_x * n_y)` |
| ReticlePacker.Assign | gfebuild/reticle.py:55 | the dictionary after `k` images: each layer at the slot of its last image so far |
| ReticlePacker.ReticleContents | gfebuild/reticle.py:40-53 | reticle `r` holds the images of its block of `n_x * n_y` counters, in counter order |
| ReticlePacker.Reticles | gfebuild/reticle.py:38-57 | the `n_r` reticles with their contents |
| ReticlePacker.Pack | gfebuild/reticle.py:38-59 | the returned pair of reticles and placements dictionary |
| ReticlePacker.Pitch | gfebuild/reticle.py:32-36 | the pitch `scale * image + clearance` is positive for physical inputs |
| ReticlePacker.Capacity | gfebuild/reticle.py:32-33 | `n` pitches fit in `size + clearance` and `n + 1` do not: floor division |
| ReticlePacker.FloorScaled | gfebuild/reticle.py:32-33 | the floor of `a / pitch` times the pitch brackets `a` |
| ReticlePacker.ReticleCount | gfebuild/reticle.py:34 | `(n_r - 1) * per < count <= n_r * per`, and `n_r = 0` iff there are no images |
| ReticlePacker.CeilDivBounds | gfebuild/reticle.py:34 | integer ceiling division meets the reticle-count bounds |
| ReticlePacker.CeilMatches | gfebuild/reticle.py:34 | the ceiling of the exact quotient is the integer meeting those bounds |
| ReticlePacker.IndexCell | gfebuild/reticle.py:43 | the counter of column `x`, row `y`, reticle `r` divides back into `r`, `y`, `x` |
| ReticlePacker.IndexSteps | gfebuild/reticle.py:40-43 | the counter runs on without gaps across row and reticle boundaries |
| ReticlePacker.SlotAt | gfebuild/reticle.py:43-45 | the image at counter `i` gets reticle `r` and centre `x * pitch + offset`, `y * pitch + offset` |
| ReticlePacker.WindowStep | gfebuild/reticle.py:43 | image `i` lies in the block of reticle `i / per` and in no other |
| ReticlePacker.DrawnRangeSnoc | gfebuild/reticle.py:52 | drawing one more image appends it |
| ReticlePacker.ContentsStep | gfebuild/reticle.py:52 | drawing image `i` extends its own reticle by it and leaves the others unchanged |
| ReticlePacker.PackedStep | gfebuild/reticle.py:48-55 | one drawn image keeps reticles and placements equal to the specification for one more image |
| ReticlePacker.PackedStart | gfebuild/reticle.py:38-39 | `n_r` empty reticles and an empty dictionary are the state after no images |
| ReticlePacker.PackedFinish | gfebuild/reticle.py:59 | after every image the state is the layout `Pack` |
| ReticlePacker.RowExhausted | gfebuild/reticle.py:46-47 | after the `break` the counter is past every image for the rest of the row |
| ReticlePacker.AllDone | gfebuild/reticle.py:40-47 | after `n_r` reticles every image has been drawn |
| ReticlePacker.Reticle | gfebuild/reticle.py:32-59 | fails with a division by zero iff `n_x * n_y == 0`; otherwise returns exactly `Pack` |
| ReticlePacker.DrawImages | gfebuild/reticle.py:35-57 | the triple loop with its `break` returns the reticles and the dictionary of `Pack` |
| ReticleProperties.CapacityGreatest | gfebuild/reticle.py:32-33 | no more than `n_x` pitches fit: the capacity is the floor |
| ReticleProperties.CapacityFits | gfebuild/reticle.py:32-33 | `n` scaled images with `n - 1` clearances fit in the size, and `n + 1` images with `n` clearances do not |
| ReticleProperties.ReticleCountLeast | gfebuild/reticle.py:34 | `n_r` is the least number of reticles whose slots hold every image |
| ReticleProperties.ReticleIndexBound | gfebuild/reticle.py:34-43 | every image's reticle index is below `n_r` |
| ReticleProperties.IndexDecompose | gfebuild/reticle.py:43 | every index is the counter of one in-range `(r, y, x)`, so the counter is a bijection |
| ReticleProperties.ImageOnReticle | gfebuild/reticle.py:40-55 | image `i` is entry `i % per` of reticle `i / per`, drawn at its slot |
| ReticleProperties.ReticleEntry | gfebuild/reticle.py:40-55 | entry `t` of reticle `r` is image `r * per + t` |
| ReticleProperties.ReticleLoad | gfebuild/reticle.py:34-47 | every reticle holds between 1 and `n_x * n_y` images, and all but the last are full |
| ReticleProperties.PackEmpty | gfebuild/reticle.py:34-39 | no images give no reticles and an empty dictionary |
| ReticleProperties.AxisCentred | gfebuild/reticle.py:35-36 | slot `c` and slot `n - 1 - c` are mirror images about 0 |
| ReticleProperties.AxisSpacing | gfebuild/reticle.py:44-45 | neighbouring slots are one pitch apart |
| ReticleProperties.AxisWithin | gfebuild/reticle.py:35-45 | every slot lies within half the grid span of 0 |
| ReticleProperties.GridCentred | gfebuild/reticle.py:35-45 | the slot grid is symmetric through the reticle centre |
| ReticleProperties.NeighbourGap | gfebuild/reticle.py:32-45 | neighbouring images are separated by exactly the clearance |
| ReticleProperties.AxisFits | gfebuild/reticle.py:32-45 | along one axis every image lies within the reticle |
| ReticleProperties.ImagesFit | gfebuild/reticle.py:32-45 | `abs(pos) + scale * image / 2 <= size / 2` on both axes for every slot |
| ReticleProperties.SlotsDistinct | gfebuild/reticle.py:43-45 | distinct images get distinct slots |
| ReticleProperties.AssignKeys | gfebuild/reticle.py:55 | the dictionary's keys are exactly the layers drawn |
| ReticleProperties.AssignLast | gfebuild/reticle.py:55 | a repeated layer keeps the slot of its last image |
| ReticleProperties.AssignDrawn | gfebuild/reticle.py:55 | every dictionary entry is the slot of an image of that layer |
| ReticleProperties.AssignDistinct | gfebuild/reticle.py:55 | with distinct layers there are `len(image_layers)` entries, each image's own slot |
| ReticleProperties.DrawnAtSlot | gfebuild/reticle.py:43-55 | each image is drawn on the reticle its slot names, at the slot's centre |
| ReticleProperties.PlacementDrawn | gfebuild/reticle.py:52-55 | each dictionary entry names a reticle that carries that layer's image at that position |
| ReticleProperties.NoImages | gfebuild/reticle.py:34-39 | with no images `reticle` returns no reticle and no placement, or fails when the grid has no slot |
| ReticleExamples.ScenarioGrid | gfebuild/reticle.py:32-33 | size 100, scale 1, clearance 0, image 25 give a 4 x 4 grid of pitch 25 |
| ReticleExamples.ScenarioCorners | gfebuild/reticle.py:35-45 | its corner slots are at -37.5 and 37.5 |
| ReticleExamples.ScenarioReticleCount | gfebuild/reticle.py:34 | twenty images on sixteen slots need two reticles |
| ReticleExamples.ScenarioLoads | gfebuild/reticle.py:38-55 | twenty images fill the first reticle with sixteen and put four on the second |
| ReticleExamples.ScenarioRepeatedLayer | gfebuild/reticle.py:55 | layers `[7, 8, 7]` map 7 to the third slot and 8 to the second |

## Left out

- The CAD calls are not part of this model:
  - component extraction, `remap_layers` and `geometry_layer`;
  - the magnification transform;
  - instancing with `<<` and `move`;
  - `flatten`;
  - the wafer `Component` itself.

  An image is represented by its layer and its centre.
- gfebuild/asml300/wafer.py is not part of this model.
- Floating point: all arithmetic is exact. `np.linspace` rounding and
  rounding in `np.ceil` and in floor division are not modelled.
- ReticlePacker.Reticle: computes the layout for any real inputs, while the
  code runs only on integer inputs or with no images. Floor division yields
  a float `n_x`/`n_y` (with no fractional part) as soon as one of `size`,
  `clearance`, `scale` or `image_size` is a float, and `range(n_y)` at
  gfebuild/reticle.py:41 then raises `TypeError` once there is an image to
  place; `n_r` is always an integer.
- ReticlePacker.Reticle: the `placements` dictionary is a `map` from layer
  to slot. It holds the same entries as the code's dictionary but not its
  key order (each layer at its first image, a repeated layer updated in
  place).
- The iteration order of `avoid` is not modelled. The keep-out scan only
  reports whether some zone hits, so the order cannot change the result.
- The inputs the code leaves unchecked are preconditions here:
  - `Wafer` requires a positive radius and a positive tile size. The code
    also runs with radius 0 and with negative radii, and for some negative
    radii it still places tiles: the first test of `check_intersection`
    (gfebuild/wafer.py:64-69) can hold for a negative `c_radius`, so radius
    -1 with centred 10 x 10 tiles places the tile at `(0, 0)`.
  - `Reticle` requires a positive scale and image size, a non-negative size
    and a non-negative clearance.
- `DrawImages` holds the triple loop of `reticle`; the loop is in a method
  of its own so that its proof stays small. Its behaviour is that of the
  loop inside `reticle`.
- PlacementsAvoidZones: the geometric reading, "no common point", is stated
  only for zones of non-negative radius. For a negative radius only the
  literal test is stated.
- WaferExamples.SmallKeptPartial: covers the grid candidates of that one
  wafer, not arbitrary points.
