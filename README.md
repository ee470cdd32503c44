# DLA guide lines, modelled in Dafny

`DLAGuideLines` (toxiclibs, package `toxi.sim.dla`) steers a diffusion-limited
aggregation simulation along guide lines. It keeps a `TreeSet` of guide
segments ordered by a pluggable `Comparator`. Segments are added one at a
time (`addLine`) or from a polyline (`addPointList`). A cursor walks the set:
an iterator, the progress `currT` along the current segment, the current
segment and its start point. `reset`, `updatePoint`, `isComplete`,
`getCurrentSegmentPos`, `getPoint` and `getDirection` drive and query that
cursor.

The model has four modules:

- `SegmentStore` (`segment_store.dfy`): the `TreeSet` as a sequence strictly
  sorted by an abstract comparator. `Insert` follows `TreeSet.add`: it drops
  an element that compares equal to a stored one. `InsertPrefix` adds a list
  of elements in turn. Lemmas cover sortedness, what is kept, what is brought
  in and when the store changes.
- `GuideSegments` (`guide_segments.dfy`): the segment value (`DLASegment`:
  start, end, optional next point) and the segments a polyline turns into.
- `Cursors` (`cursor.dfy`): the traversal cursor as a value (number of
  segments handed out, progress), the effect of one `updatePoint`, and
  lemmas about one update and about repeated updates.
- `GuideLinesModel` (`guide_lines.dfy`): the class `GuideLines`. Its fields
  are the store, the iterator, the progress, the current segment, the anchor
  point and the cached direction. Its methods update those fields as the
  Java methods do. Each method is tied by its contract to the functions of
  the other modules.

Java exceptions are results: `NoSuchElement` from an exhausted iterator and
`NullPointer` from a field read while still `null`. State changes made before
the exception is thrown are kept. For example, `reset()` on an empty store
has already replaced the iterator and cleared the progress.

## Model

| member | source | states |
|---|---|---|
| SegmentStore.InsertKeepsStore | toxiclibs/src.sim/toxi/sim/dla/DLAGuideLines.java:50 | `segments.add` keeps the store strictly sorted and keeps every element it held. An element that compares equal to a stored one leaves the store exactly as it was. Any other element makes the store one longer and brings in nothing but itself. Either way the added element is represented afterwards. |
| SegmentStore.InsertChangesIffNew | toxiclibs/src.sim/toxi/sim/dla/DLAGuideLines.java:50 | The store is unchanged exactly when a comparator-equal segment is already stored; otherwise it grows by one. |
| SegmentStore.SortedIsDuplicateFree | toxiclibs/src.sim/toxi/sim/dla/DLAGuideLines.java:35 | A sorted store holds no two comparator-equal segments, and its first segment comes before all the others. |
| SegmentStore.InsertPrefixKeepsStore | toxiclibs/src.sim/toxi/sim/dla/DLAGuideLines.java:54-63 | Adding a list of segments keeps the store sorted and keeps all it held. It brings in only segments of the list, leaves each of them represented, and never shrinks the store. |
| SegmentStore.InsertPrefixUnchangedIffSameLength | toxiclibs/src.sim/toxi/sim/dla/DLAGuideLines.java:54-63 | After adding a list, the store is unchanged exactly when it has not grown. |
| GuideSegments.PolylineShape | toxiclibs/src.sim/toxi/sim/dla/DLAGuideLines.java:54-63 | n >= 2 points give n - 1 segments, and fewer than 2 give none. Segment k runs from point k to point k + 1. It is anchored to point k + 2 when that exists, and the last segment has no anchor. |
| GuideSegments.PolylineIsChained | toxiclibs/src.sim/toxi/sim/dla/DLAGuideLines.java:54-63 | Consecutive polyline segments join end to start. Each is anchored to the end of the next one, and the last has no anchor. |
| Cursors.UpdateCrossesAtMostOne | toxiclibs/src.sim/toxi/sim/dla/DLAGuideLines.java:99-110 | One `updatePoint` moves at most one segment on, never past the last. It moves exactly when the progress reaches 1 and a later segment exists, whatever `delta` is. |
| Cursors.UpdateCarriesOverflow | toxiclibs/src.sim/toxi/sim/dla/DLAGuideLines.java:100-105 | The overflow is carried, not dropped: segment count plus progress grows by exactly `delta`. |
| Cursors.UpdateOnLastSegment | toxiclibs/src.sim/toxi/sim/dla/DLAGuideLines.java:100-109 | Without a later segment the cursor stays, and the progress keeps accumulating past 1. |
| Cursors.CompleteIsStable | toxiclibs/src.sim/toxi/sim/dla/DLAGuideLines.java:87-110 | Once `isComplete()` holds, an update with `delta >= 0` keeps it true. |
| Cursors.UpdateKeepsInRange | toxiclibs/src.sim/toxi/sim/dla/DLAGuideLines.java:99-110 | With `0 <= delta <= 1`, the progress stays at least 0 and below 1 on every segment but the last. |
| Cursors.WalkCarriesOverflow | toxiclibs/src.sim/toxi/sim/dla/DLAGuideLines.java:99-110 | After k updates by `delta`, segment count plus progress has grown by `k * delta`. |
| Cursors.WalkKeepsInRange | toxiclibs/src.sim/toxi/sim/dla/DLAGuideLines.java:99-110 | Any number of updates with `0 <= delta <= 1` keep the progress in [0, 1) whenever a later segment exists. |
| Cursors.WalkStaysComplete | toxiclibs/src.sim/toxi/sim/dla/DLAGuideLines.java:87-110 | Once complete, the cursor stays complete under any number of updates with `delta >= 0`. |
| Cursors.UnitWalkVisitsInOrder | toxiclibs/src.sim/toxi/sim/dla/DLAGuideLines.java:91-110 | After `reset()` and k < n updates by 1, the cursor is at the start of segment k + 1 and is not complete. |
| Cursors.UnitWalkEndsComplete | toxiclibs/src.sim/toxi/sim/dla/DLAGuideLines.java:87-110 | After `reset()`, updates by 1 on n segments first make the cursor complete at the n-th update. It is then on the last segment with progress 1. |
| GuideLinesModel.GuideLines.constructor | toxiclibs/src.sim/toxi/sim/dla/DLAGuideLines.java:34-36 | A new object has an empty store ordered by the given comparator, and no iterator, segment, anchor or direction. |
| GuideLinesModel.GuideLines.Add | toxiclibs/src.sim/toxi/sim/dla/DLAGuideLines.java:50 | `segments.add` replaces the store by its `Insert` and keeps it sorted. The store grows exactly when no comparator-equal segment was stored, and a growing store drops the live iterator. |
| GuideLinesModel.GuideLines.AddLine | toxiclibs/src.sim/toxi/sim/dla/DLAGuideLines.java:47-52 | Adds the segment from `a` to `b` with no anchor. The store stays sorted and keeps all it held. Afterwards it holds that segment or one equal to it under the comparator. |
| GuideLinesModel.GuideLines.AddPointList | toxiclibs/src.sim/toxi/sim/dla/DLAGuideLines.java:54-63 | The loop leaves the store equal to the old store with the polyline's segments added in order, and keeps it sorted. The iterator survives only if nothing changed. |
| GuideLinesModel.GuideLines.GetCurrentSegmentPos | toxiclibs/src.sim/toxi/sim/dla/DLAGuideLines.java:65-67 | Returns the progress and changes nothing. |
| GuideLinesModel.GuideLines.GetPoint | toxiclibs/src.sim/toxi/sim/dla/DLAGuideLines.java:76-85 | Without a current segment it fails with a null dereference and changes nothing. Otherwise it caches the blended direction and returns the anchor moved along it by length times progress. Of the fields modelled it changes nothing else. |
| GuideLinesModel.GuideLines.GetDirection | toxiclibs/src.sim/toxi/sim/dla/DLAGuideLines.java:69-74 | A cached direction is returned untouched. Only when none is cached is it computed as `getPoint()` does, failing as `getPoint()` does. |
| GuideLinesModel.GuideLines.IsComplete | toxiclibs/src.sim/toxi/sim/dla/DLAGuideLines.java:87-89 | True exactly when no later segment exists and progress is at least 1. Without an iterator it fails with a null dereference. |
| GuideLinesModel.GuideLines.Reset | toxiclibs/src.sim/toxi/sim/dla/DLAGuideLines.java:91-97 | Sets a fresh iterator and progress 0. It makes the first segment in comparator order current, with its start as anchor. On an empty store it fails with `NoSuchElement` after the iterator and progress are already replaced. |
| GuideLinesModel.GuideLines.UpdatePoint | toxiclibs/src.sim/toxi/sim/dla/DLAGuideLines.java:99-110 | The cursor moves as `Cursors.Update` says. When it moves, the next segment in order becomes current and its start becomes the anchor; otherwise both stay. The current segment is returned. Without an iterator the progress is still added, and reaching 1 fails with a null dereference. |
| GuideLinesModel.PointIsRepeatable | toxiclibs/src.sim/toxi/sim/dla/DLAGuideLines.java:76-85 | In the model, where a segment's direction is a pure function of the segment, two `getPoint()` calls in a row give the same answer (see "## Left out" for the Java aliasing caveat). |
| GuideLinesModel.WalkWholeSegments | toxiclibs/src.sim/toxi/sim/dla/DLAGuideLines.java:87-110 | `reset()` followed by `updatePoint(1.0)` until `isComplete()` arrives on every stored segment exactly once, in comparator order. The walk ends complete. |

## Left out

- Vector arithmetic in `getPoint` (`interpolateToSelf`, `normalize`, `scale`, `add`) and the `float` casts of the progress. These are floating-point operations on `Vec3D`, which is not part of this model. They are parameters (`Geometry`), so only which fields `getPoint` reads and writes is verified.
- `double` is modelled as `real`: rounding in `currT += delta` and `currT -= 1.0` is not captured.
- GuideLinesModel.GuideLines.GetPoint: `interpolateToSelf` writes into the vector that `DLASegment.getDirection()` returns. That is the segment's own direction if `DLASegment` keeps it as a field and hands it out, and a fresh vector if it computes it on each call; `DLASegment` is not part of this model. The model takes the segment's direction as a pure function of the segment value, so it does not capture that aliasing: `getPoint` is treated as changing only the cached direction.
- GuideLinesModel.PointIsRepeatable: repeatability is a property of the model. In Java it holds only if `getDirection()` returns a fresh vector; if it returns the segment's own, a second `getPoint()` blends the already blended direction again and can answer differently.
- The default constructor with `PipelineOrder` (lines 30-32), and `DLASegment` and `Line3D` themselves, are not part of this model. The order is any comparator whose signs are antisymmetric and whose "before" is transitive.
- `addLine(Line3D)` (lines 43-45) and the deprecated `addCurveStrip` (lines 38-41) only forward to `addLine(a, b)` and `addPointList`. They have no members of their own.
- Logging (lines 15-16, 49, 59, 106) is output only and is left out.
- Adding a segment after `reset()`: the Java `TreeSet` iterator then fails fast with `ConcurrentModificationException` on its next `next()`. In the model, a change to the store drops the iterator. A new `reset()` is needed, and `isComplete`/`updatePoint` fail with a null dereference until then.
- `GuideLinesModel.GuideLines.AddPointList`: the store after the loop is stated as `InsertPrefix` of the old store. Its contents are described by `SegmentStore.InsertPrefixKeepsStore` by membership, not by multiplicity, because the sorted store never holds an element twice.
- `ColorRange`, the wave oscillators and `CosineInterpolation` elsewhere in the repository are not part of this model.
