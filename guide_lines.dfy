/** `DLAGuideLines`: a comparator-ordered store of guide segments and a
    cursor that walks them, answering where along the guide lines a growing
    particle should go next. */
module GuideLinesModel {
  import opened GuideSegments
  import opened SegmentStore
  import opened Cursors

  /** The Java exceptions the guide lines can raise: `NoSuchElementException`
      from an exhausted iterator and `NullPointerException` from a field
      read before `reset()` set it. */
  datatype Error = NoSuchElement | NullPointer

  datatype Result<T> = Ok(value: T) | Err(error: Error)

  datatype Outcome = Pass | Fail(error: Error)

  /** The vector geometry `getPoint` relies on and does not define: a
      segment's direction, its next direction and its length, the blend of
      two directions by a progress value followed by normalisation, and a
      point moved along a direction by a length times a progress value. */
  datatype Geometry<!P> = Geometry(
    direction: Segment<P> -> P,
    nextDirection: Segment<P> -> P,
    length: Segment<P> -> real,
    blend: (P, P, real) -> P,
    offset: (P, P, real, real) -> P)

  class GuideLines<P(==,!new)> {
    /** The comparator the segment store is ordered by. */
    const order: (Segment<P>, Segment<P>) -> int
    /** The segment store, in comparator order. */
    var segments: seq<Segment<P>>
    /** The iterator: how many segments it has handed out, or `None` while
        there is none (before `reset()`, or after the store changed). */
    var iter: Option<nat>
    /** `currT`: progress along the current segment. */
    var t: real
    /** `currSegment`. */
    var current: Option<Segment<P>>
    /** `currPoint`: the start of the current segment. */
    var anchor: Option<P>
    /** `workDir`: the direction the last `getPoint()` computed. */
    var workDir: Option<P>

    ghost predicate Valid()
      reads this
    {
      && IsComparator(order)
      && Ascending(order, segments)
      && (iter.Some? ==> iter.value <= |segments|)
      && (iter.Some? && 0 < iter.value ==> current == Some(segments[iter.value - 1]))
      && (current.Some? ==> anchor == Some(current.value.a))
    }

    /** The cursor as the traversal sees it: iterator position and progress. */
    ghost function CursorState(): Cursor
      reads this`iter, this`t
      requires iter.Some?
    {
      Cursor(iter.value, t)
    }

    /** The direction `getPoint()` computes: the current segment's direction
        blended toward its next direction by the progress. */
    function Heading(geo: Geometry<P>): P
      reads this`current, this`t
      requires current.Some?
    {
      geo.blend(geo.direction(current.value), geo.nextDirection(current.value), t)
    }

    constructor (order: (Segment<P>, Segment<P>) -> int)
      requires IsComparator(order)
      ensures Valid() && this.order == order
      ensures segments == [] && iter == None && t == 0.0
      ensures current == None && anchor == None && workDir == None
    {
      this.order := order;
      segments := [];
      iter := None;
      t := 0.0;
      current := None;
      anchor := None;
      workDir := None;
    }

    /** `segments.add(s)`. A segment that compares equal to a stored one
        changes nothing; otherwise the store changes and the live iterator
        is no longer usable. */
    method Add(s: Segment<P>)
      requires Valid()
      modifies this`segments, this`iter
      ensures Valid()
      ensures segments == Insert(order, old(segments), s)
      ensures HasTwin(order, old(segments), s) <==> |segments| == |old(segments)|
      ensures |old(segments)| <= |segments|
      ensures iter == if |segments| == |old(segments)| then old(iter) else None
    {
      AscendingIsSorted(order, segments);
      InsertKeepsStore(order, segments, s);
      InsertChangesIffNew(order, segments, s);
      AscendingIsSorted(order, Insert(order, segments, s));
      if !HasTwin(order, segments, s) {
        iter := None;
      }
      segments := Insert(order, segments, s);
    }

    /** `addLine(a, b)`: add the segment from `a` to `b`, with no anchor after
        it. The store stays sorted, keeps all it held and afterwards holds the
        new segment or one that compares equal to it. */
    method AddLine(a: P, b: P)
      requires Valid()
      modifies this`segments, this`iter
      ensures Valid()
      ensures segments == Insert(order, old(segments), Segment(a, b, None))
      ensures forall e :: e in old(segments) ==> e in segments
      ensures HasTwin(order, segments, Segment(a, b, None))
      ensures iter == if segments == old(segments) then old(iter) else None
    {
      AscendingIsSorted(order, segments);
      InsertKeepsStore(order, segments, Segment(a, b, None));
      InsertChangesIffNew(order, segments, Segment(a, b, None));
      Add(Segment(a, b, None));
    }

    /** `addPointList(points)`: add one segment per consecutive pair of
        points, in polyline order, each anchored to the point after its end
        when there is one. */
    method AddPointList(points: seq<P>)
      requires Valid()
      modifies this`segments, this`iter
      ensures Valid()
      ensures segments == InsertPrefix(order, old(segments), PolylineSegments(points), |PolylineSegments(points)|)
      ensures iter == if segments == old(segments) then old(iter) else None
    {
      var numP := |points|;
      ghost var ps := PolylineSegments(points);
      ghost var initial := segments;
      PolylineLength(points);
      var i := 1;
      while i < numP
        invariant 1 <= i <= if numP == 0 then 1 else numP
        invariant Valid() && Ascending(order, initial)
        invariant segments == InsertPrefix(order, initial, ps, i - 1)
        invariant |initial| <= |segments|
        invariant iter == if |segments| == |initial| then old(iter) else None
      {
        var p := if i < numP - 1 then Some(points[i + 1]) else None;
        var s := Segment(points[i - 1], points[i], p);
        PolylineAt(points, i - 1);
        Add(s);
        i := i + 1;
      }
      assert segments == initial <==> |segments| == |initial| by {
        AscendingIsSorted(order, initial);
        InsertPrefixUnchangedIffSameLength(order, initial, ps, |ps|);
      }
    }

    /** `getCurrentSegmentPos()`: the progress along the current segment. */
    method GetCurrentSegmentPos() returns (r: real)
      ensures r == t
    {
      r := t;
    }

    /** `getPoint()`: the position `anchor + heading * (length * t)` on the
        current segment. It reads the segment, the progress and the anchor,
        and overwrites nothing but the cached direction. */
    method GetPoint(geo: Geometry<P>) returns (r: Result<P>)
      requires Valid()
      modifies this`workDir
      ensures Valid()
      ensures current == None ==> r == Err(NullPointer) && workDir == old(workDir)
      ensures current.Some? ==>
        && workDir == Some(Heading(geo))
        && r == Ok(geo.offset(anchor.value, Heading(geo), geo.length(current.value), t))
    {
      if current == None {
        return Err(NullPointer);
      }
      var s := current.value;
      var dir := geo.blend(geo.direction(s), geo.nextDirection(s), t);
      workDir := Some(dir);
      r := Ok(geo.offset(anchor.value, dir, geo.length(s), t));
    }

    /** `getDirection()`: the cached direction; only when there is none yet
        is it computed, by `getPoint()`. */
    method GetDirection(geo: Geometry<P>) returns (r: Result<P>)
      requires Valid()
      modifies this`workDir
      ensures Valid()
      ensures old(workDir).Some? ==> workDir == old(workDir) && r == Ok(old(workDir).value)
      ensures old(workDir) == None && current == None ==> workDir == None && r == Err(NullPointer)
      ensures old(workDir) == None && current.Some? ==> workDir == Some(Heading(geo)) && r == Ok(Heading(geo))
    {
      if workDir == None {
        var p := GetPoint(geo);
        if p.Err? {
          return Err(p.error);
        }
      }
      r := Ok(workDir.value);
    }

    /** `isComplete()`: no later segment and progress at least 1; without an
        iterator it fails. */
    method IsComplete() returns (r: Result<bool>)
      ensures iter == None ==> r == Err(NullPointer)
      ensures iter.Some? ==> r == Ok(Complete(|segments|, CursorState()))
    {
      if iter == None {
        return Err(NullPointer);
      }
      var hasNext := iter.value < |segments|;
      r := Ok(!hasNext && t >= 1.0);
    }

    /** `reset()`: a fresh iterator, progress 0, and the first segment in
        comparator order as current segment with its start as anchor. On an
        empty store the iterator's first `next()` fails after the progress
        has been cleared. */
    method Reset() returns (r: Outcome)
      requires Valid()
      modifies this
      ensures Valid()
      ensures segments == old(segments) && workDir == old(workDir) && t == 0.0
      ensures segments == [] ==>
        && r == Fail(NoSuchElement) && iter == Some(0)
        && current == old(current) && anchor == old(anchor)
      ensures segments != [] ==>
        && r == Pass && iter.Some? && CursorState() == Start()
        && current == Some(segments[0]) && anchor == Some(segments[0].a)
        && forall j :: 0 < j < |segments| ==> order(segments[0], segments[j]) < 0
    {
      iter := Some(0);
      t := 0.0;
      AscendingIsSorted(order, segments);
      if |segments| == 0 {
        return Fail(NoSuchElement);
      }
      current := Some(segments[0]);
      iter := Some(1);
      anchor := Some(segments[0].a);
      r := Pass;
    }

    /** `updatePoint(delta)`: add `delta` to the progress; on reaching 1 with
        a later segment, carry the overflow into that segment and make its
        start the anchor. Returns the current segment. Without an iterator
        the progress is still added, and reaching 1 then fails. */
    method UpdatePoint(delta: real) returns (r: Result<Option<Segment<P>>>)
      requires Valid()
      modifies this
      ensures Valid()
      ensures segments == old(segments) && workDir == old(workDir)
      ensures old(iter) == None ==>
        && iter == None && t == old(t) + delta
        && current == old(current) && anchor == old(anchor)
        && r == (if t >= 1.0 then Err(NullPointer) else Ok(current))
      ensures old(iter).Some? ==>
        && iter.Some?
        && CursorState() == Update(|segments|, Cursor(old(iter).value, old(t)), delta)
        && r == Ok(current)
      ensures old(iter).Some? && iter == old(iter) ==> current == old(current) && anchor == old(anchor)
      ensures old(iter).Some? && iter != old(iter) ==>
        && old(iter).value < |segments|
        && current == Some(segments[old(iter).value])
        && anchor == Some(segments[old(iter).value].a)
    {
      t := t + delta;
      if t >= 1.0 {
        if iter == None {
          return Err(NullPointer);
        }
        if iter.value < |segments| {
          t := t - 1.0;
          var s := segments[iter.value];
          iter := Some(iter.value + 1);
          current := Some(s);
          anchor := Some(s.a);
        }
      }
      r := Ok(current);
    }
  }

  /** Two position queries with no update between them give the same
      answer: `getPoint()` depends only on what it does not change. */
  method PointIsRepeatable<P(==,!new)>(g: GuideLines<P>, geo: Geometry<P>) returns (p: Result<P>, q: Result<P>)
    requires g.Valid()
    modifies g
    ensures p == q
  {
    p := g.GetPoint(geo);
    q := g.GetPoint(geo);
  }

  /** The simulation driver's walk: `reset()`, then `updatePoint(1.0)` until
      `isComplete()`. The segments the cursor arrives on, starting with the
      one `reset()` picks, are the stored segments, each once and in
      comparator order, and the walk ends complete on the last one. */
  method WalkWholeSegments<P(==,!new)>(g: GuideLines<P>) returns (visited: seq<Segment<P>>)
    requires g.Valid() && g.segments != []
    modifies g
    ensures g.Valid() && g.segments == old(g.segments)
    ensures visited == g.segments
    ensures g.iter.Some? && Complete(|g.segments|, g.CursorState())
  {
    var n := |g.segments|;
    var started := g.Reset();
    visited := [g.current.value];
    var done := g.IsComplete();
    while done != Ok(true)
      invariant g.Valid() && g.segments == old(g.segments)
      invariant g.iter == Some(|visited|) && 1 <= |visited| <= n
      invariant visited == g.segments[..|visited|]
      invariant done == Ok(Complete(n, g.CursorState()))
      invariant done == Ok(false) ==> g.t == 0.0
      invariant done == Ok(true) ==> |visited| == n
      decreases n - |visited| + (if done == Ok(true) then 0 else 1)
    {
      ghost var k := |visited|;
      assert Update(n, Cursor(k, 0.0), 1.0) == if k < n then Cursor(k + 1, 0.0) else Cursor(k, 1.0);
      var r := g.UpdatePoint(1.0);
      done := g.IsComplete();
      if done == Ok(false) {
        assert k < n && r == Ok(Some(g.segments[k]));
        assert g.segments[..k + 1] == g.segments[..k] + [g.segments[k]];
        visited := visited + [r.value.value];
      }
    }
  }
}
