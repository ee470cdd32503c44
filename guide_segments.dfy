/** Guide segments (`DLASegment`): a directed line from `a` to `b` that may
    also record the polyline point after `b`, from which the direction to
    continue in is taken. Points are left abstract: `P` stands for `Vec3D`. */
module GuideSegments {

  datatype Option<T> = None | Some(value: T)

  datatype Segment<P> = Segment(a: P, b: P, next: Option<P>)

  /** The segments `addPointList` builds from a polyline, in the order it
      adds them: one per consecutive pair of points, each recording the
      point after its end when there is one. */
  function PolylineSegments<P>(points: seq<P>): seq<Segment<P>>
    decreases |points|
  {
    if |points| < 2 then []
    else
      var next := if |points| > 2 then Some(points[2]) else None;
      [Segment(points[0], points[1], next)] + PolylineSegments(points[1..])
  }

  /** With n >= 2 points there are n - 1 segments, and the k-th runs from
      point k to point k + 1, anchored to point k + 2 when that exists; with
      fewer than 2 points there are none. */
  lemma {:induction false} PolylineShape<P>(points: seq<P>)
    ensures |PolylineSegments(points)| == if |points| < 2 then 0 else |points| - 1
    ensures forall k {:trigger PolylineSegments(points)[k]} :: 0 <= k < |points| - 1 ==>
      PolylineSegments(points)[k] ==
        Segment(points[k], points[k + 1], if k + 2 < |points| then Some(points[k + 2]) else None)
    decreases |points|
  {
    if |points| >= 2 {
      var tail := points[1..];
      PolylineShape(tail);
      forall k | 0 < k < |points| - 1
        ensures PolylineSegments(points)[k] ==
          Segment(points[k], points[k + 1], if k + 2 < |points| then Some(points[k + 2]) else None)
      {
        assert PolylineSegments(points)[k] == PolylineSegments(tail)[k - 1];
        assert PolylineSegments(tail)[k - 1] ==
          Segment(tail[k - 1], tail[k], if k + 1 < |tail| then Some(tail[k + 1]) else None);
        assert tail[k - 1] == points[k] && tail[k] == points[k + 1];
        if k + 1 < |tail| {
          assert tail[k + 1] == points[k + 2];
        }
      }
    }
  }

  /** The number of segments of a polyline, on its own. */
  lemma PolylineLength<P>(points: seq<P>)
    ensures |PolylineSegments(points)| == if |points| < 2 then 0 else |points| - 1
  {
    PolylineShape(points);
  }

  /** The `k`-th segment of a polyline, on its own. */
  lemma PolylineAt<P>(points: seq<P>, k: nat)
    requires k + 1 < |points|
    ensures k < |PolylineSegments(points)|
    ensures PolylineSegments(points)[k] ==
      Segment(points[k], points[k + 1], if k + 2 < |points| then Some(points[k + 2]) else None)
  {
    PolylineShape(points);
  }

  /** The segments of a polyline join up: each starts where the one before
      it ends, each but the last is anchored to the end of the one after it,
      and the last has no anchor. */
  lemma PolylineIsChained<P>(points: seq<P>)
    ensures var ss := PolylineSegments(points);
      && (forall k :: 0 <= k < |ss| - 1 ==> ss[k].b == ss[k + 1].a && ss[k].next == Some(ss[k + 1].b))
      && (ss != [] ==> ss[|ss| - 1].next == None)
  {
    PolylineShape(points);
  }
}
