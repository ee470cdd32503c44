/** The traversal cursor of the guide lines, apart from the segments it walks
    over. `pos` is how many segments the iterator has handed out (the
    current segment is the `pos`-th in comparator order) and `t` is the
    progress along the current segment. `n` is the number of segments. */
module Cursors {

  datatype Cursor = Cursor(pos: nat, t: real)

  /** `iterator.hasNext()`: a later segment exists. */
  predicate HasNext(n: nat, c: Cursor) {
    c.pos < n
  }

  /** `isComplete()`: no later segment and the progress has reached 1. */
  predicate Complete(n: nat, c: Cursor) {
    !HasNext(n, c) && c.t >= 1.0
  }

  /** The cursor right after a successful `reset()`. */
  function Start(): Cursor {
    Cursor(1, 0.0)
  }

  /** The effect of `updatePoint(delta)` on the cursor: add `delta`; on
      reaching 1 with a later segment, take 1 off and move to that segment. */
  function Update(n: nat, c: Cursor, delta: real): Cursor {
    var t := c.t + delta;
    if t >= 1.0 && HasNext(n, c) then Cursor(c.pos + 1, t - 1.0) else Cursor(c.pos, t)
  }

  /** The cursor after `k` calls of `updatePoint(delta)`. */
  function Walk(n: nat, c: Cursor, k: nat, delta: real): Cursor {
    if k == 0 then c else Update(n, Walk(n, c, k - 1, delta), delta)
  }

  /** The cursor is in range when its progress is not negative and is below
      1 on every segment but the last. */
  predicate InRange(n: nat, c: Cursor) {
    0.0 <= c.t && (HasNext(n, c) ==> c.t < 1.0)
  }

  /** One update crosses at most one segment boundary, whatever `delta` is,
      never goes past the last segment, and moves exactly when the progress
      reaches 1 with a later segment to move to. */
  lemma UpdateCrossesAtMostOne(n: nat, c: Cursor, delta: real)
    requires c.pos <= n
    ensures c.pos <= Update(n, c, delta).pos <= c.pos + 1
    ensures Update(n, c, delta).pos <= n
    ensures Update(n, c, delta).pos == c.pos + 1 <==> c.t + delta >= 1.0 && HasNext(n, c)
  {
  }

  /** Overflow is carried, not dropped: segment count plus progress grows by
      exactly `delta` on every update. */
  lemma UpdateCarriesOverflow(n: nat, c: Cursor, delta: real)
    ensures Update(n, c, delta).pos as real + Update(n, c, delta).t == c.pos as real + c.t + delta
  {
  }

  /** On the last segment the cursor stays put and the progress keeps
      accumulating, past 1 if need be. */
  lemma UpdateOnLastSegment(n: nat, c: Cursor, delta: real)
    requires !HasNext(n, c)
    ensures Update(n, c, delta) == Cursor(c.pos, c.t + delta)
  {
  }

  /** Once complete, the cursor stays complete under any update that does
      not go backwards. */
  lemma CompleteIsStable(n: nat, c: Cursor, delta: real)
    requires Complete(n, c) && 0.0 <= delta
    ensures Complete(n, Update(n, c, delta))
  {
  }

  /** An update by at most 1 keeps the cursor in range. */
  lemma UpdateKeepsInRange(n: nat, c: Cursor, delta: real)
    requires InRange(n, c) && 0.0 <= delta <= 1.0
    ensures InRange(n, Update(n, c, delta))
  {
  }

  /** Over any number of updates the overflow is carried: segment count
      plus progress grows by `k * delta`. */
  lemma {:induction false} WalkCarriesOverflow(n: nat, c: Cursor, k: nat, delta: real)
    ensures Walk(n, c, k, delta).pos as real + Walk(n, c, k, delta).t == c.pos as real + c.t + k as real * delta
  {
    if k > 0 {
      WalkCarriesOverflow(n, c, k - 1, delta);
      UpdateCarriesOverflow(n, Walk(n, c, k - 1, delta), delta);
    }
  }

  /** From a cursor in range, any number of updates by at most 1 keeps it in
      range: progress stays in [0, 1) on every segment but the last. */
  lemma {:induction false} WalkKeepsInRange(n: nat, c: Cursor, k: nat, delta: real)
    requires InRange(n, c) && 0.0 <= delta <= 1.0
    ensures InRange(n, Walk(n, c, k, delta))
  {
    if k > 0 {
      WalkKeepsInRange(n, c, k - 1, delta);
      UpdateKeepsInRange(n, Walk(n, c, k - 1, delta), delta);
    }
  }

  /** Once complete, any further updates that do not go backwards leave the
      cursor complete. */
  lemma {:induction false} WalkStaysComplete(n: nat, c: Cursor, k: nat, delta: real)
    requires Complete(n, c) && 0.0 <= delta
    ensures Complete(n, Walk(n, c, k, delta))
  {
    if k > 0 {
      WalkStaysComplete(n, c, k - 1, delta);
      CompleteIsStable(n, Walk(n, c, k - 1, delta), delta);
    }
  }

  /** Updates by exactly 1 from the start: after `k` of them, for `k` below
      the number of segments, the cursor is at the start of segment `k + 1`
      and is not complete. */
  lemma {:induction false} UnitWalkVisitsInOrder(n: nat, k: nat)
    requires k < n
    ensures Walk(n, Start(), k, 1.0) == Cursor(k + 1, 0.0)
    ensures !Complete(n, Walk(n, Start(), k, 1.0))
  {
    if k > 0 {
      UnitWalkVisitsInOrder(n, k - 1);
    }
  }

  /** Updates by exactly 1 from the start on `n` segments: the `n`-th
      update is the first after which the cursor is complete; it is then on
      the last segment with progress 1. */
  lemma UnitWalkEndsComplete(n: nat)
    requires 0 < n
    ensures Walk(n, Start(), n, 1.0) == Cursor(n, 1.0)
    ensures Complete(n, Walk(n, Start(), n, 1.0))
    ensures forall k :: 0 <= k < n ==> !Complete(n, Walk(n, Start(), k, 1.0))
  {
    UnitWalkVisitsInOrder(n, n - 1);
    forall k | 0 <= k < n ensures !Complete(n, Walk(n, Start(), k, 1.0)) {
      UnitWalkVisitsInOrder(n, k);
    }
  }
}
