/**
 * Axis-aligned bounding boxes: the slab test that decides whether a ray
 * segment passes through a box, and the surrounding box of two boxes.
 */
module Bounds {
  import opened Geometry

  /** A box given by its minimum and maximum corner. */
  datatype Aabb = Aabb(min: Vec3, max: Vec3)

  /** No axis has its minimum above its maximum. */
  predicate WellFormed(b: Aabb) {
    forall a :: 0 <= a < 3 ==> Coord(b.min, a) <= Coord(b.max, a)
  }

  /** `outer` contains `inner`: on every axis its minimum is no larger and its maximum no smaller. */
  predicate Encloses(outer: Aabb, inner: Aabb) {
    forall a :: 0 <= a < 3 ==>
      Coord(outer.min, a) <= Coord(inner.min, a) && Coord(inner.max, a) <= Coord(outer.max, a)
  }

  /** The point lies in the closed box. */
  predicate Inside(b: Aabb, p: Vec3) {
    forall a :: 0 <= a < 3 ==> Coord(b.min, a) <= Coord(p, a) <= Coord(b.max, a)
  }

  /**
   * Two distinct parameters of the segment [start, end) of the ray lie in the
   * box; by convexity so does every parameter between them. A ray that only
   * touches the box at a single parameter does not pass through it.
   */
  ghost predicate PassesThrough(b: Aabb, ray: Ray, start: real, end: real) {
    exists t1, t2 :: start <= t1 < t2 < end && Inside(b, At(ray, t1)) && Inside(b, At(ray, t2))
  }

  // ---------------------------------------------------------------- surrounding box

  /**
   * The surrounding box of two boxes: component-wise minimum of the minima and
   * maximum of the maxima. It contains both boxes and is contained in every
   * box that contains both.
   */
  function SurroundingBox(box0: Aabb, box1: Aabb): (r: Aabb)
    ensures Encloses(r, box0) && Encloses(r, box1)
    ensures WellFormed(box0) && WellFormed(box1) ==> WellFormed(r)
  {
    Aabb(MinVec(box0.min, box1.min), MaxVec(box0.max, box1.max))
  }

  /** Every box that contains both boxes contains their surrounding box: it is the least such box. */
  lemma SurroundingBoxLeast(box0: Aabb, box1: Aabb, c: Aabb)
    requires Encloses(c, box0) && Encloses(c, box1)
    ensures Encloses(c, SurroundingBox(box0, box1))
  {
    var r := SurroundingBox(box0, box1);
    forall a | 0 <= a < 3
      ensures Coord(c.min, a) <= Coord(r.min, a) && Coord(r.max, a) <= Coord(c.max, a)
    {
      assert Coord(r.min, a) == Coord(box0.min, a) || Coord(r.min, a) == Coord(box1.min, a);
      assert Coord(r.max, a) == Coord(box0.max, a) || Coord(r.max, a) == Coord(box1.max, a);
    }
  }

  /** Two boxes that contain each other are equal. */
  lemma EnclosesAntisymmetric(p: Aabb, q: Aabb)
    requires Encloses(p, q) && Encloses(q, p)
    ensures p == q
  {
    assert Coord(p.min, 0) == Coord(q.min, 0) && Coord(p.min, 1) == Coord(q.min, 1) && Coord(p.min, 2) == Coord(q.min, 2);
    assert Coord(p.max, 0) == Coord(q.max, 0) && Coord(p.max, 1) == Coord(q.max, 1) && Coord(p.max, 2) == Coord(q.max, 2);
  }

  lemma EnclosesTransitive(p: Aabb, q: Aabb, r: Aabb)
    requires Encloses(p, q) && Encloses(q, r)
    ensures Encloses(p, r)
  {
  }

  lemma SurroundingBoxCommutes(box0: Aabb, box1: Aabb)
    ensures SurroundingBox(box0, box1) == SurroundingBox(box1, box0)
  {
    SurroundingBoxLeast(box0, box1, SurroundingBox(box1, box0));
    SurroundingBoxLeast(box1, box0, SurroundingBox(box0, box1));
    EnclosesAntisymmetric(SurroundingBox(box0, box1), SurroundingBox(box1, box0));
  }

  lemma SurroundingBoxAssociates(box0: Aabb, box1: Aabb, box2: Aabb)
    ensures SurroundingBox(SurroundingBox(box0, box1), box2)
         == SurroundingBox(box0, SurroundingBox(box1, box2))
  {
    var l := SurroundingBox(SurroundingBox(box0, box1), box2);
    var r := SurroundingBox(box0, SurroundingBox(box1, box2));
    EnclosesTransitive(l, SurroundingBox(box0, box1), box0);
    EnclosesTransitive(l, SurroundingBox(box0, box1), box1);
    EnclosesTransitive(r, SurroundingBox(box1, box2), box1);
    EnclosesTransitive(r, SurroundingBox(box1, box2), box2);
    SurroundingBoxLeast(box1, box2, l);
    SurroundingBoxLeast(box0, SurroundingBox(box1, box2), l);
    SurroundingBoxLeast(box0, box1, r);
    SurroundingBoxLeast(SurroundingBox(box0, box1), box2, r);
    EnclosesAntisymmetric(l, r);
  }

  /** A box surrounds itself and nothing more: the surrounding box is idempotent. */
  lemma SurroundingBoxIdempotent(b: Aabb)
    ensures SurroundingBox(b, b) == b
  {
    SurroundingBoxLeast(b, b, b);
    EnclosesAntisymmetric(SurroundingBox(b, b), b);
  }

  // ---------------------------------------------------------------- slab test

  /**
   * The entry and exit parameters of the ray on the slab of axis `a`: the
   * parameters of the two bounding planes, scaled by the inverse direction,
   * and swapped when that inverse is negative so that the entry comes first.
   */
  function Slab(b: Aabb, ray: Ray, a: nat): (r: (real, real))
    requires a < 3 && NonZeroDirection(ray)
  {
    var invD := 1.0 / Coord(ray.direction, a);
    var t0 := (Coord(b.min, a) - Coord(ray.origin, a)) * invD;
    var t1 := (Coord(b.max, a) - Coord(ray.origin, a)) * invD;
    if invD < 0.0 then (t1, t0) else (t0, t1)
  }

  /** The entry and exit of axis `a`, named by the values the slab test computes for them. */
  lemma SlabUnfold(b: Aabb, ray: Ray, a: nat, invD: real, t0: real, t1: real)
    requires a < 3 && NonZeroDirection(ray)
    requires invD == 1.0 / Coord(ray.direction, a)
    requires t0 == (Coord(b.min, a) - Coord(ray.origin, a)) * invD
    requires t1 == (Coord(b.max, a) - Coord(ray.origin, a)) * invD
    ensures Slab(b, ray, a).0 == if invD < 0.0 then t1 else t0
    ensures Slab(b, ray, a).1 == if invD < 0.0 then t0 else t1
  {
  }

  /** The lower end of the running interval after the first `k` axes have narrowed it. */
  function Entry(b: Aabb, ray: Ray, start: real, k: nat): real
    requires k <= 3 && NonZeroDirection(ray)
  {
    if k == 0 then start else Max(Slab(b, ray, k - 1).0, Entry(b, ray, start, k - 1))
  }

  /** The upper end of the running interval after the first `k` axes have narrowed it. */
  function Exit(b: Aabb, ray: Ray, end: real, k: nat): real
    requires k <= 3 && NonZeroDirection(ray)
  {
    if k == 0 then end else Min(Slab(b, ray, k - 1).1, Exit(b, ray, end, k - 1))
  }

  lemma {:induction false} EntryMonotone(b: Aabb, ray: Ray, start: real, j: nat, k: nat)
    requires j <= k <= 3 && NonZeroDirection(ray)
    ensures Entry(b, ray, start, j) <= Entry(b, ray, start, k)
    decreases k
  {
    if j < k {
      EntryMonotone(b, ray, start, j, k - 1);
    }
  }

  lemma {:induction false} ExitMonotone(b: Aabb, ray: Ray, end: real, j: nat, k: nat)
    requires j <= k <= 3 && NonZeroDirection(ray)
    ensures Exit(b, ray, end, k) <= Exit(b, ray, end, j)
    decreases k
  {
    if j < k {
      ExitMonotone(b, ray, end, j, k - 1);
    }
  }

  /** A parameter is at or above the entry exactly when it is at or above `start` and every entry so far. */
  lemma {:induction false} EntryBound(b: Aabb, ray: Ray, start: real, k: nat, t: real)
    requires k <= 3 && NonZeroDirection(ray)
    ensures Entry(b, ray, start, k) <= t <==> start <= t && forall a :: 0 <= a < k ==> Slab(b, ray, a).0 <= t
  {
    if k > 0 {
      EntryBound(b, ray, start, k - 1, t);
    }
  }

  /** A parameter is at or below the exit exactly when it is at or below `end` and every exit so far. */
  lemma {:induction false} ExitBound(b: Aabb, ray: Ray, end: real, k: nat, t: real)
    requires k <= 3 && NonZeroDirection(ray)
    ensures t <= Exit(b, ray, end, k) <==> t <= end && forall a :: 0 <= a < k ==> t <= Slab(b, ray, a).1
  {
    if k > 0 {
      ExitBound(b, ray, end, k - 1, t);
    }
  }

  /** Multiplying by a positive real keeps the order. */
  lemma MulPositive(p: real, q: real, s: real)
    requires s > 0.0
    ensures p <= q <==> p * s <= q * s
  {
    if p <= q { assert (q - p) * s >= 0.0; } else { assert (p - q) * s > 0.0; }
  }

  /** Multiplying by a negative real reverses the order. */
  lemma MulNegative(p: real, q: real, s: real)
    requires s < 0.0
    ensures p <= q <==> q * s <= p * s
  {
    if p <= q { assert (q - p) * s <= 0.0; } else { assert (p - q) * s < 0.0; }
  }

  /**
   * Scaling the offset of a plane by the inverse direction gives the parameter
   * `tw` at which the ray meets it; which side of the plane a parameter lies on
   * depends on the sign of the inverse direction.
   */
  lemma PlaneParameter(w: real, o: real, d: real, invD: real, tw: real, t: real)
    requires d != 0.0 && invD == 1.0 / d && tw == (w - o) * invD
    ensures invD > 0.0 ==> (w <= o + t * d <==> tw <= t) && (o + t * d <= w <==> t <= tw)
    ensures invD < 0.0 ==> (w <= o + t * d <==> t <= tw) && (o + t * d <= w <==> tw <= t)
  {
    assert invD * d == 1.0;
    assert tw * d == w - o by {
      calc {
        tw * d;
        (w - o) * (invD * d);
        w - o;
      }
    }
    assert invD > 0.0 <==> d > 0.0;
    if d > 0.0 {
      MulPositive(tw, t, d);
      MulPositive(t, tw, d);
    } else {
      MulNegative(tw, t, d);
      MulNegative(t, tw, d);
    }
  }

  /**
   * The point at parameter `t` lies between the two planes of axis `a`
   * exactly when `t` lies between that slab's entry and exit.
   */
  lemma SlabInside(b: Aabb, ray: Ray, a: nat, t: real)
    requires a < 3 && NonZeroDirection(ray)
    ensures Coord(b.min, a) <= Coord(At(ray, t), a) <= Coord(b.max, a)
        <==> Slab(b, ray, a).0 <= t <= Slab(b, ray, a).1
  {
    var d, o := Coord(ray.direction, a), Coord(ray.origin, a);
    var invD := 1.0 / d;
    var t0 := (Coord(b.min, a) - o) * invD;
    var t1 := (Coord(b.max, a) - o) * invD;
    SlabUnfold(b, ray, a, invD, t0, t1);
    assert Coord(At(ray, t), a) == o + t * d;
    PlaneParameter(Coord(b.min, a), o, d, invD, t0, t);
    PlaneParameter(Coord(b.max, a), o, d, invD, t1, t);
    assert invD != 0.0;
  }

  /** The point at parameter `t` is in the box exactly when `t` is within every slab. */
  lemma InsideSlabs(b: Aabb, ray: Ray, t: real)
    requires NonZeroDirection(ray)
    ensures Inside(b, At(ray, t)) <==> forall a :: 0 <= a < 3 ==> Slab(b, ray, a).0 <= t <= Slab(b, ray, a).1
  {
    SlabInside(b, ray, 0, t);
    SlabInside(b, ray, 1, t);
    SlabInside(b, ray, 2, t);
  }

  /** Every parameter of the running interval left by the three axes reaches a point in the box. */
  lemma InsideBetween(b: Aabb, ray: Ray, start: real, end: real, t: real)
    requires NonZeroDirection(ray)
    requires Entry(b, ray, start, 3) <= t <= Exit(b, ray, end, 3)
    ensures start <= t <= end && Inside(b, At(ray, t))
  {
    EntryBound(b, ray, start, 3, t);
    ExitBound(b, ray, end, 3, t);
    InsideSlabs(b, ray, t);
  }

  /** Two parameters of the segment whose points are in the box lie within the running interval. */
  lemma BetweenFromInside(b: Aabb, ray: Ray, start: real, end: real, t1: real, t2: real)
    requires NonZeroDirection(ray)
    requires start <= t1 && t2 <= end && Inside(b, At(ray, t1)) && Inside(b, At(ray, t2))
    ensures Entry(b, ray, start, 3) <= t1 && t2 <= Exit(b, ray, end, 3)
  {
    InsideSlabs(b, ray, t1);
    InsideSlabs(b, ray, t2);
    EntryBound(b, ray, start, 3, t1);
    ExitBound(b, ray, end, 3, t2);
  }

  /**
   * The running interval left by the three axes is nonempty exactly when the
   * segment passes through the box.
   */
  lemma SlabTestMeansPassesThrough(b: Aabb, ray: Ray, start: real, end: real)
    requires NonZeroDirection(ray)
    ensures Entry(b, ray, start, 3) < Exit(b, ray, end, 3) <==> PassesThrough(b, ray, start, end)
  {
    var lo, hi := Entry(b, ray, start, 3), Exit(b, ray, end, 3);
    if lo < hi {
      var t1, t2 := lo, (lo + hi) / 2.0;
      InsideBetween(b, ray, start, end, t1);
      InsideBetween(b, ray, start, end, t2);
      ExitBound(b, ray, end, 3, hi);
      assert start <= t1 < t2 < end;
      assert Inside(b, At(ray, t1)) && Inside(b, At(ray, t2));
    }
    if PassesThrough(b, ray, start, end) {
      var t1, t2 :| start <= t1 < t2 < end && Inside(b, At(ray, t1)) && Inside(b, At(ray, t2));
      BetweenFromInside(b, ray, start, end, t1, t2);
    }
  }

  /** For a well-formed box the swap leaves the entry no later than the exit on every axis. */
  lemma WellFormedSlabOrdered(b: Aabb, ray: Ray, a: nat)
    requires a < 3 && NonZeroDirection(ray) && WellFormed(b)
    ensures Slab(b, ray, a).0 <= Slab(b, ray, a).1
  {
    var invD := 1.0 / Coord(ray.direction, a);
    var p, q := Coord(b.min, a) - Coord(ray.origin, a), Coord(b.max, a) - Coord(ray.origin, a);
    if invD > 0.0 {
      MulPositive(p, q, invD);
    } else {
      MulNegative(p, q, invD);
    }
  }

  /**
   * A box of zero thickness along some axis is never passed through: every
   * point of the ray on its plane has one parameter only, so the slab test
   * reports a miss for it whatever the segment.
   */
  lemma FlatBoxMissed(b: Aabb, ray: Ray, start: real, end: real, a: nat)
    requires a < 3 && NonZeroDirection(ray) && Coord(b.min, a) == Coord(b.max, a)
    ensures !PassesThrough(b, ray, start, end)
    ensures Exit(b, ray, end, 3) <= Entry(b, ray, start, 3)
  {
    forall t1, t2 | start <= t1 < t2 < end && Inside(b, At(ray, t1))
      ensures !Inside(b, At(ray, t2))
    {
      FlatPlaneOnce(b, ray, a, t1, t2);
    }
    SlabTestMeansPassesThrough(b, ray, start, end);
  }

  /** Along an axis with a nonzero direction, two distinct parameters reach distinct coordinates. */
  lemma DistinctParameters(o: real, d: real, t1: real, t2: real)
    requires d != 0.0 && t1 < t2
    ensures o + t1 * d != o + t2 * d
  {
    if d > 0.0 {
      MulPositive(t2, t1, d);
    } else {
      MulNegative(t1, t2, d);
    }
  }

  /** A ray meets the plane of a zero-thickness axis at one parameter only. */
  lemma FlatPlaneOnce(b: Aabb, ray: Ray, a: nat, t1: real, t2: real)
    requires a < 3 && NonZeroDirection(ray) && Coord(b.min, a) == Coord(b.max, a)
    requires t1 < t2 && Coord(At(ray, t1), a) == Coord(b.min, a)
    ensures Coord(At(ray, t2), a) != Coord(b.min, a)
  {
    DistinctParameters(Coord(ray.origin, a), Coord(ray.direction, a), t1, t2);
  }

  /**
   * The slab test (AABB::hit). The running interval starts as [start, end)
   * and each axis raises its lower end to the slab's entry and lowers its
   * upper end to the slab's exit; the test fails as soon as the interval is
   * empty. The early exit does not change the verdict, which is the
   * nonemptiness of the interval left by all three axes, which in turn means
   * that the segment passes through the box.
   */
  method Hit(b: Aabb, ray: Ray, start: real, end: real) returns (hit: bool)
    requires NonZeroDirection(ray)
    ensures hit <==> Entry(b, ray, start, 3) < Exit(b, ray, end, 3)
    ensures hit <==> PassesThrough(b, ray, start, end)
    ensures end <= start ==> !hit
  {
    var tMin, tMax := start, end;
    for a := 0 to 3
      invariant tMin == Entry(b, ray, start, a) && tMax == Exit(b, ray, end, a)
      invariant start <= tMin && tMax <= end
      invariant a > 0 ==> tMin < tMax
    {
      var invD := 1.0 / Coord(ray.direction, a);
      var t0 := (Coord(b.min, a) - Coord(ray.origin, a)) * invD;
      var t1 := (Coord(b.max, a) - Coord(ray.origin, a)) * invD;
      SlabUnfold(b, ray, a, invD, t0, t1);
      ghost var slab := Slab(b, ray, a);
      if invD < 0.0 {
        t0, t1 := t1, t0;
      }
      ghost var before := (tMin, tMax);
      tMin := Max(t0, tMin);
      tMax := Min(t1, tMax);
      assert tMin == Max(slab.0, before.0) && tMax == Min(slab.1, before.1);
      // the running interval only narrows
      assert before.0 <= tMin && tMax <= before.1;
      if tMax <= tMin {
        EntryMonotone(b, ray, start, a + 1, 3);
        ExitMonotone(b, ray, end, a + 1, 3);
        SlabTestMeansPassesThrough(b, ray, start, end);
        return false;
      }
    }
    SlabTestMeansPassesThrough(b, ray, start, end);
    return true;
  }
}
