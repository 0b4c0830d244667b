/**
 * The flat list of hittable surfaces: the brute-force nearest-hit scan and
 * the aggregation of the members' bounding boxes.
 *
 * A member is any hittable surface (sphere, mesh, list or tree). Its geometry
 * is abstracted as the finite sequence of places where a given ray crosses
 * it, each with its parameter, outward normal and surface coordinates,
 * together with the bounding box it reports and its material.
 */
module Hittables {
  import opened Options
  import opened Geometry
  import opened Bounds
  import opened Records
  import opened Nearest

  /** One place where a ray crosses a surface. */
  datatype Intersection = Intersection(t: real, outward: Vec3, u: real, v: real)

  /**
   * A member of the list, seen through what its hit and bounding-box queries
   * report: for each ray, the places where that ray crosses it.
   */
  datatype Hittable = Hittable(crossings: Ray -> seq<Intersection>, box: Option<Aabb>, material: MaterialId)

  // ---------------------------------------------------------------- one member

  /** The parameters of the crossings, kept only where they lie in [start, end). */
  function Candidates(cs: seq<Intersection>, start: real, end: real): (ts: seq<Option<real>>)
    ensures |ts| == |cs|
    ensures forall i :: 0 <= i < |cs| ==>
      ts[i] == if start <= cs[i].t < end then Some(cs[i].t) else None
  {
    seq(|cs|, i requires 0 <= i < |cs| => if start <= cs[i].t < end then Some(cs[i].t) else None)
  }

  /** The crossing a member reports for `ray` and [start, end): the first one with the least parameter there. */
  function NearestCrossing(h: Hittable, ray: Ray, start: real, end: real): (r: Option<nat>)
    ensures r.Some? ==> r.value < |h.crossings(ray)| && start <= h.crossings(ray)[r.value].t < end
  {
    FirstLeast(Candidates(h.crossings(ray), start, end))
  }

  /**
   * A member reports no crossing exactly when none lies in [start, end), and
   * otherwise one there whose parameter is no larger than any other crossing
   * there and strictly smaller than every earlier one's.
   */
  lemma NearestCrossingMeans(h: Hittable, ray: Ray, start: real, end: real)
    ensures NearestCrossing(h, ray, start, end).None? <==>
      forall i :: 0 <= i < |h.crossings(ray)| ==> !(start <= h.crossings(ray)[i].t < end)
    ensures NearestCrossing(h, ray, start, end).Some? ==>
      var k := NearestCrossing(h, ray, start, end).value;
      && (forall i :: 0 <= i < |h.crossings(ray)| && start <= h.crossings(ray)[i].t < end ==>
            h.crossings(ray)[k].t <= h.crossings(ray)[i].t)
      && (forall i :: 0 <= i < k && start <= h.crossings(ray)[i].t < end ==>
            h.crossings(ray)[k].t < h.crossings(ray)[i].t)
  {
    var ts := Candidates(h.crossings(ray), start, end);
    if NearestCrossing(h, ray, start, end).None? {
      forall i | 0 <= i < |h.crossings(ray)| ensures !(start <= h.crossings(ray)[i].t < end) {
        assert ts[i].None?;
      }
    }
  }

  /** The parameter of the hit a member reports for [start, end), if any. */
  function HitParameter(h: Hittable, ray: Ray, start: real, end: real): (r: Option<real>)
    ensures r.Some? ==> start <= r.value < end
  {
    var n := NearestCrossing(h, ray, start, end);
    if n.None? then None else Some(h.crossings(ray)[n.value].t)
  }

  /** The record describes crossing `c` of member `h` as met by `ray`. */
  ghost predicate Describes(rec: HitRecord, h: Hittable, ray: Ray, c: Intersection)
    reads rec
  {
    && rec.t == c.t && rec.point == At(ray, c.t) && rec.u == c.u && rec.v == c.v
    && rec.material == h.material
    && rec.frontFace == FaceNormal(ray.direction, c.outward).0
    && rec.normal == FaceNormal(ray.direction, c.outward).1
  }

  /** The record describes the hit member `h` reports for [start, end). */
  ghost predicate DescribesNearest(rec: HitRecord, h: Hittable, ray: Ray, start: real, end: real)
    reads rec
  {
    NearestCrossing(h, ray, start, end).Some? &&
    Describes(rec, h, ray, h.crossings(ray)[NearestCrossing(h, ray, start, end).value])
  }

  /**
   * What a member's hit query returns: nothing when no crossing lies in
   * [start, end), otherwise a record of its nearest crossing there, with the
   * normal oriented against the ray.
   */
  method MemberHit(h: Hittable, ray: Ray, start: real, end: real) returns (rec: Option<HitRecord>)
    ensures rec.None? <==> HitParameter(h, ray, start, end).None?
    ensures rec.Some? ==> rec.value.t == HitParameter(h, ray, start, end).value
    ensures rec.Some? ==> DescribesNearest(rec.value, h, ray, start, end)
  {
    var n := NearestCrossing(h, ray, start, end);
    if n.None? {
      return None;
    }
    var c := h.crossings(ray)[n.value];
    var r := new HitRecord(At(ray, c.t), c.outward, h.material, c.t, c.u, c.v, false);
    r.SetFaceNormal(ray, c.outward);
    return Some(r);
  }

  /**
   * Lowering the end of the interval to `bound` keeps the member's nearest
   * crossing when it lies below `bound`, and leaves no hit otherwise.
   */
  lemma NarrowedCrossing(h: Hittable, ray: Ray, start: real, end: real, bound: real)
    requires bound <= end
    ensures var n := NearestCrossing(h, ray, start, end);
      NearestCrossing(h, ray, start, bound) ==
        if n.Some? && h.crossings(ray)[n.value].t < bound then n else None
  {
    var full := Candidates(h.crossings(ray), start, end);
    assert Candidates(h.crossings(ray), start, bound) == Below(full, bound);
    FirstLeastBelow(full, bound);
  }

  // ---------------------------------------------------------------- the list

  /** The parameter each member reports for the whole interval [start, end). */
  function Hits(objects: seq<Hittable>, ray: Ray, start: real, end: real): (ts: seq<Option<real>>)
    ensures |ts| == |objects|
  {
    if |objects| == 0 then [] else [HitParameter(objects[0], ray, start, end)] + Hits(objects[1..], ray, start, end)
  }

  lemma {:induction false} HitsAt(objects: seq<Hittable>, ray: Ray, start: real, end: real, j: nat)
    requires j < |objects|
    ensures Hits(objects, ray, start, end)[j] == HitParameter(objects[j], ray, start, end)
  {
    if j > 0 {
      HitsAt(objects[1..], ray, start, end, j - 1);
    }
  }

  /** Before any member is asked, nothing is found and the search interval is the whole of [start, end). */
  lemma ScanStart(objects: seq<Hittable>, ray: Ray, start: real, end: real)
    ensures ScanState(Hits(objects, ray, start, end), end, 0, false, 0, end)
  {
    var hits := Hits(objects, ray, start, end);
    forall j | 0 <= j < |hits| && hits[j].Some? ensures hits[j].value < end {
      HitsAt(objects, ray, start, end, j);
    }
  }

  /**
   * One step of the nearest-hit scan: asking member `i` for a hit below the
   * current end `closest` either accepts its nearest crossing, which then lies
   * strictly below `closest` and is the member's nearest for the whole
   * interval, or leaves the scan state as it was.
   */
  lemma ScanMember(objects: seq<Hittable>, ray: Ray, start: real, end: real, i: nat, found: bool, winner: nat, closest: real)
    requires ScanState(Hits(objects, ray, start, end), end, i, found, winner, closest) && i < |objects|
    ensures var h := HitParameter(objects[i], ray, start, closest);
      h.Some? ==>
        && NearestCrossing(objects[i], ray, start, closest) == NearestCrossing(objects[i], ray, start, end)
        && h.value < closest
        && ScanState(Hits(objects, ray, start, end), end, i + 1, true, i, h.value)
    ensures HitParameter(objects[i], ray, start, closest).None? ==>
      ScanState(Hits(objects, ray, start, end), end, i + 1, found, winner, closest)
  {
    var hits := Hits(objects, ray, start, end);
    HitsAt(objects, ray, start, end, i);
    NarrowedCrossing(objects[i], ray, start, end, closest);
    assert hits[i] == HitParameter(objects[i], ray, start, end);
    if NearestCrossing(objects[i], ray, start, closest).Some? {
      ScanAccept(hits, end, i, found, winner, closest);
    } else {
      ScanSkip(hits, end, i, found, winner, closest);
    }
  }

  /** The member whose hit the list reports for [start, end): the first one with the least parameter. */
  function NearestHit(objects: seq<Hittable>, ray: Ray, start: real, end: real): (r: Option<nat>)
    ensures r.Some? ==> r.value < |objects| && HitParameter(objects[r.value], ray, start, end).Some?
  {
    var r := FirstLeast(Hits(objects, ray, start, end));
    if r.Some? then HitsAt(objects, ray, start, end, r.value); r else r
  }

  /**
   * The list reports no hit exactly when no member hits [start, end), and
   * otherwise the hit of a member that is no farther than any member's hit
   * and strictly nearer than every earlier member's.
   */
  lemma NearestHitMeans(objects: seq<Hittable>, ray: Ray, start: real, end: real)
    ensures NearestHit(objects, ray, start, end).None? <==>
      forall j :: 0 <= j < |objects| ==> HitParameter(objects[j], ray, start, end).None?
    ensures NearestHit(objects, ray, start, end).Some? ==>
      var w := NearestHit(objects, ray, start, end).value;
      var t := HitParameter(objects[w], ray, start, end).value;
      && start <= t < end
      && (forall j :: 0 <= j < |objects| && HitParameter(objects[j], ray, start, end).Some? ==>
            t <= HitParameter(objects[j], ray, start, end).value)
      && (forall j :: 0 <= j < w && HitParameter(objects[j], ray, start, end).Some? ==>
            t < HitParameter(objects[j], ray, start, end).value)
  {
    var hits := Hits(objects, ray, start, end);
    forall j | 0 <= j < |objects| ensures hits[j] == HitParameter(objects[j], ray, start, end) {
      HitsAt(objects, ray, start, end, j);
    }
  }

  /**
   * The nearest-hit scan (the list's hit). Each member is asked for a hit in
   * [start, closestSoFar), and an accepted hit lowers `closestSoFar` to its
   * parameter. The result is the hit of `NearestHit`: absent exactly when no
   * member hits [start, end), otherwise the record of that member's own
   * nearest crossing, inside [start, end) and no farther than any member's hit.
   */
  method ListHit(objects: seq<Hittable>, ray: Ray, start: real, end: real) returns (rec: Option<HitRecord>)
    ensures rec.None? <==> NearestHit(objects, ray, start, end).None?
    ensures rec.Some? ==> DescribesNearest(rec.value, objects[NearestHit(objects, ray, start, end).value], ray, start, end)
    ensures rec.None? <==> forall j :: 0 <= j < |objects| ==> HitParameter(objects[j], ray, start, end).None?
    ensures rec.Some? ==> start <= rec.value.t < end
    ensures rec.Some? ==> forall j :: 0 <= j < |objects| && HitParameter(objects[j], ray, start, end).Some? ==>
      rec.value.t <= HitParameter(objects[j], ray, start, end).value
  {
    ghost var hits := Hits(objects, ray, start, end);
    var closestSoFar := end;
    var hitRecord: Option<HitRecord> := None;
    ghost var winner: nat := 0;
    ScanStart(objects, ray, start, end);
    for i := 0 to |objects|
      invariant ScanState(hits, end, i, hitRecord.Some?, winner, closestSoFar)
      invariant hitRecord.Some? ==>
        && closestSoFar == hitRecord.value.t
        && DescribesNearest(hitRecord.value, objects[winner], ray, start, end)
    {
      ScanMember(objects, ray, start, end, i, hitRecord.Some?, winner, closestSoFar);
      var tempRec := MemberHit(objects[i], ray, start, closestSoFar);
      ghost var previous := closestSoFar;
      if tempRec.Some? {
        closestSoFar := tempRec.value.t;
        hitRecord := tempRec;
        winner := i;
      }
      // the search interval never grows
      assert closestSoFar <= previous;
    }
    ScanDone(hits, end, hitRecord.Some?, winner, closestSoFar);
    NearestHitMeans(objects, ray, start, end);
    return hitRecord;
  }

  // ---------------------------------------------------------------- bounding box

  /** The boxes of members that all report one. */
  function BoxesOf(objects: seq<Hittable>): (bs: seq<Aabb>)
    requires forall j :: 0 <= j < |objects| ==> objects[j].box.Some?
    ensures |bs| == |objects|
    ensures forall j :: 0 <= j < |objects| ==> bs[j] == objects[j].box.value
  {
    seq(|objects|, j requires 0 <= j < |objects| && objects[j].box.Some? => objects[j].box.value)
  }

  /** The surrounding box of a nonempty sequence of boxes, folded from the left. */
  function FoldBoxes(bs: seq<Aabb>): Aabb
    requires |bs| > 0
  {
    if |bs| == 1 then bs[0] else SurroundingBox(FoldBoxes(bs[..|bs| - 1]), bs[|bs| - 1])
  }

  /** The fold contains every box it combines. */
  lemma {:induction false} FoldBoxesEncloses(bs: seq<Aabb>, j: nat)
    requires j < |bs|
    ensures Encloses(FoldBoxes(bs), bs[j])
  {
    if |bs| > 1 && j < |bs| - 1 {
      FoldBoxesEncloses(bs[..|bs| - 1], j);
      EnclosesTransitive(FoldBoxes(bs), FoldBoxes(bs[..|bs| - 1]), bs[j]);
    }
  }

  /** Every box that contains all the boxes contains their fold: it is the least such box. */
  lemma {:induction false} FoldBoxesLeast(bs: seq<Aabb>, c: Aabb)
    requires |bs| > 0
    requires forall j :: 0 <= j < |bs| ==> Encloses(c, bs[j])
    ensures Encloses(c, FoldBoxes(bs))
  {
    if |bs| > 1 {
      FoldBoxesLeast(bs[..|bs| - 1], c);
      SurroundingBoxLeast(FoldBoxes(bs[..|bs| - 1]), bs[|bs| - 1], c);
    }
  }

  /** Folding well-formed boxes gives a well-formed box. */
  lemma {:induction false} FoldBoxesWellFormed(bs: seq<Aabb>)
    requires |bs| > 0
    requires forall j :: 0 <= j < |bs| ==> WellFormed(bs[j])
    ensures WellFormed(FoldBoxes(bs))
  {
    if |bs| > 1 {
      FoldBoxesWellFormed(bs[..|bs| - 1]);
    }
  }

  /**
   * The fold depends only on which boxes are combined, not on their order or
   * repetition, because it is their least enclosing box.
   */
  lemma FoldBoxesOrderFree(bs: seq<Aabb>, cs: seq<Aabb>)
    requires |bs| > 0 && |cs| > 0
    requires forall b :: b in bs <==> b in cs
    ensures FoldBoxes(bs) == FoldBoxes(cs)
  {
    forall j | 0 <= j < |cs| ensures Encloses(FoldBoxes(bs), cs[j]) {
      assert cs[j] in bs;
      var k :| 0 <= k < |bs| && bs[k] == cs[j];
      FoldBoxesEncloses(bs, k);
    }
    forall j | 0 <= j < |bs| ensures Encloses(FoldBoxes(cs), bs[j]) {
      assert bs[j] in cs;
      var k :| 0 <= k < |cs| && cs[k] == bs[j];
      FoldBoxesEncloses(cs, k);
    }
    FoldBoxesLeast(cs, FoldBoxes(bs));
    FoldBoxesLeast(bs, FoldBoxes(cs));
    EnclosesAntisymmetric(FoldBoxes(bs), FoldBoxes(cs));
  }

  /**
   * The fold of the members' boxes contains each of them, is contained in
   * every box that contains them all, and is well formed when they are.
   */
  lemma FoldMemberBoxes(objects: seq<Hittable>)
    requires |objects| > 0 && forall j :: 0 <= j < |objects| ==> objects[j].box.Some?
    ensures forall j :: 0 <= j < |objects| ==> Encloses(FoldBoxes(BoxesOf(objects)), objects[j].box.value)
    ensures forall c :: (forall j :: 0 <= j < |objects| ==> Encloses(c, objects[j].box.value)) ==>
      Encloses(c, FoldBoxes(BoxesOf(objects)))
    ensures (forall j :: 0 <= j < |objects| ==> WellFormed(objects[j].box.value)) ==>
      WellFormed(FoldBoxes(BoxesOf(objects)))
  {
    var bs := BoxesOf(objects);
    forall j | 0 <= j < |objects| ensures Encloses(FoldBoxes(bs), objects[j].box.value) {
      FoldBoxesEncloses(bs, j);
    }
    forall c | forall j :: 0 <= j < |objects| ==> Encloses(c, objects[j].box.value)
      ensures Encloses(c, FoldBoxes(bs))
    {
      FoldBoxesLeast(bs, c);
    }
    if forall j :: 0 <= j < |objects| ==> WellFormed(objects[j].box.value) {
      FoldBoxesWellFormed(bs);
    }
  }

  /** Taking one more member into the fold combines its box with the fold of the earlier ones. */
  lemma FoldMemberStep(objects: seq<Hittable>, i: nat)
    requires i < |objects| && forall j :: 0 <= j <= i ==> objects[j].box.Some?
    ensures i == 0 ==> FoldBoxes(BoxesOf(objects[..i + 1])) == objects[i].box.value
    ensures i > 0 ==>
      FoldBoxes(BoxesOf(objects[..i + 1])) == SurroundingBox(FoldBoxes(BoxesOf(objects[..i])), objects[i].box.value)
  {
    assert BoxesOf(objects[..i + 1])[..i] == BoxesOf(objects[..i]);
  }

  /**
   * The list's bounding box: none for an empty list, none as soon as a member
   * reports none, and otherwise the surrounding box of all the members'
   * boxes, which contains each of them and is the least box that does.
   */
  method BoundingBox(objects: seq<Hittable>) returns (r: Option<Aabb>)
    ensures r.Some? <==> |objects| > 0 && forall j :: 0 <= j < |objects| ==> objects[j].box.Some?
    ensures r.Some? ==> r.value == FoldBoxes(BoxesOf(objects))
    ensures r.Some? ==> forall j :: 0 <= j < |objects| ==> Encloses(r.value, objects[j].box.value)
    ensures r.Some? ==> forall c :: (forall j :: 0 <= j < |objects| ==> Encloses(c, objects[j].box.value)) ==>
      Encloses(c, r.value)
    ensures r.Some? && (forall j :: 0 <= j < |objects| ==> WellFormed(objects[j].box.value)) ==>
      WellFormed(r.value)
  {
    if |objects| == 0 {
      return None;
    }
    var outputBox: Option<Aabb> := None;
    for i := 0 to |objects|
      invariant forall j :: 0 <= j < i ==> objects[j].box.Some?
      invariant outputBox.None? <==> i == 0
      invariant outputBox.Some? ==> outputBox.value == FoldBoxes(BoxesOf(objects[..i]))
    {
      var tempBox := objects[i].box;
      if tempBox.Some? {
        FoldMemberStep(objects, i);
        outputBox := Some(match outputBox
          case Some(b) => SurroundingBox(b, tempBox.value)
          case None => tempBox.value);
      } else {
        return None;
      }
    }
    assert objects[..|objects|] == objects;
    FoldMemberBoxes(objects);
    return outputBox;
  }
}
