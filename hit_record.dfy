/**
 * The record of one intersection, and the routine that orients its normal
 * against the incoming ray.
 */
module Records {
  import opened Geometry

  /** Materials are shared by reference and never inspected here: an opaque identifier. */
  type MaterialId = nat

  /** The absolute value of a real. */
  function Abs(p: real): (r: real)
    ensures r >= 0.0 && (r == p || r == -p)
  {
    if p < 0.0 then -p else p
  }

  /**
   * Which side of the surface the ray arrives on, and the normal turned to
   * face the ray: a front-face hit keeps the outward normal, a back-face hit
   * flips it. Whatever the side, the oriented normal never points along the ray.
   */
  function FaceNormal(direction: Vec3, outward: Vec3): (r: (bool, Vec3))
    ensures r.0 <==> Dot(direction, outward) < 0.0
    ensures r.0 ==> r.1 == outward
    ensures !r.0 ==> r.1 == Neg(outward)
    ensures Dot(direction, r.1) == -Abs(Dot(direction, outward))
    ensures Dot(direction, r.1) <= 0.0
  {
    var frontFace := Dot(direction, outward) < 0.0;
    (frontFace, if frontFace then outward else Neg(outward))
  }

  /**
   * Orienting twice is orienting once, except for a ray that grazes the
   * surface (its direction orthogonal to the normal), where the second call
   * flips the already flipped normal back.
   */
  lemma FaceNormalReorients(direction: Vec3, outward: Vec3)
    ensures var n := FaceNormal(direction, outward).1;
      Dot(direction, outward) != 0.0 ==> FaceNormal(direction, n).1 == n
    ensures var n := FaceNormal(direction, outward).1;
      Dot(direction, outward) == 0.0 ==> FaceNormal(direction, n).1 == Neg(n)
  {
    NegInvolutive(outward);
  }

  /** One intersection of a ray with a surface (the renderer's HitRecord). */
  class HitRecord {
    var point: Vec3
    var normal: Vec3
    var material: MaterialId
    var t: real
    var u: real
    var v: real
    var frontFace: bool

    constructor (point: Vec3, normal: Vec3, material: MaterialId, t: real, u: real, v: real, frontFace: bool)
      ensures this.point == point && this.normal == normal && this.material == material
      ensures this.t == t && this.u == u && this.v == v && this.frontFace == frontFace
    {
      this.point := point;
      this.normal := normal;
      this.material := material;
      this.t := t;
      this.u := u;
      this.v := v;
      this.frontFace := frontFace;
    }

    /**
     * Records whether the ray meets the outward side of the surface and turns
     * the normal to oppose the ray (HitRecord::set_face_normal). Only those
     * two fields change.
     */
    method SetFaceNormal(ray: Ray, outwardNormal: Vec3)
      modifies this
      ensures frontFace <==> Dot(ray.direction, outwardNormal) < 0.0
      ensures normal == if frontFace then outwardNormal else Neg(outwardNormal)
      ensures (frontFace, normal) == FaceNormal(ray.direction, outwardNormal)
      ensures Dot(ray.direction, normal) <= 0.0
      ensures point == old(point) && material == old(material)
      ensures t == old(t) && u == old(u) && v == old(v)
    {
      frontFace := Dot(ray.direction, outwardNormal) < 0.0;
      normal := if frontFace then outwardNormal else Neg(outwardNormal);
    }
  }
}
