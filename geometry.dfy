/**
 * Three-component vectors and rays. Double-precision coordinates are modelled
 * as mathematical reals, so no rounding, infinity or NaN takes part.
 */
module Geometry {

  /** A point or direction in space (the renderer's DVec3). */
  datatype Vec3 = Vec3(x: real, y: real, z: real)

  /** A half-line: origin plus a direction that need not be normalised. */
  datatype Ray = Ray(origin: Vec3, direction: Vec3)

  /** Component `a` of `v`, for the axes 0, 1, 2 (the renderer's `v[a]`). */
  function Coord(v: Vec3, a: nat): real
    requires a < 3
  {
    if a == 0 then v.x else if a == 1 then v.y else v.z
  }

  function Dot(v: Vec3, w: Vec3): real {
    v.x * w.x + v.y * w.y + v.z * w.z
  }

  /** The opposite vector: its dot product with any vector is the negated one. */
  function Neg(v: Vec3): (r: Vec3)
    ensures forall w :: Dot(w, r) == -Dot(w, v)
  {
    Vec3(-v.x, -v.y, -v.z)
  }

  /** Negating twice gives the vector back. */
  lemma NegInvolutive(v: Vec3)
    ensures Neg(Neg(v)) == v
  {
  }

  /** The larger of two reals (f64::max without NaN). */
  function Max(p: real, q: real): (r: real)
    ensures r >= p && r >= q && (r == p || r == q)
  {
    if p >= q then p else q
  }

  /** The smaller of two reals (f64::min without NaN). */
  function Min(p: real, q: real): (r: real)
    ensures r <= p && r <= q && (r == p || r == q)
  {
    if p <= q then p else q
  }

  /** Component-wise minimum of two vectors (DVec3::min). */
  function MinVec(v: Vec3, w: Vec3): (r: Vec3)
    ensures forall a :: 0 <= a < 3 ==>
      Coord(r, a) <= Coord(v, a) && Coord(r, a) <= Coord(w, a) &&
      (Coord(r, a) == Coord(v, a) || Coord(r, a) == Coord(w, a))
  {
    Vec3(Min(v.x, w.x), Min(v.y, w.y), Min(v.z, w.z))
  }

  /** Component-wise maximum of two vectors (DVec3::max). */
  function MaxVec(v: Vec3, w: Vec3): (r: Vec3)
    ensures forall a :: 0 <= a < 3 ==>
      Coord(r, a) >= Coord(v, a) && Coord(r, a) >= Coord(w, a) &&
      (Coord(r, a) == Coord(v, a) || Coord(r, a) == Coord(w, a))
  {
    Vec3(Max(v.x, w.x), Max(v.y, w.y), Max(v.z, w.z))
  }

  /** The point reached after travelling parameter `t` along the ray. */
  function At(ray: Ray, t: real): (p: Vec3)
    ensures forall a :: 0 <= a < 3 ==>
      Coord(p, a) == Coord(ray.origin, a) + t * Coord(ray.direction, a)
  {
    Vec3(ray.origin.x + t * ray.direction.x,
         ray.origin.y + t * ray.direction.y,
         ray.origin.z + t * ray.direction.z)
  }

  /** Every component of the direction is nonzero, so `1 / direction[a]` is finite. */
  predicate NonZeroDirection(ray: Ray) {
    ray.direction.x != 0.0 && ray.direction.y != 0.0 && ray.direction.z != 0.0
  }
}
