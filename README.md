# Hittable core of a Rust ray tracer, modelled in Dafny

This project models the scene-intersection core of the ray tracer, from
`src/hittable.rs`:

- the axis-aligned bounding box (`AABB`), with its slab test `AABB::hit` and
  `AABB::surrounding_box`;
- the intersection record `HitRecord`, with `set_face_normal`, which points the
  normal against the incoming ray;
- the flat list of hittable objects (`HittableList`), with its nearest-hit scan
  `hit` and its `bounding_box` aggregation.

f64 values are modelled as `real` and a `DVec3` as the datatype `Vec3`. A ray is
an origin and a direction, and the point at parameter `t` is
`origin + t * direction`. An `interval: Range<f64>` is the half-open interval
`[start, end)`, given as two parameters.

Files:

- `options.dfy`: the `Option` datatype.
- `geometry.dfy`: vectors, rays and the component-wise `min` and `max`.
- `aabb.dfy` (module `Bounds`):
  - the box;
  - the geometric meaning of the slab test;
  - the imperative slab-test loop (`Bounds.Hit`);
  - the surrounding box and its algebra.
- `hit_record.dfy` (module `Records`): the `HitRecord` class. `SetFaceNormal`
  updates its fields in place, as `&mut self` does.
- `nearest.dfy` (module `Nearest`): `FirstLeast` and the invariant of the scan.
  - `FirstLeast` is the reference definition of "nearest": the first position
    that holds the least parameter.
  - The scan invariant is split into steps, one per list member.
- `hittable_list.dfy` (module `Hittables`):
  - the list's `hit` (`ListHit`) and `bounding_box` (`BoundingBox`), both as
    methods with the source's loops;
  - the specification functions those methods are proved against.

How members are modelled. A member of the list is an object that implements the
`Hittable` trait (sphere, list, tree…). It is described by what it reports:

- for each ray, the finite sequence of places where that ray crosses it, each
  with a parameter, an outward normal and surface coordinates;
- its optional bounding box;
- its material.

Its `hit(ray, start..end)` returns the first crossing that has the least
parameter in `[start, end)`. That crossing is recorded through
`HitRecord::set_face_normal`. This is the contract the list relies on from each
member.

What is proved, in summary:

- The slab test returns true exactly when two distinct parameters of the segment
  reach points of the closed box.
  - Its early exit does not change the verdict.
  - Its running interval only narrows.
  - An empty interval is never hit.
  - A box of zero thickness along an axis is never hit.
- `surrounding_box` gives the least box that contains both inputs. It is
  therefore commutative, associative and idempotent, and it keeps boxes
  well formed.
- `set_face_normal`:
  - sets `front_face` exactly when the direction and the outward normal have a
    negative dot product;
  - stores either the outward normal or its negation;
  - leaves a normal that never points along the ray.
- The list's `hit`:
  - returns nothing exactly when no member hits `[start, end)`;
  - otherwise returns the record of the nearest member hit, which lies inside
    `[start, end)` and is no farther than any member's hit;
  - resolves a tie in favour of the earliest member;
  - never lets its search interval grow.
- The list's `bounding_box`:
  - returns nothing for an empty list, and nothing when any member has no box;
  - otherwise returns the left fold of `surrounding_box`, which is the least box
    that contains every member's box.

## Model

| member | source | states |
|---|---|---|
| Geometry.Max | src/hittable.rs:31 | the larger of two parameters: no smaller than either, and equal to one of them |
| Geometry.Min | src/hittable.rs:32 | the smaller of two parameters: no larger than either, and equal to one of them |
| Geometry.MinVec | src/hittable.rs:42 | on every axis, the minimum of the two components |
| Geometry.MaxVec | src/hittable.rs:43 | on every axis, the maximum of the two components |
| Geometry.Neg | src/hittable.rs:64 | the flipped normal has, with every vector, the negated dot product, which is what makes a back-face normal oppose the ray |
| Geometry.NegInvolutive | src/hittable.rs:64 | negating twice gives the vector back |
| Bounds.SurroundingBox | src/hittable.rs:41-45 | the surrounding box contains both boxes, and is well formed when both are |
| Bounds.SurroundingBoxLeast | src/hittable.rs:41-45 | every box that contains both boxes contains their surrounding box, so it is the least such box |
| Bounds.SurroundingBoxCommutes | src/hittable.rs:41-45 | the order of the two boxes does not matter |
| Bounds.SurroundingBoxAssociates | src/hittable.rs:41-45 | grouping does not matter, so a list's boxes can be combined in any grouping |
| Bounds.SurroundingBoxIdempotent | src/hittable.rs:41-45 | surrounding a box with itself gives the box back |
| Bounds.EnclosesAntisymmetric | src/hittable.rs:41-45 | two boxes that contain each other are equal, which is the basis of the algebraic laws above |
| Bounds.SlabUnfold | src/hittable.rs:23-29 | after the optional swap, the values the loop computes are the slab's entry and exit |
| Bounds.EntryMonotone | src/hittable.rs:31 | the lower end of the running interval never decreases from one axis to the next |
| Bounds.ExitMonotone | src/hittable.rs:32 | the upper end of the running interval never increases from one axis to the next |
| Bounds.EntryBound | src/hittable.rs:19-31 | a parameter is at or above the running lower end exactly when it is at or above `start` and every slab entry so far |
| Bounds.ExitBound | src/hittable.rs:20-32 | a parameter is at or below the running upper end exactly when it is at or below `end` and every slab exit so far |
| Bounds.PlaneParameter | src/hittable.rs:23-25 | scaling a plane's offset by the inverse direction gives the parameter where the ray meets it, and which side of it a parameter lies on depends on the sign of the inverse |
| Bounds.SlabInside | src/hittable.rs:23-29 | the ray's point at `t` lies between an axis's two planes exactly when `t` lies between that slab's entry and exit |
| Bounds.InsideSlabs | src/hittable.rs:22-29 | the point at `t` is in the box exactly when `t` is within all three slabs |
| Bounds.InsideBetween | src/hittable.rs:22-37 | every parameter of the interval left by the three axes lies in `[start, end]` and reaches a point of the box |
| Bounds.BetweenFromInside | src/hittable.rs:22-37 | two parameters of the segment whose points are in the box lie within the interval left by the three axes |
| Bounds.SlabTestMeansPassesThrough | src/hittable.rs:18-38 | the interval left by the three axes is nonempty exactly when the segment passes through the box, that is, when two distinct parameters in `[start, end)` reach points of the box |
| Bounds.WellFormedSlabOrdered | src/hittable.rs:23-29 | for a well-formed box, the swap leaves each slab's entry no later than its exit |
| Bounds.FlatBoxMissed | src/hittable.rs:18-38 | a box of zero thickness along some axis is never passed through, and the slab test rejects it |
| Bounds.Hit | src/hittable.rs:18-39 | the slab test with early exit returns true exactly when the nonempty interval survives all three axes, which holds exactly when the segment passes through the box; it returns false for an empty interval |
| Records.FaceNormal | src/hittable.rs:59-66 | front face exactly when the dot product is negative; the normal is outward for a front face and negated otherwise; its dot product with the direction is minus the absolute value, so it is never positive |
| Records.FaceNormalReorients | src/hittable.rs:59-66 | orienting an oriented normal again changes nothing, except on a grazing ray (dot product zero), where it flips the normal back |
| Records.HitRecord.constructor | src/hittable.rs:48-56 | a record holds exactly the point, normal, material, parameter, surface coordinates and side it is given |
| Records.HitRecord.SetFaceNormal | src/hittable.rs:59-66 | sets `frontFace` exactly when the dot product is negative, stores the outward normal or its negation accordingly, leaves a normal not pointing along the ray, and changes no other field |
| Nearest.FirstLeast | src/hittable.rs:77-89 | absent exactly when every position is absent; otherwise a position whose parameter is no larger than any other and strictly smaller than every earlier one |
| Nearest.FirstLeastUnique | src/hittable.rs:77-89 | at most one position is the first least one |
| Nearest.FirstLeastBelow | src/hittable.rs:82 | lowering the bound keeps the first least position when its parameter is below the bound, and leaves none otherwise |
| Nearest.ExtendKeeps | src/hittable.rs:81-85 | a new last parameter no smaller than the current first least leaves it in place |
| Nearest.ExtendTakes | src/hittable.rs:81-85 | a new last parameter strictly below the current first least takes its place |
| Nearest.ExtendFirst | src/hittable.rs:81-85 | the first present parameter after a run of absent ones is the first least |
| Nearest.ScanAccept | src/hittable.rs:82-85 | accepting a hit strictly below the current end makes it the nearest so far, and makes its parameter the new end |
| Nearest.ScanSkip | src/hittable.rs:81-82 | passing over a member with no hit below the current end keeps the scan state |
| Nearest.ScanDone | src/hittable.rs:86-88 | after the last member, the scan has found a hit exactly when the nearest exists, and it found that one |
| Hittables.NearestCrossing | src/hittable.rs:70 | a member's reported crossing, when present, is one of its crossings and lies in `[start, end)` |
| Hittables.NearestCrossingMeans | src/hittable.rs:70 | a member reports no crossing exactly when none lies in `[start, end)`; otherwise one that is no farther than any crossing there, strictly nearer than every earlier one |
| Hittables.HitParameter | src/hittable.rs:70 | a member's hit parameter, when present, lies in `[start, end)` |
| Hittables.MemberHit | src/hittable.rs:70 | a member's hit returns no record exactly when it has no crossing in `[start, end)`; otherwise the record of its nearest crossing there, with the normal oriented by `set_face_normal` |
| Hittables.NarrowedCrossing | src/hittable.rs:82 | asking a member for `[start, bound)` with `bound <= end` gives its nearest hit for `[start, end)` when that lies below `bound`, and nothing otherwise |
| Hittables.HitsAt | src/hittable.rs:81-82 | position `j` holds the hit member `j` reports for the whole interval |
| Hittables.ScanStart | src/hittable.rs:78-79 | before the loop, nothing is found and the search interval is the whole of `[start, end)` |
| Hittables.ScanMember | src/hittable.rs:81-85 | asking the next member for `[start, closest)` either accepts its nearest hit for the whole interval, which lies strictly below `closest`, or leaves the scan state unchanged, so `closest` never increases |
| Hittables.NearestHit | src/hittable.rs:77-89 | the chosen member, when present, is a list member that reports a hit |
| Hittables.NearestHitMeans | src/hittable.rs:77-89 | no member is chosen exactly when no member hits `[start, end)`; otherwise the chosen hit lies in `[start, end)`, is no farther than any member's hit, and is strictly nearer than every earlier member's (ties go to the earliest) |
| Hittables.ListHit | src/hittable.rs:77-89 | the list returns no record exactly when no member hits; otherwise the record of the chosen member's own nearest crossing, inside `[start, end)` and no farther than any member's hit |
| Hittables.FoldBoxesEncloses | src/hittable.rs:98-103 | the fold of surrounding boxes contains every box it combines |
| Hittables.FoldBoxesLeast | src/hittable.rs:98-103 | every box that contains all the combined boxes contains their fold |
| Hittables.FoldBoxesWellFormed | src/hittable.rs:98-103 | folding well-formed boxes gives a well-formed box |
| Hittables.FoldBoxesOrderFree | src/hittable.rs:98-103 | the fold depends only on which boxes are combined, not on their order or repetition |
| Hittables.FoldMemberBoxes | src/hittable.rs:98-109 | the fold of the members' boxes contains each of them, is the least such box, and is well formed when they all are |
| Hittables.FoldMemberStep | src/hittable.rs:99-103 | one more member combines its box with the fold of the earlier ones, and the first member's box starts the fold |
| Hittables.BoundingBox | src/hittable.rs:91-110 | returns no box exactly when the list is empty or some member reports none; otherwise the left fold of the members' boxes, which contains every member's box, is the least box that does, and is well formed when they all are |

## Left out

- Floating point: f64 is modelled as exact reals. Rounding, infinities and NaN
  are not modelled.
- `AABB::hit` divides by each component of the direction. For a zero component,
  f64 gives an infinite slab, while the model requires every component to be
  nonzero (`NonZeroDirection`). Rays parallel to an axis plane are therefore
  not covered.
- `src/ray.rs` is not part of this model. `Ray` is an origin and a direction,
  and `At` is `origin + t * direction`.
- Concrete surfaces (spheres and other primitives) are not part of this model.
  A member is abstracted as the crossings it reports, and its `hit` as
  returning its nearest crossing in the interval. A list nested inside a list
  is a member like any other, and it is not modelled recursively.
- The bounding-volume hierarchy (`bvh.rs`) is not part of this model.
- Materials: `src/material.rs` (scattering and random sampling) is not
  modelled. `Arc<dyn Material>` is an opaque identifier (`MaterialId`).
- Scene loading and file I/O (`scene.rs`) and the crate root `src/lib.rs` are
  not modelled.
- `Send`, `Sync` and the sharing of members through `Arc` are not modelled.
- `AABB::new` is the datatype constructor `Aabb`.
