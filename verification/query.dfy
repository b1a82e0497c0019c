/**
 The scene and its query layer (`src/scene/mod.rs`). Geometry is abstract:
 each object answers a ray with an optional hit distance and gives the
 surface normal at a point; each light answers a shaded point and normal
 with a colour. The query layer itself is selection logic over those
 answers: a nearest-hit scan and two any-hit tests.
 */
module SceneQuery {
  import opened Ints
  import opened Options
  import opened Colors

  datatype Vec3 = Vec3(x: real, y: real, z: real)

  function Plus(a: Vec3, b: Vec3): Vec3
  {
    Vec3(a.x + b.x, a.y + b.y, a.z + b.z)
  }

  function Scale(v: Vec3, s: real): Vec3
  {
    Vec3(v.x * s, v.y * s, v.z * s)
  }

  function Dot(a: Vec3, b: Vec3): real
  {
    a.x * b.x + a.y * b.y + a.z * b.z
  }

  const UnitZ := Vec3(0.0, 0.0, 1.0)

  datatype Ray = Ray(origin: Vec3, direction: Vec3)

  /** The point `d` units along the ray. */
  function PointAt(ray: Ray, d: real): Vec3
  {
    Plus(ray.origin, Scale(ray.direction, d))
  }

  datatype Material = Material(color: Color)

  /** A hit: the point (nudged off the surface), the surface normal, and the object's material. */
  datatype Intersection = Intersection(point: Vec3, normal: Vec3, material: Material)

  /**
   A placed object. `distance` is its ray query (a sphere solves its
   quadratic) and `normalAt` its surface normal at a point.
   */
  datatype SceneObject = SceneObject(
    material: Material,
    distance: Ray -> Option<real>,
    normalAt: Vec3 -> Vec3)

  /** A light, as the colour it casts on a point with a given surface normal. */
  datatype SceneLight = SceneLight(illuminate: (Vec3, Vec3) -> Color)

  datatype Scene = Scene(
    objects: seq<SceneObject>,
    lights: seq<SceneLight>,
    numGiSamples: u32,
    numShadowSamples: u32,
    bounces: u32)

  /** The scene loader never builds a scene with more bounces than this. */
  const MAX_BOUNCES: u32 := 4

  predicate WellFormed(s: Scene)
  {
    s.bounces <= MAX_BOUNCES
  }

  /** Start value of the nearest-hit scan; distances at or beyond it never count as hits. */
  const FAR_AWAY: real := 99999999999.0

  /** How far a hit point is pushed out along the normal, so that rays leaving it do not hit the same surface. */
  const HIT_OFFSET: real := 0.000001

  /** What each object reports for `ray`, in scene order. */
  function Reports(objects: seq<SceneObject>, ray: Ray): (ds: seq<Option<real>>)
    ensures |ds| == |objects|
    ensures forall i :: 0 <= i < |objects| ==> ds[i] == objects[i].distance(ray)
  {
    seq(|objects|, i requires 0 <= i < |objects| => objects[i].distance(ray))
  }

  /**
   Object `k` is the one the scan settles on: it reports a distance below
   `FAR_AWAY`, no object reports a smaller one, and every object before it
   reports a strictly larger one (the first object wins ties).
   */
  predicate IsNearest(ds: seq<Option<real>>, k: int)
  {
    && 0 <= k < |ds| && ds[k].Some? && ds[k].value < FAR_AWAY
    && (forall j :: 0 <= j < |ds| && ds[j].Some? ==> ds[k].value <= ds[j].value)
    && (forall j :: 0 <= j < k && ds[j].Some? ==> ds[k].value < ds[j].value)
  }

  /** No object reports a distance below `FAR_AWAY`. */
  predicate NoneNear(ds: seq<Option<real>>)
  {
    forall j :: 0 <= j < |ds| && ds[j].Some? ==> ds[j].value >= FAR_AWAY
  }

  /**
   The loop of `find_intersection`: `(closest, closest_distance)` after
   visiting every report, starting from `(None, FAR_AWAY)` and taking a
   report only when it is strictly below the distance so far.
   */
  function Scan(ds: seq<Option<real>>): (res: (Option<nat>, real))
    ensures res.0.None? <==> NoneNear(ds)
    ensures res.0.None? ==> res.1 == FAR_AWAY
    ensures res.0.Some? ==> IsNearest(ds, res.0.value) && res.1 == ds[res.0.value].value
    decreases |ds|
  {
    if |ds| == 0 then (None, FAR_AWAY)
    else
      var prefix := ds[..|ds| - 1];
      assert forall j :: 0 <= j < |prefix| ==> prefix[j] == ds[j];
      var (closest, closestDistance) := Scan(prefix);
      match ds[|ds| - 1]
      case Some(d) =>
        if d < closestDistance then (Some(|ds| - 1), d) else (closest, closestDistance)
      case None => (closest, closestDistance)
  }

  /** At most one object satisfies `IsNearest`, so the scan's choice is the only correct one. */
  lemma NearestUnique(ds: seq<Option<real>>, k1: int, k2: int)
    requires IsNearest(ds, k1) && IsNearest(ds, k2)
    ensures k1 == k2
  {
  }

  /** The hit record an object builds for a point on its surface. */
  function HitInfo(o: SceneObject, p: Vec3): (hit: Intersection)
    ensures hit.material == o.material && hit.normal == o.normalAt(p)
  {
    var normal := o.normalAt(p);
    Intersection(Plus(p, Scale(normal, HIT_OFFSET)), normal, o.material)
  }

  /**
   `find_intersection`: `None` exactly when no object reports a distance
   below `FAR_AWAY`; otherwise the hit record of the nearest object (first
   on ties), at `origin + direction * distance`.
   */
  function FindIntersection(s: Scene, ray: Ray): (r: Option<Intersection>)
    ensures r.None? <==> NoneNear(Reports(s.objects, ray))
    ensures r.Some? ==>
      exists k :: IsNearest(Reports(s.objects, ray), k) &&
        r.value == HitInfo(s.objects[k], PointAt(ray, s.objects[k].distance(ray).value))
  {
    var ds := Reports(s.objects, ray);
    var (closest, closestDistance) := Scan(ds);
    match closest
    case Some(k) => Some(HitInfo(s.objects[k], PointAt(ray, closestDistance)))
    case None => None
  }

  /** The early-exit loop of `check_ray` from object `i` on. */
  function AnyReport(ds: seq<Option<real>>, i: nat): (b: bool)
    requires i <= |ds|
    ensures b <==> exists j :: i <= j < |ds| && ds[j].Some?
    decreases |ds| - i
  {
    if i == |ds| then false
    else if ds[i].Some? then true
    else AnyReport(ds, i + 1)
  }

  /** `check_ray`: some object reports a hit, at any distance. */
  function CheckRay(s: Scene, ray: Ray): (b: bool)
    ensures b <==> exists j :: 0 <= j < |s.objects| && s.objects[j].distance(ray).Some?
  {
    AnyReport(Reports(s.objects, ray), 0)
  }

  /** The early-exit loop of `check_ray_distance` from object `i` on. */
  function AnyReportWithin(ds: seq<Option<real>>, limit: real, i: nat): (b: bool)
    requires i <= |ds|
    ensures b <==> exists j :: i <= j < |ds| && ds[j].Some? && ds[j].value <= limit
    decreases |ds| - i
  {
    if i == |ds| then false
    else if ds[i].Some? && ds[i].value <= limit then true
    else AnyReportWithin(ds, limit, i + 1)
  }

  /** `check_ray_distance`: some object reports a hit no farther than `limit` (the comparison is `<=`). */
  function CheckRayDistance(s: Scene, ray: Ray, limit: real): (b: bool)
    ensures b <==>
      exists j :: 0 <= j < |s.objects| && s.objects[j].distance(ray).Some? &&
        s.objects[j].distance(ray).value <= limit
  {
    AnyReportWithin(Reports(s.objects, ray), limit, 0)
  }

  /** A bounded shadow test is monotone in its bound and never blocks more than the unbounded one. */
  lemma ShadowTestsConsistent(s: Scene, ray: Ray, d1: real, d2: real)
    requires d1 <= d2
    ensures CheckRayDistance(s, ray, d1) ==> CheckRayDistance(s, ray, d2)
    ensures CheckRayDistance(s, ray, d2) ==> CheckRay(s, ray)
  {
  }

  /**
   Below `FAR_AWAY`, the bounded shadow test agrees with the nearest hit:
   it blocks exactly when there is a nearest hit no farther than the bound.
   */
  lemma ShadowTestMatchesNearest(s: Scene, ray: Ray, limit: real)
    requires limit < FAR_AWAY
    ensures var (closest, closestDistance) := Scan(Reports(s.objects, ray));
      CheckRayDistance(s, ray, limit) <==> closest.Some? && closestDistance <= limit
  {
    var ds := Reports(s.objects, ray);
    if CheckRayDistance(s, ray, limit) {
      var j :| 0 <= j < |ds| && ds[j].Some? && ds[j].value <= limit;
      assert !NoneNear(ds);
    }
  }

  /** A nearest hit exists only if the unbounded shadow test blocks. */
  lemma FoundImpliesBlocked(s: Scene, ray: Ray)
    ensures FindIntersection(s, ray).Some? ==> CheckRay(s, ray)
  {
  }
}
