/**
 The shading integrator of `src/scene/mod.rs`: `trace_ray`, the mutually
 recursive pair `light_diffuse` / `environment_light`, and `sky_color`.

 Randomness is a parameter: `sample(path, normal)` is the direction
 `random_cos_around(normal)` returns for the draw identified by `path`, the
 sample indices taken on the way down the recursion. Every assignment of
 directions to draws is some `sample`, so what is proved here holds for
 every outcome of the random draws.

 Each call returns an `Estimate`: the colour the source computes, plus an
 account of the work done below it (the deepest `environment_light` depth
 reached and the number of indirect rays cast).
 */
module Integrator {
  import opened Ints
  import opened Options
  import opened Colors
  import opened SceneQuery

  type Sampler = (seq<nat>, Vec3) -> Vec3

  datatype Estimate = Estimate(color: Color, deepest: nat, rays: nat)

  /** `sky_color`: black to blue with the direction's vertical component. */
  function Sky(direction: Vec3): (c: Color)
    ensures c.r == 0.0 && c.g == 0.0
    ensures -1.0 <= direction.z <= 1.0 ==> InUnitCube(c)
  {
    var fac := (Dot(direction, UnitZ) + 1.0) * 0.5;
    Color(0.0, 0.0, fac)
  }

  predicate IsUnit(v: Vec3)
  {
    v.x * v.x + v.y * v.y + v.z * v.z == 1.0
  }

  /** A unit vector has its vertical component in [-1, 1]. */
  lemma UnitZBounds(v: Vec3)
    requires IsUnit(v)
    ensures -1.0 <= v.z <= 1.0
  {
    assert v.z * v.z <= 1.0;
  }

  /**
   The sky has no red or green, its blue depends on nothing but the
   direction's vertical component and grows with it, and for a unit
   direction the colour lies in [0, 1].
   */
  lemma SkyGradient(a: Vec3, b: Vec3)
    ensures Sky(a).r == 0.0 && Sky(a).g == 0.0
    ensures a.z == b.z ==> Sky(a) == Sky(b)
    ensures a.z <= b.z ==> Sky(a).b <= Sky(b).b
    ensures -1.0 <= a.z <= 1.0 ==> InUnitCube(Sky(a))
  {
  }

  /** Straight up is full blue, straight down is black. */
  lemma SkyAtPoles()
    ensures Sky(UnitZ) == Color(0.0, 0.0, 1.0)
    ensures Sky(Vec3(0.0, 0.0, -1.0)) == Black
  {
  }

  /** `num_gi_samples >> (2 * depth)`: the indirect sample count at a depth. */
  function GiSamples(s: Scene, depth: u32): (n: u32)
    requires depth <= MAX_BOUNCES
    ensures n <= s.numGiSamples
    ensures n == s.numGiSamples / Pow2(depth * 2)
  {
    ShrIsDiv(s.numGiSamples, depth * 2);
    Shr(s.numGiSamples, depth * 2)
  }

  /** Deeper levels never take more indirect samples than shallower ones. */
  lemma GiSamplesShrink(s: Scene, d1: u32, d2: u32)
    requires d1 <= d2 <= MAX_BOUNCES
    ensures GiSamples(s, d2) <= GiSamples(s, d1)
  {
    ShrAntitone(s.numGiSamples, d1 * 2, d2 * 2);
  }

  /**
   The most indirect rays `environment_light` at `depth` can cast in total:
   its own samples, each of which may lead to a full estimate one level
   further down while `depth < bounces`.
   */
  function Budget(s: Scene, depth: u32): nat
    requires WellFormed(s) && depth <= s.bounces
    decreases s.bounces - depth
  {
    GiSamples(s, depth) * PerSample(s, depth)
  }

  /** The most indirect rays one sample at `depth` can account for: itself and what lies below its hit. */
  function PerSample(s: Scene, depth: u32): nat
    requires WellFormed(s) && depth <= s.bounces
    decreases s.bounces - depth, 0
  {
    1 + (if depth < s.bounces then Budget(s, depth + 1) else 0)
  }

  /**
   Every light casts non-negative light. This is an assumption about the
   scene: a point light does not clamp its cosine, so one behind the
   surface contributes negative light and the scene is not `Physical`.
   */
  ghost predicate LightsNonNegative(s: Scene)
  {
    forall i, p, n :: 0 <= i < |s.lights| ==> NonNegative(s.lights[i].illuminate(p, n))
  }

  ghost predicate MaterialsNonNegative(s: Scene)
  {
    forall i :: 0 <= i < |s.objects| ==> NonNegative(s.objects[i].material.color)
  }

  /** Every sampled direction has its vertical component in [-1, 1], as unit vectors do. */
  ghost predicate SamplesInRange(sample: Sampler)
  {
    forall path, n :: -1.0 <= sample(path, n).z <= 1.0
  }

  /** Non-negative lights and materials, and directions as unit vectors have them. */
  ghost predicate Physical(s: Scene, sample: Sampler)
  {
    LightsNonNegative(s) && MaterialsNonNegative(s) && SamplesInRange(sample)
  }

  /** The direct term of `light_diffuse`: the lights' contributions added in scene order. */
  function DirectLight(lights: seq<SceneLight>, point: Vec3, normal: Vec3): (c: Color)
    ensures (forall i :: 0 <= i < |lights| ==> NonNegative(lights[i].illuminate(point, normal)))
      ==> NonNegative(c)
    decreases |lights|
  {
    if |lights| == 0 then Black
    else
      var prefix := lights[..|lights| - 1];
      assert forall i :: 0 <= i < |prefix| ==> prefix[i] == lights[i];
      AddC(DirectLight(prefix, point, normal), lights[|lights| - 1].illuminate(point, normal))
  }

  /** The recursion measure: levels left before `bounces` is reached. */
  function Levels(s: Scene, depth: u32): nat
  {
    if depth <= s.bounces then s.bounces - depth else 0
  }

  /**
   `light_diffuse`: direct light, plus `environment_light` one level deeper
   while `depth < bounces`. It recurses exactly when `depth < bounces`; no
   estimate below it goes deeper than `bounces`, and it casts no indirect
   ray at or past the bounce limit.
   */
  function LightDiffuse(s: Scene, sample: Sampler, point: Vec3, normal: Vec3, depth: u32, path: seq<nat>)
    : (e: Estimate)
    requires WellFormed(s)
    ensures e.deepest == 0 <==> depth >= s.bounces
    ensures e.deepest == 0 || depth < e.deepest <= s.bounces
    ensures depth >= s.bounces ==> e.rays == 0
    ensures depth < s.bounces ==> GiSamples(s, depth + 1) <= e.rays <= Budget(s, depth + 1)
    ensures Physical(s, sample) ==> NonNegative(e.color)
    ensures depth >= s.bounces ==> e.color == DirectLight(s.lights, point, normal)
    ensures |s.objects| == 0 && depth < s.bounces && GiSamples(s, depth + 1) > 0 ==>
      e.color == AddC(DirectLight(s.lights, point, normal), SkyAverage(sample, path, normal, GiSamples(s, depth + 1)))
    decreases Levels(s, depth), 0, 0
  {
    var direct := DirectLight(s.lights, point, normal);
    if depth < s.bounces then
      var env := EnvironmentLight(s, sample, point, normal, depth + 1, path);
      Estimate(AddC(direct, env.color), env.deepest, env.rays)
    else
      Estimate(direct, 0, 0)
  }

  /**
   `environment_light`: the average of `num_gi_samples >> (2 * depth)`
   indirect samples, or black when that count is 0. It casts at most
   `Budget(s, depth)` rays and at least one per sample. Its colour is the
   mean of the light arriving along the sampled directions; in a scene
   without objects that is the mean of the sky colours along them, and so
   lies in [0, 1].
   */
  function EnvironmentLight(s: Scene, sample: Sampler, point: Vec3, normal: Vec3, depth: u32, path: seq<nat>)
    : (e: Estimate)
    requires WellFormed(s) && depth <= s.bounces
    ensures depth <= e.deepest <= s.bounces
    ensures GiSamples(s, depth) <= e.rays <= Budget(s, depth)
    ensures GiSamples(s, depth) == 0 ==> e.color == Black && e.rays == 0
    ensures GiSamples(s, depth) > 0 ==>
      e.color == MulS(IncomingSum(s, sample, point, normal, depth, path, 0, GiSamples(s, depth)),
                      1.0 / GiSamples(s, depth) as real)
    ensures |s.objects| == 0 && GiSamples(s, depth) > 0 ==>
      e.color == SkyAverage(sample, path, normal, GiSamples(s, depth))
    ensures Physical(s, sample) ==> NonNegative(e.color)
    ensures |s.objects| == 0 && SamplesInRange(sample) ==> InUnitCube(e.color)
    decreases Levels(s, depth), 3, 0
  {
    var n := GiSamples(s, depth);
    if n == 0 then Estimate(Black, depth, 0)
    else
      var total := GatherSamples(s, sample, point, normal, depth, path, 0, n, Estimate(Black, depth, 0));
      AverageInUnitCube(total.color, n);
      Estimate(MulS(total.color, 1.0 / n as real), total.deepest, total.rays)
  }

  /** Every channel of `c` lies in [0, k]. */
  predicate WithinSamples(c: Color, k: nat)
  {
    0.0 <= c.r <= k as real && 0.0 <= c.g <= k as real && 0.0 <= c.b <= k as real
  }

  lemma AverageInUnitCube(c: Color, n: nat)
    requires n > 0
    ensures WithinSamples(c, n) ==> InUnitCube(MulS(c, 1.0 / n as real))
    ensures NonNegative(c) ==> NonNegative(MulS(c, 1.0 / n as real))
  {
    var f := 1.0 / n as real;
    assert n as real * f == 1.0;
    if WithinSamples(c, n) {
      assert c.r * f <= n as real * f;
      assert c.g * f <= n as real * f;
      assert c.b * f <= n as real * f;
    }
  }

  /**
   One pass of the sampling loop of `environment_light`: the light arriving
   along the `i`-th sampled direction. A direction that hits an object
   brings that object's `light_diffuse` at the same depth; one that escapes
   brings the sky colour in that direction.
   */
  function SampleLight(s: Scene, sample: Sampler, point: Vec3, normal: Vec3, depth: u32, path: seq<nat>, i: nat)
    : (e: Estimate)
    requires WellFormed(s) && depth <= s.bounces
    ensures e.deepest == 0 || depth < e.deepest <= s.bounces
    ensures e.rays + 1 <= PerSample(s, depth)
    ensures Physical(s, sample) ==> NonNegative(e.color)
    ensures |s.objects| == 0 && SamplesInRange(sample) ==> InUnitCube(e.color)
    ensures |s.objects| == 0 ==> e.color == Sky(sample(path + [i], normal)) && e.rays == 0
    ensures FindIntersection(s, Ray(point, sample(path + [i], normal))).None? ==>
      e.color == Sky(sample(path + [i], normal)) && e.rays == 0 && e.deepest == 0
    decreases Levels(s, depth), 1, 0
  {
    var direction := sample(path + [i], normal);
    match FindIntersection(s, Ray(point, direction))
    case Some(hit) => LightDiffuse(s, sample, hit.point, hit.normal, depth, path + [i])
    case None => Estimate(Sky(direction), 0, 0)
  }

  /**
   The sampling loop of `environment_light`, from sample `i` of `n` on,
   with `acc` the light gathered so far: each sample adds its light and
   accounts for one ray plus the rays cast below it.
   */
  function GatherSamples(
    s: Scene, sample: Sampler, point: Vec3, normal: Vec3, depth: u32, path: seq<nat>,
    i: nat, n: nat, acc: Estimate)
    : (e: Estimate)
    requires WellFormed(s) && depth <= s.bounces && i <= n
    requires depth <= acc.deepest <= s.bounces
    ensures acc.deepest <= e.deepest <= s.bounces
    ensures acc.rays + (n - i) <= e.rays <= acc.rays + (n - i) * PerSample(s, depth)
    ensures Physical(s, sample) && NonNegative(acc.color) ==> NonNegative(e.color)
    ensures |s.objects| == 0 && SamplesInRange(sample) && WithinSamples(acc.color, i) ==>
      WithinSamples(e.color, n)
    ensures e.color == AddC(acc.color, IncomingSum(s, sample, point, normal, depth, path, i, n))
    ensures |s.objects| == 0 ==> e.color == AddC(acc.color, SkySum(sample, path, normal, i, n))
    decreases Levels(s, depth), 2, n - i, 1
  {
    if i == n then acc
    else
      var incoming := SampleLight(s, sample, point, normal, depth, path, i);
      var acc' := Estimate(
        AddC(acc.color, incoming.color),
        if incoming.deepest > acc.deepest then incoming.deepest else acc.deepest,
        acc.rays + 1 + incoming.rays);
      PeelOne(n - i, PerSample(s, depth));
      AddCMonoid(acc.color, incoming.color, SkySum(sample, path, normal, i + 1, n));
      AddCMonoid(acc.color, incoming.color, IncomingSum(s, sample, point, normal, depth, path, i + 1, n));
      GatherSamples(s, sample, point, normal, depth, path, i + 1, n, acc')
  }

  /**
   Reference sum: the light arriving along sampled directions `i` to
   `n - 1`, each found independently of the others.
   */
  function IncomingSum(s: Scene, sample: Sampler, point: Vec3, normal: Vec3, depth: u32, path: seq<nat>, i: nat, n: nat)
    : Color
    requires WellFormed(s) && depth <= s.bounces
    decreases Levels(s, depth), 2, n - i, 0
  {
    if i >= n then Black
    else AddC(SampleLight(s, sample, point, normal, depth, path, i).color,
              IncomingSum(s, sample, point, normal, depth, path, i + 1, n))
  }

  /**
   Reference sum for a scene without objects: the sky colours along the
   sampled directions `i` to `n - 1`, every one of which escapes.
   */
  function SkySum(sample: Sampler, path: seq<nat>, normal: Vec3, i: nat, n: nat): Color
    decreases n - i
  {
    if i >= n then Black
    else AddC(Sky(sample(path + [i], normal)), SkySum(sample, path, normal, i + 1, n))
  }

  /** The mean of the first `n` sky samples. */
  function SkyAverage(sample: Sampler, path: seq<nat>, normal: Vec3, n: nat): Color
    requires n > 0
  {
    MulS(SkySum(sample, path, normal, 0, n), 1.0 / n as real)
  }

  lemma PeelOne(k: nat, p: nat)
    requires k > 0
    ensures k * p == (k - 1) * p + p
  {
  }

  /**
   `trace_ray`: the sky colour in the ray's direction on a miss; on a hit,
   the light arriving at the hit point tinted by the hit object's material.
   At or past the bounce limit it casts no indirect ray at all.
   */
  function TraceRay(s: Scene, sample: Sampler, ray: Ray, depth: u32, path: seq<nat>): (e: Estimate)
    requires WellFormed(s)
    ensures FindIntersection(s, ray).None? ==> e.color == Sky(ray.direction) && e.rays == 0
    ensures depth >= s.bounces ==> e.rays == 0 && e.deepest == 0
    ensures e.deepest <= s.bounces
    ensures depth < s.bounces ==> e.rays <= Budget(s, depth + 1)
    ensures Physical(s, sample) && -1.0 <= ray.direction.z ==> NonNegative(e.color)
  {
    match FindIntersection(s, ray)
    case Some(intersection) =>
      HitMaterialNonNegative(s, ray);
      var diff := LightDiffuse(s, sample, intersection.point, intersection.normal, depth, path);
      TintNonNegative(diff.color, intersection.material.color);
      Estimate(MulC(diff.color, intersection.material.color), diff.deepest, diff.rays)
    case None => Estimate(Sky(ray.direction), 0, 0)
  }

  /** On a hit, `trace_ray` shows the light arriving at the hit point tinted by the hit object's material. */
  lemma HitShowsTintedLight(s: Scene, sample: Sampler, ray: Ray, depth: u32, path: seq<nat>, hit: Intersection)
    requires WellFormed(s)
    ensures FindIntersection(s, ray) == Some(hit) ==>
      TraceRay(s, sample, ray, depth, path).color
        == MulC(LightDiffuse(s, sample, hit.point, hit.normal, depth, path).color, hit.material.color)
  {
  }

  /** Below the limit, `light_diffuse` adds the next level's `environment_light` to the direct light. */
  lemma LightDiffuseAddsEnvironment(s: Scene, sample: Sampler, point: Vec3, normal: Vec3, depth: u32, path: seq<nat>)
    requires WellFormed(s) && depth < s.bounces
    ensures LightDiffuse(s, sample, point, normal, depth, path).color
            == AddC(DirectLight(s.lights, point, normal), EnvironmentLight(s, sample, point, normal, depth + 1, path).color)
  {
  }

  /** A sampled direction that hits an object brings that object's `light_diffuse` at the same depth. */
  lemma SampleHitBringsLightDiffuse(
    s: Scene, sample: Sampler, point: Vec3, normal: Vec3, depth: u32, path: seq<nat>, i: nat, hit: Intersection)
    requires WellFormed(s) && depth <= s.bounces
    ensures FindIntersection(s, Ray(point, sample(path + [i], normal))) == Some(hit) ==>
      SampleLight(s, sample, point, normal, depth, path, i).color
        == LightDiffuse(s, sample, hit.point, hit.normal, depth, path + [i]).color
  {
  }

  /** At the bounce limit a hit shows only the direct light at the hit point, tinted by the hit material. */
  lemma DirectOnlyAtLimit(s: Scene, sample: Sampler, ray: Ray, depth: u32, path: seq<nat>, hit: Intersection)
    requires WellFormed(s) && depth >= s.bounces
    ensures FindIntersection(s, ray) == Some(hit) ==>
      TraceRay(s, sample, ray, depth, path).color
        == MulC(DirectLight(s.lights, hit.point, hit.normal), hit.material.color)
  {
  }

  lemma TintNonNegative(a: Color, b: Color)
    ensures NonNegative(a) && NonNegative(b) ==> NonNegative(MulC(a, b))
  {
    if NonNegative(a) && NonNegative(b) {
      NonNegativeClosed(a, b, 0.0);
    }
  }

  /** The material of a hit is the material of some object of the scene. */
  lemma HitMaterialNonNegative(s: Scene, ray: Ray)
    ensures FindIntersection(s, ray).Some? && MaterialsNonNegative(s) ==>
      NonNegative(FindIntersection(s, ray).value.material.color)
  {
    if FindIntersection(s, ray).Some? {
      var ds := Reports(s.objects, ray);
      var k :| IsNearest(ds, k) &&
        FindIntersection(s, ray).value == HitInfo(s.objects[k], PointAt(ray, s.objects[k].distance(ray).value));
    }
  }

  /** In a scene without objects every ray shows the sky; straight up it is full blue. */
  lemma EmptySceneShowsSky(s: Scene, sample: Sampler, origin: Vec3, depth: u32, path: seq<nat>)
    requires WellFormed(s) && |s.objects| == 0
    ensures TraceRay(s, sample, Ray(origin, UnitZ), depth, path).color == Color(0.0, 0.0, 1.0)
  {
  }
}
