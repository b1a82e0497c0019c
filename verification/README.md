# rust-raytracer core, modelled in Dafny

This project models the core of a small parallel, tiled path tracer written
in pre-1.0 Rust. The model has three parts:

- **Tile scheduling and rectangle iteration** (`src/image_types.rs`, `src/types.rs`).
  `ImageIter` cuts a `w x h` image into 128 x 128 tiles and hands them out
  in row-major order. Tiles on the last column and the last row take the
  remainder sizes, and a tile of zero width or height is skipped.
  `RectIter` lists the pixels of one tile.
  Both are modelled as pure step functions: `next` takes a state and
  returns the reported item together with the new state.
- **Colour algebra** (`Color::{mul_c, mul_s, add_c, saturate}`), over reals.
- **Scene queries and the shading recursion** (`src/scene/mod.rs`).
  This covers the nearest-hit scan `find_intersection`, the shadow tests
  `check_ray` and `check_ray_distance`, `trace_ray`, `sky_color`, and the
  mutually recursive `light_diffuse` / `environment_light`.
  Geometry and lights are opaque: each object is given by the function
  that answers a ray with an optional distance and by its surface normal,
  and each light by the colour it casts on a point.
  The random directions of `random_cos_around` come from a `Sampler`
  parameter. A sampler is indexed by the recursion path, so the results
  hold for every outcome of the random draws.
  Each shading call returns an `Estimate`: the colour the source
  computes, the deepest `environment_light` level reached below the call,
  and the number of indirect rays cast. The last two are the bookkeeping
  behind the recursion-depth and sample-count results.

Modules: `Ints` (u32 and wrapping arithmetic, `>>`), `Options`, `Colors`,
`Rects` (points, rectangles, `RectIter`), `Tiling` (`ImageIter`),
`SceneQuery` (scene, objects, lights, the query layer) and `Integrator`.

`src/types.rs` holds a second copy of `RectIter` and of point addition,
over a `Point` type with the same fields. The algorithm is identical, so
`Rects` models both copies once. Some rows below cite the `src/types.rs`
copy.

The pre-1.0 Rust these files target wrapped on `u32` overflow. The model
writes that out as `Wrap32` wherever the source could overflow: point
addition, the `x += 1` step of `RectIter`, and the product in
`number_of_tiles`.

In these places the model follows the code where a reader might expect otherwise:

- `check_ray_distance` blocks on an occluder at distance `<=` the limit,
  not strictly nearer (`src/scene/mod.rs:90`).
- An indirect sample that hits an object adds that object's
  `light_diffuse` without multiplying by the hit object's material. The
  code does not recurse through `trace_ray` (`src/scene/mod.rs:116-119`).
- `environment_light` at level `d` shifts by `2*d`. Seen from
  `light_diffuse` at depth `d`, that is `2*(d+1)`.

## Model

| member | source | states |
|---|---|---|
| `Rects.Add` | src/image_types.rs:36-41 | Point addition is componentwise, and exact whenever the sum fits in a u32. |
| `Rects.Iter` | src/image_types.rs:31-34 | A fresh iterator starts at offset (0, 0). What it then yields is stated by `Rects.IterYieldsRowMajor`. |
| `Rects.Next` | src/image_types.rs:43-56 | `next` reports `None` exactly when the row index has reached the height, and it then leaves the cursor unchanged. |
| `Rects.IterYieldsRowMajor` | src/image_types.rs:43-56 | For positive width, the calls of `next` report exactly `width*height` points. Point k is `origin + (k % width, k / width)`, so x varies fastest. Every call after that reports `None`. |
| `Rects.RunFrom` | src/types.rs:36-49 | From any cursor with x < width, the calls report the row-major points from the cursor's linear index onwards, then `None`. |
| `Rects.StepIndex` | src/types.rs:41-46 | One call from a live cursor reports the point at its row-major index. It advances the index by one, and x wraps to 0 on the next row when it reaches the width. |
| `Rects.RowMajorInRect` | src/types.rs:41-47 | Every reported point is the origin plus an offset (i, j) with i < width and j < height. |
| `Rects.NoneIsFinal` | src/types.rs:38-40 | Once `next` has reported `None`, every later call reports `None`. |
| `Rects.ZeroWidthYieldsColumn` | src/types.rs:42-45 | With width 0, the iterator still reports `height` points, all at x-offset 0, one per row, and then `None`. |
| `Tiling.ForImageDimensions` | src/image_types.rs:72-84 | The initial state is valid, encodes exactly the image width and height as 128-pixel tile counts plus remainders, and has its cursor at tile (0, 0). |
| `Tiling.NumberOfTiles` | src/image_types.rs:86-88 | The as-written wrapping product `num_tiles_x * (num_tiles_y + 1)`. `Tiling.NumberOfTilesMiscounts` shows that it differs from the number of tiles yielded. |
| `Tiling.CurrentTile` | src/image_types.rs:96-104 | The candidate at the cursor is at most 128 pixels wide and high, and its origin does not lie past the image. |
| `Tiling.Advance` | src/image_types.rs:108-112 | The cursor step moves strictly later in row-major order. The state stays valid and describes the same image. |
| `Tiling.Next` | src/image_types.rs:92-120 | A `Some` is a well-placed tile at or after the cursor, and the new cursor lies past it. Every pending pixel is either in the tile or still pending. A `None` leaves the cursor past the last row and means no pixel was pending. |
| `Tiling.CurrentTileNonEmpty` | src/image_types.rs:96-104 | The candidate at the cursor has non-zero area exactly when its cell is among the ceil(w/128) x ceil(h/128) non-empty cells. |
| `Tiling.TileAtCursor` | src/image_types.rs:96-104 | A non-empty candidate has its origin at (x*128, y*128). It is exactly as large as the tile size and the image allow, and it holds every pending pixel of its cell. |
| `Tiling.EmptyCellSkipped` | src/image_types.rs:115-119 | A zero-width or zero-height candidate holds no pixel, so skipping it by calling `next` again loses nothing. |
| `Tiling.PastLastRow` | src/image_types.rs:105-107 | Once the cursor row exceeds `num_tiles_y`, no pixel of the image remains. |
| `Tiling.Tiles` | src/image_types.rs:92-120 | Every tile the iterator hands out is well placed and lies at or after the starting cursor. |
| `Tiling.TilesRowMajor` | src/image_types.rs:108-112 | The tiles come in strictly increasing row-major order of their grid cells. |
| `Tiling.TilesCover` | src/image_types.rs:96-119 | Every pixel pending at the start lies in some tile that is handed out. |
| `Tiling.DistinctCells` | src/image_types.rs:108-112 | In the row-major tile sequence, two positions holding tiles in the same cell are the same position. |
| `Tiling.TilesPartitionImage` | src/image_types.rs:96-119 | For every w and h, each tile has width and height in 1..=128 and lies inside [0,w) x [0,h). No pixel lies in two tiles, and every pixel of the image lies in one. |
| `Tiling.NoneIsFinal` | src/image_types.rs:105-107 | After `next` reports `None`, it reports `None` again and the state no longer changes. |
| `Tiling.AdvanceCount` | src/image_types.rs:108-112 | One cursor step passes exactly the cell it leaves: the count of non-empty cells ahead drops by one exactly when that cell is non-empty. |
| `Tiling.NextCount` | src/image_types.rs:115-119 | A `next` that yields a tile uses up exactly one non-empty cell. A `next` that yields `None` finds none left. |
| `Tiling.TilesCount` | src/image_types.rs:92-120 | The iterator hands out exactly one tile per non-empty cell at or after the cursor. |
| `Tiling.TileCount` | src/image_types.rs:86-88 | The corrected tile count is ceil(w/128) * ceil(h/128). |
| `Tiling.TileCountExact` | src/image_types.rs:86-88 | The corrected count equals the number of tiles a fresh iterator hands out. |
| `Tiling.NumberOfTilesMiscounts` | src/image_types.rs:86-88 | `number_of_tiles` as written reports 40 for a 1024 x 512 image, which gets 32 tiles. It reports 0 for a 100 x 100 image, which gets 1 tile. |
| `Colors.MulC` | src/image_types.rs:132-136 | Channelwise product. Its laws are stated by `Colors.ScalingLaws` and `Colors.NonNegativeClosed`. |
| `Colors.MulS` | src/image_types.rs:137-141 | Scaling every channel by one factor. Its laws are stated by `Colors.ScalingLaws` and `Colors.NonNegativeClosed`. |
| `Colors.AddC` | src/image_types.rs:142-146 | Channelwise sum. Its laws are stated by `Colors.AddCMonoid` and `Colors.NonNegativeClosed`. |
| `Colors.Clamp` | src/image_types.rs:123-129 | The clamped channel lies in [0, 1] and equals the input when the input is already in [0, 1]. |
| `Colors.ClampIsNearest` | src/image_types.rs:123-129 | The clamp is the point of [0, 1] nearest to its argument. |
| `Colors.Saturate` | src/image_types.rs:147-151 | Every channel of a saturated colour lies in [0, 1]. A colour already in the unit cube is returned unchanged. |
| `Colors.SaturateIdempotent` | src/image_types.rs:147-151 | Saturating twice is the same as saturating once. Each channel is the nearest value in [0, 1] to the original channel. |
| `Colors.AddCMonoid` | src/image_types.rs:142-146 | Over reals, `add_c` is commutative and associative with black as unit. The source's f32 sums are not associative. |
| `Colors.ScalingLaws` | src/image_types.rs:132-141 | Over reals, `mul_s` distributes over `add_c`, `mul_c` is commutative, and tinting by white changes nothing. |
| `Colors.NonNegativeClosed` | src/image_types.rs:132-146 | Sums, channelwise products and non-negative scalings of non-negative colours stay non-negative. |
| `SceneQuery.Scan` | src/scene/mod.rs:52-65 | The scan settles on no object exactly when no report lies below the sentinel, and then the distance is the sentinel. Otherwise it settles on an object whose distance is at most every reported distance, and every earlier object's distance is strictly larger, so the first object wins ties. |
| `SceneQuery.NearestUnique` | src/scene/mod.rs:53-62 | At most one object meets the nearest-hit condition, so the scan's choice is the only correct one. |
| `SceneQuery.HitInfo` | src/scene/scene_objects.rs:56-62 | The hit record carries the object's material and its surface normal at the point. |
| `SceneQuery.FindIntersection` | src/scene/mod.rs:51-75 | The result is `None` exactly when no object reports a distance below 99999999999.0. Otherwise it is the chosen nearest object's hit record at `origin + direction * distance`. |
| `SceneQuery.AnyReport` | src/scene/mod.rs:78-84 | The early-exit loop is true exactly when some object from the start index on reports a hit. |
| `SceneQuery.CheckRay` | src/scene/mod.rs:77-85 | `check_ray` is true exactly when some object reports a hit, at any distance. |
| `SceneQuery.AnyReportWithin` | src/scene/mod.rs:88-94 | The early-exit loop is true exactly when some object from the start index on reports a distance <= the limit. |
| `SceneQuery.CheckRayDistance` | src/scene/mod.rs:87-95 | `check_ray_distance` is true exactly when some object reports a distance <= the limit. |
| `SceneQuery.ShadowTestsConsistent` | src/scene/mod.rs:87-95 | The bounded test is monotone in its limit, and it blocks only if `check_ray` blocks. |
| `SceneQuery.ShadowTestMatchesNearest` | src/scene/mod.rs:87-95 | For a limit below the sentinel, the bounded test blocks exactly when `find_intersection`'s nearest distance exists and is <= the limit. |
| `SceneQuery.FoundImpliesBlocked` | src/scene/mod.rs:77-85 | Whenever `find_intersection` finds a hit, `check_ray` blocks. |
| `Ints.ShrAntitone` | src/scene/mod.rs:110 | Shifting right by more never gives a larger value. |
| `Ints.ShrIsDiv` | src/scene/mod.rs:110 | Shifting right by k is division by 2^k, rounding down. |
| `Integrator.GiSamples` | src/scene/mod.rs:110 | The indirect sample count at depth d is `num_gi_samples / 4^d`, rounded down, and never exceeds `num_gi_samples`. |
| `Integrator.GiSamplesShrink` | src/scene/mod.rs:110 | The sample count does not increase with depth. |
| `Integrator.Sky` | src/scene/mod.rs:128-131 | The sky colour has no red or green. For a direction whose vertical component lies in [-1, 1], it lies in the unit cube. |
| `Integrator.SkyGradient` | src/scene/mod.rs:128-131 | The sky has r = g = 0. Its colour depends only on the direction's vertical component and is monotone in it. For a vertical component in [-1, 1] it lies in [0, 1]. |
| `Integrator.SkyAtPoles` | src/scene/mod.rs:128-131 | Straight up gives full blue, and straight down gives black. |
| `Integrator.UnitZBounds` | src/scene/mod.rs:128-131 | A unit direction has its vertical component in [-1, 1], the range on which the sky stays in [0, 1]. |
| `Integrator.DirectLight` | src/scene/mod.rs:98-101 | The direct term is non-negative whenever every light's contribution is. |
| `Integrator.LightDiffuse` | src/scene/mod.rs:97-106 | It recurses exactly when depth < bounces. No level below it exceeds `bounces`. At or past the limit it is the direct light alone and casts no indirect ray. Below the limit it casts at least `GiSamples(depth+1)` and at most `Budget(depth+1)` rays. In a scene without objects it is the direct light plus the mean of the sky colours along the sampled directions. Its colour is non-negative when lights and materials are non-negative and every sampled direction has its vertical component in [-1, 1] (`Physical`). |
| `Integrator.EnvironmentLight` | src/scene/mod.rs:108-125 | The level reached lies between `depth` and `bounces`. It casts at least `num_gi_samples >> 2*depth` rays, one per sample, and at most `Budget(depth)`. A zero sample count gives black and no rays. Otherwise the colour is the reference sum `IncomingSum` of the per-sample incoming light divided by the sample count. In a scene without objects that equals `SkyAverage`, the mean of the sky colours along the sampled directions; when every sampled direction has its vertical component in [-1, 1] it lies in [0, 1]. The colour is non-negative when lights and materials are non-negative and the sampled directions are in that range (`Physical`). |
| `Integrator.AverageInUnitCube` | src/scene/mod.rs:124 | Dividing a sum of n unit-cube colours by n lands in the unit cube. Dividing a non-negative colour by n keeps it non-negative. |
| `Integrator.SampleLight` | src/scene/mod.rs:113-121 | One sample accounts for at most one ray plus a full estimate one level down, and it recurses only below `bounces`. A sampled direction that hits nothing brings the sky colour along it and casts nothing below, so in a scene without objects every sample is sky. Its light is non-negative when lights and materials are non-negative and every sampled direction has its vertical component in [-1, 1] (`Physical`). |
| `Integrator.GatherSamples` | src/scene/mod.rs:112-123 | The sampling loop casts at least one and at most `PerSample(depth)` rays per remaining sample, and it keeps the level within `bounces`. It adds exactly the reference sum `IncomingSum` of the remaining samples' incoming light to the accumulator. In a scene without objects that is the sum `SkySum` of the remaining sky colours, and after n samples each channel is at most n. It preserves non-negativity under `Physical`. |
| `Integrator.TraceRay` | src/scene/mod.rs:37-49 | A miss yields the sky colour of the ray's direction and casts no indirect ray. At or past `bounces` no indirect ray is cast. The level reached never exceeds `bounces`. The result is non-negative under `Physical` for a ray whose vertical component is at least -1. |
| `Integrator.HitShowsTintedLight` | src/scene/mod.rs:40-46 | On a hit, `trace_ray` shows `light_diffuse` at the hit point and normal, tinted channelwise by the hit object's material colour, at every depth. |
| `Integrator.LightDiffuseAddsEnvironment` | src/scene/mod.rs:98-104 | Below the bounce limit, `light_diffuse` is the direct light plus `environment_light` one level deeper. |
| `Integrator.SampleHitBringsLightDiffuse` | src/scene/mod.rs:113-120 | A sampled direction that hits an object brings that object's `light_diffuse` at the hit, at the same depth. |
| `Integrator.DirectOnlyAtLimit` | src/scene/mod.rs:37-49 | At or past `bounces`, a hit shows the direct light at the hit point, tinted by the hit object's material. |
| `Integrator.HitMaterialNonNegative` | src/scene/mod.rs:67-73 | The material of a hit is the material of some scene object, so it is non-negative when all materials are. |
| `Integrator.EmptySceneShowsSky` | src/scene/mod.rs:37-49 | In a scene without objects, a ray straight up shows full blue (0, 0, 1), for any origin, depth or sampler. |

## Left out

- Worker dispatch and PNG output (`src/main.rs:19-76`): thread spawning, channels and lodepng encoding are concurrency and I/O. The framebuffer assembly that zips `RectIter` points with pixel buffers is not modelled beyond the row-major order proved for `RectIter`.
- Camera mapping and quantisation (`src/main.rs:78-97`): f32 camera maths and the truncating `as u8` casts.
- Scene loading (`src/parse_scene.rs`, `src/parse_scene/`): file I/O and JSON. Its one relevant fact, that `bounces` is clamped to at most 4 (`src/parse_scene/mod.rs:43-46`), is the `WellFormed` precondition. It also keeps the shift amount `2*depth` below 32.
- Sphere geometry (`src/scene/scene_objects.rs`): the quadratic, `sqrt` and f32 numerics. Each object's intersection is an opaque `Ray -> Option<real>` and its normal an opaque function. The 1e-6 nudge of the hit point along the normal is kept.
- Lights and random sampling (`src/scene/scene_lights.rs`, `src/scene/util.rs`): trigonometry and random numbers. `illuminate` is an opaque function per light and `random_cos_around` is the `Sampler` parameter. The lights' own calls of `check_ray` and `check_ray_distance` lie inside those opaque functions.
- The older float-only prototype `src/scene.rs` and the trait declarations `src/scene/intersectable.rs` and `src/scene/illuminator.rs`. Dispatch is modelled by closed datatypes.
- Floating point: colours and distances are reals. There is no rounding, overflow or NaN, so NaN passing through `saturate` is not represented. The sentinel 99999999999.0 is kept as that real, although f32 rounds it to 99999997952.
- Tiling.Next: the source builds the candidate rectangle before its `None` check and then discards it. The model checks first, so the wrapping `y * tile_h` of the discarded past-the-end candidate is not computed.
- Integrator.LightDiffuse: the non-negativity results assume `LightsNonNegative`, that every light casts non-negative light. The source's `PointLight` does not clamp its cosine (`src/scene/scene_lights.rs:65`), so an unoccluded light behind the surface contributes negative light. For such scenes the model promises nothing about the sign.
- Colors.AddCMonoid: holds over reals only. f32 addition is not associative, so the order in which lights and samples are summed can change the rounded result.

## Findings

| source | as written | input that shows it | evidently intended | confidence | as-written member | corrected member |
|---|---|---|---|---|---|---|
| src/image_types.rs:86-88 | `number_of_tiles` returns `num_tiles_x * (num_tiles_y + 1)`, a wrapping u32 product | `for_image_dimensions(1024, 512)`, the renderer's own size, reports 40, but `next` hands out 32 tiles. A 100 x 100 image reports 0 for 1 tile. | the number of tiles `next` yields, ceil(w/128) * ceil(h/128) | medium, not executed | `Tiling.NumberOfTilesMiscounts` | `Tiling.TileCountExact` |
