/**
 Linear RGB colours and their componentwise algebra. The source stores each
 channel as an `f32`; the model uses reals, so rounding, overflow and NaN are
 not represented.
 */
module Colors {

  datatype Color = Color(r: real, g: real, b: real)

  const Black := Color(0.0, 0.0, 0.0)
  const White := Color(1.0, 1.0, 1.0)

  /** Channelwise product: tinting a radiance by an albedo. */
  function MulC(a: Color, b: Color): Color
  {
    Color(a.r * b.r, a.g * b.g, a.b * b.b)
  }

  /** Scaling every channel by one factor. */
  function MulS(a: Color, s: real): Color
  {
    Color(a.r * s, a.g * s, a.b * s)
  }

  /** Channelwise sum: accumulating light. */
  function AddC(a: Color, b: Color): Color
  {
    Color(a.r + b.r, a.g + b.g, a.b + b.b)
  }

  predicate NonNegative(c: Color)
  {
    c.r >= 0.0 && c.g >= 0.0 && c.b >= 0.0
  }

  predicate InUnitCube(c: Color)
  {
    0.0 <= c.r <= 1.0 && 0.0 <= c.g <= 1.0 && 0.0 <= c.b <= 1.0
  }

  function Dist(a: real, b: real): real
  {
    if a <= b then b - a else a - b
  }

  /** Clamping one channel into [0, 1]. */
  function Clamp(x: real): (y: real)
    ensures 0.0 <= y <= 1.0
    ensures 0.0 <= x <= 1.0 ==> y == x
  {
    if x < 0.0 then 0.0
    else if x > 1.0 then 1.0
    else x
  }

  /** The clamp is the point of [0, 1] nearest to its argument. */
  lemma ClampIsNearest(x: real, v: real)
    requires 0.0 <= v <= 1.0
    ensures Dist(Clamp(x), x) <= Dist(v, x)
  {
  }

  /** `Color::saturate`: every channel clamped into [0, 1]. */
  function Saturate(c: Color): (s: Color)
    ensures InUnitCube(s)
    ensures InUnitCube(c) ==> s == c
  {
    Color(Clamp(c.r), Clamp(c.g), Clamp(c.b))
  }

  /** Saturating twice is saturating once, and each channel is the nearest value in [0, 1]. */
  lemma SaturateIdempotent(c: Color)
    ensures Saturate(Saturate(c)) == Saturate(c)
    ensures forall v :: 0.0 <= v <= 1.0 ==> Dist(Saturate(c).r, c.r) <= Dist(v, c.r)
    ensures forall v :: 0.0 <= v <= 1.0 ==> Dist(Saturate(c).g, c.g) <= Dist(v, c.g)
    ensures forall v :: 0.0 <= v <= 1.0 ==> Dist(Saturate(c).b, c.b) <= Dist(v, c.b)
  {
    forall v | 0.0 <= v <= 1.0
      ensures Dist(Saturate(c).r, c.r) <= Dist(v, c.r)
      ensures Dist(Saturate(c).g, c.g) <= Dist(v, c.g)
      ensures Dist(Saturate(c).b, c.b) <= Dist(v, c.b)
    {
      ClampIsNearest(c.r, v);
      ClampIsNearest(c.g, v);
      ClampIsNearest(c.b, v);
    }
  }

  /**
   Over reals, `add_c` is a commutative monoid with black as unit. The f32
   sums of the source are not associative, so there the order of
   accumulation can change the last bits.
   */
  lemma AddCMonoid(a: Color, b: Color, c: Color)
    ensures AddC(a, b) == AddC(b, a)
    ensures AddC(AddC(a, b), c) == AddC(a, AddC(b, c))
    ensures AddC(a, Black) == a
  {
  }

  /** Averaging a sum is summing the averages, and tinting by white changes nothing. */
  lemma ScalingLaws(a: Color, b: Color, s: real)
    ensures MulS(AddC(a, b), s) == AddC(MulS(a, s), MulS(b, s))
    ensures MulC(a, White) == a
    ensures MulC(a, b) == MulC(b, a)
  {
  }

  /** Non-negative light stays non-negative under all three operations. */
  lemma NonNegativeClosed(a: Color, b: Color, s: real)
    requires NonNegative(a) && NonNegative(b) && s >= 0.0
    ensures NonNegative(AddC(a, b))
    ensures NonNegative(MulC(a, b))
    ensures NonNegative(MulS(a, s))
  {
  }
}
