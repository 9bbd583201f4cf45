/** The sizing policy of one axis of an element (`ISizing`): a min/max range
    with a behaviour (FIXED, FIT, GROW) or a percentage of the parent. The
    Java record constructors clamp their arguments; here the datatype is the
    raw record and `NewMinMax`/`NewPercentage` are the clamping constructors
    through which every factory goes. */
module Sizings {
  import opened Numbers

  datatype Behaviour = Fixed | Fit | Grow

  /** `ISizing.Type`. */
  datatype SizingType = FitType | FixedType | GrowType | PercentageType

  /** `ISizing.MinMax` and `ISizing.Percentage`. The accessors `minMax()` and
      `percentage()` are casts in Java; here they are the destructors
      `min`/`max` (defined only on `MinMax?`) and `percentage` (defined only on
      `Percentage?`), so calling one on the wrong variant is excluded by
      Dafny's precondition on destructors. */
  datatype Sizing =
    | MinMax(behaviour: Behaviour, min: real, max: real)
    | Percentage(percentage: real)

  /** What the clamping constructors guarantee. */
  predicate Valid(s: Sizing)
  {
    match s
    case MinMax(_, lo, hi) => 0.0 <= lo && 0.0 <= hi
    case Percentage(p) => 0.0 <= p <= 1.0
  }

  /** `ISizing.type()`: every behaviour maps to its own type, and only a
      percentage maps to PERCENTAGE. */
  function TypeOf(s: Sizing): (t: SizingType)
    ensures t == PercentageType <==> s.Percentage?
    ensures t == FixedType <==> s.MinMax? && s.behaviour == Fixed
    ensures t == GrowType <==> s.MinMax? && s.behaviour == Grow
    ensures t == FitType <==> s.MinMax? && s.behaviour == Fit
  {
    match s
    case MinMax(b, _, _) =>
      (match b
       case Fit => FitType
       case Fixed => FixedType
       case Grow => GrowType)
    case Percentage(_) => PercentageType
  }

  /** The `MinMax` constructor: negative bounds become 0, `min <= max` is not
      enforced. */
  function NewMinMax(b: Behaviour, min: real, max: real): (s: Sizing)
    ensures s.MinMax? && s.behaviour == b && Valid(s)
    ensures min >= 0.0 ==> s.min == min
    ensures min < 0.0 ==> s.min == 0.0
    ensures max >= 0.0 ==> s.max == max
    ensures max < 0.0 ==> s.max == 0.0
  {
    MinMax(b, Max(min, 0.0), Max(max, 0.0))
  }

  /** The `Percentage` constructor (`Math.clamp(p, 0, 1)`). */
  function NewPercentage(p: real): (s: Sizing)
    ensures s.Percentage? && Valid(s)
    ensures 0.0 <= p <= 1.0 ==> s.percentage == p
    ensures p < 0.0 ==> s.percentage == 0.0
    ensures p > 1.0 ==> s.percentage == 1.0
  {
    Percentage(Clamp(p, 0.0, 1.0))
  }

  /** The constructors are projections: a value that already satisfies
      `Valid` is rebuilt unchanged. */
  lemma ConstructorsFixValidValues(s: Sizing)
    requires Valid(s)
    ensures s.MinMax? ==> NewMinMax(s.behaviour, s.min, s.max) == s
    ensures s.Percentage? ==> NewPercentage(s.percentage) == s
  {
  }

  /** `ISizing.percentage(p)`. */
  function PercentageOf(p: real): (s: Sizing)
    ensures TypeOf(s) == PercentageType && Valid(s)
    ensures 0.0 <= p <= 1.0 ==> s.percentage == p
    ensures p < 0.0 ==> s.percentage == 0.0
    ensures p > 1.0 ==> s.percentage == 1.0
  {
    NewPercentage(p)
  }

  /** `ISizing.fixed(v)`: FIXED with `min == max == max(v, 0)`. */
  function FixedSize(v: real): (s: Sizing)
    ensures TypeOf(s) == FixedType && Valid(s)
    ensures s.min == s.max
    ensures v >= 0.0 ==> s.min == v
    ensures v < 0.0 ==> s.min == 0.0
  {
    NewMinMax(Fixed, v, v)
  }

  /** `ISizing.grow(min, max)`. */
  function GrowBetween(min: real, max: real): (s: Sizing)
    ensures TypeOf(s) == GrowType && Valid(s)
    ensures min >= 0.0 ==> s.min == min
    ensures max >= 0.0 ==> s.max == max
    ensures min < 0.0 ==> s.min == 0.0
    ensures max < 0.0 ==> s.max == 0.0
  {
    NewMinMax(Grow, min, max)
  }

  /** `ISizing.grow(v)`: a degenerate range `[v, v]` (clamped at 0). */
  function GrowExactly(v: real): (s: Sizing)
    ensures TypeOf(s) == GrowType && Valid(s)
    ensures s.min == s.max
    ensures v >= 0.0 ==> s.min == v
    ensures v < 0.0 ==> s.min == 0.0
  {
    GrowBetween(v, v)
  }

  /** `ISizing.grow()`: the unbounded range `[0, Float.MAX_VALUE]`. */
  function GrowAny(): (s: Sizing)
    ensures TypeOf(s) == GrowType && Valid(s)
    ensures s.min == 0.0 && s.max == FLOAT_MAX
  {
    GrowBetween(0.0, FLOAT_MAX)
  }

  /** `ISizing.fit(min, max)`. */
  function FitBetween(min: real, max: real): (s: Sizing)
    ensures TypeOf(s) == FitType && Valid(s)
    ensures min >= 0.0 ==> s.min == min
    ensures max >= 0.0 ==> s.max == max
    ensures min < 0.0 ==> s.min == 0.0
    ensures max < 0.0 ==> s.max == 0.0
  {
    NewMinMax(Fit, min, max)
  }

  /** `ISizing.fit(v)`. */
  function FitExactly(v: real): (s: Sizing)
    ensures TypeOf(s) == FitType && Valid(s)
    ensures s.min == s.max
    ensures v >= 0.0 ==> s.min == v
    ensures v < 0.0 ==> s.min == 0.0
  {
    FitBetween(v, v)
  }

  /** `ISizing.fit()`: the unbounded range `[0, Float.MAX_VALUE]`. */
  function FitAny(): (s: Sizing)
    ensures TypeOf(s) == FitType && Valid(s)
    ensures s.min == 0.0 && s.max == FLOAT_MAX
  {
    FitBetween(0.0, FLOAT_MAX)
  }
}
