/** Which results the ULP comparator accepts. */
module Matching {
  import opened Bits
  import opened BinaryFormat
  import opened UlpDistance
  import opened ConversionUlps
  import opened Numbers
  import F = Float32
  import H = HalfFormat
  import HR = HalfRounding
  import HN = HalfNextAfter

  /** match_results_ulp for the three formats, under the rounding direction `mode`. */
  method MatchResultsUlp(result: Number, reference: U32, ulpValue: real, mode: Mode) returns (ok: bool)
    ensures ok == Matches(result, reference, ulpValue, mode)
  {
    hide Distance, Converted, Equal;
    if result.IsNaN() && F.IsNaN(reference) {
      return true;
    }
    var converted := Convert(result, reference, mode);
    if Equal(result, converted) {
      return true;
    }
    var ulpDistance := CalculateUlpDistance(result.Lim(), result.ToFloat(), reference, mode);
    if ulpDistance.AtMost(ulpValue) {
      return true;
    }
    return false;
  }

  predicate Matches(result: Number, reference: U32, ulpValue: real, mode: Mode) {
    || (result.IsNaN() && F.IsNaN(reference))
    || Equal(result, Converted(result.Lim(), mode, reference))
    || Ulps(result, reference, mode).AtMost(ulpValue)
  }

  function Ulps(n: Number, v: U32, current: Mode): Ulps { Distance(current, n.Lim(), n.ToFloat(), v) }

  /** The comparator accepts what the library's own conversion produces, for every
      float including NaNs and infinities and for every tolerance. */
  lemma ConversionMatches(lim: Limits, v: U32, ulpValue: real, mode: Mode)
    requires lim.OfFormat()
    ensures Matches(Converted(lim, mode, v), v, ulpValue, mode)
  {
    hide Lsh, Mag, And, H.HalfMagnitude, Distance, Equal;
    var r := Converted(lim, mode, v);
    if lim == HALF {
      H.HalfMagnitudeBounds(mode, F.Negative(v), F.Magnitude(v));
      HN.NaNTest(r.half);
    } else {
      ConvertedIsNearest(lim, v);
    }
    if !F.IsNaN(v) { EqualCodes(r, r); }
  }

  /** It also accepts it when the rounding direction has changed in between, with a
      tolerance of one unit, for every operand below 2^16. */
  lemma ConversionMatchesInOtherMode(v: U32, rounded: Mode, current: Mode)
    requires F.Magnitude(v) < 143 * 0x80_0000
    ensures Matches(OfHalf(HR.Convert(rounded, v)), v, 1.0, current)
  {
    hide Distance, Equal;
    AnyModeWithinOneUlp(rounded, v, current);
  }

  /** UlpComparator::match over scalar results. */
  method MatchAll(results: seq<Number>, references: seq<U32>, ulpValues: seq<real>, mode: Mode)
    returns (ok: bool)
    requires |results| <= |references| && |results| <= |ulpValues|
    ensures ok <==> forall i | 0 <= i < |results| :: Matches(results[i], references[i], ulpValues[i], mode)
  {
    hide Matches;
    for i := 0 to |results|
      invariant forall k | 0 <= k < i :: Matches(results[k], references[k], ulpValues[k], mode)
    {
      var matches := MatchResultsUlp(results[i], references[i], ulpValues[i], mode);
      if !matches {
        return false;
      }
    }
    return true;
  }

  // ------------------------------------------------- below half a unit: soundness

  /** What a result should be for the comparator to accept it. */
  ghost predicate IsCorrect(n: Number, v: U32) {
    if F.IsNaN(v) then n.IsNaN() else !n.IsNaN() && IsNearest(n, v)
  }

  /** The smallest number of the format, measured in the unit that is used at zero. */
  function LeastAtZero(lim: Limits): real
    requires lim.OfFormat()
  {
    Positive(-lim.minExponent);
    1.0 / Pow2(-lim.minExponent) as real
  }

  /** A result of any of the formats at a distance below half a unit is the correctly
      rounded reference, whichever way the subtraction rounds, if and only if the
      reference is not zero. */
  lemma CloseIsNearestIff(lim: Limits, v: U32, current: Mode)
    requires lim.OfFormat()
    ensures (forall n: Number | n.Lim() == lim && n.Encoded() && !n.IsNaN() ::
               Ulps(n, v, current).Below(0.5) ==> IsNearest(n, v))
       <==> F.Abs(v) != 0
  {
    hide Lsh, Mag, IsNearest, Ulps, Number.Encoded, Number.IsNaN;
    if F.Abs(v) != 0 {
      forall n: Number | n.Lim() == lim && n.Encoded() && !n.IsNaN() && Ulps(n, v, current).Below(0.5)
        ensures IsNearest(n, v)
      {
        CloseIsNearest(n, v, current);
      }
    } else {
      LeastIsClose(lim, v, current);
    }
  }

  /** With a tolerance below half a unit the comparator accepts exactly the correctly
      rounded results (and NaN for NaN), unless the reference is zero and the tolerance
      reaches the smallest number of the format: 2^-13 units for half, 2^-125 for bfloat16
      and tf32. */
  lemma AcceptsOnlyCorrectIff(lim: Limits, v: U32, ulpValue: real)
    requires lim.OfFormat() && 0.0 <= ulpValue < 0.5
    ensures (forall n: Number | n.Lim() == lim && n.Encoded() ::
               Matches(n, v, ulpValue, ToNearest) <==> IsCorrect(n, v))
       <==> F.Abs(v) != 0 || ulpValue < LeastAtZero(lim)
  {
    hide Matches, IsCorrect, Lsh, Mag, Number.Encoded, LeastAtZero;
    if F.Abs(v) != 0 || ulpValue < LeastAtZero(lim) {
      forall n: Number | n.Lim() == lim && n.Encoded()
        ensures Matches(n, v, ulpValue, ToNearest) <==> IsCorrect(n, v)
      {
        AcceptedIffCorrect(n, v, ulpValue);
      }
    } else {
      LeastAccepted(lim, v, ulpValue);
    }
  }

  lemma AcceptedIffCorrect(n: Number, v: U32, ulpValue: real)
    requires 0.0 <= ulpValue < 0.5 && n.Encoded() && n.Lim().OfFormat()
    requires F.Abs(v) != 0 || ulpValue < LeastAtZero(n.Lim())
    ensures Matches(n, v, ulpValue, ToNearest) <==> IsCorrect(n, v)
  {
    hide Lsh, Mag, IsNearest, Ulps, Equal, Converted, Number.Encoded, Number.IsNaN, LeastAtZero;
    EqualIffNearest(n, v);
    if Ulps(n, v, ToNearest).AtMost(ulpValue) {
      MeasuredNumbers(n, v, ToNearest);
      if F.Abs(v) != 0 { CloseIsNearest(n, v, ToNearest); } else { OnlyZeroBelow(n, v, ulpValue); }
    }
  }

  /** The point a number is measured at. */
  function PointOf(n: Number): int
    requires n.Lim().OfFormat()
  {
    F.Signed(n.Negative(), n.Lim().Point(n.Code()))
  }

  /** fabs(reference - result) in type float */
  function Difference(n: Number, v: U32, current: Mode): nat
    requires n.Lim().OfFormat()
  {
    AbsoluteDifference(current, F.Value(v), PointOf(n))
  }

  /** Only numbers have a finite distance from anything, and only from finite references. */
  lemma MeasuredNumbers(n: Number, v: U32, current: Mode)
    requires n.Encoded() && Ulps(n, v, current).Finite?
    ensures !n.IsNaN() && F.IsFinite(v)
  {
    hide Lsh, Mag, AbsoluteDifference, Exp2, UlpShift, Number.Encoded, Number.IsNaN, Number.ToFloat, Number.Lim, Number.Code, Number.Negative;
    Exp2Bound(current, n.Lim().maxExponent);
    AsFloat(n);
  }

  lemma UlpsAre(n: Number, v: U32, current: Mode)
    requires n.Encoded() && !n.IsNaN() && F.IsFinite(v) && n.Lim().OfFormat()
    requires n.OfHalf? || n.Code() < n.Lim().Top()
    ensures Ulps(n, v, current) == Scaled(current, Difference(n, v, current), UlpShift(n.Lim(), v))
  {
    hide Lsh, Mag, UlpShift, Scaled, F.Rounded;
    if n.OfHalf? {
      HN.NaNTest(n.half);
      HalfUlpsAre(current, n.half, v);
    } else {
      AsFloat(n);
      MagOrder(23, F.Magnitude(n.ToFloat()), F.INFINITY);
      FiniteDistance(n.Lim(), n.ToFloat(), v, current);
    }
  }

  lemma CloseIsNearest(n: Number, v: U32, current: Mode)
    requires n.Encoded() && Ulps(n, v, current).Below(0.5) && F.Abs(v) != 0
    ensures IsNearest(n, v)
  {
    hide Lsh, Mag, UlpShift, Scaled, F.Rounded, Ulps, IsNearestEven, Number.Encoded, Number.IsNaN;
    MeasuredNumbers(n, v, current);
    AsFloat(n);
    if n.OfHalf? || n.Code() < n.Lim().Top() {
      UlpsAre(n, v, current);
      ScaledCompares(current, Difference(n, v, current), UlpShift(n.Lim(), v));
      StrictlyWithinHalf(n.Lim(), n.Lim().Top(), v, n.Negative(), n.Code(), current);
    } else {
      InfinityIsNearest(n, v, current);
    }
  }

  /** An infinite bfloat16 or tf32 result is that close only where it is correct. */
  lemma InfinityIsNearest(n: Number, v: U32, current: Mode)
    requires n.Encoded() && !n.OfHalf? && n.Code() == n.Lim().Top() && F.IsFinite(v)
    requires Ulps(n, v, current).Below(0.5)
    ensures IsNearest(n, v)
  {
    hide Lsh, Mag, IsNearestEven, Distance;
    var lim := n.Lim();
    AsFloat(n);
    TopTable(lim);
    InfiniteResult(lim, n.ToFloat(), v, current);
    ConvertedIsNearest(lim, v);
    if lim == BFLOAT16 { Bfloat16Overflow(F.Magnitude(v)); } else { TfloatOverflow(F.Magnitude(v)); }
  }

  /** A number of the format, measured by the comparator at strictly less than half a
      unit, is the correctly rounded reference: the subtraction may round, but not
      across half a unit. */
  lemma StrictlyWithinHalf(lim: Limits, top: nat, v: U32, negative: bool, c: nat, current: Mode)
    requires lim.OfFormat() && F.IsFinite(v) && F.Abs(v) > 0 && c <= top
    requires 2 * Mag(23, AbsoluteDifference(current, F.Value(v), F.Signed(negative, lim.Point(c)))) < Unit(lim, v)
    ensures IsNearestEven(lim.P(), top, lim.J(), F.Abs(v), c) && (c == 0 || negative == F.Negative(v))
  {
    hide Lsh, Rsh, Low, Mag, UlpShift, F.Rounded, IsNearestEven;
    var target := F.Signed(negative, lim.Point(c));
    UnitBounds(lim, v);
    HalfUnitKept(current, F.Value(v) < target, Gap(F.Value(v), target), UlpShift(lim, v));
    Positive(UlpShift(lim, v));
    PointOrder(lim, 0, c);
    PointOrder(lim, 1, c);
    PointZero(lim);
    WithinHalfIsClosest(lim, top, v, c);
  }

  // ---------------------------------------------- every distance and tolerance

  /** The point a number is measured at, infinities of bfloat16 and tf32 included: with
      2^128 out of reach, the largest float, 2^128 - 2^104. */
  function MeasuredPoint(n: Number): int
    requires n.Lim().OfFormat()
  {
    if !n.OfHalf? && n.Code() == n.Lim().Top() then F.Signed(n.Negative(), Pow2(277) - Pow2(253)) else PointOf(n)
  }

  /** Whether a number has a finite point under the rounding direction. */
  predicate HasPoint(n: Number, current: Mode)
    requires n.Lim().OfFormat()
  {
    n.OfHalf? || n.Code() < n.Lim().Top() || current == Downward || current == TowardZero
  }

  /** The distance of a number from a finite reference, in full: the error, rounded to a
      float in the current direction, in units; and what overflow makes of it. */
  lemma UlpsValue(n: Number, v: U32, current: Mode) returns (r: nat)
    requires n.Encoded() && !n.IsNaN() && n.Lim().OfFormat() && F.IsFinite(v) && HasPoint(n, current)
    ensures F.IsFloatRounding(current, F.Value(v) < MeasuredPoint(n), Gap(F.Value(v), MeasuredPoint(n)), r)
    ensures r <= F.INFINITY && Unit(n.Lim(), v) > 0 && Pow2(149) > 0
    ensures Ulps(n, v, current) ==
      if r == F.INFINITY then Infinite
      else if Mag(23, r) < Pow2(128) * Unit(n.Lim(), v) then Finite(Mag(23, r) as real / Unit(n.Lim(), v) as real)
      else if current == ToNearest || current == Upward then Infinite
      else Finite((Pow2(277) - Pow2(253)) as real / Pow2(149) as real)
  {
    hide Lsh, Mag, UlpShift, F.Rounded, Ulps, F.IsFloatRounding, Number.Encoded, Number.IsNaN, PointOf;
    var target := MeasuredPoint(n);
    r := AbsoluteDifference(current, F.Value(v), target);
    F.RoundedIsCorrect(current, F.Value(v) < target, Gap(F.Value(v), target));
    F.RoundedBound(current, F.Value(v) < target, Gap(F.Value(v), target));
    ScaledValue(current, r, UlpShift(n.Lim(), v));
    LargestFloat();
    if n.OfHalf? || n.Code() < n.Lim().Top() {
      UlpsAre(n, v, current);
    } else {
      AsFloat(n);
      UlpsOfInfinity(n, v, current);
    }
  }

  lemma ScaledValue(current: Mode, r: nat, s: nat)
    requires r <= F.INFINITY
    ensures Pow2(s) > 0 && Pow2(149) > 0
    ensures Scaled(current, r, s) ==
      if r == F.INFINITY then Infinite
      else if Mag(23, r) < Pow2(128) * Pow2(s) then Finite(Mag(23, r) as real / Pow2(s) as real)
      else if current == ToNearest || current == Upward then Infinite
      else Finite((Pow2(277) - Pow2(253)) as real / Pow2(149) as real)
  {
    hide Lsh, Mag;
    Positive(s);
    LargestFloat();
    LshLsh(1, 128, s);
    LshIsProduct(Pow2(128), s);
  }

  lemma UlpsOfInfinity(n: Number, v: U32, current: Mode)
    requires n.Encoded() && n.Lim().OfFormat() && !n.OfHalf? && n.Code() == n.Lim().Top() && F.IsFinite(v)
    requires current == Downward || current == TowardZero
    ensures Ulps(n, v, current)
         == Scaled(current, AbsoluteDifference(current, F.Value(v), MeasuredPoint(n)), UlpShift(n.Lim(), v))
  {
    hide Lsh, Mag, UlpShift, Scaled, Exp2, AbsoluteDifference, Number.Encoded, Number.Code, Number.Negative, Number.ToFloat;
    AsFloat(n);
    Exp2Values(current);
    LargestFloat();
  }

  /** NaNs and infinities: no number for a NaN, and infinitely far otherwise, except that
      infinities of one sign have no difference. */
  lemma UlpsOfSpecials(n: Number, v: U32, current: Mode)
    requires n.Encoded() && n.Lim().OfFormat()
    ensures n.IsNaN() || F.IsNaN(v) ==> Ulps(n, v, current) == NotANumber
    ensures !n.IsNaN() && F.Magnitude(v) == F.INFINITY ==>
      Ulps(n, v, current)
      == if HasPoint(n, current) || n.Negative() != F.Negative(v) then Infinite else NotANumber
    ensures !n.IsNaN() && F.IsFinite(v) && !HasPoint(n, current) ==> Ulps(n, v, current) == Infinite
  {
    hide Lsh, Mag, UlpShift, Exp2, AbsoluteDifference, Number.Encoded, Number.Code, Number.Negative, Number.ToFloat, Number.IsNaN;
    AsFloat(n);
    Exp2Values(current);
  }

  /** Without rounding or overflow the distance is the quotient of the error and the unit. */
  lemma UlpsExact(n: Number, v: U32, current: Mode)
    requires n.Encoded() && !n.IsNaN() && n.Lim().OfFormat() && F.IsFinite(v) && HasPoint(n, current)
    requires Representable(Gap(F.Value(v), MeasuredPoint(n)))
    requires Gap(F.Value(v), MeasuredPoint(n)) < Pow2(128) * Unit(n.Lim(), v)
    ensures Unit(n.Lim(), v) > 0
    ensures Ulps(n, v, current) == Finite(Gap(F.Value(v), MeasuredPoint(n)) as real / Unit(n.Lim(), v) as real)
  {
    hide Lsh, Mag, UlpShift, F.Rounded, Ulps, F.IsFloatRounding, Number.Encoded, Number.IsNaN, MeasuredPoint;
    var negative, error := F.Value(v) < MeasuredPoint(n), Gap(F.Value(v), MeasuredPoint(n));
    var r := UlpsValue(n, v, current);
    RepresentableIsKept(current, negative, error);
    F.RoundedIsCorrect(current, negative, error);
    F.FloatRoundingUnique(current, negative, error, r, F.Rounded(current, negative, error));
  }

  /** With rounding it is off by a factor of at most 1 +- 2^-23. */
  lemma UlpsWithin(n: Number, v: U32, current: Mode) returns (a: nat)
    requires n.Encoded() && !n.IsNaN() && n.Lim().OfFormat() && F.IsFinite(v) && HasPoint(n, current)
    requires Gap(F.Value(v), MeasuredPoint(n)) <= Pow2(277) - Pow2(253)
    requires 2 * Gap(F.Value(v), MeasuredPoint(n)) < Pow2(128) * Unit(n.Lim(), v)
    ensures Unit(n.Lim(), v) > 0 && Ulps(n, v, current) == Finite(a as real / Unit(n.Lim(), v) as real)
    ensures 0x80_0000 * Gap(a, Gap(F.Value(v), MeasuredPoint(n))) <= Gap(F.Value(v), MeasuredPoint(n))
  {
    hide Lsh, Mag, UlpShift, F.Rounded, Ulps, F.IsFloatRounding, Number.Encoded, Number.IsNaN, MeasuredPoint, Unit;
    var negative, error := F.Value(v) < MeasuredPoint(n), Gap(F.Value(v), MeasuredPoint(n));
    var r := UlpsValue(n, v, current);
    F.RoundedIsCorrect(current, negative, error);
    F.FloatRoundingUnique(current, negative, error, r, F.Rounded(current, negative, error));
    LargestFloat();
    F.RoundingError(current, negative, error);
    a := Mag(23, r);
  }

  /** A number within a factor of two of the reference, and of its sign, is measured
      without rounding. */
  lemma NearIsExact(n: Number, v: U32)
    requires n.Encoded() && !n.IsNaN() && n.Lim().OfFormat() && F.IsFinite(v)
    requires n.Negative() == F.Negative(v)
    requires var p := Gap(0, MeasuredPoint(n)); p <= 2 * F.Abs(v) && F.Abs(v) <= 2 * p
    ensures Representable(Gap(F.Value(v), MeasuredPoint(n)))
  {
    hide Lsh, Mag, Number.Encoded, Number.IsNaN, Number.Negative, Representable;
    var m := PatternOfPoint(n);
    if F.Magnitude(v) >= m { MagOrder(23, m, F.Magnitude(v)); Sterbenz(F.Magnitude(v), m); }
    else { MagOrder(23, F.Magnitude(v), m); Sterbenz(m, F.Magnitude(v)); }
  }

  lemma PatternOfPoint(n: Number) returns (m: nat)
    requires n.Encoded() && !n.IsNaN() && n.Lim().OfFormat()
    ensures m < F.INFINITY && MeasuredPoint(n) == F.Signed(n.Negative(), Mag(23, m))
  {
    hide Lsh, Mag, Number.Encoded, Number.IsNaN, Number.Negative, Number.Code, Number.ToFloat;
    AsFloat(n);
    if n.Code() < n.Lim().Top() {
      m := F.Magnitude(n.ToFloat());
    } else if n.OfHalf? {
      m := 143 * 0x80_0000;
      OverflowValue(HALF);
      HR.OverflowValue();
    } else {
      m := F.INFINITY - 1;
      LargestFloat();
    }
  }

  /** The difference of floats within a factor of two is a float. */
  lemma Sterbenz(a: nat, b: nat)
    requires b <= a < F.INFINITY && Mag(23, b) <= Mag(23, a) <= 2 * Mag(23, b)
    ensures Representable(Mag(23, a) - Mag(23, b))
  {
    hide Lsh, Rsh, Low, Mag, Representable;
    var s, t := Steps(Rsh(b, 23)), Steps(Rsh(a, 23));
    RshMonotone(b, a, 23);
    var g := Scale(a);
    var h := Scale(b);
    LshLsh(g, t - s, s);
    var wide := Lsh(g, t - s);
    LshOrder(h, wide, s);
    LshOrder(wide, h, s);
    LshAdd(h, wide - h, s);
    LshOrder(h, wide - h, s);
    Split(b, 23);
    Pow2Table();
    LshTable(Rsh(b, 23));
    ShortIsRepresentable(wide - h, s);
  }

  lemma Scale(m: nat) returns (g: nat)
    ensures Mag(23, m) == Lsh(g, Steps(Rsh(m, 23))) && g < 0x100_0000
  {
    hide Lsh, Rsh, Low;
    Pow2Table();
    Split(m, 23);
    g := if Rsh(m, 23) == 0 then Low(m, 23) else 0x80_0000 + Low(m, 23);
    LshIdentity(g);
  }

  /** What the comparator accepts at any tolerance, for a number whose error is a float: the
      converted reference, and whatever lies within that many units. */
  lemma MatchesIff(n: Number, v: U32, ulpValue: real, mode: Mode)
    requires n.Encoded() && !n.IsNaN() && n.Lim().OfFormat() && F.IsFinite(v) && HasPoint(n, mode)
    requires Representable(Gap(F.Value(v), MeasuredPoint(n)))
    requires Gap(F.Value(v), MeasuredPoint(n)) < Pow2(128) * Unit(n.Lim(), v)
    ensures Matches(n, v, ulpValue, mode) <==>
      Equal(n, Converted(n.Lim(), mode, v))
      || Gap(F.Value(v), MeasuredPoint(n)) as real <= ulpValue * Unit(n.Lim(), v) as real
  {
    hide Lsh, Mag, UlpShift, F.Rounded, Ulps, Unit, Number.Encoded, Number.IsNaN, MeasuredPoint, Representable, Equal, Converted;
    UlpsExact(n, v, mode);
    RealRatio(Gap(F.Value(v), MeasuredPoint(n)) as real, Unit(n.Lim(), v) as real, ulpValue);
  }

  /** Where there is nothing to measure, in any mode and at any tolerance: NaN matches NaN
      only, an infinite reference only the infinity of its sign, and an infinite bfloat16
      or tf32 result only a reference that is converted to it. */
  lemma MatchesSpecials(n: Number, v: U32, ulpValue: real, mode: Mode)
    requires n.Encoded() && n.Lim().OfFormat()
    ensures n.IsNaN() || F.IsNaN(v) ==> (Matches(n, v, ulpValue, mode) <==> n.IsNaN() && F.IsNaN(v))
    ensures !n.IsNaN() && F.Magnitude(v) == F.INFINITY ==>
      (Matches(n, v, ulpValue, mode) <==> n.Code() == n.Lim().Top() && n.Negative() == F.Negative(v))
    ensures !n.IsNaN() && F.IsFinite(v) && !HasPoint(n, mode) ==>
      (Matches(n, v, ulpValue, mode) <==> Equal(n, Converted(n.Lim(), mode, v)))
  {
    hide Lsh, Mag, Ulps, Number.Encoded, Number.IsNaN, Number.Code, Number.Negative, Equal, Converted;
    UlpsOfSpecials(n, v, mode);
    ConvertedSpecials(n.Lim(), v, mode);
    AsFloat(n);
    TopTable(n.Lim());
    EqualCodes(n, Converted(n.Lim(), mode, v));
  }

  lemma ConvertedSpecials(lim: Limits, v: U32, mode: Mode)
    requires lim.OfFormat()
    ensures var r := Converted(lim, mode, v);
      && r.Encoded() && (r.IsNaN() <==> F.IsNaN(v))
      && (F.Magnitude(v) == F.INFINITY ==> r.Code() == lim.Top() && r.Negative() == F.Negative(v))
  {
    hide Lsh, Mag, And, RoundOff, Low, Rsh;
    TopTable(lim);
    if lim == HALF {
      H.HalfMagnitudeBounds(mode, F.Negative(v), F.Magnitude(v));
      HN.NaNTest(HR.Convert(mode, v));
    } else {
      ConvertedIsNearest(lim, v);
      AsFloat(Converted(lim, mode, v));
      if F.Magnitude(v) == F.INFINITY { InfinityConverts(lim, v); }
    }
  }

  lemma InfinityConverts(lim: Limits, v: U32)
    requires (lim == BFLOAT16 || lim == TFLOAT) && F.Magnitude(v) == F.INFINITY
    ensures Converted(lim, ToNearest, v).Code() == lim.Top()
  {
    hide Lsh, Low, Rsh, RoundOff;
    TopTable(lim);
    Pow2Table();
    if lim == BFLOAT16 {
      LshTable(B.INFINITY);
      SplitUnique(F.INFINITY, 16, B.INFINITY, 0);
    } else {
      LshTable(0x3_fc00);
      SplitUnique(F.INFINITY, 13, 0x3_fc00, 0);
    }
  }

  /** And for any number, with what rounding the subtraction leaves open. */
  lemma MatchesWithin(n: Number, v: U32, ulpValue: real, mode: Mode)
    requires n.Encoded() && !n.IsNaN() && n.Lim().OfFormat() && F.IsFinite(v) && HasPoint(n, mode)
    requires Gap(F.Value(v), MeasuredPoint(n)) <= Pow2(277) - Pow2(253)
    requires 2 * Gap(F.Value(v), MeasuredPoint(n)) < Pow2(128) * Unit(n.Lim(), v)
    ensures var error, limit := Gap(F.Value(v), MeasuredPoint(n)) as real, ulpValue * Unit(n.Lim(), v) as real;
      && (8388609.0 * error <= 8388608.0 * limit ==> Matches(n, v, ulpValue, mode))
      && (Matches(n, v, ulpValue, mode) ==>
            Equal(n, Converted(n.Lim(), mode, v)) || 8388607.0 * error <= 8388608.0 * limit)
  {
    hide Lsh, Mag, UlpShift, F.Rounded, Ulps, Unit, Number.Encoded, Number.IsNaN, MeasuredPoint, Equal, Converted;
    var a := UlpsWithin(n, v, mode);
    NearlyEqual(a, Gap(F.Value(v), MeasuredPoint(n)), Unit(n.Lim(), v), ulpValue);
  }

  lemma NearlyEqual(a: nat, error: nat, unit: nat, t: real)
    requires unit > 0 && 0x80_0000 * Gap(a, error) <= error
    ensures 8388609.0 * error as real <= 8388608.0 * (t * unit as real) ==> a as real / unit as real <= t
    ensures a as real / unit as real <= t ==> 8388607.0 * error as real <= 8388608.0 * (t * unit as real)
  {
    RealRatio(a as real, unit as real, t);
    assert 0x80_0000 * a <= 0x80_0001 * error && 0x7f_ffff * error <= 0x80_0000 * a;
    assert 8388608.0 * a as real <= 8388609.0 * error as real && 8388607.0 * error as real <= 8388608.0 * a as real;
  }

  // ---------------------------------------------------------------- at zero

  /** At zero only the zeros are closer than the smallest number. */
  lemma OnlyZeroBelow(n: Number, v: U32, ulpValue: real)
    requires F.Abs(v) == 0 && n.Encoded() && n.Lim().OfFormat() && ulpValue < LeastAtZero(n.Lim())
    requires Ulps(n, v, ToNearest).AtMost(ulpValue)
    ensures IsNearest(n, v)
  {
    hide Lsh, Mag, Ulps, LeastAtZero, Number.Encoded, Number.IsNaN;
    var lim := n.Lim();
    MeasuredNumbers(n, v, ToNearest);
    AsFloat(n);
    if n.Code() > 0 {
      if n.OfHalf? || n.Code() < lim.Top() { NonzeroIsFar(n, v, ulpValue); } else { InfiniteIsFar(n, v); }
    }
    PointZero(lim);
    NearestOfExact(lim.P(), lim.Top(), lim.J(), 0);
  }

  lemma NonzeroIsFar(n: Number, v: U32, ulpValue: real)
    requires F.Abs(v) == 0 && F.IsFinite(v) && n.Encoded() && !n.IsNaN() && n.Lim().OfFormat() && n.Code() > 0
    requires n.OfHalf? || n.Code() < n.Lim().Top()
    requires ulpValue < LeastAtZero(n.Lim())
    ensures !Ulps(n, v, ToNearest).AtMost(ulpValue)
  {
    hide Lsh, Mag, Scaled, Ulps, F.Rounded, UlpShift, LeastAtZero, Number.Encoded, Number.IsNaN, Number.Code, Number.Negative;
    var lim, c := n.Lim(), n.Code();
    PointZero(lim);
    PointOrder(lim, 1, c);
    UlpsAre(n, v, ToNearest);
    HalfUnitKept(ToNearest, F.Value(v) < PointOf(n), lim.Point(c), lim.J() + 1);
    LshDouble(1, lim.J());
    AtLeastLeast(lim, v, Difference(n, v, ToNearest), ulpValue);
  }

  lemma InfiniteIsFar(n: Number, v: U32)
    requires !n.OfHalf? && n.Encoded() && n.Code() == n.Lim().Top() && F.IsFinite(v)
    ensures Ulps(n, v, ToNearest) == Infinite
  {
    hide Lsh, Mag, Distance;
    AsFloat(n);
    InfiniteResult(n.Lim(), n.ToFloat(), v, ToNearest);
  }

  lemma AtLeastLeast(lim: Limits, v: U32, d: nat, ulpValue: real)
    requires lim.OfFormat() && F.Abs(v) == 0
    requires Mag(23, d) >= Pow2(lim.J()) && ulpValue < LeastAtZero(lim)
    ensures !Scaled(ToNearest, d, UlpShift(lim, v)).AtMost(ulpValue)
  {
    hide Lsh, Mag;
    LeastRatio(lim, Mag(23, d));
  }

  lemma LeastRatio(lim: Limits, x: nat)
    requires lim.OfFormat()
    ensures Pow2(149 - lim.digits) > 0
    ensures x >= Pow2(lim.J()) ==> x as real / Pow2(149 - lim.digits) as real >= LeastAtZero(lim)
    ensures x == Pow2(lim.J()) ==> x as real / Pow2(149 - lim.digits) as real == LeastAtZero(lim)
  {
    hide Lsh;
    var a, b, e := Pow2(lim.J()), Pow2(149 - lim.digits), Pow2(-lim.minExponent);
    Positive(149 - lim.digits);
    Positive(-lim.minExponent);
    LshLsh(1, lim.J(), -lim.minExponent);
    LshIsProduct(a, -lim.minExponent);
    RatioIsInverse(x, a, b, e);
  }

  lemma RatioIsInverse(x: nat, a: nat, b: nat, e: nat)
    requires e > 0 && b == a * e > 0
    ensures x as real / b as real < 1.0 / e as real <==> x < a
    ensures x as real / b as real == 1.0 / e as real <==> x == a
  {
    var r := 1.0 / e as real;
    assert r * e as real == 1.0;
    assert b as real == a as real * e as real;
    assert r * (a as real * e as real) == a as real * (r * e as real);
    RealRatio(x as real, b as real, r);
  }

  lemma ZeroIsFinite(v: U32)
    requires F.Abs(v) == 0
    ensures F.IsFinite(v) && F.Magnitude(v) == 0
  {
    hide Lsh, Rsh, Low, Mag;
    LshZero(23);
    MagSmall(23, 0);
    MagOrder(23, 0, F.Magnitude(v));
  }

  /** The smallest number of the format, measured against zero. */
  lemma LeastUlps(lim: Limits, v: U32, current: Mode)
    requires lim.OfFormat() && F.Abs(v) == 0 && lim.Top() > 1
    ensures var n := FromCode(lim, false, 1);
      && Ulps(n, v, current) == Finite(LeastAtZero(lim)) && LeastAtZero(lim) < 0.5
      && n.Lim() == lim && n.Encoded() && !n.IsNaN() && !IsNearest(n, v)
  {
    hide Lsh, Rsh, Low, Mag, Scaled, F.Rounded, UlpShift, Ulps, LeastAtZero, Number.Encoded, Number.IsNaN;
    var n := FromCode(lim, false, 1);
    FromCodeHas(lim, false, 1);
    ZeroIsFinite(v);
    AsFloat(n);
    PointZero(lim);
    PowerIsRepresentable(lim.J());
    RepresentableIsKept(current, F.Value(v) < PointOf(n), Pow2(lim.J()));
    UlpsAre(n, v, current);
    LeastScaled(lim, v, Difference(n, v, current), current);
    Positive(lim.J());
    assert Gap(0, lim.Point(0)) < Gap(0, lim.Point(1));
  }

  lemma LeastScaled(lim: Limits, v: U32, d: nat, current: Mode)
    requires lim.OfFormat() && F.Abs(v) == 0 && Mag(23, d) == Pow2(lim.J()) && d < F.INFINITY
    ensures Scaled(current, d, UlpShift(lim, v)) == Finite(LeastAtZero(lim)) && LeastAtZero(lim) < 0.5
  {
    hide Lsh, Mag;
    LeastRatio(lim, Mag(23, d));
    Pow2Grows(lim.J(), 277 - lim.digits);
    Positive(-lim.minExponent);
    Pow2Table();
    Pow2Grows(1, -lim.minExponent);
    RatioCompares(1, Pow2(-lim.minExponent));
  }

  lemma LeastIsClose(lim: Limits, v: U32, current: Mode)
    requires lim.OfFormat() && F.Abs(v) == 0
    ensures exists n: Number | n.Lim() == lim && n.Encoded() && !n.IsNaN() ::
      Ulps(n, v, current).Below(0.5) && !IsNearest(n, v)
  {
    hide Lsh, Mag, Ulps, IsNearest, LeastAtZero, Number.Encoded, Number.IsNaN;
    TopTable(lim);
    LeastUlps(lim, v, current);
  }

  /** The smallest number is accepted in place of zero once the tolerance reaches it. */
  lemma LeastAccepted(lim: Limits, v: U32, ulpValue: real)
    requires lim.OfFormat() && F.Abs(v) == 0 && ulpValue >= LeastAtZero(lim)
    ensures exists n: Number | n.Lim() == lim && n.Encoded() ::
      Matches(n, v, ulpValue, ToNearest) && !IsCorrect(n, v)
  {
    hide Lsh, Mag, Ulps, IsNearest, LeastAtZero, Number.Encoded, Number.IsNaN, Equal, Converted;
    TopTable(lim);
    ZeroIsFinite(v);
    LeastUlps(lim, v, ToNearest);
    var n := FromCode(lim, false, 1);
    assert Matches(n, v, ulpValue, ToNearest) && !IsCorrect(n, v);
  }

  /** An instance at half a unit: the half 2^-12 is accepted where zero is expected. */
  lemma AcceptedForZero()
    ensures UlpShift(HALF, 0) == 149 - 11
    ensures var n := OfHalf(H.Half(0x0c00)); Matches(n, 0, 0.5, ToNearest) && !IsCorrect(n, 0)
  {
    hide Lsh, Rsh, Low, Mag, And, Scaled, F.Rounded, Equal, Converted, Number.IsNaN, Number.Encoded;
    var n := OfHalf(H.Half(0x0c00));
    ZeroPattern();
    TopTable(HALF);
    EncodedHalf(n.half);
    AsFloat(n);
    PointOfQuarter();
    PointZero(HALF);
    PowerIsRepresentable(137);
    RepresentableIsKept(ToNearest, F.Value(0) < PointOf(n), Pow2(137));
    UlpsAre(n, 0, ToNearest);
    LshDouble(1, 137);
    hide UlpShift, Ulps;
    ScaledCompares(ToNearest, Difference(n, 0, ToNearest), UlpShift(HALF, 0));
    Positive(137);
    assert Gap(0, HALF.Point(0)) < Gap(0, HALF.Point(0x0c00));
  }

  lemma EncodedHalf(h: H.Half)
    ensures OfHalf(h).Encoded()
  {
  }

  lemma PointOfQuarter()
    ensures HALF.Point(0x0c00) == Pow2(137)
  {
    hide Lsh, Rsh, Low, Mag;
    Pow2Table();
    LshTable(3);
    SplitUnique(0x0c00, 10, 3, 0);
    MagOfFields(10, 0x0c00);
    LshLsh(1, 10, 2);
    LshLsh(1, 12, 125);
  }

  lemma MagOfFields(p: nat, m: nat)
    requires Low(m, p) == 0 && Rsh(m, p) > 0
    ensures Mag(p, m) == Lsh(Pow2(p), Rsh(m, p) - 1)
  {
  }

  lemma ZeroPattern()
    ensures F.Abs(0) == 0 && F.Value(0) == 0
  {
    hide Lsh, Rsh, Low, Mag;
    LshZero(23);
    MagSmall(23, 0);
  }

  // ------------------------------------------------------------ scalbn is exact

  /** A result of the format never scales down to where floats lose bits: the distance is
      zero or at least 2^-126 units. */
  lemma ScalingIsExact(lim: Limits, target: U32, v: U32, current: Mode)
    requires lim.OfFormat() && F.IsFinite(v) && F.IsFinite(target)
    requires F.Abs(target) == 0 || F.Abs(target) >= Pow2(lim.J())
    ensures var d := Mag(23, AbsoluteDifference(current, F.Value(v), F.Value(target)));
      d == 0 || Lsh(d, 126) >= Unit(lim, v)
  {
    hide Lsh, Rsh, Low, Mag, FloorLog2, F.Rounded, UlpShift;
    var error, negative := Gap(F.Value(v), F.Value(target)), F.Value(v) < F.Value(target);
    if error == 0 {
      MagSmall(23, 0);
      LshZero(23);
      F.RoundedExact(current, negative, 0);
    } else {
      var k := LeastError(lim, target, v);
      var d := Mag(23, F.Rounded(current, negative, error));
      LshDouble(1, k);
      HalfUnitKept(current, negative, error, k + 1);
      LshOrder(d, Pow2(k), 126);
      LshLsh(1, k, 126);
      Pow2GrowsTo(UlpShift(lim, v), k + 126);
    }
  }

  /** Different floats differ by 2^-24 of the larger, or more. */
  lemma LeastError(lim: Limits, target: U32, v: U32) returns (k: nat)
    requires lim.OfFormat() && F.IsFinite(v) && F.IsFinite(target) && F.Value(v) != F.Value(target)
    requires F.Abs(target) == 0 || F.Abs(target) >= Pow2(lim.J())
    ensures Gap(F.Value(v), F.Value(target)) >= Pow2(k) && UlpShift(lim, v) - 126 <= k <= 276
  {
    hide Lsh, Rsh, Low, Mag, FloorLog2;
    if F.Abs(v) == 0 {
      k := lim.J();
    } else if UlpShift(lim, v) <= 126 {
      k := 0;
      LshIdentity(1);
    } else {
      var l := FloorLog2(F.Abs(v));
      FiniteBelow(v);
      FloorLog2Bounds(F.Abs(v));
      FloorLog2Less(F.Abs(v), 277);
      k := l - 24;
      Pow2Grows(k, l);
      if F.Negative(v) == F.Negative(target) { FloatsApart(F.Magnitude(v), F.Magnitude(target), l); }
    }
  }

  lemma FloatsApart(a: nat, b: nat, l: nat)
    requires a != b && l >= 24 && Mag(23, a) >= Pow2(l)
    ensures Gap(Mag(23, a), Mag(23, b)) >= Pow2(l - 24)
  {
    hide Lsh, Rsh, Low, Mag;
    var top, low := if a < b then b else a, if a < b then a else b;
    var d := Steps(Rsh(top - 1, 23));
    MagNext(23, top - 1);
    MagInBinade(23, top - 1);
    MagOrder(23, a, b);
    MagOrder(23, b, a);
    MagOrder(23, top - 1, low);
    LshLsh(1, 24, d);
    if d < l - 24 { Pow2Grows(d, l - 24); Pow2Grows(24 + d, l); }
    if l > 23 { Pow2Grows(23, l); }
    Pow2GrowsTo(l - 24, if d < l - 24 then l - 24 else d);
  }
}
