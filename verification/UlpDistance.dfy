/** ULP distance between a result in a reduced format and a float reference.

    Values are counted in units of 2^-149.  The subtraction rounds as float does, in
    the current rounding direction; scaling by a power of two is exact unless it
    overflows. */
module UlpDistance {
  import opened Bits
  import opened BinaryFormat
  import F = Float32

  /** std::numeric_limits of the result type. */
  datatype Limits = Limits(digits: nat, minExponent: int, maxExponent: nat) {
    /** Fraction bits. */
    function P(): int { digits - 1 }
    /** log2 of the smallest subnormal, counted from 2^-149. */
    function J(): int { minExponent - digits + 149 }
    predicate Valid() { digits > 0 && J() >= 0 }
    /** The pattern of infinity. */
    function Top(): nat
      requires OfFormat()
    {
      Lsh(maxExponent - minExponent + 2, P())
    }

    predicate OfFormat() { this == HALF || this == BFLOAT16 || this == TFLOAT }

    /** The value of magnitude pattern `q`, the format being continued past infinity. */
    function Point(q: nat): nat
      requires Valid()
    {
      Lsh(Mag(P(), q), J())
    }

    /** The distance from there to the next one. */
    function Spacing(q: nat): int
      requires Valid()
    {
      Point(q + 1) - Point(q)
    }
  }

  const HALF := Limits(11, -13, 16)
  const BFLOAT16 := Limits(8, -125, 128)
  const TFLOAT := Limits(11, -125, 128)

  /** What the computation in type float can yield. */
  datatype Ulps = Finite(distance: real) | Infinite | NotANumber {
    predicate AtMost(bound: real) { Finite? && distance <= bound }
    predicate Below(bound: real) { Finite? && distance < bound }
  }

  /** std::frexp of a finite float: the fraction and the exponent. */
  function Frexp(v: U32): (real, int) {
    var x := F.Abs(v);
    if x == 0 then (0.0, 0)
    else
      var l := FloorLog2(x);
      (F.Value(v) as real / Pow2(l + 1) as real, l + 1 - 149)
  }

  /** log2 of the unit in the last place at the reference, counted from 2^-149.  A
      positive power of two is measured with the finer spacing below it. */
  function UlpShift(lim: Limits, v: U32): nat
    requires lim.Valid()
  {
    var x := F.Abs(v);
    var base := lim.P() + lim.J();
    if x == 0 then Max(148, base) - lim.P()
    else
      var l := FloorLog2(x);
      Max(if F.Value(v) == Pow2(l) then l - 1 else l, base) - lim.P()
  }

  function Unit(lim: Limits, v: U32): nat
    requires lim.Valid()
  {
    Pow2(UlpShift(lim, v))
  }

  function Max(a: int, b: int): int { if a >= b then a else b }

  // ------------------------------------------------ the operations of type float

  /** exp2 of a whole number; on overflow what IEEE 754-2019 section 7.4 says: infinity,
      or the largest float when the rounding direction leads there. */
  function Exp2(mode: Mode, n: nat): nat { F.Rounded(mode, false, Pow2(n + 149)) }

  function CopySign(magnitude: nat, sign: U32): U32
    requires magnitude < F.SIGN
  {
    magnitude + if F.Negative(sign) then F.SIGN else 0
  }

  /** fabs(a - b) of two finite floats, given by their values. */
  function AbsoluteDifference(mode: Mode, a: int, b: int): nat { F.Rounded(mode, a < b, Gap(a, b)) }

  const QUIET_NAN: nat := 0x7fc0_0000

  /** fabs(a - b) */
  function FabsDifference(mode: Mode, a: U32, b: U32): nat {
    if F.IsNaN(a) || F.IsNaN(b) || (!F.IsFinite(a) && a == b) then QUIET_NAN
    else if !F.IsFinite(a) || !F.IsFinite(b) then F.INFINITY
    else AbsoluteDifference(mode, F.Value(a), F.Value(b))
  }

  /** scalbn of a positive float, dividing by 2^(s - 149); it overflows as exp2 does. */
  function Scaled(mode: Mode, a: nat, s: nat): Ulps {
    Positive(s);
    Positive(149);
    if a > F.INFINITY then NotANumber
    else if a == F.INFINITY then Infinite
    else if Mag(23, a) < Pow2(128 + s) then Finite(Mag(23, a) as real / Pow2(s) as real)
    else if F.OverflowsToInfinity(mode, false) then Infinite
    else Finite(Mag(23, F.INFINITY - 1) as real / Pow2(149) as real)
  }

  /** The float that stands for a result: itself, and 2^max_exponent for infinity. */
  function Measured(mode: Mode, lim: Limits, result: U32): U32 {
    if F.Magnitude(result) == F.INFINITY then CopySign(Exp2(mode, lim.maxExponent), result) else result
  }

  function Distance(mode: Mode, lim: Limits, result: U32, reference: U32): Ulps
    requires lim.Valid()
  {
    Scaled(mode, FabsDifference(mode, reference, Measured(mode, lim, result)), UlpShift(lim, reference))
  }

  /** calculate_ulp_distance for a floating point result type, under the rounding
      direction `mode`.  For a reference that is infinite or NaN the exponent of frexp is
      unspecified, and has no effect. */
  method CalculateUlpDistance(lim: Limits, result: U32, reference: U32, mode: Mode) returns (ulpDistance: Ulps)
    requires lim.Valid()
    ensures ulpDistance == Distance(mode, lim, result, reference)
  {
    hide Lsh, Mag, FloorLog2, F.Rounded, AbsoluteDifference, FabsDifference, Scaled;
    Exp2Bound(mode, lim.maxExponent);
    var frexp := Frexp(reference);
    var normalizedFraction := frexp.0;
    var referenceExponent := frexp.1 - 1;
    var minExponent := lim.minExponent - 1;
    var mantissaLength := lim.digits;
    var ulpExponent: int;
    if normalizedFraction != 0.5 {
      ulpExponent := Max(referenceExponent, minExponent) - mantissaLength + 1;
    } else {
      ulpExponent := Max(referenceExponent - 1, minExponent) - mantissaLength + 1;
    }
    FractionIsHalf(reference);
    var absoluteDistance := FabsDifference(mode, reference, result);
    if F.Magnitude(result) == F.INFINITY {
      var maxExponent := lim.maxExponent;
      absoluteDistance := FabsDifference(mode, reference, CopySign(Exp2(mode, maxExponent), result));
    }
    assert ulpExponent + 149 == UlpShift(lim, reference);
    ulpDistance := Scaled(mode, absoluteDistance, ulpExponent + 149);
  }

  lemma Exp2Bound(mode: Mode, n: nat)
    ensures Exp2(mode, n) <= F.INFINITY
  {
    hide Lsh;
  }

  /** 2^16 is a float; 2^128 overflows. */
  lemma Exp2Values(mode: Mode)
    ensures Exp2(mode, 16) == 143 * 0x80_0000
    ensures Exp2(mode, 128) == if mode == ToNearest || mode == Upward then F.INFINITY else F.INFINITY - 1
  {
    hide Lsh, Rsh, Low, Mag, RoundOff, FloorLog2;
    Pow2Table();
    F.NormalValue(143 * 0x80_0000, 143, 0);
    LshLsh(1, 23, 142);
    F.RoundedExact(mode, false, 143 * 0x80_0000);
    Pow2Grows(24, 277);
    LshDouble(1, 277);
    Positive(277);
    FloorLog2Unique(Pow2(277), 277);
    F.ExcessIs(Pow2(277), 254);
    LshTable(254);
    LshLsh(1, 23, 254);
    RoundOffExact(mode, false, 0x80_0000, 254);
  }

  /** The fraction is 1/2 exactly for the positive powers of two. */
  lemma FractionIsHalf(v: U32)
    ensures var x := F.Abs(v);
      Frexp(v).0 == 0.5 <==> x > 0 && F.Value(v) == Pow2(FloorLog2(x))
    ensures F.Abs(v) > 0 ==> Frexp(v).1 == FloorLog2(F.Abs(v)) - 148
  {
    hide Lsh, Mag, FloorLog2;
    var x := F.Abs(v);
    if x > 0 {
      var l := FloorLog2(x);
      LshDouble(1, l);
      RatioCompares(F.Value(v), Pow2(l + 1));
    }
  }

  lemma RatioCompares(a: int, b: nat)
    requires b > 0
    ensures a as real / b as real == 0.5 <==> 2 * a == b
    ensures a as real / b as real <= 0.5 <==> 2 * a <= b
    ensures a as real / b as real < 0.5 <==> 2 * a < b
    ensures a as real / b as real < 1.0 <==> a < b
  {
    RealRatio(a as real, b as real, 0.5);
    RealRatio(a as real, b as real, 1.0);
  }

  lemma RealRatio(a: real, b: real, c: real)
    requires b > 0.0
    ensures a / b < c <==> a < c * b
    ensures a / b == c <==> a == c * b
  {
    var q := a / b;
    assert a == q * b;
    assert a - c * b == (q - c) * b;
    SignOfProduct(q - c, b);
  }

  lemma SignOfProduct(d: real, b: real)
    requires b > 0.0
    ensures d < 0.0 <==> d * b < 0.0
    ensures d == 0.0 <==> d * b == 0.0
  {
    if d > 0.0 { assert d * b > 0.0; }
  }

  /** A scaled distance compares with 1/2 and 1 as the float does with the unit. */
  lemma ScaledCompares(mode: Mode, a: nat, s: nat)
    ensures Scaled(mode, a, s).AtMost(0.5) <==> a < F.INFINITY && 2 * Mag(23, a) <= Pow2(s)
    ensures Scaled(mode, a, s).Below(0.5) <==> a < F.INFINITY && 2 * Mag(23, a) < Pow2(s)
    ensures Scaled(mode, a, s).Below(1.0) <==> a < F.INFINITY && Mag(23, a) < Pow2(s)
  {
    hide Lsh, Mag;
    Positive(s);
    Pow2Grows(s, 128 + s);
    RatioCompares(Mag(23, a), Pow2(s));
    LargestFloat();
  }

  lemma LargestFloat()
    ensures Mag(23, F.INFINITY - 1) == Pow2(277) - Pow2(253) > Pow2(149) > 0
    ensures Mag(23, F.INFINITY - 1) as real / Pow2(149) as real > 1.0
  {
    hide Lsh, Rsh, Low, Mag;
    Pow2Table();
    F.NormalValue(F.INFINITY - 1, 254, 0x7f_ffff);
    LshAdd(0xff_ffff, 1, 253);
    LshLsh(1, 24, 253);
    Pow2Grows(253, 277);
    Pow2Grows(149, 253);
    Positive(149);
    RealRatio(Mag(23, F.INFINITY - 1) as real, Pow2(149) as real, 1.0);
  }

  // ----------------------------------------- the unit and the format's spacing

  /** Numbers q and q + 1 are finite and around `x`, or the last two if `x` is larger
      than all finite numbers. */
  predicate Encloses(lim: Limits, x: nat, q: nat)
    requires lim.OfFormat()
  {
    q + 1 < lim.Top() && lim.Point(q) <= x && (x <= lim.Point(q + 1) || q + 2 == lim.Top())
  }

  /** `u` is the distance between two consecutive finite numbers of the format around
      `x`. */
  ghost predicate IsSpacing(lim: Limits, x: nat, u: nat)
    requires lim.OfFormat()
  {
    exists q: nat :: Encloses(lim, x, q) && u == lim.Spacing(q)
  }

  /** The unit in the last place as OpenCL C defines it (section 7.4, Relative Error as
      ULPs): the distance between the two finite numbers around `x`, and otherwise that of
      the two finite numbers nearest to it: the shorter one where `x` is itself a number
      of the format, the last one above all of them. */
  ghost predicate IsUlp(lim: Limits, x: nat, u: nat)
    requires lim.OfFormat()
  {
    IsSpacing(lim, x, u) && forall q: nat | Encloses(lim, x, q) :: u <= lim.Spacing(q)
  }

  /** A power of two above the smallest normal number: there the spacing doubles. */
  predicate PowerAbove(lim: Limits, x: nat) {
    x > 0 && x == Pow2(FloorLog2(x)) && FloorLog2(x) > lim.P() + lim.J()
  }

  predicate NegativePower(lim: Limits, v: U32) { F.Negative(v) && PowerAbove(lim, F.Abs(v)) }

  /** frexp's exponent gives a spacing of the format at a finite reference unless that is
      zero or beyond the overflow value 2^max_exponent, which itself must be positive; and
      the unit in the last place unless the reference is also a negative power of two
      above the smallest normal number.  For bfloat16 and tf32 no float is beyond the
      overflow value, for half it is 2^16. */
  lemma UnitIsUlpIff(lim: Limits, v: U32)
    requires lim.OfFormat() && F.IsFinite(v)
    ensures IsSpacing(lim, F.Abs(v), Unit(lim, v)) <==>
      F.Abs(v) != 0 && (F.Abs(v) < lim.Point(lim.Top()) || F.Value(v) == lim.Point(lim.Top()))
    ensures IsUlp(lim, F.Abs(v), Unit(lim, v)) <==>
      F.Abs(v) != 0 && F.Abs(v) <= lim.Point(lim.Top()) && !NegativePower(lim, v)
  {
    hide Lsh, Rsh, Low, Mag, FloorLog2, PowerAbove, FirstOfBinade;
    var x, top := F.Abs(v), lim.Top();
    TopStep(lim);
    PointZero(lim);
    PointOrder(lim, 0, top);
    if x == 0 {
      UnitAtZero(lim, v);
    } else {
      var q := Locate(lim, v);
      SpacingStep(lim, q);
      PointOrder(lim, q, top);
      PointOrder(lim, top, q + 1);
      if q + 1 < top {
        UnitInside(lim, v, q);
      } else {
        Beyond(lim, x, q);
        if q >= top {
          SpacingMonotone(lim, top, q);
          if q > top { SpacingMonotone(lim, top, q - 1); }
        }
      }
    }
  }

  lemma UnitInside(lim: Limits, v: U32, q: nat)
    requires lim.OfFormat() && F.Abs(v) > 0 && q + 1 < lim.Top()
    requires lim.Point(q) <= F.Abs(v) < lim.Point(q + 1)
    ensures IsSpacing(lim, F.Abs(v), Unit(lim, v))
    ensures IsUlp(lim, F.Abs(v), Unit(lim, v)) <==> !NegativePower(lim, v)
  {
    hide Lsh, Rsh, Low, Mag, FloorLog2;
    var x := F.Abs(v);
    var b := Locate(lim, v);
    PointOrder(lim, b, q + 1);
    PointOrder(lim, q, b + 1);
    assert b == q;
    SpacingStep(lim, q);
    forall c: nat | Encloses(lim, x, c)
      ensures c == q || (q > 0 && c == q - 1 && x == lim.Point(q))
    {
      PointOrder(lim, c + 1, q);
      PointOrder(lim, q + 1, c);
    }
    assert Encloses(lim, x, q);
    if q > 0 && x == lim.Point(q) {
      PointOrder(lim, q - 1, q);
      assert Encloses(lim, x, q - 1);
    }
  }

  /** From the largest finite number on only the last two finite numbers count. */
  lemma Beyond(lim: Limits, x: nat, q: nat)
    requires lim.OfFormat() && lim.Point(q) <= x && lim.Top() <= q + 1
    ensures lim.Top() >= 2 && Encloses(lim, x, lim.Top() - 2)
    ensures forall c: nat | Encloses(lim, x, c) :: c + 2 == lim.Top()
  {
    hide Lsh, Rsh, Low, Mag;
    TopStep(lim);
    PointOrder(lim, lim.Top() - 2, q);
    forall c: nat | Encloses(lim, x, c)
      ensures c + 2 == lim.Top()
    {
      PointOrder(lim, c + 1, q);
    }
  }

  lemma TopTable(lim: Limits)
    requires lim.OfFormat()
    ensures lim.Top() == if lim == HALF then 0x7c00 else if lim == BFLOAT16 then 0x7f80 else 0x3_fc00
  {
    hide Lsh;
    LshTable(lim.maxExponent - lim.minExponent + 2);
  }

  /** The spacing doubles at the overflow value, and not just below it. */
  lemma TopStep(lim: Limits)
    requires lim.OfFormat()
    ensures lim.Top() == if lim == HALF then 0x7c00 else if lim == BFLOAT16 then 0x7f80 else 0x3_fc00
    ensures lim.Spacing(lim.Top()) == 2 * lim.Spacing(lim.Top() - 1) == 2 * lim.Spacing(lim.Top() - 2) > 0
    ensures FirstOfBinade(lim, lim.Top()) && !FirstOfBinade(lim, lim.Top() - 1)
  {
    hide Lsh, Rsh, Low, Mag;
    var p, e := lim.P(), lim.maxExponent - lim.minExponent + 2;
    Pow2Table();
    LshTable(e);
    LshTable(e - 1);
    SplitUnique(lim.Top(), p, e, 0);
    SplitUnique(lim.Top() - 1, p, e - 1, Pow2(p) - 1);
    SpacingStep(lim, lim.Top());
    SpacingStep(lim, lim.Top() - 1);
  }

  lemma SpacingMonotone(lim: Limits, a: nat, b: nat)
    requires lim.Valid() && a <= b
    ensures lim.Spacing(a) <= lim.Spacing(b)
  {
    hide Lsh, Rsh, Low, Mag;
    SpacingIsPower(lim, a);
    SpacingIsPower(lim, b);
    RshMonotone(a, b, lim.P());
    var s, t := lim.J() + Steps(Rsh(a, lim.P())), lim.J() + Steps(Rsh(b, lim.P()));
    if s < t { Pow2Grows(s, t); }
  }

  lemma PointZero(lim: Limits)
    requires lim.OfFormat()
    ensures lim.Point(0) == 0 && lim.Point(1) == Pow2(lim.J())
  {
    hide Lsh, Rsh, Low, Mag;
    LshZero(lim.J());
    Pow2Table();
    MagSmall(lim.P(), 0);
    MagSmall(lim.P(), 1);
  }

  /** At zero the exponent that frexp reports is 0, which gives 2^-digits: far above the
      spacing of the subnormals. */
  lemma UnitAtZero(lim: Limits, v: U32)
    requires lim.OfFormat() && F.Abs(v) == 0
    ensures Unit(lim, v) == Pow2(149 - lim.digits) && lim.Spacing(0) == Pow2(lim.J()) < Unit(lim, v)
    ensures !IsSpacing(lim, 0, Unit(lim, v))
  {
    hide Lsh, Rsh, Low, Mag;
    Pow2Grows(lim.J(), 149 - lim.digits);
    SpacingIsPower(lim, 0);
    LshZero(lim.P());
    forall c: nat | Encloses(lim, 0, c)
      ensures c == 0
    {
      PointOrder(lim, 0, c);
    }
  }

  /** The float after 2^16: its unit is twice the widest spacing of finite halves. */
  lemma UnitAboveRange()
    ensures Unit(HALF, 0x4780_0001) == 2 * HALF.Spacing(HALF.Top() - 2)
    ensures !IsSpacing(HALF, F.Abs(0x4780_0001), Unit(HALF, 0x4780_0001))
  {
    hide Lsh, Rsh, Low, Mag, FloorLog2;
    var v: U32 := 0x4780_0001;
    TopStep(HALF);
    AfterOverflow();
    SpacingIsPower(HALF, HALF.Top());
    LshTable(31);
    SplitUnique(HALF.Top(), 10, 31, 0);
    UnitIsUlpIff(HALF, v);
  }

  lemma AfterOverflow()
    ensures F.Abs(0x4780_0001) == HALF.Point(HALF.Top()) + Pow2(142) && Unit(HALF, 0x4780_0001) == Pow2(155)
    ensures Pow2(142) > 0
  {
    hide Lsh, Rsh, Low, Mag, FloorLog2;
    Pow2Table();
    F.NormalValue(0x4780_0001, 143, 1);
    LshAdd(0x80_0000, 1, 142);
    LshLsh(1, 23, 142);
    LshDouble(1, 165);
    Pow2Grows(142, 165);
    Positive(142);
    FloorLog2Unique(F.Abs(0x4780_0001), 165);
    OverflowValue(HALF);
  }

  /** The number after the largest finite one is 2^max_exponent. */
  lemma OverflowValue(lim: Limits)
    requires lim.OfFormat()
    ensures lim.Point(lim.Top()) == Pow2(lim.maxExponent + 149)
  {
    hide Lsh, Rsh, Low, Mag;
    var p, e := lim.P(), lim.maxExponent - lim.minExponent + 2;
    Positive(p);
    SplitUnique(lim.Top(), p, e, 0);
    MagOfFirst(p, lim.Top(), e);
    LshLsh(1, p, e - 1);
    LshLsh(1, p + e - 1, lim.J());
  }

  /** No float is beyond it for bfloat16 and tf32. */
  lemma FloatsInRange(lim: Limits, v: U32)
    requires lim.OfFormat() && lim != HALF && F.IsFinite(v)
    ensures F.Abs(v) < lim.Point(lim.Top())
  {
    hide Lsh, Mag;
    OverflowValue(lim);
    LargestFloat();
    Positive(253);
    MagOrder(23, F.INFINITY - 1, F.Magnitude(v));
  }

  lemma MagOfFirst(p: nat, m: nat, e: nat)
    requires Low(m, p) == 0 && Rsh(m, p) == e > 0
    ensures Mag(p, m) == Lsh(Pow2(p), e - 1)
  {
  }

  /** At a power of two above the smallest normal number the two spacings differ by a
      factor of two: a positive one is measured with the finer, a negative one with the
      coarser of them. */
  lemma UnitAtPowerOfTwo(lim: Limits, v: U32)
    requires lim.Valid() && PowerAbove(lim, F.Abs(v))
    ensures exists q: nat | q > 0 ::
      && lim.Point(q) == F.Abs(v)
      && lim.Spacing(q) == 2 * lim.Spacing(q - 1)
      && Unit(lim, v) == if F.Negative(v) then lim.Spacing(q) else lim.Spacing(q - 1)
  {
    hide Lsh, Rsh, Low, Mag, FloorLog2;
    var q := Locate(lim, v);
    SpacingStep(lim, q);
  }

  lemma PointOrder(lim: Limits, a: nat, b: nat)
    requires lim.Valid()
    ensures a < b <==> lim.Point(a) < lim.Point(b)
    ensures a == b <==> lim.Point(a) == lim.Point(b)
  {
    hide Lsh, Mag;
    MagOrder(lim.P(), a, b);
    LshOrder(Mag(lim.P(), a), Mag(lim.P(), b), lim.J());
  }

  lemma SpacingIsPower(lim: Limits, q: nat)
    requires lim.Valid()
    ensures lim.Spacing(q) == Pow2(lim.J() + Steps(Rsh(q, lim.P()))) > 0
  {
    hide Lsh, Rsh, Low, Mag;
    var p, j := lim.P(), lim.J();
    var s := Steps(Rsh(q, p));
    MagNext(p, q);
    LshAdd(Mag(p, q), Pow2(s), j);
    LshLsh(1, s, j);
    Positive(j + s);
  }

  /** The first number of a binade whose spacing is wider than the one before. */
  predicate FirstOfBinade(lim: Limits, q: nat)
    requires lim.Valid()
  {
    Rsh(q, lim.P()) >= 2 && Low(q, lim.P()) == 0
  }

  lemma SpacingStep(lim: Limits, q: nat)
    requires lim.Valid()
    ensures q > 0 ==>
      lim.Spacing(q) == if FirstOfBinade(lim, q) then 2 * lim.Spacing(q - 1) else lim.Spacing(q - 1)
    ensures FirstOfBinade(lim, q) ==> q > 0
    ensures lim.Spacing(q) > 0
  {
    hide Lsh, Rsh, Low, Mag;
    var p := lim.P();
    SpacingIsPower(lim, q);
    LshZero(p);
    Positive(p);
    if q > 0 {
      SpacingIsPower(lim, q - 1);
      Split(q, p);
      var e, f := Rsh(q, p), Low(q, p);
      if f > 0 {
        SplitUnique(q - 1, p, e, f - 1);
      } else {
        LshAdd(e - 1, 1, p);
        SplitUnique(q - 1, p, e - 1, Pow2(p) - 1);
        if e >= 2 { LshDouble(1, lim.J() + e - 2); }
      }
    }
  }

  /** The numbers around a nonzero reference, and the unit in terms of their spacing. */
  lemma Locate(lim: Limits, v: U32) returns (q: nat)
    requires lim.Valid() && F.Abs(v) > 0
    ensures lim.Point(q) <= F.Abs(v) < lim.Point(q + 1)
    ensures PowerAbove(lim, F.Abs(v)) <==> FirstOfBinade(lim, q) && F.Abs(v) == lim.Point(q)
    ensures PowerAbove(lim, F.Abs(v)) ==> q > 0
    ensures Unit(lim, v) == if PowerAbove(lim, F.Abs(v)) && !F.Negative(v) then lim.Spacing(q - 1) else lim.Spacing(q)
  {
    hide Lsh, Rsh, Low, Mag, FloorLog2;
    var x := F.Abs(v);
    q := Bracket(lim, x);
    SpacingOfBracket(lim, x, q);
    SpacingIsPower(lim, q);
    SpacingStep(lim, q);
    if PowerAbove(lim, x) {
      SpacingIsPower(lim, q - 1);
      LshDouble(1, FloorLog2(x) - 1 - lim.P());
    }
  }

  lemma Bracket(lim: Limits, x: nat) returns (q: nat)
    requires lim.Valid()
    ensures lim.Point(q) <= x < lim.Point(q + 1)
  {
    hide Lsh, Rsh, Low, Mag;
    LshZero(lim.J());
    MagSmall(lim.P(), 0);
    q := 0;
    while !(x < lim.Point(q + 1))
      invariant lim.Point(q) <= x
      decreases x - lim.Point(q)
    {
      PointOrder(lim, q, q + 1);
      q := q + 1;
    }
  }

  /** Between neighbouring magnitudes the spacing is 2^(l - p) for the exponent l that
      frexp finds, clamped at the subnormals, and a power of two is where a binade
      begins. */
  lemma SpacingOfBracket(lim: Limits, x: nat, q: nat)
    requires lim.Valid() && x > 0 && lim.Point(q) <= x < lim.Point(q + 1)
    ensures var l, p, j := FloorLog2(x), lim.P(), lim.J();
      && Max(l, p + j) - p == j + Steps(Rsh(q, p))
      && (PowerAbove(lim, x) <==> FirstOfBinade(lim, q) && x == lim.Point(q))
  {
    hide Lsh, Rsh, Low, Mag, FloorLog2;
    var p, j := lim.P(), lim.J();
    var e := Rsh(q, p);
    FloorLog2Bounds(x);
    MagInBinade(p, q);
    if e == 0 {
      LshOrder(Mag(p, q + 1), Pow2(p), j);
      LshOrder(Pow2(p), Mag(p, q + 1), j);
      LshLsh(1, p, j);
      FloorLog2Less(x, p + j);
    } else {
      var s := e - 1;
      LshOrder(Lsh(Pow2(p), s), Mag(p, q), j);
      LshOrder(Mag(p, q), Lsh(Pow2(p), s), j);
      LshOrder(Mag(p, q + 1), Lsh(Pow2(p + 1), s), j);
      LshOrder(Lsh(Pow2(p + 1), s), Mag(p, q + 1), j);
      LshLsh(1, p, s);
      LshLsh(1, p + 1, s);
      LshLsh(1, p + s, j);
      LshLsh(1, p + 1 + s, j);
      FloorLog2Unique(x, p + s + j);
    }
  }

  /** The magnitudes of exponent field e lie in one binade, its first one at 2^p. */
  lemma MagInBinade(p: nat, q: nat)
    ensures var e, s := Rsh(q, p), Steps(Rsh(q, p));
      && (e == 0 ==> Mag(p, q) < Mag(p, q + 1) <= Pow2(p))
      && (e > 0 ==> Lsh(Pow2(p), s) <= Mag(p, q) < Mag(p, q + 1) <= Lsh(Pow2(p + 1), s))
      && (e > 0 ==> (Mag(p, q) == Lsh(Pow2(p), s) <==> Low(q, p) == 0))
  {
    hide Lsh, Rsh, Low;
    var e, f := Rsh(q, p), Low(q, p);
    Split(q, p);
    MagNext(p, q);
    LshIdentity(1);
    if e > 0 {
      LshAdd(Pow2(p), f, e - 1);
      LshAdd(Pow2(p) + f, 1, e - 1);
      LshDouble(1, p);
      LshZero(e - 1);
      LshOrder(0, f, e - 1);
      LshOrder(Pow2(p) + f + 1, Pow2(p + 1), e - 1);
      LshOrder(Pow2(p + 1), Pow2(p) + f + 1, e - 1);
    }
  }

  // ------------------------------------------------------------ general bounds

  /** A nearest result lies within half a unit of the reference. */
  lemma NearestWithinHalf(lim: Limits, top: nat, v: U32, r: nat)
    requires lim.Valid() && F.Abs(v) > 0 && F.Abs(v) < lim.Point(top)
    requires IsNearestEven(lim.P(), top, lim.J(), F.Abs(v), r)
    ensures 2 * Gap(F.Abs(v), lim.Point(r)) <= Unit(lim, v)
  {
    hide Lsh, Rsh, Low, Mag, FloorLog2, Unit;
    var x := F.Abs(v);
    var q := Locate(lim, v);
    PointOrder(lim, q, top);
    assert Gap(x, lim.Point(r)) <= Gap(x, lim.Point(q));
    assert Gap(x, lim.Point(r)) <= Gap(x, lim.Point(q + 1));
    SpacingStep(lim, q);
  }

  /** Either neighbour of the reference, itself if it is representable, lies within
      less than one unit. */
  lemma NeighbourWithinOne(lim: Limits, v: U32, q: nat, r: nat)
    requires lim.Valid() && F.Abs(v) > 0
    requires lim.Point(q) <= F.Abs(v) < lim.Point(q + 1)
    requires r == q || (r == q + 1 && F.Abs(v) != lim.Point(q))
    ensures Gap(F.Abs(v), lim.Point(r)) < Unit(lim, v)
  {
    hide Lsh, Rsh, Low, Mag, FloorLog2;
    var c := Locate(lim, v);
    PointOrder(lim, c, q + 1);
    PointOrder(lim, q, c + 1);
    Positive(UlpShift(lim, v));
  }

  /** Conversely, a number within half a unit of the reference is a closest one, unless
      the reference is a negative power of two; and one that is strictly within is the
      one that roundTiesToEven picks, without exception. */
  lemma WithinHalfIsClosest(lim: Limits, top: nat, v: U32, c: nat)
    requires lim.Valid() && F.Abs(v) > 0 && c <= top
    requires 2 * Gap(F.Abs(v), lim.Point(c)) <= Unit(lim, v)
    ensures !NegativePower(lim, v) ==> forall d: nat :: Gap(F.Abs(v), lim.Point(c)) <= Gap(F.Abs(v), lim.Point(d))
    ensures 2 * Gap(F.Abs(v), lim.Point(c)) < Unit(lim, v) ==>
      IsNearestEven(lim.P(), top, lim.J(), F.Abs(v), c)
  {
    hide Lsh, Rsh, Low, Mag, FloorLog2, Unit, PowerAbove, IsNearestEven, FirstOfBinade;
    var x := F.Abs(v);
    var q := Locate(lim, v);
    SpacingStep(lim, q);
    SpacingStep(lim, q + 1);
    Outside(lim, x, q, c);
    if !NegativePower(lim, v) || 2 * Gap(x, lim.Point(c)) < Unit(lim, v) {
      assert c == q || c == q + 1;
      forall d: nat
        ensures Gap(x, lim.Point(c)) <= Gap(x, lim.Point(d))
      {
        Outside(lim, x, q, d);
      }
      if 2 * Gap(x, lim.Point(c)) < Unit(lim, v) {
        if q < top {
          NearestOfBracket(lim.P(), top, lim.J(), x, q, c);
        } else {
          NearestAtTop(lim.P(), top, lim.J(), x);
        }
      }
    }
  }

  /** How far the numbers beyond the two neighbours are. */
  lemma Outside(lim: Limits, x: nat, q: nat, d: nat)
    requires lim.Valid() && lim.Point(q) <= x < lim.Point(q + 1)
    ensures d < q ==> Gap(x, lim.Point(d)) >= x - lim.Point(q) + lim.Spacing(q - 1)
    ensures d > q + 1 ==> Gap(x, lim.Point(d)) >= lim.Point(q + 1) - x + lim.Spacing(q + 1)
  {
    hide Lsh, Mag;
    if d < q {
      PointOrder(lim, d, q - 1);
      PointOrder(lim, q - 1, q);
    } else if d > q + 1 {
      PointOrder(lim, q + 2, d);
      PointOrder(lim, q + 1, q + 2);
    }
  }
}
