/** Which half results the ULP comparator accepts at a tolerance of half a unit. */
module ClosestMatching {
  import opened Bits
  import opened BinaryFormat
  import opened UlpDistance
  import opened ConversionUlps
  import opened Numbers
  import opened Matching
  import F = Float32
  import H = HalfFormat
  import HR = HalfRounding
  import HN = HalfNextAfter

  /** `h` is one of the halves closest to `v`, both of them at a tie, infinity counting
      as 2^16. */
  ghost predicate IsClosest(h: H.Half, v: U32) {
    !HN.IsNaN(h) && forall d: H.Half | !HN.IsNaN(d) ::
      Gap(F.Value(v), HalfPoint(h)) <= Gap(F.Value(v), HalfPoint(d))
  }

  /** The references at which more is accepted: the zeros, where the unit is too wide;
      the negative powers of two from -2^-13 to -2^16, where it is twice the spacing on
      the side of zero; and the two floats next to 2^-25 and -2^-25, whose difference
      from 2^-24 is rounded down to half a unit. */
  predicate TooWide(v: U32) {
    var m := F.Magnitude(v);
    || m == 0
    || m == 0x32ff_ffff
    || (F.Negative(v) && m % 0x80_0000 == 0 && 114 * 0x80_0000 <= m <= 143 * 0x80_0000)
  }

  /** At half a unit the comparator accepts exactly the closest halves, unless the
      reference is one of those. */
  lemma AcceptsClosestIff(v: U32)
    requires !F.IsNaN(v)
    ensures (forall h: H.Half :: Matches(OfHalf(h), v, 0.5, ToNearest) <==> IsClosest(h, v)) <==> !TooWide(v)
  {
    hide Matches, IsClosest, Lsh, Mag;
    if TooWide(v) {
      var h := AcceptedNotClosest(v);
    } else {
      forall h: H.Half
        ensures Matches(OfHalf(h), v, 0.5, ToNearest) <==> IsClosest(h, v)
      {
        if Matches(OfHalf(h), v, 0.5, ToNearest) { AcceptedIsClosest(h, v); }
        if IsClosest(h, v) { ClosestIsAccepted(h, v); }
      }
    }
  }

  // ------------------------------------------------ the definitions, for half

  lemma HalfMatches(h: H.Half, v: U32, ulpValue: real)
    ensures Matches(OfHalf(h), v, ulpValue, ToNearest) <==>
      || (HN.IsNaN(h) && F.IsNaN(v))
      || HN.Equal(h, HR.Convert(ToNearest, v))
      || HalfUlps(ToNearest, h, v).AtMost(ulpValue)
  {
    hide Lsh, Mag, And, Distance, HN.Equal, HR.Convert, HN.IsNaN;
  }

  lemma HalfIsNearest(h: H.Half, v: U32)
    ensures IsNearest(OfHalf(h), v) <==>
      && IsNearestEven(10, H.INFINITY, 125, F.Abs(v), Magnitude16(h.data))
      && (Magnitude16(h.data) == 0 || (h.data >= H.SIGN <==> F.Negative(v)))
  {
    hide Lsh, Mag, IsNearestEven;
    TopTable(HALF);
  }

  // --------------------------------------------------- closest halves are accepted

  lemma ClosestIsAccepted(h: H.Half, v: U32)
    requires !F.IsNaN(v) && IsClosest(h, v)
    ensures Matches(OfHalf(h), v, 0.5, ToNearest)
  {
    hide Lsh, Mag, UlpShift, Scaled, HN.IsNaN, HN.Equal, HalfUlps, HalfDifference, HR.Convert, Matches;
    HalfMatches(h, v, 0.5);
    NotFartherThanNearest(h, v);
    HN.NaNTest(h);
    hide IsClosest, HalfPoint;
    if F.Magnitude(v) < 143 * 0x80_0000 {
      NearestDistance(v);
      HalfUlpsAre(ToNearest, h, v);
      WithinIsAtMost(h, v);
    } else {
      ClosestBeyond(h, v);
    }
  }

  lemma NotFartherThanNearest(h: H.Half, v: U32)
    requires !F.IsNaN(v) && IsClosest(h, v)
    ensures Gap(F.Value(v), HalfPoint(h)) <= Gap(F.Value(v), HalfPoint(HR.Convert(ToNearest, v)))
  {
    hide HN.IsNaN, HalfPoint, H.HalfMagnitude, F.Value;
    H.HalfMagnitudeBounds(ToNearest, F.Negative(v), F.Magnitude(v));
    HN.NaNTest(HR.Convert(ToNearest, v));
  }

  lemma NearestDistance(v: U32)
    requires F.Magnitude(v) < 143 * 0x80_0000
    ensures 2 * Gap(F.Value(v), HalfPoint(HR.Convert(ToNearest, v))) <= Unit(HALF, v)
  {
    hide Lsh, Mag, H.HalfMagnitude, UlpShift;
    H.HalfMagnitudeBounds(ToNearest, F.Negative(v), F.Magnitude(v));
    NearestError(v);
  }

  lemma WithinIsAtMost(h: H.Half, v: U32)
    requires F.IsFinite(v) && 2 * Gap(F.Value(v), HalfPoint(h)) <= Unit(HALF, v)
    ensures Scaled(ToNearest, HalfDifference(ToNearest, h, v), UlpShift(HALF, v)).AtMost(0.5)
  {
    hide Lsh, Mag, UlpShift, Scaled, F.Rounded, HalfPoint;
    UnitBounds(HALF, v);
    HalfUnitKept(ToNearest, F.Value(v) < HalfPoint(h), Gap(F.Value(v), HalfPoint(h)), UlpShift(HALF, v));
    ScaledCompares(ToNearest, HalfDifference(ToNearest, h, v), UlpShift(HALF, v));
  }

  /** From 2^16 up only infinity is closest. */
  lemma ClosestBeyond(h: H.Half, v: U32)
    requires 143 * 0x80_0000 <= F.Magnitude(v) <= F.INFINITY && !HN.IsNaN(h)
    requires Gap(F.Value(v), HalfPoint(h)) <= Gap(F.Value(v), HalfPoint(HR.Convert(ToNearest, v)))
    ensures HN.Equal(h, HR.Convert(ToNearest, v))
  {
    hide Lsh, Mag, HN.Equal, HN.IsNaN, H.HalfMagnitude;
    var r := HR.Convert(ToNearest, v);
    H.HalfMagnitudeBounds(ToNearest, F.Negative(v), F.Magnitude(v));
    HR.NearestThresholds(v);
    HN.NaNTest(h);
    HN.NaNTest(r);
    FarthestIsClosest(h, r, v);
    HN.ComparisonsAreRankOrder(r, r);
  }

  lemma FarthestIsClosest(h: H.Half, r: H.Half, v: U32)
    requires 143 * 0x80_0000 <= F.Magnitude(v) <= F.INFINITY
    requires Magnitude16(h.data) <= H.INFINITY
    requires Magnitude16(r.data) == H.INFINITY && (r.data >= H.SIGN <==> F.Negative(v))
    requires Gap(F.Value(v), HalfPoint(h)) <= Gap(F.Value(v), HalfPoint(r))
    ensures h == r
  {
    hide Lsh, Rsh, Low, Mag;
    HR.OverflowValue();
    MagOrder(23, 143 * 0x80_0000, F.Magnitude(v));
    PointOrder(HALF, Magnitude16(h.data), H.INFINITY);
    PointOrder(HALF, 0, H.INFINITY);
    PointZero(HALF);
  }

  // ------------------------------------------- what is accepted is closest

  lemma AcceptedIsClosest(h: H.Half, v: U32)
    requires !F.IsNaN(v) && Matches(OfHalf(h), v, 0.5, ToNearest) && !TooWide(v)
    ensures IsClosest(h, v)
  {
    hide Lsh, Rsh, Low, Mag, And, UlpShift, Scaled, HN.IsNaN, HN.Equal, HalfDifference, HR.Convert, IsClosest, H.WideMagnitude, Matches, HalfUlps, IsNearest;
    HalfMatches(h, v, 0.5);
    HalfEqualIffNearest(h, v);
    HN.NaNTest(h);
    if HN.Equal(h, HR.Convert(ToNearest, v)) {
      NearestIsClosest(h, v);
    } else {
      HalfMeasured(h, v);
      HalfUlpsAre(ToNearest, h, v);
      ScaledCompares(ToNearest, HalfDifference(ToNearest, h, v), UlpShift(HALF, v));
      ZeroPatterns(v);
      NotRoundedDown(h, v);
      WithinIsClosest(h, v);
    }
  }

  lemma HalfEqualIffNearest(h: H.Half, v: U32)
    ensures HN.Equal(h, HR.Convert(ToNearest, v)) <==> !F.IsNaN(v) && !HN.IsNaN(h) && IsNearest(OfHalf(h), v)
  {
    hide Lsh, Mag, And, HN.Equal, HN.IsNaN, HR.Convert, IsNearest;
    EqualIffNearest(OfHalf(h), v);
  }

  lemma HalfMeasured(h: H.Half, v: U32)
    requires HalfUlps(ToNearest, h, v).Finite?
    ensures !HN.IsNaN(h) && F.IsFinite(v)
  {
    hide Lsh, Mag, And, Distance, HN.IsNaN;
    MeasuredNumbers(OfHalf(h), v, ToNearest);
  }

  lemma ZeroPatterns(v: U32)
    ensures F.Abs(v) == 0 <==> F.Magnitude(v) == 0
  {
    hide Lsh, Mag;
    LshZero(23);
    MagSmall(23, 0);
    MagOrder(23, 0, F.Magnitude(v));
  }

  lemma NearestIsClosest(h: H.Half, v: U32)
    requires IsNearest(OfHalf(h), v)
    ensures IsClosest(h, v)
  {
    hide Lsh, Rsh, Low, Mag, HN.IsNaN, IsNearestEven, IsNearest;
    var c := Magnitude16(h.data);
    HalfIsNearest(h, v);
    HN.NaNTest(h);
    NearestInRange(v, c);
    PointZero(HALF);
    forall d: H.Half | !HN.IsNaN(d)
      ensures Gap(F.Value(v), HalfPoint(h)) <= Gap(F.Value(v), HalfPoint(d))
    {
      HN.NaNTest(d);
      NotFarther(v, c, Magnitude16(d.data));
      NotFarther(v, c, 0);
    }
  }

  lemma NearestInRange(v: U32, c: nat)
    requires IsNearestEven(10, H.INFINITY, 125, F.Abs(v), c)
    ensures c <= H.INFINITY
  {
  }

  lemma NotFarther(v: U32, c: nat, d: nat)
    requires IsNearestEven(10, H.INFINITY, 125, F.Abs(v), c) && d <= H.INFINITY
    ensures Gap(F.Abs(v), HALF.Point(c)) <= Gap(F.Abs(v), HALF.Point(d))
  {
    hide Lsh, Mag;
    assert d != c ==> Gap(F.Abs(v), Lsh(Mag(10, c), 125)) <= Gap(F.Abs(v), Lsh(Mag(10, d), 125));
  }

  lemma WithinIsClosest(h: H.Half, v: U32)
    requires F.IsFinite(v) && F.Abs(v) > 0 && !HN.IsNaN(h) && !TooWide(v)
    requires 2 * Gap(F.Value(v), HalfPoint(h)) <= Unit(HALF, v)
    ensures IsClosest(h, v)
  {
    hide Lsh, Rsh, Low, Mag, HN.IsNaN, UlpShift, FloorLog2, PowerAbove;
    var c := Magnitude16(h.data);
    HN.NaNTest(h);
    SameSign(h, v);
    PointZero(HALF);
    NotBeyond(v, c);
    NoPower(v);
    WithinHalfIsClosest(HALF, H.INFINITY, v, c);
    forall d: H.Half | !HN.IsNaN(d)
      ensures Gap(F.Value(v), HalfPoint(h)) <= Gap(F.Value(v), HalfPoint(d))
    {
      assert Gap(F.Abs(v), HALF.Point(c)) <= Gap(F.Abs(v), HALF.Point(Magnitude16(d.data)));
      assert Gap(F.Abs(v), HALF.Point(c)) <= Gap(F.Abs(v), HALF.Point(0));
    }
  }

  /** A result within half a unit is a zero or has the sign of the reference. */
  lemma SameSign(h: H.Half, v: U32)
    requires F.IsFinite(v) && F.Abs(v) > 0
    ensures 2 * Gap(F.Value(v), HalfPoint(h)) <= Unit(HALF, v) || Gap(F.Value(v), HalfPoint(h)) < Unit(HALF, v) ==>
      && Gap(F.Value(v), HalfPoint(h)) == Gap(F.Abs(v), HALF.Point(Magnitude16(h.data)))
      && (Magnitude16(h.data) == 0 || (h.data >= H.SIGN <==> F.Negative(v)))
  {
    hide Lsh, Rsh, Low, Mag, UlpShift;
    var c := Magnitude16(h.data);
    UnitBounds(HALF, v);
    PointZero(HALF);
    PointOrder(HALF, 1, c);
    Positive(125);
  }

  /** No half is within half a unit of a reference from 2^17 up. */
  lemma NotBeyond(v: U32, c: nat)
    requires F.IsFinite(v) && F.Abs(v) > 0 && c <= H.INFINITY
    requires 2 * Gap(F.Abs(v), HALF.Point(c)) <= Unit(HALF, v)
    ensures F.Magnitude(v) <= 0x4780_1000
  {
    hide Lsh, Rsh, Low, Mag, UlpShift;
    if F.Magnitude(v) > 0x4780_1000 {
      BeyondOverflow(v);
      Positive(UlpShift(HALF, v) - 23);
      HR.OverflowValue();
      PointOrder(HALF, c, H.INFINITY);
    }
  }

  lemma NoPower(v: U32)
    requires F.IsFinite(v) && F.Magnitude(v) <= 0x4780_1000 && !TooWide(v)
    ensures !NegativePower(HALF, v)
  {
    hide Lsh, Rsh, Low, Mag, FloorLog2;
    if NegativePower(HALF, v) { PatternOfPower(v); }
  }

  /** The pattern of a power of two. */
  lemma PatternOfPower(v: U32)
    requires PowerAbove(HALF, F.Abs(v))
    ensures F.Magnitude(v) == 0x80_0000 * (FloorLog2(F.Abs(v)) - 22) >= 114 * 0x80_0000
  {
    hide Lsh, Rsh, Low, Mag, FloorLog2;
    var e := FloorLog2(F.Abs(v)) - 22;
    Pow2Table();
    F.NormalValue(0x80_0000 * e, e, 0);
    LshLsh(1, 23, e - 1);
    MagOrder(23, F.Magnitude(v), 0x80_0000 * e);
  }

  // -------------------------------------- the subtraction around half a unit

  /** An error of more than half a unit stays above it when it is rounded, next to
      2^-25 excepted: nearer than a unit the difference is a float. */
  lemma NotRoundedDown(h: H.Half, v: U32)
    requires F.IsFinite(v) && F.Abs(v) > 0 && !HN.IsNaN(h) && F.Magnitude(v) != 0x32ff_ffff
    requires 2 * Mag(23, HalfDifference(ToNearest, h, v)) <= Unit(HALF, v)
    ensures 2 * Gap(F.Value(v), HalfPoint(h)) <= Unit(HALF, v)
  {
    hide Lsh, Rsh, Low, Mag, UlpShift, FloorLog2, F.Rounded, Representable, HN.IsNaN;
    var c, error, s := Magnitude16(h.data), Gap(F.Value(v), HalfPoint(h)), UlpShift(HALF, v);
    HN.NaNTest(h);
    UnitBounds(HALF, v);
    Positive(s);
    LshDouble(1, s);
    HalfUnitKept(ToNearest, F.Value(v) < HalfPoint(h), error, s + 1);
    assert error < Unit(HALF, v);
    SameSign(h, v);
    ZeroPatterns(v);
    if F.Magnitude(v) < 102 * 0x80_0000 {
      TinyDifference(v, c, error, F.Value(v) < HalfPoint(h));
    } else if F.Magnitude(v) < 113 * 0x80_0000 {
      SubnormalDifference(v, c, error, F.Value(v) < HalfPoint(h));
    } else {
      NormalDifference(v, c, error, F.Value(v) < HalfPoint(h));
    }
  }

  lemma TinyDifference(v: U32, c: nat, error: nat, negative: bool)
    requires 0 < F.Magnitude(v) < 102 * 0x80_0000 && F.Magnitude(v) != 0x32ff_ffff && F.Abs(v) > 0
    requires error == Gap(F.Abs(v), HALF.Point(c)) < Unit(HALF, v)
    requires 2 * Mag(23, F.Rounded(ToNearest, negative, error)) <= Unit(HALF, v)
    ensures 2 * error <= Unit(HALF, v)
  {
    hide Lsh, Rsh, Low, Mag, UlpShift, F.Rounded, Representable;
    TinyUnit(v);
    PointZero(HALF);
    PointOrder(HALF, 2, c);
    PointTwo();
    Pow2Grows(101, 125);
    LshDouble(1, 124);
    if c == 1 { KeptAbove(ToNearest, negative, error, 125); }
  }

  lemma PointTwo()
    ensures HALF.Point(2) == 2 * Pow2(125)
  {
    hide Lsh, Rsh, Low, Mag;
    Pow2Table();
    MagSmall(10, 2);
    LshDouble(1, 125);
  }

  /** Below 2^-25 the unit is 2^-24, and all floats but the last are a spacing or more
      away from 2^-25. */
  lemma TinyUnit(v: U32)
    requires 0 < F.Magnitude(v) < 102 * 0x80_0000 && F.Magnitude(v) != 0x32ff_ffff && F.Abs(v) > 0
    ensures Unit(HALF, v) == Pow2(125)
    ensures 2 * F.Abs(v) <= Pow2(125) - Pow2(102)
  {
    hide Lsh, Rsh, Low, Mag, FloorLog2;
    LastBelow();
    MagOrder(23, F.Magnitude(v), 0x32ff_fffe);
    LshDouble(1, 124);
    Pow2Grows(124, 135);
    Positive(101);
    FloorLog2Less(F.Abs(v), 135);
    LshDouble(1, 101);
  }

  lemma LastBelow()
    ensures Mag(23, 0x32ff_fffe) == Pow2(124) - Pow2(101)
    ensures Mag(23, 0x32ff_ffff) == Pow2(124) - Pow2(100)
  {
    hide Lsh, Rsh, Low;
    Pow2Table();
    F.NormalValue(0x32ff_fffe, 101, 0x7f_fffe);
    F.NormalValue(0x32ff_ffff, 101, 0x7f_ffff);
    LshAdd(0xff_fffe, 2, 100);
    LshAdd(0xff_ffff, 1, 100);
    LshLsh(1, 24, 100);
    LshDouble(1, 100);
  }

  lemma SubnormalDifference(v: U32, c: nat, error: nat, negative: bool)
    requires 102 * 0x80_0000 <= F.Magnitude(v) < 113 * 0x80_0000 && F.Abs(v) > 0
    requires error == Gap(F.Abs(v), HALF.Point(c)) < Unit(HALF, v)
    requires 2 * Mag(23, F.Rounded(ToNearest, negative, error)) <= Unit(HALF, v)
    ensures 2 * error <= Unit(HALF, v)
  {
    hide Lsh, Rsh, Low, Mag, UlpShift, F.Rounded, Representable;
    var m := F.Magnitude(v);
    var e, f := m / 0x80_0000, m % 0x80_0000;
    var g, k := 0x80_0000 + f, 126 - e;
    var q := Rsh(g, k);
    F.NormalValue(m, e, f);
    Split(g, k);
    SumScaled(q, Low(g, k), k, e - 1);
    Pow2Table();
    RshBelow(g, 10, k);
    if k > 14 { Pow2Grows(24, 10 + k); }
    MagSmall(10, q);
    MagSmall(10, q + 1);
    LshAdd(q, 1, 125);
    LshLsh(1, k, e - 1);
    LshDouble(1, k - 1);
    Pow2GrowsTo(k, 24);
    NearDifference(v, c, q, Low(g, k), Pow2(k - 1), e - 1, error, negative);
  }

  lemma NormalDifference(v: U32, c: nat, error: nat, negative: bool)
    requires 113 * 0x80_0000 <= F.Magnitude(v) < F.INFINITY && F.Abs(v) > 0
    requires error == Gap(F.Abs(v), HALF.Point(c)) < Unit(HALF, v)
    requires 2 * Mag(23, F.Rounded(ToNearest, negative, error)) <= Unit(HALF, v)
    ensures 2 * error <= Unit(HALF, v)
  {
    hide Lsh, Rsh, Low, Mag, UlpShift, F.Rounded, Representable;
    var m := F.Magnitude(v);
    var n := m - 112 * 0x80_0000;
    Pow2Table();
    LshTable(112);
    MagExponentShift(23, n, 112);
    PatternBracket(10, 13, n, 112);
    Split(n, 13);
    Split(n, 23);
    LshTable(Rsh(n, 23));
    NearDifference(v, c, Rsh(n, 13), Low(n, 13), 0x1000, 112 + Steps(Rsh(n, 23)), error, negative);
  }

  /** A reference `rest` steps of 2^t above half q, of the 2 * width that lead to the
      next half: nearer than a unit the difference is a short multiple of the step. */
  lemma NearDifference(v: U32, c: nat, q: nat, rest: nat, width: nat, t: nat, error: nat, negative: bool)
    requires F.IsFinite(v) && F.Abs(v) > 0
    requires F.Abs(v) == HALF.Point(q) + Lsh(rest, t) && HALF.Spacing(q) == Lsh(2 * width, t)
    requires rest < 2 * width <= 0x100_0000 && t <= 253
    requires error == Gap(F.Abs(v), HALF.Point(c)) < Unit(HALF, v)
    requires 2 * Mag(23, F.Rounded(ToNearest, negative, error)) <= Unit(HALF, v)
    ensures 2 * error <= Unit(HALF, v)
  {
    hide Lsh, Rsh, Low, Mag, UlpShift, F.Rounded, Representable;
    UnitWithinSpacing(v, q, rest, width, t);
    if c + 1 >= q {
      FewBits(v, c, q, rest, width, t, error);
      RepresentableIsKept(ToNearest, negative, error);
    } else {
      TwoBelow(v, c, q);
      var s := UlpShift(HALF, v);
      UnitBounds(HALF, v);
      LshDouble(1, s - 1);
      if s > 24 { Pow2Grows(s - 23, s - 1); }
      KeptAbove(ToNearest, negative, error, s);
      assert false;
    }
  }

  lemma UnitWithinSpacing(v: U32, q: nat, rest: nat, width: nat, t: nat)
    requires F.IsFinite(v) && F.Abs(v) > 0
    requires F.Abs(v) == HALF.Point(q) + Lsh(rest, t) && HALF.Spacing(q) == Lsh(2 * width, t)
    requires rest < 2 * width
    ensures F.Abs(v) < HALF.Point(q + 1)
    ensures 0 < Unit(HALF, v) <= HALF.Spacing(q)
  {
    hide Lsh, Rsh, Low, Mag, UlpShift, FloorLog2;
    LshOrder(rest, 2 * width, t);
    var b := Locate(HALF, v);
    PointOrder(HALF, b, q + 1);
    PointOrder(HALF, q, b + 1);
    assert b == q;
    SpacingStep(HALF, q);
    Positive(UlpShift(HALF, v));
  }

  lemma FewBits(v: U32, c: nat, q: nat, rest: nat, width: nat, t: nat, error: nat)
    requires F.Abs(v) == HALF.Point(q) + Lsh(rest, t) && HALF.Spacing(q) == Lsh(2 * width, t)
    requires rest < 2 * width <= 0x100_0000 && t <= 253
    requires error == Gap(F.Abs(v), HALF.Point(c)) < HALF.Spacing(q) && c + 1 >= q
    ensures Representable(error)
  {
    hide Lsh, Rsh, Low, Mag, Representable;
    LshOrder(rest, 2 * width, t);
    if c > q {
      PointOrder(HALF, q + 2, c);
      SpacingStep(HALF, q + 1);
      LshAdd(rest, 2 * width - rest, t);
      LshZero(t);
      assert rest > 0;
      ShortIsRepresentable(2 * width - rest, t);
    } else if c == q {
      ShortIsRepresentable(rest, t);
    } else {
      SpacingStep(HALF, q);
      LshDouble(width, t);
      LshAdd(rest, width, t);
      LshOrder(rest + width, 2 * width, t);
      ShortIsRepresentable(rest + width, t);
    }
  }

  /** Two or more halves below, the difference is three quarters of a spacing or more. */
  lemma TwoBelow(v: U32, c: nat, q: nat)
    requires c + 1 < q && HALF.Point(q) <= F.Abs(v)
    ensures 4 * Gap(F.Abs(v), HALF.Point(c)) >= 3 * HALF.Spacing(q)
  {
    hide Lsh, Rsh, Low, Mag;
    PointOrder(HALF, c, q - 2);
    SpacingStep(HALF, q);
    SpacingStep(HALF, q - 1);
  }

  // ------------------------------------------------------- the exceptions

  /** At each of the listed references some half is accepted that is not closest. */
  lemma AcceptedNotClosest(v: U32) returns (h: H.Half)
    requires TooWide(v) && !F.IsNaN(v)
    ensures Matches(OfHalf(h), v, 0.5, ToNearest) && !IsClosest(h, v)
  {
    hide Matches, IsClosest, Lsh, Mag;
    ZeroPatterns(v);
    if F.Magnitude(v) == 0 {
      h := H.Half(1);
      SmallestAccepted(v);
      SmallestNotClosest(v);
    } else if F.Magnitude(v) == 0x32ff_ffff {
      h := NextToTie(v);
    } else {
      h := BelowPower(v);
    }
  }

  lemma NotClosest(h: H.Half, d: H.Half, v: U32)
    requires Magnitude16(d.data) <= H.INFINITY
    requires Gap(F.Value(v), HalfPoint(h)) > Gap(F.Value(v), HalfPoint(d))
    ensures !IsClosest(h, v)
  {
    hide Lsh, Mag, HN.IsNaN, HalfPoint;
    HN.NaNTest(d);
  }

  lemma SmallestAccepted(v: U32)
    requires F.Abs(v) == 0
    ensures Matches(OfHalf(H.Half(1)), v, 0.5, ToNearest)
  {
    hide Lsh, Mag, Distance, LeastAtZero, Equal, Converted;
    TopTable(HALF);
    LeastUlps(HALF, v, ToNearest);
  }

  lemma SmallestNotClosest(v: U32)
    requires F.Abs(v) == 0
    ensures !IsClosest(H.Half(1), v)
  {
    hide Lsh, Mag;
    PointZero(HALF);
    Positive(125);
    NotClosest(H.Half(1), H.Half(0), v);
  }

  /** Next to 2^-25 the difference from 2^-24 has 25 bits and is rounded to 2^-25. */
  lemma NextToTie(v: U32) returns (h: H.Half)
    requires F.Magnitude(v) == 0x32ff_ffff
    ensures Matches(OfHalf(h), v, 0.5, ToNearest) && !IsClosest(h, v)
  {
    hide Lsh, Mag, Rsh, Low, UlpShift, HN.IsNaN, HN.Equal, Scaled, F.Rounded, HR.Convert, Distance;
    var sign := if F.Negative(v) then H.SIGN else 0;
    h := H.Half(sign + 1);
    var zero := H.Half(sign);
    PointZero(HALF);
    LastBelow();
    LshDouble(1, 124);
    LshDouble(1, 100);
    Positive(100);
    Pow2Grows(100, 124);
    NotClosest(h, zero, v);
    HN.NaNTest(h);
    HalfUlpsAre(ToNearest, h, v);
    var error := Pow2(124) + Pow2(100);
    assert Gap(F.Value(v), HalfPoint(h)) == error;
    RoundedToTie(F.Value(v) < HalfPoint(h));
    TieUnit(v);
    ScaledCompares(ToNearest, HalfDifference(ToNearest, h, v), UlpShift(HALF, v));
  }

  lemma RoundedToTie(negative: bool)
    ensures var r := F.Rounded(ToNearest, negative, Pow2(124) + Pow2(100));
      r < F.INFINITY && Mag(23, r) == Pow2(124)
  {
    hide Lsh, Mag, Rsh, Low, FloorLog2;
    var x := Pow2(124) + Pow2(100);
    Pow2Table();
    LshDouble(1, 100);
    LshDouble(1, 124);
    Positive(100);
    Pow2Grows(100, 124);
    Pow2Grows(24, 124);
    FloorLog2Unique(x, 124);
    F.ExcessIs(x, 101);
    LshLsh(1, 23, 101);
    SplitUnique(x, 101, 0x80_0000, Pow2(100));
    LshTable(101);
    F.SignificandValue(0x80_0000, 101);
  }

  lemma TieUnit(v: U32)
    requires F.Abs(v) == Pow2(124) - Pow2(100) > 0
    ensures Unit(HALF, v) == Pow2(125)
  {
    hide Lsh, Mag, FloorLog2;
    Pow2Grows(124, 135);
    Positive(100);
    FloorLog2Less(F.Abs(v), 135);
  }

  /** A negative power of two is measured with the spacing above it, and the half below
      it is half of that away. */
  lemma BelowPower(v: U32) returns (h: H.Half)
    requires TooWide(v) && F.Magnitude(v) != 0 && F.Magnitude(v) != 0x32ff_ffff
    ensures Matches(OfHalf(h), v, 0.5, ToNearest) && !IsClosest(h, v)
  {
    hide Lsh, Mag, Rsh, Low, UlpShift, HN.IsNaN, HN.Equal, Scaled, HR.Convert, Distance, FloorLog2, HalfDifference;
    IsPower(v);
    UnitAtPowerOfTwo(HALF, v);
    var q: nat :| q > 0 && HALF.Point(q) == F.Abs(v)
      && HALF.Spacing(q) == 2 * HALF.Spacing(q - 1) && Unit(HALF, v) == HALF.Spacing(q);
    PointOrder(HALF, q, H.INFINITY);
    PointOrder(HALF, q - 1, q);
    HR.OverflowValue();
    MagOrder(23, F.Magnitude(v), 143 * 0x80_0000);
    h := H.Half(H.SIGN + q - 1);
    var exact := H.Half(H.SIGN + q);
    NotClosest(h, exact, v);
    HN.NaNTest(h);
    HalfUlpsAre(ToNearest, h, v);
    WithinIsAtMost(h, v);
  }

  lemma IsPower(v: U32)
    requires TooWide(v) && F.Magnitude(v) != 0 && F.Magnitude(v) != 0x32ff_ffff
    ensures F.Negative(v) && F.IsFinite(v) && PowerAbove(HALF, F.Abs(v))
  {
    hide Lsh, Mag, Rsh, Low, FloorLog2;
    var e := F.Magnitude(v) / 0x80_0000;
    Pow2Table();
    F.NormalValue(F.Magnitude(v), e, 0);
    LshLsh(1, 23, e - 1);
    Positive(22 + e);
    LshDouble(1, 22 + e);
    FloorLog2Unique(F.Abs(v), 22 + e);
  }
}
