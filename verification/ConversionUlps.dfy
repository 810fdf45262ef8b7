/** ULP distances of the conversions of this library. */
module ConversionUlps {
  import opened Bits
  import opened BinaryFormat
  import opened UlpDistance
  import F = Float32
  import H = HalfFormat
  import HR = HalfRounding
  import B = Bfloat16Format
  import T = TfloatFormat

  /** The distance of a half result, computed under the rounding direction `current`. */
  function HalfUlps(current: Mode, h: H.Half, v: U32): Ulps { Distance(current, HALF, h.ToFloat(), v) }

  /** The number a half result is measured at: its value, and 2^16 for infinity. */
  function HalfPoint(h: H.Half): int { F.Signed(h.data >= H.SIGN, HALF.Point(Magnitude16(h.data))) }

  /** fabs(reference - result) in type float */
  function HalfDifference(current: Mode, h: H.Half, v: U32): nat {
    AbsoluteDifference(current, F.Value(v), HalfPoint(h))
  }

  lemma HalfUlpsAre(current: Mode, h: H.Half, v: U32)
    requires F.IsFinite(v) && !HR.IsNaN(h)
    ensures HalfUlps(current, h, v) == Scaled(current, HalfDifference(current, h, v), UlpShift(HALF, v))
  {
    hide Lsh, Rsh, Low, Mag, UlpShift, Scaled, F.Rounded, Exp2, H.WideMagnitude;
    var c := Magnitude16(h.data);
    HR.WideNaN(c);
    HR.AbsOf(c);
    HR.OverflowValue();
    Exp2Values(current);
  }

  /** A result whose error is a float, so that the subtraction does not round. */
  lemma ExactDifference(current: Mode, h: H.Half, v: U32)
    requires Representable(Gap(F.Value(v), HalfPoint(h)))
    ensures HalfDifference(current, h, v) < F.INFINITY
    ensures Mag(23, HalfDifference(current, h, v)) == Gap(F.Value(v), HalfPoint(h))
  {
    hide Lsh, Mag, F.Rounded, HalfPoint;
    RepresentableIsKept(current, F.Value(v) < HalfPoint(h), Gap(F.Value(v), HalfPoint(h)));
  }

  /** The library's own conversion below 2^16: measured without rounding. */
  lemma ConversionError(mode: Mode, current: Mode, v: U32)
    requires F.Magnitude(v) < 143 * 0x80_0000
    ensures var h, r := HR.Convert(mode, v), H.HalfMagnitude(mode, F.Negative(v), F.Magnitude(v));
      && HalfUlps(current, h, v) == Scaled(current, HalfDifference(current, h, v), UlpShift(HALF, v))
      && HalfDifference(current, h, v) < F.INFINITY
      && Mag(23, HalfDifference(current, h, v)) == Gap(F.Abs(v), Lsh(Mag(10, r), 125))
  {
    hide Lsh, Rsh, Low, Mag, UlpShift, Scaled, H.HalfMagnitude, Representable, HalfDifference, HalfUlps;
    H.HalfMagnitudeBounds(mode, F.Negative(v), F.Magnitude(v));
    ErrorIsRepresentable(mode, v);
    HalfUlpsAre(current, HR.Convert(mode, v), v);
    ExactDifference(current, HR.Convert(mode, v), v);
  }

  /** A nearest conversion is within half a unit in the last place exactly up to
      65568 = 2^16 + 2^5 in magnitude, whichever way the subtraction rounds.  That takes
      in every operand that rounds to a finite half, all of 65520 up to 2^16 that rounds
      to infinity, and the stretch of half a unit beyond the value infinity is measured
      from. */
  lemma NearestWithinHalfUlpIff(v: U32, current: Mode)
    requires F.IsFinite(v)
    ensures HalfUlps(current, HR.Convert(ToNearest, v), v).AtMost(0.5) <==> F.Magnitude(v) <= 0x4780_1000
  {
    hide Lsh, Rsh, Low, Mag, UlpShift, Scaled, FloorLog2, H.HalfMagnitude, IsNearestEven, HalfUlps, HalfDifference;
    var m := F.Magnitude(v);
    var h := HR.Convert(ToNearest, v);
    ScaledCompares(current, HalfDifference(current, h, v), UlpShift(HALF, v));
    if m < 143 * 0x80_0000 {
      ConversionError(ToNearest, current, v);
      NearestError(v);
    } else {
      H.HalfMagnitudeBounds(ToNearest, F.Negative(v), m);
      HR.NearestThresholds(v);
      HalfUlpsAre(current, h, v);
      BeyondOverflow(v);
      OverflowDifference(current, h, v);
    }
  }

  lemma NearestError(v: U32)
    requires F.Magnitude(v) < 143 * 0x80_0000
    ensures var r := H.HalfMagnitude(ToNearest, F.Negative(v), F.Magnitude(v));
      2 * Gap(F.Abs(v), Lsh(Mag(10, r), 125)) <= Unit(HALF, v)
  {
    hide Lsh, Rsh, Low, Mag, UlpShift, H.HalfMagnitude, IsNearestEven;
    var m := F.Magnitude(v);
    HR.NearestMagnitude(F.Negative(v), m);
    HR.OverflowValue();
    MagOrder(23, m, 143 * 0x80_0000);
    MagOrder(23, 0, m);
    MagSmall(23, 0);
    if m == 0 {
      HR.ZeroConverts(ToNearest);
      MagSmall(10, 0);
      LshZero(125);
    } else {
      NearestWithinHalf(HALF, H.INFINITY, v, H.HalfMagnitude(ToNearest, F.Negative(v), m));
    }
  }

  /** From 2^16 up the float subtraction may round, but not across half a unit. */
  lemma OverflowDifference(current: Mode, h: H.Half, v: U32)
    requires F.IsFinite(v) && F.Magnitude(v) >= 143 * 0x80_0000
    requires Magnitude16(h.data) == H.INFINITY && (h.data >= H.SIGN <==> F.Negative(v))
    ensures var d := HalfDifference(current, h, v);
      d < F.INFINITY && 2 * Mag(23, d) <= Unit(HALF, v) <==> F.Magnitude(v) <= 0x4780_1000
  {
    hide Lsh, Rsh, Low, Mag, UlpShift, FloorLog2, F.Rounded, Representable;
    var m := F.Magnitude(v);
    HR.OverflowValue();
    BeyondOverflow(v);
    var error := F.Abs(v) - Pow2(165);
    assert Gap(F.Value(v), HalfPoint(h)) == error;
    if m <= 0x4780_1000 {
      NearOverflow(v);
      ShortIsRepresentable(m - 143 * 0x80_0000, 142);
      ExactDifference(current, h, v);
    } else {
      KeptAbove(current, F.Value(v) < HalfPoint(h), error, UlpShift(HALF, v));
    }
  }

  /** Rounding does not take an error above half a unit down to it when the next float
      after half a unit is not above the error. */
  lemma KeptAbove(current: Mode, negative: bool, error: nat, s: nat)
    requires 24 <= s <= 276 && 2 * error >= Pow2(s) + Pow2(s - 23)
    ensures 2 * Mag(23, F.Rounded(current, negative, error)) > Pow2(s)
  {
    hide Lsh, Rsh, Low, Mag, F.Rounded;
    var k := s - 24;
    var a := Lsh(k, 23) + 0x80_0001;
    Pow2Table();
    F.SignificandValue(0x80_0001, k);
    LshAdd(0x80_0000, 1, k);
    LshLsh(1, 23, k);
    LshDouble(1, s - 1);
    LshDouble(1, k);
    Positive(k);
    LshTable(k);
    F.RoundedExact(current, negative, a);
    F.RoundedMonotone(current, negative, Mag(23, a), error);
    MagOrder(23, a, F.Rounded(current, negative, error));
  }

  /** From 2^16 up the unit is 2^6 or more, and infinity stands for 2^16. */
  lemma BeyondOverflow(v: U32)
    requires F.IsFinite(v) && F.Magnitude(v) >= 143 * 0x80_0000
    ensures var s, error := UlpShift(HALF, v), F.Abs(v) - Pow2(165);
      && error >= 0 && 24 <= s <= 276
      && if F.Magnitude(v) <= 0x4780_1000 then 2 * error <= Pow2(s) else 2 * error >= Pow2(s) + Pow2(s - 23)
  {
    hide Lsh, Rsh, Low, Mag, FloorLog2, UlpShift;
    var m, x, s := F.Magnitude(v), F.Abs(v), UlpShift(HALF, v);
    HR.OverflowValue();
    MagOrder(23, 143 * 0x80_0000, m);
    Pow2Table();
    F.NormalValue(144 * 0x80_0000, 144, 0);
    LshLsh(1, 23, 143);
    if m < 144 * 0x80_0000 {
      NearOverflow(v);
    } else {
      MagOrder(23, 144 * 0x80_0000, m);
      FarShift(v);
      Pow2Grows(s, FloorLog2(x));
      Pow2Grows(s - 23, s);
      FloorLog2Bounds(x);
      LshDouble(1, 165);
      if FloorLog2(x) > 166 { Pow2Grows(166, FloorLog2(x)); }
    }
  }

  /** In the first binade the error is the fraction, in units of 2^142. */
  lemma NearOverflow(v: U32)
    requires 143 * 0x80_0000 <= F.Magnitude(v) < 144 * 0x80_0000
    ensures var g, s := F.Magnitude(v) - 143 * 0x80_0000, UlpShift(HALF, v);
      && F.Abs(v) == Pow2(165) + Lsh(g, 142)
      && (s == 155 || (s == 154 && g == 0))
      && (g <= 0x1000 ==> 2 * Lsh(g, 142) <= Pow2(s))
      && (g > 0x1000 ==> 2 * Lsh(g, 142) >= Pow2(s) + Pow2(s - 23))
  {
    hide Lsh, Rsh, Low, Mag, FloorLog2;
    var g := F.Magnitude(v) - 143 * 0x80_0000;
    Pow2Table();
    F.NormalValue(F.Magnitude(v), 143, g);
    LshAdd(0x80_0000, g, 142);
    LshLsh(1, 23, 142);
    LshOrder(g, 0x80_0000, 142);
    LshDouble(1, 165);
    FloorLog2Unique(F.Abs(v), 165);
    LshDouble(g, 142);
    LshOrder(g, 0x1000, 143);
    LshOrder(0x1001, g, 143);
    LshAdd(0x1000, 1, 143);
    LshLsh(1, 12, 143);
    LshZero(142);
    LshOrder(0, g, 142);
    Pow2Grows(132, 143);
    Positive(154);
  }

  lemma FarShift(v: U32)
    requires F.IsFinite(v) && F.Abs(v) >= Pow2(166)
    ensures var l, s := FloorLog2(F.Abs(v)), UlpShift(HALF, v);
      166 <= l <= 276 && l - 11 <= s <= l - 10
  {
    hide Lsh, Rsh, Low, Mag, FloorLog2;
    var x := F.Abs(v);
    MagOrder(23, F.Magnitude(v), F.INFINITY);
    Pow2Table();
    F.NormalValue(F.INFINITY, 255, 0);
    LshLsh(1, 23, 254);
    Positive(166);
    FloorLog2Less(x, 277);
    FloorLog2Bounds(x);
    if FloorLog2(x) < 166 { Pow2GrowsTo(FloorLog2(x) + 1, 166); }
  }

  lemma Pow2GrowsTo(a: nat, b: nat)
    requires a <= b
    ensures Pow2(a) <= Pow2(b)
  {
    if a < b { Pow2Grows(a, b); }
  }

  /** In every rounding mode a conversion below 2^16 errs by less than one unit, even
      where the mode itself is ignored, and whichever way the subtraction rounds. */
  lemma AnyModeWithinOneUlp(mode: Mode, v: U32, current: Mode)
    requires F.Magnitude(v) < 143 * 0x80_0000
    ensures var d := HalfUlps(current, HR.Convert(mode, v), v); d.Below(1.0)
  {
    hide Lsh, Rsh, Low, Mag, UlpShift, Scaled, H.HalfMagnitude, HalfUlps, HalfDifference;
    ConversionError(mode, current, v);
    AnyModeError(mode, v);
    ScaledCompares(current, HalfDifference(current, HR.Convert(mode, v), v), UlpShift(HALF, v));
  }

  lemma AnyModeError(mode: Mode, v: U32)
    requires F.Magnitude(v) < 143 * 0x80_0000
    ensures Gap(F.Abs(v), Lsh(Mag(10, H.HalfMagnitude(mode, F.Negative(v), F.Magnitude(v))), 125))
          < Pow2(UlpShift(HALF, v))
  {
    hide Lsh, Rsh, Low, Mag, UlpShift, FloorLog2, H.HalfMagnitude;
    var m, negative := F.Magnitude(v), F.Negative(v);
    Positive(UlpShift(HALF, v));
    if m == 0 {
      HR.ZeroConverts(mode);
      MagSmall(23, 0);
      MagSmall(10, 0);
      LshZero(125);
    } else {
      var q := Neighbours(mode, negative, m);
      MagOrder(23, 0, m);
      NeighbourWithinOne(HALF, v, q, H.HalfMagnitude(mode, negative, m));
    }
  }

  /** Every conversion picks one of the two halves around the operand, and the operand
      itself when that is a half. */
  lemma Neighbours(mode: Mode, negative: bool, m: nat) returns (q: nat)
    requires m < 143 * 0x80_0000
    ensures var x, r := Mag(23, m), H.HalfMagnitude(mode, negative, m);
      && Lsh(Mag(10, q), 125) <= x < Lsh(Mag(10, q + 1), 125)
      && (r == q || (r == q + 1 && x != Lsh(Mag(10, q), 125)))
  {
    hide Lsh, Rsh, Low, Mag, H.HalfMagnitude, H.WideMagnitude;
    var x := Mag(23, m);
    Positive(125);
    Positive(13);
    if m < 113 * 0x80_0000 {
      q := Rsh(x, 125);
      HR.SmallBracket(m);
      HR.SmallResult(mode, negative, m);
    } else {
      q := Rsh(m - 112 * 0x80_0000, 13);
      HR.NormalBracket(m);
      HR.NormalResult(mode, negative, m);
      HR.AbsOf(q + 1);
      NormalUpperBound(m);
    }
    HR.AbsOf(q);
    HR.AbsOf(q + 1);
  }

  lemma NormalUpperBound(m: nat)
    requires 113 * 0x80_0000 <= m < 143 * 0x80_0000
    ensures Mag(23, m) < Lsh(Mag(10, Rsh(m - 112 * 0x80_0000, 13) + 1), 125)
  {
    hide Lsh, Rsh, Low, Mag;
    var n := m - 112 * 0x80_0000;
    var t := 112 + Steps(Rsh(n, 23));
    HR.Rebased(m);
    PatternBracket(10, 13, n, 112);
    Split(n, 13);
    LshOrder(Low(n, 13), Pow2(13), t);
  }

  // ------------------------------------- exact arithmetic is what the float does

  /** A magnitude that some finite float has. */
  ghost predicate Representable(x: nat) { exists m: nat | m < F.INFINITY :: Mag(23, m) == x }

  lemma RepresentableIsKept(mode: Mode, negative: bool, x: nat)
    requires Representable(x)
    ensures F.Rounded(mode, negative, x) < F.INFINITY && Mag(23, F.Rounded(mode, negative, x)) == x
  {
    hide Lsh, Mag, F.Rounded;
    var m: nat :| m < F.INFINITY && Mag(23, m) == x;
    F.RoundedExact(mode, negative, m);
  }

  /** Up to 24 significant bits, anywhere in the exponent range. */
  lemma ShortIsRepresentable(g: nat, s: nat)
    requires g < 0x100_0000 && s <= 253
    ensures Representable(Lsh(g, s))
  {
    hide Lsh, Rsh, Low, Mag, FloorLog2;
    Pow2Table();
    LshZero(s);
    MagSmall(23, 0);
    if g > 0 {
      F.NormalizedFraction(g);
      var l := FloorLog2(g);
      var n := Lsh(g, 23 - l);
      if s + l >= 23 {
        var e := s + l - 22;
        F.NormalValue(0x80_0000 * e + (n - 0x80_0000), e, n - 0x80_0000);
        LshLsh(g, 23 - l, e - 1);
        assert Mag(23, 0x80_0000 * e + (n - 0x80_0000)) == Lsh(g, s);
      } else {
        LshLsh(g, s, 23 - l - s);
        LshDouble(1, 22 - l - s);
        FloorLog2Bounds(g);
        LshOrder(g, Pow2(l + 1), s);
        LshLsh(1, l + 1, s);
        Pow2GrowsTo(l + 1 + s, 23);
        MagSmall(23, Lsh(g, s));
        assert Mag(23, Lsh(g, s)) == Lsh(g, s);
      }
    }
  }

  /** The error of a conversion below 2^16 fits a float, so the subtraction in
      calculate_ulp_distance yields it without rounding. */
  lemma ErrorIsRepresentable(mode: Mode, v: U32)
    requires F.Magnitude(v) < 143 * 0x80_0000
    ensures Representable(Gap(F.Abs(v), Lsh(Mag(10, H.HalfMagnitude(mode, F.Negative(v), F.Magnitude(v))), 125)))
  {
    hide Lsh, Rsh, Low, Mag, H.HalfMagnitude, Representable;
    var m, negative := F.Magnitude(v), F.Negative(v);
    if m < 102 * 0x80_0000 {
      TinyError(mode, negative, m);
    } else if m < 113 * 0x80_0000 {
      SubnormalError(mode, negative, m);
    } else {
      NormalError(mode, negative, m);
    }
  }

  lemma TinyError(mode: Mode, negative: bool, m: nat)
    requires m < 102 * 0x80_0000
    ensures Representable(Gap(Mag(23, m), Lsh(Mag(10, H.HalfMagnitude(mode, negative, m)), 125)))
  {
    hide Lsh, Rsh, Low, Mag;
    H.TooSmall(m, negative);
    MagSmall(10, 0);
    LshZero(125);
  }

  lemma SubnormalError(mode: Mode, negative: bool, m: nat)
    requires 102 * 0x80_0000 <= m < 113 * 0x80_0000
    ensures Representable(Gap(Mag(23, m), Lsh(Mag(10, H.HalfMagnitude(mode, negative, m)), 125)))
  {
    hide Lsh, Rsh, Low, Mag, RoundOff, Representable;
    var e, f := m / 0x80_0000, m % 0x80_0000;
    var g, k := 0x80_0000 + f, 126 - e;
    var q, rest := Rsh(g, k), Low(g, k);
    H.SubnormalBits(m, negative, e, f);
    F.NormalValue(m, e, f);
    Split(g, k);
    SumScaled(q, rest, k, e - 1);
    Pow2Table();
    if k < 24 { Pow2Grows(k, 24); }
    MagSmall(10, q);
    MagSmall(10, q + 1);
    LshAdd(q, 1, 125);
    LshLsh(1, k, e - 1);
    EitherError(rest, Pow2(k), e - 1);
    RoundsToNeighbour(negative, g, k);
  }

  lemma RoundsToNeighbour(negative: bool, g: nat, k: nat)
    ensures var r := RoundOff(ToNearest, negative, g, k);
      r == Rsh(g, k) || (r == Rsh(g, k) + 1 && Low(g, k) > 0)
  {
    hide Lsh, Rsh, Low;
    Positive(k);
  }

  /** The distance to either end of a gap of `unit` scaled by 2^s. */
  lemma EitherError(rest: nat, unit: nat, s: nat)
    requires rest < unit <= 0x100_0000 && s <= 253
    ensures Representable(Lsh(rest, s))
    ensures Lsh(rest, s) <= Lsh(unit, s)
    ensures rest > 0 ==> Representable(Lsh(unit, s) - Lsh(rest, s))
  {
    hide Lsh, Representable;
    ShortIsRepresentable(rest, s);
    LshAdd(rest, unit - rest, s);
    if rest > 0 { ShortIsRepresentable(unit - rest, s); }
  }

  lemma NormalError(mode: Mode, negative: bool, m: nat)
    requires 113 * 0x80_0000 <= m < 143 * 0x80_0000
    ensures Representable(Gap(Mag(23, m), Lsh(Mag(10, H.HalfMagnitude(mode, negative, m)), 125)))
  {
    hide Lsh, Rsh, Low, Mag, Representable, H.HalfMagnitude;
    var n := m - 112 * 0x80_0000;
    var t := 112 + Steps(Rsh(n, 23));
    Pow2Table();
    HR.Rebased(m);
    PatternBracket(10, 13, n, 112);
    Split(n, 13);
    Split(n, 23);
    LshTable(Rsh(n, 23));
    EitherError(Low(n, 13), Pow2(13), t);
    HR.NormalResult(mode, negative, m);
  }

  // ---------------------------------------------------- bfloat16 and tf32 results

  /** The same for rounding off the last k fraction bits of a float. */
  lemma RoundOffErrorIsRepresentable(p: nat, k: nat, m: nat)
    requires p + k == 23 && m < F.INFINITY
    ensures Representable(Gap(Mag(23, m), Lsh(Mag(p, RoundOff(ToNearest, false, m, k)), k)))
  {
    hide Lsh, Rsh, Low, Mag, Representable, RoundOff;
    Pow2Table();
    PatternBracket(p, k, m, 0);
    LshIdentity(Mag(23, m));
    Split(m, k);
    Split(m, 23);
    LshTable(Rsh(m, 23));
    Pow2GrowsTo(k, 24);
    EitherError(Low(m, k), Pow2(k), Steps(Rsh(m, 23)));
    RoundsToNeighbour(false, m, k);
  }

  lemma Bfloat16ErrorIsRepresentable(v: U32)
    requires F.IsFinite(v)
    ensures Representable(Gap(F.Abs(v), BFLOAT16.Point(Magnitude16(B.NarrowBits(v)))))
  {
    hide Lsh, Rsh, Low, Mag, Representable, RoundOff;
    B.NarrowBounds(F.Magnitude(v));
    RoundOffErrorIsRepresentable(7, 16, F.Magnitude(v));
  }

  lemma TfloatErrorIsRepresentable(v: U32)
    requires F.IsFinite(v)
    ensures Representable(Gap(F.Abs(v), TFLOAT.Point(F.Magnitude(T.NarrowBits(v)) / T.LAST_BIT)))
  {
    hide Lsh, Rsh, Low, Mag, Representable, RoundOff;
    T.NarrowBounds(F.Magnitude(v));
    RoundOffErrorIsRepresentable(10, 13, F.Magnitude(v));
  }

  /** For bfloat16 exp2(128) overflows type float.  Rounding to nearest or upward that is
      an infinity, and half a unit is met exactly below the overflow threshold; in the
      other directions an infinite result is measured from the largest float, and every
      conversion is within half a unit. */
  lemma Bfloat16WithinHalfUlpIff(v: U32, current: Mode)
    requires F.IsFinite(v)
    ensures var b := B.Bfloat16(B.NarrowBits(v));
      Distance(current, BFLOAT16, b.ToFloat(), v).AtMost(0.5) <==>
      F.Magnitude(v) < 0x7f7f_8000 || current == Downward || current == TowardZero
  {
    hide Lsh, Rsh, Low, Mag, UlpShift, FloorLog2, B.NarrowMagnitude, IsNearestEven, Scaled, F.Rounded, Representable, FabsDifference;
    var m, x := F.Magnitude(v), F.Abs(v);
    var r := B.NarrowMagnitude(m);
    B.NarrowBounds(m);
    Bfloat16Overflow(m);
    if r < B.INFINITY {
      var b := B.Bfloat16(B.NarrowBits(v));
      B.WideValue(r);
      B.NearestIsCorrect(v);
      B.WideValue(B.INFINITY);
      MagOrder(23, m, F.INFINITY);
      Bfloat16ErrorIsRepresentable(v);
      SmallDistance(BFLOAT16, B.INFINITY, v, F.Value(b.ToFloat()), r, current);
      FiniteDistance(BFLOAT16, b.ToFloat(), v, current);
    } else {
      Pow2Table();
      InfiniteResult(BFLOAT16, B.Bfloat16(B.NarrowBits(v)).ToFloat(), v, current);
    }
  }

  lemma SmallDistance(lim: Limits, top: nat, v: U32, value: int, r: nat, current: Mode)
    requires lim.Valid() && F.Abs(v) < lim.Point(top) && lim.J() <= 148
    requires IsNearestEven(lim.P(), top, lim.J(), F.Abs(v), r)
    requires value == F.Signed(F.Negative(v), lim.Point(r))
    requires Representable(Gap(F.Abs(v), lim.Point(r)))
    ensures Scaled(current, AbsoluteDifference(current, F.Value(v), value), UlpShift(lim, v)).AtMost(0.5)
  {
    hide Lsh, Rsh, Low, Mag, UlpShift, FloorLog2, Scaled, F.Rounded, Representable;
    RepresentableIsKept(current, F.Value(v) < value, Gap(F.Value(v), value));
    ScaledCompares(current, AbsoluteDifference(current, F.Value(v), value), UlpShift(lim, v));
    if F.Abs(v) > 0 {
      hide IsNearestEven;
      NearestWithinHalf(lim, top, v, r);
    } else {
      LshZero(lim.J());
      MagSmall(lim.P(), 0);
      PointOrder(lim, 0, r);
      assert Gap(0, lim.Point(r)) <= Gap(0, lim.Point(0));
    }
  }

  lemma FiniteDistance(lim: Limits, result: U32, v: U32, current: Mode)
    requires lim.Valid() && F.IsFinite(result) && F.IsFinite(v)
    ensures Distance(current, lim, result, v)
         == Scaled(current, AbsoluteDifference(current, F.Value(v), F.Value(result)), UlpShift(lim, v))
  {
    hide Lsh, Mag, UlpShift, Scaled, F.Rounded;
  }

  /** No unit is larger than both the reference and the smallest number of the format. */
  lemma UnitBounds(lim: Limits, v: U32)
    requires lim.OfFormat() && F.IsFinite(v)
    ensures lim.J() <= UlpShift(lim, v) <= 276
    ensures F.Abs(v) > 0 ==> Unit(lim, v) == Pow2(lim.J()) || Unit(lim, v) <= F.Abs(v)
  {
    hide Lsh, Rsh, Low, Mag, FloorLog2;
    var x := F.Abs(v);
    if x > 0 {
      var l := FloorLog2(x);
      FiniteBelow(v);
      FloorLog2Bounds(x);
      FloorLog2Less(x, 277);
      if UlpShift(lim, v) != lim.J() { Pow2GrowsTo(UlpShift(lim, v), l); }
    }
  }

  lemma FiniteBelow(v: U32)
    requires F.IsFinite(v)
    ensures F.Abs(v) < Pow2(277)
  {
    hide Lsh, Rsh, Low, Mag;
    Pow2Table();
    MagOrder(23, F.Magnitude(v), F.INFINITY);
    F.NormalValue(F.INFINITY, 255, 0);
    LshLsh(1, 23, 254);
  }

  /** Half a unit is a float, so rounding an error does not carry it across. */
  lemma HalfUnitKept(current: Mode, negative: bool, error: nat, s: nat)
    requires 0 < s <= 277
    ensures 2 * error <= Pow2(s) ==>
      F.Rounded(current, negative, error) < F.INFINITY && 2 * Mag(23, F.Rounded(current, negative, error)) <= Pow2(s)
    ensures 2 * error >= Pow2(s) ==> 2 * Mag(23, F.Rounded(current, negative, error)) >= Pow2(s)
  {
    hide Lsh, Rsh, Low, Mag, F.Rounded;
    var half := Pow2(s - 1);
    LshDouble(1, s - 1);
    PowerIsRepresentable(s - 1);
    RepresentableIsKept(current, negative, half);
    var a, r := F.Rounded(current, negative, half), F.Rounded(current, negative, error);
    MagOrder(23, a, r);
    if error <= half { F.RoundedMonotone(current, negative, error, half); }
    if error >= half { F.RoundedMonotone(current, negative, half, error); }
  }

  lemma PowerIsRepresentable(k: nat)
    requires k <= 276
    ensures Representable(Pow2(k))
  {
    hide Lsh, Representable;
    Pow2Table();
    if k < 23 {
      ShortIsRepresentable(1, k);
    } else {
      ShortIsRepresentable(0x80_0000, k - 23);
      LshLsh(1, 23, k - 23);
    }
  }

  /** The float patterns from which a conversion to bfloat16 or tf32 overflows. */
  function Threshold(lim: Limits): nat
    requires lim == BFLOAT16 || lim == TFLOAT
  {
    F.INFINITY - if lim == BFLOAT16 then 0x8000 else 0x1000
  }

  /** How an infinite result is measured against a finite reference: infinitely far, or
      from the largest float, and then nearer than half a unit only from the overflow
      threshold on. */
  lemma InfiniteResult(lim: Limits, result: U32, v: U32, current: Mode)
    requires (lim == BFLOAT16 || lim == TFLOAT) && F.Magnitude(result) == F.INFINITY && F.IsFinite(v)
    ensures F.OverflowsToInfinity(current, false) ==> Distance(current, lim, result, v) == Infinite
    ensures !F.OverflowsToInfinity(current, false) && Distance(current, lim, result, v).Below(0.5) ==>
      F.Magnitude(v) >= Threshold(lim) && F.Negative(result) == F.Negative(v)
    ensures F.Magnitude(v) >= Threshold(lim) && F.Negative(result) == F.Negative(v) ==>
      F.OverflowsToInfinity(current, false) || Distance(current, lim, result, v).AtMost(0.5)
  {
    hide Lsh, Rsh, Low, Mag, UlpShift, Scaled, Exp2, AbsoluteDifference;
    Exp2Values(current);
    if F.OverflowsToInfinity(current, false) {
      assert FabsDifference(current, v, Measured(current, lim, result)) == F.INFINITY;
      InfiniteScaled(current, UlpShift(lim, v));
    } else {
      var d := AbsoluteDifference(current, F.Value(v), F.Signed(F.Negative(result), Mag(23, F.INFINITY - 1)));
      assert FabsDifference(current, v, Measured(current, lim, result)) == d;
      ScaledCompares(current, d, UlpShift(lim, v));
      hide Distance, FabsDifference;
      if 2 * Mag(23, d) < Unit(lim, v) { NearLargest(lim, F.Negative(result), v, current); }
      if F.Magnitude(v) >= Threshold(lim) && F.Negative(result) == F.Negative(v) {
        LargestIsNear(lim, v, current);
      }
    }
  }

  lemma InfiniteScaled(current: Mode, s: nat)
    ensures Scaled(current, F.INFINITY, s) == Infinite
  {
  }

  /** In the last binade of float, in steps of 2^253. */
  lemma LastBinade(lim: Limits, v: U32)
    requires (lim == BFLOAT16 || lim == TFLOAT) && F.IsFinite(v) && F.Magnitude(v) > 254 * 0x80_0000
    ensures var j := F.INFINITY - 1 - F.Magnitude(v);
      F.Abs(v) == Mag(23, F.INFINITY - 1) - Lsh(j, 253)
    ensures Unit(lim, v) == Lsh(2 * (F.INFINITY - Threshold(lim)), 253)
  {
    hide Lsh, Rsh, Low, Mag, FloorLog2;
    var m := F.Magnitude(v);
    var f := m - 254 * 0x80_0000;
    Pow2Table();
    F.NormalValue(m, 254, f);
    LargestFloat();
    LshAdd(0x80_0000 + f, 0x80_0000 - f, 253);
    LshAdd(0x7f_ffff - f, 1, 253);
    LshLsh(1, 24, 253);
    LshLsh(1, 23, 253);
    LshOrder(0x80_0000, 0x80_0000 + f, 253);
    LshOrder(0x80_0000 + f, 0x100_0000, 253);
    FloorLog2Unique(F.Abs(v), 276);
    if lim == BFLOAT16 { LshLsh(1, 16, 253); } else { LshLsh(1, 13, 253); }
  }

  lemma LargestIsNear(lim: Limits, v: U32, current: Mode)
    requires (lim == BFLOAT16 || lim == TFLOAT) && F.IsFinite(v) && F.Magnitude(v) >= Threshold(lim)
    ensures var d := AbsoluteDifference(current, F.Value(v), F.Signed(F.Negative(v), Mag(23, F.INFINITY - 1)));
      d < F.INFINITY && 2 * Mag(23, d) <= Unit(lim, v)
  {
    hide Lsh, Rsh, Low, Mag, UlpShift, F.Rounded, Representable;
    var j := F.INFINITY - 1 - F.Magnitude(v);
    LastBinade(lim, v);
    ShortIsRepresentable(j, 253);
    LshDouble(j, 253);
    LshOrder(2 * j, 2 * (F.INFINITY - Threshold(lim)), 253);
    var target := F.Signed(F.Negative(v), Mag(23, F.INFINITY - 1));
    RepresentableIsKept(current, F.Value(v) < target, Lsh(j, 253));
  }

  lemma NearLargest(lim: Limits, negative: bool, v: U32, current: Mode)
    requires (lim == BFLOAT16 || lim == TFLOAT) && F.IsFinite(v)
    requires 2 * Mag(23, AbsoluteDifference(current, F.Value(v), F.Signed(negative, Mag(23, F.INFINITY - 1)))) < Unit(lim, v)
    ensures F.Magnitude(v) >= Threshold(lim) && negative == F.Negative(v)
  {
    hide Lsh, Rsh, Low, Mag, UlpShift, F.Rounded;
    var target := F.Signed(negative, Mag(23, F.INFINITY - 1));
    var error := Gap(F.Value(v), target);
    UnitBounds(lim, v);
    HalfUnitKept(current, F.Value(v) < target, error, UlpShift(lim, v));
    LargestFloat();
    WideUnit(lim, v);
    LshDouble(1, 276);
    Pow2Grows(254, 276);
    LshDouble(1, 253);
    if F.Magnitude(v) <= 254 * 0x80_0000 {
      SecondLast(v);
      assert false;
    } else {
      var j := F.INFINITY - 1 - F.Magnitude(v);
      LastBinade(lim, v);
      LshDouble(j, 253);
      LshOrder(2 * (F.INFINITY - Threshold(lim)), 2 * j, 253);
      LshOrder(2 * j, 2 * (F.INFINITY - Threshold(lim)), 253);
    }
  }

  lemma WideUnit(lim: Limits, v: U32)
    requires (lim == BFLOAT16 || lim == TFLOAT) && F.IsFinite(v)
    ensures Unit(lim, v) <= Pow2(276) && (F.Abs(v) >= Pow2(276) ==> Unit(lim, v) <= F.Abs(v))
  {
    hide Lsh, Mag, UlpShift;
    UnitBounds(lim, v);
    Pow2GrowsTo(UlpShift(lim, v), 276);
  }

  lemma SecondLast(v: U32)
    requires F.Magnitude(v) <= 254 * 0x80_0000
    ensures F.Abs(v) <= Pow2(276)
  {
    hide Lsh, Rsh, Low, Mag;
    Pow2Table();
    F.NormalValue(254 * 0x80_0000, 254, 0);
    LshLsh(1, 23, 253);
    MagOrder(23, 254 * 0x80_0000, F.Magnitude(v));
  }

  lemma Bfloat16Overflow(m: nat)
    requires m < F.INFINITY
    ensures B.NarrowMagnitude(m) <= B.INFINITY
    ensures B.NarrowMagnitude(m) == B.INFINITY <==> m >= 0x7f7f_8000
  {
    hide Lsh, Rsh, Low;
    Pow2Table();
    Split(m, 16);
    LshTable(Rsh(m, 16));
  }

  lemma TfloatWithinHalfUlpIff(v: U32, current: Mode)
    requires F.IsFinite(v)
    ensures Distance(current, TFLOAT, T.NarrowBits(v), v).AtMost(0.5) <==>
      F.Magnitude(v) < 0x7f7f_f000 || current == Downward || current == TowardZero
  {
    hide Lsh, Rsh, Low, Mag, UlpShift, FloorLog2, T.NarrowMagnitude, IsNearestEven, Scaled, F.Rounded, Representable, FabsDifference;
    var m, x := F.Magnitude(v), F.Abs(v);
    T.NarrowBounds(m);
    var r := T.NarrowMagnitude(m) / T.LAST_BIT;
    TfloatOverflow(m);
    if r < 0x3fc00 {
      T.WideValue(r);
      T.NearestIsCorrect(v);
      T.WideValue(0x3fc00);
      MagOrder(23, m, F.INFINITY);
      TfloatErrorIsRepresentable(v);
      SmallDistance(TFLOAT, 0x3fc00, v, F.Value(T.NarrowBits(v)), r, current);
      FiniteDistance(TFLOAT, T.NarrowBits(v), v, current);
    } else {
      InfiniteResult(TFLOAT, T.NarrowBits(v), v, current);
    }
  }

  lemma TfloatOverflow(m: nat)
    requires m < F.INFINITY
    ensures T.NarrowMagnitude(m) <= F.INFINITY
    ensures T.NarrowMagnitude(m) == F.INFINITY <==> m >= 0x7f7f_f000
  {
    hide Lsh, Rsh, Low, RoundOff;
    RoundOffMonotone(ToNearest, false, m, F.INFINITY, 13);
    LshTable(0x3_fc00);
    RoundOffExact(ToNearest, false, 0x3_fc00, 13);
    T.NearTie(m);
  }
}
