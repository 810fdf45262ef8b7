/** The binary16 type of half.cpp. */
module HalfFormat {
  import opened Bits
  import opened BinaryFormat
  import F = Float32

  const SIGN: nat := 0x8000
  const INFINITY: nat := 0x7c00

  /** What the constructor from float computes, on magnitudes: a rounding to the
      subnormal unit 2^-24 below 2^-14, a rounding of the pattern in the normal
      range, infinity above it, and quiet NaNs. */
  function HalfMagnitude(mode: Mode, negative: bool, m: nat): nat {
    if m > F.INFINITY then 0x7e00 + Low(Rsh(m, 13), 9)
    else if m >= 143 * 0x80_0000 then INFINITY
    else if m >= 113 * 0x80_0000 then RoundOff(mode, negative, m - 112 * 0x80_0000, 13)
    else RoundOff(ToNearest, negative, Mag(23, m), 125)
  }

  lemma HalfMagnitudeBounds(mode: Mode, negative: bool, m: nat)
    requires m < F.SIGN
    ensures HalfMagnitude(mode, negative, m) < SIGN
    ensures HalfMagnitude(mode, negative, m) > INFINITY <==> m > F.INFINITY
  {
    hide Lsh, Low, Rsh, Mag, RoundOff;
    if m > F.INFINITY {
      Pow2Table();
      Split(Rsh(m, 13), 9);
    } else if 113 * 0x80_0000 <= m < 143 * 0x80_0000 {
      RoundOffMonotone(mode, negative, m - 112 * 0x80_0000, 31 * 0x80_0000, 13);
      LshTable(INFINITY);
      RoundOffExact(mode, negative, INFINITY, 13);
    } else if m < 113 * 0x80_0000 {
      SmallIsBelow(m);
      RoundOffMonotone(ToNearest, negative, Mag(23, m), Lsh(0x400, 125), 125);
      RoundOffExact(ToNearest, negative, 0x400, 125);
    }
  }

  /** Float magnitudes below 2^-14 have values below 2^10 subnormal units of half. */
  lemma SmallIsBelow(m: nat)
    ensures m < 113 * 0x80_0000 ==> Mag(23, m) < Lsh(0x400, 125)
    ensures m >= 113 * 0x80_0000 ==> Mag(23, m) >= Lsh(0x400, 125)
  {
    MagOrder(23, m, 113 * 0x80_0000);
    MinNormalValue();
  }

  lemma MinNormalValue()
    ensures Mag(23, 113 * 0x80_0000) == Lsh(0x400, 125)
  {
    hide Lsh, Rsh, Low;
    Pow2Table();
    LshTable(113);
    SplitUnique(113 * 0x80_0000, 23, 113, 0);
    LshTable(0x400);
    LshLsh(0x400, 13, 112);
  }

  function HalfBits(mode: Mode, v: U32): U16 {
    HalfMagnitudeBounds(mode, F.Negative(v), F.Magnitude(v));
    HalfMagnitude(mode, F.Negative(v), F.Magnitude(v)) + if F.Negative(v) then SIGN else 0
  }

  /** Half objects are copied, never shared: a value with the pattern in `data`. */
  datatype Half = Half(data: U16) {

    /** The constructor from float, under the rounding direction `mode`. */
    static method FromFloat(v: U32, mode: Mode) returns (h: Half)
      ensures h.data == HalfBits(mode, v)
    {
      hide Lsh, Rsh, Low, And, Or, Mag, RoundOff, F.Shl32;
      var sign := Rsh(And(v, 0x8000_0000), 16);
      var mantissa32 := And(v, 0x007f_ffff);
      var biasedExp32 := Rsh(And(v, 0x7f80_0000), 23);
      var biasedExp16: U16, mantissa16: U16 := 0, 0;
      ghost var m, negative := F.Magnitude(v), F.Negative(v);
      FieldsHold(v);
      if biasedExp32 == 0xff {
        biasedExp16 := 0x1f;
        if mantissa32 != 0 {
          QuietBit(mantissa32);
          mantissa16 := Or(Rsh(mantissa32, 13), 0x200);
        }
        InfinityOrNaN(m, mantissa32);
      } else if biasedExp32 != 0 {
        var exp: int := biasedExp32 as int - 127;
        if exp < -24 - 1 {
          mantissa16 := 0;
          TooSmall(m, negative);
        } else if exp < -14 {
          var denormMantissaShift := -(exp + 1);
          var implicitOneDenormShift := -(exp + 13 + 1);
          SubnormalSteps(m, negative, biasedExp32, mantissa32);
          biasedExp16 := 0;
          mantissa16 := Or(Rsh(0x400, implicitOneDenormShift), Rsh(mantissa32, denormMantissaShift));
          var next := And(Or(Rsh(0x400, implicitOneDenormShift - 1),
                             Rsh(mantissa32, denormMantissaShift - 1)), 1) != 0;
          var rest := F.Shl32(mantissa32, 4 * 8 - (denormMantissaShift - 1)) != 0;
          var isOdd := And(mantissa16, 1) != 0;
          if next && (isOdd || rest) {
            mantissa16 := mantissa16 + 1;
          }
        } else if exp <= 15 {
          NormalSteps(mode, negative, m, biasedExp32, mantissa32);
          biasedExp16 := exp + 15;
          mantissa16 := Rsh(mantissa32, 13);
          var next := And(mantissa32, 0x1000) != 0;
          var rest := And(mantissa32, 0x0fff) != 0;
          var isOdd := And(mantissa16, 1) != 0;
          var isNegative := sign != 0;
          if mode == ToNearest {
            if next && (isOdd || rest) {
              mantissa16 := mantissa16 + 1;
            }
          } else if mode == Upward {
            if !isNegative && (next || rest) {
              mantissa16 := mantissa16 + 1;
            }
          } else if mode == Downward {
            if isNegative && (next || rest) {
              mantissa16 := mantissa16 + 1;
            }
          }
        } else {
          biasedExp16 := 0x1f;
        }
      } else {
        TooSmall(m, negative);
      }
      LshTable(biasedExp16);
      h := Half(sign + Lsh(biasedExp16, 10) + mantissa16);
    }

    /** The conversion to float. */
    function ToFloat(): (f: U32)
      ensures F.Magnitude(f) == WideMagnitude(Magnitude16(data))
      ensures F.Negative(f) <==> data >= SIGN
    {
      ToFloatPattern(data);
      var exp := And(data, 0x7c00);
      var mantissa := And(data, 0x03ff);
      var sign := F.Shl32(And(data, 0x8000), 16);
      var nan := if exp == 0x7c00 then 0x7f80_0000 else 0;
      if Or(exp, mantissa) == 0 then
        sign
      else if exp != 0 then
        Or(Or(F.Shl32(Or(exp + Lsh(127 - 15, 10), mantissa), 13), nan), sign)
      else
        Or(SubnormalToFloat(mantissa), sign)
    }
  }

  // ------------------------------------------------------ steps of ToFloat

  /** A subnormal: its fraction, converted to float and multiplied by 2^-24. */
  function SubnormalToFloat(mantissa: nat): nat
    requires 0 < mantissa < 0x400
  {
    F.FromIntIsExact(mantissa);
    LshTable(127 - 15 - 9);
    F.TimesPowerOfTwo(127 - 15 - 9, F.FromInt(mantissa))
  }

  /** The float magnitude of a half magnitude: a normal number moves its exponent
      by 127 - 15, infinity and NaN keep theirs all ones, a subnormal is normalized. */
  function WideMagnitude(c: nat): nat
    requires c < SIGN
  {
    if c == 0 then 0
    else if c < 0x400 then
      F.FromIntIsExact(c);
      F.FromInt(c) - 24 * 0x80_0000
    else if c < INFINITY then 0x2000 * (c + 112 * 0x400)
    else F.INFINITY + 0x2000 * (c - INFINITY)
  }

  lemma HalfFields(d: U16)
    ensures var c := Magnitude16(d); var e, f := And(d, 0x7c00), And(d, 0x03ff);
      && F.Shl32(And(d, 0x8000), 16) == (if d >= SIGN then F.SIGN else 0)
      && c == e + f && f < 0x400 && e % 0x400 == 0 && e <= 0x7c00
      && (Or(e, f) == 0 <==> c == 0)
      && Or(e + 0x1c000, f) == c + 0x1c000
  {
    hide Lsh, Rsh, Low, And, Or;
    var c := Magnitude16(d);
    var e := Rsh(c, 10);
    HalfMasks(d);
    Pow2Table();
    Split(c, 10);
    LshTable(e);
    LshTable(e + 112);
    OrDisjoint(e, Low(c, 10), 10);
    OrDisjoint(e + 112, Low(c, 10), 10);
  }

  lemma HalfMasks(d: U16)
    ensures var c := Magnitude16(d);
      && F.Shl32(And(d, 0x8000), 16) == (if d >= SIGN then F.SIGN else 0)
      && And(d, 0x7c00) == 0x400 * Rsh(c, 10) && And(d, 0x03ff) == Low(c, 10) && Rsh(c, 10) <= 0x1f
  {
    hide Lsh, Rsh, Low, And;
    var c := Magnitude16(d);
    var s, e := if d >= SIGN then 1 else 0, Rsh(c, 10);
    Pow2Table();
    LshTable(e);
    LshTable(s);
    LshTable(1);
    LshTable(0x1f);
    RshBelow(c, 5, 10);
    RshHigh(s, c, 5, 10);
    SplitUnique(Rsh(d, 10), 5, s, e);
    RshHigh(s, c, 0, 15);
    AndFieldMask(d, 5, 10);
    AndLowMask(d, 10);
    SplitUnique(d, 15, s, c);
    LowSmall(s, 1);
    AndFieldMask(d, 1, 15);
    LshTable(SIGN);
    LshZero(16);
    LowSmall(F.SIGN, 32);
    LowSmall(0, 32);
  }

  lemma WithSign(x: nat, negative: bool)
    requires x < F.SIGN
    ensures Or(x, if negative then F.SIGN else 0) == x + if negative then F.SIGN else 0
  {
    hide Lsh, Or;
    var s := if negative then 1 else 0;
    Pow2Table();
    LshTable(s);
    LshZero(31);
    OrSplit(0, s, x, 0, 31);
    OrZero(s);
    OrZero(x);
  }

  /** Exponents all ones: `|` with the float's exponent mask. */
  lemma WithInfinityExponent(f: nat)
    requires f < 0x400
    ensures Or(0x8f * 0x80_0000 + 0x2000 * f, 0x7f80_0000) == 0x7f80_0000 + 0x2000 * f
  {
    hide Lsh, Or;
    Pow2Table();
    LshTable(0x8f);
    LshTable(0xff);
    OrSplit(0x8f, 0xff, 0x2000 * f, 0, 23);
    OrZero(0x2000 * f);
    OrByte();
  }

  lemma OrByte()
    ensures Or(0x8f, 0xff) == 0xff
  {
    assert Or(0x8, 0xf) == 0xf;
    OrStep(0x8f, 0xff);
    OrStep(0x47, 0x7f);
    OrStep(0x23, 0x3f);
    OrStep(0x11, 0x1f);
  }

  /** What the shifts, masks and the multiplication of the conversion produce. */
  lemma ToFloatPattern(d: U16)
    ensures var e, f := And(d, 0x7c00), And(d, 0x03ff);
            var nan := if e == 0x7c00 then 0x7f80_0000 else 0;
            var sign := F.Shl32(And(d, 0x8000), 16);
      && WideMagnitude(Magnitude16(d)) < F.SIGN
      && sign == (if d >= SIGN then F.SIGN else 0)
      && (Or(e, f) == 0 <==> Magnitude16(d) == 0)
      && (e == 0 && f != 0 ==>
            f < 0x400 && SubnormalToFloat(f) == WideMagnitude(Magnitude16(d)))
      && (e != 0 ==> Or(F.Shl32(Or(e + Lsh(112, 10), f), 13), nan) == WideMagnitude(Magnitude16(d)))
      && Or(WideMagnitude(Magnitude16(d)), sign) == WideMagnitude(Magnitude16(d)) + sign
  {
    hide Lsh, Rsh, Low, And, Or, F.FromInt;
    var c, e, f := Magnitude16(d), And(d, 0x7c00), And(d, 0x03ff);
    HalfFields(d);
    LshTable(112);
    Pow2Table();
    if e == 0 && f != 0 {
      F.FromIntIsExact(f);
      LshTable(103);
      assert c == f;
    } else if e != 0 {
      LshTable(c + 0x1c000);
      LowSmall(0x2000 * (c + 0x1c000), 32);
      OrZero(0x2000 * (c + 0x1c000));
      if e == 0x7c00 { WithInfinityExponent(f); }
    }
    WithSign(WideMagnitude(c), d >= SIGN);
  }

  /** The conversion keeps every finite value, subnormals included. */
  lemma WideValue(c: nat)
    requires c < INFINITY
    ensures Mag(23, WideMagnitude(c)) == Lsh(Mag(10, c), 125)
  {
    hide Lsh, Rsh, Low, Mag, F.FromInt;
    Pow2Table();
    if c < 0x400 {
      MagSmall(10, c);
      if c == 0 {
        MagSmall(23, 0);
        LshZero(125);
      } else {
        F.FromIntIsExact(c);
        LshTable(24);
        MagExponentShift(23, WideMagnitude(c), 24);
        LshLsh(c, 125, 24);
        LshOrder(Mag(23, WideMagnitude(c)), Lsh(c, 125), 24);
      }
    } else {
      LshTable(112);
      LshTable(c);
      MagExponentShift(10, c, 112);
      LshTable(c + 112 * 0x400);
      SplitUnique(0x2000 * (c + 112 * 0x400), 13, c + 112 * 0x400, 0);
      MagRefine(10, 13, WideMagnitude(c));
      LshZero(Steps(Rsh(WideMagnitude(c), 23)));
      LshLsh(Mag(10, c), 112, 13);
    }
  }

  /** The factors that the subnormal branch multiplies, 2^-24 and the fraction: their
      product is a float, so no rounding direction changes it. */
  lemma SubnormalProductIsExact(f: nat)
    requires 0 < f < 0x400
    ensures Mag(23, Lsh(103, 23)) == Pow2(125) && Mag(23, F.FromInt(f)) == Lsh(f, 149)
    ensures var r := SubnormalToFloat(f);
      && Lsh(Mag(23, r), 149) == Pow2(125) * Lsh(f, 149)
      && IsNearestEven(23, F.INFINITY, 149, Pow2(125) * Lsh(f, 149), r)
      && r == WideMagnitude(f)
  {
    hide Lsh, Rsh, Low, Mag, F.FromInt, IsNearestEven;
    F.FromIntIsExact(f);
    LshTable(103);
    Pow2Table();
    F.NormalValue(Lsh(103, 23), 103, 0);
    LshLsh(1, 23, 102);
    F.ProductIsExact(103, F.FromInt(f));
  }

  lemma {:induction false} WideOrder(a: nat, b: nat)
    requires a < SIGN && b < SIGN
    ensures a < b <==> WideMagnitude(a) < WideMagnitude(b)
    ensures a == b <==> WideMagnitude(a) == WideMagnitude(b)
  {
    hide Lsh, Rsh, Low, Mag, F.FromInt;
    Pow2Table();
    WideSubnormal(a);
    WideSubnormal(b);
    if a < 0x400 && b < 0x400 {
      WideValue(a);
      WideValue(b);
      MagSmall(10, a);
      MagSmall(10, b);
      LshOrder(a, b, 125);
      MagOrder(23, WideMagnitude(a), WideMagnitude(b));
    }
  }

  lemma WideSubnormal(c: nat)
    requires c < SIGN
    ensures c < 0x400 ==> WideMagnitude(c) < 113 * 0x80_0000
  {
    hide Lsh, Rsh, Low, Mag, F.FromInt;
    Pow2Table();
    if c < 0x400 {
      WideValue(c);
      MagSmall(10, c);
      LshOrder(c, 0x400, 125);
      SmallIsBelow(WideMagnitude(c));
    }
  }

  // ------------------------------------------------- steps of the constructor

  lemma FieldsHold(v: U32)
    ensures var m := F.Magnitude(v); var e, f := Rsh(And(v, 0x7f80_0000), 23), And(v, 0x007f_ffff);
      && Rsh(And(v, 0x8000_0000), 16) == (if F.Negative(v) then SIGN else 0)
      && m == 0x80_0000 * e + f && f < 0x80_0000 && e <= 0xff
  {
    hide Lsh, Rsh, Low, And;
    var e := Rsh(F.Magnitude(v), 23);
    F.Fields(v);
    LshTable(e);
    LshTable(SIGN);
    LshZero(16);
    RoundOffExact(TowardZero, false, e, 23);
    RoundOffExact(TowardZero, false, SIGN, 16);
  }

  /** A quiet NaN: bit 9 set, the other fraction bits kept. */
  lemma QuietBit(f: nat)
    requires f < 0x80_0000
    ensures Or(Rsh(f, 13), 0x200) == 0x200 + Low(Rsh(f, 13), 9) < 0x400
  {
    hide Lsh, Rsh, Low;
    Pow2Table();
    var q := Rsh(f, 13);
    var a := Rsh(q, 9);
    Split(f, 13);
    Split(q, 9);
    LshTable(q);
    LshTable(a);
    LshTable(1);
    OrSplit(a, 1, Low(q, 9), 0, 9);
    LshTable(Or(a, 1));
  }

  lemma InfinityOrNaN(m: nat, f: nat)
    requires m == 0xff * 0x80_0000 + f && f < 0x80_0000
    ensures Low(Rsh(m, 13), 9) == Low(Rsh(f, 13), 9)
  {
    hide Lsh, Rsh, Low;
    LshTable(0xff);
    RshHigh(0xff, f, 10, 13);
    RshHigh(0xff, Rsh(f, 13), 1, 9);
  }

  /** Below 2^-25 the nearest half is zero. */
  lemma TooSmall(m: nat, negative: bool)
    requires m < 102 * 0x80_0000
    ensures RoundOff(ToNearest, negative, Mag(23, m), 125) == 0
  {
    hide Lsh, Rsh, Low, Mag;
    Pow2Table();
    MagOrder(23, m, 102 * 0x80_0000);
    assert Mag(23, 102 * 0x80_0000) == Pow2(124) by {
      F.NormalValue(102 * 0x80_0000, 102, 0);
      LshLsh(1, 23, 101);
    }
    LshDouble(1, 124);
    LowSmall(Mag(23, m), 125);
  }

  /** Between 2^-25 and 2^-14 the constructor restores the implicit one and keeps 126 - e
      fewer bits; its kept, guard and sticky bits round the operand to a multiple of the
      subnormal unit. */
  lemma SubnormalSteps(m: nat, negative: bool, e: nat, f: nat)
    requires 102 <= e < 113 && m == 0x80_0000 * e + f && f < 0x80_0000
    ensures var k, kept := 126 - e, Or(Rsh(0x400, 113 - e), Rsh(f, 126 - e));
            var next, rest := And(Or(Rsh(0x400, 112 - e), Rsh(f, k - 1)), 1) != 0, F.Shl32(f, 32 - (k - 1)) != 0;
      && kept < 0x400
      && RoundOff(ToNearest, negative, Mag(23, m), 125)
         == kept + if next && (And(kept, 1) != 0 || rest) then 1 else 0
  {
    hide Lsh, Rsh, Low, And, Or, Mag, RoundOff, F.Shl32;
    var g, k := 0x80_0000 + f, 126 - e;
    SubnormalBits(m, negative, e, f);
    AndOne(Rsh(g, k));
    AndOne(Rsh(g, k - 1));
    GuardAndSticky(ToNearest, negative, g, k);
  }

  /** The kept, guard and sticky bits in terms of the significand g. */
  lemma SubnormalBits(m: nat, negative: bool, e: nat, f: nat)
    requires 102 <= e < 113 && m == 0x80_0000 * e + f && f < 0x80_0000
    ensures var g, k := 0x80_0000 + f, 126 - e;
      && Or(Rsh(0x400, 113 - e), Rsh(f, k)) == Rsh(g, k) < 0x400
      && Or(Rsh(0x400, 112 - e), Rsh(f, k - 1)) == Rsh(g, k - 1)
      && (F.Shl32(f, 32 - (k - 1)) != 0 <==> Low(g, k - 1) != 0)
      && RoundOff(ToNearest, negative, Mag(23, m), 125) == RoundOff(ToNearest, negative, g, k)
  {
    hide Lsh, Rsh, Low, Or, Mag, RoundOff, F.Shl32;
    var g, k := 0x80_0000 + f, 126 - e;
    KeptBits(f, 113 - e);
    KeptBits(f, 112 - e);
    StickyBits(f, k - 1);
    F.NormalValue(m, e, f);
    RoundOffScaled(ToNearest, negative, g, k, e - 1);
    Pow2Table();
    RshBelow(g, 10, k);
    if k > 14 { Pow2Grows(24, 10 + k); }
  }

  lemma KeptBits(f: nat, j: nat)
    requires f < 0x80_0000
    ensures Or(Rsh(0x400, j), Rsh(f, 13 + j)) == Rsh(0x80_0000 + f, 13 + j)
  {
    hide Lsh, Rsh, Low, Or;
    Pow2Table();
    LshTable(0x400);
    LshTable(1);
    SplitUnique(0x80_0000, 13, 0x400, 0);
    RshRsh(0x80_0000, 13, j);
    OrDisjoint(1, f, 23);
    RshOr(0x80_0000, f, 13 + j);
  }

  lemma StickyBits(f: nat, k: nat)
    requires f < 0x80_0000 && k <= 23
    ensures F.Shl32(f, 32 - k) != 0 <==> Low(0x80_0000 + f, k) != 0
  {
    hide Lsh, Rsh, Low;
    Pow2Table();
    LshTable(1);
    LshLsh(1, 23 - k, k);
    RshHigh(1, f, 23 - k, k);
    Split(f, k);
    SumScaled(Rsh(f, k), Low(f, k), k, 32 - k);
    RestScaled(Low(f, k), k, 32 - k);
    SplitUnique(Lsh(f, 32 - k), 32, Rsh(f, k), Lsh(Low(f, k), 32 - k));
    LshZero(32 - k);
    LshOrder(0, Low(f, k), 32 - k);
  }

  /** In the normal range the constructor rounds the fraction and lets the carry
      run into the exponent. */
  lemma NormalSteps(mode: Mode, negative: bool, m: nat, e: nat, f: nat)
    requires 113 <= e < 143 && m == 0x80_0000 * e + f && f < 0x80_0000
    ensures var guard, sticky := And(f, 0x1000) != 0, And(f, 0x0fff) != 0;
      && Rsh(f, 13) < 0x400
      && HalfMagnitude(mode, negative, m) == 0x400 * (e - 112) + Rsh(f, 13) +
           if match mode
              case ToNearest => guard && (And(Rsh(f, 13), 1) != 0 || sticky)
              case Upward => !negative && (guard || sticky)
              case Downward => negative && (guard || sticky)
              case TowardZero => false
           then 1 else 0
  {
    hide Lsh, Rsh, Low, And, RoundOff;
    var x := m - 112 * 0x80_0000;
    Pow2Table();
    AndOne(Rsh(f, 13));
    LshTable(e - 112);
    RshHigh(e - 112, f, 10, 13);
    RshHigh(e - 112, f, 11, 12);
    LshDouble(e - 112, 10);
    Split(f, 13);
    LshTable(Rsh(f, 13));
    GuardAndSticky(mode, negative, x, 13);
    AndFieldMask(f, 1, 12);
    LshTable(1);
    AndLowMask(f, 12);
    LowOne(Rsh(f, 12));
    LshTable(Low(Rsh(f, 12), 1));
  }
}
