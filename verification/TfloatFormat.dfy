/** The tf32 type: a binary32 pattern whose low 13 bits are zero. */
module TfloatFormat {
  import opened Bits
  import opened BinaryFormat
  import F = Float32
  import H = HalfFormat

  const LAST_BIT: nat := 0x2000

  /** What the constructor computes, on magnitudes. */
  function NarrowMagnitude(m: nat): nat {
    if m < F.INFINITY then LAST_BIT * RoundOff(ToNearest, false, m, 13)
    else if Low(m, 13) == 0 then m
    else 0x7fff_e000
  }

  function NarrowBits(v: U32): U32 {
    NarrowBounds(F.Magnitude(v));
    NarrowMagnitude(F.Magnitude(v)) + if F.Negative(v) then F.SIGN else 0
  }

  lemma NarrowBounds(m: nat)
    requires m < F.SIGN
    ensures NarrowMagnitude(m) < F.SIGN
    ensures NarrowMagnitude(m) > F.INFINITY <==> m > F.INFINITY
    ensures m >= F.INFINITY ==> NarrowMagnitude(m) >= F.INFINITY
    ensures NarrowMagnitude(m) % LAST_BIT == 0
  {
    hide Lsh, Rsh, Low, RoundOff;
    Pow2Table();
    Split(m, 13);
    LshTable(Rsh(m, 13));
    if m < F.INFINITY {
      RoundOffMonotone(ToNearest, false, m, F.INFINITY, 13);
      LshTable(0x3fc00);
      RoundOffExact(ToNearest, false, 0x3fc00, 13);
    }
  }

  datatype Tfloat = Tfloat(data: U32) {

    /** The constructor from float. */
    static method FromFloat(v: U32) returns (t: Tfloat)
      ensures t.data == NarrowBits(v)
    {
      hide Lsh, Rsh, Low, And, Or;
      ghost var m := F.Magnitude(v);
      NarrowSteps(v);
      NarrowBounds(m);
      var tmp: U32 := v;
      var remainder := And(tmp, 0x0000_1fff);
      tmp := And(tmp, 0xffff_e000);
      var isNanOrInf := And(tmp, 0x7f80_0000) == 0x7f80_0000;
      if !isNanOrInf {
        if (remainder > 0x1000 && tmp != 0xffff_e000) ||
           (remainder == 0x1000 && tmp != 0xffff_e000 && And(tmp, 0x2000) != 0) {
          tmp := tmp + 0x2000;
        }
      } else {
        if remainder != 0 {
          FillFraction(if F.Negative(v) then F.SIGN else 0, LAST_BIT * Rsh(m, 13));
          tmp := Or(tmp, 0x007f_e000);
        }
      }
      t := Tfloat(tmp);
    }

    /** The conversion to float: the same bits. */
    function ToFloat(): U32 { data }
  }

  lemma NarrowSteps(v: U32)
    ensures var m, s := F.Magnitude(v), if F.Negative(v) then F.SIGN else 0;
            var kept := And(v, 0xffff_e000);
      && kept == s + LAST_BIT * Rsh(m, 13) && LAST_BIT * Rsh(m, 13) < F.SIGN
      && And(v, 0x1fff) == Low(m, 13) < 0x2000
      && m == LAST_BIT * Rsh(m, 13) + Low(m, 13)
      && (And(kept, 0x7f80_0000) == 0x7f80_0000 <==> m >= F.INFINITY)
      && (And(kept, 0x2000) != 0 <==> Rsh(m, 13) % 2 == 1)
      && RoundOff(ToNearest, false, m, 13) == Rsh(m, 13) +
           if Low(m, 13) > 0x1000 || (Low(m, 13) == 0x1000 && Rsh(m, 13) % 2 == 1) then 1 else 0
  {
    hide Lsh, Rsh, Low, And;
    var m, s := F.Magnitude(v), if F.Negative(v) then 1 else 0;
    var c := Rsh(m, 13);
    Pow2Table();
    LshTable(s);
    LshTable(c);
    Split(m, 13);
    AndLowMask(v, 13);
    RshHigh(s, m, 18, 13);
    LshTable(0x7_ffff);
    AndFieldMask(v, 19, 13);
    LowSmall(Lsh(s, 18) + c, 19);
    LshTable(0x4_0000 * s + c);
    KeptFields(And(v, 0xffff_e000), s, c);
  }

  lemma KeptFields(kept: U32, s: nat, c: nat)
    requires s <= 1 && c < 0x4_0000 && kept == F.SIGN * s + LAST_BIT * c
    ensures And(kept, 0x7f80_0000) == 0x7f80_0000 <==> LAST_BIT * c >= F.INFINITY
    ensures And(kept, 0x2000) != 0 <==> c % 2 == 1
  {
    hide Lsh, Rsh, Low, And;
    Pow2Table();
    F.Fields(kept);
    LshTable(Rsh(F.Magnitude(kept), 23));
    LshTable(0x4_0000 * s + c);
    SplitUnique(kept, 13, 0x4_0000 * s + c, 0);
    AndFieldMask(kept, 1, 13);
    LshTable(1);
    LowOne(0x4_0000 * s + c);
    LshTable(Low(Rsh(kept, 13), 1));
  }

  /** `tmp |= mantissa_mask` on a pattern whose exponent is all ones. */
  lemma FillFraction(s: nat, c: nat)
    requires (s == 0 || s == F.SIGN) && F.INFINITY <= c < F.SIGN && c % LAST_BIT == 0
    ensures Or(s + c, 0x007f_e000) == s + 0x7fff_e000
  {
    hide Lsh, Rsh, Low, Or;
    var q, f := s / 0x80_0000 + 0xff, (c - F.INFINITY) / LAST_BIT;
    Pow2Table();
    LshTable(q);
    LshTable(f);
    LshTable(0x3ff);
    LshZero(23);
    OrSplit(q, 0, LAST_BIT * f, 0x7f_e000, 23);
    OrZero(q);
    OrSplit(f, 0x3ff, 0, 0, 13);
    OrZero(0);
    OrWithOnes(f, 10);
  }

  /** Rounding to multiples of 2^13 moves by at most 2^12, to an even one at a tie, and
      that describes it. */
  lemma NearTie(g: nat)
    ensures var r := RoundOff(ToNearest, false, g, 13);
      && -0x1000 <= g - 0x2000 * r <= 0x1000
      && (g - 0x2000 * r == 0x1000 || g - 0x2000 * r == -0x1000 ==> r % 2 == 0)
      && forall c: nat | -0x1000 <= g - 0x2000 * c <= 0x1000
           && (g - 0x2000 * c == 0x1000 || g - 0x2000 * c == -0x1000 ==> c % 2 == 0) :: c == r
  {
    hide Lsh, Rsh, Low;
    Pow2Table();
    Split(g, 13);
    LshTable(Rsh(g, 13));
  }

  // --------------------------------------------------------------- guarantees

  predicate IsNaN(t: Tfloat) { F.IsNaN(t.data) }

  /** Every float that is not a NaN becomes the tf32 number that roundTiesToEven asks
      for; its sign is kept. */
  lemma NearestIsCorrect(v: U32)
    requires !F.IsNaN(v)
    ensures var c := F.Magnitude(NarrowBits(v));
      c % LAST_BIT == 0 && IsNearestEven(10, F.INFINITY / LAST_BIT, 13, F.Abs(v), c / LAST_BIT)
    ensures F.Negative(NarrowBits(v)) <==> F.Negative(v)
  {
    hide Lsh, Rsh, Low, Mag, RoundOff, IsNearestEven;
    var m := F.Magnitude(v);
    NarrowBounds(m);
    Pow2Table();
    Split(m, 13);
    LshTable(Rsh(m, 13));
    LshIdentity(Mag(23, m));
    if m < F.INFINITY {
      PatternRoundingIsNearest(10, 13, m, 0, false, 0x3fc00);
    } else {
      WideValue(0x3fc00);
      LshTable(0x3fc00);
      SplitUnique(m, 13, 0x3fc00, 0);
      NearestAtTop(10, 0x3fc00, 13, Mag(23, m));
    }
  }

  /** A pattern with 13 zero bits at the end is worth its first bits. */
  lemma WideValue(c: nat)
    ensures Mag(23, LAST_BIT * c) == Lsh(Mag(10, c), 13)
  {
    hide Lsh, Rsh, Low, Mag;
    Pow2Table();
    LshTable(c);
    SplitUnique(LAST_BIT * c, 13, c, 0);
    MagRefine(10, 13, LAST_BIT * c);
    LshZero(Steps(Rsh(LAST_BIT * c, 23)));
  }

  lemma NaNKept(v: U32)
    ensures F.IsNaN(NarrowBits(v)) <==> F.IsNaN(v)
    ensures F.Negative(NarrowBits(v)) <==> F.Negative(v)
    ensures F.IsNaN(v) && v % 0x2000 != 0 ==> F.Magnitude(NarrowBits(v)) == 0x7fff_e000
  {
    hide Lsh, Rsh, Low, RoundOff;
    NarrowBounds(F.Magnitude(v));
    Pow2Table();
    RshIsQuotient(F.Magnitude(v), 13);
  }

  /** Patterns with 13 zero bits at the end, NaNs included, are left alone, and every
      result is such a pattern: converting twice is converting once. */
  lemma Idempotent(v: U32)
    ensures NarrowBits(v) % LAST_BIT == 0
    ensures v % LAST_BIT == 0 ==> NarrowBits(v) == v
    ensures NarrowBits(NarrowBits(v)) == NarrowBits(v)
  {
    hide Low, RoundOff, NarrowMagnitude;
    NarrowBounds(F.Magnitude(v));
    MultipleWithSign(NarrowMagnitude(F.Magnitude(v)), F.Negative(v));
    if v % LAST_BIT == 0 { Fixed(v); }
    Fixed(NarrowBits(v));
  }

  lemma MultipleWithSign(m: nat, negative: bool)
    requires m % LAST_BIT == 0
    ensures (m + if negative then F.SIGN else 0) % LAST_BIT == 0
  {
  }

  lemma Fixed(v: U32)
    requires v % LAST_BIT == 0
    ensures NarrowBits(v) == v
  {
    hide Lsh, Rsh, Low;
    var m := F.Magnitude(v);
    var c := m / LAST_BIT;
    Pow2Table();
    LshTable(c);
    RoundOffExact(ToNearest, false, c, 13);
    SplitUnique(m, 13, c, 0);
  }

  /** Rounding to tf32 on the way to half changes nothing from 2^-14 up: both keep
      ten fraction bits there, so the second rounding finds nothing to do. */
  lemma TfloatThenHalf(v: U32)
    requires !F.IsNaN(v) && F.Magnitude(v) >= 113 * 0x80_0000
    ensures H.HalfBits(ToNearest, NarrowBits(v)) == H.HalfBits(ToNearest, v)
  {
    hide RoundOff, Low, NarrowMagnitude, H.HalfMagnitude;
    NarrowBounds(F.Magnitude(v));
    MagnitudeThenHalf(F.Negative(v), F.Magnitude(v));
  }

  lemma MagnitudeThenHalf(negative: bool, m: nat)
    requires 113 * 0x80_0000 <= m <= F.INFINITY
    ensures H.HalfMagnitude(ToNearest, negative, NarrowMagnitude(m)) == H.HalfMagnitude(ToNearest, negative, m)
  {
    hide Lsh, Rsh, Low, Mag, RoundOff;
    var q := 112 * 0x80_0000;
    if m < 143 * 0x80_0000 {
      var c := RoundOff(ToNearest, negative, m - q, 13);
      Rebase(negative, m);
      LshTable(c);
      LshTable(0x400);
      LshTable(H.INFINITY);
      RoundOffMonotone(ToNearest, negative, 0x80_0000, m - q, 13);
      RoundOffExact(ToNearest, negative, 0x400, 13);
      RoundOffMonotone(ToNearest, negative, m - q, 31 * 0x80_0000, 13);
      RoundOffExact(ToNearest, negative, H.INFINITY, 13);
      RoundOffExact(ToNearest, negative, c, 13);
    } else if m < F.INFINITY {
      LshTable(143 * 0x400);
      LshTable(0x3fc00);
      RoundOffMonotone(ToNearest, false, 143 * 0x80_0000, m, 13);
      RoundOffExact(ToNearest, false, 143 * 0x400, 13);
      RoundOffMonotone(ToNearest, false, m, F.INFINITY, 13);
      RoundOffExact(ToNearest, false, 0x3fc00, 13);
    } else {
      Fixed(m);
    }
  }

  lemma Rebase(negative: bool, m: nat)
    requires m >= 113 * 0x80_0000
    ensures RoundOff(ToNearest, false, m, 13)
         == 112 * 0x400 + RoundOff(ToNearest, negative, m - 112 * 0x80_0000, 13)
  {
    hide Lsh, Rsh, Low;
    LshTable(112);
    RshHigh(112, m - 112 * 0x80_0000, 10, 13);
  }
}
