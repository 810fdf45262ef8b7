/** The bfloat16 type: the upper half of a binary32 pattern. */
module Bfloat16Format {
  import opened Bits
  import opened BinaryFormat
  import F = Float32

  const SIGN: nat := 0x8000
  const INFINITY: nat := 0x7f80

  /** What the constructor computes, on magnitudes. */
  function NarrowMagnitude(m: nat): nat {
    if m < F.INFINITY then RoundOff(ToNearest, false, m, 16)
    else if Low(m, 16) == 0 then Rsh(m, 16)
    else 0x7fff
  }

  function NarrowBits(v: U32): U16 {
    NarrowBounds(F.Magnitude(v));
    NarrowMagnitude(F.Magnitude(v)) + if F.Negative(v) then SIGN else 0
  }

  lemma NarrowBounds(m: nat)
    requires m < F.SIGN
    ensures NarrowMagnitude(m) < SIGN
    ensures NarrowMagnitude(m) > INFINITY <==> m > F.INFINITY
    ensures m >= F.INFINITY ==> NarrowMagnitude(m) >= INFINITY
  {
    hide Lsh, Rsh, Low, RoundOff;
    Pow2Table();
    Split(m, 16);
    LshTable(Rsh(m, 16));
    if m < F.INFINITY {
      RoundOffMonotone(ToNearest, false, m, F.INFINITY, 16);
      LshTable(INFINITY);
      RoundOffExact(ToNearest, false, INFINITY, 16);
    }
  }

  datatype Bfloat16 = Bfloat16(data: U16) {

    /** The constructor from float. */
    static method FromFloat(v: U32) returns (b: Bfloat16)
      ensures b.data == NarrowBits(v)
    {
      hide Lsh, Rsh, Low, And, Or;
      ghost var m := F.Magnitude(v);
      NarrowSteps(v);
      NarrowBounds(m);
      var tmp: U32 := v;
      var remainder := And(tmp, 0xffff);
      tmp := Rsh(tmp, 16);
      var isNanOrInf := And(tmp, 0x7f80) == 0x7f80;
      if !isNanOrInf {
        if remainder > 0x8000 || (remainder == 0x8000 && tmp % 2 == 1) {
          tmp := tmp + 1;
        }
      } else {
        if remainder != 0 {
          FillFraction(if F.Negative(v) then SIGN else 0, Rsh(m, 16));
          tmp := Or(tmp, 0x007f);
        }
      }
      b := Bfloat16(tmp);
    }

    /** The conversion to float. */
    function ToFloat(): (f: U32)
      ensures F.Magnitude(f) == 0x1_0000 * Magnitude16(data)
      ensures F.Negative(f) <==> data >= SIGN
    {
      LshTable(data);
      Pow2Table();
      LowSmall(Lsh(data, 16), 32);
      F.Shl32(data, 16)
    }
  }

  lemma NarrowSteps(v: U32)
    ensures var m, s := F.Magnitude(v), if F.Negative(v) then SIGN else 0;
      && Rsh(v, 16) == s + Rsh(m, 16) && Rsh(m, 16) < SIGN
      && And(v, 0xffff) == Low(m, 16) < 0x1_0000
      && (And(Rsh(v, 16), 0x7f80) == 0x7f80 <==> m >= F.INFINITY)
      && (m >= F.INFINITY <==> Rsh(m, 16) >= INFINITY)
      && RoundOff(ToNearest, false, m, 16) == Rsh(m, 16) +
           if Low(m, 16) > 0x8000 || (Low(m, 16) == 0x8000 && Rsh(m, 16) % 2 == 1) then 1 else 0
  {
    hide Lsh, Rsh, Low, And;
    var m, s := F.Magnitude(v), if F.Negative(v) then 1 else 0;
    var c := Rsh(m, 16);
    Pow2Table();
    LshTable(s);
    LshTable(c);
    Split(m, 16);
    RshHigh(s, m, 15, 16);
    AndLowMask(v, 16);
    RshHigh(s, c, 8, 7);
    AndFieldMask(Rsh(v, 16), 8, 7);
    var e := Rsh(c, 7);
    Split(c, 7);
    LshTable(e);
    LshTable(0xff);
    RshHigh(s, e, 0, 8);
    LowSmall(e, 8);
    LshIdentity(s);
  }

  /** `tmp |= mantissa_mask` on a pattern whose exponent is all ones. */
  lemma FillFraction(s: nat, c: nat)
    requires (s == 0 || s == SIGN) && INFINITY <= c < SIGN
    ensures Or(s + c, 0x7f) == s + 0x7fff
  {
    hide Lsh, Rsh, Low, Or;
    var q, f := s / 0x80 + 0xff, c - INFINITY;
    Pow2Table();
    LshTable(q);
    LshZero(7);
    OrSplit(q, 0, f, 0x7f, 7);
    OrZero(q);
    OrWithOnes(f, 7);
  }

  // --------------------------------------------------------------- guarantees

  predicate IsNaN(b: Bfloat16) { Magnitude16(b.data) > INFINITY }

  /** Every float that is not a NaN becomes the bfloat16 that roundTiesToEven asks
      for, subnormals and overflow included; its sign is kept. */
  lemma NearestIsCorrect(v: U32)
    requires !F.IsNaN(v)
    ensures IsNearestEven(7, INFINITY, 16, F.Abs(v), Magnitude16(NarrowBits(v)))
    ensures NarrowBits(v) >= SIGN <==> F.Negative(v)
  {
    hide Lsh, Rsh, Low, Mag, RoundOff, IsNearestEven;
    var m := F.Magnitude(v);
    NarrowBounds(m);
    Pow2Table();
    Split(m, 16);
    LshTable(Rsh(m, 16));
    LshIdentity(Mag(23, m));
    if m < F.INFINITY {
      PatternRoundingIsNearest(7, 16, m, 0, false, INFINITY);
    } else {
      WideValue(INFINITY);
      LshTable(INFINITY);
      SplitUnique(m, 16, INFINITY, 0);
      NearestAtTop(7, INFINITY, 16, Mag(23, m));
    }
  }

  /** Widening appends zero bits, which keeps the value. */
  lemma WideValue(c: nat)
    ensures Mag(23, 0x1_0000 * c) == Lsh(Mag(7, c), 16)
  {
    hide Lsh, Rsh, Low, Mag;
    Pow2Table();
    LshTable(c);
    SplitUnique(0x1_0000 * c, 16, c, 0);
    MagRefine(7, 16, 0x1_0000 * c);
    LshZero(Steps(Rsh(0x1_0000 * c, 23)));
  }

  /** A NaN never turns into an infinity, nor a number into a NaN.  A NaN that does not
      fit gets all fraction bits. */
  lemma NaNKept(v: U32)
    ensures IsNaN(Bfloat16(NarrowBits(v))) <==> F.IsNaN(v)
    ensures F.IsNaN(v) ==> (NarrowBits(v) >= SIGN <==> F.Negative(v))
    ensures F.IsNaN(v) ==>
      Magnitude16(NarrowBits(v)) == if v % 0x1_0000 == 0 then F.Magnitude(v) / 0x1_0000 else 0x7fff
  {
    hide Lsh, Rsh, Low, RoundOff;
    NarrowBounds(F.Magnitude(v));
    Pow2Table();
    RshIsQuotient(F.Magnitude(v), 16);
  }

  /** Narrowing undoes widening on all 2^16 patterns, NaN payloads included. */
  lemma RoundTrip(b: Bfloat16)
    ensures NarrowBits(b.ToFloat()) == b.data
  {
    hide Lsh, Rsh, Low;
    var c := Magnitude16(b.data);
    Pow2Table();
    LshTable(c);
    RoundOffExact(ToNearest, false, c, 16);
    SplitUnique(0x1_0000 * c, 16, c, 0);
  }

  lemma Monotone(v: U32, w: U32)
    requires !F.IsNaN(v) && !F.IsNaN(w) && F.Value(v) <= F.Value(w)
    ensures F.Value(Bfloat16(NarrowBits(v)).ToFloat()) <= F.Value(Bfloat16(NarrowBits(w)).ToFloat())
  {
    hide Lsh, Rsh, Low, Mag, NarrowMagnitude;
    var a, b := F.Magnitude(v), F.Magnitude(w);
    NarrowBounds(a);
    NarrowBounds(b);
    MagOrder(23, a, b);
    if a <= b { MagnitudeMonotone(a, b); } else { MagnitudeMonotone(b, a); }
    MagOrder(23, 0x1_0000 * NarrowMagnitude(a), 0x1_0000 * NarrowMagnitude(b));
    if F.Negative(w) && !F.Negative(v) {
      MagOrder(23, 0, a);
      MagOrder(23, 0, b);
      assert a == 0 && b == 0;
      ZeroNarrows();
    }
  }

  lemma ZeroNarrows()
    ensures NarrowMagnitude(0) == 0 && Mag(23, 0) == 0
  {
    MagSmall(23, 0);
    LshZero(16);
  }

  lemma MagnitudeMonotone(a: nat, b: nat)
    requires a <= b <= F.INFINITY
    ensures NarrowMagnitude(a) <= NarrowMagnitude(b)
  {
    hide Lsh, Rsh, Low, RoundOff;
    Pow2Table();
    LshTable(INFINITY);
    RoundOffMonotone(ToNearest, false, a, b, 16);
    RoundOffExact(ToNearest, false, INFINITY, 16);
    SplitUnique(F.INFINITY, 16, INFINITY, 0);
  }
}
