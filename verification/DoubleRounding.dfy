/** Rounding to half by way of tf32: when the detour changes the result. */
module DoubleRounding {
  import opened Bits
  import opened BinaryFormat
  import F = Float32
  import H = HalfFormat
  import HR = HalfRounding
  import T = TfloatFormat

  /** Midway between half magnitudes q and q + 1 below 2^-14, in units of 2^-149. */
  function Tie(q: nat): nat { Lsh(2 * q + 1, 124) }

  /** A significand of which half drops k bits, when it lies so close to the midpoint of
      two halves that tf32, which drops 13, moves it there: above it with an even half
      below, or below it with an odd one.  At the full 2^12 the tf32 tie goes there too,
      unless the midpoint is odd. */
  predicate PulledToTie(g: nat, k: nat)
    requires k > 0
  {
    var q, rest, tie := Rsh(g, k), Low(g, k), Pow2(k - 1);
    var reach := if k == 14 then 0xfff else 0x1000;
    if q % 2 == 0 then tie < rest <= tie + reach else tie - reach <= rest < tie
  }

  /** The operands on which the detour changes the half: from 2^-25 to 2^-14, the
      exponent field e saying how many bits half drops. */
  predicate DetourHarms(v: U32) {
    var e, f := F.Magnitude(v) / 0x80_0000, F.Magnitude(v) % 0x80_0000;
    102 <= e <= 112 && PulledToTie(0x80_0000 + f, 126 - e)
  }

  /** Going through tf32 gives the same half, in nearest mode, on every operand that is
      not a NaN except exactly those; from 2^-14 up there are none. */
  lemma DetourHarmlessIff(v: U32)
    requires !F.IsNaN(v)
    ensures H.HalfBits(ToNearest, T.NarrowBits(v)) == H.HalfBits(ToNearest, v) <==> !DetourHarms(v)
  {
    hide RoundOff, Low, Rsh, Mag, T.NarrowMagnitude, H.HalfMagnitude, PulledToTie;
    var m, n := F.Magnitude(v), T.NarrowMagnitude(F.Magnitude(v));
    T.NarrowBounds(m);
    if m >= 113 * 0x80_0000 {
      T.TfloatThenHalf(v);
    } else {
      SmallDetour(F.Negative(v), m);
      MovedToTieIff(m);
      H.HalfMagnitudeBounds(ToNearest, F.Negative(v), m);
      H.HalfMagnitudeBounds(ToNearest, F.Negative(v), n);
    }
  }

  /** Just above 2^-25 a float rounds up to the smallest half, but tf32 drops the excess
      and leaves a tie, which goes to zero. */
  lemma DetourBelowNormalRange()
    ensures DetourHarms(0x3300_0001)
    ensures Magnitude16(H.HalfBits(ToNearest, T.NarrowBits(0x3300_0001))) == 0
    ensures Magnitude16(H.HalfBits(ToNearest, 0x3300_0001)) != 0
  {
    hide Lsh, Rsh, Low, H.HalfMagnitude, T.NarrowMagnitude;
    Pow2Table();
    LowSmall(0x80_0001, 24);
    HR.NearestThresholds(0x3300_0001);
    JustAboveTie();
    HR.NearestThresholds(0x3300_0000);
  }

  lemma JustAboveTie()
    ensures T.NarrowBits(0x3300_0001) == 0x3300_0000
  {
    hide Lsh, Rsh, Low;
    Pow2Table();
    LshTable(0x1_9800);
    SplitUnique(0x3300_0001, 13, 0x1_9800, 1);
  }

  /** tf32 moves the operand onto a midpoint of two halves, which then goes on in the same
      direction. */
  predicate MovedToTie(m: nat) {
    var n := T.NarrowMagnitude(m);
    var q, rest := Rsh(Mag(23, n), 125), Low(Mag(23, n), 125);
    m != n && rest == Pow2(124) && (m < n <==> q % 2 == 1)
  }

  /** That is decided by the operand's own bits. */
  lemma MovedToTieIff(m: nat)
    requires m < 113 * 0x80_0000
    ensures var e, f := m / 0x80_0000, m % 0x80_0000;
      MovedToTie(m) <==> 102 <= e && PulledToTie(0x80_0000 + f, 126 - e)
  {
    hide Lsh, Low, Rsh, Mag, RoundOff, PulledToTie;
    var e, f := m / 0x80_0000, m % 0x80_0000;
    if e < 102 {
      TooSmallToMove(m);
    } else {
      var r := RoundOff(ToNearest, false, 0x80_0000 + f, 13);
      SignificandRounded(m, e, f);
      Pow2Table();
      LshTable(r);
      F.SignificandValue(T.LAST_BIT * r, e - 1);
      LshTable(e - 1);
      TieScaled(T.LAST_BIT * r, 126 - e, e - 1);
      PulledIff(0x80_0000 + f, 126 - e);
    }
  }

  /** Rounding a pattern is rounding its significand. */
  lemma SignificandRounded(m: nat, e: nat, f: nat)
    requires m == 0x80_0000 * e + f && f < 0x80_0000 && 102 <= e < 113
    ensures var r := RoundOff(ToNearest, false, 0x80_0000 + f, 13);
      && T.NarrowMagnitude(m) == 0x80_0000 * (e - 1) + T.LAST_BIT * r
      && 0x80_0000 <= T.LAST_BIT * r <= 0x100_0000
  {
    hide Lsh, Rsh, Low;
    var g := 0x80_0000 + f;
    Pow2Table();
    LshTable(e - 1);
    RshHigh(e - 1, g, 10, 13);
    Split(g, 13);
    LshTable(Rsh(g, 13));
  }

  lemma TieScaled(g: nat, k: nat, s: nat)
    requires k + s == 125 && k > 0
    ensures Rsh(Lsh(g, s), 125) == Rsh(g, k)
    ensures Low(Lsh(g, s), 125) == Pow2(124) <==> Low(g, k) == Pow2(k - 1)
  {
    hide Lsh, Rsh, Low;
    Split(g, k);
    SplitScaled(Rsh(g, k), Low(g, k), k, s);
    LshLsh(1, k - 1, s);
    LshOrder(Low(g, k), Pow2(k - 1), s);
  }

  /** The integer core: rounding g to a multiple of 2^13 ends on a midpoint of multiples
      of 2^k, and in the direction in which that goes on. */
  lemma PulledIff(g: nat, k: nat)
    requires 14 <= k <= 24
    ensures var t := T.LAST_BIT * RoundOff(ToNearest, false, g, 13);
      t != g && Low(t, k) == Pow2(k - 1) && (g < t <==> Rsh(t, k) % 2 == 1) <==> PulledToTie(g, k)
  {
    hide Lsh, Rsh, Low, RoundOff;
    var t := T.LAST_BIT * RoundOff(ToNearest, false, g, 13);
    T.NearTie(g);
    LshDouble(1, k - 1);
    if k > 14 { Pow2Grows(13, k - 1); }
    Pow2Table();
    if Low(t, k) == Pow2(k - 1) {
      var q := Rsh(t, k);
      Split(t, k);
      var c := Midpoint(q, k);
      SplitUnique(g, k, q, Pow2(k - 1) + g - t);
    }
    if PulledToTie(g, k) {
      var q := Rsh(g, k);
      Split(g, k);
      var c := Midpoint(q, k);
      SplitUnique(Lsh(q, k) + Pow2(k - 1), k, q, Pow2(k - 1));
    }
  }

  /** A midpoint of multiples of 2^k is a multiple of 2^13, an odd one for k = 14 only. */
  lemma Midpoint(q: nat, k: nat) returns (t: nat)
    requires 14 <= k <= 24
    ensures Lsh(q, k) + Pow2(k - 1) == T.LAST_BIT * t && (t % 2 == 1 <==> k == 14)
  {
    hide Lsh;
    t := Lsh(q, k - 13) + Pow2(k - 14);
    LshTable(t);
    LshAdd(Lsh(q, k - 13), Pow2(k - 14), 13);
    LshLsh(q, k - 13, 13);
    LshLsh(1, k - 14, 13);
    LshDouble(q, k - 14);
    var half := Lsh(q, k - 14);
    if k == 14 {
      LshIdentity(1);
    } else {
      LshDouble(1, k - 15);
      assert t == 2 * (half + Pow2(k - 15));
    }
  }

  /** Below 2^-25 the only midpoint in reach is 2^-25 itself, which goes down to zero
      while tf32 has moved up. */
  lemma TooSmallToMove(m: nat)
    requires m < 102 * 0x80_0000
    ensures !MovedToTie(m)
  {
    hide Lsh, Low, Rsh, Mag, RoundOff;
    var n := T.NarrowMagnitude(m);
    var top := 102 * 0x80_0000;
    Pow2Table();
    LshTable(102 * 0x400);
    RoundOffMonotone(ToNearest, false, m, top, 13);
    RoundOffExact(ToNearest, false, 102 * 0x400, 13);
    F.NormalValue(top, 102, 0);
    LshLsh(1, 23, 101);
    LshDouble(1, 124);
    Positive(124);
    MagOrder(23, n, top);
    LowSmall(Mag(23, n), 125);
  }

  lemma SmallDetour(negative: bool, m: nat)
    requires m < 113 * 0x80_0000
    ensures var n := T.NarrowMagnitude(m);
            var q, rest := Rsh(Mag(23, n), 125), Low(Mag(23, n), 125);
      H.HalfMagnitude(ToNearest, negative, n) != H.HalfMagnitude(ToNearest, negative, m) <==>
      m != n && rest == Pow2(124) && (m < n <==> q % 2 == 1)
  {
    hide RoundOff, Low, Rsh, Lsh, Mag, T.NarrowMagnitude;
    var n := T.NarrowMagnitude(m);
    var x, y := Mag(23, m), Mag(23, n);
    var r, s := RoundOff(ToNearest, negative, x, 125), RoundOff(ToNearest, negative, y, 125);
    StaysSmall(negative, m);
    H.SmallIsBelow(m);
    MagOrder(23, m, n);
    MagOrder(23, n, m);
    Split(y, 125);
    var q := Rsh(y, 125);
    TieOf(q);
    AboveTie(negative, x, q);
    AboveTie(negative, y, q);
    if r < s {
      AboveTie(negative, x, r);
      AboveTie(negative, y, r);
      AtMostMinNormal(negative, m);
      NotCrossed(m, r);
      IsTie(y, r);
    } else if s < r {
      AboveTie(negative, x, s);
      AboveTie(negative, y, s);
      AtMostMinNormal(negative, m);
      NotCrossed(m, s);
      IsTie(y, s);
    }
  }

  /** Half results of both operands come from the same rounding of their values. */
  lemma StaysSmall(negative: bool, m: nat)
    requires m < 113 * 0x80_0000
    ensures var n := T.NarrowMagnitude(m);
      && n <= 113 * 0x80_0000
      && H.HalfMagnitude(ToNearest, negative, m) == RoundOff(ToNearest, negative, Mag(23, m), 125)
      && H.HalfMagnitude(ToNearest, negative, n) == RoundOff(ToNearest, negative, Mag(23, n), 125)
  {
    hide RoundOff, Low, Rsh, Lsh, Mag;
    RoundOffMonotone(ToNearest, false, m, 113 * 0x80_0000, 13);
    LshTable(113 * 0x400);
    RoundOffExact(ToNearest, false, 113 * 0x400, 13);
    H.MinNormalValue();
    RoundOffExact(ToNearest, negative, 0x400, 125);
    LshTable(0x400);
    RoundOffExact(ToNearest, negative, 0x400, 13);
  }

  lemma AtMostMinNormal(negative: bool, m: nat)
    requires m < 113 * 0x80_0000
    ensures var n := T.NarrowMagnitude(m);
      && RoundOff(ToNearest, negative, Mag(23, m), 125) <= 0x400
      && RoundOff(ToNearest, negative, Mag(23, n), 125) <= 0x400
  {
    hide RoundOff, Low, Rsh, Lsh, Mag, T.NarrowMagnitude;
    var n := T.NarrowMagnitude(m);
    StaysSmall(negative, m);
    H.SmallIsBelow(m);
    MagOrder(23, n, 113 * 0x80_0000);
    H.MinNormalValue();
    RoundOffMonotone(ToNearest, negative, Mag(23, m), Lsh(0x400, 125), 125);
    RoundOffMonotone(ToNearest, negative, Mag(23, n), Lsh(0x400, 125), 125);
    RoundOffExact(ToNearest, negative, 0x400, 125);
  }

  lemma TieOf(q: nat)
    ensures Tie(q) == Lsh(q, 125) + Pow2(124) && Pow2(125) == 2 * Pow2(124)
  {
    hide Lsh;
    LshAdd(2 * q, 1, 124);
    LshDouble(q, 124);
    LshDouble(1, 124);
  }

  /** Rounding exceeds q exactly above the tie, or on it when q is odd. */
  lemma AboveTie(negative: bool, x: nat, q: nat)
    ensures RoundOff(ToNearest, negative, x, 125) > q <==> x > Tie(q) || (x == Tie(q) && q % 2 == 1)
  {
    hide Lsh, Rsh, Low;
    var a := Rsh(x, 125);
    Split(x, 125);
    TieOf(q);
    if a < q { LshStep(a, q, 125); }
    if q < a { LshStep(q, a, 125); }
    Positive(124);
  }

  lemma IsTie(y: nat, q: nat)
    requires y == Tie(q)
    ensures Rsh(y, 125) == q && Low(y, 125) == Pow2(124)
  {
    hide Lsh, Rsh, Low;
    TieOf(q);
    Positive(124);
    SplitUnique(y, 125, q, Pow2(124));
  }

  /** Every tie is a tf32 number, so rounding to tf32 does not carry an operand past it. */
  lemma NotCrossed(m: nat, q: nat)
    requires m < 113 * 0x80_0000 && q < 0x400
    ensures var n := T.NarrowMagnitude(m);
      && (Mag(23, m) <= Tie(q) ==> Mag(23, n) <= Tie(q))
      && (Mag(23, m) >= Tie(q) ==> Mag(23, n) >= Tie(q))
  {
    hide RoundOff, Low, Rsh, Lsh, Mag;
    var n := T.NarrowMagnitude(m);
    var t := TieIsTfloat(q);
    LshTable(t);
    RoundOffExact(ToNearest, false, t, 13);
    MagOrder(23, m, T.LAST_BIT * t);
    MagOrder(23, T.LAST_BIT * t, m);
    MagOrder(23, n, T.LAST_BIT * t);
    MagOrder(23, T.LAST_BIT * t, n);
    if m <= T.LAST_BIT * t { RoundOffMonotone(ToNearest, false, m, T.LAST_BIT * t, 13); }
    if m >= T.LAST_BIT * t { RoundOffMonotone(ToNearest, false, T.LAST_BIT * t, m, 13); }
  }

  lemma TieIsTfloat(q: nat) returns (t: nat)
    requires q < 0x400
    ensures Mag(23, T.LAST_BIT * t) == Tie(q)
  {
    hide Rsh, Low, Lsh, Mag, FloorLog2;
    var g := 2 * q + 1;
    var l := FloorLog2(g);
    Pow2Table();
    FloorLog2Less(g, 11);
    F.NormalizedFraction(g);
    LshLsh(g, 10 - l, 13);
    LshTable(Lsh(g, 10 - l));
    var e := 102 + l;
    t := 0x400 * e + Lsh(g, 10 - l) - 0x400;
    F.NormalValue(T.LAST_BIT * t, e, Lsh(g, 23 - l) - 0x80_0000);
    LshLsh(g, 23 - l, e - 1);
  }
}
