/** What the float-to-half constructor guarantees about values. */
module HalfRounding {
  import opened Bits
  import opened BinaryFormat
  import opened HalfFormat
  import F = Float32

  /** The value of half magnitude `c`, as the conversion to float reports it. */
  function Abs(c: nat): nat
    requires c < SIGN
  {
    Mag(23, WideMagnitude(c))
  }

  predicate IsNaN(h: Half) { Magnitude16(h.data) > INFINITY }

  function Value(h: Half): int { F.Value(h.ToFloat()) }

  function Convert(mode: Mode, v: U32): Half { Half(HalfBits(mode, v)) }

  lemma WideNaN(c: nat)
    requires c < SIGN
    ensures WideMagnitude(c) > F.INFINITY <==> c > INFINITY
    ensures WideMagnitude(c) == F.INFINITY <==> c == INFINITY
  {
    hide Lsh, F.FromInt;
    WideOrder(c, INFINITY);
    WideOrder(INFINITY, c);
  }

  // ------------------------------------------------------ nearest, ties to even

  /** In nearest mode every float, subnormal, huge or infinite, becomes the half
      that roundTiesToEven asks for. */
  lemma NearestIsCorrect(v: U32)
    requires !F.IsNaN(v)
    ensures IsNearestEven(10, INFINITY, 125, F.Abs(v), Magnitude16(HalfBits(ToNearest, v)))
    ensures HalfBits(ToNearest, v) >= SIGN <==> F.Negative(v)
  {
    NearestMagnitude(F.Negative(v), F.Magnitude(v));
    HalfMagnitudeBounds(ToNearest, F.Negative(v), F.Magnitude(v));
  }

  lemma NearestMagnitude(negative: bool, m: nat)
    requires m <= F.INFINITY
    ensures IsNearestEven(10, INFINITY, 125, Mag(23, m), HalfMagnitude(ToNearest, negative, m))
  {
    hide Lsh, Rsh, Low, Mag, RoundOff, IsNearestEven;
    Pow2Table();
    if m < 113 * 0x80_0000 {
      SmallIsBelow(m);
      SubnormalRoundingIsNearest(10, INFINITY, 125, Mag(23, m), negative);
    } else if m < 143 * 0x80_0000 {
      var x := m - 112 * 0x80_0000;
      Rebased(m);
      PatternRoundingIsNearest(10, 13, x, 112, negative, INFINITY);
    } else {
      OverflowValue();
      MagOrder(23, 143 * 0x80_0000, m);
      NearestAtTop(10, INFINITY, 125, Mag(23, m));
    }
  }

  /** A float in the normal range of half, with the exponent bias of half. */
  lemma Rebased(m: nat)
    requires 113 * 0x80_0000 <= m < 143 * 0x80_0000
    ensures var x := m - 112 * 0x80_0000;
      Mag(23, m) == Lsh(Mag(23, x), 112) && 0x400 <= Rsh(x, 13) < INFINITY
  {
    hide Lsh, Rsh, Low, Mag;
    var x := m - 112 * 0x80_0000;
    Pow2Table();
    LshTable(112);
    MagExponentShift(23, x, 112);
    Split(x, 13);
    LshTable(Rsh(x, 13));
  }

  lemma OverflowValue()
    ensures Mag(23, 143 * 0x80_0000) == Lsh(Mag(10, INFINITY), 125) == Pow2(165)
  {
    hide Lsh, Rsh, Low;
    Pow2Table();
    F.NormalValue(143 * 0x80_0000, 143, 0);
    LshTable(31);
    SplitUnique(INFINITY, 10, 31, 0);
    LshLsh(1, 23, 142);
    LshLsh(1, 10, 30);
    LshLsh(1, 40, 125);
  }

  /** The two ends of the range: halfway to the smallest subnormal (2^-25) the tie
      goes to zero, halfway past the largest finite half (65520) it goes to infinity. */
  lemma NearestThresholds(v: U32)
    requires !F.IsNaN(v)
    ensures Magnitude16(HalfBits(ToNearest, v)) == 0 <==> F.Magnitude(v) <= 0x3300_0000
    ensures Magnitude16(HalfBits(ToNearest, v)) == INFINITY <==> F.Magnitude(v) >= 0x477f_f000
  {
    var m, negative := F.Magnitude(v), F.Negative(v);
    HalfMagnitudeBounds(ToNearest, negative, m);
    ThresholdPatterns(negative);
    if m <= 0x3300_0000 { MagnitudeMonotone(ToNearest, negative, m, 0x3300_0000); }
    else { MagnitudeMonotone(ToNearest, negative, 0x3300_0001, m); }
    if m < 0x477f_f000 { MagnitudeMonotone(ToNearest, negative, m, 0x477f_efff); }
    else { MagnitudeMonotone(ToNearest, negative, 0x477f_f000, m); }
  }

  lemma ThresholdPatterns(negative: bool)
    ensures HalfMagnitude(ToNearest, negative, 0x3300_0000) == 0
    ensures HalfMagnitude(ToNearest, negative, 0x3300_0001) == 1
    ensures HalfMagnitude(ToNearest, negative, 0x477f_efff) == 0x7bff
    ensures HalfMagnitude(ToNearest, negative, 0x477f_f000) == INFINITY
  {
    hide Mag, Lsh, Rsh, Low;
    Pow2Table();
    LowSmall(0x80_0000, 24);
    LowSmall(0x80_0001, 24);
    LshTable(0x7bff);
    SplitUnique(0xf7f_efff, 13, 0x7bff, 0xfff);
    SplitUnique(0xf7f_f000, 13, 0x7bff, 0x1000);
    F.NormalValue(0x3300_0000, 102, 0);
    F.NormalValue(0x3300_0001, 102, 1);
    RoundOffScaled(ToNearest, negative, 0x80_0000, 24, 101);
    RoundOffScaled(ToNearest, negative, 0x80_0001, 24, 101);
  }

  // ----------------------------------------------------------- monotonicity

  /** Conversion never swaps two floats, in any mode. */
  lemma ConvertMonotone(mode: Mode, v: U32, w: U32)
    requires !F.IsNaN(v) && !F.IsNaN(w) && F.Value(v) <= F.Value(w)
    ensures Value(Convert(mode, v)) <= Value(Convert(mode, w))
  {
    hide Lsh, Rsh, Low, Mag, HalfMagnitude, WideMagnitude;
    var a, b := F.Magnitude(v), F.Magnitude(w);
    ConvertedParts(mode, v);
    ConvertedParts(mode, w);
    MagOrder(23, a, b);
    if F.Negative(v) == F.Negative(w) {
      if a <= b {
        MagnitudeMonotone(mode, F.Negative(v), a, b);
        AbsOrder(HalfMagnitude(mode, F.Negative(v), a), HalfMagnitude(mode, F.Negative(v), b));
      } else {
        MagnitudeMonotone(mode, F.Negative(v), b, a);
        AbsOrder(HalfMagnitude(mode, F.Negative(v), b), HalfMagnitude(mode, F.Negative(v), a));
      }
    } else if F.Negative(w) {
      MagOrder(23, 0, a);
      MagOrder(23, 0, b);
      assert a == 0 && b == 0;
      ZeroConverts(mode);
    }
  }

  lemma ZeroConverts(mode: Mode)
    ensures HalfMagnitude(mode, false, 0) == 0 && HalfMagnitude(mode, true, 0) == 0 && Abs(0) == 0
  {
    MagSmall(23, 0);
    LshZero(125);
  }

  lemma ConvertedParts(mode: Mode, v: U32)
    requires !F.IsNaN(v)
    ensures var c := HalfMagnitude(mode, F.Negative(v), F.Magnitude(v));
      c <= INFINITY && Value(Convert(mode, v)) == F.Signed(F.Negative(v), Abs(c))
      && Magnitude16(HalfBits(mode, v)) == c
  {
    HalfMagnitudeBounds(mode, F.Negative(v), F.Magnitude(v));
  }

  lemma AbsOrder(a: nat, b: nat)
    requires a < SIGN && b < SIGN
    ensures a < b <==> Abs(a) < Abs(b)
    ensures a == b <==> Abs(a) == Abs(b)
  {
    hide Lsh, Rsh, Low, Mag, WideMagnitude;
    WideOrder(a, b);
    MagOrder(23, WideMagnitude(a), WideMagnitude(b));
  }

  lemma MagnitudeMonotone(mode: Mode, negative: bool, a: nat, b: nat)
    requires a <= b <= F.INFINITY
    ensures HalfMagnitude(mode, negative, a) <= HalfMagnitude(mode, negative, b)
  {
    hide Lsh, Rsh, Low, Mag, RoundOff;
    HalfMagnitudeBounds(mode, negative, a);
    var q := 112 * 0x80_0000;
    if b < 113 * 0x80_0000 {
      MagOrder(23, a, b);
      RoundOffMonotone(ToNearest, negative, Mag(23, a), Mag(23, b), 125);
    } else if b < 143 * 0x80_0000 {
      if a < 113 * 0x80_0000 {
        SmallIsBelow(a);
        RoundOffMonotone(ToNearest, negative, Mag(23, a), Lsh(0x400, 125), 125);
        RoundOffExact(ToNearest, negative, 0x400, 125);
        LshTable(0x400);
        RoundOffMonotone(mode, negative, 0x80_0000, b - q, 13);
        RoundOffExact(mode, negative, 0x400, 13);
      } else {
        RoundOffMonotone(mode, negative, a - q, b - q, 13);
      }
    }
  }

  /** Changing the sign of the operand and mirroring the mode negates the result. */
  function Mirror(mode: Mode): Mode {
    match mode case Upward => Downward case Downward => Upward case _ => mode
  }

  lemma NegationMirrors(mode: Mode, v: U32)
    ensures Magnitude16(HalfBits(Mirror(mode), F.Negate(v))) == Magnitude16(HalfBits(mode, v))
    ensures (HalfBits(Mirror(mode), F.Negate(v)) >= SIGN) != (HalfBits(mode, v) >= SIGN)
  {
    hide Lsh, Rsh, Low, Mag;
    HalfMagnitudeBounds(mode, F.Negative(v), F.Magnitude(v));
    HalfMagnitudeBounds(Mirror(mode), F.Negative(F.Negate(v)), F.Magnitude(F.Negate(v)));
  }

  // ------------------------------------------------------------- round trips

  /** Widening and narrowing again gives back every non-NaN half, in every mode. */
  lemma RoundTrip(h: Half, mode: Mode)
    requires !IsNaN(h)
    ensures Convert(mode, h.ToFloat()) == h
  {
    hide Lsh, Rsh, Low, Mag, RoundOff, WideMagnitude;
    var c := Magnitude16(h.data);
    NarrowOfWide(c, mode, h.data >= SIGN);
  }

  lemma NarrowOfWide(c: nat, mode: Mode, negative: bool)
    requires c <= INFINITY
    ensures HalfMagnitude(mode, negative, WideMagnitude(c)) == c
  {
    hide Lsh, Rsh, Low, Mag, RoundOff, F.FromInt;
    WideSubnormal(c);
    if c < 0x400 {
      WideValue(c);
      Pow2Table();
      MagSmall(10, c);
      RoundOffExact(ToNearest, negative, c, 125);
    } else if c < INFINITY {
      LshTable(c);
      RoundOffExact(mode, negative, c, 13);
    }
  }

  /** A NaN comes back with its quiet bit set and its other bits kept. */
  lemma NaNRoundTrip(h: Half, mode: Mode)
    requires IsNaN(h)
    ensures Convert(mode, h.ToFloat()).data == Or(h.data, 0x200)
  {
    hide Lsh, Rsh, Low, WideMagnitude, HalfMagnitude, Or;
    QuietedMagnitude(Magnitude16(h.data), mode, h.data >= SIGN);
    QuietedPattern(Magnitude16(h.data) - INFINITY, if h.data >= SIGN then 1 else 0);
  }

  /** A NaN keeps its sign and the nine fraction bits below the quiet bit that fit; the
      quiet bit is set. */
  lemma NaNConverted(mode: Mode, v: U32)
    requires F.IsNaN(v)
    ensures var h := Convert(mode, v);
      && Magnitude16(h.data) == 0x7e00 + (F.Magnitude(v) / 0x2000) % 0x200
      && (h.data >= SIGN <==> F.Negative(v))
  {
    hide Lsh, Rsh, Low;
    Pow2Table();
    RshIsQuotient(F.Magnitude(v), 13);
    RshIsQuotient(Rsh(F.Magnitude(v), 13), 9);
    HalfMagnitudeBounds(mode, F.Negative(v), F.Magnitude(v));
  }

  /** Widening a NaN appends zeros to its fraction. */
  lemma NaNWidened(h: Half)
    requires IsNaN(h)
    ensures F.IsNaN(h.ToFloat()) && (F.Negative(h.ToFloat()) <==> h.data >= SIGN)
    ensures F.Magnitude(h.ToFloat()) % 0x80_0000 == 0x2000 * (h.data % 0x400)
  {
    hide Lsh, F.FromInt;
  }

  lemma QuietedMagnitude(c: nat, mode: Mode, negative: bool)
    requires INFINITY < c < SIGN
    ensures HalfMagnitude(mode, negative, WideMagnitude(c)) == 0x7e00 + Low(c - INFINITY, 9)
  {
    hide Lsh, Rsh, Low, Mag, RoundOff, F.FromInt;
    var f := c - INFINITY;
    Pow2Table();
    LshTable(0x3fc00 + f);
    SplitUnique(WideMagnitude(c), 13, 0x3fc00 + f, 0);
    Split(f, 9);
    LshTable(Rsh(f, 9));
    LshTable(Rsh(f, 9) + 0x1fe);
    SplitUnique(0x3fc00 + f, 9, Rsh(f, 9) + 0x1fe, Low(f, 9));
  }

  lemma QuietedPattern(f: nat, s: nat)
    requires f < 0x400 && s <= 1
    ensures Or(SIGN * s + INFINITY + f, 0x200) == SIGN * s + 0x7e00 + Low(f, 9)
  {
    hide Lsh, Rsh, Low, Or;
    var b := Rsh(f, 9);
    Pow2Table();
    Split(f, 9);
    LshTable(b);
    LshTable(1);
    LshTable(b + 0x3e + 0x40 * s);
    OrSplit(b + 0x3e + 0x40 * s, 1, Low(f, 9), 0, 9);
    LshTable(Or(b + 0x3e + 0x40 * s, 1));
    QuietWord(b, s);
    OrZero(Low(f, 9));
  }

  lemma QuietWord(b: nat, s: nat)
    requires b <= 1 && s <= 1
    ensures Or(b + 0x3e + 0x40 * s, 1) == 0x3f + 0x40 * s
  {
  }

  // ------------------------------------------------------------ directed modes

  /** IEEE 754-2019 sections 4.3.1 and 4.3.2, for a half result: upward gives the
      least half not below the operand, downward the greatest not above it, toward
      zero the closest one not greater in magnitude. */
  ghost predicate IsCorrectlyRounded(mode: Mode, v: U32, h: Half) {
    (h.data >= SIGN <==> F.Negative(v)) && !IsNaN(h) &&
    match mode
    case ToNearest => IsNearestEven(10, INFINITY, 125, F.Abs(v), Magnitude16(h.data))
    case Upward =>
      F.Value(v) <= Value(h) && forall d: U16 | !IsNaN(Half(d)) && F.Value(v) <= Value(Half(d)) ::
        Value(h) <= Value(Half(d))
    case Downward =>
      Value(h) <= F.Value(v) && forall d: U16 | !IsNaN(Half(d)) && Value(Half(d)) <= F.Value(v) ::
        Value(Half(d)) <= Value(h)
    case TowardZero =>
      Abs(Magnitude16(h.data)) <= F.Abs(v) &&
      forall d: U16 | !IsNaN(Half(d)) && Abs(Magnitude16(d)) <= F.Abs(v) ::
        Abs(Magnitude16(d)) <= Abs(Magnitude16(h.data))
  }

  /** Whether the mode asks for the neighbour away from zero. */
  predicate Away(mode: Mode, negative: bool) {
    (mode == Upward && !negative) || (mode == Downward && negative)
  }

  /** The inputs on which the constructor honours its rounding mode.  Below 2^-14 it
      always rounds to nearest, which is right when the discarded bits ask for the
      same direction; from 2^16 up it always returns infinity, which a finite operand
      may reach only when the mode points away from zero. */
  predicate HonoursMode(mode: Mode, v: U32) {
    var m, negative := F.Magnitude(v), F.Negative(v);
    var q, rest := Rsh(F.Abs(v), 125), Low(F.Abs(v), 125);
    if m < 113 * 0x80_0000 then
      RoundsUp(mode, negative, q % 2 == 1, rest, Pow2(125))
      == RoundsUp(ToNearest, negative, q % 2 == 1, rest, Pow2(125))
    else if m < 143 * 0x80_0000 then true
    else mode == ToNearest || m == F.INFINITY || Away(mode, negative)
  }

  ghost predicate IsFloor(x: nat, r: nat) {
    r <= INFINITY && Abs(r) <= x && forall c: nat | c <= INFINITY && Abs(c) <= x :: c <= r
  }

  ghost predicate IsCeiling(x: nat, r: nat) {
    r <= INFINITY && x <= Abs(r) && forall c: nat | c <= INFINITY && x <= Abs(c) :: r <= c
  }

  /** With the sign taken out, a directed result is a floor or a ceiling. */
  lemma DirectedIsFloorOrCeiling(mode: Mode, v: U32, h: Half)
    requires mode != ToNearest && !IsNaN(h) && (h.data >= SIGN <==> F.Negative(v))
    ensures IsCorrectlyRounded(mode, v, h) <==>
              if Away(mode, F.Negative(v)) then IsCeiling(F.Abs(v), Magnitude16(h.data))
              else IsFloor(F.Abs(v), Magnitude16(h.data))
  {
    hide Lsh, Rsh, Low, Mag, WideMagnitude;
    forall c: nat, d: nat | c <= INFINITY && d <= INFINITY
      ensures c <= d <==> Abs(c) <= Abs(d)
    {
      AbsOrder(c, d);
    }
    if IsCorrectlyRounded(mode, v, h) {
      forall c: nat | c <= INFINITY
        ensures Away(mode, F.Negative(v)) && F.Abs(v) <= Abs(c) ==> Magnitude16(h.data) <= c
        ensures !Away(mode, F.Negative(v)) && Abs(c) <= F.Abs(v) ==> c <= Magnitude16(h.data)
      {
        var d: U16 := c + if F.Negative(v) then SIGN else 0;
        assert Magnitude16(d) == c && !IsNaN(Half(d)) && Value(Half(d)) == F.Signed(F.Negative(v), Abs(c));
        assert Value(h) == F.Signed(F.Negative(v), Abs(Magnitude16(h.data)));
      }
    } else {
      forall d: U16 | !IsNaN(Half(d))
        ensures Magnitude16(d) <= INFINITY && Value(Half(d)) == F.Signed(d >= SIGN, Abs(Magnitude16(d)))
      {
      }
    }
  }

  lemma BracketDecides(x: nat, q: nat, r: nat)
    requires q < INFINITY && Abs(q) <= x < Abs(q + 1)
    ensures IsFloor(x, r) <==> r == q
    ensures IsCeiling(x, r) <==> r == if x == Abs(q) then q else q + 1
  {
    hide Lsh, Rsh, Low, Mag, WideMagnitude;
    forall c: nat | c <= INFINITY
      ensures Abs(c) <= x <==> c <= q
      ensures x <= Abs(c) <==> (if x == Abs(q) then q else q + 1) <= c
    {
      AbsOrder(c, q);
      AbsOrder(c, q + 1);
    }
  }

  lemma InfinityDecides(r: nat)
    ensures IsFloor(Abs(INFINITY), r) <==> r == INFINITY
    ensures IsCeiling(Abs(INFINITY), r) <==> r == INFINITY
  {
    hide Lsh, Rsh, Low, Mag, WideMagnitude;
    forall c: nat | c <= INFINITY
      ensures Abs(c) <= Abs(INFINITY)
      ensures Abs(INFINITY) <= Abs(c) ==> c == INFINITY
    {
      AbsOrder(c, INFINITY);
    }
  }

  /** The half value of a pattern up to the overflow value; infinity is far above. */
  lemma AbsOf(c: nat)
    requires c <= INFINITY
    ensures c < INFINITY ==> Abs(c) == Lsh(Mag(10, c), 125)
    ensures c == INFINITY ==> Abs(c) == Mag(23, F.INFINITY) > Lsh(Mag(10, c), 125)
  {
    hide Lsh, Rsh, Low, Mag;
    if c < INFINITY {
      WideValue(c);
    } else {
      OverflowValue();
      MagOrder(23, 143 * 0x80_0000, F.INFINITY);
    }
  }

  lemma SmallBracket(m: nat)
    requires m < 113 * 0x80_0000
    ensures var x, q := Mag(23, m), Rsh(Mag(23, m), 125);
      q < 0x400 && Abs(q) <= x < Abs(q + 1) && (x == Abs(q) <==> Low(x, 125) == 0)
  {
    hide Lsh, Rsh, Low, Mag;
    var x := Mag(23, m);
    var q := Rsh(x, 125);
    SmallIsBelow(m);
    Split(x, 125);
    LshOrder(0x400, q, 125);
    Pow2Table();
    MagSmall(10, q);
    MagSmall(10, q + 1);
    LshAdd(q, 1, 125);
    AbsOf(q);
    AbsOf(q + 1);
  }

  lemma NormalBracket(m: nat)
    requires 113 * 0x80_0000 <= m < 143 * 0x80_0000
    ensures var x, q := Mag(23, m), Rsh(m - 112 * 0x80_0000, 13);
      q < INFINITY && Abs(q) <= x < Abs(q + 1)
      && (x == Abs(q) <==> Low(m - 112 * 0x80_0000, 13) == 0)
  {
    hide Lsh, Rsh, Low, Mag;
    var n := m - 112 * 0x80_0000;
    var q, t := Rsh(n, 13), 112 + Steps(Rsh(n, 23));
    Rebased(m);
    PatternBracket(10, 13, n, 112);
    Split(n, 13);
    LshZero(t);
    LshOrder(0, Low(n, 13), t);
    LshOrder(Low(n, 13), Pow2(13), t);
    AbsOf(q);
    AbsOf(q + 1);
  }

  lemma LargeBracket(m: nat)
    requires 143 * 0x80_0000 <= m < F.INFINITY
    ensures Abs(0x7bff) < Mag(23, m) < Abs(INFINITY)
  {
    hide Lsh, Rsh, Low, Mag;
    AbsOf(0x7bff);
    AbsOf(INFINITY);
    OverflowValue();
    MagOrder(10, 0x7bff, INFINITY);
    LshOrder(Mag(10, 0x7bff), Mag(10, INFINITY), 125);
    MagOrder(23, 143 * 0x80_0000, m);
    MagOrder(23, m, F.INFINITY);
  }

  ghost predicate DirectedTo(mode: Mode, negative: bool, x: nat, r: nat) {
    if Away(mode, negative) then IsCeiling(x, r) else IsFloor(x, r)
  }

  lemma DirectedSmall(mode: Mode, negative: bool, m: nat)
    requires mode != ToNearest && m < 113 * 0x80_0000
    ensures var x, q, rest := Mag(23, m), Rsh(Mag(23, m), 125), Low(Mag(23, m), 125);
      DirectedTo(mode, negative, x, HalfMagnitude(mode, negative, m)) <==>
      (RoundsUp(mode, negative, q % 2 == 1, rest, Pow2(125))
       == RoundsUp(ToNearest, negative, q % 2 == 1, rest, Pow2(125)))
  {
    hide Lsh, Rsh, Low, Mag, RoundOff, IsFloor, IsCeiling, Abs, HalfMagnitude;
    SmallBracket(m);
    BracketDecides(Mag(23, m), Rsh(Mag(23, m), 125), HalfMagnitude(mode, negative, m));
    SmallResult(mode, negative, m);
  }

  lemma DirectedNormal(mode: Mode, negative: bool, m: nat)
    requires mode != ToNearest && 113 * 0x80_0000 <= m < 143 * 0x80_0000
    ensures DirectedTo(mode, negative, Mag(23, m), HalfMagnitude(mode, negative, m))
  {
    hide Lsh, Rsh, Low, Mag, RoundOff, IsFloor, IsCeiling, Abs, HalfMagnitude;
    NormalBracket(m);
    BracketDecides(Mag(23, m), Rsh(m - 112 * 0x80_0000, 13), HalfMagnitude(mode, negative, m));
    NormalResult(mode, negative, m);
  }

  lemma DirectedLarge(mode: Mode, negative: bool, m: nat)
    requires mode != ToNearest && 143 * 0x80_0000 <= m <= F.INFINITY
    ensures DirectedTo(mode, negative, Mag(23, m), HalfMagnitude(mode, negative, m))
       <==> m == F.INFINITY || Away(mode, negative)
  {
    hide Lsh, Rsh, Low, Mag, RoundOff, IsFloor, IsCeiling;
    if m < F.INFINITY {
      LargeBracket(m);
      BracketDecides(Mag(23, m), 0x7bff, INFINITY);
    } else {
      InfinityDecides(INFINITY);
    }
  }

  lemma DirectedMagnitude(mode: Mode, v: U32)
    requires mode != ToNearest && !F.IsNaN(v)
    ensures var negative := F.Negative(v);
      DirectedTo(mode, negative, F.Abs(v), HalfMagnitude(mode, negative, F.Magnitude(v)))
      <==> HonoursMode(mode, v)
  {
    hide Lsh, Rsh, Low, Mag, RoundOff, DirectedTo, HalfMagnitude, RoundsUp;
    var m, negative := F.Magnitude(v), F.Negative(v);
    if m < 113 * 0x80_0000 {
      DirectedSmall(mode, negative, m);
    } else if m < 143 * 0x80_0000 {
      DirectedNormal(mode, negative, m);
    } else {
      DirectedLarge(mode, negative, m);
    }
  }

  /** When the result is what the rounding mode asks for: exactly on the inputs
      described by HonoursMode, in all four modes. */
  lemma CorrectIffModeHonoured(mode: Mode, v: U32)
    requires !F.IsNaN(v)
    ensures IsCorrectlyRounded(mode, v, Convert(mode, v)) <==> HonoursMode(mode, v)
  {
    hide Lsh, Rsh, Low, Mag, IsNearestEven, IsFloor, IsCeiling, HalfMagnitude, RoundsUp;
    HalfMagnitudeBounds(mode, F.Negative(v), F.Magnitude(v));
    if mode == ToNearest {
      NearestIsCorrect(v);
    } else {
      hide IsCorrectlyRounded, HonoursMode;
      DirectedIsFloorOrCeiling(mode, v, Convert(mode, v));
      DirectedMagnitude(mode, v);
    }
  }

  lemma SmallResult(mode: Mode, negative: bool, m: nat)
    requires m < 113 * 0x80_0000
    ensures var q, rest := Rsh(Mag(23, m), 125), Low(Mag(23, m), 125);
      HalfMagnitude(mode, negative, m)
      == q + if RoundsUp(ToNearest, negative, q % 2 == 1, rest, Pow2(125)) then 1 else 0
  {
    hide Lsh, Rsh, Low, Mag;
  }

  lemma NormalResult(mode: Mode, negative: bool, m: nat)
    requires 113 * 0x80_0000 <= m < 143 * 0x80_0000
    ensures var q, rest := Rsh(m - 112 * 0x80_0000, 13), Low(m - 112 * 0x80_0000, 13);
      HalfMagnitude(mode, negative, m)
      == q + if RoundsUp(mode, negative, q % 2 == 1, rest, Pow2(13)) then 1 else 0
  {
    hide Lsh, Rsh, Low, Mag;
  }

  /** Outside the normal range the mode has no influence at all. */
  lemma ModeHasNoInfluence(mode: Mode, v: U32)
    requires F.Magnitude(v) < 113 * 0x80_0000 || F.Magnitude(v) >= 143 * 0x80_0000
    ensures HalfBits(mode, v) == HalfBits(ToNearest, v)
  {
    hide Lsh, Rsh, Low, Mag, RoundOff;
  }

  /** Two operands that show the modes being ignored: the smallest positive float
      rounded upward gives zero, and 65536 rounded toward zero gives infinity. */
  lemma ModeIgnoredOutsideNormalRange()
    ensures !IsCorrectlyRounded(Upward, 0x0000_0001, Convert(Upward, 0x0000_0001))
    ensures !IsCorrectlyRounded(TowardZero, 0x4780_0000, Convert(TowardZero, 0x4780_0000))
  {
    hide IsCorrectlyRounded, Lsh, RoundOff;
    CorrectIffModeHonoured(Upward, 0x0000_0001);
    CorrectIffModeHonoured(TowardZero, 0x4780_0000);
    Pow2Table();
    MagSmall(23, 1);
    LshDouble(1, 124);
    LowSmall(1, 125);
    Pow2Grows(1, 125);
  }
}
