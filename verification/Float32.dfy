/** IEEE binary32 patterns, as `memcpy` between float and uint32_t exposes them.

    Values are integers counted in units of 2^-149, the smallest subnormal, so that
    every finite float is exact.  Infinity is given the value 2^128, which is above
    every finite one. */
module Float32 {
  import opened Bits
  import opened BinaryFormat

  const SIGN: nat := 0x8000_0000
  const INFINITY: nat := 0x7f80_0000

  predicate Negative(v: U32) { v >= SIGN }

  /** The pattern without its sign bit. */
  function Magnitude(v: U32): (m: nat)
    ensures m < SIGN
  {
    if v >= SIGN then v - SIGN else v
  }

  predicate IsNaN(v: U32) { Magnitude(v) > INFINITY }

  predicate IsFinite(v: U32) { Magnitude(v) < INFINITY }

  function Abs(v: U32): nat { Mag(23, Magnitude(v)) }

  function Value(v: U32): int { Signed(Negative(v), Abs(v)) }

  function Signed(negative: bool, x: int): int { if negative then -x else x }

  /** The comparisons of type float: false when an operand is NaN. */
  predicate Less(a: U32, b: U32) { !IsNaN(a) && !IsNaN(b) && Value(a) < Value(b) }

  predicate Equal(a: U32, b: U32) { !IsNaN(a) && !IsNaN(b) && Value(a) == Value(b) }

  function Negate(v: U32): U32 { if v >= SIGN then v - SIGN else v + SIGN }

  /** `x << k` in a uint32_t */
  function Shl32(x: nat, k: nat): nat { Low(Lsh(x, k), 32) }

  /** The three fields that the masks 0x80000000, 0x7f800000 and 0x007fffff select. */
  lemma Fields(v: U32)
    ensures And(v, 0x8000_0000) == if Negative(v) then SIGN else 0
    ensures And(v, 0x7f80_0000) == Lsh(Rsh(Magnitude(v), 23), 23)
    ensures And(v, 0x007f_ffff) == Low(Magnitude(v), 23) < 0x80_0000
    ensures Magnitude(v) == Lsh(Rsh(Magnitude(v), 23), 23) + Low(Magnitude(v), 23)
    ensures Rsh(Magnitude(v), 23) <= 0xff
  {
    hide Lsh, Rsh, Low, And;
    var m, s := Magnitude(v), if Negative(v) then 1 else 0;
    Pow2Table();
    Split(m, 23);
    var e := Rsh(m, 23);
    LshTable(e);
    LshTable(s);
    LshTable(0xff);
    assert e <= 0xff;
    SplitUnique(v, 31, s, m);
    LowSmall(s, 1);
    LshTable(1);
    AndFieldMask(v, 1, 31);
    RshHigh(s, m, 8, 23);
    LowSmall(e, 8);
    SplitUnique(Rsh(v, 23), 8, s, e);
    AndFieldMask(v, 8, 23);
    AndLowMask(v, 23);
  }

  // ---------------------------------------- the float arithmetic that is needed

  /** float(n) for a positive integer that fits the significand. */
  function FromInt(n: nat): nat
    requires 0 < n < 0x100_0000
  {
    var l := FloorLog2(n);
    NormalizedFraction(n);
    Lsh(127 + l, 23) + (Lsh(n, 23 - l) - 0x80_0000)
  }

  lemma NormalizedFraction(n: nat)
    requires 0 < n < 0x100_0000
    ensures var l := FloorLog2(n); l < 24 && 0x80_0000 <= Lsh(n, 23 - l) < 0x100_0000
  {
    var l := FloorLog2(n);
    Pow2Table();
    FloorLog2Bounds(n);
    FloorLog2Less(n, 24);
    LshOrder(n, Pow2(l), 23 - l);
    LshOrder(n, Pow2(l + 1), 23 - l);
    LshLsh(1, l, 23 - l);
    LshLsh(1, l + 1, 23 - l);
  }

  /** The value of a normal pattern from its fields. */
  lemma NormalValue(m: nat, e: nat, f: nat)
    requires m == 0x80_0000 * e + f && f < 0x80_0000 && e > 0
    ensures Mag(23, m) == Lsh(0x80_0000 + f, e - 1)
  {
    hide Lsh, Rsh, Low;
    Pow2Table();
    LshTable(e);
    SplitUnique(m, 23, e, f);
  }

  lemma FromIntIsExact(n: nat)
    requires 0 < n < 0x100_0000
    ensures 127 * 0x80_0000 <= FromInt(n) < 151 * 0x80_0000
    ensures Mag(23, FromInt(n)) == Lsh(n, 149)
  {
    hide Lsh, Rsh, Low, Mag, FloorLog2;
    var l := FloorLog2(n);
    NormalizedFraction(n);
    LshTable(127 + l);
    NormalValue(FromInt(n), 127 + l, Lsh(n, 23 - l) - 0x80_0000);
    LshLsh(n, 23 - l, 126 + l);
  }

  /** The product of the power of two with exponent field `e` and the normal number
      `a`, where it is normal again: the exponents add up, the fraction stays. */
  function TimesPowerOfTwo(e: nat, a: nat): nat
    requires a + Lsh(e, 23) >= 128 * 0x80_0000
  {
    a + Lsh(e, 23) - 127 * 0x80_0000
  }

  lemma TimesPow2(x: nat, k: nat)
    ensures Pow2(k) * x == Lsh(x, k)
  {
    LshIsProduct(x, k);
  }

  /** That pattern is the exact product, so it is what IEEE 754-2019 section 4.3
      requires of a multiplication in every rounding direction.  Products of two
      values counted in 2^-149 are counted in 2^-298. */
  lemma ProductIsExact(e: nat, a: nat)
    requires 0 < e <= 127 && 0x80_0000 <= a && a + Lsh(e, 23) >= 128 * 0x80_0000
    requires TimesPowerOfTwo(e, a) <= INFINITY
    ensures Lsh(Mag(23, TimesPowerOfTwo(e, a)), 149) == Mag(23, Lsh(e, 23)) * Mag(23, a)
    ensures IsNearestEven(23, INFINITY, 149, Mag(23, Lsh(e, 23)) * Mag(23, a), TimesPowerOfTwo(e, a))
  {
    hide Lsh, Rsh, Low, Mag, IsNearestEven;
    var r := TimesPowerOfTwo(e, a);
    LshTable(e);
    LshTable(127 - e);
    Pow2Table();
    MagExponentShift(23, r, 127 - e);
    NormalValue(Lsh(e, 23), e, 0);
    LshLsh(1, 23, e - 1);
    TimesPow2(Mag(23, a), 22 + e);
    LshLsh(Mag(23, r), 127 - e, 22 + e);
    NearestOfExact(23, INFINITY, 149, r);
  }

  // ------------------------------------------------------ rounding to a float

  /** Bits of `x` beyond the significand of a float. */
  function ExcessBits(x: nat): nat {
    if x < Pow2(24) then 0 else FloorExcess(x)
  }

  function FloorExcess(x: nat): nat
    requires x >= Pow2(24)
  {
    ExcessIsNatural(x);
    FloorLog2(x) - 23
  }

  lemma ExcessIsNatural(x: nat)
    requires x >= Pow2(24)
    ensures x > 0 && FloorLog2(x) > 23
  {
    hide Lsh;
    Pow2Table();
    FloorLog2Bounds(x);
    if FloorLog2(x) < 23 { Pow2Grows(FloorLog2(x) + 1, 24); }
  }

  /** The magnitude of a float operation whose exact result is x units, with the given
      sign: x rounded to 24 bits, and on overflow infinity or the largest finite float. */
  function Rounded(mode: Mode, negative: bool, x: nat): nat {
    var k := ExcessBits(x);
    var r := Lsh(k, 23) + RoundOff(mode, negative, x, k);
    if r < INFINITY then r
    else if OverflowsToInfinity(mode, negative) then INFINITY
    else INFINITY - 1
  }

  predicate OverflowsToInfinity(mode: Mode, negative: bool) {
    match mode
    case ToNearest => true
    case Upward => !negative
    case Downward => negative
    case TowardZero => false
  }

  /** The significand of x: 24 bits from the top, or all of a shorter number. */
  lemma Significand(x: nat)
    ensures var k := ExcessBits(x);
      && Rsh(x, k) < 0x100_0000
      && (k > 0 ==> Rsh(x, k) >= 0x80_0000)
      && (x > 0 ==> k == 0 || FloorLog2(x) == k + 23)
  {
    hide Lsh, Rsh, FloorLog2;
    Pow2Table();
    var k := ExcessBits(x);
    if k > 0 {
      FloorLog2Bounds(x);
      RshBelow(x, 23, k);
      RshBelow(x, 24, k);
    } else {
      RshBelow(x, 24, 0);
      ExcessPositive(x);
    }
  }

  lemma ExcessPositive(x: nat)
    ensures x >= Pow2(24) ==> ExcessBits(x) > 0
  {
    hide Lsh;
    if x >= Pow2(24) { ExcessIsNatural(x); }
  }

  /** A pattern with k on top of a full significand g is worth g shifted by k. */
  lemma SignificandValue(g: nat, k: nat)
    requires g <= 0x100_0000 && (k > 0 ==> g >= 0x80_0000)
    ensures Mag(23, Lsh(k, 23) + g) == Lsh(g, k)
  {
    hide Lsh, Rsh, Low, Mag;
    Pow2Table();
    LshTable(k);
    LshIdentity(g);
    LshZero(23);
    if g < 0x80_0000 {
      MagSmall(23, g);
    } else if g < 0x100_0000 {
      NormalValue(Lsh(k, 23) + g, k + 1, g - 0x80_0000);
    } else {
      NormalValue(Lsh(k, 23) + g, k + 2, 0);
      LshDouble(0x80_0000, k);
    }
  }

  lemma RoundOffBounds(mode: Mode, negative: bool, x: nat, k: nat)
    ensures Rsh(x, k) <= RoundOff(mode, negative, x, k) <= Rsh(x, k) + 1
  {
  }

  /** In nearest mode this is roundTiesToEven. */
  lemma RoundedIsNearest(negative: bool, x: nat)
    ensures IsNearestEven(23, INFINITY, 0, x, Rounded(ToNearest, negative, x))
  {
    hide Lsh, Rsh, Low, Mag, RoundOff, IsNearestEven, ExcessBits;
    var k := ExcessBits(x);
    var g := Rsh(x, k);
    var q := Lsh(k, 23) + g;
    Significand(x);
    LshTable(k);
    SignificandValue(g, k);
    SignificandValue(g + 1, k);
    LshAdd(g, 1, k);
    Split(x, k);
    LshIdentity(Mag(23, q));
    LshIdentity(Mag(23, q + 1));
    LshIdentity(Mag(23, INFINITY));
    if q < INFINITY {
      RoundsToEven(negative, x, k);
      NearestOfBracket(23, INFINITY, 0, x, q, q + RoundOff(ToNearest, negative, x, k) - g);
    } else {
      MagOrder(23, INFINITY, q);
      RoundOffBounds(ToNearest, negative, x, k);
      NearestAtTop(23, INFINITY, 0, x);
    }
  }

  lemma RoundsToEven(negative: bool, x: nat, k: nat)
    ensures var q, rest, r := Rsh(x, k), Low(x, k), RoundOff(ToNearest, negative, x, k);
      r == q + if rest > Pow2(k) - rest || (rest == Pow2(k) - rest && q % 2 == 1) then 1 else 0
  {
  }

  /** Rounding keeps the order. */
  lemma RoundedMonotone(mode: Mode, negative: bool, x: nat, y: nat)
    requires x <= y
    ensures Rounded(mode, negative, x) <= Rounded(mode, negative, y)
  {
    hide Lsh, Rsh, Low, RoundOff, ExcessBits, FloorLog2;
    var j, k := ExcessBits(x), ExcessBits(y);
    Significand(x);
    Significand(y);
    RoundOffBounds(mode, negative, x, j);
    RoundOffBounds(mode, negative, y, k);
    LshTable(j);
    LshTable(k);
    ExcessMonotone(x, y);
    if j == k { RoundOffMonotone(mode, negative, x, y, k); }
  }

  lemma ExcessMonotone(x: nat, y: nat)
    requires x <= y
    ensures ExcessBits(x) <= ExcessBits(y)
  {
    hide Lsh;
    if x >= Pow2(24) {
      ExcessIsNatural(x);
      ExcessIsNatural(y);
      FloorLog2Bounds(y);
      FloorLog2Bounds(x);
      if FloorLog2(y) < FloorLog2(x) {
        if FloorLog2(y) + 1 < FloorLog2(x) { Pow2Grows(FloorLog2(y) + 1, FloorLog2(x)); }
      }
    }
  }

  /** A float is rounded to itself. */
  lemma RoundedExact(mode: Mode, negative: bool, m: nat)
    requires m < INFINITY
    ensures Rounded(mode, negative, Mag(23, m)) == m
  {
    hide Lsh, Rsh, Low, Mag, RoundOff, ExcessBits, FloorLog2;
    Pow2Table();
    Split(m, 23);
    var e, f := Rsh(m, 23), Low(m, 23);
    LshTable(e);
    var k := Steps(e);
    var g := m - 0x80_0000 * k;
    LshTable(k);
    SignificandValue(g, k);
    var x := Mag(23, m);
    if k > 0 {
      LshOrder(0x80_0000, g, k);
      LshOrder(g, 0x100_0000, k);
      LshLsh(1, 23, k);
      LshLsh(1, 24, k);
      FloorLog2Unique(x, 23 + k);
      Pow2GrowsTo24(k + 23);
    } else {
      LshIdentity(g);
    }
    ExcessIs(x, k);
    RoundOffExact(mode, negative, g, k);
  }

  lemma Pow2GrowsTo24(l: nat)
    requires l >= 24
    ensures Pow2(l) >= Pow2(24)
  {
    hide Lsh;
    if l > 24 { Pow2Grows(24, l); }
  }

  lemma ExcessIs(x: nat, k: nat)
    requires if k == 0 then x < 0x100_0000 else x >= Pow2(24) && FloorLog2(x) == 23 + k
    ensures ExcessBits(x) == k
  {
    hide Lsh;
    Pow2Table();
  }

  /** What IEEE 754-2019 section 4.3 asks of the rounding of x units, with the given sign:
      the nearest float, ties to even, or the next float in the rounding direction, with
      infinity beyond the largest one. */
  ghost predicate IsFloatRounding(mode: Mode, negative: bool, x: nat, r: nat) {
    if mode == ToNearest then IsNearestEven(23, INFINITY, 0, x, r)
    else if (mode == Upward && !negative) || (mode == Downward && negative) then
      r <= INFINITY && (r < INFINITY ==> x <= Mag(23, r)) && forall c: nat | c < r :: Mag(23, c) < x
    else
      r < INFINITY && Mag(23, r) <= x && forall c: nat | r < c < INFINITY :: x < Mag(23, c)
  }

  lemma RoundedIsCorrect(mode: Mode, negative: bool, x: nat)
    ensures IsFloatRounding(mode, negative, x, Rounded(mode, negative, x))
  {
    hide Lsh, Rsh, Low, Mag, RoundOff, IsNearestEven, ExcessBits;
    if mode == ToNearest {
      RoundedIsNearest(negative, x);
    } else {
      var q := Bracketed(x);
      DirectedRoundOff(mode, negative, x, ExcessBits(x));
      forall c: nat
        ensures c <= q ==> Mag(23, c) <= x
        ensures c < q ==> Mag(23, c) < x
        ensures c > q ==> x < Mag(23, c)
      {
        MagOrder(23, c, q);
        MagOrder(23, q + 1, c);
      }
    }
  }

  lemma DirectedRoundOff(mode: Mode, negative: bool, x: nat, k: nat)
    requires mode != ToNearest
    ensures var away := (mode == Upward && !negative) || (mode == Downward && negative);
      RoundOff(mode, negative, x, k) == Rsh(x, k) + if away && Low(x, k) > 0 then 1 else 0
  {
  }

  /** The floats around x, continued past infinity, with their distance. */
  lemma Bracketed(x: nat) returns (q: nat)
    ensures Mag(23, q) <= x < Mag(23, q + 1)
    ensures var k := ExcessBits(x);
      && q == Lsh(k, 23) + Rsh(x, k)
      && (x == Mag(23, q) <==> Low(x, k) == 0)
      && Mag(23, q + 1) == Mag(23, q) + Pow2(k)
      && (k > 0 ==> Mag(23, q) >= Lsh(0x80_0000, k))
      && (k == 0 ==> x == Mag(23, q))
  {
    hide Lsh, Rsh, Low, Mag, ExcessBits;
    var k := ExcessBits(x);
    var g := Rsh(x, k);
    q := Lsh(k, 23) + g;
    Significand(x);
    SignificandValue(g, k);
    SignificandValue(g + 1, k);
    LshAdd(g, 1, k);
    LshOrder(0x80_0000, g, k);
    Split(x, k);
    LshIdentity(1);
  }

  /** The definition leaves no choice. */
  lemma FloatRoundingUnique(mode: Mode, negative: bool, x: nat, r: nat, s: nat)
    requires IsFloatRounding(mode, negative, x, r) && IsFloatRounding(mode, negative, x, s)
    ensures r == s
  {
    hide Lsh, Mag, IsNearestEven;
    if mode == ToNearest { NearestEvenUnique(23, INFINITY, 0, x, r, s); }
  }

  /** The relative error of a rounding that does not overflow is at most 2^-23. */
  lemma RoundingError(mode: Mode, negative: bool, x: nat)
    requires x <= Mag(23, INFINITY - 1)
    ensures Rounded(mode, negative, x) < INFINITY
    ensures 0x80_0000 * Gap(Mag(23, Rounded(mode, negative, x)), x) <= x
  {
    hide Lsh, Rsh, Low, Mag, RoundOff, ExcessBits;
    var q := Bracketed(x);
    var k := ExcessBits(x);
    RoundedExact(mode, negative, INFINITY - 1);
    RoundedMonotone(mode, negative, x, Mag(23, INFINITY - 1));
    MagOrder(23, INFINITY - 1, q);
    RoundOffBounds(mode, negative, x, k);
    LshIsProduct(0x80_0000, k);
    LshIdentity(1);
    if x == Mag(23, q) { RoundedExact(mode, negative, q); }
  }

  lemma RoundedBound(mode: Mode, negative: bool, x: nat)
    ensures Rounded(mode, negative, x) <= INFINITY
  {
    hide Lsh, RoundOff, ExcessBits;
  }
}
