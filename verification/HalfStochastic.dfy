/** The stochastic constructor of half: a random number decides the direction. */
module HalfStochastic {
  import opened Bits
  import opened BinaryFormat
  import opened HalfFormat
  import opened HalfRounding
  import F = Float32

  const RANDOM_VALUES: nat := 0x2000

  /** The pattern the constructor stores: below the smallest normal half zero, from
      2^16 infinity, and in between a truncation after adding the random bits.  Float
      subnormals and exponents all ones take paths of their own. */
  function StochasticBits(v: U32, random: nat): nat {
    var m, sign, r := F.Magnitude(v), if F.Negative(v) then SIGN else 0, Low(random, 13);
    if m < 0x80_0000 then
      sign + if Rsh(m, 13) == 0x3ff then 0x3ff else RoundOff(ToNearest, F.Negative(v), m, 13)
    else if m < 113 * 0x80_0000 then sign
    else if m < 143 * 0x80_0000 then sign + Rsh(m - 112 * 0x80_0000 + r, 13)
    else if m < F.INFINITY then sign + INFINITY
    else if Low(m, 23) + r >= 0x80_0000 then SIGN
    else sign + Rsh(m - 224 * 0x80_0000 + r, 13)
  }

  method FromFloat(v: U32, random: U32) returns (h: Half)
    ensures h.data == StochasticBits(v, random)
  {
    hide Lsh, Rsh, Low, And, Or;
    ghost var m := F.Magnitude(v);
    StochasticFields(v);
    var sign := Rsh(And(v, 0x8000_0000), 31);
    var exponent: U16 := Rsh(And(v, 0x7f80_0000), 23);
    var mantissaFloat := And(v, 0x007f_ffff);
    var remainder := And(v, 0x0000_1fff);
    MaskedShift(mantissaFloat);
    var mantissa: U16 := And(Rsh(mantissaFloat, 13), 0x3ff);
    LshTable(sign);
    if exponent != 0 && exponent != 0xff {
      if exponent <= 127 - 15 {
        h := Half(Lsh(sign, 15));
        return;
      }
      if exponent > 127 + 15 {
        SignOr(sign, 0x7c00);
        h := Half(Or(Lsh(sign, 15), 0x7c00));
        return;
      }
      exponent := exponent - (127 - 15);
    } else if exponent == 0xff {
      exponent := 0x1f;
    }
    if exponent == 0 {
      SubnormalOperand(m, F.Negative(v));
      if (remainder > 0x1000 && mantissa != 0x3ff) ||
         (remainder == 0x1000 && mantissa != 0x3ff && mantissa % 2 == 1) {
        mantissa := mantissa + 1;
      }
    } else {
      RandomBits(random);
      var mantissaWithRandom := mantissaFloat + And(random, 0x1fff);
      var carryOver := And(mantissaFloat, 0xff80_0000) != And(mantissaWithRandom, 0xff80_0000);
      CarryBit(mantissaFloat);
      CarryBit(mantissaWithRandom);
      AddRandom(exponent, mantissaFloat, And(random, 0x1fff));
      if carryOver {
        mantissaWithRandom := Rsh(And(mantissaWithRandom, 0x007f_ffff), 1);
        exponent := exponent + 1;
      }
      MaskedShift(mantissaWithRandom);
      mantissa := And(Rsh(mantissaWithRandom, 13), 0x3ff);
    }
    Assemble(sign, exponent, mantissa);
    h := Half(Or(Or(Lsh(sign, 15), Lsh(exponent, 10)), mantissa));
  }

  lemma StochasticFields(v: U32)
    ensures var m, e, f := F.Magnitude(v), Rsh(And(v, 0x7f80_0000), 23), And(v, 0x007f_ffff);
      && Rsh(And(v, 0x8000_0000), 31) == (if F.Negative(v) then 1 else 0)
      && m == 0x80_0000 * e + f && f < 0x80_0000 && e <= 0xff
      && f == Low(m, 23)
      && And(v, 0x0000_1fff) == Low(m, 13)
  {
    hide Lsh, Rsh, Low, And;
    var m, s := F.Magnitude(v), if F.Negative(v) then 1 else 0;
    F.Fields(v);
    FieldsHold(v);
    Pow2Table();
    LshTable(s);
    SplitUnique(F.SIGN, 31, 1, 0);
    LshZero(31);
    AndLowMask(v, 13);
    RshHigh(s, m, 18, 13);
  }

  lemma MaskedShift(f: nat)
    requires f < 0x80_0000
    ensures And(Rsh(f, 13), 0x3ff) == Rsh(f, 13) < 0x400
  {
    hide Lsh, Rsh, Low, And;
    Pow2Table();
    RshBelow(f, 10, 13);
    AndLowMask(Rsh(f, 13), 10);
    LowSmall(Rsh(f, 13), 10);
  }

  lemma SignOr(sign: nat, c: nat)
    requires c < 0x8000
    ensures Or(Lsh(sign, 15), c) == 0x8000 * sign + c
  {
    hide Lsh, Or;
    Pow2Table();
    LshTable(sign);
    OrDisjoint(sign, c, 15);
  }

  lemma SubnormalOperand(m: nat, negative: bool)
    requires m < 0x80_0000
    ensures RoundOff(ToNearest, negative, m, 13) == Rsh(m, 13) +
      if Low(m, 13) > 0x1000 || (Low(m, 13) == 0x1000 && Rsh(m, 13) % 2 == 1) then 1 else 0
  {
    hide Lsh, Rsh, Low;
    Pow2Table();
  }

  lemma RandomBits(random: nat)
    ensures And(random, 0x1fff) == Low(random, 13) < 0x2000
  {
    hide Lsh, Low, And;
    Pow2Table();
    AndLowMask(random, 13);
    Split(random, 13);
  }

  lemma CarryBit(x: nat)
    requires x < 0x100_0000
    ensures And(x, 0xff80_0000) == if x >= 0x80_0000 then 0x80_0000 else 0
    ensures And(x, 0x007f_ffff) == if x >= 0x80_0000 then x - 0x80_0000 else x
  {
    hide Lsh, Rsh, Low, And;
    var b := if x >= 0x80_0000 then 1 else 0;
    Pow2Table();
    LshTable(b);
    LshTable(0x1ff);
    SplitUnique(x, 23, b, x - 0x80_0000 * b);
    LowSmall(b, 9);
    AndFieldMask(x, 9, 23);
    AndLowMask(x, 23);
  }

  /** Adding the random bits and truncating, with the carry moved by hand. */
  lemma AddRandom(e: nat, f: nat, r: nat)
    requires f < 0x80_0000 && r < 0x2000
    ensures f + r < 0x80_0000 ==> Rsh(0x80_0000 * e + f + r, 13) == 0x400 * e + Rsh(f + r, 13)
    ensures f + r >= 0x80_0000 ==> Rsh(0x80_0000 * e + f + r, 13) == 0x400 * (e + 1)
    ensures f + r >= 0x80_0000 ==> Rsh(Rsh(f + r - 0x80_0000, 1), 13) == 0
    ensures f + r >= 0x80_0000 ==> Rsh(f + r - 0x80_0000, 1) < 0x80_0000
  {
    hide Lsh, Rsh, Low;
    Pow2Table();
    LshTable(e);
    LshTable(e + 1);
    if f + r < 0x80_0000 {
      RshHigh(e, f + r, 10, 13);
    } else {
      var x := f + r - 0x80_0000;
      RshHigh(e + 1, x, 10, 13);
      LowSmall(x, 13);
      HalfOf(x);
      LowSmall(Rsh(x, 1), 13);
    }
  }

  lemma HalfOf(x: nat)
    ensures Rsh(x, 1) == x / 2
  {
  }

  lemma Assemble(sign: nat, e: nat, f: nat)
    requires sign <= 1 && e <= 32 && f < 0x400 && (e == 32 ==> f == 0)
    ensures Or(Or(Lsh(sign, 15), Lsh(e, 10)), f)
         == if e == 32 then 0x8000 else 0x8000 * sign + 0x400 * e + f
  {
    hide Lsh, Or;
    LshTable(e);
    LshTable(sign);
    if e == 32 {
      LshTable(1);
      LshLsh(1, 5, 10);
      LshZero(15);
      OrSplit(sign, 1, 0, 0, 15);
      OrBit(sign);
      OrZero(0);
      OrZero(0x8000);
    } else {
      SignOr(sign, 0x400 * e);
      Pow2Table();
      LshLsh(sign, 5, 10);
      OrDisjoint(Lsh(sign, 5) + e, f, 10);
      LshAdd(Lsh(sign, 5), e, 10);
    }
  }

  lemma OrBit(b: nat)
    requires b <= 1
    ensures Or(b, 1) == 1
  {
  }

  // ------------------------------------------------------------ unbiasedness

  /** Operands that are truncated after adding the random bits: 2^-14 <= |v| < 2^16. */
  predicate Truncated(v: U32) {
    113 * 0x80_0000 <= F.Magnitude(v) < 143 * 0x80_0000
  }

  /** Those whose two half neighbours are finite and normal: 2^-14 <= |v| <= 65504. */
  predicate InRange(v: U32) {
    113 * 0x80_0000 <= F.Magnitude(v) <= 0x477f_e000
  }

  function Stochastic(v: U32, random: nat): Half {
    FitsHalf(v, random);
    Half(StochasticBits(v, random))
  }

  lemma FitsHalf(v: U32, random: nat)
    ensures StochasticBits(v, random) < 0x1_0000
  {
    hide Lsh, Rsh, Low, RoundOff, IsNaN;
    var m := F.Magnitude(v);
    Pow2Table();
    if m < 0x80_0000 {
      SmallOperandBits(v, random);
    } else if Truncated(v) {
      CarryDecides(v, random);
    } else if m == F.INFINITY {
      InfiniteOperand(v, random);
    } else if m > F.INFINITY {
      NaNKeptIff(v, random);
    }
  }

  /** The kept magnitude and the random values that round it up. */
  lemma CarryDecides(v: U32, random: nat)
    requires Truncated(v)
    ensures var n := F.Magnitude(v) - 112 * 0x80_0000;
      && Rsh(n, 13) < INFINITY
      && (InRange(v) && Low(n, 13) > 0 ==> Rsh(n, 13) + 1 < INFINITY)
      && (!InRange(v) ==> Rsh(n, 13) + 1 == INFINITY && Low(n, 13) > 0)
      && Low(n, 13) < 0x2000
      && StochasticBits(v, random) == (if F.Negative(v) then SIGN else 0) + Rsh(n, 13)
           + if Low(n, 13) + Low(random, 13) >= 0x2000 then 1 else 0
  {
    hide Lsh, Rsh, Low;
    var n, r := F.Magnitude(v) - 112 * 0x80_0000, Low(random, 13);
    var q, l := Rsh(n, 13), Low(n, 13);
    Pow2Table();
    Split(n, 13);
    Split(random, 13);
    LshTable(q);
    LshTable(q + 1);
    if l + r >= 0x2000 {
      SplitUnique(n + r, 13, q + 1, l + r - 0x2000);
    } else {
      SplitUnique(n + r, 13, q, l + r);
    }
  }

  /** How many of the first `n` random values round away from zero. */
  function CountAway(v: U32, n: nat): nat {
    if n == 0 then 0
    else CountAway(v, n - 1)
         + if Magnitude16(Stochastic(v, n - 1).data) > Magnitude16(Stochastic(v, 0).data) then 1 else 0
  }

  /** The sum of the values of the first `n` results. */
  function SumOfValues(v: U32, n: nat): int {
    if n == 0 then 0 else SumOfValues(v, n - 1) + Value(Stochastic(v, n - 1))
  }

  lemma {:induction false} CountSoFar(v: U32, n: nat)
    requires Truncated(v) && n <= RANDOM_VALUES
    ensures var l := Low(F.Magnitude(v), 13);
      CountAway(v, n) == if n + l > 0x2000 then n + l - 0x2000 else 0
  {
    hide Lsh, Rsh, Low, Mag, Abs, WideMagnitude, StochasticBits;
    Pow2Table();
    Split(F.Magnitude(v), 13);
    if n > 0 {
      CountSoFar(v, n - 1);
      RoundsAway(v, n - 1);
    }
  }

  /** Random value `r` rounds away from zero when it carries out of the low bits. */
  lemma RoundsAway(v: U32, r: nat)
    requires Truncated(v) && r < RANDOM_VALUES
    ensures var up := Low(F.Magnitude(v), 13) + r >= 0x2000;
      && (Magnitude16(Stochastic(v, r).data) > Magnitude16(Stochastic(v, 0).data) <==> up)
      && Rsh(F.Magnitude(v) - 112 * 0x80_0000, 13) < INFINITY
      && Value(Stochastic(v, r)) == F.Signed(F.Negative(v),
           Abs(Rsh(F.Magnitude(v) - 112 * 0x80_0000, 13) + if up then 1 else 0))
  {
    hide Lsh, Rsh, Low, Mag, Abs, WideMagnitude, StochasticBits;
    SameLowBits(v);
    CarryDecides(v, r);
    CarryDecides(v, 0);
    Pow2Table();
    LowSmall(r, 13);
    LshZero(13);
    StochasticValue(v, r);
    StochasticValue(v, 0);
  }

  lemma {:induction false} SumSoFar(v: U32, n: nat, q: nat)
    requires Truncated(v) && n <= RANDOM_VALUES
    requires q == Rsh(F.Magnitude(v) - 112 * 0x80_0000, 13) < INFINITY
    ensures SumOfValues(v, n)
         == F.Signed(F.Negative(v), n * Abs(q) + CountAway(v, n) * (Abs(q + 1) - Abs(q)))
  {
    hide Lsh, Rsh, Low, Mag, Abs, WideMagnitude, StochasticBits, Stochastic;
    if n > 0 {
      var up := Low(F.Magnitude(v), 13) + (n - 1) >= 0x2000;
      SumSoFar(v, n - 1, q);
      RoundsAway(v, n - 1);
      SumStep(F.Negative(v), n, Abs(q), CountAway(v, n - 1), Abs(q + 1) - Abs(q), if up then 1 else 0);
    } else {
      SumStep(F.Negative(v), 1, Abs(q), 0, Abs(q + 1) - Abs(q), 0);
    }
  }

  lemma SumStep(negative: bool, n: nat, low: int, c: int, step: int, b: int)
    requires 0 <= b <= 1 && n > 0
    ensures F.Signed(negative, (n - 1) * low + c * step) + F.Signed(negative, if b == 1 then low + step else low)
         == F.Signed(negative, n * low + (c + b) * step)
    ensures 0 * low == 0 && 0 * step == 0
  {
    assert n * low == (n - 1) * low + low;
    assert (c + b) * step == c * step + b * step;
  }

  lemma SameLowBits(v: U32)
    requires Truncated(v)
    ensures Low(F.Magnitude(v) - 112 * 0x80_0000, 13) == Low(F.Magnitude(v), 13)
  {
    hide Lsh, Rsh, Low;
    LshTable(112);
    RshHigh(112, F.Magnitude(v) - 112 * 0x80_0000, 10, 13);
  }

  lemma StochasticValue(v: U32, random: nat)
    requires Truncated(v)
    ensures var q := Rsh(F.Magnitude(v) - 112 * 0x80_0000, 13);
            var up := Low(F.Magnitude(v) - 112 * 0x80_0000, 13) + Low(random, 13) >= 0x2000;
      && Magnitude16(Stochastic(v, random).data) == (if up then q + 1 else q) <= INFINITY
      && Value(Stochastic(v, random)) == F.Signed(F.Negative(v), Abs(if up then q + 1 else q))
  {
    hide Lsh, Rsh, Low, Mag, WideMagnitude;
    CarryDecides(v, random);
    Pow2Table();
    Split(random, 13);
  }

  /** Exactly as many random values round away from zero as the low 13 bits say. */
  lemma AwayCount(v: U32)
    requires Truncated(v)
    ensures CountAway(v, RANDOM_VALUES) == Low(F.Magnitude(v), 13)
  {
    hide Lsh, Rsh, Low, Mag, WideMagnitude, StochasticBits;
    CountSoFar(v, RANDOM_VALUES);
  }

  /** The kept half `q`, the `l` dropped bits and their scale 2^t. */
  predicate Parts(v: U32, q: nat, l: nat, t: nat) {
    Truncated(v) && q < INFINITY &&
    var n := F.Magnitude(v) - 112 * 0x80_0000;
    q == Rsh(n, 13) && l == Low(n, 13) && t == 112 + Steps(Rsh(n, 23))
  }

  lemma PartsOf(v: U32) returns (q: nat, l: nat, t: nat)
    requires Truncated(v)
    ensures Parts(v, q, l, t) && q < INFINITY
    ensures F.Abs(v) == Abs(q) + Lsh(l, t)
    ensures l == Low(F.Magnitude(v), 13)
  {
    hide Lsh, Rsh, Low, Mag, WideMagnitude, StochasticBits;
    var n := F.Magnitude(v) - 112 * 0x80_0000;
    q, l, t := Rsh(n, 13), Low(n, 13), 112 + Steps(Rsh(n, 23));
    CarryDecides(v, 0);
    Rebased(F.Magnitude(v));
    PatternBracket(10, 13, n, 112);
    AbsOf(q);
    SameLowBits(v);
  }

  /** So the results add up to 2^13 times the operand: the rounding has no bias. */
  lemma Unbiased(v: U32)
    requires InRange(v)
    ensures CountAway(v, RANDOM_VALUES) == Low(F.Magnitude(v), 13)
    ensures SumOfValues(v, RANDOM_VALUES) == RANDOM_VALUES * F.Value(v)
  {
    hide Lsh, Rsh, Low, Mag, Abs, StochasticBits, Stochastic, CountAway, SumOfValues, Parts;
    var q, l, t := PartsOf(v);
    SumOfTruncated(v, q, l, t);
    AwayCount(v);
    StepUp(v, q, l, t);
    SumIsScaled(Abs(q), l, t);
  }

  /** The step to the next half away from zero, which is longer into infinity. */
  lemma StepUp(v: U32, q: nat, l: nat, t: nat)
    requires Parts(v, q, l, t)
    ensures InRange(v) && l > 0 ==> Abs(q + 1) - Abs(q) == Lsh(Pow2(13), t)
    ensures !InRange(v) ==> l > 0 && Abs(q + 1) - Abs(q) > Lsh(Pow2(13), t)
  {
    hide Lsh, Rsh, Low, Mag, WideMagnitude, StochasticBits;
    CarryDecides(v, 0);
    AbsOf(q);
    AbsOf(q + 1);
    PatternBracket(10, 13, F.Magnitude(v) - 112 * 0x80_0000, 112);
  }

  /** The sum of the results, before the step to the next half is known. */
  lemma SumOfTruncated(v: U32, q: nat, l: nat, t: nat)
    requires Parts(v, q, l, t)
    ensures SumOfValues(v, RANDOM_VALUES)
         == F.Signed(F.Negative(v), RANDOM_VALUES * Abs(q) + l * (Abs(q + 1) - Abs(q)))
  {
    hide Lsh, Rsh, Low, Mag, Abs, StochasticBits, Stochastic, CountAway, SumOfValues;
    SumSoFar(v, RANDOM_VALUES, q);
    AwayCount(v);
    SameLowBits(v);
  }

  /** When the rounding has no bias, over all operands that are not NaN: on the zeros,
      the infinities and 2^-14 <= |v| <= 65504.  Below 2^-14 every random value gives the
      same wrong result, up to 2^16 some give infinity, and beyond that all do. */
  lemma UnbiasedIff(v: U32)
    requires !F.IsNaN(v)
    ensures SumOfValues(v, RANDOM_VALUES) == RANDOM_VALUES * F.Value(v)
       <==> F.Magnitude(v) == 0 || F.Magnitude(v) == F.INFINITY || InRange(v)
  {
    hide Lsh, Rsh, Low, Mag, WideMagnitude, StochasticBits, Stochastic;
    if InRange(v) {
      Unbiased(v);
    } else if Truncated(v) {
      BiasedBelowOverflow(v);
    } else {
      var c := ConstantResult(v);
      SumOfConstant(v, RANDOM_VALUES, F.Signed(F.Negative(v), Abs(c)));
    }
  }

  /** Between 65504 and 2^16 a carry gives infinity, which is worth more than 2^16. */
  lemma BiasedBelowOverflow(v: U32)
    requires Truncated(v) && !InRange(v)
    ensures SumOfValues(v, RANDOM_VALUES) != RANDOM_VALUES * F.Value(v)
  {
    hide Lsh, Rsh, Low, Mag, Abs, StochasticBits, Stochastic, SumOfValues, Parts;
    var q, l, t := PartsOf(v);
    SumOfTruncated(v, q, l, t);
    StepUp(v, q, l, t);
    SumIsScaled(Abs(q), l, t);
    Strict(l, Lsh(Pow2(13), t), Abs(q + 1) - Abs(q));
  }

  lemma Strict(l: nat, a: int, b: int)
    requires l > 0 && a < b
    ensures l * a < l * b
  {
  }

  lemma {:induction false} SumOfConstant(v: U32, n: nat, x: int)
    requires forall r: nat | r < n :: Value(Stochastic(v, r)) == x
    ensures SumOfValues(v, n) == n * x
  {
    hide Value, Stochastic;
    if n > 0 {
      SumOfConstant(v, n - 1, x);
      assert n * x == (n - 1) * x + x;
    }
  }

  /** Outside 2^-14 <= |v| < 2^16 the random bits have no effect, and the result has the
      value of the operand only if that is zero or infinite. */
  lemma ConstantResult(v: U32) returns (c: nat)
    requires !F.IsNaN(v) && !Truncated(v)
    ensures c < SIGN
    ensures forall r: nat :: Value(Stochastic(v, r)) == F.Signed(F.Negative(v), Abs(c))
    ensures Abs(c) == F.Abs(v) <==> F.Magnitude(v) == 0 || F.Magnitude(v) == F.INFINITY
  {
    hide Lsh, Rsh, Low, Mag, WideMagnitude, RoundOff, Abs;
    var m := F.Magnitude(v);
    ConstantValue(v, m);
    c := if m < 0x80_0000 then SubnormalResult(v) else if m < 143 * 0x80_0000 then 0 else INFINITY;
    forall r: nat
      ensures Value(Stochastic(v, r)) == F.Signed(F.Negative(v), Abs(c))
    {
      ConstantBits(v, r);
      ResultValue(Stochastic(v, r), c);
    }
  }

  lemma ResultValue(h: Half, c: nat)
    requires c < SIGN && Magnitude16(h.data) == c
    ensures Value(h) == F.Signed(h.data >= SIGN, Abs(c))
  {
    hide Mag, WideMagnitude;
  }

  /** What a float subnormal becomes, without its sign. */
  function SubnormalResult(v: U32): nat {
    var m := F.Magnitude(v);
    if Rsh(m, 13) == 0x3ff then 0x3ff else RoundOff(ToNearest, F.Negative(v), m, 13)
  }

  lemma SmallOperandBits(v: U32, random: nat)
    requires F.Magnitude(v) < 0x80_0000
    ensures SubnormalResult(v) <= 0x3ff
    ensures StochasticBits(v, random) == SubnormalResult(v) + if F.Negative(v) then SIGN else 0
  {
    hide Lsh, Low, Rsh, RoundOff;
    Pow2Table();
    RshBelow(F.Magnitude(v), 10, 13);
    F.RoundOffBounds(ToNearest, F.Negative(v), F.Magnitude(v), 13);
  }

  lemma InfiniteOperand(v: U32, random: nat)
    requires F.Magnitude(v) == F.INFINITY
    ensures StochasticBits(v, random) == INFINITY + if F.Negative(v) then SIGN else 0
  {
    hide Lsh, Low, Rsh;
    Pow2Table();
    Split(random, 13);
    LshTable(0xff);
    LshTable(INFINITY);
    SplitUnique(F.INFINITY, 23, 0xff, 0);
    SplitUnique(31 * 0x80_0000 + Low(random, 13), 13, INFINITY, Low(random, 13));
  }

  lemma ConstantBits(v: U32, random: nat)
    requires !F.IsNaN(v) && !Truncated(v)
    ensures var m, h := F.Magnitude(v), Stochastic(v, random);
      && Magnitude16(h.data) == (if m < 0x80_0000 then SubnormalResult(v) else if m < 143 * 0x80_0000 then 0 else INFINITY)
      && (h.data >= SIGN <==> F.Negative(v))
  {
    hide Lsh, Low, Rsh, RoundOff, SubnormalResult;
    if F.Magnitude(v) < 0x80_0000 {
      SmallOperandBits(v, random);
    } else if F.Magnitude(v) == F.INFINITY {
      InfiniteOperand(v, random);
    }
  }

  lemma ConstantValue(v: U32, m: nat)
    requires m == F.Magnitude(v) <= F.INFINITY && !Truncated(v)
    ensures var c := if m < 0x80_0000 then SubnormalResult(v) else if m < 143 * 0x80_0000 then 0 else INFINITY;
      c < SIGN && (Abs(c) == F.Abs(v) <==> m == 0 || m == F.INFINITY)
  {
    hide Lsh, Rsh, Low, Mag, RoundOff, SubnormalResult;
    ZeroConverts(ToNearest);
    MagOrder(23, m, 0);
    MagSmall(23, 0);
    if m < 0x80_0000 {
      SmallOperandBits(v, 0);
      SmallValue(m, SubnormalResult(v));
      if m == 0 { ZeroResult(v); }
    } else if m >= 143 * 0x80_0000 {
      AbsOf(INFINITY);
      MagOrder(23, m, F.INFINITY);
    }
  }

  lemma ZeroResult(v: U32)
    requires F.Magnitude(v) == 0
    ensures SubnormalResult(v) == 0
  {
    hide Lsh, Rsh, Low;
    LshZero(13);
  }

  /** A nonzero half is worth far more than a float subnormal. */
  lemma SmallValue(m: nat, c: nat)
    requires m < 0x80_0000 && c <= 0x3ff
    ensures Mag(23, m) == m && (c > 0 ==> Abs(c) > m) && (c == 0 ==> Abs(c) == 0)
  {
    hide Lsh, Rsh, Low, Mag;
    Pow2Table();
    MagSmall(23, m);
    MagSmall(10, c);
    AbsOf(c);
    LshOrder(1, c, 125);
    LshZero(125);
    Pow2Grows(23, 125);
  }

  lemma SumIsScaled(low: nat, l: nat, t: nat)
    ensures 0x2000 * low + l * Lsh(Pow2(13), t) == 0x2000 * (low + Lsh(l, t))
  {
    hide Lsh;
    Pow2Table();
    LshIsProduct(l, t);
    LshIsProduct(0x2000, t);
    Regroup(l, Pow2(t));
  }

  lemma Regroup(l: nat, unit: nat)
    ensures l * (0x2000 * unit) == 0x2000 * (l * unit)
  {
  }

  /** The extreme random values give the two directed roundings, up to the carries that
      end in infinity. */
  lemma ExtremesAreDirected(v: U32)
    requires Truncated(v)
    ensures StochasticBits(v, 0) == HalfBits(TowardZero, v)
    ensures StochasticBits(v, 0x1fff) == HalfBits(if F.Negative(v) then Downward else Upward, v)
  {
    hide Lsh, Rsh, Low, Mag, HalfMagnitude, StochasticBits;
    CarryDecides(v, 0);
    CarryDecides(v, 0x1fff);
    LshZero(13);
    Pow2Table();
    LowSmall(0x1fff, 13);
    NormalResult(TowardZero, F.Negative(v), F.Magnitude(v));
    NormalResult(if F.Negative(v) then Downward else Upward, F.Negative(v), F.Magnitude(v));
  }

  // ------------------------------------------------- operands out of that range

  /** A float subnormal is far below half the smallest half, so the nearest result is
      zero; the constructor rounds its fraction bits instead, which gives zero only up
      to fraction 0x1000. */
  lemma SubnormalOperandCorrectIff(v: U32, random: nat)
    requires F.Magnitude(v) < 0x80_0000
    ensures StochasticBits(v, random) == HalfBits(ToNearest, v) <==> F.Magnitude(v) <= 0x1000
  {
    hide Lsh, Rsh, Low, Mag;
    var m := F.Magnitude(v);
    TooSmall(m, F.Negative(v));
    Pow2Table();
    Split(m, 13);
    LshTable(Rsh(m, 13));
  }

  /** What it gives: the fraction rounded to its upper ten bits, to nearest and ties to
      even, but not beyond ten ones. */
  lemma SubnormalOperandIs(v: U32, random: nat)
    requires F.Magnitude(v) < 0x80_0000
    ensures var m, c := F.Magnitude(v), Magnitude16(Stochastic(v, random).data);
      && c <= 0x3ff && (Stochastic(v, random).data >= SIGN <==> F.Negative(v))
      && m - 0x2000 * c >= -0x1000 && (m - 0x2000 * c <= 0x1000 || c == 0x3ff)
      && (m - 0x2000 * c == 0x1000 || m - 0x2000 * c == -0x1000 ==> c % 2 == 0 || c == 0x3ff)
  {
    hide Lsh, Rsh, Low;
    var m := F.Magnitude(v);
    SmallOperandBits(v, random);
    Pow2Table();
    Split(m, 13);
    LshTable(Rsh(m, 13));
  }

  /** The random bits are a threshold for the 13 bits that are dropped. */
  lemma RoundsAwayIff(v: U32, random: nat)
    requires Truncated(v)
    ensures StochasticBits(v, random) == HalfBits(TowardZero, v) +
      if F.Magnitude(v) % 0x2000 + random % 0x2000 >= 0x2000 then 1 else 0
  {
    hide Lsh, Rsh, Low, Mag, HalfMagnitude, StochasticBits;
    CarryDecides(v, random);
    Pow2Table();
    SameLowBits(v);
    RshIsQuotient(F.Magnitude(v), 13);
    RshIsQuotient(random, 13);
    NormalResult(TowardZero, F.Negative(v), F.Magnitude(v));
  }

  /** From 2^16 up every random value gives an infinity of the operand's sign. */
  lemma OverflowIsInfinite(v: U32, random: nat)
    requires 143 * 0x80_0000 <= F.Magnitude(v) <= F.INFINITY
    ensures StochasticBits(v, random) == INFINITY + if F.Negative(v) then SIGN else 0
  {
    hide Lsh, Low, Rsh, RoundOff;
    if F.Magnitude(v) == F.INFINITY { InfiniteOperand(v, random); }
  }

  /** From 2^-126 up to 2^-14 every random value gives zero, which is the nearest half
      exactly up to 2^-25. */
  lemma UnderflowCorrectIff(v: U32, random: nat)
    requires 0x80_0000 <= F.Magnitude(v) < 113 * 0x80_0000
    ensures StochasticBits(v, random) == if F.Negative(v) then SIGN else 0
    ensures StochasticBits(v, random) == HalfBits(ToNearest, v) <==> F.Magnitude(v) <= 0x3300_0000
  {
    hide Lsh, Rsh, Low, Mag, HalfMagnitude;
    HalfMagnitudeBounds(ToNearest, F.Negative(v), F.Magnitude(v));
    NearestThresholds(v);
  }

  /** 2^-15 is a half, and becomes zero. */
  lemma SubnormalHalfLost(random: nat)
    ensures StochasticBits(0x3800_0000, random) == 0
    ensures HalfBits(ToNearest, 0x3800_0000) == 0x0200 && Value(Half(0x0200)) == F.Value(0x3800_0000)
  {
    hide Lsh, Rsh, Low, Mag, RoundOff, WideMagnitude, Value;
    HalfOfMinNormal();
    RoundOffExact(ToNearest, false, 0x200, 125);
    ResultValue(Half(0x0200), 0x200);
  }

  lemma HalfOfMinNormal()
    ensures Mag(23, 0x3800_0000) == Lsh(0x200, 125) == Abs(0x200)
  {
    hide Lsh, Rsh, Low, Mag, WideMagnitude;
    Pow2Table();
    F.NormalValue(0x3800_0000, 112, 0);
    LshLsh(1, 23, 111);
    LshLsh(1, 9, 125);
    MagSmall(10, 0x200);
    AbsOf(0x200);
  }

  /** A NaN stays a NaN exactly when the random bits leave the exponent alone and a
      kept fraction bit set; otherwise it becomes an infinity or a negative zero. */
  lemma NaNKeptIff(v: U32, random: nat)
    requires F.IsNaN(v)
    ensures var s := Low(F.Magnitude(v), 23) + Low(random, 13);
      && StochasticBits(v, random) < 0x1_0000
      && (IsNaN(Half(StochasticBits(v, random))) <==> 0x2000 <= s < 0x80_0000)
      && StochasticBits(v, random) == if s >= 0x80_0000 then SIGN
           else INFINITY + s / 0x2000 + if F.Negative(v) then SIGN else 0
  {
    hide Lsh, Rsh, Low;
    var m, r := F.Magnitude(v), Low(random, 13);
    var f := m - 0xff * 0x80_0000;
    Pow2Table();
    LshTable(0xff);
    SplitUnique(m, 23, 0xff, f);
    Split(random, 13);
    AddRandom(31, f, r);
    if f + r < 0x80_0000 {
      RshIsQuotient(f + r, 13);
      MaskedShift(f + r);
      Split(f + r, 13);
      LshTable(Rsh(f + r, 13));
    }
  }

  lemma NaNLost()
    ensures StochasticBits(0x7fff_ffff, 1) == 0x8000
    ensures StochasticBits(0x7f80_0001, 0) == INFINITY
  {
    hide Lsh, Rsh, Low;
    Pow2Table();
    LowSmall(1, 13);
    LowSmall(0, 13);
    LshTable(0xff);
    SplitUnique(0x7fff_ffff, 23, 0xff, 0x7f_ffff);
    SplitUnique(0x7f80_0001, 23, 0xff, 1);
    AddRandom(31, 1, 0);
    LowSmall(1, 13);
  }
}
