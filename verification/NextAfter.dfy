/** Sign-and-magnitude patterns in the order of their values, and the walk along it.

    A pattern below `sign` is a magnitude, one from `sign` up a magnitude with the
    sign bit; the rank of a pattern counts representable values from zero, both
    zeros having rank 0. */
module Neighbours {
  import opened Bits

  function Rank(sign: nat, d: nat): int { if d < sign then d else sign - d }

  /** The pattern arithmetic of `nextafter` for operands that are not NaN. */
  function NextPattern(sign: nat, from: nat, to: nat): nat {
    if Rank(sign, from) == Rank(sign, to) then to
    else if Rank(sign, from) == 0 then if Rank(sign, to) > 0 then 1 else sign + 1
    else if from < sign then if from < to < sign then from + 1 else from - 1
    else if to > from then from + 1 else from - 1
  }

  /** `n` steps of nextafter toward `to`. */
  function Walk(sign: nat, from: nat, to: nat, n: nat): nat
    decreases n
  {
    if n == 0 then from else Walk(sign, NextPattern(sign, from, to), to, n - 1)
  }

  lemma {:induction false} XorTopBit(d: nat, k: nat)
    requires d < Pow2(k + 1)
    ensures Xor(d, Pow2(k)) == if d >= Pow2(k) then d - Pow2(k) else d + Pow2(k)
  {
    if k > 0 { XorTopBit(d / 2, k - 1); }
  }

  function Steps(sign: nat, from: nat, to: nat): nat {
    var a, b := Rank(sign, from), Rank(sign, to);
    if a <= b then b - a else a - b
  }

  lemma NextMovesOneRank(sign: nat, from: nat, to: nat)
    requires sign > 1
    ensures var a, b, c := Rank(sign, from), Rank(sign, to), Rank(sign, NextPattern(sign, from, to));
      c == if a < b then a + 1 else if a > b then a - 1 else b
  {
  }

  /** The pattern a step leads to: the target itself when the ranks are equal, the smallest
      number of the target's sign from a zero, and otherwise the next or the previous
      pattern of the same sign: a step down from the smallest number gives a zero that
      keeps its sign. */
  lemma NextIs(sign: nat, from: nat, to: nat)
    requires sign > 1
    ensures var next, magnitude := NextPattern(sign, from, to), if from < sign then from else from - sign;
            var up := Rank(sign, to) > Rank(sign, from);
      if Rank(sign, from) == Rank(sign, to) then next == to
      else if magnitude == 0 then next == if up then 1 else sign + 1
      else
        && (next >= sign <==> from >= sign)
        && (if next < sign then next else next - sign)
           == if up == (from < sign) then magnitude + 1 else magnitude - 1
  {
  }

  /** After n steps the rank is n closer, and once there it stays there. */
  lemma {:induction false} WalkRank(sign: nat, from: nat, to: nat, n: nat)
    requires sign > 1
    ensures var a, b, c := Rank(sign, from), Rank(sign, to), Rank(sign, Walk(sign, from, to, n));
      c == if n >= Steps(sign, from, to) then b else if a < b then a + n else a - n
    decreases n
  {
    if n > 0 {
      NextMovesOneRank(sign, from, to);
      WalkRank(sign, NextPattern(sign, from, to), to, n - 1);
    }
  }

  /** Whether a pattern is no NaN: its magnitude is at most `infinity`. */
  predicate IsNumber(sign: nat, infinity: nat, d: nat) {
    d <= infinity || sign <= d <= sign + infinity
  }

  lemma {:induction false} WalkKeepsNumbers(sign: nat, infinity: nat, from: nat, to: nat, n: nat)
    requires 0 < infinity < sign
    requires IsNumber(sign, infinity, from) && IsNumber(sign, infinity, to)
    ensures IsNumber(sign, infinity, Walk(sign, from, to, n))
    decreases n
  {
    if n > 0 { WalkKeepsNumbers(sign, infinity, NextPattern(sign, from, to), to, n - 1); }
  }
}

/** Comparison, classification and nextafter of half. */
module HalfNextAfter {
  import opened Bits
  import opened BinaryFormat
  import opened HalfFormat
  import HR = HalfRounding
  import N = Neighbours
  import F = Float32

  predicate Equal(a: Half, b: Half) { F.Equal(a.ToFloat(), b.ToFloat()) }
  predicate Less(a: Half, b: Half) { F.Less(a.ToFloat(), b.ToFloat()) }
  predicate Greater(a: Half, b: Half) { Less(b, a) }
  predicate LessOrEqual(a: Half, b: Half) { !Greater(a, b) }
  predicate GreaterOrEqual(a: Half, b: Half) { !Less(a, b) }

  predicate IsNaN(h: Half) { And(h.data, 0x7c00) == 0x7c00 && And(h.data, 0x03ff) != 0 }

  predicate NanSensitiveEqual(a: Half, b: Half) { (IsNaN(a) && IsNaN(b)) || a.data == b.data }

  function Negate(h: Half): Half {
    XorSign(h.data);
    Half(Xor(h.data, 0x8000))
  }

  function Rank(h: Half): int { N.Rank(SIGN, h.data) }

  datatype Class = Zero | Subnormal | Normal | Infinite | Nan

  function Classify(h: Half): Class {
    if And(h.data, 0x7c00) == 0 then
      if And(h.data, 0x03ff) != 0 then Subnormal else Zero
    else if And(h.data, 0x7c00) == 0x7c00 then
      if And(h.data, 0x03ff) != 0 then Nan else Infinite
    else Normal
  }

  lemma XorSign(d: nat)
    requires d < 0x1_0000
    ensures Xor(d, 0x8000) == if d >= 0x8000 then d - 0x8000 else d + 0x8000
  {
    Pow2Table();
    N.XorTopBit(d, 15);
  }

  lemma NaNTest(h: Half)
    ensures IsNaN(h) <==> Magnitude16(h.data) > INFINITY
    ensures IsNaN(h) <==> HR.IsNaN(h)
    ensures IsNaN(h) <==> F.IsNaN(h.ToFloat())
  {
    hide Lsh, And, Or;
    HalfFields(h.data);
    HR.WideNaN(Magnitude16(h.data));
  }

  /** The class of a half is decided by its value: with 2^-149 as the unit, 2^-14 is
      2^135 and the largest finite half is 2^165 minus one step. */
  lemma ClassifyByValue(h: Half)
    ensures Classify(h) == Nan <==> F.IsNaN(h.ToFloat())
    ensures Classify(h) == Infinite <==> F.Magnitude(h.ToFloat()) == F.INFINITY
    ensures Classify(h) == Zero <==> F.Abs(h.ToFloat()) == 0
    ensures Classify(h) == Subnormal <==> 0 < F.Abs(h.ToFloat()) < Pow2(135)
  {
    hide Lsh, Rsh, Low, And, Or, Mag, WideMagnitude;
    var c := Magnitude16(h.data);
    HalfFields(h.data);
    HR.WideNaN(c);
    HR.AbsOrder(0, c);
    HR.AbsOrder(0x400, c);
    HR.ZeroConverts(ToNearest);
    HR.AbsOf(0x400);
    Pow2Table();
    MagSmall(10, 0x400);
    LshLsh(1, 10, 125);
  }

  lemma ValueOrder(a: Half, b: Half)
    requires !IsNaN(a) && !IsNaN(b)
    ensures HR.Value(a) < HR.Value(b) <==> Rank(a) < Rank(b)
    ensures HR.Value(a) == HR.Value(b) <==> Rank(a) == Rank(b)
  {
    hide Lsh, Rsh, Low, And, Mag, WideMagnitude;
    var c, d := Magnitude16(a.data), Magnitude16(b.data);
    HR.AbsOrder(c, d);
    HR.AbsOrder(0, c);
    HR.AbsOrder(0, d);
    HR.ZeroConverts(ToNearest);
  }

  /** The comparison operators are the order of ranks on everything but NaNs. */
  lemma ComparisonsAreRankOrder(a: Half, b: Half)
    requires !IsNaN(a) && !IsNaN(b)
    ensures Less(a, b) <==> Rank(a) < Rank(b)
    ensures Equal(a, b) <==> Rank(a) == Rank(b)
    ensures LessOrEqual(a, b) <==> Rank(a) <= Rank(b)
    ensures GreaterOrEqual(a, b) <==> Rank(a) >= Rank(b)
  {
    hide Lsh, And, Mag, WideMagnitude;
    ValueOrder(a, b);
    ValueOrder(b, a);
    NaNTest(a);
    NaNTest(b);
  }

  /** `<=` means "less or equal" exactly when no operand is a NaN: with one, both
      negated operators come out true and neither `<`, `>` nor `==` does. */
  lemma LessOrEqualIff(a: Half, b: Half)
    ensures (LessOrEqual(a, b) <==> Less(a, b) || Equal(a, b)) <==> !IsNaN(a) && !IsNaN(b)
    ensures IsNaN(a) || IsNaN(b) ==>
              LessOrEqual(a, b) && GreaterOrEqual(a, b) && !Less(a, b) && !Greater(a, b) && !Equal(a, b)
  {
    hide Lsh, And, Mag, WideMagnitude;
    NaNTest(a);
    NaNTest(b);
    if !IsNaN(a) && !IsNaN(b) { ComparisonsAreRankOrder(a, b); }
  }

  /** nan_sensitive_eq identifies all NaNs and, unlike ==, keeps the zeros apart. */
  lemma NanSensitiveEqualIs(a: Half, b: Half)
    ensures NanSensitiveEqual(a, b) <==>
              if IsNaN(a) || IsNaN(b) then IsNaN(a) && IsNaN(b)
              else Equal(a, b) && (a.data >= SIGN <==> b.data >= SIGN)
  {
    hide Lsh, And, Mag, WideMagnitude;
    NaNTest(a);
    NaNTest(b);
    if !IsNaN(a) && !IsNaN(b) { ComparisonsAreRankOrder(a, b); }
  }

  /** nextafter.  With a NaN operand it returns from + to; `sum` is the pattern of that
      float addition, a NaN whose payload the platform chooses. */
  method NextAfter(from: Half, to: Half, sum: U32) returns (r: Half)
    requires IsNaN(from) || IsNaN(to) ==> F.IsNaN(sum)
    ensures IsNaN(from) || IsNaN(to) ==> IsNaN(r)
    ensures !IsNaN(from) && !IsNaN(to) ==> r.data == N.NextPattern(SIGN, from.data, to.data)
  {
    hide Lsh, And, Or, Rsh, Low, Mag, HalfMagnitude;
    if IsNaN(from) || IsNaN(to) {
      r := Half.FromFloat(sum, ToNearest);
      HalfMagnitudeBounds(ToNearest, F.Negative(sum), F.Magnitude(sum));
      NaNTest(r);
      return;
    }
    ComparisonsAreRankOrder(from, to);
    if Equal(from, to) {
      return to;
    }
    AgainstZero(from);
    AgainstZero(to);
    if F.Equal(from.ToFloat(), 0) {
      r := if F.Less(0, to.ToFloat()) then Half(0x0001) else Negate(Half(0x0001));
      XorSign(1);
      return;
    }
    var fromData := from.data;
    var toData := to.data;
    if fromData < 0x8000 {
      fromData := (fromData + if toData > fromData && toData < 0x8000 then 1 else 0xffff) % 0x1_0000;
    } else {
      fromData := (fromData + if toData > fromData && toData >= 0x8000 then 1 else 0xffff) % 0x1_0000;
    }
    r := Half(fromData);
  }

  lemma AgainstZero(h: Half)
    requires !IsNaN(h)
    ensures F.Equal(h.ToFloat(), 0) <==> Rank(h) == 0
    ensures F.Less(0, h.ToFloat()) <==> Rank(h) > 0
  {
    hide Lsh, And, Mag, WideMagnitude;
    ZeroPattern();
    ComparisonsAreRankOrder(h, Half(0));
    ComparisonsAreRankOrder(Half(0), h);
  }

  lemma ZeroPattern()
    ensures F.Value(Half(0).ToFloat()) == F.Value(0) && !F.IsNaN(0) && !IsNaN(Half(0))
  {
    hide Lsh, Mag, And;
    HR.ZeroConverts(ToNearest);
    NaNTest(Half(0));
    HR.WideNaN(0);
  }

  function Next(from: Half, to: Half): Half
    requires !IsNaN(from) && !IsNaN(to)
  {
    NaNTest(from);
    NaNTest(to);
    Half(N.NextPattern(SIGN, from.data, to.data))
  }

  /** One step moves strictly toward the target, not past it, and skips no value. */
  lemma NextIsAdjacent(from: Half, to: Half)
    requires !IsNaN(from) && !IsNaN(to) && !Equal(from, to)
    ensures var next := Next(from, to);
      && !IsNaN(next)
      && (Less(from, to) ==> Less(from, next) && LessOrEqual(next, to))
      && (Less(to, from) ==> Less(next, from) && LessOrEqual(to, next))
      && forall d: Half | !IsNaN(d) ::
           !(Less(from, d) && Less(d, next)) && !(Less(next, d) && Less(d, from))
  {
    hide Lsh, And, Mag, Less, Equal;
    var next := Next(from, to);
    NaNTest(from);
    NaNTest(to);
    NaNTest(next);
    N.NextMovesOneRank(SIGN, from.data, to.data);
    ComparisonsAreRankOrder(from, to);
    ComparisonsAreRankOrder(to, from);
    ComparisonsAreRankOrder(from, next);
    ComparisonsAreRankOrder(next, from);
    ComparisonsAreRankOrder(next, to);
    ComparisonsAreRankOrder(to, next);
    forall d: Half | !IsNaN(d)
      ensures !(Less(from, d) && Less(d, next)) && !(Less(next, d) && Less(d, from))
    {
      ComparisonsAreRankOrder(from, d);
      ComparisonsAreRankOrder(d, next);
      ComparisonsAreRankOrder(next, d);
      ComparisonsAreRankOrder(d, from);
    }
  }

  /** Walking from one half to another takes as many steps as their ranks differ,
      and not fewer. */
  lemma WalkArrives(from: Half, to: Half, n: nat)
    requires !IsNaN(from) && !IsNaN(to)
    ensures var at := N.Walk(SIGN, from.data, to.data, n);
      at < 0x1_0000 && !IsNaN(Half(at)) && (Equal(Half(at), to) <==> n >= N.Steps(SIGN, from.data, to.data))
  {
    hide Lsh, And, Mag, Equal, Less;
    NaNTest(from);
    NaNTest(to);
    N.WalkKeepsNumbers(SIGN, INFINITY, from.data, to.data, n);
    var at := N.Walk(SIGN, from.data, to.data, n);
    NaNTest(Half(at));
    N.WalkRank(SIGN, from.data, to.data, n);
    ComparisonsAreRankOrder(Half(at), to);
  }
}

/** Comparison and nextafter of bfloat16. */
module Bfloat16NextAfter {
  import opened Bits
  import opened BinaryFormat
  import opened Bfloat16Format
  import N = Neighbours
  import F = Float32

  predicate Equal(a: Bfloat16, b: Bfloat16) { F.Equal(a.ToFloat(), b.ToFloat()) }
  predicate Less(a: Bfloat16, b: Bfloat16) { F.Less(a.ToFloat(), b.ToFloat()) }
  predicate Greater(a: Bfloat16, b: Bfloat16) { Less(b, a) }
  predicate LessOrEqual(a: Bfloat16, b: Bfloat16) { !Greater(a, b) }
  predicate GreaterOrEqual(a: Bfloat16, b: Bfloat16) { !Less(a, b) }

  function Rank(b: Bfloat16): int { N.Rank(SIGN, b.data) }

  lemma ComparisonsAreRankOrder(a: Bfloat16, b: Bfloat16)
    requires !IsNaN(a) && !IsNaN(b)
    ensures Less(a, b) <==> Rank(a) < Rank(b)
    ensures Equal(a, b) <==> Rank(a) == Rank(b)
    ensures LessOrEqual(a, b) <==> Rank(a) <= Rank(b)
    ensures GreaterOrEqual(a, b) <==> Rank(a) >= Rank(b)
  {
    hide Lsh, Mag;
    var c, d := 0x1_0000 * Magnitude16(a.data), 0x1_0000 * Magnitude16(b.data);
    MagOrder(23, c, d);
    MagOrder(23, 0, c);
    MagOrder(23, 0, d);
    ZeroNarrows();
  }

  /** `<=` means "less or equal" exactly when no operand is a NaN. */
  lemma LessOrEqualIff(a: Bfloat16, b: Bfloat16)
    ensures (LessOrEqual(a, b) <==> Less(a, b) || Equal(a, b)) <==> !IsNaN(a) && !IsNaN(b)
    ensures IsNaN(a) || IsNaN(b) ==>
              LessOrEqual(a, b) && GreaterOrEqual(a, b) && !Less(a, b) && !Greater(a, b) && !Equal(a, b)
  {
    hide Lsh, Mag;
    if !IsNaN(a) && !IsNaN(b) { ComparisonsAreRankOrder(a, b); }
  }

  /** nextafter; the comparisons with zero convert 0.0F to bfloat16 first. */
  method NextAfter(from: Bfloat16, to: Bfloat16, sum: U32) returns (r: Bfloat16)
    requires IsNaN(from) || IsNaN(to) ==> F.IsNaN(sum)
    ensures IsNaN(from) || IsNaN(to) ==> IsNaN(r)
    ensures !IsNaN(from) && !IsNaN(to) ==> r.data == N.NextPattern(SIGN, from.data, to.data)
  {
    hide Lsh, Rsh, Low, Mag, NarrowMagnitude, Equal, Less;
    if IsNaN(from) || IsNaN(to) {
      r := Bfloat16.FromFloat(sum);
      NaNKept(sum);
      return;
    }
    ComparisonsAreRankOrder(from, to);
    if Equal(from, to) {
      return to;
    }
    var zero := Bfloat16.FromFloat(0);
    ZeroNarrows();
    ComparisonsAreRankOrder(from, zero);
    ComparisonsAreRankOrder(zero, to);
    if Equal(from, zero) {
      Pow2Table();
      N.XorTopBit(1, 15);
      r := if Greater(to, zero) then Bfloat16(0x0001) else Bfloat16(Xor(0x0001, 0x8000));
      return;
    }
    var fromData := from.data;
    var toData := to.data;
    if fromData < 0x8000 {
      fromData := (fromData + if toData > fromData && toData < 0x8000 then 1 else 0xffff) % 0x1_0000;
    } else {
      fromData := (fromData + if toData > fromData && toData >= 0x8000 then 1 else 0xffff) % 0x1_0000;
    }
    r := Bfloat16(fromData);
  }

  function Next(from: Bfloat16, to: Bfloat16): Bfloat16
    requires !IsNaN(from) && !IsNaN(to)
  {
    Bfloat16(N.NextPattern(SIGN, from.data, to.data))
  }

  /** One step moves strictly toward the target, not past it, and skips no value. */
  lemma NextIsAdjacent(from: Bfloat16, to: Bfloat16)
    requires !IsNaN(from) && !IsNaN(to) && !Equal(from, to)
    ensures var next := Next(from, to);
      && !IsNaN(next)
      && (Less(from, to) ==> Less(from, next) && LessOrEqual(next, to))
      && (Less(to, from) ==> Less(next, from) && LessOrEqual(to, next))
      && forall d: Bfloat16 | !IsNaN(d) ::
           !(Less(from, d) && Less(d, next)) && !(Less(next, d) && Less(d, from))
  {
    hide Less, Equal;
    var next := Next(from, to);
    N.NextMovesOneRank(SIGN, from.data, to.data);
    ComparisonsAreRankOrder(from, to);
    ComparisonsAreRankOrder(to, from);
    ComparisonsAreRankOrder(from, next);
    ComparisonsAreRankOrder(next, from);
    ComparisonsAreRankOrder(next, to);
    ComparisonsAreRankOrder(to, next);
    forall d: Bfloat16 | !IsNaN(d)
      ensures !(Less(from, d) && Less(d, next)) && !(Less(next, d) && Less(d, from))
    {
      ComparisonsAreRankOrder(from, d);
      ComparisonsAreRankOrder(d, next);
      ComparisonsAreRankOrder(next, d);
      ComparisonsAreRankOrder(d, from);
    }
  }

  /** Walking from one bfloat16 to another takes as many steps as their ranks differ,
      and not fewer. */
  lemma WalkArrives(from: Bfloat16, to: Bfloat16, n: nat)
    requires !IsNaN(from) && !IsNaN(to)
    ensures var at := N.Walk(SIGN, from.data, to.data, n);
      at < 0x1_0000 && !IsNaN(Bfloat16(at))
      && (Equal(Bfloat16(at), to) <==> n >= N.Steps(SIGN, from.data, to.data))
  {
    hide Lsh, Mag, Equal, Less;
    N.WalkKeepsNumbers(SIGN, INFINITY, from.data, to.data, n);
    N.WalkRank(SIGN, from.data, to.data, n);
    ComparisonsAreRankOrder(Bfloat16(N.Walk(SIGN, from.data, to.data, n)), to);
  }
}

/** Comparison and nextafter of tf32, whose patterns advance by 0x2000.  Operands are
    tf32 patterns: their low 13 bits are zero. */
module TfloatNextAfter {
  import opened Bits
  import opened BinaryFormat
  import opened TfloatFormat
  import N = Neighbours
  import F = Float32

  const SIGN: nat := 0x4_0000

  predicate Equal(a: Tfloat, b: Tfloat) { F.Equal(a.ToFloat(), b.ToFloat()) }
  predicate Less(a: Tfloat, b: Tfloat) { F.Less(a.ToFloat(), b.ToFloat()) }
  predicate Greater(a: Tfloat, b: Tfloat) { Less(b, a) }
  predicate LessOrEqual(a: Tfloat, b: Tfloat) { !Greater(a, b) }
  predicate GreaterOrEqual(a: Tfloat, b: Tfloat) { !Less(a, b) }

  predicate IsPattern(t: Tfloat) { t.data % LAST_BIT == 0 }

  function Rank(t: Tfloat): int { N.Rank(SIGN, t.data / LAST_BIT) }

  lemma ComparisonsAreRankOrder(a: Tfloat, b: Tfloat)
    requires !IsNaN(a) && !IsNaN(b) && IsPattern(a) && IsPattern(b)
    ensures Less(a, b) <==> Rank(a) < Rank(b)
    ensures Equal(a, b) <==> Rank(a) == Rank(b)
    ensures LessOrEqual(a, b) <==> Rank(a) <= Rank(b)
    ensures GreaterOrEqual(a, b) <==> Rank(a) >= Rank(b)
  {
    hide Lsh, Mag;
    var c, d := F.Magnitude(a.data), F.Magnitude(b.data);
    MagOrder(23, c, d);
    MagOrder(23, 0, c);
    MagOrder(23, 0, d);
    LshZero(23);
    MagSmall(23, 0);
  }

  /** `<=` means "less or equal" exactly when no operand is a NaN. */
  lemma LessOrEqualIff(a: Tfloat, b: Tfloat)
    requires IsPattern(a) && IsPattern(b)
    ensures (LessOrEqual(a, b) <==> Less(a, b) || Equal(a, b)) <==> !IsNaN(a) && !IsNaN(b)
    ensures IsNaN(a) || IsNaN(b) ==>
              LessOrEqual(a, b) && GreaterOrEqual(a, b) && !Less(a, b) && !Greater(a, b) && !Equal(a, b)
  {
    hide Lsh, Mag;
    if !IsNaN(a) && !IsNaN(b) { ComparisonsAreRankOrder(a, b); }
  }

  /** `+` of two uint32_t; adding 0xffffe000 subtracts 0x2000. */
  function Add32(x: U32, y: U32): U32 { (x + y) % 0x1_0000_0000 }

  lemma XorSign()
    ensures Xor(0x0000_2000, 0x8000_0000) == 0x8000_2000
  {
    hide Lsh;
    Pow2Table();
    N.XorTopBit(0x2000, 31);
  }

  lemma FirstStep(c: nat, d: nat)
    requires N.Rank(SIGN, c) == 0 != N.Rank(SIGN, d)
    ensures N.NextPattern(SIGN, c, d) == if N.Rank(SIGN, d) > 0 then 1 else SIGN + 1
  {
  }

  lemma SameRank(c: nat, d: nat)
    requires N.Rank(SIGN, c) == N.Rank(SIGN, d)
    ensures N.NextPattern(SIGN, c, d) == d
  {
  }

  /** The pattern arithmetic, on patterns of 13 bits less. */
  lemma StepDecided(c: nat, d: nat)
    requires c < 0x8_0000 && d < 0x8_0000 && N.Rank(SIGN, c) != 0 && N.Rank(SIGN, c) != N.Rank(SIGN, d)
    ensures var from, to := LAST_BIT * c, LAST_BIT * d;
            var up := to > from && (to < 0x8000_0000 <==> from < 0x8000_0000);
      from < 0x1_0000_0000
      && Add32(from, if up then 0x2000 else 0xffff_e000) == LAST_BIT * N.NextPattern(SIGN, c, d)
  {
  }

  method NextAfter(from: Tfloat, to: Tfloat, sum: U32) returns (r: Tfloat)
    requires IsPattern(from) && IsPattern(to)
    requires IsNaN(from) || IsNaN(to) ==> F.IsNaN(sum)
    ensures IsPattern(r)
    ensures IsNaN(from) || IsNaN(to) ==> IsNaN(r)
    ensures !IsNaN(from) && !IsNaN(to) ==>
              r.data == LAST_BIT * N.NextPattern(SIGN, from.data / LAST_BIT, to.data / LAST_BIT)
  {
    hide Lsh, Rsh, Low, Mag, NarrowMagnitude, Equal, Less, Add32, N.NextPattern, N.Rank, IsPattern;
    if IsNaN(from) || IsNaN(to) {
      r := Tfloat.FromFloat(sum);
      NaNKept(sum);
      Idempotent(sum);
      PatternOf(r);
      return;
    }
    PatternOf(from);
    PatternOf(to);
    ghost var c, d := from.data / LAST_BIT, to.data / LAST_BIT;
    ComparisonsAreRankOrder(from, to);
    if Equal(from, to) {
      SameRank(c, d);
      return to;
    }
    var zero := Tfloat.FromFloat(0);
    Fixed(0);
    PatternOf(zero);
    AgainstZero(from, zero);
    AgainstZero(to, zero);
    if Equal(from, zero) {
      XorSign();
      FirstStep(c, d);
      r := if Greater(to, zero) then Tfloat(0x0000_2000) else Tfloat(Xor(0x0000_2000, 0x8000_0000));
      PatternOf(r);
      return;
    }
    var fromData := from.data;
    var toData := to.data;
    StepDecided(c, d);
    if fromData < 0x8000_0000 {
      fromData := Add32(fromData, if toData > fromData && toData < 0x8000_0000 then 0x2000 else 0xffff_e000);
    } else {
      fromData := Add32(fromData, if toData > fromData && toData >= 0x8000_0000 then 0x2000 else 0xffff_e000);
    }
    r := Tfloat(fromData);
    PatternOf(r);
  }

  lemma PatternOf(t: Tfloat)
    ensures IsPattern(t) <==> t.data == LAST_BIT * (t.data / LAST_BIT)
    ensures t.data / LAST_BIT < 0x8_0000
    ensures forall n: nat | t.data == LAST_BIT * n :: t.data / LAST_BIT == n
  {
  }

  lemma AgainstZero(t: Tfloat, zero: Tfloat)
    requires !IsNaN(t) && IsPattern(t) && zero.data == 0
    ensures Equal(t, zero) <==> Rank(t) == 0
    ensures Greater(t, zero) <==> Rank(t) > 0
  {
    hide Equal, Less;
    ComparisonsAreRankOrder(t, zero);
    ComparisonsAreRankOrder(zero, t);
  }

  function Next(from: Tfloat, to: Tfloat): Tfloat
    requires !IsNaN(from) && !IsNaN(to) && IsPattern(from) && IsPattern(to)
  {
    Tfloat(LAST_BIT * N.NextPattern(SIGN, from.data / LAST_BIT, to.data / LAST_BIT))
  }

  /** One step moves strictly toward the target, not past it, and skips no tf32 number. */
  lemma NextIsAdjacent(from: Tfloat, to: Tfloat)
    requires !IsNaN(from) && !IsNaN(to) && IsPattern(from) && IsPattern(to) && !Equal(from, to)
    ensures var next := Next(from, to);
      && !IsNaN(next) && IsPattern(next)
      && (Less(from, to) ==> Less(from, next) && LessOrEqual(next, to))
      && (Less(to, from) ==> Less(next, from) && LessOrEqual(to, next))
      && forall d: Tfloat | !IsNaN(d) && IsPattern(d) ::
           !(Less(from, d) && Less(d, next)) && !(Less(next, d) && Less(d, from))
  {
    hide Less, Equal;
    var next := Next(from, to);
    N.NextMovesOneRank(SIGN, from.data / LAST_BIT, to.data / LAST_BIT);
    ComparisonsAreRankOrder(from, to);
    ComparisonsAreRankOrder(to, from);
    ComparisonsAreRankOrder(from, next);
    ComparisonsAreRankOrder(next, from);
    ComparisonsAreRankOrder(next, to);
    ComparisonsAreRankOrder(to, next);
    forall d: Tfloat | !IsNaN(d) && IsPattern(d)
      ensures !(Less(from, d) && Less(d, next)) && !(Less(next, d) && Less(d, from))
    {
      ComparisonsAreRankOrder(from, d);
      ComparisonsAreRankOrder(d, next);
      ComparisonsAreRankOrder(next, d);
      ComparisonsAreRankOrder(d, from);
    }
  }

  /** Walking from one tf32 number to another takes as many steps as their ranks
      differ, and not fewer. */
  lemma WalkArrives(from: Tfloat, to: Tfloat, n: nat)
    requires !IsNaN(from) && !IsNaN(to) && IsPattern(from) && IsPattern(to)
    ensures var c, d := from.data / LAST_BIT, to.data / LAST_BIT;
            var at := LAST_BIT * N.Walk(SIGN, c, d, n);
      at < 0x1_0000_0000 && !IsNaN(Tfloat(at)) && (Equal(Tfloat(at), to) <==> n >= N.Steps(SIGN, c, d))
  {
    hide Lsh, Mag, Equal, Less;
    var c, d := from.data / LAST_BIT, to.data / LAST_BIT;
    N.WalkKeepsNumbers(SIGN, 0x3fc00, c, d, n);
    N.WalkRank(SIGN, c, d, n);
    ComparisonsAreRankOrder(Tfloat(LAST_BIT * N.Walk(SIGN, c, d, n)), to);
  }
}
