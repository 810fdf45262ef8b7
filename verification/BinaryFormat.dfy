/** Binary floating-point magnitudes and their rounding.

    A magnitude pattern (a float without its sign bit) of a format with `p`
    trailing fraction bits is a natural m = e * 2^p + f.  `Mag(p, m)` is the number
    it encodes (IEEE 754-2019 section 3.4), counted in units of the format's
    smallest subnormal.  The pattern of infinity follows the largest finite pattern
    and `Mag` gives it the value the next binade would start with: the value
    against which section 4.3.1 decides whether a result overflows. */
module BinaryFormat {
  import opened Bits

  /** The rounding directions `fegetround` reports. */
  datatype Mode = ToNearest | Upward | Downward | TowardZero

  /** log2 of the spacing of the magnitudes whose exponent field is `e`. */
  function Steps(e: nat): nat { if e == 0 then 0 else e - 1 }

  function Mag(p: nat, m: nat): nat {
    var e, f := Rsh(m, p), Low(m, p);
    if e == 0 then f else Lsh(Pow2(p) + f, e - 1)
  }

  /** A 16-bit pattern without its sign bit. */
  function Magnitude16(d: U16): (c: nat)
    ensures c < 0x8000
  {
    if d >= 0x8000 then d - 0x8000 else d
  }

  function Gap(a: int, b: int): nat { if a <= b then b - a else a - b }

  /** Whether rounding to a multiple of `unit` goes away from zero, when `rest` is
      the discarded remainder and `odd` the parity of the quotient. */
  predicate RoundsUp(mode: Mode, negative: bool, odd: bool, rest: nat, unit: nat) {
    match mode
    case ToNearest => 2 * rest > unit || (2 * rest == unit && odd)
    case Upward => !negative && rest > 0
    case Downward => negative && rest > 0
    case TowardZero => false
  }

  /** `x` / 2^k, rounded. */
  function RoundOff(mode: Mode, negative: bool, x: nat, k: nat): nat {
    var q := Rsh(x, k);
    q + if RoundsUp(mode, negative, q % 2 == 1, Low(x, k), Pow2(k)) then 1 else 0
  }

  // ------------------------------------------------ what rounding should mean

  /** roundTiesToEven (IEEE 754-2019 section 4.3.1): among the patterns 0..top, each
      worth Mag * 2^j, `r` is a closest one to `x`, and if another is equally close
      `r` is the even one. */
  ghost predicate IsNearestEven(p: nat, top: nat, j: nat, x: nat, r: nat) {
    r <= top && forall c: nat | c <= top && c != r ::
      var here, there := Gap(x, Lsh(Mag(p, r), j)), Gap(x, Lsh(Mag(p, c), j));
      here < there || (here == there && r % 2 == 0)
  }

  // -------------------------------------------------------- order of patterns

  lemma MagNext(p: nat, m: nat)
    ensures Mag(p, m + 1) == Mag(p, m) + Pow2(Steps(Rsh(m, p)))
  {
    hide Lsh, Rsh, Low;
    var e, f := Rsh(m, p), Low(m, p);
    LshIdentity(1);
    LshIdentity(Pow2(p));
    Split(m, p);
    if f + 1 < Pow2(p) {
      SplitUnique(m + 1, p, e, f + 1);
      if e > 0 { LshAdd(Pow2(p) + f, 1, e - 1); }
    } else {
      LshAdd(e, 1, p);
      SplitUnique(m + 1, p, e + 1, 0);
      if e > 0 {
        LshAdd(Pow2(p) + f, 1, e - 1);
        LshDouble(Pow2(p), e - 1);
        LshAdd(Pow2(p), 0, e);
      }
    }
  }

  lemma {:induction false} MagIncreases(p: nat, a: nat, b: nat)
    requires a < b
    ensures Mag(p, a) < Mag(p, b)
    decreases b
  {
    MagNext(p, b - 1);
    if a < b - 1 { MagIncreases(p, a, b - 1); }
  }

  lemma MagOrder(p: nat, a: nat, b: nat)
    ensures a < b <==> Mag(p, a) < Mag(p, b)
    ensures a == b <==> Mag(p, a) == Mag(p, b)
  {
    if a < b { MagIncreases(p, a, b); }
    if b < a { MagIncreases(p, b, a); }
  }

  /** Up to the first normal pattern, a pattern is its own value. */
  lemma MagSmall(p: nat, m: nat)
    requires m <= Pow2(p)
    ensures Mag(p, m) == m
  {
    LshZero(p);
    if m < Pow2(p) { SplitUnique(m, p, 0, m); } else { SplitUnique(m, p, 1, 0); }
  }

  /** Adding `d` to the exponent field of a normal pattern scales its value by 2^d. */
  lemma MagExponentShift(p: nat, m: nat, d: nat)
    requires m >= Pow2(p)
    ensures Mag(p, m + Lsh(d, p)) == Lsh(Mag(p, m), d)
  {
    hide Lsh, Rsh, Low;
    var e, f := Rsh(m, p), Low(m, p);
    Split(m, p);
    LshZero(p);
    LshAdd(e, d, p);
    SplitUnique(m + Lsh(d, p), p, e + d, f);
    LshLsh(Pow2(p) + f, e - 1, d);
  }

  /** Dropping the low `k` fraction bits: the kept pattern bounds the value from
      below, and what is lost is the dropped bits times the spacing. */
  lemma MagRefine(p: nat, k: nat, m: nat)
    ensures Rsh(m, p + k) == Rsh(Rsh(m, k), p)
    ensures Mag(p + k, m) == Lsh(Mag(p, Rsh(m, k)), k) + Lsh(Low(m, k), Steps(Rsh(m, p + k)))
  {
    hide Lsh, Rsh, Low;
    RshRsh(m, k, p);
    LshLsh(1, p, k);
    LshIdentity(Low(m, k));
    var e := Rsh(m, p + k);
    if e > 0 { RefineNormal(Pow2(p), Low(Rsh(m, k), p), Low(m, k), e - 1, k); }
  }

  lemma RefineNormal(one: nat, f: nat, rest: nat, d: nat, k: nat)
    ensures Lsh(Lsh(one, k) + Lsh(f, k) + rest, d) == Lsh(Lsh(one + f, d), k) + Lsh(rest, d)
  {
    LshAdd(one, f, k);
    LshAdd(Lsh(one + f, k), rest, d);
    LshLsh(one + f, k, d);
    LshLsh(one + f, d, k);
  }

  // --------------------------------------------------------- rounding lemmas

  lemma RoundOffMonotone(mode: Mode, negative: bool, x: nat, y: nat, k: nat)
    requires x <= y
    ensures RoundOff(mode, negative, x, k) <= RoundOff(mode, negative, y, k)
  {
    RshMonotone(x, y, k);
  }

  lemma RoundOffExact(mode: Mode, negative: bool, q: nat, k: nat)
    ensures RoundOff(mode, negative, Lsh(q, k), k) == q
  {
    SplitUnique(Lsh(q, k), k, q, 0);
  }

  lemma RoundOffScaled(mode: Mode, negative: bool, x: nat, k: nat, s: nat)
    ensures RoundOff(mode, negative, Lsh(x, s), k + s) == RoundOff(mode, negative, x, k)
  {
    hide Lsh, Rsh, Low;
    Split(x, k);
    SplitScaled(Rsh(x, k), Low(x, k), k, s);
    CompareScaled(Low(x, k), Pow2(k), s);
    LshLsh(1, k, s);
  }

  lemma SplitScaled(q: nat, rest: nat, k: nat, s: nat)
    requires rest < Pow2(k)
    ensures Rsh(Lsh(Lsh(q, k) + rest, s), k + s) == q
    ensures Low(Lsh(Lsh(q, k) + rest, s), k + s) == Lsh(rest, s)
  {
    SumScaled(q, rest, k, s);
    RestScaled(rest, k, s);
    SplitUnique(Lsh(Lsh(q, k) + rest, s), k + s, q, Lsh(rest, s));
  }

  lemma SumScaled(q: nat, rest: nat, k: nat, s: nat)
    ensures Lsh(Lsh(q, k) + rest, s) == Lsh(q, k + s) + Lsh(rest, s)
  {
    LshAdd(Lsh(q, k), rest, s);
    LshLsh(q, k, s);
  }

  lemma RestScaled(rest: nat, k: nat, s: nat)
    requires rest < Pow2(k)
    ensures Lsh(rest, s) < Pow2(k + s)
  {
    LshOrder(rest, Pow2(k), s);
    LshLsh(1, k, s);
  }

  /** A remainder compares with half the unit as its scaled copies do. */
  lemma CompareScaled(rest: nat, unit: nat, s: nat)
    ensures 0 < rest <==> 0 < Lsh(rest, s)
    ensures 2 * rest > unit <==> 2 * Lsh(rest, s) > Lsh(unit, s)
    ensures 2 * rest == unit <==> 2 * Lsh(rest, s) == Lsh(unit, s)
  {
    LshZero(s);
    LshOrder(0, rest, s);
    LshDouble(rest, s);
    LshOrder(unit, 2 * rest, s);
  }

  /** The guard bit (the highest one dropped) and the sticky bit (whether any other
      dropped bit is set) decide every rounding. */
  lemma GuardAndSticky(mode: Mode, negative: bool, x: nat, k: nat)
    requires k > 0
    ensures var guard, sticky, odd := Rsh(x, k - 1) % 2 == 1, Low(x, k - 1) != 0, Rsh(x, k) % 2 == 1;
      RoundOff(mode, negative, x, k) == Rsh(x, k) +
        if match mode
           case ToNearest => guard && (odd || sticky)
           case Upward => !negative && (guard || sticky)
           case Downward => negative && (guard || sticky)
           case TowardZero => false
        then 1 else 0
  {
    hide Lsh;
    var y := Rsh(x, k - 1);
    RshRsh(x, k - 1, 1);
    Split(x, k - 1);
    assert Low(y, 1) == y % 2;
    LshZero(k - 1);
    LshDouble(1, k - 1);
  }

  /** Rounding between two neighbouring patterns is rounding among all of them. */
  lemma NearestOfBracket(p: nat, top: nat, j: nat, x: nat, q: nat, r: nat)
    requires q < top
    requires Lsh(Mag(p, q), j) <= x < Lsh(Mag(p, q + 1), j)
    requires var below, above := x - Lsh(Mag(p, q), j), Lsh(Mag(p, q + 1), j) - x;
             r == q + if below > above || (below == above && q % 2 == 1) then 1 else 0
    ensures IsNearestEven(p, top, j, x, r)
  {
    hide Lsh, Mag;
    forall c: nat | c <= top && c != r
      ensures Gap(x, Lsh(Mag(p, r), j)) <= Gap(x, Lsh(Mag(p, c), j))
      ensures Gap(x, Lsh(Mag(p, r), j)) == Gap(x, Lsh(Mag(p, c), j)) ==> r % 2 == 0
    {
      MagOrder(p, c, q);
      MagOrder(p, q + 1, c);
      LshOrder(Mag(p, c), Mag(p, q), j);
      LshOrder(Mag(p, q + 1), Mag(p, c), j);
    }
  }

  /** From the overflow value upward the nearest pattern is the top one. */
  lemma NearestAtTop(p: nat, top: nat, j: nat, x: nat)
    requires Lsh(Mag(p, top), j) <= x
    ensures IsNearestEven(p, top, j, x, top)
  {
    hide Lsh, Mag;
    forall c: nat | c <= top && c != top
      ensures Gap(x, Lsh(Mag(p, top), j)) < Gap(x, Lsh(Mag(p, c), j))
    {
      MagOrder(p, c, top);
      LshOrder(Mag(p, c), Mag(p, top), j);
    }
  }

  /** A value that is exactly representable rounds to itself. */
  lemma NearestOfExact(p: nat, top: nat, j: nat, r: nat)
    requires r <= top
    ensures IsNearestEven(p, top, j, Lsh(Mag(p, r), j), r)
  {
    hide Lsh, Mag;
    forall c: nat | c <= top && c != r
      ensures 0 < Gap(Lsh(Mag(p, r), j), Lsh(Mag(p, c), j))
    {
      MagOrder(p, c, r);
      LshOrder(Mag(p, c), Mag(p, r), j);
    }
  }

  /** The definition of roundTiesToEven leaves no choice. */
  lemma NearestEvenUnique(p: nat, top: nat, j: nat, x: nat, r: nat, s: nat)
    requires IsNearestEven(p, top, j, x, r) && IsNearestEven(p, top, j, x, s)
    ensures r == s
  {
    hide Lsh, Mag;
    var lo, hi := if r < s then r else s, if r < s then s else r;
    if lo < hi {
      MagOrder(p, lo, lo + 1);
      MagOrder(p, lo + 1, hi);
      LshOrder(Mag(p, lo), Mag(p, lo + 1), j);
      LshOrder(Mag(p, lo + 1), Mag(p, hi), j);
    }
  }

  /** The bracket around a value with `k` fraction bits too many, scaled by 2^s. */
  lemma PatternBracket(p: nat, k: nat, m: nat, s: nat)
    ensures var q, t := Rsh(m, k), s + Steps(Rsh(m, p + k));
      && Lsh(Mag(p + k, m), s) == Lsh(Mag(p, q), k + s) + Lsh(Low(m, k), t)
      && Lsh(Mag(p, q + 1), k + s) == Lsh(Mag(p, q), k + s) + Lsh(Pow2(k), t)
  {
    hide Lsh, Rsh, Low, Mag;
    MagRefine(p, k, m);
    MagNext(p, Rsh(m, k));
    BracketScaled(Mag(p, Rsh(m, k)), Low(m, k), Steps(Rsh(m, p + k)), k, s);
  }

  lemma BracketScaled(low: nat, rest: nat, d: nat, k: nat, s: nat)
    ensures Lsh(Lsh(low, k) + Lsh(rest, d), s) == Lsh(low, k + s) + Lsh(rest, s + d)
    ensures Lsh(low + Pow2(d), k + s) == Lsh(low, k + s) + Lsh(Pow2(k), s + d)
  {
    LshAdd(Lsh(low, k), Lsh(rest, d), s);
    LshLsh(low, k, s);
    LshLsh(rest, d, s);
    LshAdd(low, Pow2(d), k + s);
    LshLsh(1, d, k + s);
    LshLsh(1, k, s + d);
    assert s + d == d + s && d + (k + s) == k + (s + d);
  }

  /** Rounding the low `k` bits off a pattern, carry and all, is rounding the number
      it stands for: a carry out of the fraction lands on the next binade. */
  lemma PatternRoundingIsNearest(p: nat, k: nat, m: nat, s: nat, negative: bool, top: nat)
    requires Rsh(m, k) < top
    ensures IsNearestEven(p, top, k + s, Lsh(Mag(p + k, m), s), RoundOff(ToNearest, negative, m, k))
  {
    hide Lsh, Rsh, Low, Mag;
    var q, rest := Rsh(m, k), Low(m, k);
    var t := s + Steps(Rsh(m, p + k));
    Split(m, k);
    PatternBracket(p, k, m, s);
    LshOrder(rest, Pow2(k), t);
    CompareScaled(rest, Pow2(k), t);
    NearestOfBracket(p, top, k + s, Lsh(Mag(p + k, m), s), q, RoundOff(ToNearest, negative, m, k));
  }

  /** Rounding a value below the normal range to a multiple of the format's unit. */
  lemma SubnormalRoundingIsNearest(p: nat, top: nat, j: nat, x: nat, negative: bool)
    requires Pow2(p) < top && x < Lsh(Pow2(p), j)
    ensures IsNearestEven(p, top, j, x, RoundOff(ToNearest, negative, x, j))
  {
    hide Lsh, Rsh, Low, Mag;
    var q := Rsh(x, j);
    Split(x, j);
    LshOrder(Pow2(p), q, j);
    LshOrder(q, Pow2(p), j);
    MagSmall(p, q);
    MagSmall(p, q + 1);
    LshAdd(q, 1, j);
    NearestOfBracket(p, top, j, x, q, RoundOff(ToNearest, negative, x, j));
  }
}
