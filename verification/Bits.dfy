/** Words, shifts and the bitwise operators of the source, on naturals.

    A machine word is a natural below its word size.  Shifts and the operators
    `&`, `|`, `^` are defined bit by bit.  The lemmas of this module say what a
    shift or a mask computes, so that the modules above can reason about fields of
    a word with linear arithmetic only. */
module Bits {

  type U16 = x: nat | x < 0x1_0000
  type U32 = x: nat | x < 0x1_0000_0000
  type U64 = x: nat | x < 0x1_0000_0000_0000_0000

  /** x * 2^k */
  function Lsh(x: nat, k: nat): (r: nat)
    ensures r >= x
  {
    if k == 0 then x else 2 * Lsh(x, k - 1)
  }

  /** x / 2^k, rounded down: `x >> k` */
  function Rsh(x: nat, k: nat): nat {
    if k == 0 then x else Rsh(x / 2, k - 1)
  }

  /** The low `k` bits of `x`: x % 2^k */
  function Low(x: nat, k: nat): nat {
    if k == 0 then 0 else 2 * Low(x / 2, k - 1) + x % 2
  }

  function Pow2(k: nat): nat { Lsh(1, k) }

  /** Bit `i` of `x`. */
  predicate Bit(x: nat, i: nat) {
    if i == 0 then x % 2 == 1 else Bit(x / 2, i - 1)
  }

  function And(x: nat, y: nat): nat {
    if x == 0 || y == 0 then 0
    else 2 * And(x / 2, y / 2) + if x % 2 == 1 && y % 2 == 1 then 1 else 0
  }

  function Or(x: nat, y: nat): nat {
    if x == 0 then y else if y == 0 then x
    else 2 * Or(x / 2, y / 2) + if x % 2 == 1 || y % 2 == 1 then 1 else 0
  }

  function Xor(x: nat, y: nat): nat {
    if x == 0 then y else if y == 0 then x
    else 2 * Xor(x / 2, y / 2) + if x % 2 != y % 2 then 1 else 0
  }

  /** Position of the most significant bit. */
  function FloorLog2(x: nat): nat
    requires x > 0
  {
    if x == 1 then 0 else 1 + FloorLog2(x / 2)
  }

  // ---------------------------------------------------------------- shifting

  lemma Pow2Table()
    ensures Pow2(0) == 1 && Pow2(1) == 2
    ensures Pow2(5) == 0x20 && Pow2(7) == 0x80 && Pow2(8) == 0x100 && Pow2(9) == 0x200
    ensures Pow2(10) == 0x400 && Pow2(11) == 0x800 && Pow2(12) == 0x1000
    ensures Pow2(13) == 0x2000 && Pow2(15) == 0x8000 && Pow2(16) == 0x1_0000
    ensures Pow2(18) == 0x4_0000 && Pow2(19) == 0x8_0000
    ensures Pow2(23) == 0x80_0000 && Pow2(24) == 0x100_0000
    ensures Pow2(31) == 0x8000_0000 && Pow2(32) == 0x1_0000_0000
  {
  }

  lemma {:induction false} LshAdd(a: nat, b: nat, k: nat)
    ensures Lsh(a + b, k) == Lsh(a, k) + Lsh(b, k)
  {
    if k > 0 { LshAdd(a, b, k - 1); }
  }

  lemma LshIdentity(x: nat)
    ensures Lsh(x, 0) == x
  {
  }

  lemma {:induction false} LshLsh(x: nat, a: nat, b: nat)
    ensures Lsh(Lsh(x, a), b) == Lsh(x, a + b)
  {
    if b > 0 { LshLsh(x, a, b - 1); }
  }

  lemma {:induction false} LshOrder(a: nat, b: nat, k: nat)
    ensures a < b <==> Lsh(a, k) < Lsh(b, k)
    ensures a == b <==> Lsh(a, k) == Lsh(b, k)
  {
    if k > 0 { LshOrder(a, b, k - 1); }
  }

  lemma LshStep(a: nat, b: nat, k: nat)
    requires a < b
    ensures Lsh(a, k) + Pow2(k) <= Lsh(b, k)
  {
    LshAdd(a, 1, k);
    LshOrder(a + 1, b, k);
    LshOrder(b, a + 1, k);
  }

  lemma {:induction false} LshZero(k: nat)
    ensures Lsh(0, k) == 0 && Rsh(0, k) == 0 && Low(0, k) == 0
  {
    if k > 0 { LshZero(k - 1); }
  }

  lemma Positive(k: nat)
    ensures Pow2(k) > 0
  {
  }

  lemma {:induction false} LshDouble(x: nat, k: nat)
    ensures Lsh(2 * x, k) == 2 * Lsh(x, k) == Lsh(x, k + 1)
  {
    if k > 0 { LshDouble(x, k - 1); }
  }

  lemma {:induction false} Pow2Grows(a: nat, b: nat)
    requires a < b
    ensures 2 * Pow2(a) <= Pow2(b)
    decreases b
  {
    if a < b - 1 { Pow2Grows(a, b - 1); }
  }

  /** A word is its high part followed by its low part. */
  lemma {:induction false} Split(x: nat, k: nat)
    ensures x == Lsh(Rsh(x, k), k) + Low(x, k)
    ensures Low(x, k) < Pow2(k)
  {
    if k > 0 { Split(x / 2, k - 1); }
  }

  lemma {:induction false} SplitUnique(x: nat, k: nat, q: nat, r: nat)
    requires r < Pow2(k) && x == Lsh(q, k) + r
    ensures Rsh(x, k) == q && Low(x, k) == r
  {
    if k > 0 { SplitUnique(x / 2, k - 1, q, r / 2); }
  }

  lemma {:induction false} RshRsh(x: nat, a: nat, b: nat)
    ensures Rsh(x, a + b) == Rsh(Rsh(x, a), b)
    ensures Low(x, a + b) == Lsh(Low(Rsh(x, a), b), a) + Low(x, a)
  {
    if a > 0 { RshRsh(x / 2, a - 1, b); }
  }

  /** Shifting a word right keeps the parts above and below a boundary apart. */
  lemma RshHigh(a: nat, x: nat, j: nat, k: nat)
    ensures Rsh(Lsh(a, j + k) + x, k) == Lsh(a, j) + Rsh(x, k)
    ensures Low(Lsh(a, j + k) + x, k) == Low(x, k)
  {
    hide Lsh;
    Split(x, k);
    LshLsh(a, j, k);
    LshAdd(Lsh(a, j), Rsh(x, k), k);
    SplitUnique(Lsh(a, j + k) + x, k, Lsh(a, j) + Rsh(x, k), Low(x, k));
  }

  lemma RshBelow(x: nat, a: nat, k: nat)
    ensures x < Pow2(a + k) <==> Rsh(x, k) < Pow2(a)
  {
    hide Lsh;
    Split(x, k);
    LshLsh(1, a, k);
    if Rsh(x, k) < Pow2(a) {
      LshStep(Rsh(x, k), Pow2(a), k);
    } else {
      LshOrder(Rsh(x, k), Pow2(a), k);
    }
  }

  lemma LowSmall(x: nat, k: nat)
    requires x < Pow2(k)
    ensures Rsh(x, k) == 0 && Low(x, k) == x
  {
    LshZero(k);
    SplitUnique(x, k, 0, x);
  }

  lemma RshMonotone(x: nat, y: nat, k: nat)
    requires x <= y
    ensures Rsh(x, k) <= Rsh(y, k)
    ensures Rsh(x, k) == Rsh(y, k) ==> Low(x, k) <= Low(y, k)
  {
    Split(x, k);
    Split(y, k);
    if Rsh(y, k) < Rsh(x, k) { LshStep(Rsh(y, k), Rsh(x, k), k); }
  }

  lemma {:induction false} FloorLog2Bounds(x: nat)
    requires x > 0
    ensures Pow2(FloorLog2(x)) <= x < Pow2(FloorLog2(x) + 1)
  {
    if x > 1 { FloorLog2Bounds(x / 2); }
  }

  lemma {:induction false} FloorLog2Less(x: nat, k: nat)
    requires 0 < x < Pow2(k)
    ensures FloorLog2(x) < k
  {
    if x > 1 { FloorLog2Less(x / 2, k - 1); }
  }

  lemma FloorLog2Unique(x: nat, l: nat)
    requires Pow2(l) <= x < Pow2(l + 1)
    ensures FloorLog2(x) == l
  {
    FloorLog2Bounds(x);
    var k := FloorLog2(x);
    if k < l { Pow2Grows(k, l); }
    if l < k { Pow2Grows(l, k); }
  }

  // ------------------------------------- shifts are multiplication and division

  lemma {:induction false} LshIsProduct(x: nat, k: nat)
    ensures Lsh(x, k) == x * Pow2(k)
  {
    if k > 0 {
      LshIsProduct(x, k - 1);
      assert x * (2 * Pow2(k - 1)) == 2 * (x * Pow2(k - 1));
    }
  }

  /** The shifts by a literal amount, as linear terms. */
  lemma LshTable(x: nat)
    ensures Lsh(x, 1) == 2 * x && Lsh(x, 7) == 0x80 * x && Lsh(x, 8) == 0x100 * x && Lsh(x, 9) == 0x200 * x
    ensures Lsh(x, 10) == 0x400 * x && Lsh(x, 12) == 0x1000 * x && Lsh(x, 13) == 0x2000 * x
    ensures Lsh(x, 15) == 0x8000 * x && Lsh(x, 16) == 0x1_0000 * x
    ensures Lsh(x, 18) == 0x4_0000 * x && Lsh(x, 23) == 0x80_0000 * x
    ensures Lsh(x, 31) == 0x8000_0000 * x && Lsh(x, 32) == 0x1_0000_0000 * x
  {
    Pow2Table();
    LshIsProduct(x, 7);
    LshIsProduct(x, 8);
    LshIsProduct(x, 9);
    LshIsProduct(x, 10);
    LshIsProduct(x, 12);
    LshIsProduct(x, 13);
    LshIsProduct(x, 15);
    LshIsProduct(x, 16);
    LshIsProduct(x, 18);
    LshIsProduct(x, 23);
    LshIsProduct(x, 31);
    LshIsProduct(x, 32);
  }

  lemma RshIsQuotient(x: nat, k: nat)
    ensures Rsh(x, k) == x / Pow2(k)
    ensures Low(x, k) == x % Pow2(k)
  {
    Split(x, k);
    LshIsProduct(Rsh(x, k), k);
    DivModUnique(x, Pow2(k), Rsh(x, k), Low(x, k));
  }

  lemma DivModUnique(x: nat, d: nat, q: nat, r: nat)
    requires r < d && x == q * d + r
    ensures x / d == q && x % d == r
  {
    var q', r' := x / d, x % d;
    assert x == q' * d + r';
    if q' < q { MulStep(q', q, d); }
    if q < q' { MulStep(q, q', d); }
  }

  lemma {:induction false} MulStep(a: int, b: int, c: nat)
    requires a < b
    ensures a * c + c <= b * c
  {
    if c > 0 {
      MulStep(a, b, c - 1);
      assert a * c == a * (c - 1) + a && b * c == b * (c - 1) + b;
    }
  }

  // ------------------------------------------------------- masks and disjunction

  lemma {:induction false} AndLowMask(x: nat, k: nat)
    ensures And(x, Pow2(k) - 1) == Low(x, k)
  {
    if x == 0 {
      LshZero(k);
    } else if k > 0 {
      AndLowMask(x / 2, k - 1);
    }
  }

  lemma LowOne(x: nat)
    ensures Low(x, 1) == x % 2
  {
  }

  lemma AndOne(x: nat)
    ensures And(x, 1) == x % 2
  {
    AndLowMask(x, 1);
  }

  lemma {:induction false} AndShifted(x: nat, y: nat, k: nat)
    ensures And(x, Lsh(y, k)) == Lsh(And(Rsh(x, k), y), k)
  {
    if k > 0 {
      AndShifted(x / 2, y, k - 1);
      AndDouble(x, Lsh(y, k - 1));
    }
  }

  lemma AndDouble(x: nat, y: nat)
    ensures And(x, 2 * y) == 2 * And(x / 2, y)
  {
    assert (2 * y) / 2 == y && (2 * y) % 2 == 0;
  }

  /** A mask of `n` ones starting at bit `k` selects that field in place. */
  lemma AndFieldMask(x: nat, n: nat, k: nat)
    ensures And(x, Lsh(Pow2(n) - 1, k)) == Lsh(Low(Rsh(x, k), n), k)
  {
    AndShifted(x, Pow2(n) - 1, k);
    AndLowMask(Rsh(x, k), n);
  }

  lemma OrStep(x: nat, y: nat)
    ensures Or(x, y) == 2 * Or(x / 2, y / 2) + if x % 2 == 1 || y % 2 == 1 then 1 else 0
  {
  }

  /** `|` works separately on the part above bit `k` and the part below it. */
  lemma {:induction false} OrSplit(a: nat, b: nat, x: nat, y: nat, k: nat)
    requires x < Pow2(k) && y < Pow2(k)
    ensures Or(Lsh(a, k) + x, Lsh(b, k) + y) == Lsh(Or(a, b), k) + Or(x, y)
    decreases k
  {
    if k == 0 {
      assert x == 0 && y == 0;
    } else {
      OrSplit(a, b, x / 2, y / 2, k - 1);
      OrStep(Lsh(a, k) + x, Lsh(b, k) + y);
      OrStep(x, y);
    }
  }

  /** `|` of a high part and a low part that do not overlap is their sum. */
  lemma OrDisjoint(a: nat, y: nat, k: nat)
    requires y < Pow2(k)
    ensures Or(Lsh(a, k), y) == Lsh(a, k) + y
  {
    OrSplit(a, 0, 0, y, k);
    LshZero(k);
  }

  lemma {:induction false} OrSymmetric(x: nat, y: nat)
    ensures Or(x, y) == Or(y, x)
  {
    if x != 0 && y != 0 { OrSymmetric(x / 2, y / 2); }
  }

  lemma {:induction false} RshOr(x: nat, y: nat, k: nat)
    ensures Rsh(Or(x, y), k) == Or(Rsh(x, k), Rsh(y, k))
  {
    if k > 0 {
      OrStep(x, y);
      RshOr(x / 2, y / 2, k - 1);
    }
  }

  /** `|` with a run of ones that covers the operand gives that run. */
  lemma {:induction false} OrWithOnes(x: nat, k: nat)
    requires x < Pow2(k)
    ensures Or(x, Pow2(k) - 1) == Pow2(k) - 1
  {
    if k > 0 {
      OrWithOnes(x / 2, k - 1);
      OrStep(x, Pow2(k) - 1);
    }
  }

  lemma OrZero(x: nat)
    ensures Or(0, x) == Or(x, 0) == x
  {
  }
}
