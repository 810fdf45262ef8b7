/** The local work size suggested for a global work size.

    Sizes are size_t: the product in the shortcut wraps at 2^64. */
module WorkSize {
  import Bits

  const SIZE_RANGE: nat := 0x1_0000_0000_0000_0000

  predicate Positive(s: seq<nat>) { forall i | 0 <= i < |s| :: s[i] > 0 }

  function Product(s: seq<nat>): nat {
    if s == [] then 1 else Times(s[0], Product(s[1..]))
  }

  function Times(x: nat, y: nat): nat { x * y }

  predicate Divides(d: nat, n: nat)
    requires d > 0
  {
    n % d == 0
  }

  /** operator< of std::array: the first difference decides. */
  predicate LexLess(a: seq<nat>, b: seq<nat>)
    requires |a| == |b|
  {
    a != [] && (a[0] < b[0] || (a[0] == b[0] && LexLess(a[1..], b[1..])))
  }

  /** Largest divisor of `size` within both bounds, searched from `d` down. */
  function DivisorFrom(size: nat, limit: nat, d: nat): (r: nat)
    requires d > 0 && limit > 0
    ensures 0 < r <= d && r <= limit && Divides(r, size)
    ensures forall e | r < e <= d && e <= limit :: !Divides(e, size)
    decreases d
  {
    if Divides(d, size) && d <= limit then d
    else DivisorFrom(size, limit, d - 1)
  }

  function BestDivisor(size: nat, limit: nat, budget: nat): nat
    requires size > 0 && limit > 0 && budget > 0
  {
    DivisorFrom(size, limit, if size > budget then budget else size)
  }

  /** The greedy choice, dimension by dimension, of what the loop leaves. */
  function Greedy(sizes: seq<nat>, limits: seq<nat>, budget: nat): seq<nat>
    requires |sizes| == |limits| && Positive(sizes) && Positive(limits) && budget > 0
    decreases |sizes|
  {
    if sizes == [] then []
    else
      var d := BestDivisor(sizes[0], limits[0], budget);
      QuotientPositive(budget, d);
      [d] + Greedy(sizes[1..], limits[1..], budget / d)
  }

  lemma QuotientPositive(b: nat, d: nat)
    requires 0 < d <= b
    ensures b / d > 0 && Times(d, b / d) <= b
  {
  }

  /** The product as size_t computes it. */
  function WrappedProduct(s: seq<nat>): nat {
    if s == [] then 1 else Times(WrappedProduct(s[..|s| - 1]), s[|s| - 1]) % SIZE_RANGE
  }

  /** Whether the whole global size is returned without a search. */
  predicate Shortcut(sizes: seq<nat>, limits: seq<nat>, budget: nat)
    requires |sizes| == |limits|
  {
    LexLess(sizes, limits) && WrappedProduct(sizes) <= budget
  }

  /** Where the source divides by zero nowhere: the shortcut divides not at all, the
      search needs positive arguments. */
  predicate Defined(sizes: seq<nat>, limits: seq<nat>, budget: nat)
    requires |sizes| == |limits|
  {
    Shortcut(sizes, limits, budget) || (Positive(sizes) && Positive(limits) && budget > 0)
  }

  function LocalWorkSize(sizes: seq<nat>, limits: seq<nat>, budget: nat): seq<nat>
    requires |sizes| == |limits| && Defined(sizes, limits, budget)
  {
    if Shortcut(sizes, limits, budget) then sizes else Greedy(sizes, limits, budget)
  }

  method GetMaxLocalWorkSize(globalWorkSize: seq<nat>, maxSizes: seq<nat>, maxWorkSize: nat)
    returns (localWorkSize: seq<nat>)
    requires |globalWorkSize| == |maxSizes| && Defined(globalWorkSize, maxSizes, maxWorkSize)
    ensures localWorkSize == LocalWorkSize(globalWorkSize, maxSizes, maxWorkSize)
  {
    hide Times, Greedy, WrappedProduct, LexLess;
    var n := |globalWorkSize|;
    var globalWs := new nat[n](i requires 0 <= i < n => globalWorkSize[i]);
    assert globalWs[..] == globalWorkSize;
    if LexLess(globalWs[..], maxSizes) {
      var multiplier := 1;
      WrappedStep(globalWorkSize, 0);
      for i := 0 to n
        invariant globalWs[..] == globalWorkSize
        invariant multiplier == WrappedProduct(globalWorkSize[..i])
      {
        WrappedStep(globalWorkSize, i);
        assert globalWs[i] == globalWs[..][i];
        multiplier := Times(multiplier, globalWs[i]) % SIZE_RANGE;
      }
      assert globalWorkSize[..n] == globalWorkSize;
      if multiplier <= maxWorkSize {
        return globalWs[..];
      }
    }
    var remainingSize := maxWorkSize;
    var sizeForThisOne := 0;
    ghost var result := Greedy(globalWorkSize, maxSizes, maxWorkSize);
    assert globalWorkSize[0..] == globalWorkSize && maxSizes[0..] == maxSizes;
    for i := 0 to n
      invariant Searching(globalWs[..], globalWorkSize, maxSizes, i, remainingSize, result)
    {
      var size := globalWs[i];
      assert size == globalWs[..][i] == globalWorkSize[i..][0];
      sizeForThisOne := if size > remainingSize then remainingSize else size;
      while size % sizeForThisOne != 0 || sizeForThisOne > maxSizes[i]
        invariant 0 < sizeForThisOne
        invariant DivisorFrom(size, maxSizes[i], sizeForThisOne) == BestDivisor(size, maxSizes[i], remainingSize)
        decreases sizeForThisOne
      {
        sizeForThisOne := sizeForThisOne - 1;
      }
      SearchStep(globalWs[..], globalWorkSize, maxSizes, i, remainingSize, result);
      globalWs[i] := sizeForThisOne;
      remainingSize := remainingSize / sizeForThisOne;
    }
    GreedyStep(globalWorkSize, maxSizes, n, remainingSize);
    return globalWs[..];
  }

  /** The first `i` sizes are chosen, and the greedy choice for the rest completes the
      result. */
  predicate Searching(now: seq<nat>, sizes: seq<nat>, limits: seq<nat>, i: nat, budget: nat, result: seq<nat>) {
    && |now| == |sizes| == |limits| && i <= |now| && Positive(sizes) && Positive(limits) && budget > 0
    && now[i..] == sizes[i..]
    && now[..i] + Greedy(sizes[i..], limits[i..], budget) == result
  }

  lemma SearchStep(now: seq<nat>, sizes: seq<nat>, limits: seq<nat>, i: nat, budget: nat, result: seq<nat>)
    requires i < |now| && Searching(now, sizes, limits, i, budget, result)
    ensures now[i] == sizes[i]
    ensures var d := BestDivisor(sizes[i], limits[i], budget);
      Searching(now[i := d], sizes, limits, i + 1, budget / d, result)
  {
    hide Greedy;
    GreedyStep(sizes, limits, i, budget);
    assert now[i..][0] == sizes[i..][0] && now[i..][1..] == sizes[i..][1..];
  }

  lemma WrappedStep(s: seq<nat>, i: nat)
    requires i <= |s|
    ensures WrappedProduct([]) == 1
    ensures i < |s| ==> WrappedProduct(s[..i + 1]) == Times(WrappedProduct(s[..i]), s[i]) % SIZE_RANGE
  {
    if i < |s| { assert s[..i + 1][..i] == s[..i]; }
  }

  lemma GreedyStep(sizes: seq<nat>, limits: seq<nat>, i: nat, budget: nat)
    requires |sizes| == |limits| && Positive(sizes) && Positive(limits) && budget > 0 && i <= |sizes|
    ensures i == |sizes| ==> Greedy(sizes[i..], limits[i..], budget) == []
    ensures i < |sizes| ==>
      var d := BestDivisor(sizes[i], limits[i], budget);
      && budget / d > 0
      && Greedy(sizes[i..], limits[i..], budget) == [d] + Greedy(sizes[i + 1..], limits[i + 1..], budget / d)
  {
    if i < |sizes| {
      QuotientPositive(budget, BestDivisor(sizes[i], limits[i], budget));
      assert sizes[i..][1..] == sizes[i + 1..] && limits[i..][1..] == limits[i + 1..];
    }
  }

  // ----------------------------------------------------------------- guarantees

  predicate AllDivide(t: seq<nat>, sizes: seq<nat>) {
    |t| == |sizes| && Positive(t) && forall i | 0 <= i < |t| :: Divides(t[i], sizes[i])
  }

  predicate Within(t: seq<nat>, limits: seq<nat>) {
    |t| == |limits| && forall i | 0 <= i < |t| :: t[i] <= limits[i]
  }

  /** A legal choice of local sizes. */
  predicate Fits(t: seq<nat>, sizes: seq<nat>, limits: seq<nat>, budget: nat) {
    AllDivide(t, sizes) && Within(t, limits) && Product(t) <= budget
  }

  /** No legal choice is lexicographically greater. */
  ghost predicate IsGreatestFit(r: seq<nat>, sizes: seq<nat>, limits: seq<nat>, budget: nat) {
    Fits(r, sizes, limits, budget) &&
    forall t | Fits(t, sizes, limits, budget) :: |t| == |r| && !LexLess(r, t)
  }

  lemma {:induction false} GreedyFits(sizes: seq<nat>, limits: seq<nat>, budget: nat)
    requires |sizes| == |limits| && Positive(sizes) && Positive(limits) && budget > 0
    ensures Fits(Greedy(sizes, limits, budget), sizes, limits, budget)
    decreases |sizes|
  {
    if sizes != [] {
      var d := BestDivisor(sizes[0], limits[0], budget);
      QuotientPositive(budget, d);
      GreedyFits(sizes[1..], limits[1..], budget / d);
      var rest := Greedy(sizes[1..], limits[1..], budget / d);
      ProductBound(d, Product(rest), budget / d);
      assert ([d] + rest)[1..] == rest;
    }
  }

  lemma ProductBound(d: nat, x: nat, y: nat)
    requires x <= y
    ensures Times(d, x) <= Times(d, y)
  {
  }

  lemma {:induction false} ProductPositive(s: seq<nat>)
    requires Positive(s)
    ensures Product(s) > 0
  {
    if s != [] { ProductPositive(s[1..]); }
  }

  /** The greedy choice is lexicographically greatest: taking the largest divisor that
      the remaining budget admits never has to be undone. */
  lemma {:induction false} GreedyIsGreatest(sizes: seq<nat>, limits: seq<nat>, budget: nat, t: seq<nat>)
    requires |sizes| == |limits| && Positive(sizes) && Positive(limits) && budget > 0
    requires Fits(t, sizes, limits, budget)
    ensures |t| == |Greedy(sizes, limits, budget)| && !LexLess(Greedy(sizes, limits, budget), t)
    decreases |sizes|
  {
    GreedyFits(sizes, limits, budget);
    if sizes != [] {
      var d := BestDivisor(sizes[0], limits[0], budget);
      ProductPositive(t[1..]);
      FactorBound(t[0], Product(t[1..]), budget);
      DivisorBound(t[0], sizes[0]);
      assert t[0] <= d;
      if t[0] == d {
        QuotientPositive(budget, d);
        GreedyIsGreatest(sizes[1..], limits[1..], budget / d, t[1..]);
      }
    }
  }

  /** A factor of a product within the budget, and the budget left for the rest. */
  lemma FactorBound(x: nat, y: nat, budget: nat)
    requires x > 0 && y > 0 && Times(x, y) <= budget
    ensures x <= budget && y <= budget / x
  {
    var q, r := budget / x, budget % x;
    assert budget == Times(x, q) + r;
    if y > q { MoreSteps(x, y, q); }
    assert x * y >= x;
  }

  lemma MoreSteps(x: nat, y: nat, q: nat)
    requires y > q
    ensures Times(x, y) >= Times(x, q) + x
  {
    Bits.MulStep(q, y, x);
  }

  lemma DivisorBound(d: nat, n: nat)
    requires d > 0 && n > 0 && Divides(d, n)
    ensures d <= n
  {
  }

  /** operator< of std::array by its first difference. */
  lemma {:induction false} LexLessIff(a: seq<nat>, b: seq<nat>)
    requires |a| == |b|
    ensures LexLess(a, b) <==> exists k :: 0 <= k < |a| && a[..k] == b[..k] && a[k] < b[k]
  {
    if a != [] {
      LexLessIff(a[1..], b[1..]);
      if a[0] < b[0] {
        assert a[..0] == b[..0] && a[0] < b[0];
      } else if k :| 0 <= k < |a| - 1 && a[1..][..k] == b[1..][..k] && a[1..][k] < b[1..][k] {
        if a[0] == b[0] {
          assert a[..k + 1] == [a[0]] + a[1..][..k] && b[..k + 1] == [b[0]] + b[1..][..k];
          assert a[..k + 1] == b[..k + 1] && a[k + 1] < b[k + 1];
        }
      }
      if k :| 0 <= k < |a| && a[..k] == b[..k] && a[k] < b[k] {
        if k > 0 {
          assert a[..k][0] == b[..k][0];
          assert a[1..][..k - 1] == a[..k][1..] && b[1..][..k - 1] == b[..k][1..];
          assert a[1..][k - 1] < b[1..][k - 1];
        }
      }
    }
  }

  /** When the global size is returned without a search: it must be smaller than the limits
      at the first difference, and its product, cut to a size_t, within the budget. */
  lemma ShortcutIff(sizes: seq<nat>, limits: seq<nat>, budget: nat)
    requires |sizes| == |limits|
    ensures Shortcut(sizes, limits, budget) <==>
      (exists k :: 0 <= k < |sizes| && sizes[..k] == limits[..k] && sizes[k] < limits[k])
      && Product(sizes) % SIZE_RANGE <= budget
  {
    LexLessIff(sizes, limits);
    WrappedIsProduct(sizes);
    if sizes == [] { assert Product(sizes) == 1; }
  }

  /** What the returned size is worth on every path.  It always divides the global
      size.  It is the greatest legal choice exactly when the global size was legal to
      begin with, or the first difference from the limits is upward or missing, or the
      product, cut to a size_t, is beyond the budget. */
  lemma LocalWorkSizeGuarantee(sizes: seq<nat>, limits: seq<nat>, budget: nat)
    requires |sizes| == |limits| && Defined(sizes, limits, budget) && Positive(sizes)
    ensures AllDivide(LocalWorkSize(sizes, limits, budget), sizes)
    ensures IsGreatestFit(LocalWorkSize(sizes, limits, budget), sizes, limits, budget) <==>
      || (Within(sizes, limits) && Product(sizes) <= budget)
      || !(exists k :: 0 <= k < |sizes| && sizes[..k] == limits[..k] && sizes[k] < limits[k])
      || Product(sizes) % SIZE_RANGE > budget
  {
    ShortcutIff(sizes, limits, budget);
    if Shortcut(sizes, limits, budget) {
      forall t | Fits(t, sizes, limits, budget)
        ensures !LexLess(sizes, t)
      {
        forall i | 0 <= i < |t| ensures t[i] <= sizes[i] { DivisorBound(t[i], sizes[i]); }
        NotLexLess(sizes, t);
      }
    } else {
      GreedyFits(sizes, limits, budget);
      forall t | Fits(t, sizes, limits, budget)
        ensures |t| == |Greedy(sizes, limits, budget)| && !LexLess(Greedy(sizes, limits, budget), t)
      {
        GreedyIsGreatest(sizes, limits, budget, t);
      }
    }
  }

  /** Which of the promises the result keeps, one by one: the limits and the budget hold
      always after a search, and otherwise exactly if the global size, which is then the
      result, meets them; a product that does not wrap is within the budget on both paths. */
  lemma LimitsAndBudget(sizes: seq<nat>, limits: seq<nat>, budget: nat)
    requires |sizes| == |limits| && Defined(sizes, limits, budget)
    ensures var r := LocalWorkSize(sizes, limits, budget);
            var unsearched := (exists k :: 0 <= k < |sizes| && sizes[..k] == limits[..k] && sizes[k] < limits[k])
              && Product(sizes) % SIZE_RANGE <= budget;
      && (unsearched ==> r == sizes)
      && (!unsearched ==> IsGreatestFit(r, sizes, limits, budget))
      && (Within(r, limits) <==> (unsearched ==> Within(sizes, limits)))
      && (Product(r) <= budget <==> (unsearched ==> Product(sizes) <= budget))
      && (Product(sizes) < SIZE_RANGE ==> Product(r) <= budget)
  {
    ShortcutIff(sizes, limits, budget);
    if !Shortcut(sizes, limits, budget) {
      GreedyFits(sizes, limits, budget);
      forall t | Fits(t, sizes, limits, budget)
        ensures |t| == |Greedy(sizes, limits, budget)| && !LexLess(Greedy(sizes, limits, budget), t)
      {
        GreedyIsGreatest(sizes, limits, budget, t);
      }
    }
  }

  /** A first dimension beyond its limit is always searched, so all limits hold. */
  lemma FirstBeyondLimit(sizes: seq<nat>, limits: seq<nat>, budget: nat)
    requires |sizes| == |limits| > 0 && Defined(sizes, limits, budget) && sizes[0] > limits[0]
    ensures Within(LocalWorkSize(sizes, limits, budget), limits)
  {
    GreedyFits(sizes, limits, budget);
  }

  lemma {:induction false} NotLexLess(a: seq<nat>, t: seq<nat>)
    requires |a| == |t| && forall i | 0 <= i < |a| :: t[i] <= a[i]
    ensures !LexLess(a, t)
  {
    if a != [] { NotLexLess(a[1..], t[1..]); }
  }

  /** A product that does not wrap is computed exactly. */
  lemma {:induction false} WrappedIsProduct(s: seq<nat>)
    ensures WrappedProduct(s) == if s == [] then 1 else Product(s) % SIZE_RANGE
  {
    if s != [] {
      var front, x := s[..|s| - 1], s[|s| - 1];
      WrappedIsProduct(front);
      ProductOfLast(s);
      if front != [] { ModTimes(Product(front), x); }
    }
  }

  lemma {:induction false} ProductOfLast(s: seq<nat>)
    requires s != []
    ensures Product(s) == Times(Product(s[..|s| - 1]), s[|s| - 1])
  {
    if |s| > 1 {
      ProductOfLast(s[1..]);
      assert s[1..][..|s| - 2] == s[..|s| - 1][1..];
      TimesAssociates(s[0], Product(s[..|s| - 1][1..]), s[|s| - 1]);
    }
  }

  lemma TimesAssociates(x: nat, y: nat, z: nat)
    ensures Times(x, Times(y, z)) == Times(Times(x, y), z)
  {
  }

  lemma ModTimes(a: nat, x: nat)
    ensures a % SIZE_RANGE * x % SIZE_RANGE == Times(a, x) % SIZE_RANGE
  {
    var q := a / SIZE_RANGE;
    assert a == q * SIZE_RANGE + a % SIZE_RANGE;
    assert Times(a, x) == (q * x) * SIZE_RANGE + a % SIZE_RANGE * x;
  }

  /** Asking again with the answer as the global size returns the answer. */
  lemma Idempotent(sizes: seq<nat>, limits: seq<nat>, budget: nat)
    requires |sizes| == |limits| && Defined(sizes, limits, budget)
    ensures var r := LocalWorkSize(sizes, limits, budget);
      |r| == |limits| && Defined(r, limits, budget) && LocalWorkSize(r, limits, budget) == r
  {
    if !Shortcut(sizes, limits, budget) {
      GreedyFits(sizes, limits, budget);
      GreedyFixed(Greedy(sizes, limits, budget), limits, budget);
    }
  }

  lemma {:induction false} GreedyFixed(r: seq<nat>, limits: seq<nat>, budget: nat)
    requires |r| == |limits| && Positive(r) && Positive(limits) && budget > 0
    requires Within(r, limits) && Product(r) <= budget
    ensures Greedy(r, limits, budget) == r
    decreases |r|
  {
    if r != [] {
      ProductPositive(r[1..]);
      FactorBound(r[0], Product(r[1..]), budget);
      assert Divides(r[0], r[0]) && BestDivisor(r[0], limits[0], budget) == r[0];
      QuotientPositive(budget, r[0]);
      GreedyFixed(r[1..], limits[1..], budget / r[0]);
    }
  }

  /** In one dimension the shortcut is sound: the answer is the largest divisor of the
      global size within both bounds. */
  lemma OneDimension(size: nat, limit: nat, budget: nat)
    requires 0 < size < SIZE_RANGE && limit > 0 && budget > 0
    ensures IsGreatestFit(LocalWorkSize([size], [limit], budget), [size], [limit], budget)
  {
    LocalWorkSizeGuarantee([size], [limit], budget);
    WrappedIsProduct([size]);
  }

  /** The shortcut at fault: a second dimension beyond its limit, and a product of
      2^64 that wraps to zero. */
  lemma ShortcutTooGenerous()
    ensures LocalWorkSize([1, 100], [2, 1], 1000) == [1, 100]
    ensures LocalWorkSize([0x1_0000_0000, 0x1_0000_0000], [0x1_0000_0001, 1], 1024)
         == [0x1_0000_0000, 0x1_0000_0000]
  {
    assert WrappedProduct([1, 100]) == 100 by { WrappedIsProduct([1, 100]); }
    var s: seq<nat> := [0x1_0000_0000, 0x1_0000_0000];
    assert WrappedProduct(s) == 0 by {
      WrappedIsProduct(s);
      assert s[1..] == [0x1_0000_0000] && s[1..][1..] == [];
      assert Product(s[1..]) == Times(0x1_0000_0000, 1);
      assert Product(s) == Times(0x1_0000_0000, 0x1_0000_0000);
    }
  }
}
