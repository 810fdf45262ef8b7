/** Reference results for the extended bit operations.

    Element types have `width` bits, at most 64, and may be signed; the loops work
    bit by bit in a uint64_t. */
module BitOperations {
  import opened Bits

  const WORD: nat := 64

  datatype IntType = IntType(width: nat, signed: bool) {
    predicate Valid() { 0 < width <= WORD }

    predicate Has(x: int)
      requires Valid()
    {
      if signed then 0 <= x + Pow2(width - 1) && x < Pow2(width - 1) else 0 <= x < Pow2(width)
    }
  }

  /** The pattern of `x` in `w` bits, two's complement: a conversion to an unsigned
      type of that width. */
  function Word(x: int, w: nat): nat
    requires 0 <= x + Pow2(w)
  {
    if x < 0 then x + Pow2(w) else x
  }

  /** The number that a pattern of `w` bits stands for in a signed type. */
  function Signed(u: nat, w: nat): int
    requires w > 0
  {
    if u < Pow2(w - 1) then u else u - Pow2(w)
  }

  /** ~x in a uint64_t */
  function Not64(x: nat): nat { if x < Pow2(WORD) then Pow2(WORD) - 1 - x else 0 }

  function SetBit(inputNumber: nat, offset: nat, bit: nat): nat {
    var mask := Low(Lsh(1, offset), WORD);
    Or(And(inputNumber, Not64(mask)), And(Low(Lsh(bit, offset), WORD), mask))
  }

  // ------------------------------------------------------------ bits of a word

  lemma {:induction false} BitLow(x: nat, k: nat, i: nat)
    ensures Bit(Low(x, k), i) <==> i < k && Bit(x, i)
  {
    if k > 0 && i > 0 { BitLow(x / 2, k - 1, i - 1); }
    if k == 0 { BitZero(i); }
  }

  lemma {:induction false} BitZero(i: nat)
    ensures !Bit(0, i)
  {
    if i > 0 { BitZero(i - 1); }
  }

  lemma {:induction false} BitRsh(x: nat, k: nat, i: nat)
    ensures Bit(Rsh(x, k), i) <==> Bit(x, i + k)
  {
    if k > 0 { BitRsh(x / 2, k - 1, i); }
  }

  /** Bits of a number put together from a high and a low part. */
  lemma BitJoin(a: nat, x: nat, k: nat, i: nat)
    requires x < Pow2(k)
    ensures Bit(Lsh(a, k) + x, i) <==> if i < k then Bit(x, i) else Bit(a, i - k)
  {
    hide Lsh, Rsh, Low, Bit;
    SplitUnique(Lsh(a, k) + x, k, a, x);
    BitLow(Lsh(a, k) + x, k, i);
    if i >= k { BitRsh(Lsh(a, k) + x, k, i - k); }
  }

  lemma {:induction false} BitAnd(x: nat, y: nat, i: nat)
    ensures Bit(And(x, y), i) <==> Bit(x, i) && Bit(y, i)
  {
    if x == 0 || y == 0 { BitZero(i); } else if i > 0 { BitAnd(x / 2, y / 2, i - 1); }
  }

  lemma {:induction false} BitOr(x: nat, y: nat, i: nat)
    ensures Bit(Or(x, y), i) <==> Bit(x, i) || Bit(y, i)
  {
    if x == 0 || y == 0 { BitZero(i); } else if i > 0 { BitOr(x / 2, y / 2, i - 1); }
  }

  lemma {:induction false} BitComplement(x: nat, k: nat, i: nat)
    requires x < Pow2(k)
    ensures Bit(Pow2(k) - 1 - x, i) <==> i < k && !Bit(x, i)
  {
    if k == 0 { BitZero(i); } else if i > 0 { BitComplement(x / 2, k - 1, i - 1); }
  }

  /** A run of `k` ones. */
  lemma BitOnes(k: nat, i: nat)
    ensures Bit(Pow2(k) - 1, i) <==> i < k
  {
    hide Bit;
    BitZero(i);
    LshOrder(0, 1, k);
    LshZero(k);
    BitComplement(0, k, i);
  }

  lemma BitPow2(k: nat, i: nat)
    ensures Bit(Pow2(k), i) <==> i == k
  {
    hide Lsh, Bit;
    LshOrder(0, 1, k);
    LshZero(k);
    BitJoin(1, 0, k, i);
    BitZero(i);
    if i >= k { BitOne(i - k); }
  }

  lemma BitOne(i: nat)
    ensures Bit(1, i) <==> i == 0
  {
    if i > 0 { BitZero(i - 1); }
  }

  /** Numbers with the same bits are equal. */
  lemma {:induction false} SameBits(x: nat, y: nat)
    requires forall i: nat :: Bit(x, i) == Bit(y, i)
    ensures x == y
    decreases x + y
  {
    if x + y > 0 {
      assert Bit(x, 0) == Bit(y, 0);
      forall i: nat
        ensures Bit(x / 2, i) == Bit(y / 2, i)
      {
        assert Bit(x, i + 1) == Bit(y, i + 1);
      }
      SameBits(x / 2, y / 2);
    }
  }

  /** `x & (1 << k)` tests bit k. */
  lemma TestBit(x: nat, k: nat)
    ensures And(x, Lsh(1, k)) > 0 <==> Bit(x, k)
  {
    hide Lsh, Rsh, Low, And, Bit;
    AndShifted(x, 1, k);
    AndOne(Rsh(x, k));
    BitRsh(x, k, 0);
    LshZero(k);
    LshOrder(0, And(Rsh(x, k), 1), k);
    BitParity(Rsh(x, k));
  }

  lemma BitParity(x: nat)
    ensures Bit(x, 0) <==> x % 2 == 1
  {
  }

  /** set_bit changes the bit at the offset and nothing else. */
  lemma SetBitSets(n: nat, offset: nat, bit: nat, i: nat)
    requires offset < WORD && bit <= 1 && n < Pow2(WORD)
    ensures Bit(SetBit(n, offset, bit), i) <==> if i == offset then bit == 1 else Bit(n, i)
  {
    hide Lsh, Rsh, Low, And, Or, Bit;
    var mask := Lsh(1, offset);
    Pow2Grows(offset, WORD);
    LowSmall(mask, WORD);
    LshZero(offset);
    LowSmall(0, WORD);
    BitOr(And(n, Not64(mask)), And(Lsh(bit, offset), mask), i);
    BitAnd(n, Not64(mask), i);
    BitAnd(Lsh(bit, offset), mask, i);
    BitComplement(mask, WORD, i);
    BitPow2(offset, i);
    BitZero(i);
    LowSmall(n, WORD);
    BitLow(n, WORD, i);
  }

  lemma SetBitBelow(n: nat, offset: nat, bit: nat)
    requires offset < WORD && bit <= 1 && n < Pow2(WORD)
    ensures SetBit(n, offset, bit) < Pow2(WORD)
  {
    hide Lsh, Rsh, Low, And, Or, Bit, SetBit;
    var r := SetBit(n, offset, bit);
    forall i: nat
      ensures Bit(r, i) == Bit(Low(r, WORD), i)
    {
      SetBitSets(n, offset, bit, i);
      LowSmall(n, WORD);
      BitLow(n, WORD, i);
      BitLow(r, WORD, i);
    }
    SameBits(r, Low(r, WORD));
    Split(r, WORD);
  }

  // ------------------------------------------------------------ fields of a word

  /** Bits o .. o+c-1 of `u`. */
  function Field(u: nat, o: nat, c: nat): nat { Low(Rsh(u, o), c) }

  /** `u` with those bits replaced by the low `c` bits of `v`. */
  function WithField(u: nat, v: nat, o: nat, c: nat): nat {
    Lsh(Lsh(Rsh(u, o + c), c) + Low(v, c), o) + Low(u, o)
  }

  /** A field read as a two's complement number of `c` bits. */
  function SignExtended(field: nat, c: nat): int { if c == 0 then 0 else Signed(field, c) }

  /** The low `w` bits of `x` in the opposite order. */
  function Reverse(w: nat, x: nat): nat {
    if w == 0 then 0 else Lsh(x % 2, w - 1) + Reverse(w - 1, x / 2)
  }

  lemma BitField(u: nat, o: nat, c: nat, i: nat)
    ensures Bit(Field(u, o, c), i) <==> i < c && Bit(u, i + o)
  {
    BitLow(Rsh(u, o), c, i);
    BitRsh(u, o, i);
  }

  lemma BitWithField(u: nat, v: nat, o: nat, c: nat, i: nat)
    ensures Bit(WithField(u, v, o, c), i) <==> if o <= i < o + c then Bit(v, i - o) else Bit(u, i)
  {
    hide Lsh, Rsh, Low, Bit;
    Split(u, o);
    Split(v, c);
    BitJoin(Lsh(Rsh(u, o + c), c) + Low(v, c), Low(u, o), o, i);
    BitLow(u, o, i);
    if i >= o {
      BitJoin(Rsh(u, o + c), Low(v, c), c, i - o);
      BitLow(v, c, i - o);
      if i >= o + c { BitRsh(u, o + c, i - o - c); }
    }
  }

  lemma {:induction false} ReverseBelow(w: nat, x: nat)
    ensures Reverse(w, x) < Pow2(w)
  {
    if w > 0 {
      ReverseBelow(w - 1, x / 2);
      LshZero(w - 1);
    }
  }

  lemma {:induction false} BitOfReverse(w: nat, x: nat, i: nat)
    ensures Bit(Reverse(w, x), i) <==> i < w && Bit(x, w - 1 - i)
    decreases w
  {
    hide Lsh;
    if w == 0 {
      BitZero(i);
    } else {
      ReverseBelow(w - 1, x / 2);
      BitOfReverse(w - 1, x / 2, i);
      BitJoin(x % 2, Reverse(w - 1, x / 2), w - 1, i);
      if i >= w { BitZero(i - w); BitSmall(x % 2, i - (w - 1)); }
      BitParity(x);
    }
  }

  lemma BitSmall(b: nat, i: nat)
    requires b <= 1
    ensures Bit(b, i) <==> b == 1 && i == 0
  {
    BitZero(i);
    BitOne(i);
  }

  lemma FieldBelow(u: nat, o: nat, c: nat)
    ensures Field(u, o, c) < Pow2(c)
  {
    Split(Rsh(u, o), c);
  }

  /** Reading a field is division and remainder by powers of two. */
  lemma FieldIsDivMod(u: nat, o: nat, c: nat)
    ensures Field(u, o, c) == (u / Pow2(o)) % Pow2(c)
  {
    hide Lsh, Low;
    RshIsQuotient(u, o);
    RshIsQuotient(Rsh(u, o), c);
  }

  // ---------------------------------------------------------------- the loops

  /** The bits of a word while its low bits are overwritten by a field of `source`. */
  ghost predicate FieldCopied(word: nat, before: nat, source: nat, o: nat, done: nat) {
    word < Pow2(WORD) && forall i: nat ::
      Bit(word, i) <==> if i < done then Bit(source, i + o) else Bit(before, i)
  }

  /** The bits of a word whose bits from..to-1 have been set to `value`. */
  ghost predicate Filled(word: nat, before: nat, from: nat, to: nat, value: bool) {
    word < Pow2(WORD) && forall i: nat ::
      Bit(word, i) <==> if from <= i < to then value else Bit(before, i)
  }

  /** The bits of a word while the field at `o` is overwritten by the low bits of
      `source`. */
  ghost predicate FieldWritten(word: nat, before: nat, source: nat, o: nat, done: nat) {
    word < Pow2(WORD) && forall i: nat ::
      Bit(word, i) <==> if o <= i < o + done then Bit(source, i - o) else Bit(before, i)
  }

  method BitfieldExtractUnsigned(t: IntType, base: int, baseOffset: nat, count: nat) returns (r: nat)
    requires t.Valid() && t.Has(base) && baseOffset + count <= t.width
    ensures r == Extracted(t, base, baseOffset, count)
    ensures 0 <= base + Pow2(t.width)
    ensures forall i: nat :: Bit(r, i) <==> i < count && Bit(Word(base, t.width), i + baseOffset)
  {
    hide Lsh, Rsh, Low, And, Or, Bit, SetBit;
    WordFits(t, base);
    FieldIsDivMod(Word(base, t.width), baseOffset, count);
    var tmpInsert := Word(base, t.width);
    var tmpBase := Word(base, t.width);
    if count == 0 {
      LowNone(Rsh(tmpInsert, baseOffset));
      forall i: nat { BitZero(i); }
      return 0;
    }
    for nextBaseOffset := baseOffset to baseOffset + count
      invariant FieldCopied(tmpBase, tmpInsert, tmpInsert, baseOffset, nextBaseOffset - baseOffset)
    {
      var nextInsertOffset := nextBaseOffset - baseOffset;
      var takeBitValue := And(tmpInsert, Lsh(1, nextBaseOffset));
      TestBit(tmpInsert, nextBaseOffset);
      ghost var before := tmpBase;
      tmpBase := SetBit(tmpBase, nextInsertOffset, if takeBitValue > 0 then 1 else 0);
      SetBitStep(before, nextInsertOffset, if takeBitValue > 0 then 1 else 0);
    }
    ghost var copied := tmpBase;
    for nextBaseOffset := count to t.width
      invariant Filled(tmpBase, copied, count, nextBaseOffset, false)
    {
      ghost var before := tmpBase;
      tmpBase := SetBit(tmpBase, nextBaseOffset, 0);
      SetBitStep(before, nextBaseOffset, 0);
    }
    r := Low(tmpBase, t.width);
    forall i: nat
      ensures Bit(r, i) == Bit(Field(tmpInsert, baseOffset, count), i)
    {
      BitLow(tmpBase, t.width, i);
      BitField(tmpInsert, baseOffset, count, i);
    }
    SameBits(r, Field(tmpInsert, baseOffset, count));
    forall i: nat { BitField(tmpInsert, baseOffset, count, i); }
  }

  lemma LowNone(x: nat)
    ensures Low(x, 0) == 0
  {
  }

  lemma SetBitStep(n: nat, offset: nat, bit: nat)
    requires offset < WORD && bit <= 1 && n < Pow2(WORD)
    ensures SetBit(n, offset, bit) < Pow2(WORD)
    ensures forall i: nat :: Bit(SetBit(n, offset, bit), i) <==> if i == offset then bit == 1 else Bit(n, i)
  {
    hide SetBit, Bit, Lsh;
    SetBitBelow(n, offset, bit);
    forall i: nat
      ensures Bit(SetBit(n, offset, bit), i) <==> if i == offset then bit == 1 else Bit(n, i)
    {
      SetBitSets(n, offset, bit, i);
    }
  }

  /** The word of a value fits its width, and sign extension to 64 bits keeps it. */
  lemma WordFits(t: IntType, x: int)
    requires t.Valid() && t.Has(x)
    ensures 0 <= x + Pow2(t.width) && 0 <= x + Pow2(WORD)
    ensures Word(x, t.width) < Pow2(t.width) <= Pow2(WORD)
    ensures Word(x, WORD) < Pow2(WORD)
    ensures Low(Word(x, WORD), t.width) == Word(x, t.width)
  {
    hide Lsh, Rsh, Low;
    var w := t.width;
    LshDouble(1, w - 1);
    if w < WORD { Pow2Grows(w, WORD); }
    if x >= 0 {
      LowSmall(x, w);
    } else {
      LshLsh(1, WORD - w, w);
      LshOrder(0, 1, WORD - w);
      LshZero(WORD - w);
      LshAdd(Pow2(WORD - w) - 1, 1, w);
      SplitUnique(x + Pow2(WORD), w, Pow2(WORD - w) - 1, x + Pow2(w));
    }
  }

  method BitfieldExtractSigned(t: IntType, base: int, baseOffset: nat, count: nat) returns (r: int)
    requires t.Valid() && t.Has(base) && baseOffset + count <= t.width
    ensures r == SignExtended(Extracted(t, base, baseOffset, count), count)
    ensures count == 0 ==> r == 0
    ensures count > 0 ==>
      && 0 <= r + Pow2(t.width - 1) && r < Pow2(t.width - 1)
      && 0 <= r + Pow2(t.width) && 0 <= base + Pow2(t.width)
      && forall i: nat | i < t.width :: Bit(Word(r, t.width), i)
           <==> Bit(Word(base, t.width), baseOffset + if i < count then i else count - 1)
  {
    hide Lsh, Rsh, Low, And, Or, Bit, SetBit, Signed, Word;
    WordFits(t, base);
    FieldIsDivMod(Word(base, t.width), baseOffset, count);
    var tmpInsert := Word(base, WORD);
    var tmpBase := Word(base, WORD);
    if count == 0 {
      return 0;
    }
    for nextBaseOffset := baseOffset to baseOffset + count
      invariant FieldCopied(tmpBase, tmpInsert, tmpInsert, baseOffset, nextBaseOffset - baseOffset)
    {
      var nextInsertOffset := nextBaseOffset - baseOffset;
      var takeBitValue := And(tmpInsert, Lsh(1, nextBaseOffset));
      TestBit(tmpInsert, nextBaseOffset);
      ghost var before := tmpBase;
      tmpBase := SetBit(tmpBase, nextInsertOffset, if takeBitValue > 0 then 1 else 0);
      SetBitStep(before, nextInsertOffset, if takeBitValue > 0 then 1 else 0);
    }
    var takeBitValue := And(tmpInsert, Lsh(1, baseOffset + count - 1));
    TestBit(tmpInsert, baseOffset + count - 1);
    ghost var copied := tmpBase;
    for nextBaseOffset := count to t.width
      invariant Filled(tmpBase, copied, count, nextBaseOffset, takeBitValue > 0)
    {
      ghost var before := tmpBase;
      tmpBase := SetBit(tmpBase, nextBaseOffset, if takeBitValue > 0 then 1 else 0);
      SetBitStep(before, nextBaseOffset, if takeBitValue > 0 then 1 else 0);
    }
    SignedResult(tmpInsert, t.width, baseOffset, count, tmpBase, copied, takeBitValue > 0);
    r := Signed(Low(tmpBase, t.width), t.width);
    TopBitRepeated(t, base, baseOffset, count);
  }

  /** The two's complement pattern of the extracted number is the field, with its top bit
      repeated up to the width. */
  lemma TopBitRepeated(t: IntType, base: int, o: nat, c: nat)
    requires t.Valid() && t.Has(base) && 0 < c && o + c <= t.width
    ensures var r := SignExtended(Extracted(t, base, o, c), c);
      && 0 <= r + Pow2(t.width - 1) && r < Pow2(t.width - 1)
      && 0 <= r + Pow2(t.width) && 0 <= base + Pow2(t.width)
      && forall i: nat | i < t.width :: Bit(Word(r, t.width), i)
           <==> Bit(Word(base, t.width), o + if i < c then i else c - 1)
  {
    hide Lsh, Rsh, Low, Bit, Field, Word;
    WordFits(t, base);
    var u, w := Word(base, t.width), t.width;
    var field := Field(u, o, c);
    FieldIsDivMod(u, o, c);
    FieldBelow(u, o, c);
    WordOfExtended(field, c, w);
    forall i: nat | i < w
      ensures Bit(Word(SignExtended(field, c), w), i) <==> Bit(u, o + if i < c then i else c - 1)
    {
      ExtendedBit(field, c, w, i);
      BitField(u, o, c, if i < c then i else c - 1);
    }
  }

  lemma WordOfExtended(field: nat, c: nat, w: nat)
    requires 0 < c <= w && field < Pow2(c)
    ensures var r := SignExtended(field, c);
      && 0 <= r + Pow2(w - 1) && r < Pow2(w - 1) && 0 <= r + Pow2(w)
      && Word(r, w) == field + if field < Pow2(c - 1) then 0 else Lsh(Pow2(w - c) - 1, c)
  {
    hide Lsh;
    LshDouble(1, c - 1);
    LshDouble(1, w - 1);
    LshLsh(1, w - c, c);
    Positive(w - c);
    LshAdd(Pow2(w - c) - 1, 1, c);
    if c < w { Pow2Grows(c - 1, w - 1); }
  }

  lemma ExtendedBit(field: nat, c: nat, w: nat, i: nat)
    requires 0 < c <= w && field < Pow2(c) && i < w
    ensures 0 <= SignExtended(field, c) + Pow2(w)
    ensures Bit(Word(SignExtended(field, c), w), i) <==> Bit(field, if i < c then i else c - 1)
  {
    hide Lsh, Bit, Word;
    WordOfExtended(field, c, w);
    TopBit(field, c);
    var high := if field < Pow2(c - 1) then 0 else Pow2(w - c) - 1;
    LshZero(c);
    BitJoin(high, field, c, i);
    if i >= c {
      BitOnes(w - c, i - c);
      BitZero(i - c);
    }
  }

  /** What the two loops leave, where `wide` is the sign-extended word: the field,
      and its top bit repeated above it. */
  lemma SignedResult(wide: nat, w: nat, o: nat, c: nat, word: nat, copied: nat, negative: bool)
    requires 0 < c && o + c <= w
    requires negative <==> Bit(wide, o + c - 1)
    requires FieldCopied(copied, wide, wide, o, c)
    requires Filled(word, copied, c, w, negative)
    ensures Signed(Low(word, w), w) == Signed(Field(Low(wide, w), o, c), c)
  {
    hide Lsh, Rsh, Low, Bit, Signed, Field, FieldCopied, Filled;
    FieldBelow(Low(wide, w), o, c);
    forall i: nat | i < w
      ensures Bit(word, i) <==> Bit(Field(Low(wide, w), o, c), if i < c then i else c - 1)
    {
      SignedResultBit(wide, w, o, c, word, copied, negative, i);
    }
    SignExtension(word, Field(Low(wide, w), o, c), c, w);
  }

  lemma CopiedBit(word: nat, before: nat, source: nat, o: nat, done: nat, i: nat)
    requires FieldCopied(word, before, source, o, done)
    ensures Bit(word, i) <==> if i < done then Bit(source, i + o) else Bit(before, i)
  {
    hide Bit;
  }

  lemma FilledBit(word: nat, before: nat, from: nat, to: nat, value: bool, i: nat)
    requires Filled(word, before, from, to, value)
    ensures Bit(word, i) <==> if from <= i < to then value else Bit(before, i)
  {
    hide Bit;
  }

  lemma SignedResultBit(wide: nat, w: nat, o: nat, c: nat, word: nat, copied: nat, negative: bool, i: nat)
    requires 0 < c && o + c <= w && i < w
    requires negative <==> Bit(wide, o + c - 1)
    requires FieldCopied(copied, wide, wide, o, c)
    requires Filled(word, copied, c, w, negative)
    ensures Bit(word, i) <==> Bit(Field(Low(wide, w), o, c), if i < c then i else c - 1)
  {
    hide Lsh, Rsh, Low, Bit, Field, FieldCopied, Filled;
    var k := if i < c then i else c - 1;
    FilledBit(word, copied, c, w, negative, i);
    CopiedBit(copied, wide, wide, o, c, i);
    BitField(Low(wide, w), o, c, k);
    BitLow(wide, w, k + o);
  }

  /** Repeating the top bit of a field up to the width leaves its number unchanged. */
  lemma SignExtension(x: nat, field: nat, c: nat, w: nat)
    requires 0 < c <= w && field < Pow2(c)
    requires forall i: nat | i < w :: Bit(x, i) <==> Bit(field, if i < c then i else c - 1)
    ensures Signed(Low(x, w), w) == Signed(field, c)
  {
    hide Lsh, Rsh, Low, Bit;
    var negative := Bit(field, c - 1);
    var high := if negative then Pow2(w - c) - 1 else 0;
    LshOrder(0, 1, w - c);
    LshZero(w - c);
    var y := Lsh(high, c) + field;
    forall i: nat
      ensures Bit(Low(x, w), i) == Bit(y, i)
    {
      BitLow(x, w, i);
      BitJoin(high, field, c, i);
      if i >= c {
        BitOnes(w - c, i - c);
        BitZero(i - c);
      }
    }
    SameBits(Low(x, w), y);
    TopBit(field, c);
    LshZero(c);
    LshLsh(1, w - c, c);
    LshAdd(Pow2(w - c) - 1, 1, c);
    LshDouble(1, c - 1);
    LshDouble(1, w - 1);
    if c < w { Pow2Grows(c, w); if c < w - 1 { Pow2Grows(c, w - 1); } }
  }

  lemma TopBit(x: nat, c: nat)
    requires c > 0 && x < Pow2(c)
    ensures Bit(x, c - 1) <==> x >= Pow2(c - 1)
  {
    hide Lsh, Rsh, Low, Bit;
    BitRsh(x, c - 1, 0);
    RshBelow(x, 1, c - 1);
    RshBelow(x, 0, c - 1);
    LshIdentity(1);
    LshDouble(1, 0);
    BitSmall(Rsh(x, c - 1), 0);
  }

  method BitReverse(t: IntType, base: int) returns (r: int)
    requires t.Valid() && t.Has(base)
    ensures r == Reversed(t, base)
    ensures t.Has(r)
  {
    hide Lsh, Rsh, Low, And, Or, Bit, SetBit;
    WordFits(t, base);
    var tmpInsert := Word(base, t.width);
    var tmpBase: nat := Word(base, t.width);
    var count := t.width;
    for nextBaseOffset := 0 to count
      invariant tmpBase < Pow2(WORD)
      invariant forall i: nat :: Bit(tmpBase, i) <==>
        if i < nextBaseOffset then Bit(tmpInsert, count - 1 - i) else Bit(tmpInsert, i)
    {
      var nextInsertOffset := count - nextBaseOffset - 1;
      var takeBitValue := And(tmpInsert, Lsh(1, nextInsertOffset));
      TestBit(tmpInsert, nextInsertOffset);
      ghost var before := tmpBase;
      tmpBase := SetBit(tmpBase, nextBaseOffset, if takeBitValue > 0 then 1 else 0);
      SetBitStep(before, nextBaseOffset, if takeBitValue > 0 then 1 else 0);
    }
    ghost var reversed := Reverse(count, tmpInsert);
    forall i: nat
      ensures Bit(Low(tmpBase, count), i) == Bit(reversed, i)
    {
      BitLow(tmpBase, count, i);
      BitOfReverse(count, tmpInsert, i);
    }
    SameBits(Low(tmpBase, count), reversed);
    ReverseBelow(count, tmpInsert);
    FromWordHas(t, reversed);
    r := FromWord(t, Low(tmpBase, count));
  }

  /** Reading a word back as a value of the element type. */
  function FromWord(t: IntType, u: nat): int
    requires t.Valid()
  {
    if t.signed then Signed(u, t.width) else u
  }

  /** The value whose word is the reversed word of `base`. */
  function Reversed(t: IntType, base: int): int
    requires t.Valid() && t.Has(base)
  {
    WordFits(t, base);
    FromWord(t, Reverse(t.width, Word(base, t.width)))
  }

  /** The value whose word is that of `base` with a field taken from `insert`. */
  function Inserted(t: IntType, base: int, insert: int, o: nat, c: nat): int
    requires t.Valid() && t.Has(base) && t.Has(insert)
  {
    WordFits(t, base);
    WordFits(t, insert);
    FromWord(t, WithField(Word(base, t.width), Word(insert, t.width), o, c))
  }

  /** A field of the word of `base`: what the unsigned extract returns. */
  function Extracted(t: IntType, base: int, o: nat, c: nat): nat
    requires t.Valid() && t.Has(base)
  {
    WordFits(t, base);
    Positive(o);
    Positive(c);
    (Word(base, t.width) / Pow2(o)) % Pow2(c)
  }

  lemma FromWordHas(t: IntType, u: nat)
    requires t.Valid() && u < Pow2(t.width)
    ensures t.Has(FromWord(t, u)) && 0 <= FromWord(t, u) + Pow2(t.width)
    ensures Word(FromWord(t, u), t.width) == u
  {
    hide Lsh;
    LshDouble(1, t.width - 1);
  }

  method BitfieldInsert(t: IntType, base: int, insert: int, baseOffset: nat, count: nat) returns (r: int)
    requires t.Valid() && t.Has(base) && t.Has(insert) && baseOffset + count <= t.width
    ensures r == Inserted(t, base, insert, baseOffset, count)
    ensures t.Has(r)
  {
    hide Lsh, Rsh, Low, And, Or, Bit, SetBit;
    WordFits(t, base);
    WordFits(t, insert);
    var tmpInsert := Word(insert, t.width);
    var tmpBase := Word(base, t.width);
    ghost var original := tmpBase;
    for nextBaseOffset := baseOffset to baseOffset + count
      invariant FieldWritten(tmpBase, original, tmpInsert, baseOffset, nextBaseOffset - baseOffset)
    {
      var nextInsertOffset := nextBaseOffset - baseOffset;
      var takeBitValue := And(tmpInsert, Lsh(1, nextInsertOffset));
      TestBit(tmpInsert, nextInsertOffset);
      ghost var before := tmpBase;
      tmpBase := SetBit(tmpBase, nextBaseOffset, if takeBitValue > 0 then 1 else 0);
      SetBitStep(before, nextBaseOffset, if takeBitValue > 0 then 1 else 0);
    }
    ghost var expected := WithField(original, tmpInsert, baseOffset, count);
    forall i: nat
      ensures Bit(Low(tmpBase, t.width), i) == Bit(expected, i)
    {
      BitLow(tmpBase, t.width, i);
      BitWithField(original, tmpInsert, baseOffset, count, i);
      LowSmall(original, t.width);
      BitLow(original, t.width, i);
    }
    SameBits(Low(tmpBase, t.width), expected);
    Split(tmpBase, t.width);
    FromWordHas(t, expected);
    r := FromWord(t, Low(tmpBase, t.width));
  }

  // ----------------------------------------------------------------- field laws

  /** Reading back what was inserted gives the low bits of it. */
  lemma ExtractAfterInsert(u: nat, v: nat, o: nat, c: nat)
    ensures Field(WithField(u, v, o, c), o, c) == Low(v, c)
  {
    hide Lsh, Rsh, Low, Bit, Field, WithField;
    forall i: nat
      ensures Bit(Field(WithField(u, v, o, c), o, c), i) == Bit(Low(v, c), i)
    {
      BitField(WithField(u, v, o, c), o, c, i);
      BitWithField(u, v, o, c, i + o);
      BitLow(v, c, i);
    }
    SameBits(Field(WithField(u, v, o, c), o, c), Low(v, c));
  }

  /** Inserting what is already there changes nothing. */
  lemma InsertOfExtract(u: nat, o: nat, c: nat)
    ensures WithField(u, Field(u, o, c), o, c) == u
  {
    hide Lsh, Rsh, Low, Bit, Field, WithField;
    forall i: nat
      ensures Bit(WithField(u, Field(u, o, c), o, c), i) == Bit(u, i)
    {
      BitWithField(u, Field(u, o, c), o, c, i);
      if o <= i { BitField(u, o, c, i - o); }
    }
    SameBits(WithField(u, Field(u, o, c), o, c), u);
  }

  /** Fields that do not overlap can be written in either order, and writing one
      leaves the other as it was. */
  lemma DisjointFieldsIndependent(u: nat, v: nat, o: nat, c: nat, w: nat, p: nat, d: nat)
    requires o + c <= p
    ensures WithField(WithField(u, v, o, c), w, p, d) == WithField(WithField(u, w, p, d), v, o, c)
    ensures Field(WithField(u, v, o, c), p, d) == Field(u, p, d)
    ensures Field(WithField(u, w, p, d), o, c) == Field(u, o, c)
  {
    hide Lsh, Rsh, Low, Bit, Field, WithField;
    var a, b := WithField(WithField(u, v, o, c), w, p, d), WithField(WithField(u, w, p, d), v, o, c);
    forall i: nat
      ensures Bit(a, i) == Bit(b, i)
      ensures Bit(Field(WithField(u, v, o, c), p, d), i) == Bit(Field(u, p, d), i)
      ensures Bit(Field(WithField(u, w, p, d), o, c), i) == Bit(Field(u, o, c), i)
    {
      BitWithField(WithField(u, v, o, c), w, p, d, i);
      BitWithField(WithField(u, w, p, d), v, o, c, i);
      BitWithField(u, v, o, c, i);
      BitWithField(u, w, p, d, i);
      BitField(WithField(u, v, o, c), p, d, i);
      BitField(u, p, d, i);
      BitWithField(u, v, o, c, i + p);
      BitField(WithField(u, w, p, d), o, c, i);
      BitField(u, o, c, i);
      BitWithField(u, w, p, d, i + o);
    }
    SameBits(a, b);
    SameBits(Field(WithField(u, v, o, c), p, d), Field(u, p, d));
    SameBits(Field(WithField(u, w, p, d), o, c), Field(u, o, c));
  }

  /** A later insert at the same place wins. */
  lemma LastInsertWins(u: nat, v: nat, w: nat, o: nat, c: nat)
    ensures WithField(WithField(u, v, o, c), w, o, c) == WithField(u, w, o, c)
  {
    hide Lsh, Rsh, Low, Bit, WithField;
    var a, b := WithField(WithField(u, v, o, c), w, o, c), WithField(u, w, o, c);
    forall i: nat
      ensures Bit(a, i) == Bit(b, i)
    {
      BitWithField(WithField(u, v, o, c), w, o, c, i);
      BitWithField(u, v, o, c, i);
      BitWithField(u, w, o, c, i);
    }
    SameBits(a, b);
  }

  lemma ReverseTwice(w: nat, u: nat)
    requires u < Pow2(w)
    ensures Reverse(w, Reverse(w, u)) == u
  {
    hide Lsh, Rsh, Low, Bit, Reverse;
    LowSmall(u, w);
    forall i: nat
      ensures Bit(Reverse(w, Reverse(w, u)), i) == Bit(u, i)
    {
      BitOfReverse(w, Reverse(w, u), i);
      if i < w { BitOfReverse(w, u, w - 1 - i); }
      BitLow(u, w, i);
    }
    SameBits(Reverse(w, Reverse(w, u)), u);
  }

  /** Reversal mirrors fields: the field at o goes to w - o - c, itself reversed. */
  lemma ReverseMirrorsInsert(w: nat, u: nat, v: nat, o: nat, c: nat)
    requires o + c <= w
    ensures Reverse(w, WithField(u, v, o, c)) == WithField(Reverse(w, u), Reverse(c, v), w - o - c, c)
  {
    hide Lsh, Rsh, Low, Bit, Reverse, WithField;
    var a, b := Reverse(w, WithField(u, v, o, c)), WithField(Reverse(w, u), Reverse(c, v), w - o - c, c);
    forall i: nat
      ensures Bit(a, i) == Bit(b, i)
    {
      BitOfReverse(w, WithField(u, v, o, c), i);
      if i < w { BitWithField(u, v, o, c, w - 1 - i); }
      BitWithField(Reverse(w, u), Reverse(c, v), w - o - c, c, i);
      BitOfReverse(w, u, i);
      if i >= w - o - c { BitOfReverse(c, v, i - (w - o - c)); }
    }
    SameBits(a, b);
  }

  // ------------------------------------------- the laws on values of the element type

  lemma WithFieldBelow(u: nat, v: nat, o: nat, c: nat, w: nat)
    requires u < Pow2(w) && o + c <= w
    ensures WithField(u, v, o, c) < Pow2(w)
  {
    hide Lsh, Rsh, Low, Bit, WithField;
    var r := WithField(u, v, o, c);
    LowSmall(u, w);
    forall i: nat
      ensures Bit(r, i) == Bit(Low(r, w), i)
    {
      BitWithField(u, v, o, c, i);
      BitLow(r, w, i);
      BitLow(u, w, i);
    }
    SameBits(r, Low(r, w));
    Split(r, w);
  }

  /** Only the low bits of the insert matter. */
  lemma WithFieldOfLow(u: nat, v: nat, o: nat, c: nat)
    ensures WithField(u, v, o, c) == WithField(u, Low(v, c), o, c)
  {
    hide Lsh;
    Split(v, c);
    LowSmall(Low(v, c), c);
  }

  /** The word of an inserted value, signed or not. */
  lemma WordOfInserted(t: IntType, base: int, insert: int, o: nat, c: nat)
    requires t.Valid() && t.Has(base) && t.Has(insert) && o + c <= t.width
    ensures var r := Inserted(t, base, insert, o, c);
      && t.Has(r) && 0 <= r + Pow2(t.width)
      && 0 <= base + Pow2(t.width) && 0 <= insert + Pow2(t.width)
      && Word(r, t.width) == WithField(Word(base, t.width), Word(insert, t.width), o, c)
  {
    hide Lsh, WithField, FromWord, Word;
    WordFits(t, base);
    WordFits(t, insert);
    WithFieldBelow(Word(base, t.width), Word(insert, t.width), o, c, t.width);
    FromWordHas(t, WithField(Word(base, t.width), Word(insert, t.width), o, c));
  }

  lemma ValueOfWord(t: IntType, x: int)
    requires t.Valid() && t.Has(x)
    ensures 0 <= x + Pow2(t.width) && FromWord(t, Word(x, t.width)) == x
  {
    hide Lsh;
    LshDouble(1, t.width - 1);
  }

  /** Extracting what was inserted gives its low bits back. */
  lemma ExtractOfInserted(t: IntType, base: int, insert: int, o: nat, c: nat)
    requires t.Valid() && t.Has(base) && t.Has(insert) && o + c <= t.width
    ensures t.Has(Inserted(t, base, insert, o, c))
    ensures Extracted(t, Inserted(t, base, insert, o, c), o, c) == Extracted(t, insert, 0, c)
  {
    hide Lsh, Rsh, Low, WithField, FromWord, Word;
    WordOfInserted(t, base, insert, o, c);
    var r := Inserted(t, base, insert, o, c);
    FieldIsDivMod(Word(r, t.width), o, c);
    ExtractAfterInsert(Word(base, t.width), Word(insert, t.width), o, c);
    FieldIsDivMod(Word(insert, t.width), 0, c);
    LshIdentity(1);
    RshIsQuotient(Word(insert, t.width), 0);
    RshIsQuotient(Word(insert, t.width), c);
  }

  /** Inserting an extracted field where it came from changes nothing, whether it was
      extracted as a signed or as an unsigned number. */
  lemma InsertOfExtracted(t: IntType, base: int, x: int, o: nat, c: nat)
    requires t.Valid() && t.Has(base) && t.Has(x) && o + c <= t.width
    requires x == Extracted(t, base, o, c) || x == SignExtended(Extracted(t, base, o, c), c)
    ensures Inserted(t, base, x, o, c) == base
  {
    hide Lsh, Rsh, Low, WithField;
    var u, w := Word(base, t.width), t.width;
    WordFits(t, base);
    WordFits(t, x);
    ValueOfWord(t, base);
    FieldIsDivMod(u, o, c);
    FieldBelow(u, o, c);
    LowOfExtended(x, Field(u, o, c), c, w);
    WithFieldOfLow(u, Word(x, w), o, c);
    InsertOfExtract(u, o, c);
  }

  lemma LowOfExtended(x: int, field: nat, c: nat, w: nat)
    requires c <= w && field < Pow2(c) && 0 <= x + Pow2(w)
    requires x == field || x == SignExtended(field, c)
    ensures Low(Word(x, w), c) == field
  {
    hide Lsh, Rsh, Low;
    LshIdentity(1);
    LowSmall(field, c);
    if c > 0 { LshDouble(1, c - 1); }
    if x < 0 {
      LshLsh(1, w - c, c);
      Positive(w - c);
      LshAdd(Pow2(w - c) - 1, 1, c);
      SplitUnique(x + Pow2(w), c, Pow2(w - c) - 1, field);
    } else if c == 0 {
      LowNone(Word(x, w));
    }
  }

  lemma InsertsCommute(t: IntType, base: int, x: int, y: int, o: nat, c: nat, p: nat, d: nat)
    requires t.Valid() && t.Has(base) && t.Has(x) && t.Has(y) && o + c <= p && p + d <= t.width
    ensures t.Has(Inserted(t, base, x, o, c)) && t.Has(Inserted(t, base, y, p, d))
    ensures Inserted(t, Inserted(t, base, x, o, c), y, p, d) == Inserted(t, Inserted(t, base, y, p, d), x, o, c)
  {
    hide Lsh, WithField, FromWord, Word;
    WordOfInserted(t, base, x, o, c);
    WordOfInserted(t, base, y, p, d);
    DisjointFieldsIndependent(Word(base, t.width), Word(x, t.width), o, c, Word(y, t.width), p, d);
  }

  lemma WordOfReversed(t: IntType, base: int)
    requires t.Valid() && t.Has(base)
    ensures var r := Reversed(t, base);
      && t.Has(r) && 0 <= r + Pow2(t.width) && 0 <= base + Pow2(t.width)
      && Word(r, t.width) == Reverse(t.width, Word(base, t.width))
  {
    hide Lsh, Reverse, FromWord, Word;
    WordFits(t, base);
    ReverseBelow(t.width, Word(base, t.width));
    FromWordHas(t, Reverse(t.width, Word(base, t.width)));
  }

  /** bit_reverse is an involution on every element type. */
  lemma ReversedTwice(t: IntType, base: int)
    requires t.Valid() && t.Has(base)
    ensures t.Has(Reversed(t, base)) && Reversed(t, Reversed(t, base)) == base
  {
    hide Lsh, Reverse;
    WordFits(t, base);
    WordOfReversed(t, base);
    ValueOfWord(t, base);
    ReverseTwice(t.width, Word(base, t.width));
  }

  /** And it mirrors inserts: `y` is any value whose low bits are those of `x` reversed. */
  lemma ReversedMirrorsInsert(t: IntType, base: int, x: int, y: int, o: nat, c: nat)
    requires t.Valid() && t.Has(base) && t.Has(x) && t.Has(y) && o + c <= t.width
    requires Extracted(t, y, 0, c) == Reverse(c, Extracted(t, x, 0, c))
    ensures t.Has(Inserted(t, base, x, o, c)) && t.Has(Reversed(t, base))
    ensures Reversed(t, Inserted(t, base, x, o, c)) == Inserted(t, Reversed(t, base), y, t.width - o - c, c)
  {
    hide Lsh, Rsh, Low, Reverse, WithField, FromWord, Word;
    var w := t.width;
    WordOfInserted(t, base, x, o, c);
    WordOfReversed(t, base);
    WordFits(t, y);
    LowestField(t, x, c);
    LowestField(t, y, c);
    ReverseOfLow(c, Word(x, w));
    ReverseMirrorsInsert(w, Word(base, w), Word(x, w), o, c);
    WithFieldOfLow(Reverse(w, Word(base, w)), Word(y, w), w - o - c, c);
  }

  lemma LowestField(t: IntType, x: int, c: nat)
    requires t.Valid() && t.Has(x)
    ensures 0 <= x + Pow2(t.width) && Extracted(t, x, 0, c) == Low(Word(x, t.width), c)
  {
    hide Lsh, Rsh, Low, Word;
    WordFits(t, x);
    LshIdentity(1);
    RshIsQuotient(Word(x, t.width), c);
  }

  lemma ReverseOfLow(c: nat, v: nat)
    ensures Reverse(c, Low(v, c)) == Reverse(c, v)
  {
    hide Lsh, Low, Bit, Reverse;
    forall i: nat
      ensures Bit(Reverse(c, Low(v, c)), i) == Bit(Reverse(c, v), i)
    {
      BitOfReverse(c, Low(v, c), i);
      BitOfReverse(c, v, i);
      if i < c { BitLow(v, c, c - 1 - i); }
    }
    SameBits(Reverse(c, Low(v, c)), Reverse(c, v));
  }
}
