/** Packing vectors of parts into vectors of elements, and back, with a stride.

    An element of the larger type is the sequence of its `ratio` parts: the bytes of a
    wider integer or the components of a Vector.  The input is read in blocks of
    `step` * `ratio` parts; part `i` of the element in column `x` of row `y` sits
    `i` * `step` further on. */
module Packing {
  import opened Bits

  function Times(x: nat, y: nat): nat { x * y }

  /** Position of column `x` in row `y` of a table with `columns` columns. */
  function Slot(columns: nat, y: nat, x: nat): nat { Times(y, columns) + x }

  /** Position in the unpacked vector of part `i` of element `o`. */
  function Position(step: nat, ratio: nat, o: nat, i: nat): nat
    requires step > 0
  {
    Slot(step, Slot(ratio, o / step, i), o % step)
  }

  /** The element a position of the unpacked vector belongs to, and the part it is. */
  function Element(step: nat, ratio: nat, k: nat): nat
    requires step > 0 && ratio > 0
  {
    Slot(step, k / step / ratio, k % step)
  }

  function Part(step: nat, ratio: nat, k: nat): nat
    requires step > 0 && ratio > 0
  {
    k / step % ratio
  }

  /** How many of `elements` elements fill complete rows. */
  function Whole(elements: nat, step: nat): nat
    requires step > 0
  {
    Times(elements / step, step)
  }

  function At<T>(s: seq<T>, k: nat, zero: T): T { if k < |s| then s[k] else zero }

  /** What packing produces: complete rows are filled, elements beyond them stay zero. */
  function Packed<T>(input: seq<T>, ratio: nat, step: nat, zero: T): seq<seq<T>>
    requires ratio > 0 && step > 0
  {
    var n := |input| / ratio;
    seq(n, o => seq(ratio, i =>
      if 0 <= i && 0 <= o < Whole(n, step) then At(input, Position(step, ratio, o, i), zero) else zero))
  }

  /** What unpacking produces. */
  function Unpacked<T>(input: seq<seq<T>>, ratio: nat, step: nat, zero: T): seq<T>
    requires ratio > 0 && step > 0
  {
    seq(Times(|input|, ratio), k =>
      if 0 <= k && Element(step, ratio, k) < Whole(|input|, step)
      then At(At(input, Element(step, ratio, k), []), Part(step, ratio, k), zero) else zero)
  }

  // ------------------------------------------------- the index map is a bijection

  lemma SlotDigits(columns: nat, y: nat, x: nat)
    requires x < columns
    ensures Slot(columns, y, x) / columns == y && Slot(columns, y, x) % columns == x
  {
    DivModUnique(Slot(columns, y, x), columns, y, x);
  }

  lemma SlotOfDigits(columns: nat, k: nat)
    requires columns > 0
    ensures Slot(columns, k / columns, k % columns) == k
  {
  }

  lemma SlotInTable(columns: nat, rows: nat, y: nat, x: nat)
    requires x < columns
    ensures y < rows <==> Slot(columns, y, x) < Times(rows, columns)
  {
    if y < rows { MulStep(y, rows, columns); }
    if rows < y { MulStep(rows, y, columns); }
  }

  lemma DigitsOfPosition(step: nat, ratio: nat, o: nat, i: nat)
    requires step > 0 && i < ratio
    ensures Element(step, ratio, Position(step, ratio, o, i)) == o
    ensures Part(step, ratio, Position(step, ratio, o, i)) == i
  {
    hide Slot;
    SlotDigits(step, Slot(ratio, o / step, i), o % step);
    SlotDigits(ratio, o / step, i);
    SlotOfDigits(step, o);
  }

  lemma PositionOfDigits(step: nat, ratio: nat, k: nat)
    requires step > 0 && ratio > 0
    ensures Position(step, ratio, Element(step, ratio, k), Part(step, ratio, k)) == k
  {
    hide Slot;
    SlotDigits(step, k / step / ratio, k % step);
    SlotOfDigits(ratio, k / step);
    SlotOfDigits(step, k);
  }

  /** Positions of the elements in complete rows fill the vector from the start. */
  lemma PositionInRange(step: nat, ratio: nat, elements: nat, o: nat, i: nat)
    requires step > 0 && i < ratio
    ensures o < Whole(elements, step) <==> Position(step, ratio, o, i) < Times(Whole(elements, step), ratio)
  {
    hide Slot, Times;
    var rows := elements / step;
    SlotOfDigits(step, o);
    SlotInTable(step, rows, o / step, o % step);
    SlotInTable(ratio, rows, o / step, i);
    SlotInTable(step, Times(rows, ratio), Slot(ratio, o / step, i), o % step);
    TimesSwap(rows, ratio, step);
  }

  lemma TimesSwap(a: nat, b: nat, c: nat)
    ensures Times(Times(a, b), c) == Times(Times(a, c), b)
  {
  }

  lemma WholeFits(elements: nat, step: nat)
    requires step > 0
    ensures Whole(elements, step) <= elements
    ensures elements % step == 0 ==> Whole(elements, step) == elements
  {
  }

  lemma TimesMonotone(a: nat, b: nat, c: nat)
    requires a <= b
    ensures Times(a, c) <= Times(b, c)
  {
    if a < b { MulStep(a, b, c); }
  }

  lemma QuotientFits(x: nat, d: nat)
    requires d > 0
    ensures Times(x / d, d) <= x
    ensures x % d == 0 ==> Times(x / d, d) == x
  {
  }

  lemma QuotientOfTimes(x: nat, d: nat)
    requires d > 0
    ensures Times(x, d) / d == x
  {
    DivModUnique(Times(x, d), d, x, 0);
  }

  /** No access of either loop nest leaves its vector. */
  lemma AccessInBounds(length: nat, step: nat, ratio: nat, o: nat, i: nat)
    requires step > 0 && i < ratio && o < Whole(length / ratio, step)
    ensures o < length / ratio && Position(step, ratio, o, i) < length
    ensures Position(step, ratio, o, i) < Times(length / ratio, ratio)
  {
    hide Slot, Times;
    var n := length / ratio;
    WholeFits(n, step);
    PositionInRange(step, ratio, n, o, i);
    TimesMonotone(Whole(n, step), n, ratio);
    QuotientFits(length, ratio);
  }

  // -------------------------------------------------------------- round trips

  /** Packing and unpacking again restores every part that belongs to a complete row;
      the rest comes back as zero. */
  lemma UnpackOfPack<T>(input: seq<T>, ratio: nat, step: nat, zero: T)
    requires ratio > 0 && step > 0
    ensures var n, back := |input| / ratio, Unpacked(Packed(input, ratio, step, zero), ratio, step, zero);
      && |back| == Times(n, ratio) <= |input| && Times(Whole(n, step), ratio) <= |back|
      && back == input[..Times(Whole(n, step), ratio)]
                 + seq(|back| - Times(Whole(n, step), ratio), _ => zero)
  {
    hide Slot, Times, Whole, Element, Part, Position, Packed;
    PackedShape(input, ratio, step, zero);
    var n := |input| / ratio;
    var packed := Packed(input, ratio, step, zero);
    var back := Unpacked(packed, ratio, step, zero);
    var used := Times(Whole(n, step), ratio);
    WholeFits(n, step);
    TimesMonotone(Whole(n, step), n, ratio);
    QuotientFits(|input|, ratio);
    forall k: nat | k < |back|
      ensures back[k] == if k < used then input[k] else zero
    {
      RestoredPart(input, ratio, step, zero, k);
    }
  }

  lemma RestoredPart<T>(input: seq<T>, ratio: nat, step: nat, zero: T, k: nat)
    requires ratio > 0 && step > 0 && k < Times(|input| / ratio, ratio) <= |input|
    ensures |Unpacked(Packed(input, ratio, step, zero), ratio, step, zero)| == Times(|input| / ratio, ratio)
    ensures Unpacked(Packed(input, ratio, step, zero), ratio, step, zero)[k]
         == if k < Times(Whole(|input| / ratio, step), ratio) then input[k] else zero
  {
    hide Slot, Times, Whole, Element, Part, Position, Packed, Unpacked, At;
    var n, o, i := |input| / ratio, Element(step, ratio, k), Part(step, ratio, k);
    PackedShape(input, ratio, step, zero);
    PartBound(step, ratio, k);
    PositionOfDigits(step, ratio, k);
    PositionInRange(step, ratio, n, o, i);
    if o < Whole(n, step) {
      PackedPart(input, step, ratio, o, i, zero);
      UnpackedPart(Packed(input, ratio, step, zero), step, ratio, o, i, zero);
    }
    OutsideRows(Packed(input, ratio, step, zero), ratio, step, zero, k);
  }

  lemma OutsideRows<T>(input: seq<seq<T>>, ratio: nat, step: nat, zero: T, k: nat)
    requires ratio > 0 && step > 0 && k < Times(|input|, ratio)
    ensures |Unpacked(input, ratio, step, zero)| == Times(|input|, ratio)
    ensures Element(step, ratio, k) >= Whole(|input|, step) ==> Unpacked(input, ratio, step, zero)[k] == zero
  {
    hide Slot, Times, Whole, Element, Part, Position;
  }

  lemma PartBound(step: nat, ratio: nat, k: nat)
    requires step > 0 && ratio > 0
    ensures Part(step, ratio, k) < ratio
  {
  }

  /** Unpacking and packing again restores every element of a complete row. */
  lemma PackOfUnpack<T>(input: seq<seq<T>>, ratio: nat, step: nat, zero: T)
    requires ratio > 0 && step > 0 && forall o | 0 <= o < |input| :: |input[o]| == ratio
    ensures var back := Packed(Unpacked(input, ratio, step, zero), ratio, step, zero);
      && |back| == |input| && Whole(|input|, step) <= |input|
      && back == input[..Whole(|input|, step)]
                 + seq(|input| - Whole(|input|, step), _ => seq(ratio, _ => zero))
  {
    hide Slot, Times, Whole, Element, Part, Position;
    var n := |input|;
    var parts := Unpacked(input, ratio, step, zero);
    var back := Packed(parts, ratio, step, zero);
    QuotientOfTimes(n, ratio);
    WholeFits(n, step);
    forall o: nat | o < n
      ensures back[o] == if o < Whole(n, step) then input[o] else seq(ratio, _ => zero)
    {
      forall i: nat | i < ratio
        ensures back[o][i] == if o < Whole(n, step) then input[o][i] else zero
      {
        DigitsOfPosition(step, ratio, o, i);
        PositionInRange(step, ratio, n, o, i);
        TimesMonotone(Whole(n, step), n, ratio);
      }
    }
  }

  /** With sizes that divide, packing and unpacking are inverse to each other. */
  lemma InverseWhenSizesDivide<T>(input: seq<T>, elements: seq<seq<T>>, ratio: nat, step: nat, zero: T)
    requires ratio > 0 && step > 0
    requires |input| % ratio == 0 && |input| / ratio % step == 0
    requires |elements| % step == 0 && forall o | 0 <= o < |elements| :: |elements[o]| == ratio
    ensures Unpacked(Packed(input, ratio, step, zero), ratio, step, zero) == input
    ensures Packed(Unpacked(elements, ratio, step, zero), ratio, step, zero) == elements
  {
    hide Times, Whole, Packed, Unpacked;
    UnpackOfPack(input, ratio, step, zero);
    PackOfUnpack(elements, ratio, step, zero);
    WholeFits(|input| / ratio, step);
    WholeFits(|elements|, step);
    QuotientFits(|input|, ratio);
  }

  // ------------------------------------------------------------------- the layout

  /** Where packing takes its parts from: part `i` of the element `o` in column `x` of row
      `y` is `i` strides into the block of that row. */
  lemma PackedLayout<T>(input: seq<T>, ratio: nat, step: nat, zero: T, y: nat, x: nat, i: nat, o: nat, k: nat)
    requires ratio > 0 && step > 0 && y < |input| / ratio / step && x < step && i < ratio
    requires o == y * step + x && k == y * step * ratio + i * step + x
    ensures o < |Packed(input, ratio, step, zero)| == |input| / ratio && k < |input|
    ensures |Packed(input, ratio, step, zero)[o]| == ratio && Packed(input, ratio, step, zero)[o][i] == input[k]
  {
    Offsets(step, ratio, |input| / ratio, y, x, i);
    hide Slot, Times, Whole, Packed, Position;
    PackedShape(input, ratio, step, zero);
    ElementAt(|input| / ratio, step, y, x);
    PackedPart(input, step, ratio, o, i, zero);
  }

  /** Elements that fill no row are zero. */
  lemma PackedRest<T>(input: seq<T>, ratio: nat, step: nat, zero: T, o: nat)
    requires ratio > 0 && step > 0 && |input| / ratio / step * step <= o < |input| / ratio
    ensures o < |Packed(input, ratio, step, zero)| && Packed(input, ratio, step, zero)[o] == seq(ratio, _ => zero)
  {
    Offsets(step, ratio, |input| / ratio, 0, 0, 0);
    hide Slot, Times, Whole, Packed, Position;
    PackedShape(input, ratio, step, zero);
  }

  /** And where unpacking puts them. */
  lemma UnpackedLayout<T>(input: seq<seq<T>>, ratio: nat, step: nat, zero: T, y: nat, x: nat, i: nat, o: nat, k: nat)
    requires ratio > 0 && step > 0 && y < |input| / step && x < step && i < ratio
    requires forall e | 0 <= e < |input| :: |input[e]| == ratio
    requires o == y * step + x && k == y * step * ratio + i * step + x
    ensures o < |input| && k < |Unpacked(input, ratio, step, zero)| && Unpacked(input, ratio, step, zero)[k] == input[o][i]
  {
    Offsets(step, ratio, |input|, y, x, i);
    hide Slot, Times, Whole, Unpacked, Element, Part, Position;
    UnpackedShape(input, ratio, step, zero);
    ElementAt(|input|, step, y, x);
    UnpackedPart(input, step, ratio, o, i, zero);
  }

  lemma UnpackedRest<T>(input: seq<seq<T>>, ratio: nat, step: nat, zero: T, k: nat)
    requires ratio > 0 && step > 0 && |input| / step * step * ratio <= k < |input| * ratio
    ensures k < |Unpacked(input, ratio, step, zero)| == |input| * ratio && Unpacked(input, ratio, step, zero)[k] == zero
  {
    Offsets(step, ratio, |input|, 0, 0, 0);
    assert Times(|input|, ratio) == |input| * ratio;
    hide Slot, Times, Whole, Unpacked, Element, Part, Position;
    UnpackedShape(input, ratio, step, zero);
    PartBound(step, ratio, k);
    PositionOfDigits(step, ratio, k);
    PositionInRange(step, ratio, |input|, Element(step, ratio, k), Part(step, ratio, k));
  }

  lemma Offsets(step: nat, ratio: nat, n: nat, y: nat, x: nat, i: nat)
    requires step > 0 && x < step && i < ratio
    ensures Slot(step, y, x) == y * step + x
    ensures Position(step, ratio, Slot(step, y, x), i) == y * step * ratio + i * step + x
    ensures Whole(n, step) == n / step * step && Times(Whole(n, step), ratio) == n / step * step * ratio
  {
    OffsetIsPosition(step, ratio, y, i, x);
  }

  // ---------------------------------------------------------------- the loops

  method PackVector<T>(input: seq<T>, ratio: nat, step: nat, zero: T) returns (packed: seq<seq<T>>)
    requires ratio > 0 && step > 0
    ensures packed == Packed(input, ratio, step, zero)
  {
    hide Slot, Times, Whole, Position, Packed, At;
    PackedShape(input, ratio, step, zero);
    var output := new seq<T>[|input| / ratio](_ => seq(ratio, _ => zero));
    var columns := step;
    var rows := output.Length / columns;
    ghost var goal := Packed(input, ratio, step, zero);
    RowStart(columns);
    WholeRows(output.Length, columns);
    for y := 0 to rows
      invariant PackedUpTo(output[..], goal, Slot(columns, y, 0), ratio, zero)
    {
      for x := 0 to columns
        invariant PackedUpTo(output[..], goal, Slot(columns, y, x), ratio, zero)
      {
        var tmp := new T[ratio](_ => zero);
        ghost var o := Slot(columns, y, x);
        ElementAt(output.Length, columns, y, x);
        for i := 0 to ratio
          modifies tmp
          invariant forall k | 0 <= k < i :: tmp[k] == goal[o][k]
        {
          var rowOffset := Times(Times(y, columns), ratio);
          var columnOffset := x;
          var elementOffset := Times(i, columns);
          var inputOffset := rowOffset + columnOffset + elementOffset;
          OffsetIsPosition(columns, ratio, y, i, x);
          PackedPart(input, columns, ratio, o, i, zero);
          tmp[i] := input[inputOffset];
        }
        var outputOffset := Times(y, columns) + x;
        OutputOffset(columns, y, x);
        ghost var before := output[..];
        output[outputOffset] := tmp[..];
        PackedNext(before, goal, o, ratio, zero);
      }
      NextRow(columns, y);
    }
    return output[..];
  }

  lemma PackedShape<T>(input: seq<T>, ratio: nat, step: nat, zero: T)
    requires ratio > 0 && step > 0
    ensures var goal := Packed(input, ratio, step, zero);
      && |goal| == |input| / ratio
      && forall o | 0 <= o < |goal| :: |goal[o]| == ratio
           && (o >= Whole(|goal|, step) ==> goal[o] == seq(ratio, _ => zero))
  {
    hide Slot, Times, Whole, Position;
  }

  lemma PackedPart<T>(input: seq<T>, step: nat, ratio: nat, o: nat, i: nat, zero: T)
    requires step > 0 && i < ratio && o < Whole(|input| / ratio, step)
    ensures o < |input| / ratio && Position(step, ratio, o, i) < |input|
    ensures Packed(input, ratio, step, zero)[o][i] == input[Position(step, ratio, o, i)]
  {
    hide Slot, Times, Whole, Position;
    AccessInBounds(|input|, step, ratio, o, i);
  }

  ghost predicate PackedUpTo<T>(output: seq<seq<T>>, goal: seq<seq<T>>, count: nat, ratio: nat, zero: T) {
    |output| == |goal| &&
    forall o | 0 <= o < |output| :: output[o] == if o < count then goal[o] else seq(ratio, _ => zero)
  }

  lemma PackedNext<T>(before: seq<seq<T>>, goal: seq<seq<T>>, o: nat, ratio: nat, zero: T)
    requires PackedUpTo(before, goal, o, ratio, zero) && o < |goal|
    ensures |before| == |goal| && PackedUpTo(before[o := goal[o]], goal, o + 1, ratio, zero)
  {
  }

  lemma TimesStep(i: nat, c: nat)
    ensures Times(0, c) == 0 && Times(i + 1, c) == Times(i, c) + c
  {
  }

  lemma RowStart(columns: nat)
    ensures Slot(columns, 0, 0) == 0
  {
  }

  lemma NextRow(columns: nat, y: nat)
    ensures Slot(columns, y, columns) == Slot(columns, y + 1, 0)
  {
  }

  lemma WholeRows(elements: nat, columns: nat)
    requires columns > 0
    ensures Slot(columns, elements / columns, 0) == Whole(elements, columns)
  {
  }

  lemma OutputOffset(columns: nat, y: nat, x: nat)
    ensures Times(y, columns) + x == Slot(columns, y, x)
    ensures Slot(columns, y, x) + 1 == Slot(columns, y, x + 1)
  {
  }

  lemma ElementAt(elements: nat, columns: nat, y: nat, x: nat)
    requires x < columns && y < elements / columns
    ensures Slot(columns, y, x) < Whole(elements, columns) <= elements
  {
    SlotInTable(columns, elements / columns, y, x);
    WholeFits(elements, columns);
  }

  /** The offset as the source adds it up. */
  lemma OffsetIsPosition(columns: nat, ratio: nat, y: nat, i: nat, x: nat)
    requires x < columns
    ensures Times(Times(y, columns), ratio) + x + Times(i, columns)
         == Position(columns, ratio, Slot(columns, y, x), i)
  {
    SlotDigits(columns, y, x);
    TimesSwap(y, columns, ratio);
    assert Times(Times(y, ratio) + i, columns) == Times(Times(y, ratio), columns) + Times(i, columns);
  }

  method UnpackVector<T>(input: seq<seq<T>>, ratio: nat, step: nat, zero: T) returns (unpacked: seq<T>)
    requires ratio > 0 && step > 0 && forall o | 0 <= o < |input| :: |input[o]| == ratio
    ensures unpacked == Unpacked(input, ratio, step, zero)
  {
    hide Slot, Times, Whole, Position, Element, Part, Unpacked, At;
    UnpackedShape(input, ratio, step, zero);
    var output := new T[Times(|input|, ratio)](_ => zero);
    var columns := step;
    var rows := |input| / columns;
    ghost var goal := Unpacked(input, ratio, step, zero);
    RowStart(columns);
    WholeRows(|input|, columns);
    for y := 0 to rows
      invariant UnpackedUpTo(output[..], goal, columns, ratio, Slot(columns, y, 0), 0, zero)
    {
      for x := 0 to columns
        invariant UnpackedUpTo(output[..], goal, columns, ratio, Slot(columns, y, x), 0, zero)
      {
        ghost var o := Slot(columns, y, x);
        ElementAt(|input|, columns, y, x);
        var inputOffset := Times(y, columns) + x;
        OutputOffset(columns, y, x);
        var tmp := input[inputOffset];
        var outputOffset := x + Times(Times(y, columns), ratio);
        TimesStep(0, columns);
        for i := 0 to ratio
          invariant outputOffset == Times(Times(y, columns), ratio) + x + Times(i, columns)
          invariant UnpackedUpTo(output[..], goal, columns, ratio, o, i, zero)
        {
          OffsetIsPosition(columns, ratio, y, i, x);
          UnpackedPart(input, columns, ratio, o, i, zero);
          ghost var before := output[..];
          output[outputOffset] := tmp[i];
          UnpackedStep(before, output[..], goal, columns, ratio, o, i, zero);
          TimesStep(i, columns);
          outputOffset := outputOffset + columns;
        }
        NextElement(output[..], goal, columns, ratio, o, zero);
      }
      NextRow(columns, y);
    }
    Completed(output[..], goal, columns, ratio, |input|, zero);
    return output[..];
  }

  /** Elements before `o`, and the first `i` parts of it, have been written. */
  ghost predicate UnpackedUpTo<T>(output: seq<T>, goal: seq<T>, step: nat, ratio: nat, o: nat, i: nat, zero: T)
    requires step > 0 && ratio > 0
  {
    |output| == |goal| &&
    forall k: nat | k < |output| ::
      var e := Element(step, ratio, k);
      output[k] == if e < o || (e == o && Part(step, ratio, k) < i) then goal[k] else zero
  }

  lemma UnpackedShape<T>(input: seq<seq<T>>, ratio: nat, step: nat, zero: T)
    requires ratio > 0 && step > 0
    ensures var goal := Unpacked(input, ratio, step, zero);
      && |goal| == Times(|input|, ratio)
      && forall k: nat | k < |goal| && Element(step, ratio, k) >= Whole(|input|, step) :: goal[k] == zero
  {
    hide Slot, Times, Whole, Element, Part;
  }

  lemma UnpackedPart<T>(input: seq<seq<T>>, step: nat, ratio: nat, o: nat, i: nat, zero: T)
    requires step > 0 && i < ratio && o < Whole(|input|, step)
    requires forall o | 0 <= o < |input| :: |input[o]| == ratio
    ensures var k := Position(step, ratio, o, i);
      && o < |input| && k < Times(|input|, ratio)
      && Unpacked(input, ratio, step, zero)[k] == input[o][i]
  {
    hide Slot, Times, Whole, Element, Part, Position;
    WholeFits(|input|, step);
    PositionInRange(step, ratio, |input|, o, i);
    TimesMonotone(Whole(|input|, step), |input|, ratio);
    DigitsOfPosition(step, ratio, o, i);
  }

  lemma UnpackedStep<T>(before: seq<T>, after: seq<T>, goal: seq<T>, step: nat, ratio: nat, o: nat, i: nat, zero: T)
    requires step > 0 && i < ratio && UnpackedUpTo(before, goal, step, ratio, o, i, zero)
    requires Position(step, ratio, o, i) < |goal|
    requires after == before[Position(step, ratio, o, i) := goal[Position(step, ratio, o, i)]]
    ensures UnpackedUpTo(after, goal, step, ratio, o, i + 1, zero)
  {
    hide Slot, Element, Part, Position;
    var p := Position(step, ratio, o, i);
    DigitsOfPosition(step, ratio, o, i);
    forall k: nat | k < |after|
      ensures var e := Element(step, ratio, k);
        after[k] == if e < o || (e == o && Part(step, ratio, k) < i + 1) then goal[k] else zero
    {
      PositionOfDigits(step, ratio, k);
    }
  }

  lemma NextElement<T>(output: seq<T>, goal: seq<T>, step: nat, ratio: nat, o: nat, zero: T)
    requires step > 0 && ratio > 0 && UnpackedUpTo(output, goal, step, ratio, o, ratio, zero)
    ensures UnpackedUpTo(output, goal, step, ratio, o + 1, 0, zero)
  {
    hide Element, Part;
    forall k: nat { PartBound(step, ratio, k); }
  }

  lemma Completed<T>(output: seq<T>, goal: seq<T>, step: nat, ratio: nat, elements: nat, zero: T)
    requires step > 0 && ratio > 0
    requires UnpackedUpTo(output, goal, step, ratio, Whole(elements, step), 0, zero)
    requires forall k: nat | k < |goal| && Element(step, ratio, k) >= Whole(elements, step) :: goal[k] == zero
    ensures output == goal
  {
    hide Element, Part, Whole;
  }
}
