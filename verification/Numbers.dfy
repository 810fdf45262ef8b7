/** The numbers of the three formats, as the templates over the result type see them. */
module Numbers {
  import opened Bits
  import opened BinaryFormat
  import opened UlpDistance
  import F = Float32
  import H = HalfFormat
  import HR = HalfRounding
  import HN = HalfNextAfter
  import B = Bfloat16Format
  import BN = Bfloat16NextAfter
  import T = TfloatFormat
  import TN = TfloatNextAfter

  datatype Number = OfHalf(half: H.Half) | OfBfloat16(bfloat16: B.Bfloat16) | OfTfloat(tfloat: T.Tfloat) {

    function Lim(): Limits {
      match this case OfHalf(_) => HALF case OfBfloat16(_) => BFLOAT16 case OfTfloat(_) => TFLOAT
    }

    function ToFloat(): U32 {
      match this case OfHalf(h) => h.ToFloat() case OfBfloat16(b) => b.ToFloat() case OfTfloat(t) => t.ToFloat()
    }

    predicate IsNaN() {
      match this case OfHalf(h) => HN.IsNaN(h) case OfBfloat16(b) => B.IsNaN(b) case OfTfloat(t) => T.IsNaN(t)
    }

    /** Every pattern of half and bfloat16, and the tf32 patterns. */
    predicate Encoded() { OfTfloat? ==> TN.IsPattern(tfloat) }

    /** The magnitude pattern in the format. */
    function Code(): nat {
      match this
      case OfHalf(h) => Magnitude16(h.data)
      case OfBfloat16(b) => Magnitude16(b.data)
      case OfTfloat(t) => F.Magnitude(t.data) / T.LAST_BIT
    }

    predicate Negative() {
      match this
      case OfHalf(h) => h.data >= H.SIGN
      case OfBfloat16(b) => b.data >= B.SIGN
      case OfTfloat(t) => F.Negative(t.data)
    }
  }

  /** operator== */
  predicate Equal(a: Number, b: Number)
    requires a.Lim() == b.Lim()
  {
    match a
    case OfHalf(h) => HN.Equal(h, b.half)
    case OfBfloat16(f) => BN.Equal(f, b.bfloat16)
    case OfTfloat(t) => TN.Equal(t, b.tfloat)
  }

  /** static_cast of a float to the format. */
  function Converted(lim: Limits, mode: Mode, v: U32): (r: Number)
    requires lim.OfFormat()
    ensures r.Lim() == lim
  {
    if lim == HALF then OfHalf(HR.Convert(mode, v))
    else if lim == BFLOAT16 then OfBfloat16(B.Bfloat16(B.NarrowBits(v)))
    else OfTfloat(T.Tfloat(T.NarrowBits(v)))
  }

  method Convert(like: Number, v: U32, mode: Mode) returns (r: Number)
    ensures r == Converted(like.Lim(), mode, v)
  {
    hide H.HalfBits, B.NarrowBits, T.NarrowBits;
    match like {
      case OfHalf(_) =>
        var h := H.Half.FromFloat(v, mode);
        r := OfHalf(h);
      case OfBfloat16(_) =>
        var b := B.Bfloat16.FromFloat(v);
        r := OfBfloat16(b);
      case OfTfloat(_) =>
        var t := T.Tfloat.FromFloat(v);
        r := OfTfloat(t);
    }
  }

  /** The number of a format with a given sign and magnitude pattern. */
  function FromCode(lim: Limits, negative: bool, c: nat): Number
    requires lim.OfFormat() && c <= lim.Top()
  {
    TopTable(lim);
    if lim == HALF then OfHalf(H.Half(c + if negative then H.SIGN else 0))
    else if lim == BFLOAT16 then OfBfloat16(B.Bfloat16(c + if negative then B.SIGN else 0))
    else OfTfloat(T.Tfloat(T.LAST_BIT * c + if negative then F.SIGN else 0))
  }

  lemma FromCodeHas(lim: Limits, negative: bool, c: nat)
    requires lim.OfFormat() && c <= lim.Top()
    ensures var n := FromCode(lim, negative, c);
      n.Lim() == lim && n.Encoded() && n.Code() == c && n.Negative() == negative
  {
    hide Lsh;
    TopTable(lim);
  }

  /** What a number is as a float, in terms of its pattern. */
  lemma AsFloat(n: Number)
    requires n.Encoded()
    ensures n.Lim().OfFormat()
    ensures n.IsNaN() <==> F.IsNaN(n.ToFloat())
    ensures n.IsNaN() <==> n.Code() > n.Lim().Top()
    ensures F.Magnitude(n.ToFloat()) == F.INFINITY <==> n.Code() == n.Lim().Top()
    ensures F.Negative(n.ToFloat()) <==> n.Negative()
    ensures n.Code() < n.Lim().Top() ==> F.Abs(n.ToFloat()) == n.Lim().Point(n.Code())
  {
    hide Lsh, Mag, And, H.WideMagnitude;
    TopTable(n.Lim());
    match n {
      case OfHalf(h) =>
        HN.NaNTest(h);
        HR.WideNaN(n.Code());
        if n.Code() < H.INFINITY { HR.AbsOf(n.Code()); }
      case OfBfloat16(b) =>
        B.WideValue(n.Code());
      case OfTfloat(t) =>
        T.WideValue(n.Code());
    }
  }

  lemma EqualIsFloatEqual(a: Number, b: Number)
    requires a.Lim() == b.Lim()
    ensures Equal(a, b) <==> F.Equal(a.ToFloat(), b.ToFloat())
  {
    hide F.Equal;
  }

  /** Numbers are equal when their patterns and signs are, and as zeros. */
  lemma EqualCodes(a: Number, b: Number)
    requires a.Lim() == b.Lim() && a.Encoded() && b.Encoded()
    ensures Equal(a, b) <==> !a.IsNaN() && !b.IsNaN() && a.Code() == b.Code() && (a.Code() == 0 || a.Negative() == b.Negative())
  {
    hide Lsh, Mag, Number.IsNaN, Number.Code, Number.ToFloat, Number.Negative;
    var lim := a.Lim();
    EqualIsFloatEqual(a, b);
    hide Equal;
    AsFloat(a);
    AsFloat(b);
    TopTable(lim);
    PointZero(lim);
    PointOrder(lim, 0, a.Code());
    PointOrder(lim, 0, b.Code());
    PointOrder(lim, a.Code(), b.Code());
    MagOrder(23, F.Magnitude(a.ToFloat()), F.Magnitude(b.ToFloat()));
    MagOrder(23, 0, F.INFINITY);
  }

  /** `n` is the roundTiesToEven number of its format for `v`, up to the sign of a zero. */
  ghost predicate IsNearest(n: Number, v: U32) {
    var lim, c := n.Lim(), n.Code();
    && IsNearestEven(lim.P(), lim.Top(), lim.J(), F.Abs(v), c)
    && (c == 0 || n.Negative() == F.Negative(v))
  }

  /** What the conversions give, in one form for the three formats. */
  lemma ConvertedIsNearest(lim: Limits, v: U32)
    requires lim.OfFormat()
    ensures var r := Converted(lim, ToNearest, v);
      && r.Encoded()
      && (r.IsNaN() <==> F.IsNaN(v))
      && (!F.IsNaN(v) ==> IsNearest(r, v) && r.Negative() == F.Negative(v))
  {
    hide Lsh, Mag, And, IsNearestEven, H.HalfMagnitude, B.NarrowMagnitude, T.NarrowMagnitude;
    TopTable(lim);
    if lim == HALF {
      H.HalfMagnitudeBounds(ToNearest, F.Negative(v), F.Magnitude(v));
      HN.NaNTest(HR.Convert(ToNearest, v));
      if !F.IsNaN(v) { HR.NearestIsCorrect(v); }
    } else if lim == BFLOAT16 {
      B.NaNKept(v);
      if !F.IsNaN(v) { B.NearestIsCorrect(v); }
    } else {
      T.NaNKept(v);
      T.Idempotent(v);
      if !F.IsNaN(v) { T.NearestIsCorrect(v); }
    }
  }

  lemma EqualIffNearest(n: Number, v: U32)
    requires n.Encoded()
    ensures Equal(n, Converted(n.Lim(), ToNearest, v)) <==> !F.IsNaN(v) && !n.IsNaN() && IsNearest(n, v)
  {
    hide Lsh, Mag, IsNearestEven, Number.IsNaN, Number.Code, Number.ToFloat, Number.Negative, Equal, Converted;
    var lim := n.Lim();
    var r := Converted(lim, ToNearest, v);
    ConvertedIsNearest(lim, v);
    EqualCodes(n, r);
    if !F.IsNaN(v) && IsNearest(n, v) {
      NearestEvenUnique(lim.P(), lim.Top(), lim.J(), F.Abs(v), n.Code(), r.Code());
    }
  }
}
