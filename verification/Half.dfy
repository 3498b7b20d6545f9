/**
  Conversion between binary16 and the wider formats (include/CL/cl_half.h), checked against
  IEEE 754-2008: section 3.4 gives the value of a bit pattern, section 4.3 the rounding directions.

  Bit patterns are natural numbers. The magnitude of a pattern is a whole number of the format's own
  smallest step, 2^-24 for binary16, 2^-149 for binary32 and 2^-1074 for binary64.
 */
module Half {
  import opened Bits

  datatype Format = Format(mant: nat, expMax: nat, signBit: nat, unit: nat)

  const HALF: Format := Format(0x400, 31, 0x8000, 24)
  const SINGLE: Format := Format(0x80_0000, 255, 0x8000_0000, 149)
  const DOUBLE: Format := Format(0x10_0000_0000_0000, 2047, 0x8000_0000_0000_0000, 1074)

  datatype Mode = RTE | RTZ | RTP | RTN

  ghost predicate IsFormat(f: Format) {
    f == HALF || f == SINGLE || f == DOUBLE
  }

  // ------------------------------------------------------------------------------------------
  // IEEE 754-2008, section 3.4: what a bit pattern stands for.

  function Sign(f: Format, x: nat): nat
    requires f.signBit > 0
  {
    x / f.signBit
  }

  function Exp(f: Format, x: nat): nat
    requires f.signBit > 0 && f.mant > 0
  {
    x % f.signBit / f.mant
  }

  function Mant(f: Format, x: nat): nat
    requires f.mant > 0
  {
    x % f.mant
  }

  ghost predicate IsPattern(f: Format, x: nat) {
    IsFormat(f) && x < 2 * f.signBit
  }

  ghost predicate IsNaN(f: Format, x: nat)
    requires IsPattern(f, x)
  {
    Exp(f, x) == f.expMax && Mant(f, x) != 0
  }

  /** Section 6.2.1: the first bit of the trailing significand, of weight 2^9 in binary16 and 2^22 in binary32. */
  ghost predicate IsQuiet(f: Format, x: nat)
    requires f == HALF || f == SINGLE
  {
    x / (if f == HALF then 0x200 else 0x40_0000) % 2 == 1
  }

  ghost predicate IsInf(f: Format, x: nat)
    requires IsPattern(f, x)
  {
    Exp(f, x) == f.expMax && Mant(f, x) == 0
  }

  ghost predicate IsFinite(f: Format, x: nat)
    requires IsPattern(f, x)
  {
    Exp(f, x) != f.expMax
  }

  /** Magnitude in steps of 2^-unit. For an infinity it is the first value past the largest finite one. */
  function Magnitude(f: Format, x: nat): nat
    requires f.signBit > 0 && f.mant > 0
  {
    if Exp(f, x) == 0 then Mant(f, x) else (f.mant + Mant(f, x)) * Pow2(Exp(f, x) - 1)
  }

  /** Magnitude of binary16 pattern `k` in steps of 2^-24 divided by `u`. */
  function Scaled(k: nat, u: nat): nat {
    Magnitude(HALF, k) * u
  }

  function Signed(negative: bool, m: int): int {
    if negative then -m else m
  }

  function HalfValue(h: nat, u: nat): int {
    Signed(Sign(HALF, h) == 1, Scaled(h % 0x8000, u))
  }

  function Abs(i: int): nat {
    if i < 0 then -i else i
  }

  // ------------------------------------------------------------------------------------------
  // IEEE 754-2008, section 4.3: the binary16 value prescribed for a finite value `v` given in the
  // same steps as `HalfValue(_, u)`.

  ghost predicate FiniteHalf(h: nat) {
    IsPattern(HALF, h) && IsFinite(HALF, h)
  }

  ghost predicate NumberHalf(h: nat) {
    IsPattern(HALF, h) && !IsNaN(HALF, h)
  }

  /** The least binary16 number, +infinity included, that is no less than `v`. */
  ghost predicate TowardPositive(v: int, u: nat, h: nat) {
    && NumberHalf(h)
    && (FiniteHalf(h) ==> HalfValue(h, u) >= v)
    && (!FiniteHalf(h) ==> Sign(HALF, h) == 0)
    && (forall g: nat :: FiniteHalf(g) && HalfValue(g, u) >= v ==> HalfValue(h, u) <= HalfValue(g, u))
  }

  /** The greatest binary16 number, -infinity included, that is no greater than `v`. */
  ghost predicate TowardNegative(v: int, u: nat, h: nat) {
    && NumberHalf(h)
    && (FiniteHalf(h) ==> HalfValue(h, u) <= v)
    && (!FiniteHalf(h) ==> Sign(HALF, h) == 1)
    && (forall g: nat :: FiniteHalf(g) && HalfValue(g, u) <= v ==> HalfValue(g, u) <= HalfValue(h, u))
  }

  /** The finite binary16 number of greatest magnitude among those no greater in magnitude than `v`. */
  ghost predicate TowardZero(v: int, u: nat, h: nat) {
    && FiniteHalf(h)
    && Abs(HalfValue(h, u)) <= Abs(v)
    && (forall g: nat :: FiniteHalf(g) && Abs(HalfValue(g, u)) <= Abs(v) ==>
          Abs(HalfValue(g, u)) <= Abs(HalfValue(h, u)))
  }

  /** No binary16 number is nearer to `v`, and a tie goes to the even pattern. An infinity counts as 2^16,
      so that every |v| of at least 65520 goes there (see NearestOverflow). */
  ghost predicate NearestEven(v: int, u: nat, h: nat) {
    && NumberHalf(h)
    && (forall g: nat :: NumberHalf(g) ==> Abs(HalfValue(h, u) - v) <= Abs(HalfValue(g, u) - v))
    && (forall g: nat :: NumberHalf(g) && Abs(HalfValue(h, u) - v) == Abs(HalfValue(g, u) - v) ==>
          HalfValue(g, u) == HalfValue(h, u) || h % 2 == 0)
  }

  ghost predicate Rounds(mode: Mode, v: int, u: nat, h: nat) {
    match mode
    case RTE => NearestEven(v, u, h)
    case RTZ => TowardZero(v, u, h)
    case RTP => TowardPositive(v, u, h)
    case RTN => TowardNegative(v, u, h)
  }

  /** Steps of `src` in one binary16 step. */
  function Unit(src: Format): nat
    requires src.unit >= 24
  {
    Pow2(src.unit - 24)
  }

  function Value(f: Format, x: nat): int
    requires f.signBit > 0 && f.mant > 0
  {
    Signed(Sign(f, x) == 1, Magnitude(f, x))
  }

  /** `h` is the binary16 pattern that source pattern `x` must convert to. A NaN keeps its sign and the top
      bits of its payload and becomes quiet; everything else keeps its sign and is rounded. */
  ghost predicate Converts(src: Format, x: nat, mode: Mode, h: nat)
    requires IsPattern(src, x)
  {
    && IsPattern(HALF, h)
    && Sign(HALF, h) == Sign(src, x)
    && (IsNaN(src, x) ==> IsNaN(HALF, h) && Mant(HALF, h) == Quiet(Mant(src, x) / (src.mant / 0x400)))
    && (IsInf(src, x) ==> IsInf(HALF, h))
    && (IsFinite(src, x) ==> Rounds(mode, Value(src, x), Unit(src), h))
  }

  /** `m | 0x200` for a ten-bit payload. */
  function Quiet(m: nat): (q: nat)
    ensures q / 0x200 % 2 == 1 && (q == m || q == m + 0x200)
  {
    if m / 0x200 % 2 == 1 then m else m + 0x200
  }

  // ------------------------------------------------------------------------------------------
  // The binary16 magnitudes are ordered like their patterns.

  lemma MagnitudeStep(k: nat)
    requires k < 0x7C00
    ensures Magnitude(HALF, k + 1) == Magnitude(HALF, k) + Pow2(if k < 0x400 then 0 else k / 0x400 - 1)
  {
    hide Pow2;
    var e, m := k / 0x400, k % 0x400;
    assert k % 0x8000 / 0x400 == e;
    assert (k + 1) % 0x8000 / 0x400 == if m == 0x3FF then e + 1 else e;
    assert (k + 1) % 0x400 == if m == 0x3FF then 0 else m + 1;
    Pow2Zero();
    if m == 0x3FF {
      if e > 0 {
        HalvePow2(e);
      }
    } else if e > 0 {
      MulDistribute(0x400 + m, 1, Pow2(e - 1));
    }
  }

  lemma {:induction false} ScaledStrict(j: nat, k: nat, u: nat)
    requires j < k <= 0x7C00 && u > 0
    ensures Scaled(j, u) < Scaled(k, u)
    decreases k - j
  {
    MagnitudeStep(k - 1);
    MulStrict(Magnitude(HALF, k - 1), Magnitude(HALF, k), u);
    if j < k - 1 {
      ScaledStrict(j, k - 1, u);
    }
  }

  lemma ScaledMonotone(j: nat, k: nat, u: nat)
    requires j <= k <= 0x7C00 && u > 0
    ensures Scaled(j, u) <= Scaled(k, u)
  {
    if j < k {
      ScaledStrict(j, k, u);
    }
  }

  lemma NumberHalfMagnitude(h: nat)
    requires IsPattern(HALF, h)
    ensures NumberHalf(h) <==> h % 0x8000 <= 0x7C00
    ensures FiniteHalf(h) <==> h % 0x8000 < 0x7C00
    ensures h == Sign(HALF, h) * 0x8000 + h % 0x8000 && Sign(HALF, h) <= 1
  {
  }

  /** Where `x` lies between patterns `k` and `k + 1`; the top interval is open. */
  ghost predicate Brackets(k: nat, x: nat, u: nat) {
    k < 0x7C00 && Scaled(k, u) <= x && (x < Scaled(k + 1, u) || k == 0x7BFF)
  }

  ghost predicate RoundsUp(mode: Mode, negative: bool, k: nat, x: nat, u: nat) {
    match mode
    case RTE =>
      2 * x > Scaled(k, u) + Scaled(k + 1, u) || (2 * x == Scaled(k, u) + Scaled(k + 1, u) && k % 2 == 1)
    case RTZ => false
    case RTP => x > Scaled(k, u) && !negative
    case RTN => x > Scaled(k, u) && negative
  }

  ghost function Rounded(mode: Mode, negative: bool, k: nat, x: nat, u: nat): nat {
    (if negative then 0x8000 else 0) + k + (if RoundsUp(mode, negative, k, x, u) then 1 else 0)
  }

  /** A pattern `g` on the far side of the bracket is no nearer, in any direction, than its ends. */
  lemma OutsideBracket(k: nat, x: nat, u: nat, g: nat)
    requires Brackets(k, x, u) && NumberHalf(g) && u > 0
    ensures var j := g % 0x8000;
            && (j <= k ==> Scaled(j, u) <= Scaled(k, u))
            && (j > k ==> Scaled(k + 1, u) <= Scaled(j, u))
            && 0 == Scaled(0, u) <= Scaled(j, u)
            && HalfValue(g, u) == Signed(Sign(HALF, g) == 1, Scaled(j, u))
  {
    NumberHalfMagnitude(g);
    var j := g % 0x8000;
    if j <= k {
      ScaledMonotone(j, k, u);
    } else {
      ScaledMonotone(k + 1, j, u);
    }
    ScaledMonotone(0, j, u);
  }

  /** The arithmetic of one comparison: `p` and `q` are the ends of the bracket around `x`, `j` is another
      magnitude, and each value carries its sign. */
  lemma Compare(mode: Mode, negative: bool, up: bool, odd: bool, p: nat, q: nat, x: nat, top: bool,
                other: bool, j: nat, beyond: bool)
    requires p < q && p <= x && (x < q || top)
    requires if beyond then j >= q else j <= p
    requires beyond && top ==> j == q
    requires up == match mode
      case RTE => 2 * x > p + q || (2 * x == p + q && odd)
      case RTZ => false
      case RTP => x > p && !negative
      case RTN => x > p && negative
    ensures
      var h, g, v := Signed(negative, if up then q else p), Signed(other, j), Signed(negative, x);
      match mode
      case RTE =>
        && Abs(h - v) <= Abs(g - v)
        && (Abs(h - v) == Abs(g - v) ==> g == h || odd == up)
      case RTZ => !(beyond && top) && Abs(g) <= Abs(v) ==> Abs(g) <= Abs(h)
      case RTP => !(beyond && top) && g >= v ==> h <= g
      case RTN => !(beyond && top) && g <= v ==> g <= h
  {
  }

  /** The single step of the proof of correct rounding: choosing an end of the bracket by `RoundsUp` is
      choosing the value IEEE 754 prescribes, in all four modes, at both ends of the range. */
  lemma RoundingRule(mode: Mode, negative: bool, k: nat, x: nat, u: nat)
    requires Brackets(k, x, u) && u > 0
    ensures var h := Rounded(mode, negative, k, x, u);
            && IsPattern(HALF, h) && (Sign(HALF, h) == 1 <==> negative)
            && Rounds(mode, Signed(negative, x), u, h)
  {
    hide Scaled;
    var up := RoundsUp(mode, negative, k, x, u);
    var h := Rounded(mode, negative, k, x, u);
    NumberHalfMagnitude(h);
    ScaledStrict(k, k + 1, u);
    assert HalfValue(h, u) == Signed(negative, Scaled(if up then k + 1 else k, u));
    assert h % 2 == 0 <==> (k % 2 == 1) == up;
    assert FiniteHalf(h) <==> !(up && k == 0x7BFF);
    forall g: nat | NumberHalf(g)
      ensures Agrees(mode, Signed(negative, x), u, h, g)
    {
      CompareWith(mode, negative, k, x, u, g);
    }
    forall g: nat | FiniteHalf(g)
      ensures NumberHalf(g) && Agrees(mode, Signed(negative, x), u, h, g)
    {
      NumberHalfMagnitude(g);
    }
  }

  ghost predicate Agrees(mode: Mode, v: int, u: nat, h: nat, g: nat)
    requires NumberHalf(g)
  {
    match mode
    case RTE =>
      && Abs(HalfValue(h, u) - v) <= Abs(HalfValue(g, u) - v)
      && (Abs(HalfValue(h, u) - v) == Abs(HalfValue(g, u) - v) ==> HalfValue(g, u) == HalfValue(h, u) || h % 2 == 0)
    case RTZ =>
      FiniteHalf(g) && Abs(HalfValue(g, u)) <= Abs(v) ==> Abs(HalfValue(g, u)) <= Abs(HalfValue(h, u))
    case RTP => FiniteHalf(g) && HalfValue(g, u) >= v ==> HalfValue(h, u) <= HalfValue(g, u)
    case RTN => FiniteHalf(g) && HalfValue(g, u) <= v ==> HalfValue(g, u) <= HalfValue(h, u)
  }

  lemma CompareWith(mode: Mode, negative: bool, k: nat, x: nat, u: nat, g: nat)
    requires Brackets(k, x, u) && u > 0 && NumberHalf(g)
    ensures Agrees(mode, Signed(negative, x), u, Rounded(mode, negative, k, x, u), g)
  {
    hide Scaled;
    var up := RoundsUp(mode, negative, k, x, u);
    var h := Rounded(mode, negative, k, x, u);
    NumberHalfMagnitude(h);
    NumberHalfMagnitude(g);
    ScaledStrict(k, k + 1, u);
    OutsideBracket(k, x, u, g);
    assert HalfValue(h, u) == Signed(negative, Scaled(if up then k + 1 else k, u));
    assert h % 2 == 0 <==> (k % 2 == 1) == up;
    Compare(mode, negative, up, k % 2 == 1, Scaled(k, u), Scaled(k + 1, u), x, k == 0x7BFF,
            Sign(HALF, g) == 1, Scaled(g % 0x8000, u), g % 0x8000 > k);
  }

  // ------------------------------------------------------------------------------------------
  // From the bits the source shifts out to a position inside a bracket.

  lemma Pow2Values()
    ensures Pow2(13) == 0x2000 && Pow2(42) == 0x400_0000_0000
  {
    Pow2Add(13, 13);
    Pow2Add(26, 13);
    Pow2Add(39, 3);
    assert Pow2(3) == 8;
    assert Pow2(13) == 0x2000;
  }

  /** Bits of `src` below the last one a normal binary16 number keeps. */
  function Dropped(src: Format): nat {
    if src == SINGLE then 13 else 42
  }

  /** Exponent field of `src` minus that of the binary16 number of the same size. */
  function Rebias(src: Format): nat {
    if src == SINGLE then 112 else 1008
  }

  lemma MulAssoc(a: int, b: int, c: int)
    ensures a * b * c == a * (b * c)
  {
  }

  lemma MulDistribute(a: int, b: int, c: int)
    ensures (a + b) * c == a * c + b * c
  {
  }

  lemma NormalPattern(he: nat, q: nat)
    requires 1 <= he <= 30 && q < 0x400
    ensures var k := he * 0x400 + q;
            && k < 0x7C00
            && Magnitude(HALF, k) == (0x400 + q) * Pow2(he - 1)
            && Magnitude(HALF, k + 1) == (0x400 + q) * Pow2(he - 1) + Pow2(he - 1)
  {
    hide Pow2;
    var k := he * 0x400 + q;
    assert k % 0x8000 / 0x400 == he && k % 0x400 == q;
    MagnitudeStep(k);
  }

  lemma UnitSplit(src: Format, e: nat)
    requires src == SINGLE || src == DOUBLE
    requires Rebias(src) < e
    ensures Pow2(e - Rebias(src) - 1) * Unit(src) == Pow2(Dropped(src)) * Pow2(e - 1)
  {
    hide Pow2;
    Pow2Add(e - Rebias(src) - 1, src.unit - 24);
    Pow2Add(Dropped(src), e - 1);
    assert e - Rebias(src) - 1 + (src.unit - 24) == Dropped(src) + (e - 1);
  }

  /** A value that becomes a normal number sits `rest` steps above pattern `k`, out of 2^Dropped. */
  lemma NormalPosition(src: Format, e: nat, m: nat)
    requires src == SINGLE || src == DOUBLE
    requires Rebias(src) < e < Rebias(src) + 31 && m < src.mant
    ensures var u, p, t := Unit(src), Pow2(Dropped(src)), Pow2(e - 1);
            var k := (e - Rebias(src)) * 0x400 + Shr(m, Dropped(src));
            && k < 0x7C00 && Shr(m, Dropped(src)) < 0x400
            && Scaled(k + 1, u) == Scaled(k, u) + p * t
            && (src.mant + m) * t == Scaled(k, u) + Low(m, Dropped(src)) * t
  {
    hide Pow2, Magnitude;
    Pow2Values();
    UnitSplit(src, e);
    var u, p, t := Unit(src), Pow2(Dropped(src)), Pow2(e - 1);
    var q := Shr(m, Dropped(src));
    ShrLow(m, Dropped(src));
    assert q < 0x400 && src.mant == 0x400 * p;
    NormalPattern(e - Rebias(src), q);
    NormalArithmetic(q, Low(m, Dropped(src)), Pow2(e - Rebias(src) - 1), u, p, t);
  }

  lemma NormalArithmetic(q: nat, rest: nat, w: nat, u: nat, p: nat, t: nat)
    requires w * u == p * t
    ensures ((0x400 + q) * w + w) * u == (0x400 + q) * w * u + p * t
    ensures (0x400 * p + (q * p + rest)) * t == (0x400 + q) * w * u + rest * t
  {
    MulAssoc(0x400 + q, w, u);
    MulAssoc(0x400 + q, p, t);
    MulDistribute((0x400 + q) * w, w, u);
    MulDistribute((0x400 + q) * p, rest, t);
    MulDistribute(0x400, q, p);
  }

  /** The same for a value that becomes denormal: `s` is the whole significand and `p` bits are dropped. */
  lemma DenormalPosition(src: Format, e: nat, s: nat, p: nat)
    requires src == SINGLE || src == DOUBLE
    requires 0 < e && p + (e - 1) == src.unit - 24 && Shr(s, p) < 0x400
    ensures var u, t := Unit(src), Pow2(e - 1);
            var k := Shr(s, p);
            && Scaled(k + 1, u) == Scaled(k, u) + Pow2(p) * t
            && s * t == Scaled(k, u) + Low(s, p) * t
  {
    hide Pow2, Magnitude;
    var u, t, k := Unit(src), Pow2(e - 1), Shr(s, p);
    Pow2Add(p, e - 1);
    DenormalPattern(k);
    ShrLow(s, p);
    DenormalArithmetic(k, Low(s, p), u, Pow2(p), t);
  }

  lemma DenormalPattern(k: nat)
    requires k < 0x400
    ensures Magnitude(HALF, k) == k && Magnitude(HALF, k + 1) == k + 1
  {
    hide Pow2;
    Pow2Zero();
    MagnitudeStep(k);
    HalfFields(k);
  }

  lemma DenormalArithmetic(k: nat, rest: nat, u: nat, p: nat, t: nat)
    requires u == p * t
    ensures (k + 1) * u == k * u + p * t && (k * p + rest) * t == k * u + rest * t
  {
    MulAssoc(k, p, t);
    MulDistribute(k * p, rest, t);
  }

  /** The test the source makes on the dropped bits `rest`, with `half` the weight of the highest of them. */
  predicate RestUp(mode: Mode, negative: bool, odd: bool, rest: nat, half: nat) {
    match mode
    case RTE => rest > half || (rest == half && odd)
    case RTZ => false
    case RTP => rest != 0 && !negative
    case RTN => rest != 0 && negative
  }

  lemma RestDecides(mode: Mode, negative: bool, k: nat, x: nat, u: nat, rest: nat, half: nat, t: nat)
    requires k < 0x7C00 && t > 0 && rest < 2 * half
    requires Scaled(k + 1, u) == Scaled(k, u) + 2 * half * t
    requires x == Scaled(k, u) + rest * t
    ensures Brackets(k, x, u)
    ensures RoundsUp(mode, negative, k, x, u) == RestUp(mode, negative, k % 2 == 1, rest, half)
  {
    hide Scaled;
    MulStrict(rest, 2 * half, t);
    MulDistribute(half, half, t);
    if rest > half {
      MulStrict(half, rest, t);
    } else if rest < half {
      MulStrict(rest, half, t);
    }
    if rest > 0 {
      MulStrict(0, rest, t);
    }
  }

  // ------------------------------------------------------------------------------------------
  // The conversions.

  function HandleOverflow(mode: Mode, sign: nat): nat {
    if mode == RTZ then sign * 0x8000 + 0x7BFF
    else if mode == RTP && sign != 0 then 0x8000 + 0x7BFF
    else if mode == RTN && sign == 0 then 0x7BFF
    else sign * 0x8000 + 0x7C00
  }

  function HandleUnderflow(mode: Mode, sign: nat): nat {
    if mode == RTP && sign == 0 then sign * 0x8000 + 1
    else if mode == RTN && sign != 0 then sign * 0x8000 + 1
    else sign * 0x8000
  }

  lemma OverflowSize(src: Format, e: nat, m: nat)
    requires src == SINGLE || src == DOUBLE
    requires Rebias(src) + 31 <= e
    ensures Scaled(0x7C00, Unit(src)) <= (src.mant + m) * Pow2(e - 1)
  {
    hide Pow2, Magnitude;
    var u, t := Unit(src), Pow2(Rebias(src) + 30);
    Pow2Values();
    assert Magnitude(HALF, 0x7C00) == 0x400 * Pow2(30) by {
      assert 0x7C00 % 0x8000 / 0x400 == 31 && 0x7C00 % 0x400 == 0;
      InfinityMagnitude();
    }
    UnitSplit(src, Rebias(src) + 31);
    MulAssoc(0x400, Pow2(30), u);
    MulAssoc(0x400, Pow2(Dropped(src)), t);
    Pow2Monotone(Rebias(src) + 30, e - 1);
    MulMonotone(t, Pow2(e - 1), src.mant);
    MulMonotone(src.mant, src.mant + m, Pow2(e - 1));
  }

  lemma InfinityMagnitude()
    ensures Magnitude(HALF, 0x7C00) == 0x400 * Pow2(30)
  {
    hide Pow2;
  }

  /** Anything from 2^16 up. */
  lemma OverflowPosition(src: Format, e: nat, m: nat, mode: Mode, sign: nat)
    requires (src == SINGLE || src == DOUBLE) && sign <= 1
    requires Rebias(src) + 31 <= e
    ensures Rounds(mode, Signed(sign == 1, (src.mant + m) * Pow2(e - 1)), Unit(src), HandleOverflow(mode, sign))
    ensures HandleOverflow(mode, sign) < 0x1_0000 && Sign(HALF, HandleOverflow(mode, sign)) == sign
  {
    hide Scaled, Pow2;
    var x, u := (src.mant + m) * Pow2(e - 1), Unit(src);
    OverflowSize(src, e, m);
    ScaledStrict(0x7BFF, 0x7C00, u);
    RoundingRule(mode, sign == 1, 0x7BFF, x, u);
  }

  /** Anything nonzero below 2^-25, half of the smallest binary16 magnitude. */
  lemma UnderflowPosition(src: Format, x: nat, mode: Mode, sign: nat)
    requires (src == SINGLE || src == DOUBLE) && sign <= 1
    requires 0 < x && 2 * x < Unit(src)
    ensures Rounds(mode, Signed(sign == 1, x), Unit(src), HandleUnderflow(mode, sign))
    ensures HandleUnderflow(mode, sign) < 0x1_0000 && Sign(HALF, HandleUnderflow(mode, sign)) == sign
  {
    assert Magnitude(HALF, 1) == 1 && Magnitude(HALF, 0) == 0;
    RoundingRule(mode, sign == 1, 0, x, Unit(src));
  }

  lemma ZeroRounds(mode: Mode, negative: bool, u: nat)
    requires u > 0
    ensures Rounds(mode, 0, u, if negative then 0x8000 else 0)
  {
    ScaledStrict(0, 1, u);
    assert Magnitude(HALF, 0) == 0;
    RoundingRule(mode, negative, 0, 0, u);
  }

  /** Below the underflow limit of the source, with a zero or nonzero exponent field. */
  lemma SmallMagnitude(src: Format, x: nat)
    requires src == SINGLE || src == DOUBLE
    requires IsPattern(src, x) && Exp(src, x) < Rebias(src) - 10
    ensures 2 * Magnitude(src, x) < Unit(src)
  {
    hide Pow2;
    var e, m := Exp(src, x), Mant(src, x);
    var d := Dropped(src);
    var t := if e == 0 then 1 else Pow2(e - 1);
    assert Magnitude(src, x) <= (src.mant + m) * t;
    Pow2Add(d + 12, Rebias(src) - 12);
    if e > 0 {
      Pow2Monotone(e - 1, Rebias(src) - 12);
    }
    SignificandSize(src);
    MulStrict(2 * (src.mant + m), Pow2(d + 12), t);
    MulMonotone(t, Pow2(Rebias(src) - 12), Pow2(d + 12));
    MulAssoc(2, src.mant + m, t);
  }

  lemma SignificandSize(src: Format)
    requires src == SINGLE || src == DOUBLE
    ensures 4 * src.mant == Pow2(Dropped(src) + 12)
  {
    Pow2Values();
    Pow2Add(Dropped(src), 12);
    assert Pow2(12) == 0x1000;
  }

  lemma DenormalSize(src: Format, s: nat, p: nat)
    requires src == SINGLE || src == DOUBLE
    requires p > Dropped(src) && s < 2 * src.mant
    ensures Shr(s, p) < 0x400
  {
    hide Pow2;
    Pow2Values();
    HalvePow2(Dropped(src) + 1);
    Pow2Monotone(Dropped(src) + 1, p);
    ShrLow(s, p);
    QuotientBound(Shr(s, p), Pow2(p), Low(s, p), 0x400);
  }

  lemma QuotientBound(q: nat, p: nat, rest: nat, c: nat)
    requires q * p + rest < c * p && p > 0
    ensures q < c
  {
  }

  // ------------------------------------------------------------------------------------------
  // From float and from double.

  /** Whether the source takes its denormal branch for exponent field `e`. */
  predicate BecomesDenormal(src: Format, e: nat) {
    e <= Rebias(src)
  }

  /** Position of the bit that becomes the last one of the binary16 mantissa. */
  function LsbPos(src: Format, e: nat): nat
    requires src.unit >= 24 && (BecomesDenormal(src, e) ==> 0 < e && e <= src.unit - 23)
  {
    if BecomesDenormal(src, e) then src.unit - 23 - e else Dropped(src)
  }

  /** The last steps of both conversions: a shifted mantissa, an optional increment, and a carry. */
  function Assemble(sign: nat, hExp: nat, hMant: nat): nat {
    sign * 0x8000 + (if hMant == 0x400 then (hExp + 1) * 0x400 else hExp * 0x400 + hMant)
  }

  /** The fields of a pattern, and the value they give when the exponent field is in the middle. */
  lemma Fields(f: Format, x: nat)
    requires IsPattern(f, x)
    ensures Mant(f, x) < f.mant && Sign(f, x) <= 1 && Exp(f, x) <= f.expMax
    ensures Exp(f, x) > 0 ==> Magnitude(f, x) == (f.mant + Mant(f, x)) * Pow2(Exp(f, x) - 1)
  {
    hide Pow2;
    if f == HALF {
    } else if f == SINGLE {
    }
  }

  lemma ConvertsFinite(src: Format, x: nat, mode: Mode, negative: bool, k: nat)
    requires (src == SINGLE || src == DOUBLE) && IsPattern(src, x) && IsFinite(src, x)
    requires Brackets(k, Magnitude(src, x), Unit(src)) && (negative <==> Sign(src, x) == 1)
    ensures Converts(src, x, mode, Rounded(mode, negative, k, Magnitude(src, x), Unit(src)))
  {
    hide Pow2, Magnitude, Exp, Mant, Rounds, Brackets, Rounded;
    Fields(src, x);
    RoundingRule(mode, negative, k, Magnitude(src, x), Unit(src));
    Fields(HALF, Rounded(mode, negative, k, Magnitude(src, x), Unit(src)));
  }

  lemma FiniteRounding(src: Format, x: nat, mode: Mode)
    requires (src == SINGLE || src == DOUBLE) && IsPattern(src, x)
    requires Rebias(src) - 10 <= Exp(src, x) < Rebias(src) + 31
    ensures
      var e, m, sign := Exp(src, x), Mant(src, x), Sign(src, x);
      var p := LsbPos(src, e);
      var s := if BecomesDenormal(src, e) then m + src.mant else m;
      var he := if BecomesDenormal(src, e) then 0 else e - Rebias(src);
      && p >= 1 && Shr(s, p) < 0x400 && Pow2(p) == 2 * Pow2(p - 1)
      && var up := RestUp(mode, sign != 0, Shr(s, p) % 2 == 1, Low(s, p), Pow2(p - 1));
         Converts(src, x, mode, Assemble(sign, he, Shr(s, p) + (if up then 1 else 0)))
  {
    hide Pow2, Shr, Low, Scaled, Magnitude, Exp, Mant, Sign, Converts, RoundsUp;
    Fields(src, x);
    var e, m, sign := Exp(src, x), Mant(src, x), Sign(src, x);
    var p := LsbPos(src, e);
    HalvePow2(p);
    if BecomesDenormal(src, e) {
      DenormalSize(src, m + src.mant, p);
      DenormalPosition(src, e, m + src.mant, p);
      ShrLow(m + src.mant, p);
      Conclude(src, x, mode, 0, Shr(m + src.mant, p), Low(m + src.mant, p), Pow2(p - 1), Pow2(e - 1));
    } else {
      NormalPosition(src, e, m);
      ShrLow(m, p);
      Conclude(src, x, mode, e - Rebias(src), Shr(m, p), Low(m, p), Pow2(p - 1), Pow2(e - 1));
    }
  }

  lemma Conclude(src: Format, x: nat, mode: Mode, he: nat, q: nat, rest: nat, half: nat, t: nat)
    requires (src == SINGLE || src == DOUBLE) && IsPattern(src, x) && IsFinite(src, x)
    requires he <= 30 && q < 0x400 && rest < 2 * half && t > 0
    requires var k := he * 0x400 + q;
             && Scaled(k + 1, Unit(src)) == Scaled(k, Unit(src)) + 2 * half * t
             && Magnitude(src, x) == Scaled(k, Unit(src)) + rest * t
    ensures var up := RestUp(mode, Sign(src, x) != 0, q % 2 == 1, rest, half);
            Converts(src, x, mode, Assemble(Sign(src, x), he, q + (if up then 1 else 0)))
  {
    hide Pow2, Scaled, Magnitude, Exp, Mant, Sign, Converts, RoundsUp, Brackets, RestUp;
    Fields(src, x);
    var k, negative := he * 0x400 + q, Sign(src, x) != 0;
    assert k % 2 == q % 2;
    RestDecides(mode, negative, k, Magnitude(src, x), Unit(src), rest, half, t);
    ConvertsFinite(src, x, mode, negative, k);
  }

  lemma HalvePow2(p: nat)
    requires p >= 1
    ensures Pow2(p) == 2 * Pow2(p - 1)
  {
  }

  method FromFloat(f: nat, mode: Mode) returns (h: nat)
    requires IsPattern(SINGLE, f)
    ensures Converts(SINGLE, f, mode, h)
    ensures IsNaN(SINGLE, f) ==> IsNaN(HALF, h) && IsQuiet(HALF, h)
  {
    hide Pow2, Shr, Low, Converts, Exp, Mant, Sign, IsQuiet;
    SingleFields(f);
    var sign := f / 0x8000_0000;
    var fExp := f / 0x80_0000 % 0x100;
    var fMant := f % 0x80_0000;
    var exp := fExp - 128 + 1;
    var hExp := (exp + 16 - 1) % 0x1_0000;
    var lsbPos := 24 - 11;
    Pow2Values();

    if fExp == 0xFF {
      if fMant != 0 {
        var hMant := Quiet(Shr(fMant, lsbPos));
        NaNConverts(SINGLE, f, mode);
        QuietResult(SINGLE, f, mode, sign * 0x8000 + 0x7C00 + hMant);
        return sign * 0x8000 + 0x7C00 + hMant;
      } else {
        InfConverts(SINGLE, f, mode);
        return sign * 0x8000 + 0x7C00;
      }
    }
    if fExp == 0 && fMant == 0 {
      ZeroConverts(SINGLE, f, mode);
      return sign * 0x8000;
    }
    if exp >= 16 {
      LargeConverts(SINGLE, f, mode);
      return HandleOverflow(mode, sign);
    }
    if exp < -13 - 11 - 1 {
      SmallConverts(SINGLE, f, mode);
      return HandleUnderflow(mode, sign);
    }
    FiniteRounding(SINGLE, f, mode);
    if exp < -14 {
      hExp := 0;
      fMant := fMant + 0x80_0000;
      lsbPos := -exp + (24 - 25);
    }

    var hMant := Shr(fMant, lsbPos);
    var halfway := Pow2(lsbPos - 1);
    var rest := Low(fMant, lsbPos);
    match mode {
      case RTE =>
        if rest > halfway {
          hMant := hMant + 1;
        } else if rest == halfway {
          if hMant % 2 == 1 {
            hMant := hMant + 1;
          }
        }
      case RTZ =>
      case RTP =>
        if rest != 0 && sign == 0 {
          hMant := hMant + 1;
        }
      case RTN =>
        if rest != 0 && sign != 0 {
          hMant := hMant + 1;
        }
    }

    if hMant / 0x400 % 2 == 1 {
      hExp := hExp + 1;
      hMant := 0;
    }
    return sign * 0x8000 + hExp * 0x400 + hMant;
  }

  method FromDouble(d: nat, mode: Mode) returns (h: nat)
    requires IsPattern(DOUBLE, d)
    ensures Converts(DOUBLE, d, mode, h)
    ensures IsNaN(DOUBLE, d) ==> IsNaN(HALF, h) && IsQuiet(HALF, h)
  {
    hide Pow2, Shr, Low, Converts, Exp, Mant, Sign, IsQuiet;
    DoubleFields(d);
    var sign := d / 0x8000_0000_0000_0000;
    var dExp := d / 0x10_0000_0000_0000 % 0x800;
    var dMant := d % 0x10_0000_0000_0000;
    var exp := dExp - 1024 + 1;
    var hExp := (exp + 16 - 1) % 0x1_0000;
    var lsbPos := 53 - 11;
    Pow2Values();

    if dExp == 0x7FF {
      if dMant != 0 {
        var hMant := Quiet(Shr(dMant, lsbPos));
        NaNConverts(DOUBLE, d, mode);
        QuietResult(DOUBLE, d, mode, sign * 0x8000 + 0x7C00 + hMant);
        return sign * 0x8000 + 0x7C00 + hMant;
      } else {
        InfConverts(DOUBLE, d, mode);
        return sign * 0x8000 + 0x7C00;
      }
    }
    if dExp == 0 && dMant == 0 {
      ZeroConverts(DOUBLE, d, mode);
      return sign * 0x8000;
    }
    if exp >= 16 {
      LargeConverts(DOUBLE, d, mode);
      return HandleOverflow(mode, sign);
    }
    if exp < -13 - 11 - 1 {
      SmallConverts(DOUBLE, d, mode);
      return HandleUnderflow(mode, sign);
    }
    FiniteRounding(DOUBLE, d, mode);
    if exp < -14 {
      hExp := 0;
      dMant := dMant + 0x10_0000_0000_0000;
      lsbPos := -exp + (53 - 25);
    }

    var hMant := Shr(dMant, lsbPos);
    var halfway := Pow2(lsbPos - 1);
    var rest := Low(dMant, lsbPos);
    match mode {
      case RTE =>
        if rest > halfway {
          hMant := hMant + 1;
        } else if rest == halfway {
          if hMant % 2 == 1 {
            hMant := hMant + 1;
          }
        }
      case RTZ =>
      case RTP =>
        if rest != 0 && sign == 0 {
          hMant := hMant + 1;
        }
      case RTN =>
        if rest != 0 && sign != 0 {
          hMant := hMant + 1;
        }
    }

    if hMant / 0x400 % 2 == 1 {
      hExp := hExp + 1;
      hMant := 0;
    }
    return sign * 0x8000 + hExp * 0x400 + hMant;
  }

  lemma SingleFields(f: nat)
    requires IsPattern(SINGLE, f)
    ensures Sign(SINGLE, f) == f / 0x8000_0000 <= 1
    ensures Exp(SINGLE, f) == f / 0x80_0000 % 0x100
    ensures Mant(SINGLE, f) == f % 0x80_0000
  {
  }

  lemma DoubleFields(d: nat)
    requires IsPattern(DOUBLE, d)
    ensures Sign(DOUBLE, d) == d / 0x8000_0000_0000_0000 <= 1
    ensures Exp(DOUBLE, d) == d / 0x10_0000_0000_0000 % 0x800
    ensures Mant(DOUBLE, d) == d % 0x10_0000_0000_0000
  {
  }

  lemma QuietPayload(sign: nat, m: nat)
    requires sign <= 1 && m < 0x400
    ensures var h := sign * 0x8000 + 0x7C00 + Quiet(m);
            && IsPattern(HALF, h) && Sign(HALF, h) == sign
            && Exp(HALF, h) == 31 && Mant(HALF, h) == Quiet(m) != 0
  {
    var q := Quiet(m);
    assert 0 < q < 0x400;
    HalfFields(sign * 0x8000 + 0x7C00 + q);
  }

  lemma NaNConverts(src: Format, x: nat, mode: Mode)
    requires (src == SINGLE || src == DOUBLE) && IsPattern(src, x) && IsNaN(src, x)
    ensures Shr(Mant(src, x), Dropped(src)) < 0x400
    ensures Converts(src, x, mode, Sign(src, x) * 0x8000 + 0x7C00 + Quiet(Shr(Mant(src, x), Dropped(src))))
  {
    hide Pow2, Rounds, Sign, Exp, Mant, Quiet;
    Pow2Values();
    Fields(src, x);
    assert Pow2(Dropped(src)) == src.mant / 0x400;
    ShrLow(Mant(src, x), Dropped(src));
    QuietPayload(Sign(src, x), Shr(Mant(src, x), Dropped(src)));
  }

  /** The bit of weight 512 makes a binary16 NaN quiet. */
  lemma QuietResult(src: Format, x: nat, mode: Mode, h: nat)
    requires (src == SINGLE || src == DOUBLE) && IsPattern(src, x) && IsNaN(src, x) && Converts(src, x, mode, h)
    ensures IsNaN(HALF, h) && IsQuiet(HALF, h)
  {
    hide Pow2, Rounds, Exp, Mant, Sign, Quiet;
    HalfFields(h);
    QuietHalf(h);
  }

  lemma QuietHalf(h: nat)
    ensures h / 0x200 % 2 == h % 0x400 / 0x200 % 2
  {
  }

  lemma QuietFloat(sign: nat, q: nat)
    requires sign <= 1 && q < 0x400 && q / 0x200 % 2 == 1
    ensures IsQuiet(SINGLE, sign * 0x8000_0000 + 0x7F80_0000 + q * 0x2000)
  {
    assert q >= 0x200;
    if sign == 0 {
      assert 0x7F80_0000 + q * 0x2000 == 0x1FF * 0x40_0000 + (q - 0x200) * 0x2000;
    } else {
      assert 0x8000_0000 + 0x7F80_0000 + q * 0x2000 == 0x3FF * 0x40_0000 + (q - 0x200) * 0x2000;
    }
  }

  lemma InfConverts(src: Format, x: nat, mode: Mode)
    requires (src == SINGLE || src == DOUBLE) && IsPattern(src, x) && IsInf(src, x)
    ensures Converts(src, x, mode, Sign(src, x) * 0x8000 + 0x7C00)
  {
    hide Pow2, Rounds;
    Fields(src, x);
  }

  lemma ZeroConverts(src: Format, x: nat, mode: Mode)
    requires (src == SINGLE || src == DOUBLE) && IsPattern(src, x) && Exp(src, x) == 0 && Mant(src, x) == 0
    ensures Converts(src, x, mode, Sign(src, x) * 0x8000)
  {
    hide Pow2, Rounds;
    ZeroRounds(mode, Sign(src, x) == 1, Unit(src));
  }

  lemma LargeConverts(src: Format, x: nat, mode: Mode)
    requires (src == SINGLE || src == DOUBLE) && IsPattern(src, x)
    requires Rebias(src) + 31 <= Exp(src, x) < src.expMax
    ensures Converts(src, x, mode, HandleOverflow(mode, Sign(src, x)))
  {
    hide Pow2, Rounds;
    OverflowPosition(src, Exp(src, x), Mant(src, x), mode, Sign(src, x));
  }

  lemma SmallConverts(src: Format, x: nat, mode: Mode)
    requires (src == SINGLE || src == DOUBLE) && IsPattern(src, x)
    requires Exp(src, x) < Rebias(src) - 10 && !(Exp(src, x) == 0 && Mant(src, x) == 0)
    ensures Converts(src, x, mode, HandleUnderflow(mode, Sign(src, x)))
  {
    hide Pow2, Rounds;
    SmallMagnitude(src, x);
    if Exp(src, x) != 0 {
      MulMonotone(1, src.mant + Mant(src, x), Pow2(Exp(src, x) - 1));
    }
    UnderflowPosition(src, Magnitude(src, x), mode, Sign(src, x));
  }

  /** `y` stands for the same datum as `x` in a wider format: same sign, NaN for NaN, infinity for
      infinity, and otherwise exactly the same value. */
  ghost predicate Widens(src: Format, x: nat, dst: Format, y: nat)
    requires IsPattern(src, x) && IsPattern(dst, y) && dst.unit >= src.unit
  {
    && Sign(dst, y) == Sign(src, x)
    && (IsNaN(dst, y) <==> IsNaN(src, x))
    && (IsInf(dst, y) <==> IsInf(src, x))
    && (IsFinite(src, x) ==> Magnitude(dst, y) == Magnitude(src, x) * Pow2(dst.unit - src.unit))
  }

  function Pack(sign: nat, fExp: nat, hMant: nat): nat {
    sign * 0x8000_0000 + fExp * 0x80_0000 + hMant * 0x2000
  }

  lemma PackFields(sign: nat, fExp: nat, hMant: nat)
    requires sign <= 1 && fExp < 0x100 && hMant < 0x400
    ensures var f := Pack(sign, fExp, hMant);
            && IsPattern(SINGLE, f)
            && Sign(SINGLE, f) == sign && Exp(SINGLE, f) == fExp && Mant(SINGLE, f) == hMant * 0x2000
  {
    SingleFields(Pack(sign, fExp, hMant));
  }

  lemma HalfFields(h: nat)
    requires IsPattern(HALF, h)
    ensures Sign(HALF, h) == h / 0x8000 <= 1
    ensures Exp(HALF, h) == h / 0x400 % 0x20
    ensures Mant(HALF, h) == h % 0x400
  {
  }

  /** The significand `m`, moved up by `s`, and the exponent field that makes up for the move. */
  lemma WidenedMagnitude(h: nat, m: nat, e: nat, s: nat)
    requires 0x400 <= m < 0x800 && s <= 10 && 1 <= e <= 30
    requires IsPattern(HALF, h) && Magnitude(HALF, h) * Pow2(s) == m * Pow2(e - 1)
    ensures Magnitude(SINGLE, Pack(Sign(HALF, h), e + 112 - s, m - 0x400)) == Magnitude(HALF, h) * Pow2(125)
  {
    hide Pow2, Exp, Mant, Sign;
    HalfFields(h);
    PackFields(Sign(HALF, h), e + 112 - s, m - 0x400);
    Pow2Values();
    var w := Magnitude(HALF, h);
    MulAssoc(m, Pow2(13), Pow2(e + 111 - s));
    Pow2Add(13, e + 111 - s);
    Pow2Add(e - 1, 125 - s);
    MulAssoc(m, Pow2(e - 1), Pow2(125 - s));
    Pow2Add(s, 125 - s);
    MulAssoc(w, Pow2(s), Pow2(125 - s));
  }

  lemma ZeroMagnitude(f: Format, x: nat)
    requires IsPattern(f, x) && Exp(f, x) == 0 && Mant(f, x) == 0
    ensures Magnitude(f, x) == 0
  {
  }

  lemma ZeroWidens(h: nat)
    requires IsPattern(HALF, h) && Exp(HALF, h) == 0 && Mant(HALF, h) == 0
    ensures var f := Pack(Sign(HALF, h), 0, 0);
            IsPattern(SINGLE, f) && Widens(HALF, h, SINGLE, f)
  {
    hide Pow2, Sign, Exp, Mant, Magnitude;
    Fields(HALF, h);
    PackFields(Sign(HALF, h), 0, 0);
    ZeroMagnitude(HALF, h);
    ZeroMagnitude(SINGLE, Pack(Sign(HALF, h), 0, 0));
    assert Magnitude(HALF, h) * Pow2(125) == 0;
  }

  lemma NormalWidens(h: nat)
    requires IsPattern(HALF, h) && 0 < Exp(HALF, h) < 31
    ensures var f := Pack(Sign(HALF, h), Exp(HALF, h) + 112, Mant(HALF, h));
            IsPattern(SINGLE, f) && Widens(HALF, h, SINGLE, f)
  {
    hide Pow2, Sign, Exp, Mant;
    HalfFields(h);
    Fields(HALF, h);
    assert Pow2(0) == 1 by { Pow2Zero(); }
    PackFields(Sign(HALF, h), Exp(HALF, h) + 112, Mant(HALF, h));
    WidenedMagnitude(h, 0x400 + Mant(HALF, h), Exp(HALF, h), 0);
  }

  lemma Pow2Zero()
    ensures Pow2(0) == 1
  {
  }

  lemma DenormalWidens(h: nat, m: nat, s: nat)
    requires IsPattern(HALF, h) && Exp(HALF, h) == 0 && Mant(HALF, h) != 0
    requires m == Mant(HALF, h) * Pow2(s) && 0x400 <= m < 0x800 && s <= 10
    ensures var f := Pack(Sign(HALF, h), 113 - s, m - 0x400);
            IsPattern(SINGLE, f) && Widens(HALF, h, SINGLE, f)
  {
    hide Pow2, Sign, Exp, Mant;
    HalfFields(h);
    assert Pow2(0) == 1 by { Pow2Zero(); }
    PackFields(Sign(HALF, h), 113 - s, m - 0x400);
    WidenedMagnitude(h, m, 1, s);
  }

  lemma SpecialWidens(h: nat, m: nat)
    requires IsPattern(HALF, h) && Exp(HALF, h) == 31 && m < 0x400 && (m == 0 <==> Mant(HALF, h) == 0)
    ensures var f := Pack(Sign(HALF, h), 0xFF, m);
            IsPattern(SINGLE, f) && Widens(HALF, h, SINGLE, f) && Mant(SINGLE, f) == m * 0x2000
  {
    hide Pow2, Sign, Exp, Mant;
    HalfFields(h);
    PackFields(Sign(HALF, h), 0xFF, m);
  }

  /** Setting the quiet bit of the payload before or after it is moved up. */
  lemma QuietBit(m: nat)
    requires 0 < m < 0x400
    ensures 0 < Quiet(m) < 0x400
    ensures Quiet(m) * 0x2000 == m * 0x2000 + if m * 0x2000 / 0x40_0000 % 2 == 0 then 0x40_0000 else 0
  {
  }

  lemma ShiftBound(m: nat, s: nat)
    requires m > 0 && m * Pow2(s) < 0x800
    ensures s <= 10
  {
    MulMonotone(1, m, Pow2(s));
    assert Pow2(11) == 0x800;
    if s > 10 {
      Pow2Monotone(11, s);
    }
  }

  /** Binary16 to binary32. The loop brings the leading bit of a denormal to the implicit position. */
  method ToFloat(h: nat) returns (f: nat)
    requires IsPattern(HALF, h)
    ensures IsPattern(SINGLE, f) && Widens(HALF, h, SINGLE, f)
    ensures IsNaN(HALF, h) ==> Mant(SINGLE, f) == Quiet(Mant(HALF, h)) * 0x2000 && IsQuiet(SINGLE, f)
  {
    hide Pow2, Sign, Exp, Mant, Widens, Quiet, IsQuiet;
    HalfFields(h);
    var sign := h / 0x8000;
    var hExp := h / 0x400 % 0x20;
    var hMant := h % 0x400;
    var exp := hExp - 16 + 1;
    var fExp := exp + 128 - 1;
    if hExp == 0x1F {
      if hMant != 0 {
        var fMant := hMant * 0x2000;
        QuietBit(hMant);
        if fMant / 0x40_0000 % 2 == 0 {
          fMant := fMant + 0x40_0000;
        }
        SpecialWidens(h, Quiet(hMant));
        QuietFloat(sign, Quiet(hMant));
        return sign * 0x8000_0000 + 0x7F80_0000 + fMant;
      } else {
        SpecialWidens(h, 0);
        return sign * 0x8000_0000 + 0x7F80_0000;
      }
    }
    if hExp == 0 {
      if hMant == 0 {
        fExp := 0;
        ZeroWidens(h);
      } else {
        var shift := 0;
        ghost var m := hMant;
        assert Pow2(0) == 1 by { Pow2Zero(); }
        while hMant / 0x400 % 2 == 0
          invariant 0 < hMant < 0x800 && 0 <= shift
          invariant hMant == m * Pow2(shift)
          decreases 0x800 - hMant
        {
          HalvePow2(shift + 1);
          MulAssoc(m, Pow2(shift), 2);
          hMant := hMant * 2;
          shift := shift + 1;
        }
        ShiftBound(m, shift);
        DenormalWidens(h, hMant, shift);
        hMant := hMant % 0x400;
        fExp := fExp - (shift - 1);
      }
    } else {
      NormalWidens(h);
    }
    return sign * 0x8000_0000 + fExp * 0x80_0000 + hMant * 0x2000;
  }

  // ------------------------------------------------------------------------------------------
  // What the two conversions promise together.

  /** Equal values of non-NaN binary16 patterns of one sign come from equal patterns. */
  lemma ValueInjective(g: nat, h: nat, u: nat)
    requires NumberHalf(g) && NumberHalf(h) && u > 0
    requires Sign(HALF, g) == Sign(HALF, h) && Abs(HalfValue(g, u)) == Abs(HalfValue(h, u))
    ensures g == h
  {
    hide Scaled;
    NumberHalfMagnitude(g);
    NumberHalfMagnitude(h);
    var j, k := g % 0x8000, h % 0x8000;
    ScaledNonNegative(j, u);
    ScaledNonNegative(k, u);
    if j < k {
      ScaledStrict(j, k, u);
    } else if k < j {
      ScaledStrict(k, j, u);
    }
  }

  lemma ScaledNonNegative(k: nat, u: nat)
    requires k <= 0x7C00 && u > 0
    ensures 0 <= Scaled(k, u) && (Scaled(k, u) == 0 <==> k == 0)
  {
    if k > 0 {
      ScaledStrict(0, k, u);
    }
  }

  /** A finite number is strictly inside the values given to the infinities. */
  lemma FiniteBound(g: nat, u: nat)
    requires FiniteHalf(g) && u > 0
    ensures 0 - Scaled(0x7C00, u) < HalfValue(g, u) < Scaled(0x7C00, u)
  {
    hide Scaled;
    NumberHalfMagnitude(g);
    ScaledStrict(g % 0x8000, 0x7C00, u);
    ScaledNonNegative(g % 0x8000, u);
  }

  lemma InfinityValue(h: nat, u: nat)
    requires NumberHalf(h) && !FiniteHalf(h)
    ensures HalfValue(h, u) == Signed(Sign(HALF, h) == 1, Scaled(0x7C00, u))
  {
    hide Scaled;
    NumberHalfMagnitude(h);
  }

  /** A pattern two or more steps away on one side has a neighbour strictly in between. */
  lemma StrictlyBetween(j: nat, k: nat, u: nat) returns (m: nat)
    requires NumberHalf(j) && NumberHalf(k) && u > 0
    requires HalfValue(j, u) < HalfValue(k, u)
    requires j % 2 == 0 && k % 2 == 0
    requires j % 0x8000 != 0 && k % 0x8000 != 0
    ensures NumberHalf(m) && HalfValue(j, u) < HalfValue(m, u) < HalfValue(k, u)
  {
    hide Scaled;
    NumberHalfMagnitude(j);
    NumberHalfMagnitude(k);
    ScaledNonNegative(j % 0x8000, u);
    ScaledNonNegative(k % 0x8000, u);
    if Sign(HALF, j) != Sign(HALF, k) {
      m := 0;
      NumberHalfMagnitude(m);
      ScaledNonNegative(0, u);
    } else {
      var lo, hi := if j < k then j else k, if j < k then k else j;
      m := lo + 1;
      NumberHalfMagnitude(m);
      ScaledStrict(lo % 0x8000, m % 0x8000, u);
      ScaledStrict(m % 0x8000, hi % 0x8000, u);
    }
  }

  /** Two nearest patterns have one value: were they different, both would be even, hence not neighbours,
      and something between them would be nearer. */
  lemma NearestUnique(v: int, u: nat, g: nat, h: nat)
    requires u > 0 && NearestEven(v, u, g) && NearestEven(v, u, h)
    ensures HalfValue(g, u) == HalfValue(h, u)
  {
    hide Scaled;
    if HalfValue(g, u) != HalfValue(h, u) {
      var j, k := if HalfValue(g, u) < HalfValue(h, u) then g else h, if HalfValue(g, u) < HalfValue(h, u) then h else g;
      var m := EvenBetween(j, k, u);
    }
  }

  lemma EvenBetween(j: nat, k: nat, u: nat) returns (m: nat)
    requires NumberHalf(j) && NumberHalf(k) && u > 0
    requires HalfValue(j, u) < HalfValue(k, u)
    requires j % 2 == 0 && k % 2 == 0
    ensures NumberHalf(m) && HalfValue(j, u) < HalfValue(m, u) < HalfValue(k, u)
  {
    hide Scaled;
    NumberHalfMagnitude(j);
    NumberHalfMagnitude(k);
    ScaledNonNegative(j % 0x8000, u);
    ScaledNonNegative(k % 0x8000, u);
    if j % 0x8000 != 0 && k % 0x8000 != 0 {
      m := StrictlyBetween(j, k, u);
    } else {
      m := if j % 0x8000 == 0 then 1 else 0x8001;
      NumberHalfMagnitude(m);
      ScaledNonNegative(1, u);
      var other := if j % 0x8000 == 0 then k % 0x8000 else j % 0x8000;
      assert other >= 2;
      ScaledStrict(1, other, u);
    }
  }

  lemma DirectedUnique(mode: Mode, v: int, u: nat, g: nat, h: nat)
    requires u > 0 && mode != RTE && Rounds(mode, v, u, g) && Rounds(mode, v, u, h)
    ensures Abs(HalfValue(g, u)) == Abs(HalfValue(h, u))
  {
    hide Scaled;
    if FiniteHalf(g) {
      FiniteBound(g, u);
    } else {
      InfinityValue(g, u);
    }
    if FiniteHalf(h) {
      FiniteBound(h, u);
    } else {
      InfinityValue(h, u);
    }
  }

  /** IEEE 754-2008 prescribes exactly one pattern, so `Converts` says everything about a result. */
  lemma RoundingUnique(src: Format, x: nat, mode: Mode, g: nat, h: nat)
    requires (src == SINGLE || src == DOUBLE) && IsPattern(src, x)
    requires Converts(src, x, mode, g) && Converts(src, x, mode, h)
    ensures g == h
  {
    hide Pow2, HalfValue, Scaled, Magnitude;
    Fields(src, x);
    HalfFields(g);
    HalfFields(h);
    var v, u := Value(src, x), Unit(src);
    if IsFinite(src, x) {
      if mode == RTE {
        NearestUnique(v, u, g, h);
      } else {
        DirectedUnique(mode, v, u, g, h);
      }
      RoundsNumber(mode, v, u, g);
      RoundsNumber(mode, v, u, h);
      ValueInjective(g, h, u);
    }
  }

  lemma RoundsNumber(mode: Mode, v: int, u: nat, h: nat)
    requires Rounds(mode, v, u, h)
    ensures NumberHalf(h)
  {
  }

  /** Order of two non-NaN patterns of one format, infinities included. */
  ghost predicate NoGreater(src: Format, x: nat, y: nat)
    requires IsPattern(src, x) && IsPattern(src, y)
  {
    && !IsNaN(src, x) && !IsNaN(src, y)
    && (IsFinite(src, x) && IsFinite(src, y) ==> Value(src, x) <= Value(src, y))
    && (IsInf(src, x) ==> Sign(src, x) == 1 || (IsInf(src, y) && Sign(src, y) == 0))
    && (IsInf(src, y) ==> Sign(src, y) == 0 || (IsInf(src, x) && Sign(src, x) == 1))
  }

  lemma NumberBound(h: nat, u: nat)
    requires NumberHalf(h) && u > 0
    ensures 0 - Scaled(0x7C00, u) <= HalfValue(h, u) <= Scaled(0x7C00, u)
    ensures !FiniteHalf(h) ==> HalfValue(h, u) == Signed(Sign(HALF, h) == 1, Scaled(0x7C00, u))
  {
    hide Scaled;
    if FiniteHalf(h) {
      FiniteBound(h, u);
    } else {
      InfinityValue(h, u);
      ScaledNonNegative(0x7C00, u);
    }
  }

  ghost predicate SignAgrees(v: int, h: nat) {
    if Sign(HALF, h) == 1 then v <= 0 else v >= 0
  }

  lemma RoundsMonotone(mode: Mode, v: int, w: int, u: nat, g: nat, h: nat)
    requires u > 0 && v <= w && Rounds(mode, v, u, g) && Rounds(mode, w, u, h)
    requires SignAgrees(v, g) && SignAgrees(w, h)
    ensures HalfValue(g, u) <= HalfValue(h, u)
  {
    hide HalfValue, Scaled;
    RoundsNumber(mode, v, u, g);
    RoundsNumber(mode, w, u, h);
    NumberBound(g, u);
    NumberBound(h, u);
    match mode {
      case RTE =>
        if HalfValue(g, u) > HalfValue(h, u) {
          NearestUnique(v, u, g, h);
        }
      case RTZ =>
        SignOfValue(g, u);
        SignOfValue(h, u);
      case RTP =>
      case RTN =>
    }
  }

  lemma SignOfValue(h: nat, u: nat)
    requires NumberHalf(h) && u > 0
    ensures if Sign(HALF, h) == 1 then HalfValue(h, u) <= 0 else HalfValue(h, u) >= 0
  {
    hide Scaled;
    NumberHalfMagnitude(h);
    ScaledNonNegative(h % 0x8000, u);
  }

  lemma InfiniteEnd(src: Format, x: nat, mode: Mode, h: nat)
    requires (src == SINGLE || src == DOUBLE) && IsPattern(src, x) && !IsNaN(src, x)
    requires Converts(src, x, mode, h)
    ensures NumberHalf(h) && (IsFinite(src, x) ==> SignAgrees(Value(src, x), h))
    ensures IsInf(src, x) ==> HalfValue(h, Unit(src)) == Signed(Sign(src, x) == 1, Scaled(0x7C00, Unit(src)))
  {
    hide Pow2, Magnitude, HalfValue, Scaled;
    Fields(src, x);
    if IsInf(src, x) {
      NumberBound(h, Unit(src));
    } else {
      RoundsNumber(mode, Value(src, x), Unit(src), h);
    }
  }

  /** A greater input never gives a smaller result. */
  lemma RoundingMonotone(src: Format, x: nat, y: nat, mode: Mode, g: nat, h: nat)
    requires (src == SINGLE || src == DOUBLE) && IsPattern(src, x) && IsPattern(src, y)
    requires NoGreater(src, x, y) && Converts(src, x, mode, g) && Converts(src, y, mode, h)
    ensures HalfValue(g, Unit(src)) <= HalfValue(h, Unit(src))
  {
    hide Pow2, Magnitude, HalfValue, Scaled, Rounds, Converts;
    InfiniteEnd(src, x, mode, g);
    InfiniteEnd(src, y, mode, h);
    NumberBound(g, Unit(src));
    NumberBound(h, Unit(src));
    if IsFinite(src, x) && IsFinite(src, y) {
      RoundsMonotone(mode, Value(src, x), Value(src, y), Unit(src), g, h) by {
        ConvertsRounds(src, x, mode, g);
        ConvertsRounds(src, y, mode, h);
      }
    }
  }

  lemma ConvertsRounds(src: Format, x: nat, mode: Mode, h: nat)
    requires (src == SINGLE || src == DOUBLE) && IsPattern(src, x) && IsFinite(src, x)
    requires Converts(src, x, mode, h)
    ensures Rounds(mode, Value(src, x), Unit(src), h)
  {
  }

  /** To nearest, the result is infinite exactly from 65520 = 2^15 * (2 - 2^-11) on, as section 4.3.1 says. */
  lemma NearestOverflow(src: Format, x: nat, h: nat)
    requires (src == SINGLE || src == DOUBLE) && IsPattern(src, x) && IsFinite(src, x)
    requires Converts(src, x, RTE, h)
    ensures IsInf(HALF, h) <==> Magnitude(src, x) >= 4095 * Pow2(28) * Unit(src)
  {
    hide Pow2, Magnitude, HalfValue, Scaled;
    var u, m := Unit(src), Magnitude(src, x);
    Fields(src, x);
    assert Scaled(0x7BFF, u) + Scaled(0x7C00, u) == 2 * (4095 * Pow2(28) * u) by {
      TopMagnitudes(u);
    }
    TopBracket(m, u, Sign(src, x) == 1, h);
  }

  lemma TopMagnitudes(u: nat)
    ensures Scaled(0x7BFF, u) == 4094 * Pow2(28) * u && Scaled(0x7C00, u) == 4096 * Pow2(28) * u
  {
    hide Pow2;
    NormalPattern(30, 0x3FF);
    HalvePow2(29);
    InfinityMagnitude();
    HalvePow2(30);
  }

  lemma TopBracket(m: nat, u: nat, negative: bool, h: nat)
    requires u > 0 && NearestEven(Signed(negative, m), u, h)
    requires Sign(HALF, h) == 1 <==> negative
    ensures FiniteHalf(h) <==> 2 * m < Scaled(0x7BFF, u) + Scaled(0x7C00, u)
  {
    hide Scaled;
    var top := if negative then 0xFBFF else 0x7BFF;
    var inf := if negative then 0xFC00 else 0x7C00;
    NumberHalfMagnitude(h);
    NumberHalfMagnitude(top);
    NumberHalfMagnitude(inf);
    ScaledStrict(0x7BFF, 0x7C00, u);
    ScaledNonNegative(h % 0x8000, u);
    if FiniteHalf(h) {
      if h % 0x8000 < 0x7BFF {
        ScaledStrict(h % 0x8000, 0x7BFF, u);
      }
      assert Abs(HalfValue(h, u) - Signed(negative, m)) <= Abs(HalfValue(inf, u) - Signed(negative, m));
    } else {
      assert Abs(HalfValue(h, u) - Signed(negative, m)) <= Abs(HalfValue(top, u) - Signed(negative, m));
    }
  }

  lemma ExactRounds(mode: Mode, h: nat, u: nat)
    requires FiniteHalf(h) && u > 0
    ensures Rounds(mode, HalfValue(h, u), u, h)
  {
    hide HalfValue;
    if mode == RTE {
      forall g: nat | NumberHalf(g) && Abs(HalfValue(g, u) - HalfValue(h, u)) == 0
        ensures HalfValue(g, u) == HalfValue(h, u)
      {
      }
    }
  }

  /** Half to float and back gives the same pattern in every mode; a NaN comes back quiet. `f` is any
      result that satisfies the contract of ToFloat, `g` any that satisfies the contract of FromFloat. */
  lemma HalfFloatHalf(h: nat, f: nat, mode: Mode, g: nat)
    requires IsPattern(HALF, h) && IsPattern(SINGLE, f) && Widens(HALF, h, SINGLE, f)
    requires IsNaN(HALF, h) ==> Mant(SINGLE, f) == Quiet(Mant(HALF, h)) * 0x2000
    requires Converts(SINGLE, f, mode, g)
    ensures g == if IsNaN(HALF, h) && h / 0x200 % 2 == 0 then h + 0x200 else h
  {
    hide Pow2, Rounds, Scaled, Magnitude, Exp, Mant, Sign;
    HalfFields(h);
    HalfFields(g);
    SingleFields(f);
    if IsFinite(HALF, h) {
      ExactRounds(mode, h, Unit(SINGLE));
      WidenedValue(h, f);
      RoundingUnique(SINGLE, f, mode, g, h);
    }
  }

  lemma SameFields(h: nat)
    requires IsPattern(HALF, h)
    ensures Exp(HALF, h % 0x8000) == Exp(HALF, h) && Mant(HALF, h % 0x8000) == Mant(HALF, h)
  {
  }

  lemma SameMagnitude(h: nat)
    requires IsPattern(HALF, h)
    ensures Magnitude(HALF, h % 0x8000) == Magnitude(HALF, h)
  {
    hide Pow2, Exp, Mant;
    SameFields(h);
  }

  lemma WidenedValue(h: nat, f: nat)
    requires IsPattern(HALF, h) && IsPattern(SINGLE, f) && Widens(HALF, h, SINGLE, f) && IsFinite(HALF, h)
    ensures Value(SINGLE, f) == HalfValue(h, Unit(SINGLE))
  {
    hide Pow2, Magnitude, Exp, Mant;
    HalfFields(h);
    SameMagnitude(h);
  }

  /** Comparisons survive a change of unit. */
  lemma ScaleCompare(a: int, b: int, c: nat)
    requires c > 0
    ensures a * c <= b * c <==> a <= b
    ensures Abs(a * c) == Abs(a) * c && Abs(a * c - b * c) == Abs(a - b) * c
  {
    if a < b {
      MulStrict(a, b, c);
    } else if b < a {
      MulStrict(b, a, c);
    }
    MulDistribute(a, -b, c);
  }

  lemma ScaledUnit(g: nat, u: nat, c: nat)
    ensures HalfValue(g, u * c) == HalfValue(g, u) * c
  {
    MulAssoc(Magnitude(HALF, g % 0x8000), u, c);
  }

  lemma ScaleOne(mode: Mode, v: int, u: nat, c: nat, h: nat, g: nat)
    requires c > 0 && NumberHalf(g) && NumberHalf(h)
    ensures Agrees(mode, v, u, h, g) <==> Agrees(mode, v * c, u * c, h, g)
    ensures HalfValue(h, u * c) >= v * c <==> HalfValue(h, u) >= v
    ensures HalfValue(h, u * c) <= v * c <==> HalfValue(h, u) <= v
    ensures Abs(HalfValue(h, u * c)) <= Abs(v * c) <==> Abs(HalfValue(h, u)) <= Abs(v)
  {
    hide HalfValue;
    ScaledUnit(g, u, c);
    ScaledUnit(h, u, c);
    var a, b := HalfValue(g, u), HalfValue(h, u);
    ScaleCompare(a, v, c);
    ScaleCompare(v, a, c);
    ScaleCompare(b, v, c);
    ScaleCompare(v, b, c);
    ScaleCompare(b, a, c);
    ScaleCompare(a, b, c);
    ScaleCompare(Abs(b - v), Abs(a - v), c);
    ScaleCompare(Abs(a - v), Abs(b - v), c);
    ScaleCompare(Abs(a), Abs(v), c);
    ScaleCompare(Abs(b), Abs(v), c);
    ScaleCompare(Abs(a), Abs(b), c);
  }

  ghost predicate Own(mode: Mode, v: int, u: nat, h: nat) {
    && NumberHalf(h)
    && (mode == RTZ ==> FiniteHalf(h) && Abs(HalfValue(h, u)) <= Abs(v))
    && (mode == RTP ==> if FiniteHalf(h) then HalfValue(h, u) >= v else Sign(HALF, h) == 0)
    && (mode == RTN ==> if FiniteHalf(h) then HalfValue(h, u) <= v else Sign(HALF, h) == 1)
  }

  lemma RoundsPointwise(mode: Mode, v: int, u: nat, h: nat)
    ensures Rounds(mode, v, u, h) <==>
      Own(mode, v, u, h) && forall g: nat :: NumberHalf(g) ==> Agrees(mode, v, u, h, g)
  {
    hide HalfValue;
    forall g: nat | FiniteHalf(g)
      ensures NumberHalf(g)
    {
    }
  }

  lemma ScaleRounds(mode: Mode, v: int, u: nat, c: nat, h: nat)
    requires c > 0
    ensures Rounds(mode, v, u, h) <==> Rounds(mode, v * c, u * c, h)
  {
    hide HalfValue, Rounds, Agrees;
    RoundsPointwise(mode, v, u, h);
    RoundsPointwise(mode, v * c, u * c, h);
    if NumberHalf(h) {
      ScaleOne(mode, v, u, c, h, h);
      forall g: nat | NumberHalf(g)
        ensures Agrees(mode, v, u, h, g) <==> Agrees(mode, v * c, u * c, h, g)
      {
        ScaleOne(mode, v, u, c, h, g);
      }
    }
  }

  /** A float and any exact binary64 counterpart of it convert to the same pattern. */
  lemma WideningAgrees(f: nat, d: nat, mode: Mode, h: nat)
    requires IsPattern(SINGLE, f) && IsPattern(DOUBLE, d) && !IsNaN(SINGLE, f)
    requires Widens(SINGLE, f, DOUBLE, d)
    ensures Converts(SINGLE, f, mode, h) <==> Converts(DOUBLE, d, mode, h)
  {
    hide Pow2, Rounds, Magnitude;
    SingleFields(f);
    DoubleFields(d);
    Pow2Add(125, 925);
    if IsFinite(SINGLE, f) {
      ScaleRounds(mode, Value(SINGLE, f), Unit(SINGLE), Pow2(925), h);
      NegateProduct(Magnitude(SINGLE, f), Pow2(925));
    }
  }

  lemma NegateProduct(a: int, c: int)
    ensures (-a) * c == -(a * c)
  {
  }

  // ------------------------------------------------------------------------------------------
  // Binary32 to binary64: every float has such a counterpart.

  function Wide(sign: nat, e: nat, m: nat): nat {
    sign * 0x8000_0000_0000_0000 + e * 0x10_0000_0000_0000 + m * 0x2000_0000
  }

  lemma WideFields(sign: nat, e: nat, m: nat)
    requires sign <= 1 && e <= 2047 && m < 0x80_0000
    ensures var d := Wide(sign, e, m);
            && IsPattern(DOUBLE, d)
            && Sign(DOUBLE, d) == sign && Exp(DOUBLE, d) == e && Mant(DOUBLE, d) == m * 0x2000_0000
  {
    var d := Wide(sign, e, m);
    DoubleFields(d);
    WideSplit(sign * 0x800 + e, m);
    assert d == (sign * 0x800 + e) * 0x10_0000_0000_0000 + m * 0x2000_0000;
    assert d / 0x8000_0000_0000_0000 == sign;
  }

  lemma WideSplit(q: nat, m: nat)
    requires m < 0x80_0000
    ensures var d := q * 0x10_0000_0000_0000 + m * 0x2000_0000;
            d / 0x10_0000_0000_0000 == q && d % 0x10_0000_0000_0000 == m * 0x2000_0000
  {
  }

  /** How far the leading bit of a binary32 denormal is from the implicit position. */
  function Leading(m: nat): (s: nat)
    requires 0 < m < 0x100_0000
    ensures 0x80_0000 <= m * Pow2(s) < 0x100_0000 && s <= 23
    decreases 0x100_0000 - m
  {
    if m >= 0x80_0000 then
      0
    else
      var s := 1 + Leading(2 * m);
      LeadingStep(m, s);
      s
  }

  lemma LeadingStep(m: nat, s: nat)
    requires 0 < m && s > 0 && 2 * m * Pow2(s - 1) < 0x100_0000
    ensures m * Pow2(s) == 2 * m * Pow2(s - 1) && s <= 23
  {
    HalvePow2(s);
    MulAssoc(m, 2, Pow2(s - 1));
    MulMonotone(1, m, Pow2(s));
    Pow2Add(11, 12);
    Pow2Add(23, 1);
    assert Pow2(11) == 0x800 && Pow2(12) == 0x1000 && Pow2(1) == 2;
    if s > 23 {
      Pow2Monotone(24, s);
    }
  }

  /** The significand `n`, moved up by `s`, and the exponent field that makes up for the move. */
  lemma WideMagnitude(sign: nat, m: nat, n: nat, e: nat, s: nat)
    requires sign <= 1 && 0x80_0000 <= n < 0x100_0000 && s <= 23 && 1 <= e <= 254
    requires m * Pow2(s) == n * Pow2(e - 1)
    ensures Magnitude(DOUBLE, Wide(sign, e + 896 - s, n - 0x80_0000)) == m * Pow2(925)
  {
    hide Pow2, Exp, Mant, Sign, Magnitude, Wide;
    WideFields(sign, e + 896 - s, n - 0x80_0000);
    Fields(DOUBLE, Wide(sign, e + 896 - s, n - 0x80_0000));
    var t := Pow2(e + 895 - s);
    Pow2Add(29, e + 895 - s);
    Pow2Add(e - 1, 925 - s);
    Pow2Add(s, 925 - s);
    assert Pow2(29) == 0x2000_0000 by {
      Pow2Values();
      Pow2Add(29, 13);
    }
    WideProduct(m, n, Pow2(s), Pow2(e - 1), Pow2(925 - s), t);
    assert 0x10_0000_0000_0000 + (n - 0x80_0000) * 0x2000_0000 == n * 0x2000_0000;
  }

  lemma WideProduct(m: nat, n: nat, a: nat, b: nat, c: nat, t: nat)
    requires m * a == n * b && b * c == 0x2000_0000 * t
    ensures n * 0x2000_0000 * t == m * (a * c)
  {
    MulAssoc(m, a, c);
    MulAssoc(n, b, c);
    MulAssoc(n, 0x2000_0000, t);
  }

  /** The binary64 pattern of a binary32 one: a denormal becomes normal, a NaN keeps its payload. */
  function Widened(f: nat): (d: nat)
    requires IsPattern(SINGLE, f)
    ensures IsPattern(DOUBLE, d) && Widens(SINGLE, f, DOUBLE, d)
    ensures IsNaN(SINGLE, f) ==> Mant(DOUBLE, d) == Mant(SINGLE, f) * 0x2000_0000
  {
    hide Sign, Exp, Mant, Magnitude, Widens, WideOf;
    Fields(SINGLE, f);
    WidenedWidens(f);
    WideOf(Sign(SINGLE, f), Exp(SINGLE, f), Mant(SINGLE, f))
  }

  function WideOf(sign: nat, e: nat, m: nat): nat
    requires m < 0x80_0000
  {
    if e == 255 then Wide(sign, 2047, m)
    else if e > 0 then Wide(sign, e + 896, m)
    else if m == 0 then Wide(sign, 0, 0)
    else Wide(sign, 897 - Leading(m), m * Pow2(Leading(m)) - 0x80_0000)
  }

  lemma WidenedWidens(f: nat)
    requires IsPattern(SINGLE, f)
    ensures Mant(SINGLE, f) < 0x80_0000
    ensures var d := WideOf(Sign(SINGLE, f), Exp(SINGLE, f), Mant(SINGLE, f));
            && IsPattern(DOUBLE, d) && Widens(SINGLE, f, DOUBLE, d)
            && (IsNaN(SINGLE, f) ==> Mant(DOUBLE, d) == Mant(SINGLE, f) * 0x2000_0000)
  {
    hide Pow2, Sign, Exp, Mant, Wide;
    var sign, e, m := Sign(SINGLE, f), Exp(SINGLE, f), Mant(SINGLE, f);
    SingleFields(f);
    Fields(SINGLE, f);
    if e == 255 {
      WideFields(sign, 2047, m);
    } else if e > 0 {
      WideFields(sign, e + 896, m);
      MulAssoc(0x80_0000 + m, Pow2(e - 1), 1);
      assert Pow2(0) == 1 by { Pow2Zero(); }
      WideMagnitude(sign, Magnitude(SINGLE, f), 0x80_0000 + m, e, 0);
    } else if m == 0 {
      WideFields(sign, 0, 0);
      assert Magnitude(SINGLE, f) * Pow2(925) == 0;
    } else {
      var s := Leading(m);
      assert Pow2(0) == 1 by { Pow2Zero(); }
      WideFields(sign, 897 - s, m * Pow2(s) - 0x80_0000);
      WideMagnitude(sign, m, m * Pow2(s), 1, s);
    }
  }

  /** Going through binary64 changes nothing, for any float whatever: a NaN and a denormal included. */
  lemma WidenedAgrees(f: nat, mode: Mode, h: nat)
    requires IsPattern(SINGLE, f)
    ensures Converts(SINGLE, f, mode, h) <==> Converts(DOUBLE, Widened(f), mode, h)
  {
    hide Pow2, Rounds, Magnitude;
    var d := Widened(f);
    SingleFields(f);
    DoubleFields(d);
    if IsNaN(SINGLE, f) {
      assert Mant(DOUBLE, d) / (DOUBLE.mant / 0x400) == Mant(SINGLE, f) / (SINGLE.mant / 0x400);
    } else {
      WideningAgrees(f, d, mode, h);
    }
  }
}
