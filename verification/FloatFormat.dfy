/**
 * IEEE 754 single precision as bit patterns, and what rounding toward zero means for them.  Values
 * are integers: a mantissa m with biased exponent e stands for m * 2^(e-150) and is kept as
 * m * Weight(e), that is, scaled by 2^300.
 */
module FloatFormat {
  import opened Arith
  import opened CInt

  type float32 = x: int | 0 <= x < 0x1_0000_0000

  function Fraction(x: float32): nat {
    x % 0x80_0000
  }

  function Exponent(x: float32): nat {
    x / 0x80_0000 % 0x100
  }

  function Sign(x: float32): bool {
    x / 0x8000_0000 == 1
  }

  /** The fraction with its hidden bit */
  function Mantissa(x: float32): nat {
    if Exponent(x) != 0 then Fraction(x) + 0x80_0000 else Fraction(x)
  }

  predicate Zero(x: float32) {
    Exponent(x) == 0 && Fraction(x) == 0
  }

  predicate Normal(x: float32) {
    Exponent(x) != 0 && Exponent(x) != 255
  }

  predicate ZeroOrNormal(x: float32) {
    Zero(x) || Normal(x)
  }

  /** The three bit fields put together: each keeps only the bits that fit. */
  function Compress(mant: nat, exp: int, sign: bool): float32 {
    mant % 0x80_0000 + exp % 0x100 * 0x80_0000 + (if sign then 0x8000_0000 else 0)
  }

  lemma CompressFields(mant: nat, exp: int, sign: bool)
    ensures var x := Compress(mant, exp, sign);
      Fraction(x) == mant % 0x80_0000 && Exponent(x) == exp % 0x100 && Sign(x) == sign
  {
  }

  lemma MantissaRange(x: float32)
    requires ZeroOrNormal(x)
    ensures Mantissa(x) == 0 <==> Zero(x)
    ensures !Zero(x) ==> 0x80_0000 <= Mantissa(x) < 0x100_0000 && 1 <= Exponent(x) <= 254
  {
  }

  function Weight(exp: int): (w: nat)
    requires exp >= -150
    ensures w > 0
  {
    Pow(2, exp + 150)
  }

  lemma WeightShift(exp: int, n: nat)
    requires exp >= -150
    ensures Weight(exp + n) == Pow(2, n) * Weight(exp)
  {
    PowSum(2, n, exp + 150);
  }

  function Signed(negative: bool, n: int): int {
    if negative then -n else n
  }

  /** The number a bit pattern stands for */
  function Exact(x: float32): int {
    Signed(Sign(x), Mantissa(x) * Weight(Exponent(x)))
  }

  /** Numbers everyone knows: 1, 2, -1/2, 3/2, the least normal number 2^-126, the largest one and the
      zeros. The scale is 2^300. */
  lemma KnownValues(e: nat)
    requires e == 300
    ensures Exact(0x3F80_0000) == Pow(2, e) && Exact(0x4000_0000) == 2 * Pow(2, e)
    ensures 2 * Exact(0xBF00_0000) + Pow(2, e) == 0 && 2 * Exact(0x3FC0_0000) == 3 * Pow(2, e)
    ensures Exact(0x0080_0000) == Pow(2, e - 126) && Exact(0x7F7F_FFFF) == 0xFF_FFFF * Pow(2, e + 104)
    ensures Exact(0x8000_0000) == 0 == Exact(0)
    ensures MinNormal() == Pow(2, e - 126) && Overflow() == Pow(2, e + 128) == 0x100_0000 * Pow(2, e + 104)
  {
    KnownFields();
    hide Sign, Mantissa, Exponent, Pow;
    SmallPowers();
    PowSum(2, 23, e - 23);
    PowSum(2, 23, e - 22);
    PowSum(2, 23, e - 24);
    PowSum(2, 23, e - 149);
    PowNext(e);
    PowNext(e - 1);
    PowNext(e - 24);
    PowSum(2, 24, e + 104);
  }

  lemma KnownFields()
    ensures Mantissa(0x3F80_0000) == 0x80_0000 && Exponent(0x3F80_0000) == 127 && !Sign(0x3F80_0000)
    ensures Mantissa(0x4000_0000) == 0x80_0000 && Exponent(0x4000_0000) == 128 && !Sign(0x4000_0000)
    ensures Mantissa(0xBF00_0000) == 0x80_0000 && Exponent(0xBF00_0000) == 126 && Sign(0xBF00_0000)
    ensures Mantissa(0x3FC0_0000) == 0xC0_0000 && Exponent(0x3FC0_0000) == 127 && !Sign(0x3FC0_0000)
    ensures Mantissa(0x0080_0000) == 0x80_0000 && Exponent(0x0080_0000) == 1 && !Sign(0x0080_0000)
    ensures Mantissa(0x7F7F_FFFF) == 0xFF_FFFF && Exponent(0x7F7F_FFFF) == 254 && !Sign(0x7F7F_FFFF)
    ensures Mantissa(0x8000_0000) == 0 == Mantissa(0)
  {
  }

  /** The least normal magnitude is 2^-126; magnitudes from 2^128 on overflow. */
  function MinNormal(): nat {
    Pow(2, 174)
  }

  function Overflow(): nat {
    Pow(2, 428)
  }

  /**
   * r is X rounded toward zero (IEEE 754-2008, section 4.3.2) with results below the normal range
   * flushed to zero.
   */
  ghost predicate Truncates(r: float32, X: int) {
    if Abs(X) < MinNormal() then
      Zero(r)
    else
      && Normal(r)
      && Sign(r) == (X < 0)
      && Mantissa(r) * Weight(Exponent(r)) <= Abs(X) < (Mantissa(r) + 1) * Weight(Exponent(r))
  }

  /** Comparing powers of two compares exponents. */
  lemma PowOrder(e: nat, f: nat, v: nat)
    requires Pow(2, e) <= v < Pow(2, f)
    ensures e < f
  {
    if f <= e {
      PowMonotone(2, f, e);
    }
  }

  lemma PowNext(e: nat)
    ensures Pow(2, e + 1) == 2 * Pow(2, e)
  {
  }

  lemma PowFour()
    ensures Pow(2, 4) == 16
  {
  }

  lemma SmallPowers()
    ensures Pow(2, 23) == 0x80_0000 && Pow(2, 24) == 0x100_0000 && Pow(2, 46) == 0x4000_0000_0000
    ensures Pow(2, 47) == 0x8000_0000_0000 && Pow(2, 48) == 0x1_0000_0000_0000
    ensures Pow(2, 64) == 0x1_0000_0000_0000_0000
  {
    hide Pow;
    PowNext(23);
    PowNext(46);
    PowNext(47);
    PowFour();
    PowSum(2, 4, 4);
    PowSum(2, 8, 8);
    PowSum(2, 16, 8);
    PowSum(2, 16, 16);
    PowSum(2, 32, 16);
    PowSum(2, 32, 32);
  }

  /** A nonzero number in the normal range has one binade, hence one truncation. */
  lemma TruncatesUnique(r: float32, r': float32, X: int)
    requires Abs(X) >= MinNormal() && Truncates(r, X) && Truncates(r', X)
    ensures r == r'
  {
    SameBinade(Mantissa(r), Exponent(r), Mantissa(r'), Exponent(r'), Abs(X));
    SameBinade(Mantissa(r'), Exponent(r'), Mantissa(r), Exponent(r), Abs(X));
    var w := Weight(Exponent(r));
    SameStep(Mantissa(r), Mantissa(r'), w, Abs(X));
    FieldsDetermine(r, r');
  }

  lemma SameBinade(m: nat, e: nat, m': nat, e': nat, v: nat)
    requires 0x80_0000 <= m && m' < 0x100_0000
    requires m * Weight(e) <= v < (m' + 1) * Weight(e')
    ensures e <= e'
  {
    SmallPowers();
    TimesMonotone(Weight(e), Pow(2, 23), m);
    TimesMonotone(Weight(e'), m' + 1, Pow(2, 24));
    PowSum(2, 23, e + 150);
    PowSum(2, 24, e' + 150);
    PowOrder(e + 173, e' + 174, v);
  }

  lemma SameStep(m: int, m': int, w: nat, v: int)
    requires w > 0 && m * w <= v < (m + 1) * w && m' * w <= v < (m' + 1) * w
    ensures m == m'
  {
    if m < m' {
      TimesMonotone(w, m + 1, m');
    } else if m' < m {
      TimesMonotone(w, m' + 1, m);
    }
  }

  lemma FieldsDetermine(r: float32, r': float32)
    requires Fraction(r) == Fraction(r') && Exponent(r) == Exponent(r') && Sign(r) == Sign(r')
    ensures r == r'
  {
    assert r == Fraction(r) + Exponent(r) * 0x80_0000 + r / 0x8000_0000 * 0x8000_0000;
    assert r' == Fraction(r') + Exponent(r') * 0x80_0000 + r' / 0x8000_0000 * 0x8000_0000;
  }

  // ----- leading bit and normalization -----

  /** The place of the leading one of m */
  function Top(m: nat): nat
    requires m > 0
  {
    if m == 1 then 0 else 1 + Top(m / 2)
  }

  lemma {:induction false} TopBounds(m: nat)
    requires m > 0
    ensures Pow(2, Top(m)) <= m < Pow(2, Top(m) + 1)
  {
    if m > 1 {
      TopBounds(m / 2);
      assert Pow(2, Top(m) + 1) == 2 * Pow(2, Top(m));
    } else {
      assert Pow(2, 1) == 2 * Pow(2, 0) == 2;
    }
  }

  lemma TopIs(m: nat, t: nat)
    requires m > 0 && Pow(2, t) <= m < Pow(2, t + 1)
    ensures Top(m) == t
  {
    TopBounds(m);
    PowOrder(t, Top(m) + 1, m);
    PowOrder(Top(m), t + 1, m);
  }

  /** What normalize23 leaves in the mantissa and the exponent. */
  function NormalMant(mant: nat, exp: int): nat {
    if mant == 0 || exp + Top(mant) - 23 <= 0 then
      0
    else if Top(mant) > 23 then
      mant / Pow(2, Top(mant) - 23)
    else
      mant * Pow(2, 23 - Top(mant)) % 0x1_0000_0000_0000_0000
  }

  function NormalExp(mant: nat, exp: int): int {
    if mant == 0 || exp + Top(mant) - 23 <= 0 then 0 else exp + Top(mant) - 23
  }

  function Packed(mant: nat, exp: int, sign: bool): float32 {
    Compress(NormalMant(mant, exp), NormalExp(mant, exp), sign)
  }

  lemma PackedZero(mant: nat, exp: int, sign: bool)
    requires mant == 0 || exp + Top(mant) - 23 <= 0
    ensures Zero(Packed(mant, exp, sign))
  {
  }

  lemma NormalMantRange(mant: nat, exp: int)
    requires mant > 0 && exp + Top(mant) - 23 > 0
    ensures 0x80_0000 <= NormalMant(mant, exp) < 0x100_0000
    ensures Top(mant) <= 23 ==> NormalMant(mant, exp) == mant * Pow(2, 23 - Top(mant))
  {
    hide Top, Pow;
    var t := Top(mant);
    TopBounds(mant);
    SmallPowers();
    if t > 23 {
      PowSum(2, t - 23, 23);
      PowSum(2, t - 23, 24);
      Between(mant, Pow(2, t - 23), 0x80_0000, 0x100_0000);
    } else {
      PowSum(2, 23 - t, t);
      PowSum(2, 23 - t, t + 1);
      Lift(mant, Pow(2, 23 - t), Pow(2, t), Pow(2, t + 1));
    }
  }

  lemma Lift(mant: nat, p: nat, low: nat, high: nat)
    requires low <= mant < high && p * low == 0x80_0000 && p * high == 0x100_0000
    ensures 0x80_0000 <= mant * p < 0x100_0000
    ensures mant * p % 0x1_0000_0000_0000_0000 == mant * p
  {
    TimesMonotone(p, low, mant);
    TimesMonotone(p, mant + 1, high);
    Distribute(p, mant, 1);
  }

  lemma Between(n: nat, p: nat, lo: nat, hi: nat)
    requires p > 0 && p * lo <= n < p * hi
    ensures lo <= n / p < hi
  {
    var q := n / p;
    assert n == p * q + n % p;
    if q < lo {
      TimesMonotone(p, q + 1, lo);
      Distribute(p, q, 1);
    } else if q >= hi {
      TimesMonotone(p, hi, q);
    }
  }

  /** A packed result with a normal exponent has the fields it was packed from. */
  lemma PackedNormal(mant: nat, exp: int, sign: bool)
    requires mant > 0 && 1 <= exp + Top(mant) - 23 <= 254
    ensures var r := Packed(mant, exp, sign);
      Normal(r) && Sign(r) == sign && Exponent(r) == exp + Top(mant) - 23 && Mantissa(r) == NormalMant(mant, exp)
  {
    hide NormalMant, Top;
    NormalMantRange(mant, exp);
    var m := NormalMant(mant, exp);
    CompressFields(m, exp + Top(mant) - 23, sign);
    assert m % 0x80_0000 == m - 0x80_0000;
  }

  // ----- normalizing truncates -----

  lemma Place(mant: nat, exp: int, v: nat)
    requires exp >= -150 && mant > 0 && mant * Weight(exp) <= v < (mant + 1) * Weight(exp)
    ensures Pow(2, exp + 150 + Top(mant)) <= v < Pow(2, exp + 151 + Top(mant))
  {
    hide Top, Pow;
    var t := Top(mant);
    TopBounds(mant);
    PowSum(2, t, exp + 150);
    PowSum(2, t + 1, exp + 150);
    Widen(Pow(2, t), mant, Pow(2, t + 1), Weight(exp), v);
  }

  lemma Widen(low: nat, mant: nat, high: nat, w: nat, v: int)
    requires low <= mant < high && mant * w <= v < (mant + 1) * w
    ensures low * w <= v < high * w
  {
    TimesMonotone(w, low, mant);
    TimesMonotone(w, mant + 1, high);
  }

  /** Where the exponent of a magnitude v in [mant, mant+1) ends up. */
  lemma Binade(mant: nat, exp: int, v: nat)
    requires exp >= -150 && mant > 0 && mant * Weight(exp) <= v < (mant + 1) * Weight(exp)
    ensures v < MinNormal() <==> exp + Top(mant) - 23 <= 0
    ensures v < Overflow() <==> exp + Top(mant) - 23 <= 254
  {
    hide Pow, Top, Weight;
    var e := exp + 150 + Top(mant);
    Place(mant, exp, v);
    Compare(e, 174, v);
    Compare(e, 428, v);
  }

  lemma Compare(e: nat, f: nat, v: nat)
    requires Pow(2, e) <= v < Pow(2, e + 1)
    ensures v < Pow(2, f) <==> e < f
  {
    hide Pow;
    if e < f {
      PowMonotone(2, e + 1, f);
    } else {
      PowMonotone(2, f, e);
    }
  }

  lemma DropAlgebra(mant: int, p: int, m: int, r: int, wide: int, w: int)
    requires mant == p * m + r && wide == p * w
    ensures m * wide == (mant - r) * w && (m + 1) * wide == (mant - r + p) * w
  {
    Associate(m, p, w);
    Associate(m + 1, p, w);
    Distribute(p, m, 1);
  }

  lemma NormalMantIs(mant: nat, exp: int)
    requires mant > 0 && Top(mant) >= 23 && exp + Top(mant) - 23 > 0
    ensures NormalMant(mant, exp) == mant / Pow(2, Top(mant) - 23)
  {
    hide Top;
    NormalMantRange(mant, exp);
    if Top(mant) == 23 {
      DivIs(1, mant, mant, 0);
    }
  }

  lemma DroppedBits(mant: nat, exp: int)
    requires exp >= -150 && mant > 0 && Top(mant) >= 23 && exp + Top(mant) - 23 > 0
    ensures var p := Pow(2, Top(mant) - 23); var m := NormalMant(mant, exp); var e := exp + Top(mant) - 23;
      && m * Weight(e) == (mant - mant % p) * Weight(exp)
      && (m + 1) * Weight(e) == (mant - mant % p + p) * Weight(exp)
      && mant % p < p
  {
    hide NormalMant, Top, Weight;
    var p := Pow(2, Top(mant) - 23);
    NormalMantIs(mant, exp);
    WeightShift(exp, Top(mant) - 23);
    DropAlgebra(mant, p, mant / p, mant % p, Weight(exp + Top(mant) - 23), Weight(exp));
  }

  lemma TruncatesNormal(r: float32, X: int)
    requires Normal(r) && Sign(r) == (X < 0) && MinNormal() <= Abs(X)
    ensures Truncates(r, X)
       <==> Mantissa(r) * Weight(Exponent(r)) <= Abs(X) < (Mantissa(r) + 1) * Weight(Exponent(r))
  {
  }

  lemma RemBounds(m: nat, p: nat)
    requires p > 0
    ensures 0 <= m % p < p && m % p <= m
  {
  }

  lemma StepAbove(mant: nat, r: nat, p: nat, w: nat, v: int)
    requires 0 <= r < p && mant * w <= v < (mant + 1) * w
    ensures (mant - r) * w <= v < (mant - r + p) * w
  {
    TimesMonotone(w, mant - r, mant);
    TimesMonotone(w, mant + 1, mant - r + p);
  }

  /** Truncation of a magnitude whose whole part, in units of Weight(exp), is mant. */
  lemma NormFloor(mant: nat, exp: int, sign: bool, X: int)
    requires exp >= -150 && mant > 0 && Abs(X) < Overflow() && sign == (X < 0)
    requires mant * Weight(exp) <= Abs(X) < (mant + 1) * Weight(exp)
    requires Top(mant) >= 23 || Abs(X) == mant * Weight(exp)
    ensures Truncates(Packed(mant, exp, sign), X)
  {
    hide *;
    var v, w := Abs(X), Weight(exp);
    Binade(mant, exp, v);
    if exp + Top(mant) - 23 <= 0 {
      PackedZero(mant, exp, sign);
      TruncatesSmall(Packed(mant, exp, sign), X);
    } else {
      PackedNormal(mant, exp, sign);
      TruncatesNormal(Packed(mant, exp, sign), X);
      if Top(mant) >= 23 {
        var p := Pow(2, Top(mant) - 23);
        DroppedBits(mant, exp);
        RemBounds(mant, p);
        StepAbove(mant, mant % p, p, w, v);
      } else {
        LiftedBits(mant, exp);
        NextIsAbove(NormalMant(mant, exp), exp + Top(mant) - 23);
      }
    }
  }

  lemma NextIsAbove(m: nat, exp: int)
    requires exp >= -150
    ensures m * Weight(exp) < (m + 1) * Weight(exp)
  {
    hide Weight;
    Distribute(Weight(exp), m, 1);
  }

  lemma TruncatesSmall(r: float32, X: int)
    requires Zero(r) && Abs(X) < MinNormal()
    ensures Truncates(r, X)
  {
  }

  lemma LiftedBits(mant: nat, exp: int)
    requires exp >= -150 && mant > 0 && Top(mant) < 23 && exp + Top(mant) - 23 > 0
    ensures NormalMant(mant, exp) * Weight(exp + Top(mant) - 23) == mant * Weight(exp)
  {
    NormalMantRange(mant, exp);
    WeightShift(exp + Top(mant) - 23, 23 - Top(mant));
    Associate(mant, Pow(2, 23 - Top(mant)), Weight(exp + Top(mant) - 23));
  }

  /** mant has more than 24 significant bits. */
  predicate Inexact(mant: nat)
    requires mant > 0
  {
    Top(mant) > 23 && mant % Pow(2, Top(mant) - 23) != 0
  }

  /** Just below a power of two that mant reaches, mant can only be that power. */
  lemma AtPower(mant: nat, exp: int, v: nat, n: nat)
    requires exp >= -150 && mant > 0 && (mant - 1) * Weight(exp) < v < Pow(2, n)
    requires exp + 150 + Top(mant) >= n
    ensures mant == Pow(2, Top(mant)) && !Inexact(mant)
  {
    hide Weight, Top, Pow;
    var t, w := Top(mant), Weight(exp);
    TopBounds(mant);
    AtLeast(t, exp, n);
    if mant - 1 >= Pow(2, t) {
      TimesMonotone(w, Pow(2, t), mant - 1);
    }
    if t > 23 {
      PowDividesPow(2, t - 23, t);
    }
  }

  lemma AtOverflow(mant: nat, exp: int, v: nat)
    requires exp >= -150 && mant > 0 && (mant >= 2 || exp <= 254)
    requires (mant - 1) * Weight(exp) < v < Overflow() && exp + Top(mant) - 23 > 254
    ensures exp + Top(mant) - 23 == 255 && !Inexact(mant)
  {
    hide Weight, Top, Pow, Inexact;
    var t, w := Top(mant), Weight(exp);
    AtPower(mant, exp, v, 428);
    TopOfTwo(mant, t);
    if exp + t - 23 > 255 {
      AtLeast(t - 1, exp, 428);
      TimesMonotone(w, Pow(2, t - 1), mant - 1);
    }
  }

  lemma AtLeast(t: nat, exp: int, n: nat)
    requires exp >= -150 && exp + 150 + t >= n
    ensures Pow(2, t) * Weight(exp) >= Pow(2, n)
  {
    PowSum(2, t, exp + 150);
    PowMonotone(2, n, exp + 150 + t);
  }

  lemma TopOfTwo(mant: nat, t: nat)
    requires mant == Pow(2, t) && mant > 0
    ensures mant >= 2 <==> t > 0
    ensures t > 0 ==> Pow(2, t - 1) <= mant - 1
  {
    if t > 0 {
      assert Pow(2, t) == 2 * Pow(2, t - 1);
    }
  }

  lemma PackedOverflow(mant: nat, exp: int, sign: bool)
    requires mant > 0 && exp + Top(mant) - 23 == 255
    ensures Exponent(Packed(mant, exp, sign)) == 255
  {
    CompressFields(NormalMant(mant, exp), 255, sign);
  }

  /**
   * When the magnitude is a little less than mant units, normalizing mant still truncates it if and
   * only if a bit of mant is dropped as well, or everything is flushed to zero.
   */
  lemma NormCeiling(mant: nat, exp: int, sign: bool, X: int)
    requires exp >= -150 && mant > 0 && (mant >= 2 || exp <= 254)
    requires Abs(X) < Overflow() && sign == (X < 0)
    requires (mant - 1) * Weight(exp) < Abs(X) < mant * Weight(exp)
    ensures Truncates(Packed(mant, exp, sign), X) <==> Inexact(mant) || exp + Top(mant) - 23 <= 0
  {
    hide *;
    var v, w := Abs(X), Weight(exp);
    NextIsAbove(mant, exp);
    Binade(mant, exp, mant * w);
    if exp + Top(mant) - 23 <= 0 {
      PackedZero(mant, exp, sign);
      TruncatesSmall(Packed(mant, exp, sign), X);
    } else if exp + Top(mant) - 23 > 254 {
      AtOverflow(mant, exp, v);
      PackedOverflow(mant, exp, sign);
      AbnormalNever(Packed(mant, exp, sign), X);
    } else {
      PackedNormal(mant, exp, sign);
      if v < MinNormal() {
        AtMinimum(mant, exp, v);
        NormalNotFlushed(Packed(mant, exp, sign), X);
      } else {
        TruncatesNormal(Packed(mant, exp, sign), X);
        CeilingStep(mant, exp, v);
      }
    }
  }

  lemma AtMinimum(mant: nat, exp: int, v: nat)
    requires exp >= -150 && mant > 0 && (mant - 1) * Weight(exp) < v < MinNormal()
    requires exp + Top(mant) - 23 > 0
    ensures !Inexact(mant)
  {
    AtPower(mant, exp, v, 174);
  }

  lemma NormalNotFlushed(r: float32, X: int)
    requires Normal(r) && Abs(X) < MinNormal()
    ensures !Truncates(r, X)
  {
  }

  lemma CeilingStep(mant: nat, exp: int, v: int)
    requires exp >= -150 && mant > 0 && exp + Top(mant) - 23 > 0
    requires (mant - 1) * Weight(exp) < v < mant * Weight(exp)
    ensures var m := NormalMant(mant, exp); var e := exp + Top(mant) - 23;
      m * Weight(e) <= v < (m + 1) * Weight(e) <==> Inexact(mant)
  {
    hide *;
    InexactIs(mant);
    if Top(mant) >= 23 {
      var p := Pow(2, Top(mant) - 23);
      DroppedBits(mant, exp);
      RemBounds(mant, p);
      StepBelow(mant, mant % p, p, Weight(exp), v);
    } else {
      LiftedBits(mant, exp);
    }
  }

  lemma AbnormalNever(r: float32, X: int)
    requires Exponent(r) == 255
    ensures !Truncates(r, X)
  {
  }

  lemma InexactIs(mant: nat)
    requires mant > 0
    ensures Inexact(mant) <==> Top(mant) >= 23 && mant % Pow(2, Top(mant) - 23) != 0
  {
    if Top(mant) == 23 {
      DivIs(1, mant, mant, 0);
    }
  }

  lemma StepBelow(mant: nat, r: nat, p: nat, w: nat, v: int)
    requires 0 <= r < p && w > 0 && (mant - 1) * w < v < mant * w
    ensures (mant - r) * w <= v < (mant - r + p) * w <==> r != 0
  {
    if r != 0 {
      TimesMonotone(w, mant - r, mant - 1);
    }
    TimesMonotone(w, mant, mant - r + p);
  }
}
