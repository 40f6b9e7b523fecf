/** Adding two numbers of different exponents the way the FPU does, against their exact sum. */
module FloatSum {
  import opened Arith
  import opened CInt
  import opened FloatFormat

  datatype Num = Num(mant: nat, exp: int, neg: bool)

  function NumValue(n: Num): int
    requires n.exp >= -150
  {
    Signed(n.neg, n.mant * Weight(n.exp))
  }

  predicate Below(p: Num, q: Num) {
    p.exp < q.exp || (p.exp == q.exp && p.mant <= q.mant)
  }

  /** ADD_SWP_EXP: the operand that is shifted, and the one that is not */
  function Smaller(p: Num, q: Num): Num {
    if Below(p, q) then p else q
  }

  function Larger(p: Num, q: Num): Num {
    if Below(p, q) then q else p
  }

  function Shifted(a: Num, b: Num): nat
    requires a.exp <= b.exp
  {
    a.mant / Pow(2, b.exp - a.exp)
  }

  /** Bits of a are shifted out. */
  predicate Lost(a: Num, b: Num)
    requires a.exp <= b.exp
  {
    a.mant % Pow(2, b.exp - a.exp) != 0
  }

  function SumMant(a: Num, b: Num): nat
    requires a.exp <= b.exp
  {
    if a.neg == b.neg then b.mant + Shifted(a, b) else Abs(b.mant - Shifted(a, b))
  }

  function SumNeg(a: Num, b: Num): bool
    requires a.exp <= b.exp
  {
    if SumMant(a, b) == 0 then a.neg && b.neg else if Shifted(a, b) > b.mant then a.neg else b.neg
  }

  /** What the add steps leave in the accumulator. */
  function Added(p: Num, q: Num): Num {
    if q.mant == 0 then
      p
    else if p.mant == 0 then
      q
    else
      var a, b := Smaller(p, q), Larger(p, q);
      Num(SumMant(a, b), b.exp, SumNeg(a, b))
  }

  function PackedNum(n: Num): float32 {
    Packed(n.mant, n.exp, n.neg)
  }

  lemma Aligned(a: Num, b: Num)
    requires -150 <= a.exp <= b.exp
    ensures var r := a.mant % Pow(2, b.exp - a.exp);
      && a.mant * Weight(a.exp) == Shifted(a, b) * Weight(b.exp) + r * Weight(a.exp)
      && 0 <= r * Weight(a.exp) < Weight(b.exp)
      && (Lost(a, b) <==> r * Weight(a.exp) > 0)
  {
    hide Weight;
    var g := b.exp - a.exp;
    WeightShift(a.exp, g);
    AlignedParts(a.mant, Pow(2, g), Weight(a.exp));
  }

  lemma AlignedParts(m: nat, p: nat, w: nat)
    requires p > 0 && w > 0
    ensures m * w == m / p * (p * w) + m % p * w
    ensures 0 <= m % p * w < p * w
    ensures m % p != 0 <==> m % p * w > 0
  {
    var q, r := m / p, m % p;
    assert m == p * q + r;
    assert (p * q + r) * w == (p * q) * w + r * w;
    Associate(q, p, w);
    TimesMonotone(w, r + 1, p);
    Distribute(w, r, 1);
  }

  /** The exact sum against the mantissa the add steps compute. */
  lemma SumPlace(a: Num, b: Num)
    requires -150 <= a.exp <= b.exp && b.mant > 0
    requires Lost(a, b) && a.neg != b.neg ==> Shifted(a, b) < b.mant
    ensures var C := SumMant(a, b); var X := NumValue(a) + NumValue(b); var w := Weight(b.exp);
      && (a.neg == b.neg ==> C > 0 && C * w <= Abs(X) < (C + 1) * w && SumNeg(a, b) == (X < 0))
      && (a.neg != b.neg && !Lost(a, b) ==> Abs(X) == C * w && (C > 0 ==> SumNeg(a, b) == (X < 0)))
      && (a.neg != b.neg && Lost(a, b) ==> C > 0 && (C - 1) * w < Abs(X) < C * w && SumNeg(a, b) == (X < 0))
  {
    Aligned(a, b);
    hide Weight, Shifted, Lost;
    var s, w := Shifted(a, b), Weight(b.exp);
    var r := a.mant % Pow(2, b.exp - a.exp) * Weight(a.exp);
    SumAlgebra(b.mant, s, w, r);
  }

  lemma SumAlgebra(b: nat, s: nat, w: nat, r: int)
    requires w > 0 && 0 <= r < w
    ensures (b + s) * w == b * w + s * w && (b + s + 1) * w == b * w + s * w + w
    ensures (b - s) * w == b * w - s * w && (b - s - 1) * w == b * w - s * w - w
    ensures (s - b) * w == s * w - b * w
    ensures b > 0 ==> b * w > 0
    ensures s > b ==> s * w > b * w
    ensures s < b ==> s * w + w <= b * w
  {
    if s > b {
      TimesMonotone(w, b + 1, s);
    }
    if s < b {
      TimesMonotone(w, s + 1, b);
    }
    TimesMonotone(w, 0, b);
    if b > 0 {
      TimesMonotone(w, 1, b);
    }
  }

  // ----- when the sum is the exact one rounded toward zero -----

  /** A mantissa as the load and multiply steps leave it: zero, or 47 to 48 bits */
  predicate Wide(n: Num) {
    n.exp >= -150 && n.mant < 0x1_0000_0000_0000 && (n.mant == 0 || n.mant >= 0x4000_0000_0000)
  }

  /** Either nothing is shifted out or the order of the operands survives the shift. */
  predicate KeepsOrder(p: Num, q: Num) {
    var a, b := Smaller(p, q), Larger(p, q);
    p.mant != 0 && q.mant != 0 && Lost(a, b) ==>
      Shifted(a, b) < b.mant && (b.exp <= 254 || Shifted(a, b) + 2 <= b.mant)
  }

  lemma TopOfWide(mant: nat)
    requires mant >= 0x4000_0000_0000
    ensures Top(mant) >= 46
  {
    hide Pow, Top;
    SmallPowers();
    TopBounds(mant);
    PowOrder(46, Top(mant) + 1, mant);
  }

  lemma ValueNonzero(n: Num)
    requires n.exp >= -150 && n.mant > 0
    ensures Abs(NumValue(n)) == n.mant * Weight(n.exp) && n.neg == (NumValue(n) < 0)
    ensures Abs(NumValue(n)) < (n.mant + 1) * Weight(n.exp)
  {
    hide Weight;
    PositiveTimes(n.mant, Weight(n.exp));
    NextIsAbove(n.mant, n.exp);
  }

  /** A number alone is packed without loss of anything but its low bits. */
  lemma PackedTruncates(n: Num)
    requires n.exp >= -150 && Abs(NumValue(n)) < Overflow()
    ensures Truncates(PackedNum(n), NumValue(n))
  {
    hide Overflow, Truncates, Packed, Abs, NumValue, Weight;
    if n.mant == 0 {
      ZeroValue(n);
      PackedZero(n.mant, n.exp, n.neg);
      TruncatesSmall(PackedNum(n), NumValue(n));
    } else {
      ValueNonzero(n);
      NormFloor(n.mant, n.exp, n.neg, NumValue(n));
    }
  }

  lemma ZeroValue(n: Num)
    requires n.exp >= -150 && n.mant == 0
    ensures NumValue(n) == 0 && Abs(NumValue(n)) < MinNormal()
  {
  }

  /** Packing mant drops a bit: it has more than 24, or the number is flushed to zero. */
  predicate DropsBits(mant: nat, exp: int) {
    mant > 0 && (Inexact(mant) || exp + Top(mant) - 23 <= 0)
  }

  /**
   * The sum comes out rounded toward zero if and only if the signs agree, or no bit is shifted out, or
   * packing the computed difference drops a bit as well.
   */
  lemma SumTruncates(a: Num, b: Num)
    requires Wide(a) && Wide(b) && a.exp <= b.exp && a.mant > 0 && b.mant > 0
    requires Lost(a, b) ==> Shifted(a, b) < b.mant && (b.exp <= 254 || Shifted(a, b) + 2 <= b.mant)
    requires var X := NumValue(a) + NumValue(b);
      Abs(X) < Overflow()
    ensures var X := NumValue(a) + NumValue(b); var C := SumMant(a, b);
      Truncates(Packed(C, b.exp, SumNeg(a, b)), X) <==> (a.neg == b.neg || !Lost(a, b) || DropsBits(C, b.exp))
  {
    hide Overflow, MinNormal, Truncates, Packed, Abs, NumValue, Weight, Lost, Shifted, SumNeg, Inexact, Top;
    var X, C := NumValue(a) + NumValue(b), SumMant(a, b);
    SumPlace(a, b);
    if a.neg == b.neg {
      TopOfWide(C);
      NormFloor(C, b.exp, SumNeg(a, b), X);
    } else if !Lost(a, b) {
      ExactSum(C, b.exp, SumNeg(a, b), X);
    } else {
      DifferenceIs(a, b);
      NormCeiling(C, b.exp, SumNeg(a, b), X);
    }
  }

  lemma DifferenceIs(a: Num, b: Num)
    requires a.exp <= b.exp && a.neg != b.neg && Shifted(a, b) < b.mant
    ensures SumMant(a, b) == b.mant - Shifted(a, b)
  {
  }

  lemma ExactSum(C: nat, exp: int, neg: bool, X: int)
    requires exp >= -150 && Abs(X) == C * Weight(exp) && (C > 0 ==> neg == (X < 0))
    requires Abs(X) < Overflow()
    ensures Truncates(Packed(C, exp, neg), X)
  {
    hide Overflow, Truncates, Packed, Weight;
    if C == 0 {
      PackedZero(C, exp, neg);
      ZeroValue(Num(0, exp, neg));
      TruncatesSmall(Packed(C, exp, neg), X);
    } else {
      NextIsAbove(C, exp);
      NormFloor(C, exp, neg, X);
    }
  }

  /** The operands of p + q for which the FPU gets the exact sum rounded toward zero */
  predicate RoundsRight(p: Num, q: Num) {
    || p.mant == 0 || q.mant == 0 || p.neg == q.neg
    || (var a, b := Smaller(p, q), Larger(p, q);
        !Lost(a, b) || DropsBits(SumMant(a, b), b.exp))
  }

  lemma AddedTruncates(p: Num, q: Num)
    requires Wide(p) && Wide(q) && KeepsOrder(p, q)
    requires Abs(NumValue(p) + NumValue(q)) < Overflow()
    ensures Truncates(PackedNum(Added(p, q)), NumValue(p) + NumValue(q)) <==> RoundsRight(p, q)
  {
    hide Overflow, MinNormal, Truncates, Packed, Abs, NumValue, Weight, Lost, Shifted, SumNeg, Inexact, Top;
    if q.mant == 0 {
      ZeroValue(q);
      PackedTruncates(p);
    } else if p.mant == 0 {
      ZeroValue(p);
      PackedTruncates(q);
    } else {
      SumTruncates(Smaller(p, q), Larger(p, q));
    }
  }

  // ----- signs -----

  lemma PackedSign(n: Num)
    ensures Sign(PackedNum(n)) == n.neg
  {
    CompressFields(NormalMant(n.mant, n.exp), NormalExp(n.mant, n.exp), n.neg);
  }

  /** The sign is that of the exact sum. A sum of zero is positive, unless the second number is zero: then
      it has the sign of the first. */
  lemma AddedSign(p: Num, q: Num)
    requires Wide(p) && Wide(q) && KeepsOrder(p, q)
    ensures var X := NumValue(p) + NumValue(q);
      Added(p, q).neg == if X == 0 then q.mant == 0 && p.neg else X < 0
  {
    hide MinNormal, Overflow, Abs, NumValue, Weight, Lost, Shifted;
    if q.mant == 0 {
      ZeroValue(q);
      SignOf(p);
    } else if p.mant == 0 {
      ZeroValue(p);
      SignOf(q);
    } else {
      SumSign(Smaller(p, q), Larger(p, q));
    }
  }

  lemma SignOf(n: Num)
    requires n.exp >= -150
    ensures NumValue(n) == 0 <==> n.mant == 0
    ensures NumValue(n) != 0 ==> n.neg == (NumValue(n) < 0)
  {
    if n.mant > 0 {
      ValueNonzero(n);
      PositiveTimes(n.mant, Weight(n.exp));
    }
  }

  lemma SumSign(a: Num, b: Num)
    requires Wide(a) && Wide(b) && a.exp <= b.exp && a.mant > 0 && b.mant > 0
    requires Lost(a, b) ==> Shifted(a, b) < b.mant
    ensures var X := NumValue(a) + NumValue(b); SumNeg(a, b) == (X < 0)
  {
    SumPlace(a, b);
    hide Weight, NumValue, Lost, Shifted, SumMant;
    var C, w := SumMant(a, b), Weight(b.exp);
    if C > 0 {
      PositiveTimes(C, w);
    }
  }
}
