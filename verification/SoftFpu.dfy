/**
 * The software FPU: one accumulator A and one operand B, shifted, added and normalized on 64-bit
 * mantissas.  Its results are compared with the exact sum or product rounded toward zero.
 */
module SoftFpu {
  import opened Arith
  import opened CInt
  import opened FloatFormat
  import opened FloatSum

  const WRAP: nat := 0x1_0000_0000_0000_0000

  /** uint64_t arithmetic */
  function Wrap(x: int): (w: nat)
    ensures w < WRAP
    ensures 0 <= x < WRAP ==> w == x
  {
    x % WRAP
  }

  predicate TestBit(x: nat, i: nat) {
    x / Pow(2, i) % 2 == 1
  }

  /** Leading zeros of a 64-bit number */
  method Clz(x: nat) returns (result: nat)
    requires x < WRAP
    ensures x == 0 ==> result == 64
    ensures x > 0 ==> result < 64 && Top(x) == 63 - result
  {
    hide Pow, Top;
    SmallPowers();
    result := 0;
    var i := 63;
    while i >= 0
      invariant -1 <= i <= 63 && result == 63 - i && x < Pow(2, i + 1)
      decreases i
    {
      LeadingBit(x, i);
      if TestBit(x, i) {
        return;
      }
      result := result + 1;
      i := i - 1;
    }
    PowZero();
  }

  lemma PowZero()
    ensures Pow(2, 0) == 1
  {
  }

  lemma LeadingBit(x: nat, i: nat)
    requires x < Pow(2, i + 1)
    ensures TestBit(x, i) ==> x > 0 && Top(x) == i
    ensures !TestBit(x, i) ==> x < Pow(2, i)
  {
    var p := Pow(2, i);
    assert Pow(2, i + 1) == 2 * p;
    if x >= p {
      DivIs(p, x, 1, x - p);
      TopIs(x, i);
    } else {
      DivIs(p, x, 0, x);
    }
  }

  method Expand(x: float32) returns (mant: nat, exp: int, sign: bool)
    ensures mant == Mantissa(x) && exp == Exponent(x) && sign == Sign(x)
    ensures mant < 0x100_0000
  {
    exp := Exponent(x);
    mant := Fraction(x);
    sign := Sign(x);
    if exp != 0 {
      mant := mant + 0x80_0000;
    }
  }

  method Normalize23(mant: nat, exp: int) returns (mant': nat, exp': int)
    requires mant < WRAP
    ensures mant' == NormalMant(mant, exp) && exp' == NormalExp(mant, exp)
  {
    hide Pow, Top;
    mant', exp' := mant, exp;
    var zeros := Clz(mant);
    var firstBitSet := 63 - zeros as int;
    if firstBitSet == -1 {
      exp' := 0;
    } else if exp + firstBitSet - 23 > 0 {
      exp' := exp + (firstBitSet - 23);
      if firstBitSet > 23 {
        mant' := mant / Pow(2, firstBitSet - 23);
      } else {
        TimesMonotone(mant, 0, Pow(2, 23 - firstBitSet));
        mant' := Wrap(mant * Pow(2, 23 - firstBitSet));
      }
    } else {
      mant' := 0;
      exp' := 0;
    }
  }

  function Product(x: float32, y: float32): nat {
    Mantissa(x) * Mantissa(y)
  }

  /** A sum or difference operand as LOAD_AB and LOAD_B leave it */
  function Loaded(x: float32, flip: bool): Num {
    Num(Mantissa(x) * 0x100_0000, Exponent(x) - 24, Sign(x) != flip)
  }

  /** A product as MUL leaves it */
  function Multiplied(x: float32, y: float32, flip: bool): Num {
    Num(Product(x, y), Exponent(x) + Exponent(y) - 150, (Sign(x) != Sign(y)) != flip)
  }

  class FPU {
    var aMant: nat
    var aExp: int
    var aSign: bool
    var bMant: nat
    var bExp: int
    var bSign: bool

    function A(): Num
      reads this
    {
      Num(aMant, aExp, aSign)
    }

    function B(): Num
      reads this
    {
      Num(bMant, bExp, bSign)
    }

    constructor ()
    {
      aMant, aExp, aSign := 0, 0, false;
      bMant, bExp, bSign := 0, 0, false;
    }

    /** What the accumulator packs to: the low 32 bits of the mantissa go to compress. */
    function Result(): float32
      reads this
    {
      Compress(aMant % 0x1_0000_0000, aExp, aSign)
    }

    method Mul(rs1: float32, rs2: float32)
      modifies this
      ensures A() == Multiplied(rs1, rs2, false) && B() == old(B())
    {
      hide Mantissa, Exponent, Sign, Product;
      var m1, e1, s1 := Expand(rs1);
      var m2, e2, s2 := Expand(rs2);
      ProductFits(rs1, rs2);
      aMant := Wrap(m1 * m2);
      aExp := e1 + e2 - 127 - 23;
      aSign := s1 != s2;
    }

    method LoadB(rs3: float32, chASign: bool, chBSign: bool)
      modifies this
      ensures A() == old(A()).(neg := old(aSign) != chASign) && B() == Loaded(rs3, chBSign)
    {
      bMant, bExp, bSign := Expand(rs3);
      bMant := Wrap(bMant * 0x100_0000);
      bExp := bExp - 24;
      if chASign {
        aSign := !aSign;
      }
      if chBSign {
        bSign := !bSign;
      }
    }

    method Norm()
      requires aMant < WRAP
      modifies this
      ensures Result() == PackedNum(old(A()))
    {
      aMant, aExp := Normalize23(aMant, aExp);
      LowBits(old(aMant), old(aExp), aSign);
    }

    method LoadAB(rs1: float32, rs2: float32, sub: bool)
      modifies this
      ensures A() == Loaded(rs1, false) && B() == Loaded(rs2, sub)
    {
      aMant, aExp, aSign := Expand(rs1);
      bMant, bExp, bSign := Expand(rs2);
      aMant := Wrap(aMant * 0x100_0000);
      aExp := aExp - 24;
      bMant := Wrap(bMant * 0x100_0000);
      bExp := bExp - 24;
      if sub {
        bSign := !bSign;
      }
    }

    method Swap()
      modifies this
      ensures A() == old(B()) && B() == old(A())
    {
      aMant, bMant := bMant, aMant;
      aExp, bExp := bExp, aExp;
      aSign, bSign := bSign, aSign;
    }

    /**
     * Puts the larger exponent in B, on a tie the larger mantissa.  If an operand is zero the other
     * one is in A and there is nothing to add.
     */
    method AddSwpExp() returns (both: bool)
      modifies this
      ensures both <==> old(aMant) != 0 && old(bMant) != 0
      ensures !both ==> A() == Added(old(A()), old(B()))
      ensures both ==> A() == Smaller(old(A()), old(B())) && B() == Larger(old(A()), old(B()))
    {
      if bMant == 0 {
        return false;
      }
      if aMant == 0 {
        Swap();
        return false;
      }
      if aExp > bExp || (aExp == bExp && aMant > bMant) {
        Swap();
      }
      return true;
    }

    /** Shifts A to the exponent of B; the test for 47 loses nothing on 48-bit mantissas. */
    method AddShift()
      requires aExp <= bExp && aMant < 0x1_0000_0000_0000
      modifies this
      ensures A() == Num(Shifted(old(A()), old(B())), old(bExp), old(aSign)) && B() == old(B())
    {
      ShiftedOut(aMant, bExp - aExp);
      if bExp - aExp > 47 {
        aMant := 0;
        aExp := bExp;
      } else {
        aMant := aMant / Pow(2, bExp - aExp);
        aExp := bExp;
      }
      aExp := bExp;
    }

    /** The subtraction is unsigned: it wraps when A is the larger. */
    method AddFrac()
      modifies this
      ensures aMant == if old(aSign) != bSign then Wrap(bMant - old(aMant)) else Wrap(bMant + old(aMant))
      ensures aSign == if aMant == 0 then old(aSign) && bSign else bSign
      ensures aExp == old(aExp) && B() == old(B())
    {
      aMant := if aSign != bSign then Wrap(bMant - aMant) else Wrap(bMant + aMant);
      aSign := if aMant == 0 then aSign && bSign else bSign;
    }

    method AddSwpFrac()
      modifies this
      ensures A() == if old(aMant > bMant) then old(B()) else old(A())
      ensures B() == if old(aMant > bMant) then old(A()) else old(B())
    {
      if aMant > bMant {
        Swap();
      }
    }
  }

  lemma ProductFits(x: float32, y: float32)
    ensures Product(x, y) == Mantissa(x) * Mantissa(y) < 0x1_0000_0000_0000
  {
    TimesMonotone(Mantissa(x), Mantissa(y), 0x100_0000);
  }

  lemma LowBits(mant: nat, exp: int, sign: bool)
    ensures Compress(NormalMant(mant, exp) % 0x1_0000_0000, NormalExp(mant, exp), sign) == Packed(mant, exp, sign)
  {
    var m := NormalMant(mant, exp);
    assert m % 0x1_0000_0000 % 0x80_0000 == m % 0x80_0000;
  }

  lemma ShiftedOut(mant: nat, gap: nat)
    requires mant < 0x1_0000_0000_0000
    ensures gap > 47 ==> mant / Pow(2, gap) == 0
  {
    if gap > 47 {
      SmallPowers();
      PowMonotone(2, 48, gap);
      DivIs(Pow(2, gap), mant, 0, mant);
    }
  }

  // ----- sums and differences -----

  lemma LoadedIs(x: float32, flip: bool)
    requires ZeroOrNormal(x)
    ensures Wide(Loaded(x, flip)) && (Loaded(x, flip).mant == 0 <==> Zero(x))
    ensures !Zero(x) ==> Loaded(x, flip).mant >= 0x8000_0000_0000
    ensures NumValue(Loaded(x, flip)) == if flip then -Exact(x) else Exact(x)
  {
    hide Weight, Mantissa, Exponent, Sign, Zero, Normal;
    MantissaRange(x);
    WeightShift(Exponent(x) - 24, 24);
    SmallPowers();
    Associate(Mantissa(x), 0x100_0000, Weight(Exponent(x) - 24));
  }

  lemma SmallShift(m: nat, gap: nat)
    requires gap <= 24
    ensures m * 0x100_0000 % Pow(2, gap) == 0
  {
    SmallPowers();
    PowSum(2, gap, 24 - gap);
    var p, q := Pow(2, gap), Pow(2, 24 - gap);
    Associate(p, q, m);
    Multiple(p, q * m);
  }

  /** Shifting a loaded operand by more than 24 leaves fewer than 24 bits, by up to 47 at least one. */
  lemma LargeShift(mant: nat, gap: nat)
    requires 0 < mant < 0x1_0000_0000_0000 && gap >= 25
    ensures mant / Pow(2, gap) < 0x80_0000
    ensures gap > 47 ==> mant / Pow(2, gap) == 0 && mant % Pow(2, gap) != 0
    ensures gap <= 47 && mant >= 0x8000_0000_0000 ==> mant / Pow(2, gap) >= 1
  {
    SmallPowers();
    hide Pow;
    PowSum(2, 25, 23);
    PowMonotone(2, 25, gap);
    var p := Pow(2, gap);
    TimesMonotone(0x80_0000, Pow(2, 25), p);
    Between(mant, p, 0, 0x80_0000);
    if gap > 47 {
      PowMonotone(2, 48, gap);
      DivIs(p, mant, 0, mant);
    } else if mant >= 0x8000_0000_0000 {
      PowMonotone(2, gap, 47);
      Between(mant, p, 1, 0x80_0000);
    }
  }

  /** The difference of a full operand and something smaller than its last bit has extra bits. */
  lemma NearDifference(m: nat, s: nat)
    requires 0x80_0000 <= m < 0x100_0000 && 1 <= s < 0x80_0000
    ensures Inexact(m * 0x100_0000 - s)
  {
    SmallPowers();
    hide Pow, Top;
    var c := m * 0x100_0000 - s;
    if m > 0x80_0000 {
      TopIs(c, 47);
      DivIs(0x100_0000, c, m - 1, 0x100_0000 - s);
    } else {
      TopIs(c, 46);
      DivIs(0x80_0000, c, 0xFF_FFFF, 0x80_0000 - s);
    }
  }

  lemma FullOperand(m: nat, exp: int)
    requires 0x80_0000 <= m < 0x100_0000 && exp >= -23
    ensures Top(m * 0x100_0000) == 47 && !DropsBits(m * 0x100_0000, exp)
  {
    SmallPowers();
    hide Pow, Top;
    var c := m * 0x100_0000;
    TopIs(c, 47);
    DivIs(0x100_0000, c, m, 0);
  }

  /** Two nonzero loaded operands, the one with the larger exponent second */
  predicate LoadedPair(a: Num, b: Num, m: nat, n: nat) {
    && 0x80_0000 <= m < 0x100_0000 && 0x80_0000 <= n < 0x100_0000
    && a.mant == m * 0x100_0000 && b.mant == n * 0x100_0000
    && -23 <= a.exp <= b.exp
    && (a.exp == b.exp ==> a.mant <= b.mant)
  }

  /** After ADD_SHIFT the shifted operand is never the larger: leaving out ADD_SWP_FRAC is sound. */
  lemma ShiftKeepsOrder(a: Num, b: Num, m: nat, n: nat)
    requires LoadedPair(a, b, m, n)
    ensures Shifted(a, b) <= b.mant
    ensures Lost(a, b) ==> b.exp - a.exp >= 25 && Shifted(a, b) < 0x80_0000
  {
    var gap := b.exp - a.exp;
    if gap <= 24 {
      SmallShift(m, gap);
    } else {
      LargeShift(a.mant, gap);
    }
    ShiftShrinks(a.mant, gap, b.mant);
  }

  lemma ShiftShrinks(m: nat, gap: nat, n: nat)
    requires m < 0x1_0000_0000_0000 && n >= 0x8000_0000_0000 && (gap == 0 ==> m <= n)
    ensures m / Pow(2, gap) <= n
  {
    if gap == 0 {
      DivIs(1, m, m, 0);
    } else {
      HalfShift(m, gap, 1);
      SmallPowers();
    }
  }

  lemma HalfShift(m: nat, gap: nat, k: nat)
    requires m < 0x1_0000_0000_0000 && k <= gap && k <= 48
    ensures m / Pow(2, gap) < Pow(2, 48 - k)
  {
    hide Pow;
    SmallPowers();
    PowSum(2, k, 48 - k);
    PowMonotone(2, k, gap);
    TimesMonotone(Pow(2, 48 - k), Pow(2, k), Pow(2, gap));
    Between(m, Pow(2, gap), 0, Pow(2, 48 - k));
  }

  /** For loaded operands of opposite signs the outcome is decided by the exponent gap alone. */
  lemma GapDecides(a: Num, b: Num, m: nat, n: nat)
    requires LoadedPair(a, b, m, n) && a.neg != b.neg
    ensures !Lost(a, b) || DropsBits(SumMant(a, b), b.exp) <==> b.exp - a.exp <= 47
    ensures b.exp - a.exp > 47 ==> SumMant(a, b) == b.mant
  {
    hide Inexact, Top, Lost, Shifted, Pow;
    ShiftKeepsOrder(a, b, m, n);
    var gap := b.exp - a.exp;
    if gap > 47 {
      GapLost(a, b);
      FullOperand(n, b.exp);
    } else if Lost(a, b) {
      GapKept(a, b);
      NearDifference(n, Shifted(a, b));
    }
  }

  lemma GapLost(a: Num, b: Num)
    requires 0 < a.mant < 0x1_0000_0000_0000 && b.exp - a.exp > 47
    ensures Lost(a, b) && Shifted(a, b) == 0
  {
    LargeShift(a.mant, b.exp - a.exp);
  }

  lemma GapKept(a: Num, b: Num)
    requires 0x8000_0000_0000 <= a.mant < 0x1_0000_0000_0000 && 25 <= b.exp - a.exp <= 47
    ensures Shifted(a, b) >= 1
  {
    LargeShift(a.mant, b.exp - a.exp);
  }

  /** The add steps on any two loaded operands, denormals and special patterns included, never wrap. */
  lemma LoadedOrder(x: float32, y: float32, sub: bool)
    ensures var p, q := Loaded(x, false), Loaded(y, sub); var a, b := Smaller(p, q), Larger(p, q);
      && p.mant < 0x1_0000_0000_0000 && q.mant < 0x1_0000_0000_0000
      && Shifted(a, b) <= b.mant
  {
    var p, q := Loaded(x, false), Loaded(y, sub);
    var a, b := Smaller(p, q), Larger(p, q);
    if a.exp < b.exp {
      ShiftShrinks(a.mant, b.exp - a.exp, b.mant);
    } else {
      DivIs(1, a.mant, a.mant, 0);
    }
  }

  lemma AddedIs(p: Num, q: Num)
    requires p.mant != 0 && q.mant != 0 && p.mant < 0x1_0000_0000_0000 && q.mant < 0x1_0000_0000_0000
    ensures var a, b := Smaller(p, q), Larger(p, q); var s := Shifted(a, b);
      && a.exp <= b.exp && a.mant < 0x1_0000_0000_0000 && s < 0x1_0000_0000_0000
      && (s <= b.mant ==>
          var c := if a.neg != b.neg then Wrap(b.mant - s) else Wrap(b.mant + s);
          Added(p, q) == Num(c, b.exp, if c == 0 then a.neg && b.neg else b.neg))
      && (s > b.mant ==>
          var c := if a.neg != b.neg then Wrap(s - b.mant) else Wrap(b.mant + s);
          Added(p, q) == Num(c, b.exp, if c == 0 then a.neg && b.neg else a.neg))
  {
    var a, b := Smaller(p, q), Larger(p, q);
    HalfShift(a.mant, b.exp - a.exp, 0);
    SmallPowers();
  }

  lemma AddedFits(p: Num, q: Num)
    requires p.mant < 0x1_0000_0000_0000 && q.mant < 0x1_0000_0000_0000
    ensures Added(p, q).mant < WRAP
  {
    hide Added, Shifted, Wrap;
    if p.mant != 0 && q.mant != 0 {
      AddedIs(p, q);
    } else {
      AddedAlone(p, q);
    }
  }

  lemma AddedAlone(p: Num, q: Num)
    requires p.mant == 0 || q.mant == 0
    ensures Added(p, q) == if q.mant == 0 then p else q
  {
  }

  ghost function Total(x: float32, y: float32, sub: bool): int {
    Exact(x) + (if sub then -Exact(y) else Exact(y))
  }

  ghost function Gap(x: float32, y: float32): nat {
    Abs(Exponent(x) - Exponent(y))
  }

  /** Operands that the routine adds exactly, up to the final truncation */
  ghost predicate Benign(x: float32, y: float32, sub: bool) {
    Zero(x) || Zero(y) || Sign(x) == (Sign(y) != sub) || Gap(x, y) <= 47
  }

  lemma BenignIs(x: float32, y: float32, sub: bool)
    requires ZeroOrNormal(x) && ZeroOrNormal(y)
    ensures RoundsRight(Loaded(x, false), Loaded(y, sub)) <==> Benign(x, y, sub)
    ensures Wide(Loaded(x, false)) && Wide(Loaded(y, sub)) && KeepsOrder(Loaded(x, false), Loaded(y, sub))
    ensures NumValue(Loaded(x, false)) + NumValue(Loaded(y, sub)) == Total(x, y, sub)
  {
    hide NumValue, Exact, Lost, Shifted, DropsBits;
    LoadedIs(x, false);
    LoadedIs(y, sub);
    var p, q := Loaded(x, false), Loaded(y, sub);
    if !Zero(x) && !Zero(y) {
      MantissaRange(x);
      MantissaRange(y);
      var a, b := Smaller(p, q), Larger(p, q);
      var m := if Below(p, q) then Mantissa(x) else Mantissa(y);
      var n := if Below(p, q) then Mantissa(y) else Mantissa(x);
      ShiftKeepsOrder(a, b, m, n);
      if p.neg != q.neg {
        GapDecides(a, b, m, n);
      }
    }
  }

  lemma Repacked(x: float32, flip: bool)
    requires Normal(x)
    ensures var r := PackedNum(Loaded(x, flip));
      Exponent(r) == Exponent(x) && Fraction(r) == Fraction(x) && Sign(r) == (Sign(x) != flip)
  {
    hide Pow, Top;
    var m := Mantissa(x);
    FullOperand(m, Exponent(x) - 24);
    SmallPowers();
    var n := Loaded(x, flip);
    DivIs(0x100_0000, n.mant, m, 0);
    CompressFields(m, Exponent(x), n.neg);
  }

  /** r is x, with its sign flipped if so asked. */
  ghost predicate Unchanged(r: float32, x: float32, flip: bool) {
    Exponent(r) == Exponent(x) && Fraction(r) == Fraction(x) && Sign(r) == (Sign(x) != flip)
  }

  /** The larger operand comes out unchanged when the other one is too far below it. */
  lemma FarApart(x: float32, y: float32, sub: bool)
    requires ZeroOrNormal(x) && ZeroOrNormal(y) && !Benign(x, y, sub)
    ensures var r := PackedNum(Added(Loaded(x, false), Loaded(y, sub)));
      if Exponent(x) > Exponent(y) then Unchanged(r, x, false) else Unchanged(r, y, sub)
  {
    hide Lost, Shifted, DropsBits, Packed, Mantissa;
    MantissaRange(x);
    MantissaRange(y);
    var p, q := Loaded(x, false), Loaded(y, sub);
    var a, b := Smaller(p, q), Larger(p, q);
    var m := if Below(p, q) then Mantissa(x) else Mantissa(y);
    var n := if Below(p, q) then Mantissa(y) else Mantissa(x);
    GapDecides(a, b, m, n);
    GapLost(a, b);
    Repacked(x, false);
    Repacked(y, sub);
  }

  /**
   * FADD and FSUB.  On zero and normal operands with a sum below the overflow threshold the result
   * is the exact sum rounded toward zero if and only if the effective signs agree, or the exponents
   * are at most 47 apart, or an operand is zero; otherwise it is the larger operand.
   */
  method AddSub(x: float32, y: float32, sub: bool) returns (r: float32)
    ensures ZeroOrNormal(x) && ZeroOrNormal(y) && Abs(Total(x, y, sub)) < Overflow() ==>
      (Truncates(r, Total(x, y, sub)) <==> Benign(x, y, sub))
    ensures ZeroOrNormal(x) && ZeroOrNormal(y) && !Benign(x, y, sub) ==>
      if Exponent(x) > Exponent(y) then Unchanged(r, x, false) else Unchanged(r, y, sub)
    ensures ZeroOrNormal(x) && ZeroOrNormal(y) ==>
      Sign(r) == if Total(x, y, sub) == 0 then Zero(y) && Sign(x) else Total(x, y, sub) < 0
  {
    hide Zero, Pow, Top, Packed, Shifted, Mantissa, Exponent, Sign, Smaller, Larger, Added, Loaded;
    hide Truncates, Total, Benign, Unchanged, Overflow, Abs, Wrap, ZeroOrNormal;
    var fpu := new FPU();
    fpu.LoadAB(x, y, sub);
    LoadedOrder(x, y, sub);
    AddedFits(Loaded(x, false), Loaded(y, sub));
    var both := fpu.AddSwpExp();
    if both {
      AddedIs(Loaded(x, false), Loaded(y, sub));
      fpu.AddShift();
      fpu.AddFrac();
    }
    fpu.Norm();
    r := fpu.Result();
    AddSubIs(x, y, sub, r);
  }

  lemma AddSubIs(x: float32, y: float32, sub: bool, r: float32)
    requires r == PackedNum(Added(Loaded(x, false), Loaded(y, sub)))
    ensures ZeroOrNormal(x) && ZeroOrNormal(y) && Abs(Total(x, y, sub)) < Overflow() ==>
      (Truncates(r, Total(x, y, sub)) <==> Benign(x, y, sub))
    ensures ZeroOrNormal(x) && ZeroOrNormal(y) && !Benign(x, y, sub) ==>
      if Exponent(x) > Exponent(y) then Unchanged(r, x, false) else Unchanged(r, y, sub)
    ensures ZeroOrNormal(x) && ZeroOrNormal(y) ==>
      Sign(r) == if Total(x, y, sub) == 0 then Zero(y) && Sign(x) else Total(x, y, sub) < 0
  {
    hide *;
    if ZeroOrNormal(x) && ZeroOrNormal(y) {
      BenignIs(x, y, sub);
      PackedSign(Added(Loaded(x, false), Loaded(y, sub)));
      AddedSign(Loaded(x, false), Loaded(y, sub));
      LoadedSign(x, false);
      LoadedSign(y, sub);
      if Abs(Total(x, y, sub)) < Overflow() {
        AddedTruncates(Loaded(x, false), Loaded(y, sub));
      }
      if !Benign(x, y, sub) {
        FarApart(x, y, sub);
      }
    }
  }

  /** The exponents of 2^50 and -1 are 50 apart, and 2^50 is not 2^50 - 1 rounded toward zero. */
  lemma DifferenceTooLarge()
    ensures Normal(0x5880_0000) && Normal(0xBF80_0000) && Gap(0x5880_0000, 0xBF80_0000) == 50
    ensures !Benign(0x5880_0000, 0xBF80_0000, false)
    ensures !Truncates(0x5880_0000, Total(0x5880_0000, 0xBF80_0000, false))
  {
    hide *;
    FarOperands();
    FarTotal();
    FarWeights();
    TooLarge(0x5880_0000, 0x80_0000 * Weight(177) - 0x80_0000 * Weight(127));
  }

  lemma FarOperands()
    ensures Normal(0x5880_0000) && Normal(0xBF80_0000) && Gap(0x5880_0000, 0xBF80_0000) == 50
    ensures !Benign(0x5880_0000, 0xBF80_0000, false)
    ensures Exponent(0x5880_0000) == 177 && Mantissa(0x5880_0000) == 0x80_0000 && !Sign(0x5880_0000)
  {
    hide Pow, Weight;
    TwoOperands();
  }

  lemma FarTotal()
    ensures Total(0x5880_0000, 0xBF80_0000, false) == 0x80_0000 * Weight(177) - 0x80_0000 * Weight(127)
  {
    TwoOperands();
    hide Pow, Mantissa, Exponent, Sign, Weight;
  }

  lemma FarWeights()
    ensures 0 < Weight(127) <= Weight(177)
  {
    PowMonotone(2, 277, 327);
  }

  /** So FADD(2^50, -1) comes out too large. */
  method AddTooLarge() returns (r: float32)
    ensures r == 0x5880_0000 && !Truncates(r, Total(0x5880_0000, 0xBF80_0000, false))
  {
    hide *;
    DifferenceTooLarge();
    r := AddSub(0x5880_0000, 0xBF80_0000, false);
    FirstIsLarger();
    UnchangedIs(r, 0x5880_0000);
  }

  lemma UnchangedIs(r: float32, x: float32)
    requires Unchanged(r, x, false)
    ensures r == x
  {
    hide Fraction, Exponent, Sign;
    FieldsDetermine(r, x);
  }

  lemma FirstIsLarger()
    ensures Exponent(0x5880_0000) > Exponent(0xBF80_0000)
    ensures ZeroOrNormal(0x5880_0000) && ZeroOrNormal(0xBF80_0000)
  {
  }

  lemma TwoOperands()
    ensures Exponent(0x5880_0000) == 177 && Mantissa(0x5880_0000) == 0x80_0000 && !Sign(0x5880_0000)
    ensures Exponent(0xBF80_0000) == 127 && Mantissa(0xBF80_0000) == 0x80_0000 && Sign(0xBF80_0000)
  {
  }

  lemma TooLarge(r: float32, X: int)
    requires Normal(r) && 0 <= X < Mantissa(r) * Weight(Exponent(r))
    ensures !Truncates(r, X)
  {
  }

  /** Addition and subtraction never need the left shift of normalize23. */
  lemma AddNeverShiftsLeft(x: float32, y: float32, sub: bool)
    requires ZeroOrNormal(x) && ZeroOrNormal(y)
    ensures var c := Added(Loaded(x, false), Loaded(y, sub)).mant; c == 0 || Top(c) >= 23
  {
    hide Pow, Top;
    SmallPowers();
    MantissaRange(x);
    MantissaRange(y);
    var p, q := Loaded(x, false), Loaded(y, sub);
    var c := Added(p, q).mant;
    if !Zero(x) && !Zero(y) {
      var a, b := Smaller(p, q), Larger(p, q);
      var m := if Below(p, q) then Mantissa(x) else Mantissa(y);
      var n := if Below(p, q) then Mantissa(y) else Mantissa(x);
      ShiftKeepsOrder(a, b, m, n);
      DifferenceIsCoarse(a, b, m, n);
    }
    if c >= 0x80_0000 {
      TopBounds(c);
      PowOrder(23, Top(c) + 1, c);
    }
  }

  lemma DifferenceIsCoarse(a: Num, b: Num, m: nat, n: nat)
    requires LoadedPair(a, b, m, n)
    ensures b.mant == Shifted(a, b) || b.mant - Shifted(a, b) >= 0x80_0000
  {
    var gap := b.exp - a.exp;
    if gap == 0 {
      DivIs(1, a.mant, a.mant, 0);
    } else if gap == 1 {
      assert Pow(2, 1) == 2 * Pow(2, 0) == 2;
      DivIs(2, a.mant, m * 0x80_0000, 0);
    } else {
      HalfShift(a.mant, gap, 2);
      SmallPowers();
    }
  }

  // ----- products and fused sums -----

  /** The exact product, scaled like every other value: Exact(x) * Exact(y) is 2^300 times it. */
  ghost function ExactProduct(x: float32, y: float32): int {
    Signed(Sign(x) != Sign(y), Product(x, y) * Weight(Exponent(x) + Exponent(y) - 150))
  }

  lemma ProductIsExact(x: float32, y: float32)
    ensures Exact(x) * Exact(y) == Pow(2, 300) * ExactProduct(x, y)
  {
    hide Pow, Mantissa, Exponent, Sign;
    var m, n, d, e := Mantissa(x), Mantissa(y), Exponent(x) + 150, Exponent(y) + 150;
    PowSum(2, d, e);
    PowSum(2, 300, Exponent(x) + Exponent(y));
    Regroup(m, Pow(2, d), n, Pow(2, e));
    Regroup(1, Pow(2, 300), m * n, Pow(2, Exponent(x) + Exponent(y)));
    SignedProduct(Sign(x), Sign(y), m * Pow(2, d), n * Pow(2, e),
                  Product(x, y) * Pow(2, Exponent(x) + Exponent(y)), Pow(2, 300));
  }

  lemma SignedProduct(s: bool, t: bool, u: int, v: int, z: int, c: int)
    requires u * v == c * z
    ensures Signed(s, u) * Signed(t, v) == c * Signed(s != t, z)
  {
    assert (-u) * v == -(u * v) && u * (-v) == -(u * v) && (-u) * (-v) == u * v;
    assert c * (-z) == -(c * z);
  }

  lemma MultipliedIs(x: float32, y: float32, flip: bool)
    requires ZeroOrNormal(x) && ZeroOrNormal(y)
    ensures var p := Multiplied(x, y, flip);
      && Wide(p) && (p.mant == 0 <==> Zero(x) || Zero(y))
      && NumValue(p) == (if flip then -ExactProduct(x, y) else ExactProduct(x, y))
  {
    hide Weight, Mantissa, Exponent, Sign, Zero, Normal;
    MantissaRange(x);
    MantissaRange(y);
    ProductFits(x, y);
    ProductFull(Mantissa(x), Mantissa(y));
  }

  lemma ProductFull(m: nat, n: nat)
    ensures m >= 0x80_0000 && n >= 0x80_0000 ==> m * n >= 0x4000_0000_0000
    ensures m == 0 || n == 0 ==> m * n == 0
  {
    if m >= 0x80_0000 && n >= 0x80_0000 {
      TimesMonotone(m, 0x80_0000, n);
    }
  }

  lemma LoadedSign(x: float32, flip: bool)
    requires ZeroOrNormal(x)
    ensures Loaded(x, flip).neg == (Sign(x) != flip) && (Loaded(x, flip).mant == 0 <==> Zero(x))
  {
  }

  /** FMUL: the exact product rounded toward zero; the sign is right for zero and tiny products too. */
  method FMul(x: float32, y: float32) returns (r: float32)
    ensures ZeroOrNormal(x) && ZeroOrNormal(y) && Abs(ExactProduct(x, y)) < Overflow() ==>
      Truncates(r, ExactProduct(x, y))
    ensures Sign(r) == (Sign(x) != Sign(y))
  {
    hide Pow, Top, Packed, Mantissa, Exponent, Sign, Truncates, Overflow, Abs, ExactProduct, Product, NumValue, Weight;
    var fpu := new FPU();
    fpu.Mul(x, y);
    ProductFits(x, y);
    fpu.Norm();
    r := fpu.Result();
    PackedSign(Multiplied(x, y, false));
    if ZeroOrNormal(x) && ZeroOrNormal(y) && Abs(ExactProduct(x, y)) < Overflow() {
      MultipliedIs(x, y, false);
      PackedTruncates(Multiplied(x, y, false));
    }
  }

  /** (chA ? -1 : 1) x y + (chB ? -1 : 1) z */
  ghost function Fused(x: float32, y: float32, z: float32, chA: bool, chB: bool): int {
    (if chA then -ExactProduct(x, y) else ExactProduct(x, y)) + (if chB then -Exact(z) else Exact(z))
  }

  lemma FusedOrder(x: float32, y: float32, z: float32, chA: bool, chB: bool)
    requires ZeroOrNormal(x) && ZeroOrNormal(y) && ZeroOrNormal(z)
    ensures var p, q := Multiplied(x, y, chA), Loaded(z, chB);
      Wide(p) && Wide(q) && KeepsOrder(p, q) && NumValue(p) + NumValue(q) == Fused(x, y, z, chA, chB)
  {
    hide NumValue, Exact, ExactProduct, Lost, Shifted, Mantissa, Product, Zero, Normal;
    MultipliedIs(x, y, chA);
    LoadedIs(z, chB);
    MantissaRange(z);
    var p, q := Multiplied(x, y, chA), Loaded(z, chB);
    if p.mant != 0 && q.mant != 0 {
      if Below(p, q) {
        ProductBelow(p, q);
      } else {
        LoadedBelow(q, p, Mantissa(z));
      }
    }
  }

  /** A shifted product stays below a loaded operand. */
  lemma ProductBelow(a: Num, b: Num)
    requires Wide(a) && Wide(b) && a.exp <= b.exp <= 254 && b.mant >= 0x8000_0000_0000
    ensures Lost(a, b) ==> Shifted(a, b) < b.mant
  {
    if a.exp == b.exp {
      DivIs(1, a.mant, a.mant, 0);
    } else {
      HalfShift(a.mant, b.exp - a.exp, 1);
      SmallPowers();
    }
  }

  /** A loaded operand that loses bits leaves much less than a product. */
  lemma LoadedBelow(a: Num, b: Num, m: nat)
    requires a.mant == m * 0x100_0000 && 0 < a.mant < 0x1_0000_0000_0000
    requires a.exp <= b.exp && b.mant >= 0x4000_0000_0000
    ensures Lost(a, b) ==> Shifted(a, b) + 2 <= b.mant
  {
    if b.exp - a.exp <= 24 {
      SmallShift(m, b.exp - a.exp);
    } else {
      LargeShift(a.mant, b.exp - a.exp);
    }
  }

  /**
   * FMADD, FMSUB, FNMADD and FNMSUB (chA and chB tell them apart).  The result is the exact
   * x * y + z with those signs, rounded toward zero once, if and only if the effective signs agree,
   * or an operand is zero, or no bit is shifted out, or packing drops a bit of the difference.
   */
  method FusedMultiplyAdd(x: float32, y: float32, z: float32, chA: bool, chB: bool) returns (r: float32)
    ensures ZeroOrNormal(x) && ZeroOrNormal(y) && ZeroOrNormal(z) && Abs(Fused(x, y, z, chA, chB)) < Overflow() ==>
      (Truncates(r, Fused(x, y, z, chA, chB)) <==> RoundsRight(Multiplied(x, y, chA), Loaded(z, chB)))
    ensures ZeroOrNormal(x) && ZeroOrNormal(y) && ZeroOrNormal(z) ==>
      Sign(r) == if Fused(x, y, z, chA, chB) == 0 then Zero(z) && ((Sign(x) != Sign(y)) != chA)
                 else Fused(x, y, z, chA, chB) < 0
  {
    hide Pow, Top, Packed, Shifted, Mantissa, Exponent, Sign, Smaller, Larger, Added, Product;
    hide Truncates, RoundsRight, Fused, Overflow, Abs, Wrap, Zero, ZeroOrNormal;
    var fpu := new FPU();
    fpu.Mul(x, y);
    fpu.LoadB(z, chA, chB);
    ghost var p, q := Multiplied(x, y, chA), Loaded(z, chB);
    FusedFits(x, y, z, chA, chB);
    AddedFits(p, q);
    var both := fpu.AddSwpExp();
    if both {
      AddedIs(p, q);
      fpu.AddShift();
      fpu.AddSwpFrac();
      fpu.AddFrac();
    }
    fpu.Norm();
    r := fpu.Result();
    if ZeroOrNormal(x) && ZeroOrNormal(y) && ZeroOrNormal(z) {
      FusedOrder(x, y, z, chA, chB);
      PackedSign(Added(p, q));
      AddedSign(p, q);
      LoadedSign(z, chB);
      if Abs(Fused(x, y, z, chA, chB)) < Overflow() {
        AddedTruncates(p, q);
      }
    }
  }

  /** What the exponents decide for nonzero operands whose signs disagree. */
  lemma FusedGap(x: float32, y: float32, z: float32, chA: bool, chB: bool)
    requires Normal(x) && Normal(y) && Normal(z)
    requires Multiplied(x, y, chA).neg != Loaded(z, chB).neg
    ensures var p, q := Multiplied(x, y, chA), Loaded(z, chB);
      if Below(p, q) then
        && (p.exp == q.exp || 25 <= q.exp - p.exp <= 46 ==> RoundsRight(p, q))
        && (q.exp - p.exp >= 48 ==> !RoundsRight(p, q))
      else
        && (p.exp - q.exp <= 24 ==> RoundsRight(p, q))
        && (p.exp - q.exp >= 48 ==> (RoundsRight(p, q) <==> DropsBits(p.mant, p.exp)))
  {
    hide NumValue, Exact, ExactProduct, Mantissa, Product, Inexact, DropsBits, Lost, Shifted;
    MantissaRange(x);
    MantissaRange(y);
    MantissaRange(z);
    MultipliedIs(x, y, chA);
    var p, q := Multiplied(x, y, chA), Loaded(z, chB);
    if Below(p, q) {
      ProductShifted(p, q, Mantissa(z));
    } else {
      OperandShifted(q, p, Mantissa(z));
    }
  }

  /** A product is shifted: a full operand stays exact only if the whole product is shifted out. */
  lemma ProductShifted(a: Num, b: Num, n: nat)
    requires 0x4000_0000_0000 <= a.mant < 0x1_0000_0000_0000 && 0x80_0000 <= n < 0x100_0000
    requires b.mant == n * 0x100_0000 && -150 <= a.exp <= b.exp && b.exp >= -23 && a.neg != b.neg
    ensures b.exp == a.exp ==> !Lost(a, b)
    ensures 25 <= b.exp - a.exp <= 46 ==> DropsBits(SumMant(a, b), b.exp)
    ensures 48 <= b.exp - a.exp ==> Lost(a, b) && !DropsBits(SumMant(a, b), b.exp)
  {
    hide Inexact, Top, Pow;
    var gap := b.exp - a.exp;
    if gap >= 48 {
      LargeShift(a.mant, gap);
      FullOperand(n, b.exp);
    } else if 25 <= gap <= 46 {
      LargeShift(a.mant, gap);
      ShiftKeepsBit(a.mant, gap);
      NearDifference(n, Shifted(a, b));
    } else if gap == 0 {
      PowZero();
    }
  }

  lemma ShiftKeepsBit(mant: nat, gap: nat)
    requires 0x4000_0000_0000 <= mant < 0x1_0000_0000_0000 && 25 <= gap <= 46
    ensures mant / Pow(2, gap) >= 1
  {
    SmallPowers();
    hide Pow;
    PowMonotone(2, gap, 46);
    DivMonotoneOne(mant, Pow(2, gap));
  }

  lemma DivMonotoneOne(m: nat, p: nat)
    requires 0 < p <= m
    ensures m / p >= 1
  {
  }

  /** An operand is shifted: by up to 24 it loses nothing, by 48 everything. */
  lemma OperandShifted(a: Num, b: Num, m: nat)
    requires 0x80_0000 <= m < 0x100_0000 && a.mant == m * 0x100_0000
    requires -150 <= a.exp <= b.exp && b.mant > 0 && a.neg != b.neg
    ensures b.exp - a.exp <= 24 ==> !Lost(a, b)
    ensures 48 <= b.exp - a.exp ==> Lost(a, b) && SumMant(a, b) == b.mant
  {
    if b.exp - a.exp <= 24 {
      SmallShift(m, b.exp - a.exp);
    } else {
      LargeShift(a.mant, b.exp - a.exp);
    }
  }

  /** FNMSUB on 1, 1 and 2^50: the exact 2^50 - 1 is rounded up to 2^50 as well. */
  method FusedTooLarge() returns (r: float32)
    ensures !Truncates(r, Fused(0x3F80_0000, 0x3F80_0000, 0x5880_0000, true, false))
  {
    hide *;
    FusedOperands();
    FusedGap(0x3F80_0000, 0x3F80_0000, 0x5880_0000, true, false);
    FusedInRange();
    r := FusedMultiplyAdd(0x3F80_0000, 0x3F80_0000, 0x5880_0000, true, false);
  }

  lemma OneAndLarge()
    ensures Exponent(0x3F80_0000) == 127 && Mantissa(0x3F80_0000) == 0x80_0000 && !Sign(0x3F80_0000)
    ensures Exponent(0x5880_0000) == 177 && Mantissa(0x5880_0000) == 0x80_0000 && !Sign(0x5880_0000)
  {
  }

  lemma FusedOperands()
    ensures Normal(0x3F80_0000) && Normal(0x5880_0000) && ZeroOrNormal(0x3F80_0000) && ZeroOrNormal(0x5880_0000)
    ensures var p, q := Multiplied(0x3F80_0000, 0x3F80_0000, true), Loaded(0x5880_0000, false);
      p.neg != q.neg && Below(p, q) && q.exp - p.exp >= 48
  {
    OneAndLarge();
    hide Mantissa, Exponent, Sign;
  }

  lemma FusedInRange()
    ensures Abs(Fused(0x3F80_0000, 0x3F80_0000, 0x5880_0000, true, false)) < Overflow()
  {
    OneAndLarge();
    hide Mantissa, Exponent, Sign, Pow;
    SmallPowers();
    PowSum(2, 23, 327);
    PowSum(2, 46, 254);
    PowMonotone(2, 300, 350);
    PowMonotone(2, 351, 428);
    PowNext(350);
  }

  lemma FusedFits(x: float32, y: float32, z: float32, chA: bool, chB: bool)
    ensures Multiplied(x, y, chA).mant < 0x1_0000_0000_0000 && Loaded(z, chB).mant < 0x1_0000_0000_0000
  {
    ProductFits(x, y);
  }
}
