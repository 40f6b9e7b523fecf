/** digits of pi.c: the residues of all primes put together, over exact fractions. */
module PiDigits {
  import opened Arith
  import opened Primes
  import opened PiSeries
  import opened PiLoops

  // ----- digits: the fractions of all primes add up to the fraction of the series -----

  function Frac(x: real): (r: real)
    ensures 0.0 <= r < 1.0
  {
    x - x.Floor as real
  }

  function Ratio(x: int, y: int): real
    requires y > 0
  {
    x as real / y as real
  }

  /** The sum of k * k! / (2k-1)!! over k = 1..count */
  ghost function Series(count: nat): real {
    if count == 0 then 0.0 else Series(count - 1) + Ratio(count * Fact(count), OddFact(count))
  }

  lemma RatioIs(x: int, y: int, r: real)
    requires y > 0 && r * y as real == x as real
    ensures r == Ratio(x, y)
  {
  }

  lemma {:induction false} SeriesIsRatio(count: nat)
    ensures Series(count) == Ratio(Numer(count), OddFact(count))
  {
    if count > 0 {
      SeriesIsRatio(count - 1);
      AddRatios(Numer(count - 1), OddFact(count - 1), 2 * count - 1, count * Fact(count));
    }
  }

  lemma AddRatios(x: int, d: int, o: int, y: int)
    requires d > 0 && o > 0 && o * d > 0
    ensures Ratio(x, d) + Ratio(y, o * d) == Ratio(o * x + y, o * d)
  {
    var r, s := Ratio(x, d), Ratio(y, o * d);
    var dr, or := d as real, o as real;
    assert (o * d) as real == or * dr;
    assert (o * x + y) as real == or * x as real + y as real;
    assert r * dr == x as real;
    assert s * (or * dr) == y as real;
    assert (r + s) * (or * dr) == or * (r * dr) + s * (or * dr);
    RatioIs(o * x + y, o * d, r + s);
  }

  /** T / M is the running sum; after it is scaled it agrees with goal / d at the prime p. */
  ghost predicate Settled(p: nat, d: nat, goal: int, T: int, M: nat)
    requires d >= 1 && M >= 1
  {
    p >= 2 && Cong(Pow(p, Val(p, d) + Val(p, M)), d * T, goal * M)
  }

  ghost predicate AllSettled(a: nat, d: nat, goal: int, T: int, M: nat)
    requires d >= 1 && M >= 1
  {
    && (forall p: nat {:trigger Prime(p)} :: Prime(p) && 3 <= p < a ==> Settled(p, d, goal, T, M))
    && (forall p: nat {:trigger Prime(p)} :: Prime(p) && Divides(p, M) ==> 3 <= p < a)
  }

  /** The numerator over M * q of T / M + s / q reduced modulo 1 */
  ghost function Accumulate(T: int, M: int, s: int, q: int): int
    requires M * q > 0
  {
    (T * q + s * M) % (M * q)
  }

  lemma KeepSettled(p: nat, d: nat, goal: int, T: int, M: nat, s: int, q: nat)
    requires Prime(p) && d >= 1 && M >= 1 && q >= 1 && M * q >= 1
    requires Settled(p, d, goal, T, M) && Val(p, q) == 0
    ensures Settled(p, d, goal, Accumulate(T, M, s, q), M * q)
  {
    var P := Pow(p, Val(p, d) + Val(p, M));
    var T' := Accumulate(T, M, s, q);
    CongRem(M * q, T * q + s * M);
    var j := Quotient(M * q, T' - (T * q + s * M));
    ValTimes(p, M, q);
    PowSum(p, Val(p, d), Val(p, M));
    ValDivides(p, d);
    ValDivides(p, M);
    DividesProduct(Pow(p, Val(p, d)), Pow(p, Val(p, M)), d, M);
    DividesTimes(P, d * M, s + q * j);
    DividesTimes(P, d * T - goal * M, q);
    DividesSum(P, (d * T - goal * M) * q, d * M * (s + q * j));
    Recombine(d, T, goal, M, s, q, j);
  }

  lemma Recombine(d: int, T: int, goal: int, M: int, s: int, q: int, j: int)
    ensures d * (T * q + s * M + (M * q) * j) - goal * (M * q)
         == (d * T - goal * M) * q + d * M * (s + q * j)
    ensures d * (T * q + s * M + (M * q) * j) - goal * (M * q)
         == (d * q) * (T + M * j) + (d * s - goal * q) * M
  {
  }

  lemma NewSettled(a: nat, vmax: nat, d: nat, goal: int, T: int, M: nat, s: int)
    requires Prime(a) && d >= 1 && M >= 1 && M * Pow(a, vmax) >= 1 && Val(a, M) == 0
    requires Cong(Pow(a, Val(a, d) + vmax), d * s, goal * Pow(a, vmax))
    ensures Settled(a, d, goal, Accumulate(T, M, s, Pow(a, vmax)), M * Pow(a, vmax))
  {
    var q, P := Pow(a, vmax), Pow(a, Val(a, d) + vmax);
    var T' := Accumulate(T, M, s, q);
    CongRem(M * q, T * q + s * M);
    var j := Quotient(M * q, T' - (T * q + s * M));
    ValTimes(a, M, q);
    ValPow(a, vmax);
    PowSum(a, Val(a, d), vmax);
    ValDivides(a, d);
    Multiple(q, 1);
    DividesProduct(Pow(a, Val(a, d)), q, d, q);
    DividesTimes(P, d * q, T + M * j);
    DividesTimes(P, d * s - goal * q, M);
    DividesSum(P, d * q * (T + M * j), (d * s - goal * q) * M);
    Recombine(d, T, goal, M, s, q, j);
  }

  /** The residue of one prime, shifted by c, is what the partial fractions ask for. */
  lemma ResidueIsRight(a: nat, vmax: nat, count: nat, s: nat, c: nat, r: nat)
    requires Prime(a) && IsResidue(a, vmax, count, s)
    requires r == s * (c % Pow(a, vmax)) % Pow(a, vmax)
    ensures var d := OddFact(count);
      Cong(Pow(a, Val(a, d) + vmax), d * r, (c * Numer(count)) * Pow(a, vmax))
  {
    var d, q, x := OddFact(count), Pow(a, vmax), Numer(count);
    var Q := Pow(a, Val(a, d) + vmax);
    CongTimes(Q, d * s, x * q, c);
    CongRem(q, c);
    CongTimes(q, c % q, c, s);
    CongRem(q, s * (c % q));
    CongTrans(q, r, s * (c % q), s * c);
    ScaleUp(a, vmax, d, r, s * c);
    Associate(d, s, c);
    Associate(c, x, q);
    CongTrans(Q, d * r, d * s * c, x * q * c);
    assert x * q * c == c * (x * q);
  }

  lemma PrimeRoundSettles(a: nat, vmax: nat, d: nat, goal: int, T: int, M: nat, s: int)
    requires Prime(a) && a >= 3 && d >= 1 && M >= 1 && AllSettled(a, d, goal, T, M)
    requires Cong(Pow(a, Val(a, d) + vmax), d * s, goal * Pow(a, vmax))
    ensures M * Pow(a, vmax) >= 1
    ensures AllSettled(a + 1, d, goal, Accumulate(T, M, s, Pow(a, vmax)), M * Pow(a, vmax))
  {
    var q := Pow(a, vmax);
    PositiveTimes(M, q);
    forall p: nat | Prime(p) && 3 <= p < a + 1
      ensures Settled(p, d, goal, Accumulate(T, M, s, q), M * q)
    {
      if p < a {
        OtherPrime(p, a, vmax);
        KeepSettled(p, d, goal, T, M, s, q);
      } else {
        NewSettled(a, vmax, d, goal, T, M, s);
      }
    }
    forall p: nat | Prime(p) && Divides(p, M * q)
      ensures 3 <= p < a + 1
    {
      Euclid(p, M, q);
      if !Divides(p, M) {
        PrimeOfPower(p, a, vmax);
        PrimeDividesPrime(p, a);
      }
    }
  }

  lemma OtherPrime(p: nat, a: nat, vmax: nat)
    requires Prime(p) && Prime(a) && p != a
    ensures Val(p, Pow(a, vmax)) == 0
  {
    if Divides(p, Pow(a, vmax)) {
      PrimeOfPower(p, a, vmax);
      PrimeDividesPrime(p, a);
    }
  }

  lemma {:induction false} PrimeOfOddFact(p: nat, k: nat)
    requires Prime(p) && Divides(p, OddFact(k))
    ensures 3 <= p < 2 * k
  {
    if k == 0 {
      DivIs(p, 1, 0, 1);
    } else {
      var o := 2 * k - 1;
      Euclid(p, o, OddFact(k - 1));
      if Divides(p, o) {
        var z := Quotient(p, o);
        if z >= 1 {
          TimesGrows(p, z);
        }
      } else {
        PrimeOfOddFact(p, k - 1);
      }
    }
  }

  /** With every prime of the denominators settled, T / M and goal / d differ by an integer. */
  lemma AllPrimesSettle(a: nat, count: nat, goal: int, T: int, M: nat)
    requires M >= 1 && a > 2 * count && AllSettled(a, OddFact(count), goal, T, M)
    ensures OddFact(count) * M >= 1 && Divides(OddFact(count) * M, OddFact(count) * T - goal * M)
  {
    var d := OddFact(count);
    PositiveTimes(d, M);
    forall p: nat | Prime(p)
      ensures Divides(Pow(p, Val(p, d * M)), d * T - goal * M)
    {
      ValTimes(p, d, M);
      if Divides(p, d) {
        PrimeOfOddFact(p, count);
      }
      if Divides(p, d) || Divides(p, M) {
        assert Settled(p, d, goal, T, M);
      } else {
        assert (d * T - goal * M) % 1 == 0;
      }
    }
    ByPrimePowers(d * M, d * T - goal * M);
  }

  lemma CancelReal(c: real, x: real, y: real)
    requires c > 0.0 && c * x == c * y
    ensures x == y
  {
    assert c * (x - y) == 0.0;
  }

  lemma RatioTimes(x: int, y: int)
    requires y > 0
    ensures y as real * Ratio(x, y) == x as real
  {
  }

  lemma RegroupReal(a: real, b: real, x: real)
    ensures (a * b) * x == a * (b * x) && (a * b) * x == b * (a * x)
  {
  }

  lemma RatioShift(T: int, M: int, goal: int, d: int, j: int)
    requires d > 0 && M > 0 && d * T == goal * M + (d * M) * j
    ensures Ratio(T, M) == Ratio(goal, d) + j as real
  {
    var x, y := Ratio(T, M), Ratio(goal, d);
    var dr, Mr, jr := d as real, M as real, j as real;
    RatioTimes(T, M);
    RatioTimes(goal, d);
    RegroupReal(dr, Mr, x);
    RegroupReal(dr, Mr, y);
    assert (d * T) as real == dr * T as real;
    assert (goal * M) as real == Mr * goal as real;
    assert (d * M) as real == dr * Mr;
    assert ((d * M) * j) as real == (dr * Mr) * jr;
    assert (dr * Mr) * (y + jr) == (dr * Mr) * y + (dr * Mr) * jr;
    assert dr * Mr > 0.0;
    CancelReal(dr * Mr, x, y + jr);
  }

  lemma ProperRatio(T: int, M: int)
    requires 0 <= T < M
    ensures 0.0 <= Ratio(T, M) < 1.0
  {
  }

  lemma FracOf(T: int, M: int, goal: int, d: int)
    requires d > 0 && 0 <= T < M && d * M > 0 && Divides(d * M, d * T - goal * M)
    ensures Ratio(T, M) == Frac(Ratio(goal, d))
  {
    var j := Quotient(d * M, d * T - goal * M);
    RatioShift(T, M, goal, d, j);
    ProperRatio(T, M);
    assert Ratio(goal, d).Floor == -j;
  }

  lemma FracOfRem(t: int, m: int)
    requires m > 0
    ensures Ratio(t % m, m) == Frac(Ratio(t, m))
  {
    var j := -(t / m);
    Multiple(m, j);
    Distribute(m, t, t % m);
    assert t % m == t + m * j;
    RatioShift(t % m, m, t, m, j);
    ProperRatio(t % m, m);
    assert Ratio(t, m).Floor == -j;
  }

  lemma AddFraction(T: int, M: int, s: int, q: int)
    requires M > 0 && q > 0 && M * q > 0
    ensures Frac(Ratio(T, M) + Ratio(s, q)) == Ratio(Accumulate(T, M, s, q), M * q)
  {
    var x, y := Ratio(T, M), Ratio(s, q);
    var Mr, qr := M as real, q as real;
    RatioTimes(T, M);
    RatioTimes(s, q);
    RegroupReal(Mr, qr, x);
    RegroupReal(Mr, qr, y);
    assert (M * q) as real == Mr * qr;
    assert (T * q) as real == qr * T as real && (s * M) as real == Mr * s as real;
    assert (Mr * qr) * (x + y) == (Mr * qr) * x + (Mr * qr) * y;
    RatioIs(T * q + s * M, M * q, x + y);
    FracOfRem(T * q + s * M, M * q);
  }

  // ----- the routine -----

  /** The series moved n-1 decimals to the left */
  ghost function Shifted(n: nat, count: nat): real
    requires n >= 1
  {
    Pow(10, n - 1) as real * Series(count)
  }

  ghost function Goal(n: nat, count: nat): nat
    requires n >= 1
  {
    Pow(10, n - 1) * Numer(count)
  }

  /** The body of the loop over the primes, for one of them. */
  method PrimeRound(n: nat, count: nat, a: nat, sum: real, ghost T: nat, ghost M: nat)
    returns (sum': real, ghost T': nat, ghost M': nat)
    requires n >= 1 && Prime(a) && 3 <= a <= 2 * count
    requires T < M && sum == Ratio(T, M)
    requires AllSettled(a, OddFact(count), Goal(n, count), T, M)
    ensures T' < M' && sum' == Ratio(T', M')
    ensures AllSettled(a + 1, OddFact(count), Goal(n, count), T', M')
  {
    hide *;
    var vmax := IntLog(a, 2 * count);
    var av: nat := 1;
    PowIs(a, 0);
    for i := 0 to vmax
      invariant av == Pow(a, i)
    {
      PowIs(a, i + 1);
      av := av * a;
    }
    ModulusIsLarge(a, count);
    ghost var terms;
    var s: nat;
    s, terms := PrimeSum(a, vmax, av, count);
    var t := PowMod(10, n - 1, av);
    ghost var s0 := s;
    s := s * t % av;
    ResidueIsRight(a, vmax, count, s0, Pow(10, n - 1), s);
    RoundSettles(n, count, a, vmax, T, M, s);
    AddFraction(T, M, s, av);
    sum' := Frac(sum + Ratio(s, av));
    T', M' := Accumulate(T, M, s, av), M * av;
  }

  lemma PowIs(a: nat, e: nat)
    ensures Pow(a, e) == if e == 0 then 1 else Pow(a, e - 1) * a
  {
  }

  lemma RoundSettles(n: nat, count: nat, a: nat, vmax: nat, T: nat, M: nat, s: nat)
    requires n >= 1 && Prime(a) && a >= 3 && M >= 1
    requires AllSettled(a, OddFact(count), Goal(n, count), T, M)
    requires var d := OddFact(count);
      Cong(Pow(a, Val(a, d) + vmax), d * s, (Pow(10, n - 1) * Numer(count)) * Pow(a, vmax))
    ensures M * Pow(a, vmax) >= 1
    ensures 0 <= Accumulate(T, M, s, Pow(a, vmax)) < M * Pow(a, vmax)
    ensures AllSettled(a + 1, OddFact(count), Goal(n, count), Accumulate(T, M, s, Pow(a, vmax)), M * Pow(a, vmax))
  {
    hide Pow, Val, OddFact, Numer, AllSettled;
    PrimeRoundSettles(a, vmax, OddFact(count), Goal(n, count), T, M, s);
  }

  lemma NextSettles(a: nat, p: nat, d: nat, goal: int, T: int, M: nat)
    requires d >= 1 && M >= 1 && AllSettled(a + 1, d, goal, T, M) && LeastPrimeAbove(p, a)
    ensures AllSettled(p, d, goal, T, M)
  {
  }

  lemma StartSettled(d: nat, goal: int)
    requires d >= 1
    ensures Prime(3) && AllSettled(3, d, goal, 0, 1) && Ratio(0, 1) == 0.0
  {
    assert !Divides(2, 3);
    forall p: nat | Prime(p)
      ensures !Divides(p, 1)
    {
      DivIs(p, 1, 0, 1);
    }
  }

  lemma Finish(n: nat, count: nat, a: nat, T: nat, M: nat)
    requires n >= 1 && T < M && a > 2 * count
    requires AllSettled(a, OddFact(count), Goal(n, count), T, M)
    ensures Ratio(T, M) == Frac(Shifted(n, count))
  {
    hide *;
    AllPrimesSettle(a, count, Goal(n, count), T, M);
    FracOf(T, M, Goal(n, count), OddFact(count));
    ShiftedIsRatio(n, count);
  }

  lemma ShiftedIsRatio(n: nat, count: nat)
    requires n >= 1
    ensures Shifted(n, count) == Ratio(Goal(n, count), OddFact(count))
  {
    hide Pow, OddFact, Numer, Series, Ratio;
    SeriesIsRatio(count);
    ScaleRatio(Pow(10, n - 1), Numer(count), Goal(n, count), OddFact(count), Series(count));
  }

  lemma ScaleRatio(c: int, x: int, cx: int, y: int, r: real)
    requires y > 0 && cx == c * x && r == Ratio(x, y)
    ensures c as real * r == Ratio(cx, y)
  {
    RatioTimes(x, y);
    assert cx as real == c as real * x as real;
    RegroupReal(c as real, y as real, r);
    assert (c as real * r) * y as real == (c as real * y as real) * r;
    RatioIs(cx, y, c as real * r);
  }

  /**
   * Nine decimals of the series sum of k * k! / (2k-1)!!, k = 1..count, starting after the n-1st:
   * the residues of the single primes add up to the fraction of the whole, though no step ever
   * holds the large numerator or denominator.
   */
  method Digits(n: nat, count: nat) returns (r: int)
    requires n >= 1
    ensures r == (Frac(Shifted(n, count)) * 1000000000.0).Floor
  {
    hide *;
    var sum := 0.0;
    var a: nat := 3;
    ghost var T: nat, M: nat := 0, 1;
    StartSettled(OddFact(count), Goal(n, count));
    while a <= 2 * count
      invariant Prime(a) && a >= 3
      invariant T < M && sum == Ratio(T, M)
      invariant AllSettled(a, OddFact(count), Goal(n, count), T, M)
      decreases 2 * count - a
    {
      sum, T, M := PrimeRound(n, count, a, sum, T, M);
      var p := NextPrime(a);
      LeastIs(p, a);
      NextSettles(a, p, OddFact(count), Goal(n, count), T, M);
      a := p;
    }
    Finish(n, count, a, T, M);
    r := (sum * 1000000000.0).Floor;
  }

  lemma LeastIs(p: nat, n: nat)
    requires LeastPrimeAbove(p, n)
    ensures p > n && Prime(p)
  {
  }
}
