/**
 * The series behind pi.c: pi + 3 is the sum over k of k * k! / (2k-1)!!.  For an odd prime a the
 * routine works with k! and (2k-1)!! stripped of all factors a and keeps the difference of the two
 * exponents in v; this module proves what those numbers are worth.
 */
module PiSeries {
  import opened Arith
  import opened Primes

  /** (2k-1)!!, the product of the first k odd numbers */
  function OddFact(k: nat): (f: nat)
    ensures f >= 1
  {
    if k == 0 then 1 else (2 * k - 1) * OddFact(k - 1)
  }

  /** The numerator of the sum of the first k terms over the common denominator (2k-1)!! */
  function Numer(k: nat): nat {
    if k == 0 then 0 else (2 * k - 1) * Numer(k - 1) + k * Fact(k)
  }

  // ----- exponents in factorials -----

  lemma ValFact(a: nat, n: nat)
    requires Prime(a) && n >= 1
    ensures Val(a, Fact(n)) == Val(a, n) + Val(a, Fact(n - 1))
    ensures Unit(a, Fact(n)) == Unit(a, n) * Unit(a, Fact(n - 1))
  {
    ValTimes(a, n, Fact(n - 1));
  }

  lemma ValOddFact(a: nat, k: nat)
    requires Prime(a) && k >= 1
    ensures Val(a, OddFact(k)) == Val(a, 2 * k - 1) + Val(a, OddFact(k - 1))
    ensures Unit(a, OddFact(k)) == Unit(a, 2 * k - 1) * Unit(a, OddFact(k - 1))
  {
    ValTimes(a, 2 * k - 1, OddFact(k - 1));
  }

  lemma DivStep(a: nat, n: nat)
    requires a >= 2 && n >= 1
    ensures n % a == 0 ==> n / a >= 1 && (n - 1) / a == n / a - 1
    ensures n % a != 0 ==> (n - 1) / a == n / a
  {
    var q, r := n / a, n % a;
    if r == 0 {
      DivIs(a, n - 1, q - 1, a - 1);
    } else {
      DivIs(a, n - 1, q, r - 1);
    }
  }

  /** Legendre's formula, one level at a time. */
  lemma {:induction false} Legendre(a: nat, n: nat)
    requires Prime(a)
    ensures Val(a, Fact(n)) == n / a + Val(a, Fact(n / a))
  {
    if n > 0 {
      Legendre(a, n - 1);
      ValFact(a, n);
      DivStep(a, n);
      if n % a == 0 {
        ValFact(a, n / a);
      }
    } else {
      assert 0 / a == 0;
    }
  }

  /** The largest e with a^e <= m */
  function IntLog(a: nat, m: nat): nat
    requires a >= 2
  {
    if m < a then
      0
    else
      DivShrinks(a, m);
      1 + IntLog(a, m / a)
  }

  lemma DivShrinks(a: nat, m: nat)
    requires 2 <= a <= m
    ensures 1 <= m / a < m
  {
    var q := m / a;
    assert m == a * q + m % a;
    if q >= 1 {
      TimesGrows(q, a - 1);
      Distribute(q, a, 1);
    }
  }

  lemma {:induction false} IntLogIsLog(a: nat, m: nat)
    requires a >= 2 && m >= 1
    ensures Pow(a, IntLog(a, m)) <= m < Pow(a, IntLog(a, m) + 1)
    decreases m
  {
    if m < a {
      assert Pow(a, 1) == a * Pow(a, 0) == a;
    } else {
      DivShrinks(a, m);
      var h, e := m / a, IntLog(a, m / a);
      IntLogIsLog(a, h);
      Rescale(a, m, Pow(a, e), Pow(a, e + 1));
      assert Pow(a, e + 2) == a * Pow(a, e + 1);
    }
  }

  lemma Rescale(a: nat, m: nat, low: nat, high: nat)
    requires a >= 2 && low <= m / a < high
    ensures a * low <= m < a * high
  {
    TimesMonotone(a, low, m / a);
    TimesMonotone(a, m / a + 1, high);
    Distribute(a, m / a, 1);
  }

  lemma {:induction false} IntLogMonotone(a: nat, m: nat, n: nat)
    requires a >= 2 && 1 <= m <= n
    ensures IntLog(a, m) <= IntLog(a, n)
  {
    IntLogIsLog(a, m);
    IntLogIsLog(a, n);
    if IntLog(a, m) > IntLog(a, n) {
      PowMonotone(a, IntLog(a, n) + 1, IntLog(a, m));
    }
  }

  /** Each level of Legendre's formula loses at most one between m! and (m/2)!^2. */
  lemma {:induction false} Spread(a: nat, m: nat, k: nat)
    requires Prime(a) && 2 * k <= m <= 2 * k + 1
    ensures 2 * Val(a, Fact(k)) <= Val(a, Fact(m)) <= 2 * Val(a, Fact(k)) + IntLog(a, m)
    decreases m
  {
    Legendre(a, m);
    Legendre(a, k);
    if m >= a {
      Halve(a, m, k);
      Spread(a, m / a, k / a);
    } else {
      DivIs(a, m, 0, m);
      DivIs(a, k, 0, k);
    }
  }

  lemma Halve(a: nat, m: nat, k: nat)
    requires a >= 2 && 2 * k <= m <= 2 * k + 1 && m >= a
    ensures 2 * (k / a) <= m / a <= 2 * (k / a) + 1 && m / a < m
  {
    var q, r := k / a, k % a;
    var b := m - 2 * k;
    DoubleDivision(a, k, q, r);
    if 2 * r + b < a {
      DivIs(a, m, 2 * q, 2 * r + b);
    } else {
      DivIs(a, m, 2 * q + 1, 2 * r + b - a);
    }
    DivShrinks(a, m);
  }

  lemma DoubleDivision(a: int, k: int, q: int, r: int)
    requires k == a * q + r
    ensures 2 * k == a * (2 * q) + 2 * r && 2 * k == a * (2 * q + 1) + 2 * r - a
  {
    Distribute(a, q, q);
    Distribute(a, 2 * q, 1);
  }

  // ----- the excess v, and Kummer's bound -----

  lemma ValTwice(a: nat, k: nat)
    requires Prime(a) && a >= 3 && k >= 1
    ensures Val(a, 2 * k) == Val(a, k)
  {
    DivIs(a, 2, 0, 2);
    assert Val(a, 2) == 0;
    hide Val;
    ValTimes(a, 2, k);
  }

  lemma {:induction false} FactSplit(a: nat, k: nat)
    requires Prime(a) && a >= 3
    ensures Val(a, Fact(2 * k)) == Val(a, OddFact(k)) + Val(a, Fact(k))
  {
    if k > 0 {
      FactSplit(a, k - 1);
      ValFact(a, 2 * k);
      ValFact(a, 2 * k - 1);
      ValFact(a, k);
      ValOddFact(a, k);
      ValTwice(a, k);
    }
  }

  /** The exponent of a in (2k-1)!! over that in k!: what v holds after round k. */
  ghost function Excess(a: nat, k: nat): int
    requires a >= 2
  {
    Val(a, OddFact(k)) - Val(a, Fact(k))
  }

  function Choose(n: nat, k: nat): (c: nat)
    requires k <= n
    ensures c >= 1
  {
    if k == 0 || k == n then 1 else Choose(n - 1, k - 1) + Choose(n - 1, k)
  }

  lemma {:induction false} ChooseFact(n: nat, k: nat)
    requires k <= n
    ensures Choose(n, k) * (Fact(k) * Fact(n - k)) == Fact(n)
  {
    if 0 < k < n {
      ChooseFact(n - 1, k - 1);
      ChooseFact(n - 1, k);
      Pascal(Choose(n - 1, k - 1), Choose(n - 1, k), k, n - k, Fact(k - 1), Fact(n - k - 1), Fact(n - 1));
    }
  }

  lemma Pascal(c: int, d: int, k: int, h: int, f: int, g: int, r: int)
    requires c * (f * (h * g)) == r && d * ((k * f) * g) == r
    ensures (c + d) * ((k * f) * (h * g)) == (k + h) * r
  {
    assert c * ((k * f) * (h * g)) == k * (c * (f * (h * g)));
    assert d * ((k * f) * (h * g)) == h * (d * ((k * f) * g));
  }

  lemma ExcessIsCentral(a: nat, k: nat)
    requires Prime(a) && a >= 3
    ensures Excess(a, k) == Val(a, Choose(2 * k, k))
  {
    FactSplit(a, k);
    ChooseFact(2 * k, k);
    PositiveTimes(Fact(k), Fact(k));
    ValTimes(a, Choose(2 * k, k), Fact(k) * Fact(k));
    ValTimes(a, Fact(k), Fact(k));
  }

  /**
   * Kummer's bound: for every odd prime a and k <= count, the excess is the exponent of a in the
   * central binomial coefficient, so a to that power is at most 2k and the power a^(vmax-v) is an
   * integer one.
   */
  lemma Kummer(a: nat, k: nat, count: nat)
    requires Prime(a) && a >= 3 && 1 <= k <= count
    ensures Excess(a, k) == Val(a, Choose(2 * k, k))
    ensures 0 <= Excess(a, k) <= IntLog(a, 2 * count)
    ensures Pow(a, Excess(a, k)) <= 2 * k
  {
    ExcessIsCentral(a, k);
    FactSplit(a, k);
    Spread(a, 2 * k, k);
    IntLogMonotone(a, 2 * k, 2 * count);
    IntLogIsLog(a, 2 * k);
    PowMonotone(a, Excess(a, k), IntLog(a, 2 * k));
  }

  // ----- the term of one k, modulo a^vmax -----

  /** t is k * num / den * a^(vmax-v) modulo a^vmax, with the division cleared. */
  ghost predicate IsTerm(a: nat, vmax: nat, k: nat, t: nat)
    requires a >= 2
  {
    && t < Pow(a, vmax)
    && 0 <= Excess(a, k) <= vmax
    && Cong(Pow(a, vmax), t * Unit(a, OddFact(k)), k * Unit(a, Fact(k)) * Pow(a, vmax - Excess(a, k)))
  }

  /** The congruence has one solution below the modulus, so it names the term. */
  lemma TermUnique(a: nat, vmax: nat, k: nat, t: nat, t': nat)
    requires Prime(a) && IsTerm(a, vmax, k, t) && IsTerm(a, vmax, k, t')
    ensures t == t'
  {
    var q, w := Pow(a, vmax), Unit(a, OddFact(k));
    var c := k * Unit(a, Fact(k)) * Pow(a, vmax - Excess(a, k));
    DividesSum(q, t * w - c, t' * w - c);
    Distribute(w, t, t');
    PowerPasses(a, vmax, w, t - t');
    var z := Quotient(q, t - t');
    if z >= 1 {
      TimesGrows(q, z);
    } else if z <= -1 {
      TimesGrows(q, -z);
    }
  }

  /** Where the excess is zero the term is zero: the routine is right to skip it. */
  lemma SkippedTerm(a: nat, vmax: nat, k: nat)
    requires a >= 2 && Excess(a, k) == 0
    ensures IsTerm(a, vmax, k, 0)
  {
    ZeroIsCong(Pow(a, vmax), k * Unit(a, Fact(k)), 0 * Unit(a, OddFact(k)));
  }

  lemma ZeroIsCong(q: nat, c: int, z: int)
    requires q > 0 && z == 0
    ensures Cong(q, z, c * q)
  {
    Multiple(q, -c);
  }

  /** Multiplied by (2k-1)!! the term is k * k! * a^vmax, also modulo the factors a of (2k-1)!!. */
  lemma TermCleared(a: nat, vmax: nat, k: nat, t: nat)
    requires a >= 2 && IsTerm(a, vmax, k, t)
    ensures Cong(Pow(a, Val(a, OddFact(k)) + vmax), OddFact(k) * t, k * Fact(k) * Pow(a, vmax))
  {
    var d, f := OddFact(k), Fact(k);
    var e, g, v := Val(a, d), Val(a, f), Excess(a, k);
    var w, u := Unit(a, d), Unit(a, f);
    ValUnit(a, d);
    ValUnit(a, f);
    var j := Quotient(Pow(a, vmax), t * w - k * u * Pow(a, vmax - v));
    PowSum(a, e, vmax);
    PowSum(a, e, vmax - v);
    PowSum(a, g, vmax);
    assert e + (vmax - v) == g + vmax;
    Cleared(Pow(a, e), Pow(a, g), Pow(a, vmax), Pow(a, vmax - v), d, f, w, u, k, t, j);
    Multiple(Pow(a, e + vmax), j);
  }

  lemma Cleared(ae: int, ag: int, q: int, r: int, d: int, f: int, w: int, u: int, k: int, t: int, j: int)
    requires d == ae * w && f == ag * u
    requires ae * r == ag * q
    requires t * w - k * u * r == q * j
    ensures d * t - k * f * q == (ae * q) * j
  {
    assert d * t == ae * (t * w);
    assert ae * (t * w) == ae * (k * u * r) + ae * (q * j);
    assert ae * (k * u * r) == (k * u) * (ae * r);
    assert (k * u) * (ag * q) == k * f * q by {
      assert k * f * q == k * (ag * u) * q;
    }
    Associate(ae, q, j);
  }

  function Sum(terms: seq<nat>): nat {
    if terms == [] then 0 else Sum(terms[..|terms| - 1]) + terms[|terms| - 1]
  }

  ghost predicate AreTerms(a: nat, vmax: nat, terms: seq<nat>)
    requires a >= 2
  {
    forall k: nat {:trigger terms[k]} :: k < |terms| ==> IsTerm(a, vmax, k + 1, terms[k])
  }

  /**
   * The sum of the terms of 1..count, times (2 count - 1)!!, is the numerator of the series times
   * a^vmax, modulo a^vmax and all factors a of the denominator.
   */
  lemma {:induction false} SumCleared(a: nat, vmax: nat, terms: seq<nat>)
    requires Prime(a) && AreTerms(a, vmax, terms)
    ensures Cong(Pow(a, Val(a, OddFact(|terms|)) + vmax),
                 OddFact(|terms|) * Sum(terms), Numer(|terms|) * Pow(a, vmax))
    decreases |terms|
  {
    var k, q := |terms|, Pow(a, vmax);
    if k == 0 {
      Multiple(Pow(a, Val(a, OddFact(0)) + vmax), 0);
    } else {
      var t, s := terms[k - 1], Sum(terms[..k - 1]);
      SumCleared(a, vmax, terms[..k - 1]);
      TermCleared(a, vmax, k, t);
      SumStep(a, vmax, k, s, t);
    }
  }

  lemma SumStep(a: nat, vmax: nat, k: nat, s: nat, t: nat)
    requires Prime(a) && k >= 1
    requires Cong(Pow(a, Val(a, OddFact(k - 1)) + vmax), OddFact(k - 1) * s, Numer(k - 1) * Pow(a, vmax))
    requires Cong(Pow(a, Val(a, OddFact(k)) + vmax), OddFact(k) * t, k * Fact(k) * Pow(a, vmax))
    ensures Cong(Pow(a, Val(a, OddFact(k)) + vmax), OddFact(k) * (s + t), Numer(k) * Pow(a, vmax))
  {
    hide Pow, Val;
    var o, d, x, q := 2 * k - 1, OddFact(k - 1), Numer(k - 1), Pow(a, vmax);
    ValOddFact(a, k);
    PowSum(a, Val(a, o), Val(a, d) + vmax);
    ValDivides(a, o);
    DividesProduct(Pow(a, Val(a, o)), Pow(a, Val(a, d) + vmax), o, d * s - x * q);
    DividesSum(Pow(a, Val(a, OddFact(k)) + vmax), o * (d * s - x * q), OddFact(k) * t - k * Fact(k) * q);
    AddTerm(o, d, s, x, q, t, k * Fact(k));
  }

  lemma AddTerm(o: int, d: int, s: int, x: int, q: int, t: int, y: int)
    ensures o * (d * s - x * q) + ((o * d) * t - y * q) == (o * d) * (s + t) - (o * x + y) * q
  {
    Distribute(o, d * s, x * q);
    Associate(o, d, s);
    Associate(o, x, q);
    Distribute(o * d, s, t);
  }
}
