/** Divisibility, primes and the exponent of a prime in a number: the arithmetic behind pi.c. */
module Primes {
  import opened Arith

  lemma DividesTimes(d: nat, x: int, y: int)
    requires d > 0 && Divides(d, x)
    ensures Divides(d, x * y)
  {
    var q := Quotient(d, x);
    assert x * y == d * (q * y);
    Multiple(d, q * y);
  }

  lemma DividesSum(d: nat, x: int, y: int)
    requires d > 0 && Divides(d, x) && Divides(d, y)
    ensures Divides(d, x + y) && Divides(d, x - y)
  {
    var q := Quotient(d, x);
    var r := Quotient(d, y);
    assert x + y == d * (q + r) && x - y == d * (q - r);
    Multiple(d, q + r);
    Multiple(d, q - r);
  }

  lemma DividesProduct(d: nat, e: nat, x: int, y: int)
    requires d > 0 && e > 0 && Divides(d, x) && Divides(e, y)
    ensures d * e > 0 && Divides(d * e, x * y)
  {
    var q := Quotient(d, x);
    var r := Quotient(e, y);
    assert d * e > 0;
    assert x * y == (d * e) * (q * r);
    Multiple(d * e, q * r);
  }

  lemma DividesTrans(d: nat, e: nat, x: int)
    requires d > 0 && e > 0 && Divides(d, e) && Divides(e, x)
    ensures Divides(d, x)
  {
    var q := Quotient(e, x);
    DividesTimes(d, e, q);
  }

  // ----- congruence -----

  predicate Cong(m: nat, x: int, y: int)
    requires m > 0
  {
    Divides(m, x - y)
  }

  lemma CongSame(m: nat, x: int)
    requires m > 0
    ensures Cong(m, x, x)
  {
    Multiple(m, 0);
  }

  lemma CongRem(m: nat, x: int)
    requires m > 0
    ensures Cong(m, x % m, x) && Cong(m, x, x % m)
  {
    Multiple(m, x / m);
    Multiple(m, -(x / m));
    assert m * (-(x / m)) == x % m - x;
  }

  lemma CongTrans(m: nat, x: int, y: int, z: int)
    requires m > 0 && Cong(m, x, y) && Cong(m, y, z)
    ensures Cong(m, x, z)
  {
    DividesSum(m, x - y, y - z);
  }

  lemma CongTimes(m: nat, x: int, y: int, z: int)
    requires m > 0 && Cong(m, x, y)
    ensures Cong(m, x * z, y * z) && Cong(m, z * x, z * y)
  {
    DividesTimes(m, x - y, z);
    assert (x - y) * z == x * z - y * z;
  }

  lemma CongProduct(m: nat, x: int, y: int, z: int, w: int)
    requires m > 0 && Cong(m, x, y) && Cong(m, z, w)
    ensures Cong(m, x * z, y * w)
  {
    CongTimes(m, x, y, z);
    CongTimes(m, z, w, y);
    CongTrans(m, x * z, y * z, y * w);
  }

  /** Below the modulus a number is determined by what it is congruent to. */
  lemma CongIsRem(m: nat, r: int, x: int)
    requires m > 0 && 0 <= r < m && Cong(m, r, x)
    ensures r == x % m
  {
    var j := Quotient(m, r - x);
    assert x == m * (x / m) + x % m;
    assert m * (j + x / m) == r - x % m by { Distribute(m, j, -(x / m)); }
    var d := j + x / m;
    if d >= 1 {
      TimesGrows(m, d);
    } else if d <= -1 {
      TimesGrows(m, -d);
    }
  }

  ghost predicate Prime(n: nat) {
    n >= 2 && forall d: nat {:trigger Divides(d, n)} :: 2 <= d < n ==> !Divides(d, n)
  }

  /** Euclid's lemma for a factor below the prime: the remainder of p by r is a smaller such factor. */
  lemma {:induction false} EuclidBelow(p: nat, r: nat, y: int)
    requires Prime(p) && 0 < r < p && Divides(p, r * y)
    ensures Divides(p, y)
    decreases r
  {
    if r > 1 {
      var q, s := p / r, p % r;
      assert p == r * q + s;
      assert !Divides(r, p);
      DividesTimes(p, r * y, q);
      Multiple(p, y);
      DividesSum(p, p * y, r * y * q);
      assert s * y == p * y - r * y * q by {
        assert s * y == (p - r * q) * y;
        assert (p - r * q) * y == p * y - r * q * y;
        assert r * q * y == r * y * q;
      }
      EuclidBelow(p, s, y);
    }
  }

  lemma Euclid(p: nat, x: int, y: int)
    requires Prime(p) && Divides(p, x * y)
    ensures Divides(p, x) || Divides(p, y)
  {
    var r, q := x % p, x / p;
    if r != 0 {
      assert x == p * q + r;
      Multiple(p, q * y);
      DividesSum(p, x * y, p * (q * y));
      assert r * y == x * y - p * (q * y) by {
        assert r * y == (x - p * q) * y;
        assert (x - p * q) * y == x * y - p * q * y;
      }
      EuclidBelow(p, r, y);
    }
  }

  lemma {:induction false} LeastFactor(n: nat, from: nat) returns (p: nat)
    requires 2 <= from <= n
    requires forall d: nat {:trigger Divides(d, n)} :: 2 <= d < from ==> !Divides(d, n)
    ensures Prime(p) && Divides(p, n) && p <= n
    ensures forall d: nat {:trigger Divides(d, n)} :: 2 <= d < p ==> !Divides(d, n)
    decreases n - from
  {
    if Divides(from, n) {
      p := from;
      forall d: nat | 2 <= d < p
        ensures !Divides(d, p)
      {
        if Divides(d, p) {
          DividesTrans(d, p, n);
        }
      }
    } else {
      assert from != n by { Multiple(n, 1); }
      p := LeastFactor(n, from + 1);
    }
  }

  lemma PrimeFactor(n: nat) returns (p: nat)
    requires n >= 2
    ensures Prime(p) && Divides(p, n) && p <= n
    ensures forall d: nat {:trigger Divides(d, n)} :: 2 <= d < p ==> !Divides(d, n)
  {
    p := LeastFactor(n, 2);
  }

  lemma {:induction false} PrimeOfPower(p: nat, b: nat, e: nat)
    requires Prime(p) && Divides(p, Pow(b, e))
    ensures Divides(p, b)
  {
    if e > 0 {
      Euclid(p, b, Pow(b, e - 1));
      if !Divides(p, b) {
        PrimeOfPower(p, b, e - 1);
      }
    }
  }

  lemma PrimeDividesPrime(p: nat, q: nat)
    requires Prime(p) && Prime(q) && Divides(p, q)
    ensures p == q
  {
    var k := Quotient(p, q);
    if k >= 1 {
      TimesGrows(p, k);
    }
  }

  // ----- the exponent of p in n, and what is left of n without p -----

  function Val(p: nat, n: nat): nat
    requires p >= 2 && n >= 1
    decreases n
  {
    if n % p == 0 then 1 + Val(p, n / p) else 0
  }

  function Unit(p: nat, n: nat): (u: nat)
    requires p >= 2 && n >= 1
    ensures 1 <= u <= n && u % p != 0
    decreases n
  {
    if n % p == 0 then Unit(p, n / p) else n
  }

  lemma Peel(p: nat, n: nat, w: nat, u: nat)
    requires p > 0 && n % p == 0 && n / p == w * u
    ensures n == (p * w) * u
  {
    Associate(p, w, u);
  }

  lemma {:induction false} ValUnit(p: nat, n: nat)
    requires p >= 2 && n >= 1
    ensures n == Pow(p, Val(p, n)) * Unit(p, n)
    decreases n
  {
    if n % p == 0 {
      var m := n / p;
      ValUnit(p, m);
      Peel(p, n, Pow(p, Val(p, m)), Unit(p, m));
      assert Pow(p, Val(p, n)) == p * Pow(p, Val(p, m));
    }
  }

  /** Exponent and rest are determined by the product. */
  lemma {:induction false} ValUnique(p: nat, e: nat, u: nat)
    requires p >= 2 && u >= 1 && u % p != 0
    ensures Pow(p, e) * u >= 1
    ensures Val(p, Pow(p, e) * u) == e && Unit(p, Pow(p, e) * u) == u
  {
    if e > 0 {
      ValUnique(p, e - 1, u);
      var m := Pow(p, e - 1) * u;
      Associate(p, Pow(p, e - 1), u);
      Multiple(p, m);
      PositiveTimes(p, m);
    }
  }

  lemma ValIs(p: nat, n: nat, e: nat, u: nat)
    requires p >= 2 && u >= 1 && u % p != 0 && n == Pow(p, e) * u && n >= 1
    ensures Val(p, n) == e && Unit(p, n) == u
  {
    ValUnique(p, e, u);
  }

  lemma UnitsTimes(p: nat, u: nat, w: nat)
    requires Prime(p) && u % p != 0 && w % p != 0
    ensures u * w >= 1 && (u * w) % p != 0
  {
    PositiveTimes(u, w);
    if Divides(p, u * w) {
      Euclid(p, u, w);
    }
  }

  lemma ValUnitTimes(p: nat, x: nat, y: nat)
    requires p >= 2 && x >= 1 && y >= 1
    ensures x * y == Pow(p, Val(p, x) + Val(p, y)) * (Unit(p, x) * Unit(p, y))
  {
    hide Val, Unit, Pow;
    ValUnit(p, x);
    ValUnit(p, y);
    PowSum(p, Val(p, x), Val(p, y));
    Regroup(Pow(p, Val(p, x)), Unit(p, x), Pow(p, Val(p, y)), Unit(p, y));
  }

  lemma ValTimes(p: nat, x: nat, y: nat)
    requires Prime(p) && x >= 1 && y >= 1
    ensures x * y >= 1
    ensures Val(p, x * y) == Val(p, x) + Val(p, y)
    ensures Unit(p, x * y) == Unit(p, x) * Unit(p, y)
  {
    hide Val, Unit, Pow;
    var u, w := Unit(p, x), Unit(p, y);
    PositiveTimes(x, y);
    UnitsTimes(p, u, w);
    ValUnitTimes(p, x, y);
    ValIs(p, x * y, Val(p, x) + Val(p, y), u * w);
  }

  lemma ValPow(p: nat, e: nat)
    requires p >= 2
    ensures Val(p, Pow(p, e)) == e && Unit(p, Pow(p, e)) == 1
  {
    ValUnique(p, e, 1);
  }

  lemma ValDivides(p: nat, n: nat)
    requires p >= 2 && n >= 1
    ensures Divides(Pow(p, Val(p, n)), n)
  {
    ValUnit(p, n);
    Multiple(Pow(p, Val(p, n)), Unit(p, n));
  }

  // ----- a number is divisible by y as soon as it is by every prime power of y -----

  /** A power of one prime passes a factor that the prime does not divide. */
  lemma {:induction false} PowerPasses(b: nat, e: nat, c: int, x: int)
    requires Prime(b) && !Divides(b, c) && Divides(Pow(b, e), c * x)
    ensures Divides(Pow(b, e), x)
    decreases e
  {
    if e > 0 {
      var m := Pow(b, e - 1);
      assert m >= 1;
      var q := Quotient(b * m, c * x);
      Associate(b, m, q);
      Multiple(b, m * q);
      Euclid(b, c, x);
      var y := Quotient(b, x);
      assert b * (c * y) == c * (b * y);
      CancelLeft(b, c * y, m * q);
      Multiple(m, q);
      PowerPasses(b, e - 1, c, y);
      var z := Quotient(m, y);
      Associate(b, m, z);
      Multiple(b * m, z);
    } else {
      assert x % 1 == 0;
    }
  }

  ghost predicate PrimePowersDivide(y: nat, x: int)
    requires y >= 1
  {
    forall p: nat {:trigger Prime(p)} :: Prime(p) ==> Divides(Pow(p, Val(p, y)), x)
  }

  lemma Cofactor(p: nat, y: nat) returns (k: nat)
    requires p >= 2 && y >= 1 && Divides(p, y)
    ensures y == p * k && 1 <= k < y
  {
    k := Quotient(p, y);
    TimesGrows(k, p - 1);
    assert p * k == k + k * (p - 1);
  }

  lemma FactorDivides(p: nat, y: nat, x: int)
    requires p >= 2 && y >= 1 && Divides(p, y) && Divides(Pow(p, Val(p, y)), x)
    ensures Divides(p, x)
  {
    PowDividesPow(p, 1, Val(p, y));
    assert Pow(p, 1) == p * Pow(p, 0) == p;
    DividesTrans(p, Pow(p, Val(p, y)), x);
  }

  lemma {:induction false} ByPrimePowers(y: nat, x: int)
    requires y >= 1 && PrimePowersDivide(y, x)
    ensures Divides(y, x)
    decreases y
  {
    if y > 1 {
      var p := PrimeFactor(y);
      var y' := Cofactor(p, y);
      FactorDivides(p, y, x);
      var x' := Quotient(p, x);
      forall b: nat | Prime(b)
        ensures Divides(Pow(b, Val(b, y')), x')
      {
        LessPower(b, p, y', x');
      }
      ByPrimePowers(y', x');
      var z := Quotient(y', x');
      Associate(p, y', z);
      Multiple(y, z);
    } else {
      assert x % 1 == 0;
    }
  }

  lemma LessPower(b: nat, p: nat, y: nat, x: int)
    requires Prime(b) && Prime(p) && y >= 1 && p * y >= 1
    requires Divides(Pow(b, Val(b, p * y)), p * x)
    ensures Divides(Pow(b, Val(b, y)), x)
  {
    ValTimes(b, p, y);
    var e := Val(b, y);
    if b == p {
      assert Val(p, p) == 1 by { ValPow(p, 1); assert Pow(p, 1) == p * Pow(p, 0) == p; }
      PowerCancels(p, e, x);
    } else {
      assert Val(b, p) == 0 by {
        if Divides(b, p) {
          PrimeDividesPrime(b, p);
        }
      }
      PowerPasses(b, e, p, x);
    }
  }

  // ----- primes above any number -----

  function Fact(n: nat): (f: nat)
    ensures f >= 1
  {
    if n == 0 then 1 else n * Fact(n - 1)
  }

  lemma {:induction false} DividesFact(d: nat, n: nat)
    requires 1 <= d <= n
    ensures Divides(d, Fact(n))
  {
    if d == n {
      Multiple(d, Fact(n - 1));
    } else {
      DividesFact(d, n - 1);
      DividesTimes(d, Fact(n - 1), n);
    }
  }

  /** The least prime above n exists: a prime factor of n! + 1 is above n. */
  lemma PrimeAbove(n: nat) returns (p: nat)
    ensures Prime(p) && p > n
  {
    p := PrimeFactor(Fact(n) + 1);
    assert !Divides(p, 1);
    if p <= n {
      DividesFact(p, n);
      DividesSum(p, Fact(n) + 1, Fact(n));
    }
  }

  // ----- greatest common divisor, by Euclid's algorithm -----

  function Gcd(v: nat, u: nat): (g: nat)
    requires v > 0
    ensures g > 0
    decreases u
  {
    if u == 0 then v else Gcd(u, v % u)
  }

  lemma DividesRecombined(g: nat, u: int, q: int, r: int)
    requires g > 0 && Divides(g, u) && Divides(g, r)
    ensures Divides(g, u * q + r)
  {
    DividesTimes(g, u, q);
    DividesSum(g, u * q, r);
  }

  lemma {:induction false} GcdDivides(v: nat, u: nat)
    requires v > 0
    ensures Divides(Gcd(v, u), v) && Divides(Gcd(v, u), u)
    decreases u
  {
    if u == 0 {
      Multiple(v, 1);
    } else {
      var g, r := Gcd(u, v % u), v % u;
      GcdDivides(u, r);
      DividesRecombined(g, u, v / u, r);
      assert v == u * (v / u) + r;
    }
  }

  /** What shares no factor a with a power of the prime a is coprime to it. */
  lemma {:induction false} CofactorOfPower(a: nat, e: nat, g: nat, h: nat)
    requires Prime(a) && g > 0 && !Divides(a, g) && g * h == Pow(a, e)
    ensures g == 1
    decreases e
  {
    if e > 0 {
      Multiple(a, Pow(a, e - 1));
      Euclid(a, g, h);
      var k := Quotient(a, h);
      assert a * (g * k) == g * (a * k);
      CancelLeft(a, g * k, Pow(a, e - 1));
      CofactorOfPower(a, e - 1, g, k);
    } else {
      assert g * h == 1;
    }
  }

  lemma CoprimeToPower(a: nat, e: nat, x: nat)
    requires Prime(a) && x % a != 0
    ensures Gcd(Pow(a, e), x) == 1
  {
    var g := Gcd(Pow(a, e), x);
    GcdDivides(Pow(a, e), x);
    if Divides(a, g) {
      DividesTrans(a, g, x);
    }
    var h := Quotient(g, Pow(a, e));
    assert h >= 0;
    CofactorOfPower(a, e, g, h);
  }
}
