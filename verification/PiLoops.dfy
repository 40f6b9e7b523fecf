/** The inner loops of pi.c: modular arithmetic, primes, and the sum of one prime. */
module PiLoops {
  import opened Arith
  import opened Primes
  import opened PiSeries
  import CInt

  /**
   * Extended Euclid.  The result is the inverse of x modulo y exactly when the two are coprime; in
   * general it multiplies x to their greatest common divisor.
   */
  method InvMod(x: nat, y: nat) returns (r: nat)
    requires x >= 1 && y >= 1
    ensures r < y
    ensures Cong(y, r * x, Gcd(y, x))
  {
    var u: nat, v: nat, c: int, a: int := x, y, 1, 0;
    InvStart(x, y);
    while u != 0
      invariant v > 0 && Gcd(v, u) == Gcd(y, x)
      invariant Cong(y, u, c * x) && Cong(y, v, a * x)
      decreases u
    {
      var q := v / u;
      InvStep(x, y, u, v, c, a, q);
      c, a := a - q * c, c;
      u, v := v - q * u, u;
    }
    InvEnd(x, y, v, a);
    a := CInt.Rem(a, y);
    if a < 0 {
      a := y + a;
    }
    r := a;
  }

  lemma InvStart(x: nat, y: nat)
    requires y >= 1
    ensures Cong(y, x, 1 * x) && Cong(y, y, 0 * x)
  {
    Multiple(y, 0);
    Multiple(y, 1);
  }

  lemma InvStep(x: nat, y: nat, u: nat, v: nat, c: int, a: int, q: nat)
    requires y >= 1 && u > 0 && v > 0 && q == v / u
    requires Cong(y, u, c * x) && Cong(y, v, a * x)
    ensures 0 <= v - q * u < u && Gcd(v, u) == Gcd(u, v - q * u)
    ensures Cong(y, v - q * u, (a - q * c) * x)
  {
    assert v % u == v - q * u;
    DividesTimes(y, u - c * x, q);
    DividesSum(y, v - a * x, (u - c * x) * q);
    assert (u - c * x) * q == q * u - q * c * x;
    assert (a - q * c) * x == a * x - q * c * x;
  }

  lemma InvEnd(x: nat, y: nat, g: nat, a: int)
    requires y >= 1 && Cong(y, g, a * x)
    ensures var m := CInt.Rem(a, y); var r := if m < 0 then y + m else m;
      0 <= r < y && Cong(y, r * x, g)
  {
    CInt.QuotRem(a, y);
    var m, j := CInt.Rem(a, y), CInt.Quot(a, y);
    var r, i := if m < 0 then y + m else m, if m < 0 then j - 1 else j;
    CInt.Signs(y, i);
    Distribute(y, j, 1);
    assert r - a == y * (-i);
    Multiple(y, -i);
    CongTimes(y, r, a, x);
    CongBoth(y, r * x, a * x, g);
  }

  lemma CongBoth(m: nat, x: int, y: int, z: int)
    requires m > 0 && Cong(m, x, y) && Cong(m, z, y)
    ensures Cong(m, x, z)
  {
    DividesSum(m, x - y, z - y);
  }

  lemma {:induction false} PowCong(m: nat, x: nat, z: nat, h: nat)
    requires m >= 1 && Cong(m, x, z)
    ensures Cong(m, Pow(x, h), Pow(z, h))
  {
    if h == 0 {
      CongSame(m, 1);
    } else {
      PowCong(m, x, z, h - 1);
      CongProduct(m, x, z, Pow(x, h - 1), Pow(z, h - 1));
    }
  }

  lemma {:induction false} PowSquare(x: nat, h: nat)
    ensures Pow(x, 2 * h) == Pow(x * x, h)
  {
    if h > 0 {
      PowSquare(x, h - 1);
      assert Pow(x, 2 * h) == x * (x * Pow(x, 2 * h - 2));
    }
  }

  /** a^b modulo m by repeated squaring; the base need not be reduced. */
  method PowMod(a: nat, b: nat, m: nat) returns (r: nat)
    requires m > 0
    ensures r == Pow(a, b) % m <==> m > 1 || b > 0
    ensures b == 0 ==> r == 1
  {
    r := 1;
    var aa: nat, e: nat := a, b;
    CongSame(m, Pow(a, b));
    while true
      invariant Cong(m, r * Pow(aa, e), Pow(a, b))
      invariant r < m || (r == 1 == m && (e > 0 || b == 0))
      invariant b == 0 ==> e == 0 && r == 1
      decreases e
    {
      BitStep(m, r, aa, e, Pow(a, b));
      if e % 2 == 1 {
        r := r * aa % m;
      }
      e := e / 2;
      if e == 0 {
        break;
      }
      SquareStep(m, r, aa, e, Pow(a, b));
      aa := aa * aa % m;
    }
    if r < m {
      CongIsRem(m, r, Pow(a, b));
    }
  }

  lemma BitStep(m: nat, r: nat, x: nat, e: nat, p: nat)
    requires m > 0 && Cong(m, r * Pow(x, e), p)
    ensures Cong(m, (if e % 2 == 1 then r * x % m else r) * Pow(x * x, e / 2), p)
  {
    var h := e / 2;
    var y := Pow(x, 2 * h);
    PowSquare(x, h);
    if e % 2 == 1 {
      assert Pow(x, e) == x * y;
      Associate(r, x, y);
      CongRem(m, r * x);
      CongTimes(m, r * x % m, r * x, y);
      CongTrans(m, (r * x % m) * y, (r * x) * y, p);
    }
  }

  lemma SquareStep(m: nat, r: nat, x: nat, h: nat, p: nat)
    requires m > 0 && Cong(m, r * Pow(x * x, h), p)
    ensures Cong(m, r * Pow(x * x % m, h), p)
  {
    CongRem(m, x * x);
    PowCong(m, x * x % m, x * x, h);
    CongTimes(m, Pow(x * x % m, h), Pow(x * x, h), r);
    CongTrans(m, r * Pow(x * x % m, h), r * Pow(x * x, h), p);
  }

  // ----- primes -----

  /**
   * Odd trial division: right on every number except 1, which it calls prime, and 2, which it does
   * not.
   */
  method IsPrime(n: nat) returns (r: bool)
    ensures (r <==> Prime(n)) <==> n != 1 && n != 2
  {
    if n % 2 == 0 {
      EvenPrime(n);
      return false;
    }
    var i := 3;
    while i * i <= n
      invariant i >= 3 && i % 2 == 1
      invariant n == 1 || i <= n + 2
      invariant forall d: nat {:trigger Divides(d, n)} :: 2 <= d < i ==> !Divides(d, n)
      decreases n + 2 - i
    {
      RootBelow(i, n);
      if n % i == 0 {
        assert Divides(i, n);
        return false;
      }
      EvenDivisor(i + 1, n);
      i := i + 2;
    }
    if n > 1 {
      NoSmallDivisor(n, i);
    }
    return true;
  }

  lemma RootBelow(i: int, n: int)
    requires i >= 3 && i * i <= n
    ensures i < n
  {
    TimesGrows(i, i - 1);
    Distribute(i, i, 1);
  }

  lemma EvenPrime(n: nat)
    requires n % 2 == 0
    ensures Prime(n) <==> n == 2
  {
    TwoIsPrime();
    if n > 2 {
      assert Divides(2, n);
    }
  }

  lemma EvenDivisor(d: nat, n: nat)
    requires d > 0 && d % 2 == 0 && n % 2 == 1
    ensures !Divides(d, n)
  {
    if Divides(d, n) {
      DividesTrans(2, d, n);
    }
  }

  lemma NoSmallDivisor(n: nat, i: nat)
    requires n > 1 && i * i > n
    requires forall d: nat {:trigger Divides(d, n)} :: 2 <= d < i ==> !Divides(d, n)
    ensures Prime(n)
  {
    forall d: nat | 2 <= d < n
      ensures !Divides(d, n)
    {
      if Divides(d, n) {
        var k := Cofactor(d, n);
        assert k * d == n;
        Multiple(k, d);
        assert k >= 2;
        assert !Divides(k, n) || k >= i;
        SquareBelow(i, d, k);
      }
    }
  }

  lemma SquareBelow(i: nat, d: nat, k: nat)
    requires d >= i && k >= i
    ensures i * i <= d * k
  {
    TimesMonotone(i, i, k);
    TimesMonotone(k, i, d);
  }

  ghost predicate LeastPrimeAbove(p: nat, n: nat) {
    p > n && Prime(p) && forall d: nat {:trigger Prime(d)} :: n < d < p ==> !Prime(d)
  }

  /** Terminates since there are primes above n; right from 2 on. */
  method NextPrime(n: nat) returns (p: nat)
    ensures LeastPrimeAbove(p, n) <==> n >= 2
  {
    ghost var above := PrimeAbove(n + 2);
    p := n + 1;
    var r := IsPrime(p);
    while !r
      invariant n < p <= above
      invariant (r <==> Prime(p)) <==> p != 1 && p != 2
      invariant forall d: nat {:trigger Prime(d)} :: n < d < p && d > 2 ==> !Prime(d)
      decreases above - p
    {
      p := p + 1;
      r := IsPrime(p);
    }
    TwoIsPrime();
  }

  lemma TwoIsPrime()
    ensures Prime(2) && !Prime(1)
  {
  }

  // ----- the inner loops of digits, for one odd prime a -----

  /** kq is k reduced modulo a into 1..a. */
  ghost predicate Counts(a: nat, kq: nat, k: nat) {
    1 <= kq <= a && Cong(a, kq, k)
  }

  /** kq2 is 2k-1 reduced modulo a into 1..a+1. */
  ghost predicate CountsOdd(a: nat, kq2: nat, k: nat) {
    a > 0 && 1 <= kq2 <= a + 1 && Cong(a, kq2, 2 * k - 1)
  }

  lemma CountsMultiple(a: nat, kq: nat, k: nat)
    requires a >= 2 && 1 <= kq <= a + 1 && Cong(a, kq, k)
    ensures kq == a <==> k % a == 0
  {
    Multiple(a, 1);
    if kq == a {
      DividesSum(a, a, kq - k);
    } else if k % a == 0 {
      DividesSum(a, kq - k, k);
      DividesSum(a, kq, a);
      assert Divides(a, kq);
      if kq == a + 1 {
        DivIs(a, 1, 0, 1);
      } else {
        DivIs(a, kq, 0, kq);
      }
    }
  }

  lemma CountsNext(a: nat, q: int, k: int, d: int, c: int)
    requires a >= 2 && Cong(a, q, k) && (c == 0 || c == a)
    ensures Cong(a, q - c + d, k + d)
  {
    Multiple(a, 0);
    Multiple(a, 1);
    DividesSum(a, q - k, c);
  }

  /** do { t = t / a; } while ((t % a) == 0); counts the factors it takes out. */
  method Strip(t: nat, a: nat) returns (u: nat, c: nat)
    requires a >= 2 && t >= 1 && t % a == 0
    ensures u == Unit(a, t) && c == Val(a, t)
  {
    hide Unit, Val;
    StripOne(a, t);
    u, c := t / a, 1;
    while u % a == 0
      invariant u >= 1 && Unit(a, u) == Unit(a, t) && c + Val(a, u) == Val(a, t)
      decreases u
    {
      StripOne(a, u);
      u, c := u / a, c + 1;
    }
    StripNone(a, u);
  }

  lemma StripOne(a: nat, t: nat)
    requires a >= 2 && t >= 1 && t % a == 0
    ensures 1 <= t / a < t && Unit(a, t) == Unit(a, t / a) && Val(a, t) == 1 + Val(a, t / a)
  {
  }

  lemma StripNone(a: nat, t: nat)
    requires a >= 2 && t >= 1 && t % a != 0
    ensures Unit(a, t) == t && Val(a, t) == 0
  {
  }

  lemma UnitStep(a: nat, av: nat, num: nat, x: nat, y: nat)
    requires av >= 1 && num == y % av
    ensures num * x % av == x * y % av
  {
    CongRem(av, y);
    CongTimes(av, num, y, x);
    CongRem(av, num * x);
    CongTrans(av, num * x % av, num * x, x * y);
    CongIsRem(av, num * x % av, x * y);
  }

  /** The part of a round that keeps num, k! without its factors a. */
  method NumeratorRound(a: nat, av: nat, k: nat, kq: nat, num: nat, v: int)
    returns (kq': nat, num': nat, v': int)
    requires Prime(a) && av >= 1 && k >= 1 && Counts(a, kq, k)
    requires num == Unit(a, Fact(k - 1)) % av
    ensures Counts(a, kq', k + 1)
    ensures num' == Unit(a, Fact(k)) % av
    ensures v' == v - Val(a, k)
  {
    var t := k;
    kq', v' := kq, v;
    CountsMultiple(a, kq, k);
    CountsNext(a, kq, k, 1, if kq == a then a else 0);
    if kq' >= a {
      var c;
      t, c := Strip(k, a);
      v' := v' - c;
      kq' := 0;
    }
    kq' := kq' + 1;
    num' := num * t % av;
    ValFact(a, k);
    UnitStep(a, av, num, t, Unit(a, Fact(k - 1)));
  }

  /** The part of a round that keeps den, (2k-1)!! without its factors a. */
  method DenominatorRound(a: nat, av: nat, k: nat, kq2: nat, den: nat, v: int)
    returns (kq2': nat, den': nat, v': int)
    requires Prime(a) && a >= 3 && av >= 1 && k >= 1 && CountsOdd(a, kq2, k)
    requires den == Unit(a, OddFact(k - 1)) % av
    ensures CountsOdd(a, kq2', k + 1)
    ensures den' == Unit(a, OddFact(k)) % av
    ensures v' == v + Val(a, 2 * k - 1)
  {
    var t := 2 * k - 1;
    kq2', v' := kq2, v;
    CountsMultiple(a, kq2, 2 * k - 1);
    CountsNext(a, kq2, 2 * k - 1, 2, if kq2 >= a then a else 0);
    if kq2' >= a {
      if kq2' == a {
        var c;
        t, c := Strip(t, a);
        v' := v' + c;
      }
      kq2' := kq2' - a;
    }
    den' := den * t % av;
    kq2' := kq2' + 2;
    ValOddFact(a, k);
    UnitStep(a, av, den, t, Unit(a, OddFact(k - 1)));
  }

  ghost function Scaled(r: nat, num: nat, k: nat, p: nat): nat {
    r * num * k * p
  }

  /** k * num / den * a^(vmax-v) modulo av: den always has an inverse. */
  method TermRound(a: nat, vmax: nat, av: nat, k: nat, num: nat, den: nat, v: nat) returns (t: nat)
    requires Prime(a) && vmax >= 1 && av == Pow(a, vmax)
    requires num == Unit(a, Fact(k)) % av && den == Unit(a, OddFact(k)) % av
    requires v == Excess(a, k) && v <= vmax
    ensures t < av && IsTerm(a, vmax, k, t)
  {
    hide *;
    DenominatorIsUnit(a, vmax, k);
    t := InvMod(den, av);
    ghost var r := t;
    t := t * num % av;
    ghost var t1 := t;
    t := t * k % av;
    TermStart(a, av, r, num, k, t1);
    var i := v;
    while i < vmax
      invariant v <= i <= vmax
      invariant t < av && Cong(av, t, Scaled(r, num, k, Pow(a, i - v)))
    {
      TermStep(av, t, r, num, k, a, i - v);
      t := t * a % av;
      i := i + 1;
    }
    TermCorrect(av, t, r, num, den, k, Pow(a, vmax - v), Unit(a, Fact(k)), Unit(a, OddFact(k)));
    TermIs(a, vmax, k, t);
  }

  lemma TermIs(a: nat, vmax: nat, k: nat, t: nat)
    requires a >= 2 && t < Pow(a, vmax) && 0 <= Excess(a, k) <= vmax
    requires Cong(Pow(a, vmax), t * Unit(a, OddFact(k)),
                  k * Unit(a, Fact(k)) * Pow(a, vmax - Excess(a, k)))
    ensures IsTerm(a, vmax, k, t)
  {
  }

  lemma DenominatorIsUnit(a: nat, vmax: nat, k: nat)
    requires Prime(a) && vmax >= 1
    ensures a >= 2
    ensures var den := Unit(a, OddFact(k)) % Pow(a, vmax); den >= 1 && Gcd(Pow(a, vmax), den) == 1
  {
    assert Divides(a, Pow(a, vmax)) by {
      PowDividesPow(a, 1, vmax);
      assert Pow(a, 1) == a * Pow(a, 0) == a;
    }
    RemKeepsFactor(a, Pow(a, vmax), Unit(a, OddFact(k)));
    hide *;
    CoprimeToPower(a, vmax, Unit(a, OddFact(k)) % Pow(a, vmax));
  }

  lemma RemKeepsFactor(a: nat, av: nat, w: nat)
    requires a >= 2 && av >= 1 && Divides(a, av) && w % a != 0
    ensures w % av >= 1 && (w % av) % a != 0
  {
    CongRem(av, w);
    DividesTrans(a, av, w - w % av);
    if Divides(a, w % av) {
      DividesSum(a, w - w % av, w % av);
    }
  }

  lemma TermStart(a: nat, av: nat, r: nat, num: nat, k: nat, t1: nat)
    requires av > 0 && t1 == r * num % av
    ensures Cong(av, t1 * k % av, Scaled(r, num, k, Pow(a, 0)))
  {
    CongRem(av, r * num);
    CongTimes(av, t1, r * num, k);
    CongRem(av, t1 * k);
    CongTrans(av, t1 * k % av, t1 * k, r * num * k);
    ScaledByOne(a, r, num, k);
  }

  lemma ScaledByOne(a: nat, r: nat, num: nat, k: nat)
    ensures Scaled(r, num, k, Pow(a, 0)) == r * num * k
  {
  }

  lemma TermStep(av: nat, t: nat, r: nat, num: nat, k: nat, a: nat, e: nat)
    requires av > 0 && Cong(av, t, Scaled(r, num, k, Pow(a, e)))
    ensures Cong(av, t * a % av, Scaled(r, num, k, Pow(a, e + 1)))
  {
    var c := r * num * k;
    CongTimes(av, t, c * Pow(a, e), a);
    assert c * Pow(a, e) * a == c * (a * Pow(a, e));
    CongRem(av, t * a);
    CongTrans(av, t * a % av, t * a, c * Pow(a, e + 1));
  }

  lemma TermCorrect(av: nat, t: nat, r: nat, num: nat, den: nat, k: nat, p: nat, u: nat, w: nat)
    requires av > 0 && num == u % av && den == w % av
    requires Cong(av, r * den, 1) && Cong(av, t, Scaled(r, num, k, p))
    ensures Cong(av, t * w, k * u * p)
  {
    CongRem(av, w);
    CongRem(av, u);
    CongProduct(av, t, r * num * k * p, w, den);
    assert (r * num * k * p) * den == (r * den) * (num * (k * p));
    CongTimes(av, r * den, 1, num * (k * p));
    CongTrans(av, t * w, (r * den) * (num * (k * p)), 1 * (num * (k * p)));
    CongTimes(av, num, u, k * p);
    CongTrans(av, t * w, num * (k * p), u * (k * p));
    assert u * (k * p) == k * u * p;
  }

  /** s times the denominator (2 count - 1)!! is the numerator of the series times a^vmax, modulo
      a^vmax and all factors a of the denominator. */
  ghost predicate IsResidue(a: nat, vmax: nat, count: nat, s: int)
    requires a >= 2
  {
    Cong(Pow(a, Val(a, OddFact(count)) + vmax), OddFact(count) * s, Numer(count) * Pow(a, vmax))
  }

  lemma SumIsResidue(a: nat, vmax: nat, terms: seq<nat>, s: nat)
    requires Prime(a) && AreTerms(a, vmax, terms) && s == Sum(terms) % Pow(a, vmax)
    ensures s < Pow(a, vmax) && IsResidue(a, vmax, |terms|, s)
  {
    var d := OddFact(|terms|);
    SumCleared(a, vmax, terms);
    CongRem(Pow(a, vmax), Sum(terms));
    ScaleUp(a, vmax, d, s, Sum(terms));
    CongTrans(Pow(a, Val(a, d) + vmax), d * s, d * Sum(terms), Numer(|terms|) * Pow(a, vmax));
  }

  /** What holds modulo a^vmax holds for d times it modulo the factors a of d as well. */
  lemma ScaleUp(a: nat, vmax: nat, d: nat, x: int, y: int)
    requires a >= 2 && d >= 1 && Cong(Pow(a, vmax), x, y)
    ensures Cong(Pow(a, Val(a, d) + vmax), d * x, d * y)
  {
    PowSum(a, Val(a, d), vmax);
    ValDivides(a, d);
    DividesProduct(Pow(a, Val(a, d)), Pow(a, vmax), d, x - y);
    Distribute(d, x, y);
  }

  /** The other way round: the factors a of d can be taken out of the modulus. */
  lemma ScaleDown(a: nat, vmax: nat, d: nat, z: int)
    requires Prime(a) && a >= 2 && d >= 1 && Divides(Pow(a, Val(a, d) + vmax), d * z)
    ensures Divides(Pow(a, vmax), z)
  {
    hide *;
    ValUnit(a, d);
    PowSum(a, Val(a, d), vmax);
    TakeOut(Pow(a, Val(a, d)), Pow(a, vmax), Unit(a, d), d, z);
    UnitIsPrimeTo(a, d);
    PowerPasses(a, vmax, Unit(a, d), z);
  }

  lemma TakeOut(p: nat, q: nat, w: nat, d: int, z: int)
    requires p > 0 && q > 0 && d == p * w && p * q > 0 && Divides(p * q, d * z)
    ensures Divides(q, w * z)
  {
    var j := Quotient(p * q, d * z);
    Associate(p, w, z);
    Associate(p, q, j);
    CancelLeft(p, w * z, q * j);
    Multiple(q, j);
  }

  lemma UnitIsPrimeTo(a: nat, d: nat)
    requires a >= 2 && d >= 1
    ensures !Divides(a, Unit(a, d))
  {
  }

  /** The residue below a^vmax is the only one. */
  lemma ResidueUnique(a: nat, vmax: nat, count: nat, s: nat, s': nat)
    requires Prime(a) && IsResidue(a, vmax, count, s) && IsResidue(a, vmax, count, s')
    requires s < Pow(a, vmax) && s' < Pow(a, vmax)
    ensures s == s'
  {
    hide Val, Pow, OddFact, IsResidue, Divides;
    ResidueDifference(a, vmax, count, s, s');
    ScaleDown(a, vmax, OddFact(count), s - s');
    CongIsRem(Pow(a, vmax), s, s');
    CongSame(Pow(a, vmax), s');
    CongIsRem(Pow(a, vmax), s', s');
  }

  lemma ResidueDifference(a: nat, vmax: nat, count: nat, s: int, s': int)
    requires a >= 2 && IsResidue(a, vmax, count, s) && IsResidue(a, vmax, count, s')
    ensures Divides(Pow(a, Val(a, OddFact(count)) + vmax), OddFact(count) * (s - s'))
  {
    hide Val, Pow, OddFact, Numer, Divides;
    var d, c := OddFact(count), Numer(count) * Pow(a, vmax);
    DividesSum(Pow(a, Val(a, d) + vmax), d * s - c, d * s' - c);
    Distribute(d, s, s');
  }

  /** All rounds of one prime: s is the sum of the terms of 1..count, modulo av. */
  method PrimeSum(a: nat, vmax: nat, av: nat, count: nat) returns (s: nat, ghost terms: seq<nat>)
    requires Prime(a) && 3 <= a <= 2 * count
    requires vmax == IntLog(a, 2 * count) && av == Pow(a, vmax)
    ensures |terms| == count && AreTerms(a, vmax, terms) && s == Sum(terms) % av
    ensures s < av && IsResidue(a, vmax, count, s)
  {
    hide *;
    ModulusIsLarge(a, count);
    var num: nat, den: nat, v: int, kq: nat, kq2: nat := 1, 1, 0, 1, 1;
    s, terms := 0, [];
    RoundsStart(a, vmax, av);
    for k := 1 to count + 1
      invariant Counts(a, kq, k) && CountsOdd(a, kq2, k)
      invariant num == Unit(a, Fact(k - 1)) % av && den == Unit(a, OddFact(k - 1)) % av
      invariant v == Excess(a, k - 1)
      invariant |terms| == k - 1 && AreTerms(a, vmax, terms) && s == Sum(terms) % av
    {
      kq, num, v := NumeratorRound(a, av, k, kq, num, v);
      kq2, den, v := DenominatorRound(a, av, k, kq2, den, v);
      ExcessStep(a, k);
      Kummer(a, k, count);
      ghost var term: nat := 0;
      if v > 0 {
        var t := TermRound(a, vmax, av, k, num, den, v);
        term := t;
        AddRound(s, Sum(terms), t, av);
        s := s + t;
        if s >= av {
          s := s - av;
        }
      } else {
        SkippedTerm(a, vmax, k);
      }
      AppendTerm(a, vmax, terms, term);
      terms := terms + [term];
    }
    SumIsResidue(a, vmax, terms, s);
  }

  lemma ModulusIsLarge(a: nat, count: nat)
    requires 3 <= a <= 2 * count
    ensures IntLog(a, 2 * count) >= 1 && Pow(a, IntLog(a, 2 * count)) >= a
  {
    PowMonotone(a, 1, IntLog(a, 2 * count));
    assert Pow(a, 1) == a * Pow(a, 0) == a;
  }

  lemma AppendTerm(a: nat, vmax: nat, terms: seq<nat>, t: nat)
    requires a >= 2 && AreTerms(a, vmax, terms) && IsTerm(a, vmax, |terms| + 1, t)
    ensures AreTerms(a, vmax, terms + [t]) && Sum(terms + [t]) == Sum(terms) + t
  {
    assert (terms + [t])[..|terms|] == terms;
  }

  lemma RoundsStart(a: nat, vmax: nat, av: nat)
    requires a >= 3 && av >= 3
    ensures AreTerms(a, vmax, []) && Sum([]) % av == 0
    ensures Counts(a, 1, 1) && CountsOdd(a, 1, 1)
    ensures Unit(a, Fact(0)) % av == 1 && Unit(a, OddFact(0)) % av == 1 && Excess(a, 0) == 0
  {
    CongSame(a, 1);
    DivIs(a, 1, 0, 1);
    DivIs(av, 1, 0, 1);
    DivIs(av, 0, 0, 0);
  }

  lemma ExcessStep(a: nat, k: nat)
    requires Prime(a) && k >= 1
    ensures Excess(a, k) == Excess(a, k - 1) - Val(a, k) + Val(a, 2 * k - 1)
  {
    ValFact(a, k);
    ValOddFact(a, k);
  }

  lemma AddRound(s: int, sum: int, t: int, av: int)
    requires av > 0 && s == sum % av && 0 <= t < av
    ensures (if s + t >= av then s + t - av else s + t) == (sum + t) % av
  {
    var r: int := if s + t >= av then s + t - av else s + t;
    CongRem(av, sum);
    Multiple(av, -1);
    Multiple(av, 0);
    var c: int := if s + t >= av then -av else 0;
    DividesSum(av, s - sum, c);
    CongIsRem(av, r, sum + t);
  }
}
