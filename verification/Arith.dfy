/** Arithmetic without a theory of its own: products, remainders and powers. */
module Arith {
  predicate Divides(d: nat, n: int)
    requires d > 0
  {
    n % d == 0
  }

  lemma Quotient(d: nat, n: int) returns (q: int)
    requires d > 0 && Divides(d, n)
    ensures n == d * q
  {
    q := n / d;
  }

  lemma TimesGrows(d: int, k: int)
    requires d > 0 && k >= 1
    ensures d * k >= d && d * (-k) <= -d
  {
    assert d * k == d + d * (k - 1);
  }

  lemma PositiveTimes(x: nat, y: nat)
    requires x >= 1 && y >= 1
    ensures x * y >= 1
  {
  }

  lemma Distribute(p: int, x: int, y: int)
    ensures p * (x - y) == p * x - p * y && p * (x + y) == p * x + p * y
  {
  }

  lemma CancelLeft(p: nat, x: int, y: int)
    requires p > 0 && p * x == p * y
    ensures x == y
  {
    Distribute(p, x, y);
    if x > y {
      TimesGrows(p, x - y);
    } else if x < y {
      TimesGrows(p, y - x);
    }
  }

  lemma Associate(a: int, b: int, c: int)
    ensures a * (b * c) == (a * b) * c
  {
  }

  /** (a u)(b w) = (a b)(u w) */
  lemma Regroup(a: int, u: int, b: int, w: int)
    ensures (a * u) * (b * w) == (a * b) * (u * w)
  {
    assert a * u * (b * w) == a * (u * (b * w));
    assert u * (b * w) == b * (u * w);
    assert a * (b * (u * w)) == a * b * (u * w);
  }

  lemma Multiple(d: nat, q: int)
    requires d > 0
    ensures Divides(d, d * q) && d * q / d == q
  {
    var n := d * q;
    assert n == d * (n / d) + n % d;
    var k := q - n / d;
    assert d * k == n % d;
    if k >= 1 {
      TimesGrows(d, k);
    } else if k <= -1 {
      TimesGrows(d, -k);
    }
  }

  lemma DivIs(a: nat, n: nat, q: int, r: int)
    requires 0 <= r < a && n == a * q + r
    ensures n / a == q && n % a == r
  {
    Multiple(a, q);
    Distribute(a, n / a, q);
    var d := n / a - q;
    assert a * d == r - n % a;
    if d >= 1 {
      TimesGrows(a, d);
    } else if d <= -1 {
      TimesGrows(a, -d);
    }
  }

  function Pow(b: nat, e: nat): (r: nat)
    ensures b > 0 ==> r > 0
  {
    if e == 0 then 1 else b * Pow(b, e - 1)
  }

  lemma {:induction false} PowSum(b: nat, e: nat, f: nat)
    ensures Pow(b, e + f) == Pow(b, e) * Pow(b, f)
  {
    if e > 0 {
      PowSum(b, e - 1, f);
      Associate(b, Pow(b, e - 1), Pow(b, f));
      assert Pow(b, e + f) == b * Pow(b, e - 1 + f);
    }
  }

  lemma TimesMonotone(a: nat, x: int, y: int)
    requires x <= y
    ensures a * x <= a * y
  {
    Distribute(a, y, x);
    assert a * (y - x) >= 0;
  }

  lemma {:induction false} PowMonotone(a: nat, e: nat, f: nat)
    requires a >= 1 && e <= f
    ensures Pow(a, e) <= Pow(a, f)
  {
    if e < f {
      PowMonotone(a, e, f - 1);
      TimesMonotone(Pow(a, f - 1), 1, a);
      assert Pow(a, f) == a * Pow(a, f - 1);
    }
  }

  lemma PowDividesPow(p: nat, e: nat, f: nat)
    requires p >= 1 && e <= f
    ensures Divides(Pow(p, e), Pow(p, f))
  {
    PowSum(p, e, f - e);
    Multiple(Pow(p, e), Pow(p, f - e));
  }

  lemma PowerCancels(p: nat, e: nat, x: int)
    requires p >= 1 && Divides(Pow(p, e + 1), p * x)
    ensures Divides(Pow(p, e), x)
  {
    var m := Pow(p, e);
    var q := Quotient(p * m, p * x);
    Associate(p, m, q);
    CancelLeft(p, x, m * q);
    Multiple(m, q);
  }
}
