/** Integer division as C defines it: the quotient is truncated toward zero. */
module CInt {
  function Quot(x: int, y: int): int
    requires y != 0
  {
    if (x >= 0) == (y > 0) then Abs(x) / Abs(y) else -(Abs(x) / Abs(y))
  }

  function Rem(x: int, y: int): int
    requires y != 0
  {
    if x >= 0 then x % Abs(y) else -((-x) % Abs(y))
  }

  function Abs(x: int): nat {
    if x >= 0 then x else -x
  }

  lemma QuotRem(x: int, y: int)
    requires y != 0
    ensures x == y * Quot(x, y) + Rem(x, y)
    ensures Abs(Rem(x, y)) < Abs(y)
    ensures Rem(x, y) != 0 ==> (Rem(x, y) > 0 <==> x > 0)
  {
    var d, q := Abs(y), Abs(x) / Abs(y);
    Signs(d, q);
    assert Abs(x) == d * q + Abs(x) % d;
  }

  lemma Signs(d: int, q: int)
    ensures d * (-q) == -(d * q) && (-d) * q == -(d * q) && (-d) * (-q) == d * q
  {
  }
}
