/** GL_line: Cohen-Sutherland clipping with C's integer division, then Bresenham's walk. */
module LineDraw {
  import opened Arith
  import CInt

  datatype Point = Point(x: int, y: int)

  /** The window is 0..xmax by 0..ymax. */
  datatype Window = Window(xmax: nat, ymax: nat)

  /** The four outcode bits */
  datatype Code = Code(left: bool, right: bool, bottom: bool, top: bool) {
    predicate Inside() {
      !left && !right && !bottom && !top
    }

    /** code & c != 0 */
    predicate Shares(c: Code) {
      (left && c.left) || (right && c.right) || (bottom && c.bottom) || (top && c.top)
    }

    function Bits(): nat {
      (if left then 1 else 0) + (if right then 1 else 0) + (if bottom then 1 else 0) + (if top then 1 else 0)
    }
  }

  function CodeOf(w: Window, p: Point): Code {
    Code(p.x < 0, p.x > w.xmax, p.y < 0, p.y > w.ymax)
  }

  predicate InWindow(w: Window, p: Point) {
    0 <= p.x <= w.xmax && 0 <= p.y <= w.ymax
  }

  predicate Between(a: int, v: int, b: int) {
    a <= v <= b || b <= v <= a
  }

  /** p lies in the box spanned by a and b. */
  predicate InBox(a: Point, p: Point, b: Point) {
    Between(a.x, p.x, b.x) && Between(a.y, p.y, b.y)
  }

  /** Where the segment from a to b crosses the row (or column) m of the other coordinate */
  function Cross(a: int, b: int, m: int, n: int): int
    requires n != 0
  {
    a + CInt.Quot((b - a) * m, n)
  }

  /** With 0 <= m/n <= 1 the crossing lies between a and b, less than one off the exact place. */
  lemma CrossBetween(a: int, b: int, m: int, n: int)
    requires n != 0 && (0 <= m <= n || n <= m <= 0)
    ensures Between(a, Cross(a, b, m, n), b)
    ensures CInt.Abs((Cross(a, b, m, n) - a) * n - (b - a) * m) < CInt.Abs(n)
  {
    var d := b - a;
    CInt.QuotRem(d * m, n);
    var q, r := CInt.Quot(d * m, n), CInt.Rem(d * m, n);
    assert q * n - d * m == -r;
    QuotBounds(d, m, n, q, r);
  }

  lemma QuotBounds(d: int, m: int, n: int, q: int, r: int)
    requires n != 0 && (0 <= m <= n || n <= m <= 0)
    requires d * m == n * q + r && CInt.Abs(r) < CInt.Abs(n) && (r != 0 ==> (r > 0 <==> d * m > 0))
    ensures 0 <= q <= d || d <= q <= 0
  {
    if n < 0 {
      assert d * (-m) == -(d * m) && (-n) * q == -(n * q);
      QuotBoundsUp(d, -m, -n, q, -r);
    } else {
      QuotBoundsUp(d, m, n, q, r);
    }
  }

  lemma QuotBoundsUp(d: int, m: int, n: int, q: int, r: int)
    requires n > 0 && 0 <= m <= n
    requires d * m == n * q + r && -n < r < n && (r != 0 ==> (r > 0 <==> d * m > 0))
    ensures 0 <= q <= d || d <= q <= 0
  {
    if d >= 0 {
      TimesMonotone(d, 0, m);
      TimesMonotone(d, m, n);
      if q < 0 {
        TimesMonotone(n, q, -1);
      }
      if q > d {
        TimesMonotone(n, d + 1, q);
      }
    } else {
      TimesMonotone(-d, 0, m);
      TimesMonotone(-d, m, n);
      assert (-d) * m == -(d * m) && (-d) * n == -(d * n);
      if q > 0 {
        TimesMonotone(n, 1, q);
      }
      if q < d {
        TimesMonotone(n, q, d - 1);
      }
    }
  }

  // ----- clipping -----

  /** The intersection that replaces the outside point whose outcode is out: which border it is on,
      and how far it is from the line through p1 and p2. */
  ghost predicate OnBorder(w: Window, p1: Point, p2: Point, out: Code, p: Point) {
    && InBox(p1, p, p2)
    && (out.top || out.bottom ==>
          && p.y == (if out.top then w.ymax else 0)
          && CInt.Abs((p.x - p1.x) * (p2.y - p1.y) - (p2.x - p1.x) * (p.y - p1.y)) < CInt.Abs(p2.y - p1.y))
    && (!out.top && !out.bottom ==>
          && p.x == (if out.right then w.xmax else 0)
          && CInt.Abs((p.y - p1.y) * (p2.x - p1.x) - (p2.y - p1.y) * (p.x - p1.x)) < CInt.Abs(p2.x - p1.x))
  }

  /** No division by zero: the other point is on the other side of the border. */
  method Intersect(w: Window, p1: Point, p2: Point, out: Code) returns (p: Point)
    requires !CodeOf(w, p1).Shares(CodeOf(w, p2)) && !out.Inside()
    requires out == CodeOf(w, p1) || out == CodeOf(w, p2)
    ensures OnBorder(w, p1, p2, out, p)
  {
    if out.top {
      CrossBetween(p1.x, p2.x, w.ymax - p1.y, p2.y - p1.y);
      p := Point(Cross(p1.x, p2.x, w.ymax - p1.y, p2.y - p1.y), w.ymax);
    } else if out.bottom {
      CrossBetween(p1.x, p2.x, 0 - p1.y, p2.y - p1.y);
      p := Point(Cross(p1.x, p2.x, 0 - p1.y, p2.y - p1.y), 0);
    } else if out.right {
      CrossBetween(p1.y, p2.y, w.xmax - p1.x, p2.x - p1.x);
      p := Point(w.xmax, Cross(p1.y, p2.y, w.xmax - p1.x, p2.x - p1.x));
    } else {
      CrossBetween(p1.y, p2.y, 0 - p1.x, p2.x - p1.x);
      p := Point(0, Cross(p1.y, p2.y, 0 - p1.x, p2.x - p1.x));
    }
  }

  /** A round either makes the two outcodes share a bit, which ends the loop, or removes a bit. */
  ghost function Measure(c1: Code, c2: Code): nat {
    if c1.Shares(c2) then 0 else 1 + c1.Bits() + c2.Bits()
  }

  lemma ClipProgress(w: Window, p1: Point, p2: Point, out: Code, p: Point)
    requires !CodeOf(w, p1).Shares(CodeOf(w, p2)) && !out.Inside()
    requires OnBorder(w, p1, p2, out, p)
    ensures out == CodeOf(w, p1) ==> Measure(CodeOf(w, p), CodeOf(w, p2)) < Measure(CodeOf(w, p1), CodeOf(w, p2))
    ensures out == CodeOf(w, p2) ==> Measure(CodeOf(w, p1), CodeOf(w, p)) < Measure(CodeOf(w, p1), CodeOf(w, p2))
  {
  }

  // ----- how far the ends move off the line -----

  /** The coordinate at parameter t of a segment from a to b */
  ghost function Along(a: int, b: int, t: real): real {
    a as real + t * (b - a) as real
  }

  /** p is within e pixels, in either coordinate, of the segment from a to b at parameter t. */
  ghost predicate Tracks(a: Point, b: Point, p: Point, t: real, e: int) {
    && 0.0 <= t <= 1.0
    && -(e as real) <= p.x as real - Along(a.x, b.x, t) <= e as real
    && -(e as real) <= p.y as real - Along(a.y, b.y, t) <= e as real
  }

  /** At parameter s the segment is more than e pixels inside the window. */
  ghost predicate Deep(w: Window, a: Point, b: Point, s: real, e: int) {
    && e as real < Along(a.x, b.x, s) < (w.xmax - e) as real
    && e as real < Along(a.y, b.y, s) < (w.ymax - e) as real
  }

  /** At parameter v the segment is on or outside a border. */
  ghost predicate Outside(w: Window, a: Point, b: Point, v: real) {
    || Along(a.x, b.x, v) <= 0.0 || Along(a.x, b.x, v) >= w.xmax as real
    || Along(a.y, b.y, v) <= 0.0 || Along(a.y, b.y, v) >= w.ymax as real
  }

  /** Where the new end is on the current segment, and which part of that it cuts off. */
  lemma CutAt(w: Window, p1: Point, p2: Point, out: Code, p: Point) returns (u: real)
    requires !CodeOf(w, p1).Shares(CodeOf(w, p2)) && !out.Inside()
    requires out == CodeOf(w, p1) || out == CodeOf(w, p2)
    requires OnBorder(w, p1, p2, out, p)
    ensures Tracks(p1, p2, p, u, 1)
    ensures forall v: real {:trigger Outside(w, p1, p2, v)} ::
      (if out == CodeOf(w, p1) then 0.0 <= v <= u else u <= v <= 1.0) ==> Outside(w, p1, p2, v)
  {
    if out.top || out.bottom {
      u := Fraction(p1.y, p2.y, p.y);
      CrossNear(p1.x, p2.x, p.x, p1.y, p2.y, p.y, u);
    } else {
      u := Fraction(p1.x, p2.x, p.x);
      CrossNear(p1.y, p2.y, p.y, p1.x, p2.x, p.x, u);
    }
    forall v: real | if out == CodeOf(w, p1) then 0.0 <= v <= u else u <= v <= 1.0
      ensures Outside(w, p1, p2, v)
    {
      if out.top || out.bottom {
        Monotone(p1.y, p2.y, u, v);
      } else {
        Monotone(p1.x, p2.x, u, v);
      }
    }
  }

  /** The parameter at which a coordinate between a and b is reached */
  lemma Fraction(a: int, b: int, c: int) returns (u: real)
    requires a != b && Between(a, c, b)
    ensures 0.0 <= u <= 1.0 && Along(a, b, u) == c as real
  {
    u := if a < b then Ratio((c - a) as real, (b - a) as real) else Ratio((a - c) as real, (a - b) as real);
    TimesNegative(u, (a - b) as real);
  }

  lemma Monotone(a: int, b: int, u: real, v: real)
    ensures a <= b && u <= v ==> Along(a, b, u) <= Along(a, b, v)
    ensures a >= b && u <= v ==> Along(a, b, u) >= Along(a, b, v)
    ensures a <= b && v <= u ==> Along(a, b, v) <= Along(a, b, u)
    ensures a >= b && v <= u ==> Along(a, b, v) >= Along(a, b, u)
  {
  }

  lemma CrossNear(a: int, b: int, c: int, e: int, f: int, g: int, u: real)
    requires e != f && Along(e, f, u) == g as real
    requires CInt.Abs((c - a) * (f - e) - (b - a) * (g - e)) < CInt.Abs(f - e)
    ensures -1.0 <= c as real - Along(a, b, u) <= 1.0
  {
    CrossTimes(c - a, f - e, b - a, g - e, u);
    SmallQuotient(c as real - Along(a, b, u), f - e, (c - a) * (f - e) - (b - a) * (g - e));
  }

  lemma CrossTimes(c: int, f: int, b: int, g: int, u: real)
    requires u * f as real == g as real
    ensures (c as real - u * b as real) * f as real == (c * f - b * g) as real
  {
    RealCross(c as real, f as real, b as real, g as real, u);
    IntProduct(c, f);
    IntProduct(b, g);
  }

  lemma RealCross(c: real, f: real, b: real, g: real, u: real)
    requires u * f == g
    ensures (c - u * b) * f == c * f - b * g
  {
    assert (u * b) * f == (u * f) * b;
  }

  lemma IntProduct(x: int, y: int)
    ensures x as real * y as real == (x * y) as real
  {
  }

  lemma SmallQuotient(d: real, n: int, x: int)
    requires n != 0 && d * n as real == x as real && CInt.Abs(x) < CInt.Abs(n)
    ensures -1.0 <= d <= 1.0
  {
    RealRange(x, CInt.Abs(n));
    if n > 0 {
      SmallPositive(d, n as real, x as real);
    } else {
      TimesNegative(d, n as real);
      SmallPositive(d, -(n as real), -(x as real));
    }
  }

  lemma RealRange(x: int, n: nat)
    requires CInt.Abs(x) < n
    ensures -(n as real) <= x as real <= n as real
  {
  }

  lemma TimesNegative(x: real, y: real)
    ensures x * -y == -(x * y)
  {
  }

  lemma RealDistribute(p: real, q: real, n: real)
    ensures (p - q) * n == p * n - q * n
  {
  }

  lemma SmallPositive(d: real, n: real, x: real)
    requires n > 0.0 && d * n == x && -n <= x <= n
    ensures -1.0 <= d <= 1.0
  {
    if d > 1.0 {
      PositiveReals(d - 1.0, n);
      RealDistribute(d, 1.0, n);
    } else if d < -1.0 {
      PositiveReals(-1.0 - d, n);
      RealDistribute(-1.0, d, n);
    }
  }

  lemma PositiveReals(x: real, y: real)
    requires x > 0.0 && y > 0.0
    ensures x * y > 0.0
  {
  }

  lemma NotNegative(x: real, y: real)
    requires x >= 0.0 && y >= 0.0
    ensures x * y >= 0.0
  {
  }

  /** A point of a segment whose ends track the line tracks it as well, at the parameter in between. */
  lemma Convex(a: int, b: int, p: int, q: int, t1: real, t2: real, v: real, e: int)
    requires 0.0 <= v <= 1.0
    requires -(e as real) <= p as real - Along(a, b, t1) <= e as real
    requires -(e as real) <= q as real - Along(a, b, t2) <= e as real
    ensures -(e as real) <= Along(p, q, v) - Along(a, b, t1 + v * (t2 - t1)) <= e as real
  {
    var d1, d2 := p as real - Along(a, b, t1), q as real - Along(a, b, t2);
    var m := (b - a) as real;
    assert (t1 + v * (t2 - t1)) * m == t1 * m + v * (t2 * m - t1 * m);
    assert Along(p, q, v) - Along(a, b, t1 + v * (t2 - t1)) == d1 + v * (d2 - d1);
    Mean(d1, d2, v, e as real);
  }

  lemma Mean(x: real, y: real, v: real, e: real)
    requires 0.0 <= v <= 1.0 && -e <= x <= e && -e <= y <= e
    ensures -e <= x + v * (y - x) <= e
  {
    assert x + v * (y - x) == (1.0 - v) * x + v * y;
    assert (1.0 - v) * (e - x) >= 0.0 && v * (e - y) >= 0.0;
    assert (1.0 - v) * (e + x) >= 0.0 && v * (e + y) >= 0.0;
    assert (1.0 - v) * e + v * e == e;
  }

  /** Parameter v of the current segment, as a parameter of the line */
  ghost function At(t1: real, t2: real, v: real): real {
    t1 + v * (t2 - t1)
  }

  lemma AtBetween(t1: real, t2: real, v: real)
    requires t1 <= t2 && 0.0 <= v <= 1.0
    ensures t1 <= At(t1, t2, v) <= t2
  {
    var d := t2 - t1;
    NotNegative(v, d);
    NotNegative(1.0 - v, d);
    assert v * d + (1.0 - v) * d == d;
  }

  lemma StepTracks(a: Point, b: Point, p1: Point, p2: Point, t1: real, t2: real, n: nat, p: Point, u: real)
    requires Tracks(a, b, p1, t1, n) && Tracks(a, b, p2, t2, n) && t1 <= t2 && Tracks(p1, p2, p, u, 1)
    ensures Tracks(a, b, p, At(t1, t2, u), n + 1) && t1 <= At(t1, t2, u) <= t2
  {
    AtBetween(t1, t2, u);
    Convex(a.x, b.x, p1.x, p2.x, t1, t2, u, n);
    Convex(a.y, b.y, p1.y, p2.y, t1, t2, u, n);
  }

  /** Where the current segment is outside, the line is nowhere deep inside. */
  lemma OutsideNotDeep(w: Window, a: Point, b: Point, p1: Point, p2: Point, t1: real, t2: real, n: nat, v: real)
    requires Tracks(a, b, p1, t1, n) && Tracks(a, b, p2, t2, n) && 0.0 <= v <= 1.0 && Outside(w, p1, p2, v)
    ensures !Deep(w, a, b, At(t1, t2, v), n)
  {
    Convex(a.x, b.x, p1.x, p2.x, t1, t2, v, n);
    Convex(a.y, b.y, p1.y, p2.y, t1, t2, v, n);
  }

  /** The parts of the line before t1 and behind t2 are nowhere more than e pixels inside. */
  ghost predicate CutOff(w: Window, a: Point, b: Point, t1: real, t2: real, e: nat) {
    forall s: real {:trigger Deep(w, a, b, s, e)} :: 0.0 <= s <= 1.0 && (s < t1 || s > t2) ==> !Deep(w, a, b, s, e)
  }

  /** Every parameter between t1 and t2 is one of the current segment. */
  lemma Parameter(t1: real, t2: real, s: real) returns (v: real)
    requires t1 <= s <= t2
    ensures 0.0 <= v <= 1.0 && At(t1, t2, v) == s
    ensures s < t2 ==> v < 1.0
  {
    v := if t1 == t2 then 0.0 else Ratio(s - t1, t2 - t1);
  }

  ghost function Ratio(x: real, y: real): (v: real)
    requires 0.0 <= x <= y && 0.0 < y
    ensures v * y == x && 0.0 <= v <= 1.0 && (x < y ==> v < 1.0)
  {
    var v := x / y;
    assert v * y == x;
    RatioBounds(v, y);
    v
  }

  lemma RatioBounds(v: real, y: real)
    requires 0.0 <= v * y <= y && 0.0 < y
    ensures 0.0 <= v <= 1.0 && (v * y < y ==> v < 1.0)
  {
    if v < 0.0 {
      PositiveReals(-v, y);
    } else if v > 1.0 {
      PositiveReals(v - 1.0, y);
    }
  }

  lemma AtOrder(t1: real, t2: real, u: real, v: real)
    requires t1 <= t2
    ensures At(t1, t2, v) < At(t1, t2, u) ==> v < u
  {
    if v >= u {
      assert (v - u) * (t2 - t1) >= 0.0;
    }
  }

  lemma Shallower(w: Window, a: Point, b: Point, s: real, n: nat)
    ensures Deep(w, a, b, s, n + 1) ==> Deep(w, a, b, s, n)
  {
  }

  /** Moving the first end to parameter u of the segment cuts off no deep point. */
  lemma CutFirst(w: Window, a: Point, b: Point, p1: Point, p2: Point, t1: real, t2: real, n: nat, u: real)
    requires Tracks(a, b, p1, t1, n) && Tracks(a, b, p2, t2, n) && t1 <= t2 && 0.0 <= u <= 1.0
    requires CutOff(w, a, b, t1, t2, n)
    requires forall v: real {:trigger Outside(w, p1, p2, v)} :: 0.0 <= v <= u ==> Outside(w, p1, p2, v)
    ensures CutOff(w, a, b, At(t1, t2, u), t2, n + 1)
  {
    hide Deep, Outside, Tracks, At;
    AtBetween(t1, t2, u);
    var m := n + 1;
    forall s: real | 0.0 <= s <= 1.0 && (s < At(t1, t2, u) || s > t2)
      ensures !Deep(w, a, b, s, m)
    {
      Shallower(w, a, b, s, n);
      if t1 <= s < At(t1, t2, u) {
        var v := Parameter(t1, t2, s);
        AtOrder(t1, t2, u, v);
        OutsideNotDeep(w, a, b, p1, p2, t1, t2, n, v);
      }
    }
  }

  lemma CutSecond(w: Window, a: Point, b: Point, p1: Point, p2: Point, t1: real, t2: real, n: nat, u: real)
    requires Tracks(a, b, p1, t1, n) && Tracks(a, b, p2, t2, n) && t1 <= t2 && 0.0 <= u <= 1.0
    requires CutOff(w, a, b, t1, t2, n)
    requires forall v: real {:trigger Outside(w, p1, p2, v)} :: u <= v <= 1.0 ==> Outside(w, p1, p2, v)
    ensures CutOff(w, a, b, t1, At(t1, t2, u), n + 1)
  {
    hide Deep, Outside, Tracks, At;
    AtBetween(t1, t2, u);
    var m := n + 1;
    forall s: real | 0.0 <= s <= 1.0 && (s < t1 || s > At(t1, t2, u))
      ensures !Deep(w, a, b, s, m)
    {
      Shallower(w, a, b, s, n);
      if At(t1, t2, u) < s <= t2 {
        var v := Parameter(t1, t2, s);
        AtOrder(t1, t2, v, u);
        OutsideNotDeep(w, a, b, p1, p2, t1, t2, n, v);
      }
    }
  }

  /** If both ends are beyond the same border, the line is nowhere deep inside. */
  lemma NothingDeep(w: Window, a: Point, b: Point, p1: Point, p2: Point, t1: real, t2: real, n: nat)
    requires Tracks(a, b, p1, t1, n) && Tracks(a, b, p2, t2, n) && t1 <= t2 && CutOff(w, a, b, t1, t2, n)
    requires CodeOf(w, p1).Shares(CodeOf(w, p2))
    ensures forall s: real {:trigger Deep(w, a, b, s, n)} :: 0.0 <= s <= 1.0 ==> !Deep(w, a, b, s, n)
  {
    hide Deep, Tracks, At;
    forall s: real | 0.0 <= s <= 1.0
      ensures !Deep(w, a, b, s, n)
    {
      if t1 <= s <= t2 {
        var v := Parameter(t1, t2, s);
        BothBeyond(w, p1, p2, v);
        OutsideNotDeep(w, a, b, p1, p2, t1, t2, n, v);
      }
    }
  }

  lemma BothBeyond(w: Window, p1: Point, p2: Point, v: real)
    requires CodeOf(w, p1).Shares(CodeOf(w, p2)) && 0.0 <= v <= 1.0
    ensures Outside(w, p1, p2, v)
  {
    Mixed(p1.x, p2.x, v);
    Mixed(p1.y, p2.y, v);
  }

  lemma Mixed(p: int, q: int, v: real)
    requires 0.0 <= v <= 1.0
    ensures p <= q ==> p as real <= Along(p, q, v) <= q as real
    ensures p >= q ==> q as real <= Along(p, q, v) <= p as real
  {
    Monotone(p, q, 0.0, v);
    Monotone(p, q, v, 1.0);
  }

  /** After n rounds: the ends are within n pixels of the line, and what is cut off is not deep. */
  ghost predicate Rounds(w: Window, a: Point, b: Point, p1: Point, p2: Point, t1: real, t2: real, n: nat) {
    Tracks(a, b, p1, t1, n) && Tracks(a, b, p2, t2, n) && t1 <= t2 && CutOff(w, a, b, t1, t2, n)
  }

  lemma RoundsStart(w: Window, a: Point, b: Point)
    ensures Rounds(w, a, b, a, b, 0.0, 1.0, 0)
  {
  }

  lemma RoundFirst(w: Window, a: Point, b: Point, p1: Point, p2: Point, t1: real, t2: real, n: nat, p: Point)
    returns (t: real)
    requires Rounds(w, a, b, p1, p2, t1, t2, n)
    requires !CodeOf(w, p1).Shares(CodeOf(w, p2)) && !CodeOf(w, p1).Inside()
    requires OnBorder(w, p1, p2, CodeOf(w, p1), p)
    ensures Rounds(w, a, b, p, p2, t, t2, n + 1)
  {
    hide OnBorder, Outside, Deep, CutOff, CodeOf;
    var u := CutAt(w, p1, p2, CodeOf(w, p1), p);
    StepTracks(a, b, p1, p2, t1, t2, n, p, u);
    CutFirst(w, a, b, p1, p2, t1, t2, n, u);
    t := At(t1, t2, u);
  }

  lemma RoundSecond(w: Window, a: Point, b: Point, p1: Point, p2: Point, t1: real, t2: real, n: nat, p: Point)
    returns (t: real)
    requires Rounds(w, a, b, p1, p2, t1, t2, n)
    requires !CodeOf(w, p1).Shares(CodeOf(w, p2)) && !CodeOf(w, p2).Inside() && CodeOf(w, p1) != CodeOf(w, p2)
    requires OnBorder(w, p1, p2, CodeOf(w, p2), p)
    ensures Rounds(w, a, b, p1, p, t1, t, n + 1)
  {
    hide OnBorder, Outside, Deep, CutOff, CodeOf;
    var u := CutAt(w, p1, p2, CodeOf(w, p2), p);
    StepTracks(a, b, p1, p2, t1, t2, n, p, u);
    CutSecond(w, a, b, p1, p2, t1, t2, n, u);
    t := At(t1, t2, u);
  }

  lemma RoundMore(w: Window, a: Point, b: Point, p1: Point, p2: Point, t1: real, t2: real, n: nat)
    requires Rounds(w, a, b, p1, p2, t1, t2, n)
    ensures Rounds(w, a, b, p1, p2, t1, t2, n + 1)
  {
    hide Deep, Along;
    var m := n + 1;
    forall s: real | 0.0 <= s <= 1.0 && (s < t1 || s > t2)
      ensures !Deep(w, a, b, s, m)
    {
      Shallower(w, a, b, s, n);
    }
  }

  /** Fewer rounds are better. */
  lemma {:induction false} RoundsUpTo(w: Window, a: Point, b: Point, p1: Point, p2: Point, t1: real, t2: real,
                                      n: nat, m: nat)
    requires Rounds(w, a, b, p1, p2, t1, t2, n) && n <= m
    ensures Rounds(w, a, b, p1, p2, t1, t2, m)
    decreases m - n
  {
    hide Rounds;
    if n < m {
      RoundMore(w, a, b, p1, p2, t1, t2, n);
      RoundsUpTo(w, a, b, p1, p2, t1, t2, n + 1, m);
    }
  }

  /** The segment is nowhere more than e pixels inside the window. */
  ghost predicate Misses(w: Window, a: Point, b: Point, e: nat) {
    forall s: real {:trigger Deep(w, a, b, s, e)} :: 0.0 <= s <= 1.0 ==> !Deep(w, a, b, s, e)
  }

  /**
   * The clipping loop.  It ends within four rounds.  If it rejects the line, the line is nowhere more
   * than four pixels inside the window; else both ends are in the window, in the box of the original
   * ends, within four pixels of the line in its direction, and what is cut off is nowhere more than
   * four pixels inside.  An end that was in the window is kept, and its line never rejected.
   */
  method Clip(w: Window, a: Point, b: Point) returns (accepted: bool, p1: Point, p2: Point)
    ensures !accepted ==> Misses(w, a, b, 4)
    ensures accepted ==> InWindow(w, p1) && InWindow(w, p2) && InBox(a, p1, b) && InBox(a, p2, b)
    ensures accepted ==> exists t1, t2 :: Rounds(w, a, b, p1, p2, t1, t2, 4)
    ensures InWindow(w, a) ==> accepted && p1 == a
    ensures InWindow(w, b) ==> accepted && p2 == b
  {
    hide Rounds, OnBorder, Misses;
    p1, p2 := a, b;
    var code1, code2 := CodeOf(w, p1), CodeOf(w, p2);
    ghost var t1, t2, n: nat := 0.0, 1.0, 0;
    RoundsStart(w, a, b);
    while !(code1.Inside() && code2.Inside())
      invariant code1 == CodeOf(w, p1) && code2 == CodeOf(w, p2)
      invariant InBox(a, p1, b) && InBox(a, p2, b)
      invariant (InWindow(w, a) ==> p1 == a) && (InWindow(w, b) ==> p2 == b)
      invariant Rounds(w, a, b, p1, p2, t1, t2, n)
      invariant n <= 4 && (!code1.Shares(code2) ==> n + Measure(code1, code2) <= 5)
      decreases Measure(code1, code2)
    {
      if code1.Shares(code2) {
        Rejected(w, a, b, p1, p2, t1, t2, n);
        return false, p1, p2;
      }
      var codeout := if !code1.Inside() then code1 else code2;
      var p := Intersect(w, p1, p2, codeout);
      ClipProgress(w, p1, p2, codeout, p);
      InBoxOf(w, a, b, p1, p2, codeout, p);
      if codeout == code1 {
        t1 := RoundFirst(w, a, b, p1, p2, t1, t2, n, p);
        p1 := p;
        code1 := CodeOf(w, p1);
      } else {
        t2 := RoundSecond(w, a, b, p1, p2, t1, t2, n, p);
        p2 := p;
        code2 := CodeOf(w, p2);
      }
      n := n + 1;
    }
    RoundsUpTo(w, a, b, p1, p2, t1, t2, n, 4);
    accepted := true;
  }

  lemma Rejected(w: Window, a: Point, b: Point, p1: Point, p2: Point, t1: real, t2: real, n: nat)
    requires Rounds(w, a, b, p1, p2, t1, t2, n) && n <= 4 && CodeOf(w, p1).Shares(CodeOf(w, p2))
    ensures Misses(w, a, b, 4)
  {
    RoundsUpTo(w, a, b, p1, p2, t1, t2, n, 4);
    NothingDeep(w, a, b, p1, p2, t1, t2, 4);
  }

  lemma InBoxOf(w: Window, a: Point, b: Point, p1: Point, p2: Point, out: Code, p: Point)
    requires InBox(a, p1, b) && InBox(a, p2, b) && OnBorder(w, p1, p2, out, p)
    ensures InBox(a, p, b)
  {
  }

  // ----- Bresenham's walk -----

  /** The row of column u on a line that rises dy over dx columns: the nearest one, ties upward */
  function Near(dx: nat, dy: nat, u: nat): nat
    requires dx > 0
  {
    (2 * (u * dy) + dx) / (2 * dx)
  }

  lemma NearIs(dx: nat, dy: nat, u: nat, k: nat)
    requires dx > 0
    ensures 2 * (dx * k) <= 2 * (u * dy) + dx && 2 * (u * dy) < 2 * (dx * k) + dx <==> k == Near(dx, dy, u)
  {
    var n := Near(dx, dy, u);
    var v := 2 * (u * dy) + dx;
    assert v == 2 * dx * n + v % (2 * dx);
    Associate(2, dx, n);
    Associate(2, dx, k);
    if 2 * (dx * k) <= 2 * (u * dy) + dx && 2 * (u * dy) < 2 * (dx * k) + dx {
      DivIs(2 * dx, v, k, v - 2 * dx * k);
    }
  }

  /** Less than half a column's rise off, and from (0, 0) to (dx, dy) */
  lemma NearFacts(dx: nat, dy: nat, u: nat)
    requires 0 < dx && dy <= dx && u <= dx
    ensures CInt.Abs(2 * (u * dy) - 2 * (dx * Near(dx, dy, u))) <= dx
    ensures Near(dx, dy, 0) == 0 && Near(dx, dy, dx) == dy && Near(dx, dy, u) <= dy
    ensures u < dx ==> Near(dx, dy, u) <= Near(dx, dy, u + 1) <= Near(dx, dy, u) + 1
  {
    NearIs(dx, dy, u, Near(dx, dy, u));
    NearIs(dx, dy, 0, 0);
    NearIs(dx, dy, dx, dy);
    NearMonotone(dx, dy, u, dx);
    if u < dx {
      NearMonotone(dx, dy, u, u + 1);
      NearSlow(dx, dy, u);
    }
  }

  lemma NearMonotone(dx: nat, dy: nat, u: nat, u': nat)
    requires 0 < dx && u <= u'
    ensures Near(dx, dy, u) <= Near(dx, dy, u')
  {
    TimesMonotone(dy, u, u');
    DivMonotone(2 * (u * dy) + dx, 2 * (u' * dy) + dx, 2 * dx);
  }

  lemma DivMonotone(x: nat, y: nat, d: nat)
    requires d > 0 && x <= y
    ensures x / d <= y / d
  {
    var q, r := x / d, y / d;
    assert x == d * q + x % d && y == d * r + y % d;
    if r < q {
      TimesMonotone(d, r + 1, q);
      Distribute(d, r, 1);
    }
  }

  lemma NearSlow(dx: nat, dy: nat, u: nat)
    requires 0 < dx && dy <= dx
    ensures Near(dx, dy, u + 1) <= Near(dx, dy, u) + 1
  {
    var v := 2 * (u * dy) + dx;
    Distribute(dy, u, 1);
    DivMonotone(2 * ((u + 1) * dy) + dx, v + 2 * dx, 2 * dx);
    DivIs(2 * dx, v + 2 * dx, v / (2 * dx) + 1, v % (2 * dx));
  }

  /** a moved n steps in direction up */
  function Move(a: int, up: bool, n: nat): int {
    if up then a + n else a - n
  }

  /** The point u steps along and k steps across from p; on a steep line along means down the rows. */
  function Place(p: Point, right: bool, up: bool, steep: bool, u: nat, k: nat): Point {
    if steep then Point(Move(p.x, right, k), Move(p.y, up, u)) else Point(Move(p.x, right, u), Move(p.y, up, k))
  }

  /** The pixels of the first u steps of the walk from p, along columns or (steep) along rows: at each
      step the nearest pixel, and where the line changes rows also the corner of the change. */
  function Pixels(p: Point, right: bool, up: bool, steep: bool, along: nat, across: nat, u: nat): seq<Point>
    requires along > 0
  {
    if u == 0 then
      []
    else
      var k, k' := Near(along, across, u - 1), Near(along, across, u);
      Pixels(p, right, up, steep, along, across, u - 1) + [Place(p, right, up, steep, u - 1, k)]
      + (if k' > k then [Place(p, right, up, steep, u, k)] else [])
  }

  /** The error term of the loops before step u, on row k */
  ghost function ErrorTerm(along: nat, across: nat, u: nat, k: nat): int {
    2 * ((u + 1) * across) - along - 2 * (along * k)
  }

  /** The error term decides whether the next step changes rows, and it does so at most once. */
  lemma ErrorDecides(along: nat, across: nat, u: nat)
    requires 0 < along && across <= along && u < along
    ensures var k := Near(along, across, u);
      && ErrorTerm(along, across, u, k + 1) == ErrorTerm(along, across, u, k) - 2 * along < 0
      && (ErrorTerm(along, across, u, k) >= 0 <==> Near(along, across, u + 1) == k + 1)
      && (ErrorTerm(along, across, u, k) < 0 <==> Near(along, across, u + 1) == k)
  {
    var k := Near(along, across, u);
    NearFacts(along, across, u);
    NearIs(along, across, u, k);
    NearIs(along, across, u + 1, k);
    NearIs(along, across, u + 1, k + 1);
    Distribute(along, k, 1);
    Distribute(across, u, 1);
  }

  lemma ErrorNext(along: nat, across: nat, u: nat, k: nat)
    ensures ErrorTerm(along, across, u + 1, k) == ErrorTerm(along, across, u, k) + 2 * across
    ensures ErrorTerm(along, across, 0, 0) == 2 * across - along
  {
    Distribute(across, u + 1, 1);
  }

  /** The loop for lines that are at most as high as wide: drawn lists the pixels in the order set. */
  method WalkColumns(p: Point, right: bool, up: bool, dx: nat, dy: nat) returns (drawn: seq<Point>, end: Point)
    requires dy <= dx
    ensures dx > 0 ==> drawn == Pixels(p, right, up, false, dx, dy, dx)
    ensures dx == 0 ==> drawn == []
    ensures end == Place(p, right, up, false, dx, dy)
  {
    hide Near, ErrorTerm;
    drawn := [];
    var x, y := p.x, p.y;
    var ey := 2 * dy - dx as int;
    ghost var k: nat := 0;
    ErrorNext(dx, dy, 0, 0);
    if dx > 0 {
      NearFacts(dx, dy, 0);
      NearFacts(dx, dy, dx);
    }
    for u := 0 to dx
      invariant x == Move(p.x, right, u) && y == Move(p.y, up, k)
      invariant dx > 0 ==> k == Near(dx, dy, u) && ey == ErrorTerm(dx, dy, u, k)
      invariant dx > 0 ==> drawn == Pixels(p, right, up, false, dx, dy, u)
      invariant dx == 0 ==> k == 0 && drawn == []
    {
      ErrorDecides(dx, dy, u);
      drawn := drawn + [Point(x, y)];
      x := if right then x + 1 else x - 1;
      ghost var k0 := k;
      while ey >= 0
        invariant y == Move(p.y, up, k) && ey == ErrorTerm(dx, dy, u, k)
        invariant k == k0 || (k == k0 + 1 && ErrorTerm(dx, dy, u, k0) >= 0 > ey)
        invariant drawn == Pixels(p, right, up, false, dx, dy, u) + [Place(p, right, up, false, u, k0)]
                        + (if k > k0 then [Place(p, right, up, false, u + 1, k0)] else [])
        decreases ey
      {
        drawn := drawn + [Point(x, y)];
        y := if up then y + 1 else y - 1;
        ey := ey - 2 * dx;
        k := k + 1;
      }
      ErrorNext(dx, dy, u, k);
      ey := ey + 2 * dy;
    }
    end := Point(x, y);
  }

  /** The loop for lines that are higher than wide */
  method WalkRows(p: Point, right: bool, up: bool, dx: nat, dy: nat) returns (drawn: seq<Point>, end: Point)
    requires dx < dy
    ensures drawn == Pixels(p, right, up, true, dy, dx, dy)
    ensures end == Place(p, right, up, true, dy, dx)
  {
    hide Near, ErrorTerm;
    drawn := [];
    var x, y := p.x, p.y;
    var ex := 2 * dx - dy as int;
    ghost var k: nat := 0;
    ErrorNext(dy, dx, 0, 0);
    NearFacts(dy, dx, 0);
    NearFacts(dy, dx, dy);
    for u := 0 to dy
      invariant y == Move(p.y, up, u) && x == Move(p.x, right, k)
      invariant k == Near(dy, dx, u) && ex == ErrorTerm(dy, dx, u, k)
      invariant drawn == Pixels(p, right, up, true, dy, dx, u)
    {
      ErrorDecides(dy, dx, u);
      drawn := drawn + [Point(x, y)];
      y := if up then y + 1 else y - 1;
      ghost var k0 := k;
      while ex >= 0
        invariant x == Move(p.x, right, k) && ex == ErrorTerm(dy, dx, u, k)
        invariant k == k0 || (k == k0 + 1 && ErrorTerm(dy, dx, u, k0) >= 0 > ex)
        invariant drawn == Pixels(p, right, up, true, dy, dx, u) + [Place(p, right, up, true, u, k0)]
                        + (if k > k0 then [Place(p, right, up, true, u + 1, k0)] else [])
        decreases ex
      {
        drawn := drawn + [Point(x, y)];
        x := if right then x + 1 else x - 1;
        ex := ex - 2 * dy;
        k := k + 1;
      }
      ErrorNext(dy, dx, u, k);
      ex := ex + 2 * dx;
    }
    end := Point(x, y);
  }

  // ----- the whole routine -----

  /** Every pixel of a walk lies in the box of its two ends. */
  lemma {:induction false} PixelsInBox(p: Point, right: bool, up: bool, steep: bool, along: nat, across: nat, u: nat,
                                       i: nat)
    requires 0 < along && across <= along && u <= along && i < |Pixels(p, right, up, steep, along, across, u)|
    ensures InBox(p, Pixels(p, right, up, steep, along, across, u)[i], Place(p, right, up, steep, along, across))
    decreases u
  {
    if u > 0 {
      NearFacts(along, across, u - 1);
      NearFacts(along, across, u);
      hide Near;
      if i < |Pixels(p, right, up, steep, along, across, u - 1)| {
        PixelsInBox(p, right, up, steep, along, across, u - 1, i);
      }
    }
  }

  /** The pixels of one more step begin where those of the steps before end. */
  lemma {:induction false} StepPixel(p: Point, right: bool, up: bool, steep: bool, along: nat, across: nat, u: nat,
                                     n: nat)
    requires 0 < along && u < n
    ensures var all := Pixels(p, right, up, steep, along, across, n);
      var at := |Pixels(p, right, up, steep, along, across, u)|;
      at < |all| && all[at] == Place(p, right, up, steep, u, Near(along, across, u))
    decreases n
  {
    hide Near, Place;
    if u < n - 1 {
      StepPixel(p, right, up, steep, along, across, u, n - 1);
    }
  }

  /** Every pixel is the first one of some step, or follows it across in the same row. */
  lemma {:induction false} PixelIsOf(p: Point, right: bool, up: bool, steep: bool, along: nat, across: nat, n: nat,
                                     i: nat)
    returns (u: nat, corner: bool)
    requires 0 < along && i < |Pixels(p, right, up, steep, along, across, n)|
    ensures u < n
    ensures Pixels(p, right, up, steep, along, across, n)[i]
         == Place(p, right, up, steep, if corner then u + 1 else u, Near(along, across, u))
    decreases n
  {
    hide Near, Place;
    var before := Pixels(p, right, up, steep, along, across, n - 1);
    if i < |before| {
      u, corner := PixelIsOf(p, right, up, steep, along, across, n - 1, i);
    } else {
      u, corner := n - 1, i > |before|;
    }
  }

  /** The parameter of step u on a line of `along` steps */
  ghost function StepAt(u: nat, along: nat): (t: real)
    requires along > 0 && u <= along
    ensures 0.0 <= t <= 1.0 && t * along as real == u as real
  {
    Ratio(u as real, along as real)
  }

  /** n times v is n times a and r on top of it, or below it. */
  ghost predicate OffBy(v: real, a: int, n: nat, forward: bool, r: int) {
    v * n as real == a as real * n as real + (if forward then r else -r) as real
  }

  /** The coordinate of step u of `along` steps, d being the whole run. */
  lemma AlongStep(a: int, d: nat, forward: bool, u: nat, along: nat)
    requires along > 0 && u <= along
    ensures OffBy(Along(a, Move(a, forward, d), StepAt(u, along)), a, along, forward, u * d)
  {
    var run := if forward then d as int else -(d as int);
    RealSteps(a as real, StepAt(u, along), along as real, u as real, run as real);
    IntProduct(u, run);
    assert forward ==> u * run == u * d;
    assert !forward ==> u * run + u * d == 0;
  }

  lemma RealSteps(a: real, t: real, n: real, u: real, run: real)
    requires t * n == u
    ensures (a + t * run) * n == a * n + u * run
  {
    assert (t * run) * n == (t * n) * run;
  }

  /** The coordinate along the line is met exactly. */
  lemma AlongExact(a: int, forward: bool, u: nat, along: nat)
    requires along > 0 && u <= along
    ensures Along(a, Move(a, forward, along), StepAt(u, along)) == Move(a, forward, u) as real
  {
    var t, n := StepAt(u, along), along as real;
    TimesNegative(t, n);
  }

  /** The coordinate across the line is met to half a pixel. */
  lemma AcrossHalf(a: int, forward: bool, u: nat, along: nat, across: nat)
    requires 0 < along && across <= along && u <= along
    ensures var x := Along(a, Move(a, forward, across), StepAt(u, along));
      -0.5 <= Move(a, forward, Near(along, across, u)) as real - x <= 0.5
  {
    hide Near, Along, StepAt, Move, OffBy;
    NearFacts(along, across, u);
    var k := Near(along, across, u);
    AlongStep(a, across, forward, u, along);
    MovedTimes(a, forward, k, along);
    HalfApart(Move(a, forward, k) as real, Along(a, Move(a, forward, across), StepAt(u, along)),
              a, along, forward, along * k, u * across);
  }

  lemma HalfApart(p: real, q: real, a: int, n: nat, forward: bool, r: int, s: int)
    requires n > 0 && CInt.Abs(2 * s - 2 * r) <= n
    requires OffBy(p, a, n, forward, r) && OffBy(q, a, n, forward, s)
    ensures -0.5 <= p - q <= 0.5
  {
    RealDistribute(p, q, n as real);
    HalfOf(p - q, if forward then r - s else s - r, n);
  }

  lemma MovedTimes(a: int, forward: bool, k: nat, along: nat)
    ensures OffBy(Move(a, forward, k) as real, a, along, forward, along * k)
  {
    IntProduct(Move(a, forward, k), along);
    IntProduct(a, along);
    assert (a + k) * along == a * along + along * k && (a - k) * along == a * along - along * k;
  }

  lemma HalfOf(x: real, d: int, n: nat)
    requires n > 0 && x * n as real == d as real && CInt.Abs(2 * d) <= n
    ensures -0.5 <= x <= 0.5
  {
    var m := n as real;
    if x > 0.5 {
      PositiveReals(x - 0.5, m);
      RealDistribute(x, 0.5, m);
    } else if x < -0.5 {
      PositiveReals(-0.5 - x, m);
      RealDistribute(-0.5, x, m);
    }
  }

  /** The pixels the routine sets for a line whose ends p1 and p2 are in the window */
  function LinePixels(p1: Point, p2: Point): seq<Point> {
    var dx, dy := CInt.Abs(p2.x - p1.x), CInt.Abs(p2.y - p1.y);
    if dy > dx then Pixels(p1, p2.x >= p1.x, p2.y >= p1.y, true, dy, dx, dy)
    else if dx > 0 then Pixels(p1, p2.x >= p1.x, p2.y >= p1.y, false, dx, dy, dx)
    else []
  }

  /** The number of steps of the walk from p1 to p2 */
  function Steps(p1: Point, p2: Point): nat {
    var dx, dy := CInt.Abs(p2.x - p1.x), CInt.Abs(p2.y - p1.y);
    if dy > dx then dy else dx
  }

  /** p is within half a pixel of the segment from a to b at parameter t: exact in the longer direction. */
  ghost predicate HalfOff(a: Point, b: Point, p: Point, t: real) {
    && -0.5 <= p.x as real - Along(a.x, b.x, t) <= 0.5
    && -0.5 <= p.y as real - Along(a.y, b.y, t) <= 0.5
    && (if CInt.Abs(b.y - a.y) > CInt.Abs(b.x - a.x) then p.y as real == Along(a.y, b.y, t)
        else p.x as real == Along(a.x, b.x, t))
  }

  ghost predicate NearLine(a: Point, b: Point, p: Point, e: int) {
    exists t: real :: Tracks(a, b, p, t, e)
  }

  /** Some pixel is within half a pixel of the segment at step u. */
  ghost predicate StepDrawn(p1: Point, p2: Point, drawn: seq<Point>, u: nat)
    requires u < Steps(p1, p2)
  {
    exists i :: 0 <= i < |drawn| && HalfOff(p1, p2, drawn[i], StepAt(u, Steps(p1, p2)))
  }

  /** The first pixel of step u of a walk is within half a pixel of the segment at that step. */
  lemma PlaceHalfOff(p1: Point, p2: Point, u: nat)
    requires u <= Steps(p1, p2) && 0 < Steps(p1, p2)
    ensures var dx, dy := CInt.Abs(p2.x - p1.x), CInt.Abs(p2.y - p1.y);
      var p := if dy > dx then Place(p1, p2.x >= p1.x, p2.y >= p1.y, true, u, Near(dy, dx, u))
               else Place(p1, p2.x >= p1.x, p2.y >= p1.y, false, u, Near(dx, dy, u));
      HalfOff(p1, p2, p, StepAt(u, Steps(p1, p2)))
  {
    hide Near, Along, StepAt;
    var dx, dy := CInt.Abs(p2.x - p1.x), CInt.Abs(p2.y - p1.y);
    if dy > dx {
      AlongStep(p1.y, dy, p2.y >= p1.y, u, dy);
      AlongExact(p1.y, p2.y >= p1.y, u, dy);
      AcrossHalf(p1.x, p2.x >= p1.x, u, dy, dx);
    } else {
      AlongStep(p1.x, dx, p2.x >= p1.x, u, dx);
      AlongExact(p1.x, p2.x >= p1.x, u, dx);
      AcrossHalf(p1.y, p2.y >= p1.y, u, dx, dy);
    }
  }

  /** Every step is drawn to half a pixel. */
  lemma StepsAreDrawn(p1: Point, p2: Point, u: nat)
    requires u < Steps(p1, p2)
    ensures StepDrawn(p1, p2, LinePixels(p1, p2), u)
  {
    hide HalfOff, Near, Place, StepAt, Pixels;
    var dx, dy := CInt.Abs(p2.x - p1.x), CInt.Abs(p2.y - p1.y);
    PlaceHalfOff(p1, p2, u);
    if dy > dx {
      StepPixel(p1, p2.x >= p1.x, p2.y >= p1.y, true, dy, dx, u, dy);
    } else {
      StepPixel(p1, p2.x >= p1.x, p2.y >= p1.y, false, dx, dy, u, dx);
    }
  }

  /** No pixel is more than one pixel off. */
  lemma PixelsAreNear(p1: Point, p2: Point, i: nat) returns (t: real)
    requires i < |LinePixels(p1, p2)|
    ensures Tracks(p1, p2, LinePixels(p1, p2)[i], t, 1)
  {
    hide Near, StepAt, Pixels, Along;
    var dx, dy := CInt.Abs(p2.x - p1.x), CInt.Abs(p2.y - p1.y);
    var u, corner;
    if dy > dx {
      u, corner := PixelIsOf(p1, p2.x >= p1.x, p2.y >= p1.y, true, dy, dx, dy, i);
    } else {
      u, corner := PixelIsOf(p1, p2.x >= p1.x, p2.y >= p1.y, false, dx, dy, dx, i);
    }
    PlaceHalfOff(p1, p2, u);
    t := StepAt(u, Steps(p1, p2));
  }

  /** So each pixel of the clipped line is within five pixels of the line itself. */
  lemma PixelsNearLine(w: Window, a: Point, b: Point, p1: Point, p2: Point, i: nat)
    requires (exists t1, t2 :: Rounds(w, a, b, p1, p2, t1, t2, 4)) && i < |LinePixels(p1, p2)|
    ensures NearLine(a, b, LinePixels(p1, p2)[i], 5)
  {
    hide LinePixels, CutOff;
    var u := PixelsAreNear(p1, p2, i);
    var t1, t2 :| Rounds(w, a, b, p1, p2, t1, t2, 4);
    StepTracks(a, b, p1, p2, t1, t2, 4, LinePixels(p1, p2)[i], u);
  }

  lemma LineInWindow(w: Window, p1: Point, p2: Point)
    requires InWindow(w, p1) && InWindow(w, p2)
    ensures forall p :: p in LinePixels(p1, p2) ==> InWindow(w, p)
  {
    var dx, dy := CInt.Abs(p2.x - p1.x), CInt.Abs(p2.y - p1.y);
    var steep := dy > dx;
    var along, across := if steep then dy else dx, if steep then dx else dy;
    forall i | 0 <= i < |LinePixels(p1, p2)|
      ensures InWindow(w, LinePixels(p1, p2)[i])
    {
      PixelsInBox(p1, p2.x >= p1.x, p2.y >= p1.y, steep, along, across, along, i);
    }
  }

  /** What a drawn line looks like */
  lemma LineLook(w: Window, a: Point, b: Point, p1: Point, p2: Point)
    requires InWindow(w, p1) && InWindow(w, p2) && exists t1, t2 :: Rounds(w, a, b, p1, p2, t1, t2, 4)
    ensures forall p :: p in LinePixels(p1, p2) ==> InWindow(w, p) && NearLine(a, b, p, 5)
    ensures forall u: nat :: u < Steps(p1, p2) ==> StepDrawn(p1, p2, LinePixels(p1, p2), u)
  {
    hide LinePixels, NearLine, StepDrawn, Steps, Rounds, InWindow;
    LineInWindow(w, p1, p2);
    forall i | 0 <= i < |LinePixels(p1, p2)|
      ensures NearLine(a, b, LinePixels(p1, p2)[i], 5)
    {
      PixelsNearLine(w, a, b, p1, p2, i);
    }
    forall u: nat | u < Steps(p1, p2)
      ensures StepDrawn(p1, p2, LinePixels(p1, p2), u)
    {
      StepsAreDrawn(p1, p2, u);
    }
  }

  /**
   * GL_line: rejected, or the pixels of the clipped line are set. All of them are in the window and
   * within five pixels of the line, every step has one within half a pixel of the clipped line, and the
   * walk ends at its second end.
   */
  method Line(w: Window, a: Point, b: Point)
    returns (accepted: bool, drawn: seq<Point>, end: Point, ghost p1: Point, ghost p2: Point)
    ensures !accepted ==> drawn == [] && Misses(w, a, b, 4)
    ensures accepted ==> InWindow(w, p1) && InWindow(w, p2) && InBox(a, p1, b) && InBox(a, p2, b)
    ensures accepted ==> exists t1, t2 :: Rounds(w, a, b, p1, p2, t1, t2, 4)
    ensures accepted ==> drawn == LinePixels(p1, p2) && end == p2
    ensures forall p :: p in drawn ==> InWindow(w, p) && NearLine(a, b, p, 5)
    ensures accepted ==> forall u: nat :: u < Steps(p1, p2) ==> StepDrawn(p1, p2, drawn, u)
    ensures InWindow(w, a) ==> accepted && p1 == a
    ensures InWindow(w, b) ==> accepted && p2 == b
  {
    hide Pixels, InBox, Rounds, Misses, NearLine, StepDrawn, Steps;
    var q1, q2;
    accepted, q1, q2 := Clip(w, a, b);
    p1, p2, drawn, end := q1, q2, [], q2;
    if accepted {
      LineLook(w, a, b, q1, q2);
      var dy, up := q2.y - q1.y, true;
      if dy < 0 {
        up, dy := false, -dy;
      }
      var dx, right := q2.x - q1.x, true;
      if dx < 0 {
        right, dx := false, -dx;
      }
      if dy > dx {
        drawn, end := WalkRows(q1, right, up, dx, dy);
      } else {
        drawn, end := WalkColumns(q1, right, up, dx, dy);
      }
    }
  }
}
