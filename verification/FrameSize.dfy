/** `ACE::gcd` and `ACE::minimum_frame_size`, whose products wrap around at the width of `u_long`. */
module FrameSize {
  import opened Arithmetic

  function Times(d: nat, k: nat): nat { d * k }

  ghost predicate Divides(d: nat, n: nat) { exists k: nat :: Times(d, k) == n }

  ghost predicate IsGcd(g: nat, x: nat, y: nat)
  {
    Divides(g, x) && Divides(g, y) && forall d: nat :: Divides(d, x) && Divides(d, y) ==> Divides(d, g)
  }

  ghost predicate IsLcm(m: nat, x: nat, y: nat)
  {
    m > 0 && Divides(x, m) && Divides(y, m) && forall n: nat :: Divides(x, n) && Divides(y, n) ==> Divides(m, n)
  }

  function Gcd(x: nat, y: nat): (g: nat)
    ensures x > 0 || y > 0 ==> g > 0
    decreases y
  {
    if y == 0 then x else Gcd(y, x % y)
  }

  method GcdLoop(x0: nat, y0: nat) returns (x: nat)
    ensures x == Gcd(x0, y0)
  {
    x := x0;
    var y: nat := y0;
    while y != 0
      invariant Gcd(x, y) == Gcd(x0, y0)
    {
      var r := x % y;
      x := y;
      y := r;
    }
  }

  // ----- Euclid's algorithm -----

  lemma Self(x: nat)
    ensures Divides(x, x) && Divides(x, 0)
  {
    assert Times(x, 1) == x && Times(x, 0) == 0;
  }

  lemma DividesSum(d: nat, x: nat, y: nat, q: nat)
    requires Divides(d, x) && Divides(d, y)
    ensures Divides(d, y * q + x)
  {
    var k: nat :| Times(d, k) == x;
    var l: nat :| Times(d, l) == y;
    assert d * l * q + d * k == d * (l * q + k);
    assert Times(d, l * q + k) == y * q + x;
  }

  lemma DividesRest(d: nat, x: nat, y: nat, q: nat)
    requires y * q <= x && Divides(d, x) && Divides(d, y)
    ensures Divides(d, x - y * q)
  {
    var k: nat :| Times(d, k) == x;
    var l: nat :| Times(d, l) == y;
    assert d * k - d * l * q == d * (k - l * q);
    if k < l * q {
      NotNegative(d, k - l * q);
      assert x == y * q && Times(d, 0) == 0;
    } else {
      assert Times(d, k - l * q) == x - y * q;
    }
  }

  lemma {:induction false} GcdIsGcd(x: nat, y: nat)
    ensures IsGcd(Gcd(x, y), x, y)
    decreases y
  {
    if y == 0 {
      Self(x);
    } else {
      var q, r, g := x / y, x % y, Gcd(x, y);
      assert x == y * q + r;
      GcdIsGcd(y, r);
      DividesSum(g, r, y, q);
      forall d: nat | Divides(d, x) && Divides(d, y) ensures Divides(d, g) {
        DividesRest(d, x, y, q);
      }
    }
  }

  /** The greatest common divisor is a combination of the two numbers. */
  lemma {:induction false} Bezout(x: nat, y: nat) returns (u: int, v: int)
    ensures Gcd(x, y) == x * u + y * v
    decreases y
  {
    if y == 0 {
      u, v := 1, 0;
    } else {
      var q, r := x / y, x % y;
      var s, t := Bezout(y, r);
      u, v := t, s - q * t;
      assert y * (s - q * t) == y * s - y * (q * t);
      assert (x - y * q) * t == x * t - y * q * t;
    }
  }

  /** Divisors of each other are equal, so there is one greatest common divisor. */
  lemma GcdIsUnique(g: nat, h: nat, x: nat, y: nat)
    requires IsGcd(g, x, y) && IsGcd(h, x, y)
    ensures g == h
  {
    MutualDivisors(g, h);
  }

  lemma MutualDivisors(g: nat, h: nat)
    requires Divides(g, h) && Divides(h, g)
    ensures g == h
  {
    var k: nat :| Times(g, k) == h;
    var l: nat :| Times(h, l) == g;
    if g != 0 && h != 0 {
      if k == 0 || l == 0 { assert false; }
      AtLeast(g, k);
      AtLeast(h, l);
    }
  }

  // ----- least common multiples -----

  /** The product divided by the greatest common divisor is the least common multiple. */
  lemma QuotientIsLcm(x: nat, y: nat, m: nat)
    requires x > 0 && y > 0 && m > 0 && Gcd(x, y) * m == x * y
    ensures IsLcm(m, x, y)
  {
    GcdIsGcd(x, y);
    OneWay(x, y, Gcd(x, y), m);
    MulSwap(x, y, 1);
    OneWay(y, x, Gcd(x, y), m);
    forall n: nat | Divides(x, n) && Divides(y, n) ensures Divides(m, n) {
      EveryMultiple(x, y, m, n);
    }
  }

  lemma OneWay(x: nat, y: nat, g: nat, m: nat)
    requires g > 0 && Divides(g, y) && g * m == x * y
    ensures Divides(x, m)
  {
    var b: nat :| Times(g, b) == y;
    MulSwap(x, g, b);
    Cancel(g, m, x * b);
    assert Times(x, b) == m;
  }

  lemma EveryMultiple(x: nat, y: nat, m: nat, n: nat)
    requires x > 0 && y > 0 && m > 0 && Gcd(x, y) * m == x * y && Divides(x, n) && Divides(y, n)
    ensures Divides(m, n)
  {
    var g := Gcd(x, y);
    var k: nat :| Times(x, k) == n;
    var l: nat :| Times(y, l) == n;
    var u, v := Bezout(x, y);
    var t := l * u + k * v;
    Combine(x, y, k, l, u, v, n);
    MulAssoc(g, m, t);
    Cancel(g, n, m * t);
    if t < 0 {
      NotNegative(m, t);
      assert Times(m, 0) == n;
    } else {
      assert Times(m, t) == n;
    }
  }

  lemma Combine(x: nat, y: nat, k: nat, l: nat, u: int, v: int, n: nat)
    requires n == x * k == y * l
    ensures n * (x * u + y * v) == x * y * (l * u + k * v)
  {
    assert n * (x * u + y * v) == n * (x * u) + n * (y * v);
    assert n * (x * u) == y * l * (x * u) == x * y * (l * u);
    assert n * (y * v) == x * k * (y * v) == x * y * (k * v);
  }

  // ----- the frame size -----

  /** `width` is the number of values of `u_long`.  A zero period gives the other one.  Otherwise the
      result is the least common multiple just when one period divides the other or the product
      does not wrap around; else it is what is left of the product, divided. */
  method MinimumFrameSize(period1: nat, period2: nat, width: nat) returns (r: nat)
    requires period1 < width && period2 < width
    ensures r < width
    ensures period1 == 0 ==> r == period2
    ensures period2 == 0 ==> r == period1
    ensures period1 > 0 && period2 > 0 ==>
              (IsLcm(r, period1, period2) <==>
                Divides(period1, period2) || Divides(period2, period1) || period1 * period2 < width)
    ensures period1 > 0 && period2 > 0 && !IsLcm(r, period1, period2) ==>
              forall g | IsGcd(g, period1, period2) :: g > 0 && r == (period1 * period2 % width) / g
  {
    if period1 == 0 {
      return period2;
    }
    if period2 == 0 {
      return period1;
    }
    var gcd := GcdLoop(period1, period2);
    FrameIsLcmIff(period1, period2, width);
    if gcd == 1 {
      return period1 * period2 % width;
    } else if gcd == period1 {
      return period2;
    } else if gcd == period2 {
      return period1;
    } else {
      return (period1 * period2 % width) / gcd;
    }
  }

  /** A product of unsigned numbers. */
  function Wrap(p: nat, width: nat): nat
    requires width > 0
  {
    p % width
  }

  /** The branches for two non-zero periods. */
  function Frame(x: nat, y: nat, width: nat): nat
    requires 0 < x < width && 0 < y < width
  {
    var g := Gcd(x, y);
    if g == 1 then Wrap(Times(x, y), width)
    else if g == x then y
    else if g == y then x
    else Over(Wrap(Times(x, y), width), g)
  }

  /** The factor that is left of the product. */
  lemma Quotient(x: nat, y: nat) returns (m: nat)
    requires x > 0 && y > 0
    ensures Gcd(x, y) > 0 && m > 0 && Gcd(x, y) * m == x * y && (forall r: nat :: IsLcm(r, x, y) <==> r == m)
  {
    var g := Gcd(x, y);
    GcdIsGcd(x, y);
    var a: nat :| Times(g, a) == x;
    m := a * y;
    MulAssoc(g, a, y);
    assert m > 0 by {
      AtLeast(y, a);
    }
    QuotientIsLcm(x, y, m);
    forall r: nat | IsLcm(r, x, y) ensures r == m {
      MutualDivisors(r, m);
    }
  }

  /** The divisor is one of the numbers just when that number divides the other. */
  lemma GcdIsFirstIff(x: nat, y: nat)
    ensures Gcd(x, y) == x <==> Divides(x, y)
    ensures Gcd(x, y) == y <==> Divides(y, x)
  {
    GcdIsGcd(x, y);
    Self(x);
    Self(y);
    if Divides(x, y) { MutualDivisors(x, Gcd(x, y)); }
    if Divides(y, x) { MutualDivisors(y, Gcd(x, y)); }
  }

  /** A product that wrapped around is too small. */
  lemma Wrapped(g: nat, m: nat, width: nat)
    requires 0 < g < width
    ensures Over(Wrap(Times(g, m), width), g) == m <==> Times(g, m) < width
    ensures Over(Wrap(Times(g, m), width), g) < width
  {
    hide Times; hide Over; hide Wrap;
    var p := Times(g, m);
    WrapBounds(p, width);
    OverBelow(Wrap(p, width), g);
    if p < width { OverTimes(g, m); } else { OverBelowFactor(Wrap(p, width), g, m); }
  }

  lemma WrapBounds(p: nat, width: nat)
    requires 0 < width
    ensures Wrap(p, width) < width && (p < width ==> Wrap(p, width) == p)
  {
  }

  lemma OverBelow(r: nat, g: nat)
    requires g > 0
    ensures Over(r, g) <= r
  {
    assert r == g * (r / g) + r % g;
    MulSwap(g, r / g, 1);
    AtLeast(r / g, g);
  }

  lemma OverTimes(g: nat, m: nat)
    requires g > 0
    ensures Over(Times(g, m), g) == m
  {
    Exact(g, m);
  }

  lemma OverBelowFactor(r: nat, g: nat, m: nat)
    requires g > 0 && r < Times(g, m)
    ensures Over(r, g) < m
  {
    var q := r / g;
    assert g * q <= r;
    if q >= m { Scale(g, m, q); }
  }

  lemma FrameIsLcmIff(x: nat, y: nat, width: nat)
    requires 0 < x < width && 0 < y < width
    ensures var r := Frame(x, y, width);
            && r < width
            && (IsLcm(r, x, y) <==> Divides(x, y) || Divides(y, x) || x * y < width)
            && (!IsLcm(r, x, y) ==> forall g | IsGcd(g, x, y) :: g > 0 && r == (x * y % width) / g)
  {
    hide IsLcm; hide IsGcd; hide Divides; hide Gcd;
    var g, r := Gcd(x, y), Frame(x, y, width);
    var m := Quotient(x, y);
    GcdIsFirstIff(x, y);
    forall h | IsGcd(h, x, y) ensures h == g {
      GcdIsGcd(x, y);
      GcdIsUnique(h, g, x, y);
    }
    FrameIsQuotientIff(x, y, g, m, width);
  }

  lemma FrameIsQuotientIff(x: nat, y: nat, g: nat, m: nat, width: nat)
    requires 0 < x < width && 0 < y < width && g == Gcd(x, y) && Times(g, m) == Times(x, y)
    ensures var r := Frame(x, y, width);
            && r < width
            && (r == m <==> g == x || g == y || Times(x, y) < width)
            && (r != m ==> r == Over(Wrap(Times(x, y), width), g))
  {
    hide Gcd; hide Times; hide Wrap; hide Over;
    GcdAtMost(x, y);
    Wrapped(g, m, width);
    SmallFactor(x, y, m);
    Others(x, y, m, width);
  }

  lemma SmallFactor(x: nat, y: nat, m: nat)
    requires x > 0 && y > 0
    ensures Times(x, m) == Times(x, y) ==> m == y
    ensures Times(y, m) == Times(x, y) ==> m == x
  {
    if Times(x, m) == Times(x, y) { Cancel(x, m, y); }
    MulSwap(x, y, 1);
    if Times(y, m) == Times(x, y) { Cancel(y, m, x); }
  }

  /** The cases of a divisor that is one. */
  lemma Others(x: nat, y: nat, m: nat, width: nat)
    requires 0 < x < width && 0 < y < width
    ensures Times(1, m) == m && Over(Wrap(Times(x, y), width), 1) == Wrap(Times(x, y), width)
    ensures (x == 1 ==> Times(x, y) == y) && (y == 1 ==> Times(x, y) == x)
  {
  }

  lemma GcdAtMost(x: nat, y: nat)
    requires x > 0
    ensures Gcd(x, y) <= x
  {
    GcdIsGcd(x, y);
    var k: nat :| Times(Gcd(x, y), k) == x;
    AtLeast(Gcd(x, y), k);
  }
}
