/** Integer helpers shared by the two checkers: absolute value, divisibility
    and a greatest common divisor that behaves like Python's math.gcd
    (non-negative, taken on absolute values, with gcd(0, 0) == 0). */
module Numbers {

  function Abs(x: int): (r: nat)
    ensures r == x || r == -x
  {
    if x < 0 then -x else x
  }

  /** d divides x; zero divides only zero. */
  predicate Divides(d: int, x: int) {
    if d == 0 then x == 0 else x % d == 0
  }

  /** Every multiple of d is divisible by d. */
  lemma DividesMultiple(d: int, c: int)
    ensures Divides(d, d * c)
  {
    if d != 0 {
      var x := d * c;
      var r := x % d;
      var q := c - x / d;
      assert x == d * (x / d) + r;
      assert d * q == r by {
        assert d * q == d * c - d * (x / d);
      }
      if q != 0 {
        MulAbsAtLeast(d, q);
        assert false;
      }
    }
  }

  lemma MulNonNegative(a: int, b: int)
    requires a >= 0 && b >= 0
    ensures a * b >= 0
  {
  }

  /** A nonzero multiple of d is at least as large as d in absolute value. */
  lemma MulAbsAtLeast(d: int, q: int)
    requires q != 0
    ensures Abs(d * q) >= Abs(d)
  {
    if q > 0 {
      if d >= 0 {
        MulNonNegative(d, q - 1);
        assert d * q == d + d * (q - 1);
      } else {
        MulNonNegative(-d, q - 1);
        assert d * q == d - (-d) * (q - 1);
      }
    } else {
      if d >= 0 {
        MulNonNegative(d, -q - 1);
        assert d * q == -d - d * (-q - 1);
      } else {
        MulNonNegative(-d, -q - 1);
        assert d * q == -d + (-d) * (-q - 1);
      }
    }
  }

  /** Dividing a smaller natural number leaves it as the remainder. */
  lemma ModSmall(a: int, b: int)
    requires 0 <= a < b
    ensures a % b == a
  {
    var q := a / b;
    assert a == b * q + a % b;
    if q != 0 {
      MulAbsAtLeast(b, q);
    }
  }

  /** For a positive m, k is at most n / m exactly when m * k is at most n. */
  lemma MulDivBound(m: int, n: int, k: int)
    requires m >= 1
    ensures k <= n / m <==> m * k <= n
  {
    var q := n / m;
    assert n == m * q + n % m;
    if k <= q {
      MulNonNegative(m, q - k);
      assert m * q - m * k == m * (q - k);
    } else {
      MulNonNegative(m, k - q - 1);
      assert m * k - m * (q + 1) == m * (k - q - 1);
    }
  }

  /** A multiple idx of m larger than m is m * k for some k >= 2. */
  lemma LargerMultiple(m: int, idx: int)
    requires 1 <= m < idx && idx % m == 0
    ensures idx == m * (idx / m) && idx / m >= 2
  {
    MulDivBound(m, idx, 1);
    assert idx == m * (idx / m);
  }

  /** A common divisor of x and y divides every combination x + c * y. */
  lemma DividesCombination(d: int, x: int, y: int, c: int)
    requires Divides(d, x) && Divides(d, y)
    ensures Divides(d, x + c * y)
  {
    if d != 0 {
      var u, v := x / d, y / d;
      assert x == d * u && y == d * v;
      assert x + c * y == d * (u + c * v) by {
        assert c * y == d * (c * v);
      }
      DividesMultiple(d, u + c * v);
    }
  }

  /** Divisibility ignores the sign of the dividend and of the divisor. */
  lemma DividesSign(d: int, x: int)
    ensures Divides(d, x) <==> Divides(d, Abs(x))
    ensures Divides(d, x) <==> Divides(Abs(d), x)
  {
    if Divides(d, x) {
      DividesNegate(d, x);
      DividesNegateDivisor(d, x);
    }
    if Divides(d, -x) {
      DividesNegate(d, -x);
    }
    if Divides(-d, x) {
      DividesNegateDivisor(-d, x);
    }
  }

  lemma DividesNegate(d: int, x: int)
    requires Divides(d, x)
    ensures Divides(d, -x)
  {
    assert Divides(d, 0);
    DividesCombination(d, 0, x, -1);
  }

  lemma DividesNegateDivisor(d: int, x: int)
    requires Divides(d, x)
    ensures Divides(-d, x)
  {
    if d != 0 {
      var c := x / d;
      assert x == d * c;
      assert x == (-d) * (-c);
      DividesMultiple(-d, -c);
    }
  }

  /** Euclid's algorithm on natural numbers. */
  function GcdNat(a: nat, b: nat): (g: nat)
    decreases b
    ensures g == 0 <==> a == 0 && b == 0
    ensures a > 0 ==> g <= a
    ensures b > 0 ==> g <= b
  {
    if b == 0 then a
    else
      assert a < b ==> a % b == a by {
        if a < b { ModSmall(a, b); }
      }
      GcdNat(b, a % b)
  }

  /** The greatest common divisor of two integers, as math.gcd computes it. */
  function Gcd(a: int, b: int): (g: nat)
    ensures g == 0 <==> a == 0 && b == 0
    ensures a != 0 ==> 1 <= g <= Abs(a)
    ensures b != 0 ==> 1 <= g <= Abs(b)
  {
    GcdNat(Abs(a), Abs(b))
  }

  lemma {:induction false} GcdNatDivides(a: nat, b: nat)
    ensures Divides(GcdNat(a, b), a) && Divides(GcdNat(a, b), b)
    decreases b
  {
    if b == 0 {
      assert a != 0 ==> a % a == 0;
    } else {
      var g := GcdNat(a, b);
      GcdNatDivides(b, a % b);
      assert a == a % b + (a / b) * b;
      DividesCombination(g, a % b, b, a / b);
    }
  }

  lemma {:induction false} GcdNatGreatest(a: nat, b: nat, d: int)
    requires Divides(d, a) && Divides(d, b)
    ensures Divides(d, GcdNat(a, b))
    decreases b
  {
    if b != 0 {
      assert a % b == a + (-(a / b)) * b;
      DividesCombination(d, a, b, -(a / b));
      GcdNatGreatest(b, a % b, d);
    }
  }

  /** Gcd(a, b) is a common divisor of a and b, and every common divisor of
      a and b divides it: it is the greatest common divisor. */
  lemma GcdIsGreatestCommonDivisor(a: int, b: int)
    ensures Divides(Gcd(a, b), a) && Divides(Gcd(a, b), b)
    ensures forall d :: Divides(d, a) && Divides(d, b) ==> Divides(d, Gcd(a, b))
  {
    var g := Gcd(a, b);
    GcdNatDivides(Abs(a), Abs(b));
    DividesSign(g, a);
    DividesSign(g, b);
    forall d | Divides(d, a) && Divides(d, b)
      ensures Divides(d, g)
    {
      DividesSign(d, a);
      DividesSign(d, b);
      GcdNatGreatest(Abs(a), Abs(b), d);
    }
  }

  /** The gcd of m and one of its larger multiples is m itself. */
  lemma GcdOfMultiple(m: int, idx: int)
    requires 1 <= m < idx && idx % m == 0
    ensures Gcd(m, idx) == m
  {
    ModSmall(m, idx);
    assert GcdNat(m, idx) == GcdNat(idx, m);
    assert GcdNat(idx, m) == GcdNat(m, 0);
  }
}
