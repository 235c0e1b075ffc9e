/** Non-linear facts about real numbers, each small enough for the solver. */
module RealFacts {
  function Min(a: real, b: real): real { if a <= b then a else b }
  function Max(a: real, b: real): real { if a >= b then a else b }

  lemma ProductMonotone(a: real, b: real, s: real)
    requires a <= b && s >= 0.0
    ensures a * s <= b * s
  {}

  lemma ProductStrict(a: real, b: real, s: real)
    requires a < b && s > 0.0
    ensures a * s < b * s
  {}

  /** `x` added up `k` times. */
  function Repeated(x: real, k: nat): real {
    if k == 0 then 0.0 else Repeated(x, k - 1) + x
  }

  lemma {:induction false} RepeatedIsProduct(x: real, k: nat)
    ensures Repeated(x, k) == x * k as real
  {
    if k > 0 {
      RepeatedIsProduct(x, k - 1);
      assert x * k as real == x * (k - 1) as real + x;
    }
  }

  lemma {:induction false} RepeatedCompare(a: real, b: real, k: nat)
    requires k > 0
    ensures Repeated(a, k) <= Repeated(b, k) <==> a <= b
    ensures Repeated(a, k) == Repeated(b, k) <==> a == b
  {
    if k > 1 {
      RepeatedCompare(a, b, k - 1);
    }
  }

  lemma SquareMonotone(a: real, b: real)
    requires 0.0 <= a < b
    ensures a * a < b * b
  {
    calc {
      a * a;
    <= { ProductMonotone(a, b, a); }
      b * a;
    == a * b;
    <  { ProductStrict(a, b, b); }
      b * b;
    }
  }

  lemma RootMonotone(d: real, m: real)
    requires m >= 0.0 && d * d <= m * m
    ensures -m <= d <= m
  {
    if d > m {
      SquareMonotone(m, d);
    } else if -d > m {
      var e := -d;
      assert e * e == d * d;
      SquareMonotone(m, e);
    }
  }

  lemma Regroup(a: real, b: real, c: real, d: real)
    ensures (a * b) * (c * d) == (a * c) * (b * d)
  {
    assert (a * b) * (c * d) == a * (b * (c * d)) == a * (c * (b * d)) == (a * c) * (b * d);
  }

  lemma SquareOfSum(a: real, b: real)
    ensures (a + b) * (a + b) == a * a + 2.0 * (a * b) + b * b
  {
    assert (a + b) * (a + b) == a * (a + b) + b * (a + b);
  }

  lemma SquareNonNegative(a: real)
    ensures a * a >= 0.0
  {}

  lemma SquareIsZeroExactly(a: real)
    ensures a * a == 0.0 <==> a == 0.0
  {
    if a > 0.0 {
      SquareMonotone(0.0, a);
    } else if a < 0.0 {
      SquareMonotone(0.0, -a);
      assert -a * -a == a * a;
    }
  }

  lemma Distributes(a: real, b: real, c: real)
    ensures a * (b + c) == a * b + a * c
  {}

  lemma SquareOfDifference(u: real, x: real, v: real, y: real)
    ensures (u * x - v * y) * (u * x - v * y) == (x * x) * (u * u) - 2.0 * ((x * y) * (u * v)) + (y * y) * (v * v)
  {
    var p, q := u * x, v * y;
    SquareOfSum(p, -q);
    assert (p + -q) * (p + -q) == p * p - 2.0 * (p * q) + q * q by {
      assert p * -q == -(p * q) && -q * -q == q * q;
    }
    Regroup(u, x, u, x);
    Regroup(u, x, v, y);
    Regroup(v, y, v, y);
  }

  lemma NonZeroFactor(m: real, x: real)
    requires m > 0.0
    ensures m * x == 0.0 <==> x == 0.0
  {
    if x > 0.0 {
      ProductStrict(0.0, x, m);
    } else if x < 0.0 {
      ProductStrict(x, 0.0, m);
    }
  }

  lemma FourTimesProduct(u: real, v: real)
    ensures 4.0 * (u * v) <= (u + v) * (u + v)
  {
    var w := u - v;
    SquareNonNegative(w);
    assert w * w == u * u - 2.0 * (u * v) + v * v by {
      SquareOfSum(u, -v);
      assert u * -v == -(u * v) && -v * -v == v * v;
    }
    SquareOfSum(u, v);
  }

  /** The arithmetic mean of two non-negative numbers bounds every root of their product. */
  lemma MeanBoundsRoot(u: real, v: real, m: real)
    requires u >= 0.0 && v >= 0.0 && m * m <= u * v
    ensures 2.0 * m <= u + v
  {
    var s, t := u + v, 2.0 * m;
    assert t * t <= s * s by {
      FourTimesProduct(u, v);
      assert t * t == 4.0 * (m * m);
    }
    if t > s {
      SquareMonotone(s, t);
    }
  }

  lemma QuotientInRange(d: real, m: real)
    requires m > 0.0 && -m <= d <= m
    ensures -1.0 <= d / m <= 1.0
  {
    var q := d / m;
    assert q * m == d;
    if q > 1.0 {
      ProductStrict(1.0, q, m);
    } else if q < -1.0 {
      ProductStrict(q, -1.0, m);
    }
  }

  lemma QuotientOfSelf(d: real)
    requires d != 0.0
    ensures d / d == 1.0
  {
    var q := d / d;
    assert q * d == d;
    assert (q - 1.0) * d == 0.0;
  }

  lemma QuotientMonotone(a: real, b: real, n: real)
    requires a <= b && n > 0.0
    ensures a / n <= b / n
  {
    var p, q := a / n, b / n;
    assert p * n == a && q * n == b;
    if p > q {
      ProductStrict(q, p, n);
    }
  }

  lemma QuotientAtLeast(p: real, w: real, n: real)
    requires w > 0.0 && n > 0.0 && w <= n * p
    ensures p / w >= 1.0 / n
  {
    var q, r := p / w, 1.0 / n;
    assert q * w == p && r * n == 1.0;
    assert r * w * n == (r * n) * w == w;
    if q < r {
      ProductStrict(q, r, w);
      ProductStrict(p, r * w, n);
    }
  }

  lemma Portion(part: nat, whole: nat)
    requires part <= whole && whole > 0
    ensures 0.0 <= part as real / whole as real <= 1.0
    ensures part as real / whole as real == 1.0 <==> part == whole
    ensures part as real / whole as real == 0.0 <==> part == 0
  {
    var q, w := part as real / whole as real, whole as real;
    assert q * w == part as real;
    QuotientInRange(part as real, w);
    QuotientMonotone(0.0, part as real, w);
  }

  lemma RestOfShare(part: nat, rest: nat, whole: nat, share: real)
    requires whole > 0 && part + rest == whole
    requires share == (var q := 1.0 - part as real / whole as real; if q > 0.0 then q else 0.0)
    ensures share == rest as real / whole as real
  {
    var q, r, w := part as real / whole as real, rest as real / whole as real, whole as real;
    Portion(part, whole);
    assert q * w == part as real && r * w == rest as real;
    assert (q + r - 1.0) * w == q * w + r * w - w == 0.0;
  }

  lemma NonNegativeProduct(a: real, b: real)
    requires a >= 0.0 && b >= 0.0
    ensures a * b >= 0.0
  {}

  lemma NonZeroProduct(a: real, b: real)
    requires a >= 0.0 && b >= 0.0
    ensures a * b > 0.0 <==> a > 0.0 && b > 0.0
  {
    if a > 0.0 {
      NonZeroFactor(a, b);
      NonNegativeProduct(a, b);
    }
  }

  lemma Damped(c: real, o: real)
    requires -1.0 <= c <= 1.0 && 0.0 <= o <= 1.0
    ensures -1.0 <= c * o <= 1.0
    ensures c * o == 1.0 <==> c == 1.0 && o == 1.0
  {
    NonNegativeProduct(1.0 - c, o);
    NonNegativeProduct(1.0 + c, o);
    assert (1.0 - c) * o == o - c * o && (1.0 + c) * o == o + c * o;
  }

  /** A weighted sum grows with its parts. */
  lemma MixMonotone(beta: real, rest: real, a: real, a': real, b: real, b': real)
    requires 0.0 <= beta && 0.0 <= rest && a <= a' && b <= b'
    ensures beta * a + rest * b <= beta * a' + rest * b'
  {
    calc {
      beta * a + rest * b;
    <= { ProductMonotone(a, a', beta); assert beta * a <= beta * a'; }
      beta * a' + rest * b;
    <= { ProductMonotone(b, b', rest); assert rest * b <= rest * b'; }
      beta * a' + rest * b';
    }
  }
}
