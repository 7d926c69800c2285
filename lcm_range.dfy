/** The LCM-range component of problem5: Euclid's greatest common divisor,
    the least common multiple built on it, and the smallest number that every
    integer 1..n divides, accumulated one lcm at a time.

    Numbers are unbounded naturals: the source's `long` arithmetic is
    modelled without its 64-bit wrap-around, and its `int` loop counter
    without its 32-bit wrap-around (which makes the source loop forever
    when n is the largest `int`). */
module LcmRange {

  /** d divides n. Zero divides only zero, so the definition is total. */
  predicate Divides(d: nat, n: nat) {
    if d == 0 then n == 0 else n % d == 0
  }

  /** Euclidean division has one quotient and one remainder. */
  lemma DivModUnique(n: int, d: int, q: int, r: int)
    requires d > 0 && n == d * q + r && 0 <= r < d
    ensures n / d == q && n % d == r
  {
    var q0, r0 := n / d, n % d;
    assert d * (q - q0) == r0 - r;
    MulAwayFromZero(d, q - q0);
  }

  /** A nonzero multiple of a positive d is at least d away from zero. */
  lemma MulAwayFromZero(d: int, k: int)
    requires d > 0
    ensures k >= 1 ==> d * k >= d
    ensures k <= -1 ==> d * k <= -d
  {
    if k >= 1 {
      assert d * k == d * (k - 1) + d;
    } else if k <= -1 {
      assert d * k == d * (k + 1) - d;
    }
  }

  /** A multiple of d is divided by d. */
  lemma DividesMul(d: nat, k: nat)
    ensures Divides(d, d * k)
  {
    if d > 0 {
      DivModUnique(d * k, d, k, 0);
    }
  }

  /** A positive divisor leaves an exact cofactor. */
  lemma Cofactor(d: nat, n: nat)
    requires d > 0 && Divides(d, n)
    ensures n == d * (n / d)
  {
  }

  /** Divisibility is transitive. */
  lemma DividesTrans(a: nat, b: nat, c: nat)
    requires Divides(a, b) && Divides(b, c)
    ensures Divides(a, c)
  {
    if a > 0 && b > 0 {
      var x, y := b / a, c / b;
      assert b == a * x;
      assert c == b * y;
      assert c == a * (x * y);
      DividesMul(a, x * y);
    }
  }

  /** A positive number's divisors are no larger than it. */
  lemma DividesLe(d: nat, n: nat)
    requires n > 0 && Divides(d, n)
    ensures d <= n
  {
    if d > n {
      DivModUnique(n, d, 0, n);
    }
  }

  /** One Euclid step keeps the common divisors: those of (a, b) are
      those of (b, a % b). */
  lemma EuclidStep(a: nat, b: nat)
    requires b > 0
    ensures forall d: nat :: Divides(d, a) && Divides(d, b) <==> Divides(d, b) && Divides(d, a % b)
  {
    forall d: nat | d > 0 && Divides(d, b)
      ensures Divides(d, a) <==> Divides(d, a % b)
    {
      var q, r, y := a / b, a % b, b / d;
      assert b == d * y;
      assert a == d * (y * q) + r;
      if Divides(d, a) {
        var x := a / d;
        assert a == d * x;
        assert r == d * (x - y * q);
        DivModUnique(r, d, x - y * q, 0);
      }
      if Divides(d, r) {
        var z := r / d;
        assert r == d * z;
        assert a == d * (y * q + z);
        DivModUnique(a, d, y * q + z, 0);
      }
    }
  }

  /** gcd(a, b) by Euclid's recursion, base case gcd(a, 0) == a. The result
      divides both operands and every common divisor divides it. */
  function Gcd(a: nat, b: nat): (g: nat)
    ensures Divides(g, a) && Divides(g, b)
    ensures forall d: nat :: Divides(d, a) && Divides(d, b) ==> Divides(d, g)
    decreases b
  {
    if b == 0 then
      a
    else
      EuclidStep(a, b);
      Gcd(b, a % b)
  }

  /** gcd is the greatest common divisor: no common divisor exceeds it, and
      it is positive unless both operands are 0. */
  lemma GcdIsGreatest(a: nat, b: nat, d: nat)
    requires a != 0 || b != 0
    requires Divides(d, a) && Divides(d, b)
    ensures Gcd(a, b) > 0 && d <= Gcd(a, b)
  {
    DividesLe(d, Gcd(a, b));
  }

  /** Any number with gcd's divisor characterisation is gcd itself. */
  lemma GcdUnique(a: nat, b: nat, g: nat)
    requires Divides(g, a) && Divides(g, b)
    requires forall d: nat :: Divides(d, a) && Divides(d, b) ==> Divides(d, g)
    ensures g == Gcd(a, b)
  {
    var h := Gcd(a, b);
    assert Divides(g, h) && Divides(h, g);
    if g > 0 && h > 0 {
      DividesLe(g, h);
      DividesLe(h, g);
    }
  }

  /** Coefficients x, y with a * x + b * y == gcd(a, b), following the same
      recursion as Gcd. */
  ghost function Bezout(a: nat, b: nat): (c: (int, int))
    ensures a * c.0 + b * c.1 == Gcd(a, b)
    decreases b
  {
    if b == 0 then
      (1, 0)
    else
      var (x, y) := Bezout(b, a % b);
      var q := a / b;
      assert a == b * q + a % b;
      assert a * y + b * (x - q * y) == b * x + (a - b * q) * y;
      (y, x - q * y)
  }

  /** lcm(a, b) == a * b / gcd(a, b); the source divides by zero when both
      operands are 0. The product identity holds and both operands divide
      the result. */
  function Lcm(a: nat, b: nat): (m: nat)
    requires a != 0 || b != 0
    ensures m * Gcd(a, b) == a * b
    ensures Divides(a, m) && Divides(b, m)
    ensures a > 0 && b > 0 ==> m > 0
  {
    LcmFacts(a, b);
    a * b / Gcd(a, b)
  }

  lemma LcmFacts(a: nat, b: nat)
    requires a != 0 || b != 0
    ensures a * b / Gcd(a, b) >= 0
    ensures (a * b / Gcd(a, b)) * Gcd(a, b) == a * b
    ensures Divides(a, a * b / Gcd(a, b)) && Divides(b, a * b / Gcd(a, b))
    ensures a > 0 && b > 0 ==> a * b / Gcd(a, b) > 0
  {
    var g := Gcd(a, b);
    GcdIsGreatest(a, b, 1);
    var a', b' := a / g, b / g;
    Cofactor(g, a);
    Cofactor(g, b);
    ProductOverFactor(a, b, g, a', b');
    DividesMul(a, b');
    DividesMul(b, a');
    if a > 0 && b > 0 {
      assert b' > 0;
      MulAwayFromZero(a, b');
    }
  }

  /** With g dividing a and b, a * b / g is exact and equals both a' * b and
      a * b' for the cofactors a', b'. */
  lemma ProductOverFactor(a: nat, b: nat, g: nat, a': nat, b': nat)
    requires g > 0 && a == g * a' && b == g * b'
    ensures a * b / g == a' * b == a * b'
    ensures (a' * b) * g == a * b
  {
    assert a * b == g * (a' * b);
    DivModUnique(a * b, g, a' * b, 0);
    assert a' * b == a' * (g * b') == (g * a') * b';
  }

  /** lcm is the least common multiple: it divides every common multiple. */
  lemma LcmIsLeast(a: nat, b: nat, n: nat)
    requires a != 0 || b != 0
    requires Divides(a, n) && Divides(b, n)
    ensures Divides(Lcm(a, b), n)
  {
    var l, g := Lcm(a, b), Gcd(a, b);
    if a == 0 || b == 0 {
      assert n == 0;
    } else {
      GcdIsGreatest(a, b, 1);
      var (x, y) := Bezout(a, b);
      Cofactor(b, n);
      Cofactor(a, n);
      var s, t := n / b, n / a;
      var k := s * x + t * y;
      CommonMultipleTimesGcd(a, b, n, x, y, s, t);
      CancelFactor(n, l, k, g);
      DivModUnique(n, l, k, 0);
    }
  }

  /** n * g == (l * g) * k with g > 0 gives n == l * k. */
  lemma CancelFactor(n: int, l: int, k: int, g: int)
    requires g > 0 && n * g == (l * g) * k
    ensures n == l * k
  {
    assert g * (n - l * k) == 0;
  }

  /** n * (a * x + b * y) == a * b * (s * x + t * y) when n == b * s == a * t. */
  lemma CommonMultipleTimesGcd(a: int, b: int, n: int, x: int, y: int, s: int, t: int)
    requires n == b * s && n == a * t
    ensures n * (a * x + b * y) == (a * b) * (s * x + t * y)
  {
    assert n * (a * x) == (a * b) * (s * x) by {
      assert n * (a * x) == (b * s) * (a * x);
    }
    assert n * (b * y) == (a * b) * (t * y) by {
      assert n * (b * y) == (a * t) * (b * y);
    }
  }

  /** Every k in 1..n divides m. */
  predicate MultipleOfAllUpTo(n: int, m: nat) {
    forall k: nat :: 1 <= k <= n ==> Divides(k, m)
  }

  /** smallestMultiple(n): starting from 1, fold lcm over i = 2..n. The result
      is a common multiple of 1..n that divides every other one, so it is the
      least positive one; it is 1 when n <= 1. */
  method SmallestMultiple(n: int) returns (result: nat)
    ensures result > 0 && MultipleOfAllUpTo(n, result)
    ensures forall m: nat :: MultipleOfAllUpTo(n, m) ==> Divides(result, m)
    ensures forall m: nat :: m > 0 && MultipleOfAllUpTo(n, m) ==> result <= m
    ensures n <= 1 ==> result == 1
  {
    result := 1;
    var i := 2;
    while i <= n
      invariant 2 <= i <= if n < 2 then 2 else n + 1
      invariant result > 0 && MultipleOfAllUpTo(i - 1, result)
      invariant forall m: nat :: MultipleOfAllUpTo(i - 1, m) ==> Divides(result, m)
    {
      var next := Lcm(result, i);
      forall k: nat | 1 <= k <= i
        ensures Divides(k, next)
      {
        if k < i {
          DividesTrans(k, result, next);
        }
      }
      forall m: nat | MultipleOfAllUpTo(i, m)
        ensures Divides(next, m)
      {
        LcmIsLeast(result, i, m);
      }
      result := next;
      i := i + 1;
    }
    forall m: nat | m > 0 && MultipleOfAllUpTo(n, m)
      ensures result <= m
    {
      DividesLe(result, m);
    }
    if n <= 1 {
      DividesLe(result, 1);
    }
  }

  /** Every common multiple of 1..10 is a multiple of 2520, and 2520 is one:
      the result of smallestMultiple(10) can only be 2520. */
  lemma SmallestMultipleOfTen(m: nat)
    requires m > 0 && MultipleOfAllUpTo(10, m)
    requires forall m': nat :: MultipleOfAllUpTo(10, m') ==> Divides(m, m')
    ensures m == 2520
  {
    assert MultipleOfAllUpTo(10, 2520);
    LcmIsLeast(8, 9, m);
    assert Lcm(8, 9) == 72;
    LcmIsLeast(72, 5, m);
    assert Lcm(72, 5) == 360;
    LcmIsLeast(360, 7, m);
    assert Lcm(360, 7) == 2520;
    DividesLe(m, 2520);
    DividesLe(2520, m);
  }

  /** The same for 1..20: the result of smallestMultiple(20) can only be
      232792560 = 16 * 9 * 5 * 7 * 11 * 13 * 17 * 19. */
  lemma SmallestMultipleOfTwenty(m: nat)
    requires m > 0 && MultipleOfAllUpTo(20, m)
    requires forall m': nat :: MultipleOfAllUpTo(20, m') ==> Divides(m, m')
    ensures m == 232792560
  {
    forall k: nat | 1 <= k <= 20
      ensures Divides(k, 232792560)
    {
      assert k in {1, 2, 3, 4, 5, 6, 7, 8, 9, 10, 11, 12, 13, 14, 15, 16, 17, 18, 19, 20};
    }
    LcmIsLeast(16, 9, m);
    assert Lcm(16, 9) == 144;
    LcmIsLeast(144, 5, m);
    assert Lcm(144, 5) == 720;
    LcmIsLeast(720, 7, m);
    assert Lcm(720, 7) == 5040;
    LcmIsLeast(5040, 11, m);
    assert Lcm(5040, 11) == 55440;
    LcmIsLeast(55440, 13, m);
    assert Lcm(55440, 13) == 720720;
    LcmIsLeast(720720, 17, m);
    assert Lcm(720720, 17) == 12252240;
    LcmIsLeast(12252240, 19, m);
    assert Lcm(12252240, 19) == 232792560;
    DividesLe(m, 232792560);
    DividesLe(232792560, m);
  }
}
