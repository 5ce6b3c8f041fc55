/** Divisibility, congruence, integer square root and the reference definitions of n!, Fibonacci and binomials. */
module Arith {

  function Abs(x: int): nat { if x < 0 then -x else x }

  /** `d` divides `n`. */
  ghost predicate Divides(d: int, n: int) {
    exists k :: n == d * k
  }

  /** `a` and `b` leave the same remainder modulo `m`. */
  ghost predicate Congruent(a: int, b: int, m: int) {
    Divides(m, a - b)
  }

  lemma MulAtLeast(d: int, x: int)
    requires d > 0 && x >= 1
    ensures d * x >= d
  {
    assert d * x == d * (x - 1) + d;
    assert d * (x - 1) >= 0;
  }

  /** A non-zero multiple of `d` is at least `|d|` in absolute value. */
  lemma MulAbsAtLeast(d: int, t: int)
    requires d != 0 && t != 0
    ensures Abs(d * t) >= Abs(d)
  {
    if d > 0 && t > 0 {
      MulAtLeast(d, t);
    } else if d > 0 {
      MulAtLeast(d, -t);
      assert d * t == -(d * (-t));
    } else if t > 0 {
      MulAtLeast(-d, t);
      assert d * t == -((-d) * t);
    } else {
      MulAtLeast(-d, -t);
      assert d * t == (-d) * (-t);
    }
  }

  lemma ExactMultipleHasNoRemainder(d: int, k: int)
    requires d != 0
    ensures (d * k) % d == 0 && (d * k) / d == k
  {
    var q, r := (d * k) / d, (d * k) % d;
    assert d * k == d * q + r;
    assert d * (k - q) == r;
    if k - q != 0 {
      MulAbsAtLeast(d, k - q);
      assert false;
    }
  }

  /** For a non-zero divisor the remainder test is divisibility. */
  lemma ModZeroIffDivides(n: int, d: int)
    requires d != 0
    ensures n % d == 0 <==> Divides(d, n)
  {
    if n % d == 0 {
      assert n == d * (n / d);
    }
    if Divides(d, n) {
      var k :| n == d * k;
      ExactMultipleHasNoRemainder(d, k);
    }
  }

  lemma DividesZero(d: int)
    ensures Divides(d, 0)
  {
    assert 0 == d * 0;
  }

  lemma DividesSelf(d: int)
    ensures Divides(d, d) && Divides(1, d) && Divides(-1, d)
  {
    assert d == d * 1;
    assert d == 1 * d;
    assert d == -1 * (-d);
  }

  lemma DividesMultiple(d: int, n: int, x: int)
    requires Divides(d, n)
    ensures Divides(d, n * x)
  {
    var k :| n == d * k;
    assert n * x == d * (k * x);
  }

  lemma DividesTransitive(a: int, b: int, c: int)
    requires Divides(a, b) && Divides(b, c)
    ensures Divides(a, c)
  {
    var k :| b == a * k;
    var j :| c == b * j;
    assert c == a * (k * j);
  }

  lemma DividesLinear(d: int, a: int, b: int, x: int, y: int)
    requires Divides(d, a) && Divides(d, b)
    ensures Divides(d, a * x + b * y)
  {
    var k :| a == d * k;
    var j :| b == d * j;
    assert a * x + b * y == d * (k * x + j * y);
  }

  lemma DividesNeg(d: int, n: int)
    requires Divides(d, n)
    ensures Divides(d, -n) && Divides(-d, n) && Divides(d, Abs(n))
  {
    var k :| n == d * k;
    assert -n == d * (-k);
    assert n == (-d) * (-k);
  }

  /** A non-zero multiple is at least as large as the divisor. */
  lemma DivisorBound(d: int, n: int)
    requires Divides(d, n) && n != 0
    ensures Abs(d) <= Abs(n)
  {
    var k :| n == d * k;
    MulAbsAtLeast(d, k);
  }

  /** Two numbers dividing each other agree up to sign. */
  lemma MutualDivisors(a: int, b: int)
    requires Divides(a, b) && Divides(b, a)
    ensures Abs(a) == Abs(b)
  {
    if a == 0 {
      var j :| b == a * j;
    } else if b == 0 {
      var k :| a == b * k;
    } else {
      DivisorBound(a, b);
      DivisorBound(b, a);
    }
  }

  lemma CongruentRefl(a: int, m: int)
    ensures Congruent(a, a, m)
  {
    DividesZero(m);
  }

  lemma CongruentSym(a: int, b: int, m: int)
    requires Congruent(a, b, m)
    ensures Congruent(b, a, m)
  {
    DividesNeg(m, a - b);
    assert b - a == -(a - b);
  }

  lemma CongruentTrans(a: int, b: int, c: int, m: int)
    requires Congruent(a, b, m) && Congruent(b, c, m)
    ensures Congruent(a, c, m)
  {
    DividesLinear(m, a - b, b - c, 1, 1);
    assert (a - b) * 1 + (b - c) * 1 == a - c;
  }

  lemma CongruentAdd(a: int, b: int, c: int, d: int, m: int)
    requires Congruent(a, b, m) && Congruent(c, d, m)
    ensures Congruent(a + c, b + d, m)
  {
    DividesLinear(m, a - b, c - d, 1, 1);
    assert (a - b) * 1 + (c - d) * 1 == (a + c) - (b + d);
  }

  lemma CongruentMul(a: int, b: int, c: int, d: int, m: int)
    requires Congruent(a, b, m) && Congruent(c, d, m)
    ensures Congruent(a * c, b * d, m)
  {
    DividesLinear(m, a - b, c - d, c, b);
    assert (a - b) * c + (c - d) * b == a * c - b * d;
  }

  /** Python's `x % m` is congruent to `x`, for either sign of the modulus. */
  lemma RemainderCongruent(x: int, m: int)
    requires m != 0
    ensures Congruent(x % m, x, m)
  {
    assert x % m - x == m * (-(x / m));
  }

  /** Two values in `[0, m)` that are congruent modulo `m` are equal. */
  lemma CongruentInRange(a: int, b: int, m: int)
    requires m > 0 && 0 <= a < m && 0 <= b < m && Congruent(a, b, m)
    ensures a == b
  {
    if a != b {
      DivisorBound(m, a - b);
    }
  }

  /** For a positive modulus, congruent numbers leave the same remainder. */
  lemma CongruentSameRemainder(a: int, b: int, m: int)
    requires m > 0 && Congruent(a, b, m)
    ensures a % m == b % m
  {
    RemainderCongruent(a, m);
    RemainderCongruent(b, m);
    CongruentTrans(a % m, a, b, m);
    CongruentSym(b % m, b, m);
    CongruentTrans(a % m, b, b % m, m);
    CongruentInRange(a % m, b % m, m);
  }

  /** `int(a / b)` in Python on integers: true division, then truncation toward zero. */
  function TruncDiv(a: int, b: int): int
    requires b != 0
  {
    if (a >= 0) == (b > 0) then Abs(a) / Abs(b) else -(Abs(a) / Abs(b))
  }

  /** Dividing an exact multiple gives the factor back, whatever the signs. */
  lemma TruncDivExact(x: int, d: int)
    requires d != 0
    ensures TruncDiv(x * d, d) == x
  {
    assert Abs(x * d) == Abs(x) * Abs(d) by {
      if x < 0 && d < 0 { assert x * d == (-x) * (-d); }
      else if x < 0 { assert -(x * d) == (-x) * d; }
      else if d < 0 { assert -(x * d) == x * (-d); }
    }
    ExactMultipleHasNoRemainder(Abs(d), Abs(x));
    assert Abs(x) * Abs(d) == Abs(d) * Abs(x);
  }

  /** A power of a non-zero integer is non-zero. */
  lemma {:induction false} PowNonZero(b: int, e: nat)
    requires b != 0
    ensures Pow(b, e) != 0
  {
    if e > 0 {
      PowNonZero(b, e - 1);
    }
  }

  /** Reducing a factor before multiplying does not change the remainder. */
  lemma MulMod(a: int, b: int, m: int)
    requires m > 0
    ensures (a % m * b) % m == (a * b) % m
  {
    RemainderCongruent(a, m);
    CongruentRefl(b, m);
    CongruentMul(a % m, a, b, b, m);
    CongruentSameRemainder(a % m * b, a * b, m);
  }

  /** Reducing the terms before adding does not change the remainder. */
  lemma AddMod(a: int, b: int, m: int)
    requires m > 0
    ensures (a % m + b % m) % m == (a + b) % m
  {
    RemainderCongruent(a, m);
    RemainderCongruent(b, m);
    CongruentAdd(a % m, a, b % m, b, m);
    CongruentSameRemainder(a % m + b % m, a + b, m);
  }

  /** The integer square root: `s * s <= n < (s + 1) * (s + 1)`. */
  function ISqrt(n: nat): (s: nat)
    ensures s * s <= n < (s + 1) * (s + 1)
  {
    if n == 0 then 0
    else
      var s := ISqrt(n - 1);
      if (s + 1) * (s + 1) <= n then s + 1
      else s
  }

  lemma MulSigns(d: int, q: int)
    requires d > 0
    ensures q <= 0 ==> d * q <= 0
  {
    if q < 0 {
      MulAtLeast(d, -q);
      assert d * q == -(d * (-q));
    }
  }

  lemma MulBothAtLeast(x: int, y: int, b: int)
    requires b >= 0
    ensures x >= b && y >= b ==> x * y >= b * b
  {
    if x >= b && y >= b {
      assert x * y == (x - b) * y + b * (y - b) + b * b;
      assert (x - b) * y >= 0;
      assert b * (y - b) >= 0;
    }
  }

  /**
   * A divisor above the square root has a cofactor at or below it: the reason
   * every `range(…, isqrt(n) + 1)` trial-division loop may stop at the root.
   */
  lemma CofactorBelowRoot(n: nat, d: int, s: nat)
    requires n >= 1 && s * s <= n < (s + 1) * (s + 1)
    requires d > s && n % d == 0
    ensures 1 <= n / d <= s && n % (n / d) == 0 && n / (n / d) == d
  {
    var q := n / d;
    assert n == d * q;
    MulSigns(d, q);
    MulBothAtLeast(d, q, s + 1);
    ExactMultipleHasNoRemainder(q, d);
    assert q * d == n;
  }

  function Factorial(n: nat): (f: nat)
    ensures f >= 1
  {
    if n == 0 then 1 else n * Factorial(n - 1)
  }

  /** `b ** e` for a non-negative exponent. */
  function Pow(b: int, e: nat): int {
    if e == 0 then 1 else b * Pow(b, e - 1)
  }

  function Fib(n: nat): nat {
    if n <= 1 then n else Fib(n - 1) + Fib(n - 2)
  }

  /** Pascal's rule. */
  function Binomial(n: nat, k: nat): nat {
    if k == 0 then 1
    else if n == 0 then 0
    else Binomial(n - 1, k - 1) + Binomial(n - 1, k)
  }

  lemma {:induction false} BinomialAboveN(n: nat, k: nat)
    requires k > n
    ensures Binomial(n, k) == 0
  {
    if n > 0 {
      BinomialAboveN(n - 1, k - 1);
      BinomialAboveN(n - 1, k);
    }
  }

  /** The absorption identity `(k + 1) C(n, k + 1) = (n - k) C(n, k)`. */
  lemma {:induction false} BinomialStep(n: nat, k: nat)
    ensures (k + 1) * Binomial(n, k + 1) == (n - k) * Binomial(n, k)
  {
    if k >= n {
      BinomialAboveN(n, k + 1);
      if k > n {
        BinomialAboveN(n, k);
      }
    } else if k == 0 {
      BinomialOne(n);
    } else {
      BinomialStep(n - 1, k);
      BinomialStep(n - 1, k - 1);
      AbsorptionAlgebra(n, k, Binomial(n - 1, k), Binomial(n - 1, k + 1), Binomial(n - 1, k - 1));
    }
  }

  lemma AbsorptionAlgebra(n: int, k: int, a: int, b: int, c: int)
    requires (k + 1) * b == (n - 1 - k) * a && k * a == (n - k) * c
    ensures (k + 1) * (a + b) == (n - k) * (c + a)
  {
    assert (k + 1) * (a + b) == (k + 1) * a + (k + 1) * b;
    assert (n - k) * (c + a) == (n - k) * c + (n - k) * a;
  }

  lemma {:induction false} BinomialOne(n: nat)
    ensures Binomial(n, 1) == n
  {
    if n > 0 {
      BinomialOne(n - 1);
    }
  }
}
