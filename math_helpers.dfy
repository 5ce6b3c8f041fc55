/**
 * The integer library the solvers share: Euclid's gcd and the lcm,
 * trial-division primality and factorisation, the extended-Euclid modular
 * inverse, the Chinese remainder construction, Fibonacci numbers, factorials
 * and binomials modulo m, the mean modulo m, digit conversions and divisor
 * sets. Python's `%` and `//` are `PyMod` and `PyDiv` throughout.
 */
module MathHelpers {
  import opened Common
  import opened Arith

  // ---------------------------------------------------------------- gcd, lcm

  /** Euclid's recursion with Python's remainder: the value `gcd(a, b)` returns. */
  function Gcd(a: int, b: int): nat
    decreases Abs(b)
  {
    if b == 0 then Abs(a) else Gcd(b, PyMod(a, b))
  }

  /** `gcd(a, b)`: the Euclidean loop, proved to compute `Gcd`. */
  method EuclidGcd(a0: int, b0: int) returns (g: nat)
    ensures g == Gcd(a0, b0)
  {
    var a, b := a0, b0;
    while b != 0
      invariant Gcd(a, b) == Gcd(a0, b0)
      decreases Abs(b)
    {
      a, b := b, PyMod(a, b);
    }
    g := Abs(a);
  }

  /** `Gcd(a, b)` divides both arguments, and `Gcd(a, 0) == |a|`. */
  lemma {:induction false} GcdDividesBoth(a: int, b: int)
    ensures Divides(Gcd(a, b), a) && Divides(Gcd(a, b), b)
    ensures b == 0 ==> Gcd(a, b) == Abs(a)
    decreases Abs(b)
  {
    if b == 0 {
      DividesZero(Abs(a));
      DividesSelf(a);
      DividesNeg(a, a);
      DividesAbs(a);
    } else {
      var r := PyMod(a, b);
      GcdDividesBoth(b, r);
      assert Gcd(a, b) == Gcd(b, r);
      DividesEuclidStep(Gcd(b, r), a, b);
    }
  }

  lemma DividesAbs(a: int)
    ensures Divides(Abs(a), a)
  {
    if a < 0 {
      assert a == Abs(a) * -1;
    } else {
      assert a == Abs(a) * 1;
    }
  }

  /** A common divisor of `b` and `a % b` divides `a`. */
  lemma DividesEuclidStep(g: int, a: int, b: int)
    requires b != 0 && Divides(g, b) && Divides(g, PyMod(a, b))
    ensures Divides(g, a)
  {
    var q, r := PyDiv(a, b), PyMod(a, b);
    assert a == q * b + r;
    var k :| b == g * k;
    var j :| r == g * j;
    assert q * b == g * (q * k);
    assert a == g * (q * k + j);
  }

  /** Every common divisor of `a` and `b` divides `Gcd(a, b)`. */
  lemma {:induction false} GcdGreatest(a: int, b: int, d: int)
    requires Divides(d, a) && Divides(d, b)
    ensures Divides(d, Gcd(a, b))
    decreases Abs(b)
  {
    if b == 0 {
      DividesNeg(d, a);
    } else {
      var r := PyMod(a, b);
      DividesLinear(d, a, b, 1, -PyDiv(a, b));
      assert a * 1 + b * -PyDiv(a, b) == r;
      GcdGreatest(b, r, d);
    }
  }

  /** `gcd` is zero only for `gcd(0, 0)`. */
  lemma GcdZero(a: int, b: int)
    ensures Gcd(a, b) == 0 <==> a == 0 && b == 0
  {
    GcdDividesBoth(a, b);
    if Gcd(a, b) == 0 {
      var k :| a == 0 * k;
      var j :| b == 0 * j;
    }
    if a == 0 && b == 0 {
      assert Gcd(a, b) == Gcd(0, 0);
    }
  }

  /**
   * `lcm(a, b) = abs(a * b) // gcd(a, b)`; `None` stands for the
   * `ZeroDivisionError` of `lcm(0, 0)`.
   */
  function Lcm(a: int, b: int): (r: Option<nat>)
    ensures r.None? <==> a == 0 && b == 0
    ensures r.Some? ==> r.value * Gcd(a, b) == Abs(a * b)
    ensures r.Some? ==> Divides(a, r.value) && Divides(b, r.value)
  {
    GcdZero(a, b);
    var g := Gcd(a, b);
    if g == 0 then None
    else
      LcmExact(a, b);
      Some(Abs(a * b) / g)
  }

  lemma LcmExact(a: int, b: int)
    requires Gcd(a, b) != 0
    ensures Abs(a * b) % Gcd(a, b) == 0
    ensures (Abs(a * b) / Gcd(a, b)) * Gcd(a, b) == Abs(a * b)
    ensures Divides(a, Abs(a * b) / Gcd(a, b)) && Divides(b, Abs(a * b) / Gcd(a, b))
  {
    var g := Gcd(a, b);
    GcdDividesBoth(a, b);
    var ka :| a == g * ka;
    var kb :| b == g * kb;
    var x := ka * b;
    LcmAlgebra(a, b, g, ka, kb);
    AbsOfMultiple(g, x);
    ExactMultipleHasNoRemainder(g, Abs(x));
    MultipleAbs(a, kb);
    MultipleAbs(b, ka);
    var ab := Abs(a * b);
    assert ab == g * Abs(x);
    assert ab / g == Abs(x);
    assert Abs(x) * g == g * Abs(x);
    assert (ab / g) * g == ab;
  }

  lemma LcmAlgebra(a: int, b: int, g: int, ka: int, kb: int)
    requires a == g * ka && b == g * kb
    ensures a * b == g * (ka * b) && ka * b == a * kb && ka * b == b * ka
  {
    calc {
      a * b;
      (g * ka) * b;
      g * (ka * b);
    }
    calc {
      ka * b;
      ka * (g * kb);
      (g * ka) * kb;
      a * kb;
    }
  }

  lemma AbsOfMultiple(g: nat, x: int)
    ensures Abs(g * x) == g * Abs(x)
  {
    if x < 0 {
      assert g * x == -(g * (-x));
      assert g * (-x) >= 0;
    }
  }

  /** `|a * k|` is a multiple of `a`. */
  lemma MultipleAbs(a: int, k: int)
    ensures Divides(a, Abs(a * k))
  {
    if a * k < 0 {
      assert Abs(a * k) == a * (-k);
    } else {
      assert Abs(a * k) == a * k;
    }
  }

  // ----------------------------------------------------------- primes

  /** The meaning of primality: at least 2 and no divisor strictly between 1 and n. */
  predicate IsPrimeNumber(n: int) {
    n >= 2 && forall d :: 2 <= d < n ==> n % d != 0
  }

  /** A divisor strictly between 1 and n leaves a cofactor in the same range. */
  lemma ProperCofactor(n: int, e: int)
    ensures 2 <= e < n && n % e == 0 ==> 2 <= n / e < n && n % (n / e) == 0 && e * (n / e) == n
  {
    if 2 <= e < n && n % e == 0 {
      var q := n / e;
      assert n == e * q;
      MulSigns(e, q);
      MulSigns(e, q - 1);
      assert e * (q - 1) == n - e;
      MulAtLeast(q, e - 1);
      assert q * e == q * (e - 1) + q;
      ExactMultipleHasNoRemainder(q, e);
    }
  }

  /**
   * If nothing in `[2, d)` divides `n` and `d * d > n`, then `n` is prime:
   * the stopping rule of both trial-division loops.
   */
  lemma NoSmallDivisorPrime(n: int, d: int)
    requires n >= 2 && d >= 2 && d * d > n
    requires forall e :: 2 <= e < d ==> n % e != 0
    ensures IsPrimeNumber(n)
  {
    forall e | 2 <= e < n
      ensures n % e != 0
    {
      ProperCofactor(n, e);
      MulBothAtLeast(e, n / e, d);
    }
  }

  /** A number with no divisor in `[2, d)` is prime when `d` divides it. */
  lemma SmallestDivisorPrime(n: int, d: int)
    requires n >= 2 && d >= 2 && n % d == 0
    requires forall e :: 2 <= e < d ==> n % e != 0
    ensures IsPrimeNumber(d)
  {
    forall e | 2 <= e < d
      ensures d % e != 0
    {
      ModZeroIffDivides(d, e);
      ModZeroIffDivides(n, d);
      ModZeroIffDivides(n, e);
      DividesTransitiveIf(e, d, n);
    }
  }

  lemma DividesTransitiveIf(a: int, b: int, c: int)
    ensures Divides(a, b) && Divides(b, c) ==> Divides(a, c)
  {
    if Divides(a, b) && Divides(b, c) {
      DividesTransitive(a, b, c);
    }
  }

  lemma EvenDivisorOfOdd(n: int, d: int)
    requires n % 2 == 1 && d > 0 && d % 2 == 0
    ensures n % d != 0
  {
    ModZeroIffDivides(n, d);
    ModZeroIffDivides(d, 2);
    ModZeroIffDivides(n, 2);
    DividesTransitiveIf(2, d, n);
  }

  /** `is_prime(n)`: trial division by 2 and the odd numbers up to the square root. */
  method IsPrime(n: int) returns (p: bool)
    ensures p <==> IsPrimeNumber(n)
  {
    if n < 2 {
      return false;
    }
    if n == 2 {
      return true;
    }
    if n % 2 == 0 {
      assert n % 2 == 0 && 2 < n;
      return false;
    }
    var s := ISqrt(n);
    var i := 3;
    while i <= s
      invariant 3 <= i && i % 2 == 1
      invariant NoDivisorBelow(n, i)
    {
      if n % i == 0 {
        DivisorBelowRoot(n, s, i);
        return false;
      }
      OddTrialStep(n, i);
      i := i + 2;
    }
    NoDivisorUpToRoot(n, s, i);
    return true;
  }

  /** An odd number with no divisor below `i`, nor at `i`, has none below `i + 2`. */
  lemma OddTrialStep(n: int, i: int)
    requires n % 2 == 1 && i >= 3 && i % 2 == 1 && NoDivisorBelow(n, i) && n % i != 0
    ensures NoDivisorBelow(n, i + 2)
  {
    EvenDivisorOfOdd(n, i + 1);
  }

  /** A divisor found at or below the square root shows that `n` is composite. */
  lemma DivisorBelowRoot(n: int, s: nat, i: int)
    requires n >= 2 && s * s <= n && 2 <= i <= s && n % i == 0
    ensures !IsPrimeNumber(n)
  {
    MulAtLeast(s, s);
    if i == n {
      MulAtLeast(n, n);
      MulBothAtLeast(s, s, n);
    }
    assert 2 <= i < n;
  }

  /** Trial division that passed the square root without finding a divisor proves `n` prime. */
  lemma NoDivisorUpToRoot(n: int, s: nat, i: int)
    requires n >= 2 && n < (s + 1) * (s + 1) && i > s && NoDivisorBelow(n, i)
    ensures IsPrimeNumber(n)
  {
    MulBothAtLeast(i, i, s + 1);
    NoSmallDivisorPrime(n, i);
  }

  predicate AllPrime(xs: seq<int>) {
    forall k :: 0 <= k < |xs| ==> IsPrimeNumber(xs[k])
  }

  predicate NonDecreasing(xs: seq<int>) {
    forall k, l :: 0 <= k < l < |xs| ==> xs[k] <= xs[l]
  }

  /**
   * `prime_factors(n)`: divide out 2, 3, 4, … while `d * d <= n`, then append
   * what is left if it exceeds 1.
   */
  method PrimeFactors(n0: int) returns (factors: seq<int>)
    ensures n0 <= 1 ==> factors == []
    ensures n0 >= 1 ==> Product(factors) == n0
    ensures AllPrime(factors) && NonDecreasing(factors)
  {
    factors := [];
    var n := n0;
    var d := 2;
    if n <= 1 {
      return;
    }
    while n > 1
      invariant n >= 1 && d >= 2 && (n > 1 ==> d <= n)
      invariant Product(factors) * n == n0
      invariant NoDivisorBelow(n, d)
      invariant AllPrime(factors) && NonDecreasing(factors) && Below(factors, d)
      decreases n - d + 1
    {
      while n % d == 0
        invariant n >= 1 && Product(factors) * n == n0
        invariant NoDivisorBelow(n, d)
        invariant AllPrime(factors) && NonDecreasing(factors) && Below(factors, d + 1)
        decreases n
      {
        DivideOut(n, d);
        AppendFactor(factors, d, n);
        ProductRegroup(Product(factors), d, n / d);
        factors := factors + [d];
        n := n / d;
      }
      d := d + 1;
      if d * d > n {
        if n > 1 {
          NoSmallDivisorPrime(n, d);
          assert n % n == 0;
          AppendFactor(factors, n, n);
          factors := factors + [n];
        }
        break;
      }
      MulAtLeast(d, d);
    }
  }

  lemma ProductRegroup(p: int, d: int, q: int)
    ensures (p * d) * q == p * (d * q)
  {
  }

  predicate NoDivisorBelow(n: int, d: int) {
    forall e :: 2 <= e < d ==> n % e != 0
  }

  predicate Below(xs: seq<int>, d: int) {
    forall k :: 0 <= k < |xs| ==> xs[k] < d
  }

  /** Appending a prime `p` of `n` that no earlier factor exceeds keeps the factor list well formed. */
  lemma AppendFactor(factors: seq<int>, p: int, n: int)
    requires AllPrime(factors) && NonDecreasing(factors)
    requires n >= 2 && p >= 2 && n % p == 0 && NoDivisorBelow(n, p)
    requires Below(factors, p + 1)
    ensures AllPrime(factors + [p]) && NonDecreasing(factors + [p]) && Below(factors + [p], p + 1)
    ensures Product(factors + [p]) == Product(factors) * p
  {
    SmallestDivisorPrime(n, p);
    assert (factors + [p])[..|factors|] == factors;
  }

  /** Dividing out a factor keeps the running product and the small-divisor freedom. */
  lemma DivideOut(n: int, d: int)
    requires n >= 1 && d >= 2 && n % d == 0
    requires NoDivisorBelow(n, d)
    ensures n >= 2 && 1 <= n / d < n && (n / d) * d == n
    ensures NoDivisorBelow(n / d, d)
  {
    var q := n / d;
    assert n == d * q;
    MulSigns(d, q);
    assert q >= 1;
    MulAtLeast(q, d - 1);
    assert q * d == q + q * (d - 1);
    forall e | 2 <= e < d
      ensures q % e != 0
    {
      ModZeroIffDivides(q, e);
      ModZeroIffDivides(n, e);
      DividesMultipleIf(e, q, d);
    }
  }

  lemma DividesMultipleIf(d: int, n: int, x: int)
    ensures Divides(d, n) ==> Divides(d, n * x)
  {
    if Divides(d, n) {
      DividesMultiple(d, n, x);
    }
  }

  // ----------------------------------------------------- Python's remainder

  /** Python's `x % m` is congruent to `x` modulo `m`. */
  lemma PyModCongruent(x: int, m: int)
    requires m != 0
    ensures Congruent(PyMod(x, m), x, m)
  {
    assert PyMod(x, m) - x == m * -PyDiv(x, m);
  }

  /** A value congruent to `x` and in Python's remainder range for `m` is `x % m`. */
  lemma PyModUnique(x: int, v: int, m: int)
    requires m != 0 && Congruent(v, x, m)
    requires m > 0 ==> 0 <= v < m
    requires m < 0 ==> m < v <= 0
    ensures v == PyMod(x, m)
  {
    var w := PyMod(x, m);
    PyModCongruent(x, m);
    CongruentSym(w, x, m);
    CongruentTrans(v, x, w, m);
    if v != w {
      DivisorBound(m, v - w);
    }
  }

  // -------------------------------------------------- inverse and CRT

  /**
   * The recursive `extended_gcd(a, b)` nested in `mod_inverse`: it returns
   * `(g, x, y)` with Bezout's identity `a * x + b * y == g`.
   */
  function ExtendedGcd(a: int, b: int): (r: (int, int, int))
    ensures a * r.1 + b * r.2 == r.0
    decreases Abs(a)
  {
    if a == 0 then (b, 0, 1)
    else
      var t := ExtendedGcd(PyMod(b, a), a);
      BezoutStep(a, b, PyDiv(b, a), PyMod(b, a), t.1, t.2, t.0);
      (t.0, t.2 - PyDiv(b, a) * t.1, t.1)
  }

  lemma BezoutStep(a: int, b: int, q: int, r: int, x1: int, y1: int, g: int)
    requires b == q * a + r && r * x1 + a * y1 == g
    ensures a * (y1 - q * x1) + b * x1 == g
  {
    assert a * (y1 - q * x1) == a * y1 - (q * a) * x1;
    assert b * x1 == (q * a) * x1 + r * x1;
  }

  /** The `g` of `extended_gcd` divides both arguments. */
  lemma {:induction false} ExtendedGcdDivides(a: int, b: int)
    ensures Divides(ExtendedGcd(a, b).0, a) && Divides(ExtendedGcd(a, b).0, b)
    decreases Abs(a)
  {
    if a == 0 {
      DividesZero(b);
      DividesSelf(b);
    } else {
      var r := PyMod(b, a);
      ExtendedGcdDivides(r, a);
      DividesEuclidStep(ExtendedGcd(a, b).0, b, a);
    }
  }

  /** On non-negative arguments `extended_gcd` yields a non-negative `g`. */
  lemma {:induction false} ExtendedGcdNonNegative(a: int, b: int)
    requires a >= 0 && b >= 0
    ensures ExtendedGcd(a, b).0 >= 0
    decreases a
  {
    if a != 0 {
      ExtendedGcdNonNegative(PyMod(b, a), a);
    }
  }

  /** Up to sign, the `g` of `extended_gcd` is the gcd of its arguments. */
  lemma ExtendedGcdIsGcd(a: int, b: int)
    ensures Abs(ExtendedGcd(a, b).0) == Gcd(a, b)
    ensures a >= 0 && b >= 0 ==> ExtendedGcd(a, b).0 == Gcd(a, b)
  {
    var t := ExtendedGcd(a, b);
    ExtendedGcdDivides(a, b);
    GcdGreatest(a, b, t.0);
    GcdDividesBoth(a, b);
    DividesLinear(Gcd(a, b), a, b, t.1, t.2);
    MutualDivisors(t.0, Gcd(a, b));
    if a >= 0 && b >= 0 {
      ExtendedGcdNonNegative(a, b);
    }
  }

  /**
   * `mod_inverse(a, m)`: `None` unless `extended_gcd(a, m)` reports `g == 1`,
   * otherwise `(x % m + m) % m`.
   */
  function ModInverse(a: int, m: int): (r: Option<int>)
    requires m != 0
    ensures r.Some? ==> Congruent(a * r.value, 1, m)
    ensures r.Some? && m > 0 ==> 0 <= r.value < m
    ensures a >= 0 && m > 0 ==> (r.None? <==> Gcd(a, m) != 1)
  {
    var t := ExtendedGcd(a, m);
    ExtendedGcdIsGcd(a, m);
    if t.0 != 1 then None
    else
      var v := PyMod(PyMod(t.1, m) + m, m);
      InverseFromBezout(a, m, t.1, t.2, v);
      Some(v)
  }

  lemma InverseFromBezout(a: int, m: int, x: int, y: int, v: int)
    requires m != 0 && a * x + m * y == 1 && v == PyMod(PyMod(x, m) + m, m)
    ensures Congruent(a * v, 1, m)
  {
    PyModCongruent(x, m);
    PyModCongruent(PyMod(x, m) + m, m);
    DividesSelf(m);
    assert Congruent(PyMod(x, m) + m, PyMod(x, m), m) by {
      assert (PyMod(x, m) + m) - PyMod(x, m) == m;
    }
    CongruentTrans(v, PyMod(x, m) + m, PyMod(x, m), m);
    CongruentTrans(v, PyMod(x, m), x, m);
    CongruentRefl(a, m);
    CongruentMul(a, a, v, x, m);
    assert a * x - 1 == m * -y;
    assert Congruent(a * x, 1, m);
    CongruentTrans(a * v, a * x, 1, m);
  }

  /**
   * `extended_gcd` carries the sign of its arguments through Python's
   * remainder, so for a negative `a` it can report `g == -1` where the gcd is 1:
   * `mod_inverse(-3, 7)` answers `None` although `-3 * 2 = -6` is 1 modulo 7.
   */
  lemma ModInverseMissesNegativeArgument()
    ensures ModInverse(-3, 7).None?
    ensures Gcd(-3, 7) == 1 && Congruent(-3 * 2, 1, 7)
  {
    assert ExtendedGcd(0, -1).0 == -1;
    assert ExtendedGcd(-1, -2).0 == -1;
    assert ExtendedGcd(-2, -3).0 == -1;
    assert ExtendedGcd(-3, 7).0 == -1;
    assert Gcd(-3, 7) == Gcd(7, PyMod(-3, 7));
    assert -3 * 2 - 1 == 7 * -1;
  }

  /**
   * The inverse as `mod_inverse` evidently means it: accept `g == -1` as well
   * and scale the Bezout coefficient by `g`, so that an inverse is reported
   * exactly when one exists.
   */
  function ModInverseFixed(a: int, m: int): (r: Option<int>)
    requires m != 0
    ensures r.Some? ==> Congruent(a * r.value, 1, m) && InPyRange(r.value, m)
    ensures r.None? <==> Gcd(a, m) != 1
  {
    var t := ExtendedGcd(a, m);
    ExtendedGcdIsGcd(a, m);
    if t.0 != 1 && t.0 != -1 then None
    else
      var v := PyMod(t.0 * t.1, m);
      SignedBezout(a, m, t.0, t.1, t.2);
      PyModCongruent(t.0 * t.1, m);
      CongruentRefl(a, m);
      CongruentMul(a, a, v, t.0 * t.1, m);
      CongruentTrans(a * v, a * (t.0 * t.1), 1, m);
      Some(v)
  }

  lemma SignedBezout(a: int, m: int, g: int, x: int, y: int)
    requires (g == 1 || g == -1) && a * x + m * y == g
    ensures Congruent(a * (g * x), 1, m)
  {
    assert a * (g * x) + m * (g * y) == g * g == 1;
    assert a * (g * x) - 1 == m * -(g * y);
  }

  /** For the arguments the solvers pass (`a >= 0`, `m > 0`) the two agree. */
  lemma ModInverseFixedAgrees(a: int, m: int)
    requires a >= 0 && m > 0
    ensures ModInverseFixed(a, m) == ModInverse(a, m)
  {
    var t := ExtendedGcd(a, m);
    ExtendedGcdNonNegative(a, m);
    if t.0 == 1 {
      var v := PyMod(PyMod(t.1, m) + m, m);
      PyModCongruent(t.1, m);
      PyModCongruent(PyMod(t.1, m) + m, m);
      DividesSelf(m);
      assert Congruent(PyMod(t.1, m) + m, PyMod(t.1, m), m) by {
        assert (PyMod(t.1, m) + m) - PyMod(t.1, m) == m;
      }
      CongruentTrans(v, PyMod(t.1, m) + m, PyMod(t.1, m), m);
      CongruentTrans(v, PyMod(t.1, m), t.1, m);
      assert t.0 * t.1 == t.1;
      PyModUnique(t.1, v, m);
    }
  }

  /** The moduli with position `i` removed. */
  function Without(s: seq<int>, i: int): seq<int>
    requires 0 <= i < |s|
  {
    s[..i] + s[i + 1..]
  }

  lemma {:induction false} ProductAppend(a: seq<int>, b: seq<int>)
    ensures Product(a + b) == Product(a) * Product(b)
    decreases |b|
  {
    if b == [] {
      assert a + b == a;
    } else {
      var c := a + b;
      assert c[..|c| - 1] == a + b[..|b| - 1];
      ProductAppend(a, b[..|b| - 1]);
      assert Product(c) == Product(a + b[..|b| - 1]) * b[|b| - 1];
      assert Product(b) == Product(b[..|b| - 1]) * b[|b| - 1];
    }
  }

  /** `product == moduli[i] * product-of-the-others`. */
  lemma ProductSplit(s: seq<int>, i: int)
    requires 0 <= i < |s|
    ensures Product(s) == s[i] * Product(Without(s, i))
  {
    var a, x, b := s[..i], s[i], s[i + 1..];
    assert s == (a + [x]) + b;
    ProductAppend(a + [x], b);
    assert (a + [x])[..|a|] == a;
    assert Product(a + [x]) == Product(a) * x;
    ProductAppend(a, b);
    ProductRegroup3(Product(a), x, Product(b));
  }

  lemma ProductRegroup3(p: int, x: int, q: int)
    ensures (p * x) * q == x * (p * q)
  {
  }

  /** Every element divides the product. */
  lemma {:induction false} ProductMember(s: seq<int>, k: int)
    requires 0 <= k < |s|
    ensures Divides(s[k], Product(s))
  {
    ProductSplit(s, k);
    assert Product(s) == s[k] * Product(Without(s, k));
  }

  /** `product // moduli[i]` is the product of the other moduli, so every other modulus divides it. */
  lemma QuotientOfProduct(s: seq<int>, i: int, j: int)
    requires 0 <= i < |s| && 0 <= j < |s| && i != j && s[i] != 0
    ensures PyDiv(Product(s), s[i]) == Product(Without(s, i))
    ensures Divides(s[j], PyDiv(Product(s), s[i]))
  {
    ProductSplit(s, i);
    ExactMultipleHasNoRemainder(s[i], Product(Without(s, i)));
    var w := Without(s, i);
    var k := if j < i then j else j - 1;
    assert w[k] == s[j];
    ProductMember(w, k);
  }

  lemma ProductNonZero(s: seq<int>, k: int)
    requires 0 <= k < |s| && Product(s) != 0
    ensures s[k] != 0
  {
    ProductSplit(s, k);
  }

  /** The failures of `chinese_remainder`, each of which raises in the source. */
  predicate CrtFails(remainders: seq<int>, moduli: seq<int>) {
    moduli == [] || Product(moduli) == 0 ||
    exists j :: 0 <= j < |remainders| && j < |moduli| && moduli[j] != 0 &&
      ModInverse(PyDiv(Product(moduli), moduli[j]), moduli[j]).None?
  }

  /**
   * `chinese_remainder(remainders, moduli)` over `zip(remainders, moduli)`.
   * `None` stands for every exception the source raises: the `reduce` of no
   * moduli, a zero modulus (a zero product), and a missing inverse.
   */
  method ChineseRemainder(remainders: seq<int>, moduli: seq<int>) returns (r: Option<int>)
    ensures r.None? <==> CrtFails(remainders, moduli)
    ensures r.Some? ==> forall j :: 0 <= j < |remainders| && j < |moduli| ==>
      Congruent(r.value, remainders[j], moduli[j])
    ensures r.Some? && Product(moduli) > 0 ==> 0 <= r.value < Product(moduli)
  {
    if moduli == [] {
      return None;
    }
    var product := Product(moduli);
    if product == 0 {
      return None;
    }
    var n := Min(|remainders|, |moduli|);
    var total := 0;
    var i := 0;
    forall j | 0 <= j < |moduli|
      ensures moduli[j] != 0 && Congruent(0, 0, moduli[j])
    {
      ProductNonZero(moduli, j);
      CongruentRefl(0, moduli[j]);
    }
    while i < n
      invariant 0 <= i <= n
      invariant forall j :: 0 <= j < |moduli| ==> moduli[j] != 0
      invariant forall j :: 0 <= j < i ==> ModInverse(PyDiv(product, moduli[j]), moduli[j]).Some?
      invariant forall j :: 0 <= j < n ==> Congruent(total, if j < i then remainders[j] else 0, moduli[j])
    {
      var modulus := moduli[i];
      var p := PyDiv(product, modulus);
      var inv := ModInverse(p, modulus);
      if inv.None? {
        return None;
      }
      var term := remainders[i] * p * inv.value;
      forall j | 0 <= j < n
        ensures Congruent(total + term, if j < i + 1 then remainders[j] else 0, moduli[j])
      {
        CrtTerm(remainders, moduli, product, i, j, inv.value);
        CongruentAdd(total, if j < i then remainders[j] else 0, term, if j == i then remainders[i] else 0, moduli[j]);
      }
      total := total + term;
      i := i + 1;
    }
    r := Some(PyMod(total, product));
    forall j | 0 <= j < n
      ensures Congruent(r.value, remainders[j], moduli[j])
    {
      PyModCongruent(total, product);
      ProductMember(moduli, j);
      DividesTransitive(moduli[j], product, PyMod(total, product) - total);
      CongruentTrans(r.value, total, remainders[j], moduli[j]);
    }
  }

  /** The `i`-th summand is `remainders[i]` modulo `moduli[i]` and 0 modulo every other modulus. */
  lemma CrtTerm(remainders: seq<int>, moduli: seq<int>, product: int, i: int, j: int, inv: int)
    requires 0 <= i < |remainders| && i < |moduli| && 0 <= j < |remainders| && j < |moduli|
    requires product == Product(moduli) && product != 0 && moduli[i] != 0
    requires Congruent(PyDiv(product, moduli[i]) * inv, 1, moduli[i])
    ensures Congruent(remainders[i] * PyDiv(product, moduli[i]) * inv, if j == i then remainders[i] else 0, moduli[j])
  {
    var p := PyDiv(product, moduli[i]);
    if j == i {
      CrtTermOwn(remainders[i], p, inv, moduli[i]);
    } else {
      QuotientOfProduct(moduli, i, j);
      CrtTermOther(remainders[i], p, inv, moduli[j]);
    }
  }

  lemma CrtTermOwn(r: int, p: int, inv: int, m: int)
    requires Congruent(p * inv, 1, m)
    ensures Congruent(r * p * inv, r, m)
  {
    CongruentRefl(r, m);
    CongruentMul(r, r, p * inv, 1, m);
    assert r * p * inv == r * (p * inv) && r * 1 == r;
  }

  lemma CrtTermOther(r: int, p: int, inv: int, m: int)
    requires Divides(m, p)
    ensures Congruent(r * p * inv, 0, m)
  {
    DividesMultiple(m, p, r * inv);
    assert p * (r * inv) == r * p * inv == r * p * inv - 0;
  }

  // ---------------------------------------- Fibonacci, factorial, binomial

  /** Python's remainder range for a non-zero modulus. */
  predicate InPyRange(v: int, m: int) {
    (m > 0 ==> 0 <= v < m) && (m < 0 ==> m < v <= 0)
  }

  /**
   * `fibonacci_mod(n, m)`: `n` itself for `n <= 1` (not reduced), otherwise
   * the Fibonacci recurrence reduced modulo `m` at every step, which is
   * `Fib(n) % m`.
   */
  method FibonacciMod(n: int, m: int) returns (r: int)
    requires m != 0
    ensures n <= 1 ==> r == n
    ensures n >= 2 ==> r == PyMod(Fib(n), m)
  {
    if n <= 1 {
      return n;
    }
    var a, b := 0, 1;
    var i := 2;
    CongruentRefl(0, m);
    CongruentRefl(1, m);
    while i <= n
      invariant 2 <= i <= n + 1
      invariant Congruent(a, Fib(i - 2), m) && Congruent(b, Fib(i - 1), m)
      invariant i >= 3 ==> InPyRange(b, m)
    {
      FibModStep(a, b, i, m);
      a, b := b, PyMod(a + b, m);
      i := i + 1;
    }
    PyModUnique(Fib(n), b, m);
    r := b;
  }

  /** One step of the reduced recurrence stays congruent to the next Fibonacci number. */
  lemma FibModStep(a: int, b: int, i: nat, m: int)
    requires m != 0 && i >= 2
    requires Congruent(a, Fib(i - 2), m) && Congruent(b, Fib(i - 1), m)
    ensures Congruent(PyMod(a + b, m), Fib(i), m) && InPyRange(PyMod(a + b, m), m)
  {
    PyModCongruent(a + b, m);
    CongruentAdd(a, Fib(i - 2), b, Fib(i - 1), m);
    CongruentTrans(PyMod(a + b, m), a + b, Fib(i), m);
  }

  lemma {:induction false} FactorialDivisible(n: nat, k: nat)
    requires 1 <= k <= n
    ensures Divides(k, Factorial(n))
  {
    if k == n {
      assert Factorial(n) == n * Factorial(n - 1);
    } else {
      FactorialDivisible(n - 1, k);
      DividesMultiple(k, Factorial(n - 1), n);
      assert Factorial(n) == Factorial(n - 1) * n;
    }
  }

  /**
   * `factorial_mod(n, m)`: the product `1 * 2 * … * min(n, m)` reduced modulo
   * `m` after every factor. It is `n! % m` for `n, m >= 1` (hence 0 once
   * `n >= m`), and 1 when the loop does not run.
   */
  method FactorialMod(n: int, m: int) returns (r: int)
    ensures n <= 0 || m <= 0 ==> r == 1
    ensures n >= 1 && m >= 1 ==> r == Factorial(n) % m
    ensures n >= m >= 1 ==> r == 0
  {
    r := 1;
    var stop := Min(n + 1, m + 1);
    var i := 1;
    while i < stop
      invariant 1 <= i && (stop >= 1 ==> i <= stop) && (stop <= 1 ==> i == 1)
      invariant i == 1 ==> r == 1
      invariant i >= 2 ==> m >= 1 && r == Factorial(i - 1) % m
    {
      CongruentRefl(i, m);
      RemainderCongruent(r, m);
      if i >= 2 {
        RemainderCongruent(Factorial(i - 1), m);
        CongruentSym(Factorial(i - 1) % m, Factorial(i - 1), m);
        CongruentMul(r, Factorial(i - 1), i, i, m);
        CongruentSameRemainder(r * i, Factorial(i - 1) * i, m);
      }
      assert Factorial(i) == i * Factorial(i - 1);
      r := (r * i) % m;
      i := i + 1;
    }
    if n >= m >= 1 {
      FactorialDivisible(m, m);
      FactorialDivisible(n, m);
      ModZeroIffDivides(Factorial(m), m);
      ModZeroIffDivides(Factorial(n), m);
    }
  }

  lemma {:induction false} BinomialSymmetric(n: nat, k: nat)
    requires k <= n
    ensures Binomial(n, k) == Binomial(n, n - k)
  {
    if k == 0 {
      BinomialAll(n);
    } else if k == n {
      BinomialAll(n);
    } else {
      BinomialSymmetric(n - 1, k - 1);
      BinomialSymmetric(n - 1, k);
      assert Binomial(n, n - k) == Binomial(n - 1, n - k - 1) + Binomial(n - 1, n - k);
    }
  }

  lemma {:induction false} BinomialAll(n: nat)
    ensures Binomial(n, n) == 1
  {
    if n > 0 {
      BinomialAll(n - 1);
      BinomialAboveN(n - 1, n);
    }
  }

  /** One round of the binomial loop: multiply by `n - i`, then by the inverse of `i + 1`. */
  lemma BinomialRound(n: nat, i: nat, m: int, acc: int, inv: int)
    requires m != 0 && i < n && Congruent(acc, Binomial(n, i), m)
    requires Congruent((i + 1) * inv, 1, m)
    ensures Congruent(PyMod(PyMod(acc * (n - i), m) * inv, m), Binomial(n, i + 1), m)
  {
    var c, c1 := Binomial(n, i), Binomial(n, i + 1);
    BinomialStep(n, i);
    assert (i + 1) * c1 == (n - i) * c;
    var x := PyMod(acc * (n - i), m);
    CongruentRefl(n - i, m);
    CongruentMul(acc, c, n - i, n - i, m);
    PyModCongruent(acc * (n - i), m);
    CongruentTrans(x, acc * (n - i), c * (n - i), m);
    CongruentRefl(inv, m);
    CongruentMul(x, c * (n - i), inv, inv, m);
    StepRegroup(c, c1, n - i, i + 1, inv);
    CongruentRefl(c1, m);
    CongruentMul(c1, c1, (i + 1) * inv, 1, m);
    CongruentTrans(x * inv, c * (n - i) * inv, c1 * 1, m);
    PyModCongruent(x * inv, m);
    CongruentTrans(PyMod(x * inv, m), x * inv, c1, m);
  }

  lemma StepRegroup(c: int, c1: int, a: int, b: int, inv: int)
    requires b * c1 == a * c
    ensures c * a * inv == c1 * (b * inv)
  {
    calc {
      c * a * inv;
      (a * c) * inv;
      (b * c1) * inv;
      c1 * (b * inv);
    }
  }

  /**
   * `binomial_mod(n, k, m)`: 0 when `k > n`, 1 when `k` is 0 or `n`; otherwise
   * `k := min(k, n - k)` rounds, each multiplying by `n - i` and by the inverse
   * of `i + 1`, and 0 as soon as an inverse is missing.
   */
  method BinomialMod(n: int, k0: int, m: int) returns (r: int)
    requires m != 0
    ensures k0 > n ==> r == 0
    ensures k0 <= n && (k0 == 0 || k0 == n) ==> r == 1
    ensures k0 < n && k0 != 0 && Min(k0, n - k0) <= 0 ==> r == 1
    ensures k0 < n && k0 != 0 && (exists j :: 1 <= j <= Min(k0, n - k0) && ModInverse(j, m).None?) ==> r == 0
    ensures 0 < k0 < n && (forall j :: 1 <= j <= Min(k0, n - k0) ==> ModInverse(j, m).Some?) ==>
      r == PyMod(Binomial(n, k0), m)
  {
    if k0 > n {
      return 0;
    }
    if k0 == 0 || k0 == n {
      return 1;
    }
    var k := Min(k0, n - k0);
    r := 1;
    var i := 0;
    CongruentRefl(1, m);
    while i < k
      invariant 0 <= i && (k >= 0 ==> i <= k) && (k <= 0 ==> i == 0)
      invariant i == 0 ==> r == 1
      invariant forall j :: 1 <= j <= i ==> ModInverse(j, m).Some?
      invariant 0 < k0 < n ==> Congruent(r, Binomial(n, i), m)
      invariant i >= 1 ==> InPyRange(r, m)
    {
      var x := PyMod(r * (n - i), m);
      var inv := ModInverse(i + 1, m);
      if inv.None? {
        return 0;
      }
      if 0 < k0 < n {
        BinomialRound(n, i, m, r, inv.value);
      }
      r := PyMod(x * inv.value, m);
      i := i + 1;
    }
    if 0 < k0 < n {
      PyModUnique(Binomial(n, k), r, m);
      if k != k0 {
        BinomialSymmetric(n, k0);
      }
    }
  }

  // ------------------------------------------------------------- mean

  /** `sum(x % m for x in numbers)`. */
  function SumOfRemainders(numbers: seq<int>, m: int): (t: int)
    requires m != 0
    ensures Congruent(t, Sum(numbers), m)
  {
    if numbers == [] then
      CongruentRefl(0, m);
      0
    else
      var init := numbers[..|numbers| - 1];
      var last := numbers[|numbers| - 1];
      var t := SumOfRemainders(init, m);
      PyModCongruent(last, m);
      CongruentAdd(t, Sum(init), PyMod(last, m), last, m);
      t + PyMod(last, m)
  }

  /**
   * `mean_mod(numbers, m)`: the sum reduced modulo `m` times the inverse of
   * the count; 0 for no numbers or when the count has no inverse.
   */
  function MeanMod(numbers: seq<int>, m: int): (r: int)
    requires m != 0
    ensures numbers == [] ==> r == 0
    ensures InPyRange(r, m)
    ensures numbers != [] && m > 0 && ModInverse(|numbers|, m).None? ==> r == 0
    ensures numbers != [] && ModInverse(|numbers|, m).Some? ==> Congruent(r * |numbers|, Sum(numbers), m)
  {
    if numbers == [] then 0
    else
      var total := PyMod(SumOfRemainders(numbers, m), m);
      var inv := ModInverse(|numbers|, m);
      if inv.None? then 0
      else
        var r := PyMod(total * inv.value, m);
        MeanCongruent(numbers, m, total, inv.value, r);
        r
  }

  lemma MeanCongruent(numbers: seq<int>, m: int, total: int, inv: int, r: int)
    requires m != 0 && numbers != []
    requires total == PyMod(SumOfRemainders(numbers, m), m)
    requires Congruent(|numbers| * inv, 1, m)
    requires r == PyMod(total * inv, m)
    ensures Congruent(r * |numbers|, Sum(numbers), m)
  {
    var len := |numbers|;
    var s := SumOfRemainders(numbers, m);
    PyModCongruent(s, m);
    CongruentTrans(total, s, Sum(numbers), m);
    PyModCongruent(total * inv, m);
    CongruentRefl(len, m);
    CongruentMul(r, total * inv, len, len, m);
    MulRegroup(total, inv, len);
    CongruentRefl(total, m);
    CongruentMul(total, total, len * inv, 1, m);
    CongruentTrans(r * len, total * (len * inv), total, m);
    CongruentTrans(r * len, total, Sum(numbers), m);
  }

  lemma MulRegroup(a: int, b: int, c: int)
    ensures a * b * c == a * (c * b)
  {
  }

  // ------------------------------------------------------------- digits

  /** `digits_to_number(digits)`: the left fold `x * 10 + y` from 0. */
  function DigitsToNumber(digits: seq<int>): int {
    if digits == [] then 0
    else DigitsToNumber(digits[..|digits| - 1]) * 10 + digits[|digits| - 1]
  }

  predicate IsDigitList(ds: seq<int>) {
    forall k :: 0 <= k < |ds| ==> 0 <= ds[k] <= 9
  }

  /** The decimal digits of a natural number, most significant first. */
  function NatDigits(n: nat): (ds: seq<int>)
    ensures |ds| >= 1 && IsDigitList(ds)
    ensures ds[0] != 0 || n == 0
  {
    if n < 10 then [n] else NatDigits(n / 10) + [n % 10]
  }

  /** `number_to_digits(n)`: the characters of `str(abs(n))` as integers. */
  function NumberToDigits(n: int): (ds: seq<int>)
    ensures |ds| >= 1 && IsDigitList(ds)
    ensures ds[0] == 0 ==> n == 0
  {
    NatDigits(Abs(n))
  }

  /** Reading back the digits of `n` gives `|n|`. */
  lemma {:induction false} DigitsRoundTrip(n: int)
    ensures DigitsToNumber(NumberToDigits(n)) == Abs(n)
  {
    NatDigitsRoundTrip(Abs(n));
  }

  lemma {:induction false} NatDigitsRoundTrip(n: nat)
    ensures DigitsToNumber(NatDigits(n)) == n
    decreases n
  {
    if n >= 10 {
      NatDigitsRoundTrip(n / 10);
      var ds := NatDigits(n / 10) + [n % 10];
      assert ds[..|ds| - 1] == NatDigits(n / 10);
    }
  }

  /** A digit list without a leading zero reads as a number of at least 1. */
  lemma {:induction false} LeadingDigitPositive(ds: seq<int>)
    requires |ds| >= 1 && IsDigitList(ds) && ds[0] != 0
    ensures DigitsToNumber(ds) >= 1
    decreases |ds|
  {
    if |ds| > 1 {
      LeadingDigitPositive(ds[..|ds| - 1]);
    }
  }

  /** Conversely, writing out the number a digit list denotes gives the list back. */
  lemma {:induction false} DigitsRoundTripBack(ds: seq<int>)
    requires |ds| >= 1 && IsDigitList(ds) && (ds[0] != 0 || |ds| == 1)
    ensures DigitsToNumber(ds) >= 0 && NumberToDigits(DigitsToNumber(ds)) == ds
    decreases |ds|
  {
    if |ds| == 1 {
      assert DigitsToNumber(ds) == DigitsToNumber([]) * 10 + ds[0];
    } else {
      var init, d := ds[..|ds| - 1], ds[|ds| - 1];
      DigitsRoundTripBack(init);
      LeadingDigitPositive(init);
      var v := DigitsToNumber(init);
      assert DigitsToNumber(ds) == v * 10 + d;
      assert (v * 10 + d) / 10 == v && (v * 10 + d) % 10 == d;
      assert NatDigits(v * 10 + d) == NatDigits(v) + [d];
      assert ds == init + [d];
    }
  }

  // ------------------------------------------------------------- divisors

  /** The positive divisors of `n`. */
  function PositiveDivisors(n: nat): set<int> {
    set d | 1 <= d <= n && n % d == 0
  }

  /**
   * `divisors(n)`: each `i` up to the square root of `|n|` that divides `n`,
   * together with its cofactor `n // i`.
   */
  method Divisors(n: int) returns (divs: set<int>)
    ensures n >= 1 ==> divs == PositiveDivisors(n)
    ensures n == 0 ==> divs == {}
    ensures n < 0 ==> (divs ==
      (set d | 1 <= d <= ISqrt(-n) && n % d == 0) + (set d | 1 <= d <= ISqrt(-n) && n % d == 0 :: n / d))
    ensures forall d :: d in divs ==> d != 0 && n % d == 0
  {
    divs := {};
    var s := ISqrt(Abs(n));
    assert n == 0 ==> s == 0;
    if s > 0 {
      MulAtLeast(s, s);
    }
    var i := 1;
    while i <= s
      invariant 1 <= i <= s + 1
      invariant forall d :: d in divs ==> d != 0 && n % d == 0
      invariant n == 0 ==> divs == {}
      invariant n >= 1 ==> divs == SmallDivisors(n, i) + Cofactors(n, i)
      invariant n < 0 ==> divs == RootDivisors(n, i) + RootCofactors(n, i)
    {
      if n >= 1 {
        DivisorsStep(n, i);
      }
      RootDivisorsStep(n, i);
      if n % i == 0 {
        DivisorPair(n, i);
        divs := divs + {i, n / i};
      }
      i := i + 1;
    }
    if n >= 1 {
      DivisorsBySquareRoot(n, s);
    }
    if n < 0 {
      assert s == ISqrt(-n);
      assert RootDivisors(n, s + 1) == (set d | 1 <= d <= ISqrt(-n) && n % d == 0);
      assert RootCofactors(n, s + 1) == (set d | 1 <= d <= ISqrt(-n) && n % d == 0 :: n / d);
    }
  }

  /** The divisors `d` with `1 <= d < i` of any integer `n`. */
  function RootDivisors(n: int, i: int): set<int> {
    set d | 1 <= d < i && n % d == 0
  }

  /** The cofactors `n / d` of those divisors. */
  function RootCofactors(n: int, i: int): set<int> {
    set d | 1 <= d < i && n % d == 0 :: n / d
  }

  lemma RootDivisorsStep(n: int, i: int)
    requires 1 <= i
    ensures RootDivisors(n, i + 1) + RootCofactors(n, i + 1) ==
      RootDivisors(n, i) + RootCofactors(n, i) + (if n % i == 0 then {i, n / i} else {})
  {
    assert RootDivisors(n, i + 1) == RootDivisors(n, i) + (if n % i == 0 then {i} else {});
    assert RootCofactors(n, i + 1) == RootCofactors(n, i) + (if n % i == 0 then {n / i} else {});
  }

  function SmallDivisors(n: nat, i: int): set<int> {
    set d | 1 <= d < i && d <= n && n % d == 0
  }

  function Cofactors(n: nat, i: int): set<int> {
    set d | 1 <= d < i && d <= n && n % d == 0 :: n / d
  }

  lemma DivisorsStep(n: nat, i: int)
    requires 1 <= i <= n
    ensures SmallDivisors(n, i + 1) + Cofactors(n, i + 1) ==
      SmallDivisors(n, i) + Cofactors(n, i) + (if n % i == 0 then {i, n / i} else {})
  {
    assert SmallDivisors(n, i + 1) == SmallDivisors(n, i) + (if n % i == 0 then {i} else {});
    assert Cofactors(n, i + 1) == Cofactors(n, i) + (if n % i == 0 then {n / i} else {});
  }

  /** A divisor `i` of `n` has the cofactor `n / i`, itself a divisor. */
  lemma DivisorPair(n: int, i: int)
    requires i >= 1 && n % i == 0 && n != 0
    ensures n / i != 0 && n % (n / i) == 0
    ensures n >= 1 ==> 1 <= n / i <= n
  {
    var q := n / i;
    assert n == i * q;
    ExactMultipleHasNoRemainder(q, i);
    assert q * i == n;
    if n >= 1 {
      MulSigns(i, q);
      MulAtLeast(q, i);
    }
  }

  /** Pairing each divisor up to the square root with its cofactor finds them all. */
  lemma DivisorsBySquareRoot(n: nat, s: nat)
    requires n >= 1 && s == ISqrt(n)
    ensures SmallDivisors(n, s + 1) + Cofactors(n, s + 1) == PositiveDivisors(n)
  {
    forall d | d in PositiveDivisors(n)
      ensures d in SmallDivisors(n, s + 1) + Cofactors(n, s + 1)
    {
      if d > s {
        CofactorBelowRoot(n, d, s);
        assert n / d in SmallDivisors(n, s + 1);
        assert n / (n / d) == d;
      }
    }
    forall d | d in Cofactors(n, s + 1)
      ensures d in PositiveDivisors(n)
    {
      var e :| 1 <= e < s + 1 && e <= n && n % e == 0 && d == n / e;
      DivisorPair(n, e);
    }
  }
}
