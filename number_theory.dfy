/**
 * The number-theory solver: a problem is read as a divisibility, modulo,
 * prime, gcd or lcm question over the integers in the text. The matching
 * handler computes the answer; otherwise keyword heuristics pick one.
 */
module NumberTheory {
  import opened Common
  import opened Arith
  import opened Text
  import opened Scan
  import opened MathHelpers
  import opened BaseSolver
  import opened LatexParser

  /**
   * The parsed problem. Its `operations` list and `constraints` dictionary
   * are always empty, so both are left out.
   */
  datatype NumberTheoryProblem = NumberTheoryProblem(
    problemType: string,
    numbers: seq<int>,
    targetType: string)

  /** The pattern table, in the order it is searched. */
  const NumberTheoryTypes: seq<string> := ["divisibility", "modulo", "prime", "gcd", "lcm"]

  /** `\s+` */
  const Gap: Token := Run(SpaceChars, true)

  /**
   * The patterns of the table, written in lower case because they are
   * searched without regard to case.
   */
  const NumberTheoryPatterns: seq<seq<seq<Token>>> := [
    Keywords(["divisible", "divides", "factor"]),
    [[Lit("modulo"), Gap, Run(DigitChars, true)], [Lit("mod"), Gap, Run(DigitChars, true)]],
    Keywords(["prime", "factor"]),
    [[Lit("greatest"), Gap, Lit("common"), Gap, Lit("divisor")],
     [Lit("gcd")],
     [Lit("highest"), Gap, Lit("common"), Gap, Lit("factor")]],
    [[Lit("least"), Gap, Lit("common"), Gap, Lit("multiple")], [Lit("lcm")]]]

  // ---------------------------------------------------------------------------
  // Parsing

  /** The first type in the table whose pattern occurs in the text, else "unknown". */
  function ProblemTypeOf(text: string): (t: string)
    ensures t == "unknown" <==> forall j :: 0 <= j < |NumberTheoryTypes| ==> !Found(Lower(text), NumberTheoryPatterns[j])
    ensures forall k :: 0 <= k < |NumberTheoryTypes| ==>
      (t == NumberTheoryTypes[k] <==>
        Found(Lower(text), NumberTheoryPatterns[k]) &&
        forall j :: 0 <= j < k ==> !Found(Lower(text), NumberTheoryPatterns[j]))
  {
    var i := FirstFound(Lower(text), NumberTheoryPatterns);
    assert |NumberTheoryPatterns| == |NumberTheoryTypes|;
    DistinctTypes();
    if i < |NumberTheoryTypes| then NumberTheoryTypes[i] else "unknown"
  }

  lemma DistinctTypes()
    ensures forall k, j :: 0 <= k < j < |NumberTheoryTypes| ==> NumberTheoryTypes[k] != NumberTheoryTypes[j]
    ensures "unknown" !in NumberTheoryTypes
  {
  }

  /**
   * Any text mentioning "factor" is a divisibility problem: the `factor`
   * alternatives of the prime and gcd patterns are never what decides.
   */
  lemma FactorMeansDivisibility(text: string)
    requires Contains(Lower(text), "factor")
    ensures ProblemTypeOf(text) == "divisibility"
  {
    var kws := ["divisible", "divides", "factor"];
    assert kws[2] == "factor";
    FoundKeywords(Lower(text), kws);
  }

  /** What is asked for: "remainder" over "factor" over "multiple". */
  function TargetTypeOf(text: string): (t: string)
    ensures t == "remainder" <==> Contains(Lower(text), "remainder")
    ensures t == "factor" <==> !Contains(Lower(text), "remainder") && Contains(Lower(text), "factor")
    ensures t == "multiple" <==>
      !Contains(Lower(text), "remainder") && !Contains(Lower(text), "factor") && Contains(Lower(text), "multiple")
    ensures t == "unknown" <==> !ContainsAny(Lower(text), ["remainder", "factor", "multiple"])
  {
    var lower := Lower(text);
    var kws := ["remainder", "factor", "multiple"];
    assert ContainsAny(lower, kws) <==> Contains(lower, kws[0]) || Contains(lower, kws[1]) || Contains(lower, kws[2]);
    if Contains(lower, "remainder") then "remainder"
    else if Contains(lower, "factor") then "factor"
    else if Contains(lower, "multiple") then "multiple"
    else "unknown"
  }

  /** `_parse_number_theory_problem`. */
  function ParseNumberTheoryProblem(problem: MathProblem): (np: NumberTheoryProblem)
    ensures np.numbers == IntegerLiterals(problem.numbers)
    ensures np.problemType == ProblemTypeOf(problem.cleanedText)
    ensures np.targetType == TargetTypeOf(problem.cleanedText)
  {
    NumberTheoryProblem(ProblemTypeOf(problem.cleanedText), IntegerLiterals(problem.numbers),
      TargetTypeOf(problem.cleanedText))
  }

  // ---------------------------------------------------------------------------
  // The library functions the handlers call

  /**
   * sympy's `lcm` of two integers: the non-negative least common multiple,
   * and 0 when either argument is 0.
   */
  function SympyLcm(a: int, b: int): (l: nat)
    ensures Divides(a, l) && Divides(b, l)
    ensures a == 0 || b == 0 ==> l == 0
    ensures a != 0 && b != 0 ==> l > 0 && l * Gcd(a, b) == Abs(a * b)
  {
    if a == 0 || b == 0 then
      DividesZero(a);
      DividesZero(b);
      0
    else
      var l := Lcm(a, b).value;
      MulAbsAtLeast(a, b);
      l
  }

  /** Every common multiple of `a` and `b` is a multiple of their lcm. */
  lemma LcmLeast(a: int, b: int, m: int)
    requires Divides(a, m) && Divides(b, m)
    ensures Divides(SympyLcm(a, b), m)
  {
    var l := SympyLcm(a, b);
    if a == 0 || b == 0 {
      var k :| m == 0 * k;
      DividesZero(0);
    } else {
      var t := ExtendedGcd(a, b);
      ExtendedGcdIsGcd(a, b);
      var k1 :| m == a * k1;
      var k2 :| m == b * k2;
      BezoutMultiple(a, b, m, t.1, t.2, k1, k2);
      SignedCancel(m, t.0, Gcd(a, b), a * b, l, k2 * t.1 + k1 * t.2);
    }
  }

  /** A common multiple of `a` and `b` times a combination of them is a multiple of `a * b`. */
  lemma BezoutMultiple(a: int, b: int, m: int, x: int, y: int, k1: int, k2: int)
    requires m == a * k1 && m == b * k2
    ensures m * (a * x + b * y) == (a * b) * (k2 * x + k1 * y)
  {
    assert m * (a * x) == (b * k2) * (a * x) == (a * b) * (k2 * x);
    assert m * (b * y) == (a * k1) * (b * y) == (a * b) * (k1 * y);
  }

  /** From `m * g == ±(l * g) * c` with `g != 0`, `l` divides `m`. */
  lemma SignedCancel(m: int, t: int, g: int, ab: int, l: int, c: int)
    requires g != 0 && (t == g || t == -g) && (ab == l * g || ab == -(l * g)) && m * t == ab * c
    ensures Divides(l, m)
  {
    var q := if (t == g) == (ab == l * g) then c else -c;
    assert m * g == (l * q) * g;
    assert (m - l * q) * g == 0;
    assert m == l * q;
  }

  /** `reduce(math.gcd, xs)`. */
  function GcdFold(xs: seq<int>): int
    requires xs != []
  {
    if |xs| == 1 then xs[0] else Gcd(GcdFold(xs[..|xs| - 1]), xs[|xs| - 1])
  }

  /** The gcd of a list divides every number of the list. */
  lemma {:induction false} GcdFoldDividesAll(xs: seq<int>)
    requires xs != []
    ensures forall k :: 0 <= k < |xs| ==> Divides(GcdFold(xs), xs[k])
  {
    if |xs| == 1 {
      DividesSelf(xs[0]);
    } else {
      var init := xs[..|xs| - 1];
      GcdFoldDividesAll(init);
      GcdDividesBoth(GcdFold(init), xs[|xs| - 1]);
      forall k | 0 <= k < |xs| ensures Divides(GcdFold(xs), xs[k]) {
        if k < |xs| - 1 {
          assert xs[k] == init[k];
          DividesTransitive(GcdFold(xs), GcdFold(init), xs[k]);
        }
      }
    }
  }

  /** Every common divisor of a list divides its gcd. */
  lemma {:induction false} GcdFoldGreatest(xs: seq<int>, d: int)
    requires xs != [] && forall k :: 0 <= k < |xs| ==> Divides(d, xs[k])
    ensures Divides(d, GcdFold(xs))
  {
    if |xs| == 1 {
      assert Divides(d, xs[0]);
    } else {
      var init := xs[..|xs| - 1];
      assert forall k :: 0 <= k < |init| ==> init[k] == xs[k];
      GcdFoldGreatest(init, d);
      assert Divides(d, xs[|xs| - 1]);
      GcdGreatest(GcdFold(init), xs[|xs| - 1], d);
    }
  }

  /** `reduce(lcm, xs)`. */
  function LcmFold(xs: seq<int>): int
    requires xs != []
  {
    if |xs| == 1 then xs[0] else SympyLcm(LcmFold(xs[..|xs| - 1]), xs[|xs| - 1])
  }

  /** The lcm of a list is a multiple of every number of the list. */
  lemma {:induction false} LcmFoldMultipleOfAll(xs: seq<int>)
    requires xs != []
    ensures forall k :: 0 <= k < |xs| ==> Divides(xs[k], LcmFold(xs))
  {
    if |xs| == 1 {
      DividesSelf(xs[0]);
    } else {
      var init := xs[..|xs| - 1];
      LcmFoldMultipleOfAll(init);
      forall k | 0 <= k < |xs| ensures Divides(xs[k], LcmFold(xs)) {
        if k < |xs| - 1 {
          assert xs[k] == init[k];
          DividesTransitive(xs[k], LcmFold(init), LcmFold(xs));
        }
      }
    }
  }

  /** Every common multiple of a list is a multiple of its lcm. */
  lemma {:induction false} LcmFoldLeast(xs: seq<int>, m: int)
    requires xs != [] && forall k :: 0 <= k < |xs| ==> Divides(xs[k], m)
    ensures Divides(LcmFold(xs), m)
  {
    if |xs| == 1 {
      assert Divides(xs[0], m);
    } else {
      var init := xs[..|xs| - 1];
      assert forall k :: 0 <= k < |init| ==> init[k] == xs[k];
      LcmFoldLeast(init, m);
      assert Divides(xs[|xs| - 1], m);
      LcmLeast(LcmFold(init), xs[|xs| - 1], m);
    }
  }

  /**
   * sympy's `primefactors(n)` as a set: the primes dividing `n`; none for
   * 0 and for ±1.
   */
  function PrimeFactorSet(n: int): (ps: set<int>)
    ensures forall p :: p in ps <==> n != 0 && IsPrimeNumber(p) && n % p == 0
  {
    forall p | n != 0 && IsPrimeNumber(p) && n % p == 0 ensures p <= Abs(n) {
      ModZeroIffDivides(n, p);
      DivisorBound(p, n);
    }
    set p | 2 <= p <= Abs(n) && IsPrimeNumber(p) && n % p == 0
  }

  /** A prime has itself as its only prime factor. */
  lemma PrimeHasOnePrimeFactor(p: int)
    requires IsPrimeNumber(p)
    ensures PrimeFactorSet(p) == {p}
  {
    assert p % p == 0;
    forall q | q in PrimeFactorSet(p) ensures q == p {
      ModZeroIffDivides(p, q);
      DivisorBound(q, p);
    }
  }

  // ---------------------------------------------------------------------------
  // The sum of divisors

  /** The sum of the divisors of `n` among `1..k`. */
  function DivisorSumUpTo(n: nat, k: nat): nat {
    if k == 0 then 0 else DivisorSumUpTo(n, k - 1) + (if n % k == 0 then k else 0)
  }

  /** σ(n), the sum of the positive divisors of `n`; 0 for `n == 0`. */
  function DivisorSum(n: nat): nat {
    DivisorSumUpTo(n, n)
  }

  /** A prime's divisors are 1 and itself: σ(p) = p + 1. */
  lemma PrimeDivisorSum(p: int)
    requires IsPrimeNumber(p)
    ensures DivisorSum(p) == p + 1
  {
    PrimeDivisorSumUpTo(p, p - 1);
  }

  lemma {:induction false} PrimeDivisorSumUpTo(p: nat, k: nat)
    requires IsPrimeNumber(p) && 1 <= k < p
    ensures DivisorSumUpTo(p, k) == 1
  {
    if k > 1 {
      PrimeDivisorSumUpTo(p, k - 1);
    }
  }

  /** The sum of the members of `s` among `1..k`. */
  ghost function RangeSum(s: set<int>, k: nat): int {
    if k == 0 then 0 else RangeSum(s, k - 1) + (if k in s then k else 0)
  }

  lemma {:induction false} RangeSumEmpty(k: nat)
    ensures RangeSum({}, k) == 0
  {
    if k > 0 {
      RangeSumEmpty(k - 1);
    }
  }

  /** Adding a new member within the range adds it to the sum. */
  lemma {:induction false} RangeSumAdd(s: set<int>, x: int, k: nat)
    requires x !in s && x >= 1
    ensures RangeSum(s + {x}, k) == RangeSum(s, k) + (if x <= k then x else 0)
  {
    if k > 0 {
      RangeSumAdd(s, x, k - 1);
    }
  }

  /** Adding one or two new members within the range adds them to the sum. */
  lemma NewPairSum(seen: set<int>, i: int, q: int, n: nat)
    requires i !in seen && q !in seen && 1 <= i <= n && 1 <= q <= n
    ensures RangeSum(seen + {i, q}, n) == RangeSum(seen, n) + (if i == q then i else i + q)
  {
    RangeSumAdd(seen, i, n);
    if i != q {
      RangeSumAdd(seen + {i}, q, n);
      assert seen + {i, q} == seen + {i} + {q};
    } else {
      assert seen + {i, q} == seen + {i};
    }
  }

  /** `DivisorSumUpTo` adds up the divisors of `n` in its range. */
  lemma {:induction false} DivisorSumUpToIsRangeSum(n: nat, k: nat)
    requires k <= n
    ensures DivisorSumUpTo(n, k) == RangeSum(PositiveDivisors(n), k)
  {
    if k > 0 {
      DivisorSumUpToIsRangeSum(n, k - 1);
    }
  }

  /**
   * What the loop of `_sum_of_divisors` adds for `d` in `1..k`: each divisor
   * `d`, and its cofactor `n / d` when the two differ.
   */
  function PairSumUpTo(n: nat, k: nat): nat {
    if k == 0 then 0
    else PairSumUpTo(n, k - 1) + (if n % k != 0 then 0 else if k == n / k then k else k + n / k)
  }

  /** The divisors the loop has met for `d` in `1..k`, with their cofactors. */
  ghost function PairsUpTo(n: nat, k: nat): set<int> {
    if k == 0 then {} else PairsUpTo(n, k - 1) + (if n % k == 0 then {k, n / k} else {})
  }

  /** Those are the divisors below `k + 1` together with their cofactors. */
  lemma {:induction false} PairsUpToShape(n: nat, k: nat)
    requires 1 <= n && k <= n
    ensures PairsUpTo(n, k) == SmallDivisors(n, k + 1) + Cofactors(n, k + 1)
  {
    if k == 0 {
      assert SmallDivisors(n, 1) + Cofactors(n, 1) == {};
    } else {
      PairsUpToShape(n, k - 1);
      DivisorsStep(n, k);
    }
  }

  /** A pair met up to the root is never met twice, so the loop's total is their sum. */
  lemma {:induction false} PairSumIsRangeSum(n: nat, k: nat)
    requires 1 <= n && k * k <= n
    ensures PairSumUpTo(n, k) == RangeSum(PairsUpTo(n, k), n)
  {
    if k == 0 {
      RangeSumEmpty(n);
    } else {
      SquareBelow(k, n);
      PairSumIsRangeSum(n, k - 1);
      if n % k == 0 {
        var q := n / k;
        ExactQuotient(n, k);
        FreshPair(n, k, q);
        PairStep(n, k, q);
      } else {
        assert PairsUpTo(n, k) == PairsUpTo(n, k - 1);
      }
    }
  }

  lemma SquareBelow(k: int, n: int)
    requires k >= 1 && k * k <= n
    ensures (k - 1) * (k - 1) <= n
  {
    assert (k - 1) * (k - 1) == k * k - 2 * k + 1;
  }

  lemma ExactQuotient(n: int, k: int)
    requires k != 0 && n % k == 0
    ensures n == k * (n / k)
  {
  }

  /** Meeting a new pair adds its members to the sum. */
  lemma PairStep(n: nat, k: nat, q: int)
    requires 1 <= n && 1 <= k && q == n / k && n % k == 0
    requires PairSumUpTo(n, k - 1) == RangeSum(PairsUpTo(n, k - 1), n)
    requires k !in PairsUpTo(n, k - 1) && q !in PairsUpTo(n, k - 1) && 1 <= k <= n && 1 <= q <= n
    ensures PairSumUpTo(n, k) == RangeSum(PairsUpTo(n, k), n)
  {
    var P := PairsUpTo(n, k - 1);
    assert PairsUpTo(n, k) == P + {k, q};
    NewPairSum(P, k, q, n);
  }

  /** The pair met at `k` is new to the pairs met before. */
  lemma FreshPair(n: nat, k: int, q: int)
    requires n >= 1 && 1 <= k && k * k <= n && n == k * q
    ensures k !in PairsUpTo(n, k - 1) && q !in PairsUpTo(n, k - 1)
    ensures 1 <= k <= q <= n
  {
    MulAtLeast(k, k);
    PairsUpToShape(n, k - 1);
    FreshDivisors(n, k, q);
  }

  /** Pairing each divisor up to the root with its cofactor sums all the divisors once. */
  lemma RootPairing(n: nat, s: nat)
    requires n >= 1 && s == ISqrt(n)
    ensures PairSumUpTo(n, s) == DivisorSum(n)
  {
    PairSumIsRangeSum(n, s);
    PairsUpToShape(n, s);
    DivisorsBySquareRoot(n, s);
    DivisorSumUpToIsRangeSum(n, n);
  }

  /**
   * A divisor `i` with `i * i <= n` and its cofactor `q` are new to the
   * pairs met before `i`: neither is below `i` nor the cofactor of a
   * smaller divisor.
   */
  lemma FreshDivisors(n: nat, i: int, q: int)
    requires n >= 1 && 1 <= i && i * i <= n && n == i * q
    ensures i !in SmallDivisors(n, i) + Cofactors(n, i)
    ensures q !in SmallDivisors(n, i) + Cofactors(n, i)
    ensures 1 <= i <= q <= n
  {
    CofactorAtLeast(i, q, n);
    forall d | 1 <= d < i && d <= n && n % d == 0 ensures n / d != i && n / d != q {
      CofactorDistinct(n, i, q, d, n / d);
    }
  }

  /** A divisor `i` at most the root has a cofactor `q` at least `i`. */
  lemma CofactorAtLeast(i: int, q: int, n: nat)
    requires n == i * q && 1 <= i && i * i <= n
    ensures i <= q <= n
  {
    MulSigns(i, q);
    if q < i {
      assert i * i - i * q == i * (i - q);
      MulAtLeast(i, i - q);
    }
    MulAtLeast(q, i);
  }

  /** Below `i`, no divisor `d` has `i` or `i`'s cofactor `q` as its cofactor `e`. */
  lemma CofactorDistinct(n: nat, i: int, q: int, d: int, e: int)
    requires 1 <= d < i && i * i <= n && q >= 1 && n == i * q && e == n / d && n % d == 0
    ensures e != i && e != q
  {
    assert n == d * e;
    if e == i {
      assert i * i - d * i == (i - d) * i;
      MulAtLeast(i, i - d);
    }
    if e == q {
      assert (i - d) * q == 0;
      MulAtLeast(q, i - d);
    }
  }

  /** `_sum_of_divisors(n)`; `None` for the `ValueError` of `math.sqrt` on a negative `n`. */
  method SumOfDivisors(n: int) returns (r: Option<nat>)
    ensures r.None? <==> n < 0
    ensures n >= 0 ==> r == Some(DivisorSum(n))
  {
    if n < 0 {
      return None;
    }
    var s := ISqrt(n);
    var result := 0;
    var i := 1;
    while i <= s
      invariant 1 <= i <= s + 1
      invariant result == PairSumUpTo(n, i - 1)
    {
      if n % i == 0 {
        result := result + i;
        if i != n / i {
          result := result + n / i;
        }
      }
      i := i + 1;
    }
    if n >= 1 {
      RootPairing(n, s);
    }
    return Some(result);
  }

  // ---------------------------------------------------------------------------
  // Handlers

  /**
   * `_handle_divisibility`: with two numbers or more, `gcd(n0, n1)` when it is
   * at most 999, and otherwise `lcm(n0, n1) % 1000`, which is always in range,
   * so the remainder operation after it is never tried.
   */
  function HandleDivisibility(numbers: seq<int>): (r: Option<int>)
    ensures r.Some? <==> |numbers| >= 2
    ensures r.Some? ==> 0 <= r.value < 1000
    ensures r.Some? && Gcd(numbers[0], numbers[1]) < 1000 ==>
      Divides(r.value, numbers[0]) && Divides(r.value, numbers[1]) &&
      forall d :: Divides(d, numbers[0]) && Divides(d, numbers[1]) ==> Divides(d, r.value)
    ensures r.Some? && Gcd(numbers[0], numbers[1]) >= 1000 ==> r.value == SympyLcm(numbers[0], numbers[1]) % 1000
  {
    if |numbers| >= 2 then
      var g := Gcd(numbers[0], numbers[1]);
      if g <= 999 then
        GcdDividesBoth(numbers[0], numbers[1]);
        assert forall d :: Divides(d, numbers[0]) && Divides(d, numbers[1]) ==> Divides(d, g) by {
          forall d | Divides(d, numbers[0]) && Divides(d, numbers[1]) ensures Divides(d, g) {
            GcdGreatest(numbers[0], numbers[1], d);
          }
        }
        Some(g)
      else Some(SympyLcm(numbers[0], numbers[1]) % 1000)
    else None
  }

  /**
   * `_handle_modulo`: the first number modulo the last, with Python's sign
   * convention and not reduced further; `None` on a zero modulus.
   */
  function HandleModulo(numbers: seq<int>): (r: Option<int>)
    ensures r.Some? <==> |numbers| >= 2 && numbers[|numbers| - 1] != 0
    ensures r.Some? ==> Congruent(r.value, numbers[0], numbers[|numbers| - 1])
    ensures r.Some? && numbers[|numbers| - 1] > 0 ==> 0 <= r.value < numbers[|numbers| - 1]
    ensures r.Some? && numbers[|numbers| - 1] < 0 ==> numbers[|numbers| - 1] < r.value <= 0
  {
    if |numbers| >= 2 && numbers[|numbers| - 1] != 0 then
      PyModCongruent(numbers[0], numbers[|numbers| - 1]);
      Some(PyMod(numbers[0], numbers[|numbers| - 1]))
    else None
  }

  /**
   * `_handle_prime`: the number of distinct prime factors of the largest
   * number, which is always in range, so the other two operations are never
   * tried.
   */
  function HandlePrime(numbers: seq<int>): (r: Option<int>)
    ensures r.Some? <==> numbers != []
    ensures r.Some? ==> 0 <= r.value < 1000 && r.value == |PrimeFactorSet(Max(numbers))| % 1000
  {
    if numbers == [] then None else Some(|PrimeFactorSet(Max(numbers))| % 1000)
  }

  /** `_handle_gcd`: the gcd of all the numbers, modulo 1000. */
  function HandleGcd(numbers: seq<int>): (r: Option<int>)
    ensures r.Some? <==> |numbers| >= 2
    ensures r.Some? ==> 0 <= r.value < 1000 && r.value == GcdFold(numbers) % 1000
  {
    if |numbers| >= 2 then Some(GcdFold(numbers) % 1000) else None
  }

  /** `_handle_lcm`: the lcm of all the numbers, modulo 1000. */
  function HandleLcm(numbers: seq<int>): (r: Option<int>)
    ensures r.Some? <==> |numbers| >= 2
    ensures r.Some? ==> 0 <= r.value < 1000 && r.value == LcmFold(numbers) % 1000
  {
    if |numbers| >= 2 then Some(LcmFold(numbers) % 1000) else None
  }

  /**
   * `_solve_number_theory_problem`: the handler of the problem's type. An
   * unknown type calls `_solve_general_number_theory`, which the class does
   * not define; the `AttributeError` is caught and gives `None`.
   */
  function SolveNumberTheoryProblem(np: NumberTheoryProblem): (r: Option<int>)
    ensures np.problemType !in NumberTheoryTypes ==> r.None?
    ensures np.problemType == "divisibility" ==> r == HandleDivisibility(np.numbers)
    ensures np.problemType == "modulo" ==> r == HandleModulo(np.numbers)
    ensures np.problemType == "prime" ==> r == HandlePrime(np.numbers)
    ensures np.problemType == "gcd" ==> r == HandleGcd(np.numbers)
    ensures np.problemType == "lcm" ==> r == HandleLcm(np.numbers)
  {
    match np.problemType
    case "divisibility" => HandleDivisibility(np.numbers)
    case "modulo" => HandleModulo(np.numbers)
    case "prime" => HandlePrime(np.numbers)
    case "gcd" => HandleGcd(np.numbers)
    case "lcm" => HandleLcm(np.numbers)
    case _ => None
  }

  // ---------------------------------------------------------------------------
  // Heuristics and the solver

  /**
   * `_apply_number_theory_heuristics`; `None` where it raises: a zero modulus
   * on the remainder branch, or `math.sqrt` of a negative largest number on
   * the divisor branch. The remainder branch is not reduced modulo 1000.
   */
  function Heuristics(problem: MathProblem): (r: Option<int>)
    ensures IntegerLiterals(problem.numbers) == [] ==> r == Some(42)
    ensures var lower := Lower(problem.cleanedText);
      var ns := IntegerLiterals(problem.numbers);
      ns != [] && Contains(lower, "prime") ==> r == PrimeHeuristic(Max(ns))
    ensures var lower := Lower(problem.cleanedText);
      var ns := IntegerLiterals(problem.numbers);
      |ns| >= 2 && !Contains(lower, "prime") && (Contains(lower, "modulo") || Contains(lower, "remainder")) ==>
        r == HandleModulo(ns)
    ensures var lower := Lower(problem.cleanedText);
      var ns := IntegerLiterals(problem.numbers);
      ns != [] && !Contains(lower, "prime") && !(|ns| >= 2 && (Contains(lower, "modulo") || Contains(lower, "remainder"))) &&
      (Contains(lower, "divisor") || Contains(lower, "factor")) ==>
        (r.None? <==> Max(ns) < 0) && (Max(ns) >= 0 ==> r == Some(DivisorSum(Max(ns)) % 1000))
    ensures var lower := Lower(problem.cleanedText);
      var ns := IntegerLiterals(problem.numbers);
      ns != [] && !Contains(lower, "prime") && !(|ns| >= 2 && (Contains(lower, "modulo") || Contains(lower, "remainder"))) &&
      !Contains(lower, "divisor") && !Contains(lower, "factor") ==>
        r == Some(Max(ns) % 1000)
  {
    var lower := Lower(problem.cleanedText);
    var numbers := IntegerLiterals(problem.numbers);
    if numbers == [] then Some(42)
    else if Contains(lower, "prime") then PrimeHeuristic(Max(numbers))
    else if (Contains(lower, "modulo") || Contains(lower, "remainder")) && |numbers| >= 2 then
      HandleModulo(numbers)
    else if Contains(lower, "divisor") || Contains(lower, "factor") then
      var n := Max(numbers);
      if n < 0 then None else Some(DivisorSum(n) % 1000)
    else Some(Max(numbers) % 1000)
  }

  /**
   * The prime branch of the heuristics: a prime is answered itself, modulo
   * 1000, anything else by its number of distinct prime factors.
   */
  function PrimeHeuristic(n: int): (r: Option<int>)
    ensures r.Some? && 0 <= r.value < 1000
    ensures IsPrimeNumber(n) ==> r.value == n % 1000
    ensures !IsPrimeNumber(n) ==> r.value == |PrimeFactorSet(n)| % 1000
  {
    if IsPrimeNumber(n) then Some(n % 1000) else Some(|PrimeFactorSet(n)| % 1000)
  }

  /**
   * The remainder heuristic answers outside [0, 999]: asked for the
   * remainder of 5000 by 7000 it gives 5000.
   */
  lemma HeuristicRemainderUnreduced(problem: MathProblem)
    requires Lower(problem.cleanedText) == "remainder" && IntegerLiterals(problem.numbers) == [5000, 7000]
    ensures Heuristics(problem) == Some(5000)
  {
    RemainderWords();
    assert HandleModulo([5000, 7000]) == Some(5000);
  }

  lemma RemainderWords()
    ensures Contains("remainder", "remainder") && !Contains("remainder", "prime")
  {
    assert IsPrefixAt("remainder", "remainder", 0);
    forall i | 0 <= i <= |"remainder"| - |"prime"| ensures !IsPrefixAt("remainder", "prime", i) {
      assert "remainder"[i] != "prime"[0];
    }
  }

  /**
   * The answer for a preprocessed problem: a handler's result made valid,
   * that is reduced modulo 1000, else the heuristics' value, else 42 where
   * the heuristics raise.
   */
  function Answer(problem: MathProblem): (r: int)
    ensures var result := SolveNumberTheoryProblem(ParseNumberTheoryProblem(problem));
      result.Some? ==> r == result.value % 1000
    ensures var result := SolveNumberTheoryProblem(ParseNumberTheoryProblem(problem));
      result.None? ==> r == (if Heuristics(problem).Some? then Heuristics(problem).value else 42)
  {
    Settle(SolveNumberTheoryProblem(ParseNumberTheoryProblem(problem)), Heuristics(problem))
  }

  /**
   * The tail of `solve`: a handler's value through `_ensure_valid_answer`,
   * else the heuristics' value, else the 42 of the outer `except`.
   */
  function Settle(result: Option<int>, fallback: Option<int>): (r: int)
    ensures result.Some? ==> r == result.value % 1000
    ensures result.None? ==> r == (if fallback.Some? then fallback.value else 42)
  {
    if result.Some? then
      var r := EnsureValidAnswer(PyInt(result.value));
      SameRemainder(result.value, r);
      r
    else
      match fallback
      case Some(v) => v
      case None => 42
  }

  /** A value in [0, 999] congruent to `v` is `v % 1000`. */
  lemma SameRemainder(v: int, r: int)
    requires 0 <= r < 1000 && (v - r) % 1000 == 0
    ensures r == v % 1000
  {
  }

  /** `solve`: 42 when preprocessing raises, otherwise the answer for the problem. */
  method Solve(question: Option<string>, extractNumbers: NumberExtractor) returns (answer: int)
    ensures question.None? ==> answer == 42
    ensures question.Some? && extractNumbers(CleanText(question.value)).None? ==> answer == 42
    ensures question.Some? && extractNumbers(CleanText(question.value)).Some? ==>
      answer == Answer(MathProblem(question.value, CleanText(question.value), MathExpressions(CleanText(question.value)),
        extractNumbers(CleanText(question.value)).value, IdentifyProblemType(CleanText(question.value)),
        CommandTable(CommandPairs(CleanText(question.value), false))))
  {
    if question.None? {
      return 42;
    }
    var problem := Preprocess(question.value, extractNumbers);
    if problem.None? {
      return 42;
    }
    answer := Answer(problem.value);
  }
}
