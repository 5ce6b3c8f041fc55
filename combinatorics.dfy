/**
 * The combinatorics solver: a problem is read as a permutation, combination,
 * arrangement or partition question over the two largest integers in it, and
 * answered modulo 1000.
 */
module Combinatorics {
  import opened Common
  import opened Arith
  import opened Text
  import opened MathHelpers
  import opened BaseSolver
  import opened LatexParser

  /** The parsed problem; its `constraints` dictionary is always empty and is left out. */
  datatype CombinatoricsProblem = CombinatoricsProblem(
    problemType: string,
    totalElements: int,
    selectElements: Option<int>,
    isOrdered: bool,
    allowRepetition: bool)

  /** The pattern table, in the order it is searched. */
  const ProblemTypes: seq<string> := ["permutation", "combination", "arrangement", "partition"]

  /** Each pattern is an alternation of words, searched without regard to case. */
  const TypeKeywords: seq<seq<string>> := [
    ["permutation", "arrange", "order", "ways to order"],
    ["combination", "choose", "select", "ways to select"],
    ["arrangement", "place", "position", "distribute"],
    ["partition", "divide", "split", "separate"]]

  const OrderIndicators: seq<string> := ["order", "arrange", "permute", "sequence", "lineup", "position", "rank"]

  const RepetitionIndicators: seq<string> :=
    ["repetition", "reuse", "again", "multiple times", "can be used", "may be used"]

  // ---------------------------------------------------------------------------
  // Factorials and permutations

  /** `n!` modulo 1000, and 1 (the empty product) for a negative `n`. */
  function FactorialRemainder(n: int): int {
    if n < 0 then 1 else Factorial(n) % 1000
  }

  /**
   * `_factorial_mod_1000`: multiplies `1 … min(n, 1000)`, reducing after each
   * factor. Stopping at 1000 loses nothing, since 1000 divides `1000!`.
   */
  method FactorialMod1000(n: int) returns (r: int)
    ensures n >= 0 ==> r == Factorial(n) % 1000
    ensures n < 0 ==> r == 1
    ensures r == FactorialRemainder(n)
  {
    r := 1;
    var stop := Min(n + 1, 1001);
    var i := 1;
    while i < stop
      invariant 1 <= i && (stop >= 1 ==> i <= stop) && (stop < 1 ==> i == 1)
      invariant r == Factorial(i - 1) % 1000
    {
      MulMod(Factorial(i - 1), i, 1000);
      assert Factorial(i) == Factorial(i - 1) * i;
      r := (r * i) % 1000;
      i := i + 1;
    }
    if n >= 1000 {
      FactorialDivisible(1000, 1000);
      FactorialDivisible(n, 1000);
      ModZeroIffDivides(Factorial(1000), 1000);
      ModZeroIffDivides(Factorial(n), 1000);
    }
  }

  /** The falling product `n (n - 1) … (n - r + 1)` of `r` factors. */
  function Falling(n: int, r: nat): int
    decreases r
  {
    if r == 0 then 1 else n * Falling(n - 1, r - 1)
  }

  /** `n! = P(n, r) (n - r)!`. */
  lemma {:induction false} FallingFactorial(n: nat, r: nat)
    requires r <= n
    ensures Falling(n, r) * Factorial(n - r) == Factorial(n)
  {
    if r > 0 {
      FallingFactorial(n - 1, r - 1);
      assert Falling(n, r) * Factorial(n - r) == n * (Falling(n - 1, r - 1) * Factorial(n - r));
    }
  }

  /** What `_permutation(n, r)` returns; a missing `r` means `r = n`. */
  function PermutationMod(n: int, r: Option<int>): int {
    var k := if r.None? then n else r.value;
    if k > n then 0 else if k <= 0 then 1 else Falling(n, k) % 1000
  }

  /** `_permutation(n, r)`: the product `(n - r + 1) … n`, reduced after each factor. */
  method Permutation(n: int, r0: Option<int>) returns (result: int)
    ensures result == PermutationMod(n, r0)
  {
    var r := if r0.None? then n else r0.value;
    if r > n {
      return 0;
    }
    result := 1;
    var lo := n - r + 1;
    var i := lo;
    while i < n + 1
      invariant lo <= i && (lo <= n + 1 ==> i <= n + 1) && (lo > n + 1 ==> i == lo)
      invariant result == Falling(i - 1, i - lo) % 1000
    {
      PermutationStep(i, i - lo);
      result := (result * i) % 1000;
      i := i + 1;
    }
    if r <= 0 {
      assert i == lo && result == 1;
    } else {
      assert i == n + 1 && i - lo == r;
    }
  }

  /** One factor of the permutation loop. */
  lemma PermutationStep(i: int, k: nat)
    ensures (Falling(i - 1, k) % 1000 * i) % 1000 == Falling(i, k + 1) % 1000
  {
    MulMod(Falling(i - 1, k), i, 1000);
    assert Falling(i, k + 1) == i * Falling(i - 1, k);
  }

  /** `P(n, r) = n! / (n - r)!`, modulo 1000. */
  lemma PermutationCounts(n: nat, r: nat)
    requires r <= n
    ensures PermutationMod(n, Some(r)) == (Factorial(n) / Factorial(n - r)) % 1000
  {
    FallingFactorial(n, r);
    ExactMultipleHasNoRemainder(Factorial(n - r), Falling(n, r));
    assert Factorial(n - r) * Falling(n, r) == Factorial(n);
  }

  /** With no second number, `_permutation(n)` is `n!` modulo 1000, as `_factorial_mod_1000` gives. */
  lemma PermutationOfAll(n: int)
    ensures PermutationMod(n, None) == FactorialRemainder(n)
  {
    if n > 0 {
      FallingFactorial(n, n);
    }
  }

  // ---------------------------------------------------------------------------
  // Powers

  lemma Regroup(a: int, b: int, c: int, d: int)
    ensures (a * c) * (b * d) == (a * b) * (c * d)
  {
  }

  /** A power of the inverse is the inverse of the power. */
  lemma {:induction false} InversePower(b: int, inv: int, k: nat)
    requires Congruent(b * inv, 1, 1000)
    ensures Congruent(Pow(inv, k) * Pow(b, k), 1, 1000)
  {
    if k == 0 {
      CongruentRefl(1, 1000);
    } else {
      InversePower(b, inv, k - 1);
      CongruentMul(b * inv, 1, Pow(inv, k - 1) * Pow(b, k - 1), 1, 1000);
      Regroup(inv, b, Pow(inv, k - 1), Pow(b, k - 1));
      assert Pow(inv, k) * Pow(b, k) == (inv * Pow(inv, k - 1)) * (b * Pow(b, k - 1));
      assert b * inv == inv * b;
    }
  }

  /**
   * Python's `pow(b, e, 1000)`: `b ** e` reduced; a negative exponent raises
   * (`None`) unless `b` is invertible modulo 1000, and then gives the
   * inverse of `b ** -e`.
   */
  function PowMod(b: int, e: int): (r: Option<int>)
    ensures e >= 0 ==> r == Some(Pow(b, e) % 1000)
    ensures e < 0 ==> (r.None? <==> Gcd(b, 1000) != 1)
    ensures e < 0 && r.Some? ==> 0 <= r.value < 1000 && Congruent(r.value * Pow(b, -e), 1, 1000)
  {
    if e >= 0 then Some(Pow(b, e) % 1000)
    else
      match ModInverseFixed(b, 1000)
      case None => None
      case Some(inv) =>
        var v := Pow(inv, -e) % 1000;
        assert Congruent(v * Pow(b, -e), 1, 1000) by {
          InversePower(b, inv, -e);
          RemainderCongruent(Pow(inv, -e), 1000);
          CongruentRefl(Pow(b, -e), 1000);
          CongruentMul(v, Pow(inv, -e), Pow(b, -e), Pow(b, -e), 1000);
          CongruentTrans(v * Pow(b, -e), Pow(inv, -e) * Pow(b, -e), 1, 1000);
        }
        Some(v)
  }

  // ---------------------------------------------------------------------------
  // Combinations

  /**
   * What `_combination(n, r)` evidently computes: `C(n, r)` modulo 1000, with
   * the source's own early exits (0 past `n`, 1 when `min(r, n - r) <= 0`).
   */
  function CombinationMod(n: int, r: int): int {
    if r > n then 0
    else
      var k := Min(r, n - r);
      if k <= 0 then 1 else Binomial(n, k) % 1000
  }

  /** For non-negative arguments the intended combination is the binomial coefficient. */
  lemma CombinationIsBinomial(n: nat, r: nat)
    ensures CombinationMod(n, r) == Binomial(n, r) % 1000
  {
    if r > n {
      BinomialAboveN(n, r);
    } else if r == n {
      BinomialAll(n);
    } else if n - r < r {
      BinomialSymmetric(n, r);
    }
  }

  /** 2 has no inverse modulo 1000, and 1 is its own. */
  lemma SmallInverses()
    ensures ModInverseFixed(2, 1000).None?
    ensures ModInverseFixed(1, 1000) == Some(1)
  {
    assert Gcd(2, 1000) == 2 by {
      assert Gcd(2, 1000) == Gcd(1000, 2) == Gcd(2, 0);
    }
    assert Gcd(1, 1000) == 1 by {
      assert Gcd(1, 1000) == Gcd(1000, 1) == Gcd(1, 0);
    }
    var v := ModInverseFixed(1, 1000).value;
    assert Congruent(1 * v, 1, 1000);
    CongruentInRange(v, 1, 1000);
  }

  /** Hence `pow(2, -1, 1000)` raises and `pow(1, -1, 1000)` is 1. */
  lemma SmallPowInverses()
    ensures PowMod(2, -1).None?
    ensures PowMod(1, -1) == Some(1)
  {
    SmallInverses();
    assert Pow(1, 1) == 1;
  }

  /**
   * `_combination(n, r)` as written: each round divides by `i + 1` through
   * `pow(i + 1, -1, 1000)`, which raises at `i + 1 == 2` because 2 has no
   * inverse modulo 1000. `None` stands for that exception, so every
   * `C(n, r)` with `min(r, n - r) >= 2` fails.
   */
  method CombinationAsWritten(n: int, r0: int) returns (c: Option<int>)
    ensures c.None? <==> r0 <= n && Min(r0, n - r0) >= 2
    ensures c.Some? ==> c.value == CombinationMod(n, r0)
  {
    if r0 > n {
      return Some(0);
    }
    var r := Min(r0, n - r0);
    var result := 1;
    var i := 0;
    while i < r
      invariant 0 <= i <= 1 && (r >= 0 ==> i <= r) && (r < 0 ==> i == 0)
      invariant i == 0 ==> result == 1
      invariant i == 1 ==> result == n % 1000
    {
      var next := AsWrittenRound(n, i, result);
      if next.None? {
        return None;
      }
      result := next.value;
      i := i + 1;
    }
    CombinationOfSmall(n, r0);
    return Some(result);
  }

  /** With `min(r, n - r)` at most 1 the loop needs no inverse but that of 1. */
  lemma CombinationOfSmall(n: int, r0: int)
    requires r0 <= n && Min(r0, n - r0) <= 1
    ensures Min(r0, n - r0) <= 0 ==> CombinationMod(n, r0) == 1
    ensures Min(r0, n - r0) == 1 ==> CombinationMod(n, r0) == n % 1000
  {
    if Min(r0, n - r0) == 1 {
      BinomialOne(n);
    }
  }

  /**
   * One round of `_combination` as written: multiply by `n - i`, then by
   * `pow(i + 1, -1, 1000)`; the first round keeps `n`, the second raises.
   */
  method AsWrittenRound(n: int, i: int, result: int) returns (next: Option<int>)
    requires 0 <= i <= 1 && (i == 0 ==> result == 1) && (i == 1 ==> result == n % 1000)
    ensures next == if i == 0 then Some(n % 1000) else None
  {
    var product := result * (n - i);
    var reduced := product % 1000;
    var inv := PowMod(i + 1, -1);
    assert inv == if i == 0 then Some(1) else None by {
      SmallPowInverses();
      if i == 0 {
        assert i + 1 == 1;
      } else {
        assert i + 1 == 2;
      }
    }
    if inv.None? {
      return None;
    }
    assert product == n by {
      assert result == 1 && n - i == n;
    }
    assert reduced * inv.value == reduced && 0 <= reduced < 1000;
    return Some((reduced * inv.value) % 1000);
  }

  /** The counterexample: choosing 2 of 5 raises, where the intended answer is 10. */
  lemma CombinationAsWrittenFailsOnFiveChooseTwo()
    ensures 2 <= 5 && Min(2, 5 - 2) >= 2
    ensures CombinationMod(5, 2) == 10
  {
    BinomialOne(5);
    BinomialStep(5, 1);
  }

  /** Exact division when the quotient is known. */
  lemma ExactQuotient(a: int, b: int, q: int)
    requires b > 0 && a == b * q
    ensures a / b == q
  {
    ExactMultipleHasNoRemainder(b, q);
  }

  /**
   * The corrected `_combination(n, r)`: the same rounds over exact integers,
   * multiplying by `n - i` and dividing by `i + 1`, reduced once at the end.
   */
  method Combination(n: int, r0: int) returns (c: int)
    ensures c == CombinationMod(n, r0)
    ensures n >= 0 && r0 >= 0 ==> c == Binomial(n, r0) % 1000
  {
    if n >= 0 && r0 >= 0 {
      CombinationIsBinomial(n, r0);
    }
    if r0 > n {
      return 0;
    }
    var r := Min(r0, n - r0);
    if r <= 0 {
      return 1;
    }
    var exact: nat := 1;
    for i := 0 to r
      invariant exact == Binomial(n, i)
    {
      BinomialStep(n, i);
      ExactQuotient(exact * (n - i), i + 1, Binomial(n, i + 1));
      exact := exact * (n - i) / (i + 1);
    }
    c := exact % 1000;
  }

  // ---------------------------------------------------------------------------
  // Partitions

  /** The number of partitions of `j` into parts no larger than `i`. */
  function PartitionsUpTo(j: nat, i: nat): nat
    decreases i, j
  {
    if j == 0 then 1
    else if i == 0 then 0
    else PartitionsUpTo(j, i - 1) + (if j >= i then PartitionsUpTo(j - i, i) else 0)
  }

  /** Parts larger than the number itself cannot occur: the count is `p(j)` from `i = j` on. */
  lemma {:induction false} PartitionsSaturate(j: nat, i: nat)
    requires i >= j
    ensures PartitionsUpTo(j, i) == PartitionsUpTo(j, j)
    decreases i
  {
    if i > j {
      PartitionsSaturate(j, i - 1);
    }
  }

  /** With parts of size 1 only there is exactly one partition. */
  lemma {:induction false} PartitionsIntoOnes(j: nat)
    ensures PartitionsUpTo(j, 1) == 1
  {
    if j > 0 {
      PartitionsIntoOnes(j - 1);
    }
  }

  /** Allowing larger parts never loses a partition. */
  lemma {:induction false} PartitionsGrow(j: nat, i: nat, i2: nat)
    requires i <= i2
    ensures PartitionsUpTo(j, i) <= PartitionsUpTo(j, i2)
    decreases i2
  {
    if i < i2 {
      PartitionsGrow(j, i, i2 - 1);
    }
  }

  /** `p(5) = 7`: 5, 4+1, 3+2, 3+1+1, 2+2+1, 2+1+1+1, 1+1+1+1+1. */
  lemma PartitionsOfFive()
    ensures PartitionsUpTo(5, 5) == 7
  {
    PartitionsIntoOnes(5);
    PartitionsIntoOnes(3);
    PartitionsIntoOnes(1);
    assert PartitionsUpTo(1, 2) == 1;
    assert PartitionsUpTo(3, 2) == 2;
    assert PartitionsUpTo(5, 2) == 3;
    assert PartitionsUpTo(2, 3) == 2;
    assert PartitionsUpTo(5, 3) == 5;
    assert PartitionsUpTo(1, 4) == 1;
    assert PartitionsUpTo(5, 4) == 6;
  }

  /** One cell of the table: partitions using a part `i` plus those that do not. */
  lemma PartitionStep(j: nat, i: nat)
    requires 1 <= i <= j
    ensures (PartitionsUpTo(j, i - 1) % 1000 + PartitionsUpTo(j - i, i) % 1000) % 1000 == PartitionsUpTo(j, i) % 1000
  {
    AddMod(PartitionsUpTo(j, i - 1), PartitionsUpTo(j - i, i), 1000);
  }

  /**
   * `_handle_partition`'s count: 1 for 0, 0 below, otherwise the table
   * `dp[j] += dp[j - i]` over part sizes `i = 1 … n`, reduced modulo 1000.
   */
  method PartitionMod(n: int) returns (p: int)
    ensures n < 0 ==> p == 0
    ensures n >= 0 ==> p == PartitionsUpTo(n, n) % 1000
  {
    if n <= 0 {
      return if n == 0 then 1 else 0;
    }
    var dp := new int[n + 1](_ => 0);
    dp[0] := 1;
    for i := 1 to n + 1
      invariant forall j :: 0 <= j <= n ==> dp[j] == PartitionsUpTo(j, i - 1) % 1000
    {
      forall k | 0 <= k < i ensures PartitionsUpTo(k, i) == PartitionsUpTo(k, i - 1) {
      }
      for j := i to n + 1
        invariant forall k :: 0 <= k < j ==> dp[k] == PartitionsUpTo(k, i) % 1000
        invariant forall k :: j <= k <= n ==> dp[k] == PartitionsUpTo(k, i - 1) % 1000
      {
        PartitionStep(j, i);
        dp[j] := (dp[j] + dp[j - i]) % 1000;
      }
    }
    p := dp[n];
  }

  // ---------------------------------------------------------------------------
  // Parsing

  /** The first pattern, in table order, that the lower-cased text matches, else `unknown`. */
  function ProblemTypeOf(lower: string): (t: string)
    ensures t == "unknown" <==> forall k :: 0 <= k < |TypeKeywords| ==> !ContainsAny(lower, TypeKeywords[k])
    ensures forall k :: 0 <= k < |ProblemTypes| ==>
      (t == ProblemTypes[k] <==>
        ContainsAny(lower, TypeKeywords[k]) && forall j :: 0 <= j < k ==> !ContainsAny(lower, TypeKeywords[j]))
  {
    var i := FirstPresent(lower, TypeKeywords);
    assert forall k, j :: 0 <= k < j < |ProblemTypes| ==> ProblemTypes[k] != ProblemTypes[j];
    if i < |ProblemTypes| then ProblemTypes[i] else "unknown"
  }

  /**
   * `_parse_combinatorics_problem`: the type from the pattern table, the
   * largest integer as the total, the second largest (with multiplicity) as
   * the selection, and the two indicator tests.
   */
  function ParseCombinatoricsProblem(problem: MathProblem): (cp: CombinatoricsProblem)
    ensures cp.problemType == ProblemTypeOf(Lower(problem.cleanedText))
    ensures var ns := IntegerLiterals(problem.numbers);
      (ns == [] ==> cp.totalElements == 0) &&
      (ns != [] ==> cp.totalElements in ns && forall k :: 0 <= k < |ns| ==> ns[k] <= cp.totalElements) &&
      (cp.selectElements.Some? <==> |ns| >= 2)
    ensures var ns := IntegerLiterals(problem.numbers);
      |ns| >= 2 ==> (cp.selectElements == Some(SecondLargest(ns)) &&
        exists k1, k2 :: 0 <= k1 < |ns| && 0 <= k2 < |ns| && k1 != k2 &&
          ns[k1] == cp.totalElements && ns[k2] == cp.selectElements.value &&
          forall k :: 0 <= k < |ns| && k != k1 ==> ns[k] <= cp.selectElements.value)
    ensures cp.selectElements.Some? ==> cp.selectElements.value <= cp.totalElements
    ensures cp.isOrdered <==> ContainsAny(Lower(problem.cleanedText), OrderIndicators)
    ensures cp.allowRepetition <==> ContainsAny(Lower(problem.cleanedText), RepetitionIndicators)
  {
    var lower := Lower(problem.cleanedText);
    var numbers := IntegerLiterals(problem.numbers);
    var total := if numbers == [] then 0 else Max(numbers);
    var select := if |numbers| > 1 then Some(SecondLargest(numbers)) else None;
    var cp := CombinatoricsProblem(ProblemTypeOf(lower), total, select,
      ContainsAny(lower, OrderIndicators), ContainsAny(lower, RepetitionIndicators));
    if |numbers| > 1 then SecondLargestIsRunnerUp(numbers); cp else cp
  }

  // ---------------------------------------------------------------------------
  // Handlers

  /**
   * `_handle_permutation`: `n ** r` arrangements (or `n ** n`) when
   * repetition is allowed, otherwise `P(n, r)`.
   */
  function HandlePermutation(cp: CombinatoricsProblem): (r: Option<int>)
    ensures r.Some? ==> 0 <= r.value < 1000
    ensures !cp.allowRepetition ==> r.Some?
    ensures var n := cp.totalElements;
      !cp.allowRepetition && cp.selectElements.Some? && 0 <= cp.selectElements.value <= n ==>
      r == Some((Factorial(n) / Factorial(n - cp.selectElements.value)) % 1000)
    ensures var n := cp.totalElements;
      !cp.allowRepetition && cp.selectElements.None? && n >= 0 ==> r == Some(Factorial(n) % 1000)
    ensures cp.allowRepetition && cp.selectElements.Some? && cp.selectElements.value >= 0 ==>
      r == Some(Pow(cp.totalElements, cp.selectElements.value) % 1000)
    ensures cp.allowRepetition && cp.selectElements.None? && cp.totalElements >= 0 ==>
      r == Some(Pow(cp.totalElements, cp.totalElements) % 1000)
  {
    var n := cp.totalElements;
    if cp.allowRepetition then
      PowMod(n, if cp.selectElements.Some? then cp.selectElements.value else n)
    else
      PermutationOfAll(n);
      var v := PermutationMod(n, cp.selectElements);
      if cp.selectElements.Some? && 0 <= cp.selectElements.value <= n then
        PermutationCounts(n, cp.selectElements.value); Some(v)
      else Some(v)
  }

  /**
   * `_handle_combination`: nothing without a selection; `C(n + r - 1, r)`
   * multisets with repetition, `C(n, r)` without.
   */
  function HandleCombination(cp: CombinatoricsProblem): (r: Option<int>)
    ensures r.None? <==> cp.selectElements.None?
    ensures r.Some? ==> 0 <= r.value < 1000
    ensures var (n, k) := (cp.totalElements, cp.selectElements);
      !cp.allowRepetition && k.Some? && n >= 0 && k.value >= 0 ==> r == Some(Binomial(n, k.value) % 1000)
    ensures var (n, k) := (cp.totalElements, cp.selectElements);
      cp.allowRepetition && k.Some? && n + k.value - 1 >= 0 && k.value >= 0 ==>
      r == Some(Binomial(n + k.value - 1, k.value) % 1000)
  {
    match cp.selectElements
    case None => None
    case Some(k) =>
      var n := if cp.allowRepetition then cp.totalElements + k - 1 else cp.totalElements;
      if n >= 0 && k >= 0 then CombinationIsBinomial(n, k); Some(CombinationMod(n, k))
      else Some(CombinationMod(n, k))
  }

  /** `_handle_arrangement`: ordered arrangements are permutations, the others combinations. */
  function HandleArrangement(cp: CombinatoricsProblem): (r: Option<int>)
    ensures r.Some? ==> 0 <= r.value < 1000
    ensures cp.isOrdered ==> r == HandlePermutation(cp)
    ensures !cp.isOrdered ==> r == HandleCombination(cp)
    ensures !cp.isOrdered ==> (r.None? <==> cp.selectElements.None?)
    ensures cp.isOrdered && !cp.allowRepetition ==> r.Some?
    ensures var (n, k) := (cp.totalElements, cp.selectElements);
      cp.isOrdered && !cp.allowRepetition && k.Some? && 0 <= k.value <= n ==>
      r == Some((Factorial(n) / Factorial(n - k.value)) % 1000)
    ensures var (n, k) := (cp.totalElements, cp.selectElements);
      !cp.isOrdered && !cp.allowRepetition && k.Some? && n >= 0 && k.value >= 0 ==> r == Some(Binomial(n, k.value) % 1000)
  {
    if cp.isOrdered then HandlePermutation(cp) else HandleCombination(cp)
  }

  /** `_handle_partition`: `p(n)` modulo 1000 for `n >= 0`, 0 below. */
  function HandlePartition(cp: CombinatoricsProblem): (r: Option<int>)
    ensures r.Some? && 0 <= r.value < 1000
    ensures cp.totalElements >= 0 ==> r.value == PartitionsUpTo(cp.totalElements, cp.totalElements) % 1000
    ensures cp.totalElements < 0 ==> r.value == 0
  {
    var n := cp.totalElements;
    if n <= 0 then Some(if n == 0 then 1 else 0) else Some(PartitionsUpTo(n, n) % 1000)
  }

  /** `_solve_general_combinatorics`, with its branches written out as in the source. */
  function SolveGeneralCombinatorics(cp: CombinatoricsProblem): (r: Option<int>)
    ensures r.Some? ==> 0 <= r.value < 1000
    ensures !cp.isOrdered ==> (r.None? <==> cp.selectElements.None?)
    ensures cp.isOrdered && !cp.allowRepetition ==> r.Some?
    ensures cp.isOrdered ==> r == HandlePermutation(cp)
    ensures !cp.isOrdered ==> r == HandleCombination(cp)
  {
    var n := cp.totalElements;
    if cp.isOrdered then
      if cp.allowRepetition then PowMod(n, if cp.selectElements.Some? then cp.selectElements.value else n)
      else Some(PermutationMod(n, cp.selectElements))
    else
      match cp.selectElements
      case None => None
      case Some(k) =>
        if cp.allowRepetition then Some(CombinationMod(n + k - 1, k)) else Some(CombinationMod(n, k))
  }

  /** The general solver makes exactly the choice the arrangement handler makes. */
  lemma GeneralIsArrangement(cp: CombinatoricsProblem)
    ensures SolveGeneralCombinatorics(cp) == HandleArrangement(cp)
  {
  }

  /** `_solve_combinatorics_problem`: the handler of the problem's type, else the general solver. */
  function SolveCombinatoricsProblem(cp: CombinatoricsProblem): (r: Option<int>)
    ensures r.Some? ==> 0 <= r.value < 1000
    ensures cp.problemType == "partition" ==> r == HandlePartition(cp)
    ensures cp.problemType == "combination" ==> (r.None? <==> cp.selectElements.None?)
    ensures cp.problemType == "permutation" ==> r == HandlePermutation(cp)
    ensures cp.problemType == "combination" ==> r == HandleCombination(cp)
    ensures cp.problemType !in ["permutation", "combination", "partition"] ==> r == HandleArrangement(cp)
  {
    match cp.problemType
    case "permutation" => HandlePermutation(cp)
    case "combination" => HandleCombination(cp)
    case "arrangement" => HandleArrangement(cp)
    case "partition" => HandlePartition(cp)
    case _ => GeneralIsArrangement(cp); SolveGeneralCombinatorics(cp)
  }

  // ---------------------------------------------------------------------------
  // Heuristics and the solver

  /**
   * `_apply_combinatorics_heuristics`: 42 without integers; otherwise the
   * first of permutation, combination, "ways" that the text mentions, else
   * the largest integer modulo 1000.
   */
  function Heuristics(problem: MathProblem): (r: int)
    ensures 0 <= r < 1000
    ensures IntegerLiterals(problem.numbers) == [] ==> r == 42
    ensures var lower := Lower(problem.cleanedText);
      var ns := IntegerLiterals(problem.numbers);
      ns != [] && !Contains(lower, "permutation") && !Contains(lower, "arrange") &&
      !(|ns| > 1 && (Contains(lower, "combination") || Contains(lower, "choose"))) && !Contains(lower, "ways") ==>
      r == Max(ns) % 1000
    ensures var lower := Lower(problem.cleanedText);
      var ns := IntegerLiterals(problem.numbers);
      ns != [] && (Contains(lower, "permutation") || Contains(lower, "arrange")) ==>
      r == PermutationMod(Max(ns), if |ns| > 1 then Some(SecondLargest(ns)) else None)
    ensures var lower := Lower(problem.cleanedText);
      var ns := IntegerLiterals(problem.numbers);
      |ns| > 1 && !Contains(lower, "permutation") && !Contains(lower, "arrange") &&
      (Contains(lower, "combination") || Contains(lower, "choose") || Contains(lower, "ways")) ==>
      r == CombinationMod(Max(ns), SecondLargest(ns))
    ensures var lower := Lower(problem.cleanedText);
      var ns := IntegerLiterals(problem.numbers);
      |ns| == 1 && !Contains(lower, "permutation") && !Contains(lower, "arrange") && Contains(lower, "ways") ==>
      r == FactorialRemainder(Max(ns))
  {
    var lower := Lower(problem.cleanedText);
    var numbers := IntegerLiterals(problem.numbers);
    if numbers == [] then 42
    else
      var n := Max(numbers);
      var r := if |numbers| > 1 then Some(SecondLargest(numbers)) else None;
      if Contains(lower, "permutation") || Contains(lower, "arrange") then PermutationMod(n, r)
      else if (Contains(lower, "combination") || Contains(lower, "choose")) && r.Some? then CombinationMod(n, r.value)
      else if Contains(lower, "ways") then
        if r.Some? then CombinationMod(n, r.value) else FactorialRemainder(n)
      else n % 1000
  }

  /** The answer for a preprocessed problem: a handler's result made valid, else the heuristics. */
  function Answer(problem: MathProblem): (r: int)
    ensures 0 <= r < 1000
    ensures SolveCombinatoricsProblem(ParseCombinatoricsProblem(problem)).Some? ==>
      r == SolveCombinatoricsProblem(ParseCombinatoricsProblem(problem)).value
    ensures SolveCombinatoricsProblem(ParseCombinatoricsProblem(problem)).None? ==> r == Heuristics(problem)
  {
    var result := SolveCombinatoricsProblem(ParseCombinatoricsProblem(problem));
    if result.Some? then EnsureValidAnswer(PyInt(result.value))
    else Heuristics(problem)
  }

  /** `solve`: 42 when preprocessing raises, otherwise the answer for the problem. */
  method Solve(question: Option<string>, extractNumbers: NumberExtractor) returns (answer: int)
    ensures 0 <= answer < 1000
    ensures question.None? ==> answer == 42
    ensures question.Some? && extractNumbers(CleanText(question.value)).None? ==> answer == 42
    ensures question.Some? && extractNumbers(CleanText(question.value)).Some? ==>
      answer == Answer(MathProblem(question.value, CleanText(question.value), MathExpressions(CleanText(question.value)),
        extractNumbers(CleanText(question.value)).value, IdentifyProblemType(CleanText(question.value)),
        CommandTable(CommandPairs(CleanText(question.value), false))))
  {
    if question.None? {
      return 42;
    }
    var problem := Preprocess(question.value, extractNumbers);
    if problem.None? {
      return 42;
    }
    answer := Answer(problem.value);
  }
}
