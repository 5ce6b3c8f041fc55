/**
 * The arithmetic solver: a problem is read as a mean, sum, product, ratio or
 * remainder question over the numbers in its text (floats, modelled as exact
 * reals), possibly asked in reverse ("what value makes the total equal …"),
 * and answered modulo 1000.
 */
module Arithmetic {
  import opened Common
  import opened Arith
  import opened Text
  import opened Scan
  import opened MathHelpers
  import opened BaseSolver
  import opened LatexParser

  /**
   * The parsed problem. Its `operations`, `constraints` and `unknowns`
   * fields are always empty and are left out.
   */
  datatype ArithmeticProblem = ArithmeticProblem(
    problemType: string,
    numbers: seq<real>,
    targetValue: Option<real>,
    isReverse: bool)

  /** The pattern table, in the order it is searched. */
  const ProblemTypes: seq<string> := ["mean", "sum", "product", "ratio", "remainder"]

  /** Each pattern is an alternation of words, searched without regard to case. */
  const TypeKeywords: seq<seq<string>> := [
    ["mean", "average"],
    ["sum", "total", "add"],
    ["product", "multiply"],
    ["ratio", "proportion", "divide"],
    ["remainder", "modulo", "mod"]]

  // ---------------------------------------------------------------------------
  // Parsing

  /** The first type whose pattern occurs in the lower-cased text, else "unknown". */
  function ProblemTypeOf(lower: string): (t: string)
    ensures t == "unknown" <==> forall k :: 0 <= k < |TypeKeywords| ==> !ContainsAny(lower, TypeKeywords[k])
    ensures forall k :: 0 <= k < |ProblemTypes| ==>
      (t == ProblemTypes[k] <==>
        ContainsAny(lower, TypeKeywords[k]) && forall j :: 0 <= j < k ==> !ContainsAny(lower, TypeKeywords[j]))
  {
    var i := FirstPresent(lower, TypeKeywords);
    assert forall k, j :: 0 <= k < j < |ProblemTypes| ==> ProblemTypes[k] != ProblemTypes[j];
    if i < |ProblemTypes| then ProblemTypes[i] else "unknown"
  }

  /** `equals\s*(\d+\.?\d*)`, searched with regard to case. */
  const TargetPattern: seq<seq<Token>> :=
    [[Lit("equals"), Run(SpaceChars, false), Run(DigitChars, true), OptLit("."), Run(DigitChars, false)]]

  /** `w` is `\d+\.?\d*` read greedily: a run of digits, then possibly a point and more digits. */
  predicate DecimalLiteral(w: string) {
    var n := RunEnd(w, 0, DigitChars);
    n >= 1 && (n == |w| || (w[n] == '.' && AllIn(w[n + 1..], DigitChars)))
  }

  /** No digit follows the literal `w` ending at `e`, nor a point when `w` has none. */
  predicate LiteralEnds(text: string, e: nat, w: string) {
    e == |text| || (e < |text| && !IsDigit(text[e]) && (text[e] != '.' || '.' in w))
  }

  /** "equals" at `p`, then blanks, then the number literal `w` at `q`, read as far as it goes. */
  predicate TargetAt(text: string, p: nat, q: nat, w: string) {
    p + 6 <= q <= |text| && IsPrefixAt(text, "equals", p) && AllIn(text[p + 6..q], SpaceChars) &&
    IsPrefixAt(text, w, q) && DecimalLiteral(w) && LiteralEnds(text, q + |w|, w)
  }

  /** At `p` stands "equals", then blanks, then a digit: the pattern matches here. */
  predicate TargetStart(text: string, p: nat) {
    p + 6 <= |text| && IsPrefixAt(text, "equals", p) &&
    var q := RunEnd(text, p + 6, SpaceChars);
    q < |text| && IsDigit(text[q])
  }

  /**
   * The value of the number after the first "equals" of the text that is
   * followed by blanks and a digit; it is never negative.
   */
  function TargetValue(text: string): (r: Option<real>)
    ensures r.Some? <==> Found(text, TargetPattern)
    ensures r.None? ==> forall p: nat :: !TargetStart(text, p)
    ensures r.Some? ==> r.value >= 0.0
    ensures r.Some? ==> exists p: nat, q: nat, w :: (TargetStart(text, p) && TargetAt(text, p, q, w) &&
      r.value == DecimalValue(w) && forall p': nat :: p' < p ==> !TargetStart(text, p'))
  {
    match Search(text, TargetPattern, 0)
    case None =>
      NoTargetStart(text, TargetPattern, |text| + 1);
      None
    case Some(m) =>
      FoundTarget(text, TargetPattern, m);
      var w := text[m.bounds[2]..m.bounds[5]];
      DecimalValueNonNegative(w);
      Some(DecimalValue(w))
  }

  /** The leftmost match of the target pattern is the first target start, and reads a whole literal. */
  lemma FoundTarget(text: string, alts: seq<seq<Token>>, m: Match)
    requires alts == TargetPattern && Search(text, alts, 0) == Some(m)
    ensures |m.bounds| == 6 && m.bounds[2] <= m.bounds[5] <= |text|
    ensures TargetStart(text, Start(m)) && TargetAt(text, Start(m), m.bounds[2], text[m.bounds[2]..m.bounds[5]])
    ensures forall p: nat :: p < Start(m) ==> !TargetStart(text, p)
  {
    SearchParses(text, alts, m);
    var b := m.bounds;
    assert m.alt == 0 && |alts[0]| == 5;
    assert TokenFits(text, b[0], b[1], alts[0][0]);
    assert TokenFits(text, b[1], b[2], alts[0][1]);
    assert TokenFits(text, b[2], b[3], alts[0][2]);
    assert TokenFits(text, b[3], b[4], alts[0][3]);
    assert TokenFits(text, b[4], b[5], alts[0][4]);
    TargetFits(text, b[0], b[1], b[2], b[3], b[4], b[5]);
    NoTargetStart(text, alts, Start(m));
  }

  /** Where the pattern matches nowhere before `hi`, no target starts before `hi`. */
  lemma NoTargetStart(text: string, alts: seq<seq<Token>>, hi: nat)
    requires alts == TargetPattern && NoMatchFrom(text, alts, 0, hi)
    ensures forall p: nat :: p < hi ==> !TargetStart(text, p)
  {
    forall p: nat | p < hi && TargetStart(text, p)
      ensures false
    {
      TargetStartMatches(text, alts, p);
      NoMatchAt(text, alts, 0, hi, p);
    }
  }

  /** Where "equals", blanks and a digit stand, the target pattern matches. */
  lemma TargetStartMatches(text: string, alts: seq<seq<Token>>, p: nat)
    requires alts == TargetPattern && TargetStart(text, p)
    ensures p <= |text| && MatchAlts(text, p, alts).Some?
  {
    var q := RunEnd(text, p + 6, SpaceChars);
    assert RunEnd(text, q, DigitChars) > q;
    assert MatchAt(text, p, alts[0]).Some?;
  }

  /**
   * The five tokens of the target pattern, matched greedily at `b0 … b5`,
   * give a target that starts where the pattern can start.
   */
  lemma TargetFits(text: string, b0: nat, b1: nat, b2: nat, b3: nat, b4: nat, b5: nat)
    requires TokenFits(text, b0, b1, Lit("equals")) && TokenFits(text, b1, b2, Run(SpaceChars, false))
    requires TokenFits(text, b2, b3, Run(DigitChars, true)) && TokenFits(text, b3, b4, OptLit("."))
    requires TokenFits(text, b4, b5, Run(DigitChars, false))
    ensures TargetStart(text, b0) && TargetAt(text, b0, b2, text[b2..b5])
  {
    DecimalFits(text, b2, b3, b4, b5);
    assert text[b0..b1] == "equals";
    LiteralEndFits(text, b2, b3, b4, b5);
    TargetStartFits(text, b0, b1, b2, b3);
  }

  /** The digits `b2..b3`, the optional point and more digits make a decimal literal. */
  lemma DecimalFits(text: string, b2: nat, b3: nat, b4: nat, b5: nat)
    requires TokenFits(text, b2, b3, Run(DigitChars, true)) && TokenFits(text, b3, b4, OptLit("."))
    requires TokenFits(text, b4, b5, Run(DigitChars, false))
    ensures DecimalLiteral(text[b2..b5])
  {
    var w := text[b2..b5];
    var n := b3 - b2;
    assert forall k :: 0 <= k < n ==> IsDigit(w[k]) by {
      forall k | 0 <= k < n ensures IsDigit(w[k]) {
        assert w[k] == text[b2..b3][k];
      }
    }
    assert forall k :: b4 <= k < b5 ==> IsDigit(text[k]) by {
      forall k | b4 <= k < b5 ensures IsDigit(text[k]) {
        assert text[k] == text[b4..b5][k - b4];
      }
    }
    if b4 == b3 {
      assert b5 == b4;
    } else {
      assert text[b3..b4] == ".";
      assert w[n] == text[b3];
      assert w[n + 1..] == text[b4..b5];
    }
    assert n == |w| || !IsDigit(w[n]);
    assert RunEnd(w, 0, DigitChars) == n;
  }

  /** After the digits `b2..b3`, the optional point and more digits, the literal ends. */
  lemma LiteralEndFits(text: string, b2: nat, b3: nat, b4: nat, b5: nat)
    requires TokenFits(text, b2, b3, Run(DigitChars, true)) && TokenFits(text, b3, b4, OptLit("."))
    requires TokenFits(text, b4, b5, Run(DigitChars, false))
    ensures LiteralEnds(text, b5, text[b2..b5])
  {
    if b5 < |text| {
      if b4 == b3 {
        assert b5 == b4;
        assert text[b3..b3 + 1] == [text[b3]];
      } else {
        assert text[b3..b4] == ".";
        assert text[b2..b5][b3 - b2] == '.';
      }
    }
  }

  /** A greedy "equals" and blank run followed by a digit run is a target start. */
  lemma TargetStartFits(text: string, b0: nat, b1: nat, b2: nat, b3: nat)
    requires TokenFits(text, b0, b1, Lit("equals")) && TokenFits(text, b1, b2, Run(SpaceChars, false))
    requires TokenFits(text, b2, b3, Run(DigitChars, true))
    ensures TargetStart(text, b0)
  {
    assert text[b0..b1] == "equals";
    RunFits(text, b1, SpaceChars, false);
    assert IsDigit(text[b2]) by {
      assert text[b2] == text[b2..b3][0];
    }
  }

  lemma DecimalValueNonNegative(w: string)
    ensures DecimalValue(w) >= 0.0
  {
    var n := RunEnd(w, 0, DigitChars);
    if n < |w| && w[n] == '.' {
      var f := DigitsValue(w[n + 1..]) as real;
      var d := Pow10(|w| - n - 1) as real;
      assert f / d >= 0.0;
    }
  }

  /**
   * `_parse_arithmetic_problem`: the type from the pattern table, the
   * numbers of the problem, the target after "equals", and whether the
   * question asks backwards ("what" or "find" in the text).
   */
  function ParseArithmeticProblem(problem: MathProblem): (ap: ArithmeticProblem)
    ensures ap.problemType == ProblemTypeOf(Lower(problem.cleanedText))
    ensures ap.numbers == problem.numbers
    ensures ap.targetValue == TargetValue(problem.cleanedText)
    ensures ap.isReverse <==> Contains(Lower(problem.cleanedText), "what") || Contains(Lower(problem.cleanedText), "find")
  {
    var lower := Lower(problem.cleanedText);
    ArithmeticProblem(ProblemTypeOf(lower), problem.numbers, TargetValue(problem.cleanedText),
      Contains(lower, "what") || Contains(lower, "find"))
  }

  // ---------------------------------------------------------------------------
  // Sums, means and products of floats

  /** `statistics.mean` of a non-empty list. */
  function Mean(xs: seq<real>): real
    requires xs != []
  {
    RealSum(xs) / (|xs| as real)
  }

  /** A sum of `n` values in `[lo, hi]` lies in `[n lo, n hi]`. */
  lemma {:induction false} RealSumBounds(xs: seq<real>, lo: real, hi: real)
    requires forall k :: 0 <= k < |xs| ==> lo <= xs[k] <= hi
    ensures (|xs| as real) * lo <= RealSum(xs) <= (|xs| as real) * hi
    decreases |xs|
  {
    if xs != [] {
      var n := |xs|;
      RealSumBounds(xs[..n - 1], lo, hi);
      assert (n as real) * lo == ((n - 1) as real) * lo + lo;
      assert (n as real) * hi == ((n - 1) as real) * hi + hi;
    }
  }

  /** The mean lies between the smallest and the largest value. */
  lemma MeanBetween(xs: seq<real>)
    requires xs != []
    ensures RealMin(xs) <= Mean(xs) <= RealMax(xs)
  {
    RealSumBounds(xs, RealMin(xs), RealMax(xs));
    ScaleDown(RealSum(xs), |xs| as real, RealMin(xs), RealMax(xs));
  }

  lemma ScaleDown(a: real, n: real, lo: real, hi: real)
    requires n > 0.0 && n * lo <= a <= n * hi
    ensures lo <= a / n <= hi
  {
    assert a / n - lo == (a - n * lo) / n;
    assert hi - a / n == (n * hi - a) / n;
  }

  /** Every value is a whole number. */
  predicate AllIntegral(xs: seq<real>) {
    forall k :: 0 <= k < |xs| ==> IsIntegral(xs[k])
  }

  /** The values as integers. */
  function Floors(xs: seq<real>): seq<int> {
    seq(|xs|, k requires 0 <= k < |xs| => xs[k].Floor)
  }

  /** On whole numbers the float sum is the integer sum. */
  lemma {:induction false} RealSumOfIntegers(xs: seq<real>)
    requires AllIntegral(xs)
    ensures RealSum(xs) == Sum(Floors(xs)) as real
    decreases |xs|
  {
    if xs != [] {
      var n := |xs|;
      RealSumOfIntegers(xs[..n - 1]);
      assert Floors(xs)[..n - 1] == Floors(xs[..n - 1]);
    }
  }

  /** On whole numbers the float product is the integer product. */
  lemma {:induction false} RealProductOfIntegers(xs: seq<real>)
    requires AllIntegral(xs)
    ensures RealProduct(xs) == Product(Floors(xs)) as real
    decreases |xs|
  {
    if xs != [] {
      var n := |xs|;
      RealProductOfIntegers(xs[..n - 1]);
      assert Floors(xs)[..n - 1] == Floors(xs[..n - 1]);
    }
  }

  /** Float `%` on a whole number is integer `%`. */
  lemma RealModOfInt(k: int, m: int)
    requires m > 0
    ensures RealMod(k as real, m) == (k % m) as real
  {
    var q, r := k / m, k % m;
    var x := (k as real) / (m as real);
    assert k == q * m + r;
    assert k as real == (q * m) as real + r as real;
    assert (q * m) as real == (q as real) * (m as real);
    assert x == q as real + (r as real) / (m as real);
    assert 0.0 <= (r as real) / (m as real) < 1.0;
    assert x.Floor == q;
  }

  lemma TruncOfInt(k: int)
    ensures Trunc(k as real) == k
  {
  }

  /** `reduce(lambda x, y: (x * y) % 1000, xs)`: a single value is returned as it is. */
  function ProductFold(xs: seq<real>): (r: real)
    requires xs != []
    ensures |xs| >= 2 ==> 0.0 <= r < 1000.0
  {
    if |xs| == 1 then xs[0] else RealMod(ProductFold(xs[..|xs| - 1]) * xs[|xs| - 1], 1000)
  }

  /** On at least two whole numbers the fold is the product modulo 1000. */
  lemma {:induction false} ProductFoldOfIntegers(xs: seq<real>)
    requires |xs| >= 2 && AllIntegral(xs)
    ensures ProductFold(xs) == (Product(Floors(xs)) % 1000) as real
    decreases |xs|
  {
    var n := |xs|;
    var fs := Floors(xs);
    var init := xs[..n - 1];
    assert Floors(init) == fs[..n - 1];
    assert xs[n - 1] == fs[n - 1] as real;
    if n == 2 {
      ProductOfTwo(fs);
      assert init == [xs[0]];
      ProductFoldStep(xs, fs[0], fs[1]);
    } else {
      ProductFoldOfIntegers(init);
      var p := Product(fs[..n - 1]);
      ProductFoldStep(xs, p % 1000, fs[n - 1]);
      MulMod(p, fs[n - 1], 1000);
    }
  }

  /** One step of the fold on whole numbers. */
  lemma ProductFoldStep(xs: seq<real>, a: int, f: int)
    requires |xs| >= 2 && ProductFold(xs[..|xs| - 1]) == a as real && xs[|xs| - 1] == f as real
    ensures ProductFold(xs) == ((a * f) % 1000) as real
  {
    var x := ProductFold(xs[..|xs| - 1]) * xs[|xs| - 1];
    assert ProductFold(xs) == RealMod(x, 1000);
    assert x == (a * f) as real;
    RealModOfInt(a * f, 1000);
  }

  lemma ProductOfTwo(fs: seq<int>)
    requires |fs| == 2
    ensures Product(fs) == fs[0] * fs[1]
  {
    assert fs[..1][..0] == [];
    assert Product(fs[..1]) == fs[0];
  }

  // ---------------------------------------------------------------------------
  // Handlers

  /**
   * `_handle_mean`: the truncated mean modulo 1000; asked backwards with a
   * target, the value that brings the total to `target * count`.
   */
  function HandleMean(ap: ArithmeticProblem): (r: Option<int>)
    ensures r.Some? <==> ap.numbers != [] && (ap.isReverse ==> ap.targetValue.Some?)
    ensures r.Some? ==> 0 <= r.value < 1000
    ensures r.Some? && !ap.isReverse ==> r.value == Trunc(Mean(ap.numbers)) % 1000
    ensures r.Some? && ap.isReverse ==>
      r.value == Trunc(ap.targetValue.value * (|ap.numbers| as real) - RealSum(ap.numbers)) % 1000
  {
    var xs := ap.numbers;
    if xs == [] then None
    else if ap.isReverse then
      if ap.targetValue.Some? then Some(Trunc(ap.targetValue.value * (|ap.numbers| as real) - RealSum(ap.numbers)) % 1000)
      else None
    else Some(Trunc(Mean(xs)) % 1000)
  }

  /** Asked backwards, the mean handler's answer completes the total `target * count` modulo 1000. */
  lemma MeanReverseCompletes(ap: ArithmeticProblem)
    requires ap.isReverse && ap.numbers != [] && AllIntegral(ap.numbers)
    requires ap.targetValue.Some? && IsIntegral(ap.targetValue.value)
    ensures HandleMean(ap).Some?
    ensures Congruent(Sum(Floors(ap.numbers)) + HandleMean(ap).value,
      ap.targetValue.value.Floor * |ap.numbers|, 1000)
  {
    var xs := ap.numbers;
    var s, t, n := Sum(Floors(xs)), ap.targetValue.value.Floor, |xs|;
    RealSumOfIntegers(xs);
    assert ap.targetValue.value * (n as real) - RealSum(xs) == (t * n - s) as real;
    TruncOfInt(t * n - s);
    CompletesModulo(s, t * n);
  }

  /** `s + (t - s) % m` is congruent to `t`. */
  lemma CompletesModulo(s: int, t: int)
    ensures Congruent(s + (t - s) % 1000, t, 1000)
  {
    RemainderCongruent(t - s, 1000);
    var k :| (t - s) % 1000 - (t - s) == 1000 * k;
    assert s + (t - s) % 1000 - t == 1000 * k;
  }

  /**
   * `_handle_sum`: the truncated sum modulo 1000; asked backwards with a
   * target, the value that brings the sum to the target.
   */
  function HandleSum(ap: ArithmeticProblem): (r: Option<int>)
    ensures r.Some? <==> ap.numbers != [] && (ap.isReverse ==> ap.targetValue.Some?)
    ensures r.Some? ==> 0 <= r.value < 1000
    ensures r.Some? && !ap.isReverse ==> r.value == Trunc(RealSum(ap.numbers)) % 1000
    ensures r.Some? && !ap.isReverse && AllIntegral(ap.numbers) ==> r.value == Sum(Floors(ap.numbers)) % 1000
    ensures r.Some? && ap.isReverse ==> r.value == Trunc(ap.targetValue.value - RealSum(ap.numbers)) % 1000
  {
    var xs := ap.numbers;
    if xs == [] then None
    else if ap.isReverse then
      if ap.targetValue.Some? then Some(Trunc(ap.targetValue.value - RealSum(xs)) % 1000)
      else None
    else if AllIntegral(xs) then
      RealSumOfIntegers(xs);
      TruncOfInt(Sum(Floors(xs)));
      Some(Trunc(RealSum(xs)) % 1000)
    else Some(Trunc(RealSum(xs)) % 1000)
  }

  /** Asked backwards, the sum handler's answer completes the sum to the target modulo 1000. */
  lemma SumReverseCompletes(ap: ArithmeticProblem)
    requires ap.isReverse && ap.numbers != [] && AllIntegral(ap.numbers)
    requires ap.targetValue.Some? && IsIntegral(ap.targetValue.value)
    ensures HandleSum(ap).Some?
    ensures Congruent(Sum(Floors(ap.numbers)) + HandleSum(ap).value, ap.targetValue.value.Floor, 1000)
  {
    var xs := ap.numbers;
    var s, t := Sum(Floors(xs)), ap.targetValue.value.Floor;
    RealSumOfIntegers(xs);
    assert ap.targetValue.value - RealSum(xs) == (t - s) as real;
    TruncOfInt(t - s);
    CompletesModulo(s, t);
  }

  /**
   * `_handle_product`: the product folded with a reduction after each step
   * (a single number is returned as it is); asked backwards with a target,
   * the truncated quotient of the target by the product, modulo 1000.
   */
  function HandleProduct(ap: ArithmeticProblem): (r: Option<int>)
    ensures r.Some? <==>
      (ap.numbers != [] && (ap.isReverse ==> ap.targetValue.Some? && RealProduct(ap.numbers) != 0.0))
    ensures r.Some? && !ap.isReverse ==> r.value == Trunc(ProductFold(ap.numbers))
    ensures r.Some? && !ap.isReverse && |ap.numbers| >= 2 && AllIntegral(ap.numbers) ==>
      r.value == Product(Floors(ap.numbers)) % 1000
    ensures r.Some? && (ap.isReverse || |ap.numbers| >= 2) ==> 0 <= r.value < 1000
    ensures r.Some? && ap.isReverse ==>
      r.value == Trunc(ap.targetValue.value / RealProduct(ap.numbers)) % 1000
  {
    var xs := ap.numbers;
    if xs == [] then None
    else if ap.isReverse then
      if ap.targetValue.Some? && RealProduct(xs) != 0.0 then
        Some(Trunc(ap.targetValue.value / RealProduct(xs)) % 1000)
      else None
    else if |xs| >= 2 && AllIntegral(xs) then
      ProductFoldOfIntegers(xs);
      TruncOfInt(Product(Floors(xs)) % 1000);
      Some(Trunc(ProductFold(xs)))
    else
      Some(Trunc(ProductFold(xs)))
  }

  /** Asked backwards, when the target is `m` times the product, the answer is `m` modulo 1000. */
  lemma ProductReverseFindsFactor(ap: ArithmeticProblem, m: int)
    requires ap.isReverse && ap.numbers != [] && AllIntegral(ap.numbers) && Product(Floors(ap.numbers)) != 0
    requires ap.targetValue == Some((Product(Floors(ap.numbers)) * m) as real)
    ensures HandleProduct(ap) == Some(m % 1000)
  {
    var p := Product(Floors(ap.numbers));
    RealProductOfIntegers(ap.numbers);
    assert (p * m) as real == (p as real) * (m as real);
    assert ap.targetValue.value / RealProduct(ap.numbers) == m as real;
    TruncOfInt(m);
  }

  /** The forward product of one number is that number, not reduced modulo 1000. */
  lemma ProductOfOneUnreduced()
    ensures HandleProduct(ArithmeticProblem("product", [5000.0], None, false)) == Some(5000)
  {
    TruncOfInt(5000);
  }

  /** `gcd(a, b)` of `_handle_ratio`: Euclid's recursion with Python's `%` and no absolute value. */
  function SignedGcd(a: int, b: int): int
    decreases Abs(b)
  {
    if b == 0 then a else SignedGcd(b, PyMod(a, b))
  }

  /** Up to sign, the local gcd is the gcd. */
  lemma {:induction false} SignedGcdMagnitude(a: int, b: int)
    ensures Abs(SignedGcd(a, b)) == Gcd(a, b)
    decreases Abs(b)
  {
    if b != 0 {
      SignedGcdMagnitude(b, PyMod(a, b));
    }
  }

  /** The local `gcd` loop of `_handle_ratio`. */
  method LocalGcd(a0: int, b0: int) returns (g: int)
    ensures g == SignedGcd(a0, b0)
    ensures Abs(g) == Gcd(a0, b0)
  {
    var a, b := a0, b0;
    while b != 0
      invariant SignedGcd(a, b) == SignedGcd(a0, b0)
      decreases Abs(b)
    {
      a, b := b, PyMod(a, b);
    }
    g := a;
    SignedGcdMagnitude(a0, b0);
  }

  /** A non-zero divisor divides exactly under floor division. */
  lemma ExactFloorDivision(n: int, g: int)
    requires g != 0 && Divides(g, n)
    ensures PyDiv(n, g) * g == n
  {
    var k :| n == g * k;
    assert n == PyDiv(n, g) * g + PyMod(n, g);
    var d := PyDiv(n, g) - k;
    assert d * g == -PyMod(n, g);
    if d != 0 {
      MulAbsAtLeast(g, d);
      assert g * d == d * g;
    }
  }

  /** The ratio `num : den` divided through by the local gcd. */
  function ReducedRatio(num: int, den: int): (r: (int, int))
    requires den != 0
    ensures r.0 * SignedGcd(num, den) == num && r.1 * SignedGcd(num, den) == den
    ensures r.1 != 0
  {
    var g := SignedGcd(num, den);
    SignedGcdMagnitude(num, den);
    GcdZero(num, den);
    GcdDividesBoth(num, den);
    SignedDivides(g, num);
    SignedDivides(g, den);
    ExactFloorDivision(num, g);
    ExactFloorDivision(den, g);
    (PyDiv(num, g), PyDiv(den, g))
  }

  /** A number with the magnitude of a divisor is a divisor. */
  lemma SignedDivides(g: int, n: int)
    requires Divides(Abs(g), n)
    ensures Divides(g, n)
  {
    if g < 0 {
      var a: int := Abs(g);
      DividesNeg(a, n);
      assert -a == g;
    }
  }

  /** The reduced ratio is the same ratio, in lowest terms. */
  lemma RatioLowestTerms(num: int, den: int)
    requires den != 0
    ensures var r := ReducedRatio(num, den); r.0 * den == r.1 * num && Gcd(r.0, r.1) == 1
  {
    var r := ReducedRatio(num, den);
    var p, q, g := r.0, r.1, SignedGcd(num, den);
    CrossMultiply(p, q, g);
    var h := Gcd(p, q);
    GcdZero(p, q);
    GcdDividesBoth(p, q);
    ScaledDivisor(h, g, p);
    ScaledDivisor(h, g, q);
    GcdGreatest(num, den, h * g);
    SignedGcdMagnitude(num, den);
    GcdZero(num, den);
    DivisorBound(h * g, Gcd(num, den));
    FactorBound(h, g);
  }

  lemma CrossMultiply(p: int, q: int, g: int)
    ensures p * (q * g) == q * (p * g)
  {
  }

  /** A multiple of both sides keeps divisibility. */
  lemma ScaledDivisor(h: int, g: int, x: int)
    requires Divides(h, x)
    ensures Divides(h * g, x * g)
  {
    var k :| x == h * k;
    assert x * g == (h * g) * k;
  }

  /** A positive factor that does not enlarge `g` is 1. */
  lemma FactorBound(h: int, g: int)
    requires g != 0 && h >= 1 && Abs(h * g) <= Abs(g)
    ensures h == 1
  {
    var a: int := Abs(g);
    assert Abs(h * g) == h * a by {
      if g < 0 { assert -(h * g) == h * (-g); }
    }
    assert a * (h - 1) == h * a - a;
    PositiveFactor(a, h - 1);
  }

  lemma PositiveFactor(d: int, q: int)
    requires d > 0
    ensures d * q <= 0 ==> q <= 0
  {
    if q > 0 {
      MulAtLeast(d, q);
    }
  }

  /**
   * `_handle_ratio`: the first two numbers, truncated, as a ratio reduced by
   * the local gcd; the answer is the sum of its terms modulo 1000.
   */
  function HandleRatio(ap: ArithmeticProblem): (r: Option<int>)
    ensures r.Some? <==> |ap.numbers| >= 2 && Trunc(ap.numbers[1]) != 0
    ensures r.Some? ==>
      (0 <= r.value < 1000 && |ap.numbers| >= 2 && Trunc(ap.numbers[1]) != 0 &&
       var pq := ReducedRatio(Trunc(ap.numbers[0]), Trunc(ap.numbers[1]));
       r.value == (pq.0 + pq.1) % 1000)
  {
    var xs := ap.numbers;
    if |xs| < 2 then None
    else
      var num, den := Trunc(xs[0]), Trunc(xs[1]);
      if den == 0 then None
      else
        var pq := ReducedRatio(num, den);
        Some(PyMod(pq.0 + pq.1, 1000))
  }

  /**
   * `_handle_remainder`: the largest number (truncated) modulo the second
   * largest (truncated), then modulo 1000; `None` for a zero divisor.
   */
  function HandleRemainder(ap: ArithmeticProblem): (r: Option<int>)
    ensures r.Some? <==> |ap.numbers| >= 2 && Trunc(RealSecondLargest(ap.numbers)) != 0
    ensures r.Some? ==>
      (0 <= r.value < 1000 && |ap.numbers| >= 2 && Trunc(RealSecondLargest(ap.numbers)) != 0 &&
       r.value == PyMod(Trunc(RealMax(ap.numbers)), Trunc(RealSecondLargest(ap.numbers))) % 1000)
    ensures r.Some? ==>
      var dividend, divisor := Trunc(RealMax(ap.numbers)), Trunc(RealSecondLargest(ap.numbers));
      0 < divisor <= 1000 ==> r.value < divisor && Congruent(r.value, dividend, divisor)
  {
    var xs := ap.numbers;
    if |xs| < 2 then None
    else
      var dividend, divisor := Trunc(RealMax(xs)), Trunc(RealSecondLargest(xs));
      if divisor == 0 then None
      else
        var v := PyMod(dividend, divisor);
        if 0 < divisor <= 1000 then
          assert v - dividend == divisor * -PyDiv(dividend, divisor);
          Some(v % 1000)
        else Some(v % 1000)
  }

  // ---------------------------------------------------------------------------
  // The general solver and the dispatch

  /** `0 <= result <= 999`. */
  predicate InRange(v: PyValue) {
    (v.PyInt? && 0 <= v.i <= 999) || (v.PyFloat? && 0.0 <= v.x <= 999.0)
  }

  /**
   * The operations `_solve_general_arithmetic` tries, in order: the float
   * sum modulo 1000, the folded product, and the truncated mean modulo 1000.
   * The median comes fourth and is never reached.
   */
  function Candidates(xs: seq<real>): seq<PyValue>
    requires xs != []
  {
    [PyFloat(RealMod(RealSum(xs), 1000)), PyFloat(ProductFold(xs)), PyInt(Trunc(Mean(xs)) % 1000)]
  }

  /** The first candidate in range. */
  function FirstInRange(cs: seq<PyValue>): (r: Option<PyValue>)
    ensures r.None? <==> forall k :: 0 <= k < |cs| ==> !InRange(cs[k])
    ensures r.Some? ==> r.value in cs && InRange(r.value)
    ensures cs != [] && InRange(cs[0]) ==> r == Some(cs[0])
  {
    if cs == [] then None
    else if InRange(cs[0]) then Some(cs[0])
    else
      var r := FirstInRange(cs[1..]);
      assert forall k :: 1 <= k < |cs| ==> cs[k] == cs[1..][k - 1];
      r
  }

  /** The loop over the operations, stopping at the first result in range. */
  method FirstAccepted(cs: seq<PyValue>) returns (r: Option<PyValue>)
    ensures r == FirstInRange(cs)
  {
    var i := 0;
    while i < |cs|
      invariant 0 <= i <= |cs|
      invariant FirstInRange(cs[i..]) == FirstInRange(cs)
    {
      if InRange(cs[i]) {
        return Some(cs[i]);
      }
      assert cs[i..][1..] == cs[i + 1..];
      i := i + 1;
    }
    return None;
  }

  /**
   * What `_solve_general_arithmetic` returns: an answer in range for every
   * non-empty list, and the sum modulo 1000 when the numbers are whole.
   */
  function GeneralAnswer(xs: seq<real>): (r: Option<PyValue>)
    ensures r.Some? <==> xs != []
    ensures r.Some? ==> InRange(r.value)
    ensures xs != [] && AllIntegral(xs) ==> r == Some(PyFloat((Sum(Floors(xs)) % 1000) as real))
  {
    if xs == [] then None
    else
      var cs := Candidates(xs);
      assert InRange(cs[2]);
      if AllIntegral(xs) then
        RealSumOfIntegers(xs);
        RealModOfInt(Sum(Floors(xs)), 1000);
        FirstInRange(cs)
      else FirstInRange(cs)
  }

  /** `_solve_general_arithmetic`. */
  method SolveGeneralArithmetic(xs: seq<real>) returns (r: Option<PyValue>)
    ensures r == GeneralAnswer(xs)
  {
    if xs == [] {
      return None;
    }
    r := FirstAccepted(Candidates(xs));
  }

  function Lift(r: Option<int>): Option<PyValue> {
    if r.Some? then Some(PyInt(r.value)) else None
  }

  /**
   * `_solve_arithmetic_problem`: the handler of the type, or the general
   * solver for an unknown type. Every answer is in range except the forward
   * product of a single number.
   */
  function SolveArithmeticProblem(ap: ArithmeticProblem): (r: Option<PyValue>)
    ensures ap.problemType !in ProblemTypes ==> r == GeneralAnswer(ap.numbers)
    ensures r.Some? && !(ap.problemType == "product" && !ap.isReverse && |ap.numbers| == 1) ==> InRange(r.value)
    ensures r.Some? ==> r.value.PyInt? || r.value.PyFloat?
    ensures ap.problemType == "mean" ==> r == Lift(HandleMean(ap))
    ensures ap.problemType == "sum" ==> r == Lift(HandleSum(ap))
    ensures ap.problemType == "product" ==> r == Lift(HandleProduct(ap))
    ensures ap.problemType == "ratio" ==> r == Lift(HandleRatio(ap))
    ensures ap.problemType == "remainder" ==> r == Lift(HandleRemainder(ap))
  {
    match ap.problemType
    case "mean" => Lift(HandleMean(ap))
    case "sum" => Lift(HandleSum(ap))
    case "product" => Lift(HandleProduct(ap))
    case "ratio" => Lift(HandleRatio(ap))
    case "remainder" => Lift(HandleRemainder(ap))
    case _ => GeneralAnswer(ap.numbers)
  }

  // ---------------------------------------------------------------------------
  // Heuristics and the solver

  /**
   * `_apply_arithmetic_heuristics`: 42 without numbers; then, by the first
   * keyword group present, the truncated mean or sum modulo 1000, the
   * folded product, or the ratio of the first two numbers in hundredths;
   * otherwise the largest number modulo 1000. `None` where the ratio
   * divides by zero.
   */
  function Heuristics(problem: MathProblem): (r: Option<PyValue>)
    ensures problem.numbers == [] ==> r == Some(PyInt(42))
    ensures var lower, xs := Lower(problem.cleanedText), problem.numbers;
      xs != [] && (Contains(lower, "mean") || Contains(lower, "average")) ==>
      r == Some(PyInt(Trunc(Mean(xs)) % 1000))
    ensures var lower, xs := Lower(problem.cleanedText), problem.numbers;
      xs != [] && !Contains(lower, "mean") && !Contains(lower, "average") &&
      (Contains(lower, "sum") || Contains(lower, "total")) ==>
      r == Some(PyInt(Trunc(RealSum(xs)) % 1000))
    ensures var lower, xs := Lower(problem.cleanedText), problem.numbers;
      xs != [] && !Contains(lower, "mean") && !Contains(lower, "average") &&
      !Contains(lower, "sum") && !Contains(lower, "total") &&
      (Contains(lower, "product") || Contains(lower, "multiply")) ==>
      r == Some(PyInt(Trunc(ProductFold(xs))))
    ensures var lower, xs := Lower(problem.cleanedText), problem.numbers;
      r.None? <==>
        (xs != [] && !Contains(lower, "mean") && !Contains(lower, "average") &&
         !Contains(lower, "sum") && !Contains(lower, "total") &&
         !Contains(lower, "product") && !Contains(lower, "multiply") &&
         (Contains(lower, "ratio") || Contains(lower, "proportion")) && |xs| >= 2 && xs[1] == 0.0)
    ensures var lower, xs := Lower(problem.cleanedText), problem.numbers;
      xs != [] && !Contains(lower, "mean") && !Contains(lower, "average") &&
      !Contains(lower, "sum") && !Contains(lower, "total") &&
      !Contains(lower, "product") && !Contains(lower, "multiply") &&
      (Contains(lower, "ratio") || Contains(lower, "proportion")) && |xs| >= 2 && xs[1] != 0.0 ==>
      r == Some(PyInt(Trunc((xs[0] / xs[1]) * 100.0) % 1000))
    ensures var lower, xs := Lower(problem.cleanedText), problem.numbers;
      xs != [] && !Contains(lower, "mean") && !Contains(lower, "average") &&
      !Contains(lower, "sum") && !Contains(lower, "total") &&
      !Contains(lower, "product") && !Contains(lower, "multiply") &&
      (!(Contains(lower, "ratio") || Contains(lower, "proportion")) || |xs| < 2) ==>
      r == Some(PyFloat(RealMod(RealMax(xs), 1000)))
  {
    var lower := Lower(problem.cleanedText);
    var xs := problem.numbers;
    if xs == [] then Some(PyInt(42))
    else if Contains(lower, "mean") || Contains(lower, "average") then Some(PyInt(Trunc(Mean(xs)) % 1000))
    else if Contains(lower, "sum") || Contains(lower, "total") then Some(PyInt(Trunc(RealSum(xs)) % 1000))
    else if Contains(lower, "product") || Contains(lower, "multiply") then Some(PyInt(Trunc(ProductFold(xs))))
    else if (Contains(lower, "ratio") || Contains(lower, "proportion")) && |xs| >= 2 then
      if xs[1] == 0.0 then None
      else Some(PyInt(Trunc((xs[0] / xs[1]) * 100.0) % 1000))
    else Some(PyFloat(RealMod(RealMax(xs), 1000)))
  }

  /**
   * The answer for a preprocessed problem: a handler's result made valid,
   * else the heuristics' value, else 42 where the heuristics raise.
   */
  function Answer(problem: MathProblem): (r: PyValue)
    ensures r.PyInt? || r.PyFloat?
    ensures var result := SolveArithmeticProblem(ParseArithmeticProblem(problem));
      result.Some? ==> r.PyInt? && 0 <= r.i < 1000 && r.i == EnsureValidAnswer(result.value)
    ensures var result := SolveArithmeticProblem(ParseArithmeticProblem(problem));
      result.None? ==> r == (if Heuristics(problem).Some? then Heuristics(problem).value else PyInt(42))
  {
    var result := SolveArithmeticProblem(ParseArithmeticProblem(problem));
    if result.Some? then PyInt(EnsureValidAnswer(result.value))
    else
      match Heuristics(problem)
      case Some(v) => v
      case None => PyInt(42)
  }

  /** A forward sum question over whole numbers is answered with the sum modulo 1000. */
  lemma ForwardSumAnswer(problem: MathProblem)
    requires var lower := Lower(problem.cleanedText);
      Contains(lower, "sum") && !Contains(lower, "mean") && !Contains(lower, "average") &&
      !Contains(lower, "what") && !Contains(lower, "find")
    requires problem.numbers != [] && AllIntegral(problem.numbers)
    ensures Answer(problem) == PyInt(Sum(Floors(problem.numbers)) % 1000)
  {
    var lower := Lower(problem.cleanedText);
    assert !ContainsAny(lower, TypeKeywords[0]) by {
      assert TypeKeywords[0] == ["mean", "average"];
    }
    assert Contains(lower, TypeKeywords[1][0]);
    assert ProblemTypeOf(lower) == "sum";
  }

  /**
   * Asked "find product" of 5000 the solver answers 5000: no target, so the
   * product handler gives up and the heuristics return the lone number unreduced.
   */
  lemma HeuristicProductUnreduced(problem: MathProblem)
    requires Lower(problem.cleanedText) == "find product" && !Contains(problem.cleanedText, "equals")
    requires problem.numbers == [5000.0]
    ensures Answer(problem) == PyInt(5000)
  {
    var lower := Lower(problem.cleanedText);
    FindProductWords(lower);
    assert ProblemTypeOf(lower) == "product";
    NoTargetWithoutEquals(problem.cleanedText);
    var ap := ParseArithmeticProblem(problem);
    assert ap == ArithmeticProblem("product", [5000.0], None, true);
    assert SolveArithmeticProblem(ap).None?;
    TruncOfInt(5000);
    assert Heuristics(problem) == Some(PyInt(5000));
  }

  /** A text without "equals" has no target. */
  lemma NoTargetWithoutEquals(text: string)
    ensures !Contains(text, "equals") ==> TargetValue(text).None?
  {
    if TargetValue(text).Some? {
      var p: nat, q: nat, w :| TargetAt(text, p, q, w);
      assert Contains(text, "equals");
    }
  }

  /** Which keywords "find product" contains. */
  lemma FindProductWords(lower: string)
    requires lower == "find product"
    ensures !Contains(lower, "mean") && !Contains(lower, "average") && !Contains(lower, "sum") &&
      !Contains(lower, "total") && !Contains(lower, "add") && Contains(lower, "find") && Contains(lower, "product")
    ensures !ContainsAny(lower, TypeKeywords[0]) && !ContainsAny(lower, TypeKeywords[1]) &&
      ContainsAny(lower, TypeKeywords[2])
  {
    MissingChar(lower, "mean", 1);
    MissingChar(lower, "average", 0);
    MissingChar(lower, "sum", 0);
    MissingChar(lower, "total", 3);
    MissingChar(lower, "add", 0);
    assert IsPrefixAt(lower, "find", 0);
    assert IsPrefixAt(lower, "product", 5);
    assert TypeKeywords[0] == ["mean", "average"];
    assert TypeKeywords[1] == ["sum", "total", "add"];
    assert Contains(lower, TypeKeywords[2][0]);
  }

  /** `solve`: 42 when preprocessing raises, otherwise the answer for the problem. */
  method Solve(question: Option<string>, extractNumbers: NumberExtractor) returns (answer: PyValue)
    ensures question.None? ==> answer == PyInt(42)
    ensures question.Some? && extractNumbers(CleanText(question.value)).None? ==> answer == PyInt(42)
    ensures question.Some? && extractNumbers(CleanText(question.value)).Some? ==>
      answer == Answer(MathProblem(question.value, CleanText(question.value), MathExpressions(CleanText(question.value)),
        extractNumbers(CleanText(question.value)).value, IdentifyProblemType(CleanText(question.value)),
        CommandTable(CommandPairs(CleanText(question.value), false))))
  {
    if question.None? {
      return PyInt(42);
    }
    var problem := Preprocess(question.value, extractNumbers);
    if problem.None? {
      return PyInt(42);
    }
    answer := Answer(problem.value);
  }
}
