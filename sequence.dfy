/**
 * The sequence solver: a problem is read as a Fibonacci, arithmetic,
 * geometric or recursively defined sequence whose known terms are the
 * integers in the text, and the requested term, the next term, or the sum or
 * product of the terms is answered modulo 1000.
 */
module Sequence {
  import opened Common
  import opened Arith
  import opened Text
  import opened Scan
  import opened BaseSolver
  import opened LatexParser

  /**
   * The parsed problem. Its `pattern` field is always `None` and its
   * `constraints` dictionary always empty, so both are left out.
   */
  datatype SequenceProblem = SequenceProblem(
    sequenceType: string,
    terms: seq<int>,
    targetIndex: Option<nat>,
    targetProperty: string)

  /** The pattern table, in the order it is searched. */
  const SequenceTypes: seq<string> := ["fibonacci", "arithmetic", "geometric", "recursive"]

  /** `\s*` */
  const Blank: Token := Run(SpaceChars, false)

  /**
   * The patterns of the table, written in lower case because they are
   * searched without regard to case. The multiplication sign of the geometric
   * pattern is the character class `[Ã—*]` (a mis-decoded `×`), which under
   * case folding also admits `ã`.
   */
  const SequencePatterns: seq<seq<seq<Token>>> := [
    [[Lit("fibonacci")],
     [Lit("f_n"), Blank, Lit("="), Blank, Lit("f_{n-1}"), Blank, Lit("+"), Blank, Lit("f_{n-2}")]],
    [[Lit("arithmetic")],
     [Lit("a_{n+1}"), Blank, Lit("="), Blank, Lit("a_n"), Blank, Fixed(Chars("+-"), 1), Blank, Lit("d")]],
    [[Lit("geometric")],
     [Lit("a_{n+1}"), Blank, Lit("="), Blank, Lit("a_n"), Blank, Fixed(Chars("\U{C3}\U{E3}\U{2014}*"), 1), Blank, Lit("r")]],
    [[Lit("a_{n+1}"), Blank, Lit("=")], [Lit("a_n"), Blank, Lit("=")]]]

  /** `a_(\d+)|F_(\d+)`, searched with case. */
  const IndexPattern: seq<seq<Token>> := [[Lit("a_"), Run(DigitChars, true)], [Lit("F_"), Run(DigitChars, true)]]

  // ---------------------------------------------------------------------------
  // Parsing

  /** The first type in the table whose pattern occurs in the text, else "unknown". */
  function SequenceTypeOf(text: string): (t: string)
    ensures t == "unknown" <==> forall j :: 0 <= j < |SequenceTypes| ==> !Found(Lower(text), SequencePatterns[j])
    ensures forall k :: 0 <= k < |SequenceTypes| ==>
      (t == SequenceTypes[k] <==>
        Found(Lower(text), SequencePatterns[k]) &&
        forall j :: 0 <= j < k ==> !Found(Lower(text), SequencePatterns[j]))
  {
    var i := FirstFound(Lower(text), SequencePatterns);
    assert |SequencePatterns| == |SequenceTypes|;
    DistinctTypes();
    if i < |SequenceTypes| then SequenceTypes[i] else "unknown"
  }

  lemma DistinctTypes()
    ensures forall k, j :: 0 <= k < j < |SequenceTypes| ==> SequenceTypes[k] != SequenceTypes[j]
    ensures "unknown" !in SequenceTypes
  {
  }

  /** The word "fibonacci" settles the type whatever else the text says. */
  lemma FibonacciWordWins(text: string)
    requires Contains(Lower(text), "fibonacci")
    ensures SequenceTypeOf(text) == "fibonacci"
  {
    var s := Lower(text);
    var p :| 0 <= p <= |s| - |"fibonacci"| && IsPrefixAt(s, "fibonacci", p);
    assert TokenFits(s, p, p + 9, SequencePatterns[0][0][0]);
    FoundAt(s, SequencePatterns[0], 0, p, [p, p + 9]);
  }

  /** A definition `a_n=` in the text always gives the problem a type from the table. */
  lemma DefinitionIsTyped(text: string)
    requires Contains(Lower(text), "a_n=")
    ensures SequenceTypeOf(text) != "unknown"
  {
    var s := Lower(text);
    var p :| 0 <= p <= |s| - |"a_n="| && IsPrefixAt(s, "a_n=", p);
    var pat := SequencePatterns[3][1];
    assert s[p..p + 3] == s[p..p + 4][..3] == "a_n";
    assert s[p + 3] == s[p..p + 4][3] == '=';
    assert TokenFits(s, p, p + 3, pat[0]);
    assert TokenFits(s, p + 3, p + 3, pat[1]);
    assert s[p + 3..p + 4] == "=";
    assert TokenFits(s, p + 3, p + 4, pat[2]);
    FoundAt(s, SequencePatterns[3], 1, p, [p, p + 3, p + 3, p + 4]);
  }

  /** The literal `lit` followed by the longest run of digits `w` sits at `p`. */
  predicate SubscriptAt(text: string, p: nat, lit: string, w: string) {
    w != [] && AllIn(w, DigitChars) && IsPrefixAt(text, lit, p) && IsPrefixAt(text, w, p + |lit|) &&
    (p + |lit| + |w| == |text| || !IsDigit(text[p + |lit| + |w|]))
  }

  /** `a_` or `F_` followed by the longest run of digits `w` sits at `p`. */
  predicate IndexAt(text: string, p: nat, w: string) {
    SubscriptAt(text, p, "a_", w) || SubscriptAt(text, p, "F_", w)
  }

  /** Alternatives of the form `<lit>(\d+)`. */
  predicate SubscriptPattern(alts: seq<seq<Token>>) {
    forall a :: 0 <= a < |alts| ==> |alts[a]| == 2 && alts[a][0].Lit? && alts[a][1] == Run(DigitChars, true)
  }

  /** The index named by the leftmost `a_<digits>` or `F_<digits>` of the text. */
  function TargetIndex(text: string): (r: Option<nat>)
    ensures r.Some? <==> Found(text, IndexPattern)
    ensures r.None? ==> forall p: nat, w :: !IndexAt(text, p, w)
    ensures r.Some? ==> exists p: nat, w :: (IndexAt(text, p, w) && r.value == DigitsValue(w) &&
      forall q: nat, v :: q < p ==> !IndexAt(text, q, v))
  {
    IndexPatternShape();
    IndexFacts(text, IndexPattern);
    SubscriptValue(text, IndexPattern)
  }

  /** The promises of `SubscriptValue` over a pattern shaped like the index pattern, in terms of `IndexAt`. */
  lemma IndexFacts(text: string, alts: seq<seq<Token>>)
    requires SubscriptPattern(alts) && |alts| == 2 && alts[0][0].text == "a_" && alts[1][0].text == "F_"
    ensures SubscriptValue(text, alts).None? ==> forall p: nat, w :: !IndexAt(text, p, w)
    ensures SubscriptValue(text, alts).Some? ==> exists p: nat, w :: (IndexAt(text, p, w) &&
      SubscriptValue(text, alts).value == DigitsValue(w) &&
      forall q: nat, v :: q < p ==> !IndexAt(text, q, v))
  {
    PairValue(text, alts, SubscriptValue(text, alts));
  }

  /** What `SubscriptValue` promises, over a pattern shaped like the index pattern. */
  lemma PairValue(text: string, alts: seq<seq<Token>>, r: Option<nat>)
    requires SubscriptPattern(alts) && |alts| == 2 && alts[0][0].text == "a_" && alts[1][0].text == "F_"
    requires r.None? ==> forall p: nat, a: nat, w :: a < |alts| ==> !SubscriptAt(text, p, alts[a][0].text, w)
    requires r.Some? ==> exists p: nat, a: nat, w :: (a < |alts| && SubscriptAt(text, p, alts[a][0].text, w) && r.value == DigitsValue(w) &&
      forall q: nat, b: nat, v :: q < p && b < |alts| ==> !SubscriptAt(text, q, alts[b][0].text, v))
    ensures r.None? ==> forall p: nat, w :: !IndexAt(text, p, w)
    ensures r.Some? ==> exists p: nat, w :: (IndexAt(text, p, w) && r.value == DigitsValue(w) &&
      forall q: nat, v :: q < p ==> !IndexAt(text, q, v))
  {
    if r.None? {
      forall p: nat, w
        ensures !IndexAt(text, p, w)
      {
        assert !SubscriptAt(text, p, alts[0][0].text, w);
        assert !SubscriptAt(text, p, alts[1][0].text, w);
      }
    } else {
      var p: nat, a: nat, w :| a < |alts| && SubscriptAt(text, p, alts[a][0].text, w) && r.value == DigitsValue(w) &&
        forall q: nat, b: nat, v :: q < p && b < |alts| ==> !SubscriptAt(text, q, alts[b][0].text, v);
      forall q: nat, v | q < p
        ensures !IndexAt(text, q, v)
      {
        assert !SubscriptAt(text, q, alts[0][0].text, v);
        assert !SubscriptAt(text, q, alts[1][0].text, v);
      }
      assert IndexAt(text, p, w);
    }
  }

  /** The two alternatives of the index pattern are `a_(\d+)` and `F_(\d+)`. */
  lemma IndexPatternShape()
    ensures SubscriptPattern(IndexPattern) && |IndexPattern| == 2
    ensures IndexPattern[0][0].text == "a_" && IndexPattern[1][0].text == "F_"
  {
  }

  /** `int(group)` of the digits matched by the first alternative that `re.search` finds. */
  function SubscriptValue(text: string, alts: seq<seq<Token>>): (r: Option<nat>)
    requires SubscriptPattern(alts)
    ensures r.Some? <==> Found(text, alts)
    ensures r.None? ==> forall p: nat, a: nat, w :: a < |alts| ==> !SubscriptAt(text, p, alts[a][0].text, w)
    ensures r.Some? ==> exists p: nat, a: nat, w :: (a < |alts| && SubscriptAt(text, p, alts[a][0].text, w) && r.value == DigitsValue(w) &&
      forall q: nat, b: nat, v :: q < p && b < |alts| ==> !SubscriptAt(text, q, alts[b][0].text, v))
  {
    match Search(text, alts, 0)
    case None =>
      forall p: nat, a: nat, w | a < |alts| && SubscriptAt(text, p, alts[a][0].text, w)
        ensures false
      {
        SubscriptMatches(text, alts, a, p, w);
        NoMatchAt(text, alts, 0, |text| + 1, p);
      }
      None
    case Some(m) =>
      assert m.alt < |alts|;
      SearchTokenFits(text, alts, m, 0);
      SearchTokenFits(text, alts, m, 1);
      SubscriptFits(text, alts[m.alt][0].text, m.bounds[0], m.bounds[1], m.bounds[2]);
      forall q: nat, b: nat, v | q < Start(m) && b < |alts|
        ensures !SubscriptAt(text, q, alts[b][0].text, v)
      {
        if SubscriptAt(text, q, alts[b][0].text, v) {
          SubscriptMatches(text, alts, b, q, v);
          NoMatchAt(text, alts, 0, Start(m), q);
        }
      }
      Some(DigitsValue(Group(text, m, 1)))
  }

  /** A subscript found by hand is a match of the pattern at that position. */
  lemma SubscriptMatches(text: string, alts: seq<seq<Token>>, a: nat, p: nat, w: string)
    requires SubscriptPattern(alts) && a < |alts| && SubscriptAt(text, p, alts[a][0].text, w)
    ensures p <= |text| && MatchAlts(text, p, alts).Some?
  {
    var lit := alts[a][0].text;
    var b := [p, p + |lit|, p + |lit| + |w|];
    assert text[b[0]..b[1]] == lit;
    assert text[b[1]..b[2]] == w;
    assert Parse(text, p, alts[a], b);
    MatchAtExact(text, p, alts[a], b);
  }

  /** A literal followed by the longest run of digits, matched at `b0..b1..b2`. */
  lemma SubscriptFits(text: string, lit: string, b0: nat, b1: nat, b2: nat)
    requires TokenFits(text, b0, b1, Lit(lit)) && TokenFits(text, b1, b2, Run(DigitChars, true))
    ensures SubscriptAt(text, b0, lit, text[b1..b2])
  {
    assert text[b0..b1] == lit;
  }

  /**
   * `_parse_sequence_problem`: the type from the pattern table, the integer
   * literals as the known terms, the index named in the text, and whether a
   * sum or a product is asked for.
   */
  function ParseSequenceProblem(problem: MathProblem): (sp: SequenceProblem)
    ensures sp.sequenceType == SequenceTypeOf(problem.cleanedText)
    ensures sp.terms == IntegerLiterals(problem.numbers)
    ensures sp.targetIndex == TargetIndex(problem.cleanedText)
    ensures sp.targetProperty in ["sum", "product", "term"]
    ensures sp.targetProperty == "sum" <==> Contains(Lower(problem.cleanedText), "sum")
    ensures sp.targetProperty == "product" <==>
      !Contains(Lower(problem.cleanedText), "sum") && Contains(Lower(problem.cleanedText), "product")
  {
    var lower := Lower(problem.cleanedText);
    var property := if Contains(lower, "sum") then "sum" else if Contains(lower, "product") then "product" else "term";
    SequenceProblem(SequenceTypeOf(problem.cleanedText), IntegerLiterals(problem.numbers),
      TargetIndex(problem.cleanedText), property)
  }

  // ---------------------------------------------------------------------------
  // Fibonacci sequences

  /** The value `_generate_fibonacci(n)` computes: `n` up to 1, else the `n`-th Fibonacci number modulo 1000. */
  function FibonacciTerm(n: int): (r: int)
    ensures n >= 0 ==> 0 <= r < 1000 && r == Fib(n) % 1000
    ensures n < 0 ==> r == n
  {
    if n <= 1 then n else Fib(n) % 1000
  }

  /** `_generate_fibonacci`: the recurrence run forward with both terms reduced modulo 1000. */
  method GenerateFibonacci(n: int) returns (r: int)
    ensures n <= 1 ==> r == n
    ensures n >= 0 ==> r == Fib(n) % 1000
  {
    if n <= 1 {
      return n;
    }
    var a, b := 0, 1;
    for i := 2 to n + 1
      invariant a == Fib(i - 2) % 1000 && b == Fib(i - 1) % 1000
    {
      AddMod(Fib(i - 2), Fib(i - 1), 1000);
      a, b := b, (a + b) % 1000;
    }
    r := b;
  }

  /** The reduced terms obey the Fibonacci recurrence modulo 1000. */
  lemma FibonacciTermRecurrence(n: int)
    requires n >= 2
    ensures FibonacciTerm(n) == (FibonacciTerm(n - 1) + FibonacciTerm(n - 2)) % 1000
  {
    AddMod(Fib(n - 1), Fib(n - 2), 1000);
  }

  /** The tenth term, the heuristics' answer for Fibonacci problems. */
  lemma FibonacciTermTen()
    ensures FibonacciTerm(10) == 55
  {
    assert Fib(2) == 1 && Fib(3) == 2 && Fib(4) == 3 && Fib(5) == 5 && Fib(6) == 8;
    assert Fib(7) == 13 && Fib(8) == 21 && Fib(9) == 34 && Fib(10) == 55;
  }

  /** Every term from the third on is the sum of the two before it, modulo 1000. */
  predicate FibonacciLike(terms: seq<int>) {
    forall i :: 2 <= i < |terms| ==> terms[i] == (terms[i - 1] + terms[i - 2]) % 1000
  }

  /**
   * `_handle_fibonacci`: the term at the requested index, else the next term
   * of a Fibonacci-like run of at least three terms.
   */
  function HandleFibonacci(sp: SequenceProblem): (r: Option<int>)
    ensures r.Some? ==> 0 <= r.value < 1000
    ensures sp.targetIndex.Some? ==> r == Some(Fib(sp.targetIndex.value) % 1000)
    ensures sp.targetIndex.None? ==> (r.Some? <==> |sp.terms| >= 3 && FibonacciLike(sp.terms))
    ensures sp.targetIndex.None? && r.Some? ==> FibonacciLike(sp.terms + [r.value])
  {
    var t := sp.terms;
    if sp.targetIndex.Some? then Some(FibonacciTerm(sp.targetIndex.value))
    else if |t| >= 3 && FibonacciLike(t) then
      var next := (t[|t| - 1] + t[|t| - 2]) % 1000;
      assert forall i :: 0 <= i < |t| ==> (t + [next])[i] == t[i];
      Some(next)
    else None
  }

  // ---------------------------------------------------------------------------
  // Arithmetic sequences

  /** `_generate_arithmetic`: the `n`-th term, counting from 1, of the progression. */
  function GenerateArithmetic(first: int, difference: int, n: int): (r: int)
    ensures n >= 1 ==> r == Progression(first, difference, n)
  {
    ProgressionClosedForm(first, difference, n);
    first + (n - 1) * difference
  }

  /** The progression term by term: `first`, then `difference` added once per step. */
  function Progression(first: int, difference: int, n: int): int
    decreases n
  {
    if n <= 1 then first else Progression(first, difference, n - 1) + difference
  }

  lemma {:induction false} ProgressionClosedForm(first: int, difference: int, n: int)
    ensures n >= 1 ==> Progression(first, difference, n) == first + (n - 1) * difference
    decreases n
  {
    if n > 1 {
      ProgressionClosedForm(first, difference, n - 1);
      assert (n - 2) * difference + difference == (n - 1) * difference;
    }
  }

  /** At least two terms, with every difference equal to the first one. */
  predicate ConstantDifference(terms: seq<int>) {
    |terms| >= 2 && forall i :: 1 <= i < |terms| ==> terms[i] - terms[i - 1] == terms[1] - terms[0]
  }

  /** The terms of a progression are the ones `_generate_arithmetic` generates. */
  lemma {:induction false} ArithmeticTerms(terms: seq<int>, j: nat)
    requires ConstantDifference(terms) && j < |terms|
    ensures terms[j] == GenerateArithmetic(terms[0], terms[1] - terms[0], j + 1)
  {
    if j > 0 {
      ArithmeticTerms(terms, j - 1);
    }
  }

  /** The last term plus the difference is the term after it. */
  lemma ArithmeticNext(terms: seq<int>)
    requires ConstantDifference(terms)
    ensures terms[|terms| - 1] + (terms[1] - terms[0]) ==
      GenerateArithmetic(terms[0], terms[1] - terms[0], |terms| + 1)
  {
    ArithmeticTerms(terms, |terms| - 1);
  }

  /**
   * `_handle_arithmetic`: for a progression, the term at the requested index,
   * else the term after the last one, modulo 1000.
   */
  function HandleArithmetic(sp: SequenceProblem): (r: Option<int>)
    ensures r.Some? <==> ConstantDifference(sp.terms)
    ensures r.Some? ==> 0 <= r.value < 1000
    ensures r.Some? && sp.targetIndex.Some? ==>
      r.value == GenerateArithmetic(sp.terms[0], sp.terms[1] - sp.terms[0], sp.targetIndex.value) % 1000
    ensures r.Some? && sp.targetIndex.Some? && 1 <= sp.targetIndex.value <= |sp.terms| ==>
      r.value == sp.terms[sp.targetIndex.value - 1] % 1000
    ensures r.Some? && sp.targetIndex.None? ==>
      r.value == GenerateArithmetic(sp.terms[0], sp.terms[1] - sp.terms[0], |sp.terms| + 1) % 1000
  {
    var t := sp.terms;
    if ConstantDifference(t) then
      var d := t[1] - t[0];
      if sp.targetIndex.Some? then
        var k := sp.targetIndex.value;
        if 1 <= k <= |t| then ArithmeticTerms(t, k - 1); Some(GenerateArithmetic(t[0], d, k) % 1000)
        else Some(GenerateArithmetic(t[0], d, k) % 1000)
      else
        ArithmeticNext(t);
        Some((t[|t| - 1] + d) % 1000)
    else None
  }

  // ---------------------------------------------------------------------------
  // Geometric sequences (over exact rationals)

  /** The ratio `num / den` of two consecutive terms; `den` is never zero. */
  datatype Ratio = Ratio(num: int, den: int)

  /** `[terms[i] / terms[i-1] for i in range(1, len(terms)) if terms[i-1] != 0]`. */
  function Ratios(terms: seq<int>): (rs: seq<Ratio>)
    ensures |rs| < |terms| || terms == []
    ensures forall i :: 0 <= i < |rs| ==> rs[i].den != 0
  {
    if |terms| < 2 then []
    else
      var n := |terms|;
      Ratios(terms[..n - 1]) + (if terms[n - 2] != 0 then [Ratio(terms[n - 1], terms[n - 2])] else [])
  }

  /** Two ratios are the same rational number. */
  predicate SameRatio(x: Ratio, y: Ratio) {
    x.num * y.den == y.num * x.den
  }

  /** Every ratio equals the first one (true of no ratios at all). */
  predicate ConstantRatio(rs: seq<Ratio>) {
    forall i :: 0 <= i < |rs| ==> SameRatio(rs[i], rs[0])
  }

  predicate NoZeroTerm(terms: seq<int>) {
    forall i :: 0 <= i < |terms| ==> terms[i] != 0
  }

  /** Each term is the one before it times `q`. */
  predicate Geometric(terms: seq<int>, q: Ratio) {
    forall i :: 1 <= i < |terms| ==> terms[i] * q.den == terms[i - 1] * q.num
  }

  /**
   * `int(_generate_geometric(first, q, n))`: `first * q ** (n - 1)` truncated;
   * for `n == 0` that is a division by the ratio, which raises for a zero ratio.
   */
  function GenerateGeometric(first: int, q: Ratio, n: nat): (r: Option<int>)
    requires q.den != 0
    ensures r.None? <==> n == 0 && q.num == 0
  {
    if n >= 1 then
      PowNonZero(q.den, n - 1);
      Some(TruncDiv(first * Pow(q.num, n - 1), Pow(q.den, n - 1)))
    else if q.num == 0 then None
    else Some(TruncDiv(first * q.den, q.num))
  }

  /** Without zero terms, there is one ratio per pair of consecutive terms. */
  lemma {:induction false} RatiosOfNonZero(terms: seq<int>)
    requires NoZeroTerm(terms) && |terms| >= 1
    ensures |Ratios(terms)| == |terms| - 1
    ensures forall i :: 1 <= i < |terms| ==> Ratios(terms)[i - 1] == Ratio(terms[i], terms[i - 1])
  {
    if |terms| >= 2 {
      RatiosOfNonZero(terms[..|terms| - 1]);
    }
  }

  /** In a sequence without zero terms whose ratios agree, the first ratio carries each term to the next. */
  lemma CommonRatio(terms: seq<int>)
    requires NoZeroTerm(terms) && |terms| >= 2 && ConstantRatio(Ratios(terms))
    ensures Geometric(terms, Ratios(terms)[0])
  {
    RatiosOfNonZero(terms);
    var rs := Ratios(terms);
    forall i | 1 <= i < |terms|
      ensures terms[i] * rs[0].den == terms[i - 1] * rs[0].num
    {
      assert SameRatio(rs[i - 1], rs[0]);
    }
  }

  /** Cross-multiplied, each term is the first one times a power of the ratio. */
  lemma {:induction false} GeometricTerms(terms: seq<int>, q: Ratio, j: nat)
    requires j < |terms| && Geometric(terms, q)
    ensures terms[j] * Pow(q.den, j) == terms[0] * Pow(q.num, j)
  {
    if j > 0 {
      GeometricTerms(terms, q, j - 1);
      var a, b := Pow(q.den, j - 1), Pow(q.num, j - 1);
      calc {
        terms[j] * Pow(q.den, j);
        (terms[j] * q.den) * a;
        (terms[j - 1] * q.num) * a;
        q.num * (terms[j - 1] * a);
        q.num * (terms[0] * b);
        terms[0] * Pow(q.num, j);
      }
    }
  }

  /** The `k`-th term generated from the first one and the ratio is the `k`-th known term. */
  lemma GeometricIndexed(terms: seq<int>, q: Ratio, k: nat)
    requires Geometric(terms, q) && q.den != 0 && 1 <= k <= |terms|
    ensures GenerateGeometric(terms[0], q, k) == Some(terms[k - 1])
  {
    GeometricTerms(terms, q, k - 1);
    PowNonZero(q.den, k - 1);
    TruncDivExact(terms[k - 1], Pow(q.den, k - 1));
  }

  /**
   * `_handle_geometric`: when all ratios agree, the term at the requested
   * index, else the last term times the ratio, truncated and taken modulo
   * 1000. With no ratio at all (every term but the last is zero) it gives up.
   */
  function HandleGeometric(sp: SequenceProblem): (r: Option<int>)
    ensures r.Some? ==> 0 <= r.value < 1000
    ensures r.Some? ==> |sp.terms| >= 2 && Ratios(sp.terms) != [] && ConstantRatio(Ratios(sp.terms))
    ensures |sp.terms| >= 2 && NoZeroTerm(sp.terms) && ConstantRatio(Ratios(sp.terms)) ==>
      (sp.targetIndex.Some? && 1 <= sp.targetIndex.value <= |sp.terms| ==>
        r == Some(sp.terms[sp.targetIndex.value - 1] % 1000))
    ensures |sp.terms| >= 2 && Ratios(sp.terms) != [] && ConstantRatio(Ratios(sp.terms)) && sp.targetIndex.None? ==>
      r.Some? && forall x :: Geometric(sp.terms + [x], Ratios(sp.terms)[0]) ==> r == Some(x % 1000)
    ensures |sp.terms| >= 2 && Ratios(sp.terms) != [] && ConstantRatio(Ratios(sp.terms)) && sp.targetIndex.None? ==>
      var q := Ratios(sp.terms)[0];
      r == Some(TruncDiv(sp.terms[|sp.terms| - 1] * q.num, q.den) % 1000)
    ensures |sp.terms| >= 2 && Ratios(sp.terms) != [] && ConstantRatio(Ratios(sp.terms)) && sp.targetIndex.Some? ==>
      var g := GenerateGeometric(sp.terms[0], Ratios(sp.terms)[0], sp.targetIndex.value);
      (r.Some? <==> g.Some?) && (g.Some? ==> r.value == g.value % 1000)
  {
    var t := sp.terms;
    var rs := Ratios(t);
    if |t| >= 2 && ConstantRatio(rs) && rs != [] then
      if NoZeroTerm(t) then CommonRatio(t); GeometricAnswer(sp, rs[0]) else GeometricAnswer(sp, rs[0])
    else None
  }

  /** The answer once the common ratio `q` is known. */
  function GeometricAnswer(sp: SequenceProblem, q: Ratio): (r: Option<int>)
    requires |sp.terms| >= 2 && q.den != 0
    ensures r.Some? ==> 0 <= r.value < 1000
    ensures Geometric(sp.terms, q) && sp.targetIndex.Some? && 1 <= sp.targetIndex.value <= |sp.terms| ==>
      r == Some(sp.terms[sp.targetIndex.value - 1] % 1000)
    ensures sp.targetIndex.None? ==> r.Some? && forall x :: Geometric(sp.terms + [x], q) ==> r == Some(x % 1000)
    ensures sp.targetIndex.None? ==> r == Some(TruncDiv(sp.terms[|sp.terms| - 1] * q.num, q.den) % 1000)
    ensures sp.targetIndex.Some? ==>
      var g := GenerateGeometric(sp.terms[0], q, sp.targetIndex.value);
      (r.Some? <==> g.Some?) && (g.Some? ==> r.value == g.value % 1000)
  {
    var t := sp.terms;
    match sp.targetIndex
    case Some(k) =>
      if Geometric(t, q) && 1 <= k <= |t| then GeometricIndexed(t, q, k); GeometricIndexAnswer(t, q, k)
      else GeometricIndexAnswer(t, q, k)
    case None =>
      var y := TruncDiv(t[|t| - 1] * q.num, q.den);
      NextGeometric(t, q);
      Some(y % 1000)
  }

  function GeometricIndexAnswer(t: seq<int>, q: Ratio, k: nat): (r: Option<int>)
    requires |t| >= 1 && q.den != 0
    ensures r.Some? ==> 0 <= r.value < 1000
    ensures r.Some? <==> GenerateGeometric(t[0], q, k).Some?
    ensures GenerateGeometric(t[0], q, k).Some? ==> r == Some(GenerateGeometric(t[0], q, k).value % 1000)
  {
    match GenerateGeometric(t[0], q, k)
    case None => None
    case Some(x) => Some(x % 1000)
  }

  /** The last term times the ratio, truncated, is any integer that continues the progression. */
  lemma NextGeometric(t: seq<int>, q: Ratio)
    requires |t| >= 1 && q.den != 0
    ensures forall x :: Geometric(t + [x], q) ==> TruncDiv(t[|t| - 1] * q.num, q.den) == x
  {
    forall x | Geometric(t + [x], q)
      ensures TruncDiv(t[|t| - 1] * q.num, q.den) == x
    {
      var u := t + [x];
      assert u[|t|] * q.den == u[|t| - 1] * q.num;
      TruncDivExact(x, q.den);
    }
  }

  // ---------------------------------------------------------------------------
  // Recursive and general sequences

  /**
   * `_handle_recursive`: with at least three terms, the arithmetic, then the
   * geometric, then the Fibonacci-like handler, whichever shape fits first.
   */
  function HandleRecursive(sp: SequenceProblem): (r: Option<int>)
    ensures r.Some? ==> 0 <= r.value < 1000
    ensures r.Some? ==> |sp.terms| >= 3
    ensures |sp.terms| >= 3 && ConstantDifference(sp.terms) ==> r == HandleArithmetic(sp) && r.Some?
    ensures |sp.terms| >= 3 && !ConstantDifference(sp.terms) && ConstantRatio(Ratios(sp.terms)) ==>
      r == HandleGeometric(sp)
    ensures |sp.terms| >= 3 && !ConstantDifference(sp.terms) && !ConstantRatio(Ratios(sp.terms)) ==>
      r == (if FibonacciLike(sp.terms) then HandleFibonacci(sp) else None)
    ensures r.Some? ==>
      ConstantDifference(sp.terms) || ConstantRatio(Ratios(sp.terms)) || FibonacciLike(sp.terms)
  {
    var t := sp.terms;
    if |t| >= 3 then
      if ConstantDifference(t) then HandleArithmetic(sp)
      else if ConstantRatio(Ratios(t)) then HandleGeometric(sp)
      else if FibonacciLike(t) then HandleFibonacci(sp)
      else None
    else None
  }

  /** `_solve_general_sequence`: the sum, the product, or the next term by the last difference. */
  function SolveGeneralSequence(sp: SequenceProblem): (r: Option<int>)
    ensures r.Some? ==> 0 <= r.value < 1000
    ensures r.None? <==> sp.terms == [] || (sp.targetProperty != "sum" && sp.targetProperty != "product" && |sp.terms| < 2)
    ensures r.Some? && sp.targetProperty == "sum" ==> r.value == Sum(sp.terms) % 1000
    ensures r.Some? && sp.targetProperty == "product" ==> r.value == Product(sp.terms) % 1000
    ensures r.Some? && sp.targetProperty != "sum" && sp.targetProperty != "product" ==>
      var n := |sp.terms|;
      r.value == GenerateArithmetic(sp.terms[n - 2], sp.terms[n - 1] - sp.terms[n - 2], 3) % 1000
  {
    var t := sp.terms;
    if t == [] then None
    else if sp.targetProperty == "sum" then Some(Sum(t) % 1000)
    else if sp.targetProperty == "product" then Some(Product(t) % 1000)
    else if |t| >= 2 then Some((t[|t| - 1] + (t[|t| - 1] - t[|t| - 2])) % 1000)
    else None
  }

  /** The product loop of `_solve_general_sequence`: a running product reduced modulo 1000. */
  method RunningProduct(terms: seq<int>) returns (product: int)
    ensures product == Product(terms) % 1000
  {
    product := 1;
    for i := 0 to |terms|
      invariant product == Product(terms[..i]) % 1000
    {
      MulMod(Product(terms[..i]), terms[i], 1000);
      assert terms[..i + 1][..i] == terms[..i];
      product := (product * terms[i]) % 1000;
    }
    assert terms[..|terms|] == terms;
  }

  /** `_solve_sequence_problem`: the handler of the type, or the general solver for an unknown type. */
  function SolveSequenceProblem(sp: SequenceProblem): (r: Option<int>)
    ensures r.Some? ==> 0 <= r.value < 1000
    ensures sp.sequenceType !in SequenceTypes ==> r == SolveGeneralSequence(sp)
    ensures sp.sequenceType == "fibonacci" ==> r == HandleFibonacci(sp)
    ensures sp.sequenceType == "arithmetic" ==> r == HandleArithmetic(sp)
    ensures sp.sequenceType == "geometric" ==> r == HandleGeometric(sp)
    ensures sp.sequenceType == "recursive" ==> r == HandleRecursive(sp)
  {
    match sp.sequenceType
    case "fibonacci" => HandleFibonacci(sp)
    case "arithmetic" => HandleArithmetic(sp)
    case "geometric" => HandleGeometric(sp)
    case "recursive" => HandleRecursive(sp)
    case _ => SolveGeneralSequence(sp)
  }

  // ---------------------------------------------------------------------------
  // Heuristics and the solver

  /** The words the heuristics look for, in order. */
  const HeuristicWords: seq<string> := ["fibonacci", "arithmetic", "geometric"]

  /**
   * `_apply_sequence_heuristics`: 42 without integers; 55 (the tenth
   * Fibonacci number) when the text says "fibonacci"; the next term by the
   * first difference when it says "arithmetic"; the last number times the
   * first ratio when it says "geometric"; else the largest integer modulo 1000.
   */
  function Heuristics(problem: MathProblem): (r: int)
    ensures 0 <= r < 1000
    ensures IntegerLiterals(problem.numbers) == [] ==> r == 42
    ensures IntegerLiterals(problem.numbers) != [] && Contains(Lower(problem.cleanedText), HeuristicWords[0]) ==> r == 55
    ensures var ns := IntegerLiterals(problem.numbers);
      var lower := Lower(problem.cleanedText);
      (ns != [] && !Contains(lower, HeuristicWords[0]) && !(|ns| >= 2 && Contains(lower, HeuristicWords[1])) &&
       !(|ns| >= 2 && ns[0] != 0 && Contains(lower, HeuristicWords[2]))) ==>
      r == Max(ns) % 1000
    ensures var ns := IntegerLiterals(problem.numbers);
      |ns| >= 2 && !Contains(Lower(problem.cleanedText), HeuristicWords[0]) &&
      Contains(Lower(problem.cleanedText), HeuristicWords[1]) ==>
      r == (ns[|ns| - 1] + (ns[1] - ns[0])) % 1000
    ensures var ns := IntegerLiterals(problem.numbers);
      var lower := Lower(problem.cleanedText);
      |ns| >= 2 && ns[0] != 0 && !Contains(lower, HeuristicWords[0]) && !Contains(lower, HeuristicWords[1]) &&
      Contains(lower, HeuristicWords[2]) ==>
      r == TruncDiv(ns[|ns| - 1] * ns[1], ns[0]) % 1000
  {
    var lower := Lower(problem.cleanedText);
    var ns := IntegerLiterals(problem.numbers);
    if ns == [] then 42
    else if Contains(lower, HeuristicWords[0]) then FibonacciTermTen(); FibonacciTerm(10)
    else if Contains(lower, HeuristicWords[1]) && |ns| >= 2 then (ns[|ns| - 1] + (ns[1] - ns[0])) % 1000
    else if Contains(lower, HeuristicWords[2]) && |ns| >= 2 && ns[0] != 0 then TruncDiv(ns[|ns| - 1] * ns[1], ns[0]) % 1000
    else Max(ns) % 1000
  }

  /** The answer for a preprocessed problem: a handler's result made valid, else the heuristics. */
  function Answer(problem: MathProblem): (r: int)
    ensures 0 <= r < 1000
    ensures SolveSequenceProblem(ParseSequenceProblem(problem)).Some? ==>
      r == SolveSequenceProblem(ParseSequenceProblem(problem)).value
    ensures SolveSequenceProblem(ParseSequenceProblem(problem)).None? ==> r == Heuristics(problem)
  {
    var result := SolveSequenceProblem(ParseSequenceProblem(problem));
    if result.Some? then EnsureValidAnswer(PyInt(result.value))
    else Heuristics(problem)
  }

  /** `solve`: 42 when preprocessing raises, otherwise the answer for the problem. */
  method Solve(question: Option<string>, extractNumbers: NumberExtractor) returns (answer: int)
    ensures 0 <= answer < 1000
    ensures question.None? ==> answer == 42
    ensures question.Some? && extractNumbers(CleanText(question.value)).None? ==> answer == 42
    ensures question.Some? && extractNumbers(CleanText(question.value)).Some? ==>
      answer == Answer(MathProblem(question.value, CleanText(question.value), MathExpressions(CleanText(question.value)),
        extractNumbers(CleanText(question.value)).value, IdentifyProblemType(CleanText(question.value)),
        CommandTable(CommandPairs(CleanText(question.value), false))))
  {
    if question.None? {
      return 42;
    }
    var problem := Preprocess(question.value, extractNumbers);
    if problem.None? {
      return 42;
    }
    answer := Answer(problem.value);
  }
}
