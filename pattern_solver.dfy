/**
 * The pattern-based solver: a table of case-insensitive patterns, each with a
 * handler and a priority. Every match found in the cleaned text is scored,
 * the matches are tried in descending (priority, confidence) order, and the
 * first handler that produces a value gives the answer.
 */
module PatternSolver {
  import opened Common
  import opened Arith
  import opened Text
  import opened Scan
  import opened MathHelpers
  import opened BaseSolver
  import opened LatexParser
  import Arithmetic
  import Sequence

  // ---------------------------------------------------------------------------
  // The pattern table

  /** The pattern types, in the order the table lists (and `finditer` visits) them. */
  const PatternTypes: seq<string> := ["modulo", "factorial", "sequence", "divisibility", "geometry"]

  /** The priority of each pattern type. */
  const Priorities: seq<nat> := [1, 2, 2, 1, 3]

  /** An index into the pattern table. */
  type PatternKind = k: nat | k < 5

  /** `modulo\s+(\d+)|mod\s+(\d+)`, matched against the lower-cased text. */
  const ModuloPattern: seq<seq<Token>> := [
    [Lit("modulo"), Run(SpaceChars, true), Run(DigitChars, true)],
    [Lit("mod"), Run(SpaceChars, true), Run(DigitChars, true)]]

  /** `(\d+)!`. */
  const FactorialPattern: seq<seq<Token>> := [[Run(DigitChars, true), Lit("!")]]

  /** `(a_n|F_n|n\s*th\s*term)`, lower-cased. */
  const SequencePattern: seq<seq<Token>> := [
    [Lit("a_n")],
    [Lit("f_n")],
    [Lit("n"), Run(SpaceChars, false), Lit("th"), Run(SpaceChars, false), Lit("term")]]

  const Patterns: seq<seq<seq<Token>>> := [
    ModuloPattern,
    FactorialPattern,
    SequencePattern,
    Keywords(["divisible", "multiple", "factor"]),
    Keywords(["triangle", "circle", "angle", "perpendicular"])]

  /** The words that raise the confidence of a match, per problem type. */
  const TypeIndicators: map<string, seq<string>> := map[
    "number_theory" := ["prime", "factor", "divisible", "modulo", "remainder", "coprime", "gcd", "lcm"],
    "geometry" := ["triangle", "circle", "angle", "perpendicular", "parallel", "distance", "area", "volume"],
    "algebra" := ["equation", "solve", "polynomial", "expression", "simplify", "evaluate"],
    "combinatorics" := ["ways", "arrange", "permutation", "combination", "choose", "possible"],
    "sequence" := ["sequence", "series", "fibonacci", "arithmetic", "geometric", "term", "recursive"]]

  /** `type_indicators.get(pattern_type, [])`. */
  function Indicators(patternType: string): seq<string> {
    if patternType in TypeIndicators then TypeIndicators[patternType] else []
  }

  // ---------------------------------------------------------------------------
  // Matches

  /** A value taken from a capture group: a number when `float()` accepts the group, else its text. */
  datatype Extracted = Number(x: real) | Word(w: string)

  /** `PatternMatch`; the confidence is kept in tenths (5 to 10 for 0.5 to 1.0). */
  datatype PatternMatch = PatternMatch(kind: PatternKind, matched: string, tenths: nat, values: seq<Extracted>)

  /** The match was reported by the pattern of its kind, so its bounds fit that pattern. */
  predicate MatchOf(kind: PatternKind, n: nat, m: Match) {
    WellFormed(n, m) && m.alt < |Patterns[kind]| && |m.bounds| == |Patterns[kind][m.alt]| + 1
  }

  /** `match.groups()`: one entry per capture group, `None` for a group outside the alternative that matched. */
  function Groups(kind: PatternKind, s: string, m: Match): seq<Option<string>>
    requires MatchOf(kind, |s|, m)
  {
    if kind == 0 then
      assert |m.bounds| == 4;
      if m.alt == 0 then [Some(Group(s, m, 2)), None] else [None, Some(Group(s, m, 2))]
    else if kind == 1 then
      assert |m.bounds| == 3;
      [Some(Group(s, m, 0))]
    else if kind == 2 then [Some(Matched(s, m))]
    else []
  }

  /**
   * `float(group)` for the groups these patterns capture: a digit run is a
   * number, and the sequence markers (`a_n`, `F_n`, `n th term`) stay text.
   */
  function ExtractValue(g: string): Extracted {
    if g != [] && AllIn(g, DigitChars) then Number(DigitsValue(g) as real) else Word(g)
  }

  /** The number of groups that took part in the match. */
  function PresentCount(groups: seq<Option<string>>): nat
    decreases |groups|
  {
    if groups == [] then 0 else (if groups[0].Some? then 1 else 0) + PresentCount(groups[1..])
  }

  /**
   * `_extract_pattern_values`: one value per group that took part, in group
   * order; the `i`-th group lands after the values of the groups before it.
   */
  function ExtractValues(groups: seq<Option<string>>): (vs: seq<Extracted>)
    ensures |vs| == PresentCount(groups)
    ensures forall i :: 0 <= i < |groups| && groups[i].Some? ==>
      PresentCount(groups[..i]) < |vs| && vs[PresentCount(groups[..i])] == ExtractValue(groups[i].value)
    decreases |groups|
  {
    if groups == [] then []
    else
      var head := if groups[0].Some? then [ExtractValue(groups[0].value)] else [];
      var rest := ExtractValues(groups[1..]);
      forall i | 1 <= i < |groups|
        ensures PresentCount(groups[..i]) == |head| + PresentCount(groups[1..][..i - 1])
      {
        assert groups[..i][1..] == groups[1..][..i - 1];
      }
      assert PresentCount(groups[..0]) == 0;
      head + rest
  }

  /** `any(match in expr for expr in problem.expressions)`. */
  predicate InSomeExpression(text: string, expressions: seq<string>) {
    exists e :: e in expressions && Contains(e, text)
  }

  /**
   * `_calculate_pattern_confidence`, in tenths: 5, plus 2 when an indicator
   * word of the pattern type is in the text, plus 2 when the matched text
   * lies inside an extracted expression, plus 1 when the problem has the
   * pattern's type; the cap at 10 never binds.
   */
  function Confidence(kind: PatternKind, text: string, problem: MathProblem): (tenths: nat)
    ensures 5 <= tenths <= 10
    ensures tenths >= 7 <==>
      (ContainsAny(Lower(problem.cleanedText), Indicators(PatternTypes[kind])) || InSomeExpression(text, problem.expressions))
    ensures tenths >= 9 <==>
      (ContainsAny(Lower(problem.cleanedText), Indicators(PatternTypes[kind])) && InSomeExpression(text, problem.expressions))
    ensures tenths % 2 == 0 <==> problem.problemType == PatternTypes[kind]
  {
    var base := 5;
    var context := base + if ContainsAny(Lower(problem.cleanedText), Indicators(PatternTypes[kind])) then 2 else 0;
    var expression := context + if InSomeExpression(text, problem.expressions) then 2 else 0;
    var typed := expression + if problem.problemType == PatternTypes[kind] then 1 else 0;
    Min(typed, 10)
  }

  /**
   * The modulo, factorial and divisibility patterns have no indicator words
   * and are never a problem category, so their matches score 0.5 or 0.7.
   */
  lemma UnindicatedConfidence(kind: PatternKind, text: string, problem: MathProblem)
    requires kind == 0 || kind == 1 || kind == 3
    requires problem.problemType == IdentifyProblemType(problem.cleanedText)
    ensures Confidence(kind, text, problem) == 5 || Confidence(kind, text, problem) == 7
  {
    var t := PatternTypes[kind];
    assert t !in TypeIndicators;
    assert Indicators(t) == [];
    assert !ContainsAny(Lower(problem.cleanedText), []);
    assert problem.problemType != t by {
      var i := FirstPresent(Lower(problem.cleanedText), CategoryKeywords);
      assert problem.problemType == if i < |ProblemCategories| then ProblemCategories[i] else "unknown";
    }
  }

  /** One entry of the list `_find_patterns` builds. */
  function MakeMatch(problem: MathProblem, kind: PatternKind, m: Match): PatternMatch
    requires MatchOf(kind, |problem.cleanedText|, m)
  {
    var text := Matched(problem.cleanedText, m);
    PatternMatch(kind, text, Confidence(kind, text, problem), ExtractValues(Groups(kind, problem.cleanedText, m)))
  }

  /** The matches `finditer` reports for one pattern, with `IGNORECASE` read as matching the lower-cased text. */
  function Occurrences(problem: MathProblem, kind: PatternKind): (ms: seq<Match>)
    ensures forall k :: 0 <= k < |ms| ==> MatchOf(kind, |problem.cleanedText|, ms[k])
  {
    var ms := FindAll(Lower(problem.cleanedText), Patterns[kind], 0);
    assert forall k :: 0 <= k < |ms| ==> MatchAlts(Lower(problem.cleanedText), Start(ms[k]), Patterns[kind]) == Some(ms[k]);
    ms
  }

  /** One entry per reported match of one pattern, in the order reported. */
  function MakeMatches(problem: MathProblem, kind: PatternKind, ms: seq<Match>): (r: seq<PatternMatch>)
    requires forall k :: 0 <= k < |ms| ==> MatchOf(kind, |problem.cleanedText|, ms[k])
    ensures |r| == |ms|
    ensures forall k :: 0 <= k < |r| ==> r[k] == MakeMatch(problem, kind, ms[k])
    ensures forall k :: 0 <= k < |r| ==> r[k].kind == kind && 5 <= r[k].tenths <= 10
  {
    if ms == [] then []
    else MakeMatches(problem, kind, ms[..|ms| - 1]) + [MakeMatch(problem, kind, ms[|ms| - 1])]
  }

  /** The matches of one pattern, in text order. */
  function MatchesOfKind(problem: MathProblem, kind: PatternKind): (r: seq<PatternMatch>)
    ensures forall k :: 0 <= k < |r| ==> r[k].kind == kind && 5 <= r[k].tenths <= 10
  {
    MakeMatches(problem, kind, Occurrences(problem, kind))
  }

  /** The matches of the first `n` patterns of the table, pattern by pattern. */
  function MatchesBefore(problem: MathProblem, n: nat): (r: seq<PatternMatch>)
    requires n <= 5
    ensures forall k :: 0 <= k < |r| ==> r[k].kind < n && 5 <= r[k].tenths <= 10
  {
    if n == 0 then []
    else
      MatchesBefore(problem, n - 1) + MatchesOfKind(problem, n - 1)
  }

  /** Every match `_find_patterns` reports. */
  function AllMatches(problem: MathProblem): (r: seq<PatternMatch>)
    ensures forall k :: 0 <= k < |r| ==> 5 <= r[k].tenths <= 10
  {
    MatchesBefore(problem, 5)
  }

  /** Pattern kinds never decrease along the list. */
  predicate KindOrdered(r: seq<PatternMatch>) {
    forall i, j :: 0 <= i < j < |r| ==> r[i].kind <= r[j].kind
  }

  lemma ConcatOrdered(front: seq<PatternMatch>, last: seq<PatternMatch>, n: nat)
    requires KindOrdered(front)
    requires forall k :: 0 <= k < |front| ==> front[k].kind < n
    requires forall k :: 0 <= k < |last| ==> last[k].kind == n
    ensures KindOrdered(front + last)
  {
    var r := front + last;
    forall i, j | 0 <= i < j < |r| ensures r[i].kind <= r[j].kind {
      if j >= |front| {
        assert r[j] == last[j - |front|];
        if i >= |front| {
          assert r[i] == last[i - |front|];
        } else {
          assert r[i] == front[i];
        }
      } else {
        assert r[i] == front[i] && r[j] == front[j];
      }
    }
  }

  /** The matches come in discovery order: by position in the pattern table (and within one pattern, in text order). */
  lemma {:induction false} DiscoveryOrder(problem: MathProblem, n: nat)
    requires n <= 5
    ensures KindOrdered(MatchesBefore(problem, n))
  {
    if n > 0 {
      DiscoveryOrder(problem, n - 1);
      ConcatOrdered(MatchesBefore(problem, n - 1), MatchesOfKind(problem, n - 1), n - 1);
    }
  }

  /** The inner loop of `_find_patterns`: one entry per match of one pattern, in text order. */
  method PatternEntries(problem: MathProblem, kind: PatternKind) returns (entries: seq<PatternMatch>)
    ensures entries == MatchesOfKind(problem, kind)
  {
    var found := Occurrences(problem, kind);
    entries := [];
    for k := 0 to |found|
      invariant entries == MakeMatches(problem, kind, found[..k])
    {
      MakeMatchesStep(problem, kind, found, k);
      entries := entries + [MakeMatch(problem, kind, found[k])];
    }
    assert found[..|found|] == found;
  }

  lemma MakeMatchesStep(problem: MathProblem, kind: PatternKind, ms: seq<Match>, k: nat)
    requires k < |ms| && forall j :: 0 <= j < |ms| ==> MatchOf(kind, |problem.cleanedText|, ms[j])
    ensures MakeMatches(problem, kind, ms[..k + 1]) == MakeMatches(problem, kind, ms[..k]) + [MakeMatch(problem, kind, ms[k])]
  {
    assert ms[..k + 1][..k] == ms[..k] && ms[..k + 1][k] == ms[k];
  }

  /** `_find_patterns`: appends, pattern by pattern, an entry per match. */
  method FindPatterns(problem: MathProblem) returns (matches: seq<PatternMatch>)
    ensures matches == AllMatches(problem)
  {
    matches := [];
    for kind := 0 to 5
      invariant matches == MatchesBefore(problem, kind)
    {
      var entries := PatternEntries(problem, kind);
      matches := matches + entries;
    }
  }

  /** Groups holding one string between them give exactly one value. */
  lemma SingleGroup(groups: seq<Option<string>>, w: string)
    requires groups == [Some(w)] || groups == [Some(w), None] || groups == [None, Some(w)]
    ensures ExtractValues(groups) == [ExtractValue(w)]
  {
    if groups == [Some(w)] {
      assert groups[1..] == [];
    } else if groups == [Some(w), None] {
      assert groups[1..] == [None] && groups[1..][1..] == [];
    } else {
      assert groups[1..] == [Some(w)] && groups[1..][1..] == [];
    }
  }

  /**
   * The modulo and factorial patterns capture a non-empty run of digits, so
   * their matches carry exactly one value, a whole number.
   */
  lemma CapturedNumber(problem: MathProblem, kind: PatternKind, k: nat)
    requires kind == 0 || kind == 1
    requires k < |Occurrences(problem, kind)|
    ensures var vs := ExtractValues(Groups(kind, problem.cleanedText, Occurrences(problem, kind)[k]));
      |vs| == 1 && vs[0].Number? && vs[0].x >= 0.0 && vs[0].x == vs[0].x.Floor as real
  {
    var s := problem.cleanedText;
    var m := Occurrences(problem, kind)[k];
    var g := if kind == 0 then 2 else 0;
    DigitGroupPosition(kind);
    CapturedDigitRun(s, Patterns[kind], g, k);
    var w := Group(s, m, g);
    SingleGroup(Groups(kind, s, m), w);
    WholeNumber(w);
  }

  /** Where the modulo and factorial patterns put their digit run. */
  lemma DigitGroupPosition(kind: PatternKind)
    requires kind == 0 || kind == 1
    ensures var g := if kind == 0 then 2 else 0;
      forall a :: 0 <= a < |Patterns[kind]| ==>
        g < |Patterns[kind][a]| && Patterns[kind][a][g] == Run(DigitChars, true)
  {
    assert Patterns[0] == ModuloPattern && Patterns[1] == FactorialPattern;
  }

  lemma WholeNumber(w: string)
    requires w != [] && AllIn(w, DigitChars)
    ensures var v := ExtractValue(w); v.Number? && v.x >= 0.0 && v.x == v.x.Floor as real
  {
  }

  /**
   * A factorial match never falls through: it carries one whole number `n`
   * and its handler gives `n!` modulo 1000.
   */
  lemma FactorialMatchesSucceed(problem: MathProblem, k: nat)
    requires k < |MatchesOfKind(problem, 1)|
    ensures var m := MatchesOfKind(problem, 1)[k];
      |m.values| == 1 && m.values[0].Number? && Trunc(m.values[0].x) >= 0 &&
      Handle(problem, m) == Some(Factorial(Trunc(m.values[0].x)) % 1000)
  {
    var m := MatchesOfKind(problem, 1)[k];
    assert m == MakeMatch(problem, 1, Occurrences(problem, 1)[k]);
    CapturedNumber(problem, 1, k);
    assert m.kind == 1 && m.values[0].x >= 0.0;
    assert Handle(problem, m) == HandleFactorial(m.values);
  }

  // ---------------------------------------------------------------------------
  // Handlers

  lemma PyModCongruent(a: int, d: int)
    requires d != 0
    ensures Congruent(PyMod(a, d), a, d)
  {
    assert PyMod(a, d) - a == d * -PyDiv(a, d);
  }

  /**
   * `_handle_modulo`: the last number modulo the captured modulus; `None`
   * without numbers, without a numeric modulus, or for a zero modulus.
   */
  function HandleModulo(numbers: seq<real>, values: seq<Extracted>): (r: Option<int>)
    ensures r.Some? <==> values != [] && values[0].Number? && Trunc(values[0].x) != 0 && numbers != []
    ensures r.Some? ==> Congruent(r.value, Trunc(numbers[|numbers| - 1]), Trunc(values[0].x))
    ensures r.Some? && Trunc(values[0].x) > 0 ==> 0 <= r.value < Trunc(values[0].x)
  {
    if values == [] || numbers == [] then None
    else
      match values[0]
      case Word(_) => None
      case Number(x) =>
        var d := Trunc(x);
        if d == 0 then None
        else
          PyModCongruent(Trunc(numbers[|numbers| - 1]), d);
          Some(PyMod(Trunc(numbers[|numbers| - 1]), d))
  }

  /** Two different factors up to `n` divide `n!` together. */
  lemma {:induction false} DistinctFactors(n: nat, a: nat, b: nat)
    requires 1 <= a < b <= n
    ensures Divides(a * b, Factorial(n))
    decreases n
  {
    assert Factorial(n) == Factorial(n - 1) * n;
    if b == n {
      FactorialDivisible(n - 1, a);
      var k :| Factorial(n - 1) == a * k;
      Regroup(a, k, b);
    } else {
      DistinctFactors(n - 1, a, b);
      DividesMultiple(a * b, Factorial(n - 1), n);
    }
  }

  lemma Regroup(a: int, k: int, b: int)
    ensures (a * k) * b == (a * b) * k
  {
  }

  /** From 100 on, `n!` ends in three zeros. */
  lemma FactorialEndsInZeros(n: nat)
    requires n >= 100
    ensures Factorial(n) % 1000 == 0
  {
    DistinctFactors(n, 10, 100);
    ModZeroIffDivides(Factorial(n), 1000);
  }

  /**
   * `_factorial_mod_1000`: multiplies `1 … min(n, 999)`, reducing after each
   * factor; stopping at 999 loses nothing, since 1000 divides `999!`.
   */
  method FactorialMod1000(n: int) returns (r: int)
    ensures n >= 0 ==> r == Factorial(Min(n, 999)) % 1000
    ensures n >= 0 ==> r == Factorial(n) % 1000
    ensures n < 0 ==> r == 1
  {
    r := 1;
    var stop := Min(n + 1, 1000);
    if stop >= 1 {
      for i := 1 to stop
        invariant r == Factorial(i - 1) % 1000
      {
        MulMod(Factorial(i - 1), i, 1000);
        assert Factorial(i) == Factorial(i - 1) * i;
        r := (r * i) % 1000;
      }
    }
    if n >= 999 {
      FactorialEndsInZeros(999);
      FactorialEndsInZeros(n);
    }
  }

  /**
   * `_handle_factorial`: `n!` modulo 1000 for the captured `n`, computed
   * directly up to 20 and by `_factorial_mod_1000` beyond; `None` when there
   * is no numeric value or `math.factorial` rejects a negative `n`.
   */
  function HandleFactorial(values: seq<Extracted>): (r: Option<int>)
    ensures r.Some? <==> values != [] && values[0].Number? && Trunc(values[0].x) >= 0
    ensures r.Some? ==> r.value == Factorial(Trunc(values[0].x)) % 1000
  {
    if values == [] then None
    else
      match values[0]
      case Word(_) => None
      case Number(x) =>
        var n := Trunc(x);
        if n > 20 then
          // the value `_factorial_mod_1000` computes
          if n >= 999 then FactorialEndsInZeros(999); FactorialEndsInZeros(n); Some(Factorial(Min(n, 999)) % 1000)
          else Some(Factorial(Min(n, 999)) % 1000)
        else if n < 0 then None
        else Some(Factorial(n) % 1000)
  }

  /** The factorials the solver's own examples name: `5!`, `3!` and `7!`. */
  lemma FactorialExamples()
    ensures HandleFactorial([Number(5.0)]) == Some(120)
    ensures HandleFactorial([Number(3.0)]) == Some(6)
    ensures HandleFactorial([Number(7.0)]) == Some(40)
  {
    assert Factorial(3) == 6;
    assert Factorial(5) == 120;
    assert Factorial(7) == 5040;
  }

  /** `[n for n in problem.numbers if n <= 100]`. */
  function AtMost100(xs: seq<real>): (r: seq<real>)
    ensures forall x :: x in r <==> x in xs && x <= 100.0
  {
    if xs == [] then []
    else (if xs[0] <= 100.0 then [xs[0]] else []) + AtMost100(xs[1..])
  }

  /**
   * `_handle_fibonacci`: the Fibonacci number (modulo 1000) at the smallest
   * listed number that is at most 100; `None` when there is none.
   */
  function HandleFibonacci(numbers: seq<real>): (r: Option<int>)
    ensures r.Some? <==> exists x :: x in numbers && x <= 100.0
    ensures r.Some? ==> exists x :: (x in numbers && x <= 100.0 &&
      (forall y :: y in numbers && y <= 100.0 ==> x <= y) && r.value == Sequence.FibonacciTerm(Trunc(x)))
    ensures r.Some? ==> r.value < 1000
  {
    var small := AtMost100(numbers);
    if small == [] then None
    else
      var x := RealMin(small);
      assert forall y :: y in numbers && y <= 100.0 ==> y in small;
      Some(Sequence.FibonacciTerm(Trunc(x)))
  }

  /** `_handle_arithmetic_sequence`: the first difference, modulo 1000. */
  function HandleArithmeticSequence(numbers: seq<real>): (r: Option<int>)
    ensures r.Some? <==> |numbers| >= 2
    ensures r.Some? ==> 0 <= r.value < 1000 && Congruent(r.value, Trunc(numbers[1] - numbers[0]), 1000)
  {
    if |numbers| >= 2 then
      PyModCongruent(Trunc(numbers[1] - numbers[0]), 1000);
      Some(PyMod(Trunc(numbers[1] - numbers[0]), 1000))
    else None
  }

  /** `_handle_sequence`: "fibonacci" in the text wins over "arithmetic"; neither gives `None`. */
  function HandleSequence(problem: MathProblem): (r: Option<int>)
    ensures Contains(Lower(problem.cleanedText), "fibonacci") ==> r == HandleFibonacci(problem.numbers)
    ensures !Contains(Lower(problem.cleanedText), "fibonacci") && Contains(Lower(problem.cleanedText), "arithmetic") ==>
      r == HandleArithmeticSequence(problem.numbers)
    ensures r.Some? ==> Contains(Lower(problem.cleanedText), "fibonacci") || Contains(Lower(problem.cleanedText), "arithmetic")
  {
    var lower := Lower(problem.cleanedText);
    if Contains(lower, "fibonacci") then HandleFibonacci(problem.numbers)
    else if Contains(lower, "arithmetic") then HandleArithmeticSequence(problem.numbers)
    else None
  }

  /** For non-negative arguments the signed Euclidean loop gives the gcd itself. */
  lemma {:induction false} SignedGcdOfNaturals(a: int, b: int)
    ensures a >= 0 && b >= 0 ==> Arithmetic.SignedGcd(a, b) == Gcd(a, b)
    decreases Abs(b)
  {
    if a >= 0 && b > 0 {
      SignedGcdOfNaturals(b, PyMod(a, b));
    }
  }

  /**
   * `_handle_divisibility`: the gcd of the first two numbers (from the
   * signed `_gcd` loop) modulo 1000; `None` with fewer than two numbers.
   */
  function HandleDivisibility(numbers: seq<real>): (r: Option<int>)
    ensures r.Some? <==> |numbers| >= 2
    ensures r.Some? ==> 0 <= r.value < 1000
    ensures r.Some? ==> var g: int := Gcd(Trunc(numbers[0]), Trunc(numbers[1]));
      r.value == g % 1000 || r.value == (-g) % 1000
    ensures r.Some? && numbers[0] >= 0.0 && numbers[1] >= 0.0 ==>
      r.value == Gcd(Trunc(numbers[0]), Trunc(numbers[1])) % 1000
  {
    if |numbers| >= 2 then
      var a, b := Trunc(numbers[0]), Trunc(numbers[1]);
      Arithmetic.SignedGcdMagnitude(a, b);
      SignedGcdOfNaturals(a, b);
      Some(PyMod(Arithmetic.SignedGcd(a, b), 1000))
    else None
  }

  /**
   * The handler of a match's pattern. The geometry handler's helpers
   * (`_handle_triangle`, `_handle_circle`) do not exist; the `AttributeError`
   * is caught inside it, so it always gives `None`.
   */
  function Handle(problem: MathProblem, m: PatternMatch): (r: Option<int>)
    ensures m.kind == 4 ==> r.None?
    ensures r.Some? && m.kind != 0 ==> r.value < 1000
    ensures r.Some? && m.kind != 0 && m.kind != 2 ==> 0 <= r.value
    ensures m.kind == 1 ==> (r.Some? <==> m.values != [] && m.values[0].Number? && Trunc(m.values[0].x) >= 0)
    ensures m.kind == 3 ==> (r.Some? <==> |problem.numbers| >= 2)
  {
    if m.kind == 0 then HandleModulo(problem.numbers, m.values)
    else if m.kind == 1 then HandleFactorial(m.values)
    else if m.kind == 2 then HandleSequence(problem)
    else if m.kind == 3 then HandleDivisibility(problem.numbers)
    else None
  }

  /** The handler table applied to one problem. */
  function Handler(problem: MathProblem): PatternMatch -> Option<int> {
    m => Handle(problem, m)
  }

  // ---------------------------------------------------------------------------
  // Ordering the matches

  /** The sort key `(priority, confidence)` as one number. */
  function Rank(m: PatternMatch): nat {
    Priorities[m.kind] * 100 + m.tenths
  }

  /** For confidences the solver produces, ranks compare as the key pairs do. */
  lemma RankIsKeyOrder(a: PatternMatch, b: PatternMatch)
    requires a.tenths <= 10 && b.tenths <= 10
    ensures Rank(a) < Rank(b) <==>
      (Priorities[a.kind] < Priorities[b.kind] || (Priorities[a.kind] == Priorities[b.kind] && a.tenths < b.tenths))
    ensures Rank(a) == Rank(b) <==> Priorities[a.kind] == Priorities[b.kind] && a.tenths == b.tenths
  {
  }

  predicate SortedDesc(s: seq<PatternMatch>) {
    forall i, j :: 0 <= i < j < |s| ==> Rank(s[i]) >= Rank(s[j])
  }

  /** Puts `x` before the first element it does not rank below, so that it stays ahead of its equals. */
  function Insert(x: PatternMatch, s: seq<PatternMatch>): (r: seq<PatternMatch>)
    ensures multiset(r) == multiset(s) + multiset{x}
    ensures |r| == |s| + 1 && (r[0] == x || (s != [] && r[0] == s[0]))
  {
    if s == [] || Rank(s[0]) <= Rank(x) then [x] + s
    else
      assert s == [s[0]] + s[1..];
      [s[0]] + Insert(x, s[1..])
  }

  lemma SortedTail(s: seq<PatternMatch>)
    requires s != [] && SortedDesc(s)
    ensures SortedDesc(s[1..])
  {
    forall i, j | 0 <= i < j < |s[1..]| ensures Rank(s[1..][i]) >= Rank(s[1..][j]) {
      assert s[1..][i] == s[i + 1] && s[1..][j] == s[j + 1];
    }
  }

  /** Insertion keeps a list sorted. */
  lemma {:induction false} InsertSorted(x: PatternMatch, s: seq<PatternMatch>)
    requires SortedDesc(s)
    ensures SortedDesc(Insert(x, s))
    decreases |s|
  {
    if s != [] && Rank(s[0]) > Rank(x) {
      var rest := Insert(x, s[1..]);
      SortedTail(s);
      InsertSorted(x, s[1..]);
      assert Rank(rest[0]) <= Rank(s[0]) by {
        if rest[0] != x {
          assert rest[0] == s[1..][0] == s[1];
        }
      }
      var r := [s[0]] + rest;
      assert r == Insert(x, s);
      forall i, j | 0 <= i < j < |r| ensures Rank(r[i]) >= Rank(r[j]) {
        if i == 0 {
          assert r[j] == rest[j - 1];
          assert Rank(rest[j - 1]) <= Rank(rest[0]);
        } else {
          assert r[i] == rest[i - 1] && r[j] == rest[j - 1];
        }
      }
    }
  }

  /**
   * `sorted(matches, key=(priority, confidence), reverse=True)`: descending
   * by rank, and stable (equal ranks keep their order).
   */
  function SortByKey(ms: seq<PatternMatch>): (r: seq<PatternMatch>)
    ensures SortedDesc(r)
    ensures multiset(r) == multiset(ms)
  {
    if ms == [] then []
    else
      assert ms == [ms[0]] + ms[1..];
      InsertSorted(ms[0], SortByKey(ms[1..]));
      Insert(ms[0], SortByKey(ms[1..]))
  }

  /** The position of the first match whose handler gives a value: where the `for … return` loop stops. */
  function WinnerIndex(h: PatternMatch -> Option<int>, s: seq<PatternMatch>): (i: nat)
    ensures i <= |s|
    ensures forall j :: 0 <= j < i ==> h(s[j]).None?
    ensures i < |s| ==> h(s[i]).Some?
  {
    if s == [] then 0
    else if h(s[0]).Some? then 0
    else
      assert forall j :: 1 <= j < |s| ==> s[j] == s[1..][j - 1];
      1 + WinnerIndex(h, s[1..])
  }

  /** The match the loop stops at, if any. */
  function FirstWinner(h: PatternMatch -> Option<int>, s: seq<PatternMatch>): Option<PatternMatch> {
    var i := WinnerIndex(h, s);
    if i < |s| then Some(s[i]) else None
  }

  /**
   * The position of the match the sorted loop settles on, defined without
   * sorting: of the matches whose handler gives a value, the first (in
   * discovery order) of those with the greatest rank; `|ms|` when none does.
   */
  function BestIndex(h: PatternMatch -> Option<int>, ms: seq<PatternMatch>): (b: nat)
    ensures b <= |ms|
    ensures b == |ms| <==> forall i :: 0 <= i < |ms| ==> h(ms[i]).None?
    ensures b < |ms| ==> h(ms[b]).Some?
    ensures b < |ms| ==> forall j :: 0 <= j < |ms| && h(ms[j]).Some? ==> Rank(ms[j]) <= Rank(ms[b])
    ensures b < |ms| ==> forall j :: 0 <= j < b && h(ms[j]).Some? ==> Rank(ms[j]) < Rank(ms[b])
  {
    if ms == [] then 0
    else
      var rest := BestIndex(h, ms[1..]);
      assert forall i :: 1 <= i < |ms| ==> ms[i] == ms[1..][i - 1];
      if h(ms[0]).None? || (rest < |ms[1..]| && Rank(ms[1..][rest]) > Rank(ms[0])) then 1 + rest
      else 0
  }

  function Best(h: PatternMatch -> Option<int>, ms: seq<PatternMatch>): Option<PatternMatch> {
    var b := BestIndex(h, ms);
    if b < |ms| then Some(ms[b]) else None
  }

  /** A failing match in front does not change the winner. */
  lemma WinnerPastFailure(h: PatternMatch -> Option<int>, y: PatternMatch, t: seq<PatternMatch>)
    requires h(y).None?
    ensures FirstWinner(h, [y] + t) == FirstWinner(h, t)
  {
    var r := [y] + t;
    assert r[0] == y && r[1..] == t;
    assert WinnerIndex(h, r) == 1 + WinnerIndex(h, t);
    if WinnerIndex(h, t) < |t| {
      assert r[1 + WinnerIndex(h, t)] == t[WinnerIndex(h, t)];
    }
  }

  /** Inserting `x` into a sorted list changes the first winner only when `x` wins and ranks at least as high. */
  lemma {:induction false} InsertWinner(h: PatternMatch -> Option<int>, x: PatternMatch, s: seq<PatternMatch>)
    requires SortedDesc(s)
    ensures FirstWinner(h, Insert(x, s)) ==
      if h(x).Some? && (FirstWinner(h, s).None? || Rank(FirstWinner(h, s).value) <= Rank(x))
      then Some(x) else FirstWinner(h, s)
    decreases |s|
  {
    var w := FirstWinner(h, s);
    if s == [] || Rank(s[0]) <= Rank(x) {
      assert Insert(x, s) == [x] + s;
      if h(x).Some? {
        assert ([x] + s)[0] == x;
        if w.Some? {
          var i := WinnerIndex(h, s);
          assert w.value == s[i];
          assert Rank(s[i]) <= Rank(s[0]);
        }
      } else {
        WinnerPastFailure(h, x, s);
      }
    } else {
      var rest := Insert(x, s[1..]);
      assert Insert(x, s) == [s[0]] + rest;
      assert s == [s[0]] + s[1..];
      if h(s[0]).Some? {
        assert ([s[0]] + rest)[0] == s[0];
      } else {
        SortedTail(s);
        InsertWinner(h, x, s[1..]);
        WinnerPastFailure(h, s[0], rest);
        WinnerPastFailure(h, s[0], s[1..]);
      }
    }
  }

  /**
   * Stability at work: trying the sorted matches in order settles on the
   * match `Best` describes.
   */
  lemma {:induction false} SortedTryIsBest(h: PatternMatch -> Option<int>, ms: seq<PatternMatch>)
    ensures FirstWinner(h, SortByKey(ms)) == Best(h, ms)
    decreases |ms|
  {
    if ms != [] {
      var x, t := ms[0], ms[1..];
      var s := SortByKey(t);
      assert SortByKey(ms) == Insert(x, s);
      SortedTryIsBest(h, t);
      InsertWinner(h, x, s);
      var rest := BestIndex(h, t);
      assert FirstWinner(h, s) == if rest < |t| then Some(t[rest]) else None;
      if h(x).None? || (rest < |t| && Rank(t[rest]) > Rank(x)) {
        assert BestIndex(h, ms) == 1 + rest;
        if rest < |t| {
          assert t[rest] == ms[rest + 1];
        }
      } else {
        assert BestIndex(h, ms) == 0;
      }
    }
  }

  /** The loop of `solve` over the sorted matches: the first handler result that is not `None`. */
  method TryMatches(problem: MathProblem, sorted: seq<PatternMatch>) returns (result: Option<int>)
    ensures FirstWinner(Handler(problem), sorted).None? ==> result.None?
    ensures FirstWinner(Handler(problem), sorted).Some? ==> result == Handle(problem, FirstWinner(Handler(problem), sorted).value)
  {
    for i := 0 to |sorted|
      invariant WinnerIndex(Handler(problem), sorted) == i + WinnerIndex(Handler(problem), sorted[i..])
    {
      assert sorted[i..][0] == sorted[i] && sorted[i..][1..] == sorted[i + 1..];
      var r := Handle(problem, sorted[i]);
      if r.Some? {
        return r;
      }
    }
    return None;
  }

  // ---------------------------------------------------------------------------
  // Solving

  /**
   * The answer for a preprocessed problem: the best match's result made
   * valid. When no handler gives a value, the type fallback
   * `_handle_by_type` raises (it names handlers the class does not have)
   * and the outer handler answers 42.
   */
  function Answer(problem: MathProblem): (r: int)
    ensures 0 <= r < 1000
    ensures Best(Handler(problem), AllMatches(problem)).None? ==> r == 42
    ensures Best(Handler(problem), AllMatches(problem)).Some? ==>
      Handle(problem, Best(Handler(problem), AllMatches(problem)).value).Some? &&
      r == EnsureValidAnswer(PyInt(Handle(problem, Best(Handler(problem), AllMatches(problem)).value).value))
  {
    SortedTryIsBest(Handler(problem), AllMatches(problem));
    match FirstWinner(Handler(problem), SortByKey(AllMatches(problem)))
    case None => 42
    case Some(m) => EnsureValidAnswer(PyInt(Handle(problem, m).value))
  }

  /** `solve`: 42 when preprocessing raises, otherwise the answer for the problem. */
  method Solve(question: Option<string>, extractNumbers: NumberExtractor) returns (answer: int)
    ensures 0 <= answer < 1000
    ensures question.None? ==> answer == 42
    ensures question.Some? && extractNumbers(CleanText(question.value)).None? ==> answer == 42
    ensures question.Some? && extractNumbers(CleanText(question.value)).Some? ==>
      answer == Answer(MathProblem(question.value, CleanText(question.value), MathExpressions(CleanText(question.value)),
        extractNumbers(CleanText(question.value)).value, IdentifyProblemType(CleanText(question.value)),
        CommandTable(CommandPairs(CleanText(question.value), false))))
  {
    if question.None? {
      return 42;
    }
    var problem := Preprocess(question.value, extractNumbers);
    if problem.None? {
      return 42;
    }
    var matches := FindPatterns(problem.value);
    var sorted := SortByKey(matches);
    var result := TryMatches(problem.value, sorted);
    SortedTryIsBest(Handler(problem.value), matches);
    if result.Some? {
      answer := EnsureValidAnswer(PyInt(result.value));
    } else {
      answer := 42;
    }
  }

  // ---------------------------------------------------------------------------
  // Basic numerical analysis

  /** The operations `_basic_numerical_analysis` tries, in order: max, min, sum, product. */
  function Operations(xs: seq<real>): seq<real>
    requires xs != []
  {
    [RealMax(xs), RealMin(xs), RealSum(xs), RealProduct(xs)]
  }

  predicate Between(x: real) {
    0.0 <= x <= 999.0
  }

  /** The position of the first value in `[0, 999]`; `|cs|` when there is none. */
  function FirstBetween(cs: seq<real>): (i: nat)
    ensures i <= |cs|
    ensures forall j :: 0 <= j < i ==> !Between(cs[j])
    ensures i < |cs| ==> Between(cs[i])
  {
    if cs == [] || Between(cs[0]) then 0
    else
      assert forall j :: 1 <= j < |cs| ==> cs[j] == cs[1..][j - 1];
      1 + FirstBetween(cs[1..])
  }

  /**
   * `_basic_numerical_analysis`: 42 without numbers; else the integer part
   * of the first of max, min, sum and product lying in `[0, 999]`; else the
   * integer part of the maximum modulo 1000.
   */
  function NumericalAnswer(xs: seq<real>): (r: int)
    ensures 0 <= r < 1000
    ensures xs == [] ==> r == 42
    ensures xs != [] && Between(RealMax(xs)) ==> r == Trunc(RealMax(xs))
    ensures xs != [] && !Between(RealMax(xs)) && Between(RealMin(xs)) ==> r == Trunc(RealMin(xs))
    ensures xs != [] && (forall k :: 0 <= k < 4 ==> !Between(Operations(xs)[k])) ==> r == Trunc(RealMax(xs)) % 1000
  {
    if xs == [] then 42
    else
      var ops := Operations(xs);
      var i := FirstBetween(ops);
      assert ops[0] == RealMax(xs) && ops[1] == RealMin(xs);
      if i < |ops| then Trunc(ops[i]) else Trunc(RealMax(xs)) % 1000
  }

  /** Every number already in `[0, 999]`: the answer is the integer part of the largest. */
  lemma NumericalAnswerOfSmallNumbers(xs: seq<real>)
    requires xs != [] && forall k :: 0 <= k < |xs| ==> Between(xs[k])
    ensures NumericalAnswer(xs) == Trunc(RealMax(xs))
  {
    assert RealMax(xs) in xs;
  }

  /** The loop of `_basic_numerical_analysis` over the operations. */
  method BasicNumericalAnalysis(xs: seq<real>) returns (r: int)
    ensures r == NumericalAnswer(xs)
  {
    if xs == [] {
      return 42;
    }
    var ops := Operations(xs);
    for i := 0 to |ops|
      invariant FirstBetween(ops) == i + FirstBetween(ops[i..])
    {
      assert ops[i..][0] == ops[i] && ops[i..][1..] == ops[i + 1..];
      if 0.0 <= ops[i] <= 999.0 {
        return Trunc(ops[i]);
      }
    }
    r := Trunc(RealMax(xs)) % 1000;
  }
}
