# AIMO solver core in Dafny

This project models the core of an answer pipeline for competition mathematics
problems, in the style of the AI Mathematical Olympiad. A problem comes in as
text, possibly with LaTeX, and an integer answer in `[0, 999]` comes out.

The pipeline has four parts:

- **Shared helpers.** Answer normalisation (`mod_1000`, `ensure_range`), LaTeX
  validation, and the number-theory helpers: gcd, lcm, primality, prime
  factors, the extended Euclidean algorithm, modular inverse, the Chinese
  remainder theorem, Fibonacci, factorial and binomials modulo 1000, the mean,
  digits and divisors.
- **The LaTeX parser.** It finds `$...$` inline spans and `\[...\]` or `\(...\)` display spans, cleans
  expressions, collects LaTeX commands, recognises special forms and reads
  geometry elements.
- **The base solver's preprocessing.** It cleans text, extracts expressions,
  numbers and commands, classifies the problem and keeps answers in range.
- **Five domain solvers and the dispatcher.** The solvers cover arithmetic,
  combinatorics, sequences, number theory and pattern matching; the geometry
  solver contributes its text analysis. Each solver parses the problem into a
  typed record, dispatches to a handler and falls back to keyword heuristics.
  The dispatcher (`AIMOSolver` in `main.py`) scores the problem text against
  keyword indicators, picks a solver, falls back to the pattern solver, and
  reduces every answer modulo 1000, with 42 as the answer of last resort.

Modules follow the source files:

| module | source file |
|---|---|
| `Utils` | `src/utils/__init__.py` |
| `MathHelpers` | `src/utils/math_helpers.py` |
| `LatexParser` | `src/utils/latex_parser.py` |
| `BaseSolver` | `src/solvers/base_solver.py` |
| `Arithmetic` | `src/solvers/arithmetic_solver.py` |
| `Combinatorics` | `src/solvers/combinatorics_solver.py` |
| `Sequence` | `src/solvers/sequence_solver.py` |
| `NumberTheory` | `src/solvers/number_theory_solver.py` |
| `PatternSolver` | `src/solvers/pattern_solver.py` |
| `Geometry` | `src/solvers/geometry_solver.py` |
| `Aimo` | `src/main.py` |

`Common`, `Arith`, `Text` and `Scan` hold the modelling vocabulary:

- Python's value kinds (`PyValue`) and outcomes: a value, `None`, or an exception.
- Python's floor `//` and `%` (`PyDiv`, `PyMod`).
- `int()` on a float, which truncates toward zero (`Trunc`).
- ASCII lower-casing and `str` predicates.
- Token scanners that stand for the source's fixed regular expressions.

Modelling conventions:

- Floats are exact reals.
- `re.IGNORECASE` is ASCII lower-casing.
- Number extraction, which reads `-?\d*\.?\d+` and `\frac{a}{b}` with float
  division (through `sympify` in the LaTeX parser), is a parameter `NumberExtractor` that maps a text to the
  numbers found, or to the exception it raises.
- The dispatcher's calls into the domain solvers are a `SolverCall`
  parameter. `Aimo.Answer` and `AIMOSolver.SolveProblem` are therefore proved
  for every solver behaviour, including one that raises.
- Loops in the source become methods with loop invariants, each proved
  against a function that specifies it.
- Objects whose fields the source updates (the base solver's `initialized`
  flag, the dispatcher's counters) become classes.

## Model

| member | source | states |
|---|---|---|
| Utils.Mod1000 | src/utils/__init__.py:35-49 | the result is in [0, 999]; it is 0 when `int(value)` fails, and otherwise congruent to `int(value)` modulo 1000 |
| Utils.Mod1000OfInt | src/utils/__init__.py:45-47 | on an integer `v` the result is `v mod 1000` |
| Utils.Mod1000Idempotent | src/utils/__init__.py:35-49 | reducing an answer that is already reduced changes nothing |
| Utils.EnsureRange | src/utils/__init__.py:51-66 | `min_val` on a failed conversion or an empty range; otherwise the value clamped into `[min_val, max_val]`, unchanged when inside it |
| Utils.EnsureRangeIdempotent | src/utils/__init__.py:51-64 | clamping twice gives the same result as clamping once |
| Utils.ValidateLatexExpression | src/utils/__init__.py:127-141 | always `True`, because `parse_problem` never raises |
| MathHelpers.EuclidGcd | src/utils/math_helpers.py:12-24 | the Euclidean loop computes `Gcd`, Euclid's recursion with Python's remainder, as a non-negative value |
| MathHelpers.GcdDividesBoth | src/utils/math_helpers.py:12-24 | `gcd(a, b)` divides both arguments, and `gcd(a, 0) == abs(a)` |
| MathHelpers.GcdGreatest | src/utils/math_helpers.py:12-24 | every common divisor of `a` and `b` divides `gcd(a, b)` |
| MathHelpers.GcdZero | src/utils/math_helpers.py:12-24 | the gcd is 0 exactly for `gcd(0, 0)` |
| MathHelpers.Lcm | src/utils/math_helpers.py:26-36 | it raises (None) exactly when both arguments are 0; otherwise `lcm * gcd == abs(a * b)`, and the lcm is a common multiple |
| MathHelpers.IsPrime | src/utils/math_helpers.py:39-55 | trial division up to the integer square root answers true exactly when `n >= 2` and no `d` with `1 < d < n` divides `n` |
| MathHelpers.PrimeFactors | src/utils/math_helpers.py:57-78 | for `n <= 1` the list is empty; for `n >= 1` its product is `n`; every entry is prime and the list is non-decreasing |
| MathHelpers.ExtendedGcd | src/utils/math_helpers.py:108-114 | the triple `(g, x, y)` satisfies Bezout's identity `a*x + b*y == g` |
| MathHelpers.ExtendedGcdDivides | src/utils/math_helpers.py:108-114 | `g` divides both arguments |
| MathHelpers.ExtendedGcdNonNegative | src/utils/math_helpers.py:108-114 | `g >= 0` for non-negative arguments |
| MathHelpers.ExtendedGcdIsGcd | src/utils/math_helpers.py:108-114 | `abs(g)` is the gcd, and `g` is the gcd itself for non-negative arguments |
| MathHelpers.ModInverse | src/utils/math_helpers.py:97-119 | a returned `x` satisfies `a*x ≡ 1 (mod m)` and lies in `[0, m)` for `m > 0`; for `a >= 0, m > 0` the result is None exactly when `gcd(a, m) != 1` |
| MathHelpers.ModInverseMissesNegativeArgument | src/utils/math_helpers.py:108-119 | `mod_inverse(-3, 7)` returns None although `gcd(-3, 7) == 1` and 2 is an inverse |
| MathHelpers.ModInverseFixed | src/utils/math_helpers.py:97-119 | the corrected inverse: None exactly when `gcd(a, m) != 1`; otherwise an inverse in Python's remainder range for `m` |
| MathHelpers.ModInverseFixedAgrees | src/utils/math_helpers.py:97-119 | for `a >= 0, m > 0` the corrected and the original inverse agree |
| MathHelpers.ChineseRemainder | src/utils/math_helpers.py:122-140 | it fails (None) exactly in the cases where the source raises; otherwise the result is congruent to every `remainders[j]` modulo `moduli[j]`, and lies in `[0, product)` for a positive product |
| MathHelpers.FibonacciMod | src/utils/math_helpers.py:144-160 | `n` itself for `n <= 1`; `F(n) % m` (Python's remainder) for `n >= 2` |
| MathHelpers.FactorialMod | src/utils/math_helpers.py:163-177 | 1 when `n <= 0` or `m <= 0`; `n! % m` otherwise, which is 0 once `n >= m` |
| MathHelpers.BinomialMod | src/utils/math_helpers.py:179-205 | 0 when `k > n`; 1 when `k` is 0 or `n`; 0 when some `i + 1 <= min(k, n - k)` has no inverse modulo `m`; `C(n, k) % m` when all of them have one |
| MathHelpers.BinomialSymmetric | src/utils/math_helpers.py:195 | `C(n, k) == C(n, n - k)`, which makes the `min(k, n - k)` step sound |
| MathHelpers.MeanMod | src/utils/math_helpers.py:236-253 | 0 for no numbers, and 0 when the count has no inverse modulo `m > 0`; otherwise `r * len ≡ sum (mod m)`; the result always lies in Python's remainder range |
| MathHelpers.NumberToDigits | src/utils/math_helpers.py:268-278 | at least one digit, every entry in 0..9, and a leading 0 only for `n == 0` |
| MathHelpers.DigitsRoundTrip | src/utils/math_helpers.py:256-278 | `digits_to_number(number_to_digits(n)) == abs(n)` |
| MathHelpers.DigitsRoundTripBack | src/utils/math_helpers.py:256-278 | a digit list without a leading zero reads back to itself through `number_to_digits` |
| MathHelpers.Divisors | src/utils/math_helpers.py:309-324 | for `n >= 1` exactly the positive divisors of `n`; empty for `n == 0`; for `n < 0` exactly the positive divisors `d <= isqrt(-n)` of `n` together with their negative cofactors `n // d` (so larger positive divisors are missing); every member is a non-zero divisor of `n` |
| MathHelpers.DivisorsBySquareRoot | src/utils/math_helpers.py:319-324 | the divisors up to the integer square root, together with their cofactors, are all the positive divisors |
| BaseSolver.Solver.Initialize | src/solvers/base_solver.py:64-74 | sets `is_initialized`; a second call changes nothing |
| BaseSolver.CleanText | src/solvers/base_solver.py:116-121 | the result has no whitespace at either end, no two whitespace characters in a row, only plain blanks, and no `\\` or `\,`; every whitespace-free substring of it was already in the input; when the input holds neither pattern, its non-whitespace characters are kept exactly, in order |
| BaseSolver.CleanTextBlank | src/solvers/base_solver.py:118-119 | a `\\` or `\,` between two backslash-free pieces is cleaned exactly as a single blank in its place |
| BaseSolver.CleanTextIdempotent | src/solvers/base_solver.py:116-121 | cleaning a cleaned text changes nothing |
| BaseSolver.ExtractMathExpressions | src/solvers/base_solver.py:123-128 | the `$…$` bodies, then the `\[…\]` bodies, then the `\(…\)` bodies; each is non-empty, on one line, and written between its delimiters in the text |
| BaseSolver.MathExpressionsShape | src/solvers/base_solver.py:123-128 | every reported body is non-empty, holds no newline and is delimited in the text |
| BaseSolver.ExtractLatexCommands | src/solvers/base_solver.py:140-150 | every command name seen is a key; its list holds only the non-empty first-brace arguments, in order, each written after that command in the text |
| BaseSolver.IdentifyProblemType | src/solvers/base_solver.py:152-166 | "unknown" exactly when no category keyword occurs; a category exactly when it has a keyword and no earlier category in table order has any, so the result is always "unknown" or one of the five categories |
| BaseSolver.FactorIsAlgebra | src/solvers/base_solver.py:154-157 | a text with "factor" and no geometry keyword is classed as algebra, never as number theory |
| BaseSolver.EnsureValidAnswer | src/solvers/base_solver.py:168-179 | the result is in [0, 999]; 0 for None or a failed conversion; congruent to the value modulo 1000, and the value itself when already in range |
| BaseSolver.EnsureValidAnswerIsMod1000 | src/solvers/base_solver.py:168-179 | `_ensure_valid_answer` and `mod_1000` agree on every value |
| BaseSolver.Preprocess | src/solvers/base_solver.py:80-114 | it fails exactly when number extraction fails; otherwise the record holds the cleaned text, its expressions, numbers, problem type and command table |
| Scan.FindAll | src/utils/latex_parser.py:95 | every reported match starts at or after the search position, lies inside the text, and is the leftmost-alternative match the pattern gives at its start |
| Scan.FindAllOrdered | src/utils/latex_parser.py:95 | the reported matches come in text order and none overlaps the next |
| Scan.FindAllComplete | src/utils/latex_parser.py:95 | no match is skipped: every position where the pattern matches is the start of a reported match or lies inside one |
| LatexParser.FindInlineMath | src/utils/latex_parser.py:93-96 | every inline body lies between two dollars in the text, on one line and without a dollar of its own |
| LatexParser.FindDisplayMath | src/utils/latex_parser.py:98-101 | every display body is non-empty, on one line, and written between `\[`…`\]` or `\(`…`\)` without the closing delimiter inside it |
| LatexParser.Spans | src/utils/latex_parser.py:83 | all inline spans, tagged inline, come before all display spans, tagged display, each list in its own order |
| LatexParser.CleanExpression | src/utils/latex_parser.py:130-136 | the result has no whitespace at either end, no two whitespace characters in a row, only plain blanks, and no `\cdot` or `\times`; every whitespace-free, `*`-free substring of it was already in the input; when the input holds neither command, its non-whitespace characters are kept exactly, in order |
| LatexParser.CleanExpressionStar | src/utils/latex_parser.py:133-135 | a `\cdot` or `\times` between two backslash-free pieces is cleaned exactly as a single `*` in its place |
| LatexParser.CleanExpressionIdempotent | src/utils/latex_parser.py:130-136 | cleaning a cleaned expression changes nothing |
| LatexParser.CommandPairsShape | src/utils/latex_parser.py:143-151 | each command name is a non-empty run of letters written after a backslash; each recorded argument holds no `}` and, when non-empty, was written in braces (see also line 36) |
| LatexParser.CollectCommands | src/utils/latex_parser.py:143-151 | the dictionary loop builds `CommandTable` of the matches |
| LatexParser.CommandTableContents | src/utils/latex_parser.py:143-151 | a name is a key exactly when some match has it, and an argument is in its list exactly when it is non-empty and was matched with that name |
| LatexParser.ParsedExpression | src/utils/latex_parser.py:103-128 | a span parses exactly when number extraction succeeds on its cleaned text; the record keeps the raw text and the mode, its cleaned text is `_clean_expression` of the span, its numbers are the extractor's on that cleaned text, its variables the isolated letters and its commands the command table of the cleaned text, and it flags an equation exactly when the cleaned text holds `=` or `\eq` |
| LatexParser.ParseExpression | src/utils/latex_parser.py:103-128 | the method computes `ParsedExpression` |
| LatexParser.ParsedExpressionShape | src/utils/latex_parser.py:103-141 | the cleaned text is tidy; the variables are exactly the letters with no letter on either side; the equation flag is exactly the cleaned-text test, and it is set only when the raw text holds `=` or `\eq` |
| LatexParser.EquationKept | src/utils/latex_parser.py:130-136 | cleaning never creates an `=` or `\eq` that the raw text did not hold (see also line 115) |
| LatexParser.HasEquation | src/utils/latex_parser.py:114 | true exactly when the cleaned text holds an `=` character or the text `\eq` |
| LatexParser.ParseSpans | src/utils/latex_parser.py:83-86 | the loop keeps, in order, the parse of every span that parses |
| LatexParser.ParseProblem | src/utils/latex_parser.py:65-91 | `[]` for None; otherwise the kept parses of the inline spans followed by the display spans |
| LatexParser.SpansOrder | src/utils/latex_parser.py:79-86 | for any parser that keeps the span's text and mode, no inline expression follows a display one, and each expression's text is one of the spans of its mode |
| LatexParser.ParseProblemOrder | src/utils/latex_parser.py:65-101 | all inline expressions precede all display ones; each expression's raw text is one of the spans of its mode, and display texts are non-empty |
| LatexParser.LetterThenFound | src/utils/latex_parser.py:204 | a letter-then-power search holds exactly when some letter in the text is directly followed by one of the two powers |
| LatexParser.SequenceFound | src/utils/latex_parser.py:207 | the sequence search holds exactly when the text contains `a_n` or `a_{n` |
| LatexParser.SpecialFormsShape | src/utils/latex_parser.py:197-209 | with the corrected pattern (see Findings): at most two forms, each listed once, "quadratic" first; "quadratic" exactly when a letter is followed by `^{2}` or `^2`, "sequence" exactly when `a_n` or `a_{n` occurs |
| LatexParser.IdentifySpecialForms | src/utils/latex_parser.py:197-209 | with the corrected pattern (see Findings): at most two forms, drawn from "quadratic" and "sequence", each at most once, with "quadratic" first |
| LatexParser.NoSequenceWithoutSubscript | src/utils/latex_parser.py:207 | a text without an underscore has no sequence form |
| LatexParser.AsWrittenMissesBraces | src/utils/latex_parser.py:204 | the pattern as written does not match a letter followed by `^{2}` |
| LatexParser.SquaredInBracesMissed | src/utils/latex_parser.py:197-209 | as written, `x^{2}` yields no special form; with the intended pattern it yields "quadratic" |
| LatexParser.CorrectedFindsBraces | src/utils/latex_parser.py:204 | the intended pattern matches a letter followed by `^{2}` |
| LatexParser.ParseGeometryElements | src/utils/latex_parser.py:211-222 | triangles, angles and segments are exactly the `findall` lists of their patterns' capital groups (in text order, see `Scan.FindAllGroup`), and the points set holds exactly the capitals of the point pattern's matches; triangles and angles are three capitals, segments two and points one, each written in the text |
| LatexParser.GeometryPoints | src/utils/latex_parser.py:220 | a point is recorded exactly when the search reports it at least once; as a set it has no duplicates |
| Combinatorics.FactorialMod1000 | src/solvers/combinatorics_solver.py:71-76 | `n! mod 1000` for `n >= 0`, and 1 (the empty product) for negative `n` |
| Combinatorics.FallingFactorial | src/solvers/combinatorics_solver.py:79-88 | the falling product of `r` factors from `n` times `(n - r)!` is `n!` |
| Combinatorics.Permutation | src/solvers/combinatorics_solver.py:79-88 | the loop computes `PermutationMod`: 0 when `r > n`, a missing `r` read as `n`, otherwise the product `(n - r + 1) … n` reduced modulo 1000 |
| Combinatorics.PermutationCounts | src/solvers/combinatorics_solver.py:79-88 | `P(n, r) == n! / (n - r)!` modulo 1000 |
| Combinatorics.PermutationOfAll | src/solvers/combinatorics_solver.py:71-88 | for every `n`, negative included, `_permutation(n)` with no `r` equals `_factorial_mod_1000(n)`, `n! mod 1000` |
| Combinatorics.PowMod | src/solvers/combinatorics_solver.py:99 | Python's three-argument `pow` modulo 1000: `b ** e mod 1000` for `e >= 0`; for a negative exponent it raises (None) exactly when `gcd(b, 1000) != 1`, and otherwise returns the inverse power in [0, 999] (see also lines 206-207) |
| Combinatorics.CombinationIsBinomial | src/solvers/combinatorics_solver.py:91-100 | the intended `_combination(n, r)` is `C(n, r) mod 1000` for non-negative arguments |
| Combinatorics.CombinationAsWritten | src/solvers/combinatorics_solver.py:91-100 | as written it raises (None) exactly when `r <= n` and `min(r, n - r) >= 2`; otherwise it returns the intended value |
| Combinatorics.CombinationAsWrittenFailsOnFiveChooseTwo | src/solvers/combinatorics_solver.py:91-100 | `C(5, 2)` raises as written, where the intended answer is 10 |
| Combinatorics.Combination | src/solvers/combinatorics_solver.py:91-100 | the corrected loop over exact integers returns `C(n, r) mod 1000`, and 0 when `r > n` |
| Combinatorics.PartitionsSaturate | src/solvers/combinatorics_solver.py:268-276 | parts larger than `j` add nothing: the count with parts up to `i >= j` is `p(j)` |
| Combinatorics.PartitionsIntoOnes | src/solvers/combinatorics_solver.py:268-276 | with parts of size 1 there is exactly one partition |
| Combinatorics.PartitionsGrow | src/solvers/combinatorics_solver.py:268-276 | allowing larger parts never lowers the count |
| Combinatorics.PartitionsOfFive | src/solvers/combinatorics_solver.py:268-276 | `p(5) == 7` |
| Combinatorics.PartitionMod | src/solvers/combinatorics_solver.py:257-280 | 0 for `n < 0`, 1 for `n == 0`, otherwise the in-place table gives `p(n) mod 1000` |
| Combinatorics.ProblemTypeOf | src/solvers/combinatorics_solver.py:141-150 | "unknown" exactly when no pattern matches; a type is chosen exactly when its pattern matches and no earlier one (in the order permutation, combination, arrangement, partition) does (see also lines 34-69) |
| Combinatorics.ParseCombinatoricsProblem | src/solvers/combinatorics_solver.py:132-173 | the type as above; `total` is the largest integer literal (0 when there is none); a selection exists exactly when there are two or more literals, and it is then the second largest: the largest of the literals at other positions than one holding the maximum, so at most `total`; the ordered and repetition flags are the keyword tests |
| Combinatorics.HandlePermutation | src/solvers/combinatorics_solver.py:195-214 | in [0, 999]; without repetition always a value, `n!/(n-r)! mod 1000`, or `n! mod 1000` with no selection; with repetition `n ** r mod 1000`, and `n ** n mod 1000` with no selection |
| Combinatorics.HandleCombination | src/solvers/combinatorics_solver.py:216-236 | None exactly when there is no selection; otherwise `C(n, r) mod 1000`, or `C(n + r - 1, r) mod 1000` with repetition |
| Combinatorics.HandleArrangement | src/solvers/combinatorics_solver.py:238-255 | a value in [0, 999]; an ordered arrangement is answered exactly as `_handle_permutation` answers it, an unordered one exactly as `_handle_combination` does; so ordered without repetition always has a value, `n!/(n-r)! mod 1000`, and unordered has one exactly when a selection size is known |
| Combinatorics.HandlePartition | src/solvers/combinatorics_solver.py:257-280 | always a value in [0, 999]: `p(n) mod 1000` for `n >= 0` (1 for `n == 0`) and 0 for negative `n`; `PartitionMod` is the table loop that computes it |
| Combinatorics.SolveGeneralCombinatorics | src/solvers/combinatorics_solver.py:282-305 | a value in [0, 999]; the ordered case is answered exactly as `_handle_permutation` answers it, the unordered case exactly as `_handle_combination` does; so ordered without repetition always answers and unordered exactly when a selection size is known |
| Combinatorics.GeneralIsArrangement | src/solvers/combinatorics_solver.py:282-305 | the general solver makes exactly the choice the arrangement handler makes (see also lines 238-255) |
| Combinatorics.SolveCombinatoricsProblem | src/solvers/combinatorics_solver.py:175-193 | a value is in [0, 999]; permutations and combinations go to their handlers; partitions go to the partition handler and always give a value; a combination gives none exactly when there is no selection; arrangements and unknown types get the arrangement handler's choice |
| Combinatorics.Heuristics | src/solvers/combinatorics_solver.py:307-333 | in [0, 999]; 42 with no integer literal; `P(max, second)` for permutation or arrange; `C(max, second)` for combination, choose or ways with two literals; `max!` modulo 1000 for ways with one; `max % 1000` when no branch applies (including combination or choose with a single literal) |
| Combinatorics.Answer | src/solvers/combinatorics_solver.py:111-126 | in [0, 999]; the handler's value when there is one, the heuristics otherwise |
| Combinatorics.Solve | src/solvers/combinatorics_solver.py:102-130 | in [0, 999]; 42 when preprocessing raises, both for a missing (`None`) question, on which `_clean_text` raises, and for a failed number extraction; otherwise the answer for the preprocessed problem |
| Sequence.SequenceTypeOf | src/solvers/sequence_solver.py:102-106 | "unknown" exactly when no pattern matches the text; the type is the k-th of fibonacci, arithmetic, geometric, recursive exactly when the k-th pattern matches and no earlier one does (see also lines 37-54) |
| Sequence.FibonacciWordWins | src/solvers/sequence_solver.py:102-106 | a text mentioning "fibonacci" is a Fibonacci problem, whatever else it says (see also line 39) |
| Sequence.DefinitionIsTyped | src/solvers/sequence_solver.py:102-106 | a text with a definition `a_n=` always gets a type from the table (see also line 51) |
| Sequence.TargetIndex | src/solvers/sequence_solver.py:111-114 | an index exists exactly when `a_<digits>` or `F_<digits>` occurs; it is the value of the whole digit run of the leftmost such subscript, with no subscript starting earlier; with no index, no subscript occurs anywhere |
| Sequence.ParseSequenceProblem | src/solvers/sequence_solver.py:93-129 | the type, the integer literals as terms and the index as above; the target is "sum" exactly when the text says "sum", "product" exactly when it says "product" but not "sum", otherwise "term" |
| Sequence.GenerateFibonacci | src/solvers/sequence_solver.py:149-157 | `n` for `n <= 1`, and `F(n) mod 1000` for `n >= 0` |
| Sequence.FibonacciTerm | src/solvers/sequence_solver.py:150-157 | for `n >= 0` the `n`-th Fibonacci number modulo 1000, in [0, 999], the `n <= 1` shortcut included; a negative `n` is returned unchanged |
| Sequence.FibonacciTermRecurrence | src/solvers/sequence_solver.py:149-157 | for `n >= 2` the results obey the Fibonacci recurrence modulo 1000 |
| Sequence.FibonacciTermTen | src/solvers/sequence_solver.py:334-335 | the tenth term is 55 |
| Sequence.HandleFibonacci | src/solvers/sequence_solver.py:159-185 | with an index, `F(index) mod 1000`, ignoring the terms; without one, a value exactly when there are three or more terms that follow the recurrence modulo 1000, and that value continues them |
| Sequence.ArithmeticTerms | src/solvers/sequence_solver.py:187-191 | every term of a constant-difference sequence is the one `_generate_arithmetic` gives for its position |
| Sequence.GenerateArithmetic | src/solvers/sequence_solver.py:187-191 | for `n >= 1` the closed form `first + (n - 1) * d` is the `n`-th term of the progression built by adding `d` once per step |
| Sequence.ArithmeticNext | src/solvers/sequence_solver.py:187-191 | the last term plus the difference is the next generated term (see also line 214) |
| Sequence.HandleArithmetic | src/solvers/sequence_solver.py:193-221 | a value exactly when there are two or more terms with a constant difference; it is the generated term at the index (the known term when the index is within the list), or the next term, modulo 1000 |
| Sequence.RatiosOfNonZero | src/solvers/sequence_solver.py:235-238 | without zero terms there is one ratio per consecutive pair, term over previous term |
| Sequence.CommonRatio | src/solvers/sequence_solver.py:235-242 | when all ratios agree, the first ratio carries each term to the next |
| Sequence.GeometricTerms | src/solvers/sequence_solver.py:223-227 | each term of a geometric sequence is the first term times a power of the ratio |
| Sequence.GenerateGeometric | src/solvers/sequence_solver.py:223-227 | the truncated `n`-th term; it raises (None) exactly when `n == 0` and the ratio is 0, the division by the ratio |
| Sequence.GeometricIndexed | src/solvers/sequence_solver.py:223-227 | the generated term at a position within the list is the known term there (see also lines 244-248) |
| Sequence.HandleGeometric | src/solvers/sequence_solver.py:229-258 | a value only for two or more terms with equal ratios; with an index at any position, including past the known terms, the value exists exactly when `_generate_geometric` yields one and is `int(first * ratio^(index-1)) % 1000`; for non-zero terms and an index within the list that is the listed term modulo 1000; without an index there is always a value, `int(last * ratio) % 1000` with the ratio as an exact fraction, which is the next term of the progression modulo 1000 |
| Sequence.NextGeometric | src/solvers/sequence_solver.py:251-252 | the last term times the ratio, truncated, is any integer that continues the progression |
| Sequence.HandleRecursive | src/solvers/sequence_solver.py:260-294 | a value only for three or more terms; a constant difference gives the arithmetic handler's value; otherwise equal ratios give the geometric handler's value; otherwise a Fibonacci-like list (each term the sum of the two before, modulo 1000) gives the Fibonacci handler's value and any other list gives none |
| Sequence.SolveGeneralSequence | src/solvers/sequence_solver.py:296-324 | None exactly for no terms, or for a single term when the target is neither sum nor product; otherwise sum mod 1000, product mod 1000, or the next term by the last difference mod 1000 |
| Sequence.RunningProduct | src/solvers/sequence_solver.py:308-312 | the product reduced at every step equals the product modulo 1000 |
| Sequence.SolveSequenceProblem | src/solvers/sequence_solver.py:131-147 | each of the four types goes to its handler, an unknown type to the general solver; a value is in [0, 999] |
| Sequence.Heuristics | src/solvers/sequence_solver.py:326-347 | in [0, 999]; 42 with no integer literal; 55 when "fibonacci" is mentioned; for "arithmetic" with two or more literals the last plus the first difference, modulo 1000; for "geometric" with two or more literals and a non-zero first one the last times the first ratio, truncated, modulo 1000; `max % 1000` whenever none of these branches applies (including a keyword with too few literals) |
| Sequence.Answer | src/solvers/sequence_solver.py:78-87 | in [0, 999]; the handler's value when there is one, the heuristics otherwise |
| Sequence.Solve | src/solvers/sequence_solver.py:63-91 | in [0, 999]; 42 when preprocessing raises, both for a missing (`None`) question, on which `_clean_text` raises, and for a failed number extraction; otherwise the answer for the preprocessed problem |
| NumberTheory.ProblemTypeOf | src/solvers/number_theory_solver.py:111-114 | "unknown" exactly when no pattern matches; the k-th type exactly when its pattern matches and no earlier one does (see also lines 36-57) |
| NumberTheory.DistinctTypes | src/solvers/number_theory_solver.py:36-57 | the five type names are distinct and none is "unknown" |
| NumberTheory.FactorMeansDivisibility | src/solvers/number_theory_solver.py:111-114 | a text mentioning "factor" is always a divisibility problem, so the prime pattern's "factor" is never reached (see also lines 38, 46) |
| NumberTheory.TargetTypeOf | src/solvers/number_theory_solver.py:116-122 | "remainder" over "factor" over "multiple", each exactly when its word occurs and no earlier word does; "unknown" exactly when none occurs |
| NumberTheory.ParseNumberTheoryProblem | src/solvers/number_theory_solver.py:98-130 | the integer literals, the problem type and the target type as above |
| NumberTheory.SympyLcm | src/solvers/number_theory_solver.py:159 | a common multiple of both arguments; 0 when either is 0; otherwise positive with `lcm * gcd == abs(a * b)` |
| NumberTheory.LcmLeast | src/solvers/number_theory_solver.py:159 | every common multiple is a multiple of the lcm |
| NumberTheory.GcdFoldDividesAll | src/solvers/number_theory_solver.py:234 | `reduce(gcd, numbers)` divides every number |
| NumberTheory.GcdFoldGreatest | src/solvers/number_theory_solver.py:234 | every common divisor of the numbers divides `reduce(gcd, numbers)` |
| NumberTheory.LcmFoldMultipleOfAll | src/solvers/number_theory_solver.py:251 | `reduce(lcm, numbers)` is a multiple of every number |
| NumberTheory.LcmFoldLeast | src/solvers/number_theory_solver.py:251 | every common multiple of the numbers is a multiple of `reduce(lcm, numbers)` |
| NumberTheory.PrimeFactorSet | src/solvers/number_theory_solver.py:207 | the primes dividing a non-zero number, none for 0 (see also line 318) |
| NumberTheory.PrimeHasOnePrimeFactor | src/solvers/number_theory_solver.py:316-318 | a prime's only prime factor is itself (see also line 207) |
| NumberTheory.PrimeDivisorSum | src/solvers/number_theory_solver.py:274-282 | the divisor sum of a prime `p` is `p + 1` |
| NumberTheory.DivisorSumUpToIsRangeSum | src/solvers/number_theory_solver.py:274-282 | the stepwise divisor sum adds up exactly the positive divisors in its range |
| NumberTheory.PairsUpToShape | src/solvers/number_theory_solver.py:277-281 | the values the loop has added are the divisors up to `i` together with their cofactors |
| NumberTheory.PairSumIsRangeSum | src/solvers/number_theory_solver.py:277-281 | while `i * i <= n`, the loop's total adds each value it met once, the `i != n // i` test keeping a square root from being counted twice |
| NumberTheory.RootPairing | src/solvers/number_theory_solver.py:277-282 | running the loop up to the integer square root gives the sum of all positive divisors |
| NumberTheory.SumOfDivisors | src/solvers/number_theory_solver.py:274-282 | fails exactly for negative `n` (the square root raises); otherwise the sum of the positive divisors of `n` (0 for 0) |
| NumberTheory.HandleDivisibility | src/solvers/number_theory_solver.py:149-175 | a value exactly for two or more numbers, in [0, 999]; when the gcd of the first two is below 1000 it is their greatest common divisor, otherwise their lcm modulo 1000 |
| NumberTheory.HandleModulo | src/solvers/number_theory_solver.py:177-194 | a value exactly for two or more numbers with a non-zero last one; it is congruent to the first modulo the last and lies between 0 and the modulus, on the modulus's side |
| NumberTheory.HandlePrime | src/solvers/number_theory_solver.py:196-224 | a value exactly for a non-empty list: the number of distinct prime factors of the largest number, modulo 1000 |
| NumberTheory.HandleGcd | src/solvers/number_theory_solver.py:226-241 | a value exactly for two or more numbers: their gcd modulo 1000 |
| NumberTheory.HandleLcm | src/solvers/number_theory_solver.py:243-258 | a value exactly for two or more numbers: their lcm modulo 1000 |
| NumberTheory.SolveNumberTheoryProblem | src/solvers/number_theory_solver.py:132-147 | each type's handler; None for the unknown type, whose general solver does not exist |
| NumberTheory.Heuristics | src/solvers/number_theory_solver.py:305-331 | 42 without integers; the prime rule when "prime" is mentioned; the first number modulo the last for modulo or remainder with two or more integers (with one integer it falls through); the divisor sum of the largest number mod 1000 for divisor or factor (failing for a negative one); otherwise the largest number mod 1000 |
| NumberTheory.PrimeHeuristic | src/solvers/number_theory_solver.py:315-318 | in [0, 999]: a prime modulo 1000, otherwise its number of distinct prime factors modulo 1000 |
| NumberTheory.HeuristicRemainderUnreduced | src/solvers/number_theory_solver.py:320-323 | the remainder heuristic can answer 5000, outside [0, 999] |
| NumberTheory.Answer | src/solvers/number_theory_solver.py:86-92 | a handler's value is reduced modulo 1000; otherwise the heuristics' value, or 42 where they raise |
| NumberTheory.Settle | src/solvers/number_theory_solver.py:88-96 | a value goes through `_ensure_valid_answer`; without one, the fallback, or 42 where it raises |
| NumberTheory.Solve | src/solvers/number_theory_solver.py:68-96 | 42 when preprocessing raises, both for a missing (`None`) question, on which `_clean_text` raises, and for a failed number extraction; otherwise the answer for the preprocessed problem |
| Arithmetic.ProblemTypeOf | src/solvers/arithmetic_solver.py:111-115 | "unknown" exactly when no keyword group occurs; the k-th type exactly when one of its words occurs and none of an earlier group does (see also lines 39-60) |
| Arithmetic.TargetValue | src/solvers/arithmetic_solver.py:123-126 | a target exactly when `equals\s*(\d+\.?\d*)` matches, that is when some "equals" is followed by blanks and a digit; its value is that of the whole literal (no digit after it, no point after a point-free one) after the first such "equals", none earlier; it is never negative |
| Arithmetic.TargetFits | src/solvers/arithmetic_solver.py:124 | the five tokens of the pattern, matched greedily, give a target number after "equals" |
| Arithmetic.ParseArithmeticProblem | src/solvers/arithmetic_solver.py:101-136 | the type as above, the numbers as floats, the target after "equals", and a reverse problem exactly when the text says "what" or "find" |
| Arithmetic.MeanBetween | src/solvers/arithmetic_solver.py:173 | the mean lies between the smallest and the largest number |
| Arithmetic.RealSumOfIntegers | src/solvers/arithmetic_solver.py:195 | on whole numbers the float sum is the integer sum |
| Arithmetic.RealProductOfIntegers | src/solvers/arithmetic_solver.py:213 | on whole numbers the float product is the integer product |
| Arithmetic.ProductFold | src/solvers/arithmetic_solver.py:218 | folding two or more numbers with a reduction after each step stays in [0, 1000) |
| Arithmetic.ProductFoldOfIntegers | src/solvers/arithmetic_solver.py:218 | on two or more whole numbers the fold is the product modulo 1000 |
| Arithmetic.HandleMean | src/solvers/arithmetic_solver.py:158-179 | a value exactly for a non-empty list that, asked backwards, has a target; in [0, 999]; forwards the truncated mean, backwards the truncated `target * count - sum`, modulo 1000 |
| Arithmetic.MeanReverseCompletes | src/solvers/arithmetic_solver.py:165-170 | asked backwards over whole numbers, the answer added to the sum gives `target * count` modulo 1000 |
| Arithmetic.HandleSum | src/solvers/arithmetic_solver.py:181-201 | a value exactly for a non-empty list that, asked backwards, has a target; in [0, 999]; forwards the sum modulo 1000, backwards the truncated `target - sum` modulo 1000 |
| Arithmetic.SumReverseCompletes | src/solvers/arithmetic_solver.py:188-192 | asked backwards over whole numbers, the answer added to the sum gives the target modulo 1000 |
| Arithmetic.HandleProduct | src/solvers/arithmetic_solver.py:203-225 | a value exactly for a non-empty list that, asked backwards, has a target and a non-zero product; forwards the reduced fold (the product mod 1000 for two or more whole numbers), backwards the truncated `target / product` modulo 1000 |
| Arithmetic.ProductReverseFindsFactor | src/solvers/arithmetic_solver.py:210-215 | asked backwards with target `m` times the product, the answer is `m` modulo 1000 |
| Arithmetic.ProductOfOneUnreduced | src/solvers/arithmetic_solver.py:216-219 | the forward product of the single number 5000 is 5000: a single value is not reduced |
| Arithmetic.SignedGcdMagnitude | src/solvers/arithmetic_solver.py:235-238 | up to sign, the local Euclid loop gives the greatest common divisor |
| Arithmetic.LocalGcd | src/solvers/arithmetic_solver.py:235-238 | the loop computes the signed Euclid value, whose magnitude is the gcd |
| Arithmetic.ReducedRatio | src/solvers/arithmetic_solver.py:246-247 | both sides divided exactly by the local gcd; the denominator stays non-zero |
| Arithmetic.RatioLowestTerms | src/solvers/arithmetic_solver.py:240-247 | the reduced pair is the same ratio, in lowest terms |
| Arithmetic.HandleRatio | src/solvers/arithmetic_solver.py:227-251 | a value exactly for two or more numbers whose second truncates to non-zero; it is the sum of the reduced ratio's two sides modulo 1000 |
| Arithmetic.HandleRemainder | src/solvers/arithmetic_solver.py:253-272 | a value exactly for two or more numbers whose second largest truncates to non-zero; the largest modulo the second largest, then modulo 1000; for a divisor in (0, 1000] a true remainder |
| Arithmetic.FirstInRange | src/solvers/arithmetic_solver.py:291-297 | None exactly when no candidate is in [0, 999]; otherwise a candidate in range, the first one when it is |
| Arithmetic.FirstAccepted | src/solvers/arithmetic_solver.py:291-299 | the loop returns the first candidate in range |
| Arithmetic.GeneralAnswer | src/solvers/arithmetic_solver.py:274-303 | an answer exactly for a non-empty list, always in range; for whole numbers the sum modulo 1000 |
| Arithmetic.SolveGeneralArithmetic | src/solvers/arithmetic_solver.py:274-303 | computes the general answer |
| Arithmetic.SolveArithmeticProblem | src/solvers/arithmetic_solver.py:138-156 | each of the five types goes to its handler, an unknown type to the general solver; every value is in [0, 999] except the forward product of one number |
| Arithmetic.Heuristics | src/solvers/arithmetic_solver.py:305-327 | 42 without numbers; then by keyword the truncated mean or sum modulo 1000, the folded product, or the ratio in hundredths modulo 1000; otherwise the largest number modulo 1000; raises exactly for a ratio over a zero second number |
| Arithmetic.Answer | src/solvers/arithmetic_solver.py:88-95 | a handler's value goes through `_ensure_valid_answer` into [0, 999]; otherwise the heuristics' value, or 42 where they raise |
| Arithmetic.ForwardSumAnswer | src/solvers/arithmetic_solver.py:181-195 | a forward sum question over whole numbers is answered with the sum modulo 1000 (see also lines 71-99) |
| Arithmetic.HeuristicProductUnreduced | src/solvers/arithmetic_solver.py:203-219 | "find product" of 5000 with no "equals" is answered 5000, outside [0, 999] (see also lines 88-95) |
| Arithmetic.Solve | src/solvers/arithmetic_solver.py:71-99 | 42 when preprocessing raises, both for a missing (`None`) question, on which `_clean_text` raises, and for a failed number extraction; otherwise the answer for the preprocessed problem |
| PatternSolver.ExtractValues | src/solvers/pattern_solver.py:182-193 | one value per captured group, in group order: each present group's converted value, absent groups skipped |
| PatternSolver.Confidence | src/solvers/pattern_solver.py:160-180 | in tenths, between 0.5 and 1.0; at least 0.7 exactly when an indicator word or an expression containing the match is present; at least 0.9 exactly when both are; the extra tenth exactly when the problem's type is the pattern's |
| PatternSolver.UnindicatedConfidence | src/solvers/pattern_solver.py:168-178 | modulo, factorial and divisibility have no indicator list and never equal a problem type, so their confidence is 0.5 or 0.7 (see also lines 67-88) |
| PatternSolver.Occurrences | src/solvers/pattern_solver.py:145 | every occurrence found is a match of the pattern's kind within the text |
| PatternSolver.MakeMatches | src/solvers/pattern_solver.py:147-156 | one pattern match per occurrence, in order, each of the pattern's kind with a confidence in range |
| PatternSolver.MatchesBefore | src/solvers/pattern_solver.py:143-158 | the matches of the first `n` patterns are of those kinds with confidences in range |
| PatternSolver.DiscoveryOrder | src/solvers/pattern_solver.py:143-158 | matches come out grouped by pattern, in the table's order |
| PatternSolver.PatternEntries | src/solvers/pattern_solver.py:147-156 | the inner loop appends exactly the matches of one pattern |
| PatternSolver.FindPatterns | src/solvers/pattern_solver.py:140-158 | the loops build exactly the list of all matches |
| PatternSolver.CapturedNumber | src/solvers/pattern_solver.py:182-193 | a modulo or factorial match carries exactly one value, a non-negative whole number (see also lines 40, 45) |
| PatternSolver.FactorialMatchesSucceed | src/solvers/pattern_solver.py:210-218 | every factorial match is handled, with its number's factorial modulo 1000 (see also line 45) |
| PatternSolver.HandleModulo | src/solvers/pattern_solver.py:195-208 | a value exactly when the captured modulus truncates to non-zero and there are numbers; congruent to the last number modulo the modulus, and a true remainder for a positive modulus |
| PatternSolver.FactorialEndsInZeros | src/solvers/pattern_solver.py:299-304 | from 100 on a factorial is divisible by 1000, so stopping the loop below 1000 changes nothing |
| PatternSolver.FactorialMod1000 | src/solvers/pattern_solver.py:298-304 | for `n >= 0`, `n! mod 1000`; 1 for negative `n` |
| PatternSolver.HandleFactorial | src/solvers/pattern_solver.py:210-218 | a value exactly for a captured non-negative number, its factorial modulo 1000 on both branches |
| PatternSolver.FactorialExamples | src/solvers/pattern_solver.py:210-218 | `5!`, `3!` and `7!` give 120, 6 and 40 |
| PatternSolver.AtMost100 | src/solvers/pattern_solver.py:335 | keeps exactly the numbers at most 100 |
| PatternSolver.HandleFibonacci | src/solvers/pattern_solver.py:324-340 | a value exactly when some number is at most 100; it is the Fibonacci term, modulo 1000, at the smallest such number |
| PatternSolver.HandleArithmeticSequence | src/solvers/pattern_solver.py:313-322 | a value exactly for two or more numbers: the truncated difference of the first two, modulo 1000 |
| PatternSolver.HandleSequence | src/solvers/pattern_solver.py:220-229 | the Fibonacci handler when "fibonacci" is mentioned, else the arithmetic one when "arithmetic" is; nothing without either word |
| PatternSolver.SignedGcdOfNaturals | src/solvers/pattern_solver.py:306-311 | on non-negative arguments the loop gives the gcd |
| PatternSolver.HandleDivisibility | src/solvers/pattern_solver.py:231-239 | a value exactly for two or more numbers, in [0, 999]; the gcd of the first two or its negation, modulo 1000, and the gcd itself for non-negative numbers |
| PatternSolver.Handle | src/solvers/pattern_solver.py:37-64 | the handler table: the geometry handler never gives a value; every other handler but modulo gives less than 1000, and factorial and divisibility a value in [0, 999]; factorial succeeds exactly for a non-negative captured number, divisibility exactly for two or more numbers |
| PatternSolver.RankIsKeyOrder | src/solvers/pattern_solver.py:108-115 | the rank orders matches exactly as the key (priority, confidence) does |
| PatternSolver.Insert | src/solvers/pattern_solver.py:108-115 | inserting adds exactly one element and loses none |
| PatternSolver.InsertSorted | src/solvers/pattern_solver.py:108-115 | inserting into a descending list keeps it descending |
| PatternSolver.SortByKey | src/solvers/pattern_solver.py:108-115 | the result is descending by key and a permutation of the matches |
| PatternSolver.WinnerIndex | src/solvers/pattern_solver.py:118-126 | the first position whose handler gives a value; every earlier one gives none |
| PatternSolver.BestIndex | src/solvers/pattern_solver.py:108-126 | none exactly when no handler gives a value; otherwise a handled match of the highest rank, and the earliest among equals |
| PatternSolver.InsertWinner | src/solvers/pattern_solver.py:108-126 | inserting a match changes the first handled match only when it is handled and ranks at least as high |
| PatternSolver.SortedTryIsBest | src/solvers/pattern_solver.py:108-126 | trying the sorted matches in order picks the best handled match, the first such one on ties, as the stable sort does |
| PatternSolver.TryMatches | src/solvers/pattern_solver.py:118-126 | the loop returns the value of the first handled match, and nothing when none is handled |
| PatternSolver.Answer | src/solvers/pattern_solver.py:104-138 | in [0, 999]; the best handled match's value through `_ensure_valid_answer`; otherwise 42: the type-fallback table names handlers the class lacks, so building it raises and `solve` answers 42 (see also lines 252-260) |
| PatternSolver.Solve | src/solvers/pattern_solver.py:90-138 | in [0, 999]; 42 when preprocessing raises, both for a missing (`None`) question, on which `_clean_text` raises, and for a failed number extraction; otherwise the answer for the preprocessed problem |
| PatternSolver.FirstBetween | src/solvers/pattern_solver.py:285-291 | the first operation result in [0, 999]; no earlier one is |
| PatternSolver.NumericalAnswer | src/solvers/pattern_solver.py:270-296 | in [0, 999]; 42 without numbers; the largest number when in range, else the smallest when in range; the largest modulo 1000 when no operation lands in range |
| PatternSolver.NumericalAnswerOfSmallNumbers | src/solvers/pattern_solver.py:278-289 | when every number is in range the answer is the largest |
| PatternSolver.BasicNumericalAnalysis | src/solvers/pattern_solver.py:270-296 | the loop computes the numerical answer |
| Geometry.LengthGroups | src/solvers/geometry_solver.py:176-178 | one pair of groups per match of the length pattern; each name is two capitals of the text |
| Geometry.AngleGroups | src/solvers/geometry_solver.py:187-189 | one pair of groups per match of the angle pattern; each name is three capitals of the text |
| Geometry.LengthsBeforeAngles | src/solvers/geometry_solver.py:169-197 | every length constraint, in match order, precedes every angle constraint, and there is one per match |
| Geometry.ExtractGeometricConstraints | src/solvers/geometry_solver.py:169-197 | the two loops build exactly that constraint list |
| Geometry.CollectConstraints | src/solvers/geometry_solver.py:179-184 | one loop appends exactly one constraint per match |
| Geometry.ConstraintShapes | src/solvers/geometry_solver.py:176-195 | a length constraint names two capitals and an angle constraint three, all found in the text |
| Geometry.TargetProperty | src/solvers/geometry_solver.py:199-212 | "area" over "distance" (for length or distance) over "angle" over "ratio", each exactly when its word occurs and no earlier one does; "unknown" when none does |
| Geometry.TargetHasHandler | src/solvers/geometry_solver.py:199-212 | the target is a handler key or "unknown", and never "perimeter" (see also lines 73-79) |
| Geometry.FirstNaming | src/solvers/geometry_solver.py:290-295 | the first constraint of the kind naming the side either way; none before it does |
| Geometry.Lookup | src/solvers/geometry_solver.py:290-295 | nothing exactly when no constraint of the kind names the item (see also lines 312-316) |
| Geometry.LookupFirst | src/solvers/geometry_solver.py:290-295 | the first constraint naming the item gives its value, whatever follows |
| Geometry.LookupSkips | src/solvers/geometry_solver.py:290-295 | a constraint naming something else is passed over |
| Geometry.AngleOrder | src/solvers/geometry_solver.py:308-311 | for a triangle ABC the angles looked up are CAB, ABC and BCA |
| Geometry.FoundShape | src/solvers/geometry_solver.py:287-320 | at most three values, in side or angle order, one for each item found; three exactly when all are found |
| Geometry.GetTriangleSides | src/solvers/geometry_solver.py:280-299 | the loop collects, in order, the first length given for each side |
| Geometry.GetTriangleAngles | src/solvers/geometry_solver.py:301-320 | the loop collects, in order, the first angle given for each vertex |
| Geometry.SideEitherOrder | src/solvers/geometry_solver.py:289-293 | a side is found whichever way round its vertices are written |
| Geometry.AngleNeverReversed | src/solvers/geometry_solver.py:312-316 | an angle written with its vertices reversed is not found |
| Geometry.CreateElement | src/solvers/geometry_solver.py:139-167 | an element only for a triangle, labelled by its vertices, or an angle with a numeric value, labelled "angle_" and its points; a circle fails inside the `try` and other types give none |
| Geometry.TriangleVertices | src/solvers/geometry_solver.py:117-119 | one vertex group per triangle match, three capitals of the text (see also line 47) |
| Geometry.TriangleElementShape | src/solvers/geometry_solver.py:144-151 | every triangle match gives an element with three vertices labelled in capitals |
| Geometry.ElementLabelsDiffer | src/solvers/geometry_solver.py:124-159 | an angle element never overwrites a triangle element in the element map |
| Geometry.FirstAbove | src/solvers/geometry_solver.py:339-341 | the first number above the bound; none before it is |
| Geometry.GeometricHeuristics | src/solvers/geometry_solver.py:322-344 | an int or float in [0, 1000); 42 without numbers; a triangle gives 90 when right or perpendicular, then 60 when equilateral; a circle with a diameter or radius gives the first number above 10, truncated, modulo 1000, otherwise 360; every other case the largest number modulo 1000 |
| Geometry.ApplyGeometricHeuristics | src/solvers/geometry_solver.py:322-344 | the version with the loop over the numbers computes the heuristics |
| Aimo.Scores | src/main.py:69-101 | one score per category, in table order: the number of that category's indicator words present in the lower-cased text, between 0 and the size of its indicator list, and 0 exactly when none of them is present |
| Aimo.FirstEqual | src/main.py:106-108 | the first category whose score equals the given one; every earlier score differs, and it exists when the score occurs |
| Aimo.ProblemType | src/main.py:56-111 | always one of the solver table's keys |
| Aimo.PatternIffNoScore | src/main.py:103-111 | the type is "pattern" exactly when every score is 0 |
| Aimo.PatternIffNoIndicator | src/main.py:69-111 | the type is "pattern" exactly when no indicator word of any category occurs |
| Aimo.BestScoreWins | src/main.py:103-108 | a chosen category has a positive score, none higher, and every earlier category scores strictly less |
| Aimo.EarliestBest | src/main.py:93-108 | for the text: the chosen category counts at least one and at most all its indicators, no category counts more, and every earlier one counts fewer |
| Aimo.CategoriesDistinct | src/main.py:70-91 | the five category names are distinct |
| Aimo.AIMOSolver.CountIndicators | src/main.py:99-101 | the inner loop counts exactly the indicator words present |
| Aimo.AIMOSolver.ScoreCategories | src/main.py:94-101 | the nested loops compute exactly the scores |
| Aimo.AIMOSolver.SelectType | src/main.py:103-111 | the maximum-and-search loop returns the type the scores determine |
| Aimo.AIMOSolver.IdentifyProblemType | src/main.py:56-111 | `_identify_problem_type` returns the problem's type |
| Aimo.Answer | src/main.py:134-155 | in [0, 999]; the chosen solver's result modulo 1000; after a `None` from another solver, the pattern solver's result modulo 1000; 42 when a call raises or nothing is returned |
| Aimo.AIMOSolver.Dispatch | src/main.py:134-151 | computes the answer and reports whether the chosen solver returned a value |
| Aimo.AIMOSolver.constructor | src/main.py:33-52 | all counters start at 0, with one usage counter per solver |
| Aimo.AIMOSolver.SolveProblem | src/main.py:113-155 | the answer for the problem's type; one more problem processed, one more use of exactly the chosen solver, one more success exactly when that solver returned a value; the counters stay consistent |
| Aimo.AIMOSolver.Statistics | src/main.py:157-167 | the three counters, and the success rate, between 0 and 1: successes over problems, 0 before any problem |

## Left out

- Number parsing is the `NumberExtractor` parameter, and its floating-point behaviour is not modelled. `_extract_numbers` in `base_solver.py` uses `float(x)` for literals and `float(n)/float(d)` for `\frac`; a zero denominator raises `ZeroDivisionError`, which the model's extractor reports as `None`, and the `Solve` members then answer 42. `_extract_numbers` in `latex_parser.py` uses `float(sympify(num)) / float(sympify(den))` and skips a fraction only when that raises `SympifyError`, `ValueError` or `ZeroDivisionError`; any other conversion failure, such as the `TypeError` from `float(sympify('x'))` in `\frac{x}{2}`, drops the whole span, which the model's extractor reports as `None`.
- Floating-point rounding, overflow, `inf` and `nan` are not modelled: floats are exact reals. The sequence solvers' `1e-10` tolerance on differences and ratios is modelled as exact equality.
- The general regular-expression engine is not modelled. Each fixed pattern the core uses is a hand-written scanner over ASCII text, and Unicode case folding is not modelled.
- `sympy.isprime`, `sympy.primefactors` and `sympy.lcm` are given by their mathematical definitions, because sympy's code is not part of this model.
- `statistics.mean` is exact, because floats are reals. The median operation of the general arithmetic solver is never reached, because the truncated mean modulo 1000 before it is always in range.
- MathHelpers.ModInverse: requires `m != 0`. For `m == 0`, `mod_inverse` returns None when `a != 1` and raises `ZeroDivisionError` when `a == 1`; no caller passes 0.
- MathHelpers.ModInverseFixed: requires `m != 0` for the same reason as `ModInverse`.
- MathHelpers.FibonacciMod: requires `m != 0`. For `m == 0`, `fibonacci_mod` returns `n` when `n <= 1` and raises `ZeroDivisionError` otherwise; no caller passes 0.
- MathHelpers.BinomialMod: requires `m != 0`. For `m == 0`, `binomial_mod` takes its early exits (0 or 1) and raises `ZeroDivisionError` otherwise; no caller passes 0.
- MathHelpers.MeanMod: requires `m != 0`. For `m == 0`, `mean_mod` returns 0 for an empty list and raises `ZeroDivisionError` otherwise; no caller passes 0.
- `euler_totient` and `_find_primitive_root` are not modelled, because they depend on float products and `sympy` internals.
- `is_perfect_square`, `is_perfect_cube`, `triangle_area` and `circle_area` in `math_helpers.py` are not modelled, because each is a float square root or a product with `math.pi`.
- `LatexParser.try_evaluate` is not modelled, because it calls sympy's LaTeX parser and evaluator. `parse_latex` in `src/utils/__init__.py` only forwards to `parse_problem`, which `LatexParser.ParseProblem` models.
- Heron's formula, the side-angle-side area and the rest of the geometry solve pipeline are not modelled. `GeometrySolver.__init__` already raises, because its handler tables name methods the class does not define; the model covers the geometry text analysis and heuristics.
- Aimo.AIMOSolver.constructor: the source's constructor raises at `src/main.py:39`, because `GeometrySolver()` fails as described above, so the counters at lines 47-51 are never set. The model assumes a solver table that can be built, with each solver given by the abstract `SolverCall` parameter; `Dispatch` and `SolveProblem` rest on the same assumption.
- `main.py` uses `List` without importing it, which would raise `NameError` when the module loads. The model assumes the evidently intended import.
- The `parse_latex` call in `AIMOSolver.solve_problem` is not modelled, because its result is never used.
- `predict`, the Kaggle inference server and the Polars/Pandas data frames are I/O and are not modelled.
- Logging and `functools.lru_cache` are not modelled, because neither changes a result.
- The `related_elements`, `constraints` and `operations` fields of the solvers' problem records stay empty in the source. They are modelled as empty.
- `PatternSolver._handle_by_type` is modelled only as the exception it raises: its table names handlers the class lacks. The exception leads `solve` to answer 42.
- `PatternSolver._handle_geometry` is modelled only as `None`, because it calls methods that do not exist and its `try` turns that into `None`.
- `PatternSolver._basic_numerical_analysis` is unreachable from `solve`, because the fallback table raises first. It is modelled on its own as `PatternSolver.NumericalAnswer`.
- The combinatorics solver is modelled with the corrected `Combination` (see Findings). The as-written `_combination` raises for every `(n, r)` with `r <= n` and `min(r, n - r) >= 2`, so the following members state more than the source delivers there:
- Combinatorics.HandleCombination: as written, `_handle_combination` returns None whenever the `(n, r)` it passes to `_combination` has `r <= n` and `min(r, n - r) >= 2`, because its `try` catches the exception. The model returns `C(n, r) mod 1000` there.
- Combinatorics.HandleArrangement: its unordered case goes through `_handle_combination`, so as written it too returns None for such `(n, r)`.
- Combinatorics.SolveGeneralCombinatorics: as written, its unordered case also returns None for such `(n, r)`.
- Combinatorics.SolveCombinatoricsProblem: as written, it returns None for a combination problem, and for an unordered arrangement or unordered unknown-type problem, whose `(n, r)` has `r <= n` and `min(r, n - r) >= 2`. The model returns `C(n, r) mod 1000`.
- Combinatorics.Heuristics: as written, the "combination", "choose" and "ways" branches with two or more integers raise when the largest number `n` and the second largest `r` have `min(r, n - r) >= 2`. The model returns `C(n, r) mod 1000`.
- Combinatorics.Answer: as written, such a problem gets None from its handler and the heuristics then raise, so `_solve_combinatorics_problem` and `_apply_combinatorics_heuristics` give no answer. The model answers `C(n, r) mod 1000`.
- Combinatorics.Solve: as written, `solve` catches that exception and answers 42. For example, "choose 3 of 10" with the literals 3 and 10 gets 42 from the source and 120 from the model.
- `PatternSolver.NumericalAnswer`: the sum and product candidates are not stated one by one. The contract states the range, the largest and smallest candidates, and the fallback.
- `PatternSolver.HandleDivisibility`: for negative numbers the result is stated only up to the sign of the gcd.

## Findings

| source | as written | input that shows it | evidently intended | confidence | as-written member | corrected member |
|---|---|---|---|---|---|---|
| src/utils/math_helpers.py:108-119 | `extended_gcd` keeps the sign of its arguments through Python's `%`, so for a negative `a` it reports a gcd of `-1`, and `mod_inverse` then answers `None` | `mod_inverse(-3, 7)` gives `None`, although `-3 * 2 = -6 ≡ 1 (mod 7)` | an inverse whenever `gcd(a, m) = 1` | not executed | MathHelpers.ModInverseMissesNegativeArgument | MathHelpers.ModInverseFixed |
| src/utils/latex_parser.py:204 | the quadratic pattern `[a-zA-Z]\^{2}` reads `{2}` as a repetition count, so it matches a letter followed by `^^` | `x^{2}` is not reported as "quadratic" | a letter followed by `^{2}` or `^2` is quadratic | not executed | LatexParser.SquaredInBracesMissed | LatexParser.CorrectedFindsBraces |
| src/solvers/combinatorics_solver.py:91-100 | `_combination` divides through `pow(i + 1, -1, 1000)`, which raises for `i + 1 = 2` because 2 has no inverse modulo 1000 | `_combination(5, 2)` raises, where `C(5, 2) = 10` | `C(n, r) mod 1000` | not executed | Combinatorics.CombinationAsWrittenFailsOnFiveChooseTwo | Combinatorics.Combination |
