/**
 * What every solver shares: the initialisation flag, the preprocessing of a
 * problem (text cleaning, math spans, LaTeX commands, a keyword category)
 * and the final normalisation of an answer.
 */
module BaseSolver {
  import opened Common
  import opened Text
  import opened Scan
  import opened LatexParser
  import Utils

  /** The preprocessed problem every solver works on. */
  datatype MathProblem = MathProblem(
    rawText: string,
    cleanedText: string,
    expressions: seq<string>,
    numbers: seq<real>,
    problemType: string,
    latexCommands: map<string, seq<string>>)

  /** The state a solver keeps: whether its resources are set up. */
  class Solver {
    var isInitialized: bool

    constructor()
      ensures !isInitialized
    {
      isInitialized := false;
    }

    /**
     * `initialize`: sets the flag the first time (resource setup does nothing
     * and cannot fail); a second call changes nothing.
     */
    method Initialize()
      modifies this
      ensures isInitialized
      ensures old(isInitialized) ==> unchanged(this)
    {
      if !isInitialized {
        isInitialized := true;
      }
    }
  }

  // ---------------------------------------------------------------------------
  // Text cleaning

  /**
   * `_clean_text`: `\\` and `\,` become blanks, whitespace runs become one
   * blank, and the ends are stripped.
   */
  function CleanText(text: string): (r: string)
    ensures Tidy(r) && OnlyBlanks(r)
    ensures !Contains(r, "\\\\") && !Contains(r, "\\,")
    ensures forall q :: SpaceFree(q) && Contains(r, q) ==> Contains(text, q)
    ensures !Contains(text, "\\\\") && !Contains(text, "\\,") ==> NonSpace(r) == NonSpace(text)
  {
    CleanLiterals();
    CleanSteps(text, "\\\\", "\\,");
    CleanKeepsContent(text);
    Strip(Collapse(Replace(Replace(text, "\\\\", " "), "\\,", " ")))
  }

  /** Without either pattern, cleaning only changes whitespace. */
  lemma CleanKeepsContent(text: string)
    ensures !Contains(text, "\\\\") && !Contains(text, "\\,") ==>
      NonSpace(Strip(Collapse(Replace(Replace(text, "\\\\", " "), "\\,", " ")))) == NonSpace(text)
  {
    if !Contains(text, "\\\\") && !Contains(text, "\\,") {
      ReplaceAbsent(text, "\\\\", " ");
      ReplaceAbsent(text, "\\,", " ");
      CollapseShape(text);
      StripShape(Collapse(text));
    }
  }

  /**
   * A `\\` or a `\,` between two pieces of plain text (no backslash) is
   * cleaned exactly as a blank in its place would be.
   */
  lemma CleanTextBlank(a: string, p: string, b: string)
    requires '\\' !in a && '\\' !in b && (p == "\\\\" || p == "\\,")
    ensures CleanText(a + p + b) == CleanText(a + " " + b)
  {
    var plain := a + " " + b;
    assert '\\' !in plain;
    ReplacePlain(plain, "\\\\", " ");
    ReplacePlain(plain, "\\,", " ");
    if p == "\\\\" {
      ReplaceOnce(a, b, "\\\\", " ");
    } else {
      ReplaceOther(a, p, b, "\\\\", " ");
      ReplaceOnce(a, b, "\\,", " ");
    }
  }

  /** The two patterns `_clean_text` removes hold no whitespace. */
  lemma CleanLiterals()
    ensures SpaceFree("\\\\") && SpaceFree("\\,")
  {
  }

  /** A blank shares no character with a pattern free of whitespace. */
  lemma BlankDisjoint(q: string)
    requires SpaceFree(q)
    ensures Disjoint(" ", q)
  {
    assert IsSpace(' ');
  }

  /** The cleaning steps with the two removed patterns left abstract. */
  lemma CleanSteps(text: string, p1: string, p2: string)
    requires p1 != [] && p2 != [] && SpaceFree(p1) && SpaceFree(p2)
    ensures var r := Strip(Collapse(Replace(Replace(text, p1, " "), p2, " ")));
      Tidy(r) && OnlyBlanks(r) && !Contains(r, p1) && !Contains(r, p2) &&
      forall q :: SpaceFree(q) && Contains(r, q) ==> Contains(text, q)
  {
    var once := Replace(text, p1, " ");
    var twice := Replace(once, p2, " ");
    var collapsed := Collapse(twice);
    var r := Strip(collapsed);
    CleanTextShape(twice, collapsed, r);
    BlankDisjoint(p1);
    BlankDisjoint(p2);
    ReplaceRemoves(text, p1, " ");
    ReplaceKeepsAbsent(once, p2, " ", p1);
    ReplaceRemoves(once, p2, " ");
    CollapseKeepsAbsent(twice, p1);
    CollapseKeepsAbsent(twice, p2);
    StripKeepsAbsent(collapsed, p1);
    StripKeepsAbsent(collapsed, p2);
    forall q | SpaceFree(q) && Contains(r, q) ensures Contains(text, q) {
      BlankDisjoint(q);
      StripKeepsAbsent(collapsed, q);
      CollapseKeepsAbsent(twice, q);
      ReplaceKeepsAbsent(once, p2, " ", q);
      ReplaceKeepsAbsent(text, p1, " ", q);
    }
  }

  lemma CleanTextShape(twice: string, collapsed: string, r: string)
    requires collapsed == Collapse(twice) && r == Strip(collapsed)
    ensures Tidy(r) && OnlyBlanks(r)
  {
    CollapseShape(twice);
    StripShape(collapsed);
    CollapseBlanks(twice);
    var a, b := StripSlice(collapsed);
    forall i | 0 <= i < |r| && IsSpace(r[i]) ensures r[i] == ' ' {
      assert r[i] == collapsed[a + i];
    }
  }

  /** Cleaning a cleaned text changes nothing. */
  lemma CleanTextIdempotent(text: string)
    ensures CleanText(CleanText(text)) == CleanText(text)
  {
    var c := CleanText(text);
    ReplaceAbsent(c, "\\\\", " ");
    ReplaceAbsent(c, "\\,", " ");
    CollapseFixed(c);
    var a, b := StripSlice(c);
    assert Strip(c) == c;
  }

  // ---------------------------------------------------------------------------
  // Math spans

  /** The three span patterns of `_extract_math_expressions`, each searched on its own. */
  const MathPatterns: seq<seq<seq<Token>>> := [InlinePattern, [DisplayPattern[0]], [DisplayPattern[1]]]

  /** The opening and closing delimiters of the three patterns. */
  const Delimiters: seq<(string, string)> := [("$", "$"), ("\\[", "\\]"), ("\\(", "\\)")]

  /** `w` was written between the delimiters of one of the patterns, and holds no closing one. */
  predicate DelimitedBody(text: string, w: string) {
    exists a :: 0 <= a < |Delimiters| &&
      Contains(text, Delimiters[a].0 + w + Delimiters[a].1) && !Contains(w, Delimiters[a].1)
  }

  /** Every span pattern is an opening literal, a lazy body and its closing literal. */
  lemma MathPatternsDelimited()
    ensures forall a :: 0 <= a < |MathPatterns| ==> Delimited(MathPatterns[a])
  {
  }

  /** The bodies `re.findall` returns for the first `n` patterns in turn, concatenated. */
  function Bodies(text: string, n: nat): (r: seq<string>)
    requires n <= |MathPatterns|
    ensures forall w :: w in r ==> exists a :: 0 <= a < n && Delimited(MathPatterns[a]) && w in FindAllGroup(text, MathPatterns[a], 1)
  {
    MathPatternsDelimited();
    if n == 0 then [] else Bodies(text, n - 1) + FindAllGroup(text, MathPatterns[n - 1], 1)
  }

  /** What `_extract_math_expressions` returns. */
  function MathExpressions(text: string): seq<string> {
    NonEmpty(Bodies(text, |MathPatterns|))
  }

  /**
   * `_extract_math_expressions`: the `$…$` bodies, then the `\[…\]` bodies,
   * then the `\(…\)` bodies, with the empty ones dropped.
   */
  method ExtractMathExpressions(text: string) returns (r: seq<string>)
    ensures r == MathExpressions(text)
    ensures forall w :: w in r ==> w != [] && '\n' !in w && DelimitedBody(text, w)
  {
    MathPatternsDelimited();
    var expressions := [];
    for i := 0 to |MathPatterns|
      invariant expressions == Bodies(text, i)
    {
      expressions := expressions + FindAllGroup(text, MathPatterns[i], 1);
    }
    r := NonEmpty(expressions);
    MathExpressionsShape(text);
  }

  /** Every reported span body is non-empty, on one line, and delimited in the text. */
  lemma MathExpressionsShape(text: string)
    ensures forall w :: w in MathExpressions(text) ==> w != [] && '\n' !in w && DelimitedBody(text, w)
  {
    MathPatternsDelimited();
    forall w | w in MathExpressions(text) ensures w != [] && '\n' !in w && DelimitedBody(text, w) {
      var a :| 0 <= a < |MathPatterns| && Delimited(MathPatterns[a]) && w in FindAllGroup(text, MathPatterns[a], 1);
      MemberBody(text, a, w);
    }
  }

  lemma MemberBody(text: string, a: nat, w: string)
    requires a < |MathPatterns| && Delimited(MathPatterns[a]) && w in FindAllGroup(text, MathPatterns[a], 1)
    ensures '\n' !in w && DelimitedBody(text, w)
  {
    var k :| 0 <= k < |FindAllGroup(text, MathPatterns[a], 1)| && FindAllGroup(text, MathPatterns[a], 1)[k] == w;
    PatternBody(text, a, k);
  }

  /** The `k`-th body of pattern `a` sits between that pattern's delimiters. */
  lemma PatternBody(text: string, a: nat, k: nat)
    requires a < |MathPatterns| && Delimited(MathPatterns[a]) && k < |FindAllGroup(text, MathPatterns[a], 1)|
    ensures var w := FindAllGroup(text, MathPatterns[a], 1)[k];
      '\n' !in w && DelimitedBody(text, w)
  {
    var (open, close) := Delimiters[a];
    assert MathPatterns[a] == [[Lit(open), LazyUntil(close), Lit(close)]];
    SingleBody(text, open, close, k);
  }

  /** A body found by a one-alternative delimited pattern sits between its delimiters. */
  lemma SingleBody(text: string, open: string, close: string, k: nat)
    requires close != [] && k < |FindAllGroup(text, [[Lit(open), LazyUntil(close), Lit(close)]], 1)|
    ensures var w := FindAllGroup(text, [[Lit(open), LazyUntil(close), Lit(close)]], 1)[k];
      '\n' !in w && !Contains(w, close) && Contains(text, open + w + close)
  {
    var pats := [[Lit(open), LazyUntil(close), Lit(close)]];
    var w := FindAllGroup(text, pats, 1)[k];
    var alt, p := DelimitedSpan(text, pats, k);
    assert IsPrefixAt(text, open + w + close, p);
  }

  // ---------------------------------------------------------------------------
  // LaTeX commands

  /** A command name and argument as `_extract_latex_commands` may record them. */
  predicate CommandShape(text: string, name: string, arg: string) {
    name != [] && AllIn(name, AlphaChars) && Contains(text, "\\" + name) &&
    '}' !in arg && (arg != [] ==> Contains(text, "{" + arg + "}"))
  }

  /**
   * `_extract_latex_commands`: every command name seen is a key, and its
   * list holds its non-empty first-brace arguments in order.
   */
  method ExtractLatexCommands(text: string) returns (commands: map<string, seq<string>>)
    ensures commands == CommandTable(CommandPairs(text, false))
    ensures forall name :: name in commands ==> CommandShape(text, name, [])
    ensures forall name, arg :: name in commands && arg in commands[name] ==>
      arg != [] && CommandShape(text, name, arg)
  {
    var pairs := CommandPairs(text, false);
    commands := CollectCommands(pairs);
    CommandPairsShape(text, false);
    assert forall k :: 0 <= k < |pairs| ==> CommandShape(text, pairs[k].0, pairs[k].1);
    TableShape(text, pairs);
  }

  /** Every key and argument of a command table comes from a well-shaped pair. */
  lemma TableShape(text: string, pairs: seq<(string, string)>)
    requires forall k :: 0 <= k < |pairs| ==> CommandShape(text, pairs[k].0, pairs[k].1)
    ensures forall name :: name in CommandTable(pairs) ==> CommandShape(text, name, [])
    ensures forall name, arg :: name in CommandTable(pairs) && arg in CommandTable(pairs)[name] ==>
      arg != [] && CommandShape(text, name, arg)
  {
    CommandTableContents(pairs);
    forall name | name in CommandTable(pairs) ensures CommandShape(text, name, []) {
      var k :| 0 <= k < |pairs| && pairs[k].0 == name;
    }
    forall name, arg | name in CommandTable(pairs) && arg in CommandTable(pairs)[name]
      ensures arg != [] && CommandShape(text, name, arg)
    {
      var k :| 0 <= k < |pairs| && pairs[k] == (name, arg);
    }
  }

  // ---------------------------------------------------------------------------
  // Problem category

  const ProblemCategories: seq<string> := ["geometry", "algebra", "number_theory", "combinatorics", "sequence"]

  const CategoryKeywords: seq<seq<string>> := [
    ["triangle", "angle", "circle", "square", "rectangle"],
    ["solve", "equation", "polynomial", "factor"],
    ["prime", "factor", "modulo", "divisor"],
    ["permutation", "combination", "ways"],
    ["sequence", "series", "fibonacci", "arithmetic"]]

  /**
   * `_identify_problem_type`: the first category, in table order, with one of
   * its keywords in the lower-cased text, else `unknown`.
   */
  function IdentifyProblemType(text: string): (r: string)
    ensures r == "unknown" <==> forall k :: 0 <= k < |CategoryKeywords| ==> !ContainsAny(Lower(text), CategoryKeywords[k])
    ensures forall k :: 0 <= k < |ProblemCategories| ==>
      (r == ProblemCategories[k] <==>
        ContainsAny(Lower(text), CategoryKeywords[k]) &&
        forall j :: 0 <= j < k ==> !ContainsAny(Lower(text), CategoryKeywords[j]))
  {
    var i := FirstPresent(Lower(text), CategoryKeywords);
    assert forall k, j :: 0 <= k < j < |ProblemCategories| ==> ProblemCategories[k] != ProblemCategories[j];
    if i < |ProblemCategories| then ProblemCategories[i] else "unknown"
  }

  /** "factor" is an algebra keyword before it is a number-theory one. */
  lemma FactorIsAlgebra(text: string)
    requires Contains(Lower(text), "factor") && !ContainsAny(Lower(text), CategoryKeywords[0])
    ensures IdentifyProblemType(text) == "algebra"
  {
    assert CategoryKeywords[1][3] == "factor";
  }

  // ---------------------------------------------------------------------------
  // Answers

  /**
   * `_ensure_valid_answer`: 0 for `None` and for a value `int(float(…))`
   * rejects, otherwise the integer part modulo 1000 (the `+ 1000` branch for
   * a negative remainder is never taken).
   */
  function EnsureValidAnswer(v: PyValue): (r: int)
    ensures 0 <= r < 1000
    ensures AsInt(v).None? ==> r == 0
    ensures AsInt(v).Some? ==> (AsInt(v).value - r) % 1000 == 0
    ensures AsInt(v).Some? && 0 <= AsInt(v).value < 1000 ==> r == AsInt(v).value
  {
    if v.PyNone? then 0
    else
      match AsInt(v)
      case None => 0
      case Some(i) =>
        PyModIsEuclideanForPositiveDivisor(i, 1000);
        var answer := PyMod(i, 1000);
        if answer >= 0 then answer else answer + 1000
  }

  /** `_ensure_valid_answer` and `mod_1000` agree on every value a solver produces. */
  lemma EnsureValidAnswerIsMod1000(v: PyValue)
    ensures EnsureValidAnswer(v) == Utils.Mod1000(v)
  {
  }

  // ---------------------------------------------------------------------------
  // Preprocessing

  /** `preprocess`; `None` where number extraction raises. */
  method Preprocess(text: string, extractNumbers: NumberExtractor) returns (p: Option<MathProblem>)
    ensures p.None? <==> extractNumbers(CleanText(text)).None?
    ensures p.Some? ==> p.value == MathProblem(text, CleanText(text), MathExpressions(CleanText(text)),
      extractNumbers(CleanText(text)).value, IdentifyProblemType(CleanText(text)),
      CommandTable(CommandPairs(CleanText(text), false)))
  {
    var cleaned := CleanText(text);
    var expressions := ExtractMathExpressions(cleaned);
    var numbers := extractNumbers(cleaned);
    if numbers.None? {
      return None;
    }
    var commands := ExtractLatexCommands(cleaned);
    p := Some(MathProblem(text, cleaned, expressions, numbers.value, IdentifyProblemType(cleaned), commands));
  }
}
