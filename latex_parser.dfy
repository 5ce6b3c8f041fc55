/**
 * The LaTeX front end of the solver.  It finds the `$…$`, `\[…\]` and `\(…\)`
 * spans of a problem, normalises each one, and records its single-letter
 * variables, its commands with their brace arguments, its numbers and whether
 * it states an equation.  It also recognises two special forms (a squared
 * letter and a sequence term `a_n`) and collects geometric names.
 */
module LatexParser {
  import opened Common
  import opened Text
  import opened Scan

  datatype MathMode = Inline | Display

  datatype LatexExpression = LatexExpression(
    rawText: string,
    cleanedText: string,
    mathMode: MathMode,
    variables: set<char>,
    commands: map<string, seq<string>>,
    numbers: seq<real>,
    hasEquation: bool)

  /** Number extraction (float parsing and sympy fractions): the numbers, or `None` where it raises. */
  type NumberExtractor = string -> Option<seq<real>>

  // ---------------------------------------------------------------------------
  // Math spans

  /** `\$(.*?)\$` */
  const InlinePattern: seq<seq<Token>> := [[Lit("$"), LazyUntil("$"), Lit("$")]]

  /** `\\\[(.*?)\\\]|\\\((.*?)\\\)` */
  const DisplayPattern: seq<seq<Token>> :=
    [[Lit("\\["), LazyUntil("\\]"), Lit("\\]")], [Lit("\\("), LazyUntil("\\)"), Lit("\\)")]]

  /** Every alternative is an opening literal, a lazy body and its closing literal. */
  predicate Delimited(alts: seq<seq<Token>>) {
    forall a :: 0 <= a < |alts| ==>
      |alts[a]| == 3 && alts[a][0].Lit? && alts[a][2].Lit? && alts[a][2].text != [] &&
      alts[a][1] == LazyUntil(alts[a][2].text)
  }

  /** A body between two delimiters, with no closing delimiter starting inside it. */
  lemma DelimitedSlices(text: string, b0: nat, b1: nat, b2: nat, b3: nat, open: string, close: string)
    requires b0 <= b1 <= b2 <= b3 <= |text| && close != []
    requires text[b0..b1] == open && text[b2..b3] == close
    requires forall q :: b1 <= q < b2 ==> !IsPrefixAt(text, close, q)
    ensures IsPrefixAt(text, open + text[b1..b2] + close, b0) && !Contains(text[b1..b2], close)
  {
    var w := text[b1..b2];
    assert text[b0..b3] == text[b0..b1] + text[b1..b2] + text[b2..b3];
    if j :| 0 <= j <= |w| - |close| && IsPrefixAt(w, close, j) {
      SliceOfSlice(text, b1, b2, j, |close|);
      assert IsPrefixAt(text, close, b1 + j);
    }
  }

  /**
   * The `k`-th body found sits, at `p`, between the delimiters of alternative
   * `a`; it holds no newline and does not contain its closing delimiter.
   */
  lemma DelimitedSpan(text: string, alts: seq<seq<Token>>, k: nat) returns (a: nat, p: nat)
    requires Delimited(alts) && k < |FindAllGroup(text, alts, 1)|
    ensures var w := FindAllGroup(text, alts, 1)[k];
      a < |alts| && '\n' !in w && !Contains(w, alts[a][2].text) &&
      IsPrefixAt(text, alts[a][0].text + w + alts[a][2].text, p)
  {
    var m := FindAll(text, alts, 0)[k];
    FindAllGroupFits(text, alts, 1, k);
    FindAllParses(text, alts, 0, k);
    a, p := m.alt, m.bounds[0];
    DelimitedParse(text, alts[a], m.bounds);
  }

  /** One match of a delimited alternative: the facts `DelimitedSpan` reports. */
  lemma DelimitedParse(text: string, pat: seq<Token>, b: seq<nat>)
    requires |pat| == 3 && pat[0].Lit? && pat[2].Lit? && pat[2].text != [] && pat[1] == LazyUntil(pat[2].text)
    requires |b| == 4 && Parse(text, b[0], pat, b)
    ensures var w := text[b[1]..b[2]];
      '\n' !in w && !Contains(w, pat[2].text) && IsPrefixAt(text, pat[0].text + w + pat[2].text, b[0])
  {
    assert TokenFits(text, b[0], b[1], pat[0]);
    assert TokenFits(text, b[1], b[2], pat[1]);
    assert TokenFits(text, b[2], b[3], pat[2]);
    DelimitedSlices(text, b[0], b[1], b[2], b[3], pat[0].text, pat[2].text);
  }

  /**
   * `_find_inline_math`: the text between each pair of dollars, empty spans
   * included; every body lies between two dollars of the text, on one line.
   */
  function FindInlineMath(text: string): (r: seq<string>)
    ensures forall k :: 0 <= k < |r| ==>
      '\n' !in r[k] && '$' !in r[k] && Contains(text, "$" + r[k] + "$")
  {
    InlineSpans(text);
    FindAllGroup(text, InlinePattern, 1)
  }

  /**
   * `_find_display_math`: `\[…\]` and `\(…\)` bodies in text order, empty
   * ones dropped; every body is written between one pair of delimiters.
   */
  function FindDisplayMath(text: string): (r: seq<string>)
    ensures forall k :: 0 <= k < |r| ==>
      r[k] != [] && '\n' !in r[k] &&
      ((Contains(text, "\\[" + r[k] + "\\]") && !Contains(r[k], "\\]")) ||
       (Contains(text, "\\(" + r[k] + "\\)") && !Contains(r[k], "\\)")))
  {
    DisplaySpans(text);
    NonEmpty(FindAllGroup(text, DisplayPattern, 1))
  }

  /** The `k`-th body between dollars. */
  lemma InlineSpan(text: string, k: nat)
    requires k < |FindAllGroup(text, InlinePattern, 1)|
    ensures var w := FindAllGroup(text, InlinePattern, 1)[k];
      '\n' !in w && '$' !in w && Contains(text, "$" + w + "$")
  {
    var w := FindAllGroup(text, InlinePattern, 1)[k];
    var a, p := DelimitedSpan(text, InlinePattern, k);
    var d := InlinePattern[0][2].text;
    assert a == 0 && d == "$" && InlinePattern[0][0].text == d;
    assert !Contains(w, d) && IsPrefixAt(text, d + w + d, p);
    ContainsChar(w, '$');
  }

  lemma InlineSpans(text: string)
    ensures forall k :: 0 <= k < |FindAllGroup(text, InlinePattern, 1)| ==>
      var w := FindAllGroup(text, InlinePattern, 1)[k];
      '\n' !in w && '$' !in w && Contains(text, "$" + w + "$")
  {
    forall k | 0 <= k < |FindAllGroup(text, InlinePattern, 1)| {
      InlineSpan(text, k);
    }
  }

  lemma DisplayDelimited()
    ensures Delimited(DisplayPattern)
  {
  }

  /** The `j`-th body of a `\[…\]` or `\(…\)` span, before empty ones are dropped. */
  lemma DisplaySpan(text: string, j: nat)
    requires j < |FindAllGroup(text, DisplayPattern, 1)|
    ensures var w := FindAllGroup(text, DisplayPattern, 1)[j];
      '\n' !in w &&
      ((Contains(text, "\\[" + w + "\\]") && !Contains(w, "\\]")) ||
       (Contains(text, "\\(" + w + "\\)") && !Contains(w, "\\)")))
  {
    var w := FindAllGroup(text, DisplayPattern, 1)[j];
    DisplayDelimited();
    var a, p := DelimitedSpan(text, DisplayPattern, j);
    if a == 0 {
      assert IsPrefixAt(text, "\\[" + w + "\\]", p);
    } else {
      assert IsPrefixAt(text, "\\(" + w + "\\)", p);
    }
  }

  lemma DisplaySpans(text: string)
    ensures forall k :: 0 <= k < |NonEmpty(FindAllGroup(text, DisplayPattern, 1))| ==>
      var w := NonEmpty(FindAllGroup(text, DisplayPattern, 1))[k];
      w != [] && '\n' !in w &&
      ((Contains(text, "\\[" + w + "\\]") && !Contains(w, "\\]")) ||
       (Contains(text, "\\(" + w + "\\)") && !Contains(w, "\\)")))
  {
    var all := FindAllGroup(text, DisplayPattern, 1);
    forall k | 0 <= k < |NonEmpty(all)|
      ensures var w := NonEmpty(all)[k];
        w != [] && '\n' !in w &&
        ((Contains(text, "\\[" + w + "\\]") && !Contains(w, "\\]")) ||
         (Contains(text, "\\(" + w + "\\)") && !Contains(w, "\\)")))
    {
      var w := NonEmpty(all)[k];
      assert w in all;
      var j :| 0 <= j < |all| && all[j] == w;
      DisplaySpan(text, j);
    }
  }

  /** `inline_math + display_math`: each body with its mode. */
  function Spans(inline: seq<string>, display: seq<string>): (r: seq<(string, MathMode)>)
    ensures |r| == |inline| + |display|
    ensures forall k :: 0 <= k < |inline| ==> r[k] == (inline[k], Inline)
    ensures forall k :: 0 <= k < |display| ==> r[|inline| + k] == (display[k], Display)
  {
    var a := seq(|inline|, k requires 0 <= k < |inline| => (inline[k], Inline));
    var b := seq(|display|, k requires 0 <= k < |display| => (display[k], Display));
    assert forall k :: 0 <= k < |b| ==> (a + b)[|a| + k] == b[k];
    a + b
  }

  // ---------------------------------------------------------------------------
  // Normalisation

  /**
   * `_clean_expression`: whitespace runs become one blank and the ends are
   * stripped, then `\cdot` and `\times` become `*`.
   */
  function CleanExpression(expr: string): (r: string)
    ensures Tidy(r) && OnlyBlanks(r)
    ensures !Contains(r, "\\cdot") && !Contains(r, "\\times")
    ensures forall q :: SpaceFree(q) && '*' !in q && Contains(r, q) ==> Contains(expr, q)
    ensures !Contains(expr, "\\cdot") && !Contains(expr, "\\times") ==> NonSpace(r) == NonSpace(expr)
  {
    var stripped := Strip(expr);
    var collapsed := Collapse(stripped);
    var once := Replace(collapsed, "\\cdot", "*");
    var r := Replace(once, "\\times", "*");
    CleanSteps(expr, stripped, collapsed, once, r);
    CleanKeepsContent(expr, stripped, collapsed, once, r);
    r
  }

  /** Without `\cdot` or `\times`, cleaning only changes whitespace. */
  lemma CleanKeepsContent(expr: string, stripped: string, collapsed: string, once: string, r: string)
    requires stripped == Strip(expr) && collapsed == Collapse(stripped)
    requires once == Replace(collapsed, "\\cdot", "*") && r == Replace(once, "\\times", "*")
    ensures !Contains(expr, "\\cdot") && !Contains(expr, "\\times") ==> NonSpace(r) == NonSpace(expr)
  {
    if !Contains(expr, "\\cdot") && !Contains(expr, "\\times") {
      CleanLiterals();
      StripKeepsAbsent(expr, "\\cdot");
      StripKeepsAbsent(expr, "\\times");
      CollapseKeepsAbsent(stripped, "\\cdot");
      CollapseKeepsAbsent(stripped, "\\times");
      ReplaceAbsent(collapsed, "\\cdot", "*");
      ReplaceAbsent(collapsed, "\\times", "*");
      StripShape(expr);
      CollapseShape(stripped);
    }
  }

  /**
   * A `\cdot` or a `\times` between two pieces of plain text (no backslash)
   * is cleaned exactly as a `*` in its place would be.
   */
  lemma CleanExpressionStar(a: string, p: string, b: string)
    requires '\\' !in a && '\\' !in b && (p == "\\cdot" || p == "\\times")
    ensures CleanExpression(a + p + b) == CleanExpression(a + "*" + b)
  {
    CleanLiterals();
    var x := Collapse(DropSpaces(a));
    var y := Collapse(DropTrailingSpaces(b));
    StripCollapseAround(a, p, b);
    StripCollapseAround(a, "*", b);
    CharKept(a, '\\');
    CharKept(DropSpaces(a), '\\');
    CharKept(b, '\\');
    CharKept(DropTrailingSpaces(b), '\\');
    StarBetweenPlain(x, p, y);
    StarBetweenPlain(x, "*", y);
  }

  /** Both replacements turn `x + p + y` into `x + "*" + y` when `x` and `y` hold no backslash. */
  lemma StarBetweenPlain(x: string, p: string, y: string)
    requires '\\' !in x && '\\' !in y && (p == "\\cdot" || p == "\\times" || p == "*")
    ensures Replace(Replace(x + p + y, "\\cdot", "*"), "\\times", "*") == x + "*" + y
  {
    var plain := x + "*" + y;
    assert '\\' !in plain;
    ReplacePlain(plain, "\\cdot", "*");
    ReplacePlain(plain, "\\times", "*");
    if p == "\\cdot" {
      ReplaceOnce(x, y, "\\cdot", "*");
    } else if p == "\\times" {
      assert p[..5][1] == 't' != "\\cdot"[1];
      ReplaceOther(x, p, y, "\\cdot", "*");
      ReplaceOnce(x, y, "\\times", "*");
    }
  }


  lemma CleanSteps(expr: string, stripped: string, collapsed: string, once: string, r: string)
    requires stripped == Strip(expr) && collapsed == Collapse(stripped)
    requires once == Replace(collapsed, "\\cdot", "*") && r == Replace(once, "\\times", "*")
    ensures Tidy(r) && OnlyBlanks(r)
    ensures !Contains(r, "\\cdot") && !Contains(r, "\\times")
    ensures forall q :: SpaceFree(q) && '*' !in q && Contains(r, q) ==> Contains(expr, q)
  {
    CleanShape(expr, stripped, collapsed, once, r);
    CleanRemoves(collapsed, once, r);
    forall q | SpaceFree(q) && '*' !in q && Contains(r, q) ensures Contains(expr, q) {
      CleanKeepsAbsent(expr, stripped, collapsed, once, r, q);
    }
  }

  lemma CleanShape(expr: string, stripped: string, collapsed: string, once: string, r: string)
    requires stripped == Strip(expr) && collapsed == Collapse(stripped)
    requires once == Replace(collapsed, "\\cdot", "*") && r == Replace(once, "\\times", "*")
    ensures Tidy(r) && OnlyBlanks(r)
  {
    CleanLiterals();
    CleanTidy(expr, stripped, collapsed, once, r);
    CollapseBlanks(stripped);
    ReplaceBlanks(collapsed, "\\cdot", "*");
    ReplaceBlanks(once, "\\times", "*");
  }

  /** Neither replaced text survives the two replacements. */
  lemma CleanRemoves(collapsed: string, once: string, r: string)
    requires once == Replace(collapsed, "\\cdot", "*") && r == Replace(once, "\\times", "*")
    ensures !Contains(r, "\\cdot") && !Contains(r, "\\times")
  {
    CleanLiterals();
    ReplaceRemoves(collapsed, "\\cdot", "*");
    ReplaceKeepsAbsent(once, "\\times", "*", "\\cdot");
    ReplaceRemoves(once, "\\times", "*");
  }

  /** The replaced texts and their replacement hold no whitespace, and the star is in neither. */
  lemma CleanLiterals()
    ensures SpaceFree("\\cdot") && SpaceFree("\\times") && SpaceFree("*") && OnlyBlanks("*")
    ensures Disjoint("*", "\\cdot") && Disjoint("*", "\\times")
  {
  }

  lemma CleanTidy(expr: string, stripped: string, collapsed: string, once: string, r: string)
    requires stripped == Strip(expr) && collapsed == Collapse(stripped)
    requires once == Replace(collapsed, "\\cdot", "*") && r == Replace(once, "\\times", "*")
    ensures Tidy(r)
  {
    CleanLiterals();
    CollapsedTidy(expr, stripped, collapsed);
    ReplaceKeepsTidy(collapsed, "\\cdot", "*");
    ReplaceKeepsTidy(once, "\\times", "*");
  }

  lemma CollapsedTidy(expr: string, stripped: string, collapsed: string)
    requires stripped == Strip(expr) && collapsed == Collapse(stripped)
    ensures Tidy(collapsed)
  {
    StripShape(expr);
    CollapseShape(stripped);
  }

  lemma CleanKeepsAbsent(expr: string, stripped: string, collapsed: string, once: string, r: string, q: string)
    requires stripped == Strip(expr) && collapsed == Collapse(stripped)
    requires once == Replace(collapsed, "\\cdot", "*") && r == Replace(once, "\\times", "*")
    requires SpaceFree(q) && '*' !in q
    ensures Contains(r, q) ==> Contains(expr, q)
  {
    ReplaceKeepsAbsent(once, "\\times", "*", q);
    ReplaceKeepsAbsent(collapsed, "\\cdot", "*", q);
    CollapseKeepsAbsent(stripped, q);
    StripKeepsAbsent(expr, q);
  }

  /** Cleaning an already cleaned expression changes nothing. */
  lemma CleanExpressionIdempotent(expr: string)
    ensures CleanExpression(CleanExpression(expr)) == CleanExpression(expr)
  {
    var c := CleanExpression(expr);
    var a, b := StripSlice(c);
    assert Strip(c) == c;
    CollapseFixed(c);
    ReplaceAbsent(c, "\\cdot", "*");
    ReplaceAbsent(c, "\\times", "*");
  }

  /** `has_equation`: the cleaned text holds an `=` sign or the text `\eq`. */
  function HasEquation(cleaned: string): (r: bool)
    ensures r <==> '=' in cleaned || Contains(cleaned, "\\eq")
  {
    ContainsChar(cleaned, '=');
    Contains(cleaned, "=") || Contains(cleaned, "\\eq")
  }

  // ---------------------------------------------------------------------------
  // Commands and their arguments

  /**
   * `\\([a-zA-Z]+)(?:\{([^}]*)\})*` when `repeated`, else
   * `\\([a-zA-Z]+)(?:\{([^}]*)\})?`.
   */
  function CommandPattern(repeated: bool): seq<seq<Token>> {
    [[Lit("\\"), Run(AlphaChars, true), Braces(repeated)]]
  }

  /** The capture of the brace group inside a repetition: the content of the last group, or "". */
  function LastBraceContent(w: string): (r: string)
    ensures '}' !in r
    decreases |w|
  {
    if w == [] || w[0] != '{' then []
    else
      match CloseBrace(w, 1)
      case None => []
      case Some(c) =>
        if c + 1 == |w| then
          assert forall q :: 0 <= q < |w[1..c]| ==> w[1..c][q] == w[q + 1];
          w[1..c]
        else LastBraceContent(w[c + 1..])
  }

  /** A non-empty run of brace groups ends with the group whose content is recorded. */
  lemma {:induction false} LastBraceGroup(w: string)
    requires BraceGroups(w) && w != []
    ensures var r := LastBraceContent(w);
      |r| + 2 <= |w| && w[|w| - |r| - 2..] == "{" + r + "}"
    decreases |w|
  {
    var c := CloseBrace(w, 1).value;
    if c + 1 < |w| {
      var tail := w[c + 1..];
      assert LastBraceContent(w) == LastBraceContent(tail);
      assert BraceGroups(tail);
      LastBraceGroup(tail);
      SuffixOfSuffix(w, c + 1, "{" + LastBraceContent(tail) + "}");
    } else {
      assert LastBraceContent(w) == w[1..c];
      SingleBraceGroup(w, c);
    }
  }

  lemma SingleBraceGroup(w: string, c: nat)
    requires 0 < c && c + 1 == |w| && w[0] == '{' && w[c] == '}'
    ensures w == "{" + w[1..c] + "}"
  {
    assert w == [w[0]] + w[1..c] + [w[c]];
  }

  /** A suffix of a suffix of `w` is a suffix of `w`. */
  lemma SuffixOfSuffix(w: string, k: nat, x: string)
    requires k <= |w| && |x| <= |w| - k && w[k..][|w| - k - |x|..] == x
    ensures w[|w| - |x|..] == x
  {
    assert w[k..][|w| - k - |x|..] == w[|w| - |x|..];
  }

  /** The name and the recorded argument of one command match. */
  function CommandOf(text: string, m: Match): (string, string)
    requires WellFormed(|text|, m) && |m.bounds| == 4
  {
    (Group(text, m, 1), LastBraceContent(Group(text, m, 2)))
  }

  /** `re.findall(command_pattern, expr)`: each command name with its recorded argument. */
  function CommandPairs(text: string, repeated: bool): (r: seq<(string, string)>)
    ensures |r| == |FindAll(text, CommandPattern(repeated), 0)|
  {
    var ms := FindAll(text, CommandPattern(repeated), 0);
    seq(|ms|, k requires 0 <= k < |ms| => CommandOf(text, ms[k]))
  }

  /**
   * Each name is a maximal run of letters right after a backslash; each
   * argument has no `}` and, when present, was written in braces.
   */
  lemma CommandPairsShape(text: string, repeated: bool)
    ensures forall k :: 0 <= k < |CommandPairs(text, repeated)| ==>
      var (name, arg) := CommandPairs(text, repeated)[k];
      name != [] && AllIn(name, AlphaChars) && Contains(text, "\\" + name) &&
      '}' !in arg && (arg != [] ==> Contains(text, "{" + arg + "}"))
  {
    var pat := CommandPattern(repeated);
    var ms := FindAll(text, pat, 0);
    forall k | 0 <= k < |ms|
      ensures var (name, arg) := CommandOf(text, ms[k]);
        name != [] && AllIn(name, AlphaChars) && Contains(text, "\\" + name) &&
        '}' !in arg && (arg != [] ==> Contains(text, "{" + arg + "}"))
    {
      FindAllParses(text, pat, 0, k);
      CommandShape(text, repeated, ms[k].bounds);
    }
  }

  /** One command match: the facts `CommandPairsShape` collects. */
  lemma CommandShape(text: string, repeated: bool, b: seq<nat>)
    requires |b| == 4 && Parse(text, b[0], CommandPattern(repeated)[0], b)
    ensures var name := text[b[1]..b[2]];
      var arg := LastBraceContent(text[b[2]..b[3]]);
      name != [] && AllIn(name, AlphaChars) && Contains(text, "\\" + name) &&
      '}' !in arg && (arg != [] ==> Contains(text, "{" + arg + "}"))
  {
    var pat := CommandPattern(repeated)[0];
    assert TokenFits(text, b[0], b[1], pat[0]);
    assert TokenFits(text, b[1], b[2], pat[1]);
    assert TokenFits(text, b[2], b[3], pat[2]);
    var name := text[b[1]..b[2]];
    var w := text[b[2]..b[3]];
    var arg := LastBraceContent(w);
    assert text[b[0]..b[1]] == "\\" by {
      assert Accepts(pat[0], text[b[0]..b[1]]) && pat[0] == Lit("\\");
    }
    assert text[b[0]..b[2]] == text[b[0]..b[1]] + text[b[1]..b[2]] == "\\" + name;
    assert IsPrefixAt(text, "\\" + name, b[0]);
    assert Contains(text, "\\" + name);
    assert name != [] && AllIn(name, AlphaChars);
    BraceArgument(text, b[2], b[3], repeated);
  }

  /** The argument recorded from brace groups matched at `lo..hi` was written in braces there. */
  lemma BraceArgument(text: string, lo: nat, hi: nat, repeated: bool)
    requires TokenFits(text, lo, hi, Braces(repeated))
    ensures var arg := LastBraceContent(text[lo..hi]);
      arg != [] ==> Contains(text, "{" + arg + "}")
  {
    var w := text[lo..hi];
    var arg := LastBraceContent(w);
    if arg != [] {
      assert w != [];
      assert BraceGroups(w) by {
        if !repeated {
          OneGroupIsGroups(w);
        }
      }
      LastBraceGroup(w);
      var start := hi - |arg| - 2;
      assert text[start..hi] == w[|w| - |arg| - 2..];
      assert IsPrefixAt(text, "{" + arg + "}", start);
    }
  }

  lemma OneGroupIsGroups(w: string)
    requires OneBraceGroup(w)
    ensures BraceGroups(w)
  {
    if w != [] {
      assert w[CloseBrace(w, 1).value + 1..] == [];
    }
  }

  /** The arguments kept for `name`: its non-empty arguments, in order. */
  function ArgsOf(pairs: seq<(string, string)>, name: string): (r: seq<string>)
    ensures |r| <= |pairs|
    ensures forall j :: 0 <= j < |r| ==> r[j] != [] && (name, r[j]) in pairs
    ensures forall k :: 0 <= k < |pairs| && pairs[k].0 == name && pairs[k].1 != [] ==> pairs[k].1 in r
  {
    if pairs == [] then []
    else
      var init := pairs[..|pairs| - 1];
      var last := pairs[|pairs| - 1];
      assert forall k :: 0 <= k < |init| ==> pairs[k] == init[k];
      ArgsOf(init, name) + (if last.0 == name && last.1 != [] then [last.1] else [])
  }

  /** The names of the pairs. */
  function Names(pairs: seq<(string, string)>): (r: set<string>)
    ensures forall name :: name in r <==> exists k :: 0 <= k < |pairs| && pairs[k].0 == name
  {
    if pairs == [] then {}
    else
      var init := pairs[..|pairs| - 1];
      assert forall k :: 0 <= k < |init| ==> init[k] == pairs[k];
      Names(init) + {pairs[|pairs| - 1].0}
  }

  /** The dictionary built from the pairs: every name seen is a key. */
  function CommandTable(pairs: seq<(string, string)>): map<string, seq<string>> {
    map name | name in Names(pairs) :: ArgsOf(pairs, name)
  }

  /** One loop step of the dictionary construction. */
  function AddCommand(table: map<string, seq<string>>, pair: (string, string)): map<string, seq<string>> {
    var (name, arg) := pair;
    var t := if name in table then table else table[name := []];
    if arg != [] then t[name := t[name] + [arg]] else t
  }

  lemma CommandTableStep(pairs: seq<(string, string)>, i: nat)
    requires i < |pairs|
    ensures CommandTable(pairs[..i + 1]) == AddCommand(CommandTable(pairs[..i]), pairs[i])
  {
    var lhs := CommandTable(pairs[..i + 1]);
    var rhs := AddCommand(CommandTable(pairs[..i]), pairs[i]);
    forall name ensures name in lhs <==> name in rhs {
      CommandKeyStep(pairs, i, name);
    }
    forall name | name in lhs ensures lhs[name] == rhs[name] {
      CommandTableAt(pairs, i, name);
    }
  }

  lemma CommandKeyStep(pairs: seq<(string, string)>, i: nat, name: string)
    requires i < |pairs|
    ensures name in CommandTable(pairs[..i + 1]) <==> name in AddCommand(CommandTable(pairs[..i]), pairs[i])
  {
    assert pairs[..i + 1][..i] == pairs[..i];
    assert Names(pairs[..i + 1]) == Names(pairs[..i]) + {pairs[i].0};
  }

  lemma CommandTableAt(pairs: seq<(string, string)>, i: nat, name: string)
    requires i < |pairs| && name in CommandTable(pairs[..i + 1])
    requires name in AddCommand(CommandTable(pairs[..i]), pairs[i])
    ensures CommandTable(pairs[..i + 1])[name] == AddCommand(CommandTable(pairs[..i]), pairs[i])[name]
  {
    var table := CommandTable(pairs[..i]);
    ArgsOfStep(pairs, i, name);
    assert CommandTable(pairs[..i + 1])[name] == ArgsOf(pairs[..i + 1], name);
    if name in table {
      assert table[name] == ArgsOf(pairs[..i], name);
    } else {
      ArgsOfAbsent(pairs[..i], name);
    }
  }

  lemma ArgsOfStep(pairs: seq<(string, string)>, i: nat, name: string)
    requires i < |pairs|
    ensures ArgsOf(pairs[..i + 1], name) ==
      ArgsOf(pairs[..i], name) + (if pairs[i].0 == name && pairs[i].1 != [] then [pairs[i].1] else [])
  {
    assert pairs[..i + 1][..i] == pairs[..i];
  }

  /** A name that is not a key of the table has no arguments. */
  lemma ArgsOfAbsent(pairs: seq<(string, string)>, name: string)
    requires name !in CommandTable(pairs)
    ensures ArgsOf(pairs, name) == []
  {
  }

  /** `_extract_commands` and `_extract_latex_commands`: the dictionary-building loop. */
  method CollectCommands(pairs: seq<(string, string)>) returns (commands: map<string, seq<string>>)
    ensures commands == CommandTable(pairs)
  {
    commands := map[];
    var i := 0;
    while i < |pairs|
      invariant 0 <= i <= |pairs|
      invariant commands == CommandTable(pairs[..i])
    {
      var (name, arg) := pairs[i];
      if name !in commands {
        commands := commands[name := []];
      }
      if arg != [] {
        commands := commands[name := commands[name] + [arg]];
      }
      CommandTableStep(pairs, i);
      i := i + 1;
    }
    assert pairs[..|pairs|] == pairs;
  }

  /**
   * Every command name seen becomes a key, and its list holds exactly its
   * non-empty arguments.
   */
  lemma CommandTableContents(pairs: seq<(string, string)>)
    ensures forall name :: name in CommandTable(pairs) <==> exists k :: 0 <= k < |pairs| && pairs[k].0 == name
    ensures forall name, arg :: name in CommandTable(pairs) ==>
      (arg in CommandTable(pairs)[name] <==> arg != [] && (name, arg) in pairs)
  {
    forall name, arg | name in CommandTable(pairs) && arg != [] && (name, arg) in pairs
      ensures arg in CommandTable(pairs)[name]
    {
      var k :| 0 <= k < |pairs| && pairs[k] == (name, arg);
    }
  }

  // ---------------------------------------------------------------------------
  // One expression and the whole problem

  /** What `_parse_expression` returns for one span. */
  function ParsedExpression(expr: string, mode: MathMode, extractNumbers: NumberExtractor): (r: Option<LatexExpression>)
    ensures r.Some? <==> extractNumbers(CleanExpression(expr)).Some?
    ensures r.Some? ==> r.value.rawText == expr && r.value.mathMode == mode
    ensures r.Some? ==> r.value.cleanedText == CleanExpression(expr)
    ensures r.Some? ==> r.value.numbers == extractNumbers(CleanExpression(expr)).value
    ensures r.Some? ==> r.value.variables == IsolatedLetters(r.value.cleanedText)
    ensures r.Some? ==> r.value.commands == CommandTable(CommandPairs(r.value.cleanedText, true))
    ensures r.Some? ==> (r.value.hasEquation <==> '=' in r.value.cleanedText || Contains(r.value.cleanedText, "\\eq"))
  {
    var cleaned := CleanExpression(expr);
    match extractNumbers(cleaned)
    case None => None
    case Some(numbers) =>
      Some(LatexExpression(expr, cleaned, mode, IsolatedLetters(cleaned),
        CommandTable(CommandPairs(cleaned, true)), numbers, HasEquation(cleaned)))
  }

  /** `_parse_expression`; an exception while extracting numbers gives `None`. */
  method ParseExpression(expr: string, mode: MathMode, extractNumbers: NumberExtractor) returns (r: Option<LatexExpression>)
    ensures r == ParsedExpression(expr, mode, extractNumbers)
  {
    var cleaned := CleanExpression(expr);
    var variables := IsolatedLetters(cleaned);
    var commands := CollectCommands(CommandPairs(cleaned, true));
    var numbers := extractNumbers(cleaned);
    if numbers.None? {
      return None;
    }
    r := Some(LatexExpression(expr, cleaned, mode, variables, commands, numbers.value, HasEquation(cleaned)));
  }

  /**
   * The cleaned text keeps every whitespace-free piece of it from the raw
   * span, every variable is a letter standing alone in it, and an equation
   * is flagged only when the raw span has `=` or `\eq`.
   */
  lemma ParsedExpressionShape(expr: string, mode: MathMode, extractNumbers: NumberExtractor)
    requires ParsedExpression(expr, mode, extractNumbers).Some?
    ensures var e := ParsedExpression(expr, mode, extractNumbers).value;
      e.rawText == expr && e.mathMode == mode && Tidy(e.cleanedText) &&
      (forall v :: v in e.variables <==> exists i :: IsolatedAt(e.cleanedText, i) && e.cleanedText[i] == v) &&
      (e.hasEquation <==> HasEquation(e.cleanedText)) &&
      (e.hasEquation ==> Contains(expr, "=") || Contains(expr, "\\eq"))
  {
    var cleaned := CleanExpression(expr);
    var e := ParsedExpression(expr, mode, extractNumbers).value;
    assert e.cleanedText == cleaned && e.hasEquation == HasEquation(cleaned);
    assert e.variables == IsolatedLetters(cleaned);
    EquationKept(expr);
  }

  /** Cleaning never creates an equation sign. */
  lemma EquationKept(expr: string)
    ensures HasEquation(CleanExpression(expr)) ==> Contains(expr, "=") || Contains(expr, "\\eq")
  {
    assert SpaceFree("=") && SpaceFree("\\eq");
  }

  /** The parsed values of a list of results, in order; the failures are dropped. */
  function Kept(parsed: seq<Option<LatexExpression>>): (r: seq<LatexExpression>)
    ensures |r| <= |parsed|
    ensures forall e :: e in r <==> Some(e) in parsed
  {
    if parsed == [] then []
    else (if parsed[0].Some? then [parsed[0].value] else []) + Kept(parsed[1..])
  }

  lemma {:induction false} KeptAppend(a: seq<Option<LatexExpression>>, b: seq<Option<LatexExpression>>)
    ensures Kept(a + b) == Kept(a) + Kept(b)
  {
    if a == [] {
      assert a + b == b;
    } else {
      assert (a + b)[1..] == a[1..] + b;
      KeptAppend(a[1..], b);
    }
  }

  /** A parser of one span, as `_parse_expression` is. */
  type SpanParser = (string, MathMode) -> Option<LatexExpression>

  /** A span parser that records the span's raw text and mode in what it returns. */
  ghost predicate KeepsSpan(parse: SpanParser) {
    forall w, m :: parse(w, m).Some? ==> parse(w, m).value.rawText == w && parse(w, m).value.mathMode == m
  }

  /** `_parse_expression` with a given number extractor. */
  function ExpressionParser(extractNumbers: NumberExtractor): (parse: SpanParser)
    ensures KeepsSpan(parse)
  {
    (w, m) => ParsedExpression(w, m, extractNumbers)
  }

  /** The parser applied to every span. */
  function ParseEach(spans: seq<(string, MathMode)>, parse: SpanParser): (r: seq<Option<LatexExpression>>)
    ensures |r| == |spans|
  {
    seq(|spans|, k requires 0 <= k < |spans| => parse(spans[k].0, spans[k].1))
  }

  /** Extending the spans by one extends the kept expressions by that span's result, if any. */
  lemma ParseEachStep(spans: seq<(string, MathMode)>, i: nat, parse: SpanParser)
    requires i < |spans|
    ensures var last := parse(spans[i].0, spans[i].1);
      Kept(ParseEach(spans[..i + 1], parse)) ==
      Kept(ParseEach(spans[..i], parse)) + (if last.Some? then [last.value] else [])
  {
    var last := parse(spans[i].0, spans[i].1);
    assert ParseEach(spans[..i + 1], parse) == ParseEach(spans[..i], parse) + [last];
    KeptAppend(ParseEach(spans[..i], parse), [last]);
    assert [last][1..] == [];
  }

  /** Every kept expression records the raw text and the mode of one of the spans. */
  lemma ParseEachProvenance(spans: seq<(string, MathMode)>, parse: SpanParser)
    requires KeepsSpan(parse)
    ensures forall e :: e in Kept(ParseEach(spans, parse)) ==> (e.rawText, e.mathMode) in spans
  {
    var parsed := ParseEach(spans, parse);
    forall e: LatexExpression | Some(e) in parsed ensures (e.rawText, e.mathMode) in spans {
      var k :| 0 <= k < |parsed| && parsed[k] == Some(e);
      assert parsed[k] == parse(spans[k].0, spans[k].1);
    }
  }

  /** The loop of `parse_problem`: every span in turn, each kept when it parses. */
  method ParseSpans(spans: seq<(string, MathMode)>, extractNumbers: NumberExtractor) returns (expressions: seq<LatexExpression>)
    ensures expressions == Kept(ParseEach(spans, ExpressionParser(extractNumbers)))
  {
    expressions := [];
    ghost var parse := ExpressionParser(extractNumbers);
    var i := 0;
    while i < |spans|
      invariant 0 <= i <= |spans|
      invariant expressions == Kept(ParseEach(spans[..i], parse))
    {
      var parsed := ParseExpression(spans[i].0, spans[i].1, extractNumbers);
      assert parsed == parse(spans[i].0, spans[i].1);
      ParseEachStep(spans, i, parse);
      if parsed.Some? {
        expressions := expressions + [parsed.value];
      }
      i := i + 1;
    }
    assert spans[..|spans|] == spans;
  }

  /**
   * `parse_problem`: `[]` for `None` (the `TypeError` is caught), otherwise
   * every inline span, then every display span, each kept when it parses.
   */
  method ParseProblem(text: Option<string>, extractNumbers: NumberExtractor) returns (expressions: seq<LatexExpression>)
    ensures text.None? ==> expressions == []
    ensures text.Some? ==>
      expressions == Kept(ParseEach(Spans(FindInlineMath(text.value), FindDisplayMath(text.value)), ExpressionParser(extractNumbers)))
  {
    expressions := [];
    if text.None? {
      return;
    }
    expressions := ParseSpans(Spans(FindInlineMath(text.value), FindDisplayMath(text.value)), extractNumbers);
  }

  /**
   * Inline expressions come before display ones, and each expression records
   * a span of its own mode.
   */
  lemma SpansOrder(inline: seq<string>, display: seq<string>, parse: SpanParser)
    requires KeepsSpan(parse)
    ensures var r := Kept(ParseEach(Spans(inline, display), parse));
      (forall i, j :: 0 <= i < j < |r| && r[j].mathMode == Inline ==> r[i].mathMode == Inline) &&
      (forall k :: 0 <= k < |r| && r[k].mathMode == Inline ==> r[k].rawText in inline) &&
      (forall k :: 0 <= k < |r| && r[k].mathMode == Display ==> r[k].rawText in display)
  {
    var spans := Spans(inline, display);
    var n := |inline|;
    var a := spans[..n];
    var b := spans[n..];
    assert ParseEach(spans, parse) == ParseEach(a, parse) + ParseEach(b, parse);
    KeptAppend(ParseEach(a, parse), ParseEach(b, parse));
    KeptOfMode(a, Inline, inline, parse);
    KeptOfMode(b, Display, display, parse);
    var ra := Kept(ParseEach(a, parse));
    var rb := Kept(ParseEach(b, parse));
    var r := ra + rb;
    forall k | 0 <= k < |r|
      ensures r[k].mathMode == Inline ==> k < |ra| && r[k].rawText in inline
      ensures r[k].mathMode == Display ==> k >= |ra| && r[k].rawText in display
    {
      if k < |ra| {
        assert r[k] == ra[k];
      } else {
        assert r[k] == rb[k - |ra|];
      }
    }
  }

  /** The expressions kept from spans that all have one mode have that mode and one of their texts. */
  lemma KeptOfMode(spans: seq<(string, MathMode)>, mode: MathMode, texts: seq<string>, parse: SpanParser)
    requires KeepsSpan(parse)
    requires |spans| == |texts| && forall k :: 0 <= k < |spans| ==> spans[k] == (texts[k], mode)
    ensures var r := Kept(ParseEach(spans, parse));
      forall k :: 0 <= k < |r| ==> r[k].mathMode == mode && r[k].rawText in texts
  {
    var r := Kept(ParseEach(spans, parse));
    ParseEachProvenance(spans, parse);
    forall k | 0 <= k < |r| ensures r[k].mathMode == mode && r[k].rawText in texts {
      assert r[k] in r;
      var j :| 0 <= j < |spans| && spans[j] == (r[k].rawText, r[k].mathMode);
    }
  }

  /**
   * All inline expressions come before all display ones; every expression's
   * raw text is a span of its own mode, and display spans are never empty.
   */
  lemma ParseProblemOrder(text: string, extractNumbers: NumberExtractor)
    ensures var r := Kept(ParseEach(Spans(FindInlineMath(text), FindDisplayMath(text)), ExpressionParser(extractNumbers)));
      (forall i, j :: 0 <= i < j < |r| && r[j].mathMode == Inline ==> r[i].mathMode == Inline) &&
      (forall k :: 0 <= k < |r| && r[k].mathMode == Inline ==> r[k].rawText in FindInlineMath(text)) &&
      (forall k :: 0 <= k < |r| && r[k].mathMode == Display ==> r[k].rawText in FindDisplayMath(text) && r[k].rawText != [])
  {
    var inline := FindInlineMath(text);
    var display := FindDisplayMath(text);
    SpansOrder(inline, display, ExpressionParser(extractNumbers));
    assert [] !in display;
  }

  // ---------------------------------------------------------------------------
  // Special forms

  /** `[a-zA-Z]\^{2}|[a-zA-Z]\^2` as Python reads it: `\^{2}` is a caret repeated twice. */
  const QuadraticPatternAsWritten: seq<seq<Token>> :=
    [[Fixed(AlphaChars, 1), Lit("^^")], [Fixed(AlphaChars, 1), Lit("^2")]]

  /** The evidently intended pattern: a letter followed by `^{2}` or by `^2`. */
  const QuadraticPattern: seq<seq<Token>> :=
    [[Fixed(AlphaChars, 1), Lit("^{2}")], [Fixed(AlphaChars, 1), Lit("^2")]]

  /** `a_\{?n\+?\d*\}?` */
  const SequencePattern: seq<seq<Token>> :=
    [[Lit("a_"), OptLit("{"), Lit("n"), OptLit("+"), Run(DigitChars, false), OptLit("}")]]

  /** The form names for the two tests, "quadratic" before "sequence". */
  function Forms(quadratic: bool, sequence: bool): (r: seq<string>)
    ensures |r| <= 2 && forall k :: 0 <= k < |r| ==> r[k] == "quadratic" || r[k] == "sequence"
    ensures "quadratic" in r ==> r[0] == "quadratic"
    ensures |r| == 2 ==> r[0] != r[1]
  {
    (if quadratic then ["quadratic"] else []) + (if sequence then ["sequence"] else [])
  }

  function SpecialForms(expr: string, quadratic: seq<seq<Token>>): seq<string> {
    Forms(Found(expr, quadratic), Found(expr, SequencePattern))
  }

  /** `identify_special_forms` as written. */
  function IdentifySpecialFormsAsWritten(expr: string): seq<string> {
    SpecialForms(expr, QuadraticPatternAsWritten)
  }

  /** `identify_special_forms` with the quadratic pattern it evidently intends. */
  function IdentifySpecialForms(expr: string): (r: seq<string>)
    ensures |r| <= 2 && forall k :: 0 <= k < |r| ==> r[k] == "quadratic" || r[k] == "sequence"
    ensures "quadratic" in r ==> r[0] == "quadratic"
    ensures |r| == 2 ==> r[0] != r[1]
  {
    SpecialForms(expr, QuadraticPattern)
  }

  /** A letter followed by `p` matches at `i` exactly when the text has them there. */
  lemma LetterThenAt(s: string, i: nat, p: string)
    requires i <= |s|
    ensures MatchAt(s, i, [Fixed(AlphaChars, 1), Lit(p)]).Some? <==>
      i < |s| && IsLetter(s[i]) && IsPrefixAt(s, p, i + 1)
  {
    MatchAtCons(s, i, Fixed(AlphaChars, 1), [Lit(p)]);
    if i < |s| {
      assert s[i..i + 1][0] == s[i];
      MatchAtCons(s, i + 1, Lit(p), []);
    }
  }

  /** The quadratic test holds exactly when some letter is followed by one of the two powers. */
  lemma LetterThenFound(s: string, p1: string, p2: string)
    ensures Found(s, [[Fixed(AlphaChars, 1), Lit(p1)], [Fixed(AlphaChars, 1), Lit(p2)]]) <==>
      exists i :: 0 <= i < |s| && IsLetter(s[i]) && (IsPrefixAt(s, p1, i + 1) || IsPrefixAt(s, p2, i + 1))
  {
    var alts := [[Fixed(AlphaChars, 1), Lit(p1)], [Fixed(AlphaChars, 1), Lit(p2)]];
    FoundIff(s, alts);
    if Found(s, alts) {
      var p: nat, a :| p <= |s| && 0 <= a < |alts| && MatchAt(s, p, alts[a]).Some?;
      LetterThenAt(s, p, alts[a][1].text);
    }
    if i :| 0 <= i < |s| && IsLetter(s[i]) && (IsPrefixAt(s, p1, i + 1) || IsPrefixAt(s, p2, i + 1)) {
      LetterThenAt(s, i, p1);
      LetterThenAt(s, i, p2);
      if IsPrefixAt(s, p1, i + 1) {
        assert MatchAt(s, i, alts[0]).Some?;
      } else {
        assert MatchAt(s, i, alts[1]).Some?;
      }
    }
  }

  /** `\+?\d*\}?`, the part of the sequence pattern after the `n`. */
  const SequenceIndexTail: seq<Token> := [OptLit("+"), Run(DigitChars, false), OptLit("}")]

  lemma AfterIndexLetter(s: string, e: nat)
    requires e <= |s|
    ensures MatchAt(s, e, [Lit("n")] + SequenceIndexTail).Some? <==> IsPrefixAt(s, "n", e)
  {
    MatchAtCons(s, e, Lit("n"), SequenceIndexTail);
    if IsPrefixAt(s, "n", e) {
      assert TokenEnd(s, e, Lit("n")) == Some(e + 1);
      MatchAtNeverFails(s, e + 1, SequenceIndexTail);
    }
  }

  lemma AfterSubscript(s: string, q: nat)
    requires q <= |s|
    ensures MatchAt(s, q, [OptLit("{"), Lit("n")] + SequenceIndexTail).Some? <==>
      IsPrefixAt(s, "n", q) || IsPrefixAt(s, "{n", q)
  {
    var rest := [Lit("n")] + SequenceIndexTail;
    assert [OptLit("{"), Lit("n")] + SequenceIndexTail == [OptLit("{")] + rest;
    MatchAtCons(s, q, OptLit("{"), rest);
    var e := if IsPrefixAt(s, "{", q) then q + 1 else q;
    assert TokenEnd(s, q, OptLit("{")) == Some(e);
    AfterIndexLetter(s, e);
    assert "{" + "n" == "{n";
    PrefixConcat(s, "{", "n", q);
    if IsPrefixAt(s, "{", q) {
      assert s[q..q + 1][0] == '{';
      assert !IsPrefixAt(s, "n", q);
    }
  }

  /** The sequence pattern matches at `p` exactly when `a_n` or `a_{n` starts there. */
  lemma SequenceAt(s: string, p: nat)
    requires p <= |s|
    ensures MatchAt(s, p, SequencePattern[0]).Some? <==> IsPrefixAt(s, "a_n", p) || IsPrefixAt(s, "a_{n", p)
  {
    var rest := [OptLit("{"), Lit("n")] + SequenceIndexTail;
    assert SequencePattern[0] == [Lit("a_")] + rest;
    assert "a_" + "n" == "a_n" && "a_" + "{n" == "a_{n";
    PrefixConcat(s, "a_", "n", p);
    PrefixConcat(s, "a_", "{n", p);
    MatchAtCons(s, p, Lit("a_"), rest);
    if IsPrefixAt(s, "a_", p) {
      assert TokenEnd(s, p, Lit("a_")) == Some(p + 2);
      AfterSubscript(s, p + 2);
    }
  }

  /** The sequence test holds exactly when the text mentions `a_n` or `a_{n`. */
  lemma SequenceFound(s: string)
    ensures Found(s, SequencePattern) <==> Contains(s, "a_n") || Contains(s, "a_{n")
  {
    FoundIff(s, SequencePattern);
    if Found(s, SequencePattern) {
      var p: nat, a :| p <= |s| && 0 <= a < |SequencePattern| && MatchAt(s, p, SequencePattern[a]).Some?;
      SequenceAt(s, p);
    }
    if i :| 0 <= i <= |s| - 3 && IsPrefixAt(s, "a_n", i) {
      SequenceAt(s, i);
    }
    if i :| 0 <= i <= |s| - 4 && IsPrefixAt(s, "a_{n", i) {
      SequenceAt(s, i);
    }
  }

  /**
   * Each form is listed at most once, "quadratic" before "sequence"; the
   * corrected quadratic test fires on `^{2}` and `^2` after a letter.
   */
  lemma SpecialFormsShape(expr: string)
    ensures var r := IdentifySpecialForms(expr);
      |r| <= 2 && (forall k :: 0 <= k < |r| ==> r[k] in ["quadratic", "sequence"]) &&
      ("quadratic" in r <==>
        exists i :: 0 <= i < |expr| && IsLetter(expr[i]) && (IsPrefixAt(expr, "^{2}", i + 1) || IsPrefixAt(expr, "^2", i + 1))) &&
      ("sequence" in r <==> Contains(expr, "a_n") || Contains(expr, "a_{n")) &&
      ("quadratic" in r ==> r[0] == "quadratic")
  {
    LetterThenFound(expr, "^{2}", "^2");
    SequenceFound(expr);
  }

  /**
   * As written, a letter squared with braces (`x^{2}`) is not recognised as
   * quadratic; the corrected pattern recognises it.
   */
  lemma SquaredInBracesMissed(x: char)
    requires IsLetter(x)
    ensures IdentifySpecialFormsAsWritten([x] + "^{2}") == []
    ensures IdentifySpecialForms([x] + "^{2}") == ["quadratic"]
  {
    AsWrittenMissesBraces(x);
    CorrectedFindsBraces(x);
    var s := [x] + "^{2}";
    assert s[1] == '^' && s[2] == '{' && s[3] == '2' && s[4] == '}';
    assert '_' !in s;
    NoSequenceWithoutSubscript(s);
  }

  lemma AsWrittenMissesBraces(x: char)
    ensures !Found([x] + "^{2}", QuadraticPatternAsWritten)
  {
    var s := [x] + "^{2}";
    LetterThenFound(s, "^^", "^2");
    forall i | 0 <= i < |s| && IsLetter(s[i]) ensures !IsPrefixAt(s, "^^", i + 1) && !IsPrefixAt(s, "^2", i + 1) {
      assert s[1..] == "^{2}";
      assert i == 0;
      assert s[1..3] == "^{";
    }
    assert !exists i :: 0 <= i < |s| && IsLetter(s[i]) && (IsPrefixAt(s, "^^", i + 1) || IsPrefixAt(s, "^2", i + 1));
    assert QuadraticPatternAsWritten == [[Fixed(AlphaChars, 1), Lit("^^")], [Fixed(AlphaChars, 1), Lit("^2")]];
  }

  lemma CorrectedFindsBraces(x: char)
    requires IsLetter(x)
    ensures Found([x] + "^{2}", QuadraticPattern)
  {
    var s := [x] + "^{2}";
    LetterThenFound(s, "^{2}", "^2");
    assert s[1..5] == "^{2}";
    assert IsPrefixAt(s, "^{2}", 0 + 1);
  }

  /** Without an underscore there is no `a_n` or `a_{n`, so the sequence test fails. */
  lemma NoSequenceWithoutSubscript(s: string)
    requires '_' !in s
    ensures !Found(s, SequencePattern)
  {
    SequenceFound(s);
    forall i | 0 <= i ensures !IsPrefixAt(s, "a_n", i) && !IsPrefixAt(s, "a_{n", i) {
      NoSubscriptAt(s, i);
    }
    assert !Contains(s, "a_n") && !Contains(s, "a_{n");
  }

  lemma NoSubscriptAt(s: string, i: nat)
    requires '_' !in s
    ensures !IsPrefixAt(s, "a_n", i) && !IsPrefixAt(s, "a_{n", i)
  {
    if i + 3 <= |s| {
      assert s[i..i + 3][1] == s[i + 1] != "a_n"[1];
    }
    if i + 4 <= |s| {
      assert s[i..i + 4][1] == s[i + 1] != "a_{n"[1];
    }
  }

  // ---------------------------------------------------------------------------
  // Geometry names

  datatype GeometryElements = GeometryElements(
    triangles: seq<string>, angles: seq<string>, segments: seq<string>, points: set<string>)

  /** `\\triangle\s*([A-Z]{3})` */
  const TrianglePattern: seq<seq<Token>> := [[Lit("\\triangle"), Run(SpaceChars, false), Fixed(UpperChars, 3)]]

  /** `\\angle\s*([A-Z]{3})` */
  const AnglePattern: seq<seq<Token>> := [[Lit("\\angle"), Run(SpaceChars, false), Fixed(UpperChars, 3)]]

  /** `([A-Z]{2})` */
  const SegmentPattern: seq<seq<Token>> := [[Fixed(UpperChars, 2)]]

  /** `point\s*([A-Z])` */
  const PointPattern: seq<seq<Token>> := [[Lit("point"), Run(SpaceChars, false), Fixed(UpperChars, 1)]]

  /**
   * `parse_geometry_elements`: triangles and angles are three capitals,
   * segments two and points one, each taken from the text; the point list
   * goes through a set, so it has no duplicates.
   */
  function ParseGeometryElements(text: string): (e: GeometryElements)
    ensures forall k :: 0 <= k < |e.triangles| ==> |e.triangles[k]| == 3 && AllIn(e.triangles[k], UpperChars) && Contains(text, e.triangles[k])
    ensures forall k :: 0 <= k < |e.angles| ==> |e.angles[k]| == 3 && AllIn(e.angles[k], UpperChars) && Contains(text, e.angles[k])
    ensures forall k :: 0 <= k < |e.segments| ==> |e.segments[k]| == 2 && AllIn(e.segments[k], UpperChars) && Contains(text, e.segments[k])
    ensures forall p :: p in e.points ==> |p| == 1 && AllIn(p, UpperChars) && Contains(text, p)
    ensures e.triangles == FindAllGroup(text, TrianglePattern, 2)
    ensures e.angles == FindAllGroup(text, AnglePattern, 2)
    ensures e.segments == FindAllGroup(text, SegmentPattern, 0)
    ensures forall p :: p in e.points <==> p in FindAllGroup(text, PointPattern, 2)
  {
    CapitalsGroups(text, TrianglePattern, 2, 3);
    CapitalsGroups(text, AnglePattern, 2, 3);
    CapitalsGroups(text, SegmentPattern, 0, 2);
    CapitalsGroups(text, PointPattern, 2, 1);
    var points := FindAllGroup(text, PointPattern, 2);
    GeometryElements(
      FindAllGroup(text, TrianglePattern, 2),
      FindAllGroup(text, AnglePattern, 2),
      FindAllGroup(text, SegmentPattern, 0),
      set k | 0 <= k < |points| :: points[k])
  }

  /** A group of `n` capital letters found by `findall`, in a text it occurs in. */
  lemma CapitalsGroup(text: string, alts: seq<seq<Token>>, g: nat, n: nat, k: nat)
    requires forall a :: 0 <= a < |alts| ==> g < |alts[a]| && alts[a][g] == Fixed(UpperChars, n)
    requires k < |FindAllGroup(text, alts, g)|
    ensures var w := FindAllGroup(text, alts, g)[k];
      |w| == n && AllIn(w, UpperChars) && Contains(text, w)
  {
    var lo, hi := SharedGroupSpan(text, alts, g, Fixed(UpperChars, n), k);
    CapitalsAt(text, lo, hi, n);
  }

  lemma CapitalsAt(text: string, lo: nat, hi: nat, n: nat)
    requires TokenFits(text, lo, hi, Fixed(UpperChars, n))
    ensures var w := text[lo..hi]; |w| == n && AllIn(w, UpperChars) && Contains(text, w)
  {
    assert IsPrefixAt(text, text[lo..hi], lo);
  }

  /** Every group of `n` capitals that `findall` reports is written in the text. */
  lemma CapitalsGroups(text: string, alts: seq<seq<Token>>, g: nat, n: nat)
    requires forall a :: 0 <= a < |alts| ==> g < |alts[a]| && alts[a][g] == Fixed(UpperChars, n)
    ensures forall k :: 0 <= k < |FindAllGroup(text, alts, g)| ==>
      |FindAllGroup(text, alts, g)[k]| == n && AllIn(FindAllGroup(text, alts, g)[k], UpperChars) &&
      Contains(text, FindAllGroup(text, alts, g)[k])
  {
    forall k | 0 <= k < |FindAllGroup(text, alts, g)| {
      CapitalsGroup(text, alts, g, n, k);
    }
  }

  /** A point is recorded exactly when `findall` reports it at least once. */
  lemma GeometryPoints(text: string)
    ensures forall p :: p in ParseGeometryElements(text).points <==> p in FindAllGroup(text, PointPattern, 2)
  {
  }
}
