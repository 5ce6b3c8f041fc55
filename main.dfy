/**
 * The top-level dispatcher: a problem is scored against five keyword lists,
 * handed to the solver of the best-scoring category (the pattern solver when
 * no keyword is present), and its answer reduced modulo 1000, while usage
 * counters record every call.
 */
module Aimo {
  import opened Common
  import opened Text
  import opened Utils

  /** The categories of `type_indicators`, in their dictionary order. */
  const Categories: seq<string> := ["geometry", "number_theory", "sequence", "combinatorics", "arithmetic"]

  /** The keyword list of each category, in the same order. */
  const Indicators: seq<seq<string>> := [
    ["triangle", "circle", "angle", "perpendicular", "parallel", "distance", "area", "point"],
    ["divisible", "prime", "factor", "modulo", "remainder", "multiple", "gcd", "lcm"],
    ["sequence", "series", "fibonacci", "term", "arithmetic", "geometric", "progression"],
    ["ways", "arrange", "permutation", "combination", "possibility", "different"],
    ["sum", "product", "mean", "average", "total", "ratio", "proportion"]]

  /** The keys of the solver table. */
  const SolverNames: set<string> := {"pattern", "geometry", "number_theory", "sequence", "combinatorics", "arithmetic"}

  /** The score of every category: the number of its keywords present in the lower-cased text. */
  function Scores(lower: string): (scores: seq<int>)
    ensures |scores| == |Categories|
    ensures forall i :: 0 <= i < |scores| ==> scores[i] == CountPresent(lower, Indicators[i])
    ensures forall i :: 0 <= i < |scores| ==> 0 <= scores[i] <= |Indicators[i]|
    ensures forall i :: 0 <= i < |scores| ==> (scores[i] == 0 <==> !ContainsAny(lower, Indicators[i]))
  {
    seq(|Categories|, i requires 0 <= i < |Categories| => CountPresent(lower, Indicators[i]))
  }

  /** The position of the first element equal to `v`, or `|xs|` when there is none. */
  function FirstEqual(xs: seq<int>, v: int): (k: nat)
    ensures k <= |xs|
    ensures k < |xs| ==> xs[k] == v
    ensures forall j :: 0 <= j < k ==> xs[j] != v
    ensures v in xs ==> k < |xs|
    decreases |xs|
  {
    if xs == [] then 0
    else if xs[0] == v then 0
    else 1 + FirstEqual(xs[1..], v)
  }

  /**
   * The category `_identify_problem_type` picks: the first one with the
   * highest score when that score is positive, else "pattern".
   */
  function ProblemType(text: string): (t: string)
    ensures t in SolverNames
  {
    TypeForScores(Scores(Lower(text)))
  }

  /** The category a list of scores selects. */
  function TypeForScores(scores: seq<int>): (t: string)
    requires |scores| == |Categories|
    ensures t in SolverNames
  {
    var best := Max(scores);
    if best > 0 then Categories[FirstEqual(scores, best)] else "pattern"
  }

  /** The pattern solver is chosen exactly when no category has any keyword in the text. */
  lemma PatternIffNoIndicator(text: string)
    ensures ProblemType(text) == "pattern" <==>
      forall i :: 0 <= i < |Indicators| ==> !ContainsAny(Lower(text), Indicators[i])
  {
    var scores := Scores(Lower(text));
    PatternIffNoScore(scores);
    assert forall i :: 0 <= i < |Indicators| ==> (scores[i] == 0 <==> !ContainsAny(Lower(text), Indicators[i]));
  }

  lemma PatternIffNoScore(scores: seq<int>)
    requires |scores| == |Categories| && forall i :: 0 <= i < |scores| ==> scores[i] >= 0
    ensures TypeForScores(scores) == "pattern" <==> forall i :: 0 <= i < |scores| ==> scores[i] == 0
  {
    var best := Max(scores);
    if best > 0 {
      var k := FirstEqual(scores, best);
      assert Categories[k] != "pattern" && scores[k] != 0;
    }
  }

  /**
   * A chosen category has the highest score, a score no larger than its
   * keyword count, and every category before it scores strictly less.
   */
  lemma EarliestBest(text: string, i: nat)
    requires i < |Categories| && ProblemType(text) == Categories[i]
    ensures var scores := Scores(Lower(text));
      0 < scores[i] <= |Indicators[i]| &&
      (forall j :: 0 <= j < |scores| ==> scores[j] <= scores[i]) &&
      (forall j :: 0 <= j < i ==> scores[j] < scores[i])
  {
    BestScoreWins(Scores(Lower(text)), i);
  }

  lemma BestScoreWins(scores: seq<int>, i: nat)
    requires |scores| == |Categories| && i < |Categories| && TypeForScores(scores) == Categories[i]
    ensures 0 < scores[i]
    ensures forall j :: 0 <= j < |scores| ==> scores[j] <= scores[i]
    ensures forall j :: 0 <= j < i ==> scores[j] < scores[i]
  {
    var best := Max(scores);
    assert best > 0;
    var k := FirstEqual(scores, best);
    assert Categories[k] == Categories[i];
    CategoriesDistinct();
  }

  lemma CategoriesDistinct()
    ensures forall a, b :: 0 <= a < b < |Categories| ==> Categories[a] != Categories[b]
  {
    assert Categories[0][0] == 'g' && Categories[1][0] == 'n' && Categories[2][0] == 's';
    assert Categories[3][0] == 'c' && Categories[4][0] == 'a';
  }

  /** The outcome of one solver's `solve` call: the value it returned, or an exception. */
  datatype Outcome = Returned(value: PyValue) | Raised

  /** The solver table: the outcome of solver `name` on a problem text. */
  type SolverCall = (string, string) -> Outcome

  /** Whether a call returned something other than `None`. */
  predicate Succeeded(o: Outcome) {
    o.Returned? && !o.value.PyNone?
  }

  /**
   * The answer `solve_problem` gives once it has chosen category `t`: that
   * solver's result modulo 1000; if it returned `None`, the pattern solver's
   * result for another category; 42 when there is none or a call raises.
   */
  function Answer(t: string, text: string, solve: SolverCall): (r: int)
    ensures 0 <= r < 1000
    ensures Succeeded(solve(t, text)) ==> r == Mod1000(solve(t, text).value)
    ensures (!Succeeded(solve(t, text)) && (t == "pattern" || !Succeeded(solve("pattern", text)))) ==> r == 42
    ensures solve(t, text).Raised? ==> r == 42
    ensures solve(t, text) == Returned(PyNone) && t != "pattern" && Succeeded(solve("pattern", text)) ==>
      r == Mod1000(solve("pattern", text).value)
  {
    var out := solve(t, text);
    if Succeeded(out) then Mod1000(out.value)
    else if out.Raised? || t == "pattern" then 42
    else
      var fallback := solve("pattern", text);
      if Succeeded(fallback) then Mod1000(fallback.value) else 42
  }

  /** The dispatcher and its usage statistics. */
  class AIMOSolver {
    var problemsProcessed: nat
    var solverUsage: map<string, nat>
    var successfulSolves: nat

    /** Every solver has a usage counter, and successes never outnumber calls. */
    ghost predicate Valid()
      reads this
    {
      solverUsage.Keys == SolverNames && successfulSolves <= problemsProcessed
    }

    constructor()
      ensures Valid()
      ensures problemsProcessed == 0 && successfulSolves == 0
      ensures solverUsage == map name | name in SolverNames :: 0
    {
      problemsProcessed := 0;
      solverUsage := map name | name in SolverNames :: 0;
      successfulSolves := 0;
    }

    /** One category's score: the inner loop over its keywords. */
    method CountIndicators(lower: string, indicators: seq<string>) returns (score: nat)
      ensures score == CountPresent(lower, indicators)
    {
      score := 0;
      for j := 0 to |indicators|
        invariant score + CountPresent(lower, indicators[j..]) == CountPresent(lower, indicators)
      {
        assert indicators[j..][1..] == indicators[j + 1..];
        if Contains(lower, indicators[j]) {
          score := score + 1;
        }
      }
    }

    /** The outer loop of `_identify_problem_type`: every category's score, in order. */
    method ScoreCategories(lower: string) returns (typeScores: seq<int>)
      ensures typeScores == Scores(lower)
    {
      typeScores := [];
      for i := 0 to |Categories|
        invariant typeScores == Scores(lower)[..i]
      {
        var score := CountIndicators(lower, Indicators[i]);
        typeScores := typeScores + [score];
      }
    }

    /** `_identify_problem_type`: score every category, then take the first with the highest score. */
    method IdentifyProblemType(problemText: string) returns (ptype: string)
      ensures ptype == ProblemType(problemText)
    {
      var typeScores := ScoreCategories(Lower(problemText));
      ptype := SelectType(typeScores);
    }

    /** The selection step of `_identify_problem_type`: the first category with a positive maximal score. */
    method SelectType(typeScores: seq<int>) returns (ptype: string)
      requires |typeScores| == |Categories|
      ensures ptype == TypeForScores(typeScores)
    {
      var maxScore := Max(typeScores);
      if maxScore > 0 {
        for i := 0 to |Categories|
          invariant forall j :: 0 <= j < i ==> typeScores[j] != maxScore
        {
          if typeScores[i] == maxScore {
            assert FirstEqual(typeScores, maxScore) == i;
            return Categories[i];
          }
        }
        assert false;
      }
      return "pattern";
    }

    /**
     * The solver call and its fallback inside `solve_problem`: the answer
     * `Answer` describes, and whether the chosen solver itself succeeded.
     */
    method Dispatch(problemType: string, problemText: string, solve: SolverCall) returns (answer: int, solved: bool)
      ensures answer == Answer(problemType, problemText, solve)
      ensures solved == Succeeded(solve(problemType, problemText))
    {
      var result := solve(problemType, problemText);
      if result.Raised? {
        return 42, false;
      }
      if !result.value.PyNone? {
        return Mod1000(result.value), true;
      }
      if problemType != "pattern" {
        var fallback := solve("pattern", problemText);
        if fallback.Returned? && !fallback.value.PyNone? {
          return Mod1000(fallback.value), false;
        }
      }
      return 42, false;
    }

    /**
     * `solve_problem`: counts the call and the chosen solver's use, counts a
     * success when that solver returns a value, and answers as `Answer` says.
     */
    method SolveProblem(problemText: string, solve: SolverCall) returns (answer: int)
      requires Valid()
      modifies this
      ensures Valid()
      ensures answer == Answer(ProblemType(problemText), problemText, solve)
      ensures var t := ProblemType(problemText);
        problemsProcessed == old(problemsProcessed) + 1 &&
        (forall name :: name in solverUsage ==>
          solverUsage[name] == old(solverUsage)[name] + (if name == t then 1 else 0)) &&
        successfulSolves == old(successfulSolves) + (if Succeeded(solve(t, problemText)) then 1 else 0)
    {
      problemsProcessed := problemsProcessed + 1;
      var problemType := IdentifyProblemType(problemText);
      solverUsage := solverUsage[problemType := solverUsage[problemType] + 1];
      var solved;
      answer, solved := Dispatch(problemType, problemText, solve);
      if solved {
        successfulSolves := successfulSolves + 1;
      }
    }

    /** `get_statistics`: the counters and the success rate, successes over `max(1, calls)`. */
    function Statistics(): (r: (nat, nat, map<string, nat>, real))
      reads this
      requires Valid()
      ensures r.0 == problemsProcessed && r.1 == successfulSolves && r.2 == solverUsage
      ensures 0.0 <= r.3 <= 1.0
      ensures problemsProcessed == 0 ==> r.3 == 0.0
      ensures problemsProcessed > 0 ==> r.3 * problemsProcessed as real == successfulSolves as real
    {
      var calls := if problemsProcessed >= 1 then problemsProcessed else 1;
      RateBounds(successfulSolves, calls);
      (problemsProcessed, successfulSolves, solverUsage, successfulSolves as real / calls as real)
    }
  }

  lemma RateBounds(successes: nat, calls: nat)
    requires 0 < calls && (successes <= calls || successes == 0)
    ensures 0.0 <= successes as real / calls as real <= 1.0
  {
  }
}
