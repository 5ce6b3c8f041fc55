/**
 * The package-level helpers every solver ends with: reduction of an answer
 * modulo 1000, clamping into a range, and the LaTeX validity test.
 */
module Utils {
  import opened Common
  import LatexParser

  /**
   * `mod_1000(value)`: `int(value) % 1000`, with a negative result moved up by
   * 1000; any value `int()` rejects gives 0.
   */
  function Mod1000(v: PyValue): (r: int)
    ensures 0 <= r < 1000
    ensures AsInt(v).None? ==> r == 0
    ensures AsInt(v).Some? ==> (AsInt(v).value - r) % 1000 == 0
  {
    match AsInt(v)
    case None => 0
    case Some(i) =>
      var result := PyMod(i, 1000);
      if result >= 0 then result else result + 1000
  }

  /** On integers `mod_1000` is the remainder modulo 1000. */
  lemma Mod1000OfInt(i: int)
    ensures Mod1000(PyInt(i)) == i % 1000
  {
    PyModIsEuclideanForPositiveDivisor(i, 1000);
  }

  /** Reducing an answer that is already reduced changes nothing. */
  lemma Mod1000Idempotent(v: PyValue)
    ensures Mod1000(PyInt(Mod1000(v))) == Mod1000(v)
  {
    var r := Mod1000(v);
    Mod1000OfInt(r);
  }

  function MaxInt(a: int, b: int): int { if a >= b then a else b }

  /**
   * `ensure_range(value, min_val, max_val)`: `max(min_val, min(max_val,
   * int(value)))`, and `min_val` when `int()` fails.
   */
  function EnsureRange(v: PyValue, lo: int, hi: int): (r: int)
    ensures AsInt(v).None? ==> r == lo
    ensures lo > hi ==> r == lo
    ensures lo <= hi ==> lo <= r <= hi
    ensures AsInt(v).Some? && lo <= AsInt(v).value <= hi ==> r == AsInt(v).value
    ensures AsInt(v).Some? && AsInt(v).value < lo ==> r == lo
    ensures AsInt(v).Some? && lo <= hi < AsInt(v).value ==> r == hi
  {
    match AsInt(v)
    case None => lo
    case Some(i) => MaxInt(lo, Min(hi, i))
  }

  /** Clamping a clamped value changes nothing, whatever the bounds. */
  lemma EnsureRangeIdempotent(v: PyValue, lo: int, hi: int)
    ensures EnsureRange(PyInt(EnsureRange(v, lo, hi)), lo, hi) == EnsureRange(v, lo, hi)
  {
  }

  /**
   * `validate_latex_expression`: parse the expression and answer whether the
   * parse raised. `parse_problem` catches every exception of its own, so the
   * answer is always `True`.
   */
  method ValidateLatexExpression(expr: string, extractNumbers: LatexParser.NumberExtractor) returns (valid: bool)
    ensures valid
  {
    var _ := LatexParser.ParseProblem(Some(expr), extractNumbers);
    valid := true;
  }
}
