/** Shared value types and Python integer semantics used by every other module. */
module Common {

  datatype Option<+T> = None | Some(value: T)

  /** Python's `a % b`: the remainder takes the sign of the divisor. */
  function PyMod(a: int, b: int): (r: int)
    requires b != 0
    ensures b > 0 ==> 0 <= r < b
    ensures b < 0 ==> b < r <= 0
    ensures a == PyDiv(a, b) * b + r
  {
    var e := a % b;
    if b < 0 && e != 0 then e + b else e
  }

  /** Python's `a // b`: floor division. */
  function PyDiv(a: int, b: int): int
    requires b != 0
  {
    if b < 0 && a % b != 0 then a / b - 1 else a / b
  }

  lemma PyModIsEuclideanForPositiveDivisor(a: int, b: int)
    requires b > 0
    ensures PyMod(a, b) == a % b && PyDiv(a, b) == a / b
  {
  }

  /** Python's `int(x)` on a float: truncation toward zero. */
  function Trunc(x: real): (r: int)
    ensures x >= 0.0 ==> r as real <= x < r as real + 1.0
    ensures x < 0.0 ==> r as real - 1.0 < x <= r as real
  {
    if x >= 0.0 then x.Floor else -((-x).Floor)
  }

  /** Python's `x % m` on a float with a positive modulus. */
  function RealMod(x: real, m: int): (r: real)
    requires m > 0
    ensures 0.0 <= r < m as real
  {
    var f := (x / (m as real)).Floor;
    RealModBounds(x, m as real, f);
    x - (m as real) * (f as real)
  }

  lemma RealModBounds(x: real, a: real, f: int)
    requires a > 0.0 && f == (x / a).Floor
    ensures 0.0 <= x - a * (f as real) < a
  {
    var q := x / a;
    var d := q - f as real;
    assert 0.0 <= d < 1.0;
    assert a * q == x;
    ScaledFraction(a, d);
    assert x - a * (f as real) == a * d;
  }

  lemma ScaledFraction(a: real, d: real)
    requires a > 0.0 && 0.0 <= d < 1.0
    ensures 0.0 <= a * d < a
  {
  }

  /** `float.is_integer()`. */
  predicate IsIntegral(x: real) {
    x.Floor as real == x
  }

  /** `[int(n) for n in numbers if n.is_integer()]`. */
  function IntegerLiterals(numbers: seq<real>): (r: seq<int>)
    ensures |r| <= |numbers|
    ensures forall k :: 0 <= k < |r| ==> r[k] as real in numbers
  {
    if numbers == [] then []
    else if IsIntegral(numbers[0]) then [numbers[0].Floor] + IntegerLiterals(numbers[1..])
    else IntegerLiterals(numbers[1..])
  }

  function Sum(xs: seq<int>): int {
    if xs == [] then 0 else Sum(xs[..|xs| - 1]) + xs[|xs| - 1]
  }

  function RealSum(xs: seq<real>): real {
    if xs == [] then 0.0 else RealSum(xs[..|xs| - 1]) + xs[|xs| - 1]
  }

  function Product(xs: seq<int>): int {
    if xs == [] then 1 else Product(xs[..|xs| - 1]) * xs[|xs| - 1]
  }

  function RealProduct(xs: seq<real>): real {
    if xs == [] then 1.0 else RealProduct(xs[..|xs| - 1]) * xs[|xs| - 1]
  }

  /** Python's `max` of a non-empty list. */
  function Max(xs: seq<int>): (m: int)
    requires xs != []
    ensures m in xs
    ensures forall k :: 0 <= k < |xs| ==> xs[k] <= m
  {
    if |xs| == 1 then xs[0]
    else var m := Max(xs[..|xs| - 1]); if xs[|xs| - 1] > m then xs[|xs| - 1] else m
  }

  function RealMax(xs: seq<real>): (m: real)
    requires xs != []
    ensures m in xs
    ensures forall k :: 0 <= k < |xs| ==> xs[k] <= m
  {
    if |xs| == 1 then xs[0]
    else var m := RealMax(xs[..|xs| - 1]); if xs[|xs| - 1] > m then xs[|xs| - 1] else m
  }

  function RealMin(xs: seq<real>): (m: real)
    requires xs != []
    ensures m in xs
    ensures forall k :: 0 <= k < |xs| ==> m <= xs[k]
  {
    if |xs| == 1 then xs[0]
    else var m := RealMin(xs[..|xs| - 1]); if xs[|xs| - 1] < m then xs[|xs| - 1] else m
  }

  /** `[x for x in xs if x]`: the non-empty entries, in order. */
  function NonEmpty(xs: seq<string>): (r: seq<string>)
    ensures |r| <= |xs|
    ensures forall x :: x in r <==> x in xs && x != []
  {
    if xs == [] then []
    else (if xs[0] != [] then [xs[0]] else []) + NonEmpty(xs[1..])
  }

  function Min(a: int, b: int): int { if a <= b then a else b }

  /**
   * A Python value handed to `int()`: an integer, a float, `None`, or any
   * other object (`inf`, `nan`, a non-numeric string) that `int()` rejects.
   */
  datatype PyValue = PyInt(i: int) | PyFloat(x: real) | PyNone | PyOther

  /** `int(v)`, or `None` where Python raises. */
  function AsInt(v: PyValue): (r: Option<int>)
    ensures r.None? <==> v.PyNone? || v.PyOther?
    ensures v.PyInt? ==> r == Some(v.i)
  {
    match v
    case PyInt(i) => Some(i)
    case PyFloat(x) => Some(Trunc(x))
    case PyNone => None
    case PyOther => None
  }

  /** The position of the first largest element. */
  function ArgMax(xs: seq<int>): (k: nat)
    requires xs != []
    ensures k < |xs| && xs[k] == Max(xs)
  {
    if |xs| == 1 then 0
    else
      var k := ArgMax(xs[..|xs| - 1]);
      if xs[|xs| - 1] > Max(xs[..|xs| - 1]) then |xs| - 1 else k
  }

  /** Position `j` of the list with position `i` removed. */
  lemma DropAt<T>(xs: seq<T>, i: nat, j: nat)
    requires i < |xs| && j < |xs| - 1
    ensures var rest := xs[..i] + xs[i + 1..];
      |rest| == |xs| - 1 && rest[j] == xs[if j < i then j else j + 1]
  {
  }

  /**
   * `sorted(xs)[-2]`: the second largest element counted with multiplicity,
   * i.e. the largest element once one occurrence of the maximum is removed.
   */
  function SecondLargest(xs: seq<int>): int
    requires |xs| >= 2
  {
    var k1 := ArgMax(xs);
    Max(xs[..k1] + xs[k1 + 1..])
  }

  /**
   * The runner-up is an element at another position than a maximum, and
   * every element other than that maximum is at most it.
   */
  lemma SecondLargestIsRunnerUp(xs: seq<int>)
    requires |xs| >= 2
    ensures var r := SecondLargest(xs);
      (exists k1, k2 :: 0 <= k1 < |xs| && 0 <= k2 < |xs| && k1 != k2 && xs[k1] == Max(xs) && xs[k2] == r) &&
      (forall k :: 0 <= k < |xs| && k != ArgMax(xs) ==> xs[k] <= r)
    ensures var r := SecondLargest(xs);
      exists k1, k2 :: 0 <= k1 < |xs| && 0 <= k2 < |xs| && k1 != k2 && xs[k1] == Max(xs) && xs[k2] == r &&
        forall k :: 0 <= k < |xs| && k != k1 ==> xs[k] <= r
  {
    var k1 := ArgMax(xs);
    var rest := xs[..k1] + xs[k1 + 1..];
    var r := Max(rest);
    assert r == SecondLargest(xs);
    var j :| 0 <= j < |rest| && rest[j] == r;
    DropAt(xs, k1, j);
    var k2 := if j < k1 then j else j + 1;
    assert xs[k2] == r;
    assert xs[k2] <= Max(xs);
    assert 0 <= k1 < |xs| && 0 <= k2 < |xs| && k1 != k2 && xs[k1] == Max(xs) && xs[k2] == r;
    forall k | 0 <= k < |xs| && k != k1 ensures xs[k] <= r {
      DropAt(xs, k1, if k < k1 then k else k - 1);
    }
    assert exists a, b :: 0 <= a < |xs| && 0 <= b < |xs| && a != b && xs[a] == Max(xs) && xs[b] == r;
  }


  function RealArgMax(xs: seq<real>): (k: nat)
    requires xs != []
    ensures k < |xs| && xs[k] == RealMax(xs)
  {
    if |xs| == 1 then 0
    else
      var k := RealArgMax(xs[..|xs| - 1]);
      if xs[|xs| - 1] > RealMax(xs[..|xs| - 1]) then |xs| - 1 else k
  }

  /** `sorted(xs, reverse=True)[1]`, as `SecondLargest` on floats. */
  function RealSecondLargest(xs: seq<real>): real
    requires |xs| >= 2
  {
    var k1 := RealArgMax(xs);
    RealMax(xs[..k1] + xs[k1 + 1..])
  }

  /**
   * The runner-up is an element at another position than a maximum, and
   * every element other than that maximum is at most it.
   */
  lemma RealSecondLargestIsRunnerUp(xs: seq<real>)
    requires |xs| >= 2
    ensures var r := RealSecondLargest(xs);
      (exists k1, k2 :: 0 <= k1 < |xs| && 0 <= k2 < |xs| && k1 != k2 && xs[k1] == RealMax(xs) && xs[k2] == r) &&
      (forall k :: 0 <= k < |xs| && k != RealArgMax(xs) ==> xs[k] <= r)
  {
    var k1 := RealArgMax(xs);
    var rest := xs[..k1] + xs[k1 + 1..];
    var r := RealMax(rest);
    assert r == RealSecondLargest(xs);
    var j :| 0 <= j < |rest| && rest[j] == r;
    DropAt(xs, k1, j);
    var k2 := if j < k1 then j else j + 1;
    assert xs[k2] == r;
    assert xs[k2] <= RealMax(xs);
    assert 0 <= k1 < |xs| && 0 <= k2 < |xs| && k1 != k2 && xs[k1] == RealMax(xs) && xs[k2] == r;
    forall k | 0 <= k < |xs| && k != k1 ensures xs[k] <= r {
      DropAt(xs, k1, if k < k1 then k else k - 1);
    }
    assert exists a, b :: 0 <= a < |xs| && 0 <= b < |xs| && a != b && xs[a] == RealMax(xs) && xs[b] == r;
  }

}
