/**
 * The geometry solver's text analysis: the length and angle constraints read
 * from the problem, the property the question asks for, the side lengths and
 * angles of a named triangle looked up among the constraints, the triangle
 * and angle elements built from pattern matches, and the fallback heuristics.
 */
module Geometry {
  import opened Common
  import opened Text
  import opened Scan
  import opened BaseSolver
  import opened LatexParser

  // ---------------------------------------------------------------------------
  // Constraints

  datatype ConstraintKind = Length | Angle

  /** One entry of the constraint list: a `type`, the named `elements` and a `value`. */
  datatype Constraint = Constraint(kind: ConstraintKind, elements: string, value: real)

  /** `([A-Z]{2})\s*=\s*(\d+)`: group 1 is token 0, group 2 is token 4. */
  const LengthPattern: seq<seq<Token>> :=
    [[Fixed(UpperChars, 2), Run(SpaceChars, false), Lit("="), Run(SpaceChars, false), Run(DigitChars, true)]]

  /** `\\angle\s+([A-Z]{3})\s*=\s*(\d+)`: group 1 is token 2, group 2 is token 6. */
  const AngleValuePattern: seq<seq<Token>> :=
    [[Lit("\\angle"), Run(SpaceChars, true), Fixed(UpperChars, 3), Run(SpaceChars, false), Lit("="),
      Run(SpaceChars, false), Run(DigitChars, true)]]

  /** One constraint per reported match, named by its first group and valued by `float` of its second. */
  function ConstraintsOf(kind: ConstraintKind, names: seq<string>, values: seq<string>): (cs: seq<Constraint>)
    requires |names| == |values|
    ensures |cs| == |names|
    ensures forall k :: 0 <= k < |cs| ==>
      cs[k] == Constraint(kind, names[k], DigitsValue(values[k]) as real)
  {
    seq(|names|, k requires 0 <= k < |names| => Constraint(kind, names[k], DigitsValue(values[k]) as real))
  }

  /** The two groups of every match of the length pattern. */
  function LengthGroups(text: string): (r: (seq<string>, seq<string>))
    ensures |r.0| == |r.1| == |FindAll(text, LengthPattern, 0)|
    ensures forall k :: 0 <= k < |r.0| ==> |r.0[k]| == 2 && AllIn(r.0[k], UpperChars) && Contains(text, r.0[k])
  {
    GroupsAreCapitals(text, LengthPattern, 0, 2);
    (FindAllGroup(text, LengthPattern, 0), FindAllGroup(text, LengthPattern, 4))
  }

  /** The two groups of every match of the angle pattern. */
  function AngleGroups(text: string): (r: (seq<string>, seq<string>))
    ensures |r.0| == |r.1| == |FindAll(text, AngleValuePattern, 0)|
    ensures forall k :: 0 <= k < |r.0| ==> |r.0[k]| == 3 && AllIn(r.0[k], UpperChars) && Contains(text, r.0[k])
  {
    GroupsAreCapitals(text, AngleValuePattern, 2, 3);
    (FindAllGroup(text, AngleValuePattern, 2), FindAllGroup(text, AngleValuePattern, 6))
  }

  function LengthConstraints(text: string): seq<Constraint> {
    ConstraintsOf(Length, LengthGroups(text).0, LengthGroups(text).1)
  }

  function AngleConstraints(text: string): seq<Constraint> {
    ConstraintsOf(Angle, AngleGroups(text).0, AngleGroups(text).1)
  }

  /** The constraint list: every length constraint, then every angle constraint. */
  function Constraints(text: string): seq<Constraint> {
    LengthConstraints(text) + AngleConstraints(text)
  }

  /** Two constraint lists appended: the first kind fills the front, the second the back. */
  lemma KindsInBlocks(k1: ConstraintKind, n1: seq<string>, v1: seq<string>, k2: ConstraintKind, n2: seq<string>, v2: seq<string>)
    requires |n1| == |v1| && |n2| == |v2|
    ensures var cs := ConstraintsOf(k1, n1, v1) + ConstraintsOf(k2, n2, v2);
      |cs| == |n1| + |n2| &&
      (forall k :: 0 <= k < |n1| ==> cs[k].kind == k1 && cs[k].elements == n1[k]) &&
      (forall k :: |n1| <= k < |cs| ==> cs[k].kind == k2 && cs[k].elements == n2[k - |n1|])
  {
  }

  /**
   * The length constraints come first, one per match of the length pattern in
   * the order `finditer` reports them, then the angle constraints likewise.
   */
  lemma LengthsBeforeAngles(text: string)
    ensures var cs := Constraints(text);
      var ls := LengthGroups(text).0;
      var ags := AngleGroups(text).0;
      |cs| == |ls| + |ags| &&
      (forall k :: 0 <= k < |ls| ==> cs[k].kind == Length && cs[k].elements == ls[k]) &&
      (forall k :: |ls| <= k < |cs| ==> cs[k].kind == Angle && cs[k].elements == ags[k - |ls|])
  {
    KindsInBlocks(Length, LengthGroups(text).0, LengthGroups(text).1, Angle, AngleGroups(text).0, AngleGroups(text).1);
  }

  /** `_extract_geometric_constraints`: the two `finditer` loops appending to one list. */
  method ExtractGeometricConstraints(text: string) returns (constraints: seq<Constraint>)
    ensures constraints == Constraints(text)
  {
    var lengthMatches := LengthGroups(text);
    var lengths := CollectConstraints(Length, lengthMatches.0, lengthMatches.1);
    var angleMatches := AngleGroups(text);
    var angles := CollectConstraints(Angle, angleMatches.0, angleMatches.1);
    constraints := lengths + angles;
  }

  /** One `finditer` loop: a constraint appended per match. */
  method CollectConstraints(kind: ConstraintKind, names: seq<string>, values: seq<string>) returns (cs: seq<Constraint>)
    requires |names| == |values|
    ensures cs == ConstraintsOf(kind, names, values)
  {
    cs := [];
    for k := 0 to |names|
      invariant cs == ConstraintsOf(kind, names, values)[..k]
    {
      cs := cs + [Constraint(kind, names[k], DigitsValue(values[k]) as real)];
    }
  }

  /** Every group `g` of a pattern whose token `g` is `n` capitals is `n` capitals of the text. */
  lemma GroupsAreCapitals(text: string, alts: seq<seq<Token>>, g: nat, n: nat)
    requires forall a :: 0 <= a < |alts| ==> g < |alts[a]| && alts[a][g] == Fixed(UpperChars, n)
    ensures var ws := FindAllGroup(text, alts, g);
      forall k :: 0 <= k < |ws| ==> |ws[k]| == n && AllIn(ws[k], UpperChars) && Contains(text, ws[k])
  {
    forall k | 0 <= k < |FindAllGroup(text, alts, g)| {
      CapitalsGroup(text, alts, g, n, k);
    }
  }

  predicate WellNamed(c: Constraint, text: string) {
    |c.elements| == (if c.kind == Length then 2 else 3) &&
    AllIn(c.elements, UpperChars) && Contains(text, c.elements) &&
    c.value >= 0.0 && c.value == c.value.Floor as real
  }

  lemma NamedBy(kind: ConstraintKind, names: seq<string>, values: seq<string>, text: string)
    requires |names| == |values|
    requires forall k :: 0 <= k < |names| ==>
      |names[k]| == (if kind == Length then 2 else 3) && AllIn(names[k], UpperChars) && Contains(text, names[k])
    ensures forall k :: 0 <= k < |names| ==> WellNamed(ConstraintsOf(kind, names, values)[k], text)
  {
  }

  /**
   * A length constraint names two capitals and an angle constraint three,
   * each taken from the text; every value is a whole number.
   */
  lemma ConstraintShapes(text: string)
    ensures forall k :: 0 <= k < |Constraints(text)| ==> WellNamed(Constraints(text)[k], text)
  {
    var (ln, lv) := LengthGroups(text);
    var (an, av) := AngleGroups(text);
    NamedBy(Length, ln, lv, text);
    NamedBy(Angle, an, av, text);
    var ls, ags := LengthConstraints(text), AngleConstraints(text);
    forall k | 0 <= k < |ls + ags| ensures WellNamed((ls + ags)[k], text) {
      if k < |ls| {
        assert (ls + ags)[k] == ls[k];
      } else {
        assert (ls + ags)[k] == ags[k - |ls|];
      }
    }
  }

  // ---------------------------------------------------------------------------
  // The target property

  /** The keys of the property handler table. */
  const PropertyHandlers: seq<string> := ["area", "perimeter", "angle", "distance", "ratio"]

  /**
   * `_identify_target_property`: area, then length or distance (both read as
   * "distance"), then angle, then ratio, else "unknown".
   */
  function TargetProperty(problem: MathProblem): (r: string)
    ensures var lower := Lower(problem.cleanedText);
      var area := Contains(lower, "area");
      var distance := Contains(lower, "length") || Contains(lower, "distance");
      var angle := Contains(lower, "angle");
      var ratio := Contains(lower, "ratio");
      (r == "area" <==> area) &&
      (r == "distance" <==> !area && distance) &&
      (r == "angle" <==> !area && !distance && angle) &&
      (r == "ratio" <==> !area && !distance && !angle && ratio) &&
      (r == "unknown" <==> !area && !distance && !angle && !ratio)
  {
    var lower := Lower(problem.cleanedText);
    if Contains(lower, "area") then "area"
    else if Contains(lower, "length") || Contains(lower, "distance") then "distance"
    else if Contains(lower, "angle") then "angle"
    else if Contains(lower, "ratio") then "ratio"
    else "unknown"
  }

  /** The target is a handler key or "unknown", and never "perimeter": that handler is unreachable. */
  lemma TargetHasHandler(problem: MathProblem)
    ensures var r := TargetProperty(problem);
      (r in PropertyHandlers || r == "unknown") && r != "perimeter"
  {
    var r := TargetProperty(problem);
    assert r == "area" || r == "distance" || r == "angle" || r == "ratio" || r == "unknown";
    assert PropertyHandlers[0] == "area" && PropertyHandlers[2] == "angle";
    assert PropertyHandlers[3] == "distance" && PropertyHandlers[4] == "ratio";
  }

  // ---------------------------------------------------------------------------
  // Looking up a triangle's sides and angles

  /** Whether a constraint of kind `kind` names `a` or `b`. */
  predicate Names(c: Constraint, kind: ConstraintKind, a: string, b: string) {
    c.kind == kind && (c.elements == a || c.elements == b)
  }

  /** The position of the first constraint naming `a` or `b`, or `|cs|` when there is none. */
  function FirstNaming(cs: seq<Constraint>, kind: ConstraintKind, a: string, b: string): (k: nat)
    ensures k <= |cs|
    ensures k < |cs| ==> Names(cs[k], kind, a, b)
    ensures forall j :: 0 <= j < k ==> !Names(cs[j], kind, a, b)
    decreases |cs|
  {
    if cs == [] then 0
    else if Names(cs[0], kind, a, b) then 0
    else 1 + FirstNaming(cs[1..], kind, a, b)
  }

  /** `next((c['value'] for c in constraints if ...), None)`. */
  function Lookup(cs: seq<Constraint>, kind: ConstraintKind, a: string, b: string): (r: Option<real>)
    ensures r.None? <==> forall j :: 0 <= j < |cs| ==> !Names(cs[j], kind, a, b)
  {
    var k := FirstNaming(cs, kind, a, b);
    if k < |cs| then Some(cs[k].value) else None
  }

  /** The first constraint naming the pair wins, whatever follows it. */
  lemma LookupFirst(front: seq<Constraint>, c: Constraint, back: seq<Constraint>, kind: ConstraintKind, a: string, b: string)
    requires forall j :: 0 <= j < |front| ==> !Names(front[j], kind, a, b)
    requires Names(c, kind, a, b)
    ensures Lookup(front + [c] + back, kind, a, b) == Some(c.value)
  {
    var cs := front + [c] + back;
    var k := FirstNaming(cs, kind, a, b);
    assert cs[|front|] == c;
  }

  /** A constraint that names neither `a` nor `b` is skipped. */
  lemma LookupSkips(c: Constraint, cs: seq<Constraint>, kind: ConstraintKind, a: string, b: string)
    requires !Names(c, kind, a, b)
    ensures Lookup([c] + cs, kind, a, b) == Lookup(cs, kind, a, b)
  {
    assert ([c] + cs)[1..] == cs;
  }

  function Reverse(s: string): (r: string)
    ensures |r| == |s| && forall i :: 0 <= i < |s| ==> r[i] == s[|s| - 1 - i]
    decreases |s|
  {
    if s == [] then [] else Reverse(s[1..]) + [s[0]]
  }

  /** Side `i` of the triangle `v`: `vertices[i] + vertices[(i+1)%3]`. */
  function Side(v: string, i: nat): string
    requires |v| == 3 && i < 3
  {
    [v[i], v[(i + 1) % 3]]
  }

  /** Angle `i` of the triangle `v`: `vertices[(i-1)%3] + vertices[i] + vertices[(i+1)%3]`. */
  function AngleName(v: string, i: nat): string
    requires |v| == 3 && i < 3
  {
    [v[(i - 1) % 3], v[i], v[(i + 1) % 3]]
  }

  /** The angle names looked up are CAB, ABC and BCA for a triangle ABC. */
  lemma AngleOrder(v: string)
    requires |v| == 3
    ensures AngleName(v, 0) == [v[2], v[0], v[1]]
    ensures AngleName(v, 1) == [v[0], v[1], v[2]]
    ensures AngleName(v, 2) == [v[1], v[2], v[0]]
  {
    assert (0 - 1) % 3 == 2;
  }

  function SideLength(v: string, cs: seq<Constraint>, i: nat): Option<real>
    requires |v| == 3 && i < 3
  {
    Lookup(cs, Length, Side(v, i), Reverse(Side(v, i)))
  }

  function AngleAt(v: string, cs: seq<Constraint>, i: nat): Option<real>
    requires |v| == 3 && i < 3
  {
    Lookup(cs, Angle, AngleName(v, i), AngleName(v, i))
  }

  /** Side `i` when looking up lengths, angle `i` when looking up angles. */
  function Item(v: string, cs: seq<Constraint>, kind: ConstraintKind, i: nat): Option<real>
    requires |v| == 3 && i < 3
  {
    if kind == Length then SideLength(v, cs, i) else AngleAt(v, cs, i)
  }

  function FoundValue(o: Option<real>): seq<real> {
    if o.Some? then [o.value] else []
  }

  /** The items among the first `n` that are found, in order. */
  function FoundUpTo(v: string, cs: seq<Constraint>, kind: ConstraintKind, n: nat): seq<real>
    requires |v| == 3 && n <= 3
  {
    if n == 0 then [] else FoundUpTo(v, cs, kind, n - 1) + FoundValue(Item(v, cs, kind, n - 1))
  }

  function TriangleSides(v: string, cs: seq<Constraint>): seq<real>
    requires |v| == 3
  {
    FoundUpTo(v, cs, Length, 3)
  }

  function TriangleAngles(v: string, cs: seq<Constraint>): seq<real>
    requires |v| == 3
  {
    FoundUpTo(v, cs, Angle, 3)
  }

  /**
   * At most three values are found; all three exactly when every item is
   * named, and then in the order AB, BC, CA for sides and CAB, ABC, BCA for
   * angles.  When only some are found they keep that order.
   */
  lemma FoundShape(v: string, cs: seq<Constraint>, kind: ConstraintKind)
    requires |v| == 3
    ensures var r := FoundUpTo(v, cs, kind, 3);
      var a, b, c := Item(v, cs, kind, 0), Item(v, cs, kind, 1), Item(v, cs, kind, 2);
      |r| <= 3 &&
      (|r| == 3 <==> a.Some? && b.Some? && c.Some?) &&
      r == FoundValue(a) + FoundValue(b) + FoundValue(c)
  {
    var a, b, c := Item(v, cs, kind, 0), Item(v, cs, kind, 1), Item(v, cs, kind, 2);
    assert FoundUpTo(v, cs, kind, 1) == FoundValue(a);
    assert FoundUpTo(v, cs, kind, 2) == FoundValue(a) + FoundValue(b);
  }

  /** `_get_triangle_sides`: for each side, the first length constraint naming it, if any. */
  method GetTriangleSides(vertices: string, constraints: seq<Constraint>) returns (sides: seq<real>)
    requires |vertices| == 3
    ensures sides == TriangleSides(vertices, constraints)
  {
    sides := [];
    for i := 0 to 3
      invariant sides == FoundUpTo(vertices, constraints, Length, i)
    {
      var side := [vertices[i], vertices[(i + 1) % 3]];
      var length := Lookup(constraints, Length, side, Reverse(side));
      if length.Some? {
        sides := sides + [length.value];
      }
    }
  }

  /** `_get_triangle_angles`: for each vertex, the first angle constraint naming it in that exact order. */
  method GetTriangleAngles(vertices: string, constraints: seq<Constraint>) returns (angles: seq<real>)
    requires |vertices| == 3
    ensures angles == TriangleAngles(vertices, constraints)
  {
    angles := [];
    for i := 0 to 3
      invariant angles == FoundUpTo(vertices, constraints, Angle, i)
    {
      var angleVertices := [vertices[(i - 1) % 3], vertices[i], vertices[(i + 1) % 3]];
      var angle := Lookup(constraints, Angle, angleVertices, angleVertices);
      if angle.Some? {
        angles := angles + [angle.value];
      }
    }
  }

  predicate Distinct(v: string) {
    |v| == 3 && v[0] != v[1] && v[1] != v[2] && v[0] != v[2]
  }

  /** A side is found when its length is given with the vertices in either order. */
  lemma SideEitherOrder(v: string, cs: seq<Constraint>, i: nat, x: real)
    requires |v| == 3 && i < 3
    ensures SideLength(v, [Constraint(Length, Side(v, i), x)] + cs, i) == Some(x)
    ensures SideLength(v, [Constraint(Length, Reverse(Side(v, i)), x)] + cs, i) == Some(x)
  {
    LookupFirst([], Constraint(Length, Side(v, i), x), cs, Length, Side(v, i), Reverse(Side(v, i)));
    assert [] + [Constraint(Length, Side(v, i), x)] + cs == [Constraint(Length, Side(v, i), x)] + cs;
    LookupFirst([], Constraint(Length, Reverse(Side(v, i)), x), cs, Length, Side(v, i), Reverse(Side(v, i)));
    assert [] + [Constraint(Length, Reverse(Side(v, i)), x)] + cs == [Constraint(Length, Reverse(Side(v, i)), x)] + cs;
  }

  /**
   * An angle is not found in reverse: for a triangle with distinct vertices,
   * a constraint naming an angle's vertices backwards is skipped.
   */
  lemma AngleNeverReversed(v: string, cs: seq<Constraint>, i: nat, x: real)
    requires Distinct(v) && i < 3
    ensures AngleAt(v, [Constraint(Angle, Reverse(AngleName(v, i)), x)] + cs, i) == AngleAt(v, cs, i)
  {
    var name := AngleName(v, i);
    var back := Reverse(name);
    assert back[0] == name[2] && name[0] != name[2];
    LookupSkips(Constraint(Angle, back, x), cs, Angle, name, name);
  }

  // ---------------------------------------------------------------------------
  // Geometric elements

  datatype ElementProperties =
    | Vertices(vertices: string)
    | AngleProperties(value: real, points: string)

  /** A `GeometricElement`; `related_elements` is always empty and is left out. */
  datatype GeometricElement = GeometricElement(elementType: string, elementLabel: string, properties: ElementProperties)

  /**
   * `_create_geometric_element`, given the element type and the match's groups
   * (group 1 first).  A triangle is labelled by its vertices, an angle by
   * "angle_" and its points; a circle fails inside the `try` because its
   * helper does not exist, and every other type has no element.
   */
  function CreateElement(elementType: string, groups: seq<string>): (r: Option<GeometricElement>)
    ensures r.Some? <==>
      (elementType == "triangle" && |groups| >= 1) ||
      (elementType == "angle" && |groups| >= 2 && groups[1] != [] && AllIn(groups[1], DigitChars))
    ensures r.Some? && elementType == "triangle" ==>
      r.value.elementType == "triangle" && r.value.elementLabel == groups[0] && r.value.properties == Vertices(groups[0])
    ensures r.Some? && elementType == "angle" ==>
      r.value.elementType == "angle" && r.value.elementLabel == "angle_" + groups[0] &&
      r.value.properties == AngleProperties(DigitsValue(groups[1]) as real, groups[0])
  {
    if elementType == "triangle" then
      if |groups| >= 1 then Some(GeometricElement("triangle", groups[0], Vertices(groups[0]))) else None
    else if elementType == "angle" then
      if |groups| >= 2 && groups[1] != [] && AllIn(groups[1], DigitChars) then
        Some(GeometricElement("angle", "angle_" + groups[0], AngleProperties(DigitsValue(groups[1]) as real, groups[0])))
      else None
    else None
  }

  /**
   * `triangle\s+(?:\\triangle\s+)?([A-Z]{3})`: the optional group is tried
   * first; without it, two empty literals keep the vertices at token 4.
   */
  const TriangleElementPattern: seq<seq<Token>> := [
    [Lit("triangle"), Run(SpaceChars, true), Lit("\\triangle"), Run(SpaceChars, true), Fixed(UpperChars, 3)],
    [Lit("triangle"), Run(SpaceChars, true), Lit(""), Lit(""), Fixed(UpperChars, 3)]]

  /** The vertices group of every match of the triangle pattern: three capitals of the text. */
  function TriangleVertices(text: string): (ws: seq<string>)
    ensures |ws| == |FindAll(text, TriangleElementPattern, 0)|
    ensures forall k :: 0 <= k < |ws| ==> |ws[k]| == 3 && AllIn(ws[k], UpperChars) && Contains(text, ws[k])
  {
    GroupsAreCapitals(text, TriangleElementPattern, 4, 3);
    FindAllGroup(text, TriangleElementPattern, 4)
  }

  /** A triangle element built from a match is labelled by three capitals, so its vertices form a triangle. */
  lemma TriangleElementShape(text: string, k: nat)
    requires k < |TriangleVertices(text)|
    ensures var e := CreateElement("triangle", [TriangleVertices(text)[k]]);
      e.Some? && e.value.properties.Vertices? && |e.value.properties.vertices| == 3 &&
      AllIn(e.value.elementLabel, UpperChars)
  {
    TriangleOf(TriangleVertices(text)[k]);
  }

  lemma TriangleOf(w: string)
    requires |w| == 3 && AllIn(w, UpperChars)
    ensures var e := CreateElement("triangle", [w]);
      e.Some? && e.value.properties.Vertices? && |e.value.properties.vertices| == 3 &&
      AllIn(e.value.elementLabel, UpperChars)
  {
  }

  /** An angle element's label is longer than three letters, so it never shares a key with a triangle. */
  lemma ElementLabelsDiffer(vertices: string, groups: seq<string>)
    requires |vertices| == 3 && CreateElement("angle", groups).Some?
    ensures CreateElement("angle", groups).value.elementLabel != CreateElement("triangle", [vertices]).value.elementLabel
  {
    assert |"angle_" + groups[0]| >= 6;
  }

  // ---------------------------------------------------------------------------
  // Heuristics

  /** The position of the first number above `bound`, or `|xs|` when there is none. */
  function FirstAbove(xs: seq<real>, bound: real): (k: nat)
    ensures k <= |xs|
    ensures k < |xs| ==> xs[k] > bound
    ensures forall j :: 0 <= j < k ==> xs[j] <= bound
    decreases |xs|
  {
    if xs == [] then 0
    else if xs[0] > bound then 0
    else 1 + FirstAbove(xs[1..], bound)
  }

  /**
   * `_apply_geometric_heuristics`: 42 without numbers; for a triangle 90 when
   * it is right or perpendicular, else 60 when equilateral, else the largest
   * number modulo 1000; for a circle with a diameter or radius the first
   * number above 10, truncated, modulo 1000, and 360 for any other circle;
   * otherwise the largest number modulo 1000.
   */
  function GeometricHeuristics(problem: MathProblem): (r: PyValue)
    ensures r.PyInt? || r.PyFloat?
    ensures r.PyInt? ==> 0 <= r.i < 1000
    ensures r.PyFloat? ==> 0.0 <= r.x < 1000.0
    ensures problem.numbers == [] ==> r == PyInt(42)
    ensures var lower := Lower(problem.cleanedText);
      problem.numbers != [] && Contains(lower, "triangle") ==>
        ((Contains(lower, "right") || Contains(lower, "perpendicular") ==> r == PyInt(90)) &&
         (!Contains(lower, "right") && !Contains(lower, "perpendicular") && Contains(lower, "equilateral") ==>
           r == PyInt(60)))
    ensures var lower := Lower(problem.cleanedText);
      var k := FirstAbove(problem.numbers, 10.0);
      problem.numbers != [] && !Contains(lower, "triangle") && Contains(lower, "circle") ==>
        r == (if (Contains(lower, "diameter") || Contains(lower, "radius")) && k < |problem.numbers|
              then PyInt(Trunc(problem.numbers[k]) % 1000)
              else PyInt(360))
    ensures var lower := Lower(problem.cleanedText);
      problem.numbers != [] &&
      (if Contains(lower, "triangle")
       then !Contains(lower, "right") && !Contains(lower, "perpendicular") && !Contains(lower, "equilateral")
       else !Contains(lower, "circle")) ==>
        r == PyFloat(RealMod(RealMax(problem.numbers), 1000))
  {
    var lower := Lower(problem.cleanedText);
    var numbers := problem.numbers;
    if numbers == [] then PyInt(42)
    else if Contains(lower, "triangle") then
      if Contains(lower, "right") || Contains(lower, "perpendicular") then PyInt(90)
      else if Contains(lower, "equilateral") then PyInt(60)
      else PyFloat(RealMod(RealMax(numbers), 1000))
    else if Contains(lower, "circle") then
      if Contains(lower, "diameter") || Contains(lower, "radius") then
        var k := FirstAbove(numbers, 10.0);
        if k < |numbers| then
          assert Trunc(numbers[k]) >= 10;
          PyInt(Trunc(numbers[k]) % 1000)
        else PyInt(360)
      else PyInt(360)
    else PyFloat(RealMod(RealMax(numbers), 1000))
  }

  /** The heuristics as the source runs them, with the loop over the numbers. */
  method ApplyGeometricHeuristics(problem: MathProblem) returns (r: PyValue)
    ensures r == GeometricHeuristics(problem)
  {
    var lower := Lower(problem.cleanedText);
    var numbers := problem.numbers;
    if numbers == [] {
      return PyInt(42);
    }
    if Contains(lower, "triangle") {
      if Contains(lower, "right") || Contains(lower, "perpendicular") {
        return PyInt(90);
      }
      if Contains(lower, "equilateral") {
        return PyInt(60);
      }
      return PyFloat(RealMod(RealMax(numbers), 1000));
    }
    if Contains(lower, "circle") {
      if Contains(lower, "diameter") || Contains(lower, "radius") {
        for i := 0 to |numbers|
          invariant forall j :: 0 <= j < i ==> numbers[j] <= 10.0
        {
          if numbers[i] > 10.0 {
            assert FirstAbove(numbers, 10.0) == i;
            return PyInt(Trunc(numbers[i]) % 1000);
          }
        }
      }
      return PyInt(360);
    }
    return PyFloat(RealMod(RealMax(numbers), 1000));
  }
}
