/**
 * Character classes and the few string operations the solvers perform on
 * problem text: lower-casing, substring tests, `str.replace`, the
 * `re.sub(r'\s+', ' ', …)` whitespace collapse and `str.strip()`.
 * Only the ASCII range is modelled.
 */
module Text {

  /** Python's `str.isspace()` (and regex `\s`) restricted to ASCII. */
  predicate IsSpace(c: char) {
    c == ' ' || ('\t' <= c <= '\r') || ('\U{001C}' <= c <= '\U{001F}')
  }

  predicate IsUpper(c: char) { 'A' <= c <= 'Z' }

  predicate IsLetter(c: char) { 'a' <= c <= 'z' || IsUpper(c) }

  predicate IsDigit(c: char) { '0' <= c <= '9' }

  function LowerChar(c: char): char {
    if IsUpper(c) then (c as int + 32) as char else c
  }

  /** `str.lower()` on ASCII text. */
  function Lower(s: string): (r: string)
    ensures |r| == |s|
    ensures forall i :: 0 <= i < |s| ==> r[i] == LowerChar(s[i])
  {
    if s == [] then [] else [LowerChar(s[0])] + Lower(s[1..])
  }

  predicate IsPrefixAt(s: string, p: string, i: int) {
    0 <= i && i + |p| <= |s| && s[i..i + |p|] == p
  }

  /** Python's `p in s`. */
  predicate Contains(s: string, p: string) {
    exists i :: 0 <= i <= |s| - |p| && IsPrefixAt(s, p, i)
  }

  /** `any(k in s for k in keywords)`. */
  predicate ContainsAny(s: string, keywords: seq<string>) {
    exists k :: 0 <= k < |keywords| && Contains(s, keywords[k])
  }

  /** The number of distinct keywords present: `sum(1 for k in keywords if k in s)`. */
  function CountPresent(s: string, keywords: seq<string>): (n: nat)
    ensures n <= |keywords|
    ensures n == 0 <==> !ContainsAny(s, keywords)
  {
    if keywords == [] then 0
    else
      var rest := CountPresent(s, keywords[1..]);
      assert ContainsAny(s, keywords) <==> Contains(s, keywords[0]) || ContainsAny(s, keywords[1..]) by {
        if ContainsAny(s, keywords[1..]) {
          var k :| 0 <= k < |keywords[1..]| && Contains(s, keywords[1..][k]);
          assert Contains(s, keywords[k + 1]);
        }
        if ContainsAny(s, keywords) && !Contains(s, keywords[0]) {
          var k :| 0 <= k < |keywords| && Contains(s, keywords[k]);
          assert Contains(s, keywords[1..][k - 1]);
        }
      }
      (if Contains(s, keywords[0]) then 1 else 0) + rest
  }

  /**
   * The position of the first keyword list in `table` with a keyword present
   * (`|table|` when there is none): a scan of a category table in its order.
   */
  function FirstPresent(s: string, table: seq<seq<string>>): (r: nat)
    ensures r <= |table|
    ensures r < |table| ==> ContainsAny(s, table[r])
    ensures forall j :: 0 <= j < r ==> !ContainsAny(s, table[j])
  {
    if table == [] then 0
    else if ContainsAny(s, table[0]) then 0
    else
      var r := 1 + FirstPresent(s, table[1..]);
      assert forall j :: 1 <= j < r ==> table[j] == table[1..][j - 1];
      r
  }

  /** Python's `s.replace(p, rep)`: left to right, non-overlapping. */
  function Replace(s: string, p: string, rep: string): string
    requires p != []
    decreases |s|
  {
    if |s| < |p| then s
    else if s[..|p|] == p then rep + Replace(s[|p|..], p, rep)
    else [s[0]] + Replace(s[1..], p, rep)
  }

  /** Leading whitespace removed: `str.lstrip()`. */
  function DropSpaces(s: string): (r: string)
    ensures |r| <= |s| && r == s[|s| - |r|..]
    ensures r == [] || !IsSpace(r[0])
    ensures forall i :: 0 <= i < |s| - |r| ==> IsSpace(s[i])
  {
    if s != [] && IsSpace(s[0]) then DropSpaces(s[1..]) else s
  }

  /** Trailing whitespace removed: `str.rstrip()`. */
  function DropTrailingSpaces(s: string): (r: string)
    ensures |r| <= |s| && r == s[..|r|]
    ensures r == [] || !IsSpace(r[|r| - 1])
    ensures forall i :: |r| <= i < |s| ==> IsSpace(s[i])
  {
    if s != [] && IsSpace(s[|s| - 1]) then DropTrailingSpaces(s[..|s| - 1]) else s
  }

  /** `str.strip()`. */
  function Strip(s: string): string {
    DropTrailingSpaces(DropSpaces(s))
  }

  /** `re.sub(r'\s+', ' ', s)`: every maximal whitespace run becomes one blank. */
  function Collapse(s: string): string
    decreases |s|
  {
    if s == [] then []
    else if IsSpace(s[0]) then [' '] + Collapse(DropSpaces(s[1..]))
    else [s[0]] + Collapse(s[1..])
  }

  /** The non-whitespace characters of `s`, in order. */
  function NonSpace(s: string): string {
    if s == [] then [] else (if IsSpace(s[0]) then [] else [s[0]]) + NonSpace(s[1..])
  }

  /** Whitespace at position `i` and at the next one. */
  predicate SpacePair(s: string, i: int)
    requires 0 <= i < |s| - 1
  {
    IsSpace(s[i]) && IsSpace(s[i + 1])
  }

  predicate NoDoubleSpace(s: string) {
    forall i :: 0 <= i < |s| - 1 ==> !SpacePair(s, i)
  }

  /** No whitespace at either end and no two whitespace characters in a row. */
  predicate Tidy(s: string) {
    NoDoubleSpace(s) && (s == [] || (!IsSpace(s[0]) && !IsSpace(s[|s| - 1])))
  }

  predicate SpaceFree(s: string) {
    forall i :: 0 <= i < |s| ==> !IsSpace(s[i])
  }

  lemma NoDoubleSpaceConcat(a: string, b: string)
    requires NoDoubleSpace(a) && NoDoubleSpace(b)
    requires a == [] || b == [] || !(IsSpace(a[|a| - 1]) && IsSpace(b[0]))
    ensures NoDoubleSpace(a + b)
  {
    var c := a + b;
    forall i | 0 <= i < |c| - 1 ensures !SpacePair(c, i) {
      if i < |a| - 1 {
        assert c[i] == a[i] && c[i + 1] == a[i + 1];
        assert !SpacePair(a, i);
      } else if i == |a| - 1 {
        assert c[i] == a[|a| - 1] && c[i + 1] == b[0];
      } else {
        assert c[i] == b[i - |a|] && c[i + 1] == b[i - |a| + 1];
        assert !SpacePair(b, i - |a|);
      }
    }
  }

  lemma {:induction false} NonSpaceOfLeadingSpaces(s: string)
    ensures NonSpace(DropSpaces(s)) == NonSpace(s)
    decreases |s|
  {
    if s != [] && IsSpace(s[0]) {
      NonSpaceOfLeadingSpaces(s[1..]);
    }
  }

  lemma {:induction false} NonSpaceAppend(a: string, b: string)
    ensures NonSpace(a + b) == NonSpace(a) + NonSpace(b)
    decreases |a|
  {
    if a != [] {
      assert (a + b)[1..] == a[1..] + b;
      NonSpaceAppend(a[1..], b);
    } else {
      assert a + b == b;
    }
  }

  lemma {:induction false} NonSpaceOfSpaces(s: string)
    requires forall i :: 0 <= i < |s| ==> IsSpace(s[i])
    ensures NonSpace(s) == []
    decreases |s|
  {
    if s != [] {
      NonSpaceOfSpaces(s[1..]);
    }
  }

  /** The collapse starts with a blank exactly where its input starts with whitespace. */
  lemma CollapseHead(s: string)
    ensures Collapse(s) == [] <==> s == []
    ensures s != [] ==> Collapse(s)[0] == if IsSpace(s[0]) then ' ' else s[0]
  {
  }

  /** The collapse ends with whitespace exactly when its input does. */
  lemma {:induction false} CollapseLast(s: string)
    requires s != []
    ensures IsSpace(Collapse(s)[|Collapse(s)| - 1]) <==> IsSpace(s[|s| - 1])
    decreases |s|
  {
    if IsSpace(s[0]) {
      var t := DropSpaces(s[1..]);
      if t == [] {
        assert Collapse(s) == [' '];
        if |s| > 1 {
          assert s[|s| - 1] == s[1..][|s| - 2];
        }
      } else {
        CollapseLast(t);
        CollapseHead(t);
        assert Collapse(s) == [' '] + Collapse(t);
        assert t[|t| - 1] == s[|s| - 1];
      }
    } else if |s| > 1 {
      CollapseLast(s[1..]);
      CollapseHead(s[1..]);
      assert Collapse(s) == [s[0]] + Collapse(s[1..]);
    }
  }

  /** The collapse leaves no two whitespace characters side by side. */
  lemma {:induction false} CollapseNoDouble(s: string)
    ensures NoDoubleSpace(Collapse(s))
    decreases |s|
  {
    if s == [] {
    } else if IsSpace(s[0]) {
      var t := DropSpaces(s[1..]);
      CollapseNoDouble(t);
      CollapseHead(t);
      NoDoubleSpaceConcat([' '], Collapse(t));
    } else {
      CollapseNoDouble(s[1..]);
      NoDoubleSpaceConcat([s[0]], Collapse(s[1..]));
    }
  }

  /** The collapse keeps every non-whitespace character, in order. */
  lemma {:induction false} CollapseNonSpace(s: string)
    ensures NonSpace(Collapse(s)) == NonSpace(s)
    decreases |s|
  {
    if s == [] {
    } else if IsSpace(s[0]) {
      var t := DropSpaces(s[1..]);
      CollapseNonSpace(t);
      NonSpaceOfLeadingSpaces(s[1..]);
      assert Collapse(s) == [' '] + Collapse(t);
      NonSpaceAppend([' '], Collapse(t));
    } else {
      CollapseNonSpace(s[1..]);
      assert Collapse(s) == [s[0]] + Collapse(s[1..]);
      NonSpaceAppend([s[0]], Collapse(s[1..]));
    }
  }

  /**
   * The whitespace collapse leaves no two whitespace characters side by side,
   * keeps every other character in order, and starts and ends with whitespace
   * exactly when its input does.
   */
  lemma CollapseShape(s: string)
    ensures NoDoubleSpace(Collapse(s))
    ensures NonSpace(Collapse(s)) == NonSpace(s)
    ensures Collapse(s) == [] <==> s == []
    ensures s != [] ==> (IsSpace(Collapse(s)[0]) <==> IsSpace(s[0]))
    ensures s != [] ==> (IsSpace(Collapse(s)[|Collapse(s)| - 1]) <==> IsSpace(s[|s| - 1]))
  {
    CollapseHead(s);
    CollapseNoDouble(s);
    CollapseNonSpace(s);
    if s != [] {
      CollapseLast(s);
    }
  }

  lemma NoDoubleSpaceSlice(s: string, a: int, b: int)
    requires 0 <= a <= b <= |s| && NoDoubleSpace(s)
    ensures NoDoubleSpace(s[a..b])
  {
    var t := s[a..b];
    forall i | 0 <= i < |t| - 1 ensures !SpacePair(t, i) {
      assert t[i] == s[a + i] && t[i + 1] == s[a + i + 1];
      assert !SpacePair(s, a + i);
    }
  }

  /** `str.strip()` is a slice of its input with no whitespace at either end. */
  lemma StripSlice(s: string) returns (a: nat, b: nat)
    ensures a <= b <= |s| && Strip(s) == s[a..b]
    ensures forall i :: 0 <= i < a ==> IsSpace(s[i])
    ensures forall i :: b <= i < |s| ==> IsSpace(s[i])
    ensures Tidy(s) ==> a == 0 && b == |s|
  {
    var l := DropSpaces(s);
    var r := DropTrailingSpaces(l);
    a := |s| - |l|;
    b := a + |r|;
    assert r == s[a..b];
    forall i | b <= i < |s| ensures IsSpace(s[i]) {
      assert s[i] == l[i - a];
    }
    if Tidy(s) && s != [] {
      assert l == s;
      assert r == l;
    }
  }

  /** `str.strip()` drops only whitespace and leaves none at either end. */
  lemma StripShape(s: string)
    ensures var r := Strip(s); r == [] || (!IsSpace(r[0]) && !IsSpace(r[|r| - 1]))
    ensures NonSpace(Strip(s)) == NonSpace(s)
    ensures NoDoubleSpace(s) ==> Tidy(Strip(s))
  {
    StripEnds(s);
    StripNonSpace(s);
    if NoDoubleSpace(s) {
      var a, b := StripSlice(s);
      NoDoubleSpaceSlice(s, a, b);
    }
  }

  lemma StripEnds(s: string)
    ensures var r := Strip(s); r == [] || (!IsSpace(r[0]) && !IsSpace(r[|r| - 1]))
  {
    var l := DropSpaces(s);
    var r := Strip(s);
    if r != [] {
      assert r[0] == l[0];
    }
  }

  lemma StripNonSpace(s: string)
    ensures NonSpace(Strip(s)) == NonSpace(s)
  {
    var l := DropSpaces(s);
    var r := DropTrailingSpaces(l);
    NonSpaceOfLeadingSpaces(s);
    NonSpaceOfSpacedTail(l, |r|);
  }

  /** Cutting off a tail of whitespace keeps the non-whitespace characters. */
  lemma {:induction false} NonSpaceOfSpacedTail(l: string, k: nat)
    requires k <= |l| && forall i :: k <= i < |l| ==> IsSpace(l[i])
    ensures NonSpace(l[..k]) == NonSpace(l)
    decreases k
  {
    if k == 0 {
      NonSpaceOfSpaces(l);
    } else {
      var t := l[1..];
      forall i | k - 1 <= i < |t| ensures IsSpace(t[i]) {
        assert t[i] == l[i + 1];
      }
      NonSpaceOfSpacedTail(t, k - 1);
      assert l[..k][1..] == t[..k - 1];
    }
  }

  /**
   * Replacing a whitespace-free pattern by a non-empty whitespace-free text
   * keeps the text empty or not, and keeps whitespace or not at either end.
   */
  lemma ReplaceEnds(s: string, p: string, rep: string)
    requires p != [] && rep != [] && SpaceFree(p) && SpaceFree(rep)
    ensures Replace(s, p, rep) == [] <==> s == []
    ensures s != [] ==> (IsSpace(Replace(s, p, rep)[0]) <==> IsSpace(s[0]))
    ensures s != [] ==> (IsSpace(Replace(s, p, rep)[|Replace(s, p, rep)| - 1]) <==> IsSpace(s[|s| - 1]))
  {
    if s != [] {
      ReplaceFirst(s, p, rep);
      ReplaceLast(s, p, rep);
    }
  }

  lemma ReplaceFirst(s: string, p: string, rep: string)
    requires p != [] && rep != [] && SpaceFree(p) && SpaceFree(rep) && s != []
    ensures Replace(s, p, rep) != [] && (IsSpace(Replace(s, p, rep)[0]) <==> IsSpace(s[0]))
  {
    if |s| >= |p| && s[..|p|] == p {
      assert s[0] == p[0];
    }
  }

  lemma {:induction false} ReplaceLast(s: string, p: string, rep: string)
    requires p != [] && rep != [] && SpaceFree(p) && SpaceFree(rep) && s != []
    ensures Replace(s, p, rep) != []
    ensures IsSpace(Replace(s, p, rep)[|Replace(s, p, rep)| - 1]) <==> IsSpace(s[|s| - 1])
    decreases |s|
  {
    if |s| < |p| {
    } else if s[..|p|] == p {
      var t := s[|p|..];
      var r := Replace(t, p, rep);
      assert Replace(s, p, rep) == rep + r;
      if t != [] {
        ReplaceLast(t, p, rep);
        assert t[|t| - 1] == s[|s| - 1];
        assert (rep + r)[|rep + r| - 1] == r[|r| - 1];
      } else {
        assert s[|s| - 1] == p[|p| - 1];
        assert !IsSpace(rep[|rep| - 1]);
      }
    } else {
      var t := s[1..];
      var r := Replace(t, p, rep);
      assert Replace(s, p, rep) == [s[0]] + r;
      if t != [] {
        ReplaceLast(t, p, rep);
        assert t[|t| - 1] == s[|s| - 1];
        assert ([s[0]] + r)[|r|] == r[|r| - 1];
      }
    }
  }


  /** The same replacement never puts two whitespace characters side by side. */
  lemma {:induction false} ReplaceSpacing(s: string, p: string, rep: string)
    requires p != [] && rep != [] && SpaceFree(p) && SpaceFree(rep)
    requires NoDoubleSpace(s)
    ensures NoDoubleSpace(Replace(s, p, rep))
    decreases |s|
  {
    if |s| < |p| {
    } else if s[..|p|] == p {
      var t := s[|p|..];
      NoDoubleSpaceSlice(s, |p|, |s|);
      assert s[|p|..|s|] == t;
      ReplaceSpacing(t, p, rep);
      assert !IsSpace(rep[|rep| - 1]);
      NoDoubleSpaceConcat(rep, Replace(t, p, rep));
    } else {
      var t := s[1..];
      NoDoubleSpaceSlice(s, 1, |s|);
      assert s[1..|s|] == t;
      ReplaceSpacing(t, p, rep);
      ReplaceEnds(t, p, rep);
      assert Replace(s, p, rep) == [s[0]] + Replace(t, p, rep);
      if t != [] {
        assert s[1] == t[0];
        assert !SpacePair(s, 0);
      }
      NoDoubleSpaceConcat([s[0]], Replace(t, p, rep));
    }
  }

  /** Such a replacement keeps a tidy text tidy. */
  lemma ReplaceKeepsTidy(s: string, p: string, rep: string)
    requires p != [] && rep != [] && SpaceFree(p) && SpaceFree(rep)
    requires Tidy(s)
    ensures Tidy(Replace(s, p, rep))
  {
    ReplaceEnds(s, p, rep);
    ReplaceSpacing(s, p, rep);
  }

  /** No character of `rep` occurs in `q`. */
  predicate Disjoint(rep: string, q: string) {
    forall k :: 0 <= k < |rep| ==> rep[k] !in q
  }

  /** `q` occurs in a suffix of `s`, hence in `s`. */
  lemma ContainsInSuffix(s: string, d: nat, q: string)
    requires d <= |s| && Contains(s[d..], q)
    ensures Contains(s, q)
  {
    var j :| 0 <= j <= |s[d..]| - |q| && IsPrefixAt(s[d..], q, j);
    assert s[d + j..d + j + |q|] == s[d..][j..j + |q|];
    assert IsPrefixAt(s, q, d + j);
  }

  /**
   * A prefix of `Replace(s, p, rep)` either holds a character of `rep` or is
   * a prefix of `s` itself: text up to the first replacement is copied.
   */
  lemma {:induction false} ReplacePrefix(s: string, p: string, rep: string, k: nat)
    requires p != [] && rep != [] && k <= |Replace(s, p, rep)|
    ensures (exists j :: 0 <= j < k && Replace(s, p, rep)[j] in rep) ||
      (k <= |s| && Replace(s, p, rep)[..k] == s[..k])
    decreases |s|
  {
    var r := Replace(s, p, rep);
    if |s| < |p| {
    } else if s[..|p|] == p {
      if k > 0 {
        assert r[0] == rep[0];
      }
    } else if k > 0 {
      var r' := Replace(s[1..], p, rep);
      assert r == [s[0]] + r';
      ReplacePrefix(s[1..], p, rep, k - 1);
      if j :| 0 <= j < k - 1 && r'[j] in rep {
        assert r[j + 1] == r'[j];
      } else {
        assert r[..k] == [s[0]] + r'[..k - 1];
        assert s[..k] == [s[0]] + s[1..][..k - 1];
      }
    }
  }

  /** Where an occurrence of `q` in `a + b` starts decides whether it lies in `b` or begins in `a`. */
  lemma OccurrenceIn(a: string, b: string, q: string, j: int)
    requires IsPrefixAt(a + b, q, j)
    ensures j >= |a| ==> Contains(b, q)
    ensures j < |a| && q != [] ==> q[0] == a[j]
  {
    if j >= |a| {
      assert b[j - |a|..j - |a| + |q|] == (a + b)[j..j + |q|];
      assert IsPrefixAt(b, q, j - |a|);
    } else if q != [] {
      assert q[0] == (a + b)[j..j + |q|][0];
    }
  }

  /**
   * An occurrence of `q` at the very start of `Replace(s, p, rep)`, where `s`
   * does not begin with `p`, is an occurrence in `s` unless it overlaps `rep`.
   */
  lemma ReplaceHead(s: string, p: string, rep: string, q: string)
    requires p != [] && rep != [] && Disjoint(rep, q)
    requires |s| >= |p| && s[..|p|] != p && IsPrefixAt(Replace(s, p, rep), q, 0)
    ensures IsPrefixAt(s, q, 0)
  {
    var r := Replace(s, p, rep);
    ReplacePrefix(s, p, rep, |q|);
  }

  /**
   * Python's `str.replace` leaves no occurrence of the pattern behind when the
   * replacement shares no character with it.
   */
  lemma {:induction false} ReplaceRemoves(s: string, p: string, rep: string)
    requires p != [] && rep != [] && Disjoint(rep, p)
    ensures !Contains(Replace(s, p, rep), p)
    decreases |s|
  {
    var r := Replace(s, p, rep);
    if |s| >= |p| && Contains(r, p) {
      var j :| 0 <= j <= |r| - |p| && IsPrefixAt(r, p, j);
      if s[..|p|] == p {
        var r' := Replace(s[|p|..], p, rep);
        assert r == rep + r';
        OccurrenceIn(rep, r', p, j);
        ReplaceRemoves(s[|p|..], p, rep);
      } else {
        var r' := Replace(s[1..], p, rep);
        assert r == [s[0]] + r';
        OccurrenceIn([s[0]], r', p, j);
        ReplaceRemoves(s[1..], p, rep);
        ReplaceHead(s, p, rep, p);
      }
    }
  }

  /** A replacement whose text shares no character with `q` creates no occurrence of `q`. */
  lemma {:induction false} ReplaceKeepsAbsent(s: string, p: string, rep: string, q: string)
    requires p != [] && rep != [] && Disjoint(rep, q)
    ensures Contains(Replace(s, p, rep), q) ==> Contains(s, q)
    decreases |s|
  {
    var r := Replace(s, p, rep);
    if q == [] {
      assert IsPrefixAt(s, q, 0);
    } else if Contains(r, q) && |s| >= |p| {
      var j :| 0 <= j <= |r| - |q| && IsPrefixAt(r, q, j);
      if s[..|p|] == p {
        var r' := Replace(s[|p|..], p, rep);
        assert r == rep + r';
        OccurrenceIn(rep, r', q, j);
        if j >= |rep| {
          ReplaceKeepsAbsent(s[|p|..], p, rep, q);
          ContainsInSuffix(s, |p|, q);
        }
      } else {
        var r' := Replace(s[1..], p, rep);
        assert r == [s[0]] + r';
        OccurrenceIn([s[0]], r', q, j);
        if j > 0 {
          ReplaceKeepsAbsent(s[1..], p, rep, q);
          ContainsInSuffix(s, 1, q);
        } else {
          ReplaceHead(s, p, rep, q);
        }
      }
    }
  }

  /** A prefix of the collapsed text either holds whitespace or is a prefix of the original. */
  lemma {:induction false} CollapsePrefix(s: string, k: nat)
    requires k <= |Collapse(s)|
    ensures (exists j :: 0 <= j < k && IsSpace(Collapse(s)[j])) || (k <= |s| && Collapse(s)[..k] == s[..k])
    decreases |s|
  {
    if s != [] && k > 0 {
      if IsSpace(s[0]) {
        assert IsSpace(Collapse(s)[0]);
      } else {
        var r' := Collapse(s[1..]);
        assert Collapse(s) == [s[0]] + r';
        CollapsePrefix(s[1..], k - 1);
        if j :| 0 <= j < k - 1 && IsSpace(r'[j]) {
          assert Collapse(s)[j + 1] == r'[j];
        } else {
          assert Collapse(s)[..k] == [s[0]] + r'[..k - 1];
          assert s[..k] == [s[0]] + s[1..][..k - 1];
        }
      }
    }
  }

  /** Collapsing whitespace creates no occurrence of a whitespace-free pattern. */
  lemma {:induction false} CollapseKeepsAbsent(s: string, q: string)
    requires SpaceFree(q)
    ensures Contains(Collapse(s), q) ==> Contains(s, q)
    decreases |s|
  {
    var r := Collapse(s);
    if q == [] {
      assert IsPrefixAt(s, q, 0);
    } else if Contains(r, q) {
      var j :| 0 <= j <= |r| - |q| && IsPrefixAt(r, q, j);
      if IsSpace(s[0]) {
        var t := DropSpaces(s[1..]);
        var r' := Collapse(t);
        assert r == [' '] + r';
        OccurrenceIn([' '], r', q, j);
        if j > 0 {
          CollapseKeepsAbsent(t, q);
          assert t == s[|s| - |t|..];
          ContainsInSuffix(s, |s| - |t|, q);
        }
      } else {
        var r' := Collapse(s[1..]);
        assert r == [s[0]] + r';
        OccurrenceIn([s[0]], r', q, j);
        if j > 0 {
          CollapseKeepsAbsent(s[1..], q);
          ContainsInSuffix(s, 1, q);
        } else {
          CollapsePrefix(s, |q|);
          assert IsPrefixAt(s, q, 0);
        }
      }
    }
  }

  /** Stripping creates no occurrence of anything. */
  lemma StripKeepsAbsent(s: string, q: string)
    ensures Contains(Strip(s), q) ==> Contains(s, q)
  {
    var a, b := StripSlice(s);
    ContainsSlice(s, a, b, q);
  }

  /** What a slice contains, the whole text contains. */
  lemma ContainsSlice(s: string, a: nat, b: nat, q: string)
    requires a <= b <= |s|
    ensures Contains(s[a..b], q) ==> Contains(s, q)
  {
    if Contains(s[a..b], q) {
      var j :| 0 <= j <= |s[a..b]| - |q| && IsPrefixAt(s[a..b], q, j);
      SliceOfSlice(s, a, b, j, |q|);
      assert IsPrefixAt(s, q, a + j);
    }
  }


  /** Every whitespace character is a plain blank. */
  predicate OnlyBlanks(s: string) {
    forall i :: 0 <= i < |s| && IsSpace(s[i]) ==> s[i] == ' '
  }

  lemma {:induction false} CollapseBlanks(s: string)
    ensures OnlyBlanks(Collapse(s))
    decreases |s|
  {
    if s != [] {
      if IsSpace(s[0]) {
        CollapseBlanks(DropSpaces(s[1..]));
      } else {
        CollapseBlanks(s[1..]);
      }
    }
  }

  lemma {:induction false} ReplaceBlanks(s: string, p: string, rep: string)
    requires p != [] && OnlyBlanks(s) && OnlyBlanks(rep)
    ensures OnlyBlanks(Replace(s, p, rep))
    decreases |s|
  {
    if |s| >= |p| {
      if s[..|p|] == p {
        ReplaceBlanks(s[|p|..], p, rep);
      } else {
        ReplaceBlanks(s[1..], p, rep);
      }
    }
  }

  /** Text whose whitespace is already single blanks is left alone by the collapse. */
  lemma {:induction false} CollapseFixed(s: string)
    requires NoDoubleSpace(s) && OnlyBlanks(s)
    ensures Collapse(s) == s
    decreases |s|
  {
    if s != [] {
      NoDoubleSpaceSlice(s, 1, |s|);
      assert s[1..|s|] == s[1..];
      CollapseFixed(s[1..]);
      if IsSpace(s[0]) && |s| > 1 {
        assert !SpacePair(s, 0);
      }
    }
  }

  /** Replacing a pattern that does not occur changes nothing. */
  lemma {:induction false} ReplaceAbsent(s: string, p: string, rep: string)
    requires p != [] && !Contains(s, p)
    ensures Replace(s, p, rep) == s
    decreases |s|
  {
    if |s| >= |p| {
      assert !IsPrefixAt(s, p, 0);
      if Contains(s[1..], p) {
        ContainsInSuffix(s, 1, p);
      }
      ReplaceAbsent(s[1..], p, rep);
    }
  }

  lemma SliceOfSlice(s: string, a: nat, b: nat, j: nat, c: nat)
    requires a <= b <= |s| && j + c <= b - a
    ensures s[a..b][j..j + c] == s[a + j..a + j + c]
  {
    var l := s[a..b][j..j + c];
    var r := s[a + j..a + j + c];
    forall t | 0 <= t < c ensures l[t] == r[t] {
      assert l[t] == s[a..b][j + t];
    }
  }

  /** `x + y` starts at `p` exactly when `x` does and `y` follows it. */
  lemma PrefixConcat(s: string, x: string, y: string, p: nat)
    ensures IsPrefixAt(s, x + y, p) <==> IsPrefixAt(s, x, p) && IsPrefixAt(s, y, p + |x|)
  {
    if p + |x| + |y| <= |s| {
      assert s[p..p + |x| + |y|] == s[p..p + |x|] + s[p + |x|..p + |x| + |y|];
      if IsPrefixAt(s, x + y, p) {
        assert s[p..p + |x|] == (x + y)[..|x|];
        assert s[p + |x|..p + |x| + |y|] == (x + y)[|x|..];
      }
    }
  }

  /** A one-character substring test is the membership test. */
  lemma ContainsChar(s: string, c: char)
    ensures Contains(s, [c]) <==> c in s
  {
    if c in s {
      var j :| 0 <= j < |s| && s[j] == c;
      assert IsPrefixAt(s, [c], j);
    }
    if Contains(s, [c]) {
      var j :| 0 <= j <= |s| - 1 && IsPrefixAt(s, [c], j);
      assert s[j..j + 1][0] == s[j] == c;
    }
  }

  /** A word with a character the text lacks does not occur in it. */
  lemma MissingChar(s: string, p: string, k: nat)
    requires k < |p| && p[k] !in s
    ensures !Contains(s, p)
  {
    forall i | 0 <= i <= |s| - |p| ensures !IsPrefixAt(s, p, i) {
      CharOfOccurrence(s, p, i, k);
    }
  }

  lemma CharOfOccurrence(s: string, p: string, i: nat, k: nat)
    requires k < |p| && i + |p| <= |s|
    ensures IsPrefixAt(s, p, i) ==> s[i + k] == p[k]
  {
    assert s[i + k] == s[i..i + |p|][k];
  }

  /** A prefix without the pattern's first character passes through `Replace` untouched. */
  lemma {:induction false} ReplacePlainPrefix(a: string, t: string, p: string, rep: string)
    requires p != [] && p[0] !in a
    ensures Replace(a + t, p, rep) == a + Replace(t, p, rep)
    decreases |a|
  {
    if a != [] {
      var s := a + t;
      if |s| >= |p| {
        assert s[..|p|][0] == a[0];
        assert s[1..] == a[1..] + t;
        ReplacePlainPrefix(a[1..], t, p, rep);
      } else {
        assert |t| < |p|;
      }
    } else {
      assert a + t == t;
    }
  }

  /** A text without the pattern's first character is left as it is. */
  lemma ReplacePlain(s: string, p: string, rep: string)
    requires p != [] && p[0] !in s
    ensures Replace(s, p, rep) == s
  {
    ReplacePlainPrefix(s, [], p, rep);
    assert s + [] == s;
  }

  /** Leading whitespace is dropped from a concatenation as from its first part. */
  lemma {:induction false} DropSpacesConcat(x: string, z: string)
    requires z == [] || !IsSpace(z[0])
    ensures DropSpaces(x + z) == DropSpaces(x) + z
    decreases |x|
  {
    if x == [] {
      assert x + z == z;
    } else if IsSpace(x[0]) {
      assert (x + z)[1..] == x[1..] + z;
      DropSpacesConcat(x[1..], z);
    }
  }

  /** Trailing whitespace is dropped from a concatenation as from its last part. */
  lemma {:induction false} DropTrailingConcat(x: string, z: string)
    requires x == [] || !IsSpace(x[|x| - 1])
    ensures DropTrailingSpaces(x + z) == x + DropTrailingSpaces(z)
    decreases |z|
  {
    if z == [] {
      assert x + z == x;
    } else if IsSpace(z[|z| - 1]) {
      assert (x + z)[..|x + z| - 1] == x + z[..|z| - 1];
      DropTrailingConcat(x, z[..|z| - 1]);
    }
  }

  /** The collapse of a concatenation whose second part starts with a visible character. */
  lemma {:induction false} CollapseConcat(x: string, z: string)
    requires z == [] || !IsSpace(z[0])
    ensures Collapse(x + z) == Collapse(x) + Collapse(z)
    decreases |x|
  {
    if x == [] {
      assert x + z == z;
    } else if IsSpace(x[0]) {
      assert (x + z)[1..] == x[1..] + z;
      DropSpacesConcat(x[1..], z);
      CollapseConcat(DropSpaces(x[1..]), z);
    } else {
      assert (x + z)[1..] == x[1..] + z;
      CollapseConcat(x[1..], z);
    }
  }

  /** A whitespace-free text survives the collapse, and so does whatever follows it. */
  lemma {:induction false} CollapseSpaceFree(w: string, y: string)
    requires SpaceFree(w)
    ensures Collapse(w + y) == w + Collapse(y)
    decreases |w|
  {
    if w == [] {
      assert w + y == y;
    } else {
      assert (w + y)[1..] == w[1..] + y;
      CollapseSpaceFree(w[1..], y);
    }
  }

  /** Stripping a text with a visible middle part `w` strips its two sides apart. */
  lemma StripAround(a: string, w: string, b: string)
    requires w != [] && SpaceFree(w)
    ensures Strip(a + w + b) == DropSpaces(a) + (w + DropTrailingSpaces(b))
  {
    LeadingAround(a, w, b);
    TrailingAround(DropSpaces(a), w, b);
  }

  lemma LeadingAround(a: string, w: string, b: string)
    requires w != [] && SpaceFree(w)
    ensures DropSpaces(a + w + b) == DropSpaces(a) + (w + b)
  {
    assert !IsSpace(w[0]);
    assert a + w + b == a + (w + b);
    assert (w + b)[0] == w[0];
    DropSpacesConcat(a, w + b);
  }

  lemma TrailingAround(x: string, w: string, b: string)
    requires w != [] && SpaceFree(w)
    ensures DropTrailingSpaces(x + (w + b)) == x + (w + DropTrailingSpaces(b))
  {
    assert !IsSpace(w[|w| - 1]);
    var xw := x + w;
    assert xw[|xw| - 1] == w[|w| - 1];
    ConcatAssoc(x, w, b);
    DropTrailingConcat(xw, b);
    ConcatAssoc(x, w, DropTrailingSpaces(b));
  }

  lemma ConcatAssoc(x: string, w: string, y: string)
    ensures (x + w) + y == x + (w + y)
  {
  }

  /** Collapsing a text with a visible middle part `w` collapses its two sides apart. */
  lemma CollapseAround(x: string, w: string, y: string)
    requires w != [] && SpaceFree(w)
    ensures Collapse(x + (w + y)) == Collapse(x) + w + Collapse(y)
  {
    assert (w + y)[0] == w[0];
    CollapseConcat(x, w + y);
    CollapseSpaceFree(w, y);
  }

  /** Stripping and collapsing a text with a visible middle part `w` treat its two sides apart. */
  lemma StripCollapseAround(a: string, w: string, b: string)
    requires w != [] && SpaceFree(w)
    ensures Collapse(Strip(a + w + b)) ==
      Collapse(DropSpaces(a)) + w + Collapse(DropTrailingSpaces(b))
  {
    StripAround(a, w, b);
    CollapseAround(DropSpaces(a), w, DropTrailingSpaces(b));
  }

  /** Collapsing and stripping bring in no character that was not there. */
  lemma CharKept(s: string, c: char)
    requires !IsSpace(c) && c !in s
    ensures c !in Collapse(s) && c !in DropSpaces(s) && c !in DropTrailingSpaces(s)
  {
    ContainsChar(s, c);
    ContainsChar(Collapse(s), c);
    CollapseKeepsAbsent(s, [c]);
  }

  /** One occurrence of the pattern between texts without its first character is replaced. */
  lemma ReplaceOnce(a: string, b: string, p: string, rep: string)
    requires p != [] && p[0] !in a && p[0] !in b
    ensures Replace(a + p + b, p, rep) == a + rep + b
  {
    assert a + p + b == a + (p + b);
    ReplacePlainPrefix(a, p + b, p, rep);
    assert (p + b)[..|p|] == p && (p + b)[|p|..] == b;
    ReplacePlain(b, p, rep);
  }

  /**
   * A word that starts like the pattern but is not it, between texts without
   * the pattern's first character, is left alone.
   */
  lemma ReplaceOther(a: string, w: string, b: string, p: string, rep: string)
    requires p != [] && |w| >= |p| && w[..|p|] != p
    requires p[0] !in a && p[0] !in w[1..] && p[0] !in b
    ensures Replace(a + w + b, p, rep) == a + w + b
  {
    assert a + w + b == a + (w + b);
    ReplacePlainPrefix(a, w + b, p, rep);
    assert (w + b)[..|p|] == w[..|p|];
    assert (w + b)[1..] == w[1..] + b;
    ReplacePlain(w[1..] + b, p, rep);
    assert [w[0]] + (w[1..] + b) == w + b;
  }
}
