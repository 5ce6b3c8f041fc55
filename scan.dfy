/**
 * The regular expressions the solvers and the LaTeX parser apply, written as
 * sequences of tokens and matched by a greedy scanner.
 *
 * Every pattern in the system is a top-level alternation of token sequences.
 * A token is a literal, an optional literal, a greedy run or a fixed count of
 * one character class, a lazy `.*?` that stops at a closing literal, or a
 * repeated / optional brace group `(?:\{[^}]*\})`.  `MatchAt` takes the
 * greedy choice at every token; `MatchAtExact` shows that this is the only
 * parse in which every token is greedy.  `FindAll` is `re.finditer` /
 * `re.findall` (leftmost match, first alternative, scanning resumes at the
 * end of the previous match) and `Search` is `re.search`.
 */
module Scan {
  import opened Common
  import opened Text

  datatype CharClass = SpaceChars | DigitChars | AlphaChars | UpperChars | Chars(cs: seq<char>)

  predicate InClass(c: char, cls: CharClass) {
    match cls
    case SpaceChars => IsSpace(c)
    case DigitChars => IsDigit(c)
    case AlphaChars => IsLetter(c)
    case UpperChars => IsUpper(c)
    case Chars(cs) => c in cs
  }

  predicate AllIn(w: string, cls: CharClass) {
    forall k :: 0 <= k < |w| ==> InClass(w[k], cls)
  }

  datatype Token =
    | Lit(text: string)                   // the literal `text`
    | OptLit(text: string)                // `(?:text)?`
    | Run(cls: CharClass, atLeastOne: bool) // `cls+` or `cls*`, greedy
    | Fixed(cls: CharClass, count: nat)   // `cls{count}`
    | LazyUntil(close: string)            // `.*?` in front of `close`
    | Braces(many: bool)                  // `(?:\{([^}]*)\})*` or `(?:\{([^}]*)\})?`

  /** The first `}` at or after `j`. */
  function CloseBrace(s: string, j: nat): (r: Option<nat>)
    requires j <= |s|
    ensures r.Some? ==> j <= r.value < |s| && s[r.value] == '}'
    ensures forall q :: j <= q < |s| && (r.None? || q < r.value) ==> s[q] != '}'
    decreases |s| - j
  {
    if j == |s| then None
    else if s[j] == '}' then Some(j)
    else CloseBrace(s, j + 1)
  }

  /** A brace group `{…}` (no `}` inside) starts at `e`. */
  predicate GroupAt(s: string, e: nat) {
    e < |s| && s[e] == '{' && CloseBrace(s, e + 1).Some?
  }

  /** `w` is a concatenation of brace groups. */
  predicate BraceGroups(w: string)
    decreases |w|
  {
    w == [] || (GroupAt(w, 0) && BraceGroups(w[CloseBrace(w, 1).value + 1..]))
  }

  /** `w` is the empty word or a single brace group. */
  predicate OneBraceGroup(w: string) {
    w == [] || (w[0] == '{' && CloseBrace(w, 1) == Some(|w| - 1))
  }

  /** The words a token can match. */
  predicate Accepts(t: Token, w: string) {
    match t
    case Lit(p) => w == p
    case OptLit(p) => w == [] || w == p
    case Run(cls, one) => (one ==> w != []) && AllIn(w, cls)
    case Fixed(cls, n) => |w| == n && AllIn(w, cls)
    case LazyUntil(c) => forall k :: 0 <= k < |w| ==> w[k] != '\n'
    case Braces(many) => if many then BraceGroups(w) else OneBraceGroup(w)
  }

  /**
   * The token took its most preferred choice in `s[i..e]`: an optional part is
   * taken when present, a greedy run or repetition cannot be extended, and a
   * lazy `.*?` stops at the first place where its closing literal, a newline
   * or the end of the text comes.
   */
  predicate Greedy(s: string, i: nat, e: nat, t: Token)
    requires i <= e <= |s|
  {
    match t
    case Lit(_) => true
    case Fixed(_, _) => true
    case OptLit(p) => IsPrefixAt(s, p, i) ==> e == i + |p|
    case Run(cls, _) => e == |s| || !InClass(s[e], cls)
    case LazyUntil(c) =>
      (forall q :: i <= q < e ==> !IsPrefixAt(s, c, q)) &&
      (e == |s| || s[e] == '\n' || IsPrefixAt(s, c, e))
    case Braces(many) => (many || e == i) ==> !GroupAt(s, e)
  }

  /** Token `t` matches `s[i..e]`, greedily. */
  predicate TokenFits(s: string, i: nat, e: nat, t: Token) {
    i <= e <= |s| && Accepts(t, s[i..e]) && Greedy(s, i, e, t)
  }

  /** The end of the longest run of `cls` characters starting at `i`. */
  function RunEnd(s: string, i: nat, cls: CharClass): (e: nat)
    requires i <= |s|
    ensures i <= e <= |s|
    ensures forall k :: i <= k < e ==> InClass(s[k], cls)
    ensures e == |s| || !InClass(s[e], cls)
    decreases |s| - i
  {
    if i < |s| && InClass(s[i], cls) then RunEnd(s, i + 1, cls) else i
  }

  /** Where a lazy `.*?` followed by `c` stops. */
  function LazyEnd(s: string, c: string, i: nat): (e: nat)
    requires i <= |s|
    ensures i <= e <= |s|
    ensures forall q :: i <= q < e ==> s[q] != '\n' && !IsPrefixAt(s, c, q)
    ensures e == |s| || s[e] == '\n' || IsPrefixAt(s, c, e)
    decreases |s| - i
  {
    if i == |s| || s[i] == '\n' || IsPrefixAt(s, c, i) then i else LazyEnd(s, c, i + 1)
  }

  /** Where a greedy repetition of brace groups starting at `i` ends. */
  function BracesEnd(s: string, i: nat): (e: nat)
    requires i <= |s|
    ensures i <= e <= |s|
    decreases |s| - i
  {
    if GroupAt(s, i) then BracesEnd(s, CloseBrace(s, i + 1).value + 1) else i
  }

  /** A slice sees the same first `}` as the whole text, when that `}` lies inside the slice. */
  lemma CloseBraceSlice(s: string, a: nat, b: nat, j: nat)
    requires a <= j <= b <= |s|
    ensures CloseBrace(s[a..b], j - a).Some? <==> (CloseBrace(s, j).Some? && CloseBrace(s, j).value < b)
    ensures CloseBrace(s[a..b], j - a).Some? ==> CloseBrace(s, j).value == CloseBrace(s[a..b], j - a).value + a
  {
    var w := s[a..b];
    var r, r' := CloseBrace(w, j - a), CloseBrace(s, j);
    if r.Some? {
      assert s[r.value + a] == w[r.value] == '}';
    }
  }

  lemma {:induction false} BracesEndFits(s: string, i: nat)
    requires i <= |s|
    ensures BraceGroups(s[i..BracesEnd(s, i)]) && !GroupAt(s, BracesEnd(s, i))
    decreases |s| - i
  {
    var e := BracesEnd(s, i);
    if GroupAt(s, i) {
      var k := CloseBrace(s, i + 1).value;
      BracesEndFits(s, k + 1);
      var w := s[i..e];
      CloseBraceSlice(s, i, e, i + 1);
      assert w[0] == '{';
      assert CloseBrace(w, 1) == Some(k - i);
      assert w[k - i + 1..] == s[k + 1..e];
    } else {
      assert s[i..e] == [];
    }
  }

  lemma {:induction false} BracesEndUnique(s: string, i: nat, e: nat)
    requires i <= e <= |s| && BraceGroups(s[i..e]) && !GroupAt(s, e)
    ensures e == BracesEnd(s, i)
    decreases e - i
  {
    var w := s[i..e];
    if w == [] {
      assert e == i;
    } else {
      var j := CloseBrace(w, 1).value;
      CloseBraceSlice(s, i, e, i + 1);
      assert s[i] == w[0] == '{';
      assert GroupAt(s, i);
      assert CloseBrace(s, i + 1) == Some(j + i);
      assert w[j + 1..] == s[i + j + 1..e];
      BracesEndUnique(s, i + j + 1, e);
    }
  }

  /** `r` is where token `t` ends when it starts at `i`: its only greedy fit, or `None` when there is none. */
  ghost predicate IsTokenEnd(s: string, i: nat, t: Token, r: Option<nat>) {
    (r.Some? ==> TokenFits(s, i, r.value, t)) &&
    (forall e: nat :: TokenFits(s, i, e, t) ==> r == Some(e))
  }

  /** Where token `t` ends when it starts at `i`, or `None` when it cannot match there. */
  function TokenEnd(s: string, i: nat, t: Token): (r: Option<nat>)
    requires i <= |s|
    ensures IsTokenEnd(s, i, t, r)
  {
    match t
    case Lit(p) => LitFits(s, i, p); if IsPrefixAt(s, p, i) then Some(i + |p|) else None
    case OptLit(p) => OptFits(s, i, p); Some(if IsPrefixAt(s, p, i) then i + |p| else i)
    case Run(cls, one) =>
      RunFits(s, i, cls, one);
      var e := RunEnd(s, i, cls);
      if one && e == i then None else Some(e)
    case Fixed(cls, n) => FixedFits(s, i, cls, n); if i + n <= |s| && AllIn(s[i..i + n], cls) then Some(i + n) else None
    case LazyUntil(c) => LazyFits(s, i, c); Some(LazyEnd(s, c, i))
    case Braces(many) =>
      if many then
        BracesFits(s, i);
        Some(BracesEnd(s, i))
      else
        OneGroupFits(s, i);
        Some(if GroupAt(s, i) then CloseBrace(s, i + 1).value + 1 else i)
  }

  lemma LitFits(s: string, i: nat, p: string)
    requires i <= |s|
    ensures IsTokenEnd(s, i, Lit(p), if IsPrefixAt(s, p, i) then Some(i + |p|) else None)
  {
  }

  lemma FixedFits(s: string, i: nat, cls: CharClass, n: nat)
    requires i <= |s|
    ensures IsTokenEnd(s, i, Fixed(cls, n), if i + n <= |s| && AllIn(s[i..i + n], cls) then Some(i + n) else None)
  {
  }

  lemma OptFits(s: string, i: nat, p: string)
    requires i <= |s|
    ensures IsTokenEnd(s, i, OptLit(p), Some(if IsPrefixAt(s, p, i) then i + |p| else i))
  {
  }

  lemma BracesFits(s: string, i: nat)
    requires i <= |s|
    ensures IsTokenEnd(s, i, Braces(true), Some(BracesEnd(s, i)))
  {
    BracesEndFits(s, i);
    forall e: nat | TokenFits(s, i, e, Braces(true)) ensures e == BracesEnd(s, i) {
      BracesEndUnique(s, i, e);
    }
  }

  lemma RunFits(s: string, i: nat, cls: CharClass, one: bool)
    requires i <= |s|
    ensures var e := RunEnd(s, i, cls);
      IsTokenEnd(s, i, Run(cls, one), if one && e == i then None else Some(e))
  {
    var e := RunEnd(s, i, cls);
    assert AllIn(s[i..e], cls) by {
      forall k | 0 <= k < |s[i..e]| ensures InClass(s[i..e][k], cls) {
        assert s[i..e][k] == s[i + k];
      }
    }
    forall e': nat | TokenFits(s, i, e', Run(cls, one)) ensures e' == e && !(one && e == i) {
    }
  }

  lemma LazyFits(s: string, i: nat, c: string)
    requires i <= |s|
    ensures IsTokenEnd(s, i, LazyUntil(c), Some(LazyEnd(s, c, i)))
  {
    var e := LazyEnd(s, c, i);
    assert forall k :: 0 <= k < |s[i..e]| ==> s[i..e][k] == s[i + k];
    forall e': nat | TokenFits(s, i, e', LazyUntil(c)) ensures e' == e {
    }
  }

  lemma OneGroupFits(s: string, i: nat)
    requires i <= |s|
    ensures IsTokenEnd(s, i, Braces(false), Some(if GroupAt(s, i) then CloseBrace(s, i + 1).value + 1 else i))
  {
    if GroupAt(s, i) {
      var k := CloseBrace(s, i + 1).value;
      CloseBraceSlice(s, i, k + 1, i + 1);
      assert s[i..k + 1][0] == s[i];
      forall e': nat | TokenFits(s, i, e', Braces(false)) ensures e' == k + 1 {
        if e' != i {
          CloseBraceSlice(s, i, e', i + 1);
          assert s[i..e'][0] == s[i];
        }
      }
    } else {
      forall e': nat | TokenFits(s, i, e', Braces(false)) ensures e' == i {
        if e' != i {
          CloseBraceSlice(s, i, e', i + 1);
        }
      }
    }
  }

  /** The bounds `b` split `s` from `i` into one greedy slice per token of `pat`. */
  predicate Parse(s: string, i: nat, pat: seq<Token>, b: seq<nat>) {
    |b| == |pat| + 1 && b[0] == i &&
    forall k :: 0 <= k < |pat| ==> TokenFits(s, b[k], b[k + 1], pat[k])
  }

  /** Non-decreasing boundaries, all within a text of length `n`. */
  predicate Bounded(b: seq<nat>, n: nat)
    decreases |b|
  {
    |b| >= 1 && b[0] <= n && (|b| == 1 || (b[0] <= b[1] && Bounded(b[1..], n)))
  }

  lemma {:induction false} BoundedAt(b: seq<nat>, n: nat, k: nat)
    requires Bounded(b, n) && k < |b|
    ensures b[0] <= b[k] <= n && (k + 1 < |b| ==> b[k] <= b[k + 1]) && b[k] <= b[|b| - 1]
    decreases |b|
  {
    if k > 0 {
      BoundedAt(b[1..], n, k - 1);
    } else if |b| > 1 {
      BoundedAt(b[1..], n, |b| - 2);
    }
  }

  /** `re.match` of one alternative at `i`: the token boundaries, or `None`. */
  function MatchAt(s: string, i: nat, pat: seq<Token>): (r: Option<seq<nat>>)
    requires i <= |s|
    ensures r.Some? ==> |r.value| == |pat| + 1 && r.value[0] == i && Bounded(r.value, |s|)
    decreases pat
  {
    if pat == [] then Some([i])
    else
      match TokenEnd(s, i, pat[0])
      case None => None
      case Some(e) =>
        match MatchAt(s, e, pat[1..])
        case None => None
        case Some(b) => Some([i] + b)
  }

  /** What `MatchAt` finds is a greedy parse. */
  lemma {:induction false} MatchAtParses(s: string, i: nat, pat: seq<Token>)
    requires i <= |s|
    ensures MatchAt(s, i, pat).Some? ==> Parse(s, i, pat, MatchAt(s, i, pat).value)
    decreases pat
  {
    if pat != [] && MatchAt(s, i, pat).Some? {
      var e := TokenEnd(s, i, pat[0]).value;
      MatchAtParses(s, e, pat[1..]);
      var b := MatchAt(s, e, pat[1..]).value;
      forall k | 0 <= k < |pat| ensures TokenFits(s, ([i] + b)[k], ([i] + b)[k + 1], pat[k]) {
        if k > 0 {
          assert pat[k] == pat[1..][k - 1];
        }
      }
    }
  }

  /** `MatchAt` fails only where no greedy parse exists. */
  lemma MatchAtNone(s: string, i: nat, pat: seq<Token>, b: seq<nat>)
    requires i <= |s| && MatchAt(s, i, pat).None?
    ensures !Parse(s, i, pat, b)
  {
    if Parse(s, i, pat, b) {
      MatchAtExact(s, i, pat, b);
    }
  }

  /** The greedy parse is unique: any greedy split of `s` from `i` is the one `MatchAt` finds. */
  lemma {:induction false} MatchAtExact(s: string, i: nat, pat: seq<Token>, b: seq<nat>)
    requires i <= |s| && Parse(s, i, pat, b)
    ensures MatchAt(s, i, pat) == Some(b)
    decreases pat
  {
    if pat != [] {
      assert TokenFits(s, b[0], b[1], pat[0]);
      assert TokenEnd(s, i, pat[0]) == Some(b[1]);
      assert Parse(s, b[1], pat[1..], b[1..]) by {
        forall k | 0 <= k < |pat[1..]| ensures TokenFits(s, b[1..][k], b[1..][k + 1], pat[1..][k]) {
          assert TokenFits(s, b[k + 1], b[k + 2], pat[k + 1]);
        }
      }
      MatchAtExact(s, b[1], pat[1..], b[1..]);
      assert b == [i] + b[1..];
    } else {
      assert b == [i];
    }
  }

  /** A match of one alternative of a pattern: which one, and its token boundaries. */
  datatype Match = Match(alt: nat, bounds: Bounds)

  /** Token boundaries: the start of the match, then the end of each token. */
  type Bounds = b: seq<nat> | |b| >= 1 witness [0]

  /** The match has bounds inside a text of length `n`. */
  predicate WellFormed(n: nat, m: Match) {
    Bounded(m.bounds, n)
  }

  function Start(m: Match): nat {
    m.bounds[0]
  }

  function End(m: Match): nat {
    m.bounds[|m.bounds| - 1]
  }

  /** Where scanning resumes after `m`: its end, or one past an empty match. */
  function Resume(m: Match): nat {
    if End(m) > Start(m) then End(m) else Start(m) + 1
  }

  /** The text of token `k` of the match (the capture group around it). */
  function Group(s: string, m: Match, k: nat): string
    requires WellFormed(|s|, m) && k + 1 < |m.bounds|
  {
    BoundedAt(m.bounds, |s|, k);
    BoundedAt(m.bounds, |s|, k + 1);
    s[m.bounds[k]..m.bounds[k + 1]]
  }

  /** The whole matched text. */
  function Matched(s: string, m: Match): string
    requires WellFormed(|s|, m)
  {
    BoundedAt(m.bounds, |s|, |m.bounds| - 1);
    s[Start(m)..End(m)]
  }

  /** The first alternative of `alts` that matches at `i`. */
  function MatchAlts(s: string, i: nat, alts: seq<seq<Token>>): (r: Option<Match>)
    requires i <= |s|
    ensures r.Some? ==> r.value.alt < |alts| && MatchAt(s, i, alts[r.value.alt]) == Some(r.value.bounds)
    ensures r.Some? ==> forall k {:trigger MatchAt(s, i, alts[k])} :: 0 <= k < r.value.alt ==> MatchAt(s, i, alts[k]).None?
    ensures r.Some? ==> WellFormed(|s|, r.value) && Start(r.value) == i && |r.value.bounds| == |alts[r.value.alt]| + 1
    ensures r.None? <==> forall k {:trigger MatchAt(s, i, alts[k])} :: 0 <= k < |alts| ==> MatchAt(s, i, alts[k]).None?
  {
    MatchFrom(s, i, alts, 0)
  }

  function MatchFrom(s: string, i: nat, alts: seq<seq<Token>>, a: nat): (r: Option<Match>)
    requires i <= |s|
    ensures r.Some? ==> a <= r.value.alt < |alts| && MatchAt(s, i, alts[r.value.alt]) == Some(r.value.bounds)
    ensures r.Some? ==> forall k {:trigger MatchAt(s, i, alts[k])} :: a <= k < r.value.alt ==> MatchAt(s, i, alts[k]).None?
    ensures r.Some? ==> WellFormed(|s|, r.value) && Start(r.value) == i && |r.value.bounds| == |alts[r.value.alt]| + 1
    ensures r.None? <==> forall k {:trigger MatchAt(s, i, alts[k])} :: a <= k < |alts| ==> MatchAt(s, i, alts[k]).None?
    decreases |alts| - a
  {
    if a >= |alts| then None
    else
      match MatchAt(s, i, alts[a])
      case Some(b) => Some(Match(a, b))
      case None => MatchFrom(s, i, alts, a + 1)
  }

  /** No alternative matches at any position in `[lo, hi)` of the text. */
  ghost predicate NoMatchFrom(s: string, alts: seq<seq<Token>>, lo: nat, hi: nat)
    decreases hi - lo
  {
    lo >= hi || lo > |s| || (MatchAlts(s, lo, alts).None? && NoMatchFrom(s, alts, lo + 1, hi))
  }

  lemma {:induction false} NoMatchAt(s: string, alts: seq<seq<Token>>, lo: nat, hi: nat, p: nat)
    requires NoMatchFrom(s, alts, lo, hi) && lo <= p < hi && p <= |s|
    ensures MatchAlts(s, p, alts).None?
    decreases p - lo
  {
    if p > lo {
      NoMatchAt(s, alts, lo + 1, hi, p);
    }
  }

  /** `re.search(pattern, s[i:])`: the leftmost match at or after `i`. */
  function Search(s: string, alts: seq<seq<Token>>, i: nat): (r: Option<Match>)
    ensures r.Some? ==> WellFormed(|s|, r.value) && i <= Start(r.value) <= |s|
    ensures r.Some? ==> MatchAlts(s, Start(r.value), alts) == r
    ensures r.Some? ==> NoMatchFrom(s, alts, i, Start(r.value))
    ensures r.None? <==> NoMatchFrom(s, alts, i, |s| + 1)
    decreases |s| + 1 - i
  {
    if i > |s| then None
    else
      match MatchAlts(s, i, alts)
      case Some(m) => Some(m)
      case None => Search(s, alts, i + 1)
  }

  /** Every position where the pattern matches is at or after the one `Search` reports. */
  lemma SearchLeftmost(s: string, alts: seq<seq<Token>>, i: nat, p: nat)
    requires i <= p <= |s|
    ensures MatchAlts(s, p, alts).Some? ==> Search(s, alts, i).Some? && Start(Search(s, alts, i).value) <= p
    ensures Search(s, alts, i).Some? ==> MatchAlts(s, Start(Search(s, alts, i).value), alts).Some?
  {
    var r := Search(s, alts, i);
    if r.None? {
      NoMatchAt(s, alts, i, |s| + 1, p);
    } else if p < Start(r.value) {
      NoMatchAt(s, alts, i, Start(r.value), p);
    }
  }

  /** `re.finditer(pattern, s)` from position `i`. */
  function FindAll(s: string, alts: seq<seq<Token>>, i: nat): (ms: seq<Match>)
    ensures forall k {:trigger ms[k]} :: 0 <= k < |ms| ==> WellFormed(|s|, ms[k]) && i <= Start(ms[k]) <= |s|
    ensures forall k :: 0 <= k < |ms| ==> MatchAlts(s, Start(ms[k]), alts) == Some(ms[k])
    decreases |s| + 1 - i
  {
    match Search(s, alts, i)
    case None => []
    case Some(m) =>
      var rest := FindAll(s, alts, Resume(m));
      assert forall k :: 0 < k < |[m] + rest| ==> ([m] + rest)[k] == rest[k - 1];
      [m] + rest
  }

  /** Each match ends before the next one starts. */
  lemma {:induction false} FindAllStep(s: string, alts: seq<seq<Token>>, i: nat, k: nat)
    requires k + 1 < |FindAll(s, alts, i)|
    ensures Resume(FindAll(s, alts, i)[k]) <= Start(FindAll(s, alts, i)[k + 1])
    decreases k
  {
    var ms := FindAll(s, alts, i);
    var m := Search(s, alts, i).value;
    var rest := FindAll(s, alts, Resume(m));
    assert ms == [m] + rest;
    assert ms[k + 1] == rest[k];
    if k > 0 {
      FindAllStep(s, alts, Resume(m), k - 1);
      assert ms[k] == rest[k - 1];
    }
  }

  /** Each match resumes at or before the start of the next. */
  ghost predicate Chained(ms: seq<Match>) {
    forall j :: 0 <= j < |ms| - 1 ==> Resume(ms[j]) <= Start(ms[j + 1])
  }

  lemma {:induction false} ChainedOrdered(ms: seq<Match>, k: nat, l: nat)
    requires Chained(ms) && k < l < |ms|
    ensures Resume(ms[k]) <= Start(ms[l])
    decreases l - k
  {
    if k < l - 1 {
      ChainedOrdered(ms, k, l - 1);
      assert Start(ms[l - 1]) <= Resume(ms[l - 1]) <= Start(ms[l]);
    }
  }

  /** The matches come in text order and do not overlap. */
  lemma FindAllOrdered(s: string, alts: seq<seq<Token>>, i: nat, k: nat, l: nat)
    requires k < l < |FindAll(s, alts, i)|
    ensures Resume(FindAll(s, alts, i)[k]) <= Start(FindAll(s, alts, i)[l])
  {
    var ms := FindAll(s, alts, i);
    forall j | 0 <= j < |ms| - 1 ensures Resume(ms[j]) <= Start(ms[j + 1]) {
      FindAllStep(s, alts, i, j);
    }
    ChainedOrdered(ms, k, l);
  }

  /**
   * Nothing is skipped: every position where the pattern matches is the start
   * of a reported match or lies inside one.
   */
  lemma {:induction false} FindAllComplete(s: string, alts: seq<seq<Token>>, i: nat, p: nat)
    requires i <= p <= |s| && MatchAlts(s, p, alts).Some?
    ensures exists k :: (0 <= k < |FindAll(s, alts, i)| &&
      Start(FindAll(s, alts, i)[k]) <= p < Resume(FindAll(s, alts, i)[k]))
    decreases |s| + 1 - i
  {
    SearchLeftmost(s, alts, i, p);
    var ms := FindAll(s, alts, i);
    var m := Search(s, alts, i).value;
    assert ms[0] == m;
    if p >= Resume(m) {
      FindAllComplete(s, alts, Resume(m), p);
      var k :| 0 <= k < |FindAll(s, alts, Resume(m))| &&
        Start(FindAll(s, alts, Resume(m))[k]) <= p < Resume(FindAll(s, alts, Resume(m))[k]);
      assert ms[k + 1] == FindAll(s, alts, Resume(m))[k];
    }
  }

  /** `re.findall` on a pattern with one group, at token `g` of every alternative. */
  function FindAllGroup(s: string, alts: seq<seq<Token>>, g: nat): (r: seq<string>)
    requires forall a :: 0 <= a < |alts| ==> g < |alts[a]|
    ensures |r| == |FindAll(s, alts, 0)|
    ensures forall k :: 0 <= k < |r| ==> r[k] == Group(s, FindAll(s, alts, 0)[k], g)
  {
    var ms := FindAll(s, alts, 0);
    seq(|ms|, k requires 0 <= k < |ms| => Group(s, ms[k], g))
  }

  /** Every match `FindAll` reports is a greedy parse of the alternative it names. */
  lemma FindAllParses(s: string, alts: seq<seq<Token>>, i: nat, k: nat)
    requires k < |FindAll(s, alts, i)|
    ensures var m := FindAll(s, alts, i)[k];
      m.alt < |alts| && Parse(s, Start(m), alts[m.alt], m.bounds)
  {
    var m := FindAll(s, alts, i)[k];
    MatchAtParses(s, Start(m), alts[m.alt]);
  }

  /** The `k`-th group `re.findall` reports is the text of token `g` of the `k`-th match. */
  lemma FindAllGroupFits(s: string, alts: seq<seq<Token>>, g: nat, k: nat)
    requires forall a :: 0 <= a < |alts| ==> g < |alts[a]|
    requires k < |FindAllGroup(s, alts, g)|
    ensures var m := FindAll(s, alts, 0)[k];
      m.alt < |alts| && g + 1 < |m.bounds| &&
      m.bounds[g] <= m.bounds[g + 1] <= |s| &&
      TokenFits(s, m.bounds[g], m.bounds[g + 1], alts[m.alt][g]) &&
      FindAllGroup(s, alts, g)[k] == s[m.bounds[g]..m.bounds[g + 1]]
  {
    var ms := FindAll(s, alts, 0);
    var m := ms[k];
    FindAllParses(s, alts, 0, k);
    assert Parse(s, Start(m), alts[m.alt], m.bounds);
    assert TokenFits(s, m.bounds[g], m.bounds[g + 1], alts[m.alt][g]);
    assert FindAllGroup(s, alts, g)[k] == Group(s, m, g);
  }

  /**
   * When every alternative has the token `t` at position `g`, the `k`-th group
   * `re.findall` reports is some `s[lo..hi]` that `t` matches.
   */
  lemma SharedGroupSpan(s: string, alts: seq<seq<Token>>, g: nat, t: Token, k: nat) returns (lo: nat, hi: nat)
    requires forall a :: 0 <= a < |alts| ==> g < |alts[a]| && alts[a][g] == t
    requires k < |FindAllGroup(s, alts, g)|
    ensures lo <= hi <= |s| && TokenFits(s, lo, hi, t)
    ensures FindAllGroup(s, alts, g)[k] == s[lo..hi]
  {
    FindAllGroupFits(s, alts, g, k);
    var m := FindAll(s, alts, 0)[k];
    lo, hi := m.bounds[g], m.bounds[g + 1];
  }

  /** `bool(re.search(pattern, s))`. */
  predicate Found(s: string, alts: seq<seq<Token>>) {
    Search(s, alts, 0).Some?
  }

  /**
   * The position of the first pattern in `table` that `re.search` finds in
   * `s` (`|table|` when none is found): the `for … if re.search(…): break`
   * scans of the solvers' pattern tables.
   */
  function FirstFound(s: string, table: seq<seq<seq<Token>>>): (r: nat)
    ensures r <= |table|
    ensures r < |table| ==> Found(s, table[r])
    ensures forall j :: 0 <= j < r ==> !Found(s, table[j])
  {
    if table == [] then 0
    else if Found(s, table[0]) then 0
    else
      var r := 1 + FirstFound(s, table[1..]);
      assert forall j :: 1 <= j < r ==> table[j] == table[1..][j - 1];
      r
  }

  /** The match `re.search` reports is a parse of one alternative where it starts. */
  lemma SearchParses(s: string, alts: seq<seq<Token>>, m: Match)
    requires Search(s, alts, 0) == Some(m)
    ensures m.alt < |alts| && Start(m) <= |s| && WellFormed(|s|, m) && Parse(s, Start(m), alts[m.alt], m.bounds)
  {
    MatchAtParses(s, Start(m), alts[m.alt]);
  }

  /** The `k`-th token of the reported alternative matches the `k`-th span of the match. */
  lemma SearchTokenFits(s: string, alts: seq<seq<Token>>, m: Match, k: nat)
    requires Search(s, alts, 0) == Some(m) && m.alt < |alts| && k < |alts[m.alt]|
    ensures |m.bounds| == |alts[m.alt]| + 1 && TokenFits(s, m.bounds[k], m.bounds[k + 1], alts[m.alt][k])
  {
    SearchParses(s, alts, m);
  }

  /** A parse of one alternative at some position is enough for `re.search` to find the pattern. */
  lemma FoundAt(s: string, alts: seq<seq<Token>>, a: nat, p: nat, b: seq<nat>)
    requires a < |alts| && p <= |s| && Parse(s, p, alts[a], b)
    ensures Found(s, alts)
  {
    MatchAtExact(s, p, alts[a], b);
    assert MatchAlts(s, p, alts).Some?;
    SearchLeftmost(s, alts, 0, p);
  }

  /** The pattern is found exactly when one of its alternatives matches at some position. */
  lemma FoundIff(s: string, alts: seq<seq<Token>>)
    ensures Found(s, alts) <==>
      exists p: nat, a {:trigger MatchAt(s, p, alts[a])} :: p <= |s| && 0 <= a < |alts| && MatchAt(s, p, alts[a]).Some?
  {
    if Found(s, alts) {
      var m := Search(s, alts, 0).value;
      assert MatchAt(s, Start(m), alts[m.alt]).Some?;
    } else {
      forall p: nat, a | p <= |s| && 0 <= a < |alts| ensures MatchAt(s, p, alts[a]).None? {
        SearchLeftmost(s, alts, 0, p);
        assert MatchAlts(s, p, alts).None?;
      }
    }
  }

  /** A pattern matches at `i` when its first token does and the rest matches where that token ends. */
  lemma MatchAtCons(s: string, i: nat, t: Token, rest: seq<Token>)
    requires i <= |s|
    ensures MatchAt(s, i, [t] + rest).Some? <==>
      TokenEnd(s, i, t).Some? && MatchAt(s, TokenEnd(s, i, t).value, rest).Some?
  {
    assert ([t] + rest)[0] == t && ([t] + rest)[1..] == rest;
  }

  /** Tokens that can always match the empty word, or more, wherever they start. */
  predicate NeverFails(t: Token) {
    t.OptLit? || (t.Run? && !t.atLeastOne) || t.LazyUntil? || t.Braces?
  }

  /** A pattern made only of such tokens matches everywhere. */
  lemma {:induction false} MatchAtNeverFails(s: string, i: nat, pat: seq<Token>)
    requires i <= |s| && forall k :: 0 <= k < |pat| ==> NeverFails(pat[k])
    ensures MatchAt(s, i, pat).Some?
    decreases |pat|
  {
    if pat != [] {
      assert pat == [pat[0]] + pat[1..];
      MatchAtCons(s, i, pat[0], pat[1..]);
      MatchAtNeverFails(s, TokenEnd(s, i, pat[0]).value, pat[1..]);
    }
  }

  /** A pattern made of literal keywords only: `kw1|kw2|…`. */
  function Keywords(kws: seq<string>): (alts: seq<seq<Token>>)
    ensures |alts| == |kws|
    ensures forall k :: 0 <= k < |kws| ==> alts[k] == [Lit(kws[k])]
  {
    seq(|kws|, k requires 0 <= k < |kws| => [Lit(kws[k])])
  }

  /** Searching for an alternation of literals is the substring test. */
  lemma FoundKeywords(s: string, kws: seq<string>)
    ensures Found(s, Keywords(kws)) <==> ContainsAny(s, kws)
  {
    var alts := Keywords(kws);
    if Found(s, alts) {
      var m := Search(s, alts, 0).value;
      var a := m.alt;
      assert TokenFits(s, m.bounds[0], m.bounds[1], alts[a][0]);
      assert IsPrefixAt(s, kws[a], Start(m));
      assert Contains(s, kws[a]);
    }
    if ContainsAny(s, kws) {
      var k :| 0 <= k < |kws| && Contains(s, kws[k]);
      var p :| 0 <= p <= |s| - |kws[k]| && IsPrefixAt(s, kws[k], p);
      assert TokenFits(s, p, p + |kws[k]|, Lit(kws[k]));
      assert Parse(s, p, alts[k], [p, p + |kws[k]|]);
      MatchAtExact(s, p, alts[k], [p, p + |kws[k]|]);
      assert MatchAlts(s, p, alts).Some?;
      SearchLeftmost(s, alts, 0, p);
    }
  }

  /** The decimal value of a string of digits: `int(w)`. */
  function DigitsValue(w: string): nat
    decreases |w|
  {
    if w == [] then 0
    else DigitsValue(w[..|w| - 1]) * 10 + (if IsDigit(w[|w| - 1]) then w[|w| - 1] as int - '0' as int else 0)
  }

  /** `float(w)` for a string of the form `\d+\.?\d*`. */
  function DecimalValue(w: string): real {
    var n := RunEnd(w, 0, DigitChars);
    if n < |w| && w[n] == '.' then
      DigitsValue(w[..n]) as real + DigitsValue(w[n + 1..]) as real / Pow10(|w| - n - 1) as real
    else DigitsValue(w) as real
  }

  function Pow10(k: nat): (p: nat)
    ensures p >= 1
  {
    if k == 0 then 1 else 10 * Pow10(k - 1)
  }

  /** A letter with no letter on either side: `(?<![a-zA-Z])([a-zA-Z])(?![a-zA-Z])`. */
  predicate IsolatedAt(s: string, i: int) {
    0 <= i < |s| && IsLetter(s[i]) &&
    (i == 0 || !IsLetter(s[i - 1])) && (i == |s| - 1 || !IsLetter(s[i + 1]))
  }

  /** `set(re.findall(variable_pattern, s))`. */
  function IsolatedLetters(s: string): (r: set<char>)
    ensures forall c :: c in r <==> exists i :: IsolatedAt(s, i) && s[i] == c
  {
    set i | 0 <= i < |s| && IsolatedAt(s, i) :: s[i]
  }

  /** Lower-casing turns no other character into a digit. */
  lemma LowerKeepsDigits(s: string, lo: nat, hi: nat)
    requires lo <= hi <= |s|
    requires forall i :: lo <= i < hi ==> IsDigit(Lower(s)[i])
    ensures forall i :: lo <= i < hi ==> IsDigit(s[i])
  {
    forall i | lo <= i < hi ensures IsDigit(s[i]) {
      assert IsDigit(Lower(s)[i]) && Lower(s)[i] == LowerChar(s[i]);
    }
  }

  lemma DigitSlice(w: string, lo: nat, hi: nat)
    requires lo <= hi <= |w| && AllIn(w[lo..hi], DigitChars)
    ensures forall i :: lo <= i < hi ==> IsDigit(w[i])
  {
    forall i | lo <= i < hi ensures IsDigit(w[i]) {
      assert InClass(w[lo..hi][i - lo], DigitChars);
    }
  }

  lemma DigitsOfSlice(s: string, lo: nat, hi: nat)
    requires lo <= hi <= |s| && forall i :: lo <= i < hi ==> IsDigit(s[i])
    ensures AllIn(s[lo..hi], DigitChars)
  {
  }

  /** A run of digits in the lower-cased text is a run of digits in the text. */
  lemma DigitsThroughLower(s: string, lo: nat, hi: nat)
    requires lo <= hi <= |s| && AllIn(Lower(s)[lo..hi], DigitChars)
    ensures AllIn(s[lo..hi], DigitChars)
  {
    DigitSlice(Lower(s), lo, hi);
    LowerKeepsDigits(s, lo, hi);
    DigitsOfSlice(s, lo, hi);
  }

  /**
   * When every alternative has a digit run at position `g`, group `g` of each
   * match found in the lower-cased text is a non-empty run of digits of the text.
   */
  lemma CapturedDigitRun(s: string, alts: seq<seq<Token>>, g: nat, k: nat)
    requires forall a :: 0 <= a < |alts| ==> g < |alts[a]| && alts[a][g] == Run(DigitChars, true)
    requires k < |FindAll(Lower(s), alts, 0)|
    ensures var m := FindAll(Lower(s), alts, 0)[k];
      WellFormed(|s|, m) && g + 1 < |m.bounds| && Group(s, m, g) != [] && AllIn(Group(s, m, g), DigitChars)
  {
    var lower := Lower(s);
    var m := FindAll(lower, alts, 0)[k];
    FindAllParses(lower, alts, 0, k);
    assert TokenFits(lower, m.bounds[g], m.bounds[g + 1], Run(DigitChars, true));
    DigitsThroughLower(s, m.bounds[g], m.bounds[g + 1]);
  }
}
