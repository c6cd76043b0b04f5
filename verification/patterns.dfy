/**
 * The fragment of Python regular expressions the commit tools use: a
 * pattern is a sequence of literal texts and one-or-more runs of a
 * character class (`[A-Za-z\d]+`, `\d+`, `[0-9a-f]+`). `MatchesSpan` is
 * the regex semantics; `MatchFrom` is a greedy matcher, proved to agree
 * with it whenever every run is either last or followed by a literal that
 * starts outside the run's class (so a run can only end in one place).
 * `re.match` is a match at index 0 and `re.search` a match at any index.
 */
module Patterns {
  import opened Strings

  datatype CharClass =
    | AlnumClass   // [A-Za-z\d]
    | DigitClass   // \d
    | HexClass     // [0-9a-f]

  predicate InClass(c: char, cls: CharClass)
  {
    match cls
    case AlnumClass => IsAsciiAlnum(c)
    case DigitClass => IsAsciiDigit(c)
    case HexClass => IsLowerHex(c)
  }

  datatype Token =
    | Lit(text: string)
    | Plus(cls: CharClass)

  type Pattern = seq<Token>

  /** Every character of `s[i..k]` is in `cls`. */
  predicate AllInClass(s: string, i: int, k: int, cls: CharClass)
  {
    0 <= i <= k <= |s| && forall m :: i <= m < k ==> InClass(s[m], cls)
  }

  /** Regex semantics: `pat` matches exactly the text `s[i..j]`. */
  ghost predicate MatchesSpan(pat: Pattern, s: string, i: int, j: int)
    decreases |pat|
  {
    if |pat| == 0 then 0 <= i == j <= |s|
    else match pat[0]
      case Lit(t) => OccursAt(s, t, i) && MatchesSpan(pat[1..], s, i + |t|, j)
      case Plus(c) => exists k :: i < k && AllInClass(s, i, k, c) && MatchesSpan(pat[1..], s, k, j)
  }

  /** Every run is last or followed by a non-empty literal whose first character is outside the run's class. */
  predicate Separated(pat: Pattern)
  {
    forall m :: 0 <= m < |pat| - 1 && pat[m].Plus? ==>
      pat[m + 1].Lit? && |pat[m + 1].text| > 0 && !InClass(pat[m + 1].text[0], pat[m].cls)
  }

  /** Length of the longest run of `cls` characters starting at `i`. */
  function RunLength(s: string, i: nat, cls: CharClass): (n: nat)
    requires i <= |s|
    ensures AllInClass(s, i, i + n, cls)
    ensures i + n == |s| || !InClass(s[i + n], cls)
    decreases |s| - i
  {
    if i < |s| && InClass(s[i], cls) then 1 + RunLength(s, i + 1, cls) else 0
  }

  /** Greedy matching of `pat` at index `i`; the end of the match if there is one. */
  function MatchFrom(pat: Pattern, s: string, i: nat): (r: Option<nat>)
    requires i <= |s|
    ensures r.Some? ==> i <= r.value <= |s|
    decreases |pat|
  {
    if |pat| == 0 then Some(i)
    else match pat[0]
      case Lit(t) =>
        if OccursAt(s, t, i) then MatchFrom(pat[1..], s, i + |t|) else None
      case Plus(c) =>
        var n := RunLength(s, i, c);
        if n == 0 then None else MatchFrom(pat[1..], s, i + n)
  }

  /** A greedy match is a regex match. */
  lemma {:induction false} MatchFromSound(pat: Pattern, s: string, i: nat)
    requires i <= |s| && MatchFrom(pat, s, i).Some?
    ensures MatchesSpan(pat, s, i, MatchFrom(pat, s, i).value)
    decreases |pat|
  {
    var j := MatchFrom(pat, s, i).value;
    if |pat| > 0 {
      var tok := pat[0];
      if tok.Lit? {
        var t := tok.text;
        assert MatchFrom(pat, s, i) == MatchFrom(pat[1..], s, i + |t|);
        MatchFromSound(pat[1..], s, i + |t|);
      } else {
        var n := RunLength(s, i, tok.cls);
        assert MatchFrom(pat, s, i) == MatchFrom(pat[1..], s, i + n);
        MatchFromSound(pat[1..], s, i + n);
        assert i < i + n && AllInClass(s, i, i + n, tok.cls) && MatchesSpan(pat[1..], s, i + n, j);
      }
    }
  }

  /** For a separated pattern, greedy matching finds a match whenever one exists. */
  lemma {:induction false} MatchFromComplete(pat: Pattern, s: string, i: nat, j: int)
    requires Separated(pat) && i <= |s| && MatchesSpan(pat, s, i, j)
    ensures MatchFrom(pat, s, i).Some?
    decreases |pat|
  {
    if |pat| > 0 {
      assert Separated(pat[1..]) by {
        forall m | 0 <= m < |pat[1..]| - 1 && pat[1..][m].Plus?
          ensures pat[1..][m + 1].Lit? && |pat[1..][m + 1].text| > 0
                  && !InClass(pat[1..][m + 1].text[0], pat[1..][m].cls)
        {
          assert pat[1..][m] == pat[m + 1] && pat[1..][m + 1] == pat[m + 2];
        }
      }
      match pat[0]
      case Lit(t) =>
        MatchFromComplete(pat[1..], s, i + |t|, j);
      case Plus(c) =>
        var k :| i < k && AllInClass(s, i, k, c) && MatchesSpan(pat[1..], s, k, j);
        var n := RunLength(s, i, c);
        if |pat| == 1 {
          assert k <= i + n;
        } else {
          var t := pat[1].text;
          assert pat[1..][0] == pat[1];
          assert OccursAt(s, t, k);
          assert s[k] == t[0] by { assert s[k..k + |t|][0] == s[k]; }
          assert !InClass(s[k], c);
          assert k == i + n;
          MatchFromComplete(pat[1..], s, k, j);
        }
    }
  }

  /** A match of a pattern holding a run of `cls` contains a character of `cls`. */
  lemma {:induction false} MatchHasClassChar(pat: Pattern, s: string, i: int, j: int, m: int)
    requires MatchesSpan(pat, s, i, j) && 0 <= m < |pat| && pat[m].Plus?
    ensures exists p :: 0 <= p < |s| && InClass(s[p], pat[m].cls)
    decreases |pat|
  {
    match pat[0]
    case Lit(t) =>
      assert pat[1..][m - 1] == pat[m];
      MatchHasClassChar(pat[1..], s, i + |t|, j, m - 1);
    case Plus(c) =>
      var k :| i < k && AllInClass(s, i, k, c) && MatchesSpan(pat[1..], s, k, j);
      if m == 0 {
        assert InClass(s[i], c);
      } else {
        assert pat[1..][m - 1] == pat[m];
        MatchHasClassChar(pat[1..], s, k, j, m - 1);
      }
  }

  /** Building a match from the left: a literal, then the rest. */
  lemma MatchLitThen(pat: Pattern, s: string, i: int, j: int)
    requires |pat| > 0 && pat[0].Lit? && OccursAt(s, pat[0].text, i)
    requires MatchesSpan(pat[1..], s, i + |pat[0].text|, j)
    ensures MatchesSpan(pat, s, i, j)
  {
  }

  /** Building a match from the left: a non-empty run, then the rest. */
  lemma MatchPlusThen(pat: Pattern, s: string, i: int, k: int, j: int)
    requires |pat| > 0 && pat[0].Plus? && i < k && AllInClass(s, i, k, pat[0].cls)
    requires MatchesSpan(pat[1..], s, k, j)
    ensures MatchesSpan(pat, s, i, j)
  {
  }

  /** Python's `re.match(pat, s)` is truthy: the pattern matches a prefix of `s`. */
  function MatchesAtStart(pat: Pattern, s: string): bool
  {
    MatchFrom(pat, s, 0).Some?
  }

  /** Python's `re.search(pat, s)` (or `pattern.search(s)`) is truthy, scanning from index `i`. */
  function SearchFrom(pat: Pattern, s: string, i: nat): bool
    requires i <= |s|
    decreases |s| - i
  {
    MatchFrom(pat, s, i).Some? || (i < |s| && SearchFrom(pat, s, i + 1))
  }

  function Search(pat: Pattern, s: string): bool
  {
    SearchFrom(pat, s, 0)
  }

  /** `re.match` agrees with the regex semantics. */
  lemma MatchesAtStartMeans(pat: Pattern, s: string)
    requires Separated(pat)
    ensures MatchesAtStart(pat, s) <==> exists j :: MatchesSpan(pat, s, 0, j)
  {
    if MatchesAtStart(pat, s) {
      MatchFromSound(pat, s, 0);
      var j := MatchFrom(pat, s, 0).value;
      assert MatchesSpan(pat, s, 0, j);
    }
    if exists j :: MatchesSpan(pat, s, 0, j) {
      var j :| MatchesSpan(pat, s, 0, j);
      MatchFromComplete(pat, s, 0, j);
    }
  }

  /** `re.search` agrees with the regex semantics: some span of `s` at or after `i` matches. */
  lemma {:induction false} SearchFromMeans(pat: Pattern, s: string, i: nat)
    requires Separated(pat) && i <= |s|
    ensures SearchFrom(pat, s, i) <==> exists a, b :: i <= a && MatchesSpan(pat, s, a, b)
    decreases |s| - i
  {
    if i < |s| {
      SearchFromMeans(pat, s, i + 1);
    }
    if MatchFrom(pat, s, i).Some? {
      MatchFromSound(pat, s, i);
      var j := MatchFrom(pat, s, i).value;
      assert i <= i && MatchesSpan(pat, s, i, j);
    }
    if i < |s| && SearchFrom(pat, s, i + 1) {
      var a, b :| i + 1 <= a && MatchesSpan(pat, s, a, b);
      assert i <= a && MatchesSpan(pat, s, a, b);
    }
    if exists a, b :: i <= a && MatchesSpan(pat, s, a, b) {
      var a, b :| i <= a && MatchesSpan(pat, s, a, b);
      if a == i {
        MatchFromComplete(pat, s, i, b);
      } else {
        MatchesSpanInRange(pat, s, a, b);
        assert i + 1 <= a && MatchesSpan(pat, s, a, b);
      }
    }
  }

  lemma {:induction false} MatchesSpanInRange(pat: Pattern, s: string, i: int, j: int)
    requires MatchesSpan(pat, s, i, j)
    ensures 0 <= i <= j <= |s|
    decreases |pat|
  {
    if |pat| > 0 {
      match pat[0]
      case Lit(t) =>
        MatchesSpanInRange(pat[1..], s, i + |t|, j);
      case Plus(c) =>
        var k :| i < k && AllInClass(s, i, k, c) && MatchesSpan(pat[1..], s, k, j);
        MatchesSpanInRange(pat[1..], s, k, j);
    }
  }

  lemma SearchMeans(pat: Pattern, s: string)
    requires Separated(pat)
    ensures Search(pat, s) <==> exists a, b :: MatchesSpan(pat, s, a, b)
  {
    SearchFromMeans(pat, s, 0);
    if exists a, b :: MatchesSpan(pat, s, a, b) {
      var a, b :| MatchesSpan(pat, s, a, b);
      MatchesSpanInRange(pat, s, a, b);
    }
  }
}
