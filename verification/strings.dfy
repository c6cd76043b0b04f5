/**
 * The handful of Python `str` operations the commit tools are built from,
 * written out over `string` (a sequence of Unicode scalar values, which is
 * what a Python 3 `str` holds): substring search (`p in s`, `s.find(p)`),
 * `s.split(sep)` and `sep.join(parts)` for a non-empty separator, and
 * `s.strip(chars)`. Each comes with the facts the rest of the model needs.
 */
module Strings {

  datatype Option<+T> = None | Some(value: T)

  /** A value, or the error a Python function would have raised instead. */
  datatype Result<+T, +E> = Success(value: T) | Failure(error: E)

  /** Python's `str.isspace()` characters: the default set `str.strip()` removes. */
  const Whitespace: set<char> := {
    '\t', '\n', '\U{000B}', '\U{000C}', '\r', '\U{001C}', '\U{001D}', '\U{001E}', '\U{001F}', ' ',
    '\U{0085}', '\U{00A0}', '\U{1680}', '\U{2000}', '\U{2001}', '\U{2002}', '\U{2003}', '\U{2004}',
    '\U{2005}', '\U{2006}', '\U{2007}', '\U{2008}', '\U{2009}', '\U{200A}', '\U{2028}', '\U{2029}',
    '\U{202F}', '\U{205F}', '\U{3000}'
  }

  predicate IsAsciiLetter(c: char) { 'A' <= c <= 'Z' || 'a' <= c <= 'z' }

  predicate IsAsciiDigit(c: char) { '0' <= c <= '9' }

  predicate IsAsciiAlnum(c: char) { IsAsciiLetter(c) || IsAsciiDigit(c) }

  /** Lower-case hexadecimal digit, the class `[0-9a-f]`. */
  predicate IsLowerHex(c: char) { IsAsciiDigit(c) || 'a' <= c <= 'f' }

  // ---------------------------------------------------------------------
  // Substring search
  // ---------------------------------------------------------------------

  /** `p` occurs in `s` starting at index `i`. */
  predicate OccursAt(s: string, p: string, i: int)
  {
    0 <= i && i + |p| <= |s| && s[i..i + |p|] == p
  }

  /** The first index at or after `k` where `p` occurs in `s`. */
  function FindFrom(s: string, p: string, k: nat): (r: Option<nat>)
    ensures r.Some? ==> k <= r.value && OccursAt(s, p, r.value)
    ensures r.Some? ==> forall j :: k <= j < r.value ==> !OccursAt(s, p, j)
    ensures r.None? ==> forall j :: k <= j ==> !OccursAt(s, p, j)
    decreases |s| - k
  {
    if k + |p| > |s| then None
    else if s[k..k + |p|] == p then Some(k)
    else FindFrom(s, p, k + 1)
  }

  /** Python's `s.find(p)`, with `None` for -1. */
  function Find(s: string, p: string): (r: Option<nat>)
    ensures r.Some? ==> OccursAt(s, p, r.value) && forall j :: 0 <= j < r.value ==> !OccursAt(s, p, j)
    ensures r.None? <==> forall j :: !OccursAt(s, p, j)
  {
    FindFrom(s, p, 0)
  }

  /** Python's `p in s`. */
  function Contains(s: string, p: string): (b: bool)
    ensures b <==> exists i :: OccursAt(s, p, i)
  {
    Find(s, p).Some?
  }

  /** An occurrence inside a slice is an occurrence in the whole string. */
  lemma OccursInSlice(s: string, p: string, lo: int, hi: int, i: int)
    requires 0 <= lo <= hi <= |s|
    requires OccursAt(s[lo..hi], p, i)
    ensures OccursAt(s, p, lo + i)
  {
    var t := s[lo..hi];
    forall k | 0 <= k < |p|
      ensures s[lo + i + k] == p[k]
    {
      assert t[i..i + |p|][k] == t[i + k];
    }
    assert s[lo + i..lo + i + |p|] == p;
  }

  /**
   * If the first character of `p` appears nowhere in `a`, every occurrence
   * of `p` in `a + b` lies inside `b`.
   */
  lemma ContainsAfterFreePrefix(a: string, b: string, p: string)
    requires |p| > 0 && p[0] !in a
    ensures Contains(a + b, p) <==> Contains(b, p)
  {
    if Contains(a + b, p) {
      var i :| OccursAt(a + b, p, i);
      OccurrenceInSuffix(a, b, p, i);
    }
    if Contains(b, p) {
      var i :| OccursAt(b, p, i);
      OccurrenceShifts(a, b, p, i);
    }
  }

  lemma OccurrenceInSuffix(a: string, b: string, p: string, i: int)
    requires |p| > 0 && p[0] !in a && OccursAt(a + b, p, i)
    ensures i >= |a| && OccursAt(b, p, i - |a|)
  {
    var ab := a + b;
    assert ab[i] == p[0] by { assert ab[i..i + |p|][0] == ab[i]; }
    assert i >= |a|;
    assert b[i - |a|..i - |a| + |p|] == ab[i..i + |p|];
  }

  lemma OccurrenceShifts(a: string, b: string, p: string, i: int)
    requires OccursAt(b, p, i)
    ensures OccursAt(a + b, p, |a| + i)
  {
    assert (a + b)[|a| + i..|a| + i + |p|] == b[i..i + |p|];
  }

  /**
   * `p` has no border: no proper non-empty prefix of `p` is also a suffix
   * of it. Occurrences of such a string can never overlap.
   */
  predicate Unbordered(p: string)
  {
    forall k :: 0 < k < |p| ==> p[k..] != p[..|p| - k]
  }

  /** A string whose first character appears nowhere else has no border. */
  lemma UniqueFirstCharUnbordered(p: string)
    requires forall i :: 1 <= i < |p| ==> p[i] != p[0]
    ensures Unbordered(p)
  {
    forall k | 0 < k < |p|
      ensures p[k..] != p[..|p| - k]
    {
      assert p[k..][0] != p[..|p| - k][0];
    }
  }

  /** A string missing one of the characters of `p` does not contain `p`. */
  lemma MissingCharNotContained(s: string, p: string, k: int)
    requires 0 <= k < |p| && p[k] !in s
    ensures !Contains(s, p)
  {
    forall i | 0 <= i
      ensures !OccursAt(s, p, i)
    {
      if i + |p| <= |s| {
        assert s[i..i + |p|][k] == s[i + k];
        assert s[i + k] in s;
      }
    }
  }

  /** Occurrences of an unbordered `p` never overlap. */
  lemma NoOverlap(s: string, p: string, i: int, j: int)
    requires Unbordered(p) && OccursAt(s, p, j) && 0 <= i < j < i + |p|
    ensures !OccursAt(s, p, i)
  {
    if i + |p| <= |s| {
      var k := j - i;
      assert s[j..j + |p|][..|p| - k] == s[j..i + |p|];
      assert s[i..i + |p|][k..] == s[j..i + |p|];
      assert p[k..] != p[..|p| - k];
    }
  }

  /**
   * When `a` does not contain the unbordered `sep`, the first occurrence of
   * `sep` in `a + sep + r` is the one right after `a`.
   */
  lemma FindAfterFreePrefix(a: string, sep: string, r: string)
    requires |sep| > 0 && Unbordered(sep) && !Contains(a, sep)
    ensures Find(a + sep + r, sep) == Some(|a|)
  {
    var s := a + sep + r;
    assert s[|a|..|a| + |sep|] == sep;
    assert OccursAt(s, sep, |a|);
    forall j | 0 <= j < |a|
      ensures !OccursAt(s, sep, j)
    {
      if j + |sep| <= |a| {
        assert s[j..j + |sep|] == a[j..j + |sep|];
        assert !OccursAt(a, sep, j);
      } else {
        NoOverlap(s, sep, j, |a|);
      }
    }
  }

  // ---------------------------------------------------------------------
  // split and join
  // ---------------------------------------------------------------------

  /** Python's `s.split(sep)` for a non-empty separator. */
  function Split(s: string, sep: string): (parts: seq<string>)
    requires |sep| > 0
    ensures |parts| >= 1
    decreases |s|
  {
    match Find(s, sep)
    case None => [s]
    case Some(i) => [s[..i]] + Split(s[i + |sep|..], sep)
  }

  /** No piece of a split contains the separator. */
  lemma {:induction false} SplitPiecesFree(s: string, sep: string)
    requires |sep| > 0
    ensures forall k :: 0 <= k < |Split(s, sep)| ==> !Contains(Split(s, sep)[k], sep)
    decreases |s|
  {
    var found := Find(s, sep);
    if found.Some? {
      var i := found.value;
      var head := s[..i];
      forall j | OccursAt(head, sep, j)
        ensures false
      {
        OccursInSlice(s, sep, 0, i, j);
      }
      var rest := s[i + |sep|..];
      SplitPiecesFree(rest, sep);
      assert Split(s, sep) == [head] + Split(rest, sep);
    }
  }

  /** Python's `sep.join(parts)`. */
  function Join(parts: seq<string>, sep: string): string
  {
    if |parts| == 0 then ""
    else if |parts| == 1 then parts[0]
    else parts[0] + sep + Join(parts[1..], sep)
  }

  lemma JoinCons(head: string, tail: seq<string>, sep: string)
    requires |tail| >= 1
    ensures Join([head] + tail, sep) == head + sep + Join(tail, sep)
  {
    assert ([head] + tail)[1..] == tail;
  }

  /** Joining two non-empty runs of pieces is joining each and putting the separator between. */
  lemma {:induction false} JoinAppend(a: seq<string>, b: seq<string>, sep: string)
    requires |a| > 0 && |b| > 0
    ensures Join(a + b, sep) == Join(a, sep) + sep + Join(b, sep)
    decreases |a|
  {
    if |a| == 1 {
      assert a + b == [a[0]] + b;
      JoinCons(a[0], b, sep);
    } else {
      JoinAppend(a[1..], b, sep);
      assert a + b == [a[0]] + (a[1..] + b);
      JoinCons(a[0], a[1..] + b, sep);
      JoinCons(a[0], a[1..], sep);
      assert [a[0]] + a[1..] == a;
    }
  }

  lemma Recompose(s: string, p: string, i: int)
    requires OccursAt(s, p, i)
    ensures s == s[..i] + p + s[i + |p|..]
  {
    assert s == s[..i] + s[i..i + |p|] + s[i + |p|..];
  }

  /** Joining the pieces of a split with the same separator gives back the string. */
  lemma {:induction false} JoinSplit(s: string, sep: string)
    requires |sep| > 0
    ensures Join(Split(s, sep), sep) == s
    decreases |s|
  {
    var found := Find(s, sep);
    if found.None? {
      var parts := Split(s, sep);
      assert parts == [s];
      assert Join(parts, sep) == s;
    } else {
      var i := found.value;
      var rest := s[i + |sep|..];
      JoinSplit(rest, sep);
      var tail := Split(rest, sep);
      Recompose(s, sep, i);
      calc {
        Join(Split(s, sep), sep);
        { assert Split(s, sep) == [s[..i]] + tail; }
        Join([s[..i]] + tail, sep);
        { JoinCons(s[..i], tail, sep); }
        s[..i] + sep + Join(tail, sep);
        s[..i] + sep + rest;
      }
    }
  }

  /**
   * Splitting a join gives back the pieces, provided no piece contains the
   * separator and the separator cannot overlap itself.
   */
  lemma {:induction false} SplitJoin(parts: seq<string>, sep: string)
    requires |sep| > 0 && Unbordered(sep) && |parts| >= 1
    requires forall k :: 0 <= k < |parts| ==> !Contains(parts[k], sep)
    ensures Split(Join(parts, sep), sep) == parts
    decreases |parts|
  {
    if |parts| > 1 {
      var rest := Join(parts[1..], sep);
      FindAfterFreePrefix(parts[0], sep, rest);
      var s := parts[0] + sep + rest;
      assert s[|parts[0]| + |sep|..] == rest;
      assert s[..|parts[0]|] == parts[0];
      SplitJoin(parts[1..], sep);
    }
  }

  /** The text before the first occurrence of `sep` (all of `s` when there is none). */
  lemma SplitFirstPiece(a: string, sep: string, r: string)
    requires |sep| > 0 && Unbordered(sep) && !Contains(a, sep)
    ensures Split(a + sep + r, sep) == [a] + Split(r, sep)
  {
    FindAfterFreePrefix(a, sep, r);
    var s := a + sep + r;
    assert s[..|a|] == a;
    assert s[|a| + |sep|..] == r;
  }

  /** The last piece of a split is the text after the last separator. */
  lemma {:induction false} SplitLastPiece(x: string, sep: string, b: string)
    requires |sep| > 0 && Unbordered(sep) && !Contains(b, sep)
    ensures LastPiece(Split(x + sep + b, sep)) == b
    decreases |x|
  {
    var head, rest := SplitAtFirstSeparator(x, sep, b);
    if rest == b {
      assert Find(b, sep).None?;
      assert Split(rest, sep) == [b];
    } else {
      var x' :| |x'| < |x| && rest == x' + sep + b;
      SplitLastPiece(x', sep, b);
    }
    LastPieceOfCons(head, Split(rest, sep));
  }

  /** The split of `x + sep + b` starts with the piece before its first separator. */
  lemma SplitAtFirstSeparator(x: string, sep: string, b: string) returns (head: string, rest: string)
    requires |sep| > 0 && Unbordered(sep)
    ensures Split(x + sep + b, sep) == [head] + Split(rest, sep)
    ensures rest == b || exists x' :: |x'| < |x| && rest == x' + sep + b
  {
    var s := x + sep + b;
    var i := FirstSeparator(x, sep, b);
    head, rest := s[..i], s[i + |sep|..];
    SplitUnfold(s, sep, i);
    if i < |x| {
      var x' := x[i + |sep|..];
      assert |x'| < |x| && rest == x' + sep + b;
    } else {
      assert rest == b;
    }
  }

  /** One step of `Split` at the first separator. */
  lemma SplitUnfold(s: string, sep: string, i: nat)
    requires |sep| > 0 && Find(s, sep) == Some(i)
    ensures Split(s, sep) == [s[..i]] + Split(s[i + |sep|..], sep)
  {
    match Find(s, sep)
    case Some(v) => assert v == i;
  }

  function LastPiece(parts: seq<string>): string
    requires |parts| > 0
  {
    parts[|parts| - 1]
  }

  lemma LastPieceOfCons(head: string, tail: seq<string>)
    requires |tail| > 0
    ensures LastPiece([head] + tail) == LastPiece(tail)
  {
  }

  /** In `x + sep + b`, the first separator ends no later than `x + sep` does. */
  lemma FirstSeparator(x: string, sep: string, b: string) returns (i: nat)
    requires |sep| > 0 && Unbordered(sep)
    ensures Find(x + sep + b, sep) == Some(i)
    ensures i == |x| || i + |sep| <= |x|
  {
    var s := x + sep + b;
    assert s[|x|..|x| + |sep|] == sep;
    assert OccursAt(s, sep, |x|);
    forall j | 0 <= j < |x| < j + |sep|
      ensures !OccursAt(s, sep, j)
    {
      NoOverlap(s, sep, j, |x|);
    }
    i := Find(s, sep).value;
  }

  // ---------------------------------------------------------------------
  // strip
  // ---------------------------------------------------------------------

  /** The first index at or after `i` whose character is not in `chars` (`|s|` if none). */
  function SkipForward(s: string, chars: set<char>, i: nat): (k: nat)
    requires i <= |s|
    ensures i <= k <= |s|
    ensures forall m :: i <= m < k ==> s[m] in chars
    ensures k < |s| ==> s[k] !in chars
    decreases |s| - i
  {
    if i < |s| && s[i] in chars then SkipForward(s, chars, i + 1) else i
  }

  /** The end of `s[lo..j]` once the characters of `chars` at its end are dropped. */
  function SkipBackward(s: string, chars: set<char>, lo: nat, j: nat): (k: nat)
    requires lo <= j <= |s|
    ensures lo <= k <= j
    ensures forall m :: k <= m < j ==> s[m] in chars
    ensures k > lo ==> s[k - 1] !in chars
    decreases j
  {
    if j > lo && s[j - 1] in chars then SkipBackward(s, chars, lo, j - 1) else j
  }

  /** `r` is the slice of `s` at `lo`, and everything around it is made of `chars`. */
  predicate StrippedSlice(s: string, chars: set<char>, lo: int, r: string)
  {
    && 0 <= lo <= |s| - |r|
    && r == s[lo..lo + |r|]
    && (forall i :: 0 <= i < lo ==> s[i] in chars)
    && (forall i :: lo + |r| <= i < |s| ==> s[i] in chars)
  }

  /**
   * Python's `s.strip(chars)`: the longest middle slice of `s` that neither
   * starts nor ends with a character of `chars`; everything cut off on
   * either side is made of such characters.
   */
  function Strip(s: string, chars: set<char>): (r: string)
    ensures |r| > 0 ==> r[0] !in chars && r[|r| - 1] !in chars
    ensures exists lo :: StrippedSlice(s, chars, lo, r)
  {
    var lo := SkipForward(s, chars, 0);
    var hi := SkipBackward(s, chars, lo, |s|);
    assert StrippedSlice(s, chars, lo, s[lo..hi]);
    s[lo..hi]
  }

  /** Stripping a string that neither starts nor ends with a stripped character changes nothing. */
  lemma StripUnchanged(s: string, chars: set<char>)
    requires |s| == 0 || (s[0] !in chars && s[|s| - 1] !in chars)
    ensures Strip(s, chars) == s
  {
  }

  // ---------------------------------------------------------------------
  // Decimal formatting
  // ---------------------------------------------------------------------

  function DigitChar(d: nat): (c: char)
    requires d < 10
    ensures IsAsciiDigit(c)
  {
    (48 + d) as char
  }

  /** The decimal value of a string of ASCII digits. */
  function DigitsValue(s: string): nat
    requires forall i :: 0 <= i < |s| ==> IsAsciiDigit(s[i])
  {
    if |s| == 0 then 0
    else
      assert IsAsciiDigit(s[|s| - 1]);
      10 * DigitsValue(s[..|s| - 1]) + (s[|s| - 1] as int - '0' as int)
  }

  /** Python's `str(n)` for a natural number. */
  function NatToString(n: nat): (r: string)
    ensures |r| > 0
    ensures forall i :: 0 <= i < |r| ==> IsAsciiDigit(r[i])
    ensures |r| > 1 ==> r[0] != '0'
    ensures DigitsValue(r) == n
    decreases n
  {
    if n < 10 then [DigitChar(n)]
    else
      var r := NatToString(n / 10) + [DigitChar(n % 10)];
      assert r[..|r| - 1] == NatToString(n / 10);
      r
  }
}
